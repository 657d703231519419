/** What decoding does to encoded read responses, stated as for requests in `RoundTrip`. */
module ReadRoundTrip {
  import opened Bytes
  import opened Varint
  import opened WireFormat
  import opened Messages
  import opened RoundTrip
  import opened ReadMessages

  // ---------------------------------------------------------------- merging

  function MergeRevision(a: RevisionToken, b: RevisionToken): RevisionToken {
    Msg(RevisionFields(Last(a.fields.data, b.fields.data, [])), a.unknown + b.unknown)
  }

  function MergeFailure(a: Failure, b: Failure): Failure {
    Msg(FailureFields(Last(a.fields.code, b.fields.code, 0), Last(a.fields.message, b.fields.message, []),
                      a.fields.retryable || b.fields.retryable),
        a.unknown + b.unknown)
  }

  function MergeResult(a: ReadResult, b: ReadResult): ReadResult {
    var f, g := a.fields, b.fields;
    Msg(ReadResultFields(
          Last(f.index, g.index, 0), Last(f.status, g.status, 0), MergeDocuments(f.document, g.document),
          if g.revision.None? then f.revision else Some(MergeRevision(OrNew(f.revision, NEW_REVISION), g.revision.value)),
          if g.failure.None? then f.failure else Some(MergeFailure(OrNew(f.failure, NEW_FAILURE), g.failure.value))),
        a.unknown + b.unknown)
  }

  function MergeResponse(a: ReadResponse, b: ReadResponse): ReadResponse {
    Msg(ReadResponseFields(a.fields.results + b.fields.results), a.unknown + b.unknown)
  }

  // ---------------------------------------------------------------- messages that survive the wire

  ghost predicate ValidRevision(m: RevisionToken) { OnlyUnknown(RevisionSchema, m.unknown) }
  ghost predicate ValidFailure(m: Failure) { OnlyUnknown(FailureSchema, m.unknown) }

  ghost predicate ValidResultFields(f: ReadResultFields) {
    && (f.document.Some? ==> ValidDocument(f.document.value))
    && (f.revision.Some? ==> ValidRevision(f.revision.value))
    && (f.failure.Some? ==> ValidFailure(f.failure.value))
  }
  ghost predicate ValidResult(m: ReadResult) { OnlyUnknown(ResultSchema, m.unknown) && ValidResultFields(m.fields) }

  ghost predicate ValidResponseFields(f: ReadResponseFields) {
    forall k | 0 <= k < |f.results| :: f.results[k].Some? && ValidResult(f.results[k].value)
  }
  ghost predicate ValidResponse(m: ReadResponse) { OnlyUnknown(ResponseSchema, m.unknown) && ValidResponseFields(m.fields) }

  // ---------------------------------------------------------------- decoding the parts

  lemma RevisionOverRevision(a: RevisionToken, b: RevisionToken)
    requires ValidRevision(b) && |RevisionBytes(b)| <= MAX_LEN
    ensures DecodeRevision(a, RevisionBytes(b)) == Ok(MergeRevision(a, b))
  {
    hide Run;
    RunStringBytes(RevisionSchema, ApplyRevision, a, 1, b.fields.data);
    var m1 := a.(fields := RevisionFields(Last(a.fields.data, b.fields.data, [])));
    RunThenUnknown(RevisionSchema, ApplyRevision, a, StringBytes(1, b.fields.data), m1, b.unknown);
  }

  lemma FailureOverFailure(a: Failure, b: Failure)
    requires ValidFailure(b) && |FailureBytes(b)| <= MAX_LEN
    ensures DecodeFailure(a, FailureBytes(b)) == Ok(MergeFailure(a, b))
  {
    hide Run, OnlyUnknown;
    var v := SignExtend(b.fields.code);
    var x, y, z := VarintBytes(1, v), StringBytes(2, b.fields.message), BoolBytes(3, b.fields.retryable);
    var m1 := a.(fields := a.fields.(code := Last(a.fields.code, b.fields.code, 0)));
    var m2 := m1.(fields := m1.fields.(message := Last(a.fields.message, b.fields.message, [])));
    var m3 := m2.(fields := MergeFailure(a, b).fields);
    RunVarintBytes(FailureSchema, ApplyFailure, a, 1, v);
    RunStringBytes(FailureSchema, ApplyFailure, m1, 2, b.fields.message);
    RunBoolBytes(FailureSchema, ApplyFailure, m2, 3, b.fields.retryable);
    RunPair(FailureSchema, ApplyFailure, a, x, m1, y);
    RunPair(FailureSchema, ApplyFailure, a, x + y, m2, z);
    RunThenUnknown(FailureSchema, ApplyFailure, a, x + y + z, m3, b.unknown);
  }

  /** The two varint fields of a result; the index is below 2^32, so nothing of it is cut off. */
  lemma NumbersOver(m: ReadResult, g: ReadResultFields)
    ensures DecodeResult(m, VarintBytes(1, g.index) + VarintBytes(2, SignExtend(g.status))) ==
            Ok(m.(fields := m.fields.(index := Last(m.fields.index, g.index, 0), status := Last(m.fields.status, g.status, 0))))
  {
    hide Run;
    var x, y := VarintBytes(1, g.index), VarintBytes(2, SignExtend(g.status));
    var m1 := m.(fields := m.fields.(index := Last(m.fields.index, g.index, 0)));
    RunVarintBytes(ResultSchema, ApplyResult, m, 1, g.index);
    RunVarintBytes(ResultSchema, ApplyResult, m1, 2, SignExtend(g.status));
    RunPair(ResultSchema, ApplyResult, m, x, m1, y);
  }

  lemma DocumentOver(m: ReadResult, d: Option<Document>)
    requires (d.Some? ==> ValidDocument(d.value)) && |DocumentRecord(3, d)| <= MAX_LEN
    ensures DecodeResult(m, DocumentRecord(3, d)) == Ok(m.(fields := m.fields.(document := MergeDocuments(m.fields.document, d))))
  {
    if d.Some? {
      hide Run, DocumentBytes, MergeDocument, ValidDocument;
      DocumentOverDocument(OrNew(m.fields.document, NEW_DOCUMENT), d.value);
      RunLen(ResultSchema, ApplyResult, m, 3, DocumentBytes(d.value));
    }
  }

  lemma RevisionOver(m: ReadResult, r: Option<RevisionToken>)
    requires (r.Some? ==> ValidRevision(r.value)) && |RevisionRecord(r)| <= MAX_LEN
    ensures DecodeResult(m, RevisionRecord(r)) ==
            Ok(m.(fields := m.fields.(revision :=
                 if r.None? then m.fields.revision else Some(MergeRevision(OrNew(m.fields.revision, NEW_REVISION), r.value)))))
  {
    if r.Some? {
      hide Run, RevisionBytes, MergeRevision, ValidRevision;
      RevisionOverRevision(OrNew(m.fields.revision, NEW_REVISION), r.value);
      RunLen(ResultSchema, ApplyResult, m, 4, RevisionBytes(r.value));
    }
  }

  lemma FailureOver(m: ReadResult, f: Option<Failure>)
    requires (f.Some? ==> ValidFailure(f.value)) && |FailureRecord(f)| <= MAX_LEN
    ensures DecodeResult(m, FailureRecord(f)) ==
            Ok(m.(fields := m.fields.(failure :=
                 if f.None? then m.fields.failure else Some(MergeFailure(OrNew(m.fields.failure, NEW_FAILURE), f.value)))))
  {
    if f.Some? {
      hide Run, FailureBytes, MergeFailure, ValidFailure;
      FailureOverFailure(OrNew(m.fields.failure, NEW_FAILURE), f.value);
      RunLen(ResultSchema, ApplyResult, m, 5, FailureBytes(f.value));
    }
  }

  /** Decoding an encoded result into any result merges the two. */
  lemma ResultOverResult(a: ReadResult, b: ReadResult)
    requires ValidResult(b) && |ResultBytes(b)| <= MAX_LEN
    ensures DecodeResult(a, ResultBytes(b)) == Ok(MergeResult(a, b))
  {
    hide Run, VarintBytes, DocumentRecord, RevisionRecord, FailureRecord, OnlyUnknown, ValidDocument, ValidRevision, ValidFailure, MergeDocuments,
         MergeRevision, MergeFailure, SignExtend;
    var g, merged := b.fields, MergeResult(a, b).fields;
    var w, x := VarintBytes(1, g.index) + VarintBytes(2, SignExtend(g.status)), DocumentRecord(3, g.document);
    var y, z := RevisionRecord(g.revision), FailureRecord(g.failure);
    var m1 := a.(fields := a.fields.(index := merged.index, status := merged.status));
    var m2 := m1.(fields := m1.fields.(document := merged.document));
    var m3 := m2.(fields := m2.fields.(revision := merged.revision));
    var m4 := m3.(fields := merged);
    NumbersOver(a, g);
    DocumentOver(m1, g.document);
    RevisionOver(m2, g.revision);
    FailureOver(m3, g.failure);
    RunPair(ResultSchema, ApplyResult, a, w, m1, x);
    RunPair(ResultSchema, ApplyResult, a, w + x, m2, y);
    RunPair(ResultSchema, ApplyResult, a, w + x + y, m3, z);
    RunThenUnknown(ResultSchema, ApplyResult, a, w + x + y + z, m4, b.unknown);
  }

  lemma ResultFromZero(b: ReadResult)
    ensures MergeResult(NEW_RESULT, b) == b
  {
    var f := b.fields;
    if f.document.Some? { DocumentFromZero(f.document.value); }
    if f.revision.Some? { assert [] + f.revision.value.unknown == f.revision.value.unknown; }
    if f.failure.Some? { assert [] + f.failure.value.unknown == f.failure.value.unknown; }
    assert [] + b.unknown == b.unknown;
  }

  function WithResults(m: ReadResponse, rs: seq<Option<ReadResult>>): ReadResponse {
    m.(fields := ReadResponseFields(m.fields.results + rs))
  }

  lemma ResultAppend(m: ReadResponse, r: Option<ReadResult>)
    requires r.Some? && ValidResult(r.value) && |ResultRecord(r)| <= MAX_LEN
    ensures DecodeResponse(m, ResultRecord(r)) == Ok(WithResults(m, [r]))
  {
    hide Run, ResultBytes, ValidResult, MergeResult;
    ResultOverResult(NEW_RESULT, r.value);
    ResultFromZero(r.value);
    RunLen(ResponseSchema, ApplyResponse, m, 1, ResultBytes(r.value));
  }

  /** Encoded results are appended in order, whatever was there. */
  lemma {:induction false} ResultsAppend(m: ReadResponse, rs: seq<Option<ReadResult>>)
    requires ValidResponseFields(ReadResponseFields(rs)) && |ResultsBytes(rs)| <= MAX_LEN
    ensures DecodeResponse(m, ResultsBytes(rs)) == Ok(WithResults(m, rs))
    decreases |rs|
  {
    hide ResultRecord, ValidResult, ApplyResponse, ReadField, ResponseSchema;
    if rs == [] {
      assert m.fields.results + [] == m.fields.results;
    } else {
      var x, y := ResultRecord(rs[0]), ResultsBytes(rs[1..]);
      ResultAppend(m, rs[0]);
      var m1 := WithResults(m, [rs[0]]);
      RunPair(ResponseSchema, ApplyResponse, m, x, m1, y);
      ResultsAppend(m1, rs[1..]);
      assert m.fields.results + [rs[0]] + rs[1..] == m.fields.results + rs;
    }
  }

  // ---------------------------------------------------------------- the theorems

  /** Decoding an encoded response into any response merges the two: results append. */
  lemma ResponseOverResponse(a: ReadResponse, b: ReadResponse)
    requires ValidResponse(b) && |ResponseBytes(b)| <= 0x7FFF_FFFF_FFFF_FFFF
    ensures DecodeResponse(a, ResponseBytes(b)) == Ok(MergeResponse(a, b))
  {
    hide Run, ResultsBytes, OnlyUnknown;
    ResultsAppend(a, b.fields.results);
    RunThenUnknown(ResponseSchema, ApplyResponse, a, ResultsBytes(b.fields.results), WithResults(a, b.fields.results), b.unknown);
  }

  lemma DecodedResult(m: ReadResult, data: seq<Byte>)
    requires ValidResult(m) && DecodeResult(m, data).Ok?
    ensures ValidResult(DecodeResult(m, data).value)
  {
    hide Run, OnlyUnknown;
    forall f: ReadResultFields, field: Field | ValidResultFields(f) && ApplyResult(f, field).Ok?
      ensures ValidResultFields(ApplyResult(f, field).value)
    {
      if field.LenField? {
        NewIsValid();
        if field.num == 3 {
          RunKeepsUnknown(DocumentSchema, ApplyDocument, OrNew(f.document, NEW_DOCUMENT), field.payload);
        } else if field.num == 4 {
          RunKeepsUnknown(RevisionSchema, ApplyRevision, OrNew(f.revision, NEW_REVISION), field.payload);
        } else if field.num == 5 {
          RunKeepsUnknown(FailureSchema, ApplyFailure, OrNew(f.failure, NEW_FAILURE), field.payload);
        }
      }
    }
    RunKeeps(ResultSchema, ApplyResult, ValidResultFields, m, data);
    RunKeepsUnknown(ResultSchema, ApplyResult, m, data);
  }

  lemma NewIsValid()
    ensures ValidDocument(NEW_DOCUMENT) && ValidRevision(NEW_REVISION) && ValidFailure(NEW_FAILURE)
    ensures ValidResult(NEW_RESULT) && ValidResponse(NEW_RESPONSE)
  {
  }

  /** Whatever bytes arrive, a decoded response has no nil inside it and keeps unknown fields as whole records. */
  lemma DecodedResponse(m: ReadResponse, data: seq<Byte>)
    requires ValidResponse(m) && DecodeResponse(m, data).Ok?
    ensures ValidResponse(DecodeResponse(m, data).value)
  {
    hide Run, OnlyUnknown, ValidResult;
    forall f: ReadResponseFields, field: Field | ValidResponseFields(f) && ApplyResponse(f, field).Ok?
      ensures ValidResponseFields(ApplyResponse(f, field).value)
    {
      if field.LenField? && field.num == 1 {
        NewIsValid();
        DecodedResult(NEW_RESULT, field.payload);
      }
    }
    RunKeeps(ResponseSchema, ApplyResponse, ValidResponseFields, m, data);
    RunKeepsUnknown(ResponseSchema, ApplyResponse, m, data);
  }

  /** A response decodes from its own bytes exactly when nothing in it is nil and its unknown bytes are whole records. */
  lemma ResponseRoundTripIff(m: ReadResponse)
    requires |ResponseBytes(m)| <= 0x7FFF_FFFF_FFFF_FFFF
    ensures DecodeResponse(NEW_RESPONSE, ResponseBytes(m)) == Ok(m) <==> ValidResponse(m)
  {
    hide DecodeResponse, ResponseBytes, ValidResponse;
    NewIsValid();
    if ValidResponse(m) {
      ResponseOverResponse(NEW_RESPONSE, m);
      assert [] + m.fields.results == m.fields.results && [] + m.unknown == m.unknown;
    } else if DecodeResponse(NEW_RESPONSE, ResponseBytes(m)) == Ok(m) {
      DecodedResponse(NEW_RESPONSE, ResponseBytes(m));
      assert false;
    }
  }

  /** An index on the wire counts modulo 2^32: a sender that writes more bits addresses another operation. */
  lemma IndexWraps(m: ReadResult, v: nat)
    requires v < TWO_64
    ensures DecodeResult(m, VarintRecord(1, v)) == Ok(m.(fields := m.fields.(index := v % TWO_32)))
  {
    hide Run;
    RunVarint(ResultSchema, ApplyResult, m, 1, v);
  }
}
