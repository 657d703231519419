/**
 The wire format of each message in numbers: the tag bytes that are written, the field numbers that are known,
 and what the values mean, stated without the codec's own tables.
 */
module WireNumbers {
  import opened Bytes
  import opened Varint
  import opened WireFormat
  import opened Messages
  import opened RoundTrip
  import opened ReadMessages
  import opened ReadRoundTrip

  // ---------------------------------------------------------------- what is written

  /** A number that is not zero, after its tag byte; a negative one counts from 2^64 down. */
  function Number(tag: Byte, v: int): seq<Byte>
    requires -0x8000_0000 <= v < 0x1_0000_0000
  {
    if v == 0 then [] else [tag] + Encode(if v < 0 then v + 0x1_0000_0000_0000_0000 else v)
  }

  /** A counted run of bytes after its tag byte. */
  function Counted(tag: Byte, bs: seq<Byte>): seq<Byte> { [tag] + Encode(|bs|) + bs }

  function NonEmpty(tag: Byte, bs: seq<Byte>): seq<Byte> { if bs == [] then [] else Counted(tag, bs) }

  lemma AddressOnWire(m: RecordAddress)
    ensures AddressBytes(m) == NonEmpty(0x0A, m.fields.uri) + m.unknown
  {
  }

  lemma DocumentOnWire(m: Document)
    ensures DocumentBytes(m) == Number(0x08, m.fields.encoding) + NonEmpty(0x12, m.fields.payload) + m.unknown
  {
  }

  lemma ProgramOnWire(m: LuaProgram)
    ensures ProgramBytes(m) == NonEmpty(0x0A, m.fields.source) + NonEmpty(0x12, m.fields.sha256) + m.unknown
  {
  }

  lemma PutOnWire(m: PutOperation)
    ensures PutBytes(m) ==
            (if m.fields.document.Some? then Counted(0x0A, DocumentBytes(m.fields.document.value)) else []) +
            Number(0x10, m.fields.mode) + m.unknown
  {
  }

  lemma MergeOnWire(m: MergeOperation)
    ensures MergeBytes(m) ==
            (if m.fields.incoming.Some? then Counted(0x0A, DocumentBytes(m.fields.incoming.value)) else []) +
            (if m.fields.program.Some? then Counted(0x12, ProgramBytes(m.fields.program.value)) else []) + m.unknown
  {
  }

  /** The oneof comes last although its numbers, 2 and 3, are lower than the flag's 4. */
  lemma OperationOnWire(m: WriteOperation)
    ensures OperationBytes(m) ==
            (if m.fields.address.Some? then Counted(0x0A, AddressBytes(m.fields.address.value)) else []) +
            (if m.fields.returnDocument then [0x20, 0x01] else []) +
            (match m.fields.action
             case NoAction => []
             case Put(None) => [0x12, 0x00]
             case Put(Some(p)) => Counted(0x12, PutBytes(p))
             case Merge(None) => [0x1A, 0x00]
             case Merge(Some(p)) => Counted(0x1A, MergeBytes(p))) + m.unknown
  {
    hide PutBytes, MergeBytes, AddressBytes;
    assert Encode(0) == [0];
  }

  function Concatenated(parts: seq<seq<Byte>>): seq<Byte> { if parts == [] then [] else parts[0] + Concatenated(parts[1..]) }

  lemma {:induction false} OperationsOnWire(ops: seq<Option<WriteOperation>>)
    ensures OperationsBytes(ops) ==
            Concatenated(seq(|ops|, k requires 0 <= k < |ops| => if ops[k].Some? then Counted(0x12, OperationBytes(ops[k].value)) else [0x12, 0x00]))
  {
    hide OperationBytes;
    assert Encode(0) == [0];
    var parts := seq(|ops|, k requires 0 <= k < |ops| => if ops[k].Some? then Counted(0x12, OperationBytes(ops[k].value)) else [0x12, 0x00]);
    if ops != [] {
      OperationsOnWire(ops[1..]);
      assert parts[1..] == seq(|ops[1..]|, k requires 0 <= k < |ops[1..]| =>
        if ops[1..][k].Some? then Counted(0x12, OperationBytes(ops[1..][k].value)) else [0x12, 0x00]);
    }
  }

  lemma {:induction false} ProgramsOnWire(ps: seq<Option<LuaProgram>>)
    ensures ProgramsBytes(ps) ==
            Concatenated(seq(|ps|, k requires 0 <= k < |ps| => if ps[k].Some? then Counted(0x1A, ProgramBytes(ps[k].value)) else [0x1A, 0x00]))
  {
    hide ProgramBytes;
    assert Encode(0) == [0];
    var parts := seq(|ps|, k requires 0 <= k < |ps| => if ps[k].Some? then Counted(0x1A, ProgramBytes(ps[k].value)) else [0x1A, 0x00]);
    if ps != [] {
      ProgramsOnWire(ps[1..]);
      assert parts[1..] == seq(|ps[1..]|, k requires 0 <= k < |ps[1..]| =>
        if ps[1..][k].Some? then Counted(0x1A, ProgramBytes(ps[1..][k].value)) else [0x1A, 0x00]);
    }
  }

  /** A request: its mode under 0x08, its operations each under 0x12, its programs each under 0x1A, then what is unknown. */
  lemma RequestOnWire(m: WriteRequest)
    ensures var ops, ps := m.fields.operations, m.fields.luaPrograms;
            RequestBytes(m) ==
            Number(0x08, m.fields.completionMode) +
            Concatenated(seq(|ops|, k requires 0 <= k < |ops| => if ops[k].Some? then Counted(0x12, OperationBytes(ops[k].value)) else [0x12, 0x00])) +
            Concatenated(seq(|ps|, k requires 0 <= k < |ps| => if ps[k].Some? then Counted(0x1A, ProgramBytes(ps[k].value)) else [0x1A, 0x00])) +
            m.unknown
  {
    hide OperationBytes, ProgramBytes, OperationsBytes, ProgramsBytes, Concatenated;
    OperationsOnWire(m.fields.operations);
    ProgramsOnWire(m.fields.luaPrograms);
    assert VarintBytes(1, SignExtend(m.fields.completionMode)) == Number(0x08, m.fields.completionMode);
  }

  lemma RevisionOnWire(m: RevisionToken)
    ensures RevisionBytes(m) == NonEmpty(0x0A, m.fields.data) + m.unknown
  {
  }

  lemma FailureOnWire(m: Failure)
    ensures FailureBytes(m) ==
            Number(0x08, m.fields.code) + NonEmpty(0x12, m.fields.message) + (if m.fields.retryable then [0x18, 0x01] else []) + m.unknown
  {
  }

  lemma ResultOnWire(m: ReadResult)
    ensures ResultBytes(m) ==
            Number(0x08, m.fields.index) + Number(0x10, m.fields.status) +
            (if m.fields.document.Some? then Counted(0x1A, DocumentBytes(m.fields.document.value)) else []) +
            (if m.fields.revision.Some? then Counted(0x22, RevisionBytes(m.fields.revision.value)) else []) +
            (if m.fields.failure.Some? then Counted(0x2A, FailureBytes(m.fields.failure.value)) else []) + m.unknown
  {
    hide DocumentBytes, RevisionBytes, FailureBytes, Encode;
  }

  lemma {:induction false} ResponseOnWire(m: ReadResponse)
    ensures var rs := m.fields.results;
            ResponseBytes(m) ==
            Concatenated(seq(|rs|, k requires 0 <= k < |rs| => if rs[k].Some? then Counted(0x0A, ResultBytes(rs[k].value)) else [0x0A, 0x00])) + m.unknown
    decreases |m.fields.results|
  {
    hide ResultBytes;
    assert Encode(0) == [0];
    var rs := m.fields.results;
    var parts := seq(|rs|, k requires 0 <= k < |rs| => if rs[k].Some? then Counted(0x0A, ResultBytes(rs[k].value)) else [0x0A, 0x00]);
    if rs != [] {
      var rest := rs[1..];
      var tail := seq(|rest|, k requires 0 <= k < |rest| => if rest[k].Some? then Counted(0x0A, ResultBytes(rest[k].value)) else [0x0A, 0x00]);
      ResponseOnWire(Msg(ReadResponseFields(rest), []));
      assert ResultsBytes(rest) + [] == ResultsBytes(rest) && Concatenated(tail) + [] == Concatenated(tail);
      assert parts[1..] == tail;
      assert ResultRecord(rs[0]) == parts[0];
    }
  }

  // ---------------------------------------------------------------- what is known

  /** The field numbers each message knows, and their types; every other number is kept as unknown. */
  lemma KnownFields(num: int)
    ensures AddressSchema(num) == if num == 1 then LenKind else Skipped
    ensures DocumentSchema(num) == if num == 1 then VarintKind else if num == 2 then LenKind else Skipped
    ensures ProgramSchema(num) == if num in {1, 2} then LenKind else Skipped
    ensures PutSchema(num) == if num == 1 then LenKind else if num == 2 then VarintKind else Skipped
    ensures MergeSchema(num) == if num in {1, 2} then LenKind else Skipped
    ensures OperationSchema(num) == if num in {1, 2, 3} then LenKind else if num == 4 then VarintKind else Skipped
    ensures RequestSchema(num) == if num == 1 then VarintKind else if num in {2, 3} then LenKind else Skipped
    ensures RevisionSchema(num) == if num == 1 then LenKind else Skipped
    ensures FailureSchema(num) == if num in {1, 3} then VarintKind else if num == 2 then LenKind else Skipped
    ensures ResultSchema(num) == if num in {1, 2} then VarintKind else if num in {3, 4, 5} then LenKind else Skipped
    ensures ResponseSchema(num) == if num == 1 then LenKind else Skipped
  {
  }

  // ---------------------------------------------------------------- what any varint means

  /** The int32 a varint's low 32 bits stand for. */
  predicate IsInt32Of(v: int, groups: nat) { -0x8000_0000 <= v < 0x8000_0000 && (groups - v) % 0x1_0000_0000 == 0 }

  /**
   Any varint of at most ten bytes is taken for a number field, canonical or not: an enum keeps its low 32 bits, a
   flag is set unless the low 64 bits are zero.
   */
  lemma RequestNumbers(code: seq<Byte>, d: Document, p: PutOperation, w: WriteOperation, r: WriteRequest)
    requires |code| <= 10 && OneVarint(code)
    ensures exists v: Int32 :: IsInt32Of(v, Groups(code)) && DecodeDocument(d, [0x08] + code) == Ok(d.(fields := d.fields.(encoding := v)))
    ensures exists v: Int32 :: IsInt32Of(v, Groups(code)) && DecodePut(p, [0x10] + code) == Ok(p.(fields := p.fields.(mode := v)))
    ensures DecodeOperation(w, [0x20] + code) ==
            Ok(w.(fields := w.fields.(returnDocument := Groups(code) % 0x1_0000_0000_0000_0000 != 0)))
    ensures exists v: Int32 :: IsInt32Of(v, Groups(code)) && DecodeRequest(r, [0x08] + code) == Ok(r.(fields := r.fields.(completionMode := v)))
  {
    hide Run, OneVarint, Groups;
    var v := ToInt32(Groups(code));
    assert IsInt32Of(v, Groups(code));
    RunAnyVarint(DocumentSchema, ApplyDocument, d, 1, code);
    RunAnyVarint(PutSchema, ApplyPut, p, 2, code);
    RunAnyVarint(OperationSchema, ApplyOperation, w, 4, code);
    RunAnyVarint(RequestSchema, ApplyRequest, r, 1, code);
  }

  /** The same for responses; an operation index keeps its low 32 bits as they are. */
  lemma ResponseNumbers(code: seq<Byte>, f: Failure, r: ReadResult)
    requires |code| <= 10 && OneVarint(code)
    ensures exists v: Int32 :: IsInt32Of(v, Groups(code)) && DecodeFailure(f, [0x08] + code) == Ok(f.(fields := f.fields.(code := v)))
    ensures DecodeFailure(f, [0x18] + code) == Ok(f.(fields := f.fields.(retryable := Groups(code) % 0x1_0000_0000_0000_0000 != 0)))
    ensures DecodeResult(r, [0x08] + code) == Ok(r.(fields := r.fields.(index := Groups(code) % 0x1_0000_0000)))
    ensures exists v: Int32 :: IsInt32Of(v, Groups(code)) && DecodeResult(r, [0x10] + code) == Ok(r.(fields := r.fields.(status := v)))
  {
    hide Run, OneVarint, Groups;
    var v := ToInt32(Groups(code));
    assert IsInt32Of(v, Groups(code));
    RunAnyVarint(FailureSchema, ApplyFailure, f, 1, code);
    RunAnyVarint(FailureSchema, ApplyFailure, f, 3, code);
    RunAnyVarint(ResultSchema, ApplyResult, r, 1, code);
    RunAnyVarint(ResultSchema, ApplyResult, r, 2, code);
  }

  // ---------------------------------------------------------------- Last One Wins

  /** Two documents on the wire, one after the other: each field is the later one that is not zero. */
  lemma LaterDocumentWins(a: Document, b: Document)
    requires ValidDocument(a) && ValidDocument(b) && |DocumentBytes(a)| <= MAX_LEN && |DocumentBytes(b)| <= MAX_LEN
    ensures var r := DecodeDocument(NEW_DOCUMENT, DocumentBytes(a) + DocumentBytes(b));
            && r.Ok?
            && r.value.fields.encoding == (if b.fields.encoding != 0 then b.fields.encoding else a.fields.encoding)
            && r.value.fields.payload == (if b.fields.payload != [] then b.fields.payload else a.fields.payload)
            && r.value.unknown == a.unknown + b.unknown
  {
    hide Run, DocumentBytes;
    DocumentOverDocument(NEW_DOCUMENT, a);
    DocumentFromZero(a);
    RunConcat(DocumentSchema, ApplyDocument, NEW_DOCUMENT, DocumentBytes(a), DocumentBytes(b));
    DocumentOverDocument(a, b);
  }

  /** Two operations: a later action of the other kind replaces, one of the same kind merges, no action leaves it. */
  lemma LaterActionWins(a: WriteOperation, b: WriteOperation)
    requires NoNilWrapper(a.fields.action) && ValidOperation(b) && |OperationBytes(b)| <= MAX_LEN
    ensures var r := DecodeOperation(a, OperationBytes(b));
            && r.Ok? && r.value.fields.returnDocument == (a.fields.returnDocument || b.fields.returnDocument)
            && match b.fields.action
               case NoAction => r.value.fields.action == a.fields.action
               case Put(p) => if a.fields.action.Put? then r.value.fields.action.Put? else r.value.fields.action == Put(p)
               case Merge(p) => if a.fields.action.Merge? then r.value.fields.action.Merge? else r.value.fields.action == Merge(p)
  {
    hide Run, OperationBytes, ValidPut, ValidMerge, ValidAddress, OnlyUnknown, MergePut, MergeMerge, MergeAddress;
    OperationOverOperation(a, b);
    match b.fields.action
    case NoAction =>
    case Put(p) => PutFromZero(p.value);
    case Merge(p) => MergeFromZero(p.value);
  }

  /** Two requests: a later mode wins unless it is zero; operations and programs are appended. */
  lemma LaterRequestAppends(a: WriteRequest, b: WriteRequest)
    requires ValidRequest(a) && ValidRequest(b) && |RequestBytes(a)| <= MAX_LEN && |RequestBytes(b)| <= MAX_LEN
    ensures var r := DecodeRequest(NEW_REQUEST, RequestBytes(a) + RequestBytes(b));
            && r.Ok?
            && r.value.fields.completionMode == (if b.fields.completionMode != 0 then b.fields.completionMode else a.fields.completionMode)
            && r.value.fields.operations == a.fields.operations + b.fields.operations
            && r.value.fields.luaPrograms == a.fields.luaPrograms + b.fields.luaPrograms
            && r.value.unknown == a.unknown + b.unknown
  {
    hide Run, RequestBytes, ValidRequest;
    RequestRoundTrip(a);
    RequestConcat(NEW_REQUEST, RequestBytes(a), RequestBytes(b));
    RequestOverRequest(a, b);
  }

  // ---------------------------------------------------------------- nil

  /** Which bytes make a decoder called on nil store first: any readable record, or a write mode's tag with whatever follows. */
  lemma NilNumbers(data: seq<Byte>, rest: seq<Byte>)
    ensures ReadField(PutSchema, data).Ok? ==> NilError(PutSchema, data) == NilDereference
    ensures NilError(PutSchema, [0x10] + rest) == NilDereference
    ensures NilError(MergeSchema, data) == NilDereference <==> ReadField(MergeSchema, data).Ok?
  {
    hide ReadField;
    ReadTag(2, 0, rest);
  }
}
