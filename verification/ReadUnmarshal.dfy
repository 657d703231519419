/** `UnmarshalVT` of the read response tree: the forward index loops, as in `Unmarshal`. */
module ReadUnmarshal {
  import opened Bytes
  import opened Varint
  import opened WireFormat
  import opened Messages
  import opened ReadMessages
  import opened Unmarshal

  method UnmarshalRevision(m0: RevisionToken, data: seq<Byte>) returns (r: Result<RevisionToken>)
    requires |data| <= MAX_LEN
    ensures Agrees(r, DecodeRevision(m0, data))
  {
    hide ReadField, Run;
    var m, i := m0, 0;
    RunEnds(RevisionSchema, ApplyRevision, m0, data);
    while i < |data|
      invariant 0 <= i <= |data|
      invariant Agrees(DecodeRevision(m0, data), DecodeRevision(m, data[i..]))
    {
      var next := NextField(RevisionSchema, data, i);
      if next.Err? {
        RunFails(RevisionSchema, ApplyRevision, m, data[i..]);
        return Err(next.error);
      }
      var rec := next.value;
      RunStep(RevisionSchema, ApplyRevision, m, data, i, rec);
      match rec.field {
        case VarintField(_, _) =>
          assert false;
        case LenField(_, v) =>
          m := m.(fields := m.fields.(data := v));
        case UnknownField(u) =>
          m := m.(unknown := m.unknown + u);
      }
      i := rec.n;
    }
    RunEnds(RevisionSchema, ApplyRevision, m, data);
    return Ok(m);
  }

  method UnmarshalFailure(m0: Failure, data: seq<Byte>) returns (r: Result<Failure>)
    requires |data| <= MAX_LEN
    ensures Agrees(r, DecodeFailure(m0, data))
  {
    hide ReadField, Run;
    var m, i := m0, 0;
    RunEnds(FailureSchema, ApplyFailure, m0, data);
    while i < |data|
      invariant 0 <= i <= |data|
      invariant Agrees(DecodeFailure(m0, data), DecodeFailure(m, data[i..]))
    {
      var next := NextField(FailureSchema, data, i);
      if next.Err? {
        RunFails(FailureSchema, ApplyFailure, m, data[i..]);
        return Err(next.error);
      }
      var rec := next.value;
      RunStep(FailureSchema, ApplyFailure, m, data, i, rec);
      match rec.field {
        case VarintField(num, v) =>
          if num == 1 {
            m := m.(fields := m.fields.(code := ToInt32(v)));
          } else {
            m := m.(fields := m.fields.(retryable := v % TWO_64 != 0));
          }
        case LenField(_, v) =>
          m := m.(fields := m.fields.(message := v));
        case UnknownField(u) =>
          m := m.(unknown := m.unknown + u);
      }
      i := rec.n;
    }
    RunEnds(FailureSchema, ApplyFailure, m, data);
    return Ok(m);
  }

  /** The submessage cases of a result: each is read into what is there, or into a new message. */
  method UnmarshalPart(f: ReadResultFields, num: int, v: seq<Byte>) returns (r: Result<ReadResultFields>)
    requires 3 <= num <= 5 && |v| <= MAX_LEN
    ensures Agrees(r, ApplyResult(f, LenField(num, v)))
  {
    hide Run;
    if num == 3 {
      var d := UnmarshalDocument(OrNew(f.document, NEW_DOCUMENT), v);
      return if d.Err? then Err(d.error) else Ok(f.(document := Some(d.value)));
    } else if num == 4 {
      var t := UnmarshalRevision(OrNew(f.revision, NEW_REVISION), v);
      return if t.Err? then Err(t.error) else Ok(f.(revision := Some(t.value)));
    } else {
      var x := UnmarshalFailure(OrNew(f.failure, NEW_FAILURE), v);
      return if x.Err? then Err(x.error) else Ok(f.(failure := Some(x.value)));
    }
  }

  method UnmarshalResult(m0: ReadResult, data: seq<Byte>) returns (r: Result<ReadResult>)
    requires |data| <= MAX_LEN
    ensures Agrees(r, DecodeResult(m0, data))
  {
    hide ReadField, Run;
    var m, i := m0, 0;
    RunEnds(ResultSchema, ApplyResult, m0, data);
    while i < |data|
      invariant 0 <= i <= |data|
      invariant Agrees(DecodeResult(m0, data), DecodeResult(m, data[i..]))
    {
      var next := NextField(ResultSchema, data, i);
      if next.Err? {
        RunFails(ResultSchema, ApplyResult, m, data[i..]);
        return Err(next.error);
      }
      var rec := next.value;
      RunStep(ResultSchema, ApplyResult, m, data, i, rec);
      match rec.field {
        case VarintField(num, v) =>
          if num == 1 {
            m := m.(fields := m.fields.(index := v % TWO_32));
          } else {
            m := m.(fields := m.fields.(status := ToInt32(v)));
          }
        case LenField(num, v) =>
          var f := UnmarshalPart(m.fields, num, v);
          if f.Err? {
            return Err(f.error);
          }
          m := m.(fields := f.value);
        case UnknownField(u) =>
          m := m.(unknown := m.unknown + u);
      }
      i := rec.n;
    }
    RunEnds(ResultSchema, ApplyResult, m, data);
    return Ok(m);
  }

  method UnmarshalResponse(m0: ReadResponse, data: seq<Byte>) returns (r: Result<ReadResponse>)
    requires |data| <= 0x7FFF_FFFF_FFFF_FFFF
    ensures Agrees(r, DecodeResponse(m0, data))
  {
    hide ReadField, Run;
    var m, i := m0, 0;
    RunEnds(ResponseSchema, ApplyResponse, m0, data);
    while i < |data|
      invariant 0 <= i <= |data|
      invariant Agrees(DecodeResponse(m0, data), DecodeResponse(m, data[i..]))
    {
      var next := NextField(ResponseSchema, data, i);
      if next.Err? {
        RunFails(ResponseSchema, ApplyResponse, m, data[i..]);
        return Err(next.error);
      }
      var rec := next.value;
      RunStep(ResponseSchema, ApplyResponse, m, data, i, rec);
      match rec.field {
        case VarintField(_, _) =>
          assert false;
        case LenField(_, v) =>
          var x := UnmarshalResult(NEW_RESULT, v);
          if x.Err? {
            return Err(x.error);
          }
          m := m.(fields := ReadResponseFields(m.fields.results + [Some(x.value)]));
        case UnknownField(u) =>
          m := m.(unknown := m.unknown + u);
      }
      i := rec.n;
    }
    RunEnds(ResponseSchema, ApplyResponse, m, data);
    return Ok(m);
  }
}
