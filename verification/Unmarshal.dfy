/**
 `UnmarshalVT`: a forward index loop per message. Each method reaches the end of every input, stays inside
 the slice although indexes wrap around at 2^63, and agrees with the record-by-record meaning of the bytes.
 */
module Unmarshal {
  import opened Bytes
  import opened Varint
  import opened WireFormat
  import opened Messages

  /** The head of every loop body and the wire-type test of its cases: one field, and the index after it. */
  method NextField(schema: Schema, data: seq<Byte>, start: nat) returns (r: Result<Record>)
    requires start < |data| <= MAX_LEN
    ensures r.Ok? ==> start < r.value.n <= |data| && Fits(schema, r.value.field)
    ensures r.Ok? && r.value.field.LenField? ==> |r.value.field.payload| < |data|
    ensures r.Ok? == ReadField(schema, data[start..]).Ok? && r != Err(NilDereference)
    ensures r.Ok? ==> ReadField(schema, data[start..]).value == r.value.(n := r.value.n - start)
  {
    hide Read, ReadLength, Skip;
    var tag := ReadAt(data, start);
    if tag.Err? {
      return Err(tag.error);
    }
    var index := start + tag.value.n;
    assert data[start..][tag.value.n..] == data[index..];
    var num, wireType := FieldNumber(tag.value.value), WireType(tag.value.value);
    if wireType == WIRE_END_GROUP {
      return Err(UnexpectedEndOfGroup);
    }
    if num <= 0 {
      return Err(IllegalTag);
    }
    match schema(num)
    case VarintKind =>
      if wireType != WIRE_VARINT {
        return Err(WrongWireType);
      }
      var p := ReadAt(data, index);
      if p.Err? {
        return Err(p.error);
      }
      return Ok(Record(VarintField(num, p.value.value), index + p.value.n));
    case LenKind =>
      if wireType != WIRE_LEN {
        return Err(WrongWireType);
      }
      var b := ReadLengthAt(data, index);
      if b.Err? {
        return Err(b.error);
      }
      return Ok(Record(LenField(num, data[b.value.0..b.value.1]), b.value.1));
    case Skipped =>
      var end := SkipAt(data, start);
      if end.Err? {
        return Err(end.error);
      }
      assert data[start..][..end.value - start] == data[start..end.value];
      return Ok(Record(UnknownField(data[start..end.value]), end.value));
  }

  /** One turn of a loop keeps the meaning of the rest of the input. */
  lemma RunStep<F>(schema: Schema, apply: (F, Field) -> Result<F>, m: Msg<F>, data: seq<Byte>, i: nat, rec: Record)
    requires i < rec.n <= |data|
    requires ReadField(schema, data[i..]) == Ok(rec.(n := rec.n - i))
    ensures Run(schema, apply, m, data[i..]) ==
            match Step(apply, m, rec.field)
            case Err(e) => Err(e)
            case Ok(m') => Run(schema, apply, m', data[rec.n..])
  {
    hide ReadField, Step;
    assert data[i..][rec.n - i..] == data[rec.n..];
  }

  lemma RunFails<F>(schema: Schema, apply: (F, Field) -> Result<F>, m: Msg<F>, data: seq<Byte>)
    requires data != [] && ReadField(schema, data).Err?
    ensures Run(schema, apply, m, data).Err? && Run(schema, apply, m, data) != Err(NilDereference)
  {
  }

  lemma RunEnds<F>(schema: Schema, apply: (F, Field) -> Result<F>, m: Msg<F>, data: seq<Byte>)
    ensures data[0..] == data
    ensures Run(schema, apply, m, data[|data|..]) == Ok(m)
  {
  }

  method UnmarshalAddress(m0: RecordAddress, data: seq<Byte>) returns (r: Result<RecordAddress>)
    requires |data| <= MAX_LEN
    ensures Agrees(r, DecodeAddress(m0, data))
  {
    hide ReadField, Run;
    var m, i := m0, 0;
    RunEnds(AddressSchema, ApplyAddress, m0, data);
    while i < |data|
      invariant 0 <= i <= |data|
      invariant Agrees(DecodeAddress(m0, data), DecodeAddress(m, data[i..]))
    {
      var next := NextField(AddressSchema, data, i);
      if next.Err? {
        RunFails(AddressSchema, ApplyAddress, m, data[i..]);
        return Err(next.error);
      }
      var rec := next.value;
      RunStep(AddressSchema, ApplyAddress, m, data, i, rec);
      match rec.field {
        case VarintField(_, _) =>
          assert false;
        case LenField(_, v) =>
          m := m.(fields := m.fields.(uri := v));
        case UnknownField(u) =>
          m := m.(unknown := m.unknown + u);
      }
      i := rec.n;
    }
    RunEnds(AddressSchema, ApplyAddress, m, data);
    return Ok(m);
  }

  method UnmarshalDocument(m0: Document, data: seq<Byte>) returns (r: Result<Document>)
    requires |data| <= MAX_LEN
    ensures Agrees(r, DecodeDocument(m0, data))
  {
    hide ReadField, Run;
    var m, i := m0, 0;
    RunEnds(DocumentSchema, ApplyDocument, m0, data);
    while i < |data|
      invariant 0 <= i <= |data|
      invariant Agrees(DecodeDocument(m0, data), DecodeDocument(m, data[i..]))
    {
      var next := NextField(DocumentSchema, data, i);
      if next.Err? {
        RunFails(DocumentSchema, ApplyDocument, m, data[i..]);
        return Err(next.error);
      }
      var rec := next.value;
      RunStep(DocumentSchema, ApplyDocument, m, data, i, rec);
      match rec.field {
        case VarintField(_, v) =>
          m := m.(fields := m.fields.(encoding := ToInt32(v)));
        case LenField(_, v) =>
          m := m.(fields := m.fields.(payload := v));
        case UnknownField(u) =>
          m := m.(unknown := m.unknown + u);
      }
      i := rec.n;
    }
    RunEnds(DocumentSchema, ApplyDocument, m, data);
    return Ok(m);
  }

  method UnmarshalProgram(m0: LuaProgram, data: seq<Byte>) returns (r: Result<LuaProgram>)
    requires |data| <= MAX_LEN
    ensures Agrees(r, DecodeProgram(m0, data))
  {
    hide ReadField, Run;
    var m, i := m0, 0;
    RunEnds(ProgramSchema, ApplyProgram, m0, data);
    while i < |data|
      invariant 0 <= i <= |data|
      invariant Agrees(DecodeProgram(m0, data), DecodeProgram(m, data[i..]))
    {
      var next := NextField(ProgramSchema, data, i);
      if next.Err? {
        RunFails(ProgramSchema, ApplyProgram, m, data[i..]);
        return Err(next.error);
      }
      var rec := next.value;
      RunStep(ProgramSchema, ApplyProgram, m, data, i, rec);
      match rec.field {
        case VarintField(_, _) =>
          assert false;
        case LenField(num, v) =>
          if num == 1 {
            m := m.(fields := m.fields.(source := v));
          } else {
            m := m.(fields := m.fields.(sha256 := v));
          }
        case UnknownField(u) =>
          m := m.(unknown := m.unknown + u);
      }
      i := rec.n;
    }
    RunEnds(ProgramSchema, ApplyProgram, m, data);
    return Ok(m);
  }

  method UnmarshalPut(m0: PutOperation, data: seq<Byte>) returns (r: Result<PutOperation>)
    requires |data| <= MAX_LEN
    ensures Agrees(r, DecodePut(m0, data))
  {
    hide ReadField, Run;
    var m, i := m0, 0;
    RunEnds(PutSchema, ApplyPut, m0, data);
    while i < |data|
      invariant 0 <= i <= |data|
      invariant Agrees(DecodePut(m0, data), DecodePut(m, data[i..]))
    {
      var next := NextField(PutSchema, data, i);
      if next.Err? {
        RunFails(PutSchema, ApplyPut, m, data[i..]);
        return Err(next.error);
      }
      var rec := next.value;
      RunStep(PutSchema, ApplyPut, m, data, i, rec);
      match rec.field {
        case LenField(_, v) =>
          var d := UnmarshalDocument(OrNew(m.fields.document, NEW_DOCUMENT), v);
          if d.Err? {
            return Err(d.error);
          }
          m := m.(fields := m.fields.(document := Some(d.value)));
        case VarintField(_, v) =>
          m := m.(fields := m.fields.(mode := ToInt32(v)));
        case UnknownField(u) =>
          m := m.(unknown := m.unknown + u);
      }
      i := rec.n;
    }
    RunEnds(PutSchema, ApplyPut, m, data);
    return Ok(m);
  }

  method UnmarshalMerge(m0: MergeOperation, data: seq<Byte>) returns (r: Result<MergeOperation>)
    requires |data| <= MAX_LEN
    ensures Agrees(r, DecodeMerge(m0, data))
  {
    hide ReadField, Run;
    var m, i := m0, 0;
    RunEnds(MergeSchema, ApplyMerge, m0, data);
    while i < |data|
      invariant 0 <= i <= |data|
      invariant Agrees(DecodeMerge(m0, data), DecodeMerge(m, data[i..]))
    {
      var next := NextField(MergeSchema, data, i);
      if next.Err? {
        RunFails(MergeSchema, ApplyMerge, m, data[i..]);
        return Err(next.error);
      }
      var rec := next.value;
      RunStep(MergeSchema, ApplyMerge, m, data, i, rec);
      match rec.field {
        case VarintField(_, _) =>
          assert false;
        case LenField(num, v) =>
          if num == 1 {
            var d := UnmarshalDocument(OrNew(m.fields.incoming, NEW_DOCUMENT), v);
            if d.Err? {
              return Err(d.error);
            }
            m := m.(fields := m.fields.(incoming := Some(d.value)));
          } else {
            var p := UnmarshalProgram(OrNew(m.fields.program, NEW_PROGRAM), v);
            if p.Err? {
              return Err(p.error);
            }
            m := m.(fields := m.fields.(program := Some(p.value)));
          }
        case UnknownField(u) =>
          m := m.(unknown := m.unknown + u);
      }
      i := rec.n;
    }
    RunEnds(MergeSchema, ApplyMerge, m, data);
    return Ok(m);
  }

  /** A decoder called on a nil pointer with some input: it returns an error, or panics at its first store. */
  method UnmarshalNil(schema: Schema, data: seq<Byte>) returns (e: Error)
    requires 0 < |data| <= MAX_LEN
    ensures e == NilDereference <==> NilError(schema, data) == NilDereference
  {
    hide ReadField;
    assert data[0..] == data;
    var next := NextField(schema, data, 0);
    if next.Ok? || ZeroesFirst(schema, data) {
      return NilDereference;
    }
    return next.error;
  }

  /** The two oneof cases: read into the wrapper that is there, or replace another one. */
  method UnmarshalAction(f: WriteOperationFields, num: int, v: seq<Byte>) returns (r: Result<WriteOperationFields>)
    requires (num == 2 || num == 3) && |v| <= MAX_LEN
    ensures Agrees(r, ApplyOperation(f, LenField(num, v)))
  {
    hide Run;
    if num == 2 {
      if f.action.Put? && f.action.put.None? {
        if v == [] {
          return Ok(f);
        }
        var e := UnmarshalNil(PutSchema, v);
        return Err(e);
      }
      var p := UnmarshalPut(if f.action.Put? then f.action.put.value else NEW_PUT, v);
      return if p.Err? then Err(p.error) else Ok(f.(action := Put(Some(p.value))));
    } else {
      if f.action.Merge? && f.action.merge.None? {
        if v == [] {
          return Ok(f);
        }
        var e := UnmarshalNil(MergeSchema, v);
        return Err(e);
      }
      var p := UnmarshalMerge(if f.action.Merge? then f.action.merge.value else NEW_MERGE, v);
      return if p.Err? then Err(p.error) else Ok(f.(action := Merge(Some(p.value))));
    }
  }

  method UnmarshalOperation(m0: WriteOperation, data: seq<Byte>) returns (r: Result<WriteOperation>)
    requires |data| <= MAX_LEN
    ensures Agrees(r, DecodeOperation(m0, data))
  {
    hide ReadField, Run;
    var m, i := m0, 0;
    RunEnds(OperationSchema, ApplyOperation, m0, data);
    while i < |data|
      invariant 0 <= i <= |data|
      invariant Agrees(DecodeOperation(m0, data), DecodeOperation(m, data[i..]))
    {
      var next := NextField(OperationSchema, data, i);
      if next.Err? {
        RunFails(OperationSchema, ApplyOperation, m, data[i..]);
        return Err(next.error);
      }
      var rec := next.value;
      RunStep(OperationSchema, ApplyOperation, m, data, i, rec);
      match rec.field {
        case LenField(num, v) =>
          if num == 1 {
            var a := UnmarshalAddress(OrNew(m.fields.address, NEW_ADDRESS), v);
            if a.Err? {
              return Err(a.error);
            }
            m := m.(fields := m.fields.(address := Some(a.value)));
          } else {
            var f := UnmarshalAction(m.fields, num, v);
            if f.Err? {
              return Err(f.error);
            }
            m := m.(fields := f.value);
          }
        case VarintField(_, v) =>
          m := m.(fields := m.fields.(returnDocument := v % TWO_64 != 0));
        case UnknownField(u) =>
          m := m.(unknown := m.unknown + u);
      }
      i := rec.n;
    }
    RunEnds(OperationSchema, ApplyOperation, m, data);
    return Ok(m);
  }

  method UnmarshalRequest(m0: WriteRequest, data: seq<Byte>) returns (r: Result<WriteRequest>)
    requires |data| <= 0x7FFF_FFFF_FFFF_FFFF
    ensures Agrees(r, DecodeRequest(m0, data))
  {
    hide ReadField, Run;
    var m, i := m0, 0;
    RunEnds(RequestSchema, ApplyRequest, m0, data);
    while i < |data|
      invariant 0 <= i <= |data|
      invariant Agrees(DecodeRequest(m0, data), DecodeRequest(m, data[i..]))
    {
      var next := NextField(RequestSchema, data, i);
      if next.Err? {
        RunFails(RequestSchema, ApplyRequest, m, data[i..]);
        return Err(next.error);
      }
      var rec := next.value;
      RunStep(RequestSchema, ApplyRequest, m, data, i, rec);
      match rec.field {
        case VarintField(_, v) =>
          m := m.(fields := m.fields.(completionMode := ToInt32(v)));
        case LenField(num, v) =>
          if num == 2 {
            var op := UnmarshalOperation(NEW_OPERATION, v);
            if op.Err? {
              return Err(op.error);
            }
            m := m.(fields := m.fields.(operations := m.fields.operations + [Some(op.value)]));
          } else {
            var p := UnmarshalProgram(NEW_PROGRAM, v);
            if p.Err? {
              return Err(p.error);
            }
            m := m.(fields := m.fields.(luaPrograms := m.fields.luaPrograms + [Some(p.value)]));
          }
        case UnknownField(u) =>
          m := m.(unknown := m.unknown + u);
      }
      i := rec.n;
    }
    RunEnds(RequestSchema, ApplyRequest, m, data);
    return Ok(m);
  }
}
