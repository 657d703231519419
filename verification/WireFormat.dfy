/**
 The record layer every generated `UnmarshalVT` shares: tags, wire types, length-delimited records,
 unknown fields and the loop over them. A message type supplies a schema (which field numbers it knows,
 and how each is encoded) and an `apply` function (what one known field does to its Go struct).
 */
module WireFormat {
  import opened Bytes
  import opened Varint

  /** How the generated switch reads a field number; `Skipped` is its default branch. */
  datatype Kind = VarintKind | LenKind | Skipped

  type Schema = int -> Kind

  datatype Field =
    | VarintField(num: int, value: nat)
    | LenField(num: int, payload: seq<Byte>)
    | UnknownField(bytes: seq<Byte>)

  /** One record of the input: its content and the bytes it took, tag included. */
  datatype Record = Record(field: Field, n: nat)

  /** A generated struct: its declared fields, and the bytes of fields it does not know. */
  datatype Msg<+F> = Msg(fields: F, unknown: seq<Byte>)

  const WIRE_VARINT := 0
  const WIRE_FIXED64 := 1
  const WIRE_LEN := 2
  const WIRE_START_GROUP := 3
  const WIRE_END_GROUP := 4
  const WIRE_FIXED32 := 5

  /** What the head of every generated loop computes from the tag. */
  function FieldNumber(tag: nat): Int32 { ToInt32(tag % TWO_64 / 8) }
  function WireType(tag: nat): nat { tag % TWO_64 % 8 }

  /** Same success value, or both panic, or both fail. Which error is reported is not part of the format. */
  predicate Agrees<T(==)>(r: Result<T>, s: Result<T>) {
    r.Ok? == s.Ok? && (r.Ok? ==> r.value == s.value) && (r == Err(NilDereference) <==> s == Err(NilDereference))
  }

  // ---------------------------------------------------------------- lengths

  /** A length prefix and the index just past the bytes it announces. */
  function ReadLength(data: seq<Byte>): (r: Result<Record>)
    ensures r.Ok? ==> r.value.field.LenField? && 1 <= r.value.n <= |data|
    ensures r != Err(NilDereference)
  {
    match Read(data, MAX_BYTES)
    case Err(e) => Err(e)
    case Ok(p) =>
      var length := ToInt64(p.value);
      if length < 0 then Err(InvalidLength)
      else if p.n + length > |data| then Err(UnexpectedEOF)
      else Ok(Record(LenField(0, data[p.n..p.n + length]), p.n + length))
  }

  /**
   The generated length code: `postIndex := iNdEx + n` wraps around at 2^63, and the two sign tests before
   the bounds test are what keep the slice in bounds.
   */
  method ReadLengthAt(data: seq<Byte>, start: nat) returns (r: Result<(nat, nat)>)
    requires start <= |data| <= MAX_LEN
    ensures r.Ok? ==> start < r.value.0 <= r.value.1 <= |data|
    ensures r.Ok? == ReadLength(data[start..]).Ok? && r != Err(NilDereference)
    ensures r.Ok? ==> ReadLength(data[start..]).value == Record(LenField(0, data[r.value.0..r.value.1]), r.value.1 - start)
  {
    var p := ReadAt(data, start);
    if p.Err? {
      return Err(p.error);
    }
    var index := start + p.value.n;
    var length := ToInt64(p.value.value);
    if length < 0 {
      return Err(InvalidLength);
    }
    var post := ToInt64(index + length);
    if post < 0 {
      return Err(InvalidLength);
    }
    if post > |data| {
      return Err(UnexpectedEOF);
    }
    assert data[start..][p.value.n..p.value.n + length] == data[index..post];
    return Ok((index, post));
  }

  // ---------------------------------------------------------------- skipping unknown fields

  /** Bytes one record takes, and the group nesting after it. The bytes may run past the input. */
  datatype Skipping = Skipping(n: nat, depth: nat)

  /** What follows a tag of the given wire type. */
  function SkipBody(wireType: nat, data: seq<Byte>, depth: nat): (r: Result<Skipping>)
    ensures r != Err(NilDereference)
  {
    if wireType == WIRE_VARINT then
      match Read(data, MAX_BYTES)
      case Err(e) => Err(e)
      case Ok(p) => Ok(Skipping(p.n, depth))
    else if wireType == WIRE_FIXED64 then Ok(Skipping(8, depth))
    else if wireType == WIRE_LEN then
      match Read(data, MAX_BYTES)
      case Err(e) => Err(e)
      case Ok(p) =>
        var length := ToInt64(p.value);
        if length < 0 then Err(InvalidLength) else Ok(Skipping(p.n + length, depth))
    else if wireType == WIRE_START_GROUP then Ok(Skipping(0, depth + 1))
    else if wireType == WIRE_END_GROUP then
      if depth == 0 then Err(UnexpectedEndOfGroup) else Ok(Skipping(0, depth - 1))
    else if wireType == WIRE_FIXED32 then Ok(Skipping(4, depth))
    else Err(IllegalWireType)
  }

  function SkipOne(data: seq<Byte>, depth: nat): (r: Result<Skipping>)
    ensures r.Ok? ==> r.value.n >= 1
    ensures r != Err(NilDereference)
  {
    match Read(data, MAX_BYTES)
    case Err(e) => Err(e)
    case Ok(tag) =>
      match SkipBody(WireType(tag.value), data[tag.n..], depth)
      case Err(e) => Err(e)
      case Ok(s) => Ok(Skipping(tag.n + s.n, s.depth))
  }

  /** `protohelpers.Skip` followed by its caller's bounds test: the extent of one field, groups included. */
  function Skip(data: seq<Byte>, depth: nat): (r: Result<nat>)
    ensures r.Ok? ==> 1 <= r.value <= |data|
    ensures r != Err(NilDereference)
    decreases |data|
  {
    match SkipOne(data, depth)
    case Err(e) => Err(e)
    case Ok(s) =>
      if s.n > |data| then Err(UnexpectedEOF)
      else if s.depth == 0 then Ok(s.n)
      else
        match Skip(data[s.n..], s.depth)
        case Err(e) => Err(e)
        case Ok(k) => Ok(s.n + k)
  }

  /** Go's `int` addition of in-range operands: exact, or negative. */
  lemma AddWraps(x: nat, y: nat)
    requires x < TWO_63 && y < TWO_63
    ensures ToInt64(x + y) == x + y || (ToInt64(x + y) < 0 && x + y >= TWO_63)
  {
  }

  /** The switch in `protohelpers.Skip`; indexes wrap around at 2^63 as Go's do. */
  method SkipBodyAt(wireType: nat, data: seq<Byte>, index: nat, depth: nat) returns (r: Result<Skipping>)
    requires index <= |data| <= MAX_LEN
    ensures r.Ok? ==> index <= r.value.n
    ensures r != Err(NilDereference)
    ensures r.Ok? ==> SkipBody(wireType, data[index..], depth) == Ok(Skipping(r.value.n - index, r.value.depth))
    ensures r.Err? ==> SkipBody(wireType, data[index..], depth).Err? ||
                       index + SkipBody(wireType, data[index..], depth).value.n > |data|
  {
    var end, depth' := index, depth;
    if wireType == WIRE_VARINT {
      var p := ReadAt(data, index);
      if p.Err? {
        return Err(p.error);
      }
      end := index + p.value.n;
    } else if wireType == WIRE_FIXED64 {
      AddWraps(index, 8);
      end := ToInt64(index + 8);
    } else if wireType == WIRE_LEN {
      var p := ReadAt(data, index);
      if p.Err? {
        return Err(p.error);
      }
      var length := ToInt64(p.value.value);
      if length < 0 {
        return Err(InvalidLength);
      }
      AddWraps(index + p.value.n, length);
      end := ToInt64(index + p.value.n + length);
    } else if wireType == WIRE_START_GROUP {
      depth' := depth + 1;
    } else if wireType == WIRE_END_GROUP {
      if depth == 0 {
        return Err(UnexpectedEndOfGroup);
      }
      depth' := depth - 1;
    } else if wireType == WIRE_FIXED32 {
      AddWraps(index, 4);
      end := ToInt64(index + 4);
    } else {
      return Err(IllegalWireType);
    }
    if end < 0 {
      return Err(InvalidLength);
    }
    return Ok(Skipping(end, depth'));
  }

  /** One turn of the loop in `protohelpers.Skip`. */
  method SkipOneAt(data: seq<Byte>, start: nat, depth: nat) returns (r: Result<Skipping>)
    requires start <= |data| <= MAX_LEN
    ensures r.Ok? ==> start < r.value.n
    ensures r != Err(NilDereference)
    ensures r.Ok? ==> SkipOne(data[start..], depth) == Ok(Skipping(r.value.n - start, r.value.depth))
    ensures r.Err? ==> SkipOne(data[start..], depth).Err? || start + SkipOne(data[start..], depth).value.n > |data|
  {
    var tag := ReadAt(data, start);
    if tag.Err? {
      return Err(tag.error);
    }
    var index := start + tag.value.n;
    assert data[start..][tag.value.n..] == data[index..];
    r := SkipBodyAt(WireType(tag.value.value), data, index, depth);
  }

  method SkipAt(data: seq<Byte>, start: nat) returns (r: Result<nat>)
    requires start < |data| <= MAX_LEN
    ensures r.Ok? ==> start < r.value <= |data|
    ensures r != Err(NilDereference)
    ensures r.Ok? == Skip(data[start..], 0).Ok?
    ensures r.Ok? ==> Skip(data[start..], 0) == Ok(r.value - start)
  {
    hide SkipOne;
    var i, depth: nat := start, 0;
    while i < |data|
      invariant start <= i <= |data|
      invariant Skip(data[start..], 0).Ok? == Skip(data[i..], depth).Ok?
      invariant Skip(data[i..], depth).Ok? ==> Skip(data[start..], 0).value == i - start + Skip(data[i..], depth).value
    {
      var s := SkipOneAt(data, i, depth);
      if s.Err? {
        return Err(s.error);
      }
      if s.value.n > |data| {
        return Err(UnexpectedEOF);
      }
      assert data[i..][s.value.n - i..] == data[s.value.n..];
      if s.value.depth == 0 {
        return Ok(s.value.n);
      }
      i, depth := s.value.n, s.value.depth;
    }
    return Err(UnexpectedEOF);
  }

  // ---------------------------------------------------------------- one field

  /** A field arrives in the encoding its switch case asks for. */
  predicate Fits(schema: Schema, field: Field) {
    (field.VarintField? ==> schema(field.num) == VarintKind) && (field.LenField? ==> schema(field.num) == LenKind)
  }

  function ReadField(schema: Schema, data: seq<Byte>): (r: Result<Record>)
    ensures r.Ok? ==> 1 <= r.value.n <= |data| && Fits(schema, r.value.field)
    ensures r != Err(NilDereference)
  {
    match Read(data, MAX_BYTES)
    case Err(e) => Err(e)
    case Ok(tag) =>
      var num := FieldNumber(tag.value);
      if WireType(tag.value) == WIRE_END_GROUP then Err(UnexpectedEndOfGroup)
      else if num <= 0 then Err(IllegalTag)
      else
        match schema(num)
        case VarintKind =>
          if WireType(tag.value) != WIRE_VARINT then Err(WrongWireType)
          else
            (match Read(data[tag.n..], MAX_BYTES)
             case Err(e) => Err(e)
             case Ok(p) => Ok(Record(VarintField(num, p.value), tag.n + p.n)))
        case LenKind =>
          if WireType(tag.value) != WIRE_LEN then Err(WrongWireType)
          else
            (match ReadLength(data[tag.n..])
             case Err(e) => Err(e)
             case Ok(rec) => Ok(Record(LenField(num, rec.field.payload), tag.n + rec.n)))
        case Skipped =>
          match Skip(data, 0)
          case Err(e) => Err(e)
          case Ok(n) => Ok(Record(UnknownField(data[..n]), n))
  }

  /** A varint field is set to zero before its value is read. */
  predicate ZeroesFirst(schema: Schema, data: seq<Byte>) {
    match Read(data, MAX_BYTES)
    case Err(_) => false
    case Ok(tag) =>
      var num := FieldNumber(tag.value);
      num > 0 && schema(num) == VarintKind && WireType(tag.value) == WIRE_VARINT
  }

  /** How a decoder called on a nil message ends, if there is input: the first store panics, unless an error comes first. */
  function NilError(schema: Schema, data: seq<Byte>): Error {
    match ReadField(schema, data)
    case Ok(_) => NilDereference
    case Err(e) => if ZeroesFirst(schema, data) then NilDereference else e
  }

  // ---------------------------------------------------------------- the message loop

  function Step<F>(apply: (F, Field) -> Result<F>, m: Msg<F>, field: Field): (r: Result<Msg<F>>) {
    match field
    case UnknownField(bytes) => Ok(m.(unknown := m.unknown + bytes))
    case _ =>
      match apply(m.fields, field)
      case Err(e) => Err(e)
      case Ok(f) => Ok(m.(fields := f))
  }

  /** Reads all of `data` into `m`, record by record. */
  function Run<F>(schema: Schema, apply: (F, Field) -> Result<F>, m: Msg<F>, data: seq<Byte>): (r: Result<Msg<F>>)
    decreases |data|
  {
    if data == [] then Ok(m)
    else
      match ReadField(schema, data)
      case Err(e) => Err(e)
      case Ok(rec) =>
        match Step(apply, m, rec.field)
        case Err(e) => Err(e)
        case Ok(m') => Run(schema, apply, m', data[rec.n..])
  }

  // ---------------------------------------------------------------- records do not look ahead

  lemma ReadLengthPrefix(a: seq<Byte>, b: seq<Byte>)
    requires ReadLength(a).Ok?
    ensures ReadLength(a + b) == ReadLength(a)
  {
    ReadPrefix(a, b, MAX_BYTES);
    var rec := ReadLength(a).value;
    var n := Read(a, MAX_BYTES).value.n;
    assert (a + b)[n..rec.n] == a[n..rec.n];
  }

  lemma SkipOnePrefix(a: seq<Byte>, b: seq<Byte>, depth: nat)
    requires SkipOne(a, depth).Ok?
    ensures SkipOne(a + b, depth) == SkipOne(a, depth)
  {
    ReadPrefix(a, b, MAX_BYTES);
    var n := Read(a, MAX_BYTES).value.n;
    assert (a + b)[n..] == a[n..] + b;
    if Read(a[n..], MAX_BYTES).Ok? {
      ReadPrefix(a[n..], b, MAX_BYTES);
    }
  }

  lemma {:induction false} SkipPrefix(a: seq<Byte>, b: seq<Byte>, depth: nat)
    requires Skip(a, depth).Ok?
    ensures Skip(a + b, depth) == Skip(a, depth)
    decreases |a|
  {
    hide SkipOne;
    SkipOnePrefix(a, b, depth);
    var s := SkipOne(a, depth).value;
    if s.depth != 0 {
      assert (a + b)[s.n..] == a[s.n..] + b;
      SkipPrefix(a[s.n..], b, s.depth);
    }
  }

  lemma ReadFieldPrefix(schema: Schema, a: seq<Byte>, b: seq<Byte>)
    requires ReadField(schema, a).Ok?
    ensures ReadField(schema, a + b) == ReadField(schema, a)
  {
    hide Read, ReadLength, Skip;
    ReadPrefix(a, b, MAX_BYTES);
    var tag := Read(a, MAX_BYTES).value;
    assert (a + b)[tag.n..] == a[tag.n..] + b;
    match schema(FieldNumber(tag.value))
    case VarintKind => ReadPrefix(a[tag.n..], b, MAX_BYTES);
    case LenKind => ReadLengthPrefix(a[tag.n..], b);
    case Skipped =>
      SkipPrefix(a, b, 0);
      var n := Skip(a, 0).value;
      assert (a + b)[..n] == a[..n];
  }

  /** Decoding a concatenation is decoding the first part and then the second into the same message. */
  lemma {:induction false} RunConcat<F>(schema: Schema, apply: (F, Field) -> Result<F>, m: Msg<F>, a: seq<Byte>, b: seq<Byte>)
    requires Run(schema, apply, m, a).Ok?
    ensures Run(schema, apply, m, a + b) == Run(schema, apply, Run(schema, apply, m, a).value, b)
    decreases |a|
  {
    if a == [] {
      assert a + b == b;
    } else {
      ReadFieldPrefix(schema, a, b);
      var rec := ReadField(schema, a).value;
      assert (a + b)[rec.n..] == a[rec.n..] + b;
      RunConcat(schema, apply, Step(apply, m, rec.field).value, a[rec.n..], b);
    }
  }

  // ---------------------------------------------------------------- the records the marshaller writes

  function Tag(num: nat, wireType: nat): Byte
    requires 1 <= num <= 15 && wireType < 8
  {
    num * 8 + wireType
  }

  function VarintRecord(num: nat, v: nat): (bs: seq<Byte>)
    requires 1 <= num <= 15
  {
    [Tag(num, WIRE_VARINT)] + Encode(v)
  }

  function LenRecord(num: nat, payload: seq<Byte>): (bs: seq<Byte>)
    requires 1 <= num <= 15
  {
    [Tag(num, WIRE_LEN)] + Encode(|payload|) + payload
  }

  lemma ReadTag(num: nat, wireType: nat, rest: seq<Byte>)
    requires 1 <= num <= 15 && wireType < 8
    ensures Read([Tag(num, wireType)] + rest, MAX_BYTES) == Ok(Parsed(Tag(num, wireType), 1))
    ensures FieldNumber(Tag(num, wireType)) == num && WireType(Tag(num, wireType)) == wireType
    ensures ([Tag(num, wireType)] + rest)[1..] == rest
  {
  }

  lemma RunVarint<F>(schema: Schema, apply: (F, Field) -> Result<F>, m: Msg<F>, num: nat, v: nat)
    requires 1 <= num <= 15 && schema(num) == VarintKind && v < TWO_64
    ensures Run(schema, apply, m, VarintRecord(num, v)) == Step(apply, m, VarintField(num, v))
  {
    ReadTag(num, WIRE_VARINT, Encode(v));
    assert Encode(v) + [] == Encode(v);
    ReadEncode64(v, []);
    var data := VarintRecord(num, v);
    assert ReadField(schema, data) == Ok(Record(VarintField(num, v), |data|));
    assert data[|data|..] == [];
  }

  lemma ReadLengthOf(payload: seq<Byte>)
    requires |payload| <= MAX_LEN
    ensures var body := Encode(|payload|) + payload; ReadLength(body) == Ok(Record(LenField(0, payload), |body|))
  {
    hide Encode, Read;
    var body := Encode(|payload|) + payload;
    ReadEncode64(|payload|, payload);
    assert body[|Encode(|payload|)|..|body|] == payload;
  }

  lemma RunLen<F>(schema: Schema, apply: (F, Field) -> Result<F>, m: Msg<F>, num: nat, payload: seq<Byte>)
    requires 1 <= num <= 15 && schema(num) == LenKind && |payload| <= MAX_LEN
    ensures Run(schema, apply, m, LenRecord(num, payload)) == Step(apply, m, LenField(num, payload))
  {
    hide Encode, Read, ReadLength;
    var body := Encode(|payload|) + payload;
    var data := LenRecord(num, payload);
    assert data == [Tag(num, WIRE_LEN)] + body;
    ReadTag(num, WIRE_LEN, body);
    ReadLengthOf(payload);
    assert ReadField(schema, data) == Ok(Record(LenField(num, payload), |data|));
    assert data[|data|..] == [];
  }

  // ---------------------------------------------------------------- unknown fields

  /** `u` is a run of complete records, none of which the schema knows. */
  ghost predicate OnlyUnknown(schema: Schema, u: seq<Byte>)
    decreases |u|
  {
    u == [] ||
    (var r := ReadField(schema, u);
     r.Ok? && r.value.field.UnknownField? && OnlyUnknown(schema, u[r.value.n..]))
  }

  lemma ReadUnknown(schema: Schema, data: seq<Byte>)
    requires ReadField(schema, data).Ok? && ReadField(schema, data).value.field.UnknownField?
    ensures var rec := ReadField(schema, data).value; rec.field.bytes == data[..rec.n]
  {
  }

  /** Unknown bytes are kept verbatim. */
  lemma {:induction false} RunUnknown<F>(schema: Schema, apply: (F, Field) -> Result<F>, m: Msg<F>, u: seq<Byte>)
    requires OnlyUnknown(schema, u)
    ensures Run(schema, apply, m, u) == Ok(m.(unknown := m.unknown + u))
    decreases |u|
  {
    hide ReadField;
    if u == [] {
      assert m.unknown + u == m.unknown;
    } else {
      ReadUnknown(schema, u);
      var rec := ReadField(schema, u).value;
      var m' := m.(unknown := m.unknown + u[..rec.n]);
      RunUnknown(schema, apply, m', u[rec.n..]);
      assert m'.unknown + u[rec.n..] == m.unknown + u;
    }
  }

  lemma {:induction false} OnlyUnknownConcat(schema: Schema, a: seq<Byte>, b: seq<Byte>)
    requires OnlyUnknown(schema, a) && OnlyUnknown(schema, b)
    ensures OnlyUnknown(schema, a + b)
    decreases |a|
  {
    if a == [] {
      assert a + b == b;
    } else {
      ReadFieldPrefix(schema, a, b);
      var n := ReadField(schema, a).value.n;
      assert (a + b)[n..] == a[n..] + b;
      OnlyUnknownConcat(schema, a[n..], b);
    }
  }

  /** The bytes of one skipped record are, by themselves, a run of unknown records. */
  lemma UnknownRecordAlone(schema: Schema, data: seq<Byte>)
    requires ReadField(schema, data).Ok? && ReadField(schema, data).value.field.UnknownField?
    ensures OnlyUnknown(schema, ReadField(schema, data).value.field.bytes)
  {
    ReadUnknown(schema, data);
    var n := ReadField(schema, data).value.n;
    var u := data[..n];
    SkipAlone(data, 0);
    var tag := Read(data, MAX_BYTES).value;
    ReadAlone(data, n, MAX_BYTES);
    assert ReadField(schema, u) == Ok(Record(UnknownField(u[..n]), n));
    assert u[n..] == [];
  }

  lemma {:induction false} ReadAlone(data: seq<Byte>, n: nat, limit: nat)
    requires Read(data, limit).Ok? && Read(data, limit).value.n <= n <= |data|
    ensures Read(data[..n], limit) == Read(data, limit)
    decreases limit
  {
    if data[0] >= 128 {
      assert data[..n][1..] == data[1..][..n - 1];
      ReadAlone(data[1..], n - 1, limit - 1);
    }
  }

  lemma SkipOneAlone(data: seq<Byte>, depth: nat, n: nat)
    requires SkipOne(data, depth).Ok? && SkipOne(data, depth).value.n <= n <= |data|
    ensures SkipOne(data[..n], depth) == SkipOne(data, depth)
  {
    hide Read;
    var tag := Read(data, MAX_BYTES).value;
    ReadAlone(data, n, MAX_BYTES);
    assert data[..n][tag.n..] == data[tag.n..][..n - tag.n];
    var wireType := WireType(tag.value);
    if wireType == WIRE_VARINT || wireType == WIRE_LEN {
      ReadAlone(data[tag.n..], n - tag.n, MAX_BYTES);
    }
  }

  lemma {:induction false} SkipAlone(data: seq<Byte>, depth: nat)
    requires Skip(data, depth).Ok?
    ensures Skip(data[..Skip(data, depth).value], depth) == Skip(data, depth)
    decreases |data|
  {
    hide SkipOne;
    var n := Skip(data, depth).value;
    var s := SkipOne(data, depth).value;
    SkipOneAlone(data, depth, n);
    var rest, front := data[s.n..], data[..n];
    if s.depth != 0 {
      var k := Skip(rest, s.depth).value;
      assert n == s.n + k;
      SkipAlone(rest, s.depth);
      assert front[s.n..] == rest[..k];
      assert Skip(front[s.n..], s.depth) == Ok(k);
    }
  }

  /** Whatever is read, the unknown bytes stay a run of unknown records. */
  lemma {:induction false} RunKeepsUnknown<F>(schema: Schema, apply: (F, Field) -> Result<F>, m: Msg<F>, data: seq<Byte>)
    requires OnlyUnknown(schema, m.unknown)
    requires Run(schema, apply, m, data).Ok?
    ensures OnlyUnknown(schema, Run(schema, apply, m, data).value.unknown)
    decreases |data|
  {
    if data != [] {
      var rec := ReadField(schema, data).value;
      if rec.field.UnknownField? {
        UnknownRecordAlone(schema, data);
        OnlyUnknownConcat(schema, m.unknown, rec.field.bytes);
      }
      RunKeepsUnknown(schema, apply, Step(apply, m, rec.field).value, data[rec.n..]);
    }
  }

  /** An invariant of the fields that every known field keeps is kept by the whole loop. */
  lemma {:induction false} RunKeeps<F(!new)>(
    schema: Schema, apply: (F, Field) -> Result<F>, keep: F -> bool, m: Msg<F>, data: seq<Byte>)
    requires keep(m.fields)
    requires forall f: F, field: Field :: keep(f) && apply(f, field).Ok? ==> keep(apply(f, field).value)
    requires Run(schema, apply, m, data).Ok?
    ensures keep(Run(schema, apply, m, data).value.fields)
    decreases |data|
  {
    if data != [] {
      var rec := ReadField(schema, data).value;
      RunKeeps(schema, apply, keep, Step(apply, m, rec.field).value, data[rec.n..]);
    }
  }

  /** If no known field panics on fields that satisfy an invariant, and all keep it, nothing in the loop panics. */
  lemma {:induction false} RunNeverPanics<F(!new)>(
    schema: Schema, apply: (F, Field) -> Result<F>, keep: F -> bool, m: Msg<F>, data: seq<Byte>)
    requires keep(m.fields)
    requires forall f: F, field: Field :: keep(f) ==> apply(f, field) != Err(NilDereference)
    requires forall f: F, field: Field :: keep(f) && apply(f, field).Ok? ==> keep(apply(f, field).value)
    ensures Run(schema, apply, m, data) != Err(NilDereference)
    decreases |data|
  {
    if data != [] && ReadField(schema, data).Ok? {
      var rec := ReadField(schema, data).value;
      var next := Step(apply, m, rec.field);
      if next.Ok? {
        RunNeverPanics(schema, apply, keep, next.value, data[rec.n..]);
      }
    }
  }

  // ---------------------------------------------------------------- the format in numbers

  /** A varint record starts with the byte 8 * num, a length-delimited one with 8 * num + 2. */
  lemma RecordNumbers(num: nat, v: nat, payload: seq<Byte>)
    requires 1 <= num <= 15
    ensures VarintRecord(num, v) == [8 * num] + Encode(v)
    ensures LenRecord(num, payload) == [8 * num + 2] + Encode(|payload|) + payload
  {
  }

  /**
   A field read, from its tag's value `w`: the low three bits are the wire type (4 is refused), the rest as an
   int32 is the field number. A known number must come with its own type, 0 for a varint and 2 for bytes.
   */
  lemma FieldNumbers(schema: Schema, data: seq<Byte>, f: Int32)
    requires Read(data, 10).Ok? && (Read(data, 10).value.value % 0x1_0000_0000_0000_0000 / 8 - f) % 0x1_0000_0000 == 0
    ensures var w, n := Read(data, 10).value.value, Read(data, 10).value.n;
            var wireType, rest, r := w % 8, data[n..], ReadField(schema, data);
            if wireType == 4 || f <= 0 then r.Err?
            else
              match schema(f)
              case VarintKind =>
                && (r.Ok? <==> wireType == 0 && Read(rest, 10).Ok?)
                && (r.Ok? ==> r.value == Record(VarintField(f, Read(rest, 10).value.value), n + Read(rest, 10).value.n))
              case LenKind =>
                && (r.Ok? <==> wireType == 2 && ReadLength(rest).Ok?)
                && (r.Ok? ==> r.value == Record(LenField(f, ReadLength(rest).value.field.payload), n + ReadLength(rest).value.n))
              case Skipped =>
                && (r.Ok? <==> Skip(data, 0).Ok?)
                && (r.Ok? ==> r.value == Record(UnknownField(data[..Skip(data, 0).value]), Skip(data, 0).value))
  {
    hide Read, ReadLength, Skip, FieldNumber, WireType;
    TagParts(Read(data, 10).value.value, f);
  }

  lemma TagParts(w: nat, f: Int32)
    requires (w % 0x1_0000_0000_0000_0000 / 8 - f) % 0x1_0000_0000 == 0
    ensures FieldNumber(w) == f && WireType(w) == w % 8
  {
    hide ToInt32;
    SameInt32(w % TWO_64 / 8, f);
    LowBits(w);
  }

  lemma LowBits(w: nat)
    ensures WireType(w) == w % 8
  {
  }

  lemma SameInt32(x: int, f: Int32)
    requires (x - f) % 0x1_0000_0000 == 0
    ensures ToInt32(x) == f
  {
  }

  /** A length-delimited value: the varint's low 64 bits, below 2^63, count the bytes that follow it. */
  lemma LengthNumbers(data: seq<Byte>)
    ensures var p, r := Read(data, 10), ReadLength(data);
            && (r.Ok? <==> p.Ok? && var l := p.value.value % 0x1_0000_0000_0000_0000; l < 0x8000_0000_0000_0000 && p.value.n + l <= |data|)
            && (r.Ok? ==>
                  var l := p.value.value % 0x1_0000_0000_0000_0000;
                  r.value == Record(LenField(0, data[p.value.n..p.value.n + l]), p.value.n + l))
  {
    hide Read;
  }

  /** What is skipped after a tag of each wire type: a varint, 8 bytes, a counted run, a group's start or end, 4 bytes. */
  lemma SkipNumbers(data: seq<Byte>, depth: nat)
    requires Read(data, 10).Ok?
    ensures var w, n := Read(data, 10).value.value, Read(data, 10).value.n;
            var rest, r := data[n..], SkipOne(data, depth);
            match w % 8
            case 0 => if Read(rest, 10).Ok? then r == Ok(Skipping(n + Read(rest, 10).value.n, depth)) else r.Err?
            case 1 => r == Ok(Skipping(n + 8, depth))
            case 2 =>
              if Read(rest, 10).Ok? && Read(rest, 10).value.value % 0x1_0000_0000_0000_0000 < 0x8000_0000_0000_0000
              then r == Ok(Skipping(n + Read(rest, 10).value.n + Read(rest, 10).value.value % 0x1_0000_0000_0000_0000, depth))
              else r.Err?
            case 3 => r == Ok(Skipping(n, depth + 1))
            case 4 => if depth > 0 then r == Ok(Skipping(n, depth - 1)) else r.Err?
            case 5 => r == Ok(Skipping(n + 4, depth))
            case _ => r.Err?
  {
    hide Read, WireType;
    LowBits(Read(data, 10).value.value);
  }

  /** A run of whole fields, groups included, each skippable by itself. */
  ghost predicate WholeFields(data: seq<Byte>)
    decreases |data|
  {
    data == [] || (Skip(data, 0).Ok? && WholeFields(data[Skip(data, 0).value..]))
  }

  /** One whole field in front, at any nesting: what follows is skipped on its own. */
  lemma {:induction false} SkipDeeper(data: seq<Byte>, inner: nat, outer: nat, rest: seq<Byte>)
    requires Skip(data, inner) == Ok(|data|) && outer > 0
    ensures Skip(data + rest, inner + outer).Ok? == Skip(rest, outer).Ok?
    ensures Skip(rest, outer).Ok? ==> Skip(data + rest, inner + outer) == Ok(|data| + Skip(rest, outer).value)
    decreases |data|
  {
    hide SkipOne;
    var s := SkipOne(data, inner).value;
    SkipOneOuter(data, inner, outer, rest);
    if s.depth == 0 {
      assert (data + rest)[s.n..] == rest;
    } else {
      assert (data + rest)[s.n..] == data[s.n..] + rest;
      SkipDeeper(data[s.n..], s.depth, outer, rest);
    }
  }

  lemma SkipOneOuter(data: seq<Byte>, inner: nat, outer: nat, rest: seq<Byte>)
    requires SkipOne(data, inner).Ok?
    ensures SkipOne(data + rest, inner + outer) == Ok(SkipOne(data, inner).value.(depth := SkipOne(data, inner).value.depth + outer))
  {
    hide Read;
    ReadPrefix(data, rest, MAX_BYTES);
    var tag := Read(data, MAX_BYTES).value;
    assert (data + rest)[tag.n..] == data[tag.n..] + rest;
    if Read(data[tag.n..], MAX_BYTES).Ok? {
      ReadPrefix(data[tag.n..], rest, MAX_BYTES);
    }
  }

  lemma {:induction false} SkipFields(body: seq<Byte>, depth: nat, rest: seq<Byte>)
    requires WholeFields(body) && depth > 0
    ensures Skip(body + rest, depth).Ok? == Skip(rest, depth).Ok?
    ensures Skip(rest, depth).Ok? ==> Skip(body + rest, depth) == Ok(|body| + Skip(rest, depth).value)
    decreases |body|
  {
    hide Skip;
    if body == [] {
      assert body + rest == rest;
    } else {
      var n := Skip(body, 0).value;
      SkipAlone(body, 0);
      assert body[..n] + (body[n..] + rest) == body + rest;
      SkipDeeper(body[..n], 0, depth, body[n..] + rest);
      SkipFields(body[n..], depth, rest);
    }
  }

  /** A group of whole fields, between any start tag and any end tag, is one whole field. */
  lemma SkipGroup(start: nat, body: seq<Byte>, end: nat, rest: seq<Byte>)
    requires 1 <= start <= 15 && 1 <= end <= 15 && WholeFields(body)
    ensures Skip([8 * start + 3] + body + [8 * end + 4] + rest, 0) == Ok(|body| + 2)
  {
    hide Skip, WholeFields;
    var data := [8 * start + 3] + body + [8 * end + 4] + rest;
    var tail := [8 * end + 4] + rest;
    assert data == [8 * start + 3] + (body + tail);
    SkipMark(8 * start + 3, body + tail, 0);
    SkipMark(8 * end + 4, rest, 1);
    SkipFields(body, 1, tail);
  }

  /** The start tag of a group leads into it, the end tag of the outermost one ends the field. */
  lemma SkipMark(tag: Byte, rest: seq<Byte>, depth: nat)
    requires tag < 128 && ((tag % 8 == 3 && depth == 0) || (tag % 8 == 4 && depth == 1))
    ensures depth == 1 ==> Skip([tag] + rest, depth) == Ok(1)
    ensures depth == 0 && Skip(rest, 1).Ok? ==> Skip([tag] + rest, depth) == Ok(1 + Skip(rest, 1).value)
  {
    var data := [tag] + rest;
    assert Read(data, 10) == Ok(Parsed(tag, 1));
    hide Read, SkipOne;
    SkipNumbers(data, depth);
    assert data[1..] == rest;
    assert SkipOne(data, depth) == Ok(Skipping(1, 1 - depth));
  }

  /** Any varint in a known varint field, also one longer than need be or of more than 64 bits, is that field's value. */
  lemma RunAnyVarint<F>(schema: Schema, apply: (F, Field) -> Result<F>, m: Msg<F>, num: nat, code: seq<Byte>)
    requires 1 <= num <= 15 && schema(num) == VarintKind && |code| <= 10 && OneVarint(code)
    ensures Run(schema, apply, m, [8 * num] + code) == Step(apply, m, VarintField(num, Groups(code)))
  {
    hide Read;
    var data := [8 * num] + code;
    ReadTag(num, 0, code);
    WholeVarint(code);
    assert ReadField(schema, data) == Ok(Record(VarintField(num, Groups(code)), |data|));
    assert data[|data|..] == [];
  }

  lemma WholeVarint(code: seq<Byte>)
    requires |code| <= 10 && OneVarint(code)
    ensures Read(code, 10) == Ok(Parsed(Groups(code), |code|))
  {
    ReadTen(code);
    var r := Read(code, 10);
    assert code[|code| - 1] < 128;
    if r.Ok? {
      var n := r.value.n;
      assert code[..n][n - 1] == code[n - 1];
      assert code[..|code|] == code;
    }
  }
}
