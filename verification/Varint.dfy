/**
 Base 128 varints ("Base 128 Varints" in the Protocol Buffers Encoding specification) as the generated
 codec reads and writes them: at most ten bytes, least significant group first, into 64-bit words.
 */
module Varint {
  import opened Bytes

  const TWO_32: int := 0x1_0000_0000
  const TWO_63: int := 0x8000_0000_0000_0000

  /** The largest length a Go slice can have: `int` has 64 bits. */
  const MAX_LEN: nat := TWO_63 - 1

  type Int32 = v: int | -0x8000_0000 <= v < 0x8000_0000
  type UInt32 = v: int | 0 <= v < TWO_32

  datatype Error =
    | IntOverflow
    | UnexpectedEOF
    | InvalidLength
    | UnexpectedEndOfGroup
    | IllegalTag
    | WrongWireType
    | IllegalWireType
    | NilDereference  // not an error the decoder returns: Go panics here

  datatype Result<+T> = Ok(value: T) | Err(error: Error)

  // ---------------------------------------------------------------- integer conversions

  /** Go's `int64(x)` (and `int(x)`) of a value taken modulo 2^64. */
  function ToInt64(v: int): (r: int)
    ensures -TWO_63 <= r < TWO_63
    ensures (v - r) % TWO_64 == 0
  {
    var w := v % TWO_64;
    if w < TWO_63 then w else w - TWO_64
  }

  /** Go's `int32(x)`: the low 32 bits, two's complement. */
  function ToInt32(v: int): (r: Int32)
    ensures (v - r) % TWO_32 == 0
  {
    var w := v % TWO_32;
    if w < 0x8000_0000 then w else w - TWO_32
  }

  /** Go's `uint64(e)` of an int32 enum: sign extension. */
  function SignExtend(v: Int32): (r: nat)
    ensures r < TWO_64
    ensures ToInt32(r) == v && (r - v) % TWO_64 == 0
    ensures r == 0 <==> v == 0
  {
    if v >= 0 then v else v + TWO_64
  }

  // ---------------------------------------------------------------- writing

  function Encode(v: nat): (bs: seq<Byte>)
    ensures |bs| >= 1
  {
    if v < 128 then [v] else [v % 128 + 128] + Encode(v / 128)
  }

  function BitLen(v: nat): nat {
    if v == 0 then 0 else 1 + BitLen(v / 2)
  }

  /** `protohelpers.SizeOfVarint`: (bits.Len64(v|1) + 6) / 7. */
  function SizeOf(v: nat): (n: nat) {
    ((if v == 0 then 1 else BitLen(v)) + 6) / 7
  }

  lemma {:induction false} BitLenShift7(v: nat)
    requires v >= 128
    ensures BitLen(v) == 7 + BitLen(v / 128)
  {
    var a := v / 2;
    var b := a / 2;
    var c := b / 2;
    var d := c / 2;
    var e := d / 2;
    var f := e / 2;
    assert BitLen(v) == 1 + BitLen(a);
    assert BitLen(a) == 1 + BitLen(b);
    assert BitLen(b) == 1 + BitLen(c);
    assert BitLen(c) == 1 + BitLen(d);
    assert BitLen(d) == 1 + BitLen(e);
    assert BitLen(e) == 1 + BitLen(f);
    assert BitLen(f) == 1 + BitLen(f / 2);
    assert f / 2 == v / 128;
  }

  lemma {:induction false} BitLenSmall(v: nat)
    requires 0 < v < 128
    ensures 1 <= BitLen(v) <= 7
  {
    BitLenBound(v, 7);
  }

  lemma {:induction false} BitLenBound(v: nat, k: nat)
    requires v < Pow2(k)
    ensures BitLen(v) <= k
    decreases k
  {
    if v != 0 {
      BitLenBound(v / 2, k - 1);
    }
  }

  function Pow2(k: nat): nat {
    if k == 0 then 1 else 2 * Pow2(k - 1)
  }

  /** The bit-count formula and the bytes actually written agree on every value. */
  lemma {:induction false} SizeOfIsLength(v: nat)
    ensures SizeOf(v) == |Encode(v)|
    decreases v
  {
    if v == 0 {
    } else if v < 128 {
      BitLenSmall(v);
    } else {
      BitLenShift7(v);
      SizeOfIsLength(v / 128);
    }
  }

  lemma {:induction false} SizeOfMonotone(v: nat, w: nat)
    requires v <= w
    ensures |Encode(v)| <= |Encode(w)|
    decreases w
  {
    if v >= 128 {
      assert v / 128 <= w / 128;
      SizeOfMonotone(v / 128, w / 128);
    }
  }

  /**
   `protohelpers.EncodeVarint`: writes `v` so that it ends just before `offset` and returns where it starts.
   Nothing else in the buffer changes.
   */
  method EncodeInto(buf: array<Byte>, offset: nat, v: nat) returns (base: nat)
    requires |Encode(v)| <= offset <= buf.Length
    modifies buf
    ensures base == offset - |Encode(v)|
    ensures buf[base..offset] == Encode(v)
    ensures forall j | 0 <= j < base || offset <= j < buf.Length :: buf[j] == old(buf[j])
  {
    hide Encode, SizeOf;
    SizeOfIsLength(v);
    base := offset - SizeOf(v);
    var o, w := base, v;
    ghost var code := Encode(v);
    while w >= 128
      invariant base <= o <= offset
      invariant code[o - base..] == Encode(w)
      invariant forall j | base <= j < o :: buf[j] == code[j - base]
      invariant forall j | 0 <= j < base || offset <= j < buf.Length :: buf[j] == old(buf[j])
    {
      EncodeHead(code, o - base, w);
      buf[o] := w % 128 + 128;
      w := w / 128;
      o := o + 1;
    }
    EncodeEnd(code, o - base, w);
    buf[o] := w;
    assert forall j | base <= j < offset :: buf[j] == code[j - base];
    assert buf[base..offset] == code;
  }

  lemma EncodeHead(code: seq<Byte>, k: nat, w: nat)
    requires w >= 128 && k <= |code| && code[k..] == Encode(w)
    ensures k < |code| && code[k] == w % 128 + 128 && code[k + 1..] == Encode(w / 128)
  {
    assert code[k] == code[k..][0];
    assert code[k + 1..] == code[k..][1..];
  }

  lemma EncodeEnd(code: seq<Byte>, k: nat, w: nat)
    requires w < 128 && k <= |code| && code[k..] == Encode(w)
    ensures |code| == k + 1 && code[k] == w
  {
    assert code[k] == code[k..][0];
  }

  // ---------------------------------------------------------------- reading

  /** A decoded varint: its groups as an unbounded number, and how many bytes it took. */
  datatype Parsed = Parsed(value: nat, n: nat)

  const MAX_BYTES: nat := 10

  /** Reads at most `limit` bytes (the codec's `shift >= 64` test allows ten). */
  function Read(data: seq<Byte>, limit: nat): (r: Result<Parsed>)
    ensures r.Ok? ==> 1 <= r.value.n <= |data| && r.value.n <= limit
    ensures r != Err(NilDereference)
  {
    if limit == 0 then Err(IntOverflow)
    else if data == [] then Err(UnexpectedEOF)
    else if data[0] < 128 then Ok(Parsed(data[0], 1))
    else
      match Read(data[1..], limit - 1)
      case Err(e) => Err(e)
      case Ok(p) => Ok(Parsed(data[0] - 128 + 128 * p.value, p.n + 1))
  }

  function Pow128(k: nat): (p: nat)
    ensures p >= 1
  {
    if k == 0 then 1 else 128 * Pow128(k - 1)
  }

  /** Reading what was written gives the value back, whatever follows it. */
  lemma {:induction false} ReadEncode(v: nat, rest: seq<Byte>, limit: nat)
    requires limit >= 1 && v < Pow128(limit)
    ensures Read(Encode(v) + rest, limit) == Ok(Parsed(v, |Encode(v)|))
    decreases limit
  {
    var data := Encode(v) + rest;
    if v >= 128 {
      assert data[1..] == Encode(v / 128) + rest;
      ReadEncode(v / 128, rest, limit - 1);
    }
  }

  lemma Pow128OfTen()
    ensures Pow128(MAX_BYTES) == 0x40_0000_0000_0000_0000
  {
    assert Pow128(4) == 0x1000_0000;
    assert Pow128(7) == 128 * 128 * 128 * Pow128(4);
    assert Pow128(10) == 128 * 128 * 128 * Pow128(7);
  }

  lemma ReadEncode64(v: nat, rest: seq<Byte>)
    requires v < TWO_64
    ensures Read(Encode(v) + rest, MAX_BYTES) == Ok(Parsed(v, |Encode(v)|))
  {
    Pow128OfTen();
    ReadEncode(v, rest, MAX_BYTES);
  }

  /** A successful read never looks past the bytes it consumed. */
  lemma {:induction false} ReadPrefix(a: seq<Byte>, b: seq<Byte>, limit: nat)
    requires Read(a, limit).Ok?
    ensures Read(a + b, limit) == Read(a, limit)
    decreases limit
  {
    if a[0] >= 128 {
      assert (a + b)[1..] == a[1..] + b;
      ReadPrefix(a[1..], b, limit - 1);
    }
  }

  /**
   The loop the generator inlines for every varint: `x |= T(b & 0x7F) << shift` until a byte below 0x80.
   `unit` is 1 << shift and `value` collects all groups; a 64-bit or 32-bit target keeps its low bits.
   */
  method ReadAt(data: seq<Byte>, start: nat) returns (r: Result<Parsed>)
    requires start <= |data|
    ensures r == Read(data[start..], MAX_BYTES)
  {
    var i, shift, unit: nat, value: nat := start, 0, 1, 0;
    while true
      invariant start <= i <= |data| && shift == 7 * (i - start) && i - start <= MAX_BYTES
      invariant Continues(Read(data[start..], MAX_BYTES), Read(data[i..], MAX_BYTES - (i - start)), value, unit, i - start)
      decreases MAX_BYTES - (i - start)
    {
      if shift >= 64 {
        return Err(IntOverflow);
      }
      if i >= |data| {
        return Err(UnexpectedEOF);
      }
      var b := data[i];
      assert data[i..][1..] == data[i + 1..];
      ContinuesStep(Read(data[start..], MAX_BYTES), data[i..], MAX_BYTES - (i - start), value, unit, i - start);
      i := i + 1;
      value := value + (b % 128) * unit;
      if b < 128 {
        return Ok(Parsed(value, i - start));
      }
      shift, unit := shift + 7, 128 * unit;
    }
  }

  /** `whole` is `tail` with `k` earlier groups, worth `value`, put in front of it. */
  ghost predicate Continues(whole: Result<Parsed>, tail: Result<Parsed>, value: nat, unit: nat, k: nat) {
    match tail
    case Err(e) => whole == Err(e)
    case Ok(p) => whole.Ok? && whole.value.value == value + p.value * unit && whole.value.n == p.n + k
  }

  lemma ContinuesStep(whole: Result<Parsed>, rest: seq<Byte>, limit: nat, value: nat, unit: nat, k: nat)
    requires limit > 0 && rest != []
    requires Continues(whole, Read(rest, limit), value, unit, k)
    ensures rest[0] < 128 ==> whole == Ok(Parsed(value + (rest[0] % 128) * unit, k + 1))
    ensures rest[0] >= 128 ==>
              Continues(whole, Read(rest[1..], limit - 1), value + (rest[0] % 128) * unit, 128 * unit, k + 1)
  {
    if rest[0] >= 128 && Read(rest[1..], limit - 1).Ok? {
      Distribute(rest[0] - 128, Read(rest[1..], limit - 1).value.value, unit);
    }
  }

  lemma Distribute(b: nat, v: nat, q: nat)
    ensures (b + 128 * v) * q == b * q + v * (128 * q)
  {
  }

  // ---------------------------------------------------------------- the groups of a varint

  /** What a varint's bytes are worth: seven bits each, least significant group first. */
  function Groups(bs: seq<Byte>): nat { if bs == [] then 0 else bs[0] % 128 + 128 * Groups(bs[1..]) }

  /** All bytes but the last have the high bit. */
  predicate OneVarint(bs: seq<Byte>) {
    |bs| >= 1 && bs[|bs| - 1] < 128 && forall k | 0 <= k < |bs| - 1 :: bs[k] >= 128
  }

  /** The bytes written are one varint worth the value, and the shortest there is: no empty last group. */
  lemma {:induction false} EncodeGroups(v: nat)
    ensures var bs := Encode(v); OneVarint(bs) && Groups(bs) == v && (|bs| > 1 ==> bs[|bs| - 1] != 0)
  {
    if v >= 128 {
      var rest := Encode(v / 128);
      EncodeGroups(v / 128);
      assert Encode(v)[1..] == rest;
      forall k | 0 <= k < |Encode(v)| - 1 ensures Encode(v)[k] >= 128 {
        if k > 0 { assert Encode(v)[k] == rest[k - 1]; }
      }
    }
  }

  lemma {:induction false} EncodeLength(v: nat, n: nat)
    requires n >= 1 && v < Pow128(n) && (n > 1 ==> v >= Pow128(n - 1))
    ensures |Encode(v)| == n
    decreases n
  {
    if n == 1 {
      assert Pow128(1) == 128 * Pow128(0);
    } else {
      EncodeLength(v / 128, n - 1);
      if n == 2 { assert Pow128(1) == 128 * Pow128(0); }
    }
  }

  /** A negative enum takes ten bytes on the wire. */
  lemma NegativeTakesTenBytes(v: Int32)
    requires v < 0
    ensures |Encode(SignExtend(v))| == 10
  {
    Pow128OfTen();
    assert Pow128(10) == 128 * Pow128(9);
    EncodeLength(SignExtend(v), 10);
  }

  /** How reading at most `limit` bytes must end. */
  predicate IsReading(data: seq<Byte>, limit: nat, r: Result<Parsed>) {
    if r.Ok? then
      1 <= r.value.n <= limit && r.value.n <= |data| && OneVarint(data[..r.value.n]) && r.value.value == Groups(data[..r.value.n])
    else if |data| >= limit then r.error == IntOverflow && forall k | 0 <= k < limit :: data[k] >= 128
    else r.error == UnexpectedEOF && forall k | 0 <= k < |data| :: data[k] >= 128
  }

  lemma {:induction false} ReadGroups(data: seq<Byte>, limit: nat)
    ensures IsReading(data, limit, Read(data, limit))
    decreases limit
  {
    if limit > 0 && data != [] {
      if data[0] < 128 {
        assert data[..1] == [data[0]];
      } else {
        var rest := data[1..];
        ReadGroups(rest, limit - 1);
        var r := Read(rest, limit - 1);
        if r.Ok? {
          var bs := data[..r.value.n + 1];
          assert bs[1..] == rest[..r.value.n];
          forall k | 0 <= k < |bs| - 1 ensures bs[k] >= 128 {
            if k > 0 { assert bs[k] == rest[..r.value.n][k - 1]; }
          }
        } else {
          forall k | 0 <= k < limit && k < |data| ensures data[k] >= 128 {
            if k > 0 { assert data[k] == rest[k - 1]; }
          }
        }
      }
    }
  }

  /**
   Reading is decided by the first byte without the high bit: found among the first ten, it ends a varint worth
   its groups; not found, ten bytes are an overflow and fewer are the end of the input.
   */
  lemma ReadTen(data: seq<Byte>)
    ensures IsReading(data, 10, Read(data, MAX_BYTES))
  {
    ReadGroups(data, MAX_BYTES);
  }
}
