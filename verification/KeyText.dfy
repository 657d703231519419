/**
 The text forms of typed keys: UTF-8 validity (section 4 of RFC 3629), unpadded base64url (section 5 of
 RFC 4648, canonical bits as in its section 3.5), signed 64-bit decimals, and big-endian words.
 */
module KeyText {
  import opened Bytes

  // ---------------------------------------------------------------- UTF-8

  predicate Tail(c: Byte) { 0x80 <= c <= 0xBF }

  /** The length of the well-formed character at the front, or 0. */
  function CharLength(s: seq<Byte>): (n: nat)
    ensures n <= |s|
  {
    if s == [] then 0
    else if s[0] <= 0x7F then 1
    else if |s| >= 2 && 0xC2 <= s[0] <= 0xDF && Tail(s[1]) then 2
    else if |s| >= 3 && Tail(s[2]) &&
            ((s[0] == 0xE0 && 0xA0 <= s[1] <= 0xBF) || (0xE1 <= s[0] <= 0xEC && Tail(s[1])) ||
             (s[0] == 0xED && 0x80 <= s[1] <= 0x9F) || (0xEE <= s[0] <= 0xEF && Tail(s[1]))) then 3
    else if |s| >= 4 && Tail(s[2]) && Tail(s[3]) &&
            ((s[0] == 0xF0 && 0x90 <= s[1] <= 0xBF) || (0xF1 <= s[0] <= 0xF3 && Tail(s[1])) ||
             (s[0] == 0xF4 && 0x80 <= s[1] <= 0x8F)) then 4
    else 0
  }

  predicate ValidUtf8(s: seq<Byte>)
    decreases |s|
  {
    s == [] || (CharLength(s) > 0 && ValidUtf8(s[CharLength(s)..]))
  }

  predicate Ascii(s: seq<Byte>) {
    forall k | 0 <= k < |s| :: s[k] < 0x80
  }

  lemma {:induction false} AsciiThen(a: seq<Byte>, b: seq<Byte>)
    requires Ascii(a)
    ensures ValidUtf8(a + b) == ValidUtf8(b)
    decreases |a|
  {
    if a == [] {
      assert a + b == b;
    } else {
      assert (a + b)[1..] == a[1..] + b;
      AsciiThen(a[1..], b);
    }
  }

  lemma AsciiIsUtf8(a: seq<Byte>)
    requires Ascii(a)
    ensures ValidUtf8(a)
  {
    AsciiThen(a, []);
    assert a + [] == a;
  }

  // ---- UTF-8 by code points

  /** A code point that is not a surrogate. */
  type Scalar = c: int | 0 <= c < 0xD800 || 0xE000 <= c < 0x11_0000

  /** The bit distribution of section 3 of RFC 3629. */
  function Utf8Bytes(c: Scalar): (r: seq<Byte>)
    ensures 1 <= |r| <= 4
  {
    if c < 0x80 then [c]
    else if c < 0x800 then [0xC0 + c / 0x40, 0x80 + c % 0x40]
    else if c < 0x1_0000 then [0xE0 + c / 0x1000, 0x80 + c / 0x40 % 0x40, 0x80 + c % 0x40]
    else [0xF0 + c / 0x4_0000, 0x80 + c / 0x1000 % 0x40, 0x80 + c / 0x40 % 0x40, 0x80 + c % 0x40]
  }

  function Utf8(cs: seq<Scalar>): seq<Byte> { if cs == [] then [] else Utf8Bytes(cs[0]) + Utf8(cs[1..]) }

  lemma CharOfScalar(c: Scalar, rest: seq<Byte>)
    ensures CharLength(Utf8Bytes(c) + rest) == |Utf8Bytes(c)|
  {
  }

  lemma ScalarOfChar(s: seq<Byte>) returns (c: Scalar)
    requires CharLength(s) > 0
    ensures Utf8Bytes(c) == s[..CharLength(s)]
  {
    var n := CharLength(s);
    var a: int := s[0];
    if n == 1 {
      c := a;
    } else if n == 2 {
      var b: int := s[1];
      c := (a - 0xC0) * 0x40 + (b - 0x80);
      SixBits(a - 0xC0, b - 0x80);
      assert Utf8Bytes(c) == [s[0], s[1]];
    } else if n == 3 {
      var b: int, d: int := s[1], s[2];
      c := ((a - 0xE0) * 0x40 + (b - 0x80)) * 0x40 + (d - 0x80);
      ThreeParts(a - 0xE0, b - 0x80, d - 0x80);
      assert Utf8Bytes(c) == [s[0], s[1], s[2]];
    } else {
      var b: int, d: int, e: int := s[1], s[2], s[3];
      c := (((a - 0xF0) * 0x40 + (b - 0x80)) * 0x40 + (d - 0x80)) * 0x40 + (e - 0x80);
      FourParts(a - 0xF0, b - 0x80, d - 0x80, e - 0x80);
      assert Utf8Bytes(c) == [s[0], s[1], s[2], s[3]];
    }
  }

  // Numbers put together from parts of six bits.

  lemma SixBits(hi: nat, lo: nat)
    requires lo < 0x40
    ensures (hi * 0x40 + lo) / 0x40 == hi && (hi * 0x40 + lo) % 0x40 == lo
  {
  }

  lemma ThreeParts(a: nat, b: nat, c: nat)
    requires b < 0x40 && c < 0x40
    ensures var n := (a * 0x40 + b) * 0x40 + c;
            n / 0x1000 == a && n / 0x40 % 0x40 == b && n / 0x40 == a * 0x40 + b && n % 0x40 == c
  {
    SixBits(a * 0x40 + b, c);
    SixBits(a, b);
    assert (a * 0x40 + b) * 0x40 + c == 0x1000 * a + (b * 0x40 + c);
  }

  lemma FourParts(a: nat, b: nat, c: nat, d: nat)
    requires b < 0x40 && c < 0x40 && d < 0x40
    ensures var n := ((a * 0x40 + b) * 0x40 + c) * 0x40 + d;
            n / 0x4_0000 == a && n / 0x1000 % 0x40 == b && n / 0x40 % 0x40 == c && n % 0x40 == d
  {
    var n := ((a * 0x40 + b) * 0x40 + c) * 0x40 + d;
    ThreeParts(a * 0x40 + b, c, d);
    SixBits(a, b);
    assert n == 0x4_0000 * a + (0x1000 * b + 0x40 * c + d);
  }

  lemma {:induction false} Utf8IsValid(cs: seq<Scalar>)
    ensures ValidUtf8(Utf8(cs))
  {
    if cs != [] {
      var head, rest := Utf8Bytes(cs[0]), Utf8(cs[1..]);
      CharOfScalar(cs[0], rest);
      Utf8IsValid(cs[1..]);
      assert (head + rest)[|head|..] == rest;
    }
  }

  lemma {:induction false} ValidIsUtf8(s: seq<Byte>) returns (cs: seq<Scalar>)
    requires ValidUtf8(s)
    ensures Utf8(cs) == s
    decreases |s|
  {
    if s == [] {
      cs := [];
    } else {
      var n := CharLength(s);
      var c := ScalarOfChar(s);
      var rest := ValidIsUtf8(s[n..]);
      cs := [c] + rest;
      assert cs[1..] == rest;
      assert s == s[..n] + s[n..];
    }
  }

  /** Valid text is exactly the encodings of sequences of code points without surrogates. */
  lemma ValidUtf8Iff(s: seq<Byte>)
    ensures ValidUtf8(s) <==> exists cs: seq<Scalar> :: Utf8(cs) == s
  {
    if ValidUtf8(s) {
      var cs := ValidIsUtf8(s);
    }
    if cs: seq<Scalar> :| Utf8(cs) == s {
      Utf8IsValid(cs);
    }
  }

  // ---------------------------------------------------------------- base64url

  function Sextet(d: nat): (c: Byte)
    requires d < 64
  {
    if d < 26 then 0x41 + d else if d < 52 then 0x61 + d - 26 else if d < 62 then 0x30 + d - 52
    else if d == 62 then 0x2D else 0x5F
  }

  function SextetValue(c: Byte): (r: Option<nat>)
    ensures r.Some? ==> r.value < 64
  {
    if 0x41 <= c <= 0x5A then Some(c - 0x41)
    else if 0x61 <= c <= 0x7A then Some(c - 0x61 + 26)
    else if 0x30 <= c <= 0x39 then Some(c - 0x30 + 52)
    else if c == 0x2D then Some(62)
    else if c == 0x5F then Some(63)
    else None
  }

  // The four sextets of three bytes, most significant bits first.
  function Sextet0(b0: Byte): (c: Byte) { Sextet(b0 / 4) }
  function Sextet1(b0: Byte, b1: Byte): (c: Byte) { Sextet(b0 % 4 * 16 + b1 / 16) }
  function Sextet2(b1: Byte, b2: Byte): (c: Byte) { Sextet(b1 % 16 * 4 + b2 / 64) }
  function Sextet3(b2: Byte): (c: Byte) { Sextet(b2 % 64) }

  function Encode64(b: seq<Byte>): seq<Byte> {
    if b == [] then []
    else if |b| == 1 then [Sextet0(b[0]), Sextet1(b[0], 0)]
    else if |b| == 2 then [Sextet0(b[0]), Sextet1(b[0], b[1]), Sextet2(b[1], 0)]
    else [Sextet0(b[0]), Sextet1(b[0], b[1]), Sextet2(b[1], b[2]), Sextet3(b[2])] + Encode64(b[3..])
  }

  predicate AllSextets(s: seq<Byte>) {
    forall k | 0 <= k < |s| :: SextetValue(s[k]).Some?
  }

  // The three bytes of four sextets.
  function Octet0(d0: nat, d1: nat): Byte requires d0 < 64 && d1 < 64 { d0 * 4 + d1 / 16 }
  function Octet1(d1: nat, d2: nat): Byte requires d1 < 64 && d2 < 64 { d1 % 16 * 16 + d2 / 4 }
  function Octet2(d2: nat, d3: nat): Byte requires d2 < 64 && d3 < 64 { d2 % 4 * 64 + d3 }

  /** Strict decoding of the groups: the unused low bits of a short last group must be zero. */
  function DecodeGroups(s: seq<Byte>): Option<seq<Byte>>
    requires AllSextets(s)
  {
    if s == [] then Some([])
    else if |s| == 1 then None
    else
      var d0, d1 := SextetValue(s[0]).value, SextetValue(s[1]).value;
      if |s| == 2 then if d1 % 16 != 0 then None else Some([Octet0(d0, d1)])
      else
        var d2 := SextetValue(s[2]).value;
        if |s| == 3 then if d2 % 4 != 0 then None else Some([Octet0(d0, d1), Octet1(d1, d2)])
        else
          match DecodeGroups(s[4..])
          case None => None
          case Some(t) => Some([Octet0(d0, d1), Octet1(d1, d2), Octet2(d2, SextetValue(s[3]).value)] + t)
  }

  /** Go's decoder ignores carriage returns and line feeds even when strict. */
  function DropNewlines(s: seq<Byte>): seq<Byte> {
    if s == [] then [] else (if s[0] == 0x0A || s[0] == 0x0D then [] else [s[0]]) + DropNewlines(s[1..])
  }

  function Decode64(s: seq<Byte>): Option<seq<Byte>> {
    var t := DropNewlines(s);
    if AllSextets(t) then DecodeGroups(t) else None
  }

  /** The digits of base64url: 26 upper-case letters, 26 lower-case ones, ten digits, minus and underscore. */
  lemma SextetText(d: nat)
    requires d < 64
    ensures d < 26 ==> Sextet(d) == 'A' as int + d
    ensures 26 <= d < 52 ==> Sextet(d) == 'a' as int + (d - 26)
    ensures 52 <= d < 62 ==> Sextet(d) == '0' as int + (d - 52)
    ensures d == 62 ==> Sextet(d) == '-' as int
    ensures d == 63 ==> Sextet(d) == '_' as int
  {
  }

  /** Three octets are one number of 24 bits, written as four digits; a short last group fills up with zero bits. */
  lemma Encode64Groups(b0: Byte, b1: Byte, b2: Byte, rest: seq<Byte>)
    ensures var n := 0x1_0000 * b0 + 0x100 * b1 + b2;
            Encode64([b0, b1, b2] + rest) ==
            [Sextet(n / 0x4_0000), Sextet(n / 0x1000 % 0x40), Sextet(n / 0x40 % 0x40), Sextet(n % 0x40)] + Encode64(rest)
    ensures var n := 0x100 * b0 + b1; Encode64([b0, b1]) == [Sextet(n / 0x400), Sextet(n / 0x10 % 0x40), Sextet(n % 0x10 * 4)]
    ensures Encode64([b0]) == [Sextet(b0 / 4), Sextet(b0 % 4 * 0x10)]
    ensures Encode64([]) == []
  {
    assert ([b0, b1, b2] + rest)[3..] == rest;
    Bits(b0, b1, b2);
    Bits(b0, b1, 0);
    hide Sextet;
  }

  lemma Bits(b0: Byte, b1: Byte, b2: Byte)
    ensures var n := 0x1_0000 * b0 + 0x100 * b1 + b2;
            && n / 0x4_0000 == b0 / 4 && n / 0x1000 % 0x40 == b0 % 4 * 16 + b1 / 16
            && n / 0x40 % 0x40 == b1 % 16 * 4 + b2 / 64 && n % 0x40 == b2 % 64
    ensures var n := 0x100 * b0 + b1;
            n / 0x400 == b0 / 4 && n / 0x10 % 0x40 == b0 % 4 * 16 + b1 / 16 && n % 0x10 * 4 == b1 % 16 * 4
  {
    var p, q, r, t, u, v := b0 / 4, b0 % 4, b1 / 16, b1 % 16, b2 / 64, b2 % 64;
    assert 0x1_0000 * b0 + 0x100 * b1 + b2 == ((p * 0x40 + (q * 16 + r)) * 0x40 + (t * 4 + u)) * 0x40 + v;
    FourParts(p, q * 16 + r, t * 4 + u, v);
    var n := 0x100 * b0 + b1;
    var m := p * 0x40 + (q * 16 + r);
    assert n == 0x10 * m + t;
    assert n / 0x10 == m && n % 0x10 == t;
    SixBits(p, q * 16 + r);
    assert n == 0x400 * p + (0x10 * (q * 16 + r) + t);
  }

  /** Exactly what decodes: a text that without its newlines is the encoding of the octets. */
  lemma Decode64Iff(s: seq<Byte>, b: seq<Byte>)
    ensures Decode64(s) == Some(b) <==> DropNewlines(s) == Encode64(b)
  {
    hide DropNewlines, Encode64, AllSextets, DecodeGroups;
    if DropNewlines(s) == Encode64(b) {
      EncodedIsText(b);
      GroupsRoundTrip(b);
    } else if Decode64(s) == Some(b) {
      Encode64Decode64(s);
    }
  }

  /** Only carriage return, 13, and line feed, 10, are dropped. */
  lemma {:induction false} NewlinesDropped(s: seq<Byte>)
    ensures DropNewlines(s) == s <==> forall k | 0 <= k < |s| :: s[k] != 13 && s[k] != 10
    ensures |DropNewlines(s)| <= |s|
  {
    if s != [] {
      NewlinesDropped(s[1..]);
      assert s == [s[0]] + s[1..];
    }
  }

  lemma SextetRoundTrip(d: nat)
    requires d < 64
    ensures SextetValue(Sextet(d)) == Some(d)
  {
  }

  /** The sextets of three bytes read back as those bytes. */
  lemma Regroup(b0: Byte, b1: Byte, b2: Byte)
    ensures SextetValue(Sextet0(b0)) == Some(b0 / 4)
    ensures SextetValue(Sextet1(b0, b1)) == Some(b0 % 4 * 16 + b1 / 16)
    ensures SextetValue(Sextet2(b1, b2)) == Some(b1 % 16 * 4 + b2 / 64)
    ensures SextetValue(Sextet3(b2)) == Some(b2 % 64)
    ensures Octet0(b0 / 4, b0 % 4 * 16 + b1 / 16) == b0
    ensures Octet1(b0 % 4 * 16 + b1 / 16, b1 % 16 * 4 + b2 / 64) == b1
    ensures Octet2(b1 % 16 * 4 + b2 / 64, b2 % 64) == b2
  {
    SextetRoundTrip(b0 / 4);
    SextetRoundTrip(b0 % 4 * 16 + b1 / 16);
    SextetRoundTrip(b1 % 16 * 4 + b2 / 64);
    SextetRoundTrip(b2 % 64);
  }

  lemma EncodedIsText(b: seq<Byte>)
    ensures AllSextets(Encode64(b)) && Ascii(Encode64(b)) && 0x3A !in Encode64(b) && DropNewlines(Encode64(b)) == Encode64(b)
  {
    hide Encode64, DropNewlines;
    GroupsRoundTrip(b);
    NoNewlines(Encode64(b));
    SextetsAreText(Encode64(b));
  }

  lemma SextetsAreText(s: seq<Byte>)
    requires AllSextets(s)
    ensures Ascii(s) && 0x3A !in s
  {
  }

  lemma {:induction false} NoNewlines(s: seq<Byte>)
    requires AllSextets(s)
    ensures DropNewlines(s) == s
  {
    if s != [] {
      assert SextetValue(s[0]).Some?;
      NoNewlines(s[1..]);
      assert s == [s[0]] + s[1..];
    }
  }

  lemma DecodeStep(b0: Byte, b1: Byte, b2: Byte, e: seq<Byte>, rest: seq<Byte>)
    requires AllSextets(e) && DecodeGroups(e) == Some(rest)
    ensures var s := [Sextet0(b0), Sextet1(b0, b1), Sextet2(b1, b2), Sextet3(b2)] + e;
            AllSextets(s) && DecodeGroups(s) == Some([b0, b1, b2] + rest)
  {
    Regroup(b0, b1, b2);
    hide Sextet0, Sextet1, Sextet2, Sextet3, Octet0, Octet1, Octet2;
    var s := [Sextet0(b0), Sextet1(b0, b1), Sextet2(b1, b2), Sextet3(b2)] + e;
    assert s[4..] == e;
  }

  lemma {:induction false} GroupsRoundTrip(b: seq<Byte>)
    ensures AllSextets(Encode64(b)) && DecodeGroups(Encode64(b)) == Some(b)
  {
    hide Sextet0, Sextet1, Sextet2, Sextet3, Octet0, Octet1, Octet2;
    if |b| == 1 {
      Regroup(b[0], 0, 0);
      assert b == [b[0]];
    } else if |b| == 2 {
      Regroup(b[0], b[1], 0);
      assert b == [b[0], b[1]];
    } else if |b| >= 3 {
      GroupsRoundTrip(b[3..]);
      DecodeStep(b[0], b[1], b[2], Encode64(b[3..]), b[3..]);
      assert b == [b[0], b[1], b[2]] + b[3..];
    }
  }

  lemma Decode64Encode64(b: seq<Byte>)
    ensures Decode64(Encode64(b)) == Some(b)
  {
    EncodedIsText(b);
    GroupsRoundTrip(b);
  }

  /** The bytes of four sextets regroup into those sextets. */
  lemma RegroupBack(d0: nat, d1: nat, d2: nat, d3: nat)
    requires d0 < 64 && d1 < 64 && d2 < 64 && d3 < 64
    ensures Octet0(d0, d1) / 4 == d0 && Octet0(d0, d1) % 4 * 16 + Octet1(d1, d2) / 16 == d1
    ensures Octet1(d1, d2) % 16 * 4 + Octet2(d2, d3) / 64 == d2 && Octet2(d2, d3) % 64 == d3
    ensures d1 % 16 == 0 ==> Octet0(d0, d1) % 4 * 16 == d1
    ensures d2 % 4 == 0 ==> Octet1(d1, d2) % 16 * 4 == d2
  {
  }

  lemma SextetOfValue(c: Byte)
    requires SextetValue(c).Some?
    ensures Sextet(SextetValue(c).value) == c
  {
  }

  lemma {:induction false} GroupsRebuild(s: seq<Byte>)
    requires AllSextets(s) && DecodeGroups(s).Some?
    ensures Encode64(DecodeGroups(s).value) == s
  {
    if s != [] {
      var n := if |s| < 4 then |s| else 4;
      forall k | 0 <= k < n ensures Sextet(SextetValue(s[k]).value) == s[k] { SextetOfValue(s[k]); }
      var d0, d1 := SextetValue(s[0]).value, SextetValue(s[1]).value;
      if |s| == 2 {
        RegroupBack(d0, d1, 0, 0);
        assert s == [s[0], s[1]];
      } else {
        var d2 := SextetValue(s[2]).value;
        if |s| == 3 {
          RegroupBack(d0, d1, d2, 0);
          assert s == [s[0], s[1], s[2]];
        } else {
          RegroupBack(d0, d1, d2, SextetValue(s[3]).value);
          GroupsRebuild(s[4..]);
          RebuildStep(s, d0, d1, d2, SextetValue(s[3]).value, DecodeGroups(s[4..]).value);
        }
      }
    }
  }

  lemma RebuildStep(s: seq<Byte>, d0: nat, d1: nat, d2: nat, d3: nat, rest: seq<Byte>)
    requires |s| >= 4 && d0 < 64 && d1 < 64 && d2 < 64 && d3 < 64
    requires s[0] == Sextet(d0) && s[1] == Sextet(d1) && s[2] == Sextet(d2) && s[3] == Sextet(d3) && Encode64(rest) == s[4..]
    ensures Encode64([Octet0(d0, d1), Octet1(d1, d2), Octet2(d2, d3)] + rest) == s
  {
    hide Sextet;
    RegroupBack(d0, d1, d2, d3);
    hide Octet0, Octet1, Octet2;
    var b := [Octet0(d0, d1), Octet1(d1, d2), Octet2(d2, d3)] + rest;
    assert b[3..] == rest;
    assert s == [s[0], s[1], s[2], s[3]] + s[4..];
  }

  /** Strict decoding accepts exactly the canonical encodings, up to the newlines it ignores. */
  lemma Encode64Decode64(s: seq<Byte>)
    requires Decode64(s).Some?
    ensures Encode64(Decode64(s).value) == DropNewlines(s)
  {
    GroupsRebuild(DropNewlines(s));
  }

  // ---------------------------------------------------------------- decimals

  type Int64 = v: int | -0x8000_0000_0000_0000 <= v < 0x8000_0000_0000_0000

  const MINUS: Byte := 0x2D
  const PLUS: Byte := 0x2B

  function Digits(n: nat): (s: seq<Byte>)
    ensures s != []
  {
    if n < 10 then [0x30 + n] else Digits(n / 10) + [0x30 + n % 10]
  }

  predicate AllDigits(s: seq<Byte>) {
    forall k | 0 <= k < |s| :: 0x30 <= s[k] <= 0x39
  }

  function DigitsValue(s: seq<Byte>): nat
    requires AllDigits(s)
  {
    if s == [] then 0 else DigitsValue(s[..|s| - 1]) * 10 + (s[|s| - 1] - 0x30)
  }

  /** `strconv.FormatInt(v, 10)` */
  function FormatInt(v: Int64): seq<Byte> {
    if v < 0 then [MINUS] + Digits(0 - v) else Digits(v)
  }

  /** `strconv.ParseInt(s, 10, 64)`: an optional sign, at least one digit, and a value in range. */
  function ParseInt(s: seq<Byte>): Option<Int64> {
    if s == [] then None
    else
      var signed := s[0] == MINUS || s[0] == PLUS;
      var digits := if signed then s[1..] else s;
      if digits == [] || !AllDigits(digits) then None
      else
        var v: int := if s[0] == MINUS then 0 - DigitsValue(digits) else DigitsValue(digits);
        if -0x8000_0000_0000_0000 <= v < 0x8000_0000_0000_0000 then Some(v) else None
  }

  lemma {:induction false} DigitsRoundTrip(n: nat)
    ensures AllDigits(Digits(n)) && DigitsValue(Digits(n)) == n
  {
    if n >= 10 {
      DigitsRoundTrip(n / 10);
      var s := Digits(n);
      assert s[..|s| - 1] == Digits(n / 10);
    }
  }

  lemma ParseIntFormatInt(v: Int64)
    ensures ParseInt(FormatInt(v)) == Some(v) && Ascii(FormatInt(v))
  {
    hide Digits, DigitsValue;
    if v < 0 {
      DigitsRoundTrip(0 - v);
      assert FormatInt(v)[1..] == Digits(0 - v);
    } else {
      DigitsRoundTrip(v);
      assert AllDigits(FormatInt(v));
    }
  }

  /** Ten to the k-th. */
  function Pow10(k: nat): (p: nat) ensures p >= 1 { if k == 0 then 1 else 10 * Pow10(k - 1) }

  /** Counted from the right, digit k is the k-th decimal digit of the number; there is no leading zero. */
  lemma {:induction false} DecimalDigits(n: nat, k: nat)
    ensures |Digits(n)| > 1 ==> Digits(n)[0] != '0' as int
    ensures k < |Digits(n)| ==> Digits(n)[|Digits(n)| - 1 - k] == '0' as int + n / Pow10(k) % 10
    decreases n, k
  {
    if n >= 10 {
      var front := Digits(n / 10);
      DecimalDigits(n / 10, 0);
      if n / 10 < 10 {
        assert front[0] == '0' as int + n / 10;
      }
      if k > 0 {
        DecimalDigits(n / 10, k - 1);
        DivideTwice(n, 10, Pow10(k - 1));
      }
    }
  }

  lemma DivideTwice(n: nat, a: nat, b: nat)
    requires a >= 1 && b >= 1
    ensures a * b >= 1 && n / a / b == n / (a * b)
  {
    var q, r := n / a, n % a;
    var x, y := q / b, q % b;
    assert n == a * q + r && q == b * x + y;
    Regrouped(a, b, x, y);
    assert n == (a * b) * x + (a * y + r);
    Remainder(a, b, y, r);
    QuotientIs(n, a * b, x, a * y + r);
  }

  lemma Regrouped(a: nat, b: nat, x: nat, y: nat)
    ensures a * (b * x + y) == (a * b) * x + a * y
  {
  }

  lemma Remainder(a: nat, b: nat, y: nat, r: nat)
    requires a >= 1 && b >= 1 && y < b && r < a
    ensures 0 <= a * y + r < a * b
  {
    assert a * y <= a * (b - 1);
    assert a * (b - 1) == a * b - a;
  }

  lemma QuotientIs(n: nat, d: nat, q: nat, r: nat)
    requires d >= 1 && r < d && n == d * q + r
    ensures n / d == q
  {
    var q', r' := n / d, n % d;
    assert n == d * q' + r' && 0 <= r' < d;
    Multiple(d, q' - q);
    Distributed(d, q', q);
  }

  lemma Multiple(d: int, x: int)
    requires d >= 1
    ensures x >= 1 ==> d * x >= d
    ensures x <= -1 ==> d * x <= -d
  {
  }

  lemma Distributed(d: int, x: int, y: int)
    ensures d * (x - y) == d * x - d * y
  {
  }

  /** A sign only for negative numbers. */
  lemma FormatIntSign(v: Int64)
    ensures v >= 0 ==> FormatInt(v) == Digits(v)
    ensures v < 0 ==> FormatInt(v) == ['-' as int] + Digits(0 - v)
  {
  }

  // ---------------------------------------------------------------- big-endian words

  /** `k` bytes, most significant first. */
  function BigEndian(v: nat, k: nat): (s: seq<Byte>)
    ensures |s| == k
  {
    if k == 0 then [] else BigEndian(v / 256, k - 1) + [v % 256]
  }

  function FromBigEndian(s: seq<Byte>): nat {
    if s == [] then 0 else FromBigEndian(s[..|s| - 1]) * 256 + s[|s| - 1]
  }

  function Pow256(k: nat): nat { if k == 0 then 1 else 256 * Pow256(k - 1) }

  lemma {:induction false} FromBigEndianBigEndian(v: nat, k: nat)
    requires v < Pow256(k)
    ensures FromBigEndian(BigEndian(v, k)) == v
    decreases k
  {
    if k > 0 {
      FromBigEndianBigEndian(v / 256, k - 1);
      var s := BigEndian(v, k);
      assert s[..|s| - 1] == BigEndian(v / 256, k - 1);
    }
  }

  lemma {:induction false} BigEndianFromBigEndian(s: seq<Byte>)
    ensures BigEndian(FromBigEndian(s), |s|) == s && FromBigEndian(s) < Pow256(|s|)
    decreases |s|
  {
    if s != [] {
      BigEndianFromBigEndian(s[..|s| - 1]);
      var v := FromBigEndian(s);
      assert v / 256 == FromBigEndian(s[..|s| - 1]) && v % 256 == s[|s| - 1];
      assert s == s[..|s| - 1] + [s[|s| - 1]];
    }
  }

  /** The eight bytes of an int64 and back; Go converts through uint64. */
  function Int64Bytes(v: Int64): seq<Byte> { BigEndian(if v < 0 then v + TWO_64 else v, 8) }

  function BytesInt64(s: seq<Byte>): (v: Int64)
    requires |s| == 8
  {
    BigEndianFromBigEndian(s);
    Pow256Of8();
    var u := FromBigEndian(s);
    if u < 0x8000_0000_0000_0000 then u else u - TWO_64
  }

  lemma Pow256Of8()
    ensures Pow256(8) == TWO_64
  {
    assert Pow256(4) == 0x1_0000_0000;
    assert Pow256(8) == 256 * 256 * 256 * 256 * Pow256(4);
  }

  lemma Int64RoundTrip(v: Int64)
    ensures BytesInt64(Int64Bytes(v)) == v
  {
    Pow256Of8();
    FromBigEndianBigEndian(if v < 0 then v + TWO_64 else v, 8);
  }

  lemma BytesRoundTrip(s: seq<Byte>)
    requires |s| == 8
    ensures Int64Bytes(BytesInt64(s)) == s
  {
    BigEndianFromBigEndian(s);
  }
}
