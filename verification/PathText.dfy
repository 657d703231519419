/**
 The text functions canonical URIs are built from: percent-encoding of a path segment (sections 2.1 and 3.3
 of RFC 3986, as Go's `url.PathEscape` does it), and splitting and joining on a separator.
 */
module PathText {
  import opened Bytes

  const SLASH: Byte := 0x2F
  const COLON: Byte := 0x3A
  const PERCENT: Byte := 0x25

  // ---------------------------------------------------------------- percent-encoding

  predicate Lower(c: Byte) { 0x61 <= c <= 0x7A }
  predicate Upper(c: Byte) { 0x41 <= c <= 0x5A }
  predicate Digit(c: Byte) { 0x30 <= c <= 0x39 }

  /** Letters, digits and `-_.~$&+:=@`. */
  predicate Unescaped(c: Byte) {
    Lower(c) || Upper(c) || Digit(c) ||
    c == 0x2D || c == 0x5F || c == 0x2E || c == 0x7E || c == 0x24 || c == 0x26 || c == 0x2B || c == 0x3A || c == 0x3D || c == 0x40
  }

  function HexDigit(d: nat): (c: Byte)
    requires d < 16
  {
    if d < 10 then 0x30 + d else 0x41 + d - 10
  }

  /** Both cases are accepted when reading. */
  function HexValue(c: Byte): (r: Option<nat>)
    ensures r.Some? ==> r.value < 16
  {
    if Digit(c) then Some(c - 0x30)
    else if 0x61 <= c <= 0x66 then Some(c - 0x61 + 10)
    else if 0x41 <= c <= 0x46 then Some(c - 0x41 + 10)
    else None
  }

  function EscapeByte(c: Byte): (r: seq<Byte>)
    ensures r != []
  {
    if Unescaped(c) then [c] else [PERCENT, HexDigit(c / 16), HexDigit(c % 16)]
  }

  function Escape(s: seq<Byte>): seq<Byte> {
    if s == [] then [] else EscapeByte(s[0]) + Escape(s[1..])
  }

  function Unescape(s: seq<Byte>): Option<seq<Byte>> {
    if s == [] then Some([])
    else if s[0] == PERCENT then
      if |s| < 3 || HexValue(s[1]).None? || HexValue(s[2]).None? then None
      else
        match Unescape(s[3..])
        case None => None
        case Some(t) => Some([16 * HexValue(s[1]).value + HexValue(s[2]).value] + t)
    else
      match Unescape(s[1..])
      case None => None
      case Some(t) => Some([s[0]] + t)
  }

  lemma HexRoundTrip(d: nat)
    requires d < 16
    ensures HexValue(HexDigit(d)) == Some(d) && HexDigit(d) != SLASH
  {
  }

  lemma {:induction false} UnescapeEscape(s: seq<Byte>)
    ensures Unescape(Escape(s)) == Some(s)
  {
    if s != [] {
      var c, rest := s[0], Escape(s[1..]);
      UnescapeEscape(s[1..]);
      if Unescaped(c) {
        assert ([c] + rest)[1..] == rest;
      } else {
        HexRoundTrip(c / 16);
        HexRoundTrip(c % 16);
        assert (EscapeByte(c) + rest)[3..] == rest;
      }
      assert s == [c] + s[1..];
    }
  }

  lemma {:induction false} EscapeHasNoSlash(s: seq<Byte>)
    ensures SLASH !in Escape(s)
  {
    if s != [] {
      HexRoundTrip(s[0] / 16);
      HexRoundTrip(s[0] % 16);
      EscapeHasNoSlash(s[1..]);
    }
  }

  /** The sixteen digits, upper case. */
  const HEX: seq<Byte> := [0x30, 0x31, 0x32, 0x33, 0x34, 0x35, 0x36, 0x37, 0x38, 0x39, 0x41, 0x42, 0x43, 0x44, 0x45, 0x46]

  /** Letters, digits and the ten marks `-_.~$&+:=@` stand for themselves; every other octet is `%` and two digits. */
  lemma EscapeOctet(c: Byte)
    ensures 'a' as int <= c <= 'z' as int || 'A' as int <= c <= 'Z' as int || '0' as int <= c <= '9' as int || c in Text("-_.~$&+:=@")
            ==> Escape([c]) == [c]
    ensures !('a' as int <= c <= 'z' as int || 'A' as int <= c <= 'Z' as int || '0' as int <= c <= '9' as int || c in Text("-_.~$&+:=@"))
            ==> Escape([c]) == ['%' as int, HEX[c / 16], HEX[c % 16]]
  {
    assert Escape([c]) == EscapeByte(c) + Escape([]);
    Marks(c);
    HexDigits(c / 16);
    HexDigits(c % 16);
  }

  lemma HexDigits(d: nat)
    requires d < 16
    ensures HexDigit(d) == HEX[d]
  {
  }

  lemma HexText()
    ensures HEX == Text("0123456789ABCDEF")
  {
  }

  lemma Marks(c: Byte)
    ensures c in Text("-_.~$&+:=@") <==>
            c == 0x2D || c == 0x5F || c == 0x2E || c == 0x7E || c == 0x24 || c == 0x26 || c == 0x2B || c == 0x3A || c == 0x3D || c == 0x40
  {
    var t := Text("-_.~$&+:=@");
    assert t == [0x2D, 0x5F, 0x2E, 0x7E, 0x24, 0x26, 0x2B, 0x3A, 0x3D, 0x40];
  }

  /** Octets are escaped one by one. */
  lemma {:induction false} EscapeConcat(a: seq<Byte>, b: seq<Byte>)
    ensures Escape(a + b) == Escape(a) + Escape(b)
    decreases |a|
  {
    if a == [] {
      assert a + b == b;
    } else {
      assert (a + b)[1..] == a[1..] + b;
      EscapeConcat(a[1..], b);
    }
  }

  /** Reading: `%` needs two digits, of either case, and anything else stands for itself. */
  lemma UnescapeOctet(c: Byte, d: nat, e: nat, x: Byte, y: Byte, rest: seq<Byte>)
    requires c != '%' as int && d < 16 && e < 16
    requires (x == HEX[d] || x == Lowered(HEX[d])) && (y == HEX[e] || y == Lowered(HEX[e]))
    ensures Unescape([c] + rest) == match Unescape(rest) case None => None case Some(t) => Some([c] + t)
    ensures Unescape(['%' as int, x, y] + rest) == match Unescape(rest) case None => None case Some(t) => Some([16 * d + e] + t)
  {
    assert ([c] + rest)[1..] == rest;
    assert (['%' as int, x, y] + rest)[3..] == rest;
    HexDigits(d);
    HexDigits(e);
  }

  function Lowered(c: Byte): Byte { if 'A' as int <= c <= 'Z' as int then c + 0x20 else c }

  // ---------------------------------------------------------------- cutting, splitting, joining

  /** `strings.Cut` at the first separator. */
  datatype Cutting = Cutting(before: seq<Byte>, after: seq<Byte>, found: bool)

  function Cut(s: seq<Byte>, sep: Byte): Cutting {
    if s == [] then Cutting([], [], false)
    else if s[0] == sep then Cutting([], s[1..], true)
    else var c := Cut(s[1..], sep); c.(before := [s[0]] + c.before)
  }

  lemma {:induction false} CutRebuilds(s: seq<Byte>, sep: Byte)
    ensures sep !in Cut(s, sep).before
    ensures var c := Cut(s, sep); if c.found then s == c.before + [sep] + c.after else s == c.before && c.after == []
  {
    if s != [] && s[0] != sep {
      CutRebuilds(s[1..], sep);
      assert s == [s[0]] + s[1..];
    }
  }

  lemma {:induction false} CutFound(before: seq<Byte>, sep: Byte, after: seq<Byte>)
    requires sep !in before
    ensures Cut(before + [sep] + after, sep) == Cutting(before, after, true)
    decreases |before|
  {
    var s := before + [sep] + after;
    if before == [] {
      assert s[1..] == after;
    } else {
      assert s[1..] == before[1..] + [sep] + after;
      CutFound(before[1..], sep, after);
      assert before == [before[0]] + before[1..];
    }
  }

  lemma {:induction false} CutMissing(s: seq<Byte>, sep: Byte)
    requires sep !in s
    ensures Cut(s, sep) == Cutting(s, [], false)
  {
    if s != [] {
      CutMissing(s[1..], sep);
      assert s == [s[0]] + s[1..];
    }
  }

  function Split(s: seq<Byte>): (r: seq<seq<Byte>>)
    ensures |r| >= 1
  {
    if s == [] then [[]]
    else if s[0] == SLASH then [[]] + Split(s[1..])
    else var r := Split(s[1..]); [[s[0]] + r[0]] + r[1..]
  }

  function Join(parts: seq<seq<Byte>>): seq<Byte>
    requires |parts| >= 1
  {
    if |parts| == 1 then parts[0] else parts[0] + [SLASH] + Join(parts[1..])
  }

  predicate NoSlashes(parts: seq<seq<Byte>>) {
    forall k | 0 <= k < |parts| :: SLASH !in parts[k]
  }

  lemma {:induction false} JoinSplit(s: seq<Byte>)
    ensures Join(Split(s)) == s
  {
    if s != [] {
      var r := Split(s[1..]);
      JoinSplit(s[1..]);
      if s[0] == SLASH {
        assert ([[]] + r)[1..] == r;
        assert s == [] + [SLASH] + s[1..];
      } else {
        var r' := [[s[0]] + r[0]] + r[1..];
        assert r'[1..] == r[1..];
        assert s == [s[0]] + s[1..];
        assert Join(r') == [s[0]] + Join(r);
      }
    }
  }

  lemma {:induction false} SplitOne(part: seq<Byte>)
    requires SLASH !in part
    ensures Split(part) == [part]
  {
    if part != [] {
      SplitOne(part[1..]);
      assert part == [part[0]] + part[1..];
    }
  }

  lemma {:induction false} SplitCons(part: seq<Byte>, rest: seq<Byte>)
    requires SLASH !in part
    ensures Split(part + [SLASH] + rest) == [part] + Split(rest)
    decreases |part|
  {
    var s := part + [SLASH] + rest;
    if part == [] {
      assert s[1..] == rest;
    } else {
      assert s[1..] == part[1..] + [SLASH] + rest;
      SplitCons(part[1..], rest);
      assert part == [part[0]] + part[1..];
    }
  }

  lemma {:induction false} SplitJoin(parts: seq<seq<Byte>>)
    requires |parts| >= 1 && NoSlashes(parts)
    ensures Split(Join(parts)) == parts
  {
    if |parts| == 1 {
      SplitOne(parts[0]);
    } else {
      SplitCons(parts[0], Join(parts[1..]));
      SplitJoin(parts[1..]);
    }
  }

  lemma {:induction false} JoinAppend(parts: seq<seq<Byte>>, last: seq<Byte>)
    requires |parts| >= 1
    ensures Join(parts + [last]) == Join(parts) + [SLASH] + last
  {
    if |parts| > 1 {
      assert (parts + [last])[1..] == parts[1..] + [last];
      JoinAppend(parts[1..], last);
    } else {
      assert (parts + [last])[1..] == [last];
    }
  }
}
