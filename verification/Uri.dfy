/**
 Canonical `sink://store/segment/...` addresses and typed record keys: a parser and a printer that are exact
 inverses, on which record identity rests. Go strings are sequences of octets.
 */
module Uri {
  import opened Bytes
  import opened PathText
  import opened KeyText

  datatype UriError =
    | TooLong | BadScheme | BadStore | RootSlash | BadEscape | BadSegment | NotCanonical
    | BadKey | EmptyKey | NoPath

  datatype Result<+T> = Ok(value: T) | Err(error: UriError)

  const MAX_ADDRESS_BYTES: nat := 16384

  /** "sink://" */
  const SCHEME: seq<Byte> := [0x73, 0x69, 0x6E, 0x6B, 0x3A, 0x2F, 0x2F]

  datatype Address = Address(value: seq<Byte>, store: seq<Byte>, segments: seq<seq<Byte>>)

  // ---------------------------------------------------------------- stores and segments

  predicate StoreByte(c: Byte, first: bool) {
    Lower(c) || Digit(c) || (!first && (c == 0x2D || c == 0x5F || c == 0x2E))
  }

  predicate ValidStore(s: seq<Byte>) {
    0 < |s| <= 256 && forall k | 0 <= k < |s| :: StoreByte(s[k], k == 0)
  }

  method CheckStore(value: seq<Byte>) returns (ok: bool)
    ensures ok == ValidStore(value)
  {
    if |value| == 0 || |value| > 256 {
      return false;
    }
    for i := 0 to |value|
      invariant forall k | 0 <= k < i :: StoreByte(value[k], k == 0)
    {
      var c := value[i];
      if 0x61 <= c <= 0x7A || 0x30 <= c <= 0x39 {
        continue;
      }
      if i > 0 && (c == 0x2D || c == 0x5F || c == 0x2E) {
        continue;
      }
      assert !StoreByte(value[i], i == 0);
      return false;
    }
    return true;
  }

  /** Nonempty UTF-8, and neither "." nor "..". */
  predicate ValidSegment(s: seq<Byte>) {
    s != [] && s != [0x2E] && s != [0x2E, 0x2E] && ValidUtf8(s)
  }

  predicate ValidSegments(segs: seq<seq<Byte>>) {
    forall k | 0 <= k < |segs| :: ValidSegment(segs[k])
  }

  // ---------------------------------------------------------------- printing

  function EscapeAll(segs: seq<seq<Byte>>): (r: seq<seq<Byte>>)
    ensures |r| == |segs| && forall k | 0 <= k < |r| :: r[k] == Escape(segs[k])
  {
    seq(|segs|, k requires 0 <= k < |segs| => Escape(segs[k]))
  }

  function EncodePath(segs: seq<seq<Byte>>): seq<Byte> {
    if segs == [] then [] else [SLASH] + Join(EscapeAll(segs))
  }

  function Render(store: seq<Byte>, segs: seq<seq<Byte>>): seq<Byte> {
    SCHEME + store + EncodePath(segs)
  }

  // ---------------------------------------------------------------- parsing

  function ParseSegment(part: seq<Byte>): Result<seq<Byte>> {
    match Unescape(part)
    case None => Err(BadEscape)
    case Some(decoded) =>
      if !ValidSegment(decoded) then Err(BadSegment)
      else if Escape(decoded) != part then Err(NotCanonical)
      else Ok(decoded)
  }

  function ParseSegments(parts: seq<seq<Byte>>): Result<seq<seq<Byte>>> {
    if parts == [] then Ok([])
    else
      match ParseSegment(parts[0])
      case Err(e) => Err(e)
      case Ok(s) =>
        match ParseSegments(parts[1..])
        case Err(e) => Err(e)
        case Ok(rest) => Ok([s] + rest)
  }

  function Parse(value: seq<Byte>): Result<Address> {
    if |value| > MAX_ADDRESS_BYTES then Err(TooLong)
    else if !(SCHEME <= value) then Err(BadScheme)
    else
      var c := Cut(value[|SCHEME|..], SLASH);
      if !ValidStore(c.before) then Err(BadStore)
      else if !c.found then Ok(Address(value, c.before, []))
      else if c.after == [] then Err(RootSlash)
      else
        match ParseSegments(Split(c.after))
        case Err(e) => Err(e)
        case Ok(segs) => Ok(Address(value, c.before, segs))
  }

  function New(store: seq<Byte>, segs: seq<seq<Byte>>): Result<Address> {
    Parse(Render(store, segs))
  }

  /** `whole` is `rest` with `done` in front of it. */
  ghost predicate Extends(whole: Result<seq<seq<Byte>>>, done: seq<seq<Byte>>, rest: Result<seq<seq<Byte>>>) {
    if rest.Err? then whole == rest else whole.Ok? && whole.value == done + rest.value
  }

  /** `Parse` with its loop over the encoded segments. */
  method ParseUri(value: seq<Byte>) returns (r: Result<Address>)
    ensures r == Parse(value)
  {
    hide Split, Unescape, Escape, ValidSegment, ValidStore, Cut;
    if |value| > MAX_ADDRESS_BYTES {
      return Err(TooLong);
    }
    if !(SCHEME <= value) {
      return Err(BadScheme);
    }
    var c := Cut(value[|SCHEME|..], SLASH);
    var validStore := CheckStore(c.before);
    if !validStore {
      return Err(BadStore);
    }
    if !c.found {
      return Ok(Address(value, c.before, []));
    }
    if c.after == [] {
      return Err(RootSlash);
    }
    var encoded := Split(c.after);
    var segments := [];
    ghost var whole := ParseSegments(encoded);
    assert encoded[0..] == encoded && (whole.Ok? ==> [] + whole.value == whole.value);
    for i := 0 to |encoded|
      invariant Extends(whole, segments, ParseSegments(encoded[i..]))
    {
      assert encoded[i..][1..] == encoded[i + 1..];
      var part := encoded[i];
      var decoded := Unescape(part);
      if decoded.None? {
        return Err(BadEscape);
      }
      if !ValidSegment(decoded.value) {
        return Err(BadSegment);
      }
      if Escape(decoded.value) != part {
        return Err(NotCanonical);
      }
      ghost var rest := ParseSegments(encoded[i + 1..]);
      assert rest.Ok? ==> segments + ([decoded.value] + rest.value) == segments + [decoded.value] + rest.value;
      segments := segments + [decoded.value];
    }
    assert segments + [] == segments;
    return Ok(Address(value, c.before, segments));
  }

  /** `New` with its loop over the segments. */
  method NewUri(store: seq<Byte>, segments: seq<seq<Byte>>) returns (r: Result<Address>)
    ensures r == New(store, segments)
  {
    hide Parse, Escape;
    if |segments| == 0 {
      assert SCHEME + store == Render(store, segments);
      r := ParseUri(SCHEME + store);
      return;
    }
    var encoded := [];
    for i := 0 to |segments|
      invariant |encoded| == i && forall k | 0 <= k < i :: encoded[k] == Escape(segments[k])
    {
      encoded := encoded + [Escape(segments[i])];
    }
    assert encoded == EscapeAll(segments);
    assert SCHEME + store + [SLASH] + Join(encoded) == Render(store, segments);
    r := ParseUri(SCHEME + store + [SLASH] + Join(encoded));
  }

  // ---------------------------------------------------------------- the parser inverts the printer

  lemma {:induction false} SegmentsRebuild(parts: seq<seq<Byte>>)
    requires ParseSegments(parts).Ok?
    ensures var segs := ParseSegments(parts).value; ValidSegments(segs) && EscapeAll(segs) == parts
  {
    hide Unescape, Escape, ValidSegment;
    if parts != [] {
      SegmentsRebuild(parts[1..]);
      var s, rest := ParseSegment(parts[0]).value, ParseSegments(parts[1..]).value;
      assert EscapeAll([s] + rest) == [Escape(s)] + EscapeAll(rest);
    }
  }

  lemma {:induction false} SegmentsParse(segs: seq<seq<Byte>>)
    requires ValidSegments(segs)
    ensures ParseSegments(EscapeAll(segs)) == Ok(segs)
  {
    hide Unescape, Escape, ValidSegment;
    if segs != [] {
      UnescapeEscape(segs[0]);
      SegmentsParse(segs[1..]);
      assert EscapeAll(segs)[1..] == EscapeAll(segs[1..]);
      assert segs == [segs[0]] + segs[1..];
    }
  }

  lemma StoreHasNoSlash(store: seq<Byte>)
    requires ValidStore(store)
    ensures SLASH !in store
  {
  }

  lemma {:induction false} JoinNonempty(segs: seq<seq<Byte>>)
    requires segs != [] && ValidSegments(segs)
    ensures Join(EscapeAll(segs)) != []
  {
    assert Escape(segs[0]) != [] by { assert segs[0] != []; }
  }

  /** Everything `Parse` accepts is the printed form of the store and segments it returns. */
  lemma ParseRebuilds(value: seq<Byte>)
    requires Parse(value).Ok?
    ensures var a := Parse(value).value;
            && a.value == value == Render(a.store, a.segments)
            && ValidStore(a.store) && ValidSegments(a.segments) && |value| <= MAX_ADDRESS_BYTES
  {
    hide Cut, Split, Join, ValidStore, ParseSegments;
    var c := Cut(value[|SCHEME|..], SLASH);
    CutRebuilds(value[|SCHEME|..], SLASH);
    assert value == SCHEME + value[|SCHEME|..];
    if c.found {
      SegmentsRebuild(Split(c.after));
      JoinSplit(c.after);
      assert SCHEME + (c.before + [SLASH] + c.after) == SCHEME + c.before + ([SLASH] + c.after);
    } else {
      assert SCHEME + c.before + [] == value;
    }
  }

  /** Everything printed from a valid store and valid segments, within the limit, parses back to them. */
  lemma ParseRender(store: seq<Byte>, segs: seq<seq<Byte>>)
    requires ValidStore(store) && ValidSegments(segs) && |Render(store, segs)| <= MAX_ADDRESS_BYTES
    ensures Parse(Render(store, segs)) == Ok(Address(Render(store, segs), store, segs))
  {
    hide Cut, Split, Join, ValidStore, ParseSegments, Escape, ValidSegment;
    StoreHasNoSlash(store);
    var value := Render(store, segs);
    assert value == SCHEME + (store + EncodePath(segs));
    assert value[|SCHEME|..] == store + EncodePath(segs);
    if segs == [] {
      assert store + [] == store;
      CutMissing(store, SLASH);
    } else {
      var parts := EscapeAll(segs);
      assert store + EncodePath(segs) == store + [SLASH] + Join(parts);
      CutFound(store, SLASH, Join(parts));
      JoinNonempty(segs);
      forall k | 0 <= k < |parts| ensures SLASH !in parts[k] { EscapeHasNoSlash(segs[k]); }
      SplitJoin(parts);
      SegmentsParse(segs);
    }
  }

  /** The bijection: an address parses exactly when it is the canonical spelling of its own parts. */
  lemma ParseIff(value: seq<Byte>, a: Address)
    ensures Parse(value) == Ok(a) <==>
            && a.value == value == Render(a.store, a.segments)
            && ValidStore(a.store) && ValidSegments(a.segments) && |value| <= MAX_ADDRESS_BYTES
  {
    hide Parse, Render, ValidStore, ValidSegments;
    if Parse(value) == Ok(a) {
      ParseRebuilds(value);
    } else if ValidStore(a.store) && ValidSegments(a.segments) && |value| <= MAX_ADDRESS_BYTES &&
              a.value == value == Render(a.store, a.segments) {
      ParseRender(a.store, a.segments);
      assert false;
    }
  }

  /** `New` gives back the store and segments it was called with exactly when both are valid and fit. */
  lemma NewIff(store: seq<Byte>, segs: seq<seq<Byte>>)
    ensures (New(store, segs).Ok? && New(store, segs).value.store == store && New(store, segs).value.segments == segs) <==>
            ValidStore(store) && ValidSegments(segs) && |Render(store, segs)| <= MAX_ADDRESS_BYTES
  {
    hide Parse, Render, ValidStore, ValidSegments;
    ParseIff(Render(store, segs), Address(Render(store, segs), store, segs));
    if New(store, segs).Ok? {
      ParseRebuilds(Render(store, segs));
    }
  }

  /** Without a valid store `New` may still succeed, with other parts: "a/b" is read as store "a". */
  lemma NewOfSlashedStore()
    ensures var a, b, c := [0x61], [0x62], [0x63];
            New(a + [SLASH] + b, [c]) == Ok(Address(Render(a, [b, c]), a, [b, c]))
  {
    var a: seq<Byte>, b: seq<Byte>, c: seq<Byte> := [0x61], [0x62], [0x63];
    assert b[1..] == [] && c[1..] == [];
    assert Escape(b) == b && Escape(c) == c;
    assert EscapeAll([b, c]) == [b, c];
    assert EscapeAll([c]) == [c];
    assert Join([b, c]) == b + [SLASH] + Join([c]) by { assert [b, c][1..] == [c]; }
    assert Render(a + [SLASH] + b, [c]) == Render(a, [b, c]);
    AsciiIsUtf8(b);
    AsciiIsUtf8(c);
    assert ValidSegments([b, c]);
    ParseRender(a, [b, c]);
  }

  /** `EscapedPath`: what follows the store, in its canonical encoding. */
  function EscapedPath(a: Address): seq<Byte> {
    if SCHEME + a.store <= a.value then a.value[|SCHEME + a.store|..] else a.value
  }

  lemma EscapedPathIsPath(value: seq<Byte>)
    requires Parse(value).Ok?
    ensures EscapedPath(Parse(value).value) == EncodePath(Parse(value).value.segments)
  {
    hide Parse;
    ParseRebuilds(value);
  }

  // ---------------------------------------------------------------- the spelling, in characters

  /** A store: 1 to 256 lower-case letters and digits, and after the first also minus, underscore and dot. */
  lemma ValidStoreIff(s: seq<Byte>)
    ensures ValidStore(s) <==>
            && 1 <= |s| <= 256
            && forall k | 0 <= k < |s| ::
                 || 'a' as int <= s[k] <= 'z' as int || '0' as int <= s[k] <= '9' as int
                 || (k > 0 && (s[k] == '-' as int || s[k] == '_' as int || s[k] == '.' as int))
  {
    assert 'a' as int == 0x61 && 'z' as int == 0x7A && '0' as int == 0x30 && '9' as int == 0x39;
    forall k | 0 <= k < |s|
      ensures StoreByte(s[k], k == 0) <==>
              || 'a' as int <= s[k] <= 'z' as int || '0' as int <= s[k] <= '9' as int
              || (k > 0 && (s[k] == '-' as int || s[k] == '_' as int || s[k] == '.' as int))
    {
    }
  }

  /** A segment: the text of some code points, and neither empty nor "." nor "..". */
  lemma ValidSegmentIff(s: seq<Byte>)
    ensures ValidSegment(s) <==>
            s != [] && s != ['.' as int] && s != ['.' as int, '.' as int] && exists cs: seq<Scalar> :: Utf8(cs) == s
  {
    ValidUtf8Iff(s);
  }

  /** An address is "sink://", the store, and for each segment a slash and its escaped text. */
  lemma {:induction false} RenderSpelling(store: seq<Byte>, segs: seq<seq<Byte>>)
    ensures Render(store, []) == Text("sink://") + store
    ensures forall s :: Render(store, segs + [s]) == Render(store, segs) + ['/' as int] + Escape(s)
  {
    assert Text("sink://") == SCHEME;
    assert SCHEME + store + [] == SCHEME + store;
    forall s ensures Render(store, segs + [s]) == Render(store, segs) + ['/' as int] + Escape(s) {
      hide Join, Escape;
      assert EscapeAll(segs + [s]) == EscapeAll(segs) + [Escape(s)];
      if segs == [] {
        JoinOne(Escape(s));
        assert EscapeAll(segs) + [Escape(s)] == [Escape(s)];
      } else {
        JoinAppend(EscapeAll(segs), Escape(s));
      }
    }
  }

  lemma JoinOne(s: seq<Byte>)
    ensures Join([s]) == s
  {
  }

  /** The whole bijection in one statement, with the limit of 16384 bytes. */
  lemma ParseSpelling(value: seq<Byte>, store: seq<Byte>, segs: seq<seq<Byte>>)
    ensures Parse(value) == Ok(Address(value, store, segs)) <==>
            && value == Render(store, segs) && |value| <= 16384
            && ValidStore(store) && forall k | 0 <= k < |segs| :: ValidSegment(segs[k])
  {
    hide Parse, Render, ValidStore, ValidSegment;
    ParseIff(value, Address(value, store, segs));
  }

  lemma ExampleTexts()
    ensures Text("sink://s/a%2Fb%20c") == Text("sink://") + Text("s") + ['/' as int] + Text("a%2Fb%20c")
    ensures Text("sink://s/a%2Fb") == Text("sink://") + Text("s") + ['/' as int] + Text("a%2Fb")
    ensures Text("sink://s/a%2fb") == SCHEME + (Text("s") + [SLASH] + Text("a%2fb"))
    ensures SLASH !in Text("s") && SLASH !in Text("a%2fb") && Text("a%2fb")[1] == PERCENT && Lower(Text("a%2fb")[3])
    ensures Ascii(Text("a/b c")) && Ascii(Text("a/b")) && |Text("a/b c")| == 5 && |Text("a/b")| == 3
    ensures |Text("sink://s/a%2Fb%20c")| <= 16384 && |Text("sink://s/a%2Fb")| <= 16384 && ValidStore(Text("s"))
  {
    var t := Text("a%2fb");
    assert t == [0x61, 0x25, 0x32, 0x66, 0x62] && Text("s") == [0x73];
  }

  lemma WritesUpperCase(seg: seq<Byte>, text: seq<Byte>, value: seq<Byte>)
    requires Ascii(seg) && |seg| >= 3 && Escape(seg) == text
    requires value == Text("sink://") + Text("s") + ['/' as int] + text && |value| <= 16384 && ValidStore(Text("s"))
    ensures New(Text("s"), [seg]) == Ok(Address(value, Text("s"), [seg])) && Parse(value).Ok?
  {
    hide Parse, Escape, ValidUtf8, Text, ValidStore;
    AsciiIsUtf8(seg);
    RenderSpelling(Text("s"), []);
    assert [] + [seg] == [seg];
    ParseRender(Text("s"), [seg]);
  }

  /** A slash inside a segment is written %2F, a space %20, and only in upper case is that accepted. */
  lemma SlashInSegment()
    ensures New(Text("s"), [Text("a/b c")]) == Ok(Address(Text("sink://s/a%2Fb%20c"), Text("s"), [Text("a/b c")]))
    ensures New(Text("s"), [Text("a/b")]) == Ok(Address(Text("sink://s/a%2Fb"), Text("s"), [Text("a/b")]))
    ensures Parse(Text("sink://s/a%2Fb")).Ok? && Parse(Text("sink://s/a%2fb")).Err?
  {
    ExampleTexts();
    EscapedExample();
    hide Parse, Escape, Text, New, ValidStore, Ascii;
    WritesUpperCase(Text("a/b c"), Text("a%2Fb%20c"), Text("sink://s/a%2Fb%20c"));
    WritesUpperCase(Text("a/b"), Text("a%2Fb"), Text("sink://s/a%2Fb"));
    LowerCaseRefused();
  }

  lemma EscapedExample()
    ensures Escape(Text("a/b c")) == Text("a%2Fb%20c") && Escape(Text("a/b")) == Text("a%2Fb")
  {
    var a, slash, b, space, c: seq<Byte> := [0x61], [0x2F], [0x62], [0x20], [0x63];
    ExampleOctets();
    EscapeSingles();
    hide Escape, Text;
    EscapeConcat(a + slash + b + space, c);
    EscapeConcat(a + slash + b, space);
    EscapeConcat(a + slash, b);
    EscapeConcat(a, slash);
  }

  lemma ExampleOctets()
    ensures Text("a/b") == [0x61] + [0x2F] + [0x62] && Text("a/b c") == [0x61] + [0x2F] + [0x62] + [0x20] + [0x63]
    ensures Text("a%2Fb") == [0x61] + [0x25, 0x32, 0x46] + [0x62]
    ensures Text("a%2Fb%20c") == [0x61] + [0x25, 0x32, 0x46] + [0x62] + [0x25, 0x32, 0x30] + [0x63]
  {
  }

  lemma EscapeSingles()
    ensures Escape([0x61]) == [0x61] && Escape([0x62]) == [0x62] && Escape([0x63]) == [0x63]
    ensures Escape([0x2F]) == [0x25, 0x32, 0x46] && Escape([0x20]) == [0x25, 0x32, 0x30]
  {
  }

  /** Every octet of an escaped text after a percent sign is a digit or an upper-case letter. */
  lemma {:induction false} NoLowerHex(s: seq<Byte>, k: nat)
    requires k + 2 < |Escape(s)| && Escape(s)[k] == PERCENT
    ensures !Lower(Escape(s)[k + 2])
    decreases |s|
  {
    var head, rest := EscapeByte(s[0]), Escape(s[1..]);
    assert Escape(s) == head + rest;
    if k >= |head| {
      assert Escape(s)[k + 2] == rest[k - |head| + 2];
      NoLowerHex(s[1..], k - |head|);
    } else {
      assert head[k] == PERCENT && k == 0 && |head| == 3;
    }
  }

  lemma LowerCaseRefused()
    ensures Parse(Text("sink://s/a%2fb")).Err?
  {
    hide Text, Parse, Escape, Join, ValidUtf8, Render, ValidStore;
    var value := Text("sink://s/a%2fb");
    if Parse(value).Ok? {
      ParseRebuilds(value);
      LowerCaseSegments(Parse(value).value.store, Parse(value).value.segments);
    }
  }

  lemma LowerCaseSegments(store: seq<Byte>, segs: seq<seq<Byte>>)
    requires ValidStore(store) && Render(store, segs) == Text("sink://s/a%2fb")
    ensures false
  {
    ExampleTexts();
    var s, text := Text("s"), Text("a%2fb");
    var path := EncodePath(segs);
    hide Escape, Join, ValidStore, Text, Cut;
    StoreHasNoSlash(store);
    CutFound(s, SLASH, text);
    assert Render(store, segs) == SCHEME + (store + path);
    SamePrefix(SCHEME, store + path, s + [SLASH] + text);
    if segs == [] {
      assert store + path == store;
      CutMissing(store, SLASH);
    } else {
      var parts := EscapeAll(segs);
      assert store + path == store + [SLASH] + Join(parts);
      CutFound(store, SLASH, Join(parts));
      OnePart(segs, text);
      NoLowerHex(segs[0], 1);
    }
  }

  lemma SamePrefix(p: seq<Byte>, a: seq<Byte>, b: seq<Byte>)
    requires p + a == p + b
    ensures a == b
  {
    assert (p + a)[|p|..] == a && (p + b)[|p|..] == b;
  }

  /** Escaped segments that join to a text without a slash are one segment. */
  lemma OnePart(segs: seq<seq<Byte>>, text: seq<Byte>)
    requires segs != [] && Join(EscapeAll(segs)) == text && SLASH !in text
    ensures Escape(segs[0]) == text
  {
    hide Escape, Join;
    var parts := EscapeAll(segs);
    forall k | 0 <= k < |parts| ensures SLASH !in parts[k] { EscapeHasNoSlash(segs[k]); }
    SplitJoin(parts);
    SplitOne(text);
  }
}
