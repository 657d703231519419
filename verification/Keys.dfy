/** Typed record keys (`uri/key.go`), and the record addresses built from them. */
module Keys {
  import opened Bytes
  import opened PathText
  import opened KeyText
  import opened Uri

  /** The exact type and bytes of a key. */
  datatype Key = Key(kind: seq<Byte>, data: seq<Byte>)

  /** "string", "int64", "bytes" and the prefix "opaque:" */
  const STRING: seq<Byte> := [0x73, 0x74, 0x72, 0x69, 0x6E, 0x67]
  const INT64: seq<Byte> := [0x69, 0x6E, 0x74, 0x36, 0x34]
  const BYTES: seq<Byte> := [0x62, 0x79, 0x74, 0x65, 0x73]
  const OPAQUE: seq<Byte> := [0x6F, 0x70, 0x61, 0x71, 0x75, 0x65, 0x3A]

  const TAG_S: Byte := 0x73
  const TAG_I: Byte := 0x69
  const TAG_B: Byte := 0x62
  const TAG_O: Byte := 0x6F

  function OpaqueText(kind: seq<Byte>, data: seq<Byte>): seq<Byte> {
    Encode64(kind) + [COLON] + Encode64(data)
  }

  function FormatKey(key: Key): Result<seq<Byte>> {
    if key.kind == STRING then
      if ValidUtf8(key.data) then Ok([TAG_S, COLON] + key.data) else Err(BadKey)
    else if key.kind == INT64 then
      if |key.data| == 8 then Ok([TAG_I, COLON] + FormatInt(BytesInt64(key.data))) else Err(BadKey)
    else if key.kind == BYTES then Ok([TAG_B, COLON] + Encode64(key.data))
    else if OPAQUE <= key.kind then
      var kind := key.kind[|OPAQUE|..];
      if kind == [] || !ValidUtf8(kind) then Err(BadKey)
      else Ok([TAG_O, COLON] + OpaqueText(kind, key.data))
    else Err(BadKey)
  }

  /** The key a tagged text denotes, before the canonical-form test. */
  function ReadKey(tag: seq<Byte>, value: seq<Byte>): Result<Key> {
    if tag == [TAG_S] then Ok(Key(STRING, value))
    else if tag == [TAG_B] then
      (match Decode64(value)
       case None => Err(BadKey)
       case Some(data) => Ok(Key(BYTES, data)))
    else if tag == [TAG_I] then
      (match ParseInt(value)
       case None => Err(BadKey)
       case Some(v) => Ok(Key(INT64, Int64Bytes(v))))
    else if tag == [TAG_O] then
      var c := Cut(value, COLON);
      if !c.found || Decode64(c.before).None? || Decode64(c.after).None? then Err(BadKey)
      else Ok(Key(OPAQUE + Decode64(c.before).value, Decode64(c.after).value))
    else Err(BadKey)
  }

  function ParseKey(segment: seq<Byte>): Result<Key> {
    var c := Cut(segment, COLON);
    if !c.found then Err(BadKey)
    else
      match ReadKey(c.before, c.after)
      case Err(e) => Err(e)
      case Ok(key) => if FormatKey(key) == Ok(segment) then Ok(key) else Err(NotCanonical)
  }

  // ---------------------------------------------------------------- text and key determine each other

  lemma ReadOpaque(kind: seq<Byte>, data: seq<Byte>)
    ensures ReadKey([TAG_O], OpaqueText(kind, data)) == Ok(Key(OPAQUE + kind, data))
  {
    hide Encode64, Decode64, Cut;
    EncodedIsText(kind);
    CutFound(Encode64(kind), COLON, Encode64(data));
    Decode64Encode64(kind);
    Decode64Encode64(data);
  }

  /** What a key's text says after its tag denotes that key. */
  lemma ReadFormatted(key: Key)
    requires FormatKey(key).Ok?
    ensures var s := FormatKey(key).value; |s| >= 2 && s[1] == COLON && ReadKey([s[0]], s[2..]) == Ok(key)
  {
    hide Encode64, Decode64, FormatInt, ParseInt, ValidUtf8, OpaqueText, Int64Bytes, BytesInt64;
    var s := FormatKey(key).value;
    if key.kind == STRING {
      assert s[2..] == key.data;
    } else if key.kind == INT64 {
      assert s[2..] == FormatInt(BytesInt64(key.data));
      ParseIntFormatInt(BytesInt64(key.data));
      BytesRoundTrip(key.data);
    } else if key.kind == BYTES {
      assert s[2..] == Encode64(key.data);
      Decode64Encode64(key.data);
    } else {
      var kind := key.kind[|OPAQUE|..];
      assert key.kind == OPAQUE + kind;
      assert s[2..] == OpaqueText(kind, key.data);
      ReadOpaque(kind, key.data);
    }
  }

  lemma ParseFormatted(key: Key)
    requires FormatKey(key).Ok?
    ensures ParseKey(FormatKey(key).value) == Ok(key)
  {
    hide ReadKey, FormatKey;
    var s := FormatKey(key).value;
    ReadFormatted(key);
    assert s[0] != COLON by { TagIsNotColon(key); }
    assert s == [s[0]] + [COLON] + s[2..];
    CutFound([s[0]], COLON, s[2..]);
  }

  lemma TagIsNotColon(key: Key)
    requires FormatKey(key).Ok?
    ensures FormatKey(key).value != [] && FormatKey(key).value[0] != COLON
  {
  }

  /** `ParseKey` accepts exactly the texts `FormatKey` writes, and gives back the exact key. */
  lemma KeyIff(segment: seq<Byte>, key: Key)
    ensures ParseKey(segment) == Ok(key) <==> FormatKey(key) == Ok(segment)
  {
    hide ReadKey, FormatKey, Cut;
    if FormatKey(key) == Ok(segment) {
      ParseFormatted(key);
    }
  }

  /** Two keys with the same text are the same key, whatever their types. */
  lemma FormatInjective(a: Key, b: Key)
    requires FormatKey(a).Ok? && FormatKey(a) == FormatKey(b)
    ensures a == b
  {
    hide ParseKey, FormatKey;
    ParseFormatted(a);
    ParseFormatted(b);
  }

  /**
   What the canonical-form test adds for byte keys: of the texts the strict decoder takes, it refuses exactly
   those with a carriage return or line feed in them.
   */
  lemma NewlinesAreRefused(s: seq<Byte>)
    requires Decode64(s).Some?
    ensures ParseKey([TAG_B, COLON] + s).Ok? <==> DropNewlines(s) == s
  {
    hide Decode64, Encode64, DropNewlines, Cut;
    var segment := [TAG_B, COLON] + s;
    assert segment == [TAG_B] + [COLON] + s;
    CutFound([TAG_B], COLON, s);
    Encode64Decode64(s);
    var key := Key(BYTES, Decode64(s).value);
    assert FormatKey(key) == Ok([TAG_B, COLON] + DropNewlines(s));
    assert segment[2..] == s && ([TAG_B, COLON] + DropNewlines(s))[2..] == DropNewlines(s);
  }

  // ---------------------------------------------------------------- record addresses

  function AppendKey(resource: seq<Byte>, key: Key): Result<Address> {
    match Parse(resource)
    case Err(e) => Err(e)
    case Ok(base) =>
      match FormatKey(key)
      case Err(e) => Err(e)
      case Ok(segment) => Parse(base.value + [SLASH] + Escape(segment))
  }

  lemma FormattedIsSegment(key: Key)
    requires FormatKey(key).Ok?
    ensures ValidSegment(FormatKey(key).value)
  {
    hide Encode64, FormatInt, BytesInt64, ValidUtf8;
    var s := FormatKey(key).value;
    assert |s| >= 2 && s[0] != 0x2E;
    if key.kind == STRING {
      AsciiThen([TAG_S, COLON], key.data);
    } else if key.kind == INT64 {
      ParseIntFormatInt(BytesInt64(key.data));
      AsciiIsUtf8(s);
    } else if key.kind == BYTES {
      EncodedIsText(key.data);
      AsciiIsUtf8(s);
    } else {
      EncodedIsText(key.kind[|OPAQUE|..]);
      EncodedIsText(key.data);
      AsciiIsUtf8(s);
    }
  }

  lemma RenderAppend(store: seq<Byte>, segs: seq<seq<Byte>>, s: seq<Byte>)
    ensures Render(store, segs + [s]) == Render(store, segs) + [SLASH] + Escape(s)
  {
    hide Join, Escape;
    assert EscapeAll(segs + [s]) == EscapeAll(segs) + [Escape(s)];
    if segs == [] {
      assert Join([Escape(s)]) == Escape(s) by { JoinOne(Escape(s)); }
      assert EscapeAll(segs) + [Escape(s)] == [Escape(s)];
    } else {
      JoinAppend(EscapeAll(segs), Escape(s));
    }
  }

  /** Exactly when it succeeds, and what it builds: the key's text as one more segment. */
  lemma AppendKeyIff(resource: seq<Byte>, key: Key)
    ensures AppendKey(resource, key).Ok? <==>
            Parse(resource).Ok? && FormatKey(key).Ok? && |resource| + 1 + |Escape(FormatKey(key).value)| <= MAX_ADDRESS_BYTES
    ensures AppendKey(resource, key).Ok? ==>
              var a, base := AppendKey(resource, key).value, Parse(resource).value;
              a.store == base.store && a.segments == base.segments + [FormatKey(key).value]
  {
    hide Parse, FormatKey, Render, Escape, ValidStore, ValidSegment;
    if Parse(resource).Ok? && FormatKey(key).Ok? {
      var base, s := Parse(resource).value, FormatKey(key).value;
      ParseRebuilds(resource);
      FormattedIsSegment(key);
      RenderAppend(base.store, base.segments, s);
      var value := resource + [SLASH] + Escape(s);
      assert ValidSegments(base.segments + [s]);
      ParseIff(value, Address(value, base.store, base.segments + [s]));
      if Parse(value).Ok? {
        ParseRebuilds(value);
      }
    }
  }

  /** Record identity: one URI, one resource and one key. */
  lemma RecordIdentity(r1: seq<Byte>, k1: Key, r2: seq<Byte>, k2: Key)
    requires AppendKey(r1, k1).Ok? && AppendKey(r2, k2).Ok?
    requires AppendKey(r1, k1).value.value == AppendKey(r2, k2).value.value
    ensures r1 == r2 && k1 == k2
  {
    hide Parse, FormatKey, Render, Escape, ValidStore, ValidSegments;
    AppendKeyIff(r1, k1);
    AppendKeyIff(r2, k2);
    AppendedParses(r1, k1);
    AppendedParses(r2, k2);
    var b1, b2 := Parse(r1).value, Parse(r2).value;
    var s1, s2 := FormatKey(k1).value, FormatKey(k2).value;
    assert b1.segments + [s1] == b2.segments + [s2];
    LastEqual(b1.segments, s1, b2.segments, s2);
    FormatInjective(k1, k2);
    ParseRebuilds(r1);
    ParseRebuilds(r2);
  }

  lemma LastEqual<T>(a: seq<T>, x: T, b: seq<T>, y: T)
    requires a + [x] == b + [y]
    ensures a == b && x == y
  {
    assert (a + [x])[..|a|] == a && (b + [y])[..|b|] == b;
    assert (a + [x])[|a|] == x && (b + [y])[|b|] == y;
  }

  lemma AppendedParses(resource: seq<Byte>, key: Key)
    requires AppendKey(resource, key).Ok?
    ensures Parse(AppendKey(resource, key).value.value) == AppendKey(resource, key)
  {
    hide Parse, FormatKey, Escape;
    var value := Parse(resource).value.value + [SLASH] + Escape(FormatKey(key).value);
    ParseRebuilds(value);
  }

  // ---------------------------------------------------------------- the client's own keys (types.go)

  datatype ClientKey =
    | UnspecifiedKey
    | StringKey(text: seq<Byte>)
    | Int64Key(number: Int64)
    | BytesKey(data: seq<Byte>)
    | OpaqueKey(typeName: seq<Byte>, data: seq<Byte>)

  predicate ValidClientKey(k: ClientKey) {
    !k.UnspecifiedKey? && (k.OpaqueKey? ==> k.typeName != [])
  }

  function UriKey(k: ClientKey): Key {
    match k
    case UnspecifiedKey => Key([], [])
    case StringKey(text) => Key(STRING, text)
    case Int64Key(v) => Key(INT64, Int64Bytes(v))
    case BytesKey(data) => Key(BYTES, data)
    case OpaqueKey(name, data) => Key(OPAQUE + name, data)
  }

  function NewRecordAddress(resource: seq<Byte>, k: ClientKey): Result<Address> {
    if !ValidClientKey(k) then Err(EmptyKey) else AppendKey(resource, UriKey(k))
  }

  lemma UriKeyInjective(a: ClientKey, b: ClientKey)
    requires UriKey(a) == UriKey(b)
    ensures a == b
  {
    if a.Int64Key? && b.Int64Key? {
      Int64RoundTrip(a.number);
      Int64RoundTrip(b.number);
    } else if a.OpaqueKey? && b.OpaqueKey? {
      assert (OPAQUE + a.typeName)[|OPAQUE|..] == a.typeName && (OPAQUE + b.typeName)[|OPAQUE|..] == b.typeName;
    }
  }

  /** Two records built by the client have the same URI only if they are the same resource and key. */
  lemma ClientRecordIdentity(r1: seq<Byte>, k1: ClientKey, r2: seq<Byte>, k2: ClientKey)
    requires NewRecordAddress(r1, k1).Ok? && NewRecordAddress(r2, k2).Ok?
    requires NewRecordAddress(r1, k1).value.value == NewRecordAddress(r2, k2).value.value
    ensures r1 == r2 && k1 == k2
  {
    hide AppendKey, UriKey;
    RecordIdentity(r1, UriKey(k1), r2, UriKey(k2));
    UriKeyInjective(k1, k2);
  }

  /** `NewAddress`: a record URI needs a resource path. */
  function NewAddress(value: seq<Byte>): Result<Address> {
    match Parse(value)
    case Err(e) => Err(e)
    case Ok(a) => if a.segments == [] then Err(NoPath) else Ok(a)
  }

  /** Every address the client builds passes the validation that each operation repeats on its URI. */
  lemma RecordAddressValidates(resource: seq<Byte>, k: ClientKey)
    requires NewRecordAddress(resource, k).Ok?
    ensures NewAddress(NewRecordAddress(resource, k).value.value) == NewRecordAddress(resource, k)
  {
    hide AppendKey, Parse, FormatKey;
    AppendedParses(resource, UriKey(k));
    AppendKeyIff(resource, UriKey(k));
  }

  // ---------------------------------------------------------------- the spelling, in characters

  /** The names of the kinds and the tags, in characters. */
  lemma KindTexts()
    ensures STRING == Text("string") && INT64 == Text("int64") && BYTES == Text("bytes") && OPAQUE == Text("opaque:")
    ensures [TAG_S, COLON] == Text("s:") && [TAG_I, COLON] == Text("i:") && [TAG_B, COLON] == Text("b:") && [TAG_O, COLON] == Text("o:")
    ensures [COLON] == Text(":")
  {
  }

  /** What is written for each kind of key. */
  lemma KeySpelling(data: seq<Byte>)
    ensures FormatKey(Key(Text("string"), data)) == if ValidUtf8(data) then Ok(Text("s:") + data) else Err(BadKey)
    ensures FormatKey(Key(Text("int64"), data)) == if |data| == 8 then Ok(Text("i:") + FormatInt(BytesInt64(data))) else Err(BadKey)
    ensures FormatKey(Key(Text("bytes"), data)) == Ok(Text("b:") + Encode64(data))
  {
    KindTexts();
    hide Text, Encode64, FormatInt, BytesInt64, ValidUtf8;
  }

  lemma OpaqueSpelling(kind: seq<Byte>, data: seq<Byte>)
    ensures FormatKey(Key(Text("opaque:") + kind, data)) ==
            if kind != [] && ValidUtf8(kind) then Ok(Text("o:") + Encode64(kind) + Text(":") + Encode64(data)) else Err(BadKey)
  {
    KindTexts();
    hide Text, Encode64, FormatInt, BytesInt64, ValidUtf8;
    assert (OPAQUE + kind)[|OPAQUE|..] == kind;
    assert [TAG_O, COLON] + (Encode64(kind) + [COLON] + Encode64(data)) == [TAG_O, COLON] + Encode64(kind) + [COLON] + Encode64(data);
  }

  /** No other kind of key is written. */
  lemma OtherKinds(key: Key)
    requires key.kind != Text("string") && key.kind != Text("int64") && key.kind != Text("bytes") && !(Text("opaque:") <= key.kind)
    ensures FormatKey(key).Err?
  {
    KindTexts();
    hide Text;
  }

  /** The text of a client's key, if it has one. */
  function ClientText(k: ClientKey): Option<seq<Byte>> {
    match k
    case UnspecifiedKey => None
    case StringKey(text) => if ValidUtf8(text) then Some(Text("s:") + text) else None
    case Int64Key(v) => Some(Text("i:") + FormatInt(v))
    case BytesKey(data) => Some(Text("b:") + Encode64(data))
    case OpaqueKey(name, data) =>
      if name != [] && ValidUtf8(name) then Some(Text("o:") + Encode64(name) + Text(":") + Encode64(data)) else None
  }

  lemma ClientKeyText(k: ClientKey)
    ensures ValidClientKey(k) && FormatKey(UriKey(k)).Ok? <==> ClientText(k).Some?
    ensures ClientText(k).Some? ==> FormatKey(UriKey(k)) == Ok(ClientText(k).value)
  {
    KindTexts();
    hide Text, Encode64, FormatInt, BytesInt64, Int64Bytes, ValidUtf8, FormatKey;
    match k
    case UnspecifiedKey =>
    case StringKey(text) => KeySpelling(text);
    case Int64Key(v) =>
      Int64RoundTrip(v);
      EightOctets(v);
      KeySpelling(Int64Bytes(v));
    case BytesKey(data) => KeySpelling(data);
    case OpaqueKey(name, data) => OpaqueSpelling(name, data);
  }

  /**
   A record's URI, character by character: the resource, a slash, and the escaped text of the key; it exists
   exactly when the resource is an address, the key has a text, and the whole has at most 16384 bytes.
   */
  lemma RecordSpelling(resource: seq<Byte>, k: ClientKey)
    ensures NewRecordAddress(resource, k).Ok? <==>
            Parse(resource).Ok? && ClientText(k).Some? && |resource| + 1 + |Escape(ClientText(k).value)| <= 16384
    ensures NewRecordAddress(resource, k).Ok? ==>
              NewRecordAddress(resource, k).value.value == resource + ['/' as int] + Escape(ClientText(k).value)
  {
    hide Parse, FormatKey, Escape, UriKey, ClientText, ValidClientKey;
    ClientKeyText(k);
    AppendKeyIff(resource, UriKey(k));
    if ValidClientKey(k) && AppendKey(resource, UriKey(k)).Ok? {
      ParseRebuilds(resource);
      ParseRebuilds(Parse(resource).value.value + [SLASH] + Escape(FormatKey(UriKey(k)).value));
    }
  }

  /** A URI is a record address exactly when it parses and has a segment. */
  lemma NewAddressIff(value: seq<Byte>, a: Address)
    ensures NewAddress(value) == Ok(a) <==> Parse(value) == Ok(a) && |a.segments| >= 1
  {
    hide Parse;
  }

  /** Eight octets of an int64, most significant first, in two's complement. */
  lemma Int64Octets(v: Int64)
    ensures var u := v % 0x1_0000_0000_0000_0000;
            Int64Bytes(v) == [u / 0x100_0000_0000_0000, u / 0x1_0000_0000_0000 % 0x100, u / 0x100_0000_0000 % 0x100, u / 0x1_0000_0000 % 0x100,
                              u / 0x100_0000 % 0x100, u / 0x1_0000 % 0x100, u / 0x100 % 0x100, u % 0x100]
  {
    var u := v % 0x1_0000_0000_0000_0000;
    DivideTwice(u, 0x100, 0x100);
    DivideTwice(u, 0x1_0000, 0x100);
    DivideTwice(u, 0x100_0000, 0x100);
    DivideTwice(u, 0x1_0000_0000, 0x100);
    DivideTwice(u, 0x100_0000_0000, 0x100);
    DivideTwice(u, 0x1_0000_0000_0000, 0x100);
    Octets(u, u / 0x100, u / 0x1_0000, u / 0x100_0000, u / 0x1_0000_0000, u / 0x100_0000_0000, u / 0x1_0000_0000_0000, u / 0x100_0000_0000_0000);
  }

  lemma Octets(u: nat, a: nat, b: nat, c: nat, d: nat, e: nat, f: nat, g: nat)
    requires a == u / 0x100 && b == a / 0x100 && c == b / 0x100 && d == c / 0x100
    requires e == d / 0x100 && f == e / 0x100 && g == f / 0x100 && g < 0x100
    ensures BigEndian(u, 8) == [g, f % 0x100, e % 0x100, d % 0x100, c % 0x100, b % 0x100, a % 0x100, u % 0x100]
  {
    hide BigEndian;
    OneOctet(g, 0);
    OneOctet(f, 1);
    OneOctet(e, 2);
    OneOctet(d, 3);
    OneOctet(c, 4);
    OneOctet(b, 5);
    OneOctet(a, 6);
    OneOctet(u, 7);
  }

  lemma OneOctet(u: nat, k: nat)
    ensures BigEndian(u, k + 1) == BigEndian(u / 0x100, k) + [u % 0x100]
    ensures k == 0 && u < 0x100 ==> BigEndian(u, 1) == [u]
  {
  }

  lemma EightOctets(v: Int64)
    ensures |Int64Bytes(v)| == 8
  {
  }
}
