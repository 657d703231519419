/**
 The headers of a native command: a Go map is enumerated in any order, and the wire list must not depend on
 that order, because every attempt for a page has to send the same request.
 */
module Headers {
  import opened Bytes

  type Name = seq<Byte>

  datatype Header = Header(name: Name, values: seq<seq<Byte>>)

  // ---------------------------------------------------------------- Go's string order

  predicate Less(a: Name, b: Name) {
    if b == [] then false
    else if a == [] then true
    else if a[0] != b[0] then a[0] < b[0]
    else Less(a[1..], b[1..])
  }

  lemma {:induction false} LessTotal(a: Name, b: Name)
    ensures a == b || Less(a, b) || Less(b, a)
    ensures !(Less(a, b) && Less(b, a)) && !Less(a, a)
  {
    if a != [] && b != [] && a[0] == b[0] {
      LessTotal(a[1..], b[1..]);
      LessIrreflexive(a);
      assert a == [a[0]] + a[1..] && b == [b[0]] + b[1..];
    } else {
      LessIrreflexive(a);
    }
  }

  lemma {:induction false} LessIrreflexive(a: Name)
    ensures !Less(a, a)
  {
    if a != [] { LessIrreflexive(a[1..]); }
  }

  lemma {:induction false} LessTransitive(a: Name, b: Name, c: Name)
    requires Less(a, b) && Less(b, c)
    ensures Less(a, c)
  {
    if a != [] && a[0] == b[0] && b[0] == c[0] {
      LessTransitive(a[1..], b[1..], c[1..]);
    }
  }

  /** At position `k` the names part: `a` ends there, or has the smaller octet there. */
  predicate PartAt(a: Name, b: Name, k: nat) {
    k <= |a| && k < |b| && a[..k] == b[..k] && (k == |a| || a[k] < b[k])
  }

  /** Go's string order: by the first octet that differs, and a prefix comes first. */
  lemma {:induction false} LessIff(a: Name, b: Name)
    ensures Less(a, b) <==> exists k: nat :: PartAt(a, b, k)
  {
    if a != [] && b != [] && a[0] == b[0] {
      LessIff(a[1..], b[1..]);
      if k: nat :| PartAt(a[1..], b[1..], k) {
        assert a[..k + 1] == [a[0]] + a[1..][..k] && b[..k + 1] == [b[0]] + b[1..][..k];
        assert PartAt(a, b, k + 1);
      }
      if k: nat :| PartAt(a, b, k) {
        assert a[1..][..k - 1] == a[..k][1..] && b[1..][..k - 1] == b[..k][1..];
        assert PartAt(a[1..], b[1..], k - 1);
      }
    } else if b != [] && (a == [] || a[0] < b[0]) {
      assert PartAt(a, b, 0);
    } else if k: nat :| PartAt(a, b, k) {
      assert false;
    }
  }

  /** Strictly increasing: sorted, and no name twice. */
  predicate Sorted(s: seq<Name>) { forall i, j | 0 <= i < j < |s| :: Less(s[i], s[j]) }

  // ---------------------------------------------------------------- sorting

  function Insert(s: seq<Name>, x: Name): (r: seq<Name>)
    ensures |r| == |s| + 1
  {
    if s == [] || Less(x, s[0]) then [x] + s else [s[0]] + Insert(s[1..], x)
  }

  lemma {:induction false} InsertSorts(s: seq<Name>, x: Name)
    requires Sorted(s) && x !in s
    ensures Sorted(Insert(s, x)) && forall y :: y in Insert(s, x) <==> y == x || y in s
  {
    if s == [] {
    } else if Less(x, s[0]) {
      forall i | 1 <= i < |s| ensures Less(x, s[i]) { LessTransitive(x, s[0], s[i]); }
    } else {
      LessTotal(x, s[0]);
      InsertSorts(s[1..], x);
      var r := Insert(s[1..], x);
      forall i | 0 <= i < |r| ensures Less(s[0], r[i]) {
        assert r[i] in r;
        if r[i] != x {
          var k :| 0 <= k < |s[1..]| && s[1..][k] == r[i];
          assert s[k + 1] == r[i];
        }
      }
      assert s == [s[0]] + s[1..];
    }
  }

  /** Two strictly sorted lists with the same members are the same list. */
  lemma {:induction false} SortedUnique(a: seq<Name>, b: seq<Name>)
    requires Sorted(a) && Sorted(b) && forall y :: y in a <==> y in b
    ensures a == b
    decreases |a|
  {
    assert b != [] ==> b[0] in a;
    if a != [] {
      assert a[0] in a && a[0] in b;
      assert b[0] in a;
      FirstIsLeast(a, b[0]);
      FirstIsLeast(b, a[0]);
      LessTotal(a[0], b[0]);
      forall y ensures y in a[1..] <==> y in b[1..] {
        InTail(a, y);
        InTail(b, y);
      }
      SortedUnique(a[1..], b[1..]);
      assert a == [a[0]] + a[1..] && b == [b[0]] + b[1..];
    }
  }

  lemma FirstIsLeast(s: seq<Name>, y: Name)
    requires Sorted(s) && y in s
    ensures y == s[0] || Less(s[0], y)
  {
    var k :| 0 <= k < |s| && s[k] == y;
  }

  lemma InTail(s: seq<Name>, y: Name)
    requires Sorted(s) && s != []
    ensures y in s[1..] <==> y in s && y != s[0]
  {
    LessIrreflexive(s[0]);
    if y in s[1..] {
      var k :| 0 <= k < |s[1..]| && s[1..][k] == y;
      assert s[k + 1] == y;
    }
    if y in s && y != s[0] {
      var k :| 0 <= k < |s| && s[k] == y;
      assert s[1..][k - 1] == y;
    }
  }

  // ---------------------------------------------------------------- Command.toProto

  function LowerByte(c: Byte): Byte { if 0x41 <= c <= 0x5A then c + 0x20 else c }

  /** "content-type" */
  const CONTENT_TYPE: Name := [0x63, 0x6F, 0x6E, 0x74, 0x65, 0x6E, 0x74, 0x2D, 0x74, 0x79, 0x70, 0x65]

  predicate FoldsToContentType(n: Name) {
    |n| == |CONTENT_TYPE| && forall k | 0 <= k < |n| :: LowerByte(n[k]) == CONTENT_TYPE[k]
  }

  predicate GoodHeader(name: Name, values: seq<seq<Byte>>) {
    name != [] && values != [] && !FoldsToContentType(name)
  }

  /** Content-Type in any case: each octet is that letter, upper or lower, or the hyphen. */
  lemma ContentTypeIff(n: Name)
    ensures FoldsToContentType(n) <==>
            |n| == 12 && forall k | 0 <= k < 12 :: n[k] == Text("content-type")[k] || n[k] == Text("CONTENT-TYPE")[k]
  {
    assert CONTENT_TYPE == Text("content-type");
    forall k | 0 <= k < 12 ensures Text("CONTENT-TYPE")[k] == if k == 7 then 0x2D else CONTENT_TYPE[k] - 0x20 {
      UpperContentType();
    }
  }

  lemma UpperContentType()
    ensures Text("CONTENT-TYPE") == [0x43, 0x4F, 0x4E, 0x54, 0x45, 0x4E, 0x54, 0x2D, 0x54, 0x59, 0x50, 0x45]
  {
  }

  /** A header is refused exactly if it has no name, no values, or names the content type. */
  lemma GoodHeaderIff(name: Name, values: seq<seq<Byte>>)
    ensures GoodHeader(name, values) <==> |name| > 0 && |values| > 0 && !FoldsToContentType(name)
  {
  }

  predicate GoodHeaders(h: map<Name, seq<seq<Byte>>>) { forall n | n in h :: GoodHeader(n, h[n]) }

  /** `order` lists the keys of `h`, each once: one of the orders a range over the map may take. */
  ghost predicate Enumerates(order: seq<Name>, h: map<Name, seq<seq<Byte>>>) {
    (forall n :: n in order <==> n in h) && forall i, j | 0 <= i < j < |order| :: order[i] != order[j]
  }

  /** A wire list that says what the map says, in sorted order. */
  ghost predicate Represents(list: seq<Header>, h: map<Name, seq<seq<Byte>>>) {
    && Sorted(NamesOf(list))
    && (forall n :: n in NamesOf(list) <==> n in h)
    && forall k | 0 <= k < |list| :: list[k].name in h && list[k].values == h[list[k].name]
  }

  function NamesOf(list: seq<Header>): (r: seq<Name>)
    ensures |r| == |list| && forall k | 0 <= k < |r| :: r[k] == list[k].name
  {
    seq(|list|, k requires 0 <= k < |list| => list[k].name)
  }

  /** There is only one such list: the request cannot depend on the map's iteration order. */
  lemma OneRepresentation(a: seq<Header>, b: seq<Header>, h: map<Name, seq<seq<Byte>>>)
    requires Represents(a, h) && Represents(b, h)
    ensures a == b
  {
    SortedUnique(NamesOf(a), NamesOf(b));
    forall k | 0 <= k < |a| ensures a[k] == b[k] {
      assert NamesOf(a)[k] == NamesOf(b)[k];
    }
  }

  /** The header part of `Command.toProto`: collect the names in map order, sort them, list the headers. */
  method ToHeaders(h: map<Name, seq<seq<Byte>>>, order: seq<Name>) returns (r: Option<seq<Header>>)
    requires Enumerates(order, h)
    ensures r.Some? <==> GoodHeaders(h)
    ensures r.Some? ==> Represents(r.value, h)
  {
    hide Less, FoldsToContentType, Insert;
    var names: seq<Name> := [];
    for k := 0 to |order|
      invariant Sorted(names) && forall y :: y in names <==> y in order[..k]
      invariant forall i | 0 <= i < k :: GoodHeader(order[i], h[order[i]])
    {
      assert order[k] in order;
      if !GoodHeader(order[k], h[order[k]]) {
        return None;
      }
      assert order[k] !in order[..k];
      InsertSorts(names, order[k]);
      names := Insert(names, order[k]);
      assert order[..k + 1] == order[..k] + [order[k]];
    }
    assert order[..|order|] == order;
    var list: seq<Header> := [];
    for k := 0 to |names|
      invariant |list| == k && forall i | 0 <= i < k :: names[i] in h && list[i] == Header(names[i], h[names[i]])
    {
      assert names[k] in names;
      list := list + [Header(names[k], h[names[k]])];
    }
    assert NamesOf(list) == names;
    forall n | n in h ensures GoodHeader(n, h[n]) {
      assert n in order;
      var i :| 0 <= i < |order| && order[i] == n;
    }
    return Some(list);
  }
}
