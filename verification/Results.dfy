/**
 Decoding batch responses (`results.go`): results arrive in any order, tagged with operation indexes, and
 are put in request order. The Read, Write and Delete decoders differ only in how one result is checked.
 */
module Results {
  import opened Bytes

  datatype Document = Document(encoding: int, payload: seq<Byte>)
  datatype Failure = Failure(code: int, message: seq<Byte>, retryable: bool)

  /** One result as the server sent it; absent submessages are `None`, `index` is a uint32. */
  datatype Wire = Wire(index: nat, status: int, document: Option<Document>, revision: Option<seq<Byte>>, failure: Option<Failure>)

  /** One result as the caller sees it, apart from its operation index. */
  datatype Value = Value(status: int, document: Option<Document>, revision: seq<Byte>, failure: Option<Failure>)

  const UNSPECIFIED := 0

  const READ_FOUND := 1
  const READ_NOT_FOUND := 2
  const READ_FAILED := 3

  const WRITE_ACCEPTED := 1
  const WRITE_APPLIED := 2
  const WRITE_PRECONDITION_FAILED := 3
  const WRITE_FAILED := 4

  const DELETE_ACCEPTED := 1
  const DELETE_APPLIED := 2
  const DELETE_FAILED := 3

  /** How one kind of response checks and converts a result. */
  type Checker = Wire -> Option<Value>

  // ---------------------------------------------------------------- one result

  /** `operationFailure`: details must be there, with a code and a message. */
  predicate GoodFailure(f: Option<Failure>) { f.Some? && f.value.code != UNSPECIFIED && f.value.message != [] }

  function RevisionOf(r: Option<seq<Byte>>): seq<Byte> { if r.None? then [] else r.value }

  function CheckRead(valid: Document -> bool, w: Wire): (r: Option<Value>) {
    if w.status == READ_FOUND then
      if w.document.Some? && valid(w.document.value) then Some(Value(w.status, w.document, RevisionOf(w.revision), None)) else None
    else if w.status == READ_NOT_FOUND then Some(Value(w.status, None, [], None))
    else if w.status == READ_FAILED && GoodFailure(w.failure) then Some(Value(w.status, None, [], w.failure))
    else None
  }

  function CheckWrite(valid: Document -> bool, w: Wire): (r: Option<Value>) {
    if w.document.Some? && (w.status != WRITE_APPLIED || !valid(w.document.value)) then None
    else if w.status == WRITE_ACCEPTED || w.status == WRITE_APPLIED then
      Some(Value(w.status, w.document, RevisionOf(w.revision), None))
    else if (w.status == WRITE_PRECONDITION_FAILED || w.status == WRITE_FAILED) && GoodFailure(w.failure) then
      Some(Value(w.status, w.document, RevisionOf(w.revision), w.failure))
    else None
  }

  function CheckDelete(w: Wire): (r: Option<Value>) {
    if w.status == DELETE_ACCEPTED || w.status == DELETE_APPLIED then Some(Value(w.status, None, [], None))
    else if w.status == DELETE_FAILED && GoodFailure(w.failure) then Some(Value(w.status, None, [], w.failure))
    else None
  }

  /** Accepted results carry a failure exactly when their status says so, and never an unspecified status. */
  lemma FailureMatchesStatus(valid: Document -> bool, w: Wire)
    ensures CheckRead(valid, w).Some? ==>
              var v := CheckRead(valid, w).value;
              v.status in {READ_FOUND, READ_NOT_FOUND, READ_FAILED} && (v.failure.Some? <==> v.status == READ_FAILED) &&
              (v.document.Some? <==> v.status == READ_FOUND)
    ensures CheckWrite(valid, w).Some? ==>
              var v := CheckWrite(valid, w).value;
              v.status in {WRITE_ACCEPTED, WRITE_APPLIED, WRITE_PRECONDITION_FAILED, WRITE_FAILED} &&
              (v.failure.Some? <==> v.status == WRITE_PRECONDITION_FAILED || v.status == WRITE_FAILED) &&
              (v.document.Some? ==> v.status == WRITE_APPLIED && valid(v.document.value))
    ensures CheckDelete(w).Some? ==>
              var v := CheckDelete(w).value;
              v.status in {DELETE_ACCEPTED, DELETE_APPLIED, DELETE_FAILED} && (v.failure.Some? <==> v.status == DELETE_FAILED)
  {
  }

  // ---------------------------------------------------------------- what the caller is told, in the numbers of the wire

  /** A failure with a code and a message. */
  predicate IsFailure(f: Option<Failure>) { f.Some? && f.value.code != 0 && |f.value.message| > 0 }

  /** A read result on the wire, and what the caller gets for it: 1 is found, 2 not found, 3 failed. */
  predicate ReadMeans(valid: Document -> bool, w: Wire, v: Value) {
    && v.status == w.status
    && ((w.status == 1 && w.document.Some? && valid(w.document.value) && v.document == w.document &&
         (w.revision.Some? ==> v.revision == w.revision.value) && (w.revision.None? ==> v.revision == []) && v.failure.None?) ||
        (w.status == 2 && v.document.None? && v.revision == [] && v.failure.None?) ||
        (w.status == 3 && IsFailure(w.failure) && v.document.None? && v.revision == [] && v.failure == w.failure))
  }

  /** A write result: 1 is accepted, 2 applied, 3 precondition failed, 4 failed; only 2 may come with a document. */
  predicate WriteMeans(valid: Document -> bool, w: Wire, v: Value) {
    && v.status == w.status && 1 <= w.status <= 4
    && v.document == w.document && (w.document.Some? ==> w.status == 2 && valid(w.document.value))
    && (w.revision.Some? ==> v.revision == w.revision.value) && (w.revision.None? ==> v.revision == [])
    && (if w.status <= 2 then v.failure.None? else IsFailure(w.failure) && v.failure == w.failure)
  }

  /** A delete result: 1 is accepted, 2 applied, 3 failed. */
  predicate DeleteMeans(w: Wire, v: Value) {
    && v.status == w.status && 1 <= w.status <= 3
    && v.document.None? && v.revision == []
    && (if w.status <= 2 then v.failure.None? else IsFailure(w.failure) && v.failure == w.failure)
  }

  /** A result is accepted, as `v`, exactly when `v` is what the wire result means. */
  lemma CheckedIff(valid: Document -> bool, w: Wire, v: Value)
    ensures CheckRead(valid, w) == Some(v) <==> ReadMeans(valid, w, v)
    ensures CheckWrite(valid, w) == Some(v) <==> WriteMeans(valid, w, v)
    ensures CheckDelete(w) == Some(v) <==> DeleteMeans(w, v)
  {
  }

  /** And it is accepted at all exactly when its status, document and failure are good. */
  lemma AcceptedIff(valid: Document -> bool, w: Wire)
    ensures CheckRead(valid, w).Some? <==>
            (w.status == 1 && w.document.Some? && valid(w.document.value)) || w.status == 2 || (w.status == 3 && IsFailure(w.failure))
    ensures CheckWrite(valid, w).Some? <==>
            && 1 <= w.status <= 4
            && (w.document.Some? ==> w.status == 2 && valid(w.document.value)) && (w.status >= 3 ==> IsFailure(w.failure))
    ensures CheckDelete(w).Some? <==> 1 <= w.status <= 3 && (w.status == 3 ==> IsFailure(w.failure))
  {
  }

  // ---------------------------------------------------------------- pigeonhole

  predicate Distinct(s: seq<nat>) { forall i, j | 0 <= i < j < |s| :: s[i] != s[j] }
  predicate Below(s: seq<nat>, n: nat) { forall i | 0 <= i < |s| :: s[i] < n }

  function UpTo(n: nat): (r: set<nat>)
    ensures forall i: nat :: i in r <==> i < n
  {
    if n == 0 then {} else UpTo(n - 1) + {n - 1}
  }

  lemma {:induction false} UpToSize(n: nat)
    ensures |UpTo(n)| == n
  {
    if n > 0 {
      UpToSize(n - 1);
      assert UpTo(n) == UpTo(n - 1) + {n - 1};
    }
  }

  function Elements(s: seq<nat>): set<nat> { set x | x in s }

  lemma {:induction false} DistinctSize(s: seq<nat>)
    requires Distinct(s)
    ensures |Elements(s)| == |s|
  {
    if s != [] {
      var front, last := s[..|s| - 1], s[|s| - 1];
      DistinctSize(front);
      assert s == front + [last];
      assert Elements(s) == Elements(front) + {last};
      assert last !in Elements(front);
    }
  }

  lemma {:induction false} SubsetOfSameSize<T>(a: set<T>, b: set<T>)
    requires a <= b && |a| == |b|
    ensures a == b
  {
    if a != b {
      var x :| x in b && x !in a;
      SizeOfSubset(a, b - {x});
      assert false;
    }
  }

  lemma {:induction false} SizeOfSubset<T>(a: set<T>, b: set<T>)
    requires a <= b
    ensures |a| <= |b|
    decreases |a|
  {
    if x :| x in a {
      SizeOfSubset(a - {x}, b - {x});
    }
  }

  /** `n` distinct indexes below `n` are all of them. */
  lemma Pigeonhole(s: seq<nat>, n: nat)
    requires Distinct(s) && Below(s, n) && |s| == n
    ensures forall i: nat | i < n :: i in s
  {
    UpToSize(n);
    DistinctSize(s);
    SubsetOfSameSize(Elements(s), UpTo(n));
    forall i: nat | i < n ensures i in s { assert i in UpTo(n); }
  }

  /** And `n` indexes that cover everything below `n` are distinct: a permutation either way. */
  lemma Covering(s: seq<nat>, n: nat)
    requires |s| == n && Below(s, n) && forall i: nat | i < n :: i in s
    ensures Distinct(s)
  {
    if i, j :| 0 <= i < j < |s| && s[i] == s[j] {
      var rest := s[..j] + s[j + 1..];
      forall x: nat | x < n ensures x in rest {
        assert x in s;
        var k :| 0 <= k < |s| && s[k] == x;
        if k < j { assert rest[k] == x; } else if k > j { assert rest[k - 1] == x; } else { assert rest[i] == x; }
      }
      UpToSize(n);
      assert UpTo(n) <= Elements(rest);
      SizeOfSubset(UpTo(n), Elements(rest));
      ElementsSize(rest);
      assert false;
    }
  }

  lemma {:induction false} ElementsSize(s: seq<nat>)
    ensures |Elements(s)| <= |s|
  {
    if s != [] {
      var front, last := s[..|s| - 1], s[|s| - 1];
      ElementsSize(front);
      assert s == front + [last];
      assert Elements(s) == Elements(front) + {last};
    }
  }

  // ---------------------------------------------------------------- a whole response

  predicate AllPresent(wire: seq<Option<Wire>>) { forall k | 0 <= k < |wire| :: wire[k].Some? }

  function Indexes(wire: seq<Option<Wire>>): (s: seq<nat>)
    requires AllPresent(wire)
    ensures |s| == |wire| && forall k | 0 <= k < |s| :: s[k] == wire[k].value.index
  {
    seq(|wire|, k requires 0 <= k < |wire| => wire[k].value.index)
  }

  /** Everything the decoders test. */
  ghost predicate Acceptable(check: Checker, wire: seq<Option<Wire>>, count: nat) {
    && |wire| == count && AllPresent(wire)
    && Below(Indexes(wire), count) && Distinct(Indexes(wire))
    && forall k | 0 <= k < |wire| :: check(wire[k].value).Some?
  }

  /** `values` holds, at each wire result's index, that result. */
  ghost predicate Placed(check: Checker, wire: seq<Option<Wire>>, values: seq<Value>) {
    forall k | 0 <= k < |wire| ::
      wire[k].Some? && wire[k].value.index < |values| && check(wire[k].value) == Some(values[wire[k].value.index])
  }

  /** The decoded response, in request order. */
  ghost function Decode(check: Checker, wire: seq<Option<Wire>>, count: nat): (r: Option<seq<Value>>)
    ensures r.Some? <==> Acceptable(check, wire, count)
    ensures r.Some? ==> |r.value| == count && Placed(check, wire, r.value)
  {
    if Acceptable(check, wire, count) then
      Pigeonhole(Indexes(wire), count);
      var values := seq(count, i requires 0 <= i < count => ValueAt(check, wire, i));
      assert forall k | 0 <= k < |wire| :: Indexes(wire)[k] < count && values[wire[k].value.index] == ValueAt(check, wire, Indexes(wire)[k]);
      Some(values)
    else None
  }

  ghost function ValueAt(check: Checker, wire: seq<Option<Wire>>, i: nat): (v: Value)
    requires Acceptable(check, wire, |wire|) && i in Indexes(wire)
    ensures forall k | 0 <= k < |wire| && wire[k].value.index == i :: check(wire[k].value) == Some(v)
  {
    var k :| 0 <= k < |wire| && Indexes(wire)[k] == i;
    assert forall j | 0 <= j < |wire| && Indexes(wire)[j] == i :: j == k;
    check(wire[k].value).value
  }

  /** There is only one way to place an acceptable response: every slot is filled, by one result. */
  lemma PlacedIsDecoded(check: Checker, wire: seq<Option<Wire>>, values: seq<Value>)
    requires Acceptable(check, wire, |values|) && Placed(check, wire, values)
    ensures Decode(check, wire, |values|) == Some(values)
  {
    var d := Decode(check, wire, |values|).value;
    Pigeonhole(Indexes(wire), |values|);
    forall i: nat | i < |values| ensures d[i] == values[i] {
      assert i in Indexes(wire);
      var k :| 0 <= k < |wire| && Indexes(wire)[k] == i;
      assert check(wire[k].value) == Some(values[wire[k].value.index]);
      assert check(wire[k].value) == Some(d[wire[k].value.index]);
    }
    assert d == values;
  }

  /** A response is accepted exactly when its indexes are a permutation of 0..count-1 and each result is well formed. */
  lemma AcceptedIffPermutation(check: Checker, wire: seq<Option<Wire>>, count: nat)
    ensures Decode(check, wire, count).Some? <==>
            && |wire| == count && AllPresent(wire)
            && Below(Indexes(wire), count) && (forall i: nat | i < count :: i in Indexes(wire))
            && forall k | 0 <= k < |wire| :: check(wire[k].value).Some?
  {
    if |wire| == count && AllPresent(wire) && Below(Indexes(wire), count) {
      if Distinct(Indexes(wire)) {
        Pigeonhole(Indexes(wire), count);
      } else if forall i: nat | i < count :: i in Indexes(wire) {
        Covering(Indexes(wire), count);
      }
    }
  }

  /** Each decoded value is that of a result the response holds, with that index. */
  lemma DecodedFromWire(check: Checker, wire: seq<Option<Wire>>, count: nat, i: nat) returns (w: Wire)
    requires Decode(check, wire, count).Some? && i < count
    ensures Some(w) in wire && w.index == i && check(w) == Some(Decode(check, wire, count).value[i])
  {
    AcceptedIffPermutation(check, wire, count);
    assert i in Indexes(wire);
    var k :| 0 <= k < |wire| && Indexes(wire)[k] == i;
    w := wire[k].value;
    assert wire[k] in wire;
  }

  /** The order in which the server lists its results does not matter. */
  lemma OrderIrrelevant(check: Checker, a: seq<Option<Wire>>, b: seq<Option<Wire>>, count: nat)
    requires multiset(a) == multiset(b) && Decode(check, a, count).Some?
    ensures Decode(check, b, count) == Decode(check, a, count)
  {
    var values := Decode(check, a, count).value;
    SameLength(a, b);
    forall k | 0 <= k < |b|
      ensures b[k].Some? && b[k].value.index < count && check(b[k].value) == Some(values[b[k].value.index])
    {
      assert b[k] in multiset(b);
      assert b[k] in a;
    }
    AcceptedIffPermutation(check, a, count);
    forall i: nat | i < count ensures i in Indexes(b) {
      assert i in Indexes(a);
      var k :| 0 <= k < |a| && Indexes(a)[k] == i;
      assert a[k] in multiset(a);
      assert a[k] in b;
      var j :| 0 <= j < |b| && b[j] == a[k];
      assert Indexes(b)[j] == i;
    }
    AcceptedIffPermutation(check, b, count);
    PlacedIsDecoded(check, b, values);
  }

  lemma SameLength<T>(a: seq<T>, b: seq<T>)
    requires multiset(a) == multiset(b)
    ensures |a| == |b|
  {
    assert |multiset(a)| == |a| && |multiset(b)| == |b|;
  }

  // ---------------------------------------------------------------- the decoding loop

  /** After `j` wire results: their values are in place, and `seen` marks exactly their indexes. */
  ghost predicate Filled(check: Checker, wire: seq<Option<Wire>>, j: nat, seen: seq<bool>, values: seq<Value>) {
    && |seen| == |values| && j <= |wire|
    && (forall k | 0 <= k < j :: wire[k].Some? && wire[k].value.index < |seen| && seen[wire[k].value.index])
    && (forall k | 0 <= k < j :: check(wire[k].value) == Some(values[wire[k].value.index]))
    && (forall k, k' | 0 <= k < k' < j :: wire[k].value.index != wire[k'].value.index)
    && (forall i | 0 <= i < |seen| && seen[i] :: exists k | 0 <= k < j :: wire[k].value.index == i)
  }

  lemma FilledStep(check: Checker, wire: seq<Option<Wire>>, j: nat, seen: seq<bool>, values: seq<Value>)
    requires Filled(check, wire, j, seen, values) && j < |wire|
    requires wire[j].Some? && wire[j].value.index < |seen| && !seen[wire[j].value.index] && check(wire[j].value).Some?
    ensures var i := wire[j].value.index;
            Filled(check, wire, j + 1, seen[i := true], values[i := check(wire[j].value).value])
  {
    var n := wire[j].value.index;
    var seen' := seen[n := true];
    forall i | 0 <= i < |seen'| && seen'[i] ensures exists k | 0 <= k < j + 1 :: wire[k].value.index == i {
      if i == n {
        assert wire[j].value.index == i;
      } else {
        var k :| 0 <= k < j && wire[k].value.index == i;
        assert 0 <= k < j + 1;
      }
    }
  }

  lemma FilledRejects(check: Checker, wire: seq<Option<Wire>>, j: nat, seen: seq<bool>, values: seq<Value>)
    requires Filled(check, wire, j, seen, values) && j < |wire|
    requires wire[j].None? || wire[j].value.index >= |seen| || seen[wire[j].value.index] || check(wire[j].value).None?
    ensures Decode(check, wire, |seen|).None?
  {
    if wire[j].Some? && wire[j].value.index < |seen| && seen[wire[j].value.index] {
      var k :| 0 <= k < j && wire[k].value.index == wire[j].value.index;
      assert AllPresent(wire) ==> Indexes(wire)[k] == Indexes(wire)[j];
    }
  }

  lemma FilledDecodes(check: Checker, wire: seq<Option<Wire>>, seen: seq<bool>, values: seq<Value>)
    requires Filled(check, wire, |wire|, seen, values) && |wire| == |values|
    ensures Decode(check, wire, |values|) == Some(values)
    ensures forall i | 0 <= i < |seen| :: seen[i]
  {
    PlacedIsDecoded(check, wire, values);
    Pigeonhole(Indexes(wire), |values|);
    forall i | 0 <= i < |seen| ensures seen[i] {
      assert i in Indexes(wire);
    }
  }
}
