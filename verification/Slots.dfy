/**
 Results in memory: each failing result points to its own `OperationError` object, whose operation index is
 rewritten through that pointer when a batch is put back into the caller's collection.
 */
module Slots {
  import opened Bytes
  import opened Results

  class OperationError {
    var index: int
    const failure: Failure

    constructor (index: int, failure: Failure)
      ensures this.index == index && this.failure == failure
    {
      this.index := index;
      this.failure := failure;
    }
  }

  /** ReadResult, WriteResult and DeleteResult. */
  datatype OpResult = OpResult(index: int, value: Value, error: OperationError?)

  const EMPTY: Value := Value(UNSPECIFIED, None, [], None)

  /** The result and its error object both carry index `i`, and the object holds the result's failure. */
  ghost predicate Faithful(r: OpResult, i: int)
    reads r.error
  {
    && r.index == i
    && (r.error == null <==> r.value.failure.None?)
    && (r.error != null ==> r.error.index == i && Some(r.error.failure) == r.value.failure)
  }

  /** `rs[k]` is faithful at `offset + k`, for every k. */
  ghost predicate AllFaithful(rs: seq<OpResult>, offset: int)
    reads Errors(rs)
  {
    forall k | 0 <= k < |rs| :: rs[k].error in Errors(rs) && Faithful(rs[k], offset + k)
  }

  ghost function Errors(rs: seq<OpResult>): set<OperationError?> {
    set k | 0 <= k < |rs| :: rs[k].error
  }

  ghost predicate Unshared(rs: seq<OpResult>) {
    forall j, k | 0 <= j < k < |rs| && rs[j].error != null :: rs[j].error != rs[k].error
  }

  ghost function Values(rs: seq<OpResult>): (vs: seq<Value>)
    ensures |vs| == |rs|
  {
    seq(|rs|, k requires 0 <= k < |rs| => rs[k].value)
  }

  /** Slots already seen are faithful; the others hold no error object yet; none is shared. */
  ghost predicate Sound(rs: seq<OpResult>, seen: seq<bool>)
    reads Errors(rs)
  {
    && |rs| == |seen| && Unshared(rs)
    && forall i | 0 <= i < |rs| :: rs[i].error in Errors(rs) && if seen[i] then Faithful(rs[i], i) else rs[i].error == null
  }

  lemma ValuesUpdate(rs: seq<OpResult>, i: nat, r: OpResult)
    requires i < |rs|
    ensures Values(rs[i := r]) == Values(rs)[i := r.value]
    ensures Errors(rs[i := r]) <= Errors(rs) + {r.error}
  {
  }

  /** A decoded result, with a new error object if it failed. */
  method NewResult(index: nat, v: Value) returns (r: OpResult)
    ensures r.value == v && Faithful(r, index) && (r.error != null ==> fresh(r.error))
  {
    var e: OperationError? := null;
    if v.failure.Some? {
      e := new OperationError(index, v.failure.value);
    }
    r := OpResult(index, v, e);
  }

  /** `results[index] = result`, the result's error object being new. */
  method PutResult(results: array<OpResult>, seen: array<bool>, index: nat, v: Value)
    requires index < results.Length == seen.Length && !seen[index]
    requires Sound(results[..], seen[..])
    modifies results, seen
    ensures seen[..] == old(seen[..])[index := true]
    ensures Values(results[..]) == old(Values(results[..]))[index := v]
    ensures Sound(results[..], seen[..])
    ensures fresh(Errors(results[..]) - old(Errors(results[..])) - {null})
  {
    var r := NewResult(index, v);
    ghost var before := results[..];
    seen[index] := true;
    results[index] := r;
    assert results[..] == before[index := r];
    ValuesUpdate(before, index, r);
  }

  /**
   `decodeReadResponse`, `decodeWriteResponse`, `decodeDeleteResponse`: the wire results fill `results`, and
   `seen` rejects a second result for one index. Succeeds exactly when the response decodes; then the slots
   hold its values in request order, each failing one with an error object of its own.
   */
  method DecodeResponse(check: Checker, response: Option<seq<Option<Wire>>>, count: nat) returns (r: Option<array<OpResult>>)
    ensures r.Some? <==> response.Some? && Decode(check, response.value, count).Some?
    ensures r.Some? ==> fresh(r.value) && fresh(Errors(r.value[..]) - {null})
    ensures r.Some? ==> Decode(check, response.value, count).value == Values(r.value[..])
    ensures r.Some? ==> AllFaithful(r.value[..], 0) && Unshared(r.value[..])
  {
    hide Decode, Filled, Values, Unshared, Faithful;
    if response.None? {
      return None;
    }
    var wire := response.value;
    if |wire| != count {
      return None;
    }
    var results, seen := NewSlots(check, wire, count);
    for j := 0 to |wire|
      invariant fresh(results) && fresh(seen) && results.Length == seen.Length == count
      invariant Filled(check, wire, j, seen[..], Values(results[..]))
      invariant Sound(results[..], seen[..])
      invariant fresh(Errors(results[..]) - {null})
    {
      ghost var s, v := seen[..], Values(results[..]);
      if wire[j].None? || wire[j].value.index >= count || seen[wire[j].value.index] || check(wire[j].value).None? {
        FilledRejects(check, wire, j, s, v);
        return None;
      }
      FilledStep(check, wire, j, s, v);
      PutResult(results, seen, wire[j].value.index, check(wire[j].value).value);
    }
    FilledDecodes(check, wire, seen[..], Values(results[..]));
    return Some(results);
  }

  method NewSlots(ghost check: Checker, ghost wire: seq<Option<Wire>>, count: nat)
    returns (results: array<OpResult>, seen: array<bool>)
    ensures fresh(results) && fresh(seen) && results.Length == seen.Length == count
    ensures Filled(check, wire, 0, seen[..], Values(results[..]))
    ensures Sound(results[..], seen[..]) && Errors(results[..]) <= {null}
  {
    results := new OpResult[count](_ => OpResult(0, EMPTY, null));
    seen := new bool[count](_ => false);
  }

  /** Everything before `k` is shifted, the rest is not, and no object is shared. */
  ghost predicate Shifting(rs: seq<OpResult>, base: int, offset: int, k: nat)
    reads Errors(rs)
  {
    && k <= |rs| && Unshared(rs)
    && forall i | 0 <= i < |rs| :: rs[i].error in Errors(rs) && Faithful(rs[i], base + i + if i < k then offset else 0)
  }

  method ShiftOne(results: array<OpResult>, ghost base: int, offset: int, k: nat)
    requires k < results.Length && Shifting(results[..], base, offset, k)
    modifies results, Errors(results[..])
    ensures Shifting(results[..], base, offset, k + 1)
    ensures Values(results[..]) == old(Values(results[..])) && Errors(results[..]) == old(Errors(results[..]))
  {
    hide Values, Unshared;
    ghost var rs := results[..];
    var r := results[k];
    assert r.error in Errors(rs) && Faithful(rs[k], base + k);
    if r.error != null {
      r.error.index := r.error.index + offset;
    }
    results[k] := r.(index := r.index + offset);
    assert results[..] == rs[k := r.(index := r.index + offset)];
    SameErrors(rs, results[..]);
    OnlyAt(rs, k);
  }

  lemma OnlyAt(rs: seq<OpResult>, k: nat)
    requires k < |rs| && Unshared(rs)
    ensures forall i | 0 <= i < |rs| && i != k && rs[i].error != null :: rs[i].error != rs[k].error
  {
  }

  lemma SameErrors(a: seq<OpResult>, b: seq<OpResult>)
    requires |a| == |b| && forall i | 0 <= i < |a| :: a[i].error == b[i].error && a[i].value == b[i].value
    ensures Errors(a) == Errors(b) && Values(a) == Values(b) && (Unshared(a) ==> Unshared(b))
  {
    forall e | e in Errors(a) ensures e in Errors(b) {
      var i :| 0 <= i < |a| && a[i].error == e;
      assert b[i].error == e;
    }
    forall e | e in Errors(b) ensures e in Errors(a) {
      var i :| 0 <= i < |b| && b[i].error == e;
      assert a[i].error == e;
    }
  }

  /**
   `remapReadIndexes`, `remapWriteIndexes`, `remapDeleteIndexes`: every index moves by `offset`, in the result
   and through its pointer. An object reached from two results would move twice; none is.
   */
  method Remap(results: array<OpResult>, ghost base: int, offset: int)
    requires AllFaithful(results[..], base) && Unshared(results[..])
    modifies results, Errors(results[..])
    ensures AllFaithful(results[..], base + offset) && Unshared(results[..])
    ensures Values(results[..]) == old(Values(results[..])) && Errors(results[..]) == old(Errors(results[..]))
  {
    hide Values, Unshared, Faithful;
    for k := 0 to results.Length
      invariant Shifting(results[..], base, offset, k)
      invariant Values(results[..]) == old(Values(results[..])) && Errors(results[..]) == old(Errors(results[..]))
    {
      ShiftOne(results, base, offset, k);
    }
  }
}
