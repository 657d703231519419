/**
 The client's batch operations (`client.go`) over a network that answers as it likes. Results live in arrays
 and point to error objects; a batch's indexes are rewritten through those pointers.
 */
module Client {
  import opened Bytes
  import opened Results
  import opened Slots
  import opened Backoff
  import opened Retry

  /** A connection: it logs every request and every wait, and answers from arbitrary scripts. */
  class Network<Q, R> {
    const replies: nat -> R
    const cancels: nat -> bool
    const rand: nat -> real
    var requests: seq<Q>
    var waits: seq<int>

    constructor (replies: nat -> R, cancels: nat -> bool, rand: nat -> real)
      ensures requests == [] && waits == []
      ensures this.replies == replies && this.cancels == cancels && this.rand == rand
    {
      this.replies := replies;
      this.cancels := cancels;
      this.rand := rand;
      requests, waits := [], [];
    }

    method Call(q: Q) returns (r: R)
      modifies this`requests
      ensures requests == old(requests) + [q] && r == replies(|old(requests)|)
    {
      r := replies(|requests|);
      requests := requests + [q];
    }

    /** `waitForBackoff`: the delay, or the end of the context. */
    method Wait(delay: int) returns (cancelled: bool)
      requires requests != []
      modifies this`waits
      ensures waits == old(waits) + [delay] && cancelled == cancels(|requests| - 1)
    {
      waits := waits + [delay];
      cancelled := cancels(|requests| - 1);
    }
  }

  type Op = seq<Byte>

  datatype Reads = Reads(results: array<OpResult>) | ReadError(error: ClientError)

  /** The operations at the given indexes. */
  function Pick(ops: seq<Op>, pending: seq<nat>): (r: seq<Op>)
    ensures |r| == |pending| && forall k | 0 <= k < |r| && pending[k] < |ops| :: r[k] == ops[pending[k]]
  {
    seq(|pending|, k requires 0 <= k < |pending| => if pending[k] < |ops| then ops[pending[k]] else [])
  }

  /** The requests of a run, one for each round. */
  ghost function RequestsOf(ops: seq<Op>, rounds: seq<Round>): (r: seq<seq<Op>>)
    ensures |r| == |rounds|
  {
    seq(|rounds|, k requires 0 <= k < |rounds| => Pick(ops, rounds[k].pending))
  }

  lemma RequestsAppend(ops: seq<Op>, rounds: seq<Round>, round: Round)
    ensures RequestsOf(ops, rounds + [round]) == RequestsOf(ops, rounds) + [Pick(ops, round.pending)]
  {
  }

  // ---------------------------------------------------------------- one round of answers

  /** `result.OperationIndex = work.index`, in the copy and through its error pointer. */
  method Reindex(r: OpResult, ghost was: int, i: nat) returns (r': OpResult)
    requires Faithful(r, was)
    modifies r.error
    ensures r' == r.(index := i) && Faithful(r', i)
  {
    if r.error != null {
      r.error.index := i;
    }
    r' := r.(index := i);
  }

  ghost predicate Apart(a: seq<OpResult>, b: seq<OpResult>) {
    forall j, k | 0 <= j < |a| && 0 <= k < |b| && a[j].error != null :: a[j].error != b[k].error
  }

  /** Slots `pending` are faithful, no error object is shared, and none of `rest` is in use. */
  ghost predicate Absorbing(rs: seq<OpResult>, done: seq<nat>, rest: seq<OpResult>, offset: nat)
    reads Errors(rs), Errors(rest)
  {
    && Below(done, |rs|)
    && (forall i | 0 <= i < |rs| :: rs[i].error in Errors(rs))
    && (forall k | 0 <= k < |done| :: Faithful(rs[done[k]], done[k]))
    && AllFaithful(rest, offset)
    && Unshared(rs) && Unshared(rest)
    && Apart(rs, rest)
  }

  /** One more answered operation. */
  lemma OneMore(slots: seq<Value>, pending: seq<nat>, vs: seq<Value>, k: nat)
    requires |pending| == |vs| && Below(pending, |slots|) && k < |pending|
    ensures pending[..k + 1] == pending[..k] + [pending[k]]
    ensures Store(slots, pending[..k + 1], vs[..k + 1]) == Store(slots, pending[..k], vs[..k])[pending[k] := vs[k]]
    ensures StillPending(pending[..k + 1], vs[..k + 1]) ==
            StillPending(pending[..k], vs[..k]) + if Retryable(vs[k]) then [pending[k]] else []
  {
    assert pending[..k + 1][..k] == pending[..k] && vs[..k + 1][..k] == vs[..k];
  }

  lemma TailErrors(rs: seq<OpResult>, k: nat)
    requires k < |rs|
    ensures Errors(rs[k..]) <= Errors(rs) && rs[k..][1..] == rs[k + 1..] && rs[k..][0] == rs[k] && Values(rs)[k] == rs[k].value
  {
  }

  /** The loop that puts decoded answers at their operations' indexes and collects what to ask again. */
  method Absorb(results: array<OpResult>, decoded: seq<OpResult>, pending: seq<nat>, last: bool) returns (next: seq<nat>)
    requires |decoded| == |pending| && Below(pending, results.Length) && Increasing(pending)
    requires Absorbing(results[..], [], decoded, 0)
    modifies results, Errors(decoded)
    ensures Values(results[..]) == Store(old(Values(results[..])), pending, Values(decoded))
    ensures next == if last then [] else StillPending(pending, Values(decoded))
    ensures Errors(results[..]) <= old(Errors(results[..])) + Errors(decoded)
    ensures Absorbing(results[..], pending, [], |pending|)
    ensures forall i | 0 <= i < results.Length && i !in pending :: results[i] == old(results[i])
  {
    hide Absorbing, Values, Errors, Store, StillPending;
    next := [];
    ghost var vs := Values(decoded);
    ghost var slots := Values(results[..]);
    Nothing(slots, pending, vs, decoded);
    for k := 0 to |decoded|
      invariant Absorbing(results[..], pending[..k], decoded[k..], k)
      invariant Values(results[..]) == Store(slots, pending[..k], vs[..k])
      invariant next == if last then [] else StillPending(pending[..k], vs[..k])
      invariant Errors(results[..]) <= old(Errors(results[..])) + Errors(decoded)
      invariant forall i | 0 <= i < results.Length && i !in pending[..k] :: results[i] == old(results[i])
    {
      OneMore(slots, pending, vs, k);
      TailErrors(decoded, k);
      AbsorbOne(results, decoded[k..], pending[..k], k, pending[k]);
      if !last && Retryable(decoded[k].value) {
        next := next + [pending[k]];
      }
    }
    assert pending[..|pending|] == pending && vs[..|vs|] == vs && decoded[|decoded|..] == [];
  }

  lemma Nothing(slots: seq<Value>, pending: seq<nat>, vs: seq<Value>, decoded: seq<OpResult>)
    requires |pending| == |vs|
    ensures pending[..0] == [] && vs[..0] == [] && decoded[0..] == decoded
    ensures Store(slots, [], []) == slots && StillPending([], []) == []
  {
  }

  method AbsorbOne(results: array<OpResult>, rest: seq<OpResult>, ghost done: seq<nat>, ghost offset: nat, i: nat)
    requires rest != [] && i < results.Length
    requires i !in done
    requires Absorbing(results[..], done, rest, offset)
    modifies results, Errors(rest)
    ensures results[..] == old(results[..])[i := rest[0].(index := i)]
    ensures Values(results[..]) == old(Values(results[..]))[i := rest[0].value]
    ensures Errors(results[..]) <= old(Errors(results[..])) + Errors(rest)
    ensures Absorbing(results[..], done + [i], rest[1..], offset + 1)
  {
    ghost var rs := results[..];
    assert rest[0].error in Errors(rest) && Faithful(rest[0], offset);
    var r := Reindex(rest[0], offset, i);
    results[i] := r;
    assert results[..] == rs[i := r];
    ValuesUpdate(rs, i, r);
    ReplacedErrors(rs, rest, i, r);
    forall k | 0 <= k < |done + [i]| ensures Faithful(results[(done + [i])[k]], (done + [i])[k]) {
      if k < |done| { assert results[done[k]] == rs[done[k]]; }
    }
    forall k | 0 <= k < |rest[1..]| ensures Faithful(rest[1..][k], offset + 1 + k) {
      assert rest[1..][k] == rest[k + 1];
    }
  }

  lemma ReplacedErrors(rs: seq<OpResult>, rest: seq<OpResult>, i: nat, r: OpResult)
    requires i < |rs| && rest != [] && r.error == rest[0].error
    requires Unshared(rs) && Unshared(rest) && Apart(rs, rest)
    ensures Unshared(rs[i := r]) && Unshared(rest[1..]) && Apart(rs[i := r], rest[1..])
  {
  }

  // ---------------------------------------------------------------- readOperationsWithRetry

  ghost function EnvOf(net: Network<seq<Op>, Reply>, check: Checker, p: Policy): (e: Env)
    requires p.maxAttempts >= 0
    ensures e.replies == net.replies && e.cancels == net.cancels && e.check == check && e.max == p.maxAttempts
  {
    Env(net.replies, net.cancels, check, p.maxAttempts)
  }

  method BuildRequest(ops: seq<Op>, pending: seq<nat>) returns (q: seq<Op>)
    requires Below(pending, |ops|)
    ensures q == Pick(ops, pending)
  {
    q := [];
    for k := 0 to |pending|
      invariant |q| == k && forall j | 0 <= j < k :: q[j] == ops[pending[j]]
    {
      q := q + [ops[pending[k]]];
    }
  }

  /** `whole` is `tail` after the rounds already done. */
  ghost predicate Resumes(whole: Log, done: seq<Round>, tail: Log) {
    whole.end == tail.end && whole.rounds == done + tail.rounds
  }

  lemma ResumesAfter(whole: Log, done: seq<Round>, round: Round, tail: Log)
    requires Resumes(whole, done, Before(round, tail))
    ensures Resumes(whole, done + [round], tail)
  {
    assert done + ([round] + tail.rounds) == done + [round] + tail.rounds;
  }

  /** The slots no longer pending are faithful. */
  ghost predicate Kept(rs: seq<OpResult>, pending: seq<nat>)
    reads Errors(rs)
  {
    && Unshared(rs)
    && forall i | 0 <= i < |rs| :: rs[i].error in Errors(rs) && (i in pending || Faithful(rs[i], i))
  }

  /** The waits of one run: the first `k` jittered backoffs, in order. */
  ghost predicate Scheduled(p: Policy, rand: nat -> real, before: seq<int>, waits: seq<int>, k: nat)
    requires Normal(p)
  {
    |waits| == |before| + k && before == waits[..|before|] && IsSchedule(p, rand, |before|, waits[|before|..])
  }

  lemma ScheduledIs(p: Policy, rand: nat -> real, before: seq<int>, waits: seq<int>, k: nat)
    requires Normal(p) && Scheduled(p, rand, before, waits, k)
    ensures waits == before + Schedule(p, rand, |before|, k)
  {
    hide Jittered, BackoffAt;
    var added := waits[|before|..];
    assert waits == waits[..|before|] + added;
    forall i | 0 <= i < k ensures added[i] == Schedule(p, rand, |before|, k)[i] {
      assert added[i] == Jittered(BackoffAt(p, i), p.jitter, rand(|before| + i));
    }
    assert added == Schedule(p, rand, |before|, k);
  }

  lemma ScheduledNext(p: Policy, rand: nat -> real, before: seq<int>, waits: seq<int>, k: nat)
    requires Normal(p) && Scheduled(p, rand, before, waits, k)
    ensures Scheduled(p, rand, before, waits + [Jittered(BackoffAt(p, k), p.jitter, rand(|waits|))], k + 1)
  {
    hide Jittered, BackoffAt;
    var w := Jittered(BackoffAt(p, k), p.jitter, rand(|waits|));
    assert (waits + [w])[|before|..] == waits[|before|..] + [w];
  }

  /**
   What a run's schedule costs: the waits that `ReadWithRetry` or `Scan` added to the connection's log sum up to
   at most (MaxAttempts-1) * MaxBackoff * (1+jitter), and each is at most MaxBackoff if the policy sees to that.
   */
  lemma RunWaitsBounded(p: Policy, rand: nat -> real, before: seq<int>, waits: seq<int>, k: nat)
    requires Normal(p) && Unit(rand) && Scheduled(p, rand, before, waits, k) && k <= p.maxAttempts - 1
    ensures |before| <= |waits| && before == waits[..|before|]
    ensures Sum(waits[|before|..]) as real <= Times((p.maxAttempts - 1) as real, Times(p.max as real, 1.0 + p.jitter))
    ensures WaitsStayBelowMax(p) ==> forall i | |before| <= i < |waits| :: waits[i] <= p.max
  {
    hide Sum, Times, Jittered, BackoffAt;
    var added := waits[|before|..];
    TotalWait(p, rand, |before|, added);
    if WaitsStayBelowMax(p) {
      forall i | |before| <= i < |waits| ensures waits[i] <= p.max {
        var n: nat := i - |before|;
        assert added[n] == Jittered(BackoffAt(p, n), p.jitter, rand(|before| + n));
      }
    }
  }

  /** The state of the loop: `pending` is still to be asked for, attempt `attempt` is next. */
  ghost predicate Running(whole: Log, done: seq<Round>, e: Env, attempt: nat, c: nat, pending: seq<nat>, slots: seq<Value>) {
    && 1 <= attempt <= e.max && Below(pending, |slots|) && Increasing(pending)
    && Resumes(whole, done, Run(e, attempt, c, pending, slots))
  }

  lemma AllKept(rs: seq<OpResult>)
    requires Kept(rs, [])
    ensures AllFaithful(rs, 0) && Unshared(rs)
  {
  }

  /** Slots for `n` reads, all of them pending. */
  method NewReads(n: nat) returns (results: array<OpResult>)
    ensures fresh(results) && Values(results[..]) == Blank(n) && Kept(results[..], Ids(n)) && Errors(results[..]) <= {null}
  {
    results := new OpResult[n](_ => OpResult(0, EMPTY, null));
    forall i | 0 <= i < n ensures i in Ids(n) { assert Ids(n)[i] == i; }
  }

  /** One decoded response, put in place: afterwards every slot that was kept, or answered now, is faithful. */
  method AbsorbResponse(results: array<OpResult>, decoded: array<OpResult>, pending: seq<nat>, last: bool) returns (next: seq<nat>)
    requires decoded.Length == |pending| && Below(pending, results.Length) && Increasing(pending)
    requires Kept(results[..], pending) && AllFaithful(decoded[..], 0) && Unshared(decoded[..]) && Apart(results[..], decoded[..])
    modifies results, Errors(decoded[..])
    ensures Values(results[..]) == Store(old(Values(results[..])), pending, old(Values(decoded[..])))
    ensures next == if last then [] else StillPending(pending, old(Values(decoded[..])))
    ensures Errors(results[..]) <= old(Errors(results[..])) + old(Errors(decoded[..]))
    ensures Kept(results[..], [])
  {
    hide Values, Store, StillPending, Faithful;
    ghost var before := results[..];
    ghost var now := decoded[..];
    next := Absorb(results, decoded[..], pending, last);
    forall i | 0 <= i < results.Length ensures results[i].error in Errors(results[..]) && Faithful(results[i], i) {
      if i in pending {
        var k :| 0 <= k < |pending| && pending[k] == i;
      } else {
        assert results[i] == before[i] && before[i].error in Errors(before);
        NotTouched(before, now, i);
      }
    }
  }

  lemma NotTouched(a: seq<OpResult>, b: seq<OpResult>, i: nat)
    requires Apart(a, b) && i < |a|
    ensures a[i].error != null ==> a[i].error !in Errors(b)
  {
  }

  /**
   `readOperationsWithRetry`: it makes exactly the calls of the run the scripts determine, waits as the policy
   says, and returns that run's values with every index, in the result and in its error object, in place.
   */
  method ReadWithRetry(net: Network<seq<Op>, Reply>, check: Checker, p: Policy, ops: seq<Op>) returns (r: Reads)
    requires Normal(p)
    modifies net
    ensures var log := ReadRun(EnvOf(net, check, p), |old(net.requests)|, |ops|);
            && net.requests == old(net.requests) + RequestsOf(ops, log.rounds)
            && (log.end.Failed? ==> r == ReadError(log.end.error))
            && (log.end.Finished? ==> r.Reads? && Values(r.results[..]) == log.end.values)
    ensures r.Reads? ==> fresh(r.results) && fresh(Errors(r.results[..]) - {null})
    ensures r.Reads? ==> AllFaithful(r.results[..], 0) && Unshared(r.results[..])
    ensures Scheduled(p, net.rand, old(net.waits), net.waits, WaitCount(ReadRun(EnvOf(net, check, p), |old(net.requests)|, |ops|)))
  {
    hide Run, ReadRun, Values, RequestsOf, Kept, Unshared, Faithful, Store, StillPending, Decode, Scheduled, Waited, BackoffAt, Before, Increasing, Below;
    ghost var e := EnvOf(net, check, p);
    ghost var whole := ReadRun(e, |net.requests|, |ops|);
    ghost var done: seq<Round> := [];
    var results := NewReads(|ops|);
    var pending := Ids(|ops|);
    var backoff := p.initial;
    Starts(e, |net.requests|, |ops|, ops);
    NoWaitsYet(p, net.rand, net.waits);
    var attempt := 1;
    while attempt <= p.maxAttempts
      invariant fresh(results) && results.Length == |ops| && fresh(Errors(results[..]) - {null})
      invariant |done| == attempt - 1 && net.requests == old(net.requests) + RequestsOf(ops, done)
      invariant Running(whole, done, e, attempt, |net.requests|, pending, Values(results[..]))
      invariant Kept(results[..], pending)
      invariant Waited(p, net.rand, old(net.waits), net.waits, attempt - 1, backoff)
    {
      ghost var c := |net.requests|;
      var request := BuildRequest(ops, pending);
      var reply := net.Call(request);
      ghost var slots := Values(results[..]);
      if reply.RpcError? {
        RunOnError(e, attempt, c, pending, slots);
        RequestsAppend(ops, done, Round(pending));
        WaitedSoFar(p, net.rand, old(net.waits), net.waits, attempt - 1, backoff);
        if attempt == p.maxAttempts || reply.code != UNAVAILABLE {
          return ReadError(Rpc(reply.code));
        }
        var cancelled;
        cancelled, backoff := Pause(net, p, backoff, old(net.waits), attempt - 1);
        if cancelled {
          WaitedSoFar(p, net.rand, old(net.waits), net.waits, attempt, backoff);
          return ReadError(Cancelled);
        }
        ResumesAfter(whole, done, Round(pending), Run(e, attempt + 1, c + 1, pending, slots));
        done := done + [Round(pending)];
        attempt := attempt + 1;
        continue;
      }
      ghost var values;
      var next;
      next, values := TakeAnswers(results, check, reply.results, pending, attempt >= p.maxAttempts);
      if next.None? {
        RunOnBadResponse(e, attempt, c, pending, slots);
        RequestsAppend(ops, done, Round(pending));
        WaitedSoFar(p, net.rand, old(net.waits), net.waits, attempt - 1, backoff);
        return ReadError(Protocol);
      }
      ghost var round := Round(pending);
      RunOnResponse(e, attempt, c, pending, slots, values);
      RequestsAppend(ops, done, round);
      if |next.value| == 0 {
        AllKept(results[..]);
        WaitedSoFar(p, net.rand, old(net.waits), net.waits, attempt - 1, backoff);
        return Reads(results);
      }
      var cancelled;
      cancelled, backoff := Pause(net, p, backoff, old(net.waits), attempt - 1);
      if cancelled {
        WaitedSoFar(p, net.rand, old(net.waits), net.waits, attempt, backoff);
        return ReadError(Cancelled);
      }
      ResumesAfter(whole, done, round, Run(e, attempt + 1, c + 1, next.value, Values(results[..])));
      pending := next.value;
      KeptMore(results[..], pending);
      done := done + [round];
      attempt := attempt + 1;
    }
    assert false;
  }

  /** Decode a response and put its answers in place, or leave everything as it is. */
  method TakeAnswers(results: array<OpResult>, check: Checker, response: Option<seq<Option<Wire>>>, pending: seq<nat>, last: bool)
    returns (next: Option<seq<nat>>, ghost values: seq<Value>)
    requires Below(pending, results.Length) && Increasing(pending) && Kept(results[..], pending)
    modifies results
    ensures next.Some? <==> response.Some? && Decode(check, response.value, |pending|).Some?
    ensures next.Some? ==> Decode(check, response.value, |pending|) == Some(values)
    ensures next.Some? ==> next.value == if last then [] else StillPending(pending, values)
    ensures next.Some? ==> Values(results[..]) == Store(old(Values(results[..])), pending, values) && Kept(results[..], [])
    ensures fresh(Errors(results[..]) - old(Errors(results[..])) - {null})
  {
    hide Values, Decode, Store, StillPending, Unshared, Faithful;
    values := [];
    var decoded := DecodeResponse(check, response, |pending|);
    if decoded.None? {
      return None, values;
    }
    values := Values(decoded.value[..]);
    forall i | 0 <= i < results.Length ensures results[i].error in Errors(results[..]) {}
    FreshApart(results[..], decoded.value[..]);
    var n := AbsorbResponse(results, decoded.value, pending, last);
    next := Some(n);
  }

  lemma KeptMore(rs: seq<OpResult>, pending: seq<nat>)
    requires Kept(rs, [])
    ensures Kept(rs, pending)
  {
  }

  lemma FreshApart(a: seq<OpResult>, b: seq<OpResult>)
    requires Errors(a) * Errors(b) <= {null}
    ensures Apart(a, b)
  {
    forall j, k | 0 <= j < |a| && 0 <= k < |b| && a[j].error != null ensures a[j].error != b[k].error {
      assert a[j].error in Errors(a) && b[k].error in Errors(b);
      assert b[k].error in Errors(a) ==> b[k].error in Errors(a) * Errors(b);
    }
  }

  lemma Starts(e: Env, c: nat, n: nat, ops: seq<Op>)
    requires e.max >= 1
    ensures Running(ReadRun(e, c, n), [], e, 1, c, Ids(n), Blank(n))
    ensures RequestsOf(ops, []) == []
  {
    var log := ReadRun(e, c, n);
    assert [] + log.rounds == log.rounds;
  }

  /** After `k` waits, `backoff` is the next one. */
  ghost predicate Waited(p: Policy, rand: nat -> real, before: seq<int>, waits: seq<int>, k: nat, backoff: int)
    requires Normal(p)
  {
    Scheduled(p, rand, before, waits, k) && backoff == BackoffAt(p, k)
  }

  lemma NoWaitsYet(p: Policy, rand: nat -> real, before: seq<int>)
    requires Normal(p)
    ensures Waited(p, rand, before, before, 0, p.initial)
  {
  }

  lemma WaitedSoFar(p: Policy, rand: nat -> real, before: seq<int>, waits: seq<int>, k: nat, backoff: int)
    requires Normal(p) && Waited(p, rand, before, waits, k, backoff)
    ensures Scheduled(p, rand, before, waits, k)
  {
  }

  /** Wait for the jittered backoff and compute the next one. */
  method Pause<Q, R>(net: Network<Q, R>, p: Policy, backoff: int, ghost before: seq<int>, ghost k: nat)
    returns (cancelled: bool, next: int)
    requires Normal(p) && net.requests != [] && Waited(p, net.rand, before, net.waits, k, backoff)
    modifies net`waits
    ensures Waited(p, net.rand, before, net.waits, k + 1, next)
    ensures cancelled == net.cancels(|net.requests| - 1)
  {
    hide Jittered, NextBackoff, Scheduled;
    ScheduledNext(p, net.rand, before, net.waits, k);
    cancelled := net.Wait(Jittered(backoff, p.jitter, net.rand(|net.waits|)));
    next := NextBackoff(backoff, p);
  }
}
