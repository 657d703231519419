/**
 `readOperationsWithRetry` against an arbitrary server: any sequence of errors and responses. Failed reads
 are resubmitted in shrinking sub-batches, and answers are put back at the index of their operation.
 */
module Retry {
  import opened Bytes
  import opened Results
  import opened Slots

  const UNAVAILABLE: int := 14

  datatype Reply = RpcError(code: int) | Response(results: Option<seq<Option<Wire>>>)

  datatype ClientError = Rpc(code: int) | Cancelled | Protocol | Invalid

  /** What happens outside the client: the reply to each call, and whether the wait after it is cancelled. */
  datatype Env = Env(replies: nat -> Reply, cancels: nat -> bool, check: Checker, max: nat)

  // ---------------------------------------------------------------- the state machine, on values

  predicate Retryable(v: Value) { v.failure.Some? && v.failure.value.retryable }

  predicate Increasing(s: seq<nat>) { forall i, j | 0 <= i < j < |s| :: s[i] < s[j] }

  function Store(slots: seq<Value>, pending: seq<nat>, values: seq<Value>): (r: seq<Value>)
    requires |pending| == |values| && Below(pending, |slots|)
    ensures |r| == |slots|
  {
    if pending == [] then slots
    else
      var n := |pending| - 1;
      Store(slots, pending[..n], values[..n])[pending[n] := values[n]]
  }

  /** The operations whose answer is a retryable failure, in order. */
  function StillPending(pending: seq<nat>, values: seq<Value>): (r: seq<nat>)
    requires |pending| == |values|
  {
    if pending == [] then []
    else
      var n := |pending| - 1;
      StillPending(pending[..n], values[..n]) + if Retryable(values[n]) then [pending[n]] else []
  }

  /** One call: the operations it asked for. What it was answered is for the scripts to say. */
  datatype Round = Round(pending: seq<nat>)

  datatype End = Finished(values: seq<Value>) | Failed(error: ClientError)

  datatype Log = Log(end: End, rounds: seq<Round>)

  function Before(round: Round, log: Log): Log { Log(log.end, [round] + log.rounds) }

  /** The run from attempt `attempt`, whose call is number `c`. */
  ghost function Run(e: Env, attempt: nat, c: nat, pending: seq<nat>, slots: seq<Value>): (log: Log)
    requires 1 <= attempt <= e.max && Below(pending, |slots|) && Increasing(pending)
    ensures 1 <= |log.rounds| <= e.max - attempt + 1
    ensures log.end.Finished? ==> |log.end.values| == |slots|
    decreases e.max - attempt
  {
    var round := Round(pending);
    match e.replies(c)
    case RpcError(code) =>
      if attempt == e.max || code != UNAVAILABLE then Log(Failed(Rpc(code)), [round])
      else if e.cancels(c) then Log(Failed(Cancelled), [round])
      else Before(round, Run(e, attempt + 1, c + 1, pending, slots))
    case Response(results) =>
      if results.None? || Decode(e.check, results.value, |pending|).None? then Log(Failed(Protocol), [round])
      else
        var values := Decode(e.check, results.value, |pending|).value;
        var stored := Store(slots, pending, values);
        var next := if attempt < e.max then StillPending(pending, values) else [];
        if next == [] then Log(Finished(stored), [round])
        else if e.cancels(c) then Log(Failed(Cancelled), [round])
        else
          StillPendingOrdered(pending, values, |slots|);
          Before(round, Run(e, attempt + 1, c + 1, next, stored))
  }

  lemma {:induction false} StillPendingMembers(pending: seq<nat>, values: seq<Value>)
    requires |pending| == |values|
    ensures forall x | x in StillPending(pending, values) :: exists k | 0 <= k < |pending| :: pending[k] == x && Retryable(values[k])
    ensures forall k | 0 <= k < |pending| && Retryable(values[k]) :: pending[k] in StillPending(pending, values)
    ensures forall v: Value :: Retryable(v) <==> v.failure.Some? && v.failure.value.retryable
  {
    if pending != [] {
      var n := |pending| - 1;
      StillPendingMembers(pending[..n], values[..n]);
      forall x | x in StillPending(pending, values)
        ensures exists k | 0 <= k < |pending| :: pending[k] == x && Retryable(values[k])
      {
        if x in StillPending(pending[..n], values[..n]) {
          var k :| 0 <= k < n && pending[..n][k] == x && Retryable(values[..n][k]);
          assert pending[k] == x;
        } else {
          assert pending[n] == x;
        }
      }
      forall k | 0 <= k < |pending| && Retryable(values[k]) ensures pending[k] in StillPending(pending, values) {
        if k < n { assert pending[..n][k] == pending[k] && values[..n][k] == values[k]; }
      }
    }
  }

  lemma {:induction false} StillPendingOrdered(pending: seq<nat>, values: seq<Value>, bound: nat)
    requires |pending| == |values| && Increasing(pending) && Below(pending, bound)
    ensures Increasing(StillPending(pending, values)) && Below(StillPending(pending, values), bound)
    ensures |StillPending(pending, values)| <= |pending|
  {
    if pending != [] {
      var n := |pending| - 1;
      StillPendingOrdered(pending[..n], values[..n], bound);
      StillPendingMembers(pending[..n], values[..n]);
      var r := StillPending(pending[..n], values[..n]);
      forall i | 0 <= i < |r| ensures r[i] < pending[n] {
        assert r[i] in r;
      }
    }
  }

  lemma RunOnError(e: Env, attempt: nat, c: nat, pending: seq<nat>, slots: seq<Value>)
    requires 1 <= attempt <= e.max && Below(pending, |slots|) && Increasing(pending) && e.replies(c).RpcError?
    ensures var round, code := Round(pending), e.replies(c).code;
            Run(e, attempt, c, pending, slots) ==
            if attempt == e.max || code != UNAVAILABLE then Log(Failed(Rpc(code)), [round])
            else if e.cancels(c) then Log(Failed(Cancelled), [round])
            else Before(round, Run(e, attempt + 1, c + 1, pending, slots))
  {
    hide Store, StillPending, Increasing, Below, Decode;
  }

  lemma RunOnBadResponse(e: Env, attempt: nat, c: nat, pending: seq<nat>, slots: seq<Value>)
    requires 1 <= attempt <= e.max && Below(pending, |slots|) && Increasing(pending) && e.replies(c).Response?
    requires e.replies(c).results.None? || Decode(e.check, e.replies(c).results.value, |pending|).None?
    ensures Run(e, attempt, c, pending, slots) == Log(Failed(Protocol), [Round(pending)])
  {
    hide Store, StillPending, Increasing, Below, Decode;
  }

  lemma RunOnResponse(e: Env, attempt: nat, c: nat, pending: seq<nat>, slots: seq<Value>, values: seq<Value>)
    requires 1 <= attempt <= e.max && Below(pending, |slots|) && Increasing(pending)
    requires e.replies(c).Response? && e.replies(c).results.Some?
    requires Decode(e.check, e.replies(c).results.value, |pending|) == Some(values)
    ensures var next := if attempt < e.max then StillPending(pending, values) else [];
            Increasing(next) && Below(next, |slots|)
    ensures var round, stored := Round(pending), Store(slots, pending, values);
            var next := if attempt < e.max then StillPending(pending, values) else [];
            Run(e, attempt, c, pending, slots) ==
            if next == [] then Log(Finished(stored), [round])
            else if e.cancels(c) then Log(Failed(Cancelled), [round])
            else Before(round, Run(e, attempt + 1, c + 1, next, stored))
  {
    hide Store, StillPending, Decode;
    StillPendingOrdered(pending, values, |slots|);
  }

  lemma {:induction false} StoreAt(slots: seq<Value>, pending: seq<nat>, values: seq<Value>, k: nat)
    requires |pending| == |values| && Below(pending, |slots|) && Increasing(pending) && k < |pending|
    ensures Store(slots, pending, values)[pending[k]] == values[k]
    decreases |pending|
  {
    var n := |pending| - 1;
    if k < n {
      StoreAt(slots, pending[..n], values[..n], k);
    }
  }

  lemma {:induction false} StoreElsewhere(slots: seq<Value>, pending: seq<nat>, values: seq<Value>, i: nat)
    requires |pending| == |values| && Below(pending, |slots|) && i < |slots| && i !in pending
    ensures Store(slots, pending, values)[i] == slots[i]
    decreases |pending|
  {
    if pending != [] {
      var n := |pending| - 1;
      assert i != pending[n];
      StoreElsewhere(slots, pending[..n], values[..n], i);
    }
  }

  // ---------------------------------------------------------------- what the caller gets

  /** What the server's reply to call `c`, made for `n` operations, says; nothing unless it decodes. */
  ghost function Heard(e: Env, c: nat, n: nat): (r: Option<seq<Value>>)
    ensures r.Some? ==> |r.value| == n
  {
    match e.replies(c)
    case Response(Some(wire)) => Decode(e.check, wire, n)
    case _ => None
  }

  /** What the reply to call `c` says about operation `i`: nothing, or one value. */
  ghost function AnswerIn(e: Env, c: nat, pending: seq<nat>, i: nat): (r: seq<Value>) {
    if Heard(e, c, |pending|).Some? && i in pending then
      var k :| 0 <= k < |pending| && pending[k] == i;
      [Heard(e, c, |pending|).value[k]]
    else []
  }

  /** Everything the replies to calls `c`, `c + 1`, ... say about operation `i`, in order. */
  ghost function Answers(e: Env, c: nat, rounds: seq<Round>, i: nat): (r: seq<Value>)
    decreases |rounds|
  {
    if rounds == [] then [] else AnswerIn(e, c, rounds[0].pending, i) + Answers(e, c + 1, rounds[1..], i)
  }

  /** The last answer is `v`; every earlier one was a retryable failure. */
  ghost predicate LastOf(answers: seq<Value>, v: Value) {
    && answers != [] && answers[|answers| - 1] == v
    && forall k | 0 <= k < |answers| - 1 :: answers[k].failure.Some? && answers[k].failure.value.retryable
  }

  lemma AnswerAt(e: Env, c: nat, pending: seq<nat>, k: nat)
    requires Increasing(pending) && Heard(e, c, |pending|).Some? && k < |pending|
    ensures AnswerIn(e, c, pending, pending[k]) == [Heard(e, c, |pending|).value[k]]
  {
    hide Heard;
    assert pending[k] in pending;
  }

  lemma NoAnswer(e: Env, c: nat, pending: seq<nat>, i: nat)
    requires Heard(e, c, |pending|).None? || i !in pending
    ensures AnswerIn(e, c, pending, i) == []
  {
  }

  lemma AnswersCons(e: Env, c: nat, first: Round, rest: seq<Round>, i: nat)
    ensures Answers(e, c, [first] + rest, i) == AnswerIn(e, c, first.pending, i) + Answers(e, c + 1, rest, i)
  {
    hide AnswerIn;
    assert ([first] + rest)[1..] == rest;
  }

  /** One answered round in front of a run that ends with `out`. */
  lemma AnsweredRound(e: Env, c: nat, slots: seq<Value>, pending: seq<nat>, next: seq<nat>,
                      rest: seq<Round>, out: seq<Value>, i: nat)
    requires Below(pending, |slots|) && Increasing(pending) && i < |slots| == |out| && Heard(e, c, |pending|).Some?
    requires next == StillPending(pending, Heard(e, c, |pending|).value) || next == []
    requires i !in next ==> out[i] == Store(slots, pending, Heard(e, c, |pending|).value)[i] && Answers(e, c + 1, rest, i) == []
    requires i in next ==> LastOf(Answers(e, c + 1, rest, i), out[i])
    ensures var rounds := [Round(pending)] + rest;
            && (i !in pending ==> out[i] == slots[i] && Answers(e, c, rounds, i) == [])
            && (i in pending ==> LastOf(Answers(e, c, rounds, i), out[i]))
  {
    hide Store, StillPending, Answers, AnswerIn, Heard;
    var values := Heard(e, c, |pending|).value;
    AnswersCons(e, c, Round(pending), rest, i);
    StillPendingMembers(pending, values);
    if i in pending {
      var k :| 0 <= k < |pending| && pending[k] == i;
      AnswerAt(e, c, pending, k);
      StoreAt(slots, pending, values, k);
      PendingIff(pending, values, k);
      var later := Answers(e, c + 1, rest, i);
      assert Answers(e, c, [Round(pending)] + rest, i) == [values[k]] + later;
      forall j | 0 <= j < |[values[k]] + later| - 1 ensures Retryable(([values[k]] + later)[j]) {
        if j > 0 { assert Retryable(later[j - 1]); }
      }
    } else {
      StoreElsewhere(slots, pending, values, i);
      NoAnswer(e, c, pending, i);
    }
  }

  /**
   Read-retry refinement. A run that succeeds gives every pending operation the last answer among the server's
   replies to the run's calls, all its earlier answers being retryable failures; operations that are not
   pending keep their slot and are never asked for again.
   */
  lemma {:induction false} LastAnswerWins(e: Env, attempt: nat, c: nat, pending: seq<nat>, slots: seq<Value>, i: nat)
    requires 1 <= attempt <= e.max && Below(pending, |slots|) && Increasing(pending) && i < |slots|
    requires Run(e, attempt, c, pending, slots).end.Finished?
    ensures var log := Run(e, attempt, c, pending, slots);
            && (i !in pending ==> log.end.values[i] == slots[i] && Answers(e, c, log.rounds, i) == [])
            && (i in pending ==> LastOf(Answers(e, c, log.rounds, i), log.end.values[i]))
    decreases e.max - attempt
  {
    hide Store, StillPending, Answers, AnswerIn, LastOf;
    var log := Run(e, attempt, c, pending, slots);
    match e.replies(c)
    case RpcError(_) =>
      LastAnswerWins(e, attempt + 1, c + 1, pending, slots, i);
      var rest := Run(e, attempt + 1, c + 1, pending, slots).rounds;
      AnswersCons(e, c, Round(pending), rest, i);
      NoAnswer(e, c, pending, i);
      assert [] + Answers(e, c + 1, rest, i) == Answers(e, c + 1, rest, i);
    case Response(results) =>
      var values := Decode(e.check, results.value, |pending|).value;
      var stored := Store(slots, pending, values);
      assert Heard(e, c, |pending|) == Some(values);
      StillPendingOrdered(pending, values, |slots|);
      if attempt < e.max && StillPending(pending, values) != [] {
        var next := StillPending(pending, values);
        LastAnswerWins(e, attempt + 1, c + 1, next, stored, i);
        AnsweredRound(e, c, slots, pending, next, Run(e, attempt + 1, c + 1, next, stored).rounds, log.end.values, i);
      } else {
        NoRounds(e, c + 1, i);
        AnsweredRound(e, c, slots, pending, [], [], stored, i);
        assert [Round(pending)] + [] == log.rounds;
      }
  }

  lemma NoRounds(e: Env, c: nat, i: nat)
    ensures Answers(e, c, [], i) == []
  {
  }

  /** A retryable failure is only returned when the attempts are used up. */
  lemma {:induction false} GivesUpOnlyAtTheEnd(e: Env, attempt: nat, c: nat, pending: seq<nat>, slots: seq<Value>, i: nat)
    requires 1 <= attempt <= e.max && Below(pending, |slots|) && Increasing(pending) && i in pending
    requires Run(e, attempt, c, pending, slots).end.Finished?
    requires Retryable(Run(e, attempt, c, pending, slots).end.values[i])
    ensures |Run(e, attempt, c, pending, slots).rounds| == e.max - attempt + 1
    decreases e.max - attempt
  {
    hide Store, StillPending;
    var log := Run(e, attempt, c, pending, slots);
    match e.replies(c)
    case RpcError(_) => GivesUpOnlyAtTheEnd(e, attempt + 1, c + 1, pending, slots, i);
    case Response(results) =>
      var values := Decode(e.check, results.value, |pending|).value;
      var stored := Store(slots, pending, values);
      var k :| 0 <= k < |pending| && pending[k] == i;
      StoreAt(slots, pending, values, k);
      PendingIff(pending, values, k);
      StillPendingOrdered(pending, values, |slots|);
      if attempt < e.max && StillPending(pending, values) != [] {
        var next := StillPending(pending, values);
        if i in next {
          GivesUpOnlyAtTheEnd(e, attempt + 1, c + 1, next, stored, i);
        } else {
          LastAnswerWins(e, attempt + 1, c + 1, next, stored, i);
          assert false;
        }
      }
  }

  lemma PendingIff(pending: seq<nat>, values: seq<Value>, k: nat)
    requires |pending| == |values| && Increasing(pending) && k < |pending|
    ensures pending[k] in StillPending(pending, values) <==> Retryable(values[k])
  {
    StillPendingMembers(pending, values);
    if pending[k] in StillPending(pending, values) {
      var j :| 0 <= j < |pending| && pending[j] == pending[k] && Retryable(values[j]);
      assert j == k;
    }
  }

  /** What call `c`, made for `pending`, leads to another call for: its retryable failures, or all of it again. */
  ghost predicate Leaves(e: Env, c: nat, pending: seq<nat>, next: seq<nat>) {
    match Heard(e, c, |pending|)
    case None => e.replies(c) == RpcError(14) && next == pending
    case Some(values) => next == StillPending(pending, values) && next != []
  }

  /** Each request is exactly what the server's reply to the previous one left open; only Unavailable calls are survived. */
  ghost predicate Follows(e: Env, c: nat, rounds: seq<Round>) {
    && (forall k | 0 <= k < |rounds| :: Increasing(rounds[k].pending))
    && forall k: nat | k + 1 < |rounds| :: Continued(e, c, rounds, k)
  }

  /** After call `c + k` there was another one, for what that call left open. */
  ghost predicate Continued(e: Env, c: nat, rounds: seq<Round>, k: nat)
    requires k + 1 < |rounds|
  {
    Leaves(e, c + k, rounds[k].pending, rounds[k + 1].pending) && !e.cancels(c + k)
  }

  lemma {:induction false} RequestsShrink(e: Env, attempt: nat, c: nat, pending: seq<nat>, slots: seq<Value>)
    requires 1 <= attempt <= e.max && Below(pending, |slots|) && Increasing(pending)
    ensures var log := Run(e, attempt, c, pending, slots);
            log.rounds[0].pending == pending && Follows(e, c, log.rounds)
    decreases e.max - attempt
  {
    hide Store, StillPending, Run, Decode, Increasing, Below;
    var log := Run(e, attempt, c, pending, slots);
    match e.replies(c)
    case RpcError(_) =>
      RunOnError(e, attempt, c, pending, slots);
      if |log.rounds| > 1 {
        RequestsShrink(e, attempt + 1, c + 1, pending, slots);
        assert log.rounds[1..] == Run(e, attempt + 1, c + 1, pending, slots).rounds;
        FollowsCons(e, c, log.rounds);
      }
    case Response(results) =>
      if Heard(e, c, |pending|).None? {
        RunOnBadResponse(e, attempt, c, pending, slots);
      } else {
        var values := Heard(e, c, |pending|).value;
        RunOnResponse(e, attempt, c, pending, slots, values);
        if |log.rounds| > 1 {
          var next, stored := StillPending(pending, values), Store(slots, pending, values);
          RequestsShrink(e, attempt + 1, c + 1, next, stored);
          assert log.rounds[1..] == Run(e, attempt + 1, c + 1, next, stored).rounds;
          FollowsCons(e, c, log.rounds);
        }
      }
  }

  lemma FollowsCons(e: Env, c: nat, rounds: seq<Round>)
    requires |rounds| > 1 && Increasing(rounds[0].pending) && Follows(e, c + 1, rounds[1..])
    requires Leaves(e, c, rounds[0].pending, rounds[1].pending) && !e.cancels(c)
    ensures Follows(e, c, rounds)
  {
    hide Leaves, Increasing;
    var rest := rounds[1..];
    forall k | 0 <= k < |rounds| ensures Increasing(rounds[k].pending) {
      if k > 0 { assert rest[k - 1] == rounds[k]; }
    }
    forall k: nat | k + 1 < |rounds| ensures Continued(e, c, rounds, k) {
      if k > 0 {
        assert Continued(e, c + 1, rest, k - 1);
        assert rest[k - 1] == rounds[k] && rest[k] == rounds[k + 1];
        assert c + 1 + (k - 1) == c + k;
      }
    }
  }

  /** A run waits between its calls, and once more if it ends in a cancelled wait. */
  function WaitCount(log: Log): nat
    requires log.rounds != []
  {
    |log.rounds| - 1 + if log.end == Failed(Cancelled) then 1 else 0
  }

  /** How a run of `m` calls that could make `most` ends, given what happened in its last call `c`. */
  ghost predicate Concludes(e: Env, c: nat, pending: seq<nat>, end: End, m: nat, most: nat) {
    match end
    case Finished(_) =>
      var heard := Heard(e, c, |pending|);
      heard.Some? && (m == most || StillPending(pending, heard.value) == [])
    case Failed(Rpc(code)) => e.replies(c) == RpcError(code) && (m == most || code != 14)
    case Failed(Protocol) => e.replies(c).Response? && Heard(e, c, |pending|).None?
    case Failed(Cancelled) => e.cancels(c) && m < most && exists next :: Leaves(e, c, pending, next)
    case Failed(Invalid) => false
  }

  /** Success or failure, the end of a run is what its last call calls for; an error is the server's own. */
  lemma {:induction false} EndsWithLastReply(e: Env, attempt: nat, c: nat, pending: seq<nat>, slots: seq<Value>)
    requires 1 <= attempt <= e.max && Below(pending, |slots|) && Increasing(pending)
    ensures var log := Run(e, attempt, c, pending, slots);
            var m := |log.rounds|;
            Concludes(e, c + m - 1, log.rounds[m - 1].pending, log.end, m, e.max - attempt + 1)
    decreases e.max - attempt
  {
    hide Store, StillPending, Run, Decode, Increasing, Below;
    match e.replies(c)
    case RpcError(code) =>
      RunOnError(e, attempt, c, pending, slots);
      if attempt < e.max && code == UNAVAILABLE {
        assert Leaves(e, c, pending, pending);
        if !e.cancels(c) {
          EndsWithLastReply(e, attempt + 1, c + 1, pending, slots);
        }
      }
    case Response(results) =>
      if Heard(e, c, |pending|).None? {
        RunOnBadResponse(e, attempt, c, pending, slots);
      } else {
        var values := Heard(e, c, |pending|).value;
        RunOnResponse(e, attempt, c, pending, slots, values);
        var next := StillPending(pending, values);
        if attempt < e.max && next != [] {
          assert Leaves(e, c, pending, next);
          if !e.cancels(c) {
            EndsWithLastReply(e, attempt + 1, c + 1, next, Store(slots, pending, values));
          }
        }
      }
  }

  // ---------------------------------------------------------------- no placeholders

  function Ids(n: nat): (s: seq<nat>)
    ensures |s| == n && Increasing(s) && Below(s, n) && forall i | 0 <= i < n :: s[i] == i
  {
    seq(n, i => i)
  }

  function Blank(n: nat): (s: seq<Value>)
    ensures |s| == n
  {
    seq(n, i => EMPTY)
  }

  /** The run of a batch of `n` reads, starting with call number `c`. */
  ghost function ReadRun(e: Env, c: nat, n: nat): (log: Log)
    requires e.max >= 1
    ensures 1 <= |log.rounds| <= e.max
    ensures log.end.Finished? ==> |log.end.values| == n
  {
    Run(e, 1, c, Ids(n), Blank(n))
  }

  /** The reply to call `c` holds a result with index `j` that the checker turns into `v`. */
  ghost predicate SentBy(e: Env, c: nat, j: nat, v: Value) {
    && e.replies(c).Response? && e.replies(c).results.Some?
    && exists w: Wire :: Some(w) in e.replies(c).results.value && w.index == j && e.check(w) == Some(v)
  }

  /** One of the calls `c`, `c + 1`, ... asked for operation `i` at some position, and was sent `v` for that position. */
  ghost predicate FromServer(e: Env, c: nat, rounds: seq<Round>, i: nat, v: Value) {
    exists k: nat, j: nat :: k < |rounds| && j < |rounds[k].pending| && rounds[k].pending[j] == i && SentBy(e, c + k, j, v)
  }

  lemma HeardWasSent(e: Env, c: nat, n: nat, j: nat)
    requires Heard(e, c, n).Some? && j < n
    ensures SentBy(e, c, j, Heard(e, c, n).value[j])
  {
    var w := DecodedFromWire(e.check, e.replies(c).results.value, n, j);
  }

  /** An answer in the script is a wire result of a call that asked for the operation. */
  lemma {:induction false} AnswersWereSent(e: Env, c: nat, rounds: seq<Round>, i: nat, x: nat)
    requires x < |Answers(e, c, rounds, i)|
    ensures FromServer(e, c, rounds, i, Answers(e, c, rounds, i)[x])
    decreases |rounds|
  {
    hide Heard, SentBy;
    var v := Answers(e, c, rounds, i)[x];
    var pending := rounds[0].pending;
    var first := AnswerIn(e, c, pending, i);
    if x < |first| {
      var j: nat :| j < |pending| && pending[j] == i && first == [Heard(e, c, |pending|).value[j]];
      HeardWasSent(e, c, |pending|, j);
      assert rounds[0].pending[j] == i && SentBy(e, c + 0, j, v);
    } else {
      AnswersWereSent(e, c + 1, rounds[1..], i, x - |first|);
      var k: nat, j: nat :| k < |rounds[1..]| && j < |rounds[1..][k].pending| && rounds[1..][k].pending[j] == i && SentBy(e, c + 1 + k, j, v);
      assert rounds[1 + k].pending[j] == i && SentBy(e, c + (1 + k), j, v);
    }
  }

  /** Every value returned successfully is in the reply to a call of this run that asked for that operation. */
  lemma ValuesFromServer(e: Env, c: nat, n: nat, i: nat)
    requires e.max >= 1 && i < n && ReadRun(e, c, n).end.Finished?
    ensures FromServer(e, c, ReadRun(e, c, n).rounds, i, ReadRun(e, c, n).end.values[i])
  {
    hide Run, Answers, FromServer;
    assert Ids(n)[i] == i;
    LastAnswerWins(e, 1, c, Ids(n), Blank(n), i);
    var rounds := ReadRun(e, c, n).rounds;
    AnswersWereSent(e, c, rounds, i, |Answers(e, c, rounds, i)| - 1);
  }

  /**
   A successful read never returns a slot the server did not fill: each value is what some read result means that
   the reply to a call of this run holds at the operation's place in that call's request.
   */
  lemma NoPlaceholders(e: Env, valid: Document -> bool, c: nat, n: nat, i: nat) returns (k: nat, j: nat, w: Wire)
    requires e.max >= 1 && i < n && ReadRun(e, c, n).end.Finished?
    requires forall w :: e.check(w) == CheckRead(valid, w)
    ensures var rounds := ReadRun(e, c, n).rounds;
            && k < |rounds| && j < |rounds[k].pending| && rounds[k].pending[j] == i
            && e.replies(c + k).Response? && e.replies(c + k).results.Some?
            && Some(w) in e.replies(c + k).results.value && w.index == j
    ensures var v := ReadRun(e, c, n).end.values[i];
            ReadMeans(valid, w, v) && v.status != UNSPECIFIED && (v.failure.Some? <==> v.status == READ_FAILED)
  {
    hide Run, ReadMeans;
    var rounds, v := ReadRun(e, c, n).rounds, ReadRun(e, c, n).end.values[i];
    ValuesFromServer(e, c, n, i);
    k, j :| k < |rounds| && j < |rounds[k].pending| && rounds[k].pending[j] == i && SentBy(e, c + k, j, v);
    w :| Some(w) in e.replies(c + k).results.value && w.index == j && e.check(w) == Some(v);
    FailureMatchesStatus(valid, w);
    CheckedIff(valid, w, v);
  }

  /** A batch never waits more than MaxAttempts - 1 times. */
  lemma WaitsBounded(e: Env, c: nat, n: nat)
    requires e.max >= 1
    ensures WaitCount(ReadRun(e, c, n)) <= e.max - 1
  {
    hide Run, Leaves;
    EndsWithLastReply(e, 1, c, Ids(n), Blank(n));
  }

  /**
   The whole contract of a read batch, for every script: it asks for everything first and then only for what
   the server's last reply left open, survives only Unavailable calls, makes at most MaxAttempts calls, and
   ends as its last call says. If it succeeds, each operation has the last answer the replies hold for it, all
   earlier ones being retryable failures; a retryable failure is returned only when the attempts are used up.
   */
  lemma ReadRefinement(e: Env, c: nat, n: nat, i: nat)
    requires e.max >= 1 && i < n
    ensures var log := ReadRun(e, c, n);
            var m := |log.rounds|;
            && 1 <= m <= e.max && log.rounds[0].pending == Ids(n) && Follows(e, c, log.rounds)
            && Concludes(e, c + m - 1, log.rounds[m - 1].pending, log.end, m, e.max)
    ensures var log := ReadRun(e, c, n);
            log.end.Finished? ==>
              && LastOf(Answers(e, c, log.rounds, i), log.end.values[i])
              && (Retryable(log.end.values[i]) ==> |log.rounds| == e.max)
  {
    hide Run, LastOf, Answers, Follows, Concludes;
    assert Ids(n)[i] == i;
    RequestsShrink(e, 1, c, Ids(n), Blank(n));
    EndsWithLastReply(e, 1, c, Ids(n), Blank(n));
    if ReadRun(e, c, n).end.Finished? {
      LastAnswerWins(e, 1, c, Ids(n), Blank(n), i);
      if Retryable(ReadRun(e, c, n).end.values[i]) {
        GivesUpOnlyAtTheEnd(e, 1, c, Ids(n), Blank(n), i);
      }
    }
  }
}
