/** `Client.Read`: a collection of any size, cut into batches, each read with retries. */
module Reading {
  import opened Bytes
  import opened Results
  import opened Slots
  import opened Backoff
  import opened Retry
  import opened Client
  import Keys
  import Uri

  const MAX_INT: int := 0x7FFF_FFFF_FFFF_FFFF

  /** No Go slice of 8-byte pointers is longer. */
  const MAX_COLLECTION: nat := 0x1000_0000_0000_0000

  /** The limits that `start + maxOperations` never passes: 2^63 - 1, for at most 2^60 elements. */
  lemma Limits()
    ensures MAX_INT == 0x7FFF_FFFF_FFFF_FFFF && MAX_COLLECTION == 0x1000_0000_0000_0000
  {
  }

  predicate ValidAddress(a: Op) { Keys.NewAddress(a).Ok? }
  /** What an operation's address must be: the spelling of a store and at least one segment, within the limit. */
  lemma ValidAddressIff(a: Op)
    ensures ValidAddress(a) <==> exists store, segs :: IsAddress(a, store, segs)
  {
    hide Uri.Parse, Uri.Render, Uri.ValidStore, Uri.ValidSegment;
    if ValidAddress(a) {
      var x := Uri.Parse(a).value;
      Uri.ParseRebuilds(a);
      assert IsAddress(a, x.store, x.segments);
    }
    if store, segs :| IsAddress(a, store, segs) {
      Uri.ParseSpelling(a, store, segs);
    }
  }

  ghost predicate IsAddress(a: Op, store: seq<Byte>, segs: seq<seq<Byte>>) {
    && |segs| >= 1 && |a| <= 16384 && a == Uri.Render(store, segs)
    && Uri.ValidStore(store) && forall k | 0 <= k < |segs| :: Uri.ValidSegment(segs[k])
  }

  predicate ValidAddresses(ops: seq<Op>) { forall k | 0 <= k < |ops| :: ValidAddress(ops[k]) }

  /** What a sequence of batches produced: results of the finished ones, an error, and the calls made. */
  datatype Batched = Batched(values: seq<Value>, error: Option<ClientError>, calls: nat)

  function Min(a: int, b: int): int { if a < b then a else b }

  ghost function ReadBatches(e: Env, c: nat, n: nat, limit: nat): (r: Batched)
    requires e.max >= 1 && limit >= 1
    decreases n
  {
    if n == 0 then Batched([], None, c)
    else
      var size := Min(limit, n);
      var log := ReadRun(e, c, size);
      match log.end
      case Failed(error) => Batched([], Some(error), c + |log.rounds|)
      case Finished(values) =>
        var rest := ReadBatches(e, c + |log.rounds|, n - size, limit);
        Batched(values + rest.values, rest.error, rest.calls)
  }

  /** The requests those batches send: per batch, per attempt, the operations still pending. */
  ghost function ReadRequests(e: Env, c: nat, ops: seq<Op>, limit: nat): (r: seq<seq<Op>>)
    requires e.max >= 1 && limit >= 1
    decreases |ops|
  {
    if ops == [] then []
    else
      var size := Min(limit, |ops|);
      var log := ReadRun(e, c, size);
      RequestsOf(ops[..size], log.rounds) +
      if log.end.Failed? then [] else ReadRequests(e, c + |log.rounds|, ops[size..], limit)
  }

  /** The waits those batches make: each one's schedule starts anew. */
  ghost function ReadWaits(e: Env, p: Policy, rand: nat -> real, base: nat, c: nat, n: nat, limit: nat): (r: seq<int>)
    requires e.max >= 1 && limit >= 1 && Normal(p)
    decreases n
  {
    if n == 0 then []
    else
      var size := Min(limit, n);
      var log := ReadRun(e, c, size);
      var k := WaitCount(log);
      Schedule(p, rand, base, k) +
      if log.end.Failed? then [] else ReadWaits(e, p, rand, base + k, c + |log.rounds|, n - size, limit)
  }

  lemma WaitsOfFirst(e: Env, p: Policy, rand: nat -> real, base: nat, c: nat, n: nat, limit: nat)
    requires e.max >= 1 && limit >= 1 && Normal(p) && n > 0
    ensures var log := ReadRun(e, c, Min(limit, n));
            var k := WaitCount(log);
            ReadWaits(e, p, rand, base, c, n, limit) ==
            Schedule(p, rand, base, k) +
            if log.end.Failed? then [] else ReadWaits(e, p, rand, base + k, c + |log.rounds|, n - Min(limit, n), limit)
  {
    hide ReadRun, Schedule, WaitCount, Normal;
  }

  lemma NextWaits(before: seq<int>, now: seq<int>, e: Env, p: Policy, rand: nat -> real, c: nat, n: nat, limit: nat)
    requires e.max >= 1 && limit >= 1 && Normal(p) && n > 0
    requires Scheduled(p, rand, before, now, WaitCount(ReadRun(e, c, Min(limit, n))))
    ensures var log := ReadRun(e, c, Min(limit, n));
            before + ReadWaits(e, p, rand, |before|, c, n, limit) ==
            now + if log.end.Failed? then [] else ReadWaits(e, p, rand, |now|, c + |log.rounds|, n - Min(limit, n), limit)
  {
    hide ReadRun, Schedule, WaitCount, Normal, ReadWaits, IsSchedule, Scheduled, Jittered, BackoffAt;
    ScheduledLength(p, rand, before, now, WaitCount(ReadRun(e, c, Min(limit, n))));
    var k := WaitCount(ReadRun(e, c, Min(limit, n)));
    ScheduledIs(p, rand, before, now, k);
    WaitsOfFirst(e, p, rand, |before|, c, n, limit);
    var log := ReadRun(e, c, Min(limit, n));
    var rest := if log.end.Failed? then [] else ReadWaits(e, p, rand, |now|, c + |log.rounds|, n - Min(limit, n), limit);
    Regrouped(before, Schedule(p, rand, |before|, k), rest, now, ReadWaits(e, p, rand, |before|, c, n, limit));
  }

  lemma ScheduledLength(p: Policy, rand: nat -> real, before: seq<int>, now: seq<int>, k: nat)
    requires Normal(p) && Scheduled(p, rand, before, now, k)
    ensures |now| == |before| + k
  {
  }

  lemma Regrouped<T>(a: seq<T>, b: seq<T>, c: seq<T>, ab: seq<T>, bc: seq<T>)
    requires ab == a + b && bc == b + c
    ensures a + bc == ab + c
  {
  }

  lemma NoMoreWaits(e: Env, p: Policy, rand: nat -> real, base: nat, c: nat, limit: nat)
    requires e.max >= 1 && limit >= 1 && Normal(p)
    ensures ReadWaits(e, p, rand, base, c, 0, limit) == []
  {
  }

  // ---------------------------------------------------------------- where each batch is

  /** The position in the collection at which batch `k` starts. */
  function Offset(limit: nat, k: nat): (r: nat) { k * limit }

  lemma OffsetNext(limit: nat, k: nat)
    ensures Offset(limit, 0) == 0 && Offset(limit, k + 1) == Offset(limit, k) + limit
  {
  }

  function BatchSize(n: nat, limit: nat, k: nat): nat {
    if Offset(limit, k) < n then Min(limit, n - Offset(limit, k)) else 0
  }

  /** The number of the call at which batch `k` starts: after all calls of the batches before it. */
  ghost function BatchStart(e: Env, c: nat, n: nat, limit: nat, k: nat): (s: nat)
    requires e.max >= 1
    ensures s >= c
  {
    if k == 0 then c
    else
      var before := BatchStart(e, c, n, limit, k - 1);
      before + |ReadRun(e, before, BatchSize(n, limit, k - 1)).rounds|
  }

  /** The run of batch `k`. */
  ghost function BatchRun(e: Env, c: nat, n: nat, limit: nat, k: nat): (log: Log)
    requires e.max >= 1
    ensures log.end.Finished? ==> |log.end.values| == BatchSize(n, limit, k)
  {
    ReadRun(e, BatchStart(e, c, n, limit, k), BatchSize(n, limit, k))
  }

  function BatchCount(n: nat, limit: nat): nat
    requires limit >= 1
  {
    if n == 0 then 0 else 1 + BatchCount(n - Min(limit, n), limit)
  }

  lemma OneBatchMore(b: nat, max: nat)
    ensures (1 + b) * max == max + b * max && b * max >= 0 && 0 * max == 0
  {
  }

  /** Batch `k + 1` of a collection is batch `k` of what follows its first batch. */
  lemma {:induction false} BatchShift(e: Env, c: nat, n: nat, limit: nat, k: nat)
    requires e.max >= 1 && 1 <= limit <= n
    ensures BatchSize(n, limit, k + 1) == BatchSize(n - limit, limit, k)
    ensures BatchStart(e, c, n, limit, k + 1) == BatchStart(e, c + |ReadRun(e, c, limit).rounds|, n - limit, limit, k)
    ensures BatchRun(e, c, n, limit, k + 1) == BatchRun(e, c + |ReadRun(e, c, limit).rounds|, n - limit, limit, k)
  {
    hide ReadRun, Offset;
    OffsetNext(limit, k);
    if k == 0 {
      assert BatchSize(n, limit, 0) == limit;
      assert BatchStart(e, c, n, limit, 0) == c;
    } else {
      BatchShift(e, c, n, limit, k - 1);
    }
  }

  lemma FirstBatch(e: Env, c: nat, n: nat, limit: nat)
    requires e.max >= 1 && limit >= 1 && n > 0
    ensures BatchSize(n, limit, 0) == Min(limit, n) && BatchStart(e, c, n, limit, 0) == c
    ensures BatchRun(e, c, n, limit, 0) == ReadRun(e, c, Min(limit, n))
  {
  }

  lemma StartOfFirst(e: Env, c: nat, n: nat, limit: nat)
    requires e.max >= 1
    ensures BatchStart(e, c, n, limit, 0) == c
  {
  }

  lemma StartOfSecond(e: Env, c: nat, n: nat, limit: nat)
    requires e.max >= 1 && limit >= 1 && n > 0
    ensures BatchStart(e, c, n, limit, 1) == c + |ReadRun(e, c, Min(limit, n)).rounds|
  {
    hide ReadRun;
    StartOfFirst(e, c, n, limit);
    FirstBatch(e, c, n, limit);
  }

  /** Position `i` of a collection is operation `Within(limit, i)` of batch `BatchOf(limit, i)`. */
  function BatchOf(limit: nat, i: nat): (k: nat) requires limit >= 1 { i / limit }
  function Within(limit: nat, i: nat): (j: nat) requires limit >= 1 { i % limit }

  lemma PositionOf(limit: nat, i: nat)
    requires limit >= 1
    ensures Offset(limit, BatchOf(limit, i)) + Within(limit, i) == i && Within(limit, i) < limit
    ensures i < limit ==> BatchOf(limit, i) == 0 && Within(limit, i) == i
    ensures i >= limit ==> BatchOf(limit, i) == BatchOf(limit, i - limit) + 1 && Within(limit, i) == Within(limit, i - limit)
  {
    if i >= limit {
      var q, r := (i - limit) / limit, (i - limit) % limit;
      assert i - limit == q * limit + r;
      OneBatchMore(q, limit);
      DivisionIsUnique(i, limit, q + 1, r);
    } else {
      OneBatchMore(0, limit);
      DivisionIsUnique(i, limit, 0, i);
    }
  }

  lemma Multiple(d: int, limit: int)
    requires limit >= 0
    ensures d >= 1 ==> d * limit >= limit
    ensures d <= -1 ==> d * limit <= -limit
  {
  }

  lemma Difference(a: int, b: int, limit: int)
    ensures (a - b) * limit == a * limit - b * limit
  {
  }

  lemma DivisionIsUnique(i: nat, limit: nat, q: nat, r: nat)
    requires limit >= 1 && r < limit && i == q * limit + r
    ensures i / limit == q && i % limit == r
  {
    var q', r' := BatchOf(limit, i), Within(limit, i);
    assert i == q' * limit + r' && 0 <= r' < limit;
    UniqueParts(q, r, q', r', limit);
  }

  lemma UniqueParts(q: int, r: int, q': int, r': int, limit: nat)
    requires 0 <= r < limit && 0 <= r' < limit && q * limit + r == q' * limit + r'
    ensures q == q' && r == r'
  {
    Difference(q', q, limit);
    Multiple(q' - q, limit);
  }

  /**
   Without an error every operation has a result, and the calls are those of all batches. With one, exactly the
   batches before the failing one have results: batch `k`, for the `k` results-full batches in hand, is the one
   that failed, with this error, and its calls are the last.
   */
  lemma {:induction false} BatchesConserve(e: Env, c: nat, n: nat, limit: nat)
    requires e.max >= 1 && limit >= 1
    ensures var b := ReadBatches(e, c, n, limit);
            var k := if b.error.None? then BatchCount(n, limit) else BatchOf(limit, |b.values|);
            if b.error.None? then |b.values| == n && b.calls == BatchStart(e, c, n, limit, k)
            else
              && |b.values| < n && |b.values| == Offset(limit, k)
              && BatchRun(e, c, n, limit, k).end == Failed(b.error.value)
              && b.calls == BatchStart(e, c, n, limit, k) + |BatchRun(e, c, n, limit, k).rounds|
    decreases n
  {
    hide ReadRun, BatchRun, BatchStart, BatchSize, Offset, BatchOf;
    if n == 0 {
      StartOfFirst(e, c, n, limit);
    } else {
      hide ReadBatches;
      var size := Min(limit, n);
      var log := ReadRun(e, c, size);
      var b := ReadBatches(e, c, n, limit);
      BatchesOfFirst(e, c, n, limit);
      FirstBatch(e, c, n, limit);
      if log.end.Finished? {
        var rest := ReadBatches(e, c + |log.rounds|, n - size, limit);
        BatchesConserve(e, c + |log.rounds|, n - size, limit);
        var k := if rest.error.None? then BatchCount(n - size, limit) else BatchOf(limit, |rest.values|);
        if n >= limit {
          BatchShift(e, c, n, limit, k);
          OffsetNext(limit, k);
          PositionOf(limit, |b.values|);
        } else {
          StartOfSecond(e, c, n, limit);
        }
      } else {
        PositionOf(limit, 0);
      }
    }
  }

  /**
   Batch `k` of the results is what batch `k`'s own calls, which come after all earlier batches' and before the
   end of the Read, produced.
   */
  lemma {:induction false} BatchInPlace(e: Env, c: nat, n: nat, limit: nat, k: nat)
    requires e.max >= 1 && limit >= 1 && Offset(limit, k) < |ReadBatches(e, c, n, limit).values|
    ensures var b, log := ReadBatches(e, c, n, limit), BatchRun(e, c, n, limit, k);
            var lo, size := Offset(limit, k), BatchSize(n, limit, k);
            && log.end.Finished? && lo + size <= |b.values| && b.values[lo..lo + size] == log.end.values
            && BatchStart(e, c, n, limit, k) + |log.rounds| <= b.calls
    decreases n
  {
    hide ReadRun, ReadBatches, BatchRun, BatchStart, BatchSize, Offset, BatchOf;
    NotEmpty(e, c, n, limit);
    BatchesOfFirst(e, c, n, limit);
    var size := Min(limit, n);
    var log := ReadRun(e, c, size);
    var rest := ReadBatches(e, c + |log.rounds|, n - size, limit);
    FirstBatch(e, c, n, limit);
    CallsGrow(e, c + |log.rounds|, n - size, limit);
    OffsetNext(limit, 0);
    if k > 0 {
      OffsetNext(limit, k - 1);
      BatchesConserve(e, c + |log.rounds|, n - size, limit);
      assert size == limit;
      BatchShift(e, c, n, limit, k - 1);
      BatchInPlace(e, c + |log.rounds|, n - limit, limit, k - 1);
      var lo := Offset(limit, k - 1);
      SliceAfter(log.end.values, rest.values, lo, lo + BatchSize(n, limit, k));
    } else {
      SliceBefore(log.end.values, rest.values);
    }
  }

  lemma SliceAfter<T>(a: seq<T>, b: seq<T>, lo: nat, hi: nat)
    requires lo <= hi <= |b|
    ensures (a + b)[lo + |a|..hi + |a|] == b[lo..hi]
  {
  }

  lemma SliceBefore<T>(a: seq<T>, b: seq<T>)
    ensures (a + b)[0..|a|] == a
  {
  }

  lemma BatchesOfFirst(e: Env, c: nat, n: nat, limit: nat)
    requires e.max >= 1 && limit >= 1 && n > 0
    ensures var size := Min(limit, n);
            var log := ReadRun(e, c, size);
            ReadBatches(e, c, n, limit) ==
            match log.end
            case Failed(error) => Batched([], Some(error), c + |log.rounds|)
            case Finished(values) =>
              var rest := ReadBatches(e, c + |log.rounds|, n - size, limit);
              Batched(values + rest.values, rest.error, rest.calls)
  {
    hide ReadRun;
  }

  lemma NotEmpty(e: Env, c: nat, n: nat, limit: nat)
    requires e.max >= 1 && limit >= 1 && ReadBatches(e, c, n, limit).values != []
    ensures n > 0 && ReadRun(e, c, Min(limit, n)).end.Finished?
  {
    hide ReadRun;
  }

  lemma {:induction false} CallsGrow(e: Env, c: nat, n: nat, limit: nat)
    requires e.max >= 1 && limit >= 1
    ensures ReadBatches(e, c, n, limit).calls >= c
    decreases n
  {
    hide ReadRun;
    if n > 0 {
      var log := ReadRun(e, c, Min(limit, n));
      CallsGrow(e, c + |log.rounds|, n - Min(limit, n), limit);
    }
  }

  /** Read `j` of a batch of `size` whose first call is number `c` ended with `v`, the server's last word on it. */
  ghost predicate Answered(e: Env, c: nat, size: nat, j: nat, v: Value)
    requires e.max >= 1
  {
    var log := ReadRun(e, c, size);
    && j < size && log.end.Finished? && v == log.end.values[j]
    && LastOf(Answers(e, c, log.rounds, j), v) && FromServer(e, c, log.rounds, j, v)
    && (Retryable(v) ==> |log.rounds| == e.max)
  }

  lemma AnsweredHere(e: Env, c: nat, size: nat, i: nat)
    requires e.max >= 1 && i < size && ReadRun(e, c, size).end.Finished?
    ensures Answered(e, c, size, i, ReadRun(e, c, size).end.values[i])
  {
    hide ReadRun, Answers, LastOf, Follows, FromServer;
    ReadRefinement(e, c, size, i);
    ValuesFromServer(e, c, size, i);
  }

  /**
   Whatever the server does and wherever the batches are cut, the result at position `i` is the last answer in
   the server's replies to the calls of its own batch, given there to the read at its place in the batch.
   */
  lemma EveryResultIsAnAnswer(e: Env, c: nat, n: nat, limit: nat, i: nat)
    requires e.max >= 1 && limit >= 1 && i < |ReadBatches(e, c, n, limit).values|
    ensures var k := BatchOf(limit, i);
            Answered(e, BatchStart(e, c, n, limit, k), BatchSize(n, limit, k), Within(limit, i), ReadBatches(e, c, n, limit).values[i])
  {
    hide ReadRun, ReadBatches, Answered, BatchStart, BatchSize, Offset, BatchOf, Within;
    var values, k, j := ReadBatches(e, c, n, limit).values, BatchOf(limit, i), Within(limit, i);
    PositionOf(limit, i);
    BatchInPlace(e, c, n, limit, k);
    WithinBatch(e, c, n, limit, i);
    var size := BatchSize(n, limit, k);
    assert values[i] == values[Offset(limit, k)..Offset(limit, k) + size][j];
    AnsweredHere(e, BatchStart(e, c, n, limit, k), size, j);
  }

  lemma WithinBatch(e: Env, c: nat, n: nat, limit: nat, i: nat)
    requires e.max >= 1 && limit >= 1 && i < |ReadBatches(e, c, n, limit).values|
    ensures Within(limit, i) < BatchSize(n, limit, BatchOf(limit, i))
  {
    hide ReadRun, ReadBatches, BatchStart, BatchRun, Offset, BatchOf, Within;
    BatchesConserve(e, c, n, limit);
    PositionOf(limit, i);
  }

  /** One request for each call. */
  lemma {:induction false} RequestPerCall(e: Env, c: nat, ops: seq<Op>, limit: nat)
    requires e.max >= 1 && limit >= 1
    ensures c + |ReadRequests(e, c, ops, limit)| == ReadBatches(e, c, |ops|, limit).calls
    decreases |ops|
  {
    hide ReadRun;
    if ops != [] {
      var size := Min(limit, |ops|);
      RequestPerCall(e, c + |ReadRun(e, c, size).rounds|, ops[size..], limit);
    }
  }

  /** Nothing is sent beside the batches' requests: the last one is that of the last batch, or of the failing one. */
  lemma NothingElseSent(e: Env, c: nat, ops: seq<Op>, limit: nat)
    requires e.max >= 1 && limit >= 1
    ensures var b, n := ReadBatches(e, c, |ops|, limit), |ops|;
            var k := if b.error.None? then BatchCount(n, limit) else BatchOf(limit, |b.values|);
            c + |ReadRequests(e, c, ops, limit)| ==
            BatchStart(e, c, n, limit, k) + if b.error.None? then 0 else |BatchRun(e, c, n, limit, k).rounds|
  {
    hide ReadBatches, ReadRequests, BatchRun, BatchStart, BatchOf, Offset;
    RequestPerCall(e, c, ops, limit);
    BatchesConserve(e, c, |ops|, limit);
  }

  /** The requests at the calls of batch `k` ask for that batch's own addresses, sub-batch by sub-batch. */
  ghost predicate AsksFor(e: Env, c: nat, ops: seq<Op>, limit: nat, k: nat, sent: seq<seq<Op>>)
    requires e.max >= 1
  {
    var log := BatchRun(e, c, |ops|, limit, k);
    var lo, s := Offset(limit, k), BatchStart(e, c, |ops|, limit, k) - c;
    && lo + BatchSize(|ops|, limit, k) <= |ops| && s + |log.rounds| <= |sent|
    && sent[s..s + |log.rounds|] == RequestsOf(ops[lo..lo + BatchSize(|ops|, limit, k)], log.rounds)
  }

  lemma AsksForFirst(e: Env, c: nat, ops: seq<Op>, limit: nat, later: seq<seq<Op>>)
    requires e.max >= 1 && limit >= 1 && ops != []
    ensures var size := Min(limit, |ops|);
            AsksFor(e, c, ops, limit, 0, RequestsOf(ops[..size], ReadRun(e, c, size).rounds) + later)
  {
    hide ReadRun, RequestsOf, BatchRun, BatchStart, Offset;
    var size := Min(limit, |ops|);
    var log := ReadRun(e, c, size);
    FirstBatch(e, c, |ops|, limit);
    OffsetNext(limit, 0);
    assert (RequestsOf(ops[..size], log.rounds) + later)[0..|log.rounds|] == RequestsOf(ops[..size], log.rounds);
    assert ops[0..size] == ops[..size];
  }

  lemma AsksForNext(e: Env, c: nat, ops: seq<Op>, limit: nat, k: nat, first: seq<seq<Op>>, later: seq<seq<Op>>)
    requires e.max >= 1 && 1 <= limit <= |ops| && |first| == |ReadRun(e, c, limit).rounds|
    requires AsksFor(e, c + |first|, ops[limit..], limit, k, later)
    ensures AsksFor(e, c, ops, limit, k + 1, first + later)
  {
    hide ReadRun, RequestsOf, BatchRun, BatchStart, BatchSize, Offset;
    var n := |ops|;
    BatchShift(e, c, n, limit, k);
    OffsetNext(limit, k);
    var s, m := BatchStart(e, c + |first|, n - limit, limit, k) - (c + |first|), |BatchRun(e, c, n, limit, k + 1).rounds|;
    var lo, z := Offset(limit, k), BatchSize(n, limit, k + 1);
    assert (first + later)[s + |first|..s + |first| + m] == later[s..s + m];
    assert ops[limit..][lo..lo + z] == ops[lo + limit..lo + limit + z];
  }

  lemma RequestsOfFirst(e: Env, c: nat, ops: seq<Op>, limit: nat)
    requires e.max >= 1 && limit >= 1 && ops != []
    ensures var size := Min(limit, |ops|);
            var log := ReadRun(e, c, size);
            ReadRequests(e, c, ops, limit) ==
            RequestsOf(ops[..size], log.rounds) +
            if log.end.Failed? then [] else ReadRequests(e, c + |log.rounds|, ops[size..], limit)
  {
    hide ReadRun, RequestsOf;
  }

  lemma ValuesAfterFirst(e: Env, c: nat, n: nat, limit: nat)
    requires e.max >= 1 && limit >= 1 && limit <= |ReadBatches(e, c, n, limit).values|
    ensures limit <= n && ReadRun(e, c, limit).end.Finished?
    ensures |ReadBatches(e, c, n, limit).values| ==
            limit + |ReadBatches(e, c + |ReadRun(e, c, limit).rounds|, n - limit, limit).values|
  {
    hide ReadRun;
    BatchesConserve(e, c, n, limit);
  }

  /** Every batch that was reached, the failing one included, was asked for at its own calls. */
  lemma {:induction false} RequestsInPlace(e: Env, c: nat, ops: seq<Op>, limit: nat, k: nat)
    requires e.max >= 1 && limit >= 1 && Offset(limit, k) < |ops| && Offset(limit, k) <= |ReadBatches(e, c, |ops|, limit).values|
    ensures AsksFor(e, c, ops, limit, k, ReadRequests(e, c, ops, limit))
    decreases |ops|
  {
    hide ReadRun, RequestsOf, AsksFor, ReadBatches, ReadRequests, Offset;
    var size := Min(limit, |ops|);
    var log := ReadRun(e, c, size);
    RequestsOfFirst(e, c, ops, limit);
    if k == 0 {
      AsksForFirst(e, c, ops, limit, if log.end.Failed? then [] else ReadRequests(e, c + |log.rounds|, ops[size..], limit));
    } else {
      OffsetNext(limit, k - 1);
      ValuesAfterFirst(e, c, |ops|, limit);
      var c', first := c + |log.rounds|, RequestsOf(ops[..limit], log.rounds);
      RequestsInPlace(e, c', ops[limit..], limit, k - 1);
      AsksForNext(e, c, ops, limit, k - 1, first, ReadRequests(e, c', ops[limit..], limit));
    }
  }

  lemma {:induction false} CallsBelow(e: Env, c: nat, n: nat, limit: nat)
    requires e.max >= 1 && limit >= 1
    ensures ReadBatches(e, c, n, limit).calls <= c + Offset(e.max, BatchCount(n, limit))
    decreases n
  {
    hide ReadRun, Offset;
    OffsetNext(e.max, 0);
    if n > 0 {
      var size := Min(limit, n);
      var log := ReadRun(e, c, size);
      OffsetNext(e.max, BatchCount(n - size, limit));
      if log.end.Finished? {
        CallsBelow(e, c + |log.rounds|, n - size, limit);
      }
    }
  }

  /** Each batch makes at most MaxAttempts calls. */
  lemma CallsBounded(e: Env, c: nat, n: nat, limit: nat)
    requires e.max >= 1 && limit >= 1
    ensures ReadBatches(e, c, n, limit).calls <= c + BatchCount(n, limit) * e.max
  {
    hide ReadBatches, BatchCount;
    CallsBelow(e, c, n, limit);
  }

  lemma AppendFaithful(a: seq<OpResult>, b: seq<OpResult>)
    requires AllFaithful(a, 0) && AllFaithful(b, |a|)
    ensures AllFaithful(a + b, 0) && Values(a + b) == Values(a) + Values(b) && Errors(a + b) == Errors(a) + Errors(b)
  {
    var s := a + b;
    assert Errors(s) == Errors(a) + Errors(b) by {
      forall e | e in Errors(a) ensures e in Errors(s) { var i :| 0 <= i < |a| && a[i].error == e; assert s[i].error == e; }
      forall e | e in Errors(b) ensures e in Errors(s) { var i :| 0 <= i < |b| && b[i].error == e; assert s[|a| + i].error == e; }
      forall e | e in Errors(s) ensures e in Errors(a) + Errors(b) {
        var i :| 0 <= i < |s| && s[i].error == e;
        assert if i < |a| then a[i].error == e else b[i - |a|].error == e;
      }
    }
    forall k | 0 <= k < |s| ensures s[k].error in Errors(s) && Faithful(s[k], k) {
      assert if k < |a| then s[k] == a[k] else s[k] == b[k - |a|];
    }
  }

  method CheckAddresses(addresses: seq<Op>) returns (ok: bool)
    ensures ok == (addresses != [] && ValidAddresses(addresses))
  {
    if |addresses| == 0 {
      return false;
    }
    for k := 0 to |addresses|
      invariant forall j | 0 <= j < k :: ValidAddress(addresses[j])
    {
      if !ValidAddress(addresses[k]) {
        return false;
      }
    }
    return true;
  }

  /** `remapReadIndexes(batch, start); results = append(results, batch...)` */
  method AppendBatch(results: seq<OpResult>, batch: array<OpResult>) returns (r: seq<OpResult>)
    requires AllFaithful(results, 0) && AllFaithful(batch[..], 0) && Unshared(batch[..])
    requires Errors(results) * Errors(batch[..]) <= {null}
    modifies batch, Errors(batch[..])
    ensures AllFaithful(r, 0) && Values(r) == Values(results) + old(Values(batch[..]))
    ensures Errors(r) == Errors(results) + old(Errors(batch[..]))
  {
    hide Values, Unshared, Faithful;
    ghost var was := batch[..];
    Remap(batch, 0, |results|);
    forall k | 0 <= k < |results| ensures results[k].error in Errors(results) && Faithful(results[k], k) {
      Elsewhere(results, was, k);
    }
    AppendFaithful(results, batch[..]);
    r := results + batch[..];
  }

  lemma Elsewhere(a: seq<OpResult>, b: seq<OpResult>, k: nat)
    requires k < |a| && Errors(a) * Errors(b) <= {null}
    ensures a[k].error in Errors(a) && (a[k].error != null ==> a[k].error !in Errors(b))
  {
    assert a[k].error in Errors(a);
    assert a[k].error in Errors(b) ==> a[k].error in Errors(a) * Errors(b);
  }

  /** One batch more. */
  lemma NextBatch(whole: Batched, done: seq<Value>, e: Env, c: nat, n: nat, limit: nat)
    requires e.max >= 1 && limit >= 1 && n > 0 && Continues(whole, done, ReadBatches(e, c, n, limit))
    ensures var size := Min(limit, n);
            var log := ReadRun(e, c, size);
            match log.end
            case Failed(error) => whole == Batched(done, Some(error), c + |log.rounds|)
            case Finished(values) => Continues(whole, done + values, ReadBatches(e, c + |log.rounds|, n - size, limit))
  {
    hide ReadRun;
    var size := Min(limit, n);
    var log := ReadRun(e, c, size);
    if log.end.Finished? {
      var rest := ReadBatches(e, c + |log.rounds|, n - size, limit);
      assert done + (log.end.values + rest.values) == done + log.end.values + rest.values;
    } else {
      assert done + [] == done;
    }
  }

  lemma NextRequests(before: seq<seq<Op>>, e: Env, c: nat, ops: seq<Op>, limit: nat)
    requires e.max >= 1 && limit >= 1 && ops != []
    ensures var size := Min(limit, |ops|);
            var log := ReadRun(e, c, size);
            before + ReadRequests(e, c, ops, limit) ==
            before + RequestsOf(ops[..size], log.rounds) +
            if log.end.Failed? then [] else ReadRequests(e, c + |log.rounds|, ops[size..], limit)
  {
    hide ReadRun, RequestsOf;
  }

  /** What is left of a Read: `ops` are still to be read, and the rest of the results, requests and waits follow from that. */
  ghost predicate Left(whole: Batched, sent: seq<seq<Op>>, waited: seq<int>, e: Env, p: Policy, rand: nat -> real,
                       values: seq<Value>, requests: seq<seq<Op>>, waits: seq<int>, ops: seq<Op>, limit: nat)
    requires e.max >= 1 && limit >= 1 && Normal(p)
  {
    && Continues(whole, values, ReadBatches(e, |requests|, |ops|, limit))
    && sent == requests + ReadRequests(e, |requests|, ops, limit)
    && waited == waits + ReadWaits(e, p, rand, |waits|, |requests|, |ops|, limit)
  }

  /** One batch on: either it failed and nothing is left, or the rest is. */
  lemma LeftAfter(whole: Batched, sent: seq<seq<Op>>, waited: seq<int>, e: Env, p: Policy, rand: nat -> real, values: seq<Value>,
                  requests: seq<seq<Op>>, waits: seq<int>, ops: seq<Op>, limit: nat, requests': seq<seq<Op>>, waits': seq<int>)
    requires e.max >= 1 && limit >= 1 && Normal(p) && ops != []
    requires Left(whole, sent, waited, e, p, rand, values, requests, waits, ops, limit)
    requires var log := ReadRun(e, |requests|, Min(limit, |ops|));
             && requests' == requests + RequestsOf(ops[..Min(limit, |ops|)], log.rounds)
             && Scheduled(p, rand, waits, waits', WaitCount(log))
    ensures match ReadRun(e, |requests|, Min(limit, |ops|)).end
            case Failed(error) => whole == Batched(values, Some(error), |requests'|) && sent == requests' && waited == waits'
            case Finished(more) =>
              Left(whole, sent, waited, e, p, rand, values + more, requests', waits', ops[Min(limit, |ops|)..], limit)
  {
    hide ReadRun, ReadBatches, ReadRequests, ReadWaits, RequestsOf, Scheduled, WaitCount, Normal;
    NextBatch(whole, values, e, |requests|, |ops|, limit);
    NextRequests(requests, e, |requests|, ops, limit);
    NextWaits(waits, waits', e, p, rand, |requests|, |ops|, limit);
    assert requests' + [] == requests' && waits' + [] == waits';
  }

  lemma NothingLeft(whole: Batched, sent: seq<seq<Op>>, waited: seq<int>, e: Env, p: Policy, rand: nat -> real, values: seq<Value>,
                    requests: seq<seq<Op>>, waits: seq<int>, limit: nat)
    requires e.max >= 1 && limit >= 1 && Normal(p) && Left(whole, sent, waited, e, p, rand, values, requests, waits, [], limit)
    ensures whole == Batched(values, None, |requests|) && sent == requests && waited == waits
  {
    Ends(e, |requests|, limit);
    NoMoreWaits(e, p, rand, |waits|, |requests|, limit);
    assert values + [] == values && requests + [] == requests && waits + [] == waits;
  }

  /**
   `Client.Read`. Nothing is sent unless every address is valid. Otherwise results, requests and waits are those
   of the batches the scripts determine, and every index, in each result and in its error object, is its position
   in the caller's collection. No index computation overflows.
   */
  method Read(net: Network<seq<Op>, Reply>, check: Checker, p: Policy, limit: int, addresses: seq<Op>)
    returns (results: seq<OpResult>, err: Option<ClientError>)
    requires Normal(p) && 1 <= limit <= MAX_INT && |addresses| <= MAX_COLLECTION
    modifies net
    ensures addresses == [] || !ValidAddresses(addresses) ==>
              results == [] && err == Some(Invalid) && net.requests == old(net.requests) && net.waits == old(net.waits)
    ensures addresses != [] && ValidAddresses(addresses) ==>
              var e := EnvOf(net, check, p);
              var b := ReadBatches(e, |old(net.requests)|, |addresses|, limit);
              && Values(results) == b.values && err == b.error && |net.requests| == b.calls
              && net.requests == old(net.requests) + ReadRequests(e, |old(net.requests)|, addresses, limit)
              && net.waits == old(net.waits) + ReadWaits(e, p, net.rand, |old(net.waits)|, |old(net.requests)|, |addresses|, limit)
    ensures AllFaithful(results, 0) && fresh(Errors(results) - {null})
  {
    hide Values, Unshared, Faithful, ReadRun, Scheduled, ReadBatches, ReadRequests, ReadWaits, WaitCount, RequestsOf, ValidAddresses, Left;
    results, err := [], None;
    NothingFaithful();
    var valid := CheckAddresses(addresses);
    if !valid {
      return [], Some(Invalid);
    }
    ghost var e := EnvOf(net, check, p);
    ghost var whole := ReadBatches(e, |net.requests|, |addresses|, limit);
    ghost var sent := net.requests + ReadRequests(e, |net.requests|, addresses, limit);
    ghost var waited := net.waits + ReadWaits(e, p, net.rand, |net.waits|, |net.requests|, |addresses|, limit);
    AllLeft(whole, sent, waited, e, p, net.rand, net.requests, net.waits, addresses, limit);
    var start := 0;
    while start < |addresses|
      invariant start == 0 || limit <= start
      invariant |results| == Min(start, |addresses|)
      invariant AllFaithful(results, 0) && fresh(Errors(results) - {null})
      invariant Left(whole, sent, waited, e, p, net.rand, Values(results), net.requests, net.waits, addresses[|results|..], limit)
      decreases |addresses| - start
    {
      assert start + limit <= MAX_INT;
      var end := Min(start + limit, |addresses|);
      ghost var left := addresses[start..];
      assert left[..Min(limit, |left|)] == addresses[start..end] && left[Min(limit, |left|)..] == addresses[end..];
      ghost var requests, waits := net.requests, net.waits;
      var batch := ReadWithRetry(net, check, p, addresses[start..end]);
      LeftAfter(whole, sent, waited, e, p, net.rand, Values(results), requests, waits, left, limit, net.requests, net.waits);
      if batch.ReadError? {
        err := Some(batch.error);
        return;
      }
      results := AppendBatch(results, batch.results);
      start := start + limit;
    }
    assert addresses[|results|..] == [];
    NothingLeft(whole, sent, waited, e, p, net.rand, Values(results), net.requests, net.waits, limit);
  }

  lemma AllLeft(whole: Batched, sent: seq<seq<Op>>, waited: seq<int>, e: Env, p: Policy, rand: nat -> real,
                requests: seq<seq<Op>>, waits: seq<int>, ops: seq<Op>, limit: nat)
    requires e.max >= 1 && limit >= 1 && Normal(p)
    requires whole == ReadBatches(e, |requests|, |ops|, limit) && sent == requests + ReadRequests(e, |requests|, ops, limit)
    requires waited == waits + ReadWaits(e, p, rand, |waits|, |requests|, |ops|, limit)
    ensures Left(whole, sent, waited, e, p, rand, [], requests, waits, ops[0..], limit)
  {
    Begins(whole);
    assert ops[0..] == ops;
  }

  lemma Begins(whole: Batched)
    ensures Continues(whole, [], whole)
  {
    assert [] + whole.values == whole.values;
  }

  lemma Ends(e: Env, c: nat, limit: nat)
    requires e.max >= 1 && limit >= 1
    ensures ReadBatches(e, c, 0, limit) == Batched([], None, c) && ReadRequests(e, c, [], limit) == []
  {
  }

  lemma NothingFaithful()
    ensures AllFaithful([], 0) && Values([]) == [] && Errors([]) == {}
  {
  }

  /** `whole` is `rest` after the values already collected. */
  ghost predicate Continues(whole: Batched, done: seq<Value>, rest: Batched) {
    whole.values == done + rest.values && whole.error == rest.error && whole.calls == rest.calls
  }
}
