/**
 The batch loop of `Client.Write` and `Client.Delete`. A mutation is never retried: each batch is sent in one
 call, whatever becomes of it.
 */
module Mutation {
  import opened Bytes
  import opened Results
  import opened Slots
  import opened Retry
  import opened Client
  import opened Reading

  // ---------------------------------------------------------------- cutting a collection

  function Chunks<T>(ops: seq<T>, limit: nat): (r: seq<seq<T>>)
    requires limit >= 1
    ensures ops != [] ==> r != []
  {
    if ops == [] then [] else var size := Min(limit, |ops|); [ops[..size]] + Chunks(ops[size..], limit)
  }

  function Concat<T>(parts: seq<seq<T>>): seq<T> { if parts == [] then [] else parts[0] + Concat(parts[1..]) }

  /** The first `m` chunks are a prefix of the collection; all of them are the whole of it. */
  lemma {:induction false} ChunksArePrefix<T>(ops: seq<T>, limit: nat, m: nat)
    requires limit >= 1 && m <= |Chunks(ops, limit)|
    ensures Concat(Chunks(ops, limit)[..m]) <= ops
    ensures m == |Chunks(ops, limit)| ==> Concat(Chunks(ops, limit)[..m]) == ops
  {
    if ops != [] && m > 0 {
      var size := Min(limit, |ops|);
      var rest := Chunks(ops[size..], limit);
      ChunksArePrefix(ops[size..], limit, m - 1);
      var firsts := Chunks(ops, limit)[..m];
      assert firsts[1..] == rest[..m - 1];
      assert ops == ops[..size] + ops[size..];
    }
  }

  lemma {:induction false} ChunkSizes<T>(ops: seq<T>, limit: nat)
    requires limit >= 1
    ensures forall k | 0 <= k < |Chunks(ops, limit)| :: 1 <= |Chunks(ops, limit)[k]| <= limit
  {
    if ops != [] {
      ChunkSizes(ops[Min(limit, |ops|)..], limit);
    }
  }

  // ---------------------------------------------------------------- what a script leads to

  /** How replies are judged: the checker, and a last test of a batch against its results. */
  datatype Judge<!T> = Judge(check: Checker, accept: (seq<T>, seq<Value>) -> bool)

  ghost function Judged<T>(j: Judge<T>, reply: Reply, batch: seq<T>): (r: End)
    ensures r.Finished? ==> |r.values| == |batch|
  {
    match reply
    case RpcError(code) => Failed(Rpc(code))
    case Response(results) =>
      if results.None? || Decode(j.check, results.value, |batch|).None? then Failed(Protocol)
      else
        var values := Decode(j.check, results.value, |batch|).value;
        if j.accept(batch, values) then Finished(values) else Failed(Protocol)
  }

  ghost function Outcome<T>(j: Judge<T>, replies: nat -> Reply, c: nat, ops: seq<T>, limit: nat): (r: Batched)
    requires limit >= 1
    decreases |ops|
  {
    if ops == [] then Batched([], None, c)
    else
      var size := Min(limit, |ops|);
      match Judged(j, replies(c), ops[..size])
      case Failed(error) => Batched([], Some(error), c + 1)
      case Finished(values) =>
        var rest := Outcome(j, replies, c + 1, ops[size..], limit);
        Batched(values + rest.values, rest.error, rest.calls)
  }

  lemma OutcomeOfFirst<T>(j: Judge<T>, replies: nat -> Reply, c: nat, ops: seq<T>, limit: nat)
    requires limit >= 1 && ops != []
    ensures var size := Min(limit, |ops|);
            Outcome(j, replies, c, ops, limit) ==
            match Judged(j, replies(c), ops[..size])
            case Failed(error) => Batched([], Some(error), c + 1)
            case Finished(values) =>
              var rest := Outcome(j, replies, c + 1, ops[size..], limit);
              Batched(values + rest.values, rest.error, rest.calls)
  {
    hide Judged;
  }

  /** One call per batch: all of them on success, up to and including the failing one otherwise. */
  lemma {:induction false} OneCallPerBatch<T>(j: Judge<T>, replies: nat -> Reply, c: nat, ops: seq<T>, limit: nat)
    requires limit >= 1
    ensures var b := Outcome(j, replies, c, ops, limit);
            var m := b.calls - c;
            && 0 <= m <= |Chunks(ops, limit)|
            && (if b.error.None? then m == |Chunks(ops, limit)| && |b.values| == |ops|
                else m >= 1 && |b.values| < |ops| && |b.values| == Offset(limit, m - 1))
    decreases |ops|
  {
    if ops != [] {
      hide Judged, Offset, Outcome, Chunks;
      var b := Outcome(j, replies, c, ops, limit);
      OffsetNext(limit, 0);
      OutcomeOfFirst(j, replies, c, ops, limit);
      FirstChunk(ops, limit);
      var size := Min(limit, |ops|);
      var end := Judged(j, replies(c), ops[..size]);
      if end.Finished? {
        var rest := Outcome(j, replies, c + 1, ops[size..], limit);
        OneCallPerBatch(j, replies, c + 1, ops[size..], limit);
        if b.error.Some? {
          OffsetNext(limit, rest.calls - (c + 1) - 1);
        }
      }
    }
  }

  /** Batch `k` of the collection. */
  function Batch<T>(ops: seq<T>, limit: nat, k: nat): (r: seq<T>)
    ensures |r| == BatchSize(|ops|, limit, k)
  {
    if Offset(limit, k) < |ops| then ops[Offset(limit, k)..Offset(limit, k) + BatchSize(|ops|, limit, k)] else []
  }

  /** The reply is a response the batch accepts, and `v` is what it says about operation `x` of the batch. */
  ghost predicate ReplySays<T>(j: Judge<T>, reply: Reply, batch: seq<T>, x: nat, v: Value) {
    && reply.Response? && reply.results.Some? && x < |batch|
    && var decoded := Decode(j.check, reply.results.value, |batch|);
    && decoded.Some? && j.accept(batch, decoded.value) && decoded.value[x] == v
  }

  /** What the reply has to be for a batch to fail with an error. */
  ghost predicate Refuses<T>(j: Judge<T>, reply: Reply, batch: seq<T>, error: ClientError) {
    match error
    case Rpc(code) => reply == RpcError(code)
    case Protocol =>
      && reply.Response?
      && (reply.results.Some? && Decode(j.check, reply.results.value, |batch|).Some? ==>
            !j.accept(batch, Decode(j.check, reply.results.value, |batch|).value))
    case _ => false
  }

  lemma BatchZero<T>(ops: seq<T>, limit: nat)
    requires limit >= 1 && ops != []
    ensures Batch(ops, limit, 0) == ops[..Min(limit, |ops|)]
  {
    OffsetNext(limit, 0);
  }

  lemma BatchNext<T>(ops: seq<T>, limit: nat, k: nat)
    requires 1 <= limit <= |ops|
    ensures Batch(ops, limit, k + 1) == Batch(ops[limit..], limit, k)
  {
    hide Offset;
    OffsetNext(limit, k);
    if Offset(limit, k + 1) < |ops| {
      var lo, size := Offset(limit, k), BatchSize(|ops|, limit, k + 1);
      assert size == BatchSize(|ops| - limit, limit, k);
      assert ops[limit..][lo..lo + size] == ops[lo + limit..lo + limit + size];
    }
  }

  /** The chunks the calls carry are the batches the results are counted by. */
  lemma {:induction false} ChunkIsBatch<T>(ops: seq<T>, limit: nat, k: nat)
    requires limit >= 1 && k < |Chunks(ops, limit)|
    ensures Chunks(ops, limit)[k] == Batch(ops, limit, k)
    decreases |ops|
  {
    if ops != [] {
      hide Batch, Chunks;
      FirstChunk(ops, limit);
      if k == 0 {
        BatchZero(ops, limit);
      } else {
        var size := Min(limit, |ops|);
        assert Chunks(ops[size..], limit) != [];
        NoChunks(ops[size..], limit);
        ChunkIsBatch(ops[limit..], limit, k - 1);
        BatchNext(ops, limit, k - 1);
        assert Chunks(ops, limit)[k] == Chunks(ops, limit)[1..][k - 1];
      }
    }
  }

  lemma NoChunks<T>(ops: seq<T>, limit: nat)
    requires limit >= 1 && Chunks(ops, limit) != []
    ensures ops != []
  {
  }

  /**
   The result at position `i` is the one at its place in the reply to its own batch's call, the only call that
   batch was sent in: element `i % limit` of the reply to call `i / limit`.
   */
  lemma {:induction false} EveryResultIsItsCallsAnswer<T>(j: Judge<T>, replies: nat -> Reply, c: nat, ops: seq<T>, limit: nat, i: nat)
    requires limit >= 1 && i < |Outcome(j, replies, c, ops, limit).values|
    ensures var b, k := Outcome(j, replies, c, ops, limit), BatchOf(limit, i);
            c + k < b.calls && ReplySays(j, replies(c + k), Batch(ops, limit, k), Within(limit, i), b.values[i])
    decreases |ops|
  {
    hide Batch, Judged, ReplySays, BatchOf, Within, Offset;
    var b := Outcome(j, replies, c, ops, limit);
    var size := Min(limit, |ops|);
    var end := Judged(j, replies(c), ops[..size]);
    OneCallPerBatch(j, replies, c + 1, ops[size..], limit);
    PositionOf(limit, i);
    if i < size {
      BatchZero(ops, limit);
      FinishedSays(j, replies(c), ops[..size], i);
    } else {
      assert size == limit;
      EveryResultIsItsCallsAnswer(j, replies, c + 1, ops[limit..], limit, i - limit);
      BatchNext(ops, limit, BatchOf(limit, i - limit));
      assert c + 1 + BatchOf(limit, i - limit) == c + BatchOf(limit, i);
    }
  }

  lemma FinishedSays<T>(j: Judge<T>, reply: Reply, batch: seq<T>, x: nat)
    requires Judged(j, reply, batch).Finished? && x < |batch|
    ensures ReplySays(j, reply, batch, x, Judged(j, reply, batch).values[x])
  {
    hide Decode;
  }

  /** An error is that of the last call made, for the batch after those with results. */
  lemma {:induction false} ErrorIsLastCalls<T>(j: Judge<T>, replies: nat -> Reply, c: nat, ops: seq<T>, limit: nat)
    requires limit >= 1 && Outcome(j, replies, c, ops, limit).error.Some?
    ensures var b := Outcome(j, replies, c, ops, limit);
            var k := b.calls - c - 1;
            k >= 0 && Refuses(j, replies(c + k), Batch(ops, limit, k), b.error.value)
    decreases |ops|
  {
    hide Batch, Decode;
    var b := Outcome(j, replies, c, ops, limit);
    var size := Min(limit, |ops|);
    var end := Judged(j, replies(c), ops[..size]);
    if end.Finished? {
      assert size == limit;
      ErrorIsLastCalls(j, replies, c + 1, ops[limit..], limit);
      BatchNext(ops, limit, b.calls - c - 2);
    } else {
      BatchZero(ops, limit);
    }
  }

  // ---------------------------------------------------------------- the loop

  ghost function Built<T, Q>(build: seq<T> -> Q, chunks: seq<seq<T>>): (r: seq<Q>)
    ensures |r| == |chunks|
  {
    seq(|chunks|, k requires 0 <= k < |chunks| => build(chunks[k]))
  }

  /** Calls made so far, and what is left to do. */
  ghost predicate Sent<T, Q>(build: seq<T> -> Q, before: seq<Q>, now: seq<Q>, all: seq<seq<T>>, left: seq<seq<T>>) {
    && |before| <= |now| && |now| - |before| + |left| == |all|
    && left == all[|now| - |before|..]
    && now == before + Built(build, all[..|now| - |before|])
  }

  lemma SentStart<T, Q>(build: seq<T> -> Q, before: seq<Q>, all: seq<seq<T>>)
    ensures Sent(build, before, before, all, all)
  {
    assert before + Built(build, all[..0]) == before;
  }

  lemma SentMore<T, Q>(build: seq<T> -> Q, before: seq<Q>, now: seq<Q>, all: seq<seq<T>>, left: seq<seq<T>>)
    requires Sent(build, before, now, all, left) && left != []
    ensures Sent(build, before, now + [build(left[0])], all, left[1..])
  {
    var m := |now| - |before|;
    assert left[0] == all[m];
    assert all[..m + 1] == all[..m] + [all[m]];
    assert Built(build, all[..m + 1]) == Built(build, all[..m]) + [build(all[m])];
  }

  lemma FirstChunk<T>(ops: seq<T>, limit: nat)
    requires limit >= 1 && ops != []
    ensures var size := Min(limit, |ops|); Chunks(ops, limit)[0] == ops[..size] && Chunks(ops, limit)[1..] == Chunks(ops[size..], limit)
  {
  }

  /** One batch: one call, then decoding and the last test. */
  method SendBatch<T, Q>(net: Network<Q, Reply>, j: Judge<T>, build: seq<T> -> Q, batch: seq<T>) returns (r: Reads)
    modifies net`requests
    ensures net.requests == old(net.requests) + [build(batch)]
    ensures var end := Judged(j, net.replies(|old(net.requests)|), batch);
            && (end.Failed? ==> r == ReadError(end.error))
            && (end.Finished? ==> r.Reads? && Values(r.results[..]) == end.values)
    ensures r.Reads? ==> fresh(r.results) && fresh(Errors(r.results[..]) - {null})
    ensures r.Reads? ==> AllFaithful(r.results[..], 0) && Unshared(r.results[..])
  {
    hide Decode, Unshared;
    var reply := net.Call(build(batch));
    if reply.RpcError? {
      return ReadError(Rpc(reply.code));
    }
    var results := DecodeResponse(j.check, reply.results, |batch|);
    if results.None? {
      return ReadError(Protocol);
    }
    var values := ReadValues(results.value);
    if !j.accept(batch, values) {
      return ReadError(Protocol);
    }
    return Reads(results.value);
  }

  method ReadValues(results: array<OpResult>) returns (vs: seq<Value>)
    ensures vs == Values(results[..])
  {
    vs := [];
    for k := 0 to results.Length
      invariant |vs| == k && forall i | 0 <= i < k :: vs[i] == results[i].value
    {
      vs := vs + [results[k].value];
    }
  }

  /** One batch more. */
  lemma NextMutation<T>(whole: Batched, done: seq<Value>, j: Judge<T>, replies: nat -> Reply, c: nat, ops: seq<T>, limit: nat)
    requires limit >= 1 && ops != [] && Continues(whole, done, Outcome(j, replies, c, ops, limit))
    ensures var size := Min(limit, |ops|);
            match Judged(j, replies(c), ops[..size])
            case Failed(error) => whole == Batched(done, Some(error), c + 1)
            case Finished(values) => Continues(whole, done + values, Outcome(j, replies, c + 1, ops[size..], limit))
  {
    hide Judged;
    var size := Min(limit, |ops|);
    var end := Judged(j, replies(c), ops[..size]);
    if end.Finished? {
      var rest := Outcome(j, replies, c + 1, ops[size..], limit);
      assert done + (end.values + rest.values) == done + end.values + rest.values;
    } else {
      assert done + [] == done;
    }
  }

  /**
   The loop: each batch goes out in exactly one call, in order, and a failure stops it. The calls made are the
   first chunks of the collection, so no operation is ever sent twice.
   */
  method Mutate<T, Q>(net: Network<Q, Reply>, j: Judge<T>, build: seq<T> -> Q, limit: int, ops: seq<T>)
    returns (results: seq<OpResult>, err: Option<ClientError>)
    requires 1 <= limit <= MAX_INT && |ops| <= MAX_COLLECTION
    modifies net`requests
    ensures var b := Outcome(j, net.replies, |old(net.requests)|, ops, limit);
            Values(results) == b.values && err == b.error && |net.requests| == b.calls
    ensures var m := |net.requests| - |old(net.requests)|;
            0 <= m <= |Chunks(ops, limit)| && net.requests == old(net.requests) + Built(build, Chunks(ops, limit)[..m])
    ensures AllFaithful(results, 0) && fresh(Errors(results) - {null})
  {
    hide Values, Unshared, Faithful, Judged, Outcome, Built, Chunks, Continues;
    results, err := [], None;
    NothingFaithful();
    ghost var all := Chunks(ops, limit);
    ghost var whole := Outcome(j, net.replies, |net.requests|, ops, limit);
    Starting(whole, ops);
    SentStart(build, net.requests, all);
    var start := 0;
    while start < |ops|
      invariant start == 0 || limit <= start
      invariant |results| == Min(start, |ops|)
      invariant AllFaithful(results, 0) && fresh(Errors(results) - {null})
      invariant Continues(whole, Values(results), Outcome(j, net.replies, |net.requests|, ops[|results|..], limit))
      invariant Sent(build, old(net.requests), net.requests, all, Chunks(ops[|results|..], limit))
      decreases |ops| - start
    {
      assert start + limit <= MAX_INT;
      var end := Min(start + limit, |ops|);
      ghost var left := ops[start..];
      FirstChunk(left, limit);
      assert left[..Min(limit, |left|)] == ops[start..end] && left[Min(limit, |left|)..] == ops[end..];
      NextMutation(whole, Values(results), j, net.replies, |net.requests|, left, limit);
      SentMore(build, old(net.requests), net.requests, all, Chunks(left, limit));
      var batch := SendBatch(net, j, build, ops[start..end]);
      if batch.ReadError? {
        err := Some(batch.error);
        return;
      }
      results := AppendBatch(results, batch.results);
      start := start + limit;
    }
    Stopping(j, whole, Values(results), net.replies, |net.requests|, ops[|results|..], limit);
  }

  lemma Starting<T>(whole: Batched, ops: seq<T>)
    ensures Continues(whole, [], whole) && ops[0..] == ops
  {
    assert [] + whole.values == whole.values;
  }

  lemma Stopping<T>(j: Judge<T>, whole: Batched, done: seq<Value>, replies: nat -> Reply, c: nat, ops: seq<T>, limit: nat)
    requires limit >= 1 && ops == [] && Continues(whole, done, Outcome(j, replies, c, ops, limit))
    ensures whole == Batched(done, None, c)
  {
  }
}
