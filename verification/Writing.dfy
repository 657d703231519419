/**
 `Client.Write` and `Client.Delete`: validation, the wire form of operations, and the factoring of Lua
 sources out of a batch. SHA-256 and the JSON and BSON validators are arbitrary functions.
 */
module Writing {
  import opened Bytes
  import V = Varint
  import W = WireFormat
  import M = Messages
  import RT = RoundTrip
  import MS = Marshal
  import opened Results
  import opened Slots
  import opened Retry
  import opened Client
  import opened Reading
  import opened Mutation

  datatype Program = Program(source: seq<Byte>, digest: seq<Byte>)

  datatype WriteAction =
    | Unspecified
    | PutDocument(document: M.DocumentFields, mode: V.Int32)
    | MergeDocument(incoming: M.DocumentFields, program: Program)

  datatype WriteOp = WriteOp(address: seq<Byte>, returnDocument: bool, action: WriteAction)

  // ---------------------------------------------------------------- validation

  /** The foreign functions validation needs. */
  datatype Oracle = Oracle(validDocument: M.DocumentFields -> bool, sha: seq<Byte> -> seq<Byte>)

  predicate ValidProgram(o: Oracle, p: Program) { p.source != [] && o.sha(p.source) == p.digest }

  predicate ValidOp(o: Oracle, op: WriteOp) {
    && ValidAddress(op.address)
    && match op.action
       case Unspecified => false
       case PutDocument(d, mode) => o.validDocument(d) && 1 <= mode <= 3
       case MergeDocument(d, p) => o.validDocument(d) && ValidProgram(o, p)
  }

  const RETURN_AFTER_ACCEPTED: V.Int32 := 2

  /** Everything `Write` tests before it sends anything. */
  predicate ValidWrite(o: Oracle, mode: V.Int32, ops: seq<WriteOp>) {
    && ops != [] && 1 <= mode <= 3
    && forall k | 0 <= k < |ops| :: !(ops[k].returnDocument && mode == RETURN_AFTER_ACCEPTED) && ValidOp(o, ops[k])
  }

  method CheckWriteOps(o: Oracle, mode: V.Int32, ops: seq<WriteOp>) returns (ok: bool)
    ensures ok == ValidWrite(o, mode, ops)
  {
    if |ops| == 0 || !(1 <= mode <= 3) {
      return false;
    }
    for k := 0 to |ops|
      invariant forall i | 0 <= i < k :: !(ops[i].returnDocument && mode == RETURN_AFTER_ACCEPTED) && ValidOp(o, ops[i])
    {
      if ops[k].returnDocument && mode == RETURN_AFTER_ACCEPTED {
        return false;
      }
      if !ValidOp(o, ops[k]) {
        return false;
      }
    }
    return true;
  }

  // ---------------------------------------------------------------- the wire form (wire.go)

  function ProgramMessage(source: seq<Byte>, digest: seq<Byte>): M.LuaProgram { W.Msg(M.LuaProgramFields(source, digest), []) }

  /** A merge is sent with the digest of its program only. */
  function ToAction(a: WriteAction): M.Action {
    match a
    case Unspecified => M.NoAction
    case PutDocument(d, mode) => M.Put(Some(W.Msg(M.PutFields(Some(W.Msg(d, [])), mode), [])))
    case MergeDocument(d, p) => M.Merge(Some(W.Msg(M.MergeFields(Some(W.Msg(d, [])), Some(ProgramMessage([], p.digest))), [])))
  }

  function ToProto(op: WriteOp): M.WriteOperation {
    W.Msg(M.WriteOperationFields(Some(W.Msg(M.RecordAddressFields(op.address), [])), op.returnDocument, ToAction(op.action)), [])
  }

  /** The programs a batch refers to, each once, in the order of first use. */
  function Programs(ops: seq<WriteOp>): (ps: seq<Program>) {
    if ops == [] then []
    else
      var n := |ops| - 1;
      var ps := Programs(ops[..n]);
      var a := ops[n].action;
      if a.MergeDocument? && a.program.digest !in Digests(ps) then ps + [a.program] else ps
  }

  function Digests(ps: seq<Program>): (r: seq<seq<Byte>>)
    ensures |r| == |ps| && forall k | 0 <= k < |ps| :: r[k] == ps[k].digest
  {
    seq(|ps|, k requires 0 <= k < |ps| => ps[k].digest)
  }

  function ToOperations(ops: seq<WriteOp>): (r: seq<Option<M.WriteOperation>>)
    ensures |r| == |ops|
  {
    seq(|ops|, k requires 0 <= k < |ops| => Some(ToProto(ops[k])))
  }

  function ToPrograms(ps: seq<Program>): (r: seq<Option<M.LuaProgram>>)
    ensures |r| == |ps|
  {
    seq(|ps|, k requires 0 <= k < |ps| => Some(ProgramMessage(ps[k].source, ps[k].digest)))
  }

  function RequestFor(mode: V.Int32, ops: seq<WriteOp>): M.WriteRequest {
    W.Msg(M.WriteRequestFields(mode, ToOperations(ops), ToPrograms(Programs(ops))), [])
  }

  /** The loop of `writeBatch` that builds both lists, with a set of the digests already declared. */
  method BuildWrite(mode: V.Int32, ops: seq<WriteOp>) returns (request: M.WriteRequest)
    ensures request == RequestFor(mode, ops)
  {
    var operations: seq<Option<M.WriteOperation>> := [];
    var programs: seq<Option<M.LuaProgram>> := [];
    var seen: set<seq<Byte>> := {};
    for k := 0 to |ops|
      invariant operations == ToOperations(ops[..k])
      invariant programs == ToPrograms(Programs(ops[..k]))
      invariant forall d :: d in seen <==> d in Digests(Programs(ops[..k]))
    {
      ghost var ps := Programs(ops[..k]);
      assert ops[..k + 1][..k] == ops[..k];
      operations := operations + [Some(ToProto(ops[k]))];
      var a := ops[k].action;
      if a.MergeDocument? {
        var digest := a.program.digest;
        if digest !in seen {
          programs := programs + [Some(ProgramMessage(a.program.source, digest))];
          seen := seen + {digest};
          assert Digests(ps + [a.program]) == Digests(ps) + [digest];
        }
      }
    }
    assert ops[..|ops|] == ops;
    request := W.Msg(M.WriteRequestFields(mode, operations, programs), []);
  }

  // ---------------------------------------------------------------- what a request holds

  /** The message of an operation, field by field: a merge carries its digest, and no source. */
  predicate SaysOperation(w: M.WriteOperation, op: WriteOp) {
    && w.unknown == [] && w.fields.returnDocument == op.returnDocument
    && w.fields.address.Some? && w.fields.address.value == W.Msg(M.RecordAddressFields(op.address), [])
    && match op.action
       case Unspecified => w.fields.action == M.NoAction
       case PutDocument(d, mode) =>
         && w.fields.action.Put? && w.fields.action.put.Some?
         && var put := w.fields.action.put.value;
         put.unknown == [] && put.fields.mode == mode && put.fields.document == Some(W.Msg(d, []))
       case MergeDocument(d, p) =>
         && w.fields.action.Merge? && w.fields.action.merge.Some?
         && var merge := w.fields.action.merge.value;
         && merge.unknown == [] && merge.fields.incoming == Some(W.Msg(d, []))
         && merge.fields.program.Some? && merge.fields.program.value.unknown == []
         && merge.fields.program.value.fields.source == [] && merge.fields.program.value.fields.sha256 == p.digest
  }

  /** The request of a batch: its mode, its operations in order, and for each declared program source and digest. */
  lemma RequestSays(mode: V.Int32, ops: seq<WriteOp>)
    ensures var r := RequestFor(mode, ops);
            && r.unknown == [] && r.fields.completionMode == mode
            && |r.fields.operations| == |ops| && |r.fields.luaPrograms| == |Programs(ops)|
            && (forall k | 0 <= k < |ops| ::
                  r.fields.operations[k].Some? && SaysOperation(r.fields.operations[k].value, ops[k]))
            && (forall i | 0 <= i < |Programs(ops)| ::
                  && r.fields.luaPrograms[i].Some? && r.fields.luaPrograms[i].value.unknown == []
                  && r.fields.luaPrograms[i].value.fields.source == Programs(ops)[i].source
                  && r.fields.luaPrograms[i].value.fields.sha256 == Programs(ops)[i].digest)
  {
  }

  /** The bytes of Lua source an operation's message carries. */
  function SourceIn(w: Option<M.WriteOperation>): nat {
    match w
    case Some(op) =>
      (match op.fields.action
       case Merge(Some(m)) => if m.fields.program.Some? then |m.fields.program.value.fields.source| else 0
       case _ => 0)
    case None => 0
  }

  function SourceInOperations(ws: seq<Option<M.WriteOperation>>): nat {
    if ws == [] then 0 else SourceIn(ws[0]) + SourceInOperations(ws[1..])
  }

  function SourceInPrograms(ps: seq<Option<M.LuaProgram>>): nat {
    if ps == [] then 0 else (if ps[0].Some? then |ps[0].value.fields.source| else 0) + SourceInPrograms(ps[1..])
  }

  function SourceLengths(ps: seq<Program>): nat { if ps == [] then 0 else |ps[0].source| + SourceLengths(ps[1..]) }

  lemma {:induction false} NoSourceInOperations(ops: seq<WriteOp>)
    ensures SourceInOperations(ToOperations(ops)) == 0
  {
    if ops != [] {
      assert ToOperations(ops)[1..] == ToOperations(ops[1..]);
      NoSourceInOperations(ops[1..]);
    }
  }

  lemma {:induction false} SourceOncePerProgram(ps: seq<Program>)
    ensures SourceInPrograms(ToPrograms(ps)) == SourceLengths(ps)
  {
    if ps != [] {
      assert ToPrograms(ps)[1..] == ToPrograms(ps[1..]);
      SourceOncePerProgram(ps[1..]);
    }
  }

  /** The point of the factoring: a batch sends each declared program's source once, and no source with its operations. */
  lemma SourcesSentOnce(mode: V.Int32, ops: seq<WriteOp>)
    ensures var r := RequestFor(mode, ops).fields;
            SourceInOperations(r.operations) == 0 && SourceInPrograms(r.luaPrograms) == SourceLengths(Programs(ops))
  {
    NoSourceInOperations(ops);
    SourceOncePerProgram(Programs(ops));
  }

  /** Everything `Write` tests before it sends, in numbers: modes 1 to 3, and 2 returns before there is a document. */
  lemma ValidWriteIff(o: Oracle, mode: V.Int32, ops: seq<WriteOp>)
    ensures ValidWrite(o, mode, ops) <==>
            && |ops| > 0 && (mode == 1 || mode == 2 || mode == 3)
            && forall k | 0 <= k < |ops| ::
                 && (mode == 2 ==> !ops[k].returnDocument) && ValidAddress(ops[k].address)
                 && match ops[k].action
                    case Unspecified => false
                    case PutDocument(d, m) => o.validDocument(d) && (m == 1 || m == 2 || m == 3)
                    case MergeDocument(d, p) => o.validDocument(d) && |p.source| > 0 && o.sha(p.source) == p.digest
  {
  }

  // ---------------------------------------------------------------- the factoring loses nothing

  predicate Carries(op: WriteOp, p: Program) { op.action.MergeDocument? && op.action.program == p }

  predicate Used(ops: seq<WriteOp>, p: Program) { exists k | 0 <= k < |ops| :: Carries(ops[k], p) }

  predicate Uses(op: WriteOp, digest: seq<Byte>) { op.action.MergeDocument? && op.action.program.digest == digest }

  /** Nothing is declared twice, everything referred to is declared, and nothing else is. */
  lemma {:induction false} DeclaredOnce(ops: seq<WriteOp>)
    ensures forall i, j | 0 <= i < j < |Programs(ops)| :: Programs(ops)[i].digest != Programs(ops)[j].digest
    ensures forall k | 0 <= k < |ops| && ops[k].action.MergeDocument? :: ops[k].action.program.digest in Digests(Programs(ops))
    ensures forall p | p in Programs(ops) :: Used(ops, p)
  {
    if ops != [] {
      var n := |ops| - 1;
      var front, ps := ops[..n], Programs(ops);
      DeclaredOnce(front);
      var before := Programs(front);
      assert forall i | 0 <= i < |before| :: before[i].digest == Digests(before)[i];
      forall k | 0 <= k < |ops| && ops[k].action.MergeDocument? ensures ops[k].action.program.digest in Digests(ps) {
        var d := ops[k].action.program.digest;
        if k < n {
          assert front[k] == ops[k];
          var i :| 0 <= i < |before| && Digests(before)[i] == d;
          assert Digests(ps)[i] == d;
        } else if d in Digests(before) {
          var i :| 0 <= i < |before| && Digests(before)[i] == d;
          assert Digests(ps)[i] == d;
        } else {
          assert Digests(ps)[|before|] == d;
        }
      }
      forall p | p in ps ensures Used(ops, p) {
        if p in before {
          var k :| 0 <= k < n && Carries(front[k], p);
          assert Carries(ops[k], p);
        } else {
          assert Carries(ops[n], p);
        }
      }
    }
  }

  /** The position of the first operation that uses a digest. */
  function FirstUse(ops: seq<WriteOp>, digest: seq<Byte>): nat {
    if ops == [] || Uses(ops[0], digest) then 0 else 1 + FirstUse(ops[1..], digest)
  }

  lemma {:induction false} FirstUseIsFirst(ops: seq<WriteOp>, digest: seq<Byte>, k: nat)
    requires k < |ops| && Uses(ops[k], digest) && forall j | 0 <= j < k :: !Uses(ops[j], digest)
    ensures FirstUse(ops, digest) == k
  {
    if k > 0 {
      FirstUseIsFirst(ops[1..], digest, k - 1);
    }
  }

  lemma {:induction false} FirstUseOfPrefix(ops: seq<WriteOp>, n: nat, digest: seq<Byte>)
    requires n <= |ops| && exists k | 0 <= k < n :: Uses(ops[k], digest)
    ensures FirstUse(ops[..n], digest) == FirstUse(ops, digest) < n
  {
    var k :| 0 <= k < n && Uses(ops[k], digest);
    if !Uses(ops[0], digest) {
      assert Uses(ops[1..][k - 1], digest);
      assert ops[..n][1..] == ops[1..][..n - 1];
      FirstUseOfPrefix(ops[1..], n - 1, digest);
    }
  }

  /** Declarations come in the order of first use. */
  lemma {:induction false} InFirstUseOrder(ops: seq<WriteOp>, i: nat, j: nat)
    requires i < j < |Programs(ops)|
    ensures FirstUse(ops, Programs(ops)[i].digest) < FirstUse(ops, Programs(ops)[j].digest)
    decreases |ops|
  {
    var n := |ops| - 1;
    var front, ps := ops[..n], Programs(ops);
    var before := Programs(front);
    UsedBefore(ops, i);
    if j < |before| {
      UsedBefore(ops, j);
      InFirstUseOrder(front, i, j);
      FirstUseOfPrefix(ops, n, ps[i].digest);
      FirstUseOfPrefix(ops, n, ps[j].digest);
    } else {
      FirstUseOfPrefix(ops, n, ps[i].digest);
      DeclaredOnce(front);
      forall k | 0 <= k < n ensures !Uses(ops[k], ps[j].digest) { assert front[k] == ops[k]; }
      FirstUseIsFirst(ops, ps[j].digest, n);
    }
  }

  lemma UsedBefore(ops: seq<WriteOp>, i: nat)
    requires ops != [] && i < |Programs(ops[..|ops| - 1])|
    ensures Programs(ops)[i] == Programs(ops[..|ops| - 1])[i]
    ensures exists k | 0 <= k < |ops| - 1 :: Uses(ops[k], Programs(ops)[i].digest)
  {
    var front := ops[..|ops| - 1];
    DeclaredOnce(front);
    assert Programs(front)[i] in Programs(front);
    var k :| 0 <= k < |front| && Carries(front[k], Programs(front)[i]);
    assert Uses(ops[k], Programs(ops)[i].digest);
  }

  /** How a reader of the request finds a program: the first declaration with the digest. */
  function Lookup(ps: seq<Option<M.LuaProgram>>, digest: seq<Byte>): Option<seq<Byte>> {
    if ps == [] then None
    else if ps[0].Some? && ps[0].value.fields.sha256 == digest then Some(ps[0].value.fields.source)
    else Lookup(ps[1..], digest)
  }

  /** The operation a message stands for, given the request's declarations. */
  function FromProto(ps: seq<Option<M.LuaProgram>>, w: M.WriteOperation): Option<WriteOp> {
    if w.fields.address.None? then None
    else
      var address := w.fields.address.value.fields.uri;
      match w.fields.action
      case Put(Some(p)) =>
        if p.fields.document.None? then None
        else Some(WriteOp(address, w.fields.returnDocument, PutDocument(p.fields.document.value.fields, p.fields.mode)))
      case Merge(Some(m)) =>
        if m.fields.incoming.None? || m.fields.program.None? then None
        else
          var digest := m.fields.program.value.fields.sha256;
          (match Lookup(ps, digest)
           case None => None
           case Some(source) =>
             Some(WriteOp(address, w.fields.returnDocument, MergeDocument(m.fields.incoming.value.fields, Program(source, digest)))))
      case _ => None
  }

  lemma {:induction false} LookupFinds(ps: seq<Program>, i: nat)
    requires i < |ps| && forall j | 0 <= j < i :: ps[j].digest != ps[i].digest
    ensures Lookup(ToPrograms(ps), ps[i].digest) == Some(ps[i].source)
    decreases |ps|
  {
    if i > 0 {
      assert ToPrograms(ps)[1..] == ToPrograms(ps[1..]);
      LookupFinds(ps[1..], i - 1);
    }
  }

  /** No two different sources in the batch have the same digest. */
  ghost predicate NoCollision(o: Oracle, ops: seq<WriteOp>) {
    forall i, j | 0 <= i < |ops| && 0 <= j < |ops| && ops[i].action.MergeDocument? && ops[j].action.MergeDocument? &&
                  o.sha(ops[i].action.program.source) == o.sha(ops[j].action.program.source) ::
      ops[i].action.program.source == ops[j].action.program.source
  }

  /** Every operation can be read back from the request, source included. */
  lemma FactoringIsLossless(o: Oracle, mode: V.Int32, ops: seq<WriteOp>, k: nat)
    requires (forall i | 0 <= i < |ops| :: ValidOp(o, ops[i])) && NoCollision(o, ops) && k < |ops|
    ensures FromProto(RequestFor(mode, ops).fields.luaPrograms, ToProto(ops[k])) == Some(ops[k])
  {
    hide ValidAddress;
    var op := ops[k];
    if op.action.MergeDocument? {
      var ps, p := Programs(ops), op.action.program;
      DeclaredOnce(ops);
      var i :| 0 <= i < |ps| && Digests(ps)[i] == p.digest;
      LookupFinds(ps, i);
      assert ps[i] in ps;
      var j :| 0 <= j < |ops| && Carries(ops[j], ps[i]);
      assert ValidOp(o, ops[j]) && ValidOp(o, ops[k]);
      assert ps[i].source == p.source;
    }
  }

  /**
   End to end: the bytes the codec writes for a batch decode to a request with the same completion mode, from
   which every operation of the batch is recovered exactly.
   */
  lemma BatchSurvivesTheWire(o: Oracle, mode: V.Int32, ops: seq<WriteOp>)
    requires (forall i | 0 <= i < |ops| :: ValidOp(o, ops[i])) && NoCollision(o, ops)
    requires |M.RequestBytes(RequestFor(mode, ops))| <= 0x7FFF_FFFF_FFFF_FFFF
    ensures MS.WellWrappedRequest(RequestFor(mode, ops))
    ensures var r := M.DecodeRequest(M.NEW_REQUEST, M.RequestBytes(RequestFor(mode, ops)));
            && r.Ok? && r.value.fields.completionMode == mode && |r.value.fields.operations| == |ops|
            && forall k | 0 <= k < |ops| ::
                 && r.value.fields.operations[k].Some?
                 && FromProto(r.value.fields.luaPrograms, r.value.fields.operations[k].value) == Some(ops[k])
  {
    hide M.RequestBytes, M.DecodeRequest, FromProto, ToProto, Programs;
    var request := RequestFor(mode, ops);
    RequestIsValid(mode, ops);
    RT.RequestRoundTrip(request);
    forall k | 0 <= k < |ops|
      ensures FromProto(request.fields.luaPrograms, request.fields.operations[k].value) == Some(ops[k])
    {
      FactoringIsLossless(o, mode, ops, k);
    }
  }

  lemma RequestIsValid(mode: V.Int32, ops: seq<WriteOp>)
    ensures RT.ValidRequest(RequestFor(mode, ops)) && MS.WellWrappedRequest(RequestFor(mode, ops))
  {
    var request := RequestFor(mode, ops);
    forall k | 0 <= k < |ops|
      ensures RT.ValidOperation(request.fields.operations[k].value) && MS.WellWrapped(request.fields.operations[k])
    {
      assert request.fields.operations[k] == Some(ToProto(ops[k]));
    }
  }

  // ---------------------------------------------------------------- Write and Delete

  /** An applied operation that asked for its document must get one. */
  function ReturnsDocuments(ops: seq<WriteOp>, values: seq<Value>): bool {
    forall k | 0 <= k < |ops| && k < |values| ::
      ops[k].returnDocument && values[k].status == WRITE_APPLIED ==> values[k].document.Some? && values[k].document.value.payload != []
  }

  function WriteJudge(valid: Document -> bool): Judge<WriteOp> {
    Judge((w: Wire) => CheckWrite(valid, w), (ops: seq<WriteOp>, values: seq<Value>) => ReturnsDocuments(ops, values))
  }

  /** What makes a Write take back a decoded response: an applied operation without the document it asked for. */
  lemma WriteAcceptsIff(valid: Document -> bool, batch: seq<WriteOp>, values: seq<Value>)
    requires |batch| == |values|
    ensures WriteJudge(valid).accept(batch, values) <==>
            forall k | 0 <= k < |batch| ::
              batch[k].returnDocument && values[k].status == 2 ==> values[k].document.Some? && |values[k].document.value.payload| > 0
    ensures forall w :: WriteJudge(valid).check(w) == CheckWrite(valid, w)
    ensures forall w :: DeleteJudge().check(w) == CheckDelete(w)
    ensures forall addresses, values' :: DeleteJudge().accept(addresses, values')
  {
  }

  /**
   What a caller can rely on in each result of a Write, failed or not: it is what a result in the reply to its own
   batch's call means, the one with its place in the batch, and an applied operation that asked for its document has it.
   */
  lemma WriteResultsAreSound(valid: Document -> bool, replies: nat -> Reply, c: nat, ops: seq<WriteOp>, limit: nat, i: nat)
    returns (w: Wire)
    requires limit >= 1 && i < |Outcome(WriteJudge(valid), replies, c, ops, limit).values|
    ensures i < |ops|
    ensures var reply := replies(c + BatchOf(limit, i));
            reply.Response? && reply.results.Some? && Some(w) in reply.results.value && w.index == Within(limit, i)
    ensures var v := Outcome(WriteJudge(valid), replies, c, ops, limit).values[i];
            && WriteMeans(valid, w, v)
            && (ops[i].returnDocument && v.status == 2 ==> v.document.Some? && v.document.value.payload != [])
  {
    hide Outcome, Decode, BatchOf, Within, WriteMeans;
    var j, k, x := WriteJudge(valid), BatchOf(limit, i), Within(limit, i);
    EveryResultIsItsCallsAnswer(j, replies, c, ops, limit, i);
    var batch, wire := Batch(ops, limit, k), replies(c + k).results.value;
    PositionOf(limit, i);
    assert batch[x] == ops[i];
    w := DecodedFromWire(j.check, wire, |batch|, x);
    WriteAcceptsIff(valid, batch, Decode(j.check, wire, |batch|).value);
    CheckedIff(valid, w, Outcome(j, replies, c, ops, limit).values[i]);
  }

  /** The same for Delete. */
  lemma DeleteResultsAreSound(replies: nat -> Reply, c: nat, addresses: seq<Op>, limit: nat, i: nat) returns (w: Wire)
    requires limit >= 1 && i < |Outcome(DeleteJudge(), replies, c, addresses, limit).values|
    ensures var reply := replies(c + BatchOf(limit, i));
            reply.Response? && reply.results.Some? && Some(w) in reply.results.value && w.index == Within(limit, i)
    ensures DeleteMeans(w, Outcome(DeleteJudge(), replies, c, addresses, limit).values[i])
  {
    hide Outcome, Decode, BatchOf, Within, DeleteMeans;
    var j, k, x := DeleteJudge(), BatchOf(limit, i), Within(limit, i);
    EveryResultIsItsCallsAnswer(j, replies, c, addresses, limit, i);
    var batch, wire := Batch(addresses, limit, k), replies(c + k).results.value;
    w := DecodedFromWire(j.check, wire, |batch|, x);
    CheckedIff(_ => true, w, Outcome(j, replies, c, addresses, limit).values[i]);
  }

  /** `Client.Write`: nothing is sent unless the whole collection is valid. */
  method Write(net: Network<M.WriteRequest, Reply>, o: Oracle, valid: Document -> bool, limit: int, mode: V.Int32, ops: seq<WriteOp>)
    returns (results: seq<OpResult>, err: Option<ClientError>)
    requires 1 <= limit <= 0x7FFF_FFFF_FFFF_FFFF && |ops| <= 0x1000_0000_0000_0000
    modifies net`requests
    ensures !ValidWrite(o, mode, ops) ==> results == [] && err == Some(Invalid) && net.requests == old(net.requests)
    ensures ValidWrite(o, mode, ops) ==>
              var b := Outcome(WriteJudge(valid), net.replies, |old(net.requests)|, ops, limit);
              Values(results) == b.values && err == b.error && |net.requests| == b.calls
    ensures var m := |net.requests| - |old(net.requests)|;
            && 0 <= m <= |Chunks(ops, limit)|
            && net.requests == old(net.requests) + Built(batch => RequestFor(mode, batch), Chunks(ops, limit)[..m])
    ensures AllFaithful(results, 0) && fresh(Errors(results) - {null})
  {
    hide Outcome, Chunks, ValidWrite, Values, Unshared;
    NothingFaithful();
    var ok := CheckWriteOps(o, mode, ops);
    if !ok {
      SentStart(batch => RequestFor(mode, batch), net.requests, Chunks(ops, limit));
      return [], Some(Invalid);
    }
    results, err := Mutate(net, WriteJudge(valid), batch => RequestFor(mode, batch), limit, ops);
  }

  datatype DeleteRequest = DeleteRequest(mode: V.Int32, addresses: seq<Op>)

  function DeleteJudge(): Judge<Op> { Judge((w: Wire) => CheckDelete(w), (ops: seq<Op>, values: seq<Value>) => true) }

  /** `Client.Delete` */
  method Delete(net: Network<DeleteRequest, Reply>, limit: int, mode: V.Int32, addresses: seq<Op>)
    returns (results: seq<OpResult>, err: Option<ClientError>)
    requires 1 <= limit <= 0x7FFF_FFFF_FFFF_FFFF && |addresses| <= 0x1000_0000_0000_0000
    modifies net`requests
    ensures addresses == [] || !(1 <= mode <= 3) || !ValidAddresses(addresses) ==>
              results == [] && err == Some(Invalid) && net.requests == old(net.requests)
    ensures addresses != [] && 1 <= mode <= 3 && ValidAddresses(addresses) ==>
              var b := Outcome(DeleteJudge(), net.replies, |old(net.requests)|, addresses, limit);
              Values(results) == b.values && err == b.error && |net.requests| == b.calls
    ensures var m := |net.requests| - |old(net.requests)|;
            && 0 <= m <= |Chunks(addresses, limit)|
            && net.requests == old(net.requests) + Built(batch => DeleteRequest(mode, batch), Chunks(addresses, limit)[..m])
    ensures AllFaithful(results, 0) && fresh(Errors(results) - {null})
  {
    hide Outcome, Chunks, ValidAddresses, Values, Unshared;
    NothingFaithful();
    SentStart(batch => DeleteRequest(mode, batch), net.requests, Chunks(addresses, limit));
    var ok := CheckAddresses(addresses);
    if !ok || !(1 <= mode <= 3) {
      return [], Some(Invalid);
    }
    results, err := Mutate(net, DeleteJudge(), batch => DeleteRequest(mode, batch), limit, addresses);
  }

  /** At most once: the operations of the calls made, put together, are a prefix of the caller's collection. */
  lemma SentAtMostOnce(mode: V.Int32, ops: seq<WriteOp>, limit: nat, m: nat)
    requires limit >= 1 && m <= |Chunks(ops, limit)|
    ensures OperationsSent(Built(batch => RequestFor(mode, batch), Chunks(ops, limit)[..m])) <= ToOperations(ops)
    ensures m == |Chunks(ops, limit)| ==>
              OperationsSent(Built(batch => RequestFor(mode, batch), Chunks(ops, limit)[..m])) == ToOperations(ops)
  {
    var parts := Chunks(ops, limit)[..m];
    SentIsConcat(mode, parts);
    ChunksArePrefix(ops, limit, m);
  }

  function OperationsSent(requests: seq<M.WriteRequest>): seq<Option<M.WriteOperation>> {
    if requests == [] then [] else requests[0].fields.operations + OperationsSent(requests[1..])
  }

  lemma {:induction false} SentIsConcat(mode: V.Int32, parts: seq<seq<WriteOp>>)
    ensures OperationsSent(Built(batch => RequestFor(mode, batch), parts)) == ToOperations(Concat(parts))
  {
    var requests := Built(batch => RequestFor(mode, batch), parts);
    if parts != [] {
      assert requests[1..] == Built(batch => RequestFor(mode, batch), parts[1..]);
      SentIsConcat(mode, parts[1..]);
      assert ToOperations(parts[0] + Concat(parts[1..])) == ToOperations(parts[0]) + ToOperations(Concat(parts[1..]));
    }
  }

  function AddressesSent(requests: seq<DeleteRequest>): seq<Op> {
    if requests == [] then [] else requests[0].addresses + AddressesSent(requests[1..])
  }

  lemma {:induction false} DeletedIsConcat(mode: V.Int32, parts: seq<seq<Op>>)
    ensures AddressesSent(Built(batch => DeleteRequest(mode, batch), parts)) == Concat(parts)
  {
    if parts != [] {
      var requests := Built(batch => DeleteRequest(mode, batch), parts);
      assert requests[1..] == Built(batch => DeleteRequest(mode, batch), parts[1..]);
      DeletedIsConcat(mode, parts[1..]);
    }
  }

  /** At most once, for deletes: the addresses of the calls made are a prefix of the caller's, or all of them. */
  lemma DeletedAtMostOnce(mode: V.Int32, addresses: seq<Op>, limit: nat, m: nat)
    requires limit >= 1 && m <= |Chunks(addresses, limit)|
    ensures AddressesSent(Built(batch => DeleteRequest(mode, batch), Chunks(addresses, limit)[..m])) <= addresses
    ensures m == |Chunks(addresses, limit)| ==>
              AddressesSent(Built(batch => DeleteRequest(mode, batch), Chunks(addresses, limit)[..m])) == addresses
  {
    DeletedIsConcat(mode, Chunks(addresses, limit)[..m]);
    ChunksArePrefix(addresses, limit, m);
  }
}
