/**
 From response bytes to the caller's results: what a server that lists its results in any order, and even in
 several pieces, makes the read decoder see.
 */
module Responses {
  import opened Bytes
  import V = Varint
  import W = WireFormat
  import M = Messages
  import RM = ReadMessages
  import RRT = ReadRoundTrip
  import RU = ReadUnmarshal
  import opened Results
  import opened Slots

  // ---------------------------------------------------------------- what the accessors give

  function DocumentOf(d: Option<M.Document>): Option<Document> {
    if d.None? then None else Some(Document(d.value.fields.encoding, d.value.fields.payload))
  }
  function RevisionOf(r: Option<RM.RevisionToken>): Option<seq<Byte>> {
    if r.None? then None else Some(r.value.fields.data)
  }
  function FailureOf(f: Option<RM.Failure>): Option<Failure> {
    if f.None? then None else Some(Failure(f.value.fields.code, f.value.fields.message, f.value.fields.retryable))
  }

  function WireOf(r: RM.ReadResult): (w: Wire)
    ensures Sendable(w)
  {
    var f := r.fields;
    Wire(f.index, f.status, DocumentOf(f.document), RevisionOf(f.revision), FailureOf(f.failure))
  }

  /** The results of a message, as the decoder of `results.go` sees them. */
  function WiresOf(m: RM.ReadResponse): (ws: seq<Option<Wire>>)
    ensures |ws| == |m.fields.results|
  {
    seq(|m.fields.results|, k requires 0 <= k < |m.fields.results| =>
      if m.fields.results[k].None? then None else Some(WireOf(m.fields.results[k].value)))
  }

  /** Field by field. */
  lemma WireFields(r: RM.ReadResult)
    ensures var w, f := WireOf(r), r.fields;
            && w.index == f.index && w.status == f.status
            && (w.document.Some? <==> f.document.Some?) && (w.revision.Some? <==> f.revision.Some?) && (w.failure.Some? <==> f.failure.Some?)
            && (f.document.Some? ==>
                  w.document.value.encoding == f.document.value.fields.encoding && w.document.value.payload == f.document.value.fields.payload)
            && (f.revision.Some? ==> w.revision.value == f.revision.value.fields.data)
            && (f.failure.Some? ==>
                  && w.failure.value.code == f.failure.value.fields.code && w.failure.value.message == f.failure.value.fields.message
                  && w.failure.value.retryable == f.failure.value.fields.retryable)
  {
  }

  // ---------------------------------------------------------------- what a server sends

  predicate IsInt32(x: int) { -0x8000_0000 <= x < 0x8000_0000 }

  /** A result that the wire format can carry: a uint32 index and int32 enums. */
  predicate Sendable(w: Wire) {
    && w.index < V.TWO_32 && IsInt32(w.status)
    && (w.document.Some? ==> IsInt32(w.document.value.encoding))
    && (w.failure.Some? ==> IsInt32(w.failure.value.code))
  }

  function MessageOf(w: Wire): (r: RM.ReadResult)
    requires Sendable(w)
    ensures WireOf(r) == w && RRT.ValidResult(r)
  {
    W.Msg(RM.ReadResultFields(
            w.index, w.status,
            if w.document.None? then None else Some(W.Msg(M.DocumentFields(w.document.value.encoding, w.document.value.payload), [])),
            if w.revision.None? then None else Some(W.Msg(RM.RevisionFields(w.revision.value), [])),
            if w.failure.None? then None
            else Some(W.Msg(RM.FailureFields(w.failure.value.code, w.failure.value.message, w.failure.value.retryable), []))),
          [])
  }

  predicate AllSendable(ws: seq<Wire>) { forall k | 0 <= k < |ws| :: Sendable(ws[k]) }

  function ResponseOf(ws: seq<Wire>): (m: RM.ReadResponse)
    requires AllSendable(ws)
    ensures |m.fields.results| == |ws|
  {
    W.Msg(RM.ReadResponseFields(seq(|ws|, k requires 0 <= k < |ws| => Some(MessageOf(ws[k])))), [])
  }

  function Present(ws: seq<Wire>): (r: seq<Option<Wire>>)
    ensures |r| == |ws| && AllPresent(r)
  {
    seq(|ws|, k requires 0 <= k < |ws| => Some(ws[k]))
  }

  /** The results a byte string stands for, if it decodes as a response. */
  function Received(data: seq<Byte>): Option<seq<Option<Wire>>> {
    match RM.DecodeResponse(RM.NEW_RESPONSE, data)
    case Err(_) => None
    case Ok(m) => Some(WiresOf(m))
  }

  function SentBytes(ws: seq<Wire>): seq<Byte>
    requires AllSendable(ws)
  {
    RM.ResponseBytes(ResponseOf(ws))
  }

  // ---------------------------------------------------------------- the theorems

  lemma ResponseIsValid(ws: seq<Wire>)
    requires AllSendable(ws)
    ensures RRT.ValidResponse(ResponseOf(ws)) && WiresOf(ResponseOf(ws)) == Present(ws)
  {
  }

  /** The decoder sees exactly the results the server sent, in the order sent. */
  lemma ResponseSurvivesTheWire(ws: seq<Wire>)
    requires AllSendable(ws) && |SentBytes(ws)| <= 0x7FFF_FFFF_FFFF_FFFF
    ensures Received(SentBytes(ws)) == Some(Present(ws))
  {
    hide RM.DecodeResponse, RM.ResponseBytes;
    ResponseIsValid(ws);
    RRT.ResponseRoundTripIff(ResponseOf(ws));
  }

  /** A response sent in two pieces is the response with both pieces' results. */
  lemma PiecesAddUp(a: seq<Wire>, b: seq<Wire>)
    requires AllSendable(a) && AllSendable(b) && |SentBytes(a)| <= 0x7FFF_FFFF_FFFF_FFFF && |SentBytes(b)| <= 0x7FFF_FFFF_FFFF_FFFF
    ensures Received(SentBytes(a) + SentBytes(b)) == Some(Present(a + b))
  {
    hide RM.ResponseBytes;
    ResponseIsValid(a);
    ResponseIsValid(b);
    RRT.ResponseRoundTripIff(ResponseOf(a));
    RRT.ResponseOverResponse(ResponseOf(a), ResponseOf(b));
    W.RunConcat(RM.ResponseSchema, RM.ApplyResponse, RM.NEW_RESPONSE, SentBytes(a), SentBytes(b));
    MergedWires(a, b);
  }

  lemma MergedWires(a: seq<Wire>, b: seq<Wire>)
    requires AllSendable(a) && AllSendable(b)
    ensures WiresOf(RRT.MergeResponse(ResponseOf(a), ResponseOf(b))) == Present(a + b)
  {
    hide MessageOf, WireOf;
    var m := RRT.MergeResponse(ResponseOf(a), ResponseOf(b));
    forall k | 0 <= k < |a + b| ensures WiresOf(m)[k] == Some((a + b)[k]) {
      assert m.fields.results[k] == if k < |a| then Some(MessageOf(a[k])) else Some(MessageOf(b[k - |a|]));
    }
  }

  /**
   End to end: if a server's results, sent in one order, are accepted for `count` operations, then sent in any
   other order their bytes decode to the same values, and those hold each result at its own index.
   */
  lemma AnyOrderOnTheWire(check: Checker, a: seq<Wire>, b: seq<Wire>, count: nat)
    requires AllSendable(a) && AllSendable(b) && |SentBytes(a)| <= 0x7FFF_FFFF_FFFF_FFFF && |SentBytes(b)| <= 0x7FFF_FFFF_FFFF_FFFF
    requires multiset(a) == multiset(b) && Decode(check, Present(a), count).Some?
    ensures Received(SentBytes(a)).Some? && Received(SentBytes(b)).Some?
    ensures Decode(check, Received(SentBytes(b)).value, count) == Decode(check, Received(SentBytes(a)).value, count)
    ensures var values := Decode(check, Received(SentBytes(b)).value, count);
            values.Some? && |values.value| == count &&
            forall k | 0 <= k < |a| :: a[k].index < count && check(a[k]) == Some(values.value[a[k].index])
  {
    hide Received, SentBytes, Decode;
    ResponseSurvivesTheWire(a);
    ResponseSurvivesTheWire(b);
    PresentKeepsMultiset(a, b);
    OrderIrrelevant(check, Present(a), Present(b), count);
    forall k | 0 <= k < |a|
      ensures a[k].index < count && check(a[k]) == Some(Decode(check, Present(a), count).value[a[k].index])
    {
      assert Present(a)[k] == Some(a[k]);
    }
  }

  lemma {:induction false} PresentCounts(ws: seq<Wire>, w: Option<Wire>)
    ensures multiset(Present(ws))[w] == if w.None? then 0 else multiset(ws)[w.value]
  {
    if ws != [] {
      var front, last := ws[..|ws| - 1], ws[|ws| - 1];
      PresentCounts(front, w);
      assert ws == front + [last];
      assert Present(ws) == Present(front) + [Some(last)];
    }
  }

  lemma PresentKeepsMultiset(a: seq<Wire>, b: seq<Wire>)
    requires multiset(a) == multiset(b)
    ensures multiset(Present(a)) == multiset(Present(b))
  {
    forall w: Option<Wire> ensures multiset(Present(a))[w] == multiset(Present(b))[w] {
      PresentCounts(a, w);
      PresentCounts(b, w);
    }
  }

  /** Bytes to results: the index loops of the codec, then the decoder with its `seen` array. */
  method Receive(check: Checker, data: seq<Byte>, count: nat) returns (r: Option<array<OpResult>>)
    requires |data| <= 0x7FFF_FFFF_FFFF_FFFF
    ensures r.Some? <==> Received(data).Some? && Decode(check, Received(data).value, count).Some?
    ensures r.Some? ==> fresh(r.value) && Decode(check, Received(data).value, count) == Some(Values(r.value[..]))
    ensures r.Some? ==> fresh(Errors(r.value[..]) - {null}) && AllFaithful(r.value[..], 0) && Unshared(r.value[..])
  {
    hide RM.DecodeResponse, Decode, Values, Unshared;
    var m := RU.UnmarshalResponse(RM.NEW_RESPONSE, data);
    if m.Err? {
      return None;
    }
    r := Slots.DecodeResponse(check, Some(WiresOf(m.value)), count);
  }
}
