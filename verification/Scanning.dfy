/**
 `Client.Scan` (`native.go`): one page per call, with admission retries that resend the identical request,
 and a guard that makes every continuation carry documents.
 */
module Scanning {
  import opened Bytes
  import opened Results
  import opened Backoff
  import opened Client
  import opened Headers
  import opened KeyText
  import Uri

  const RESOURCE_EXHAUSTED: int := 8
  const MAX_CURSOR: nat := 65536
  const MAX_BATCH: int := 1000
  const DEFAULT_BATCH: nat := 100

  datatype Command = Command(uri: seq<Byte>, verb: seq<Byte>, path: seq<Byte>, query: seq<Byte>,
                             headers: map<Name, seq<seq<Byte>>>, contentType: seq<Byte>, payload: seq<Byte>)

  datatype CommandMessage = CommandMessage(uri: seq<Byte>, verb: seq<Byte>, path: seq<Byte>, query: seq<Byte>,
                                           headers: seq<Header>, contentType: seq<Byte>, payload: seq<Byte>)

  /** Document paths to include or exclude; both sides of the wire have the same shape. */
  datatype Projection = Projection(fields: seq<seq<Byte>>, exclude: bool)

  datatype ScanMessage = ScanMessage(command: CommandMessage, batchSize: nat, cursor: seq<Byte>, projection: Option<Projection>)

  /** Details attached to a gRPC status. */
  datatype Detail = ErrorInfo(domain: seq<Byte>, reason: seq<Byte>) | OtherDetail

  datatype WirePage = WirePage(documents: seq<Option<Document>>, next: seq<Byte>)

  datatype ScanReply = ScanFailed(code: int, details: seq<Detail>) | ScanAnswer(page: Option<WirePage>)

  datatype Page = Page(documents: seq<Document>, next: seq<Byte>)

  datatype ScanError = BadRequest | ScanRpc(code: int) | ScanCancelled | BadPage

  datatype Scanned = Scanned(page: Page) | ScanErr(error: ScanError)

  /** The detail that names an admission rejection. */
  function Rejection(): Detail { ErrorInfo(Text("sink"), Text("SCAN_ADMISSION_REJECTED")) }

  /** `retryableScanAdmission`: the code, and one detail that names the admission rejection. */
  predicate AdmissionRejected(code: int, details: seq<Detail>) {
    code == RESOURCE_EXHAUSTED && Rejection() in details
  }

  method IsAdmissionRejected(code: int, details: seq<Detail>) returns (r: bool)
    ensures r == AdmissionRejected(code, details)
  {
    hide Text;
    if code != RESOURCE_EXHAUSTED {
      return false;
    }
    for k := 0 to |details|
      invariant Rejection() !in details[..k]
    {
      if details[k].ErrorInfo? && details[k].domain == Text("sink") && details[k].reason == Text("SCAN_ADMISSION_REJECTED") {
        return true;
      }
    }
    assert details[..|details|] == details;
    return false;
  }

  /** In numbers and characters: code 8, domain "sink", reason "SCAN_ADMISSION_REJECTED". */
  lemma AdmissionRejectedIff(code: int, details: seq<Detail>)
    ensures AdmissionRejected(code, details) <==>
            code == 8 && exists k :: 0 <= k < |details| && details[k] == ErrorInfo(Text("sink"), Text("SCAN_ADMISSION_REJECTED"))
  {
    hide Text;
  }

  // ---------------------------------------------------------------- one page

  function Limit(batchSize: nat): nat { if batchSize == 0 then DEFAULT_BATCH else batchSize }

  /** What makes a page acceptable; a continuation without documents is not. */
  predicate GoodPage(valid: Document -> bool, batchSize: nat, p: WirePage) {
    && |p.documents| <= Limit(batchSize) && |p.next| <= MAX_CURSOR
    && (p.next != [] ==> p.documents != [])
    && forall k | 0 <= k < |p.documents| :: p.documents[k].Some? && valid(p.documents[k].value)
  }

  method TakePage(valid: Document -> bool, batchSize: nat, p: WirePage) returns (r: Option<Page>)
    ensures r.Some? <==> GoodPage(valid, batchSize, p)
    ensures r.Some? ==> r.value.next == p.next && |r.value.documents| == |p.documents|
    ensures r.Some? ==> forall k | 0 <= k < |p.documents| :: p.documents[k] == Some(r.value.documents[k])
  {
    if |p.documents| > Limit(batchSize) || |p.next| > MAX_CURSOR || (|p.next| > 0 && |p.documents| == 0) {
      return None;
    }
    var documents: seq<Document> := [];
    for k := 0 to |p.documents|
      invariant |documents| == k && forall i | 0 <= i < k :: p.documents[i] == Some(documents[i]) && valid(documents[i])
    {
      if p.documents[k].None? || !valid(p.documents[k].value) {
        return None;
      }
      documents := documents + [p.documents[k].value];
    }
    return Some(Page(documents, p.next));
  }

  // ---------------------------------------------------------------- building the request

  /** The mime and BSON checks on a command are an arbitrary predicate; the rest is modelled. */
  predicate GoodCommand(native: Command -> bool, c: Command) {
    Uri.Parse(c.uri).Ok? && native(c) && GoodHeaders(c.headers)
  }

  ghost predicate IsMessageOf(m: CommandMessage, c: Command) {
    && m.uri == c.uri && m.verb == c.verb && m.path == c.path && m.query == c.query
    && m.contentType == c.contentType && m.payload == c.payload && Represents(m.headers, c.headers)
  }

  /** A command has one message, however its header map is enumerated. */
  lemma OneMessage(a: CommandMessage, b: CommandMessage, c: Command)
    requires IsMessageOf(a, c) && IsMessageOf(b, c)
    ensures a == b
  {
    OneRepresentation(a.headers, b.headers, c.headers);
  }

  method ToMessage(native: Command -> bool, c: Command, order: seq<Name>) returns (r: Option<CommandMessage>)
    requires Enumerates(order, c.headers)
    ensures r.Some? <==> GoodCommand(native, c)
    ensures r.Some? ==> IsMessageOf(r.value, c)
  {
    var parsed := Uri.ParseUri(c.uri);
    if parsed.Err? || !native(c) {
      return None;
    }
    var headers := ToHeaders(c.headers, order);
    if headers.None? {
      return None;
    }
    return Some(CommandMessage(c.uri, c.verb, c.path, c.query, headers.value, c.contentType, c.payload));
  }

  // ---------------------------------------------------------------- projections

  /** How many octets at the front are one white space character of UTF-8 text, as `unicode.IsSpace` has it. */
  function SpaceLength(s: seq<Byte>): (n: nat)
    ensures n <= |s|
  {
    if s == [] then 0
    else if 0x09 <= s[0] <= 0x0D || s[0] == 0x20 then 1
    else if |s| >= 2 && s[0] == 0xC2 && (s[1] == 0x85 || s[1] == 0xA0) then 2
    else if |s| >= 3 && s[..3] == [0xE1, 0x9A, 0x80] then 3
    else if |s| >= 3 && s[0] == 0xE2 && s[1] == 0x80 && (0x80 <= s[2] <= 0x8A || s[2] == 0xA8 || s[2] == 0xA9 || s[2] == 0xAF) then 3
    else if |s| >= 3 && (s[..3] == [0xE2, 0x81, 0x9F] || s[..3] == [0xE3, 0x80, 0x80]) then 3
    else 0
  }

  /** `strings.TrimSpace(s) == ""`, for valid UTF-8. */
  predicate Blank(s: seq<Byte>)
    decreases |s|
  {
    s == [] || (SpaceLength(s) > 0 && Blank(s[SpaceLength(s)..]))
  }

  predicate GoodPath(f: seq<Byte>) { ValidUtf8(f) && !Blank(f) }

  predicate GoodProjection(p: Option<Projection>) {
    p.Some? ==>
      && (forall k | 0 <= k < |p.value.fields| :: GoodPath(p.value.fields[k]))
      && forall i, j | 0 <= i < j < |p.value.fields| :: p.value.fields[i] != p.value.fields[j]
  }

  /** `Projection.toProto`, whose `seen` map rejects a repeated path. */
  method CheckProjection(p: Option<Projection>) returns (ok: bool)
    ensures ok == GoodProjection(p)
  {
    hide GoodPath;
    if p.None? {
      return true;
    }
    var fields := p.value.fields;
    var seen: set<seq<Byte>> := {};
    for k := 0 to |fields|
      invariant forall i | 0 <= i < k :: GoodPath(fields[i]) && fields[i] in seen
      invariant forall f | f in seen :: exists i | 0 <= i < k :: fields[i] == f
      invariant forall i, j | 0 <= i < j < k :: fields[i] != fields[j]
    {
      if !GoodPath(fields[k]) || fields[k] in seen {
        return false;
      }
      seen := seen + {fields[k]};
    }
    return true;
  }

  // ---------------------------------------------------------------- Scan

  function Repeat<T>(x: T, n: nat): (r: seq<T>)
    ensures |r| == n && forall k | 0 <= k < n :: r[k] == x
  {
    seq(n, _ => x)
  }

  /** What the caller asks for. */
  datatype ScanRequest = ScanRequest(command: Command, batchSize: int, cursor: seq<Byte>, projection: Option<Projection>)

  /** What a page request can be refused for before anything is sent. */
  predicate GoodScan(native: Command -> bool, req: ScanRequest) {
    && 0 <= req.batchSize <= MAX_BATCH && |req.cursor| <= MAX_CURSOR
    && GoodCommand(native, req.command) && GoodProjection(req.projection)
  }

  ghost predicate IsRequest(q: ScanMessage, req: ScanRequest) {
    && IsMessageOf(q.command, req.command) && q.batchSize == req.batchSize
    && q.cursor == req.cursor && q.projection == req.projection
  }

  /**
   What happens outside the client: the reply to each call, whether the wait after it is cut short, whether the
   context has ended before it, the foreign validators, and MaxAttempts.
   */
  datatype ScanEnv = ScanEnv(replies: nat -> ScanReply, cancels: nat -> bool, expired: nat -> bool,
                             native: Command -> bool, valid: Document -> bool, max: nat)

  ghost predicate Rejected(e: ScanEnv, k: nat) {
    e.replies(k).ScanFailed? && AdmissionRejected(e.replies(k).code, e.replies(k).details)
  }

  /** Calls `from` up to `to` are attempts that had to be followed by another: rejected, and neither wait nor context ended. */
  ghost predicate Retried(e: ScanEnv, from: nat, to: nat) {
    forall k: nat | from <= k < to :: Rejected(e, k) && !e.cancels(k) && !e.expired(k)
  }

  /** The reply to call `k` is a good page, and `page` is what it holds. */
  ghost predicate Delivers(e: ScanEnv, k: nat, batchSize: nat, page: Page) {
    && e.replies(k).ScanAnswer? && e.replies(k).page.Some?
    && var w := e.replies(k).page.value;
    && GoodPage(e.valid, batchSize, w) && page.next == w.next && |page.documents| == |w.documents|
    && forall i | 0 <= i < |w.documents| :: w.documents[i] == Some(page.documents[i])
  }

  /** Scanning a page with calls `from` up to `to` ends with `r`. */
  ghost predicate Concludes(e: ScanEnv, req: ScanRequest, from: nat, to: nat, r: Scanned) {
    if !GoodScan(e.native, req) then to == from && r == ScanErr(BadRequest)
    else if r == ScanErr(ScanCancelled) then
      && from <= to < from + e.max
      && ((e.expired(to) && Retried(e, from, to)) ||
          (to > from && Retried(e, from, to - 1) && !e.expired(to - 1) && Rejected(e, to - 1) && e.cancels(to - 1)))
    else
      && from < to <= from + e.max && Retried(e, from, to - 1) && !e.expired(to - 1)
      && match r
         case Scanned(page) => Delivers(e, to - 1, req.batchSize, page)
         case ScanErr(ScanRpc(code)) =>
           e.replies(to - 1).ScanFailed? && e.replies(to - 1).code == code && (to == from + e.max || !Rejected(e, to - 1))
         case ScanErr(BadPage) =>
           && e.replies(to - 1).ScanAnswer?
           && (e.replies(to - 1).page.Some? ==> !GoodPage(e.valid, req.batchSize, e.replies(to - 1).page.value))
         case _ => false
  }

  /** However it ends, all calls before the last were retried, and the context allowed the last. */
  lemma RetriedBefore(e: ScanEnv, req: ScanRequest, from: nat, to: nat, r: Scanned, k: nat)
    requires Concludes(e, req, from, to, r) && from <= k < to
    ensures !e.expired(k) && (k < to - 1 ==> Rejected(e, k) && !e.cancels(k))
  {
    hide GoodScan, GoodPage, Rejected, Delivers;
  }

  /** Two scans of a page from the same call on cannot end at different calls. */
  lemma NotShorter(e: ScanEnv, req: ScanRequest, from: nat, to: nat, r: Scanned, to': nat, r': Scanned)
    requires Concludes(e, req, from, to, r) && Concludes(e, req, from, to', r')
    ensures to >= to'
  {
    hide Retried, GoodScan, GoodPage, AdmissionRejected;
    if to < to' {
      if to > from { RetriedBefore(e, req, from, to', r', to - 1); }
      RetriedBefore(e, req, from, to', r', to);
      assert false;
    }
  }

  /** The scripts leave `Scan` no choice: how many calls a page takes, and how it ends, are determined. */
  lemma OneConclusion(e: ScanEnv, req: ScanRequest, from: nat, to: nat, r: Scanned, to': nat, r': Scanned)
    requires Concludes(e, req, from, to, r) && Concludes(e, req, from, to', r')
    ensures to == to' && r == r'
  {
    NotShorter(e, req, from, to, r, to', r');
    NotShorter(e, req, from, to', r', to, r);
    hide Retried, GoodScan, GoodPage, AdmissionRejected;
    if r.Scanned? && r'.Scanned? {
      forall i | 0 <= i < |r.page.documents| ensures r.page.documents[i] == r'.page.documents[i] {
        assert Some(r.page.documents[i]) == Some(r'.page.documents[i]);
      }
    }
  }

  ghost function ScanEnvOf(net: Network<ScanMessage, ScanReply>, p: Policy, native: Command -> bool, valid: Document -> bool,
                       expired: nat -> bool): (e: ScanEnv)
    requires p.maxAttempts >= 0
    ensures e.replies == net.replies && e.cancels == net.cancels && e.expired == expired && e.native == native && e.valid == valid
    ensures e.max == p.maxAttempts
  {
    ScanEnv(net.replies, net.cancels, expired, native, valid, p.maxAttempts)
  }

  /** A page takes one wait between calls, and one after the last call if the context ends it there. */
  function ScanWaits(r: Scanned, calls: nat): nat {
    if calls == 0 then 0 else if r == ScanErr(ScanCancelled) then calls else calls - 1
  }

  /**
   `Client.Scan`. All calls for a page carry one and the same request, and their number and the result, success
   or error, are what the replies and the context determine.
   */
  method Scan(net: Network<ScanMessage, ScanReply>, p: Policy, native: Command -> bool, valid: Document -> bool,
              expired: nat -> bool, req: ScanRequest, order: seq<Name>)
    returns (r: Scanned, ghost request: ScanMessage)
    requires Normal(p) && Enumerates(order, req.command.headers)
    modifies net
    ensures |net.requests| >= |old(net.requests)|
    ensures net.requests == old(net.requests) + Repeat(request, |net.requests| - |old(net.requests)|)
    ensures GoodScan(native, req) ==> IsRequest(request, req)
    ensures Concludes(ScanEnvOf(net, p, native, valid, expired), req, |old(net.requests)|, |net.requests|, r)
    ensures Scheduled(p, net.rand, old(net.waits), net.waits, ScanWaits(r, |net.requests| - |old(net.requests)|))
  {
    hide Scheduled, Waited, BackoffAt, GoodCommand, GoodProjection, IsMessageOf, GoodPage, AdmissionRejected, Represents;
    ghost var e := ScanEnvOf(net, p, native, valid, expired);
    ghost var from := |net.requests|;
    request := ScanMessage(CommandMessage([], [], [], [], [], [], []), 0, [], None);
    NoWaitsYet(p, net.rand, net.waits);
    WaitedSoFar(p, net.rand, net.waits, net.waits, 0, p.initial);
    if req.batchSize < 0 || req.batchSize > MAX_BATCH || |req.cursor| > MAX_CURSOR {
      return ScanErr(BadRequest), request;
    }
    var command := ToMessage(native, req.command, order);
    if command.None? {
      return ScanErr(BadRequest), request;
    }
    var goodProjection := CheckProjection(req.projection);
    if !goodProjection {
      return ScanErr(BadRequest), request;
    }
    var message := ScanMessage(command.value, req.batchSize, req.cursor, req.projection);
    request := message;
    var backoff := p.initial;
    var attempt := 1;
    var reply := ScanAnswer(None);
    while attempt <= p.maxAttempts
      invariant 1 <= attempt <= p.maxAttempts
      invariant net.requests == old(net.requests) + Repeat(message, attempt - 1)
      invariant Retried(e, from, |net.requests|)
      invariant Waited(p, net.rand, old(net.waits), net.waits, attempt - 1, backoff)
    {
      WaitedSoFar(p, net.rand, old(net.waits), net.waits, attempt - 1, backoff);
      if expired(|net.requests|) {
        return ScanErr(ScanCancelled), request;
      }
      reply := net.Call(message);
      if reply.ScanAnswer? || attempt == p.maxAttempts {
        break;
      }
      var again := IsAdmissionRejected(reply.code, reply.details);
      if !again {
        break;
      }
      var cancelled;
      cancelled, backoff := Pause(net, p, backoff, old(net.waits), attempt - 1);
      if cancelled {
        WaitedSoFar(p, net.rand, old(net.waits), net.waits, attempt, backoff);
        return ScanErr(ScanCancelled), request;
      }
      attempt := attempt + 1;
    }
    if reply.ScanFailed? {
      return ScanErr(ScanRpc(reply.code)), request;
    }
    if reply.page.None? {
      return ScanErr(BadPage), request;
    }
    var page := TakePage(valid, req.batchSize, reply.page.value);
    if page.None? {
      return ScanErr(BadPage), request;
    }
    return Scanned(page.value), request;
  }

  // ---------------------------------------------------------------- the limits, in numbers

  /** A page may hold 1000 documents at most, 100 if the caller does not say; cursors have at most 65536 bytes. */
  lemma GoodPageIff(valid: Document -> bool, batchSize: nat, p: WirePage)
    ensures GoodPage(valid, batchSize, p) <==>
            && |p.documents| <= (if batchSize == 0 then 100 else batchSize) && |p.next| <= 65536
            && (|p.next| > 0 ==> |p.documents| > 0)
            && forall k | 0 <= k < |p.documents| :: p.documents[k].Some? && valid(p.documents[k].value)
  {
  }

  lemma GoodScanIff(native: Command -> bool, req: ScanRequest)
    ensures GoodScan(native, req) <==>
            && 0 <= req.batchSize <= 1000 && |req.cursor| <= 65536
            && Uri.Parse(req.command.uri).Ok? && native(req.command)
            && (forall n | n in req.command.headers :: GoodHeader(n, req.command.headers[n])) && GoodProjection(req.projection)
  {
    hide Uri.Parse, GoodHeader, GoodProjection;
  }

  /** The code points of white space. */
  predicate IsSpace(c: Scalar) {
    9 <= c <= 13 || c == 0x20 || c == 0x85 || c == 0xA0 || c == 0x1680 || 0x2000 <= c <= 0x200A ||
    c == 0x2028 || c == 0x2029 || c == 0x202F || c == 0x205F || c == 0x3000
  }

  lemma SpaceOfScalar(c: Scalar, rest: seq<Byte>)
    ensures SpaceLength(Utf8Bytes(c) + rest) == if IsSpace(c) then |Utf8Bytes(c)| else 0
  {
    var s := Utf8Bytes(c) + rest;
    if 0x800 <= c < 0x1_0000 {
      assert s[..3] == Utf8Bytes(c);
    }
  }

  /** A text is blank exactly when all its code points are white space. */
  lemma {:induction false} BlankIff(cs: seq<Scalar>)
    ensures Blank(Utf8(cs)) <==> forall k | 0 <= k < |cs| :: IsSpace(cs[k])
  {
    if cs != [] {
      hide SpaceLength, IsSpace, Utf8Bytes;
      var rest := Utf8(cs[1..]);
      SpaceOfScalar(cs[0], rest);
      BlankIff(cs[1..]);
      assert (Utf8Bytes(cs[0]) + rest)[|Utf8Bytes(cs[0])|..] == rest;
      assert forall k | 1 <= k < |cs| :: cs[k] == cs[1..][k - 1];
    }
  }

  // ---------------------------------------------------------------- the caller's loop

  /** Pages that were accepted, each but the last with a continuation. */
  ghost predicate Continued(pages: seq<Page>) {
    && (forall k | 0 <= k < |pages| :: pages[k].next != [] ==> pages[k].documents != [])
    && forall k | 0 <= k < |pages| - 1 :: pages[k].next != []
  }

  function AllDocuments(pages: seq<Page>): seq<Document> {
    if pages == [] then [] else AllDocuments(pages[..|pages| - 1]) + pages[|pages| - 1].documents
  }

  /** The documented loop over N delivered documents takes at most N+1 pages. */
  lemma {:induction false} PagesBounded(pages: seq<Page>)
    requires Continued(pages)
    ensures |pages| <= |AllDocuments(pages)| + 1
    ensures pages != [] && pages[|pages| - 1].next != [] ==> |pages| <= |AllDocuments(pages)|
  {
    if |pages| > 1 {
      var front := pages[..|pages| - 1];
      assert forall k | 0 <= k < |front| :: front[k] == pages[k];
      PagesBounded(front);
    } else if |pages| == 1 {
      assert pages[..0] == [];
    }
  }

  /** The request for the page after `pages`: the first one, with the cursor of the last page. */
  function Following(req: ScanRequest, pages: seq<Page>): ScanRequest {
    if pages == [] then req else req.(cursor := pages[|pages| - 1].next)
  }

  /** The call at which page `k` starts, if page `j` ends before call `ends[j]` and the first starts at `base`. */
  function PageStart(base: nat, ends: seq<nat>, k: nat): nat
    requires k <= |ends|
  {
    if k == 0 then base else ends[k - 1]
  }

  /** Page `k` is the server's answer to its own calls, which all carry the one request that continues the pages before it. */
  ghost predicate PageInLog(e: ScanEnv, req: ScanRequest, log: seq<ScanMessage>, base: nat,
                            pages: seq<Page>, asked: seq<ScanMessage>, ends: seq<nat>, k: nat)
    requires k < |pages| && k < |asked| && k < |ends|
  {
    var from, to, next := PageStart(base, ends, k), ends[k], Following(req, pages[..k]);
    && from < to <= |log| && log[from..to] == Repeat(asked[k], to - from) && IsRequest(asked[k], next)
    && Concludes(e, next, from, to, Scanned(pages[k]))
  }

  ghost predicate PagesInLog(e: ScanEnv, req: ScanRequest, log: seq<ScanMessage>, base: nat,
                             pages: seq<Page>, asked: seq<ScanMessage>, ends: seq<nat>)
  {
    && |pages| == |asked| == |ends|
    && forall k: nat | k < |pages| :: PageInLog(e, req, log, base, pages, asked, ends, k)
  }

  /** The calls from `from` on are those of one more page, which ended with an error. */
  ghost predicate ErrorInLog(e: ScanEnv, next: ScanRequest, log: seq<ScanMessage>, from: nat, failed: ScanMessage, error: ScanError) {
    && from <= |log| && log[from..] == Repeat(failed, |log| - from)
    && (GoodScan(e.native, next) ==> IsRequest(failed, next))
    && Concludes(e, next, from, |log|, ScanErr(error))
  }

  lemma OnePageMore(pages: seq<Page>, page: Page)
    requires Continued(pages) && (page.next != [] ==> page.documents != []) && (pages != [] ==> pages[|pages| - 1].next != [])
    ensures Continued(pages + [page])
  {
    var all := pages + [page];
    forall k | 0 <= k < |all| ensures all[k].next != [] ==> all[k].documents != [] {
      assert all[k] == if k < |pages| then pages[k] else page;
    }
    forall k | 0 <= k < |all| - 1 ensures all[k].next != [] {
      assert all[k] == pages[k];
    }
  }

  lemma DocumentsMore(pages: seq<Page>, page: Page)
    ensures AllDocuments(pages + [page]) == AllDocuments(pages) + page.documents
  {
    assert (pages + [page])[..|pages|] == pages;
  }

  lemma NoPages(e: ScanEnv, req: ScanRequest, log: seq<ScanMessage>, base: nat)
    ensures AllDocuments([]) == [] && Continued([]) && PagesInLog(e, req, log, base, [], [], [])
  {
  }

  /** What was said about earlier pages stays true as the log grows, and the new page's calls are its last ones. */
  lemma PageLogged(e: ScanEnv, req: ScanRequest, log: seq<ScanMessage>, log': seq<ScanMessage>, base: nat,
                   pages: seq<Page>, asked: seq<ScanMessage>, ends: seq<nat>, page: Page, request: ScanMessage)
    requires PagesInLog(e, req, log, base, pages, asked, ends) && |log| == PageStart(base, ends, |ends|)
    requires |log'| >= |log| && log' == log + Repeat(request, |log'| - |log|) && IsRequest(request, Following(req, pages))
    requires Concludes(e, Following(req, pages), |log|, |log'|, Scanned(page)) && |log| < |log'|
    ensures PagesInLog(e, req, log', base, pages + [page], asked + [request], ends + [|log'|])
  {
    hide Concludes, IsRequest;
    var pages', asked', ends' := pages + [page], asked + [request], ends + [|log'|];
    forall k: nat | k < |pages'| ensures PageInLog(e, req, log', base, pages', asked', ends', k) {
      assert pages'[..k] == pages[..k];
      assert PageStart(base, ends', k) == PageStart(base, ends, k);
      if k < |pages| {
        assert PageInLog(e, req, log, base, pages, asked, ends, k);
        var from := PageStart(base, ends, k);
        assert log'[from..ends[k]] == log[from..ends[k]];
      } else {
        assert pages[..k] == pages;
        assert log'[|log|..|log'|] == Repeat(request, |log'| - |log|);
      }
    }
  }

  /** An accepted page needed a good request and a call, and continues only with documents. */
  lemma AcceptedPage(e: ScanEnv, req: ScanRequest, from: nat, to: nat, page: Page)
    requires Concludes(e, req, from, to, Scanned(page))
    ensures GoodScan(e.native, req) && from < to && (page.next != [] ==> page.documents != [])
  {
  }

  /**
   The loop of the README: scan, process, continue from the cursor. The log is exactly the calls of the pages in
   order, each page's calls carrying one request with the cursor of the page before, and each page is the one the
   server's reply to the last of its calls delivered. An error is what the calls after the last page lead to.
   However the server answers, there is at most one page more than there are documents, so a loop cut off after
   `n + 1` pages has delivered more than `n` documents. `orders(k)` is how the header map is enumerated for page `k`.
   */
  method ScanLoop(net: Network<ScanMessage, ScanReply>, p: Policy, native: Command -> bool, valid: Document -> bool,
                  expired: nat -> bool, req: ScanRequest, orders: nat -> seq<Name>, n: nat)
    returns (documents: seq<Document>, finished: bool, err: Option<ScanError>,
             ghost pages: seq<Page>, ghost asked: seq<ScanMessage>, ghost ends: seq<nat>, ghost failed: ScanMessage)
    requires Normal(p) && forall k: nat :: Enumerates(orders(k), req.command.headers)
    modifies net
    ensures old(net.requests) <= net.requests
    ensures PagesInLog(ScanEnvOf(net, p, native, valid, expired), req, net.requests, |old(net.requests)|, pages, asked, ends)
    ensures var from := PageStart(|old(net.requests)|, ends, |ends|);
            if err.None? then |net.requests| == from
            else ErrorInLog(ScanEnvOf(net, p, native, valid, expired), Following(req, pages), net.requests, from, failed, err.value)
    ensures finished <==> err.None? && pages != [] && pages[|pages| - 1].next == []
    ensures !finished && err.None? ==> |pages| == n + 1 && |documents| > n
    ensures Continued(pages) && documents == AllDocuments(pages) && |pages| <= |documents| + 1
  {
    hide AllDocuments, Continued, PagesInLog, Concludes, IsRequest, GoodScan, Scheduled, Enumerates;
    ghost var e, base := ScanEnvOf(net, p, native, valid, expired), |net.requests|;
    documents, finished, err, pages, asked, ends := [], false, None, [], [], [];
    failed := ScanMessage(CommandMessage([], [], [], [], [], [], []), 0, [], None);
    var next := req;
    NoPages(e, req, net.requests, base);
    for k := 0 to n + 1
      invariant |pages| == |ends| == k && !finished && err.None?
      invariant old(net.requests) <= net.requests
      invariant PagesInLog(e, req, net.requests, base, pages, asked, ends) && |net.requests| == PageStart(base, ends, k)
      invariant documents == AllDocuments(pages) && Continued(pages)
      invariant next == Following(req, pages) && (k > 0 ==> pages[k - 1].next != [])
    {
      PagesBounded(pages);
      ghost var log := net.requests;
      ghost var request;
      var r;
      r, request := Scan(net, p, native, valid, expired, next, orders(k));
      if r.ScanErr? {
        LogOnlyGrows(e, req, log, net.requests, base, pages, asked, ends);
        failed := request;
        err := Some(r.error);
        return;
      }
      AcceptedPage(e, next, |log|, |net.requests|, r.page);
      PageLogged(e, req, log, net.requests, base, pages, asked, ends, r.page, request);
      OnePageMore(pages, r.page);
      DocumentsMore(pages, r.page);
      pages, asked, ends := pages + [r.page], asked + [request], ends + [|net.requests|];
      documents := documents + r.page.documents;
      if |r.page.next| == 0 {
        PagesBounded(pages);
        finished := true;
        return;
      }
      next := next.(cursor := r.page.next);
    }
    PagesBounded(pages);
  }

  lemma LogOnlyGrows(e: ScanEnv, req: ScanRequest, log: seq<ScanMessage>, log': seq<ScanMessage>, base: nat,
                     pages: seq<Page>, asked: seq<ScanMessage>, ends: seq<nat>)
    requires PagesInLog(e, req, log, base, pages, asked, ends) && log <= log'
    ensures PagesInLog(e, req, log', base, pages, asked, ends)
  {
    hide Concludes, IsRequest;
    forall k: nat | k < |pages| ensures PageInLog(e, req, log', base, pages, asked, ends, k) {
      assert PageInLog(e, req, log, base, pages, asked, ends, k);
      var from := PageStart(base, ends, k);
      assert log'[from..ends[k]] == log[from..ends[k]];
    }
  }
}
