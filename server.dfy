/**
 * The request engine of http_server.c: receiving one request into the
 * 1400-byte rxbuf, sending a response with send_all, and the route dispatch
 * of http_srv_handle_once.
 *
 * The receive is specified by a state machine fed with the receive results
 * the engine observes, in order (`Run`). The header phase appends each chunk
 * to what it holds until CR LF CR LF shows up, the request line and the
 * Content-Length are read from the buffer, and a body phase tops the body up
 * to the declared length. `HttpServer.RecvRequest` is proved to follow the
 * machine step by step, with rxbuf holding the machine's bytes followed by
 * zeros; the lemmas say what the machine guarantees.
 *
 * `HttpServer.HandleOnce` serves one client: the listen outcome, one
 * receive, the first matching route (whose handler is a foreign call that
 * only reports its result) or the 404 response, and the close.
 */
module Server {
  import opened Bytes
  import opened Transport
  import opened RequestLine
  import opened Headers
  import Response
  import Routing

  /** HTTP_SRV_RX_BUFFER_SIZE */
  const RX_SIZE: nat := 1400

  /** Why http_srv_recv_request gives HTTP_ERR (each is its own log message in the engine). */
  datatype Cause =
    | ClosedMidHeaders   // 0 or timeout once some bytes are buffered
    | RecvFailed         // a negative receive code in the header phase
    | HeadersTooBig      // 1399 bytes buffered and no CR LF CR LF among them
    | MalformedLine      // no CR LF in the C string at the start of rxbuf
    | BadRequestLine     // http_parse_request_line failed
    | BodyTooLarge       // the declared body does not fit behind the header block
    | BodyRecvFailed     // a receive <= 0 while the body is topped up

  /**
   * http_srv_request_t: the parsed request line, and the header and body
   * views as offsets into rxbuf.
   */
  datatype Request = Request(
    line: Line,
    headersStart: nat, headersLen: nat,
    bodyStart: nat, bodyLen: nat,
    contentLength: nat)

  /** What one call of http_srv_recv_request reports. */
  datatype Received = NoRequest | Failure(cause: Cause) | Got(req: Request)

  /**
   * The engine between two receives. `data` is what rxbuf holds in front of
   * its zeros; `rxlen` is hs->rxlen.
   */
  datatype RxState =
    | Reading(data: bytes)
    | Filling(req: Request, data: bytes, rxlen: nat, needed: nat)
    | Finished(outcome: Received, data: bytes, rxlen: nat)

  /**
   * The capacity check of http_srv_recv_request, done on unbounded integers:
   * the header block and the declared body must fit in rxbuf.
   */
  predicate BodyExceedsBuffer(hdrEnd: nat, contentLength: nat) {
    hdrEnd + contentLength > RX_SIZE
  }

  /**
   * The same check as the engine evaluates it: the sum is a uint32_t and
   * wraps.
   */
  predicate BodyExceedsBufferAsWritten(hdrEnd: nat, contentLength: nat) {
    (hdrEnd + contentLength) % U32_LIMIT > RX_SIZE
  }

  /**
   * The steps that follow a complete header block of `data` (which rxbuf
   * holds, then zeros): strstr for the first CR LF, the NUL written over its
   * CR, the request line, the views and Content-Length.
   */
  function Complete(data: bytes): (s: RxState)
    requires |data| < RX_SIZE && TerminatorEnd(data) >= 4
    ensures Consistent(s) && !s.Reading?
    ensures s.Finished? ==> s.outcome != NoRequest
  {
    match LineEnd(data + Zeros(RX_SIZE - |data|), 0)
    case None => Finished(Failure(MalformedLine), data, |data|)
    case Some(crlf) =>
      FirstLineInHead(data, crlf);
      Cut(data, crlf)
  }

  /** With the request line's CR LF at crlf: the NUL over the CR, the request line, the views and Content-Length. */
  function Cut(data: bytes, crlf: nat): (s: RxState)
    requires |data| < RX_SIZE && 4 <= TerminatorEnd(data) && crlf + 4 <= TerminatorEnd(data)
    ensures Consistent(s) && !s.Reading?
    ensures s.Finished? ==> s.outcome != NoRequest
  {
    var data' := data[crlf := NUL];
    var hdrEnd := TerminatorEnd(data);
    match ParseRequestLine(data[..crlf])
    case None => Finished(Failure(BadRequestLine), data', |data|)
    case Some(line) => Admit(Parsed(data, crlf, line), data')
  }

  /** The request set up from the request line and the header block of data, the line's CR LF at crlf. */
  function Parsed(data: bytes, crlf: nat, line: Line): (req: Request)
    requires |data| < RX_SIZE && 4 <= TerminatorEnd(data) && crlf + 4 <= TerminatorEnd(data)
    ensures req.headersStart + req.headersLen == req.bodyStart == TerminatorEnd(data)
    ensures req.bodyStart + req.bodyLen == |data|
  {
    var hdrEnd := TerminatorEnd(data);
    var cl := ContentLengthOf(data[crlf := NUL] + Zeros(RX_SIZE - |data|), crlf + 2, hdrEnd);
    Request(line, crlf + 2, hdrEnd - (crlf + 2), hdrEnd, |data| - hdrEnd, cl)
  }

  /**
   * The body decision: a body already as long as declared is accepted, one
   * that cannot fit behind the header block is refused, and otherwise the
   * engine goes on to top it up.
   */
  function Admit(req: Request, data: bytes): (s: RxState)
    requires Views(req) && |data| == req.bodyStart + req.bodyLen && |data| < RX_SIZE
    ensures Consistent(s) && !s.Reading?
    ensures s.Finished? ==> s.outcome != NoRequest
  {
    if req.contentLength <= req.bodyLen then Finished(Got(req), data, |data|)
    else if BodyExceedsBuffer(req.bodyStart, req.contentLength) then Finished(Failure(BodyTooLarge), data, |data|)
    else Filling(req, data, |data|, req.contentLength - req.bodyLen)
  }

  /**
   * One receive result fed to the engine. None when a chunk is longer than
   * the engine asked for, which the transport never delivers, or when the
   * engine has already finished.
   */
  function Step(s: RxState, r: RecvResult): Option<RxState> {
    match s
    case Reading(data) =>
      (match r
       case NoData => Some(Finished(if data == [] then NoRequest else Failure(ClosedMidHeaders), data, |data|))
       case Failed => Some(Finished(Failure(RecvFailed), data, |data|))
       case Data(c) =>
         var d := data + c;
         if c == [] then Some(Finished(if data == [] then NoRequest else Failure(ClosedMidHeaders), data, |data|))
         else if |d| > RX_SIZE - 1 then None
         else if TerminatorEnd(d) >= 0 then Some(Complete(d))
         else if |d| == RX_SIZE - 1 then Some(Finished(Failure(HeadersTooBig), d, |d|))
         else Some(Reading(d)))
    case Filling(req, data, rxlen, needed) =>
      (match r
       case Data(c) =>
         if c == [] then Some(Finished(Failure(BodyRecvFailed), data, rxlen))
         else if |c| > needed then None
         else
           var req' := req.(bodyLen := req.bodyLen + |c|);
           if |c| == needed then Some(Finished(Got(req'), data + c, rxlen))
           else Some(Filling(req', data + c, rxlen, needed - |c|))
       case _ => Some(Finished(Failure(BodyRecvFailed), data, rxlen)))
    case Finished(_, _, _) => None
  }

  /** The engine after the receive results rs, starting from a cleared buffer. */
  function Run(rs: seq<RecvResult>): Option<RxState> {
    if rs == [] then Some(Reading([]))
    else match Run(rs[..|rs| - 1])
      case None => None
      case Some(s) => Step(s, rs[|rs| - 1])
  }

  lemma RunSnoc(rs: seq<RecvResult>, r: RecvResult)
    ensures Run(rs + [r]) == if Run(rs).None? then None else Step(Run(rs).value, r)
  {
    assert (rs + [r])[..|rs|] == rs;
  }

  /** strstr from the start of a buffer that holds a header block finds a CR LF no later than the block's own. */
  lemma FirstLineInHead(data: bytes, crlf: nat)
    requires |data| < RX_SIZE && TerminatorEnd(data) >= 4
    requires LineEnd(data + Zeros(RX_SIZE - |data|), 0) == Some(crlf)
    ensures crlf + 4 <= TerminatorEnd(data)
  {
    var i := TerminatorEnd(data) - 4;
    TerminatorBytes(data, i);
    PaddedCrLf(data, RX_SIZE - |data|, i);
    LineEndNoLater(data + Zeros(RX_SIZE - |data|), 0, i);
  }

  lemma CutRefused(data: bytes, crlf: nat)
    requires |data| < RX_SIZE && 4 <= TerminatorEnd(data) && crlf + 4 <= TerminatorEnd(data)
    requires ParseRequestLine(data[..crlf]).None?
    ensures Cut(data, crlf) == Finished(Failure(BadRequestLine), data[crlf := NUL], |data|)
  {
  }

  /** Cut, given the request line and the Content-Length read from a buffer holding data with the NUL. */
  lemma CutAdmitted(data: bytes, crlf: nat, buf: bytes, req: Request, data': bytes)
    requires |data| < RX_SIZE && 4 <= TerminatorEnd(data) && crlf + 4 <= TerminatorEnd(data)
    requires data' == data[crlf := NUL] && buf == data' + Zeros(RX_SIZE - |data|)
    requires ParseRequestLine(data[..crlf]) == Some(req.line)
    requires req.headersStart == crlf + 2 && req.bodyStart == TerminatorEnd(data)
    requires req.headersLen == req.bodyStart - req.headersStart && req.bodyLen == |data| - req.bodyStart
    requires req.contentLength == ContentLengthOf(buf, crlf + 2, TerminatorEnd(data))
    ensures Views(req) && Cut(data, crlf) == Admit(req, data')
  {
    assert Parsed(data, crlf, req.line) == req;
  }

  lemma TerminatorBytes(data: bytes, i: int)
    requires TerminatorEnd(data) >= 4 && i == TerminatorEnd(data) - 4
    ensures 0 <= i && i + 1 < |data| && data[i] == CR && data[i + 1] == LF
  {
    var w := data[i..i + 4];
    assert w == CRLFCRLF;
    assert data[i] == w[0] && data[i + 1] == w[1];
  }

  /** Padding with zeros keeps a CR LF where it was. */
  lemma PaddedCrLf(data: bytes, n: nat, i: nat)
    requires i + 1 < |data| && data[i] == CR && data[i + 1] == LF
    ensures var buf := data + Zeros(n); i + 1 < |buf| && buf[i] == CR && buf[i + 1] == LF
  {
  }

  /** strstr for CR LF from p stops at or before a CR LF at i. */
  lemma {:induction false} LineEndNoLater(buf: bytes, p: nat, i: nat)
    requires p <= i && i + 1 < |buf| && buf[i] == CR && buf[i + 1] == LF
    ensures LineEnd(buf, p).Some? ==> LineEnd(buf, p).value <= i
    decreases i - p
  {
    if p < i && buf[p] != NUL && !(buf[p] == CR && buf[p + 1] == LF) {
      LineEndNoLater(buf, p + 1, i);
    }
  }

  // ---------------------------------------------------------------------
  // What the receive machine guarantees
  // ---------------------------------------------------------------------

  /** The header and body views of a request as the engine sets them up, and the bounded request-line fields. */
  predicate Views(req: Request) {
    2 <= req.headersStart && req.headersStart + req.headersLen == req.bodyStart && 4 <= req.bodyStart
    && |req.line.methodName| <= METHOD_CAP && |req.line.path| <= PATH_CAP && |req.line.query| <= QUERY_CAP
  }

  /**
   * What holds in every state the engine reaches: the header phase stays
   * below 1399 bytes, a body being topped up and a received body lie inside
   * rxbuf, and a received body is at least as long as the declared one.
   */
  predicate Consistent(s: RxState) {
    match s
    case Reading(d) => |d| < RX_SIZE - 1
    case Filling(req, d, n, needed) =>
      Views(req) && n < RX_SIZE && 0 < needed && req.bodyLen + needed == req.contentLength
      && |d| == req.bodyStart + req.bodyLen && req.bodyStart + req.contentLength <= RX_SIZE
    case Finished(o, d, n) =>
      n < RX_SIZE && |d| <= RX_SIZE
      && (o.Got? ==> Views(o.req) && |d| == o.req.bodyStart + o.req.bodyLen && o.req.contentLength <= o.req.bodyLen)
      && (o == NoRequest ==> d == [] && n == 0)
  }

  /**
   * The two capacity checks agree whenever the sum does not wrap, which
   * covers every Content-Length below 2^32 - 1400.
   */
  lemma CapacityChecksAgree(hdrEnd: nat, contentLength: nat)
    requires hdrEnd + contentLength < U32_LIMIT
    ensures BodyExceedsBufferAsWritten(hdrEnd, contentLength) <==> BodyExceedsBuffer(hdrEnd, contentLength)
  {
  }

  /**
   * The check as written lets a huge declared body through. In the request
   * "GET / HTTP/1.1" CR LF "Content-Length: -1" CR LF CR LF the header block
   * ends at offset 38, the header line reads as 4294967295, and the wrapped
   * sum is 37, so the body loop would store up to 4294967295 - bodyLen bytes
   * behind offset 38 of the 1400-byte rxbuf.
   */
  lemma WrappedLengthPasses()
    ensures TerminatorEnd(Lines([GET_LINE, MINUS_ONE_LENGTH]) + CRLF) == 38
    ensures ToU32(Atoi("-1")) == 0xFFFF_FFFF
    ensures (38 + 0xFFFF_FFFF) % U32_LIMIT == 37
    ensures !BodyExceedsBufferAsWritten(38, 0xFFFF_FFFF) && 38 + 0xFFFF_FFFF > RX_SIZE
  {
    var s: bytes := "-1";
    assert s[1..] == "1" && DigitRun(s[1..]) == 1;
    assert s[1..][..1] == "1";
    ExampleHeadEnd();
  }

  lemma ExampleHeadEnd()
    ensures TerminatorEnd(Lines([GET_LINE, MINUS_ONE_LENGTH]) + CRLF) == 38
  {
    var ls: seq<bytes> := [GET_LINE, MINUS_ONE_LENGTH];
    assert ls[1..][1..] == [];
    assert PlainLine(GET_LINE) && PlainLine(MINUS_ONE_LENGTH);
    assert PlainLines(ls);
    assert Lines(ls[1..]) == MINUS_ONE_LENGTH + CRLF + Lines([]);
    assert |Lines(ls)| == 36;
    assert Lines(ls) + CRLF == Lines(ls) + (CRLF + []);
    TerminatorOfHead(ls, []);
  }

  /** The two lines of the example request. */
  const GET_LINE: bytes := "GET / HTTP/1.1"
  const MINUS_ONE_LENGTH: bytes := "Content-Length: -1"

  /** With the unbounded check, a body being topped up always ends inside rxbuf. */
  lemma FilledBodyFits(rs: seq<RecvResult>)
    requires Run(rs).Some? && Run(rs).value.Filling?
    ensures var s := Run(rs).value; s.req.bodyStart + s.req.bodyLen + s.needed <= RX_SIZE
  {
    RunConsistent(rs);
  }

  lemma StepConsistent(s: RxState, r: RecvResult)
    requires Consistent(s)
    ensures Step(s, r).Some? ==> Consistent(Step(s, r).value)
  {
  }

  /** Every state the engine reaches is consistent. */
  lemma {:induction false} RunConsistent(rs: seq<RecvResult>)
    ensures Run(rs).Some? ==> Consistent(Run(rs).value)
  {
    if rs != [] {
      RunConsistent(rs[..|rs| - 1]);
      if Run(rs[..|rs| - 1]).Some? {
        StepConsistent(Run(rs[..|rs| - 1]).value, rs[|rs| - 1]);
      }
    }
  }

  /** A receive that carried bytes. */
  predicate Carried(r: RecvResult) {
    r.Data? && r.chunk != []
  }

  /** While the header block is incomplete, the buffer holds exactly the bytes received, at least one per receive. */
  lemma {:induction false} ReadingHoldsPayload(rs: seq<RecvResult>)
    requires Run(rs).Some? && Run(rs).value.Reading?
    ensures Run(rs).value.data == Payload(rs) && |rs| <= |Payload(rs)|
  {
    if rs != [] {
      var pre, last := rs[..|rs| - 1], rs[|rs| - 1];
      RunToReading(rs);
      ReadingHoldsPayload(pre);
      assert rs == pre + [last];
      PayloadAppend(pre, [last]);
      assert Payload([last]) == last.chunk + Payload([]);
    }
  }

  /** The run before a receive that leaves the header phase going was in it too. */
  lemma RunToReading(rs: seq<RecvResult>)
    requires rs != [] && Run(rs).Some? && Run(rs).value.Reading?
    ensures var pre := Run(rs[..|rs| - 1]);
      && pre.Some? && pre.value.Reading? && Carried(rs[|rs| - 1])
      && Run(rs).value.data == pre.value.data + rs[|rs| - 1].chunk
  {
    StepToReading(Run(rs[..|rs| - 1]).value, rs[|rs| - 1]);
  }

  /** Only a receive that carries bytes keeps the header phase going. */
  lemma StepToReading(s: RxState, r: RecvResult)
    requires Step(s, r).Some? && Step(s, r).value.Reading?
    ensures s.Reading? && Carried(r) && Step(s, r).value.data == s.data + r.chunk
  {
  }

  /** http_srv_recv_request reports NO_REQUEST exactly when its first receive brings nothing. */
  lemma NoRequestIffSilent(rs: seq<RecvResult>)
    ensures (Run(rs).Some? && Run(rs).value.Finished? && Run(rs).value.outcome == NoRequest)
        <==> |rs| == 1 && !rs[0].Failed? && !Carried(rs[0])
  {
    if Run(rs).Some? && Run(rs).value.Finished? && Run(rs).value.outcome == NoRequest {
      var pre := rs[..|rs| - 1];
      assert Run(pre).Some? && Run(pre).value.Reading?;
      ReadingHoldsPayload(pre);
    }
    if |rs| == 1 {
      assert rs[..0] == [];
    }
  }

  /**
   * The request was set up from the complete header block h, as the engine
   * sets it up: the header view runs from just after the first CR LF of the
   * buffer to the end of the block, the body view starts there, the request
   * line is the text before that CR LF, and Content-Length is read from the
   * header view of the buffer with the NUL over the CR. h with that NUL is
   * what d starts with.
   */
  ghost predicate HeadIn(req: Request, h: bytes, d: bytes) {
    && |h| < RX_SIZE && TerminatorEnd(h) >= 4
    && LineEnd(h + Zeros(RX_SIZE - |h|), 0).Some?
    && var crlf := LineEnd(h + Zeros(RX_SIZE - |h|), 0).value;
      && crlf + 4 <= TerminatorEnd(h)
      && ParseRequestLine(h[..crlf]) == Some(req.line)
      && req.headersStart == crlf + 2
      && req.headersLen == TerminatorEnd(h) - (crlf + 2)
      && req.bodyStart == TerminatorEnd(h)
      && req.contentLength == ContentLengthOf(h[crlf := NUL] + Zeros(RX_SIZE - |h|), crlf + 2, TerminatorEnd(h))
      && h[crlf := NUL] <= d
  }

  /** req was set up from some header block that d starts with. */
  ghost predicate HasHead(req: Request, d: bytes) {
    exists h :: HeadIn(req, h, d)
  }

  /**
   * rxbuf's data d for a request whose header block completed after n
   * received bytes: d is the received bytes p with the NUL over the CR that
   * ends the request line, and the first n bytes of p are the block req was
   * set up from.
   */
  ghost predicate HoldsReceived(req: Request, d: bytes, n: nat, p: bytes) {
    && 2 <= req.headersStart && req.headersStart - 2 < n <= |p|
    && d == p[req.headersStart - 2 := NUL]
    && exists h :: h == p[..n] && HeadIn(req, h, d)
  }

  /** Every state holds the bytes p received so far, and every request it holds was set up from them. */
  ghost predicate Traced(s: RxState, p: bytes) {
    match s
    case Reading(d) => d == p
    case Filling(req, d, n, _) => HoldsReceived(req, d, n, p)
    case Finished(o, d, n) => o.Got? ==> HoldsReceived(o.req, d, n, p)
  }

  /** The request the header block sets up is traced to that block, which is all that was received. */
  lemma CompleteTraced(data: bytes)
    requires |data| < RX_SIZE && TerminatorEnd(data) >= 4
    ensures Traced(Complete(data), data)
  {
    var buf := data + Zeros(RX_SIZE - |data|);
    if LineEnd(buf, 0).Some? {
      var crlf := LineEnd(buf, 0).value;
      FirstLineInHead(data, crlf);
      var line := ParseRequestLine(data[..crlf]);
      if line.Some? {
        var req := Parsed(data, crlf, line.value);
        assert HeadIn(req, data, data[crlf := NUL]);
        assert data[..|data|] == data;
      }
    }
  }

  /** A chunk in the body phase grows the data behind the block and keeps the request traced. */
  lemma FillTraced(req: Request, d: bytes, c: bytes, h: bytes)
    requires HeadIn(req, h, d)
    ensures HeadIn(req.(bodyLen := req.bodyLen + |c|), h, d + c)
  {
    var crlf := LineEnd(h + Zeros(RX_SIZE - |h|), 0).value;
    assert h[crlf := NUL] <= d + c by {
      assert (d + c)[..|h[crlf := NUL]|] == d[..|h[crlf := NUL]|];
    }
  }

  /** ... and the data stays the bytes received, with the NUL over the CR. */
  lemma FillHolds(req: Request, d: bytes, n: nat, p: bytes, c: bytes)
    requires HoldsReceived(req, d, n, p)
    ensures HoldsReceived(req.(bodyLen := req.bodyLen + |c|), d + c, n, p + c)
  {
    var h :| h == p[..n] && HeadIn(req, h, d);
    FillTraced(req, d, c, h);
    assert (p + c)[..n] == h;
    UpdateAppend(p, c, req.headersStart - 2, NUL);
    var req' := req.(bodyLen := req.bodyLen + |c|);
    assert req'.headersStart == req.headersStart;
    assert 2 <= req'.headersStart && req'.headersStart - 2 < n <= |p + c|;
    assert d + c == (p + c)[req'.headersStart - 2 := NUL];
    assert h == (p + c)[..n] && HeadIn(req', h, d + c);
  }

  lemma UpdateAppend(p: bytes, c: bytes, k: nat, b: byte)
    requires k < |p|
    ensures p[k := b] + c == (p + c)[k := b]
  {
  }

  lemma FillStep(req: Request, d: bytes, n: nat, needed: nat, c: bytes)
    requires c != [] && |c| <= needed
    ensures var req' := req.(bodyLen := req.bodyLen + |c|);
      Step(Filling(req, d, n, needed), Data(c))
      == Some(if |c| == needed then Finished(Got(req'), d + c, n) else Filling(req', d + c, n, needed - |c|))
  {
  }

  /** A step keeps every request traced, with the bytes of the receive added to those received. */
  lemma StepTraced(s: RxState, r: RecvResult, p: bytes)
    requires Traced(s, p) && Step(s, r).Some?
    ensures Traced(Step(s, r).value, p + Payload([r]))
  {
    assert Payload([r]) == (match r case Data(c) => c case _ => []) + Payload([]);
    match r
    case Data(c) =>
      assert p + Payload([r]) == p + c;
      match s {
      case Reading(data) => ReadingStepTraced(data, c);
      case Filling(req, d, n, needed) => FillingStepTraced(req, d, n, needed, c, p);
      case Finished(_, _, _) =>
      }
    case NoData =>
    case Failed =>
  }

  lemma ReadingStepTraced(data: bytes, c: bytes)
    requires Step(Reading(data), Data(c)).Some?
    ensures Traced(Step(Reading(data), Data(c)).value, data + c)
  {
    if c != [] && TerminatorEnd(data + c) >= 0 {
      CompleteTraced(data + c);
    }
  }

  lemma FillingStepTraced(req: Request, d: bytes, n: nat, needed: nat, c: bytes, p: bytes)
    requires HoldsReceived(req, d, n, p) && Step(Filling(req, d, n, needed), Data(c)).Some?
    ensures Traced(Step(Filling(req, d, n, needed), Data(c)).value, p + c)
  {
    if c != [] {
      FillStep(req, d, n, needed, c);
      FillHolds(req, d, n, p, c);
    }
  }

  /**
   * A request the engine reports as received was set up from a complete
   * header block h: its header view starts just after the first CR LF and
   * ends where the block does, the body view starts at the end of the block,
   * and its Content-Length is the one the header view declares.
   */
  lemma {:induction false} RunGot(rs: seq<RecvResult>)
    requires Run(rs).Some? && Run(rs).value.Finished? && Run(rs).value.outcome.Got?
    ensures HasHead(Run(rs).value.outcome.req, Run(rs).value.data)
  {
    RunTraced(rs);
  }

  /**
   * No byte is lost or changed across the split into header and body: the
   * data of a request being topped up or received is every byte received,
   * with the NUL over the CR that ends the request line, and its header
   * block is the first rxlen bytes received.
   */
  lemma RunHoldsPayload(rs: seq<RecvResult>)
    requires Run(rs).Some? && (Run(rs).value.Filling? || (Run(rs).value.Finished? && Run(rs).value.outcome.Got?))
    ensures var s := Run(rs).value;
      var req := if s.Filling? then s.req else s.outcome.req;
      && 2 <= req.headersStart && req.headersStart - 2 < s.rxlen <= |Payload(rs)|
      && s.data == Payload(rs)[req.headersStart - 2 := NUL]
      && req.bodyStart <= |s.data| && s.data[req.bodyStart..] == Payload(rs)[req.bodyStart..]
      && HeadIn(req, Payload(rs)[..s.rxlen], s.data)
  {
    RunTraced(rs);
    RunConsistent(rs);
    var s := Run(rs).value;
    var req := if s.Filling? then s.req else s.outcome.req;
    var h :| h == Payload(rs)[..s.rxlen] && HeadIn(req, h, s.data);
  }

  /** Every state the engine reaches holds the bytes received and is traced to them. */
  lemma {:induction false} RunTraced(rs: seq<RecvResult>)
    ensures Run(rs).Some? ==> Traced(Run(rs).value, Payload(rs))
  {
    if rs != [] {
      var pre, last := rs[..|rs| - 1], rs[|rs| - 1];
      RunTraced(pre);
      if Run(pre).Some? && Run(rs).Some? {
        StepTraced(Run(pre).value, last, Payload(pre));
        assert rs == pre + [last];
        PayloadAppend(pre, [last]);
      }
    }
  }

  // ---------------------------------------------------------------------
  // The engine
  // ---------------------------------------------------------------------

  // ---------------------------------------------------------------------
  // Serving one client
  // ---------------------------------------------------------------------

  /** What net_srv_listen reports: a connection, an error, a timeout, or another code the engine goes on with. */
  datatype Listen = Connected | ListenError | ListenTimeout | ListenOther(code: int)

  /** NET_ERR and NET_TIMEOUT end the call before any receive. */
  predicate Fatal(l: Listen) {
    l.ListenError? || l.ListenTimeout?
  }

  /** No route takes the received request, so the engine answers 404. */
  predicate Unrouted(o: Received, routes: seq<Routing.Route>) {
    o.Got? && Routing.FirstRoute(routes, o.req.line).None?
  }

  /**
   * The result of http_srv_handle_once once the request is in: an empty
   * connection is fine, a receive error is not, an unrouted request is
   * answered 404 and counts as fine, and a routed one reports what its
   * handler reports.
   */
  function Verdict(o: Received, routes: seq<Routing.Route>, handlerOk: seq<bool>): bool
    requires |handlerOk| == |routes|
  {
    match o
    case NoRequest => true
    case Failure(_) => false
    case Got(req) =>
      match Routing.FirstRoute(routes, req.line)
      case None => true
      case Some(i) => handlerOk[i]
  }

  const NOT_FOUND_HEAD: bytes :=
    Response.HeadFor(404, Some(Response.NOT_FOUND_REASON), Some(Response.TEXT_PLAIN), |Response.NOT_FOUND_BODY|, None)

  /** A buffer that holds d, then zeros to its end. */
  lemma Image(b: bytes, d: bytes)
    requires |b| == RX_SIZE && |d| <= RX_SIZE && b[..|d|] == d
    requires forall j :: |d| <= j < RX_SIZE ==> b[j] == NUL
    ensures b == d + Zeros(RX_SIZE - |d|)
  {
    var z := d + Zeros(RX_SIZE - |d|);
    forall j | 0 <= j < RX_SIZE
      ensures b[j] == z[j]
    {
      if j < |d| {
        assert b[j] == b[..|d|][j];
      }
    }
  }

  /** http_srv_t: the receive buffer and its fill level, over one client connection. */
  class HttpServer {
    const rxbuf: array<byte>
    var rxlen: nat
    const conn: Connection

    predicate Valid()
      reads this
    {
      rxbuf.Length == RX_SIZE && rxlen < RX_SIZE
    }

    /** rxbuf holds d, then zeros to its end. */
    predicate Holds(d: bytes)
      reads this, rxbuf
    {
      rxbuf.Length == RX_SIZE && |d| <= RX_SIZE && rxbuf[..|d|] == d
      && forall j :: |d| <= j < RX_SIZE ==> rxbuf[j] == NUL
    }

    /** The buffer and rxlen are those of the engine state s. */
    predicate Mirrors(s: RxState)
      reads this, rxbuf
    {
      Holds(s.data) && rxlen == (if s.Reading? then |s.data| else s.rxlen)
    }

    /** http_srv_init, up to the bind: a cleared context. */
    constructor (conn: Connection)
      ensures this.conn == conn && Valid() && rxlen == 0 && Holds([])
    {
      this.conn := conn;
      rxbuf := new byte[RX_SIZE](_ => NUL);
      rxlen := 0;
    }

    /**
     * http_srv_recv_request: the receive results it consumes drive the
     * machine from a cleared buffer to a finished state, which is what it
     * reports; the connection is used for receiving only.
     */
    method RecvRequest() returns (r: Received)
      requires Valid()
      modifies this, rxbuf, conn
      ensures Valid()
      ensures |old(conn.received)| <= |conn.received| && conn.received[..|old(conn.received)|] == old(conn.received)
      ensures var s := Run(conn.received[|old(conn.received)|..]);
        s.Some? && s.value.Finished? && s.value.outcome == r && Mirrors(s.value)
      ensures conn.wire == old(conn.wire) && conn.sendQuota == old(conn.sendQuota) && conn.closes == old(conn.closes)
    {
      ghost var k0 := |conn.received|;
      rxlen := 0;
      forall i | 0 <= i < rxbuf.Length {
        rxbuf[i] := NUL;
      }
      assert rxbuf[..0] == [];
      var s := ReadHead(k0);
      if s.Finished? {
        return s.outcome;
      }
      RunConsistent(conn.received[k0..]);
      r := FillBody(k0, s);
    }

    /**
     * The header loop: receive into the free part of rxbuf (at most 1399
     * bytes in all), NUL after the data, and search for the end of the
     * header block after each chunk.
     */
    method ReadHead(ghost k0: nat) returns (s: RxState)
      requires Valid() && rxlen == 0 && Holds([])
      requires k0 == |conn.received|
      modifies this, rxbuf, conn
      ensures Valid() && Mirrors(s) && !s.Reading?
      ensures k0 <= |conn.received| && conn.received[..k0] == old(conn.received)
      ensures Run(conn.received[k0..]) == Some(s)
      ensures conn.wire == old(conn.wire) && conn.sendQuota == old(conn.sendQuota) && conn.closes == old(conn.closes)
    {
      assert conn.received[k0..] == [];
      while rxlen < RX_SIZE - 1
        invariant Valid() && Holds(rxbuf[..rxlen])
        invariant k0 <= |conn.received| && conn.received[..k0] == old(conn.received)
        invariant Run(conn.received[k0..]) == Some(
          if rxlen < RX_SIZE - 1 then Reading(rxbuf[..rxlen])
          else Finished(Failure(HeadersTooBig), rxbuf[..rxlen], rxlen))
        invariant conn.wire == old(conn.wire) && conn.sendQuota == old(conn.sendQuota) && conn.closes == old(conn.closes)
        decreases RX_SIZE - rxlen
      {
        ghost var before := conn.received[k0..];
        var rc := conn.Recv(RX_SIZE - 1 - rxlen);
        assert conn.received[k0..] == before + [rc];
        RunSnoc(before, rc);
        if rc.Failed? {
          return Finished(Failure(RecvFailed), rxbuf[..rxlen], rxlen);
        }
        if rc.NoData? {
          if rxlen == 0 {
            return Finished(NoRequest, rxbuf[..rxlen], rxlen);
          }
          return Finished(Failure(ClosedMidHeaders), rxbuf[..rxlen], rxlen);
        }
        Append(rc.chunk);
        var hdrEnd := FindHeadersEnd(rxbuf, rxlen);
        if hdrEnd >= 0 {
          s := ParseHead(hdrEnd);
          return;
        }
      }
      return Finished(Failure(HeadersTooBig), rxbuf[..rxlen], rxlen);
    }

    /** Store a received chunk behind the data and NUL-terminate it. */
    method Append(c: bytes)
      requires Valid() && Holds(rxbuf[..rxlen])
      requires 0 < |c| && rxlen + |c| < RX_SIZE
      modifies this, rxbuf
      ensures Valid() && rxlen == old(rxlen) + |c|
      ensures rxbuf[..rxlen] == old(rxbuf[..rxlen]) + c && Holds(rxbuf[..rxlen])
    {
      ghost var d := rxbuf[..rxlen] + c;
      forall i | 0 <= i < |c| {
        rxbuf[rxlen + i] := c[i];
      }
      rxlen := rxlen + |c|;
      rxbuf[rxlen] := NUL;
      assert rxbuf[..rxlen] == d;
    }

    /**
     * The steps after the header loop: the first line is cut at its CR LF,
     * parsed, and the views and Content-Length are set up.
     */
    method ParseHead(hdrEnd: int) returns (s: RxState)
      requires Valid() && Holds(rxbuf[..rxlen])
      requires hdrEnd == TerminatorEnd(rxbuf[..rxlen]) && hdrEnd >= 0
      modifies rxbuf
      ensures s == Complete(old(rxbuf[..rxlen])) && Mirrors(s)
    {
      ghost var data := rxbuf[..rxlen];
      Image(rxbuf[..], data);
      var crlf := LineEnd(rxbuf[..], 0);
      if crlf.None? {
        assert Complete(data) == Finished(Failure(MalformedLine), data, |data|);
        return Finished(Failure(MalformedLine), rxbuf[..rxlen], rxlen);
      }
      var e := crlf.value;
      FirstLineInHead(data, e);
      ghost var s' := Complete(data);
      assert s' == Cut(data, e);
      rxbuf[e] := NUL;
      assert rxbuf[..rxlen] == data[e := NUL];
      assert rxbuf[..e] == data[..e];
      s := ReadFields(data, e, hdrEnd);
      assert s == s';
    }

    /** The request line up to the NUL at e, then the views and Content-Length. */
    method ReadFields(ghost data: bytes, e: nat, hdrEnd: nat) returns (s: RxState)
      requires Valid() && |data| == rxlen
      requires 4 <= TerminatorEnd(data) == hdrEnd && e + 4 <= hdrEnd <= |data|
      requires Holds(data[e := NUL]) && rxbuf[..e] == data[..e]
      ensures s == Cut(data, e) && Mirrors(s)
    {
      ghost var d' := data[e := NUL];
      assert rxbuf[..rxlen] == d';
      var line := ParseRequestLine(rxbuf[..e]);
      if line.None? {
        CutRefused(data, e);
        s := Finished(Failure(BadRequestLine), rxbuf[..rxlen], rxlen);
        assert s == Cut(data, e);
        return;
      }
      Image(rxbuf[..], d');
      var cl := ParseContentLength(rxbuf[..], e + 2, hdrEnd);
      var req := Request(line.value, e + 2, hdrEnd - (e + 2), hdrEnd, rxlen - hdrEnd, cl);
      CutAdmitted(data, e, rxbuf[..], req, rxbuf[..rxlen]);
      s := Admit(req, rxbuf[..rxlen]);
    }

    /** The body loop: receive exactly what is still missing of the declared body, behind what is there. */
    method FillBody(ghost k0: nat, s0: RxState) returns (r: Received)
      requires Valid() && s0.Filling? && Mirrors(s0) && Consistent(s0)
      requires k0 <= |conn.received| && Run(conn.received[k0..]) == Some(s0)
      modifies rxbuf, conn
      ensures k0 <= |conn.received| && conn.received[..k0] == old(conn.received[..k0])
      ensures var s := Run(conn.received[k0..]);
        s.Some? && s.value.Finished? && s.value.outcome == r && Mirrors(s.value)
      ensures conn.wire == old(conn.wire) && conn.sendQuota == old(conn.sendQuota) && conn.closes == old(conn.closes)
    {
      var req := s0.req;
      var needed := s0.needed;
      ghost var s := s0;
      while needed > 0
        invariant Valid() && Mirrors(s) && !s.Reading?
        invariant k0 <= |conn.received| && conn.received[..k0] == old(conn.received[..k0])
        invariant Run(conn.received[k0..]) == Some(s)
        invariant s.Filling? ==> needed == s.needed > 0 && req == s.req
        invariant s.Finished? ==> needed == 0 && s.outcome == Got(req)
        invariant conn.wire == old(conn.wire) && conn.sendQuota == old(conn.sendQuota) && conn.closes == old(conn.closes)
        decreases needed
      {
        var rc;
        rc, s := TopUp(k0, s, needed, req.bodyStart + req.bodyLen);
        if !rc.Data? {
          return Failure(BodyRecvFailed);
        }
        req := req.(bodyLen := req.bodyLen + |rc.chunk|);
        needed := needed - |rc.chunk|;
      }
      return Got(req);
    }

    /** One receive of the body loop: at most what is still missing, stored behind the body. */
    method TopUp(ghost k0: nat, ghost s: RxState, needed: nat, at: nat) returns (rc: RecvResult, ghost s': RxState)
      requires Valid() && s.Filling? && Mirrors(s)
      requires needed == s.needed && at == s.req.bodyStart + s.req.bodyLen
      requires k0 <= |conn.received| && Run(conn.received[k0..]) == Some(s)
      modifies rxbuf, conn
      ensures conn.received == old(conn.received) + [rc] && (rc.Data? ==> 0 < |rc.chunk| <= needed)
      ensures conn.wire == old(conn.wire) && conn.sendQuota == old(conn.sendQuota) && conn.closes == old(conn.closes)
      ensures Step(s, rc) == Some(s') && Run(conn.received[k0..]) == Some(s') && Mirrors(s')
    {
      ghost var before := conn.received[k0..];
      RunConsistent(before);
      rc := conn.Recv(needed);
      assert conn.received[k0..] == before + [rc];
      RunSnoc(before, rc);
      s' := Step(s, rc).value;
      if rc.Data? {
        Store(at, rc.chunk);
      }
    }

    /** Copy a received chunk into rxbuf at offset at. */
    method Store(at: nat, c: bytes)
      requires Valid() && at + |c| <= RX_SIZE && Holds(rxbuf[..at])
      modifies rxbuf
      ensures Holds(old(rxbuf[..at]) + c)
    {
      ghost var d := rxbuf[..at] + c;
      forall i | 0 <= i < |c| {
        rxbuf[at + i] := c[i];
      }
      assert rxbuf[..at + |c|] == d;
    }
    /**
     * http_srv_handle_once with the route table routes, whose i-th handler
     * reports handlerOk[i]. The client connection is closed exactly once on
     * every path.
     */
    method HandleOnce(listen: Listen, routes: seq<Routing.Route>, handlerOk: seq<bool>) returns (ok: bool)
      requires Valid() && |handlerOk| == |routes|
      modifies this, rxbuf, conn
      ensures Valid() && conn.closes == old(conn.closes) + 1
      ensures Fatal(listen) ==> !ok && conn.received == old(conn.received) && conn.wire == old(conn.wire)
      ensures !Fatal(listen) ==>
        |old(conn.received)| <= |conn.received| && conn.received[..|old(conn.received)|] == old(conn.received)
        && var s := Run(conn.received[|old(conn.received)|..]);
        s.Some? && s.value.Finished? && Mirrors(s.value)
        && ok == Verdict(s.value.outcome, routes, handlerOk)
        && conn.wire == old(conn.wire)
             + (if Unrouted(s.value.outcome, routes) then Response.Respond(old(conn.sendQuota), NOT_FOUND_HEAD, Response.NOT_FOUND_BODY).1 else [])
    {
      if Fatal(listen) {
        conn.Close();
        return false;
      }
      var r := RecvRequest();
      ok := Dispatch(r, routes, handlerOk);
      conn.Close();
    }

    /** The route loop and the 404 answer for a received request. */
    method Dispatch(r: Received, routes: seq<Routing.Route>, handlerOk: seq<bool>) returns (ok: bool)
      requires |handlerOk| == |routes|
      modifies conn
      ensures ok == Verdict(r, routes, handlerOk)
      ensures conn.wire == old(conn.wire)
        + (if Unrouted(r, routes) then Response.Respond(old(conn.sendQuota), NOT_FOUND_HEAD, Response.NOT_FOUND_BODY).1 else [])
      ensures conn.inbound == old(conn.inbound) && conn.received == old(conn.received) && conn.closes == old(conn.closes)
    {
      if r.NoRequest? {
        return true;
      }
      if r.Failure? {
        return false;
      }
      var i := Routing.FindRoute(routes, r.req.line);
      if i.Some? {
        return handlerOk[i.value];
      }
      var sent := Response.SendResponse(conn, 404, Some(Response.NOT_FOUND_REASON), Some(Response.TEXT_PLAIN),
                                        Some(Response.NOT_FOUND_BODY), |Response.NOT_FOUND_BODY|, None);
      assert Response.PayloadFor(Some(Response.NOT_FOUND_BODY), |Response.NOT_FOUND_BODY|) == Response.NOT_FOUND_BODY;
      ok := true;
    }
  }
}
