/**
 * The response side of http_server.c: send_all, which keeps sending until
 * the peer has accepted every byte or a send fails, and
 * http_srv_send_response, which formats the status line and the fixed
 * header fields into a 256-byte buffer and sends it, then the body.
 */
module Response {
  import opened Bytes
  import opened Transport
  import opened Headers

  /** char header[256] */
  const HEADER_CAP: nat := 256

  const CONNECTION_CLOSE: bytes := "Connection: close"

  /** Where send_all stops: whether it reports success, how many bytes went out, and the sends still to come. */
  datatype Pumped = Pumped(ok: bool, sent: nat, quota: seq<int>)

  function Rest(quota: seq<int>): seq<int> {
    if quota == [] then [] else quota[1..]
  }

  /**
   * send_all from `sent` bytes already accepted out of n: a send that
   * reports rc <= 0 stops it with an error, a partial send goes on from
   * where the peer stopped.
   */
  function Pump(quota: seq<int>, sent: nat, n: nat): (p: Pumped)
    requires sent <= n
    ensures sent <= p.sent <= n
    ensures p.ok <==> p.sent == n
    decreases n - sent
  {
    if sent == n then Pumped(true, sent, quota)
    else
      var rc := Accepted(quota, n - sent);
      if rc <= 0 then Pumped(false, sent, Rest(quota))
      else Pump(Rest(quota), sent + rc, n)
  }

  /** A peer that accepts whatever it is offered takes all n bytes. */
  lemma {:induction false} PumpAccepted(sent: nat, n: nat)
    requires sent <= n
    ensures Pump([], sent, n) == Pumped(true, n, [])
  {
  }

  /** The first send refused: nothing goes out and send_all fails. */
  lemma PumpRefused(quota: seq<int>, n: nat)
    requires 0 < n && quota != [] && quota[0] <= 0
    ensures Pump(quota, 0, n) == Pumped(false, 0, quota[1..])
  {
  }

  /** send_all(sock, data, |data|) */
  method SendAll(conn: Connection, data: bytes) returns (ok: bool)
    modifies conn
    ensures var p := Pump(old(conn.sendQuota), 0, |data|);
      ok == p.ok && conn.wire == old(conn.wire) + data[..p.sent] && conn.sendQuota == p.quota
    ensures conn.inbound == old(conn.inbound) && conn.received == old(conn.received) && conn.closes == old(conn.closes)
  {
    var sent := 0;
    while sent < |data|
      invariant sent <= |data|
      invariant Pump(old(conn.sendQuota), 0, |data|) == Pump(conn.sendQuota, sent, |data|)
      invariant conn.wire == old(conn.wire) + data[..sent]
      invariant conn.inbound == old(conn.inbound) && conn.received == old(conn.received) && conn.closes == old(conn.closes)
      decreases |data| - sent
    {
      var rc := conn.Send(data[sent..]);
      if rc <= 0 {
        return false;
      }
      assert data[..sent] + data[sent..][..rc] == data[..sent + rc];
      sent := sent + rc;
    }
    assert data[..sent] == data;
    return true;
  }

  // ---------------------------------------------------------------------
  // The response head
  // ---------------------------------------------------------------------

  function StatusLine(status: int, reason: bytes): bytes {
    "HTTP/1.1 " + SignedDecimal(status) + " " + reason
  }

  function ContentTypeLine(contentType: bytes): bytes {
    CONTENT_TYPE + " " + contentType
  }

  function ContentLengthLine(bodyLen: nat): bytes {
    CONTENT_LENGTH + " " + Decimal(bodyLen)
  }

  /**
   * The text snprintf produces for the response head: the status line,
   * Content-Type, Content-Length, the caller's extra header text,
   * "Connection: close" and the empty line.
   */
  function ResponseHead(status: int, reason: bytes, contentType: bytes, bodyLen: nat, extra: bytes): bytes {
    StatusLine(status, reason) + CRLF + ContentTypeLine(contentType) + CRLF
    + ContentLengthLine(bodyLen) + CRLF + extra + CONNECTION_CLOSE + CRLF + CRLF
  }

  /** A string argument: %s prints up to the NUL; a NULL argument stands for the default. */
  function Arg(s: Option<bytes>, default: bytes): bytes {
    match s
    case None => default
    case Some(t) => CStr(t)
  }

  /** The head http_srv_send_response formats for its arguments. */
  function HeadFor(status: int, reason: Option<bytes>, contentType: Option<bytes>, bodyLen: nat, extra: Option<bytes>): bytes {
    ResponseHead(status, Arg(reason, "OK"), Arg(contentType, "text/plain"), bodyLen, Arg(extra, []))
  }

  /** The body is sent only when there is one and body_len > 0. */
  function PayloadFor(body: Option<bytes>, bodyLen: nat): (p: bytes)
    requires body.Some? ==> bodyLen <= |body.value|
    ensures |p| == (if body.Some? then bodyLen else 0)
  {
    if body.Some? && bodyLen > 0 then body.value[..bodyLen] else []
  }

  /**
   * What a response does: whether http_srv_send_response reports success,
   * the bytes it puts on the wire and the sends still to come. A head that
   * does not fit header[256] is refused before anything is sent.
   */
  function Respond(quota: seq<int>, head: bytes, payload: bytes): (r: (bool, bytes, seq<int>))
    requires |head| > 0
    ensures r.1 <= head + payload
    ensures r.0 <==> |head| < HEADER_CAP && r.1 == head + payload
  {
    if |head| >= HEADER_CAP then (false, [], quota)
    else
      var p := Pump(quota, 0, |head|);
      if !p.ok then (false, head[..p.sent], p.quota)
      else if payload == [] then (true, head, p.quota)
      else
        var q := Pump(p.quota, 0, |payload|);
        (q.ok, head + payload[..q.sent], q.quota)
  }

  /** http_srv_send_response; a NULL reason, content type or extra header text stands for its default. */
  method SendResponse(conn: Connection, status: int, reason: Option<bytes>, contentType: Option<bytes>,
                      body: Option<bytes>, bodyLen: nat, extra: Option<bytes>) returns (ok: bool)
    requires bodyLen < U32_LIMIT
    requires body.Some? ==> bodyLen <= |body.value|
    modifies conn
    ensures var r := Respond(old(conn.sendQuota), HeadFor(status, reason, contentType, bodyLen, extra), PayloadFor(body, bodyLen));
      ok == r.0 && conn.wire == old(conn.wire) + r.1 && conn.sendQuota == r.2
    ensures conn.inbound == old(conn.inbound) && conn.received == old(conn.received) && conn.closes == old(conn.closes)
  {
    var head := HeadFor(status, reason, contentType, bodyLen, extra);
    var payload := PayloadFor(body, bodyLen);
    if |head| >= HEADER_CAP {
      return false;
    }
    ok := Transmit(conn, head, payload);
  }

  /** The sends of a head that fits: the head with send_all, then the body (if any) with send_all. */
  method Transmit(conn: Connection, head: bytes, payload: bytes) returns (ok: bool)
    requires 0 < |head| < HEADER_CAP
    modifies conn
    ensures var r := Respond(old(conn.sendQuota), head, payload);
      ok == r.0 && conn.wire == old(conn.wire) + r.1 && conn.sendQuota == r.2
    ensures conn.inbound == old(conn.inbound) && conn.received == old(conn.received) && conn.closes == old(conn.closes)
  {
    ghost var w0 := conn.wire;
    ok := SendAll(conn, head);
    if !ok {
      return;
    }
    if payload != [] {
      ghost var q1 := conn.sendQuota;
      ok := SendAll(conn, payload);
      Assoc(w0, head, payload[..Pump(q1, 0, |payload|).sent]);
    }
  }

  // ---------------------------------------------------------------------
  // Reading a response head back
  // ---------------------------------------------------------------------

  lemma {:induction false} LinesAppend(a: seq<bytes>, b: seq<bytes>)
    ensures Lines(a + b) == Lines(a) + Lines(b)
  {
    if a == [] {
      assert a + b == b;
    } else {
      assert (a + b)[1..] == a[1..] + b;
      LinesAppend(a[1..], b);
    }
  }

  lemma LinesThree(l1: bytes, l2: bytes, l3: bytes)
    ensures Lines([l1, l2, l3]) == l1 + CRLF + l2 + CRLF + l3 + CRLF
  {
    var ls := [l1, l2, l3];
    assert ls[1..] == [l2, l3] && ls[1..][1..] == [l3];
    assert Lines([l3]) == l3 + CRLF + Lines([]);
  }

  /** The head's lines, the empty line aside. */
  function HeadLines(status: int, reason: bytes, contentType: bytes, bodyLen: nat, xs: seq<bytes>): seq<bytes> {
    [StatusLine(status, reason), ContentTypeLine(contentType), ContentLengthLine(bodyLen)] + xs + [CONNECTION_CLOSE]
  }

  lemma HeadIsLines(status: int, reason: bytes, contentType: bytes, bodyLen: nat, xs: seq<bytes>)
    ensures ResponseHead(status, reason, contentType, bodyLen, Lines(xs))
         == Lines(HeadLines(status, reason, contentType, bodyLen, xs)) + CRLF
  {
    var l1, l2, l3 := StatusLine(status, reason), ContentTypeLine(contentType), ContentLengthLine(bodyLen);
    var first := [l1, l2, l3];
    var a := Lines(first);
    LinesAppend(first + xs, [CONNECTION_CLOSE]);
    LinesAppend(first, xs);
    LinesThree(l1, l2, l3);
    assert Lines([CONNECTION_CLOSE]) == CONNECTION_CLOSE + CRLF + Lines([]);
    Assoc(a + Lines(xs), CONNECTION_CLOSE, CRLF);
  }

  lemma SignedDecimalPlain(i: int)
    ensures PlainLine(SignedDecimal(i))
  {
    var d := if i < 0 then Decimal(-i) else Decimal(i);
    var s := SignedDecimal(i);
    forall k | 0 <= k < |s|
      ensures s[k] != CR && s[k] != LF && s[k] != NUL
    {
      if i < 0 && k > 0 {
        assert s[k] == d[k - 1];
      } else if i >= 0 {
        assert s[k] == d[k];
      }
    }
  }

  lemma PlainConcat(a: bytes, b: bytes)
    requires PlainLine(a) && PlainLine(b)
    ensures PlainLine(a + b)
  {
    forall k | 0 <= k < |a + b|
      ensures (a + b)[k] != CR && (a + b)[k] != LF && (a + b)[k] != NUL
    {
      if k >= |a| {
        assert (a + b)[k] == b[k - |a|];
      } else {
        assert (a + b)[k] == a[k];
      }
    }
  }

  lemma DecimalPlain(n: nat)
    ensures PlainLine(Decimal(n))
  {
    var d := Decimal(n);
    forall k | 0 <= k < |d|
      ensures d[k] != CR && d[k] != LF && d[k] != NUL
    {
      assert IsDigit(d[k]);
    }
  }

  lemma {:induction false} PlainLinesAppend(a: seq<bytes>, b: seq<bytes>)
    requires PlainLines(a) && PlainLines(b)
    ensures PlainLines(a + b)
  {
    if a == [] {
      assert a + b == b;
    } else {
      assert (a + b)[1..] == a[1..] + b;
      PlainLinesAppend(a[1..], b);
    }
  }

  lemma FixedLinesPlain(status: int, reason: bytes, contentType: bytes, bodyLen: nat)
    requires PlainLine(reason) && PlainLine(contentType)
    ensures PlainLines([StatusLine(status, reason), ContentTypeLine(contentType), ContentLengthLine(bodyLen)])
  {
    var version: bytes := "HTTP/1.1 ";
    var space: bytes := " ";
    assert PlainLine(version) by {
      forall k | 0 <= k < |version| ensures version[k] != CR && version[k] != LF && version[k] != NUL {
      }
    }
    SignedDecimalPlain(status);
    PlainConcat(version, SignedDecimal(status));
    PlainConcat(version + SignedDecimal(status), space);
    PlainConcat(version + SignedDecimal(status) + space, reason);
    var ct: bytes := CONTENT_TYPE + space;
    var cl: bytes := CONTENT_LENGTH + space;
    assert PlainLine(ct) by {
      forall k | 0 <= k < |ct| ensures ct[k] != CR && ct[k] != LF && ct[k] != NUL {
      }
    }
    assert PlainLine(cl) by {
      forall k | 0 <= k < |cl| ensures cl[k] != CR && cl[k] != LF && cl[k] != NUL {
      }
    }
    PlainConcat(ct, contentType);
    DecimalPlain(bodyLen);
    PlainConcat(cl, Decimal(bodyLen));
    var ls: seq<bytes> := [StatusLine(status, reason), ContentTypeLine(contentType), ContentLengthLine(bodyLen)];
    assert ls[1..][1..] == [ContentLengthLine(bodyLen)];
    assert PlainLines(ls[1..][1..]);
    assert ls[1..] == [ContentTypeLine(contentType), ContentLengthLine(bodyLen)];
    assert PlainLines(ls[1..]);
  }

  lemma HeadLinesPlain(status: int, reason: bytes, contentType: bytes, bodyLen: nat, xs: seq<bytes>)
    requires PlainLine(reason) && PlainLine(contentType) && PlainLines(xs)
    requires forall i :: 0 <= i < |xs| ==> |xs[i]| > 0
    ensures var ls := HeadLines(status, reason, contentType, bodyLen, xs);
      PlainLines(ls) && forall i :: 0 <= i < |ls| ==> |ls[i]| > 0
  {
    var close := [CONNECTION_CLOSE];
    FixedLinesPlain(status, reason, contentType, bodyLen);
    assert PlainLines(close) by {
      assert PlainLine(CONNECTION_CLOSE) by {
        forall k | 0 <= k < |CONNECTION_CLOSE|
          ensures CONNECTION_CLOSE[k] != CR && CONNECTION_CLOSE[k] != LF && CONNECTION_CLOSE[k] != NUL {
        }
      }
      assert close[1..] == [];
    }
    var first := [StatusLine(status, reason), ContentTypeLine(contentType), ContentLengthLine(bodyLen)];
    PlainLinesAppend(first, xs);
    PlainLinesAppend(first + xs, close);
  }

  lemma TypeIsNotLength(contentType: bytes)
    ensures !HasPrefixNoCase(ContentTypeLine(contentType), CONTENT_LENGTH)
  {
    var l := ContentTypeLine(contentType);
    if |CONTENT_LENGTH| <= |l| {
      assert l[8] == 'T' && CONTENT_LENGTH[8] == 'L';
      assert Lower(l[8]) != Lower(CONTENT_LENGTH[8]);
    }
  }

  /**
   * Round trip, first half: in the head http_srv_send_response writes,
   * followed by its body, the header block ends exactly where the body
   * begins.
   */
  lemma ResponseEndsAtBody(status: int, reason: bytes, contentType: bytes, bodyLen: nat, xs: seq<bytes>, body: bytes)
    requires PlainLine(reason) && PlainLine(contentType)
    requires PlainLines(xs) && forall i :: 0 <= i < |xs| ==> |xs[i]| > 0
    ensures var head := ResponseHead(status, reason, contentType, bodyLen, Lines(xs));
      TerminatorEnd(head + body) == |head|
  {
    var ls := HeadLines(status, reason, contentType, bodyLen, xs);
    HeadIsLines(status, reason, contentType, bodyLen, xs);
    HeadLinesPlain(status, reason, contentType, bodyLen, xs);
    TerminatorOfHead(ls, body);
    Assoc(Lines(ls), CRLF, body);
  }

  /**
   * Round trip, second half: the header view after the status line, read
   * with the receive side's field scanner, gives Content-Length = body_len
   * and the Content-Type that was sent (cut to the reader's buffer).
   */
  lemma ResponseFieldsReadBack(status: int, reason: bytes, contentType: bytes, bodyLen: nat, xs: seq<bytes>, body: bytes, cap: nat)
    requires PlainLine(reason) && PlainLine(contentType) && (contentType == [] || !IsBlank(contentType[0]))
    requires PlainLines(xs) && forall i :: 0 <= i < |xs| ==> |xs[i]| > 0
    requires bodyLen <= INT_MAX && cap > 0
    ensures var head := ResponseHead(status, reason, contentType, bodyLen, Lines(xs));
      var start := |StatusLine(status, reason)| + 2;
      start <= |head|
      && ContentLengthOf(head + body, start, |head|) == bodyLen
      && ContentTypeOf(head + body, start, |head|, cap) == Some(Trunc(contentType, cap - 1))
  {
    var head := ResponseHead(status, reason, contentType, bodyLen, Lines(xs));
    var ls := HeadLines(status, reason, contentType, bodyLen, xs);
    HeadLinesPlain(status, reason, contentType, bodyLen, xs);
    HeadLinesShape(status, reason, contentType, bodyLen, xs);
    HeadIsLines(status, reason, contentType, bodyLen, xs);
    HeadView(head + body, head, ls, body);
    ReadBackFields(head + body, |ls[0]| + 2, |head|, ls[1..], contentType, bodyLen, cap);
  }

  lemma Assoc(a: bytes, b: bytes, c: bytes)
    ensures a + b + c == a + (b + c)
  {
  }

  /** The lines after the first one sit right behind the first line's CR LF. */
  lemma HeadView(wire: bytes, head: bytes, ls: seq<bytes>, body: bytes)
    requires |ls| > 0 && head == Lines(ls) + CRLF && wire == head + body
    ensures var start := |ls[0]| + 2; var t := Lines(ls[1..]);
      start + |t| <= |head| && wire[start..start + |t|] == t
  {
    var t := Lines(ls[1..]);
    assert wire == ls[0] + CRLF + t + CRLF + body;
  }

  lemma ReadBackFields(wire: bytes, start: nat, end: nat, tail: seq<bytes>, contentType: bytes, bodyLen: nat, cap: nat)
    requires PlainLines(tail) && |tail| >= 2
    requires tail[0] == ContentTypeLine(contentType) && tail[1] == ContentLengthLine(bodyLen)
    requires start + |Lines(tail)| <= end <= |wire| && wire[start..start + |Lines(tail)|] == Lines(tail)
    requires contentType == [] || !IsBlank(contentType[0])
    requires bodyLen <= INT_MAX && cap > 0
    ensures ContentLengthOf(wire, start, end) == bodyLen
    ensures ContentTypeOf(wire, start, end, cap) == Some(Trunc(contentType, cap - 1))
  {
    TypeIsNotLength(contentType);
    ContentLengthOfLines(wire, start, end, tail, 1, " ", bodyLen);
    ContentTypeOfLines(wire, start, end, tail, 0, " ", contentType, cap);
  }

  lemma HeadLinesShape(status: int, reason: bytes, contentType: bytes, bodyLen: nat, xs: seq<bytes>)
    requires PlainLines(HeadLines(status, reason, contentType, bodyLen, xs))
    ensures var ls := HeadLines(status, reason, contentType, bodyLen, xs);
      |ls| >= 3 && ls[0] == StatusLine(status, reason) && PlainLines(ls[1..])
      && ls[1..][0] == ContentTypeLine(contentType) && ls[1..][1] == ContentLengthLine(bodyLen)
  {
  }

  const NOT_FOUND_BODY: bytes := "404 Not Found\r\n"
  const NOT_FOUND_REASON: bytes := "Not Found"
  const TEXT_PLAIN: bytes := "text/plain"

  /** The 404 response of http_srv_handle_once fits the header buffer, so a peer that takes everything receives all of it. */
  lemma NotFoundSent()
    ensures var head := HeadFor(404, Some(NOT_FOUND_REASON), Some(TEXT_PLAIN), |NOT_FOUND_BODY|, None);
      |head| < HEADER_CAP
      && Respond([], head, PayloadFor(Some(NOT_FOUND_BODY), |NOT_FOUND_BODY|)) == (true, head + NOT_FOUND_BODY, [])
  {
    var head := HeadFor(404, Some(NOT_FOUND_REASON), Some(TEXT_PLAIN), |NOT_FOUND_BODY|, None);
    DecimalShort(404);
    DecimalShort(|NOT_FOUND_BODY|);
    HeadLength(404, CStr(NOT_FOUND_REASON), CStr(TEXT_PLAIN), |NOT_FOUND_BODY|, []);
    assert |head| < HEADER_CAP;
    assert PayloadFor(Some(NOT_FOUND_BODY), |NOT_FOUND_BODY|) == NOT_FOUND_BODY;
    PumpAccepted(0, |head|);
    PumpAccepted(0, |NOT_FOUND_BODY|);
  }

  lemma {:induction false} DecimalShort(n: nat)
    requires n < 1000
    ensures |Decimal(n)| <= 3
  {
    if n >= 10 {
      DecimalShort(n / 10);
      if n < 100 {
        assert |Decimal(n / 10)| == 1;
      } else {
        assert n / 10 >= 10 && n / 10 / 10 < 10;
      }
    }
  }

  /** The fixed text of the head is 67 bytes; the rest is the status code, the strings and the length. */
  lemma HeadLength(status: int, reason: bytes, contentType: bytes, bodyLen: nat, extra: bytes)
    ensures |ResponseHead(status, reason, contentType, bodyLen, extra)|
         == 67 + |SignedDecimal(status)| + |reason| + |contentType| + |Decimal(bodyLen)| + |extra|
  {
  }
}
