/**
 * The byte-stream socket underneath the HTTP engine, reduced to what the
 * engine observes: each receive reports bytes, "nothing" (0 or the driver's
 * timeout code) or an error; each send reports how many bytes the peer
 * accepted, or an error; the client connection can be closed. The peer is a
 * script fixed in advance, so every behaviour of the real driver that the
 * engine can see is one of the scripts.
 */
module Transport {
  import opened Bytes

  /** What one call of net_sock_recv reports. */
  datatype RecvResult =
    | Data(chunk: bytes)   // rc > 0: the bytes stored into the caller's buffer
    | NoData               // rc == 0 or NET_TIMEOUT
    | Failed               // any other negative rc

  /** The bytes a run of receive results carried, in order. */
  function Payload(rs: seq<RecvResult>): bytes {
    if rs == [] then []
    else (match rs[0] case Data(c) => c case _ => []) + Payload(rs[1..])
  }

  lemma {:induction false} PayloadAppend(a: seq<RecvResult>, b: seq<RecvResult>)
    ensures Payload(a + b) == Payload(a) + Payload(b)
  {
    if a != [] {
      assert (a + b)[1..] == a[1..] + b;
      PayloadAppend(a[1..], b);
    } else {
      assert a + b == b;
    }
  }

  /** True when every result of the run carried bytes. */
  predicate AllData(rs: seq<RecvResult>) {
    forall i :: 0 <= i < |rs| ==> rs[i].Data?
  }

  /**
   * One receive of at most max bytes from what the peer has queued: an empty
   * queue or a zero-length chunk reads as "nothing", a chunk longer than max
   * is split and its tail stays queued.
   */
  function Deliver(inbound: seq<RecvResult>, max: nat): (out: (RecvResult, seq<RecvResult>))
    requires max > 0
    ensures out.0.Data? ==> 0 < |out.0.chunk| <= max
    ensures Payload([out.0]) + Payload(out.1) == Payload(inbound)
    ensures |out.1| <= |inbound|
  {
    if inbound == [] then (NoData, [])
    else match inbound[0]
      case Data(c) =>
        if c == [] then (NoData, inbound[1..])
        else if |c| <= max then (Data(c), inbound[1..])
        else (Data(c[..max]), [Data(c[max..])] + inbound[1..])
      case NoData => (NoData, inbound[1..])
      case Failed => (Failed, inbound[1..])
  }

  /** How many bytes a send of n bytes gets accepted, given what the peer grants next. */
  function Accepted(sendQuota: seq<int>, n: nat): (rc: int)
    ensures rc <= n
    ensures sendQuota == [] ==> rc == n
  {
    if sendQuota == [] then n
    else if sendQuota[0] > n then n
    else sendQuota[0]
  }

  class Connection {
    /** What the peer still has queued for the engine to receive. */
    var inbound: seq<RecvResult>
    /** What each of the next sends is granted: a byte count, or <= 0 for a send error. */
    var sendQuota: seq<int>
    /** Every receive result handed to the engine so far. */
    var received: seq<RecvResult>
    /** Every byte the peer has accepted so far. */
    var wire: bytes
    /** How many times the client connection was closed. */
    var closes: nat

    constructor (inbound: seq<RecvResult>, sendQuota: seq<int>)
      ensures this.inbound == inbound && this.sendQuota == sendQuota
      ensures received == [] && wire == [] && closes == 0
    {
      this.inbound := inbound;
      this.sendQuota := sendQuota;
      received := [];
      wire := [];
      closes := 0;
    }

    /** net_sock_recv(sock, buf, max) */
    method Recv(max: nat) returns (r: RecvResult)
      requires max > 0
      modifies this
      ensures (r, inbound) == Deliver(old(inbound), max)
      ensures r.Data? ==> 0 < |r.chunk| <= max
      ensures received == old(received) + [r]
      ensures wire == old(wire) && sendQuota == old(sendQuota) && closes == old(closes)
    {
      var out := Deliver(inbound, max);
      r, inbound := out.0, out.1;
      received := received + [r];
    }

    /** net_sock_send(sock, data, |data|) */
    method Send(data: bytes) returns (rc: int)
      requires |data| > 0
      modifies this
      ensures rc == Accepted(old(sendQuota), |data|)
      ensures rc > 0 ==> wire == old(wire) + data[..rc]
      ensures rc <= 0 ==> wire == old(wire)
      ensures sendQuota == if old(sendQuota) == [] then [] else old(sendQuota)[1..]
      ensures inbound == old(inbound) && received == old(received) && closes == old(closes)
    {
      rc := Accepted(sendQuota, |data|);
      if rc > 0 {
        wire := wire + data[..rc];
      }
      if sendQuota != [] {
        sendQuota := sendQuota[1..];
      }
    }

    /** net_srv_next_conn: close the current client connection. */
    method Close()
      modifies this
      ensures closes == old(closes) + 1
      ensures inbound == old(inbound) && sendQuota == old(sendQuota)
      ensures received == old(received) && wire == old(wire)
    {
      closes := closes + 1;
    }
  }
}
