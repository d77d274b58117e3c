/**
 * The supervision loop of http_srv_run: two counters, one for consecutive
 * link-down checks and one for consecutive failed requests, each of which
 * restarts the server when it reaches its limit.
 *
 * The loop runs forever on the device; here it runs over a finite script of
 * cycles, each saying what the environment decides in that pass: whether
 * net_is_up reports the link up, what http_srv_handle_once reports if it is
 * called, and whether the re-bind succeeds if the pass restarts the server.
 * A restart re-enters the loop with both counters at zero; a failed re-bind
 * resets the device, which ends the loop.
 */
module Supervisor {
  /** HTTP_ERR_LIMIT */
  const ERR_LIMIT: nat := 5
  /** HTTP_NET_DOWN_LIMIT */
  const NET_DOWN_LIMIT: nat := 3

  /** What the environment decides in one pass of the loop. */
  datatype Cycle = Cycle(linkUp: bool, handledOk: bool, rebindOk: bool)

  /** The counters err_count and netdown_count, or the device reset that ends everything. */
  datatype State = Running(err: nat, down: nat) | Reset

  /** What one pass did: whether it served a client, and whether it restarted the server. */
  datatype Event = Event(handled: bool, restarted: bool)

  const START: State := Running(0, 0)

  /** http_srv_restart: the loop starts over with fresh counters, or the device resets. */
  function Restart(c: Cycle): State {
    if c.rebindOk then START else Reset
  }

  /** One pass of the loop. */
  function Tick(s: State, c: Cycle): (State, Event)
    requires s.Running?
  {
    if !c.linkUp then
      if s.down + 1 >= NET_DOWN_LIMIT then (Restart(c), Event(false, true))
      else (Running(s.err, s.down + 1), Event(false, false))
    else
      var err := if c.handledOk then 0 else s.err + 1;
      if err >= ERR_LIMIT then (Restart(c), Event(true, true))
      else (Running(err, 0), Event(true, false))
  }

  /** The passes of the loop over a script of cycles, up to a device reset. */
  function Trace(s: State, cs: seq<Cycle>): (State, seq<Event>)
    decreases |cs|
  {
    if cs == [] || s.Reset? then (s, [])
    else
      var (s1, e) := Tick(s, cs[0]);
      var (s2, es) := Trace(s1, cs[1..]);
      (s2, [e] + es)
  }

  /** http_srv_run over the cycles: the final counters (or the reset) and what each pass did. */
  method Supervise(cycles: seq<Cycle>) returns (s: State, events: seq<Event>)
    ensures (s, events) == Trace(START, cycles)
  {
    var err: nat, down: nat := 0, 0;
    events := [];
    var i := 0;
    while i < |cycles|
      invariant i <= |cycles|
      invariant Trace(Running(err, down), cycles[i..]).0 == Trace(START, cycles).0
      invariant events + Trace(Running(err, down), cycles[i..]).1 == Trace(START, cycles).1
    {
      var c := cycles[i];
      TraceFrom(Running(err, down), cycles, i);
      if !c.linkUp {
        down := down + 1;
        if down >= NET_DOWN_LIMIT {
          if !c.rebindOk {
            Concat(events, Event(false, true), []);
            return Reset, events + [Event(false, true)];
          }
          err, down := 0, 0;
          Concat(events, Event(false, true), Trace(START, cycles[i + 1..]).1);
          events := events + [Event(false, true)];
        } else {
          Concat(events, Event(false, false), Trace(Running(err, down), cycles[i + 1..]).1);
          events := events + [Event(false, false)];
        }
      } else {
        down := 0;
        if c.handledOk {
          err := 0;
        } else {
          err := err + 1;
        }
        var restarted := false;
        if err >= ERR_LIMIT {
          if !c.rebindOk {
            Concat(events, Event(true, true), []);
            return Reset, events + [Event(true, true)];
          }
          err, restarted := 0, true;
        }
        Concat(events, Event(true, restarted), Trace(Running(err, down), cycles[i + 1..]).1);
        events := events + [Event(true, restarted)];
      }
      i := i + 1;
    }
    assert cycles[i..] == [];
    assert events + [] == events;
    s := Running(err, down);
  }

  /** The pass at index i, then the rest of the script. */
  lemma TraceFrom(s: State, cs: seq<Cycle>, i: nat)
    requires s.Running? && i < |cs|
    ensures var (s1, e) := Tick(s, cs[i]);
      Trace(s, cs[i..]) == if s1.Reset? then (Reset, [e]) else (Trace(s1, cs[i + 1..]).0, [e] + Trace(s1, cs[i + 1..]).1)
  {
    assert cs[i..][1..] == cs[i + 1..];
    assert Trace(Reset, cs[i + 1..]) == (Reset, []);
    assert [Tick(s, cs[i]).1] + [] == [Tick(s, cs[i]).1];
  }

  lemma Concat(es: seq<Event>, e: Event, rest: seq<Event>)
    ensures es + ([e] + rest) == (es + [e]) + rest
  {
  }

  // ---------------------------------------------------------------------
  // What the loop guarantees
  // ---------------------------------------------------------------------

  predicate Bounded(s: State) {
    s.Running? ==> s.err < ERR_LIMIT && s.down < NET_DOWN_LIMIT
  }

  /**
   * One pass: a down link serves nobody and counts one more down check, an up
   * link clears the down counter and serves one client, a served client
   * that reports OK clears the error counter, and a restart leaves both
   * counters at zero unless the re-bind fails and the device resets.
   */
  lemma TickCounters(s: State, c: Cycle)
    requires s.Running? && Bounded(s)
    ensures var (s', e) := Tick(s, c);
      Bounded(s')
      && (e.handled <==> c.linkUp)
      && (s'.Reset? <==> e.restarted && !c.rebindOk)
      && (e.restarted && c.rebindOk ==> s' == START)
      && (!c.linkUp && !e.restarted ==> s' == Running(s.err, s.down + 1))
      && (c.linkUp && !e.restarted ==> s'.down == 0 && s'.err == (if c.handledOk then 0 else s.err + 1))
      && (e.restarted <==> (if c.linkUp then !c.handledOk && s.err + 1 == ERR_LIMIT else s.down + 1 == NET_DOWN_LIMIT))
  {
  }

  /** The counters stay below their limits on every pass. */
  lemma {:induction false} TraceBounded(s: State, cs: seq<Cycle>)
    requires Bounded(s)
    ensures Bounded(Trace(s, cs).0) && |Trace(s, cs).1| <= |cs|
    decreases |cs|
  {
    if cs != [] && s.Running? {
      TickCounters(s, cs[0]);
      TraceBounded(Tick(s, cs[0]).0, cs[1..]);
    }
  }

  /** The device is reset exactly when a restart's re-bind fails, and then the loop has ended. */
  lemma {:induction false} TraceLength(s: State, cs: seq<Cycle>)
    requires s.Running?
    ensures var (s', es) := Trace(s, cs);
      (s'.Running? ==> |es| == |cs|) && (s'.Reset? ==> 0 < |es| && es[|es| - 1].restarted)
    decreases |cs|
  {
    if cs != [] {
      var (s1, e) := Tick(s, cs[0]);
      if s1.Running? {
        TraceLength(s1, cs[1..]);
      }
    }
  }

  /**
   * With the link down the loop serves nobody, and from down checks already
   * counted it restarts on the pass that makes the count NET_DOWN_LIMIT and
   * on no earlier one.
   */
  lemma {:induction false} LinkDownRestarts(s: State, cs: seq<Cycle>)
    requires s.Running? && s.down < NET_DOWN_LIMIT
    requires |cs| == NET_DOWN_LIMIT - s.down
    requires forall k :: 0 <= k < |cs| ==> !cs[k].linkUp
    ensures var es := Trace(s, cs).1;
      |es| == |cs| && es[|cs| - 1].restarted
      && (forall k :: 0 <= k < |es| ==> !es[k].handled)
      && (forall k :: 0 <= k < |cs| - 1 ==> !es[k].restarted)
    decreases |cs|
  {
    var (s1, e) := Tick(s, cs[0]);
    if |cs| > 1 {
      assert s1 == Running(s.err, s.down + 1);
      LinkDownRestarts(s1, cs[1..]);
    }
  }

  /**
   * With the link up and every request failing, the loop serves a client
   * each pass and restarts on the pass that makes the error count
   * ERR_LIMIT, and on no earlier one.
   */
  lemma {:induction false} ErrorStormRestarts(s: State, cs: seq<Cycle>)
    requires s.Running? && s.err < ERR_LIMIT
    requires |cs| == ERR_LIMIT - s.err
    requires forall k :: 0 <= k < |cs| ==> cs[k].linkUp && !cs[k].handledOk
    ensures var es := Trace(s, cs).1;
      |es| == |cs| && es[|cs| - 1].restarted
      && (forall k :: 0 <= k < |es| ==> es[k].handled)
      && (forall k :: 0 <= k < |cs| - 1 ==> !es[k].restarted)
    decreases |cs|
  {
    var (s1, e) := Tick(s, cs[0]);
    if |cs| > 1 {
      assert s1 == Running(s.err + 1, 0);
      ErrorStormRestarts(s1, cs[1..]);
    }
  }

  /** Without a failed request there is no error-storm restart: with the link always up and every request OK, no pass restarts. */
  lemma {:induction false} HealthyNeverRestarts(s: State, cs: seq<Cycle>)
    requires s.Running?
    requires forall k :: 0 <= k < |cs| ==> cs[k].linkUp && cs[k].handledOk
    ensures var (s', es) := Trace(s, cs);
      s' == (if cs == [] then s else START) && |es| == |cs|
      && forall k :: 0 <= k < |es| ==> es[k] == Event(true, false)
    decreases |cs|
  {
    if cs != [] {
      HealthyNeverRestarts(Running(0, 0), cs[1..]);
    }
  }
}
