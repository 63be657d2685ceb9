/**
 * The debounced switch driver: a `Switch` bound to one GPIO pin whose
 * interrupt handler passes an edge on to the user callback only when more
 * than `debounceMs` ticks have gone by since the last edge it passed on.
 *
 * The hardware clock is a parameter of the handler (the tick reading taken on
 * entry), and each invocation of the user callback is recorded in a log.
 */
module Debounce {
  import opened Ticks

  /** The edge polarity that the pin's interrupt is registered for. */
  datatype Trigger = IrqRising | IrqFalling | IrqBoth

  /** The debounce interval used when the caller gives none. */
  const DEFAULT_DEBOUNCE_MS: int := 200

  /** The tick a new switch treats as its last accepted edge. */
  const INITIAL_LAST_TRIGGER: Tick := 0

  /** One invocation of the user callback: the pin it was passed and the
      last-trigger tick the switch held while the callback ran. */
  datatype Callback = Callback(pin: int, lastTrigger: Tick)

  /** The handler's decision: an edge at `now` is passed on exactly when it
      comes strictly more than `debounceMs` ticks after `lastTrigger`. */
  predicate Accepts(debounceMs: int, lastTrigger: Tick, now: Tick) {
    TicksDiff(now, lastTrigger) > debounceMs
  }

  /** The last accepted tick after accepting `fired`, starting from `start`. */
  function LastAccepted(start: Tick, fired: seq<Tick>): Tick {
    if fired == [] then start else fired[|fired| - 1]
  }

  /**
   * The ticks of the edges that a switch with interval `debounceMs` and
   * initial last trigger `start` accepts, out of the raw edges `edges`
   * delivered in order: each edge is compared with the last edge accepted
   * before it, which changes only on acceptance.
   */
  function Accepted(debounceMs: int, start: Tick, edges: seq<Tick>): (fired: seq<Tick>)
    ensures |fired| <= |edges|
    decreases |edges|
  {
    if edges == [] then []
    else
      var earlier := Accepted(debounceMs, start, edges[..|edges| - 1]);
      var now := edges[|edges| - 1];
      if Accepts(debounceMs, LastAccepted(start, earlier), now) then earlier + [now] else earlier
  }

  /** The ticks at which the logged callbacks saw the switch's last trigger. */
  function CallbackTicks(log: seq<Callback>): seq<Tick> {
    seq(|log|, i requires 0 <= i < |log| => log[i].lastTrigger)
  }

  /**
   * Wrap-around safe acceptance: an edge that really comes `e` ticks after
   * the last accepted one, for any `e` of magnitude below half the counter
   * period, is accepted exactly when `e > debounceMs`. In particular an edge
   * whose difference falls in the negative half of the period is rejected
   * whenever `debounceMs >= 0`.
   */
  lemma {:induction false} AcceptsIffElapsed(debounceMs: int, lastTrigger: Tick, e: int)
    requires InDiffRange(e)
    ensures Accepts(debounceMs, lastTrigger, TicksAdd(lastTrigger, e)) <==> e > debounceMs
  {
    TicksDiffOfAdd(lastTrigger, e);
  }

  /** The comparison is strict: an edge exactly `debounceMs` ticks after the
      last accepted one is rejected, one tick later it is accepted. */
  lemma {:induction false} StrictBoundary(debounceMs: int, lastTrigger: Tick)
    requires 0 <= debounceMs && debounceMs + 1 < TICKS_HALF
    ensures !Accepts(debounceMs, lastTrigger, TicksAdd(lastTrigger, debounceMs))
    ensures Accepts(debounceMs, lastTrigger, TicksAdd(lastTrigger, debounceMs + 1))
  {
    AcceptsIffElapsed(debounceMs, lastTrigger, debounceMs);
    AcceptsIffElapsed(debounceMs, lastTrigger, debounceMs + 1);
  }

  /** No edge within `debounceMs` ticks after an accepted edge is accepted,
      a second edge at the same tick included. */
  lemma {:induction false} NoRefireWithinWindow(debounceMs: int, accepted: Tick, e: int)
    requires 0 <= e <= debounceMs && e < TICKS_HALF
    ensures !Accepts(debounceMs, accepted, TicksAdd(accepted, e))
  {
    AcceptsIffElapsed(debounceMs, accepted, e);
  }

  /**
   * The initial last trigger of 0 is a real tick, not a "never fired" mark:
   * with a non-negative interval, a new switch rejects every edge whose tick
   * reading is at most `debounceMs`.
   */
  lemma {:induction false} StartupWindowDiscarded(debounceMs: int, now: Tick)
    requires 0 <= debounceMs && now <= debounceMs
    ensures !Accepts(debounceMs, INITIAL_LAST_TRIGGER, now)
  {
    if now < TICKS_HALF {
      assert TicksAdd(INITIAL_LAST_TRIGGER, now) == now;
      AcceptsIffElapsed(debounceMs, INITIAL_LAST_TRIGGER, now);
    } else {
      assert TicksAdd(INITIAL_LAST_TRIGGER, now - TICKS_PERIOD) == now;
      AcceptsIffElapsed(debounceMs, INITIAL_LAST_TRIGGER, now - TICKS_PERIOD);
    }
  }

  /**
   * The last trigger only moves forward modulo the counter period: an edge
   * taken just after the counter wrapped is accepted although its tick is
   * numerically smaller than the last trigger it replaces.
   */
  lemma {:induction false} LastTriggerWrapsAround()
    ensures var last: Tick, now: Tick := TICKS_PERIOD - 100, 150;
      now < last && Accepts(DEFAULT_DEBOUNCE_MS, last, now)
  {
    var last: Tick := TICKS_PERIOD - 100;
    assert TicksAdd(last, 250) == 150;
    AcceptsIffElapsed(DEFAULT_DEBOUNCE_MS, last, 250);
  }

  /**
   * A switch left idle for half a counter period or more goes deaf: an edge
   * that really comes `e` ticks after the last trigger, with
   * TICKS_PERIOD/2 <= e < TICKS_PERIOD, reads as a negative difference and is
   * rejected, and since a rejection leaves the last trigger where it was, so
   * are the edges after it until the counter comes round again.
   */
  lemma {:induction false} IdleLockout(debounceMs: int, lastTrigger: Tick, e: int)
    requires 0 <= debounceMs && TICKS_HALF <= e < TICKS_PERIOD
    ensures !Accepts(debounceMs, lastTrigger, TicksAdd(lastTrigger, e))
  {
    assert TicksAdd(lastTrigger, e) == TicksAdd(lastTrigger, e - TICKS_PERIOD);
    AcceptsIffElapsed(debounceMs, lastTrigger, e - TICKS_PERIOD);
  }

  /**
   * A new switch with a non-negative interval accepts nothing while every
   * edge's tick reading is either at most `debounceMs` or in the upper half
   * of the counter range: a first press taken at `ticks_ms() >= 2^29` is
   * ignored, and so are all later ones until the counter wraps past 0.
   */
  lemma {:induction false} LateStartIgnored(debounceMs: int, edges: seq<Tick>)
    requires 0 <= debounceMs
    requires forall i :: 0 <= i < |edges| ==> edges[i] <= debounceMs || TICKS_HALF <= edges[i]
    ensures Accepted(debounceMs, INITIAL_LAST_TRIGGER, edges) == []
    decreases |edges|
  {
    if edges != [] {
      var now := edges[|edges| - 1];
      LateStartIgnored(debounceMs, edges[..|edges| - 1]);
      if now <= debounceMs {
        StartupWindowDiscarded(debounceMs, now);
      } else {
        assert TicksAdd(INITIAL_LAST_TRIGGER, now) == now;
        IdleLockout(debounceMs, INITIAL_LAST_TRIGGER, now);
      }
    }
  }

  /**
   * Over any stream of edges, every accepted edge lies strictly more than
   * `debounceMs` ticks (as `ticks_diff` measures) after the previously
   * accepted one, or after the initial last trigger for the first.
   */
  lemma {:induction false} AcceptedAreSpaced(debounceMs: int, start: Tick, edges: seq<Tick>)
    ensures var fired := Accepted(debounceMs, start, edges);
      (fired != [] ==> TicksDiff(fired[0], start) > debounceMs) &&
      forall i :: 0 < i < |fired| ==> TicksDiff(fired[i], fired[i - 1]) > debounceMs
    decreases |edges|
  {
    if edges != [] {
      var prefix := edges[..|edges| - 1];
      AcceptedAreSpaced(debounceMs, start, prefix);
      var earlier := Accepted(debounceMs, start, prefix);
      var now := edges[|edges| - 1];
      if Accepts(debounceMs, LastAccepted(start, earlier), now) {
        var fired := earlier + [now];
        assert Accepted(debounceMs, start, edges) == fired;
        forall i | 0 < i < |fired|
          ensures TicksDiff(fired[i], fired[i - 1]) > debounceMs
        {
          if i < |earlier| {
            assert fired[i] == earlier[i] && fired[i - 1] == earlier[i - 1];
          } else {
            assert fired[i - 1] == LastAccepted(start, earlier);
          }
        }
      }
    }
  }

  /** Every accepted tick is the tick of one of the raw edges. */
  lemma {:induction false} AcceptedFromEdges(debounceMs: int, start: Tick, edges: seq<Tick>)
    ensures forall t :: t in Accepted(debounceMs, start, edges) ==> t in edges
    decreases |edges|
  {
    if edges != [] {
      var prefix := edges[..|edges| - 1];
      AcceptedFromEdges(debounceMs, start, prefix);
      assert edges == prefix + [edges[|edges| - 1]];
    }
  }

  /** Accepting is never undone: the edges accepted out of a prefix of the
      stream are a prefix of those accepted out of the whole stream. */
  lemma {:induction false} AcceptedOfPrefix(debounceMs: int, start: Tick, edges: seq<Tick>, k: nat)
    requires k <= |edges|
    ensures Accepted(debounceMs, start, edges[..k]) <= Accepted(debounceMs, start, edges)
    decreases |edges|
  {
    if k < |edges| {
      var prefix := edges[..|edges| - 1];
      assert edges[..k] == prefix[..k];
      AcceptedOfPrefix(debounceMs, start, prefix, k);
    } else {
      assert edges[..k] == edges;
    }
  }

  /** A stream's accepted edges grow by the one step the handler takes on the
      next edge, and by nothing else. */
  lemma AcceptedSnoc(debounceMs: int, start: Tick, edges: seq<Tick>, now: Tick)
    ensures Accepted(debounceMs, start, edges + [now]) ==
      var earlier := Accepted(debounceMs, start, edges);
      if Accepts(debounceMs, LastAccepted(start, earlier), now) then earlier + [now] else earlier
  {
    assert (edges + [now])[..|edges|] == edges;
  }

  /**
   * A debounced switch. `lastTrigger` and `debounceMs` are the driver's own
   * fields; `callbacks` records every invocation of the user callback, and
   * the ghost `edges` records every raw edge the handler was given.
   */
  class Switch {
    const pinNum: int
    var debounceMs: int
    var lastTrigger: Tick
    var callbacks: seq<Callback>
    ghost var edges: seq<Tick>

    /** The switch has run the debounce policy over the edges it was given:
        its callbacks fired at exactly the accepted edges, in order, and its
        last trigger is the last of them (or the initial 0). */
    ghost predicate Valid()
      reads this
    {
      CallbackTicks(callbacks) == Accepted(debounceMs, INITIAL_LAST_TRIGGER, edges) &&
      lastTrigger == LastAccepted(INITIAL_LAST_TRIGGER, CallbackTicks(callbacks))
    }

    /** `Switch(pin_num, callback, trigger, debounce_ms)`; the pin set-up and
        the interrupt registration are hardware calls and are not modelled. */
    constructor (pinNum: int, trigger: Trigger := IrqRising, debounceMs: int := DEFAULT_DEBOUNCE_MS)
      ensures Valid()
      ensures this.pinNum == pinNum && this.debounceMs == debounceMs
      ensures lastTrigger == INITIAL_LAST_TRIGGER
      ensures callbacks == [] && edges == []
    {
      this.pinNum := pinNum;
      this.debounceMs := debounceMs;
      lastTrigger := INITIAL_LAST_TRIGGER;
      callbacks := [];
      edges := [];
    }

    /**
     * The interrupt handler, run on each raw edge of the pin with the tick
     * reading `now` taken on entry. It accepts the edge exactly when more than
     * `debounceMs` ticks have passed since `lastTrigger`; then it sets
     * `lastTrigger` to `now` first and calls the callback with `pin` once.
     * A rejected edge changes nothing the driver holds.
     */
    method InternalHandler(pin: int, now: Tick) returns (fired: bool)
      requires Valid()
      modifies this`lastTrigger, this`callbacks, this`edges
      ensures Valid()
      ensures edges == old(edges) + [now]
      ensures fired <==> TicksDiff(now, old(lastTrigger)) > debounceMs
      ensures lastTrigger == if fired then now else old(lastTrigger)
      ensures callbacks == if fired then old(callbacks) + [Callback(pin, now)] else old(callbacks)
      ensures debounceMs == old(debounceMs)
    {
      AcceptedSnoc(debounceMs, INITIAL_LAST_TRIGGER, edges, now);
      if TicksDiff(now, lastTrigger) > debounceMs {
        lastTrigger := now;
        // the callback runs after the update and so sees the new last trigger
        callbacks := callbacks + [Callback(pin, lastTrigger)];
        fired := true;
      } else {
        fired := false;
      }
      edges := edges + [now];
    }
  }

  /**
   * The documented bounce scenario with the default interval: edges at ticks
   * 0, 50, 100, 250, 260 and 500 are accepted at 250 and 500 only; the edge
   * at 0 is discarded because the initial last trigger 0 counts as an
   * accepted edge.
   */
  lemma {:induction false} BounceScenarioAccepted()
    ensures Accepted(DEFAULT_DEBOUNCE_MS, INITIAL_LAST_TRIGGER, [0, 50, 100, 250, 260, 500]) == [250, 500]
  {
    var d, z := DEFAULT_DEBOUNCE_MS, INITIAL_LAST_TRIGGER;
    TicksDiffNoWrap(0, 0);
    AcceptedSnoc(d, z, [], 0);
    assert Accepted(d, z, [0]) == [];
    TicksDiffNoWrap(50, 0);
    AcceptedSnoc(d, z, [0], 50);
    assert [0] + [50] == [0, 50];
    assert Accepted(d, z, [0, 50]) == [];
    TicksDiffNoWrap(100, 0);
    AcceptedSnoc(d, z, [0, 50], 100);
    assert [0, 50] + [100] == [0, 50, 100];
    assert Accepted(d, z, [0, 50, 100]) == [];
    TicksDiffNoWrap(250, 0);
    AcceptedSnoc(d, z, [0, 50, 100], 250);
    assert [0, 50, 100] + [250] == [0, 50, 100, 250];
    assert Accepted(d, z, [0, 50, 100, 250]) == [250];
    TicksDiffNoWrap(260, 250);
    AcceptedSnoc(d, z, [0, 50, 100, 250], 260);
    assert [0, 50, 100, 250] + [260] == [0, 50, 100, 250, 260];
    assert Accepted(d, z, [0, 50, 100, 250, 260]) == [250];
    TicksDiffNoWrap(500, 250);
    AcceptedSnoc(d, z, [0, 50, 100, 250, 260], 500);
    assert [0, 50, 100, 250, 260] + [500] == [0, 50, 100, 250, 260, 500];
  }

  /** The same scenario driven through a new `Switch`: the callback runs
      twice, at ticks 250 and 500. */
  method BounceScenario() returns (firedAt: seq<Tick>)
    ensures firedAt == [250, 500]
  {
    var s := new Switch(5);
    // the interrupt passes the switch's own pin to the handler
    var pin := s.pinNum;
    var _ := s.InternalHandler(pin, 0);
    var _ := s.InternalHandler(pin, 50);
    var _ := s.InternalHandler(pin, 100);
    var _ := s.InternalHandler(pin, 250);
    var _ := s.InternalHandler(pin, 260);
    var _ := s.InternalHandler(pin, 500);
    assert s.edges == [0, 50, 100, 250, 260, 500];
    BounceScenarioAccepted();
    firedAt := CallbackTicks(s.callbacks);
  }
}
