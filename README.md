# Debounced switch driver, modelled in Dafny

This project models the MicroPython driver `Switch` (`code/switch.py`). The driver watches one GPIO
pin that a mechanical switch is wired to. Its interrupt handler runs on every raw edge of the pin. It
reads the millisecond tick counter and passes the edge on to the user callback only when strictly more
than `debounce_ms` ticks have gone by since the last edge it passed on. The edges in between are
contact bounce and are dropped silently.

Files:

- `ticks.dfy` (module `Ticks`) models MicroPython's tick arithmetic. A `Tick` is a counter reading
  below `TICKS_PERIOD` (2^30, the period on MicroPython's 32-bit ports). `TicksAdd` is
  `time.ticks_add`. `TicksDiff` is `time.ticks_diff`: the signed difference modulo the period, read
  back into `[-TICKS_PERIOD/2, TICKS_PERIOD/2)`.
- `switch.dfy` (module `Debounce`) holds the class `Switch` with the driver's fields
  (`debounceMs`, `lastTrigger`). It also holds the user callback as a log of invocations and the
  pure specification of the debounce policy over a stream of edges (`Accepts`, `Accepted`).
  `Switch.Valid()` is the object invariant. It says that the callbacks so far fired at exactly the
  edges that `Accepted` picks out of every edge the handler was given, and that `lastTrigger` is the
  last of them.

The hardware is replaced by parameters. The tick reading `time.ticks_ms()` that the handler takes on
entry is the handler's argument `now`. The pin object that the interrupt passes to the handler is the
argument `pin`; on the device that is always the switch's own pin, and `BounceScenario` passes
`pinNum`, but the handler's contract does not tie the two together. Each call of the user callback is
appended to `callbacks` as a `Callback(pin, lastTrigger)` record. `lastTrigger` is the value the
callback sees while it runs, so the record shows that the field was updated before the call.

Behaviour of the code worth knowing, each stated by a lemma:

- The initial `last_trigger = 0` is an ordinary tick, not a "never fired" mark. Edges at ticks up to
  `debounce_ms` after start-up are dropped, so edges at 0, 50, 100, 250, 260 and 500 fire at 250 and
  500 only (`StartupWindowDiscarded`, `BounceScenarioAccepted`, `BounceScenario`).
- `last_trigger` only moves forward modulo the counter period. Each accepted edge is more than
  `debounce_ms` ticks after the previous one as `ticks_diff` measures it, but the stored value drops
  back numerically when the counter wraps (`AcceptedAreSpaced`, `LastTriggerWrapsAround`).
- An edge that comes half a period (2^29 ms, about 6.2 days) or more after the last accepted one reads
  as a negative difference and is rejected. A rejection does not move `last_trigger`, so a switch left
  idle that long ignores every press for up to another half period (`IdleLockout`). For the same
  reason, a switch whose first presses come at `ticks_ms() >= 2^29` ignores them until the counter
  wraps past 0 (`LateStartIgnored`).
- The interval `debounce_ms` is not checked, so a negative value is accepted. The model takes any integer interval, and the lemmas that need a
  non-negative interval say so in their preconditions.

## Model

| member | source | states |
|---|---|---|
| `Ticks.TicksDiff` | code/switch.py:60 | `ticks_diff(t1, t2)` lies in `[-TICKS_PERIOD/2, TICKS_PERIOD/2)`, and adding it to `t2` with wrap-around gives back `t1` |
| `Ticks.TicksDiffOfAdd` | code/switch.py:60 | wrap-around safety: a reading taken `e` ticks after `t`, with `|e|` below half a period, has `ticks_diff` exactly `e`, across a counter overflow too |
| `Ticks.TicksDiffUnique` | code/switch.py:60 | `ticks_diff` is the only value in its range that leads from `t2` to `t1` |
| `Ticks.TicksDiffNoWrap` | code/switch.py:60 | with no overflow in between and less than half a period apart, `ticks_diff` is plain subtraction |
| `Ticks.TicksDiffSelf` | code/switch.py:60 | a reading compared with itself gives zero elapsed ticks |
| `Debounce.Switch.constructor` | code/switch.py:48-52 | a new switch has `lastTrigger == 0`, the given pin and interval (default 200), no callbacks, no edges, and satisfies the invariant |
| `Debounce.Switch.InternalHandler` | code/switch.py:57-63 | the edge is accepted iff `ticks_diff(now, lastTrigger) > debounceMs`. On acceptance `lastTrigger` becomes `now` and exactly one callback with `pin` is logged, and that callback sees the new `lastTrigger`. On rejection nothing changes. `debounceMs` never changes. The invariant is kept |
| `Debounce.Accepted` | code/switch.py:57-63 | the edges accepted out of a stream (each compared with the last accepted one, which changes only on acceptance) number at most the edges, one callback per edge at most |
| `Debounce.AcceptsIffElapsed` | code/switch.py:58-60 | an edge really `e` ticks after the last trigger (`|e|` below half a period) is accepted iff `e > debounceMs`, so an edge in the negative half of the period is rejected when `debounceMs >= 0` |
| `Debounce.StrictBoundary` | code/switch.py:60 | an edge exactly `debounceMs` ticks after the last trigger is rejected, and one at `debounceMs + 1` is accepted |
| `Debounce.NoRefireWithinWindow` | code/switch.py:60-61 | after an accepted edge, no edge within `debounceMs` ticks is accepted, including a second edge at the same tick |
| `Debounce.StartupWindowDiscarded` | code/switch.py:52-60 | the initial 0 is a real tick: a new switch with `debounceMs >= 0` rejects every edge at a tick up to `debounceMs` |
| `Debounce.LastTriggerWrapsAround` | code/switch.py:60-61 | an edge right after the counter wraps is accepted and replaces a numerically larger last trigger |
| `Debounce.IdleLockout` | code/switch.py:60-61 | with `debounceMs >= 0`, an edge that really comes between half a period and a full period after the last trigger is rejected |
| `Debounce.LateStartIgnored` | code/switch.py:52-61 | with `debounceMs >= 0`, a new switch accepts nothing from a stream whose every edge is at a tick up to `debounceMs` or in the upper half of the counter range |
| `Debounce.AcceptedAreSpaced` | code/switch.py:60-61 | over any stream, every accepted edge is more than `debounceMs` ticks (by `ticks_diff`) after the previously accepted one, or after the initial last trigger for the first |
| `Debounce.AcceptedFromEdges` | code/switch.py:61 | every accepted tick is the tick of one of the raw edges |
| `Debounce.AcceptedOfPrefix` | code/switch.py:60-61 | an acceptance is never undone: the edges accepted from a prefix of the stream are a prefix of those accepted from the whole stream |
| `Debounce.BounceScenarioAccepted` | code/switch.py:48-63 | with the default interval, edges at 0, 50, 100, 250, 260 and 500 are accepted at 250 and 500 only |
| `Debounce.BounceScenario` | code/switch.py:48-63 | driving a new `Switch` through those six edges logs callbacks at ticks 250 and 500 only |

## Left out

- Debounce.Switch.constructor: models no failure path: on the device, `machine.Pin(...)`
  (code/switch.py:49) raises for an unusable pin and `pin.irq(...)` (code/switch.py:55) can raise too,
  so constructing a `Switch` can fail with that exception; the model's constructor always succeeds.
- Pin construction `machine.Pin(pin_num, machine.Pin.IN)` and interrupt registration `pin.irq(...)`
  (code/switch.py:49, 55) are hardware calls. The constructor keeps the pin number and accepts the
  trigger polarity, but it registers nothing.
- `value()` (code/switch.py:68-69) reads the pin level through the hardware. It is not modelled,
  because it does not touch the debounce state.
- `time.ticks_ms()` (code/switch.py:58) is a clock. Its reading is the handler's `now` argument.
- The user callback's body is opaque user code. Each call is recorded in `callbacks`, and exceptions
  raised from the callback are not modelled.
- Interrupt context, preemption and re-entrancy are not modelled. Handler calls form a sequential
  stream.
- `TICKS_PERIOD` is fixed at 2^30. MicroPython ports with another period are not covered. The
  properties hold for any power-of-two period, but they are proved for this one only.
- The offline square-wave plotting script (support_code/fig_square_wave.py) is floating-point
  plotting with no logic to verify. It is not part of this model.
