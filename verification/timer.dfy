/**
 The countdown widget of the clock: the state one `Timer` instance keeps and
 the transitions React drives it through, as pure functions over an immutable
 record. Wall-clock time is absent: each firing of the one-second interval is
 an explicit `Tick`.
 */
module Timer {

  /** The first identity the static counter hands out. */
  const FirstId: int := 1

  /** One press of the rotation icon, and the turn at which the angle wraps (degrees). */
  const QuarterTurn: int := 90
  const FullTurn: int := 360

  /** The host's `active` prop: null, or the identity of the timer that should run. */
  datatype ActiveToken = Nobody | Token(id: int)

  /** The props one render hands to an instance (the click callback is left out). */
  datatype Props = Props(initialValue: int, isPaused: bool, active: ActiveToken)

  /**
   The interval handle as two facts: `recorded` is "`intervalId` is not null",
   which is what the start guard looks at; `live` is "the interval is still
   scheduled", which is what lets a tick fire.
   */
  datatype Handle = Handle(recorded: bool, live: bool)

  const NoHandle: Handle := Handle(false, false)
  const Running: Handle := Handle(true, true)

  /** One instance: its identity, the last-seen duration, the countdown, the angle and the handle. */
  datatype TimerState = TimerState(id: int, initialValue: int, value: int, angle: int, handle: Handle)

  /** Every transition keeps a scheduled interval remembered by its owner. */
  predicate WellFormed(t: TimerState)
  {
    t.handle.live ==> t.handle.recorded
  }

  /** The four orientations the rotation icon can reach from the initial angle. */
  predicate RightAngle(a: int)
  {
    a == 0 || a == QuarterTurn || a == 2 * QuarterTurn || a == 3 * QuarterTurn
  }

  /** The countdown never exceeds the last-seen duration, and the angle is a right angle. */
  predicate Bounded(t: TimerState)
  {
    t.value <= t.initialValue && RightAngle(t.angle)
  }

  // ---------------------------------------------------------------------------
  // Identity allocation
  // ---------------------------------------------------------------------------

  /** A freshly constructed instance together with the counter after it. */
  datatype Created = Created(timer: TimerState, next: int)

  /** The constructor: take the counter's value as identity and advance it; state starts at the duration. */
  function Construct(next: int, initialValue: int): (r: Created)
    ensures r.timer.id == next < r.next
    ensures r.timer.value == r.timer.initialValue == initialValue
    ensures r.timer.angle == 0 && r.timer.handle == NoHandle
    ensures WellFormed(r.timer)
  {
    Created(TimerState(next, initialValue, initialValue, 0, NoHandle), next + 1)
  }

  /**
   Constructs one instance per duration, in order, from counter value `next`.
   Each identity is larger than every identity handed out before it, and the
   counter ends above all of them.
   */
  function ConstructAll(next: int, inits: seq<int>): (r: (seq<TimerState>, int))
    ensures |r.0| == |inits| && r.1 == next + |inits|
    ensures forall k :: 0 <= k < |r.0| ==> next <= r.0[k].id < r.1
    ensures forall k :: 0 <= k < |r.0| ==> r.0[k].value == r.0[k].initialValue == inits[k]
    ensures forall j, k :: 0 <= j < k < |r.0| ==> r.0[j].id < r.0[k].id
    decreases |inits|
  {
    if inits == [] then ([], next)
    else
      var c := Construct(next, inits[0]);
      var rest := ConstructAll(c.next, inits[1..]);
      ([c.timer] + rest.0, rest.1)
  }

  // ---------------------------------------------------------------------------
  // Rotation
  // ---------------------------------------------------------------------------

  /** JavaScript's `%`: the remainder truncates toward zero, so it takes the sign of `a`. */
  function JsRemainder(a: int, b: int): (r: int)
    requires b > 0
    ensures a >= 0 ==> 0 <= r < b
    ensures a < 0 ==> -b < r <= 0
  {
    if a >= 0 then a % b else -((-a) % b)
  }

  /** The rotation icon: a quarter turn, wrapping at a full turn; nothing but the angle changes. */
  function Rotate(t: TimerState): (r: TimerState)
    ensures r == t.(angle := r.angle)
    ensures 0 <= t.angle < FullTurn - QuarterTurn ==> r.angle == t.angle + QuarterTurn
    ensures FullTurn - QuarterTurn <= t.angle < FullTurn ==> r.angle == t.angle + QuarterTurn - FullTurn
    ensures RightAngle(t.angle) ==> RightAngle(r.angle)
  {
    t.(angle := JsRemainder(t.angle + QuarterTurn, FullTurn))
  }

  /** Four quarter turns bring any angle of the first turn back to where it was. */
  lemma RotateFourTimes(t: TimerState)
    requires 0 <= t.angle < FullTurn
    ensures Rotate(Rotate(Rotate(Rotate(t)))) == t
  {
    var a := t.angle;
    if a < QuarterTurn {
      assert Rotate(Rotate(Rotate(t))).angle == a + 3 * QuarterTurn;
    } else if a < 2 * QuarterTurn {
      assert Rotate(Rotate(Rotate(t))).angle == a - QuarterTurn;
    } else if a < 3 * QuarterTurn {
      assert Rotate(Rotate(t)).angle == a - 2 * QuarterTurn;
    } else {
      assert Rotate(t).angle == a - 3 * QuarterTurn;
    }
  }

  /** From the initial angle the icon cycles 0, 90, 180, 270 and back to 0. */
  lemma RotateCycle(t: TimerState)
    requires t.angle == 0
    ensures Rotate(t).angle == QuarterTurn
    ensures Rotate(Rotate(t)).angle == 2 * QuarterTurn
    ensures Rotate(Rotate(Rotate(t))).angle == 3 * QuarterTurn
    ensures Rotate(Rotate(Rotate(Rotate(t)))) == t
  {
    RotateFourTimes(t);
  }

  // ---------------------------------------------------------------------------
  // Starting, ticking and stopping
  // ---------------------------------------------------------------------------

  /**
   The guarded start: a recorded handle makes it a no-op; otherwise a running
   interval is created only for a positive countdown while the host is not
   paused. The guard looks at the pause flag only, never at the active token.
   */
  function StartTimer(t: TimerState, isPaused: bool): (r: TimerState)
    ensures r == t.(handle := r.handle)
    ensures t.handle.recorded ==> r == t
    ensures !t.handle.recorded ==> (r.handle.recorded <==> t.value > 0 && !isPaused)
    ensures !t.handle.recorded && r.handle.recorded ==> r.handle.live
    ensures WellFormed(t) ==> WellFormed(r)
  {
    if t.handle.recorded then t
    else if t.value > 0 && !isPaused then t.(handle := Running)
    else t
  }

  /** Starting twice is starting once: the second start never schedules a second interval. */
  lemma StartTimerIdempotent(t: TimerState, isPaused: bool)
    ensures StartTimer(StartTimer(t, isPaused), isPaused) == StartTimer(t, isPaused)
  {
  }

  /**
   One firing of the interval: the countdown drops by exactly one, and when it
   lands on exactly 0 the interval is cancelled, but the recorded handle stays.
   There is no clamp: a countdown already at or below 0 keeps falling and the
   interval keeps firing.
   */
  function Tick(t: TimerState): (r: TimerState)
    requires t.handle.live
    ensures r == t.(value := r.value, handle := r.handle)
    ensures r.value == t.value - 1
    ensures r.handle.recorded == t.handle.recorded
    ensures r.handle.live <==> r.value != 0
  {
    var v := t.value - 1;
    t.(value := v, handle := if v == 0 then t.handle.(live := false) else t.handle)
  }

  /** The guarded stop: a recorded handle is cancelled and forgotten; progress is kept. */
  function ClearInterval(t: TimerState): (r: TimerState)
    ensures r == t.(handle := r.handle)
    ensures WellFormed(t) ==> r.handle == NoHandle
    ensures !t.handle.recorded ==> r == t
  {
    if t.handle.recorded then t.(handle := NoHandle) else t
  }

  /** Stopping a stopped timer is a no-op. */
  lemma ClearIntervalIdempotent(t: TimerState)
    ensures ClearInterval(ClearInterval(t)) == ClearInterval(t)
  {
  }

  /** Unmounting stops the interval, so no scheduled interval outlives its instance. */
  function Unmount(t: TimerState): (r: TimerState)
    ensures WellFormed(t) ==> !r.handle.recorded && !r.handle.live
    ensures r.value == t.value
  {
    ClearInterval(t)
  }

  // ---------------------------------------------------------------------------
  // Activation and the render-time reconcile
  // ---------------------------------------------------------------------------

  /**
   The instance is the active one exactly when the host's token is its
   identity; a null token makes no instance active.
   */
  function IsActive(t: TimerState, active: ActiveToken): (r: bool)
    ensures r <==> active.Token? && active.id == t.id
    ensures active == Nobody ==> !r
  {
    active == Token(t.id)
  }

  /** Two instances with different identities are never both active. */
  lemma ActiveIsExclusive(t: TimerState, u: TimerState, active: ActiveToken)
    requires t.id != u.id
    ensures !(IsActive(t, active) && IsActive(u, active))
  {
  }

  /**
   The reconcile run on every render: the active instance of an unpaused host
   is started (through the guarded start), every other instance is stopped.
   Progress is never touched.
   */
  function CheckIfActive(t: TimerState, p: Props): (r: TimerState)
    ensures r == t.(handle := r.handle)
    ensures WellFormed(t) ==> WellFormed(r)
    ensures WellFormed(t) && r.handle.live ==> IsActive(t, p.active) && !p.isPaused
    ensures WellFormed(t) && !(IsActive(t, p.active) && !p.isPaused) ==> r.handle == NoHandle
    ensures IsActive(t, p.active) && !p.isPaused && t.handle.recorded ==> r == t
    ensures IsActive(t, p.active) && !p.isPaused && !t.handle.recorded && t.value > 0 ==> r.handle == Running
    ensures IsActive(t, p.active) && !p.isPaused && !t.handle.recorded && t.value <= 0 ==> r == t
  {
    if IsActive(t, p.active) && !p.isPaused then StartTimer(t, p.isPaused)
    else ClearInterval(t)
  }

  /** Reconciling again with the same props changes nothing. */
  lemma CheckIfActiveIdempotent(t: TimerState, p: Props)
    ensures CheckIfActive(CheckIfActive(t, p), p) == CheckIfActive(t, p)
  {
  }

  /** A press: emit the instance's identity to the host, then start at once. */
  datatype Clicked = Clicked(timer: TimerState, emitted: int)

  /**
   The press handler: the identity goes to the host's callback, and the start
   is attempted immediately, before the host has confirmed the activation, so
   the instance may start while another token is still active.
   */
  function HandleButtonClick(t: TimerState, p: Props): (r: Clicked)
    ensures r.emitted == t.id
    ensures r.timer.value == t.value
    ensures r.timer == StartTimer(t, p.isPaused)
    ensures !t.handle.recorded && t.value > 0 && !p.isPaused ==> r.timer.handle == Running
  {
    Clicked(StartTimer(t, p.isPaused), t.id)
  }

  // ---------------------------------------------------------------------------
  // Resynchronising with the configured duration
  // ---------------------------------------------------------------------------

  /**
   The derived-state hook: a duration different from the recorded one resets
   the countdown to it and is recorded; an equal one changes nothing. The angle
   and the handle are never touched, so a live interval keeps counting down the
   reset value.
   */
  function DeriveStateFromProps(t: TimerState, initialValue: int): (r: TimerState)
    ensures r == t.(initialValue := r.initialValue, value := r.value)
    ensures r.initialValue == initialValue
    ensures initialValue != t.initialValue ==> r.value == initialValue
    ensures initialValue == t.initialValue ==> r == t
  {
    if initialValue != t.initialValue then t.(initialValue := initialValue, value := initialValue)
    else t
  }

  /** A render: the derived-state hook with the incoming duration, then the reconcile. */
  function Render(t: TimerState, p: Props): (r: TimerState)
    ensures r.id == t.id && r.angle == t.angle && r.initialValue == p.initialValue
    ensures r.value == if p.initialValue != t.initialValue then p.initialValue else t.value
    ensures WellFormed(t) ==> WellFormed(r)
    ensures WellFormed(t) && r.handle.live ==> IsActive(t, p.active) && !p.isPaused
    ensures WellFormed(t) && !(IsActive(t, p.active) && !p.isPaused) ==> r.handle == NoHandle
    ensures WellFormed(t) && IsActive(t, p.active) && !p.isPaused ==>
      r.handle == if t.handle.recorded then t.handle else if r.value > 0 then Running else NoHandle
    ensures t.value <= t.initialValue ==> r.value <= r.initialValue
  {
    CheckIfActive(DeriveStateFromProps(t, p.initialValue), p)
  }

  /** Rendering again with the same props changes nothing. */
  lemma RenderIdempotent(t: TimerState, p: Props)
    ensures Render(Render(t, p), p) == Render(t, p)
  {
    var d := DeriveStateFromProps(t, p.initialValue);
    CheckIfActiveIdempotent(d, p);
  }

  // ---------------------------------------------------------------------------
  // Runs of ticks
  // ---------------------------------------------------------------------------

  /** Up to `n` firings of the interval; once it is no longer live nothing fires. */
  function Countdown(t: TimerState, n: nat): (r: TimerState)
    ensures r == t.(value := r.value, handle := r.handle)
    ensures t.value - n <= r.value <= t.value
    ensures r.handle.recorded == t.handle.recorded
    ensures r.value < t.value ==> t.handle.live
    ensures r.handle.live ==> t.handle.live
    decreases n
  {
    if n == 0 || !t.handle.live then t else Countdown(Tick(t), n - 1)
  }

  /**
   From a live countdown at `v > 0`, `k <= v` firings leave `v - k` on the
   clock; the interval is live until the `v`-th firing and not after it, and the
   handle stays recorded throughout.
   */
  lemma {:induction false} CountdownReachesZero(t: TimerState, k: nat)
    requires t.handle.live && t.value > 0 && k <= t.value
    ensures Countdown(t, k) == t.(value := t.value - k, handle := Countdown(t, k).handle)
    ensures Countdown(t, k).handle.recorded == t.handle.recorded
    ensures Countdown(t, k).handle.live <==> k < t.value
    decreases k
  {
    if k > 0 {
      var u := Tick(t);
      if u.value == 0 {
        assert k == 1;
      } else {
        CountdownReachesZero(u, k - 1);
      }
    }
  }

  /** Firings compose: `a + b` firings are `a` firings followed by `b` more. */
  lemma {:induction false} CountdownSplit(t: TimerState, a: nat, b: nat)
    ensures Countdown(t, a + b) == Countdown(Countdown(t, a), b)
    decreases a
  {
    if a > 0 && t.handle.live {
      CountdownSplit(Tick(t), a - 1, b);
    } else if a > 0 {
      assert Countdown(t, a) == t;
      assert Countdown(t, a + b) == t;
      if b > 0 {
        assert Countdown(t, b) == t;
      }
    }
  }

  /**
   From a live countdown at `v > 0`, exactly `v` firings reach 0; any later
   firings change nothing, and no run ever shows a negative value.
   */
  lemma CountdownStopsAtZero(t: TimerState, n: nat)
    requires t.handle.live && t.value > 0
    ensures Countdown(t, t.value).value == 0 && !Countdown(t, t.value).handle.live
    ensures n >= t.value ==> Countdown(t, n) == Countdown(t, t.value)
    ensures Countdown(t, n).value >= 0
  {
    CountdownReachesZero(t, t.value);
    if n >= t.value {
      CountdownSplit(t, t.value, n - t.value);
      var s := Countdown(t, t.value);
      if n - t.value > 0 {
        assert Countdown(s, n - t.value) == s;
      }
    } else {
      CountdownReachesZero(t, n);
    }
  }

  /**
   The interval callback compares with 0 exactly and never clamps: a live
   interval whose countdown was set to 0 or below keeps firing and the value
   falls by one per firing without bound.
   */
  lemma {:induction false} CountdownWithoutClamp(t: TimerState, n: nat)
    requires t.handle.live && t.value <= 0
    ensures Countdown(t, n).value == t.value - n
    ensures Countdown(t, n).handle.live
    decreases n
  {
    if n > 0 {
      CountdownWithoutClamp(Tick(t), n - 1);
    }
  }
}
