/**
 The host around the timers: the list of mounted instances, the identity
 counter, the single `active` token, the `isPaused` flag and the configured
 duration it hands to every instance. Each event is applied atomically, in
 order, followed by the renders React performs for it: a change of the host's
 own state re-renders every instance; a state update inside one instance
 re-renders that instance only.
 */
module Host {
  import opened Timer

  datatype HostState = HostState(
    timers: seq<TimerState>,
    next: int,
    duration: int,
    paused: bool,
    active: ActiveToken)

  /** What can happen to the host: user presses, interval firings, and the host changing its own state. */
  datatype Event =
    | Mounted
    | Unmounted(i: nat)
    | Pressed(i: nat)
    | Fired(i: nat)
    | RotatePressed(i: nat)
    | ActiveSet(token: ActiveToken)
    | PauseSet(flag: bool)
    | DurationSet(seconds: int)

  function PropsOf(h: HostState): Props
  {
    Props(h.duration, h.paused, h.active)
  }

  predicate DistinctIds(ts: seq<TimerState>)
  {
    forall j, k :: 0 <= j < k < |ts| ==> ts[j].id != ts[k].id
  }

  predicate IdsBelow(ts: seq<TimerState>, next: int)
  {
    forall k :: 0 <= k < |ts| ==> ts[k].id < next
  }

  /** An instance is settled when one more render with the same props would change nothing. */
  predicate Settled(t: TimerState, p: Props)
  {
    WellFormed(t) && Render(t, p) == t
  }

  /**
   Identities are distinct and below the counter, every instance is settled,
   no countdown exceeds its duration and every angle is a right angle.
   */
  predicate Inv(h: HostState)
  {
    && DistinctIds(h.timers)
    && IdsBelow(h.timers, h.next)
    && (forall k :: 0 <= k < |h.timers| ==> Settled(h.timers[k], PropsOf(h)))
    && (forall k :: 0 <= k < |h.timers| ==> Bounded(h.timers[k]))
  }

  predicate AtMostOneLive(ts: seq<TimerState>)
  {
    forall j, k :: 0 <= j < |ts| && 0 <= k < |ts| && ts[j].handle.live && ts[k].handle.live ==> j == k
  }

  /** The host before any timer is mounted. */
  function Initial(duration: int, paused: bool): (h: HostState)
    ensures Inv(h) && h.timers == [] && h.next == FirstId
  {
    HostState([], FirstId, duration, paused, Nobody)
  }

  /** Every instance rendered once with the same props. */
  function RenderAll(ts: seq<TimerState>, p: Props): (r: seq<TimerState>)
    ensures |r| == |ts|
    ensures forall k :: 0 <= k < |ts| ==> r[k] == Render(ts[k], p)
  {
    seq(|ts|, k requires 0 <= k < |ts| => Render(ts[k], p))
  }

  /** The host's own state changed: every instance re-renders with the new props. */
  function Rerender(h: HostState): HostState
  {
    h.(timers := RenderAll(h.timers, PropsOf(h)))
  }

  function Step(h: HostState, e: Event): HostState
  {
    var p := PropsOf(h);
    match e
    case Mounted =>
      var c := Construct(h.next, h.duration);
      h.(timers := h.timers + [Render(c.timer, p)], next := c.next)
    case Unmounted(i) =>
      if i < |h.timers| then h.(timers := h.timers[..i] + h.timers[i + 1..]) else h
    case Pressed(i) =>
      if i < |h.timers| then
        var c := HandleButtonClick(h.timers[i], p);
        Rerender(h.(timers := h.timers[i := c.timer], active := Token(c.emitted)))
      else h
    case Fired(i) =>
      if i < |h.timers| && h.timers[i].handle.live then
        h.(timers := h.timers[i := Render(Tick(h.timers[i]), p)])
      else h
    case RotatePressed(i) =>
      if i < |h.timers| then h.(timers := h.timers[i := Render(Rotate(h.timers[i]), p)]) else h
    case ActiveSet(a) => Rerender(h.(active := a))
    case PauseSet(b) => Rerender(h.(paused := b))
    case DurationSet(d) => Rerender(h.(duration := d))
  }

  function Run(h: HostState, es: seq<Event>): HostState
    decreases |es|
  {
    if es == [] then h else Run(Step(h, es[0]), es[1..])
  }

  /** `k` firings of instance `i`'s interval and nothing else. */
  function Firings(i: nat, k: nat): (es: seq<Event>)
    ensures |es| == k && forall j :: 0 <= j < k ==> es[j] == Fired(i)
  {
    seq(k, _ => Fired(i))
  }

  // ---------------------------------------------------------------------------
  // Facts about one settled instance
  // ---------------------------------------------------------------------------

  /** A settled instance carries the configured duration, and runs only when active and unpaused. */
  lemma SettledFacts(t: TimerState, p: Props)
    requires Settled(t, p)
    ensures t.initialValue == p.initialValue
    ensures t.handle.live ==> IsActive(t, p.active) && !p.isPaused
    ensures !(IsActive(t, p.active) && !p.isPaused) ==> t.handle == NoHandle
  {
  }

  lemma RenderSettles(t: TimerState, p: Props)
    requires WellFormed(t)
    ensures Settled(Render(t, p), p)
  {
    RenderIdempotent(t, p);
  }

  /** Re-rendering settled instances with the same props changes nothing. */
  lemma RerenderSettledIsIdentity(ts: seq<TimerState>, p: Props)
    requires forall k :: 0 <= k < |ts| ==> Settled(ts[k], p)
    ensures RenderAll(ts, p) == ts
  {
  }

  /** Rendering every instance leaves every instance settled and keeps every identity. */
  lemma RenderAllSettles(ts: seq<TimerState>, p: Props)
    requires forall k :: 0 <= k < |ts| ==> WellFormed(ts[k])
    ensures forall k :: 0 <= k < |ts| ==> Settled(RenderAll(ts, p)[k], p)
    ensures forall k :: 0 <= k < |ts| ==> RenderAll(ts, p)[k].id == ts[k].id
  {
    forall k | 0 <= k < |ts|
      ensures Settled(RenderAll(ts, p)[k], p)
    {
      RenderSettles(ts[k], p);
    }
  }

  /**
   Reconciling every instance of a host whose identities are distinct leaves at
   most one live interval, and only the active instance of an unpaused host can
   hold it.
   */
  lemma RenderAllAtMostOneLive(ts: seq<TimerState>, p: Props)
    requires DistinctIds(ts)
    requires forall k :: 0 <= k < |ts| ==> WellFormed(ts[k])
    ensures AtMostOneLive(RenderAll(ts, p))
    ensures forall k :: 0 <= k < |ts| && RenderAll(ts, p)[k].handle.live ==> IsActive(ts[k], p.active) && !p.isPaused
  {
    var r := RenderAll(ts, p);
    forall j, k | 0 <= j < |r| && 0 <= k < |r| && r[j].handle.live && r[k].handle.live
      ensures j == k
    {
      assert IsActive(ts[j], p.active) && IsActive(ts[k], p.active);
      assert ts[j].id == ts[k].id;
    }
  }

  /** In a host that keeps its invariant, at most one instance has a live interval. */
  lemma InvAtMostOneLive(h: HostState)
    requires Inv(h)
    ensures AtMostOneLive(h.timers)
    ensures forall k :: 0 <= k < |h.timers| && h.timers[k].handle.live ==> IsActive(h.timers[k], h.active) && !h.paused
  {
    var p := PropsOf(h);
    forall k | 0 <= k < |h.timers|
      ensures WellFormed(h.timers[k])
    {
    }
    RerenderSettledIsIdentity(h.timers, p);
    RenderAllAtMostOneLive(h.timers, p);
  }

  // ---------------------------------------------------------------------------
  // The invariant is kept by every event
  // ---------------------------------------------------------------------------

  lemma RerenderKeepsInv(h: HostState)
    requires DistinctIds(h.timers) && IdsBelow(h.timers, h.next)
    requires forall k :: 0 <= k < |h.timers| ==> WellFormed(h.timers[k]) && Bounded(h.timers[k])
    ensures Inv(Rerender(h))
  {
    RenderAllSettles(h.timers, PropsOf(h));
  }

  lemma MountKeepsInv(h: HostState)
    requires Inv(h)
    ensures Inv(Step(h, Mounted))
  {
    var c := Construct(h.next, h.duration);
    RenderSettles(c.timer, PropsOf(h));
    var ts := h.timers + [Render(c.timer, PropsOf(h))];
    assert forall k :: 0 <= k < |h.timers| ==> ts[k] == h.timers[k];
  }

  lemma UnmountKeepsInv(h: HostState, i: nat)
    requires Inv(h) && i < |h.timers|
    ensures Inv(Step(h, Unmounted(i)))
  {
    var ts := h.timers;
    var rest := ts[..i] + ts[i + 1..];
    assert forall k :: 0 <= k < |rest| ==> rest[k] == ts[if k < i then k else k + 1];
  }

  lemma PressKeepsInv(h: HostState, i: nat)
    requires Inv(h) && i < |h.timers|
    ensures Inv(Step(h, Pressed(i)))
  {
    var ts := h.timers;
    var c := HandleButtonClick(ts[i], PropsOf(h));
    RerenderKeepsInv(h.(timers := ts[i := c.timer], active := Token(c.emitted)));
  }

  lemma UpdateKeepsInv(h: HostState, i: nat, u: TimerState)
    requires Inv(h) && i < |h.timers|
    requires WellFormed(u) && Bounded(u) && u.id == h.timers[i].id
    ensures Inv(h.(timers := h.timers[i := Render(u, PropsOf(h))]))
  {
    RenderSettles(u, PropsOf(h));
  }

  lemma {:induction false} StepKeepsInv(h: HostState, e: Event)
    requires Inv(h)
    ensures Inv(Step(h, e))
  {
    var ts := h.timers;
    match e
    case Mounted =>
      MountKeepsInv(h);
    case Unmounted(i) =>
      if i < |ts| {
        UnmountKeepsInv(h, i);
      }
    case Pressed(i) =>
      if i < |ts| {
        PressKeepsInv(h, i);
      }
    case Fired(i) =>
      if i < |ts| && ts[i].handle.live {
        UpdateKeepsInv(h, i, Tick(ts[i]));
      }
    case RotatePressed(i) =>
      if i < |ts| {
        UpdateKeepsInv(h, i, Rotate(ts[i]));
      }
    case ActiveSet(a) =>
      RerenderKeepsInv(h.(active := a));
    case PauseSet(b) =>
      RerenderKeepsInv(h.(paused := b));
    case DurationSet(d) =>
      RerenderKeepsInv(h.(duration := d));
  }

  /**
   From the empty host, or any host keeping the invariant, every run of events
   keeps identities distinct and leaves at most one live interval.
   */
  lemma {:induction false} RunKeepsInv(h: HostState, es: seq<Event>)
    requires Inv(h)
    ensures Inv(Run(h, es))
    ensures AtMostOneLive(Run(h, es).timers)
    ensures forall k :: 0 <= k < |Run(h, es).timers| ==>
      Run(h, es).timers[k].value <= Run(h, es).timers[k].initialValue && RightAngle(Run(h, es).timers[k].angle)
    decreases |es|
  {
    if es == [] {
      InvAtMostOneLive(h);
    } else {
      StepKeepsInv(h, es[0]);
      RunKeepsInv(Step(h, es[0]), es[1..]);
    }
  }

  // ---------------------------------------------------------------------------
  // Identities
  // ---------------------------------------------------------------------------

  /** A mounted instance takes the counter's value, strictly above every identity already in use. */
  lemma MountTakesFreshId(h: HostState)
    requires Inv(h)
    ensures |Step(h, Mounted).timers| == |h.timers| + 1
    ensures Step(h, Mounted).timers[|h.timers|].id == h.next
    ensures forall k :: 0 <= k < |h.timers| ==> h.timers[k].id < h.next
    ensures Step(h, Mounted).next > h.next
  {
  }

  // ---------------------------------------------------------------------------
  // Counting down inside the host
  // ---------------------------------------------------------------------------

  /** A firing of a settled instance is just a tick: the render after it changes nothing. */
  lemma FiredIsTick(h: HostState, i: nat)
    requires Inv(h) && i < |h.timers| && h.timers[i].handle.live
    ensures Step(h, Fired(i)) == h.(timers := h.timers[i := Tick(h.timers[i])])
  {
    var t := h.timers[i];
    SettledFacts(t, PropsOf(h));
  }

  /** `k` firings of instance `i` count it down exactly as `k` ticks would, and touch nothing else. */
  lemma {:induction false} HostCountdown(h: HostState, i: nat, k: nat)
    requires Inv(h) && i < |h.timers|
    ensures Run(h, Firings(i, k)) == h.(timers := h.timers[i := Countdown(h.timers[i], k)])
    decreases k
  {
    var t := h.timers[i];
    if k == 0 {
      assert h.timers[i := t] == h.timers;
    } else {
      assert Firings(i, k)[1..] == Firings(i, k - 1);
      if t.handle.live {
        FiredIsTick(h, i);
        var h1 := Step(h, Fired(i));
        StepKeepsInv(h, Fired(i));
        HostCountdown(h1, i, k - 1);
        assert h1.timers[i := Countdown(Tick(t), k - 1)] == h.timers[i := Countdown(t, k)];
      } else {
        HostCountdown(h, i, k - 1);
        assert h.timers[i := t] == h.timers;
      }
    }
  }

  /**
   A running instance at `v > 0` reaches exactly 0 after `v` firings and its
   interval stops; later firings change nothing and the value is never negative
   on the way. The handle stays recorded.
   */
  lemma HostCountdownToZero(h: HostState, i: nat, n: nat)
    requires Inv(h) && i < |h.timers|
    requires h.timers[i].handle.live && h.timers[i].value > 0
    ensures |Run(h, Firings(i, h.timers[i].value)).timers| == |h.timers|
    ensures |Run(h, Firings(i, n)).timers| == |h.timers|
    ensures Run(h, Firings(i, h.timers[i].value)).timers[i].value == 0
    ensures !Run(h, Firings(i, h.timers[i].value)).timers[i].handle.live
    ensures Run(h, Firings(i, h.timers[i].value)).timers[i].handle.recorded
    ensures n >= h.timers[i].value ==> Run(h, Firings(i, n)) == Run(h, Firings(i, h.timers[i].value))
    ensures Run(h, Firings(i, n)).timers[i].value >= 0
  {
    var t := h.timers[i];
    HostCountdown(h, i, t.value);
    HostCountdown(h, i, n);
    CountdownReachesZero(t, t.value);
    CountdownStopsAtZero(t, n);
  }

  // ---------------------------------------------------------------------------
  // Pausing, deactivating, pressing, rotating, reconfiguring
  // ---------------------------------------------------------------------------

  /**
   Pausing stops every interval and keeps every value; unpausing restarts the
   active instance from the same value, when there is time left on it.
   */
  lemma PauseKeepsProgress(h: HostState, i: nat)
    requires Inv(h) && i < |h.timers|
    ensures forall k :: 0 <= k < |h.timers| ==>
      Step(h, PauseSet(true)).timers[k] == h.timers[k].(handle := NoHandle)
    ensures Step(Step(h, PauseSet(true)), PauseSet(false)).timers[i].value == h.timers[i].value
    ensures IsActive(h.timers[i], h.active) && h.timers[i].value > 0 ==>
      Step(Step(h, PauseSet(true)), PauseSet(false)).timers[i].handle == Running
  {
    forall k | 0 <= k < |h.timers|
      ensures h.timers[k].initialValue == h.duration
    {
      SettledFacts(h.timers[k], PropsOf(h));
    }
  }

  /** When another token becomes active, the instance stops and keeps its value. */
  lemma DeactivationKeepsProgress(h: HostState, i: nat, a: ActiveToken)
    requires Inv(h) && i < |h.timers|
    requires a != Token(h.timers[i].id)
    ensures Step(h, ActiveSet(a)).timers[i] == h.timers[i].(handle := NoHandle)
  {
    SettledFacts(h.timers[i], PropsOf(h));
  }

  /**
   A press makes the pressed instance the active one without touching its
   value; it runs afterwards if it held no handle, had time left and the host
   is not paused, and no other instance runs.
   */
  lemma PressActivates(h: HostState, i: nat)
    requires Inv(h) && i < |h.timers|
    ensures Step(h, Pressed(i)).active == Token(h.timers[i].id)
    ensures Step(h, Pressed(i)).timers[i].value == h.timers[i].value
    ensures !h.timers[i].handle.recorded && h.timers[i].value > 0 && !h.paused ==>
      Step(h, Pressed(i)).timers[i].handle == Running
    ensures forall k :: 0 <= k < |h.timers| && k != i ==> !Step(h, Pressed(i)).timers[k].handle.live
  {
    var ts := h.timers;
    var c := HandleButtonClick(ts[i], PropsOf(h));
    var h1 := h.(timers := ts[i := c.timer], active := Token(c.emitted));
    forall k | 0 <= k < |ts|
      ensures h1.timers[k].initialValue == h.duration && WellFormed(h1.timers[k])
    {
      SettledFacts(ts[k], PropsOf(h));
    }
    forall k | 0 <= k < |ts| && k != i
      ensures !Step(h, Pressed(i)).timers[k].handle.live
    {
      if i < k {
        assert ts[i].id != ts[k].id;
      } else {
        assert ts[k].id != ts[i].id;
      }
    }
  }

  /** The rotation icon turns the pressed instance and changes nothing else: it never activates. */
  lemma RotateOnlyTurns(h: HostState, i: nat)
    requires Inv(h) && i < |h.timers|
    ensures Step(h, RotatePressed(i)) == h.(timers := h.timers[i := Rotate(h.timers[i])])
  {
    SettledFacts(h.timers[i], PropsOf(h));
  }

  /**
   A new duration resets every instance's value to it while the intervals
   continue: a running instance keeps running from the new value. The same
   duration again changes nothing.
   */
  lemma DurationResets(h: HostState, d: int)
    requires Inv(h)
    ensures d == h.duration ==> Step(h, DurationSet(d)) == h
    ensures forall k :: 0 <= k < |h.timers| && d != h.duration ==>
      Step(h, DurationSet(d)).timers[k].value == d
    ensures forall k :: 0 <= k < |h.timers| && h.timers[k].handle.live ==>
      Step(h, DurationSet(d)).timers[k].handle.live
  {
    forall k | 0 <= k < |h.timers|
      ensures h.timers[k].initialValue == h.duration
    {
      SettledFacts(h.timers[k], PropsOf(h));
    }
    if d == h.duration {
      RerenderSettledIsIdentity(h.timers, PropsOf(h));
    }
  }

  /**
   An instance that counted down to 0 while active keeps its stale recorded
   handle, and the guarded start then refuses to run it again: a new duration
   resets its value, yet neither the render nor a press restarts it while it
   stays active and the host unpaused.
   */
  lemma StaleHandleBlocksRestart(h: HostState, i: nat, d: int)
    requires Inv(h) && i < |h.timers|
    requires h.timers[i].handle.recorded && !h.timers[i].handle.live
    requires d != h.duration
    ensures Step(h, DurationSet(d)).timers[i].value == d
    ensures !Step(h, DurationSet(d)).timers[i].handle.live
    ensures Step(Step(h, DurationSet(d)), Pressed(i)).timers[i].value == d
    ensures !Step(Step(h, DurationSet(d)), Pressed(i)).timers[i].handle.live
  {
    var t := h.timers[i];
    SettledFacts(t, PropsOf(h));
    StepKeepsInv(h, DurationSet(d));
  }
}
