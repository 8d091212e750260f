# Countdown timer of the Blokus clock, modelled in Dafny

The clock shows one countdown widget per player. Each widget (`Timer`) holds
the following:

- a countdown `value`;
- the last-seen `initialValue`;
- a cosmetic rotation angle;
- an interval handle;
- an identity drawn from a static counter.

The host passes every widget four props: the `active` identity, a global
`isPaused` flag, the configured duration and the `onTimerClick` callback. The
callback is treated as an emitted identity. On every render, a widget decides
for itself whether it should be counting down.

The project has two modules:

- `Timer` (`timer.dfy`) models one instance as an immutable record. Each
  transition is a pure function:
  - identity allocation;
  - the guarded start;
  - the one-second tick;
  - the guarded stop;
  - the render-time reconcile;
  - the press handler;
  - the rotation;
  - the derived-state reset.

  A run of ticks is an explicit count of firings. There is no wall-clock time.
- `Host` (`host.dfy`) models a list of mounted instances together with the id
  counter, one `active` token, one `isPaused` flag and one shared duration.
  Events are mount, unmount, press, interval firing, rotation press, and the
  host changing its token, pause flag or duration. Each event is followed by
  the renders React performs for it. The invariant is that identities are
  distinct, every instance is settled, no countdown exceeds its duration and
  every angle is one of 0, 90, 180 and 270. Every event preserves it, so every
  run keeps at most one live interval.

The interval handle is two booleans. `recorded` means `intervalId` is not null;
the start guard checks this. `live` means the interval is still scheduled; only
then can a tick fire. When a tick lands on 0, the callback cancels the interval
but never nulls `intervalId`. Only the guarded stop nulls it. So a finished
timer keeps a recorded handle that is no longer live.

## Behaviour of the code worth knowing

- A tick does not clamp at 0. The callback tests the new value with `=== 0`
  (src/components/Timer.js:55). So a live interval whose value is reset to 0
  or below keeps firing, and the value falls by one per firing without bound
  (`Timer.CountdownWithoutClamp`).
- A timer that counted down to 0 while active cannot restart while it stays
  active and the host stays unpaused. The tick callback cancels the interval
  but leaves `intervalId` set (src/components/Timer.js:55-57). The start
  returns early whenever `intervalId` is set (src/components/Timer.js:44). A
  new duration resets the value, but neither a render nor a press starts it
  again. Only pausing or deactivating runs the guarded stop
  (src/components/Timer.js:64-68), which nulls the handle
  (`Host.StaleHandleBlocksRestart`).
- Having a recorded handle therefore does not mean a countdown is running. A
  finished, still-active timer keeps its recorded handle, which is why the model
  keeps `recorded` and `live` apart.
- Identities come from a static counter that starts at 1 and moves up by one
  per construction (src/components/Timer.js:15-19).

Assumptions about the host follow. The host component is not part of this
model.

- The press callback makes the emitted identity the `active` token.
- All timers share the one duration the settings form submits.
- A change to the host's state re-renders every instance.
- A state update inside one instance re-renders only that instance.
- A render runs `getDerivedStateFromProps` and then `checkIfActive`.

When a tick lands on 0, the render runs before the `setState` callback that
cancels the interval. Both orders reach the same state, so a firing is modelled
as the tick, including the cancellation, followed by the render.

## Model

| member | source | states |
|---|---|---|
| `Timer.Construct` | src/components/Timer.js:15-26 | A new instance takes the counter's value as its identity, and the counter moves past it. The instance starts with value and initialValue equal to the duration, angle 0 and no handle. |
| `Timer.ConstructAll` | src/components/Timer.js:15-20 | Across successive constructions, each identity is strictly greater than every earlier one. All identities lie in [next, next + n), so they are pairwise distinct. Each instance starts at its own duration. |
| `Timer.Rotate` | src/components/Timer.js:36-41 | Only the angle changes. Below 270 it grows by 90. From 270 up to 360 it gains 90 and loses 360. The set {0, 90, 180, 270} is preserved. |
| `Timer.RotateFourTimes` | src/components/Timer.js:36-41 | Four rotations return any angle in [0, 360) to its start, with the whole state unchanged. |
| `Timer.RotateCycle` | src/components/Timer.js:25-41 | From the initial angle 0, rotation cycles 0, 90, 180, 270, 0. |
| `Timer.StartTimer` | src/components/Timer.js:43-62 | With a recorded handle, the state is unchanged. Otherwise a handle is recorded iff value > 0 and the host is not paused, and a new handle is live. The value never changes. The active token is not consulted. |
| `Timer.StartTimerIdempotent` | src/components/Timer.js:43-46 | A second start changes nothing, so there is never a second interval. |
| `Timer.Tick` | src/components/Timer.js:51-59 | A firing lowers the value by exactly 1 and changes nothing else. The interval stays live iff the new value is not 0. The recorded handle is never cleared. |
| `Timer.ClearInterval` | src/components/Timer.js:64-69 | For a well-formed instance, the handle ends neither recorded nor live. The value and every other field are kept. Without a recorded handle, the call is a no-op. |
| `Timer.ClearIntervalIdempotent` | src/components/Timer.js:64-69 | Stopping twice is the same as stopping once. |
| `Timer.Unmount` | src/components/Timer.js:71-73 | Unmounting a well-formed instance leaves no recorded or live handle, and the value is kept. |
| `Timer.IsActive` | src/components/Timer.js:75-78 | An instance is active iff the token is present and equals its identity. A null token makes no instance active. |
| `Timer.ActiveIsExclusive` | src/components/Timer.js:75-78 | Two instances with different identities are never both active under one token. |
| `Timer.CheckIfActive` | src/components/Timer.js:80-87 | The value is never touched. The result is live only if the instance is active and the host is unpaused. Otherwise the handle is cleared. An active, unpaused instance with a recorded handle is left alone. One without a handle starts running if value > 0 and is left alone if value <= 0. |
| `Timer.CheckIfActiveIdempotent` | src/components/Timer.js:80-87 | A second reconcile with the same props changes nothing. |
| `Timer.HandleButtonClick` | src/components/Timer.js:28-34 | A press emits the instance's own identity. It then makes the guarded start with the current pause flag, before the host confirms activation. The value is unchanged. |
| `Timer.DeriveStateFromProps` | src/components/Timer.js:89-91 | The incoming duration is recorded. If it differs from the recorded one, the value resets to it. If it is equal, the state is unchanged. The angle, identity and handle are never touched. |
| `Timer.Render` | src/components/Timer.js:89-97 | One render carries the incoming duration and resets the value only when the duration changed. Identity and angle are kept. Well-formedness is preserved, and so is value <= initialValue. Only an active instance of an unpaused host can be live afterwards. Such an instance keeps a recorded handle unchanged. Without one, it starts running iff its value after the reset is positive. |
| `Timer.RenderIdempotent` | src/components/Timer.js:89-97 | A second render with the same props changes nothing. |
| `Timer.Countdown` | src/components/Timer.js:51-60 | n firings of the repeating interval change only the value and the handle. The value drops by at most n and never rises. The recorded flag is kept. The value drops at all only if the interval was live, and it is live afterwards only if it was live before. |
| `Timer.CountdownReachesZero` | src/components/Timer.js:50-58 | Start from a live countdown at v > 0. After k <= v firings the value is v - k and nothing else has changed. The interval is live iff k < v. The handle stays recorded. |
| `Timer.CountdownSplit` | src/components/Timer.js:51-59 | a + b firings are a firings followed by b firings. Once the interval is not live, firings change nothing. |
| `Timer.CountdownStopsAtZero` | src/components/Timer.js:50-58 | From a live countdown at v > 0, exactly v firings reach 0 and stop the interval. Any more firings change nothing. No run of firings shows a negative value. |
| `Timer.CountdownWithoutClamp` | src/components/Timer.js:51-57 | A live interval whose value is 0 or below keeps firing. After n firings the value has dropped by n and the interval is still live. |
| `Host.Initial` | src/components/Timer.js:14-15 | The empty host starts the counter at 1 and satisfies the invariant. |
| `Host.SettledFacts` | src/components/Timer.js:80-91 | A settled instance carries the host's duration. It is live only if active and unpaused. Otherwise it holds no handle. |
| `Host.RenderSettles` | src/components/Timer.js:89-97 | After one render, an instance is settled. |
| `Host.RerenderSettledIsIdentity` | src/components/Timer.js:89-97 | Re-rendering settled instances with the same props changes nothing. |
| `Host.RenderAllSettles` | src/components/Timer.js:89-97 | Rendering every instance settles every instance and keeps each identity. |
| `Host.RenderAllAtMostOneLive` | src/components/Timer.js:75-97 | Reconcile every instance of a list with distinct identities. Afterwards at most one is live, and it is the active instance of an unpaused host. |
| `Host.InvAtMostOneLive` | src/components/Timer.js:75-97 | In a host keeping the invariant, at most one instance has a live interval, and only when it is active and the host is unpaused. |
| `Host.RerenderKeepsInv` | src/components/Timer.js:80-97 | Re-rendering all instances restores the invariant, given distinct identities below the counter. |
| `Host.MountKeepsInv` | src/components/Timer.js:15-26 | Mounting a new instance preserves distinct identities and settledness. |
| `Host.UnmountKeepsInv` | src/components/Timer.js:71-73 | Removing an instance preserves the invariant. |
| `Host.PressKeepsInv` | src/components/Timer.js:28-34 | A press, followed by the host's re-render, preserves the invariant. |
| `Host.UpdateKeepsInv` | src/components/Timer.js:36-59 | A state update inside one instance, followed by its own render, preserves the invariant. |
| `Host.StepKeepsInv` | src/components/Timer.js:15-97 | Every event preserves the invariant. |
| `Host.RunKeepsInv` | src/components/Timer.js:15-97 | Every run of events preserves the invariant and leaves at most one live interval. Every countdown stays at or below its duration, and every angle stays a right angle. |
| `Host.MountTakesFreshId` | src/components/Timer.js:15-20 | A mounted instance gets the counter's value as its identity. That value is above every identity in use, and the counter moves past it. |
| `Host.FiredIsTick` | src/components/Timer.js:51-59 | A firing inside the host acts on a settled, live instance exactly as a tick does. The render after it changes nothing. |
| `Host.HostCountdown` | src/components/Timer.js:50-59 | k firings of one instance count it down as k ticks would and leave every other part of the host unchanged. |
| `Host.HostCountdownToZero` | src/components/Timer.js:50-59 | In the host, a running instance at v > 0 reaches exactly 0 after v firings and its interval stops. The handle stays recorded. Later firings change nothing. The value is never negative. |
| `Host.PauseKeepsProgress` | src/components/Timer.js:43-87 | Pausing clears every handle and keeps every value. Unpausing restarts the active instance from the same value when that value is positive. |
| `Host.DeactivationKeepsProgress` | src/components/Timer.js:64-87 | When another token becomes active, the instance loses its handle and keeps its value. |
| `Host.PressActivates` | src/components/Timer.js:28-34 | A press makes the pressed instance's identity the active token and keeps its value. It runs afterwards if it had no handle, had time left and the host was unpaused. No other instance is live. |
| `Host.RotateOnlyTurns` | src/components/Timer.js:36-41 | A rotation press only turns the pressed instance. The token, the handles and the values are unchanged. |
| `Host.DurationResets` | src/components/Timer.js:89-91 | A new duration resets every value to it, and a live interval stays live. The same duration again changes nothing. |
| `Host.StaleHandleBlocksRestart` | src/components/Timer.js:43-69 | Take an instance holding a recorded but dead handle. A new duration resets its value, but the instance is not live afterwards, and a press does not restart it. |

## Left out

- `formatTime` (src/components/Timer.js:7-11) is left out. It delegates to the `Intl.DateTimeFormat` and `Date` libraries.
- Rendering is left out: the JSX, `classnames`, CSS modules and the icon. `event.stopPropagation` appears only as the fact that a rotation press is not a press of the widget.
- The press callback is an emitted identity. What the host does with it is an assumption, stated above.
- Real `setInterval` timing is left out. Firings are explicit events. Handle numbers are not modelled, only whether a handle is recorded and whether it is live.
- React's scheduling and batching of `setState` are left out. Each update applies atomically and in order.
- JavaScript numbers are modelled as unbounded integers. Identities past 2^53 are not modelled, nor are non-integer durations; a non-integer duration would never hit exactly 0.
- `Host.UnmountKeepsInv`: the host drops the removed instance's state. The release of its handle is stated per instance by `Timer.Unmount`; there is no global scheduler model.
- src/components/Settings.js is left out. It is a form that stores raw input text and maps a switch to "two"/"four"; it contains no transition logic.
