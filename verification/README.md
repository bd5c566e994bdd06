# Cover Plus: a Dafny model of the virtual tilting cover

Cover Plus is a Home Assistant integration. It puts a virtual cover on top of
a real cover whose motor only understands `open_cover`, `close_cover` and
`stop_cover`. The virtual cover has both a position and a slat tilt. It
simulates both by integrating motor-run time at two fixed rates:
100 / (open_time_sec * 1000) percent per millisecond for the position, and
100 / tilt_time_ms percent per millisecond for the tilt.

Every command resolves to one orchestrator, `_act`. It takes one of three
paths:
- **idle**: both targets are already met;
- **tilt only**: the position is met but the tilt is not;
- **move sequence**: tilt the slats to the end stop of the travel direction,
  travel, then optionally tilt to the requested tilt.

Every path ends by stopping the motor. Each phase advances in slices of at
most 100 ms, and each checks a cancel flag before every slice. The motor
controller `_motor` issues the fewest raw commands needed. It always stops
the motor before reversing it.

The model is imperative, like the source. Class
`CoverPlus.TiltVirtualCover` has the fields of the source: position, tilt,
timestamp, direction and cancel flag. It also has `issued`, the log of raw
commands dispatched to the real cover, including those whose dispatch
raised. Its methods follow the source's
methods. One loop iteration of each phase is its own method (`TiltPass`,
`PositionPass`), and each path of `_act` is its own method (`ActIdle`,
`ActTiltOnly`, `ActMoveSequence`). Every method except `Svc` and `Clamp`
requires and keeps the invariant `Valid()`. `Svc` runs only inside `Motor`:
after a failed dispatch it records Stopped while the log ends in an open or
close, and `Motor` then restores the invariant by recording the requested
direction. `Clamp` needs no invariant: it brings any values into range. `Valid()`
says:
- position and tilt are within [0, 100];
- the recorded direction is one of Up, Down and Stopped;
- no open is ever dispatched right next to a close in the command log;
- the last command issued agrees with the recorded direction.

What the cover cannot see is an input, held by class `Environment.Host`:
- **stop commands**: whether a stop command has come in, read from a tape
  of booleans at every poll;
- **dispatch failures**: whether a service dispatch raises, read from a
  second tape of booleans;
- **the clock**: what the monotonic clock reads;
- **the tick budget**: how many more ticks the host lets the simulation run.

The pure arithmetic is in separate modules:
- `Kinematics`: clamp, rates, slice length, one tick, `Iterate`;
- `MotorControl`: the commands `_motor` issues, as a function;
- `Planning`: the command-to-target mapping and the choice of path.

Two behaviours of the source are reproduced as written, not corrected:

- **A tick loop need not end.** With less than one millisecond of travel
  left, the slice becomes a full 100 ms and overshoots. The lemma
  `Kinematics.NeverSettles` proves that from half a millisecond short of an
  interior target the value cycles through four points forever.
  `Kinematics.TiltToFiftyOneNeverSettles` shows that a tilt from 0 to 51
  with tilt_time_ms = 750 lands in that cycle.
- **A cancelled sequence keeps issuing commands.** After a stop, the later
  phases of the move sequence still run. In particular, the post-tilt
  issues an open or close before the final stop
  (`CoverPlus.TiltVirtualCover.OpenCover`, `Scenarios.StopDuringOpen`).
  A failed dispatch records Stopped, but `_motor` then overwrites it with
  the requested direction (`Scenarios.FailedOpenStillRecordsUp`).

## Model

All source paths are in `custom_components/coverplus/`.

| member | source | states |
|---|---|---|
| Kinematics.ClampPercent | custom_components/coverplus/cover.py:285-288 | the result lies in [0, 100]; a value already in range is unchanged (so clamping twice is clamping once); below 0 gives 0, above 100 gives 100 |
| Kinematics.PositionRate | custom_components/coverplus/cover.py:171-173 | for open_time_sec in 1..3600 the rate times the open time in ms is exactly 100, and the rate lies in [1/36000, 0.1] |
| Kinematics.TiltRate | custom_components/coverplus/cover.py:172-174 | for tilt_time_ms in 100..60000 the rate times the tilt time is exactly 100, and the rate lies in [1/600, 1] |
| Kinematics.SliceMillis | custom_components/coverplus/cover.py:365-366 | a slice is always between 1 and 100 ms |
| Kinematics.SliceFits | custom_components/coverplus/cover.py:365-366 | while a millisecond of travel is left, the slice's travel does not pass the target, and below a full tick the slice is the largest whole number of milliseconds that fits, so it ends less than one millisecond's travel short of the target; with less than a millisecond left, or 100 ms or more, the slice is a full 100 ms |
| Kinematics.MoveFor | custom_components/coverplus/cover.py:367-372 | moving by rate * slice in the sign of the remaining travel and clamping stays within [0, 100] |
| Kinematics.TickValue | custom_components/coverplus/cover.py:365-372 | one tick leaves the value within [0, 100] |
| Kinematics.ApproachStep | custom_components/coverplus/cover.py:367-372 | a move of whole milliseconds that fits before the target lands strictly closer, between the value and the target, at least one millisecond's travel nearer |
| Kinematics.TickApproaches | custom_components/coverplus/cover.py:361-372 | with at least one millisecond of travel left, a tick never passes the target and gains at least one millisecond's travel |
| Kinematics.TickOvershoots | custom_components/coverplus/cover.py:365-372 | with less than a millisecond of travel left, the tick runs a full 100 ms and passes the target, unless an end stop clamps it |
| Kinematics.IterateSplit | custom_components/coverplus/cover.py:353-372 | m ticks followed by n ticks are m + n ticks |
| Kinematics.EndStopReached | custom_components/coverplus/cover.py:353-372 | toward 0 or 100 the ticks reach the end stop exactly after finitely many, so a loop toward an end stop always ends |
| Kinematics.TickCycle | custom_components/coverplus/cover.py:365-372 | from half a millisecond short of an interior target, four ticks return the value to where it started |
| Kinematics.NeverSettles | custom_components/coverplus/cover.py:353-372 | from half a millisecond short of an interior target, the value after n ticks is a point of the four-cycle and stays at least EPS from the target, for every n |
| Kinematics.CycleStaysAway | custom_components/coverplus/cover.py:361-363 | every point of the cycle is at least half a millisecond's travel, hence EPS, from the target |
| Kinematics.FiftyOneFirstTicks | custom_components/coverplus/cover.py:365-372 | at 2/15 % per ms from 0 toward 51, the first four ticks give 40/3, 80/3, 40 and 51 - 1/15 |
| Kinematics.TiltToFiftyOneNeverSettles | custom_components/coverplus/cover.py:353-372 | with tilt_time_ms = 750, no number of ticks from 0 brings the tilt within EPS of 51 |
| MotorControl.Named | custom_components/coverplus/cover.py:266 | a stored string names a valid direction exactly when it is "UP", "DOWN" or "STOPPED", and naming round-trips to the string |
| MotorControl.MotorCommands | custom_components/coverplus/cover.py:320-343 | at most two commands; none exactly for a repeated or invalid request; the last one is the command for the request; two exactly on an Up/Down reversal, and then the first is a stop |
| MotorControl.NextDirection | custom_components/coverplus/cover.py:341-345 | a valid request is recorded, an invalid one leaves the direction as it was |
| MotorControl.MotorKeepsLogSafe | custom_components/coverplus/cover.py:327-345 | stop-before-reverse: appending what `_motor` issues to a log with no open next to a close, whose last command agrees with the direction, keeps both properties for the new direction |
| MotorControl.MotorIdempotent | custom_components/coverplus/cover.py:320-322 | a second request for the direction just reached issues nothing |
| MotorControl.RestoredDirection | custom_components/coverplus/cover.py:266-267 | a saved "UP", "DOWN" or "STOPPED" is taken; anything else, or nothing saved, keeps the current direction, so the result is always valid |
| Planning.TargetFor | custom_components/coverplus/cover.py:479-524 | open asks for (100, 100), close for (0, 0); set-position maps the tilt to 0 below the current position and to 100 otherwise; set-tilt, and set-both with only a tilt, keep the position and ask for exactly the given tilt; set-both with neither argument is the only request that does nothing; every command method hands `Act` the targets this gives |
| Planning.MoveDirection | custom_components/coverplus/cover.py:460 | always a moving direction, Up exactly when the target lies above |
| Planning.PositionOnlyMatchesPreTilt | custom_components/coverplus/cover.py:496-500 | a position-only request that travels asks for exactly the end stop that its pre-tilt reaches |
| Planning.TiltCommandsNeverMove | custom_components/coverplus/cover.py:502-515 | a request without a position never takes the move sequence |
| CoverPlus.TiltVirtualCover.constructor | custom_components/coverplus/cover.py:171-187 | with the configured ranges, the rates are the positive rates above; the cover starts at 0/0, Stopped, not cancelled, with nothing issued |
| CoverPlus.TiltVirtualCover.RestoreDirection | custom_components/coverplus/cover.py:266-267 | the restored direction is `RestoredDirection` of the saved value, and the invariant holds |
| CoverPlus.TiltVirtualCover.Clamp | custom_components/coverplus/cover.py:285-288 | both values become their clamp |
| CoverPlus.TiltVirtualCover.Svc | custom_components/coverplus/cover.py:298-311 | the command is appended to the log; a failed dispatch sets the cancel flag and records Stopped, otherwise nothing else changes |
| CoverPlus.TiltVirtualCover.Motor | custom_components/coverplus/cover.py:314-346 | appends exactly `MotorCommands(old direction, request)` and records `NextDirection`, even after a failed dispatch; cancellation is requested exactly when one of those dispatches failed; a repeated request changes nothing; stop-before-reverse is kept |
| CoverPlus.TiltVirtualCover.StopCover | custom_components/coverplus/cover.py:487-494 | sets the cancel flag, records Stopped, issues a stop only if the motor was not already stopped, and resynchronises the timestamp |
| CoverPlus.TiltVirtualCover.CancelCheck | custom_components/coverplus/cover.py:354-359 | cancels exactly when the flag was set or a stop came in; a cancelled check leaves the motor recorded Stopped with at most one stop issued; otherwise nothing changes |
| CoverPlus.TiltVirtualCover.TiltTick | custom_components/coverplus/cover.py:365-372 | the tilt becomes `TickValue`, the timestamp advances by exactly the slice, the position and direction are untouched |
| CoverPlus.TiltVirtualCover.TiltPass | custom_components/coverplus/cover.py:353-372 | one loop pass: cancels, or ends within EPS of the target with nothing changed, or runs out of ticks, or performs exactly one tick |
| CoverPlus.TiltVirtualCover.ActTilt | custom_components/coverplus/cover.py:349-386 | the tilt is the clamped target's `Iterate` after the ticks taken, and no earlier tick was within EPS; a normal exit is within EPS of the clamped target; the phase ends cancelled exactly when the flag was set or a stop came in at the poll after the last tick, and no stop came in at any earlier poll; the flag is set exactly when the phase was cancelled, which leaves the motor Stopped and the tilt untouched at that check; the position never changes |
| CoverPlus.TiltVirtualCover.PositionTick | custom_components/coverplus/cover.py:405-412 | the position becomes `TickValue`, the timestamp advances by exactly the slice, the tilt and direction are untouched |
| CoverPlus.TiltVirtualCover.PositionPass | custom_components/coverplus/cover.py:393-412 | the pass of `TiltPass`, on the position |
| CoverPlus.TiltVirtualCover.ActPosition | custom_components/coverplus/cover.py:389-427 | the contract of `ActTilt`, on the position; the tilt never changes |
| CoverPlus.TiltVirtualCover.Act | custom_components/coverplus/cover.py:430-476 | every path ends Stopped with the timestamp resynchronised and the invariant kept; on a quiet host with ticks to spare it ends within EPS of both clamped targets; idle touches nothing but the stop; tilt only never moves the position; a move sequence always first issues the commands toward the travel direction; a stop at the first poll of a move sequence still lets the post-tilt issue an open or close |
| CoverPlus.TiltVirtualCover.ActIdle | custom_components/coverplus/cover.py:441-446 | position and tilt untouched, only the stop issued |
| CoverPlus.TiltVirtualCover.ActTiltOnly | custom_components/coverplus/cover.py:448-457 | the position never changes and the tilt is an iterate toward the target; on a quiet host the log gains the tilt direction's commands and one stop, and with ticks to spare the tilt settles; a stop at the first poll leaves the tilt untouched |
| CoverPlus.TiltVirtualCover.ActMoveSequence | custom_components/coverplus/cover.py:460-476 | the motor first runs Up exactly when the target is above; on a quiet host with ticks to spare the cover ends within EPS of both targets, a post-tilt back across the range is preceded by a stop, and none is issued when the tilt target is the pre-tilt end stop; after a stop at the first poll nothing moves, yet the post-tilt still issues its open or close and a second stop |
| CoverPlus.TiltVirtualCover.PreTiltAndTravel | custom_components/coverplus/cover.py:460-465 | on a quiet host with ticks to spare the slats reach the direction's end stop and the position its target; after a stop at the first poll only one stop is issued and nothing moves |
| CoverPlus.TiltVirtualCover.PostTilt | custom_components/coverplus/cover.py:467-470 | runs only for a tilt target more than EPS away; after an earlier cancel it still issues the command toward the tilt target, then a stop, and does not move the tilt |
| CoverPlus.TiltVirtualCover.Settle | custom_components/coverplus/cover.py:472-474 | records Stopped, issues a stop only if the motor was running, resynchronises the timestamp, leaves position and tilt in place |
| CoverPlus.TiltVirtualCover.OpenCover | custom_components/coverplus/cover.py:479-481 | on a quiet host with ticks to spare the cover ends fully open; a travelling open issues the Up commands and one stop; a stop at the first poll leaves it where it was, yet from a standstill with the slats not open it issues open, stop, open, stop |
| CoverPlus.TiltVirtualCover.CloseCover | custom_components/coverplus/cover.py:483-485 | the mirror image of `OpenCover`, toward 0 |
| CoverPlus.TiltVirtualCover.SetCoverPosition | custom_components/coverplus/cover.py:496-500 | on a quiet host with ticks to spare the cover ends at the clamped position with the mapped tilt; a travelling move issues one direction's commands and one stop, never a post-tilt |
| CoverPlus.TiltVirtualCover.SetCoverTiltPosition | custom_components/coverplus/cover.py:502-505 | the position never changes; the tilt is an iterate toward the clamped target and settles within EPS on a quiet host with ticks to spare |
| CoverPlus.TiltVirtualCover.SetPositionAndTilt | custom_components/coverplus/cover.py:507-524 | with neither argument nothing at all changes; otherwise it ends Stopped and, on a quiet host with ticks to spare, at the targets `TargetFor` gives; without a position the position never changes |
| Scenarios.StopDuringOpen | custom_components/coverplus/cover.py:460-474 | opening a closed cover with a stop at the first poll logs open, stop, open, stop and leaves the cover closed and cancelled |
| Scenarios.FailedOpenStillRecordsUp | custom_components/coverplus/cover.py:308-345 | a failed open dispatch requests cancellation, yet the direction recorded is Up |
| Scenarios.TiltToFiftyOneSpendsEveryTick | custom_components/coverplus/cover.py:353-372 | with tilt_time_ms = 750, setting the tilt to 51 on a quiet host spends every granted tick and still ends at least EPS away |

## Left out

- Home Assistant glue is not modelled because it is framework code that is
  not shown. This covers:
  - platform setup, service registration and the `hass.data` registry;
  - the entity properties that round for display;
  - `_push_state`.
- The voluptuous schemas are kept only as their numeric ranges, as the
  constructor's precondition. Service arguments arrive as `int`, so the
  `float(int(...))` conversions of the handlers become `as real`.
- Only the direction part of the restore at start-up (lines 250-271) is
  modelled. The restore of position, tilt and timestamp, and its catch-all
  error path, parse values from the state store, which is not modelled.
  `RestoreDirection` requires an empty command log because the restore runs
  before any command.
- IEEE floating point is not modelled. Positions, tilts and rates are exact
  `real`s. So `NeverSettles` and `TiltToFiftyOneNeverSettles` hold for
  exact arithmetic; rounded floats may settle, or cycle, on other targets.
- Logging, tracing (`_log`, `_snapshot`, `trace_ticks`) and
  `asyncio.sleep` are not modelled; a slice takes no real time.
- Concurrency is not modelled. A concurrent `async_stop_cover` is modelled
  as running at the cancel check at the head of a phase-loop iteration, the
  point where the source would first notice it. A stop that the event loop
  interleaves at another `await` is not modelled. This includes one between
  the reversal stop and the new command inside `_motor`, and one between
  the phases of `_act`. The `asyncio.gather` fan-out of the domain service
  (lines 119-139) is not modelled either.
- `time.monotonic` is a fixed integer input, `Host.clockMillis`. Every read
  in one run returns the same value.
- The phase loops have no bound in the source. Here the host grants a
  budget of ticks. When it is spent, the phase ends (`OutOfTicks`) and
  `_act` goes on as after a normal exit. Properties of a finished run are
  stated for runs that end with ticks to spare.
- The stop-before-reverse property (`ReversalSafe` in `Valid()`) is about
  the commands dispatched, whether or not the dispatch succeeded. When the
  stop of a reversal raises, `_motor` still sends the new direction's
  command, so the commands the real cover actually receives can have an
  open right after a close. The model keeps no separate log of delivered
  commands.
- `_act_position`'s direction argument is only logged and is left out.
- CoverPlus.TiltVirtualCover.Act: the statements about reaching the targets
  and about the exact command log assume a quiet host. A quiet host is one
  where no stop comes in and no dispatch fails. A run that fails part way
  is described only by the invariant and by the shape of its log prefix.
- CoverPlus.TiltVirtualCover.ActMoveSequence: the exact log is not stated
  for a tilt target that lies between 0 and 2 * EPS from the pre-tilt end
  stop but differs from it. Whether the post-tilt runs then depends on
  where the pre-tilt stopped within EPS of the end stop.
- `config_flow.py` and `__init__.py` are not part of this model. They are
  the UI form and the platform loading.
