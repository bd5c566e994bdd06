/**
 * The virtual tilting cover of cover.py (class `TiltVirtualCover`): a cover
 * whose real motor only understands open, close and stop, and whose position
 * and tilt are simulated by integrating motor-run time at fixed rates.
 */
module CoverPlus {
  import opened Wrappers
  import opened Kinematics
  import opened MotorControl
  import opened Planning
  import opened Environment

  /** How one phase loop (`_act_tilt` or `_act_position`) ended. */
  datatype PhaseEnd = Reached | Cancelled | OutOfTicks

  class TiltVirtualCover {
    /** Percent of position travel per millisecond. */
    const positionRate: real
    /** Percent of tilt travel per millisecond. */
    const tiltRate: real

    var lastPosition: real
    var lastTilt: real
    var lastTimestampMillis: int
    var lastDirection: Direction
    var cancelRequested: bool
    /**
     * Every raw command dispatched to the real cover, in order, including
     * those whose dispatch raised.
     */
    var issued: seq<RawCommand>

    ghost predicate Valid()
      reads this
    {
      && 0.0 < positionRate && 0.0 < tiltRate
      && InRange(lastPosition) && InRange(lastTilt)
      && IsDirection(lastDirection)
      && ReversalSafe(issued) && Agrees(issued, lastDirection)
    }

    /** The schema keeps open_time_sec in 1..3600 and tilt_time_ms in 100..60000. */
    constructor (openTimeSec: int, tiltTimeMs: int)
      requires 1 <= openTimeSec <= 3600 && 100 <= tiltTimeMs <= 60000
      ensures Valid()
      ensures positionRate == PositionRate(openTimeSec) && tiltRate == TiltRate(tiltTimeMs)
      ensures lastPosition == 0.0 && lastTilt == 0.0 && lastTimestampMillis == 0
      ensures lastDirection == Stopped && !cancelRequested && issued == []
    {
      positionRate := PositionRate(openTimeSec);
      tiltRate := TiltRate(tiltTimeMs);
      lastPosition := 0.0;
      lastTilt := 0.0;
      lastTimestampMillis := 0;
      lastDirection := Stopped;
      cancelRequested := false;
      issued := [];
    }

    /** The direction part of the restore at start-up, before any command. */
    method RestoreDirection(saved: Option<string>)
      requires Valid() && issued == []
      modifies this`lastDirection
      ensures Valid()
      ensures lastDirection == RestoredDirection(old(lastDirection), saved)
    {
      lastDirection := RestoredDirection(lastDirection, saved);
    }

    /** `_clamp`: pulls position and tilt back into [0, 100]. */
    method Clamp()
      modifies this`lastPosition, this`lastTilt
      ensures lastPosition == ClampPercent(old(lastPosition))
      ensures lastTilt == ClampPercent(old(lastTilt))
    {
      lastPosition := ClampPercent(lastPosition);
      lastTilt := ClampPercent(lastTilt);
    }

    /**
     * `_svc`: hands one raw command to the real cover. A dispatch that raises
     * requests cancellation and records Stopped.
     */
    method Svc(cmd: RawCommand, host: Host)
      modifies this`issued, this`cancelRequested, this`lastDirection, host`dispatchFailures
      ensures issued == old(issued) + [cmd]
      ensures cancelRequested == (old(cancelRequested) || Head(old(host.dispatchFailures)))
      ensures lastDirection == if Head(old(host.dispatchFailures)) then Stopped else old(lastDirection)
      ensures host.dispatchFailures == Rest(old(host.dispatchFailures))
    {
      issued := issued + [cmd];
      var failed := host.Dispatch();
      if failed {
        cancelRequested := true;
        lastDirection := Stopped;
      }
    }

    /**
     * `_motor`: makes the real motor run in the requested direction with the
     * fewest raw commands, stopping first on a reversal. The requested
     * direction is recorded even when a dispatch failed.
     */
    method Motor(requested: Direction, host: Host)
      requires Valid()
      modifies this`issued, this`cancelRequested, this`lastDirection, host`dispatchFailures
      ensures Valid()
      ensures issued == old(issued) + MotorCommands(old(lastDirection), requested)
      ensures lastDirection == NextDirection(old(lastDirection), requested)
      ensures cancelRequested ==
                (old(cancelRequested) || TrueWithin(old(host.dispatchFailures), |MotorCommands(old(lastDirection), requested)|))
      ensures host.dispatchFailures == Drop(old(host.dispatchFailures), |MotorCommands(old(lastDirection), requested)|)
      ensures AllFalse(old(host.dispatchFailures)) ==>
                AllFalse(host.dispatchFailures) && cancelRequested == old(cancelRequested)
      ensures requested == old(lastDirection) ==>
                && issued == old(issued) && cancelRequested == old(cancelRequested)
                && host.dispatchFailures == old(host.dispatchFailures)
    {
      ghost var failures := host.dispatchFailures;
      MotorKeepsLogSafe(issued, lastDirection, requested);
      if requested == lastDirection {
        return;
      }
      ghost var sent := 0;
      if IsMoving(lastDirection) && IsMoving(requested) && requested != lastDirection {
        Svc(RawStop, host);
        sent := 1;
      }
      assert host.dispatchFailures == Drop(failures, sent);
      assert cancelRequested == (old(cancelRequested) || TrueWithin(failures, sent));
      if requested == Stopped {
        Svc(RawStop, host);
      } else if requested == Up {
        Svc(RawOpen, host);
      } else if requested == Down {
        Svc(RawClose, host);
      } else {
        return;
      }
      sent := sent + 1;
      assert sent == |MotorCommands(old(lastDirection), requested)|;
      assert issued == old(issued) + MotorCommands(old(lastDirection), requested);
      lastDirection := requested;
      if AllFalse(failures) {
        AllFalseDrop(failures, sent);
      }
    }
 
    /**
     * `async_stop_cover`: requests cancellation of the running motion, stops
     * the motor and resynchronises the timestamp.
     */
    method StopCover(host: Host)
      requires Valid()
      modifies this`issued, this`cancelRequested, this`lastDirection, this`lastTimestampMillis, host`dispatchFailures
      ensures Valid()
      ensures cancelRequested && lastDirection == Stopped
      ensures issued == old(issued) + MotorCommands(old(lastDirection), Stopped)
      ensures lastTimestampMillis == host.clockMillis
      ensures host.dispatchFailures == Drop(old(host.dispatchFailures), |MotorCommands(old(lastDirection), Stopped)|)
      ensures AllFalse(old(host.dispatchFailures)) ==> AllFalse(host.dispatchFailures)
    {
      cancelRequested := true;
      Motor(Stopped, host);
      lastDirection := Stopped;
      lastTimestampMillis := host.NowMillis();
    }

    /**
     * The cancellation check at the head of every phase-loop iteration
     * (cover.py lines 354-359 and 394-399). A stop command that came in
     * while the loop slept runs first (`StopCover`). When cancellation is
     * requested the motor is stopped and the timestamp resynchronised.
     */
    method CancelCheck(host: Host) returns (cancelled: bool)
      requires Valid()
      modifies this`issued, this`cancelRequested, this`lastDirection, this`lastTimestampMillis
      modifies host`stopArrivals, host`dispatchFailures
      ensures Valid()
      ensures cancelled == (old(cancelRequested) || Head(old(host.stopArrivals)))
      ensures cancelled == cancelRequested
      ensures host.stopArrivals == Rest(old(host.stopArrivals))
      ensures cancelled ==>
                && lastDirection == Stopped
                && issued == old(issued) + MotorCommands(old(lastDirection), Stopped)
                && lastTimestampMillis == host.clockMillis
      ensures !cancelled ==>
                && lastDirection == old(lastDirection) && issued == old(issued)
                && lastTimestampMillis == old(lastTimestampMillis)
                && host.dispatchFailures == old(host.dispatchFailures)
      ensures AllFalse(old(host.dispatchFailures)) ==> AllFalse(host.dispatchFailures)
      ensures AllFalse(old(host.stopArrivals)) ==> AllFalse(host.stopArrivals)
    {
      ghost var stops := host.stopArrivals;
      var arrived := host.PollStop();
      if arrived {
        StopCover(host);
      }
      cancelled := cancelRequested;
      if cancelled {
        Motor(Stopped, host);
        lastTimestampMillis := host.NowMillis();
      }
      if AllFalse(stops) {
        AllFalseRead(stops);
      }
    }

    /**
     * The tick of `_act_tilt` (cover.py lines 365-372): the slice, the move
     * by rate * slice in the sign of the remaining travel, the timestamp
     * advance and the clamp.
     */
    method TiltTick(target: real)
      requires Valid()
      modifies this`lastPosition, this`lastTilt, this`lastTimestampMillis
      ensures Valid()
      ensures lastPosition == old(lastPosition)
      ensures lastTilt == TickValue(old(lastTilt), target, tiltRate)
      ensures lastTimestampMillis == old(lastTimestampMillis) + SliceMillis(target - old(lastTilt), tiltRate)
    {
      var need := target - lastTilt;
      var sliceMillis := SliceMillis(need, tiltRate);
      lastTilt := lastTilt + tiltRate * sliceMillis as real * StepSign(need);
      lastTimestampMillis := lastTimestampMillis + sliceMillis;
      Clamp();
    }

    /**
     * One pass of the `_act_tilt` loop (cover.py lines 354-372): the
     * cancellation check, the settle check, and otherwise one tick, if the
     * host grants one.
     */
    method TiltPass(target: real, host: Host) returns (ticked: bool, end: PhaseEnd)
      requires Valid()
      modifies this`lastPosition, this`lastTilt, this`lastTimestampMillis, this`lastDirection, this`cancelRequested, this`issued
      modifies host`stopArrivals, host`dispatchFailures, host`ticksLeft
      ensures Valid()
      ensures lastPosition == old(lastPosition)
      ensures !ticked && end == Cancelled <==> old(cancelRequested) || Head(old(host.stopArrivals))
      ensures cancelRequested <==> !ticked && end == Cancelled
      ensures !ticked && end == Cancelled ==>
                && lastTilt == old(lastTilt) && lastDirection == Stopped
                && issued == old(issued) + MotorCommands(old(lastDirection), Stopped)
                && lastTimestampMillis == host.clockMillis && host.ticksLeft == old(host.ticksLeft)
      ensures !(!ticked && end == Cancelled) ==>
                && lastDirection == old(lastDirection) && issued == old(issued)
                && host.stopArrivals == Rest(old(host.stopArrivals))
                && host.dispatchFailures == old(host.dispatchFailures)
      ensures !ticked && end == Reached ==>
                && Abs(target - old(lastTilt)) < EPS && lastTilt == old(lastTilt)
                && lastTimestampMillis == old(lastTimestampMillis) && host.ticksLeft == old(host.ticksLeft)
      ensures !ticked && end == OutOfTicks ==>
                && EPS <= Abs(target - old(lastTilt)) && lastTilt == old(lastTilt)
                && lastTimestampMillis == old(lastTimestampMillis) && old(host.ticksLeft) == host.ticksLeft == 0
      ensures ticked ==>
                && EPS <= Abs(target - old(lastTilt)) && lastTilt == TickValue(old(lastTilt), target, tiltRate)
                && old(lastTimestampMillis) < lastTimestampMillis <= old(lastTimestampMillis) + TICK_MS
                && 0 < old(host.ticksLeft) && host.ticksLeft == old(host.ticksLeft) - 1
      ensures AllFalse(old(host.dispatchFailures)) ==> AllFalse(host.dispatchFailures)
      ensures old(host.Quiet()) ==> host.Quiet()
    {
      var cancelled := CancelCheck(host);
      if cancelled {
        return false, Cancelled;
      }
      var need := target - lastTilt;
      if Abs(need) < EPS {
        return false, Reached;
      }
      var granted := host.GrantTick();
      if !granted {
        return false, OutOfTicks;
      }
      TiltTick(target);
      ticked, end := true, Reached;
    }

    /**
     * `_act_tilt`: ticks the tilt toward the clamped target until it is
     * within EPS, polling for cancellation before every tick. A stop command
     * that comes in between two ticks runs there (`StopCover`). The source
     * loop has no bound; here it also ends when the host grants no more ticks.
     */
    method ActTilt(targetTilt: real, host: Host) returns (ghost end: PhaseEnd, ghost ticks: nat)
      requires Valid()
      modifies this`lastPosition, this`lastTilt, this`lastTimestampMillis, this`lastDirection, this`cancelRequested, this`issued
      modifies host`stopArrivals, host`dispatchFailures, host`ticksLeft
      ensures Valid()
      ensures lastPosition == old(lastPosition)
      ensures lastTilt == Iterate(old(lastTilt), ClampPercent(targetTilt), tiltRate, ticks)
      ensures forall k | 0 <= k < ticks ::
                EPS <= Abs(ClampPercent(targetTilt) - Iterate(old(lastTilt), ClampPercent(targetTilt), tiltRate, k))
      ensures ticks <= old(host.ticksLeft) && host.ticksLeft == old(host.ticksLeft) - ticks
      ensures end == Reached ==> Abs(ClampPercent(targetTilt) - lastTilt) < EPS
      ensures end == OutOfTicks ==> host.ticksLeft == 0 && EPS <= Abs(ClampPercent(targetTilt) - lastTilt)
      ensures cancelRequested <==> end == Cancelled
      ensures old(cancelRequested) || Head(old(host.stopArrivals)) ==> end == Cancelled && ticks == 0
      ensures end == Cancelled <==> old(cancelRequested) || Head(Drop(old(host.stopArrivals), ticks))
      ensures old(cancelRequested) || !TrueWithin(old(host.stopArrivals), ticks)
      ensures end == Cancelled ==>
                && lastDirection == Stopped
                && issued == old(issued) + MotorCommands(old(lastDirection), Stopped)
                && lastTimestampMillis == host.clockMillis
      ensures end != Cancelled ==>
                && lastDirection == old(lastDirection)
                && issued == old(issued)
                && old(lastTimestampMillis) + ticks <= lastTimestampMillis <= old(lastTimestampMillis) + TICK_MS * ticks
      ensures AllFalse(old(host.dispatchFailures)) ==> AllFalse(host.dispatchFailures)
      ensures old(host.Quiet()) ==> host.Quiet() && cancelRequested == old(cancelRequested)
    {
      var target := ClampPercent(targetTilt);
      ticks := 0;
      while true
        invariant Valid()
        invariant lastPosition == old(lastPosition)
        invariant lastTilt == Iterate(old(lastTilt), target, tiltRate, ticks)
        invariant forall k | 0 <= k < ticks :: EPS <= Abs(target - Iterate(old(lastTilt), target, tiltRate, k))
        invariant ticks <= old(host.ticksLeft) && host.ticksLeft == old(host.ticksLeft) - ticks
        invariant lastDirection == old(lastDirection) && issued == old(issued)
        invariant old(lastTimestampMillis) + ticks <= lastTimestampMillis <= old(lastTimestampMillis) + TICK_MS * ticks
        invariant cancelRequested == old(cancelRequested)
        invariant ticks > 0 ==> !old(cancelRequested) && !Head(old(host.stopArrivals))
        invariant host.stopArrivals == Drop(old(host.stopArrivals), ticks)
        invariant ticks > 0 ==> !TrueWithin(old(host.stopArrivals), ticks)
        invariant host.dispatchFailures == old(host.dispatchFailures)
        invariant old(host.Quiet()) ==> host.Quiet()
        decreases host.ticksLeft
      {
        var ticked, passEnd := TiltPass(target, host);
        if !ticked {
          end := passEnd;
          return;
        }
        ticks := ticks + 1;
      }
    }

    /**
     * The tick of `_act_position` (cover.py lines 405-412): the slice, the move
     * by rate * slice in the sign of the remaining travel, the timestamp
     * advance and the clamp.
     */
    method PositionTick(target: real)
      requires Valid()
      modifies this`lastPosition, this`lastTilt, this`lastTimestampMillis
      ensures Valid()
      ensures lastTilt == old(lastTilt)
      ensures lastPosition == TickValue(old(lastPosition), target, positionRate)
      ensures lastTimestampMillis == old(lastTimestampMillis) + SliceMillis(target - old(lastPosition), positionRate)
    {
      var need := target - lastPosition;
      var sliceMillis := SliceMillis(need, positionRate);
      lastPosition := lastPosition + positionRate * sliceMillis as real * StepSign(need);
      lastTimestampMillis := lastTimestampMillis + sliceMillis;
      Clamp();
    }

    /**
     * One pass of the `_act_position` loop (cover.py lines 394-412): the
     * cancellation check, the settle check, and otherwise one tick, if the
     * host grants one.
     */
    method PositionPass(target: real, host: Host) returns (ticked: bool, end: PhaseEnd)
      requires Valid()
      modifies this`lastPosition, this`lastTilt, this`lastTimestampMillis, this`lastDirection, this`cancelRequested, this`issued
      modifies host`stopArrivals, host`dispatchFailures, host`ticksLeft
      ensures Valid()
      ensures lastTilt == old(lastTilt)
      ensures !ticked && end == Cancelled <==> old(cancelRequested) || Head(old(host.stopArrivals))
      ensures cancelRequested <==> !ticked && end == Cancelled
      ensures !ticked && end == Cancelled ==>
                && lastPosition == old(lastPosition) && lastDirection == Stopped
                && issued == old(issued) + MotorCommands(old(lastDirection), Stopped)
                && lastTimestampMillis == host.clockMillis && host.ticksLeft == old(host.ticksLeft)
      ensures !(!ticked && end == Cancelled) ==>
                && lastDirection == old(lastDirection) && issued == old(issued)
                && host.stopArrivals == Rest(old(host.stopArrivals))
                && host.dispatchFailures == old(host.dispatchFailures)
      ensures !ticked && end == Reached ==>
                && Abs(target - old(lastPosition)) < EPS && lastPosition == old(lastPosition)
                && lastTimestampMillis == old(lastTimestampMillis) && host.ticksLeft == old(host.ticksLeft)
      ensures !ticked && end == OutOfTicks ==>
                && EPS <= Abs(target - old(lastPosition)) && lastPosition == old(lastPosition)
                && lastTimestampMillis == old(lastTimestampMillis) && old(host.ticksLeft) == host.ticksLeft == 0
      ensures ticked ==>
                && EPS <= Abs(target - old(lastPosition)) && lastPosition == TickValue(old(lastPosition), target, positionRate)
                && old(lastTimestampMillis) < lastTimestampMillis <= old(lastTimestampMillis) + TICK_MS
                && 0 < old(host.ticksLeft) && host.ticksLeft == old(host.ticksLeft) - 1
      ensures AllFalse(old(host.dispatchFailures)) ==> AllFalse(host.dispatchFailures)
      ensures old(host.Quiet()) ==> host.Quiet()
    {
      var cancelled := CancelCheck(host);
      if cancelled {
        return false, Cancelled;
      }
      var need := target - lastPosition;
      if Abs(need) < EPS {
        return false, Reached;
      }
      var granted := host.GrantTick();
      if !granted {
        return false, OutOfTicks;
      }
      PositionTick(target);
      ticked, end := true, Reached;
    }

    /**
     * `_act_position`: the loop of `_act_tilt` on the position, at the
     * position rate. Its direction argument is only logged and is left out.
     */
    method ActPosition(targetPosition: real, host: Host) returns (ghost end: PhaseEnd, ghost ticks: nat)
      requires Valid()
      modifies this`lastPosition, this`lastTilt, this`lastTimestampMillis, this`lastDirection, this`cancelRequested, this`issued
      modifies host`stopArrivals, host`dispatchFailures, host`ticksLeft
      ensures Valid()
      ensures lastTilt == old(lastTilt)
      ensures lastPosition == Iterate(old(lastPosition), ClampPercent(targetPosition), positionRate, ticks)
      ensures forall k | 0 <= k < ticks ::
                EPS <= Abs(ClampPercent(targetPosition) - Iterate(old(lastPosition), ClampPercent(targetPosition), positionRate, k))
      ensures ticks <= old(host.ticksLeft) && host.ticksLeft == old(host.ticksLeft) - ticks
      ensures end == Reached ==> Abs(ClampPercent(targetPosition) - lastPosition) < EPS
      ensures end == OutOfTicks ==> host.ticksLeft == 0 && EPS <= Abs(ClampPercent(targetPosition) - lastPosition)
      ensures cancelRequested <==> end == Cancelled
      ensures old(cancelRequested) || Head(old(host.stopArrivals)) ==> end == Cancelled && ticks == 0
      ensures end == Cancelled <==> old(cancelRequested) || Head(Drop(old(host.stopArrivals), ticks))
      ensures old(cancelRequested) || !TrueWithin(old(host.stopArrivals), ticks)
      ensures end == Cancelled ==>
                && lastDirection == Stopped
                && issued == old(issued) + MotorCommands(old(lastDirection), Stopped)
                && lastTimestampMillis == host.clockMillis
      ensures end != Cancelled ==>
                && lastDirection == old(lastDirection)
                && issued == old(issued)
                && old(lastTimestampMillis) + ticks <= lastTimestampMillis <= old(lastTimestampMillis) + TICK_MS * ticks
      ensures AllFalse(old(host.dispatchFailures)) ==> AllFalse(host.dispatchFailures)
      ensures old(host.Quiet()) ==> host.Quiet() && cancelRequested == old(cancelRequested)
    {
      var target := ClampPercent(targetPosition);
      ticks := 0;
      while true
        invariant Valid()
        invariant lastTilt == old(lastTilt)
        invariant lastPosition == Iterate(old(lastPosition), target, positionRate, ticks)
        invariant forall k | 0 <= k < ticks :: EPS <= Abs(target - Iterate(old(lastPosition), target, positionRate, k))
        invariant ticks <= old(host.ticksLeft) && host.ticksLeft == old(host.ticksLeft) - ticks
        invariant lastDirection == old(lastDirection) && issued == old(issued)
        invariant old(lastTimestampMillis) + ticks <= lastTimestampMillis <= old(lastTimestampMillis) + TICK_MS * ticks
        invariant cancelRequested == old(cancelRequested)
        invariant ticks > 0 ==> !old(cancelRequested) && !Head(old(host.stopArrivals))
        invariant host.stopArrivals == Drop(old(host.stopArrivals), ticks)
        invariant ticks > 0 ==> !TrueWithin(old(host.stopArrivals), ticks)
        invariant host.dispatchFailures == old(host.dispatchFailures)
        invariant old(host.Quiet()) ==> host.Quiet()
        decreases host.ticksLeft
      {
        var ticked, passEnd := PositionPass(target, host);
        if !ticked {
          end := passEnd;
          return;
        }
        ticks := ticks + 1;
      }
    }

    /**
     * `_act`: clears any earlier cancellation, clamps the targets and takes
     * one of three paths (`PathFor`): idle, tilt only, or the move sequence.
     * Whatever happens, it ends with the motor recorded as stopped.
     */
    method Act(targetPosition: real, targetTilt: Option<real>, host: Host)
      requires Valid()
      modifies this`lastPosition, this`lastTilt, this`lastTimestampMillis, this`lastDirection, this`cancelRequested, this`issued
      modifies host`stopArrivals, host`dispatchFailures, host`ticksLeft
      ensures Valid()
      ensures lastDirection == Stopped && lastTimestampMillis == host.clockMillis
      ensures host.ticksLeft <= old(host.ticksLeft) && old(issued) <= issued
      ensures old(host.Quiet()) ==> host.Quiet() && !cancelRequested
      ensures old(host.Quiet()) && 0 < host.ticksLeft ==>
                && Abs(ClampPercent(targetPosition) - lastPosition) < EPS
                && (targetTilt.Some? ==> Abs(ClampPercent(targetTilt.value) - lastTilt) <= EPS)
      ensures PathFor(ClampPercent(targetPosition), ClampTilt(targetTilt), old(lastPosition), old(lastTilt)) == Idle ==>
                && lastPosition == old(lastPosition) && lastTilt == old(lastTilt)
                && issued == old(issued) + MotorCommands(old(lastDirection), Stopped)
                && host.ticksLeft == old(host.ticksLeft)
      ensures PathFor(ClampPercent(targetPosition), ClampTilt(targetTilt), old(lastPosition), old(lastTilt)) == TiltOnly ==>
                var tilt := ClampPercent(targetTilt.value);
                var direction := MoveDirection(tilt, old(lastTilt));
                && lastPosition == old(lastPosition)
                && (exists k: nat :: lastTilt == Iterate(old(lastTilt), tilt, tiltRate, k))
                && (old(host.Quiet()) ==>
                      && issued == old(issued) + MotorCommands(old(lastDirection), direction) + [RawStop]
                      && (0 < host.ticksLeft ==> Abs(tilt - lastTilt) < EPS))
                && (Head(old(host.stopArrivals)) && AllFalse(old(host.dispatchFailures)) ==>
                      && cancelRequested && lastTilt == old(lastTilt)
                      && issued == old(issued) + MotorCommands(old(lastDirection), direction) + [RawStop])
      ensures PathFor(ClampPercent(targetPosition), ClampTilt(targetTilt), old(lastPosition), old(lastTilt)) == MoveSequence ==>
                var position, tilt := ClampPercent(targetPosition), ClampTilt(targetTilt);
                var direction := MoveDirection(position, old(lastPosition));
                && old(issued) + MotorCommands(old(lastDirection), direction) <= issued
                && (old(host.Quiet()) && 0 < host.ticksLeft ==>
                      && Abs(position - lastPosition) < EPS
                      && (tilt.None? ==> Abs(PreTiltTarget(direction) - lastTilt) < EPS)
                      && (tilt.Some? ==> Abs(tilt.value - lastTilt) <= EPS)
                      && (tilt.None? || tilt.value == PreTiltTarget(direction) ==>
                            issued == old(issued) + MotorCommands(old(lastDirection), direction) + [RawStop])
                      && (tilt.Some? && 2.0 * EPS <= Abs(tilt.value - PreTiltTarget(direction)) ==>
                            issued == old(issued) + MotorCommands(old(lastDirection), direction)
                                      + MotorCommands(direction, MoveDirection(tilt.value, PreTiltTarget(direction))) + [RawStop]))
                && (Head(old(host.stopArrivals)) && AllFalse(old(host.dispatchFailures)) ==>
                      && cancelRequested && lastPosition == old(lastPosition) && lastTilt == old(lastTilt)
                      && issued == old(issued) + MotorCommands(old(lastDirection), direction) + [RawStop]
                                   + (if tilt.Some? && EPS < Abs(tilt.value - old(lastTilt))
                                      then [CommandFor(MoveDirection(tilt.value, old(lastTilt))), RawStop] else []))
    {
      cancelRequested := false;
      var position := ClampPercent(targetPosition);
      var tilt := ClampTilt(targetTilt);
      if Abs(position - lastPosition) < EPS {
        if tilt.None? || Abs(tilt.value - lastTilt) < EPS {
          ActIdle(host);
        } else {
          ActTiltOnly(tilt.value, host);
        }
      } else {
        ActMoveSequence(position, tilt, host);
      }
    }

    /**
     * `async_open_cover`: position 100 with the slats fully open. On a quiet
     * host the move issues the command toward Up and one stop; a stop command
     * that comes in at the first poll does not end the sequence, whose
     * post-tilt opens the motor once more before stopping it again.
     */
    method OpenCover(host: Host)
      requires Valid()
      modifies this`lastPosition, this`lastTilt, this`lastTimestampMillis, this`lastDirection, this`cancelRequested, this`issued
      modifies host`stopArrivals, host`dispatchFailures, host`ticksLeft
      ensures Valid() && lastDirection == Stopped
      ensures old(host.Quiet()) ==> !cancelRequested
      ensures old(host.Quiet()) && 0 < host.ticksLeft ==>
                Abs(100.0 - lastPosition) < EPS && Abs(100.0 - lastTilt) <= EPS
      ensures old(host.Quiet()) && 0 < host.ticksLeft && EPS <= Abs(100.0 - old(lastPosition)) ==>
                issued == old(issued) + MotorCommands(old(lastDirection), Up) + [RawStop]
      ensures Head(old(host.stopArrivals)) && AllFalse(old(host.dispatchFailures)) && EPS <= Abs(100.0 - old(lastPosition)) ==>
                && cancelRequested && lastPosition == old(lastPosition) && lastTilt == old(lastTilt)
                && issued == old(issued) + MotorCommands(old(lastDirection), Up) + [RawStop]
                             + (if EPS < Abs(100.0 - old(lastTilt)) then [RawOpen, RawStop] else [])
    {
      var target := TargetFor(OpenRequest, lastPosition).value;
      Act(target.position, target.tilt, host);
    }

    /** `async_close_cover`: position 0 with the slats fully closed; the mirror image of `OpenCover`. */
    method CloseCover(host: Host)
      requires Valid()
      modifies this`lastPosition, this`lastTilt, this`lastTimestampMillis, this`lastDirection, this`cancelRequested, this`issued
      modifies host`stopArrivals, host`dispatchFailures, host`ticksLeft
      ensures Valid() && lastDirection == Stopped
      ensures old(host.Quiet()) ==> !cancelRequested
      ensures old(host.Quiet()) && 0 < host.ticksLeft ==>
                Abs(0.0 - lastPosition) < EPS && Abs(0.0 - lastTilt) <= EPS
      ensures old(host.Quiet()) && 0 < host.ticksLeft && EPS <= Abs(0.0 - old(lastPosition)) ==>
                issued == old(issued) + MotorCommands(old(lastDirection), Down) + [RawStop]
      ensures Head(old(host.stopArrivals)) && AllFalse(old(host.dispatchFailures)) && EPS <= Abs(0.0 - old(lastPosition)) ==>
                && cancelRequested && lastPosition == old(lastPosition) && lastTilt == old(lastTilt)
                && issued == old(issued) + MotorCommands(old(lastDirection), Down) + [RawStop]
                             + (if EPS < Abs(0.0 - old(lastTilt)) then [RawClose, RawStop] else [])
    {
      var target := TargetFor(CloseRequest, lastPosition).value;
      Act(target.position, target.tilt, host);
    }

    /**
     * `async_set_cover_position`: the position, with the tilt end stop of
     * the travel direction as tilt target. Such a move never needs a
     * post-tilt: on a quiet host it issues one motor command and one stop.
     */
    method SetCoverPosition(position: int, host: Host)
      requires Valid()
      modifies this`lastPosition, this`lastTilt, this`lastTimestampMillis, this`lastDirection, this`cancelRequested, this`issued
      modifies host`stopArrivals, host`dispatchFailures, host`ticksLeft
      ensures Valid() && lastDirection == Stopped
      ensures old(host.Quiet()) ==> !cancelRequested
      ensures old(host.Quiet()) && 0 < host.ticksLeft ==>
                && Abs(ClampPercent(position as real) - lastPosition) < EPS
                && Abs(ClampPercent(MappedTilt(position, old(lastPosition))) - lastTilt) <= EPS
      ensures old(host.Quiet()) && 0 < host.ticksLeft && EPS <= Abs(ClampPercent(position as real) - old(lastPosition)) ==>
                issued == old(issued) + MotorCommands(old(lastDirection), MoveDirection(ClampPercent(position as real), old(lastPosition)))
                          + [RawStop]
    {
      var target := TargetFor(PositionRequest(position), lastPosition).value;
      PositionOnlyMatchesPreTilt(position, lastPosition);
      Act(target.position, target.tilt, host);
    }

    /**
     * `async_set_cover_tilt_position`: the tilt at the current position. The
     * position never changes; on a quiet host with ticks left the tilt
     * settles within EPS of its target.
     */
    method SetCoverTiltPosition(tilt: int, host: Host)
      requires Valid()
      modifies this`lastPosition, this`lastTilt, this`lastTimestampMillis, this`lastDirection, this`cancelRequested, this`issued
      modifies host`stopArrivals, host`dispatchFailures, host`ticksLeft
      ensures Valid() && lastDirection == Stopped
      ensures lastPosition == old(lastPosition)
      ensures var target := ClampPercent(tilt as real);
              exists k: nat :: lastTilt == Iterate(old(lastTilt), target, tiltRate, k)
      ensures old(host.Quiet()) ==> !cancelRequested
      ensures old(host.Quiet()) && 0 < host.ticksLeft ==> Abs(ClampPercent(tilt as real) - lastTilt) < EPS
    {
      ghost var before := lastTilt;
      var target := TargetFor(TiltRequest(tilt), lastPosition).value;
      Act(target.position, target.tilt, host);
      if lastTilt == before {
        assert lastTilt == Iterate(before, ClampPercent(tilt as real), tiltRate, 0);
      }
    }

    /**
     * `async_set_position_and_tilt`: either target may be left out. With
     * neither, nothing happens; a missing tilt is mapped as for
     * `SetCoverPosition`, a missing position keeps the current one.
     */
    method SetPositionAndTilt(position: Option<int>, tilt: Option<int>, host: Host)
      requires Valid()
      modifies this`lastPosition, this`lastTilt, this`lastTimestampMillis, this`lastDirection, this`cancelRequested, this`issued
      modifies host`stopArrivals, host`dispatchFailures, host`ticksLeft
      ensures Valid()
      ensures position.None? && tilt.None? ==>
                && lastPosition == old(lastPosition) && lastTilt == old(lastTilt)
                && lastTimestampMillis == old(lastTimestampMillis) && lastDirection == old(lastDirection)
                && cancelRequested == old(cancelRequested) && issued == old(issued)
                && host.stopArrivals == old(host.stopArrivals) && host.dispatchFailures == old(host.dispatchFailures)
                && host.ticksLeft == old(host.ticksLeft)
      ensures position.Some? || tilt.Some? ==>
                var target := TargetFor(PositionAndTiltRequest(position, tilt), old(lastPosition)).value;
                && lastDirection == Stopped
                && (position.None? ==> lastPosition == old(lastPosition))
                && (old(host.Quiet()) && 0 < host.ticksLeft ==>
                      && Abs(ClampPercent(target.position) - lastPosition) < EPS
                      && Abs(ClampPercent(target.tilt.value) - lastTilt) <= EPS)
    {
      var target := TargetFor(PositionAndTiltRequest(position, tilt), lastPosition);
      if target.None? {
        return;
      }
      Act(target.value.position, target.value.tilt, host);
    }

    /**
     * The idle path of `_act` (cover.py lines 441-446): both targets are
     * already met, so the motor is only told to stop and the timestamp is
     * resynchronised.
     */
    method ActIdle(host: Host)
      requires Valid()
      modifies this`issued, this`cancelRequested, this`lastDirection, this`lastTimestampMillis, host`dispatchFailures
      ensures Valid()
      ensures lastDirection == Stopped && lastTimestampMillis == host.clockMillis
      ensures lastPosition == old(lastPosition) && lastTilt == old(lastTilt)
      ensures issued == old(issued) + MotorCommands(old(lastDirection), Stopped)
      ensures old(host.Quiet()) ==> host.Quiet() && cancelRequested == old(cancelRequested)
    {
      Motor(Stopped, host);
      lastTimestampMillis := host.NowMillis();
    }

    /**
     * The tilt-only path of `_act` (cover.py lines 448-457): run the motor
     * toward the tilt target, tick the tilt there, stop.
     */
    method ActTiltOnly(targetTilt: real, host: Host)
      requires Valid() && !cancelRequested && InRange(targetTilt)
      modifies this`lastPosition, this`lastTilt, this`lastTimestampMillis, this`lastDirection, this`cancelRequested, this`issued
      modifies host`stopArrivals, host`dispatchFailures, host`ticksLeft
      ensures Valid()
      ensures lastDirection == Stopped && lastTimestampMillis == host.clockMillis
      ensures host.ticksLeft <= old(host.ticksLeft)
      ensures lastPosition == old(lastPosition)
      ensures exists k: nat :: lastTilt == Iterate(old(lastTilt), targetTilt, tiltRate, k)
      ensures old(issued) + MotorCommands(old(lastDirection), MoveDirection(targetTilt, old(lastTilt))) <= issued
      ensures old(host.Quiet()) ==>
                && host.Quiet() && !cancelRequested
                && issued == old(issued) + MotorCommands(old(lastDirection), MoveDirection(targetTilt, old(lastTilt))) + [RawStop]
                && (0 < host.ticksLeft ==> Abs(targetTilt - lastTilt) < EPS)
      ensures Head(old(host.stopArrivals)) && AllFalse(old(host.dispatchFailures)) ==>
                && cancelRequested && lastTilt == old(lastTilt)
                && issued == old(issued) + MotorCommands(old(lastDirection), MoveDirection(targetTilt, old(lastTilt))) + [RawStop]
    {
      var direction := MoveDirection(targetTilt, lastTilt);
      Motor(direction, host);
      ghost var end: PhaseEnd, ticks: nat;
      end, ticks := ActTilt(targetTilt, host);
      Settle(host);
    }

    /**
     * The move sequence of `_act` (cover.py lines 460-476): run the motor
     * toward the position target, turn the slats to the end stop of that
     * direction, travel, then turn the slats to the tilt target when it is
     * more than EPS away, and stop. Each phase polls for cancellation, but a
     * cancelled phase does not end the sequence: the later phases still run
     * their motor commands.
     */
    method ActMoveSequence(targetPosition: real, targetTilt: Option<real>, host: Host)
      requires Valid() && !cancelRequested && InRange(targetPosition)
      requires targetTilt.Some? ==> InRange(targetTilt.value)
      modifies this`lastPosition, this`lastTilt, this`lastTimestampMillis, this`lastDirection, this`cancelRequested, this`issued
      modifies host`stopArrivals, host`dispatchFailures, host`ticksLeft
      ensures Valid()
      ensures lastDirection == Stopped && lastTimestampMillis == host.clockMillis
      ensures host.ticksLeft <= old(host.ticksLeft)
      ensures old(issued) + MotorCommands(old(lastDirection), MoveDirection(targetPosition, old(lastPosition))) <= issued
      ensures old(host.Quiet()) ==> host.Quiet() && !cancelRequested
      ensures old(host.Quiet()) && 0 < host.ticksLeft ==>
                var direction := MoveDirection(targetPosition, old(lastPosition));
                && Abs(targetPosition - lastPosition) < EPS
                && (targetTilt.None? ==> Abs(PreTiltTarget(direction) - lastTilt) < EPS)
                && (targetTilt.Some? ==> Abs(targetTilt.value - lastTilt) <= EPS)
                && (targetTilt.None? || targetTilt.value == PreTiltTarget(direction) ==>
                      issued == old(issued) + MotorCommands(old(lastDirection), direction) + [RawStop])
                && (targetTilt.Some? && 2.0 * EPS <= Abs(targetTilt.value - PreTiltTarget(direction)) ==>
                      issued == old(issued) + MotorCommands(old(lastDirection), direction)
                                + MotorCommands(direction, MoveDirection(targetTilt.value, PreTiltTarget(direction))) + [RawStop])
      ensures Head(old(host.stopArrivals)) && AllFalse(old(host.dispatchFailures)) ==>
                var postTilt := targetTilt.Some? && EPS < Abs(targetTilt.value - old(lastTilt));
                && cancelRequested && lastPosition == old(lastPosition) && lastTilt == old(lastTilt)
                && issued == old(issued) + MotorCommands(old(lastDirection), MoveDirection(targetPosition, old(lastPosition)))
                             + [RawStop]
                             + (if postTilt then [CommandFor(MoveDirection(targetTilt.value, old(lastTilt))), RawStop] else [])
    {
      PreTiltAndTravel(targetPosition, host);
      PostTilt(targetTilt, host);
      Settle(host);
    }

    /**
     * The first part of the move sequence (cover.py lines 460-465): run the
     * motor toward the position target, turn the slats to the end stop of
     * that direction, then travel.
     */
    method PreTiltAndTravel(targetPosition: real, host: Host)
      requires Valid() && !cancelRequested && InRange(targetPosition)
      modifies this`lastPosition, this`lastTilt, this`lastTimestampMillis, this`lastDirection, this`cancelRequested, this`issued
      modifies host`stopArrivals, host`dispatchFailures, host`ticksLeft
      ensures Valid()
      ensures host.ticksLeft <= old(host.ticksLeft)
      ensures old(issued) + MotorCommands(old(lastDirection), MoveDirection(targetPosition, old(lastPosition))) <= issued
      ensures old(host.Quiet()) ==>
                var direction := MoveDirection(targetPosition, old(lastPosition));
                && host.Quiet() && !cancelRequested && lastDirection == direction
                && issued == old(issued) + MotorCommands(old(lastDirection), direction)
                && (0 < host.ticksLeft ==>
                      Abs(targetPosition - lastPosition) < EPS && Abs(PreTiltTarget(direction) - lastTilt) < EPS)
      ensures Head(old(host.stopArrivals)) && AllFalse(old(host.dispatchFailures)) ==>
                && AllFalse(host.dispatchFailures) && cancelRequested && lastDirection == Stopped
                && lastPosition == old(lastPosition) && lastTilt == old(lastTilt)
                && issued == old(issued) + MotorCommands(old(lastDirection), MoveDirection(targetPosition, old(lastPosition))) + [RawStop]
    {
      var direction := MoveDirection(targetPosition, lastPosition);
      Motor(direction, host);
      ghost var end: PhaseEnd, ticks: nat;
      end, ticks := ActTilt(PreTiltTarget(direction), host);
      end, ticks := ActPosition(targetPosition, host);
    }

    /**
     * The post-tilt of the move sequence (cover.py lines 467-470): when a
     * tilt target is given and lies more than EPS away, run the motor toward
     * it and tick the tilt there. It runs even after a cancelled phase.
     */
    method PostTilt(targetTilt: Option<real>, host: Host)
      requires Valid()
      requires targetTilt.Some? ==> InRange(targetTilt.value)
      modifies this`lastPosition, this`lastTilt, this`lastTimestampMillis, this`lastDirection, this`cancelRequested, this`issued
      modifies host`stopArrivals, host`dispatchFailures, host`ticksLeft
      ensures Valid()
      ensures lastPosition == old(lastPosition) && host.ticksLeft <= old(host.ticksLeft)
      ensures old(host.Quiet()) ==> host.Quiet() && cancelRequested == old(cancelRequested)
      ensures AllFalse(old(host.dispatchFailures)) ==> AllFalse(host.dispatchFailures)
      ensures !(targetTilt.Some? && EPS < Abs(targetTilt.value - old(lastTilt))) ==>
                && lastTilt == old(lastTilt) && issued == old(issued) && lastDirection == old(lastDirection)
                && cancelRequested == old(cancelRequested) && host.ticksLeft == old(host.ticksLeft)
                && host.dispatchFailures == old(host.dispatchFailures)
      ensures targetTilt.Some? && EPS < Abs(targetTilt.value - old(lastTilt)) ==>
                var direction := MoveDirection(targetTilt.value, old(lastTilt));
                && old(issued) + MotorCommands(old(lastDirection), direction) <= issued
                && (old(host.Quiet()) && !old(cancelRequested) ==>
                      && issued == old(issued) + MotorCommands(old(lastDirection), direction)
                      && lastDirection == direction
                      && (0 < host.ticksLeft ==> Abs(targetTilt.value - lastTilt) < EPS))
                && (old(cancelRequested) && old(lastDirection) == Stopped && AllFalse(old(host.dispatchFailures)) ==>
                      && issued == old(issued) + [CommandFor(direction), RawStop]
                      && lastTilt == old(lastTilt) && lastDirection == Stopped && cancelRequested)
    {
      if targetTilt.Some? && Abs(targetTilt.value - lastTilt) > EPS {
        var direction := MoveDirection(targetTilt.value, lastTilt);
        Motor(direction, host);
        ghost var end: PhaseEnd, ticks: nat;
        end, ticks := ActTilt(targetTilt.value, host);
      }
    }

    /**
     * How both moving paths of `_act` end (cover.py lines 452-454 and
     * 472-474): stop the motor, resynchronise the timestamp, clamp.
     */
    method Settle(host: Host)
      requires Valid()
      modifies this`lastPosition, this`lastTilt, this`lastTimestampMillis, this`lastDirection, this`cancelRequested, this`issued
      modifies host`dispatchFailures
      ensures Valid()
      ensures lastPosition == old(lastPosition) && lastTilt == old(lastTilt)
      ensures lastDirection == Stopped && lastTimestampMillis == host.clockMillis
      ensures issued == old(issued) + MotorCommands(old(lastDirection), Stopped)
      ensures AllFalse(old(host.dispatchFailures)) ==>
                AllFalse(host.dispatchFailures) && cancelRequested == old(cancelRequested)
    {
      Motor(Stopped, host);
      lastTimestampMillis := host.NowMillis();
      Clamp();
    }
  }
}
