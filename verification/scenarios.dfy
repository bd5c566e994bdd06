/**
 * Concrete runs of the cover that show two behaviours of cover.py as it is
 * written: a cancelled move sequence still runs the motor of its later
 * phases, and a tilt whose target is an awkward distance away never settles.
 */
module Scenarios {
  import opened Kinematics
  import opened MotorControl
  import opened Environment
  import opened CoverPlus

  /**
   * A fully closed cover is opened and a stop command comes in at the first
   * poll. The stop halts the pre-tilt, the travel is skipped, but the
   * post-tilt still opens the motor before stopping it again, and nothing
   * has moved.
   */
  method StopDuringOpen() returns (log: seq<RawCommand>, position: real, tilt: real, cancelled: bool)
    ensures log == [RawOpen, RawStop, RawOpen, RawStop]
    ensures position == 0.0 && tilt == 0.0 && cancelled
  {
    var cover := new TiltVirtualCover(60, 1500);
    var host := new Host([true], [], 0, 1000);
    cover.OpenCover(host);
    log, position, tilt, cancelled := cover.issued, cover.lastPosition, cover.lastTilt, cover.cancelRequested;
  }

  /**
   * The dispatch of the open command fails: `_svc` requests cancellation
   * and records Stopped, and `_motor` then records Up over it.
   */
  method FailedOpenStillRecordsUp() returns (direction: Direction, cancelled: bool, log: seq<RawCommand>)
    ensures direction == Up && cancelled && log == [RawOpen]
  {
    var cover := new TiltVirtualCover(60, 1500);
    var host := new Host([], [true], 0, 1000);
    cover.Motor(Up, host);
    direction, cancelled, log := cover.lastDirection, cover.cancelRequested, cover.issued;
  }

  /**
   * With tilt_time_ms = 750, setting the tilt of a fresh cover to 51 on a
   * host that never interrupts spends every tick it is granted and still
   * ends at least EPS from 51: in exact arithmetic the source loop would
   * never end.
   */
  method TiltToFiftyOneSpendsEveryTick(ticks: nat) returns (ticksLeft: nat, distance: real)
    ensures ticksLeft == 0 && EPS <= distance
  {
    var cover := new TiltVirtualCover(60, 750);
    var host := new Host([], [], 0, ticks);
    cover.SetCoverTiltPosition(51, host);
    ghost var k: nat :| cover.lastTilt == Iterate(0.0, 51.0, cover.tiltRate, k);
    TiltToFiftyOneNeverSettles(k);
    ticksLeft, distance := host.ticksLeft, Abs(51.0 - cover.lastTilt);
  }
}
