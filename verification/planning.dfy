/**
 * The command-to-target mapping (cover.py lines 479-524) and the choice the
 * orchestrator `_act` makes between its three paths (lines 440-441 and 460).
 */
module Planning {
  import opened Wrappers
  import opened Kinematics
  import opened MotorControl

  /** The commands of the cover that resolve to a call of `_act`. */
  datatype Request =
    | OpenRequest
    | CloseRequest
    | PositionRequest(position: int)
    | TiltRequest(tilt: int)
    | PositionAndTiltRequest(givenPosition: Option<int>, givenTilt: Option<int>)

  /** The arguments of one `_act` call. */
  datatype Target = Target(position: real, tilt: Option<real>)

  /** The tilt a position-only command asks for: 0 when moving down, else 100. */
  function MappedTilt(position: int, current: real): real {
    if (position as real) < current then 0.0 else 100.0
  }

  /**
   * The targets a command hands to `_act` when the cover stands at
   * `current`; `None` for `set_position_and_tilt` with neither argument,
   * which does nothing.
   */
  function TargetFor(req: Request, current: real): (t: Option<Target>)
    ensures t.None? <==> req == PositionAndTiltRequest(None, None)
    ensures t.Some? ==> t.value.tilt.Some?
    ensures req == OpenRequest ==> t == Some(Target(100.0, Some(100.0)))
    ensures req == CloseRequest ==> t == Some(Target(0.0, Some(0.0)))
    ensures req.TiltRequest? ==> t == Some(Target(current, Some(req.tilt as real)))
    ensures req.PositionAndTiltRequest? && req.givenPosition.None? && req.givenTilt.Some? ==>
              t == Some(Target(current, Some(req.givenTilt.value as real)))
    ensures req.PositionRequest? ==> t == Some(Target(req.position as real, Some(MappedTilt(req.position, current))))
    ensures req.PositionAndTiltRequest? && req.givenPosition.Some? ==>
              var p := req.givenPosition.value;
              t.Some? && t.value.position == p as real &&
              t.value.tilt == Some(if req.givenTilt.Some? then req.givenTilt.value as real else MappedTilt(p, current))
  {
    match req
    case OpenRequest => Some(Target(100.0, Some(100.0)))
    case CloseRequest => Some(Target(0.0, Some(0.0)))
    case PositionRequest(p) => Some(Target(p as real, Some(MappedTilt(p, current))))
    case TiltRequest(tt) => Some(Target(current, Some(tt as real)))
    case PositionAndTiltRequest(p, tt) =>
      if p.None? && tt.None? then None
      else if p.None? then Some(Target(current, Some(tt.value as real)))
      else if tt.None? then Some(Target(p.value as real, Some(MappedTilt(p.value, current))))
      else Some(Target(p.value as real, Some(tt.value as real)))
  }

  /** The three paths of `_act`. */
  datatype Path = Idle | TiltOnly | MoveSequence

  /** `_act` clamps an optional tilt target too (line 435). */
  function ClampTilt(tilt: Option<real>): Option<real> {
    if tilt.Some? then Some(ClampPercent(tilt.value)) else None
  }

  /** The path `_act` takes for clamped targets from `position` and `tilt`. */
  function PathFor(targetPosition: real, targetTilt: Option<real>, position: real, tilt: real): Path {
    if Abs(targetPosition - position) < EPS then
      if targetTilt.None? || Abs(targetTilt.value - tilt) < EPS then Idle else TiltOnly
    else MoveSequence
  }

  /** The motor direction toward a target: Up when it lies above, else Down. */
  function MoveDirection(target: real, current: real): (d: Direction)
    ensures IsMoving(d)
    ensures d == Up <==> current < target
  {
    if target > current then Up else Down
  }

  /** The tilt end stop the slats are turned to before travelling. */
  function PreTiltTarget(direction: Direction): real {
    if direction == Up then 100.0 else 0.0
  }

  /**
   * A position-only command always asks for the tilt end stop the pre-tilt
   * of its move reaches, so its move sequence needs no post-tilt.
   */
  lemma PositionOnlyMatchesPreTilt(position: int, current: real)
    requires InRange(current)
    ensures EPS <= Abs(ClampPercent(position as real) - current) ==>
              ClampPercent(MappedTilt(position, current)) == PreTiltTarget(MoveDirection(ClampPercent(position as real), current))
  {
  }

  /** A command that names no position never takes the move sequence. */
  lemma TiltCommandsNeverMove(req: Request, current: real, tilt: real)
    requires InRange(current)
    requires req.TiltRequest? || (req.PositionAndTiltRequest? && req.givenPosition.None?)
    requires TargetFor(req, current).Some?
    ensures var t := TargetFor(req, current).value;
            PathFor(ClampPercent(t.position), ClampTilt(t.tilt), current, tilt) != MoveSequence
  {
  }
}
