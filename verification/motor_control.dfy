/**
 * The motor-direction controller of cover.py (`_motor`, lines 314-346) as a
 * specification: which raw commands a direction request issues, which
 * direction is recorded afterwards, and the invariant of the issued-command
 * log that this keeps (no open right next to a close). Also the check that a
 * restored direction is one of the three known ones (line 266).
 */
module MotorControl {
  import opened Wrappers

  /**
   * A direction value. The source keeps directions as the strings "UP",
   * "DOWN" and "STOPPED"; any other string is `Unknown`, which `_motor`
   * rejects and the restore check skips.
   */
  datatype Direction = Up | Down | Stopped | Unknown(name: string)

  /** One of the three directions the cover records. */
  predicate IsDirection(d: Direction) {
    !d.Unknown?
  }

  predicate IsMoving(d: Direction) {
    d == Up || d == Down
  }

  /** The string the source stores for a direction. */
  function NameOf(d: Direction): string {
    match d
    case Up => "UP"
    case Down => "DOWN"
    case Stopped => "STOPPED"
    case Unknown(s) => s
  }

  /** The direction a stored string stands for. */
  function Named(s: string): (d: Direction)
    ensures IsDirection(d) <==> s == "UP" || s == "DOWN" || s == "STOPPED"
    ensures NameOf(d) == s
  {
    if s == "UP" then Up else if s == "DOWN" then Down else if s == "STOPPED" then Stopped else Unknown(s)
  }

  /** The raw services of the real cover: `open_cover`, `close_cover`, `stop_cover`. */
  datatype RawCommand = RawOpen | RawClose | RawStop

  function CommandFor(d: Direction): RawCommand
    requires IsDirection(d)
  {
    if d == Up then RawOpen else if d == Down then RawClose else RawStop
  }

  /**
   * The raw commands `_motor(to)` issues when the recorded direction is
   * `from`: none for a repeated or unknown request, a stop first on a
   * reversal between Up and Down, then the command for the new direction.
   */
  function MotorCommands(from: Direction, to: Direction): (cmds: seq<RawCommand>)
    ensures |cmds| <= 2
    ensures cmds == [] <==> to == from || !IsDirection(to)
    ensures cmds != [] ==> cmds[|cmds| - 1] == CommandFor(to)
    ensures |cmds| == 2 <==> IsMoving(from) && IsMoving(to) && from != to
    ensures |cmds| == 2 ==> cmds[0] == RawStop
  {
    if to == from || !IsDirection(to) then []
    else if IsMoving(from) && IsMoving(to) then [RawStop, CommandFor(to)]
    else [CommandFor(to)]
  }

  /** The direction recorded after `_motor(to)`: an unknown request leaves it alone. */
  function NextDirection(from: Direction, to: Direction): (d: Direction)
    ensures IsDirection(from) ==> IsDirection(d)
    ensures IsDirection(to) ==> d == to
    ensures !IsDirection(to) ==> d == from
  {
    if IsDirection(to) then to else from
  }

  predicate Reverses(a: RawCommand, b: RawCommand) {
    (a == RawOpen && b == RawClose) || (a == RawClose && b == RawOpen)
  }

  /** No open is issued right after a close, nor a close right after an open. */
  predicate ReversalSafe(log: seq<RawCommand>) {
    PairsSafe(log, |log|)
  }

  /** No reversal among the first `n` commands of the log. */
  predicate PairsSafe(log: seq<RawCommand>, n: nat)
    requires n <= |log|
  {
    n < 2 || (!Reverses(log[n - 2], log[n - 1]) && PairsSafe(log, n - 1))
  }

  /** Appending to a log leaves what is said about its first `n` commands alone. */
  lemma {:induction false} PairsSafeAppend(log: seq<RawCommand>, more: seq<RawCommand>, n: nat)
    requires n <= |log|
    ensures PairsSafe(log + more, n) == PairsSafe(log, n)
  {
    if n >= 2 {
      PairsSafeAppend(log, more, n - 1);
    }
  }

  /** The last command issued agrees with the recorded direction. */
  predicate Agrees(log: seq<RawCommand>, d: Direction) {
    log != [] ==>
      (log[|log| - 1] == RawOpen ==> d == Up) &&
      (log[|log| - 1] == RawClose ==> d == Down)
  }

  /**
   * Stop-before-reverse: appending what `_motor` issues to a safe log that
   * agrees with the recorded direction gives a safe log that agrees with the
   * new direction.
   */
  lemma MotorKeepsLogSafe(log: seq<RawCommand>, from: Direction, to: Direction)
    requires ReversalSafe(log) && Agrees(log, from)
    ensures ReversalSafe(log + MotorCommands(from, to))
    ensures Agrees(log + MotorCommands(from, to), NextDirection(from, to))
  {
    var cmds := MotorCommands(from, to);
    var all := log + cmds;
    PairsSafeAppend(log, cmds, |log|);
    if cmds == [] {
      assert all == log;
    } else if |cmds| == 1 {
      assert PairsSafe(all, |log|);
      if log != [] && cmds[0] != RawStop {
        assert !(IsMoving(from) && IsMoving(to));
      }
      assert PairsSafe(all, |log| + 1);
    } else {
      assert PairsSafe(all, |log|);
      assert PairsSafe(all, |log| + 1);
      assert PairsSafe(all, |log| + 2);
    }
  }

  /**
   * A second request for the direction just reached issues nothing: two
   * calls in a row issue the commands of one.
   */
  lemma MotorIdempotent(from: Direction, to: Direction)
    requires IsDirection(to)
    ensures MotorCommands(NextDirection(from, to), to) == []
    ensures MotorCommands(from, to) + MotorCommands(NextDirection(from, to), to) == MotorCommands(from, to)
  {
  }

  /**
   * The direction kept after a restore: a saved value is taken only when it
   * is one of "UP", "DOWN" and "STOPPED" (cover.py line 266); otherwise the current
   * one stays.
   */
  function RestoredDirection(current: Direction, saved: Option<string>): (d: Direction)
    ensures IsDirection(current) ==> IsDirection(d)
    ensures saved.Some? && IsDirection(Named(saved.value)) ==> d == Named(saved.value)
    ensures d != current ==> saved.Some? && d == Named(saved.value) && IsDirection(d)
  {
    match saved
    case Some(v) => if v == "UP" || v == "DOWN" || v == "STOPPED" then Named(v) else current
    case None => current
  }
}
