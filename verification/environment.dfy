/**
 * What the cover cannot see: when a concurrent stop command comes in,
 * whether a dispatch to the real cover fails, the monotonic clock, and how
 * long the host keeps the simulation running. Each is an input to the model.
 */
module Environment {

  /** The first entry of a tape; an exhausted tape reads as `false`. */
  function Head(tape: seq<bool>): bool {
    tape != [] && tape[0]
  }

  /** The tape after one read. */
  function Rest(tape: seq<bool>): seq<bool> {
    if tape == [] then [] else tape[1..]
  }

  /** The tape after `n` reads. */
  function Drop(tape: seq<bool>, n: nat): seq<bool> {
    if n == 0 then tape else Rest(Drop(tape, n - 1))
  }

  /** Some of the next `n` reads is `true`. */
  predicate TrueWithin(tape: seq<bool>, n: nat) {
    n > 0 && (TrueWithin(tape, n - 1) || Head(Drop(tape, n - 1)))
  }

  predicate AllFalse(tape: seq<bool>) {
    forall i | 0 <= i < |tape| :: !tape[i]
  }

  /** A tape with no `true` on it reads `false` and stays so. */
  lemma AllFalseRead(tape: seq<bool>)
    requires AllFalse(tape)
    ensures !Head(tape) && AllFalse(Rest(tape))
  {
  }

  /** Reading `n` entries off a tape with no `true` on it finds none. */
  lemma {:induction false} AllFalseDrop(tape: seq<bool>, n: nat)
    requires AllFalse(tape)
    ensures AllFalse(Drop(tape, n)) && !TrueWithin(tape, n)
  {
    if n > 0 {
      AllFalseDrop(tape, n - 1);
      AllFalseRead(Drop(tape, n - 1));
    }
  }

  class Host {
    /** At the k-th poll: has a stop command come in since the one before? */
    var stopArrivals: seq<bool>
    /** For the k-th raw command: does its dispatch raise? */
    var dispatchFailures: seq<bool>
    /** What `time.monotonic()` reads, in milliseconds. */
    var clockMillis: int
    /** How many more ticks the host lets the simulation run. */
    var ticksLeft: nat

    constructor (stops: seq<bool>, failures: seq<bool>, clock: int, ticks: nat)
      ensures stopArrivals == stops && dispatchFailures == failures
      ensures clockMillis == clock && ticksLeft == ticks
    {
      stopArrivals := stops;
      dispatchFailures := failures;
      clockMillis := clock;
      ticksLeft := ticks;
    }

    /** No stop comes in and no dispatch fails from now on. */
    predicate Quiet()
      reads this`stopArrivals, this`dispatchFailures
    {
      AllFalse(stopArrivals) && AllFalse(dispatchFailures)
    }

    method PollStop() returns (arrived: bool)
      modifies this`stopArrivals
      ensures arrived == Head(old(stopArrivals))
      ensures stopArrivals == Rest(old(stopArrivals))
    {
      arrived := Head(stopArrivals);
      stopArrivals := Rest(stopArrivals);
    }

    method Dispatch() returns (failed: bool)
      modifies this`dispatchFailures
      ensures failed == Head(old(dispatchFailures))
      ensures dispatchFailures == Rest(old(dispatchFailures))
    {
      failed := Head(dispatchFailures);
      dispatchFailures := Rest(dispatchFailures);
    }

    method NowMillis() returns (t: int)
      ensures t == clockMillis
    {
      t := clockMillis;
    }

    /** Asks for one more tick; refused once the budget is spent. */
    method GrantTick() returns (granted: bool)
      modifies this`ticksLeft
      ensures granted == (old(ticksLeft) > 0)
      ensures ticksLeft == if granted then old(ticksLeft) - 1 else 0
    {
      granted := ticksLeft > 0;
      if granted {
        ticksLeft := ticksLeft - 1;
      }
    }
  }
}
