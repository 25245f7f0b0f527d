/** The condition variable of tools/condition.h: a flag in front of the system's own. */
module Conditions {

  // Clock readings: seconds with microseconds, and seconds with nanoseconds.
  datatype Timeval = Timeval(sec: int, usec: int)
  datatype Timespec = Timespec(sec: int, nsec: int)

  // The wait accepts a deadline only in this form; otherwise it fails at once with EINVAL.
  predicate Normalised(t: Timespec) {
    0 <= t.nsec < 1000000000
  }

  function Nanoseconds(t: Timespec): int {
    t.sec * 1000000000 + t.nsec
  }

  class Condition {
    var waiting: bool

    constructor ()
      ensures !waiting
    {
      waiting := false;
    }

    method Wait()
      modifies this
      ensures waiting
    {
      waiting := true;
    }

    // timedwait() up to its system call: the deadline handed over is exactly `sec` and `msec` from now.
    method TimedWait(now: Timeval, sec: int, msec: int) returns (deadline: Timespec)
      modifies this
      ensures waiting
      ensures Nanoseconds(deadline) == (now.sec + sec) * 1000000000 + now.usec * 1000 + msec * 1000000
      ensures Normalised(deadline) <==> AcceptedAt(now.usec, msec)
    {
      waiting := true;
      var usec := now.usec + msec * 1000;
      if usec >= 1000000 {
        deadline := Timespec(now.sec + sec + 1, (usec - 1000000) * 1000);
      } else {
        deadline := Timespec(now.sec + sec, usec * 1000);
      }
    }

    method NotifyOne() returns (signal: bool)
      modifies this
      ensures !waiting && signal == old(waiting)
    {
      signal := false;
      if waiting {
        waiting := false;
        signal := true;
      }
    }
  }

  predicate AcceptedAt(usec: int, msec: int) {
    0 <= usec + msec * 1000 < 2000000
  }

  /** The deadline is accepted whatever the clock shows exactly for 0 up to 1000 milliseconds. */
  lemma {:induction false} AcceptedMilliseconds(msec: int)
    ensures (forall usec :: 0 <= usec < 1000000 ==> AcceptedAt(usec, msec)) <==> 0 <= msec <= 1000
  {
    assert AcceptedAt(0, msec) && AcceptedAt(999999, msec) <==> 0 <= msec <= 1000;
  }

  /** A delay in milliseconds, split as run_array() splits it, is accepted and waited for in full. */
  lemma {:induction false} SplitDelay(t: nat, usec: int)
    requires 0 <= usec < 1000000
    ensures AcceptedAt(usec, t % 1000)
    ensures (t / 1000) * 1000000000 + (t % 1000) * 1000000 == t * 1000000
  {
    AcceptedMilliseconds(t % 1000);
  }
}
