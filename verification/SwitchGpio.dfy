/** The callback schedule of an array timer, and the LED of hardware/switchgpio.cpp that follows it. */
module SwitchGpio {
  import opened Timer

  // ---- which callbacks come ----

  lemma NextInCycle(k: nat, n: nat)
    requires n >= 1
    ensures (k + 1) % n == if k % n + 1 == n then 0 else k % n + 1
  {
    var q, r := k / n, k % n;
    if r + 1 == n {
      NextMultiple(q, n);
      UniqueRemainder(k + 1, n, q + 1, 0);
    } else {
      UniqueRemainder(k + 1, n, q, r + 1);
    }
  }

  lemma NextMultiple(q: nat, n: nat)
    ensures (q + 1) * n == q * n + n
  {
  }

  lemma SmallInCycle(k: nat, n: nat)
    requires k < n
    ensures k % n == k
  {
  }

  lemma UniqueRemainder(v: nat, n: nat, q: nat, r: nat)
    requires n >= 1 && v == q * n + r && r < n
    ensures v % n == r
  {
    var q', r' := v / n, v % n;
    assert v == q' * n + r';
    Ordered(q + 1, q', n);
    Ordered(q' + 1, q, n);
  }

  lemma Ordered(a: nat, b: nat, n: nat)
    ensures a <= b ==> a * n <= b * n
  {
  }

  // Callback k has index k mod n; without repetition there are at most n of them.
  ghost predicate OnSchedule(n: nat, repeat: bool, s: State)
    requires n >= 1
  {
    && (forall k :: 0 <= k < |s.fired| ==> s.fired[k] == k % n)
    && s.phase != Failed
    && (s.phase != Ended ==> s.index == |s.fired| % n)
    && (!repeat ==> !s.repeat && |s.fired| <= n && (s.phase != Ended ==> |s.fired| < n))
  }

  lemma {:induction false} StepOnSchedule(n: nat, repeat: bool, s: State, step: Step)
    requires n >= 1 && OnSchedule(n, repeat, s) && Enabled(s, step) && step != Fail
    ensures OnSchedule(n, repeat, Next(Array(n), s, step))
  {
    NextInCycle(|s.fired|, n);
    if |s.fired| < n {
      SmallInCycle(|s.fired|, n);
    }
  }

  // No wait fails, as none does for the deadlines that the timer asks for.
  predicate NoFailure(steps: seq<Step>) {
    Fail !in steps
  }

  /** In every run the callbacks step through the pattern cyclically, or once if it is not repeated. */
  lemma {:induction false} Schedule(n: nat, repeat: bool, flag: bool, steps: seq<Step>)
    requires n >= 1 && IsRun(Array(n), Started(repeat, flag), steps) && NoFailure(steps)
    ensures OnSchedule(n, repeat, After(Array(n), Started(repeat, flag), steps))
    decreases |steps|
  {
    hide OnSchedule, Next, Enabled;
    if steps == [] {
      StartOnSchedule(n, repeat, flag);
    } else {
      var init := steps[..|steps| - 1];
      Schedule(n, repeat, flag, init);
      StepOnSchedule(n, repeat, After(Array(n), Started(repeat, flag), init), steps[|steps| - 1]);
    }
  }

  lemma StartOnSchedule(n: nat, repeat: bool, flag: bool)
    requires n >= 1
    ensures OnSchedule(n, repeat, Started(repeat, flag))
  {
    SmallInCycle(0, n);
  }

  // The turns that are over: each wait that expired or failed is one.
  function TurnsOver(s: State, steps: seq<Step>): int {
    Count(steps, Expire) + Count(steps, Fail) - if s.phase == TimedOut || s.phase == Failed then 1 else 0
  }

  /** In every run, also where waits fail, each turn has the index of its place in the cycle. */
  lemma {:induction false} TurnIndex(n: nat, repeat: bool, flag: bool, steps: seq<Step>)
    requires n >= 1 && IsRun(Array(n), Started(repeat, flag), steps)
    ensures var s := After(Array(n), Started(repeat, flag), steps);
      TurnsOver(s, steps) >= 0 && (s.phase != Ended ==> s.index == TurnsOver(s, steps) % n)
  {
    if steps == [] {
      SmallInCycle(0, n);
    } else {
      var init := steps[..|steps| - 1];
      TurnIndex(n, repeat, flag, init);
      TurnStep(n, After(Array(n), Started(repeat, flag), init), init, steps[|steps| - 1]);
      assert init + [steps[|steps| - 1]] == steps;
    }
  }

  lemma {:induction false} TurnStep(n: nat, s: State, init: seq<Step>, step: Step)
    requires n >= 1 && Enabled(s, step) && TurnsOver(s, init) >= 0
    requires s.phase != Ended ==> s.index == TurnsOver(s, init) % n
    ensures var t, steps := Next(Array(n), s, step), init + [step];
      TurnsOver(t, steps) >= 0 && (t.phase != Ended ==> t.index == TurnsOver(t, steps) % n)
  {
    assert (init + [step])[..|init|] == init;
    NextInCycle(TurnsOver(s, init), n);
  }

  predicate Undisturbed(steps: seq<Step>) {
    Stop !in steps && Spurious !in steps && NoFailure(steps)
  }

  /** Left alone, a repeated pattern never ends, and the other kind ends after exactly n callbacks. */
  lemma {:induction false} UndisturbedRun(n: nat, repeat: bool, flag: bool, steps: seq<Step>)
    requires n >= 1 && IsRun(Array(n), Started(repeat, flag), steps) && Undisturbed(steps)
    ensures var s := After(Array(n), Started(repeat, flag), steps);
      s.repeat == repeat && s.phase != Signalled && (s.phase == Ended ==> !repeat && |s.fired| == n)
    decreases |steps|
  {
    hide Enabled;
    if steps != [] {
      var init := steps[..|steps| - 1];
      UndisturbedRun(n, repeat, flag, init);
      Schedule(n, repeat, flag, init);
      var s := After(Array(n), Started(repeat, flag), init);
      assert steps[|steps| - 1] in steps;
      assert Enabled(s, steps[|steps| - 1]);
      NotYetEnded(s, steps[|steps| - 1]);
      if |s.fired| < n {
        SmallInCycle(|s.fired|, n);
      }
    }
  }

  lemma NotYetEnded(s: State, step: Step)
    requires Enabled(s, step) && step != Stop
    ensures s.phase != Ended
  {
  }

  // ---- the LED ----

  class SwitchGpio {
    var level: bool
    var timer: Timer?

    constructor (level: bool)
      ensures this.level == level && timer == null
    {
      this.level, timer := level, null;
    }

    method On()
      modifies this`level
      ensures level
    {
      level := true;
    }

    method CbOnArrayTimer(i: nat)
      modifies this`level
      ensures level == LitBy(i)
    {
      if i % 2 == 1 {
        level := true;
      } else {
        level := false;
      }
    }

    // on(int*, bool)
    method OnArray(arr: array<int>, ghost n: nat, repeat: bool)
      requires 1 <= n < MAX_PATTERN && n < arr.Length && arr[n] == 0 && forall i :: 0 <= i < n ==> arr[i] != 0
      modifies this
      ensures level && timer != null && fresh(timer)
      ensures timer.Holds(Array(n)) && timer.View(Created) == Started(repeat, false) && timer.arrMsec[..n] == arr[..n]
    {
      var t := new Timer();
      t.StartArray(arr, n, repeat);
      timer := t;
      On();
    }

    method Off()
      modifies this`level, timer, if timer != null then {timer.timerCancel} else {}
      ensures !level && timer == old(timer)
      ensures timer != null ==> !timer.active && (old(timer.active) ==> !timer.repeat && !timer.timerCancel.waiting)
    {
      if timer != null && timer.active {
        var signal := timer.Stop();
      }
      level := false;
    }
  }

  predicate LitBy(i: nat) {
    i % 2 == 1
  }

  // The LED is switched on at the start, and then by each callback.
  predicate LitAfter(fired: seq<nat>) {
    fired == [] || LitBy(fired[|fired| - 1])
  }

  lemma {:induction false} EvenCycleParity(k: nat, n: nat)
    requires n >= 1 && n % 2 == 0
    ensures (k % n) % 2 == k % 2
  {
    if k == 0 {
      SmallInCycle(0, n);
    } else {
      EvenCycleParity(k - 1, n);
      NextInCycle(k - 1, n);
      Alternate(k - 1, (k - 1) % n, k % n, n);
    }
  }

  // One more callback changes the parity of the index, also where an even cycle starts again.
  lemma Alternate(k: nat, i: nat, i': nat, n: nat)
    requires n % 2 == 0 && i % 2 == k % 2 && i' == if i + 1 == n then 0 else i + 1
    ensures i' % 2 == (k + 1) % 2
  {
  }

  predicate Alternates(fired: seq<nat>) {
    LitAfter(fired) <==> |fired| % 2 == 0
  }

  /** In a run of an even or unrepeated pattern, the LED is lit exactly after an even number of callbacks. */
  lemma {:induction false} LedInRun(n: nat, repeat: bool, flag: bool, steps: seq<Step>)
    requires n >= 1 && (n % 2 == 0 || !repeat)
    requires IsRun(Array(n), Started(repeat, flag), steps) && NoFailure(steps)
    ensures Alternates(After(Array(n), Started(repeat, flag), steps).fired)
  {
    hide OnSchedule, After, IsRun;
    Schedule(n, repeat, flag, steps);
    var s := After(Array(n), Started(repeat, flag), steps);
    if s.fired != [] {
      LastParity(n, repeat, s);
    }
  }

  lemma {:induction false} LastParity(n: nat, repeat: bool, s: State)
    requires n >= 1 && (n % 2 == 0 || !repeat) && OnSchedule(n, repeat, s) && s.fired != []
    ensures s.fired[|s.fired| - 1] % 2 == (|s.fired| - 1) % 2
  {
    hide OnSchedule;
    LastOnSchedule(n, repeat, s);
    if n % 2 == 0 {
      EvenCycleParity(|s.fired| - 1, n);
    } else {
      SmallInCycle(|s.fired| - 1, n);
    }
  }

  lemma LastOnSchedule(n: nat, repeat: bool, s: State)
    requires n >= 1 && OnSchedule(n, repeat, s) && s.fired != []
    ensures s.fired[|s.fired| - 1] == (|s.fired| - 1) % n && (!repeat ==> |s.fired| <= n)
  {
  }

  lemma {:induction false} TicksDoNotFail(k: nat)
    ensures NoFailure(Ticks(k))
  {
    if k > 0 {
      TicksDoNotFail(k - 1);
    }
  }

  // Where an odd pattern starts again, the LED is dark twice in a row.
  lemma {:induction false} OddPatternStumbles(n: nat, flag: bool)
    requires n % 2 == 1
    ensures IsRun(Array(n), Started(true, flag), Ticks(n + 1)) && NoFailure(Ticks(n + 1))
    ensures !Alternates(After(Array(n), Started(true, flag), Ticks(n + 1)).fired)
  {
    hide After, IsRun, Ticks, OnSchedule;
    TicksRun(n, true, flag, n + 1);
    TicksDoNotFail(n + 1);
    Schedule(n, true, flag, Ticks(n + 1));
    LastOnSchedule(n, true, After(Array(n), Started(true, flag), Ticks(n + 1)));
    SmallInCycle(n - 1, n);
    NextInCycle(n - 1, n);
  }

  /** The LED alternates with every callback, in every run, exactly if the pattern is even or not repeated. */
  lemma {:induction false} BlinksEvenly(n: nat, repeat: bool, flag: bool)
    requires n >= 1
    ensures (forall steps :: IsRun(Array(n), Started(repeat, flag), steps) && NoFailure(steps)
                             ==> Alternates(After(Array(n), Started(repeat, flag), steps).fired))
      <==> n % 2 == 0 || !repeat
  {
    hide IsRun, After, Alternates, NoFailure;
    if n % 2 == 0 || !repeat {
      forall steps | IsRun(Array(n), Started(repeat, flag), steps) && NoFailure(steps)
        ensures Alternates(After(Array(n), Started(repeat, flag), steps).fired)
      {
        LedInRun(n, repeat, flag, steps);
      }
    } else {
      OddPatternStumbles(n, flag);
    }
  }

  // ---- switching off ----

  // off() stops a timer that is active, and then writes the level.
  function SwitchedOff(n: nat, s: State): State {
    if s.active then Next(Array(n), s, Stop) else s
  }

  // Whether a callback has lit the LED again after `before` of them had been made.
  predicate LitSince(before: seq<nat>, after: seq<nat>) {
    |after| > |before| && LitBy(after[|after| - 1])
  }

  // A timer that was stopped or has ended does not repeat.
  ghost predicate StopsRepeating(s: State) {
    !s.active && s.phase != Ended ==> !s.repeat
  }

  lemma {:induction false} AlwaysStopsRepeating(n: nat, repeat: bool, flag: bool, steps: seq<Step>)
    requires n >= 1 && IsRun(Array(n), Started(repeat, flag), steps)
    ensures StopsRepeating(After(Array(n), Started(repeat, flag), steps))
  {
    if steps != [] {
      AlwaysStopsRepeating(n, repeat, flag, steps[..|steps| - 1]);
    }
  }

  // A stopped thread that is not disturbed makes all the callbacks that are left, and the last has index n - 1.
  ghost predicate RunsOut(n: nat, s: State, t: State) {
    var more := |t.fired| - |s.fired|;
    && !t.repeat && t.phase != Failed && t.phase != Signalled && more >= 0
    && (t.phase != Ended ==> t.index < n && more == t.index - s.index)
    && (t.phase == Ended ==> more == n - s.index > 0 && t.fired[|t.fired| - 1] == n - 1)
  }

  lemma {:induction false} RunOut(n: nat, s: State, steps: seq<Step>)
    requires !s.repeat && s.index < n && s.phase in {Created, Waiting, TimedOut}
    requires IsRun(Array(n), s, steps) && Undisturbed(steps)
    ensures RunsOut(n, s, After(Array(n), s, steps))
  {
    if steps != [] {
      RunOut(n, s, steps[..|steps| - 1]);
      assert steps[|steps| - 1] in steps;
    }
  }

  lemma {:induction false} EndedStays(n: nat, s: State, steps: seq<Step>)
    requires s.phase in {Ended, Signalled} && IsRun(Array(n), s, steps)
    ensures var t := After(Array(n), s, steps); t.phase in {Ended, Signalled} && t.fired == s.fired
  {
    if steps != [] {
      EndedStays(n, s, steps[..|steps| - 1]);
    }
  }

  /**
   What off() leaves behind: `stopped` are the steps between its stop() and its write, `after` those
   from then on to the end of the thread. The LED ends lit exactly if at the write the thread still had
   callbacks to make and the pattern is even; a stop() that reaches the wait leaves none.
   */
  lemma {:induction false} DarkAfterOff(n: nat, repeat: bool, flag: bool,
                                        before: seq<Step>, stopped: seq<Step>, after: seq<Step>)
    requires n >= 1 && IsRun(Array(n), Started(repeat, flag), before) && NoFailure(before)
    requires var m := SwitchedOff(n, After(Array(n), Started(repeat, flag), before));
      && IsRun(Array(n), m, stopped) && Undisturbed(stopped)
      && IsRun(Array(n), After(Array(n), m, stopped), after) && Undisturbed(after)
      && After(Array(n), After(Array(n), m, stopped), after).phase == Ended
    ensures var s := After(Array(n), Started(repeat, flag), before);
      var w := After(Array(n), SwitchedOff(n, s), stopped);
      var lit := LitSince(w.fired, After(Array(n), w, after).fired);
      && (lit <==> w.phase !in {Ended, Signalled} && n % 2 == 0)
      && (s.phase in {Ended, Signalled} || (s.phase == Waiting && s.active) ==> !lit)
  {
    hide After, IsRun, OnSchedule;
    var s := After(Array(n), Started(repeat, flag), before);
    ScheduleBounds(n, repeat, flag, before);
    AlwaysStopsRepeating(n, repeat, flag, before);
    AlwaysSound(Array(n), repeat, flag, before);
    var m := SwitchedOff(n, s);
    var w := After(Array(n), m, stopped);
    if m.phase in {Ended, Signalled} {
      EndedStays(n, m, stopped);
    } else {
      RunOut(n, m, stopped);
    }
    if w.phase in {Ended, Signalled} {
      EndedStays(n, w, after);
    } else {
      RunOut(n, w, after);
    }
  }

  lemma ScheduleBounds(n: nat, repeat: bool, flag: bool, steps: seq<Step>)
    requires n >= 1 && IsRun(Array(n), Started(repeat, flag), steps) && NoFailure(steps)
    ensures After(Array(n), Started(repeat, flag), steps).phase != Failed
  {
    Schedule(n, repeat, flag, steps);
  }
}
