/** The timer thread of tools/timer.cpp against stop(). */
module Timer {
  import opened Conditions

  // run() calls back until it is told not to repeat; run_array() steps through a pattern of n delays.
  datatype Mode = Plain | Array(n: nat)

  // Where the thread is: not yet holding the lock, in the wait, back from it in one of three ways, or gone.
  datatype Phase = Created | Waiting | Signalled | TimedOut | Failed | Ended

  datatype State = State(active: bool, repeat: bool, waiting: bool, index: nat, phase: Phase, fired: seq<nat>)

  // The flag of the condition may be up from an earlier activation.
  function Started(repeat: bool, flag: bool): State {
    State(true, repeat, flag, 0, Created, [])
  }

  // The thread takes the lock; its wait expires, fails or wakes up; it gets the lock back; someone calls stop().
  datatype Step = Begin | Expire | Fail | Spurious | Resume | Stop

  predicate Enabled(s: State, step: Step) {
    match step
    case Begin => s.phase == Created
    case Expire => s.phase == Waiting
    case Fail => s.phase == Waiting
    case Spurious => s.phase == Waiting
    case Resume => s.phase == Signalled || s.phase == TimedOut || s.phase == Failed
    case Stop => true
  }

  function Wait(s: State): State {
    s.(waiting := true, phase := Waiting)
  }

  function End(s: State): State {
    s.(active := false, phase := Ended)
  }

  // The rest of a turn behind the callback.
  function Advance(mode: Mode, s: State): State {
    match mode
    case Plain => if s.repeat then Wait(s) else End(s)
    case Array(n) =>
      var index := if s.index + 1 == n && s.repeat then 0 else s.index + 1;
      var t := s.(index := index);
      if index != n || s.repeat then Wait(t) else End(t)
  }

  function Next(mode: Mode, s: State, step: Step): State {
    match step
    case Begin => Wait(s)
    case Expire => s.(phase := TimedOut)
    case Fail => s.(phase := Failed)
    case Spurious => s.(phase := Signalled)
    case Resume =>
      if s.phase == Signalled then End(s)
      else if s.phase == Failed then Advance(mode, s)
      else Advance(mode, s.(fired := s.fired + [s.index]))
    case Stop =>
      var t := s.(active := false, repeat := false, waiting := false);
      if s.waiting && s.phase == Waiting then t.(phase := Signalled) else t
  }

  function After(mode: Mode, s: State, steps: seq<Step>): State {
    if steps == [] then s else Next(mode, After(mode, s, steps[..|steps| - 1]), steps[|steps| - 1])
  }

  predicate IsRun(mode: Mode, s: State, steps: seq<Step>) {
    steps == [] ||
    (IsRun(mode, s, steps[..|steps| - 1]) && Enabled(After(mode, s, steps[..|steps| - 1]), steps[|steps| - 1]))
  }

  // ---- the code ----

  // How one wait ends: by a stop() that is heard, for no reason, by an error, or by time; in the last
  // case a stop() may slip in before the thread has the lock again.
  datatype Outcome = StopHeard | NoReason | Error | Elapsed(stopMeanwhile: bool)

  // What the wait returns: 0, ETIMEDOUT or anything else.
  datatype Status = Zero | Expired | Other

  function StatusOf(o: Outcome): Status {
    match o
    case StopHeard => Zero
    case NoReason => Zero
    case Error => Other
    case Elapsed(_) => Expired
  }

  function StepsOf(o: Outcome): seq<Step> {
    match o
    case StopHeard => [Stop, Resume]
    case NoReason => [Spurious, Resume]
    case Error => [Fail, Resume]
    case Elapsed(stopMeanwhile) => [Expire] + (if stopMeanwhile then [Stop] else []) + [Resume]
  }

  function AfterAll(mode: Mode, s: State, outcomes: seq<Outcome>): State {
    if outcomes == [] then s
    else After(mode, AfterAll(mode, s, outcomes[..|outcomes| - 1]), StepsOf(outcomes[|outcomes| - 1]))
  }

  const MAX_PATTERN: nat := 100

  class Timer {
    var active: bool
    var repeat: bool
    const arrMsec: array<int>
    var arrIndex: nat
    const timerCancel: Condition
    // The arguments of the callbacks made since the last start.
    var fired: seq<nat>

    ghost predicate Valid()
      reads this, arrMsec
    {
      arrMsec.Length == MAX_PATTERN
    }

    // The stored pattern has n delays and a terminator.
    ghost predicate Holds(mode: Mode)
      reads this, arrMsec
    {
      && Valid()
      && (mode.Array? ==>
        && 1 <= mode.n < MAX_PATTERN && arrMsec[mode.n] == 0
        && forall i :: 0 <= i < mode.n ==> arrMsec[i] != 0)
    }

    function View(phase: Phase): State
      reads this, timerCancel
    {
      State(active, repeat, timerCancel.waiting, arrIndex, phase, fired)
    }

    constructor ()
      ensures Valid() && !active && fired == [] && fresh(arrMsec) && fresh(timerCancel) && !timerCancel.waiting
    {
      active, repeat, arrIndex, fired := false, false, 0, [];
      arrMsec := new int[MAX_PATTERN];
      timerCancel := new Condition();
    }

    // start(int*, bool): copies the delays up to the terminator.
    method StartArray(arr: array<int>, ghost n: nat, repeat: bool)
      requires Valid() && arr != arrMsec
      requires 1 <= n < MAX_PATTERN && n < arr.Length && arr[n] == 0 && forall i :: 0 <= i < n ==> arr[i] != 0
      modifies this, arrMsec
      ensures Holds(Array(n)) && arrMsec[..n] == arr[..n]
      ensures View(Created) == Started(repeat, timerCancel.waiting)
    {
      active, fired := true, [];
      var p := 0;
      while arr[p] != 0
        invariant p <= n && arrMsec[..p] == arr[..p]
        invariant arr[..] == old(arr[..])
        decreases n - p
        modifies arrMsec
      {
        arrMsec[p] := arr[p];
        p := p + 1;
      }
      arrMsec[p] := 0;
      arrIndex := 0;
      this.repeat := repeat;
      assert forall i :: 0 <= i < n ==> arrMsec[..n][i] == arr[..n][i];
    }

    method Stop() returns (signal: bool)
      modifies this`active, this`repeat, timerCancel
      ensures signal == old(timerCancel.waiting)
      ensures View(Ended) == old(View(Ended)).(active := false, repeat := false, waiting := false)
    {
      active := false;
      repeat := false;
      signal := timerCancel.NotifyOne();
    }

    // The body of the loops of run() and run_array() behind the wait: false ends the loop.
    method Turn(mode: Mode, ret: Status) returns (again: bool)
      requires Holds(mode) && (mode.Array? ==> arrIndex < mode.n)
      modifies this`arrIndex, this`fired
      ensures ret == Zero ==> !again && View(Ended) == old(View(Ended))
      ensures ret != Zero ==>
        var s := old(View(TimedOut));
        var t := Advance(mode, if ret == Expired then s.(fired := s.fired + [s.index]) else s);
        again == (t.phase == Waiting) && arrIndex == t.index && fired == t.fired
    {
      if ret == Zero {
        return false;
      }
      if ret == Expired {
        fired := fired + [arrIndex];
      }
      match mode
      case Plain =>
        again := repeat;
      case Array(_) =>
        arrIndex := arrIndex + 1;
        if arrMsec[arrIndex] == 0 && repeat {
          arrIndex := 0;
        }
        again := arrMsec[arrIndex] != 0 || repeat;
    }

    // One activation of the thread, as far as the outcomes of its waits take it.
    method Run(mode: Mode, outcomes: seq<Outcome>) returns (phase: Phase, i: nat)
      requires Holds(mode) && (mode.Array? ==> arrIndex < mode.n)
      modifies this, timerCancel
      ensures i <= |outcomes| && (phase == Ended || (phase == Waiting && i == |outcomes|))
      ensures View(phase) == AfterAll(mode, Wait(old(View(Created))), outcomes[..i])
    {
      i := 0;
      var again := true;
      timerCancel.Wait();
      while again && i < |outcomes|
        invariant i <= |outcomes| && Holds(mode)
        invariant again ==> timerCancel.waiting && (mode.Array? ==> arrIndex < mode.n)
        invariant View(if again then Waiting else Ended) == AfterAll(mode, Wait(old(View(Created))), outcomes[..i])
      {
        ghost var before := View(Waiting);
        again := RunOne(mode, outcomes[i]);
        assert outcomes[..i + 1][..i] == outcomes[..i];
        i := i + 1;
      }
      phase := if again then Waiting else Ended;
    }

    method RunOne(mode: Mode, o: Outcome) returns (again: bool)
      requires Holds(mode) && timerCancel.waiting && (mode.Array? ==> arrIndex < mode.n)
      modifies this, timerCancel
      ensures Holds(mode) && (again ==> timerCancel.waiting && (mode.Array? ==> arrIndex < mode.n))
      ensures View(if again then Waiting else Ended) == After(mode, old(View(Waiting)), StepsOf(o))
    {
      hide After;
      ghost var before := View(Waiting);
      OutcomeSteps(mode, before, o);
      if o.StopHeard? || (o.Elapsed? && o.stopMeanwhile) {
        var signal := Stop();
      }
      again := Turn(mode, StatusOf(o));
      if again {
        timerCancel.Wait();
      } else {
        active := false;
      }
    }
  }

  lemma {:induction false} AfterSteps(mode: Mode, s: State, a: Step, b: Step, c: Step)
    ensures After(mode, s, [a, b]) == Next(mode, Next(mode, s, a), b)
    ensures After(mode, s, [a, b, c]) == Next(mode, Next(mode, Next(mode, s, a), b), c)
  {
    hide Next;
    assert [a, b][..1] == [a] && [a][..0] == [];
    assert After(mode, s, []) == s && After(mode, s, [a]) == Next(mode, s, a);
    assert [a, b, c][..2] == [a, b];
  }

  lemma {:induction false} OutcomeSteps(mode: Mode, s: State, o: Outcome)
    requires s.phase == Waiting && s.waiting
    ensures After(mode, s, StepsOf(o)) ==
      if o.NoReason? then End(s)
      else if o.Error? then Advance(mode, s.(phase := Failed))
      else
        var t := if o == Elapsed(false) then s else s.(active := false, repeat := false, waiting := false);
        if o.StopHeard? then End(t) else Advance(mode, t.(phase := TimedOut, fired := s.fired + [s.index]))
  {
    hide Advance;
    AfterSteps(mode, s, Stop, Resume, Resume);
    AfterSteps(mode, s, Spurious, Resume, Resume);
    AfterSteps(mode, s, Expire, Resume, Resume);
    AfterSteps(mode, s, Fail, Resume, Resume);
    AfterSteps(mode, s, Expire, Stop, Resume);
    assert StepsOf(Elapsed(true)) == [Expire, Stop, Resume] && StepsOf(Elapsed(false)) == [Expire, Resume];
  }

  // ---- what runs do ----

  function Count(steps: seq<Step>, step: Step): nat {
    if steps == [] then 0
    else Count(steps[..|steps| - 1], step) + if steps[|steps| - 1] == step then 1 else 0
  }

  /** In every run there is one callback for each wait that expired, and none for any other. */
  lemma {:induction false} CallbacksAreTimeouts(mode: Mode, repeat: bool, flag: bool, steps: seq<Step>)
    requires IsRun(mode, Started(repeat, flag), steps)
    ensures var s := After(mode, Started(repeat, flag), steps);
      |s.fired| + (if s.phase == TimedOut then 1 else 0) == Count(steps, Expire)
  {
    if steps != [] {
      CallbacksAreTimeouts(mode, repeat, flag, steps[..|steps| - 1]);
    }
  }

  /** A timer that nobody stops is active until its thread has ended, and not afterwards. */
  lemma {:induction false} ActiveUntilTheEnd(mode: Mode, repeat: bool, flag: bool, steps: seq<Step>)
    requires IsRun(mode, Started(repeat, flag), steps) && Stop !in steps
    ensures var s := After(mode, Started(repeat, flag), steps);
      (s.active <==> s.phase != Ended) && s.repeat == repeat
  {
    if steps != [] {
      assert steps[|steps| - 1] in steps;
      ActiveUntilTheEnd(mode, repeat, flag, steps[..|steps| - 1]);
    }
  }

  /**
   A plain timer without a stop() or a spurious wake-up: if it repeats it never ends, otherwise it ends with
   the first wait that is over.
   */
  lemma {:induction false} PlainRun(repeat: bool, flag: bool, steps: seq<Step>)
    requires IsRun(Plain, Started(repeat, flag), steps) && Stop !in steps && Spurious !in steps
    ensures var s := After(Plain, Started(repeat, flag), steps);
      && s.repeat == repeat && s.phase != Signalled
      && (s.phase == Ended <==> !repeat && Count(steps, Resume) == 1)
      && (!repeat ==> Count(steps, Resume) <= 1)
  {
    if steps != [] {
      assert steps[|steps| - 1] in steps;
      PlainRun(repeat, flag, steps[..|steps| - 1]);
    }
  }

  // ---- how many callbacks can follow a stop() ----

  function Left(mode: Mode, s: State): int {
    if s.phase == Signalled || s.phase == Ended then 0
    else match mode case Plain => 1 case Array(n) => n - s.index
  }

  // The flag is up whenever the thread waits, and an array timer never leaves its pattern.
  predicate Sound(mode: Mode, s: State) {
    && (s.phase == Waiting ==> s.waiting)
    && (mode.Array? && s.phase != Ended ==> s.index < mode.n)
  }

  lemma {:induction false} AlwaysSound(mode: Mode, repeat: bool, flag: bool, steps: seq<Step>)
    requires mode.Array? ==> mode.n >= 1
    requires IsRun(mode, Started(repeat, flag), steps)
    ensures Sound(mode, After(mode, Started(repeat, flag), steps))
  {
    if steps != [] {
      AlwaysSound(mode, repeat, flag, steps[..|steps| - 1]);
    }
  }

  // Without repetition every step uses up what is left, or leaves it.
  lemma {:induction false} LeftShrinks(mode: Mode, s: State, steps: seq<Step>)
    requires Sound(mode, s) && !s.repeat && IsRun(mode, s, steps)
    ensures var t := After(mode, s, steps);
      Sound(mode, t) && !t.repeat && Left(mode, t) >= 0 && |t.fired| + Left(mode, t) <= |s.fired| + Left(mode, s)
  {
    if steps != [] {
      LeftShrinks(mode, s, steps[..|steps| - 1]);
    }
  }

  /**
   After stop() at most one more plain callback is made, and at most n - i array callbacks from
   index i on; and none at all if the thread was in its wait when stop() came.
   */
  lemma {:induction false} StopBound(mode: Mode, repeat: bool, flag: bool, before: seq<Step>, after: seq<Step>)
    requires mode.Array? ==> mode.n >= 1
    requires IsRun(mode, Started(repeat, flag), before)
    requires IsRun(mode, Next(mode, After(mode, Started(repeat, flag), before), Stop), after)
    ensures var s := After(mode, Started(repeat, flag), before);
      var t := After(mode, Next(mode, s, Stop), after);
      var extra := |t.fired| - |s.fired|;
      && !t.active
      && extra <= (match mode case Plain => 1 case Array(n) => if s.phase == Ended then 0 else n - s.index)
      && (s.phase == Waiting || s.phase == Signalled || s.phase == Ended ==> extra <= 0)
  {
    AlwaysSound(mode, repeat, flag, before);
    var s := Next(mode, After(mode, Started(repeat, flag), before), Stop);
    LeftShrinks(mode, s, after);
    StaysInactive(mode, s, after);
  }

  lemma {:induction false} StaysInactive(mode: Mode, s: State, steps: seq<Step>)
    requires !s.active
    ensures !After(mode, s, steps).active
  {
    if steps != [] {
      StaysInactive(mode, s, steps[..|steps| - 1]);
    }
  }

  // How often the thread can still get the lock back before it is gone.
  function WaitsLeft(mode: Mode, s: State): int {
    if s.phase == Ended then 0
    else if s.phase == Signalled then 1
    else match mode case Plain => 1 case Array(n) => n - s.index
  }

  /**
   A stopped thread ends: a plain one when its current wait is over, an array timer at the end of its
   pattern at the latest, and either at once if the signal reached it.
   */
  lemma {:induction false} StoppedThreadEnds(mode: Mode, s: State, steps: seq<Step>)
    requires Sound(mode, s) && !s.repeat && IsRun(mode, s, steps)
    ensures var t := After(mode, s, steps);
      && Count(steps, Resume) <= WaitsLeft(mode, s)
      && (Count(steps, Resume) == WaitsLeft(mode, s) ==> t.phase == Ended)
  {
    WaitsShrink(mode, s, steps);
  }

  lemma {:induction false} WaitsShrink(mode: Mode, s: State, steps: seq<Step>)
    requires Sound(mode, s) && !s.repeat && IsRun(mode, s, steps)
    ensures var t := After(mode, s, steps);
      && Sound(mode, t) && !t.repeat
      && Count(steps, Resume) + WaitsLeft(mode, t) <= WaitsLeft(mode, s)
      && WaitsLeft(mode, t) >= 0 && (t.phase == Ended <==> WaitsLeft(mode, t) == 0)
  {
    if steps != [] {
      WaitsShrink(mode, s, steps[..|steps| - 1]);
    }
  }

  // ---- how many do follow ----

  lemma RunExtends(mode: Mode, s: State, steps: seq<Step>, step: Step)
    requires IsRun(mode, s, steps) && Enabled(After(mode, s, steps), step)
    ensures IsRun(mode, s, steps + [step]) && After(mode, s, steps + [step]) == Next(mode, After(mode, s, steps), step)
  {
    hide Next, Enabled;
    assert (steps + [step])[..|steps|] == steps;
  }

  lemma NoSteps(mode: Mode, s: State)
    ensures IsRun(mode, s, []) && After(mode, s, []) == s
  {
  }

  // One turn: the wait expires and the callback is made.
  lemma {:induction false} Tick(mode: Mode, s: State, steps: seq<Step>)
    requires IsRun(mode, s, steps) && After(mode, s, steps).phase == Waiting
    ensures IsRun(mode, s, steps + [Expire, Resume])
    ensures var t := After(mode, s, steps);
      After(mode, s, steps + [Expire, Resume])
      == Advance(mode, t.(phase := TimedOut, fired := t.fired + [t.index]))
  {
    hide After, IsRun, Advance;
    RunExtends(mode, s, steps, Expire);
    RunExtends(mode, s, steps + [Expire], Resume);
    assert steps + [Expire, Resume] == steps + [Expire] + [Resume];
  }

  // An activation with k callbacks.
  function Ticks(k: nat): seq<Step> {
    if k == 0 then [Begin] else Ticks(k - 1) + [Expire, Resume]
  }

  lemma {:induction false} TicksRun(n: nat, repeat: bool, flag: bool, k: nat)
    requires n >= 1 && (repeat || k < n)
    ensures IsRun(Array(n), Started(repeat, flag), Ticks(k))
    ensures var t := After(Array(n), Started(repeat, flag), Ticks(k));
      t.phase == Waiting && t.repeat == repeat && |t.fired| == k && t.index < n && (k < n ==> t.index == k)
  {
    hide After, IsRun;
    var s := Started(repeat, flag);
    if k == 0 {
      NoSteps(Array(n), s);
      RunExtends(Array(n), s, [], Begin);
      assert [] + [Begin] == [Begin];
    } else {
      TicksRun(n, repeat, flag, k - 1);
      Tick(Array(n), s, Ticks(k - 1));
    }
  }

  /** A repeated plain timer makes any number of callbacks. */
  lemma {:induction false} PlainRepeats(flag: bool, k: nat)
    ensures IsRun(Plain, Started(true, flag), Ticks(k)) && Stop !in Ticks(k) && Spurious !in Ticks(k)
    ensures var t := After(Plain, Started(true, flag), Ticks(k)); t.phase == Waiting && t.repeat && |t.fired| == k
  {
    hide After, IsRun;
    var s := Started(true, flag);
    if k == 0 {
      NoSteps(Plain, s);
      RunExtends(Plain, s, [], Begin);
      assert [] + [Begin] == [Begin];
    } else {
      PlainRepeats(flag, k - 1);
      Tick(Plain, s, Ticks(k - 1));
    }
  }

  // The callbacks that follow a stop() which comes behind the timeout.
  function Later(k: nat): seq<Step> {
    if k == 0 then [Resume] else Later(k - 1) + [Expire, Resume]
  }

  lemma {:induction false} LaterRun(n: nat, s: State, k: nat)
    requires s.phase == TimedOut && !s.repeat && s.index + k < n
    ensures IsRun(Array(n), s, Later(k))
    ensures var t := After(Array(n), s, Later(k));
      && !t.repeat && |t.fired| == |s.fired| + k + 1 && t.index == s.index + k + 1
      && t.phase == if t.index == n then Ended else Waiting
  {
    hide After, IsRun;
    if k == 0 {
      NoSteps(Array(n), s);
      RunExtends(Array(n), s, [], Resume);
      assert [] + [Resume] == [Resume];
    } else {
      LaterRun(n, s, k - 1);
      Tick(Array(n), s, Later(k - 1));
    }
  }

  /**
   The bound is reached: a stop() that comes just behind a timeout can be followed by one plain
   callback, and at every index i of a pattern by n - i array callbacks.
   */
  lemma {:induction false} StopCanBeLate(mode: Mode, repeat: bool, flag: bool, i: nat)
    returns (before: seq<Step>, after: seq<Step>)
    requires match mode case Plain => true case Array(n) => i < n
    ensures IsRun(mode, Started(repeat, flag), before)
    ensures var s := After(mode, Started(repeat, flag), before);
      && (mode.Array? ==> s.index == i)
      && IsRun(mode, Next(mode, s, Stop), after)
      && |After(mode, Next(mode, s, Stop), after).fired| - |s.fired|
         == match mode case Plain => 1 case Array(n) => n - i
  {
    hide After, IsRun;
    var start := Started(repeat, flag);
    match mode
    case Plain =>
      before, after := [Begin] + [Expire], [] + [Resume];
      NoSteps(Plain, start);
      RunExtends(Plain, start, [], Begin);
      assert [] + [Begin] == [Begin];
      RunExtends(Plain, start, [Begin], Expire);
      var s := Next(Plain, After(Plain, start, before), Stop);
      NoSteps(Plain, s);
      RunExtends(Plain, s, [], Resume);
    case Array(n) =>
      before, after := Ticks(i) + [Expire], Later(n - i - 1);
      TicksRun(n, repeat, flag, i);
      RunExtends(Array(n), start, Ticks(i), Expire);
      LaterRun(n, Next(Array(n), After(Array(n), start, before), Stop), n - i - 1);
  }
}
