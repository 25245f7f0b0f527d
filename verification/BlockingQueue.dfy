/**
 The blocking queue of tools/queue.h over the condition variable of tools/condition.h, whose
 notify_one() signals only if a flag set by wait() is still up.
 */
module BlockingQueue {
  import opened CStrings
  import opened Conditions

  // exit() pushes a null pointer.
  datatype Item<+E> = Null | Elem(e: E)

  // What the mutex protects.
  datatype Core<E> = Core(buf: seq<Item<E>>, available: bool, waiting: bool)

  // notify_one(): lowers the flag, and signals if it was up.
  function Notify<E>(q: Core<E>): (Core<E>, bool) {
    (q.(waiting := false), q.waiting)
  }

  function PushCore<E>(q: Core<E>, e: E): (Core<E>, bool) {
    if q.available then Notify(q.(buf := q.buf + [Elem(e)])) else (q, false)
  }

  function ExitCore<E>(q: Core<E>): (Core<E>, bool) {
    Notify(q.(available := false, buf := q.buf + [Null]))
  }

  // One look at the buffer under the lock: take the front, or raise the flag and go to sleep.
  function LookCore<E>(q: Core<E>): (Core<E>, Option<Item<E>>) {
    if q.buf == [] then (q.(waiting := true), None) else (q.(buf := q.buf[1..]), Some(q.buf[0]))
  }

  class Queue<E> {
    var buf: seq<Item<E>>
    var available: bool
    const notEmpty: Condition

    function State(): Core<E>
      reads this, notEmpty
    {
      Core(buf, available, notEmpty.waiting)
    }

    constructor ()
      ensures State() == Core([], true, false) && fresh(notEmpty)
    {
      buf, available := [], true;
      notEmpty := new Condition();
    }

    method Push(e: E) returns (signal: bool)
      modifies this, notEmpty
      ensures (State(), signal) == PushCore(old(State()), e)
    {
      signal := false;
      if available {
        buf := buf + [Elem(e)];
        signal := notEmpty.NotifyOne();
      }
    }

    // From taking the lock, or getting it back, to releasing it: None means asleep in wait().
    method Look() returns (m: Option<Item<E>>)
      modifies this, notEmpty
      ensures (State(), m) == LookCore(old(State()))
    {
      if buf == [] {
        notEmpty.Wait();
        return None;
      }
      m := Some(buf[0]);
      buf := buf[1..];
    }

    method Exit() returns (signal: bool)
      modifies this, notEmpty
      ensures (State(), signal) == ExitCore(old(State()))
    {
      available := false;
      buf := buf + [Null];
      signal := notEmpty.NotifyOne();
    }
  }

  // ---- the protocol ----

  // A consumer outside pop(), blocked in it, or on its way to get the lock back.
  datatype Consumer = Outside | Asleep | Woken

  // `pushed`, `deleted`, `exits` and `popped` record what has happened.
  datatype State<E> = State(
    q: Core<E>, consumers: seq<Consumer>,
    pushed: seq<E>, deleted: seq<E>, exits: nat, popped: seq<Item<E>>)

  // Each step is one stretch under the lock, or a wake-up without a signal.
  datatype Step<E> =
    | Push(e: E, wake: nat)
    | Exit(wake: nat)
    | Look(c: nat)
    | Spurious(c: nat)

  function Init<E>(n: nat): State<E> {
    State(Core([], true, false), seq(n, _ => Outside), [], [], 0, [])
  }

  predicate AsleepAt<E>(s: State<E>, c: nat) {
    c < |s.consumers| && s.consumers[c] == Asleep
  }

  // The system chooses which sleeper a signal wakes, but it must choose one if there is one.
  ghost predicate Enabled<E>(s: State<E>, step: Step<E>) {
    match step
    case Push(_, wake) => AsleepAt(s, wake) || forall c: nat :: !AsleepAt(s, c)
    case Exit(wake) => AsleepAt(s, wake) || forall c: nat :: !AsleepAt(s, c)
    case Look(c) => c < |s.consumers| && s.consumers[c] != Asleep
    case Spurious(c) => AsleepAt(s, c)
  }

  function Wake<E>(s: State<E>, signal: bool, c: nat): State<E> {
    if signal && AsleepAt(s, c) then s.(consumers := s.consumers[c := Woken]) else s
  }

  function Next<E>(s: State<E>, step: Step<E>): State<E> {
    match step
    case Push(e, wake) =>
      var (q, signal) := PushCore(s.q, e);
      var t := s.(q := q, pushed := s.pushed + [e], deleted := if s.q.available then s.deleted else s.deleted + [e]);
      Wake(t, signal, wake)
    case Exit(wake) =>
      var (q, signal) := ExitCore(s.q);
      Wake(s.(q := q, exits := s.exits + 1), signal, wake)
    case Look(c) =>
      if c >= |s.consumers| then s
      else
        var (q, m) := LookCore(s.q);
        var t := s.(q := q, consumers := s.consumers[c := if m.None? then Asleep else Outside]);
        if m.None? then t else t.(popped := s.popped + [m.value])
    case Spurious(c) => Wake(s, true, c)
  }

  function After<E>(s: State<E>, steps: seq<Step<E>>): State<E> {
    if steps == [] then s else Next(After(s, steps[..|steps| - 1]), steps[|steps| - 1])
  }

  ghost predicate IsRun<E>(s: State<E>, steps: seq<Step<E>>) {
    steps == [] ||
    (IsRun(s, steps[..|steps| - 1]) && Enabled(After(s, steps[..|steps| - 1]), steps[|steps| - 1]))
  }

  // ---- conservation and order, with any number of consumers ----

  function Elems<E>(es: seq<E>): seq<Item<E>> {
    seq(|es|, i requires 0 <= i < |es| => Elem(es[i]))
  }

  function Nulls<E>(n: nat): seq<Item<E>> {
    seq(n, _ => Null)
  }

  function Accepted<E>(s: State<E>): seq<E>
    requires |s.deleted| <= |s.pushed|
  {
    s.pushed[..|s.pushed| - |s.deleted|]
  }

  // What was popped, followed by what is buffered, is what was accepted and then the nulls; the
  // rest of what was pushed was deleted, all of it after exit().
  ghost predicate Conserved<E>(s: State<E>) {
    && |s.deleted| <= |s.pushed| && s.pushed == Accepted(s) + s.deleted
    && s.popped + s.q.buf == Elems(Accepted(s)) + Nulls(s.exits)
    && (s.q.available <==> s.exits == 0)
    && (s.deleted != [] ==> s.exits > 0)
  }

  lemma {:induction false} StepConserves<E>(s: State<E>, step: Step<E>)
    requires Conserved(s)
    ensures Conserved(Next(s, step))
  {
    var t := Next(s, step);
    match step
    case Push(e, _) =>
      if s.q.available {
        assert Accepted(t) == Accepted(s) + [e];
        assert Elems(Accepted(t)) == Elems(Accepted(s)) + [Elem(e)];
        assert t.popped + t.q.buf == s.popped + s.q.buf + [Elem(e)];
      } else {
        assert Accepted(t) == Accepted(s);
      }
    case Exit(_) =>
      assert Nulls<E>(t.exits) == Nulls(s.exits) + [Null];
      assert t.popped + t.q.buf == s.popped + s.q.buf + [Null];
    case Look(c) =>
      if c < |s.consumers| && s.q.buf != [] {
        assert t.popped + t.q.buf == s.popped + s.q.buf;
      }
    case Spurious(_) =>
  }

  /** Every pushed element is popped, buffered or deleted after exit(), and pops keep the order. */
  lemma {:induction false} Conservation<E>(n: nat, steps: seq<Step<E>>)
    requires IsRun(Init(n), steps)
    ensures Conserved(After(Init(n), steps))
    decreases |steps|
  {
    hide Next, Enabled;
    if steps == [] {
      assert [] + Init<E>(n).q.buf == Elems(Accepted(Init<E>(n))) + Nulls(0);
    } else {
      Conservation(n, steps[..|steps| - 1]);
      StepConserves(After(Init(n), steps[..|steps| - 1]), steps[|steps| - 1]);
    }
  }

  // ---- wake-ups ----

  // Something is buffered, a consumer sleeps, and no other one is on its way.
  ghost predicate Lost<E>(s: State<E>) {
    && s.q.buf != []
    && (exists c: nat :: AsleepAt(s, c))
    && forall c :: 0 <= c < |s.consumers| ==> s.consumers[c] != Woken
  }

  // A sleeping consumer that no signal has reached has its flag up and nothing to take.
  ghost predicate SoundSleep<E>(s: State<E>) {
    |s.consumers| <= 1 && forall c: nat :: AsleepAt(s, c) ==> s.q.waiting && s.q.buf == []
  }

  lemma {:induction false} StepSleepsSoundly<E>(s: State<E>, step: Step<E>)
    requires SoundSleep(s) && Enabled(s, step)
    ensures SoundSleep(Next(s, step))
  {
    var t := Next(s, step);
    forall c: nat | AsleepAt(t, c) ensures t.q.waiting && t.q.buf == [] {
      assert !step.Look? ==> AsleepAt(s, c);
    }
  }

  /** With at most one consumer, any number of producers and spurious wake-ups, no signal is missed. */
  lemma {:induction false} NoLostWakeup<E>(n: nat, steps: seq<Step<E>>)
    requires n <= 1 && IsRun(Init(n), steps)
    ensures SoundSleep(After(Init(n), steps)) && !Lost(After(Init(n), steps))
    decreases |steps|
  {
    hide Next, Enabled;
    if steps != [] {
      NoLostWakeup(n, steps[..|steps| - 1]);
      StepSleepsSoundly(After(Init(n), steps[..|steps| - 1]), steps[|steps| - 1]);
    }
  }

  lemma {:induction false} RunExtends<E>(s: State<E>, steps: seq<Step<E>>, step: Step<E>)
    requires IsRun(s, steps) && Enabled(After(s, steps), step)
    ensures IsRun(s, steps + [step]) && After(s, steps + [step]) == Next(After(s, steps), step)
  {
    hide Next, Enabled;
    assert (steps + [step])[..|steps|] == steps;
  }

  // Two sleepers share one flag: the first push lowers it, so the second push wakes nobody.
  lemma {:induction false} TwoConsumersLose<E>(n: nat, a: E, b: E) returns (steps: seq<Step<E>>)
    requires n >= 2
    ensures IsRun(Init(n), steps) && Lost(After(Init(n), steps))
  {
    hide After, IsRun;
    steps := [];
    NoSteps(Init<E>(n));
    RunExtends(Init(n), steps, Look(0));
    steps := steps + [Look(0)];
    RunExtends(Init(n), steps, Look(1));
    steps := steps + [Look(1)];
    assert AsleepAt(After(Init(n), steps), 0) && AsleepAt(After(Init(n), steps), 1);
    RunExtends(Init(n), steps, Push(a, 0));
    steps := steps + [Push(a, 0)];
    assert AsleepAt(After(Init(n), steps), 1);
    RunExtends(Init(n), steps, Push(b, 1));
    steps := steps + [Push(b, 1)];
    RunExtends(Init(n), steps, Look(0));
    steps := steps + [Look(0)];
    assert AsleepAt(After(Init(n), steps), 1);
  }

  lemma NoSteps<E>(s: State<E>)
    ensures After(s, []) == s && IsRun(s, [])
  {
  }

  /** Wake-ups are never lost exactly when there is at most one consumer. */
  lemma {:induction false} OneConsumerIsSharp<E(!new)>(n: nat, a: E, b: E)
    ensures (forall steps: seq<Step<E>> :: IsRun(Init(n), steps) ==> !Lost(After(Init(n), steps))) <==> n <= 1
  {
    if n <= 1 {
      forall steps: seq<Step<E>> | IsRun(Init(n), steps) ensures !Lost(After(Init(n), steps)) {
        NoLostWakeup(n, steps);
      }
    } else {
      var steps := TwoConsumersLose(n, a, b);
    }
  }
}
