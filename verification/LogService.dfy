/** The log thread of tools/logservice.cpp: the single consumer of a blocking queue. */
module LogService {
  import opened CStrings
  import opened BlockingQueue

  // `text` is the formatted line.
  datatype Entry = Entry(pri: int, text: string)

  // init() creates no service when neither output is asked for.
  datatype Config = Config(bFile: bool, fileLevel: int, bConsole: bool, consoleLevel: int)

  const FAREWELL := "logService Exit\n"

  class LogWriter {
    const cfg: Config
    var file: seq<string>
    var console: seq<string>

    constructor (cfg: Config)
      ensures this.cfg == cfg && file == [] && console == []
    {
      this.cfg, file, console := cfg, [], [];
    }

    // One turn of run() after pop(): true when the thread ends.
    method Handle(m: Item<Entry>) returns (stop: bool)
      requires cfg.bFile || cfg.bConsole
      modifies this
      ensures stop == m.Null?
      ensures file == old(file) + Lines(cfg.bFile, cfg.fileLevel, [m])
      ensures console == old(console) + Lines(cfg.bConsole, cfg.consoleLevel, [m])
    {
      match m
      case Elem(e) =>
        if cfg.bFile && e.pri >= cfg.fileLevel {
          file := file + [e.text];
        }
        if cfg.bConsole && e.pri >= cfg.consoleLevel {
          console := console + [e.text];
        }
        stop := false;
      case Null =>
        if cfg.bFile {
          file := file + [FAREWELL];
        }
        if cfg.bConsole {
          console := console + [FAREWELL];
        }
        stop := true;
    }
  }

  // What an output receives for the items handled.
  function Lines(on: bool, level: int, items: seq<Item<Entry>>): seq<string> {
    if items == [] then []
    else
      var m := items[|items| - 1];
      Lines(on, level, items[..|items| - 1])
      + if on && (m.Elem? ==> m.e.pri >= level) then [if m.Null? then FAREWELL else m.e.text] else []
  }

  // ---- the service as a whole ----

  // The thread is in pop(), about to write what it took, or gone.
  datatype Thread = Popping | Writing(m: Item<Entry>) | Stopped

  datatype Service = Service(s: State<Entry>, thread: Thread, handled: seq<Item<Entry>>)

  // Senders and the destructor use the queue at any time; the thread takes turns of its own.
  datatype Event = Send(e: Entry) | Shutdown | Stray | Turn

  // The thread's own step: it can move unless it sleeps or is gone.
  ghost predicate CanTurn(v: Service) {
    v.thread.Writing? || (v.thread.Popping? && !AsleepAt(v.s, 0))
  }

  ghost predicate Possible(v: Service, event: Event) {
    && |v.s.consumers| == 1
    && match event
       case Send(_) => true
       case Shutdown => true
       case Stray => AsleepAt(v.s, 0)
       case Turn => CanTurn(v)
  }

  function React(v: Service, event: Event): Service {
    match event
    case Send(e) => v.(s := Next(v.s, Push(e, 0)))
    case Shutdown => v.(s := Next(v.s, Exit(0)))
    case Stray => v.(s := Next(v.s, Spurious(0)))
    case Turn =>
      match v.thread
      case Popping =>
        var s := Next(v.s, Look(0));
        if |s.popped| > |v.s.popped| then v.(s := s, thread := Writing(s.popped[|v.s.popped|])) else v.(s := s)
      case Writing(m) => v.(thread := if m.Null? then Stopped else Popping, handled := v.handled + [m])
      case Stopped => v
  }

  const STARTED := Service(Init<Entry>(1), Popping, [])

  function Reach(v: Service, events: seq<Event>): Service {
    if events == [] then v else React(Reach(v, events[..|events| - 1]), events[|events| - 1])
  }

  ghost predicate Happens(v: Service, events: seq<Event>) {
    events == [] ||
    (Happens(v, events[..|events| - 1]) && Possible(Reach(v, events[..|events| - 1]), events[|events| - 1]))
  }

  function InHand(thread: Thread): seq<Item<Entry>> {
    if thread.Writing? then [thread.m] else []
  }

  ghost predicate Sound(v: Service) {
    && Conserved(v.s) && SoundSleep(v.s) && |v.s.consumers| == 1
    && v.s.popped == v.handled + InHand(v.thread)
    && (v.thread.Writing? || v.thread.Stopped? ==> v.s.consumers[0] == Outside)
    && (Null in v.handled <==> v.thread.Stopped?)
    && (v.thread.Stopped? ==>
          v.handled != [] && v.handled[|v.handled| - 1] == Null && Null !in v.handled[..|v.handled| - 1])
  }

  lemma {:induction false} TurnSound(v: Service)
    requires Sound(v) && Possible(v, Turn)
    ensures Sound(React(v, Turn))
  {
    hide Next, Conserved;
    var w := React(v, Turn);
    match v.thread
    case Popping =>
      StepConserves(v.s, Look(0));
      StepSleepsSoundly(v.s, Look(0));
      LookTakes(v.s);
      if v.s.q.buf == [] {
        assert w.s.popped == v.s.popped;
      } else {
        assert v.handled + [] == v.handled;
      }
    case Writing(m) =>
      assert w.handled[..|v.handled|] == v.handled;
      assert w.handled + [] == w.handled;
    case Stopped =>
  }

  lemma LookTakes<E>(s: State<E>)
    requires |s.consumers| == 1
    ensures var t := Next(s, Look(0));
      && t.consumers == [if s.q.buf == [] then Asleep else Outside]
      && t.popped == (if s.q.buf == [] then s.popped else s.popped + [s.q.buf[0]])
      && t.q.buf == (if s.q.buf == [] then [] else s.q.buf[1..])
      && t.exits == s.exits
  {
  }

  lemma {:induction false} OtherSound(v: Service, event: Event)
    requires Sound(v) && Possible(v, event) && !event.Turn?
    ensures Sound(React(v, event))
  {
    hide Conserved;
    var step := if event.Send? then Push(event.e, 0) else if event.Shutdown? then Exit(0) else Spurious(0);
    assert Enabled(v.s, step) by {
      assert AsleepAt(v.s, 0) || forall c: nat :: !AsleepAt(v.s, c);
    }
    StepConserves(v.s, step);
    StepSleepsSoundly(v.s, step);
  }

  lemma {:induction false} EventSound(v: Service, event: Event)
    requires Sound(v) && Possible(v, event)
    ensures Sound(React(v, event))
  {
    if event.Turn? {
      TurnSound(v);
    } else {
      OtherSound(v, event);
    }
  }

  lemma {:induction false} AlwaysSound(v: Service, events: seq<Event>)
    requires Sound(v) && Happens(v, events)
    ensures Sound(Reach(v, events))
    decreases |events|
  {
    hide React, Possible, Sound;
    if events != [] {
      AlwaysSound(v, events[..|events| - 1]);
      EventSound(Reach(v, events[..|events| - 1]), events[|events| - 1]);
    }
  }

  lemma StartsSound()
    ensures Sound(STARTED)
  {
    assert STARTED.s.popped + STARTED.s.q.buf == Elems(Accepted(STARTED.s)) + Nulls(0);
  }

  // ---- what is written ----

  // The entries for one output, in order.
  function Passing(on: bool, level: int, entries: seq<Entry>): seq<string> {
    if entries == [] then []
    else
      var e := entries[|entries| - 1];
      Passing(on, level, entries[..|entries| - 1]) + if on && e.pri >= level then [e.text] else []
  }

  lemma {:induction false} LinesOfElems(on: bool, level: int, entries: seq<Entry>)
    ensures Lines(on, level, Elems(entries)) == Passing(on, level, entries)
  {
    if entries != [] {
      var init := entries[..|entries| - 1];
      LinesOfElems(on, level, init);
      assert Elems(entries)[..|entries| - 1] == Elems(init);
    }
  }

  /**
   When the thread is gone, it has written every entry sent before the shutdown that passes an
   output's level, in order and nothing else, and then its farewell.
   */
  lemma {:induction false} DrainedOnExit(events: seq<Event>, on: bool, level: int)
    requires Happens(STARTED, events) && Reach(STARTED, events).thread.Stopped?
    ensures var v := Reach(STARTED, events);
      && |v.s.deleted| <= |v.s.pushed|
      && v.handled == Elems(Accepted(v.s)) + [Null]
      && Lines(on, level, v.handled) == Passing(on, level, Accepted(v.s)) + if on then ["logService Exit\n"] else []
  {
    hide Reach, Conserved, Lines, Accepted;
    StartsSound();
    AlwaysSound(STARTED, events);
    var v := Reach(STARTED, events);
    assert v.handled + [] == v.handled;
    ConservedItems(v.s);
    UpToFirstNull(Accepted(v.s), v.s.exits, v.handled, v.s.q.buf);
    LinesOfElems(on, level, Accepted(v.s));
    LinesWithFarewell(on, level, Elems(Accepted(v.s)));
  }

  lemma ConservedItems(s: State<Entry>)
    requires Conserved(s)
    ensures |s.deleted| <= |s.pushed| && s.popped + s.q.buf == Elems(Accepted(s)) + Nulls(s.exits)
  {
  }

  lemma {:induction false} UpToFirstNull(entries: seq<Entry>, exits: nat,
                                         handled: seq<Item<Entry>>, buf: seq<Item<Entry>>)
    requires handled + buf == Elems(entries) + Nulls(exits)
    requires handled != [] && handled[|handled| - 1] == Null && Null !in handled[..|handled| - 1]
    ensures handled == Elems(entries) + [Null]
  {
    var all, k := handled + buf, |handled| - 1;
    assert all[k] == Null;
    assert forall i :: 0 <= i < k ==> all[i] == handled[..k][i];
    assert forall i :: 0 <= i < |entries| ==> all[i] == Elem(entries[i]);
    assert exits > 0 ==> all[|entries|] == Null;
  }

  lemma LinesWithFarewell(on: bool, level: int, items: seq<Item<Entry>>)
    ensures Lines(on, level, items + [Null]) == Lines(on, level, items) + if on then [FAREWELL] else []
  {
    assert (items + [Null])[..|items|] == items;
  }

  // ---- termination ----

  function FirstNull(buf: seq<Item<Entry>>): nat {
    if buf == [] || buf[0].Null? then 0 else 1 + FirstNull(buf[1..])
  }

  // The turns that a thread needs after a shutdown: two for each item up to the first null.
  function TurnsLeft(v: Service): nat {
    match v.thread
    case Popping => 2 * (FirstNull(v.s.q.buf) + 1)
    case Writing(m) => if m.Null? then 1 else 2 * (FirstNull(v.s.q.buf) + 1) + 1
    case Stopped => 0
  }

  lemma {:induction false} FirstNullStays(buf: seq<Item<Entry>>, m: Item<Entry>)
    requires Null in buf
    ensures FirstNull(buf + [m]) == FirstNull(buf)
  {
    assert (buf + [m])[0] == buf[0];
    if buf[0] != Null {
      assert buf == [buf[0]] + buf[1..];
      assert (buf + [m])[1..] == buf[1..] + [m];
      FirstNullStays(buf[1..], m);
    }
  }

  // After a shutdown, a thread that has not taken the null yet finds it in the buffer.
  lemma {:induction false} NullAhead(v: Service)
    requires Sound(v) && v.s.exits > 0 && !v.thread.Stopped? && v.thread != Writing(Null)
    ensures Null in v.s.q.buf && v.s.q.buf != []
  {
    ConservedItems(v.s);
    var all := Elems(Accepted(v.s)) + Nulls<Entry>(v.s.exits);
    assert all[|all| - 1] == Null;
    assert Null !in v.s.popped;
  }

  // After a shutdown, a thread that is not gone can move.
  lemma {:induction false} KeepsMoving(v: Service)
    requires Sound(v) && v.s.exits > 0 && !v.thread.Stopped?
    ensures Possible(v, Turn)
  {
    hide Conserved;
    if v.thread.Popping? {
      NullAhead(v);
      assert !AsleepAt(v.s, 0);
    }
  }

  lemma {:induction false} TurnCounts(v: Service)
    requires Sound(v) && v.s.exits > 0 && Possible(v, Turn)
    ensures TurnsLeft(React(v, Turn)) == TurnsLeft(v) - 1 && React(v, Turn).s.exits == v.s.exits
  {
    hide Next, Conserved;
    LookTakes(v.s);
    if v.thread != Writing(Null) {
      NullAhead(v);
      assert FirstNull(v.s.q.buf) == if v.s.q.buf[0].Null? then 0 else 1 + FirstNull(v.s.q.buf[1..]);
    }
  }

  // What others do makes the way to the first null no longer.
  lemma {:induction false} OthersDoNotDelay(v: Service, event: Event)
    requires Sound(v) && v.s.exits > 0 && Possible(v, event) && !event.Turn?
    ensures TurnsLeft(React(v, event)) == TurnsLeft(v) && React(v, event).s.exits > 0
  {
    hide Conserved, FirstNull;
    assert !v.s.q.available by {
      ShutDown(v.s);
    }
    if !v.thread.Stopped? && v.thread != Writing(Null) {
      NullAhead(v);
      FirstNullStays(v.s.q.buf, Null);
    }
  }

  lemma ShutDown(s: State<Entry>)
    requires Conserved(s)
    ensures s.q.available <==> s.exits == 0
  {
  }

  function TurnsIn(events: seq<Event>): nat {
    if events == [] then 0
    else TurnsIn(events[..|events| - 1]) + if events[|events| - 1].Turn? then 1 else 0
  }

  /**
   The destructor's join returns, in every run: once exit() was called, the thread can move until it is
   gone, and it is gone exactly when it has taken the turns that were left, whatever senders do meanwhile.
   */
  lemma {:induction false} ThreadEnds(v: Service, events: seq<Event>)
    requires Sound(v) && v.s.exits > 0 && Happens(v, events)
    ensures var w := Reach(v, events);
      && TurnsIn(events) <= TurnsLeft(v)
      && (w.thread.Stopped? <==> TurnsIn(events) == TurnsLeft(v))
      && (!w.thread.Stopped? ==> Possible(w, Turn))
  {
    hide Sound, React, Possible, FirstNull;
    TurnsAddUp(v, events);
    AlwaysSound(v, events);
    var w := Reach(v, events);
    if !w.thread.Stopped? {
      KeepsMoving(w);
    }
  }

  lemma {:induction false} TurnsAddUp(v: Service, events: seq<Event>)
    requires Sound(v) && v.s.exits > 0 && Happens(v, events)
    ensures var w := Reach(v, events);
      w.s.exits > 0 && TurnsIn(events) + TurnsLeft(w) == TurnsLeft(v)
    decreases |events|
  {
    hide Sound, React, Possible, TurnsLeft;
    if events != [] {
      var init, event := events[..|events| - 1], events[|events| - 1];
      TurnsAddUp(v, init);
      AlwaysSound(v, init);
      if event.Turn? {
        TurnCounts(Reach(v, init));
      } else {
        OthersDoNotDelay(Reach(v, init), event);
      }
    }
  }
}
