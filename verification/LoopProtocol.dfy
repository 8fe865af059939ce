/** The task queue and the wakeup protocol of one event loop, with any number of other threads
    posting tasks and asking the loop to quit. The push (under the mutex) and the write to the
    eventfd are separate steps, and everything else may happen between them. */
module LoopProtocol {
  import opened Text

  type Task = nat
  type Thread = nat

  /** The largest value an eventfd counter holds; a write that would pass it fails. */
  const EVENTFD_MAX: nat := 0xffff_ffff_ffff_fffe

  /** Where the loop's own thread is. */
  datatype Pc =
    | Before                                        // loop() has not been called
    | Test                                          // at the loop condition
    | Polling                                       // in epoll_wait
    | Dispatching(readWakeup: bool)                 // handling active channels; the eventfd is still to be read
    | BeforeSwap                                    // in doPendingFunctors, before the swap
    | Running(current: seq<Task>, rest: seq<Task>, mark: nat)  // in the batch; at most one functor is on the stack
    | Stopped

  datatype State = State(
    pc: Pc,
    pending: seq<Task>,      // pendingFunctors_
    calling: bool,           // callingPendingFunctors_
    quit: bool,              // quit_
    counter: nat,            // the eventfd
    waking: set<Thread>,     // other threads between their push or quit_ store and their wakeup()
    ownWake: bool,           // the loop's thread between its push and its wakeup()
    // history
    queued: seq<Task>,       // every task pushed so far
    executed: seq<Task>,     // every functor started so far
    polls: nat,              // returns from epoll_wait
    wakes: nat,              // calls that owe or have made a wakeup()
    silent: nat)             // pushes that owe none, made before loop()

  const INITIAL := State(Before, [], false, false, 0, {}, false, [], [], 0, 0, 0)

  datatype Step =
    // another thread
    | Push(t: Thread, task: Task) | Quit(t: Thread) | Wake(t: Thread)
    // the loop's thread, in user code: a channel callback, a functor, or before loop()
    | OwnPush(task: Task) | OwnWake | OwnQuit
    // the loop's thread, in loop() itself
    | Enter | TestQuit | PollReturn(readWakeup: bool) | ReadWakeup | EndDispatch | Swap
    | Start | Finish | EndBatch

  predicate IsForeign(e: Step) { e.Push? || e.Quit? || e.Wake? }

  /** User code of the loop's thread is on the stack. */
  predicate InUserCode(s: State) {
    s.pc == Before || s.pc.Dispatching? || (s.pc.Running? && s.pc.current != [])
  }

  predicate Enabled(s: State, e: Step) {
    match e
    case Push(t, _) => t !in s.waking
    case Quit(t) => t !in s.waking
    case Wake(t) => t in s.waking
    case OwnPush(_) => InUserCode(s) && !s.ownWake
    case OwnWake => s.ownWake
    case OwnQuit => InUserCode(s) && !s.ownWake
    case Enter => s.pc == Before && !s.ownWake
    case TestQuit => s.pc == Test
    case PollReturn(readWakeup) => s.pc == Polling && (readWakeup ==> s.counter > 0)
    case ReadWakeup => s.pc == Dispatching(true) && !s.ownWake
    case EndDispatch => s.pc == Dispatching(false) && !s.ownWake
    case Swap => s.pc == BeforeSwap
    case Start => s.pc.Running? && s.pc.current == [] && s.pc.rest != []
    case Finish => s.pc.Running? && s.pc.current != [] && !s.ownWake
    case EndBatch => s.pc.Running? && s.pc.current == [] && s.pc.rest == []
  }

  function Written(s: State): State {
    if s.counter < EVENTFD_MAX then s.(counter := s.counter + 1) else s
  }

  function Apply(s: State, e: Step): State
    requires Enabled(s, e)
  {
    match e
    case Push(t, task) =>
      s.(pending := s.pending + [task], queued := s.queued + [task], waking := s.waking + {t}, wakes := s.wakes + 1)
    case Quit(t) => s.(quit := true, waking := s.waking + {t}, wakes := s.wakes + 1)
    case Wake(t) => Written(s).(waking := s.waking - {t})
    case OwnPush(task) =>
      var pushed := s.(pending := s.pending + [task], queued := s.queued + [task]);
      if s.calling then pushed.(ownWake := true, wakes := s.wakes + 1)
      else if s.pc == Before then pushed.(silent := s.silent + 1)
      else pushed
    case OwnWake => Written(s).(ownWake := false)
    case OwnQuit => s.(quit := true)
    case Enter => s.(pc := Test, quit := false)
    case TestQuit => if s.quit then s.(pc := Stopped) else s.(pc := Polling)
    case PollReturn(readWakeup) => s.(pc := Dispatching(readWakeup), polls := s.polls + 1)
    case ReadWakeup => s.(pc := Dispatching(false), counter := 0)
    case EndDispatch => s.(pc := BeforeSwap, calling := true)
    case Swap => s.(pc := Running([], s.pending, |s.queued|), pending := [])
    case Start =>
      s.(pc := Running([s.pc.rest[0]], s.pc.rest[1..], s.pc.mark), executed := s.executed + [s.pc.rest[0]])
    case Finish => s.(pc := Running([], s.pc.rest, s.pc.mark))
    case EndBatch => s.(pc := Test, calling := false)
  }

  /** `steps` leads from s to t. */
  predicate Runs(s: State, steps: seq<Step>, t: State)
    decreases |steps|
  {
    if steps == [] then s == t else Enabled(s, steps[0]) && Runs(Apply(s, steps[0]), steps[1..], t)
  }

  // ----- safety -----

  /** Something is going to make epoll_wait return. */
  predicate Awake(s: State) {
    s.counter > 0 || s.waking != {} || s.ownWake
  }

  /** The one way a task can wait without a wakeup: it was queued by the loop's own thread before
      loop() was called, and no other thread has posted anything or called quit() before the first
      poll returned. */
  predicate Unannounced(s: State) {
    s.polls == 0 && s.silent > 0 && s.wakes == 0
  }

  function BatchRest(s: State): seq<Task> { if s.pc.Running? then s.pc.rest else [] }

  /** First in, first out, exactly once; `mark` separates what a batch took from what came later. */
  ghost predicate QueueInv(s: State) {
    && s.executed + BatchRest(s) + s.pending == s.queued
    && (s.pc.Running? ==>
          && s.pc.mark <= |s.queued|
          && s.executed + s.pc.rest == s.queued[..s.pc.mark]
          && (s.pc.current != [] ==> s.executed != [] && s.pc.current == [s.executed[|s.executed| - 1]]))
  }

  ghost predicate WakeInv(s: State) {
    && (s.calling <==> s.pc == BeforeSwap || s.pc.Running?)
    && (s.ownWake ==> s.pc.Running? && s.pc.current != [])
    && (s.polls == 0 ==>
          && (s.pc == Before || s.pc == Test || s.pc == Polling || s.pc == Stopped)
          && (Awake(s) <==> s.wakes > 0)
          && (s.silent > 0 ==> s.pending != []))
    && (s.polls > 0 ==> s.pc != Before)
    // from the swap until epoll_wait returns again
    && (s.pc == Before || s.pc == Test || s.pc == Polling || s.pc.Running? ==>
          s.pending != [] && !Awake(s) ==> Unannounced(s))
    && (s.pc == Polling && s.quit ==> Awake(s))
  }

  ghost predicate Inv(s: State) { QueueInv(s) && WakeInv(s) }

  lemma ApplyKeepsQueueInv(s: State, e: Step)
    requires QueueInv(s) && Enabled(s, e)
    ensures QueueInv(Apply(s, e))
  {
    match e
    case Push(_, task) => QueueMore(s, task);
    case OwnPush(task) => QueueMore(s, task);
    case Start => StartOne(s);
    case EndBatch => assert s.executed + [] == s.executed;
    case _ =>
  }

  lemma QueueMore(s: State, task: Task)
    requires QueueInv(s)
    ensures QueueInv(s.(pending := s.pending + [task], queued := s.queued + [task]))
  {
    Assoc(s.executed + BatchRest(s), s.pending, [task]);
    if s.pc.Running? { assert (s.queued + [task])[..s.pc.mark] == s.queued[..s.pc.mark]; }
  }

  lemma StartOne(s: State)
    requires QueueInv(s) && Enabled(s, Start)
    ensures QueueInv(Apply(s, Start))
  {
    assert [s.pc.rest[0]] + s.pc.rest[1..] == s.pc.rest;
    Assoc(s.executed, [s.pc.rest[0]], s.pc.rest[1..]);
  }

  lemma ApplyKeepsWakeInv(s: State, e: Step)
    requires WakeInv(s) && Enabled(s, e)
    ensures WakeInv(Apply(s, e))
  {
    match e
    case Push(t, _) => assert t in s.waking + {t};
    case Quit(t) => assert t in s.waking + {t};
    case _ =>
  }

  lemma {:induction false} RunsKeepInv(s: State, steps: seq<Step>, t: State)
    requires Inv(s) && Runs(s, steps, t)
    ensures Inv(t)
    decreases |steps|
  {
    if steps == [] {
    } else {
      ApplyKeepsQueueInv(s, steps[0]);
      ApplyKeepsWakeInv(s, steps[0]);
      RunsKeepInv(Apply(s, steps[0]), steps[1..], t);
    }
  }

  /** What the counters of the history count, up to the first poll. */
  ghost predicate Polled(steps: seq<Step>) { exists i :: 0 <= i < |steps| && steps[i].PollReturn? }
  ghost predicate Called(steps: seq<Step>) { exists i :: 0 <= i < |steps| && (steps[i].Push? || steps[i].Quit?) }
  ghost predicate Queued(steps: seq<Step>) { exists i :: 0 <= i < |steps| && steps[i].OwnPush? }

  lemma HistoryCons(e: Step, rest: seq<Step>)
    ensures Polled([e] + rest) <==> e.PollReturn? || Polled(rest)
    ensures Called([e] + rest) <==> e.Push? || e.Quit? || Called(rest)
    ensures Queued([e] + rest) <==> e.OwnPush? || Queued(rest)
  {
    var steps := [e] + rest;
    assert steps[0] == e;
    forall i | 0 <= i < |rest| ensures rest[i] == steps[i + 1] {}
    forall i | 0 < i < |steps| ensures steps[i] == rest[i - 1] {}
  }

  lemma {:induction false} HistoryCounts(s: State, steps: seq<Step>, t: State)
    requires Inv(s) && Runs(s, steps, t)
    ensures t.polls > 0 <==> s.polls > 0 || Polled(steps)
    ensures t.polls == 0 ==> (t.wakes > 0 <==> s.wakes > 0 || Called(steps))
    ensures t.polls == 0 ==> (t.silent > 0 <==> s.silent > 0 || Queued(steps))
    decreases |steps|
  {
    hide Polled, Called, Queued, QueueInv;
    if steps == [] {
      NoHistory();
    } else {
      ApplyKeepsQueueInv(s, steps[0]);
      ApplyKeepsWakeInv(s, steps[0]);
      HistoryCounts(Apply(s, steps[0]), steps[1..], t);
      HistoryCons(steps[0], steps[1..]);
      assert [steps[0]] + steps[1..] == steps;
    }
  }

  lemma NoHistory()
    ensures !Polled([]) && !Called([]) && !Queued([])
  {}

  /** The loop's own thread has queued something, and nothing else has happened that makes a poll return. */
  ghost predicate OnlyQueuedItself(steps: seq<Step>) {
    (exists i :: 0 <= i < |steps| && steps[i].OwnPush?)
    && forall i :: 0 <= i < |steps| ==> !steps[i].PollReturn? && !steps[i].Push? && !steps[i].Quit?
  }

  /** No lost wakeup. Whenever the loop is in epoll_wait with tasks waiting, a wakeup has been written
      or is about to be, except when all that has been queued was queued by its own thread before the first
      poll, and no other thread has called anything; and whenever it is there with quit_ set, without
      exception. */
  lemma NoLostWakeup(steps: seq<Step>, s: State)
    requires Runs(INITIAL, steps, s)
    requires s.pc == Polling
    ensures s.pending != [] && s.counter == 0 && s.waking == {} <==> OnlyQueuedItself(steps)
    ensures s.quit ==> s.counter > 0 || s.waking != {}
  {
    RunsKeepInv(INITIAL, steps, s);
    HistoryCounts(INITIAL, steps, s);
    assert Unannounced(s) <==> OnlyQueuedItself(steps);
  }

  /** The exception is real: a task queued before loop() waits for an unrelated event or a timeout. */
  lemma UnannouncedIsReachable() returns (s: State)
    ensures Runs(INITIAL, [OwnPush(7), Enter, TestQuit], s)
    ensures s.pc == Polling && s.pending == [7] && !Awake(s)
  {
    var s1 := Apply(INITIAL, OwnPush(7));
    var s2 := Apply(s1, Enter);
    s := Apply(s2, TestQuit);
    assert Runs(s, [], s);
    assert Runs(s2, [TestQuit], s);
    assert Runs(s1, [Enter, TestQuit], s) by { assert [Enter, TestQuit][1..] == [TestQuit]; }
    assert [OwnPush(7), Enter, TestQuit][1..] == [Enter, TestQuit];
  }

  /** Exactly once, in order: what has been started, what is left of the batch, and what is pending make
      up everything that was queued; the batch ends at its mark. */
  lemma FifoExactlyOnce(steps: seq<Step>, s: State)
    requires Runs(INITIAL, steps, s)
    ensures s.executed + BatchRest(s) + s.pending == s.queued
    ensures s.pc.Running? ==>
              && s.pc.mark <= |s.queued|
              && s.executed + s.pc.rest == s.queued[..s.pc.mark]
              && s.pending == s.queued[s.pc.mark..]
  {
    RunsKeepInv(INITIAL, steps, s);
  }

  /** While a batch runs it stays what it was at the swap, whatever the functors and the other threads
      queue: everything queued meanwhile is pending, and none of it is started. */
  lemma {:induction false} BatchIsFixed(s: State, steps: seq<Step>, t: State)
    requires s.pc.Running? && Runs(s, steps, t) && EndBatch !in steps
    ensures t.pc.Running? && t.pc.mark == s.pc.mark
    ensures t.executed + t.pc.rest == s.executed + s.pc.rest
    ensures s.queued <= t.queued && t.pending == s.pending + t.queued[|s.queued|..]
    decreases |steps|
  {
    if steps == [] {
      assert s.pending + s.queued[|s.queued|..] == s.pending;
    } else {
      var m := Apply(s, steps[0]);
      StepInBatch(s, steps[0]);
      BatchIsFixed(m, steps[1..], t);
      PendingThen(s, m, t);
    }
  }

  lemma StepInBatch(s: State, e: Step)
    requires s.pc.Running? && Enabled(s, e) && e != EndBatch
    ensures var m := Apply(s, e);
            && m.pc.Running? && m.pc.mark == s.pc.mark && m.executed + m.pc.rest == s.executed + s.pc.rest
            && s.queued <= m.queued && m.pending == s.pending + m.queued[|s.queued|..]
  {
    assert s.pending + s.queued[|s.queued|..] == s.pending;
    if e == Start {
      assert [s.pc.rest[0]] + s.pc.rest[1..] == s.pc.rest;
      Assoc(s.executed, [s.pc.rest[0]], s.pc.rest[1..]);
    }
  }

  lemma PendingThen(s: State, m: State, t: State)
    requires s.queued <= m.queued <= t.queued
    requires m.pending == s.pending + m.queued[|s.queued|..] && t.pending == m.pending + t.queued[|m.queued|..]
    ensures s.queued <= t.queued && t.pending == s.pending + t.queued[|s.queued|..]
  {
    assert t.queued[|s.queued|..] == m.queued[|s.queued|..] + t.queued[|m.queued|..];
  }

  /** From the swap to the end of the batch, exactly what was pending at the swap is run. */
  lemma BatchIsWhatWasPending(s: State, steps: seq<Step>, t: State)
    requires Enabled(s, Swap) && Runs(Apply(s, Swap), steps, t) && EndBatch !in steps && Enabled(t, EndBatch)
    ensures t.executed == s.executed + s.pending
    ensures s.queued <= t.queued && t.pending == t.queued[|s.queued|..]
  {
    BatchIsFixed(Apply(s, Swap), steps, t);
    assert t.executed + [] == t.executed;
    EmptyLeft(t.queued[|s.queued|..]);
  }

  // ----- the eventfd and the quit flag -----

  function WakesStep(n: nat, e: Step): nat {
    match e
    case ReadWakeup => 0
    case Wake(_) => n + 1
    case OwnWake => n + 1
    case _ => n
  }

  /** How many wakeups have been written since the eventfd was last read, n of them before these steps. */
  function WakesAfter(n: nat, steps: seq<Step>): nat
    decreases |steps|
  {
    if steps == [] then n else WakesAfter(WakesStep(n, steps[0]), steps[1..])
  }

  function QuitStep(asked: bool, e: Step): bool {
    match e
    case Enter => false
    case Quit(_) => true
    case OwnQuit => true
    case _ => asked
  }

  /** Whether quit() has been called since loop() began. */
  function QuitAfter(asked: bool, steps: seq<Step>): bool
    decreases |steps|
  {
    if steps == [] then asked else QuitAfter(QuitStep(asked, steps[0]), steps[1..])
  }

  /** An eventfd holds n, or as much of it as it can. */
  predicate Holds(counter: nat, n: nat) {
    counter == if n <= 0xffff_ffff_ffff_fffe then n else 0xffff_ffff_ffff_fffe
  }

  lemma StepCounts(s: State, e: Step, n: nat)
    requires Enabled(s, e) && Holds(s.counter, n)
    ensures Holds(Apply(s, e).counter, WakesStep(n, e))
    ensures Apply(s, e).quit == QuitStep(s.quit, e)
  {}

  /** A wakeup is owed from the push or the quit() that needs it until it is written, by another thread for each
      of its calls, by the loop's own only for a push made while functors run. */
  lemma WakeupsOwed(s: State, e: Step)
    requires WakeInv(s) && Enabled(s, e)
    ensures Apply(s, e).waking ==
            if e.Push? || e.Quit? then s.waking + {e.t} else if e.Wake? then s.waking - {e.t} else s.waking
    ensures Apply(s, e).ownWake <==>
            (e.OwnPush? && s.pc.Running? && s.pc.current != []) || (s.ownWake && e != OwnWake)
  {}

  lemma {:induction false} CountersOverRun(s: State, steps: seq<Step>, t: State, n: nat)
    requires Runs(s, steps, t) && Holds(s.counter, n)
    ensures Holds(t.counter, WakesAfter(n, steps))
    ensures t.quit == QuitAfter(s.quit, steps)
    decreases |steps|
  {
    hide Apply, Enabled, Holds, WakesStep, QuitStep;
    if steps == [] {
    } else {
      StepCounts(s, steps[0], n);
      CountersOverRun(Apply(s, steps[0]), steps[1..], t, WakesStep(n, steps[0]));
    }
  }

  /** In every run: the eventfd holds the number of wakeups written since it was last read, and quit_ is set
      if and only if quit() has been called since loop() began. */
  lemma CounterAndQuit(steps: seq<Step>, s: State)
    requires Runs(INITIAL, steps, s)
    ensures Holds(s.counter, WakesAfter(0, steps))
    ensures s.quit <==> QuitAfter(false, steps)
  {
    CountersOverRun(INITIAL, steps, s, 0);
  }

  lemma {:induction false} WakesAfterSplit(n: nat, a: seq<Step>, b: seq<Step>)
    ensures WakesAfter(n, a + b) == WakesAfter(WakesAfter(n, a), b)
    decreases |a|
  {
    if a == [] {
      assert a + b == b;
    } else {
      assert (a + b)[1..] == a[1..] + b;
      WakesAfterSplit(WakesStep(n, a[0]), a[1..], b);
    }
  }

  /** After a read of the eventfd at step k, only what is written later counts. */
  lemma DrainedAt(steps: seq<Step>, k: nat, s: State)
    requires Runs(INITIAL, steps, s) && k < |steps| && steps[k] == ReadWakeup
    ensures Holds(s.counter, WakesAfter(0, steps[k + 1..]))
  {
    CounterAndQuit(steps, s);
    assert steps == steps[..k] + ([ReadWakeup] + steps[k + 1..]);
    WakesAfterSplit(0, steps[..k], [ReadWakeup] + steps[k + 1..]);
    assert ([ReadWakeup] + steps[k + 1..])[1..] == steps[k + 1..];
  }

  // ----- progress -----

  lemma {:induction false} RunsThen(s: State, a: seq<Step>, t: State, b: seq<Step>, u: State)
    requires Runs(s, a, t) && Runs(t, b, u)
    ensures Runs(s, a + b, u)
    decreases |a|
  {
    if a == [] {
      assert a + b == b;
    } else {
      assert (a + b)[1..] == a[1..] + b;
      RunsThen(Apply(s, a[0]), a[1..], t, b, u);
    }
  }

  lemma RunsCons(s: State, e: Step, steps: seq<Step>, t: State)
    requires Enabled(s, e) && Runs(Apply(s, e), steps, t)
    ensures Runs(s, [e] + steps, t)
  {
    assert ([e] + steps)[1..] == steps;
  }

  lemma RunsSnoc(s: State, steps: seq<Step>, t: State, e: Step)
    requires Runs(s, steps, t) && Enabled(t, e)
    ensures Runs(s, steps + [e], Apply(t, e))
  {
    assert Runs(Apply(t, e), [], Apply(t, e));
    RunsThen(s, steps, t, [e], Apply(t, e));
  }

  /** Only steps that have to happen: a wakeup that is owed, and the loop's own. */
  predicate Committed(steps: seq<Step>) {
    forall i :: 0 <= i < |steps| ==>
      var e := steps[i];
      e.Wake? || e.PollReturn? || e.ReadWakeup? || e.EndDispatch? || e.Swap? || e.Start? || e.Finish? || e.EndBatch?
  }

  /** The batch runs to its end. */
  lemma {:induction false} BatchDrains(s: State) returns (steps: seq<Step>, t: State)
    requires s.pc.Running? && s.pc.current == [] && !s.ownWake
    ensures Runs(s, steps, t) && Committed(steps)
    ensures t.pc == Test && t.executed == s.executed + s.pc.rest
    decreases |s.pc.rest|
  {
    if s.pc.rest == [] {
      t := Apply(s, EndBatch);
      RunsCons(s, EndBatch, [], t);
      assert s.executed + [] == s.executed;
      return [EndBatch], t;
    }
    var s1 := Apply(s, Start);
    var more;
    more, t := BatchDrains(Apply(s1, Finish));
    RunsCons(s1, Finish, more, t);
    RunsCons(s, Start, [Finish] + more, t);
    steps := [Start] + ([Finish] + more);
    assert [s.pc.rest[0]] + s.pc.rest[1..] == s.pc.rest;
    Assoc(s.executed, [s.pc.rest[0]], s.pc.rest[1..]);
  }

  /** From a poll that is due to return, through the swap, to the end of the batch. */
  lemma PollServes(s: State) returns (steps: seq<Step>, t: State)
    requires s.pc == Polling && s.counter > 0 && !s.ownWake
    ensures Runs(s, steps, t) && Committed(steps)
    ensures t.pc == Test && t.executed == s.executed + s.pending
  {
    var s1 := Apply(s, PollReturn(true));
    var s2 := Apply(s1, ReadWakeup);
    var s3 := Apply(s2, EndDispatch);
    steps, t := BatchDrains(Apply(s3, Swap));
    RunsCons(s3, Swap, steps, t);
    steps := [Swap] + steps;
    RunsCons(s2, EndDispatch, steps, t);
    steps := [EndDispatch] + steps;
    RunsCons(s1, ReadWakeup, steps, t);
    steps := [ReadWakeup] + steps;
    RunsCons(s, PollReturn(true), steps, t);
    steps := [PollReturn(true)] + steps;
  }

  /** Whenever the loop waits with tasks queued, and not in the exceptional situation, the wakeups
      that are owed and the loop's own steps suffice to start every queued task, without any further
      event. */
  lemma QueuedTasksGetServed(before: seq<Step>, s: State) returns (steps: seq<Step>, t: State)
    requires Runs(INITIAL, before, s)
    requires s.pc == Polling && s.pending != [] && !OnlyQueuedItself(before)
    ensures Runs(s, steps, t) && Committed(steps)
    ensures t.pc == Test && t.executed == s.queued
  {
    RunsKeepInv(INITIAL, before, s);
    NoLostWakeup(before, s);
    assert s.executed + [] == s.executed;
    if s.counter > 0 {
      steps, t := PollServes(s);
    } else {
      var w :| w in s.waking;
      steps, t := PollServes(Apply(s, Wake(w)));
      RunsCons(s, Wake(w), steps, t);
      steps := [Wake(w)] + steps;
    }
  }
}
