/** The event loop object. Whatever its methods do is a run of LoopProtocol, and at every point between
    two of their own steps the other threads do whatever `schedule` says. */
module EventLoop {
  import opened LoopProtocol

  /** What a functor does on its own loop when it runs. */
  datatype Effect = Effect(queues: seq<Task>, quits: bool)

  /** What one poll brings: whether the eventfd is among the active channels, and what the callbacks
      before and after it do. */
  datatype Poll = Poll(readWakeup: bool, first: Effect, second: Effect)

  /** The loop's own thread is where it was, and nothing queued is lost. */
  ghost predicate SamePlace(s: State, t: State) {
    && (s.counter > 0 ==> t.counter > 0)
    && t.pc == s.pc && t.ownWake == s.ownWake && t.calling == s.calling
    && s.pending <= t.pending && s.queued <= t.queued && t.executed == s.executed
  }

  lemma NothingMoved(s: State)
    ensures SamePlace(s, s)
  {}

  lemma ForeignStepMovesNothing(s: State, e: Step)
    requires Enabled(s, e) && IsForeign(e)
    ensures SamePlace(s, Apply(s, e))
  {}

  class EventLoop {
    var pendingFunctors: seq<Task>
    var callingPendingFunctors: bool
    var quit: bool
    var wakeupCounter: nat            // the eventfd
    var waking: set<Thread>           // other threads that have yet to write to it
    var schedule: seq<seq<Step>>      // the other threads' steps, at one point after the other
    ghost var model: State
    ghost var taken: seq<Step>        // every step so far

    ghost predicate Valid()
      reads this
    {
      && model.pending == pendingFunctors
      && model.calling == callingPendingFunctors
      && model.quit == quit
      && model.counter == wakeupCounter
      && model.waking == waking
      && Runs(INITIAL, taken, model)
    }

    constructor (schedule: seq<seq<Step>>)
      ensures Valid() && model == INITIAL && taken == [] && this.schedule == schedule
    {
      pendingFunctors, callingPendingFunctors, quit, wakeupCounter, waking := [], false, false, 0, {};
      this.schedule := schedule;
      model, taken := INITIAL, [];
    }

    method Wakeup()
      modifies this`wakeupCounter
      ensures wakeupCounter == if old(wakeupCounter) < EVENTFD_MAX then old(wakeupCounter) + 1 else old(wakeupCounter)
    {
      if wakeupCounter < EVENTFD_MAX {
        wakeupCounter := wakeupCounter + 1;
      }
    }

    /** The bookkeeping of one step. */
    ghost method Did(e: Step)
      requires Enabled(model, e) && Runs(INITIAL, taken, model)
      modifies this`model, this`taken
      ensures model == Apply(old(model), e) && taken == old(taken) + [e] && Runs(INITIAL, taken, model)
    {
      RunsSnoc(INITIAL, taken, model, e);
      model, taken := Apply(model, e), taken + [e];
    }

    /** Another thread takes one step: queueInLoop up to its unlock, quit up to its store, or the wakeup
        either of them owes. A step that makes no sense at the moment is passed over. */
    method Other(e: Step)
      requires Valid()
      modifies this
      ensures Valid() && SamePlace(old(model), model) && schedule == old(schedule)
      ensures taken == old(taken) + if IsForeign(e) && Enabled(old(model), e) then [e] else []
    {
      hide SamePlace, Runs;
      NothingMoved(model);
      match e {
        case Push(t, task) =>
          if t in waking { return; }
          pendingFunctors := pendingFunctors + [task];
          waking := waking + {t};
        case Quit(t) =>
          if t in waking { return; }
          quit := true;
          waking := waking + {t};
        case Wake(t) =>
          if t !in waking { return; }
          Wakeup();
          waking := waking - {t};
        case _ => return;
      }
      ForeignStepMovesNothing(model, e);
      Did(e);
    }

    /** The other threads take the steps that are next in the schedule. */
    method Others()
      requires Valid()
      modifies this
      ensures Valid() && SamePlace(old(model), model) && old(taken) <= taken
    {
      if schedule == [] { return; }
      var now := schedule[0];
      schedule := schedule[1..];
      for i := 0 to |now|
        invariant Valid() && SamePlace(old(model), model) && old(taken) <= taken
      {
        Other(now[i]);
      }
    }

    /** Called on the loop's own thread, from user code. */
    method QueueInLoop(task: Task)
      requires Valid()
      requires InUserCode(model) && !model.ownWake && (model.calling <==> model.pc.Running?)
      modifies this
      ensures Valid() && SamePlace(old(model), model) && old(taken) <= taken
      ensures old(model.pending) + [task] <= model.pending
    {
      pendingFunctors := pendingFunctors + [task];
      Did(OwnPush(task));
      Others();
      if callingPendingFunctors {
        Wakeup();
        Did(OwnWake);
      }
      Others();
    }

    /** quit() called on the loop's own thread. */
    method QuitInLoop()
      requires Valid()
      requires InUserCode(model) && !model.ownWake
      modifies this
      ensures Valid() && quit && taken == old(taken) + [OwnQuit]
      ensures model == old(model).(quit := true)
    {
      quit := true;
      Did(OwnQuit);
    }

    /** User code on the loop's own thread: a channel callback or a functor. */
    method RunUserCode(effect: Effect)
      requires Valid()
      requires InUserCode(model) && !model.ownWake && (model.calling <==> model.pc.Running?)
      modifies this
      ensures Valid() && SamePlace(old(model), model) && old(taken) <= taken
    {
      Others();
      for i := 0 to |effect.queues|
        invariant Valid() && SamePlace(old(model), model) && old(taken) <= taken
      {
        QueueInLoop(effect.queues[i]);
      }
      if effect.quits {
        QuitInLoop();
      }
      Others();
    }

    /** One functor of a batch, with what it does on its own loop. */
    method RunFunctor(functor: Task, effects: Task -> Effect)
      requires Valid()
      requires model.pc.Running? && model.pc.current == [] && model.pc.rest != [] && model.pc.rest[0] == functor
      requires !model.ownWake && model.calling
      modifies this
      ensures Valid() && old(taken) <= taken
      ensures model.pc == Running([], old(model.pc.rest)[1..], old(model.pc.mark)) && !model.ownWake && model.calling
      ensures model.executed == old(model.executed) + [functor] && old(model.queued) <= model.queued
    {
      Did(Start);
      RunUserCode(effects(functor));
      Did(Finish);
      Others();
    }

    /** Up to the swap, under the mutex: whatever is queued by then is the batch. `atSwap` is the state in
        which it happens. */
    method TakePending() returns (functors: seq<Task>, ghost atSwap: State)
      requires Valid()
      requires model.pc == Dispatching(false) && !model.ownWake && !model.calling
      modifies this
      ensures Valid() && old(taken) < taken
      ensures SwapAt(taken, |taken| - 1, atSwap) && functors == atSwap.pending
      ensures old(model.pending) <= functors && model.executed == atSwap.executed == old(model.executed)
      ensures atSwap.pc == BeforeSwap && model.queued == atSwap.queued
      ensures model.pc == Running([], functors, |atSwap.queued|) && !model.ownWake && model.calling
    {
      callingPendingFunctors := true;
      Did(EndDispatch);
      Others();
      functors := pendingFunctors;
      pendingFunctors := [];
      atSwap := model;
      ghost var before := taken;
      Did(Swap);
      assert taken[..|taken| - 1] == before;
    }

    /** Runs a batch, in order. */
    method RunBatch(functors: seq<Task>, effects: Task -> Effect)
      requires Valid()
      requires model.pc.Running? && model.pc.current == [] && model.pc.rest == functors
      requires !model.ownWake && model.calling
      modifies this
      ensures Valid() && old(taken) <= taken
      ensures model.pc.Running? && model.pc.current == [] && model.pc.rest == []
      ensures !model.ownWake && model.calling && model.executed == old(model.executed) + functors
      ensures old(model.queued) <= model.queued
    {
      for i := 0 to |functors|
        invariant Valid() && old(taken) <= taken
        invariant model.pc.Running? && model.pc.current == [] && model.pc.rest == functors[i..]
        invariant !model.ownWake && model.calling
        invariant model.executed == old(model.executed) + functors[..i] && old(model.queued) <= model.queued
      {
        RunFunctor(functors[i], effects);
        assert functors[..i + 1] == functors[..i] + [functors[i]];
      }
      assert functors[..|functors|] == functors;
    }

    /** Runs exactly what is pending at the swap, in order; everything queued after it is still pending at
        the end. `atSwap` is the state at the swap, and `k` its place in the run. */
    method DoPendingFunctors(effects: Task -> Effect) returns (functors: seq<Task>, ghost atSwap: State, ghost k: nat)
      requires Valid()
      requires model.pc == Dispatching(false) && !model.ownWake && !model.calling
      modifies this
      ensures Valid() && old(taken) < taken && |old(taken)| <= k < |taken| && SwapAt(taken, k, atSwap)
      ensures model.pc == Test && !model.ownWake && !callingPendingFunctors
      ensures functors == atSwap.pending && old(model.pending) <= functors
      ensures model.executed == old(model.executed) + functors
      ensures atSwap.queued <= model.queued && model.pending == model.queued[|atSwap.queued|..]
    {
      functors, atSwap := TakePending();
      k := |taken| - 1;
      ghost var upToSwap := taken;
      RunBatch(functors, effects);
      callingPendingFunctors := false;
      Did(EndBatch);
      assert taken[..k] == upToSwap[..k] && taken[k] == upToSwap[k];
      StillPending(taken[..k], atSwap, taken, model);
    }

    /** poll() returns and the active channels are handled. The eventfd's callback is among them exactly when
        the poll reports it; it reads the eventfd empty, at step k, so that afterwards the eventfd holds only
        what has been written since. */
    method PollAndDispatch(poll: Poll) returns (drained: bool, ghost k: nat)
      requires Valid()
      requires model.pc == Polling && !model.ownWake && !model.calling
      modifies this
      ensures Valid() && old(taken) < taken
      ensures model.pc == Dispatching(false) && !model.ownWake && !model.calling
      ensures old(model.pending) <= model.pending && model.executed == old(model.executed)
      ensures poll.readWakeup && old(wakeupCounter) > 0 ==> drained
      ensures drained ==>
                && poll.readWakeup && |old(taken)| <= k < |taken| && taken[k] == ReadWakeup
                && Holds(wakeupCounter, WakesAfter(0, taken[k + 1..]))
    {
      k := 0;
      Others();
      drained := poll.readWakeup && wakeupCounter > 0;
      Did(PollReturn(drained));
      RunUserCode(poll.first);
      if drained {
        wakeupCounter := 0;
        k := |taken|;
        Did(ReadWakeup);
      }
      RunUserCode(poll.second);
      if drained { DrainedAt(taken, k, model); }
    }

    /** One turn of the loop. It stops exactly when quit_ is set at the test; otherwise every task that was
        pending then is run, in order. */
    method Turn(poll: Poll, effects: Task -> Effect) returns (stopped: bool, functors: seq<Task>)
      requires Valid()
      requires model.pc == Test && !model.ownWake && !model.calling
      modifies this
      ensures Valid() && old(taken) < taken
      ensures stopped <==> old(quit)
      ensures stopped ==> model == old(model).(pc := Stopped) && functors == []
      ensures !stopped ==> model.pc == Test && !model.ownWake && !model.calling && old(model.pending) <= functors
      ensures model.executed == old(model.executed) + functors
    {
      stopped, functors := quit, [];
      Did(TestQuit);
      if stopped { return; }
      var drained;
      ghost var at;
      drained, at := PollAndDispatch(poll);
      ghost var s, k;
      functors, s, k := DoPendingFunctors(effects);
      Others();
    }

    /** loop(), for as long as there are polls to come back. Since `taken` is a run from the initial state,
        all that LoopProtocol proves of runs holds at every step of it. */
    method Loop(polls: seq<Poll>, effects: Task -> Effect) returns (stopped: bool)
      requires Valid()
      requires model.pc == Before && !model.ownWake && !model.calling
      modifies this
      ensures Valid() && old(taken) < taken
      ensures if stopped then model.pc == Stopped && quit else model.pc == Test
    {
      quit := false;
      Did(Enter);
      Others();
      stopped := false;
      for i := 0 to |polls|
        invariant Valid() && old(taken) < taken && !stopped
        invariant model.pc == Test && !model.ownWake && !model.calling
      {
        var functors;
        stopped, functors := Turn(polls[i], effects);
        if stopped { return; }
      }
    }
  }

  /** Step k of the run is the swap, and s the state before it. */
  ghost predicate SwapAt(taken: seq<Step>, k: nat, s: State) {
    k < |taken| && taken[k] == Swap && Runs(INITIAL, taken[..k], s)
  }

  /** When all of a batch has been run, what was queued after its swap is what is pending. */
  lemma StillPending(before: seq<Step>, s: State, steps: seq<Step>, t: State)
    requires Runs(INITIAL, before, s) && Runs(INITIAL, steps, t)
    requires BatchRest(s) == [] && BatchRest(t) == [] && t.executed == s.executed + s.pending
    requires s.queued <= t.queued
    ensures t.pending == t.queued[|s.queued|..]
  {
    FifoExactlyOnce(before, s);
    FifoExactlyOnce(steps, t);
    assert s.executed + [] == s.executed && t.executed + [] == t.executed;
  }
}
