/** Where a connection stands in every run, and what each step does to it. */
module LifecycleSteps {
  import ConnectionSpec
  import opened Lifecycle

  // ----- where it stands -----

  /** In every run, the state of a connection, what has happened to it and the one task that is queued for it
      go together: one that is connecting waits on its own loop to be established, an open one has no
      life-cycle task, a closed one is to be removed on the base loop, then destroyed on its own. */
  lemma WhereItStands(workers: nat, steps: seq<Step>, s: Server, id: Id)
    requires Runs(Initial(workers), steps, s) && id in s.conns
    ensures var c := s.conns[id];
            && (c.state.Connecting? <==> c.log == [])
            && (c.state.Connected? || c.state.Disconnecting? <==> c.log == [Established, CallbackUp])
            && (c.state.Disconnected? <==> [Established, CallbackUp, CloseRan, CallbackDown] <= c.log)
            && c.log <= [Established, CallbackUp, CloseRan, CallbackDown, Removed, Destroyed]
            && |s.queues| == workers + 1 && c.loop <= workers
            && forall l :: 0 <= l <= workers ==>
                 && multiset(s.queues[l])[Task.Establish(id)] == (if c.log == [] && l == c.loop then 1 else 0)
                 && multiset(s.queues[l])[Remove(id)] == (if |c.log| == 4 && l == 0 then 1 else 0)
                 && multiset(s.queues[l])[Destroy(id)] == (if |c.log| == 5 && l == c.loop then 1 else 0)
  {
    InitialInv(workers);
    RunsKeepInv(Initial(workers), steps, s);
    WorkersFixed(Initial(workers), steps, s);
    assert ConnInv(s, id);
    var c := s.conns[id];
    forall l | 0 <= l <= workers
      ensures multiset(s.queues[l])[Task.Establish(id)] == (if c.log == [] && l == c.loop then 1 else 0)
      ensures multiset(s.queues[l])[Remove(id)] == (if |c.log| == 4 && l == 0 then 1 else 0)
      ensures multiset(s.queues[l])[Destroy(id)] == (if |c.log| == 5 && l == c.loop then 1 else 0)
    {
      assert Times(s.queues[l], Task.Establish(id)) == multiset(s.queues[l])[Task.Establish(id)];
    }
  }

  // ----- what a step does -----

  /** It is closed: handleClose, the down callback, and on the base loop the removal at once. */
  ghost predicate ClosedFrom(c: Connection, d: Connection) {
    d.state.Disconnected? && d.log == c.log + [CloseRan, CallbackDown] + if c.loop == 0 then [Removed] else []
  }

  /** What running a functor does to its connection; `fails`: a send in it fails. */
  ghost predicate TaskDone(t: Task, fails: bool, c: Connection, d: Connection) {
    match t
    case Establish(_) =>
      if fails then d.state.Disconnected? && d.log == [Established, CallbackUp, CloseRan, CallbackDown]
      else d.state.Connected? && d.log == [Established, CallbackUp]
    case Remove(_) => d.state.Disconnected? && d.log == c.log + [Removed]
    case Destroy(_) => d.state.Disconnected? && d.log == c.log + [Destroyed]
    case User(_) => if fails && (c.state.Connected? || c.state.Disconnecting?) then ClosedFrom(c, d) else d == c
  }

  /** What a step does to one connection. */
  ghost predicate StepDone(s: Server, e: Step, id: Id, c: Connection, d: Connection)
    requires e.RunTask? ==> e.loop < |s.queues| && s.queues[e.loop] != []
  {
    && d.loop == c.loop
    && match e
       case Shutdown(x) =>
         if x == id && c.state.Connected? then d.state.Disconnecting? && d.log == c.log else d == c
       case CloseInEvent(x) => if x == id then ClosedFrom(c, d) else d == c
       case RunTask(l, fails) => if s.queues[l][0].id == id then TaskDone(s.queues[l][0], fails, c, d) else d == c
       case _ => d == c
  }

  lemma StepExactly(s: Server, e: Step, id: Id)
    requires Inv(s) && Enabled(s, e) && id in s.conns
    ensures id in Apply(s, e).conns && StepDone(s, e, id, s.conns[id], Apply(s, e).conns[id])
  {
    hide Ran, CloseHandled, TaskDone, ClosedFrom, Due;
    match e
    case RunTask(l, fails) =>
      TaskIsDue(s, l);
      RanExactly(s.(queues := s.queues[l := s.queues[l][1..]]), s.queues[l][0], fails, id);
    case CloseInEvent(x) => CloseExactly(s, x, id);
    case Accept(fails) => AcceptedExactly(s, fails, id);
    case _ =>
  }

  lemma AcceptedExactly(s: Server, fails: bool, id: Id)
    requires Inv(s) && Enabled(s, Accept(fails)) && id in s.conns
    ensures var t := Apply(s, Accept(fails)); id in t.conns && t.conns[id] == s.conns[id]
  {
    hide ConnsInv, PoolInv, StackInv, Due;
    assert id != s.nextConnId;
  }

  lemma CloseExactly(s: Server, x: Id, id: Id)
    requires Sound(s) && x in s.conns && id in s.conns
    ensures var t := CloseHandled(s, x);
            && id in t.conns && t.conns[id].loop == s.conns[id].loop
            && if x == id then ClosedFrom(s.conns[id], t.conns[id]) else t.conns[id] == s.conns[id]
  {
    var c := s.conns[id];
    assert c.log + [CloseRan, CallbackDown] + [] == c.log + [CloseRan, CallbackDown];
  }

  /** The functor at the head of a queue, on a connection that is as it should be. */
  lemma RanExactly(s: Server, t: Task, fails: bool, id: Id)
    requires Sound(s) && t.id in s.conns && id in s.conns
    requires t.Establish? ==> s.conns[t.id].log == [] && s.conns[t.id].loop != 0
    requires t.Remove? || t.Destroy? ==> s.conns[t.id].state.Disconnected?
    ensures var r := Ran(s, t, fails);
            && id in r.conns && r.conns[id].loop == s.conns[id].loop
            && if t.id == id then TaskDone(t, fails, s.conns[id], r.conns[id]) else r.conns[id] == s.conns[id]
  {
    hide CloseHandled;
    var c := s.conns[id];
    if t.Establish? {
      assert [] + [Established, CallbackUp] + [CloseRan, CallbackDown] ==
             [Established, CallbackUp, CloseRan, CallbackDown];
      var up := Log(SetState(s, t.id, ConnectionSpec.Connected), t.id, [Established, CallbackUp]);
      CloseExactly(up, t.id, id);
    } else if t.User? {
      CloseExactly(s, t.id, id);
    }
  }

  /** And what accepting does: the next number, the loop whose turn it is; on the base loop the connection is
      established at once. */
  lemma AcceptExactly(s: Server, fails: bool)
    requires Inv(s) && Enabled(s, Accept(fails))
    ensures var t := Apply(s, Accept(fails)); var id := s.nextConnId;
            && t.conns.Keys == s.conns.Keys + {id} && t.nextConnId == id + 1
            && t.conns[id].loop == (if s.workers == 0 then 0 else 1 + (id - 1) % s.workers)
            && (s.workers > 0 ==> t.conns[id].state.Connecting? && t.conns[id].log == [])
            && (s.workers == 0 && !fails ==>
                 t.conns[id].state.Connected? && t.conns[id].log == [Established, CallbackUp])
            && (s.workers == 0 && fails ==>
                 t.conns[id].state.Disconnected?
                 && t.conns[id].log == [Established, CallbackUp, CloseRan, CallbackDown, Removed])
  {
    assert [] + [Established, CallbackUp] + [CloseRan, CallbackDown] + [Removed] ==
           [Established, CallbackUp, CloseRan, CallbackDown, Removed];
  }

  /** At most one task has been put behind the others in each queue. */
  ghost predicate OneQueued(before: seq<seq<Task>>, after: seq<seq<Task>>) {
    && |after| == |before|
    && forall l :: 0 <= l < |before| ==> before[l] <= after[l] && |after[l]| <= |before[l]| + 1
  }

  lemma RanQueues(s: Server, t: Task, fails: bool)
    requires Sound(s) && t.id in s.conns
    ensures OneQueued(s.queues, Ran(s, t, fails).queues)
  {
    CloseQueues(s, t.id);
    EstablishQueues(s, t.id, fails);
  }

  lemma CloseQueues(s: Server, id: Id)
    requires Sound(s) && id in s.conns
    ensures OneQueued(s.queues, CloseHandled(s, id).queues)
  {}

  lemma EstablishQueues(s: Server, id: Id, fails: bool)
    requires Sound(s) && id in s.conns
    ensures OneQueued(s.queues, EstablishedRan(s, id, fails).queues)
  {}

  /** Functors are run from the front of a loop's queue and queued at its end, at most one a step. */
  lemma QueuesInOrder(s: Server, e: Step)
    requires Enabled(s, e)
    ensures var before := if e.RunTask? then s.queues[e.loop := s.queues[e.loop][1..]] else s.queues;
            OneQueued(before, Apply(s, e).queues)
    ensures e.Post? ==> Apply(s, e).queues[s.conns[e.id].loop] == s.queues[s.conns[e.id].loop] + [User(e.id)]
  {
    hide CloseHandled, Ran;
    match e
    case Accept(fails) => EstablishQueues(Accepted(s), s.nextConnId, fails);
    case CloseInEvent(id) => CloseQueues(s, id);
    case RunTask(l, fails) =>
      var t := s.queues[l][0];
      RanQueues(s.(queues := s.queues[l := s.queues[l][1..]]), t, fails);
    case _ =>
  }

  // ----- which steps there are -----

  /** How often the handleEvent of a connection has begun without having ended. */
  function InEvent(steps: seq<Step>, id: Id): int {
    multiset(steps)[BeginEvent(id)] as int - multiset(steps)[EndEvent(id)] as int
  }

  function OnStack(s: Server, id: Id): int {
    if id in s.conns && s.conns[id].loop in s.onStack && s.onStack[s.conns[id].loop] == id then 1 else 0
  }

  lemma StepOnStack(s: Server, e: Step, id: Id)
    requires Inv(s) && Enabled(s, e)
    ensures OnStack(Apply(s, e), id) == OnStack(s, id) + InEvent([e], id)
  {
    hide Inv;
    if e == BeginEvent(id) || e == EndEvent(id) {
    } else {
      assert InEvent([e], id) == 0;
      OthersOnStack(s, e, id);
    }
  }

  lemma OthersOnStack(s: Server, e: Step, id: Id)
    requires Inv(s) && Enabled(s, e) && e != BeginEvent(id) && e != EndEvent(id)
    ensures OnStack(Apply(s, e), id) == OnStack(s, id)
  {
    hide BookInv, ConnsInv, PoolInv;
    if id in s.conns { StepExactly(s, e, id); }
    if !e.BeginEvent? && !e.EndEvent? {
      hide Apply, Enabled, StepDone;
      StackUntouched(s, e);
    }
  }

  lemma StackUntouched(s: Server, e: Step)
    requires Enabled(s, e) && !e.BeginEvent? && !e.EndEvent?
    ensures Apply(s, e).onStack == s.onStack
  {
    hide CloseHandled, Ran, EstablishedRan;
    match e
    case RunTask(l, fails) => RanOffStack(s.(queues := s.queues[l := s.queues[l][1..]]), s.queues[l][0], fails);
    case CloseInEvent(id) => CloseOffStack(s, id);
    case Accept(fails) => EstablishOffStack(Accepted(s), s.nextConnId, fails);
    case _ =>
  }

  lemma CloseOffStack(s: Server, id: Id)
    requires Sound(s) && id in s.conns
    ensures CloseHandled(s, id).onStack == s.onStack
  {}

  lemma EstablishOffStack(s: Server, id: Id, fails: bool)
    requires Sound(s) && id in s.conns
    ensures EstablishedRan(s, id, fails).onStack == s.onStack
  {}

  lemma RanOffStack(s: Server, t: Task, fails: bool)
    requires Sound(s) && t.id in s.conns
    ensures Ran(s, t, fails).onStack == s.onStack
  {
    hide CloseHandled, EstablishedRan;
    CloseOffStack(s, t.id);
    EstablishOffStack(s, t.id, fails);
  }

  lemma InEventCons(e: Step, rest: seq<Step>, id: Id)
    ensures InEvent([e] + rest, id) == InEvent([e], id) + InEvent(rest, id)
  {}

  lemma {:induction false} StackOverRun(s: Server, steps: seq<Step>, t: Server, id: Id)
    requires Inv(s) && Runs(s, steps, t)
    ensures OnStack(t, id) == OnStack(s, id) + InEvent(steps, id)
    decreases |steps|
  {
    hide Inv, Enabled, Apply, OnStack, InEvent;
    if steps == [] {
      assert InEvent([], id) == 0 by { NoEvents(id); }
    } else {
      ApplyKeepsInv(s, steps[0]);
      StepOnStack(s, steps[0], id);
      StackOverRun(Apply(s, steps[0]), steps[1..], t, id);
      InEventCons(steps[0], steps[1..], id);
      assert [steps[0]] + steps[1..] == steps;
    }
  }

  lemma NoEvents(id: Id)
    ensures InEvent([], id) == 0
  {}

  /** A loop is in the handleEvent of one of its connections. */
  ghost predicate Busy(steps: seq<Step>, s: Server, l: LoopId) {
    exists x :: x in s.conns && s.conns[x].loop == l && InEvent(steps, x) == 1
  }

  /** What can happen after every run, told by the steps before: a loop that is in no handleEvent accepts (if
      it is the base loop), begins the handleEvent of any of its open connections, and runs its next functor;
      only a connection whose handleEvent has begun and not ended is closed by it or ends it. */
  lemma EnabledIff(workers: nat, steps: seq<Step>, s: Server, e: Step)
    requires Runs(Initial(workers), steps, s)
    ensures forall id :: id in s.conns ==> 0 <= InEvent(steps, id) <= 1
    ensures e.Accept? ==> (Enabled(s, e) <==> !Busy(steps, s, 0))
    ensures e.RunTask? ==>
              (Enabled(s, e) <==> e.loop < |s.queues| && s.queues[e.loop] != [] && !Busy(steps, s, e.loop))
    ensures !e.Accept? && !e.RunTask? ==>
              (Enabled(s, e) <==>
                && e.id in s.conns
                && (e.BeginEvent? || e.CloseInEvent? ==>
                     s.conns[e.id].state.Connected? || s.conns[e.id].state.Disconnecting?)
                && (e.BeginEvent? ==> !Busy(steps, s, s.conns[e.id].loop))
                && (e.CloseInEvent? || e.EndEvent? ==> InEvent(steps, e.id) == 1))
  {
    hide InEvent, Busy, Runs, Lifecycle.Inv, Enabled;
    InitialInv(workers);
    RunsKeepInv(Initial(workers), steps, s);
    forall id ensures InEvent(steps, id) == OnStack(s, id) { StackIs(workers, steps, s, id); }
    forall l ensures Busy(steps, s, l) <==> l in s.onStack { BusyIs(steps, s, l); }
    EnabledByStack(s, e);
  }

  lemma StackIs(workers: nat, steps: seq<Step>, s: Server, id: Id)
    requires Runs(Initial(workers), steps, s)
    ensures InEvent(steps, id) == OnStack(s, id)
  {
    hide InEvent, Runs;
    InitialInv(workers);
    StackOverRun(Initial(workers), steps, s, id);
  }

  lemma EnabledByStack(s: Server, e: Step)
    requires Inv(s)
    ensures e.Accept? ==> (Enabled(s, e) <==> 0 !in s.onStack)
    ensures e.RunTask? ==>
              (Enabled(s, e) <==> e.loop < |s.queues| && s.queues[e.loop] != [] && e.loop !in s.onStack)
    ensures !e.Accept? && !e.RunTask? ==>
              (Enabled(s, e) <==>
                && e.id in s.conns
                && (e.BeginEvent? || e.CloseInEvent? ==>
                     s.conns[e.id].state.Connected? || s.conns[e.id].state.Disconnecting?)
                && (e.BeginEvent? ==> s.conns[e.id].loop !in s.onStack)
                && (e.CloseInEvent? || e.EndEvent? ==> OnStack(s, e.id) == 1))
  {
    hide NextLoop;
    ALoopAwaits(s);
    if e.RunTask? && e.loop < |s.queues| && s.queues[e.loop] != [] { TaskIsDue(s, e.loop); }
  }

  /** There always is a loop for the next connection. */
  lemma ALoopAwaits(s: Server)
    requires Inv(s)
    ensures NextLoop(s).0 < |s.queues|
  {}

  lemma BusyIs(steps: seq<Step>, s: Server, l: LoopId)
    requires Inv(s) && forall id :: InEvent(steps, id) == OnStack(s, id)
    ensures Busy(steps, s, l) <==> l in s.onStack
  {
    hide InEvent;
    if l in s.onStack {
      var id := s.onStack[l];
      assert InEvent(steps, id) == OnStack(s, id) == 1;
    }
  }
}
