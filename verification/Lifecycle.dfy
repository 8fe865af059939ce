/** The life of a connection across loops: accepted on the base loop, established on its IO loop,
    closed there, taken out of the table on the base loop, destroyed on the IO loop again. Every
    loop is one thread that alternates between channel callbacks and its functor queue; the loops
    interleave freely. */
module Lifecycle {
  import opened ConnectionSpec
  import ThreadPool

  type Id = nat      // the number in the connection's name
  type LoopId = nat  // 0 is the base loop

  datatype Task =
    | Establish(id: Id)            // TcpConnection::connectEstablished
    | Remove(id: Id)               // TcpServer::removeConnectionInLoop
    | Destroy(id: Id)              // TcpConnection::connectDestroyed
    | User(id: Id)                 // sendInLoop, the shutdown lambda, a write-complete callback

  datatype Happening = Established | CallbackUp | CloseRan | CallbackDown | Removed | Destroyed

  /** What happens to one connection, in order. */
  const ORDER := [Established, CallbackUp, CloseRan, CallbackDown, Removed, Destroyed]

  datatype Connection = Connection(loop: LoopId, state: State, log: seq<Happening>)

  datatype Server = Server(
    workers: nat,                        // IO loops in the pool, 0 for none
    next: nat,                           // EventLoopThreadPool::next_
    nextConnId: Id,
    table: set<Id>,                      // connections_
    conns: map<Id, Connection>,          // every connection ever accepted
    queues: seq<seq<Task>>,              // functors not yet run, per loop
    onStack: map<LoopId, Id>)            // whose handleEvent each loop is in

  function Initial(workers: nat): Server {
    Server(workers, 0, 1, {}, map[], seq(workers + 1, _ => []), map[])
  }

  datatype Step =
    | Accept(fails: bool)                // newConnection; `fails` is for a connection on the base loop
    | BeginEvent(id: Id)                 // handleEvent starts
    | CloseInEvent(id: Id)               // handleClose, called below handleEvent
    | EndEvent(id: Id)
    | Shutdown(id: Id)                   // shutdown() on the IO loop
    | Post(id: Id)                       // another thread or a finished write queues user work
    | RunTask(loop: LoopId, fails: bool) // the loop runs its next functor; `fails`: a send in it fails

  function Log(s: Server, id: Id, h: seq<Happening>): Server
    requires id in s.conns
  {
    s.(conns := s.conns[id := s.conns[id].(log := s.conns[id].log + h)])
  }

  function SetState(s: Server, id: Id, st: State): Server
    requires id in s.conns
  {
    s.(conns := s.conns[id := s.conns[id].(state := st)])
  }

  function Queue(s: Server, l: LoopId, t: Task): Server
    requires l < |s.queues|
  {
    s.(queues := s.queues[l := s.queues[l] + [t]])
  }

  predicate Open(c: Connection) { c.state == Connected || c.state == Disconnecting }

  /** Every connection belongs to an existing loop. */
  predicate Sound(s: Server) {
    |s.queues| == s.workers + 1 && forall id :: id in s.conns ==> s.conns[id].loop < |s.queues|
  }

  /** getNextLoop. */
  function NextLoop(s: Server): (LoopId, nat) {
    if s.workers == 0 then (0, s.next)
    else (1 + s.next, ThreadPool.Successor(s.workers, s.next))
  }

  /** removeConnectionInLoop, on the base loop: the destruction is always queued, never run at once. */
  function RemovedInLoop(s: Server, id: Id): Server
    requires Sound(s) && id in s.conns
  {
    Queue(Log(s, id, [Removed]).(table := s.table - {id}), s.conns[id].loop, Destroy(id))
  }

  /** handleClose: the callback, then removeConnection, which runs at once on the base loop and is
      queued there by any other. */
  function CloseHandled(s: Server, id: Id): Server
    requires Sound(s) && id in s.conns
  {
    var closed := Log(SetState(s, id, Disconnected), id, [CloseRan, CallbackDown]);
    if s.conns[id].loop == 0 then RemovedInLoop(closed, id) else Queue(closed, 0, Remove(id))
  }

  /** connectEstablished; the connection callback may send, and the send may fail. */
  function EstablishedRan(s: Server, id: Id, fails: bool): Server
    requires Sound(s) && id in s.conns
  {
    var up := Log(SetState(s, id, Connected), id, [Established, CallbackUp]);
    if fails then CloseHandled(up, id) else up
  }

  function DestroyedRan(s: Server, id: Id): Server
    requires id in s.conns
  {
    if s.conns[id].state == Disconnected then Log(s, id, [Destroyed])
    else Log(SetState(s, id, Disconnected), id, [CallbackDown, Destroyed])
  }

  function Ran(s: Server, t: Task, fails: bool): Server
    requires Sound(s) && t.id in s.conns
  {
    match t
    case Establish(id) => EstablishedRan(s, id, fails)
    case Remove(id) => RemovedInLoop(s, id)
    case Destroy(id) => DestroyedRan(s, id)
    case User(id) => if fails && Open(s.conns[id]) then CloseHandled(s, id) else s
  }

  /** The steps there are, and the asserts of the source that guard them. */
  predicate Enabled(s: Server, e: Step) {
    && Sound(s)
    && match e
       case Accept(_) => 0 !in s.onStack && NextLoop(s).0 < |s.queues|
       case BeginEvent(id) => id in s.conns && Open(s.conns[id]) && s.conns[id].loop !in s.onStack
       case CloseInEvent(id) =>
         id in s.conns && Open(s.conns[id]) && s.conns[id].loop in s.onStack && s.onStack[s.conns[id].loop] == id
       case EndEvent(id) => id in s.conns && s.conns[id].loop in s.onStack && s.onStack[s.conns[id].loop] == id
       case Shutdown(id) => id in s.conns
       case Post(id) => id in s.conns
       case RunTask(l, _) => l < |s.queues| && s.queues[l] != [] && l !in s.onStack && s.queues[l][0].id in s.conns
  }

  function Apply(s: Server, e: Step): Server
    requires Enabled(s, e)
  {
    match e
    case Accept(fails) =>
      var (loop, next) := NextLoop(s);
      var id := s.nextConnId;
      var made := s.(next := next, nextConnId := id + 1, table := s.table + {id},
                     conns := s.conns[id := Connection(loop, Connecting, [])]);
      if loop == 0 then EstablishedRan(made, id, fails) else Queue(made, loop, Task.Establish(id))
    case BeginEvent(id) => s.(onStack := s.onStack[s.conns[id].loop := id])
    case CloseInEvent(id) => CloseHandled(s, id)
    case EndEvent(id) => s.(onStack := s.onStack - {s.conns[id].loop})
    case Shutdown(id) => if s.conns[id].state == Connected then SetState(s, id, Disconnecting) else s
    case Post(id) => Queue(s, s.conns[id].loop, User(id))
    case RunTask(l, fails) =>
      var t := s.queues[l][0];
      Ran(s.(queues := s.queues[l := s.queues[l][1..]]), t, fails)
  }

  predicate Runs(s: Server, steps: seq<Step>, t: Server)
    decreases |steps|
  {
    if steps == [] then s == t else Enabled(s, steps[0]) && Runs(Apply(s, steps[0]), steps[1..], t)
  }

  // ----- where a connection is in its life -----

  function Times(q: seq<Task>, t: Task): nat { multiset(q)[t] }

  /** The queued life-cycle tasks of one connection: at most one, the one that comes next. */
  ghost predicate Due(s: Server, id: Id, establish: nat, remove: nat, destroy: nat)
    requires Sound(s) && id in s.conns
  {
    forall l :: 0 <= l < |s.queues| ==>
      && Times(s.queues[l], Task.Establish(id)) == (if l == s.conns[id].loop then establish else 0)
      && Times(s.queues[l], Remove(id)) == (if l == 0 then remove else 0)
      && Times(s.queues[l], Destroy(id)) == (if l == s.conns[id].loop then destroy else 0)
  }

  ghost predicate ConnInv(s: Server, id: Id)
    requires Sound(s) && id in s.conns
  {
    var c := s.conns[id];
    && |c.log| <= 6 && c.log == ORDER[..|c.log|]
    && (id in s.table <==> |c.log| < 5)
    && match |c.log|
       case 0 => c.state == Connecting && c.loop != 0 && Due(s, id, 1, 0, 0)
       case 2 => Open(c) && Due(s, id, 0, 0, 0)
       case 4 => c.state == Disconnected && c.loop != 0 && Due(s, id, 0, 1, 0)
       case 5 => c.state == Disconnected && Due(s, id, 0, 0, 1)
       case 6 => c.state == Disconnected && Due(s, id, 0, 0, 0)
       case _ => false
  }

  /** Connections are numbered from 1 in the order they were accepted, and nothing refers to any
      other number. */
  ghost predicate BookInv(s: Server) {
    && Sound(s) && s.nextConnId >= 1
    && (forall id :: id in s.conns <==> 1 <= id < s.nextConnId)
    && s.table <= s.conns.Keys
    && (forall l, t :: 0 <= l < |s.queues| && t in s.queues[l] ==> t.id in s.conns)
  }

  /** A handleEvent on the stack is that of a connection of the same loop, and not a destroyed one. */
  ghost predicate StackInv(s: Server) {
    forall l :: l in s.onStack ==>
      var id := s.onStack[l]; id in s.conns && s.conns[id].loop == l && |s.conns[id].log| < 6
  }

  /** Connections go to the IO loops in turn. */
  ghost predicate PoolInv(s: Server) {
    && (s.workers > 0 ==> s.nextConnId >= 1 && s.next == (s.nextConnId - 1) % s.workers)
    && (forall id :: id in s.conns ==>
          s.conns[id].loop == if s.workers == 0 then 0 else 1 + (id - 1) % s.workers)
  }

  ghost predicate ConnsInv(s: Server)
    requires Sound(s)
  {
    forall id :: id in s.conns ==> ConnInv(s, id)
  }

  ghost predicate Inv(s: Server) {
    BookInv(s) && ConnsInv(s) && StackInv(s) && PoolInv(s)
  }

  // ----- a step is about one connection -----

  lemma TimesSnoc(q: seq<Task>, t: Task, x: Task)
    ensures Times(q + [t], x) == Times(q, x) + if x == t then 1 else 0
  {}

  lemma TimesTail(q: seq<Task>, x: Task)
    requires q != []
    ensures Times(q[1..], x) == Times(q, x) - if x == q[0] then 1 else 0
  {
    assert q == [q[0]] + q[1..];
  }

  /** From s to t nothing has changed for any connection but `id`. */
  ghost predicate OnlyAbout(s: Server, t: Server, id: Id) {
    && Sound(s) && Sound(t)
    && t.workers == s.workers && t.next == s.next && t.nextConnId == s.nextConnId
    && t.conns.Keys == s.conns.Keys && id in s.conns && t.conns[id].loop == s.conns[id].loop
    && (forall x :: x in s.conns && x != id ==> t.conns[x] == s.conns[x])
    && (forall x :: x != id ==> (x in t.table <==> x in s.table))
    && (forall l, x: Task :: 0 <= l < |s.queues| && x.id != id ==> Times(t.queues[l], x) == Times(s.queues[l], x))
  }

  lemma OthersKeepInv(s: Server, t: Server, id: Id, other: Id)
    requires OnlyAbout(s, t, id) && other in s.conns && other != id && ConnInv(s, other)
    ensures ConnInv(t, other)
  {}

  lemma QueueIsAbout(s: Server, l: LoopId, t: Task)
    requires Sound(s) && l < |s.queues| && t.id in s.conns
    ensures OnlyAbout(s, Queue(s, l, t), t.id)
    ensures forall k, x: Task :: 0 <= k < |s.queues| ==>
              Times(Queue(s, l, t).queues[k], x) == Times(s.queues[k], x) + if k == l && x == t then 1 else 0
  {
    forall k, x: Task | 0 <= k < |s.queues|
      ensures Times(Queue(s, l, t).queues[k], x) == Times(s.queues[k], x) + if k == l && x == t then 1 else 0
    {
      TimesSnoc(s.queues[l], t, x);
    }
  }

  lemma CloseHandledIsAbout(s: Server, id: Id)
    requires Sound(s) && id in s.conns && ConnInv(s, id) && |s.conns[id].log| == 2
    ensures OnlyAbout(s, CloseHandled(s, id), id) && ConnInv(CloseHandled(s, id), id)
    ensures |CloseHandled(s, id).conns[id].log| < 6
  {
    var closed := Log(SetState(s, id, Disconnected), id, [CloseRan, CallbackDown]);
    assert closed.conns[id].log == ORDER[..4];
    if s.conns[id].loop == 0 {
      RemovedInLoopIsAbout(closed, id);
    } else {
      QueueIsAbout(closed, 0, Remove(id));
    }
  }

  lemma RemovedInLoopIsAbout(s: Server, id: Id)
    requires Sound(s) && id in s.conns && s.conns[id].log == ORDER[..4] && s.conns[id].state == Disconnected
    requires Due(s, id, 0, 0, 0) && id in s.table
    ensures OnlyAbout(s, RemovedInLoop(s, id), id) && ConnInv(RemovedInLoop(s, id), id)
    ensures |RemovedInLoop(s, id).conns[id].log| == 5
  {
    var logged := Log(s, id, [Removed]).(table := s.table - {id});
    assert logged.conns[id].log == ORDER[..5];
    QueueIsAbout(logged, s.conns[id].loop, Destroy(id));
  }

  lemma EstablishedRanIsAbout(s: Server, id: Id, fails: bool)
    requires Sound(s) && id in s.conns && s.conns[id].log == [] && s.conns[id].state == Connecting
    requires Due(s, id, 0, 0, 0) && id in s.table
    ensures OnlyAbout(s, EstablishedRan(s, id, fails), id) && ConnInv(EstablishedRan(s, id, fails), id)
    ensures |EstablishedRan(s, id, fails).conns[id].log| < 6
  {
    var up := Log(SetState(s, id, Connected), id, [Established, CallbackUp]);
    assert up.conns[id].log == ORDER[..2];
    if fails { CloseHandledIsAbout(up, id); }
  }

  lemma DequeueIsAbout(s: Server, l: LoopId)
    requires Sound(s) && l < |s.queues| && s.queues[l] != [] && s.queues[l][0].id in s.conns
    ensures var t := s.queues[l][0]; var rest := s.(queues := s.queues[l := s.queues[l][1..]]);
            && OnlyAbout(s, rest, t.id)
            && forall k, x: Task :: 0 <= k < |s.queues| ==>
                 Times(rest.queues[k], x) == Times(s.queues[k], x) - if k == l && x == t then 1 else 0
  {
    var t := s.queues[l][0];
    var rest := s.(queues := s.queues[l := s.queues[l][1..]]);
    forall k, x: Task | 0 <= k < |s.queues|
      ensures Times(rest.queues[k], x) == Times(s.queues[k], x) - if k == l && x == t then 1 else 0
    {
      TimesTail(s.queues[l], x);
    }
  }

  /** The task at the head of a queue finds its connection where it should be: the asserts on the
      state in connectEstablished and on the table in removeConnectionInLoop hold, and
      connectDestroyed meets a closed connection. */
  lemma TaskIsDue(s: Server, l: LoopId)
    requires BookInv(s) && ConnsInv(s) && l < |s.queues| && s.queues[l] != []
    ensures s.queues[l][0].id in s.conns
    ensures match s.queues[l][0]
            case Establish(id) => s.conns[id].state == Connecting && s.conns[id].log == [] && l == s.conns[id].loop && id in s.table
            case Remove(id) => s.conns[id].state == Disconnected && s.conns[id].log == ORDER[..4] && l == 0 && id in s.table
            case Destroy(id) => s.conns[id].state == Disconnected && s.conns[id].log == ORDER[..5] && l == s.conns[id].loop
            case User(_) => true
  {
    var t := s.queues[l][0];
    assert t in s.queues[l];
    assert Times(s.queues[l], t) > 0;
    assert ConnInv(s, t.id);
  }

  lemma AboutThen(s: Server, m: Server, t: Server, id: Id)
    requires OnlyAbout(s, m, id) && OnlyAbout(m, t, id)
    ensures OnlyAbout(s, t, id)
  {}

  /** Running a life-cycle task: the connection moves one stage on. */
  lemma DueTaskRuns(rest: Server, task: Task, fails: bool)
    requires Sound(rest) && task.id in rest.conns && !task.User? && Due(rest, task.id, 0, 0, 0)
    requires var c := rest.conns[task.id];
             match task
             case Establish(_) => c.state == Connecting && c.log == [] && task.id in rest.table
             case Remove(_) => c.state == Disconnected && c.log == ORDER[..4] && task.id in rest.table
             case Destroy(_) => c.state == Disconnected && c.log == ORDER[..5] && task.id !in rest.table
    ensures var t := Ran(rest, task, fails);
            && OnlyAbout(rest, t, task.id) && ConnInv(t, task.id) && t.onStack == rest.onStack
            && (|t.conns[task.id].log| < 6 || task.Destroy?)
  {
    match task
    case Establish(id) => EstablishedRanIsAbout(rest, id, fails);
    case Remove(id) => RemovedInLoopIsAbout(rest, id);
    case Destroy(id) => assert Ran(rest, task, fails).conns[id].log == ORDER[..6];
  }

  lemma UserTaskRuns(rest: Server, id: Id, fails: bool)
    requires Sound(rest) && id in rest.conns && ConnInv(rest, id)
    ensures var t := Ran(rest, User(id), fails);
            && OnlyAbout(rest, t, id) && ConnInv(t, id) && t.onStack == rest.onStack
            && (|t.conns[id].log| < 6 || t == rest)
  {
    if fails && Open(rest.conns[id]) { CloseHandledIsAbout(rest, id); }
  }

  /** What RunTask does to the connection whose task it runs. */
  ghost predicate TaskRan(s: Server, t: Server, id: Id) {
    && OnlyAbout(s, t, id) && ConnInv(t, id) && t.onStack == s.onStack
    && (|t.conns[id].log| < 6 || s.conns[id].loop !in s.onStack || |s.conns[id].log| == 6)
  }

  lemma RunUserTaskIsAbout(s: Server, e: Step)
    requires Inv(s) && e.RunTask? && Enabled(s, e) && s.queues[e.loop][0].User?
    ensures TaskRan(s, Apply(s, e), s.queues[e.loop][0].id)
  {
    var l, id := e.loop, s.queues[e.loop][0].id;
    var rest := s.(queues := s.queues[l := s.queues[l][1..]]);
    assert ConnInv(s, id);
    DequeueIsAbout(s, l);
    UserTaskRuns(rest, id, e.fails);
    AboutThen(s, rest, Apply(s, e), id);
  }

  lemma RunDueTaskIsAbout(s: Server, e: Step)
    requires Inv(s) && e.RunTask? && Enabled(s, e) && !s.queues[e.loop][0].User?
    ensures TaskRan(s, Apply(s, e), s.queues[e.loop][0].id)
  {
    var l, task := e.loop, s.queues[e.loop][0];
    var rest := s.(queues := s.queues[l := s.queues[l][1..]]);
    TaskIsDue(s, l);
    assert ConnInv(s, task.id);
    DequeueIsAbout(s, l);
    assert Due(rest, task.id, 0, 0, 0);
    DueTaskRuns(rest, task, e.fails);
    AboutThen(s, rest, Apply(s, e), task.id);
  }

  lemma AboutKeepsConns(s: Server, t: Server, id: Id)
    requires OnlyAbout(s, t, id) && ConnInv(t, id)
    requires forall x :: x in s.conns && x != id ==> ConnInv(s, x)
    ensures ConnsInv(t)
  {
    forall x | x in t.conns ensures ConnInv(t, x) {
      if x != id { OthersKeepInv(s, t, id, x); }
    }
  }

  lemma AboutKeepsBook(s: Server, t: Server, id: Id)
    requires BookInv(s) && OnlyAbout(s, t, id)
    ensures BookInv(t)
  {
    forall l, x | 0 <= l < |t.queues| && x in t.queues[l] ensures x.id in t.conns {
      assert Times(t.queues[l], x) > 0;
      if x.id != id { assert Times(s.queues[l], x) > 0; assert x in s.queues[l]; }
    }
  }

  lemma AboutKeepsInv(s: Server, t: Server, id: Id)
    requires BookInv(s) && StackInv(s) && PoolInv(s)
    requires OnlyAbout(s, t, id) && ConnInv(t, id) && t.onStack == s.onStack
    requires forall x :: x in s.conns && x != id ==> ConnInv(s, x)
    requires |t.conns[id].log| < 6 || s.conns[id].loop !in s.onStack || |s.conns[id].log| == 6
    ensures Inv(t)
  {
    AboutKeepsConns(s, t, id);
    AboutKeepsBook(s, t, id);
  }

  // ----- the steps -----

  function Accepted(s: Server): Server
    requires Sound(s) && NextLoop(s).0 < |s.queues|
  {
    var (loop, next) := NextLoop(s);
    s.(next := next, nextConnId := s.nextConnId + 1, table := s.table + {s.nextConnId},
       conns := s.conns[s.nextConnId := Connection(loop, Connecting, [])])
  }

  /** Between the table entry and the post or call of connectEstablished. */
  lemma AcceptedIsFresh(s: Server)
    requires Inv(s) && NextLoop(s).0 < |s.queues|
    ensures var t := Accepted(s); var id := s.nextConnId;
            && BookInv(t) && StackInv(t) && PoolInv(t)
            && Due(t, id, 0, 0, 0) && id in t.table
            && forall x :: x in s.conns ==> ConnInv(t, x)
  {
    var t, id := Accepted(s), s.nextConnId;
    forall l, x: Task | 0 <= l < |s.queues| && x.id == id ensures Times(s.queues[l], x) == 0 {
      assert x !in s.queues[l];
    }
    forall x | x in s.conns ensures ConnInv(t, x) { assert ConnInv(s, x); }
    if s.workers > 0 { ThreadPool.NextInTurn(id - 1, s.workers); }
  }

  lemma AcceptKeepsInv(s: Server, e: Step)
    requires Inv(s) && e.Accept? && Enabled(s, e)
    ensures Inv(Apply(s, e))
  {
    var m, t, id := Accepted(s), Apply(s, e), s.nextConnId;
    AcceptedIsFresh(s);
    if NextLoop(s).0 == 0 {
      EstablishedRanIsAbout(m, id, e.fails);
    } else {
      QueueIsAbout(m, NextLoop(s).0, Task.Establish(id));
    }
    AboutKeepsInv(m, t, id);
  }

  lemma EventKeepsInv(s: Server, e: Step)
    requires Inv(s) && Enabled(s, e) && (e.BeginEvent? || e.EndEvent?)
    ensures Inv(Apply(s, e))
  {
    assert ConnInv(s, e.id);
    forall x | x in s.conns ensures ConnInv(Apply(s, e), x) { assert ConnInv(s, x); }
  }

  lemma ApplyKeepsInv(s: Server, e: Step)
    requires Inv(s) && Enabled(s, e)
    ensures Inv(Apply(s, e))
  {
    match e
    case Accept(_) => AcceptKeepsInv(s, e);
    case BeginEvent(_) => EventKeepsInv(s, e);
    case EndEvent(_) => EventKeepsInv(s, e);
    case RunTask(l, _) =>
      if s.queues[l][0].User? { RunUserTaskIsAbout(s, e); } else { RunDueTaskIsAbout(s, e); }
      AboutKeepsInv(s, Apply(s, e), s.queues[l][0].id);
    case CloseInEvent(id) => CloseInEventKeepsInv(s, id);
    case Post(id) => PostKeepsInv(s, id);
    case Shutdown(id) => if s.conns[id].state == Connected { ShutdownKeepsInv(s, id); }
  }

  lemma CloseInEventKeepsInv(s: Server, id: Id)
    requires Inv(s) && Enabled(s, CloseInEvent(id))
    ensures Inv(CloseHandled(s, id))
  {
    assert ConnInv(s, id);
    CloseHandledIsAbout(s, id);
    AboutKeepsInv(s, CloseHandled(s, id), id);
  }

  lemma PostKeepsInv(s: Server, id: Id)
    requires Inv(s) && id in s.conns
    ensures Inv(Queue(s, s.conns[id].loop, User(id)))
  {
    assert ConnInv(s, id);
    QueueIsAbout(s, s.conns[id].loop, User(id));
    AboutKeepsInv(s, Queue(s, s.conns[id].loop, User(id)), id);
  }

  lemma ShutdownKeepsInv(s: Server, id: Id)
    requires Inv(s) && id in s.conns && s.conns[id].state == Connected
    ensures Inv(SetState(s, id, Disconnecting))
  {
    assert ConnInv(s, id);
    AboutKeepsInv(s, SetState(s, id, Disconnecting), id);
  }

  // ----- every run -----

  lemma InitialInv(workers: nat)
    ensures Inv(Initial(workers))
  {}

  lemma {:induction false} RunsKeepInv(s: Server, steps: seq<Step>, t: Server)
    requires Inv(s) && Runs(s, steps, t)
    ensures Inv(t)
    decreases |steps|
  {
    if steps == [] {
    } else {
      ApplyKeepsInv(s, steps[0]);
      RunsKeepInv(Apply(s, steps[0]), steps[1..], t);
    }
  }

  /** Each connection goes through connectEstablished, the up callback, handleClose, the down callback,
      removeConnectionInLoop and connectDestroyed at most once each and in this order; it is in the
      table from its acceptance to its removal; it belongs to the loop whose turn it was. */
  lemma LifecycleInOrder(workers: nat, steps: seq<Step>, s: Server)
    requires Runs(Initial(workers), steps, s)
    ensures forall id :: id in s.conns <==> 1 <= id < s.nextConnId
    ensures forall id :: id in s.conns ==>
              && s.conns[id].log <= ORDER
              && (id in s.table <==> Removed !in s.conns[id].log)
              && s.conns[id].loop == if workers == 0 then 0 else 1 + (id - 1) % workers
  {
    InitialInv(workers);
    RunsKeepInv(Initial(workers), steps, s);
    WorkersFixed(Initial(workers), steps, s);
    forall id | id in s.conns ensures s.conns[id].log <= ORDER && (id in s.table <==> Removed !in s.conns[id].log) {
      assert ConnInv(s, id);
      assert ORDER[4] == Removed;
      if |s.conns[id].log| >= 5 { assert s.conns[id].log[4] == Removed; }
    }
  }

  lemma {:induction false} WorkersFixed(s: Server, steps: seq<Step>, t: Server)
    requires Runs(s, steps, t)
    ensures t.workers == s.workers
    decreases |steps|
  {
    if steps == [] {
    } else {
      WorkersFixed(Apply(s, steps[0]), steps[1..], t);
    }
  }

  /** A closed connection has exactly one life-cycle task left in all queues together, the one that comes
      next, on the loop it must run on; once it is destroyed it has none. */
  lemma ClosedIsOnItsWay(workers: nat, steps: seq<Step>, s: Server, id: Id)
    requires Runs(Initial(workers), steps, s) && id in s.conns && s.conns[id].state == Disconnected
    ensures Sound(s)
    ensures match |s.conns[id].log|
            case 4 => s.conns[id].loop != 0 && Due(s, id, 0, 1, 0)
            case 5 => Due(s, id, 0, 0, 1)
            case 6 => Due(s, id, 0, 0, 0)
            case _ => false
    ensures |s.conns[id].log| == 6 || Remove(id) in s.queues[0] || Destroy(id) in s.queues[s.conns[id].loop]
  {
    InitialInv(workers);
    RunsKeepInv(Initial(workers), steps, s);
    assert ConnInv(s, id);
    if |s.conns[id].log| == 4 { assert Times(s.queues[0], Remove(id)) == 1; }
    if |s.conns[id].log| == 5 { assert Times(s.queues[s.conns[id].loop], Destroy(id)) == 1; }
  }

  /** When a loop is about to run connectDestroyed, that connection is closed, it is this loop's, and
      its handleEvent is on no loop's stack. */
  lemma DestroyedOffStack(workers: nat, steps: seq<Step>, s: Server, l: LoopId, fails: bool)
    requires Runs(Initial(workers), steps, s) && Enabled(s, RunTask(l, fails))
    requires s.queues[l][0].Destroy?
    ensures var id := s.queues[l][0].id;
            && s.conns[id].state == Disconnected && s.conns[id].loop == l
            && forall k :: k in s.onStack ==> s.onStack[k] != id
  {
    InitialInv(workers);
    RunsKeepInv(Initial(workers), steps, s);
    TaskIsDue(s, l);
  }
}
