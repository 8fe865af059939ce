/** The server's connection table, keyed by a formatted name of limited length. */
module TcpServer {
  import opened Text
  import Lifecycle
  import ThreadPool

  type Id = nat

  /** The room snprintf has for characters in a buffer of 64. */
  const NAME_MAX := 63

  /** "<ip:port>-<server>#<number>", cut to the buffer; `prefix` is everything before the '#'. */
  function ConnName(prefix: string, id: Id): (s: string)
    ensures var full := prefix + "#" + Decimal(id); s <= full && |s| == if |full| < 64 then |full| else 63
  {
    var full := prefix + "#" + Decimal(id);
    if |full| <= NAME_MAX then full else full[..NAME_MAX]
  }

  /** The name of connection `id` is not cut. */
  predicate Fits(prefix: string, id: Id) {
    |prefix| + 1 + |Decimal(id)| <= NAME_MAX
  }

  lemma {:induction false} DecimalInjective(i: nat, j: nat)
    requires Decimal(i) == Decimal(j)
    ensures i == j
  {
    assert (i >= 10 <==> |Decimal(i)| >= 2) && (j >= 10 <==> |Decimal(j)| >= 2);
    if i >= 10 {
      var s, t := Decimal(i / 10), Decimal(j / 10);
      assert s == Decimal(i)[..|s|] && t == Decimal(j)[..|t|];
      DecimalInjective(i / 10, j / 10);
      assert Decimal(i)[|s|] == Decimal(j)[|t|];
    } else {
      assert Decimal(i)[0] == Decimal(j)[0];
    }
  }

  lemma {:induction false} DecimalMonotone(i: nat, j: nat)
    requires i <= j
    ensures |Decimal(i)| <= |Decimal(j)|
  {
    if i >= 10 { DecimalMonotone(i / 10, j / 10); }
  }

  /** Cutting digits off a number leaves the digits of a smaller number. */
  lemma {:induction false} DecimalPrefix(n: nat, k: nat) returns (m: nat)
    requires 1 <= k < |Decimal(n)|
    ensures Decimal(m) == Decimal(n)[..k] && 1 <= m < n
  {
    assert n >= 10;
    var s := Decimal(n / 10);
    assert Decimal(n)[..|s|] == s;
    if k == |s| {
      m := n / 10;
    } else {
      m := DecimalPrefix(n / 10, k);
      assert Decimal(n)[..k] == s[..k];
    }
  }

  /** Names identify connections exactly as long as the longest of them still fits. */
  lemma NamesDistinctIff(prefix: string, count: nat)
    requires count >= 2
    ensures (forall i, j :: 1 <= i < j <= count ==> ConnName(prefix, i) != ConnName(prefix, j))
            <==> |prefix + "#" + Decimal(count)| < 64
  {
    if Fits(prefix, count) {
      forall i, j | 1 <= i < j <= count ensures ConnName(prefix, i) != ConnName(prefix, j) {
        FittingNamesDiffer(prefix, i, j, count);
      }
    } else {
      var i, j := CutNamesCollide(prefix, count);
    }
  }

  lemma FittingNamesDiffer(prefix: string, i: Id, j: Id, count: nat)
    requires i != j && i <= count && j <= count && Fits(prefix, count)
    ensures ConnName(prefix, i) != ConnName(prefix, j)
  {
    DecimalMonotone(i, count);
    DecimalMonotone(j, count);
    var head := prefix + "#";
    if ConnName(prefix, i) == ConnName(prefix, j) {
      assert (head + Decimal(i))[|head|..] == Decimal(i);
      assert (head + Decimal(j))[|head|..] == Decimal(j);
      DecimalInjective(i, j);
    }
  }

  lemma CutNamesCollide(prefix: string, count: nat) returns (i: Id, j: Id)
    requires count >= 2 && !Fits(prefix, count)
    ensures 1 <= i < j <= count && ConnName(prefix, i) == ConnName(prefix, j)
  {
    var head := prefix + "#";
    if |head| >= NAME_MAX {
      assert ConnName(prefix, 1) == head[..NAME_MAX] == ConnName(prefix, 2);
      return 1, 2;
    }
    var k := NAME_MAX - |head|;
    i := DecimalPrefix(count, k);
    j := count;
    assert (head + Decimal(count))[..NAME_MAX] == head + Decimal(count)[..k];
  }

  /** A functor for a loop: runInLoop runs it at once on its own thread and queues it on any other,
      queueInLoop always queues it. */
  datatype Post = RunIn(loop: ThreadPool.LoopId, task: Lifecycle.Task) | QueueIn(loop: ThreadPool.LoopId, task: Lifecycle.Task)

  class TcpServer {
    const prefix: string
    const threadPool: ThreadPool.EventLoopThreadPool
    var nextConnId: Id
    var connections: map<string, Id>
    var loopOf: map<Id, ThreadPool.LoopId>   // TcpConnection::getLoop

    /** Every entry is a connection that has been accepted, under its own name. */
    ghost predicate Valid()
      reads this, threadPool
    {
      && nextConnId >= 1
      && threadPool.Valid() && threadPool.started
      && (forall id :: id in loopOf <==> 1 <= id < nextConnId)
      && forall name :: name in connections ==>
           1 <= connections[name] < nextConnId && name == ConnName(prefix, connections[name])
    }

    constructor (prefix: string, threadPool: ThreadPool.EventLoopThreadPool)
      requires threadPool.Valid() && threadPool.started
      ensures Valid() && connections == map[] && nextConnId == 1
      ensures this.prefix == prefix && this.threadPool == threadPool
    {
      this.prefix, this.threadPool := prefix, threadPool;
      nextConnId, connections, loopOf := 1, map[], map[];
    }

    /** The new connection is entered under its name, belongs to the loop whose turn it is, and is to be
        established there; it displaces none of the others as long as its name fits. */
    method NewConnection() returns (name: string, establish: Post)
      requires Valid()
      modifies this, threadPool`next
      ensures Valid() && nextConnId == old(nextConnId) + 1
      ensures name == ConnName(prefix, old(nextConnId))
      ensures connections == old(connections)[name := old(nextConnId)]
      ensures Fits(prefix, old(nextConnId)) ==> name !in old(connections)
      ensures var ioLoop := if threadPool.loops == [] then threadPool.baseLoop else threadPool.loops[old(threadPool.next)];
              && establish == RunIn(ioLoop, Lifecycle.Task.Establish(old(nextConnId)))
              && loopOf == old(loopOf)[old(nextConnId) := ioLoop]
    {
      var ioLoop := threadPool.GetNextLoop();
      name := ConnName(prefix, nextConnId);
      forall other | other in connections && Fits(prefix, nextConnId) ensures other != name {
        FittingNamesDiffer(prefix, connections[other], nextConnId, nextConnId);
      }
      connections := connections[name := nextConnId];
      loopOf := loopOf[nextConnId := ioLoop];
      establish := RunIn(ioLoop, Lifecycle.Task.Establish(nextConnId));
      nextConnId := nextConnId + 1;
    }

    /** The connection leaves the table, and only it; its destruction is queued on its own loop, never run
        at once. */
    method RemoveConnectionInLoop(id: Id) returns (destroy: Post)
      requires Valid()
      requires id in loopOf && ConnName(prefix, id) in connections
      modifies this`connections
      ensures Valid()
      ensures connections == old(connections) - {ConnName(prefix, id)}
      ensures destroy == QueueIn(loopOf[id], Lifecycle.Destroy(id))
    {
      connections := connections - {ConnName(prefix, id)};
      destroy := QueueIn(loopOf[id], Lifecycle.Destroy(id));
    }
  }
}
