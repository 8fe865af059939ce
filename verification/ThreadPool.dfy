/** Round-robin assignment of connections to the loops of the pool. */
module ThreadPool {

  type LoopId = nat

  class EventLoopThreadPool {
    const baseLoop: LoopId
    var loops: seq<LoopId>
    var started: bool
    var next: nat

    ghost predicate Valid()
      reads this
    {
      if loops == [] then next == 0 else next < |loops|
    }

    constructor (baseLoop: LoopId)
      ensures Valid() && !started && loops == [] && this.baseLoop == baseLoop
    {
      this.baseLoop := baseLoop;
      loops, started, next := [], false, 0;
    }

    /** `threads` are the loops of the threads that are started, in order. */
    method Start(threads: seq<LoopId>)
      requires Valid() && !started && loops == []
      modifies this
      ensures Valid() && started && loops == threads && next == 0
    {
      started := true;
      for i := 0 to |threads|
        invariant Valid() && started && loops == threads[..i] && next == 0
      {
        loops := loops + [threads[i]];
      }
    }

    method GetNextLoop() returns (loop: LoopId)
      requires Valid() && started
      modifies this`next
      ensures Valid()
      ensures loops == [] ==> loop == baseLoop && next == old(next)
      ensures loops != [] ==> loop == loops[old(next)] && next == Successor(|loops|, old(next))
    {
      loop := baseLoop;
      if loops != [] {
        loop := loops[next];
        next := next + 1;
        if next >= |loops| {
          next := 0;
        }
      }
    }
  }

  function Successor(n: nat, next: nat): nat {
    if next + 1 >= n then 0 else next + 1
  }

  /** The positions that k calls return, starting from `next`. */
  function Turns(n: nat, next: nat, k: nat): (s: seq<nat>)
    ensures |s| == k
    decreases k
  {
    if k == 0 then [] else [next] + Turns(n, Successor(n, next), k - 1)
  }

  function Count(s: seq<nat>, i: nat): nat {
    if s == [] then 0 else (if s[0] == i then 1 else 0) + Count(s[1..], i)
  }

  // ----- the k-th call -----

  lemma {:induction false} AtLeast(x: nat, n: nat)
    requires x > 0
    ensures x * n >= n
  {
    if x > 1 {
      AtLeast(x - 1, n);
      assert x * n == (x - 1) * n + n;
    }
  }

  lemma SmallMultipleIsZero(d: int, n: int)
    requires n > 0 && -n < d * n < n
    ensures d == 0
  {
    assert (-d) * n == -(d * n);
    if d > 0 { AtLeast(d, n); }
    if d < 0 { AtLeast(-d, n); }
  }

  lemma RemainderIs(x: nat, q: nat, r: nat, n: nat)
    requires n > 0 && r < n && x == q * n + r
    ensures x % n == r
  {
    var q', r' := x / n, x % n;
    assert x == n * q' + r';
    assert (q - q') * n == r' - r;
    SmallMultipleIsZero(q - q', n);
  }

  lemma NextInTurn(k: nat, n: nat)
    requires n > 0
    ensures (k + 1) % n == Successor(n, k % n)
  {
    var q, r := k / n, k % n;
    assert k == n * q + r;
    if r + 1 >= n {
      assert k + 1 == (q + 1) * n + 0;
      RemainderIs(k + 1, q + 1, 0, n);
    } else {
      RemainderIs(k + 1, q, r + 1, n);
    }
  }

  /** Call number k, counted from `start` calls after the pool was started, returns position
      (start + k) mod n. */
  lemma {:induction false} KthTurn(n: nat, start: nat, count: nat, k: nat)
    requires n > 0 && k < count
    ensures Turns(n, start % n, count)[k] == (start + k) % n
    decreases k
  {
    if k > 0 {
      NextInTurn(start, n);
      KthTurn(n, start + 1, count - 1, k - 1);
    }
  }

  // ----- fairness -----

  /** How many of the numbers d, d + n, d + 2n, ... are below k. */
  function Share(n: nat, k: int, d: nat): nat
    requires n > 0
    decreases if k < 0 then 0 else k
  {
    if k <= d then 0 else 1 + Share(n, k - n, d)
  }

  lemma {:induction false} ShareShift(n: nat, k: int, d: nat)
    requires n > 0
    ensures Share(n, k + 1, d + 1) == Share(n, k, d)
    decreases if k < 0 then 0 else k
  {
    if k > d { ShareShift(n, k - n, d); }
  }

  lemma {:induction false} ShareWrap(n: nat, k: int)
    requires n > 0
    ensures Share(n, k, n) == Share(n, k - n, 0)
    decreases if k < 0 then 0 else k
  {
    if k > n { ShareWrap(n, k - n); }
  }

  lemma {:induction false} SharesClose(n: nat, k: int, d: nat, e: nat)
    requires d <= e < n
    ensures Share(n, k, e) <= Share(n, k, d) <= Share(n, k, e) + 1
    decreases if k < 0 then 0 else k
  {
    if k > e { SharesClose(n, k - n, d, e); }
  }

  function Distance(n: nat, next: nat, i: nat): nat
    requires next < n && i < n
  {
    if i >= next then i - next else i + n - next
  }

  lemma {:induction false} CountIsShare(n: nat, next: nat, k: nat, i: nat)
    requires next < n && i < n
    ensures Count(Turns(n, next, k), i) == Share(n, k, Distance(n, next, i))
    decreases k
  {
    if k > 0 {
      var after := Successor(n, next);
      CountIsShare(n, after, k - 1, i);
      assert Turns(n, next, k)[1..] == Turns(n, after, k - 1);
      var d := Distance(n, after, i);
      if i == next {
        assert d == n - 1;
        ShareShift(n, k - 1, n - 1);
        ShareWrap(n, k);
      } else {
        ShareShift(n, k - 1, d);
      }
    }
  }

  /** From any position and over any number of calls, two loops are chosen equally often, give or
      take one. */
  lemma Fair(n: nat, next: nat, k: nat, i: nat, j: nat)
    requires next < n && i < n && j < n
    ensures Count(Turns(n, next, k), i) <= Count(Turns(n, next, k), j) + 1
  {
    CountIsShare(n, next, k, i);
    CountIsShare(n, next, k, j);
    var d, e := Distance(n, next, i), Distance(n, next, j);
    if d <= e { SharesClose(n, k, d, e); } else { SharesClose(n, k, e, d); }
  }

  // ----- on the pool itself -----

  predicate Distinct(loops: seq<LoopId>) { forall i, j :: 0 <= i < j < |loops| ==> loops[i] != loops[j] }

  /** Counting a loop among those chosen is counting its position among the turns. */
  lemma {:induction false} CountOfLoop(loops: seq<LoopId>, turns: seq<nat>, chosen: seq<LoopId>, i: nat)
    requires Distinct(loops) && i < |loops| && |chosen| == |turns|
    requires forall k :: 0 <= k < |turns| ==> turns[k] < |loops| && chosen[k] == loops[turns[k]]
    ensures Count(chosen, loops[i]) == Count(turns, i)
  {
    if turns == [] {
    } else {
      CountOfLoop(loops, turns[1..], chosen[1..], i);
    }
  }

  lemma ChosenFairly(loops: seq<LoopId>, next: nat, chosen: seq<LoopId>)
    requires Distinct(loops) && next < |loops|
    requires forall k :: 0 <= k < |chosen| ==> chosen[k] == loops[(next + k) % |loops|]
    ensures forall i, j :: 0 <= i < |loops| && 0 <= j < |loops| ==>
              Count(chosen, loops[i]) <= Count(chosen, loops[j]) + 1
  {
    var turns := Turns(|loops|, next, |chosen|);
    forall k | 0 <= k < |turns| ensures turns[k] == (next + k) % |loops| < |loops| {
      RemainderIs(next, 0, next, |loops|);
      KthTurn(|loops|, next, |chosen|, k);
    }
    forall i, j | 0 <= i < |loops| && 0 <= j < |loops| ensures Count(chosen, loops[i]) <= Count(chosen, loops[j]) + 1 {
      CountOfLoop(loops, turns, chosen, i);
      CountOfLoop(loops, turns, chosen, j);
      Fair(|loops|, next, |chosen|, i, j);
    }
  }

  /** k calls in a row: the i-th returns loops_[(next_ + i) mod n], and any two loops of the pool are chosen
      equally often, give or take one. */
  method NextLoops(pool: EventLoopThreadPool, k: nat) returns (chosen: seq<LoopId>)
    requires pool.Valid() && pool.started
    modifies pool`next
    ensures pool.Valid() && |chosen| == k
    ensures pool.loops == [] ==> forall i :: 0 <= i < k ==> chosen[i] == pool.baseLoop
    ensures pool.loops != [] ==> pool.next == (old(pool.next) + k) % |pool.loops|
    ensures pool.loops != [] ==>
              forall i :: 0 <= i < k ==> chosen[i] == pool.loops[(old(pool.next) + i) % |pool.loops|]
    ensures Distinct(pool.loops) ==>
              forall i, j :: 0 <= i < |pool.loops| && 0 <= j < |pool.loops| ==>
                Count(chosen, pool.loops[i]) <= Count(chosen, pool.loops[j]) + 1
  {
    chosen := [];
    for i := 0 to k
      invariant pool.Valid() && |chosen| == i
      invariant pool.loops == [] ==> forall j :: 0 <= j < i ==> chosen[j] == pool.baseLoop
      invariant pool.loops != [] ==> pool.next == (old(pool.next) + i) % |pool.loops|
      invariant pool.loops != [] ==>
                  forall j :: 0 <= j < i ==> chosen[j] == pool.loops[(old(pool.next) + j) % |pool.loops|]
    {
      if pool.loops != [] { NextInTurn(old(pool.next) + i, |pool.loops|); }
      var loop := pool.GetNextLoop();
      chosen := chosen + [loop];
    }
    if pool.loops != [] && Distinct(pool.loops) { ChosenFairly(pool.loops, old(pool.next), chosen); }
  }
}
