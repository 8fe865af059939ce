/** The timer queue object. Its methods are runs of TimerProtocol. */
module TimerQueue {
  import opened Text
  import opened TimerProtocol

  /** What a timer callback does to its own queue. A command that does not make sense at the moment,
      such as cancelling through a dangling handle, is passed over. */
  datatype Command =
    | AddCommand(timer: Ptr, when: int, interval: real, others: nat, clock: int)
    | CancelCommand(id: TimerId)

  /** The batch in flight, its timers and the firings are as they were. */
  ghost predicate SameBatch(q: Queue, r: Queue) {
    && r.handling == q.handling && r.batch == q.batch && r.fired == q.fired && r.ran == q.ran && r.now == q.now
    && forall e :: e in q.batch && e.timer in q.heap ==> e.timer in r.heap && r.heap[e.timer] == q.heap[e.timer]
  }

  /** The firings of a batch, in its order. */
  function Firings(batch: seq<Entry>, heap: map<Ptr, Timer>, now: int): seq<Firing>
    requires forall e :: e in batch ==> e.timer in heap
  {
    seq(|batch|, i requires 0 <= i < |batch| =>
      var t := heap[batch[i].timer]; Firing(t.sequence, t.interval, batch[i].when, now))
  }

  /** The timers of these entries are what they were. */
  ghost predicate TimersKept(es: seq<Entry>, was: map<Ptr, Timer>, heap: map<Ptr, Timer>) {
    forall e :: e in es ==> e.timer in was && e.timer in heap && heap[e.timer] == was[e.timer]
  }

  lemma KeptThen(es: seq<Entry>, a: map<Ptr, Timer>, b: map<Ptr, Timer>, c: map<Ptr, Timer>)
    requires TimersKept(es, a, b)
    requires forall e :: e in es && e.timer in b ==> e.timer in c && c[e.timer] == b[e.timer]
    ensures TimersKept(es, a, c)
  {}

  lemma FiringsNext(es: seq<Entry>, was: map<Ptr, Timer>, heap: map<Ptr, Timer>, now: int, i: nat)
    requires TimersKept(es, was, heap) && i < |es|
    ensures es[i] in es && es[i].timer in heap
    ensures var t := heap[es[i].timer];
            Firings(es, was, now)[..i + 1] == Firings(es, was, now)[..i] + [Firing(t.sequence, t.interval, es[i].when, now)]
  {
    assert es[i] in es;
  }

  /** A repeating timer is back in the set, due an interval after `now`; a one-shot timer is gone. */
  ghost predicate DealtWith(e: Entry, t: Timer, now: int, heap: map<Ptr, Timer>, timers: seq<Entry>) {
    if t.interval > 0.0 then
      && e.timer in heap && heap[e.timer] == t.(expiration := heap[e.timer].expiration)
      && IntervalAfter(heap[e.timer].expiration, now, t.interval)
      && Entry(heap[e.timer].expiration, e.timer) in timers
    else e.timer !in heap
  }

  /** reset() has dealt with the first i entries and has not touched the others. */
  ghost predicate ResetUpTo(es: seq<Entry>, i: nat, was: map<Ptr, Timer>, now: int,
                            heap: map<Ptr, Timer>, timers: seq<Entry>) {
    && (forall k :: 0 <= k < |es| ==> es[k].timer in was)
    && (forall k :: 0 <= k < |es| && k < i ==> DealtWith(es[k], was[es[k].timer], now, heap, timers))
    && (forall k :: i <= k < |es| ==> es[k].timer in heap && heap[es[k].timer] == was[es[k].timer])
  }

  lemma ResetOneMore(es: seq<Entry>, i: nat, was: map<Ptr, Timer>, now: int,
                     heap: map<Ptr, Timer>, timers: seq<Entry>, heap': map<Ptr, Timer>, timers': seq<Entry>)
    requires i < |es| && ResetUpTo(es, i, was, now, heap, timers)
    requires forall k :: 0 <= k < |es| && k != i ==> es[k].timer != es[i].timer
    requires DealtWith(es[i], heap[es[i].timer], now, heap', timers')
    requires forall e :: e in timers ==> e in timers'
    requires forall p :: p != es[i].timer ==> (p in heap' <==> p in heap) && (p in heap' ==> heap'[p] == heap[p])
    ensures ResetUpTo(es, i + 1, was, now, heap', timers')
  {}

  /** No timer is in the batch twice. */
  lemma DistinctTimers(q: Queue)
    requires PlaceInv(q)
    ensures forall i, k :: 0 <= i < |q.batch| && 0 <= k < |q.batch| && i != k ==> q.batch[i].timer != q.batch[k].timer
  {
    forall i, k | 0 <= i < |q.batch| && 0 <= k < |q.batch| && i != k ensures q.batch[i].timer != q.batch[k].timer {
      assert q.batch[i] in q.batch && q.batch[k] in q.batch;
      assert Keyed(q, q.batch[i]) && Keyed(q, q.batch[k]);
      assert Less(q.batch[i], q.batch[k]) || Less(q.batch[k], q.batch[i]);
    }
  }

  /** One entry of reset(), as a step of the protocol. */
  lemma ResetOneEffect(q: Queue)
    requires Enabled(q, ResetOne)
    ensures var r, e := Apply(q, ResetOne), q.batch[0];
            && DealtWith(e, q.heap[e.timer], q.now, r.heap, r.timers)
            && (forall x :: x in q.timers ==> x in r.timers)
            && forall p :: p != e.timer ==> (p in r.heap <==> p in q.heap) && (p in r.heap ==> r.heap[p] == q.heap[p])
  {
    var p := q.batch[0].timer;
    if q.heap[p].Repeat() {
      AddTimeIs(q.now, q.heap[p].interval);
      InsertedIn(q.timers, Entry(AddTime(q.now, q.heap[p].interval), p));
    }
  }

  lemma DueEntries(q: Queue, now: int)
    requires PlaceInv(q)
    ensures Sorted(q.timers) && forall e :: e in q.timers ==> e.timer < PTR_MAX
    ensures var due := q.timers[..LowerBound(q.timers, Entry(now, PTR_MAX))];
            && Sorted(due)
            && (forall e :: e in due <==> e in q.timers && e.when <= now)
            && (forall e :: e in due ==> e.timer in q.heap)
  {
    assert forall e :: e in q.timers ==> Keyed(q, e);
    SplitExpired(q.timers, now);
  }

  class TimerQueue {
    var timers: seq<Entry>               // std::set<Entry>
    var heap: map<Ptr, Timer>
    var timerfd: Option<int>             // its deadline
    var callingExpiredTimers: bool
    var numCreated: nat                  // Timer::s_numCreated_
    ghost var model: Queue

    ghost predicate Valid()
      reads this
    {
      && model.timers == timers && model.heap == heap && model.armed == timerfd && model.numCreated == numCreated
      && PlaceInv(model)
      && (callingExpiredTimers ==> model.handling)
    }

    constructor ()
      ensures Valid() && model == INITIAL
    {
      timers, heap, timerfd, callingExpiredTimers, numCreated := [], map[], None, false, 0;
      model := INITIAL;
    }

    ghost method Did(e: Step, s: Queue, steps: seq<Step>) returns (more: seq<Step>)
      requires PlaceInv(model) && Enabled(model, e) && Runs(s, steps, model)
      modifies this`model
      ensures model == Apply(old(model), e) && PlaceInv(model)
      ensures more == steps + [e] && Runs(s, more, model)
    {
      ApplyKeepsPlaces(model, e);
      assert Runs(Apply(model, e), [], Apply(model, e));
      more := RunsCons(model, e, [], Apply(model, e));
      assert more == [e];
      RunsThen(s, steps, model, more, Apply(model, e));
      model := Apply(model, e);
      more := steps + [e];
    }

    method ResetTimerfd(expiration: int, clock: int)
      modifies this`timerfd
      ensures timerfd == Some(Deadline(expiration, clock))
    {
      var ts := HowMuchTimeFromNow(expiration, clock);
      timerfd := Some(clock + ts.0 * MICROS_PER_SECOND + ts.1 / 1000);
    }

    method Insert(timer: Ptr) returns (earliestChanged: bool)
      requires timer in heap
      modifies this`timers
      ensures timers == Inserted(old(timers), Entry(heap[timer].expiration, timer))
      ensures earliestChanged <==> old(timers) == [] || heap[timer].expiration < old(timers)[0].when
    {
      var when := heap[timer].expiration;
      earliestChanged := timers == [] || when < timers[0].when;
      timers := Inserted(timers, Entry(when, timer));
    }

    /** addTimer, as far as the post to the loop. Other queues have created `others` timers since the last
        one of this queue. */
    method NewTimer(timer: Ptr, when: int, interval: real, others: nat) returns (id: TimerId, ghost steps: seq<Step>)
      requires Valid()
      requires timer !in heap && timer < PTR_MAX
      modifies this
      ensures Valid() && Runs(old(model), steps, model)
      ensures model == Apply(old(model), Create(timer, when, interval, others))
      ensures SameBatch(old(model), model)
      ensures id == TimerId(Some(timer), numCreated) && heap[timer].sequence == numCreated > old(numCreated)
      ensures callingExpiredTimers == old(callingExpiredTimers)
    {
      assert Runs(model, [], model);
      numCreated := numCreated + others + 1;
      heap := heap[timer := Timer(when, interval, numCreated)];
      BatchUntouched(model, Create(timer, when, interval, others));
      steps := Did(Create(timer, when, interval, others), old(model), []);
      id := TimerId(Some(timer), numCreated);
    }

    method AddTimerInLoop(timer: Ptr, clock: int) returns (ghost steps: seq<Step>)
      requires Valid()
      requires timer in model.transit && clock > 0
      modifies this
      ensures Valid() && Runs(old(model), steps, model)
      ensures model == Apply(old(model), Add(timer, clock))
      ensures SameBatch(old(model), model)
      ensures callingExpiredTimers == old(callingExpiredTimers)
    {
      assert Runs(model, [], model);
      var earliestChanged := Insert(timer);
      if earliestChanged {
        ResetTimerfd(heap[timer].expiration, clock);
      }
      BatchUntouched(model, Add(timer, clock));
      steps := Did(Add(timer, clock), old(model), []);
    }

    method CancelInLoop(id: TimerId) returns (ghost steps: seq<Step>)
      requires Valid()
      requires id.timer.Some? ==> id.timer.value in heap
      modifies this
      ensures Valid() && Runs(old(model), steps, model)
      ensures model == Apply(old(model), Cancel(id))
      ensures SameBatch(old(model), model)
      ensures callingExpiredTimers == old(callingExpiredTimers)
    {
      assert Runs(model, [], model);
      if id.timer.Some? {
        var entry := Entry(heap[id.timer.value].expiration, id.timer.value);
        if entry in timers {
          timers := Erased(timers, entry);
          heap := heap - {entry.timer};
        }
      }
      BatchUntouched(model, Cancel(id));
      steps := Did(Cancel(id), old(model), []);
    }

    /** The entries that are due leave the set, in order. */
    method GetExpired(now: int) returns (expired: seq<Entry>)
      requires Sorted(timers) && forall e :: e in timers ==> e.timer < PTR_MAX
      modifies this`timers
      ensures forall e :: e in expired ==> e.when <= now
      ensures forall e :: e in timers ==> now < e.when
      ensures var n := LowerBound(old(timers), Entry(now, PTR_MAX));
              expired == old(timers)[..n] && timers == old(timers)[n..]
    {
      var sentry := Entry(now, PTR_MAX);
      var end := LowerBound(timers, sentry);
      SplitExpired(timers, now);
      assert end == |timers| || now < timers[end].when by { if end < |timers| { assert timers[end] in timers[end..]; } }
      expired := timers[..end];
      timers := timers[end..];
    }

    /** One callback. */
    method RunCallback(commands: seq<Command>) returns (ghost steps: seq<Step>)
      requires Valid() && model.handling
      modifies this
      ensures Valid() && Runs(old(model), steps, model)
      ensures SameBatch(old(model), model)
      ensures callingExpiredTimers == old(callingExpiredTimers)
    {
      hide PlaceInv;
      steps := [];
      for i := 0 to |commands|
        invariant Valid() && Runs(old(model), steps, model)
        invariant SameBatch(old(model), model)
        invariant callingExpiredTimers == old(callingExpiredTimers)
      {
        ghost var before := model;
        ghost var more: seq<Step> := [];
        match commands[i] {
          case AddCommand(timer, when, interval, others, clock) =>
            if timer !in heap && timer < PTR_MAX && clock > 0 {
              var id;
              id, more := NewTimer(timer, when, interval, others);
              ghost var mid := model;
              ghost var rest := AddTimerInLoop(timer, clock);
              RunsThen(before, more, mid, rest, model);
              more := more + rest;
            }
          case CancelCommand(id) =>
            if id.timer.None? || id.timer.value in heap {
              more := CancelInLoop(id);
            }
        }
        RunsThen(old(model), steps, before, more, model);
        steps := steps + more;
      }
    }

    /** Timer::restart: a repeating timer is due an interval after `now`, any other has no expiration. */
    method Restart(timer: Ptr, now: int)
      requires timer in heap
      modifies this`heap
      ensures var t := old(heap[timer]);
              && heap == old(heap)[timer := t.(expiration := if t.Repeat() then AddTime(now, t.interval) else INVALID)]
              && (if t.interval > 0.0 then IntervalAfter(heap[timer].expiration, now, t.interval)
                  else heap[timer].expiration == 0)
    {
      var t := heap[timer];
      if t.Repeat() {
        AddTimeIs(now, t.interval);
        heap := heap[timer := t.(expiration := AddTime(now, t.interval))];
      } else {
        heap := heap[timer := t.(expiration := INVALID)];
      }
    }

    /** The part of reset() for one entry. */
    method ResetEntry(entry: Entry, now: int) returns (ghost steps: seq<Step>)
      requires Valid() && model.handling && now == model.now
      requires model.batch != [] && model.fired == |model.batch| && model.batch[0] == entry && entry.timer in heap
      modifies this
      ensures Valid() && Runs(old(model), steps, model)
      ensures model.handling && model.now == now && model.batch == old(model.batch)[1..] && model.fired == |model.batch|
      ensures DealtWith(entry, old(heap)[entry.timer], now, heap, timers)
      ensures forall e :: e in old(timers) ==> e in timers
      ensures forall p :: p != entry.timer ==> (p in heap <==> p in old(heap)) && (p in heap ==> heap[p] == old(heap)[p])
      ensures model.ran == old(model.ran) && callingExpiredTimers == old(callingExpiredTimers)
    {
      hide PlaceInv, DealtWith, IntervalAfter;
      ResetOneEffect(model);
      assert Runs(model, [], model);
      var timer := entry.timer;
      if heap[timer].Repeat() {
        Restart(timer, now);
        var earliestChanged := Insert(timer);
      } else {
        heap := heap - {timer};
      }
      steps := Did(ResetOne, old(model), []);
    }

    /** The loop of reset(): re-inserts the repeating timers, deletes the others. */
    method ResetEntries(expired: seq<Entry>, now: int) returns (ghost steps: seq<Step>)
      requires Valid() && model.handling && now == model.now && !callingExpiredTimers
      requires model.batch == expired && model.fired == |expired|
      requires forall e :: e in expired ==> e.timer in heap
      modifies this
      ensures Valid() && Runs(old(model), steps, model)
      ensures model.handling && model.batch == [] && model.ran == old(model.ran) && !callingExpiredTimers
      ensures forall e :: e in expired ==> DealtWith(e, old(heap)[e.timer], now, heap, timers)
    {
      DistinctTimers(model);
      steps := [];
      for i := 0 to |expired|
        invariant Valid() && model.handling && model.now == now && Runs(old(model), steps, model)
        invariant !callingExpiredTimers && model.ran == old(model.ran)
        invariant model.batch == expired[i..] && model.fired == |expired| - i
        invariant ResetUpTo(expired, i, old(heap), now, heap, timers)
      {
        ghost var before := model;
        ghost var more := ResetEntry(expired[i], now);
        ResetOneMore(expired, i, old(heap), now, before.heap, before.timers, heap, timers);
        RunsThen(old(model), steps, before, more, model);
        steps := steps + more;
      }
    }

    /** Re-inserts the repeating timers, deletes the others, and arms the timerfd again. */
    method Reset(expired: seq<Entry>, now: int, clock: int) returns (ghost steps: seq<Step>)
      requires Valid() && model.handling && now == model.now && !callingExpiredTimers
      requires model.batch == expired && model.fired == |expired| && clock > 0
      requires forall e :: e in expired ==> e.timer in heap
      modifies this
      ensures Valid() && Runs(old(model), steps, model) && !model.handling
      ensures forall e :: e in expired ==> DealtWith(e, old(heap)[e.timer], now, heap, timers)
      ensures model.ran == old(model.ran)
    {
      steps := ResetEntries(expired, now);
      if timers != [] {
        assert timers[0] in timers && Keyed(model, timers[0]);
        var nextExpire := heap[timers[0].timer].expiration;
        if nextExpire > 0 {
          ResetTimerfd(nextExpire, clock);
        }
      }
      steps := Did(End(clock), old(model), steps);
    }

    /** One entry of the batch: its callback, with what that does to the queue. */
    method RunEntry(entry: Entry, commands: nat -> seq<Command>) returns (ghost steps: seq<Step>)
      requires Valid() && model.handling && entry.timer in heap
      requires model.fired < |model.batch| && model.batch[model.fired] == entry
      modifies this
      ensures Valid() && Runs(old(model), steps, model)
      ensures model.handling && model.batch == old(model.batch) && model.now == old(model.now)
      ensures model.fired == old(model.fired) + 1
      ensures var t := old(heap)[entry.timer];
              model.ran == old(model.ran) + [Firing(t.sequence, t.interval, entry.when, model.now)]
      ensures forall e :: e in model.batch && e.timer in old(heap) ==> e.timer in heap && heap[e.timer] == old(heap)[e.timer]
      ensures callingExpiredTimers == old(callingExpiredTimers)
    {
      assert Runs(model, [], model);
      var sequence := heap[entry.timer].sequence;
      steps := Did(Fire, old(model), []);
      ghost var before := model;
      ghost var more := RunCallback(commands(sequence));
      RunsThen(old(model), steps, before, more, model);
      steps := steps + more;
    }

    /** Runs the callbacks of the expired entries, in order. */
    method RunExpired(expired: seq<Entry>, commands: nat -> seq<Command>) returns (ghost steps: seq<Step>)
      requires Valid() && model.handling && model.batch == expired && model.fired == 0
      requires forall e :: e in expired ==> e.timer in heap
      modifies this
      ensures Valid() && Runs(old(model), steps, model)
      ensures model.handling && model.batch == expired && model.fired == |expired| && model.now == old(model.now)
      ensures model.ran == old(model.ran) + Firings(expired, old(heap), model.now)
      ensures forall e :: e in expired ==> e.timer in heap && heap[e.timer] == old(heap)[e.timer]
      ensures !callingExpiredTimers
    {
      hide PlaceInv;
      callingExpiredTimers := true;
      steps := [];
      ghost var was, due := heap, Firings(expired, heap, model.now);
      for i := 0 to |expired|
        invariant Valid() && Runs(old(model), steps, model)
        invariant model.handling && model.batch == expired && model.fired == i && model.now == old(model.now)
        invariant model.ran == old(model.ran) + due[..i]
        invariant TimersKept(expired, was, heap)
      {
        FiringsNext(expired, was, heap, model.now, i);
        ghost var before, kept := model, heap;
        ghost var more := RunEntry(expired[i], commands);
        KeptThen(expired, was, kept, heap);
        RunsThen(old(model), steps, before, more, model);
        steps := steps + more;
      }
      assert due[..|expired|] == due;
      callingExpiredTimers := false;
    }

    /** readTimerfd and getExpired: the due entries become the batch. */
    method TakeExpired(now: int) returns (expired: seq<Entry>, ghost steps: seq<Step>)
      requires Valid() && !model.handling && now > 0
      modifies this
      ensures Valid() && Runs(old(model), steps, model) && model == Apply(old(model), Begin(now))
      ensures expired == model.batch && heap == old(heap)
      ensures Sorted(expired) && forall e :: e in expired <==> e in old(timers) && e.when <= now
      ensures forall e :: e in expired ==> e.timer in heap
    {
      assert Runs(model, [], model);
      DueEntries(model, now);
      if timerfd.Some? && timerfd.value <= now { timerfd := None; }
      expired := GetExpired(now);
      steps := Did(Begin(now), old(model), []);
    }

    /** The timerfd is readable: runs every timer that is due, and only those, in order; afterwards
        each of them is in the set again or gone. `commands` is what the callbacks do, by timer. */
    method HandleRead(now: int, commands: nat -> seq<Command>, clock: int)
      returns (expired: seq<Entry>, ghost steps: seq<Step>)
      requires Valid() && !model.handling
      requires now > 0 && clock > 0
      modifies this
      ensures Valid() && Runs(old(model), steps, model) && !model.handling
      ensures Sorted(expired) && forall e :: e in expired <==> e in old(timers) && e.when <= now
      ensures forall e :: e in expired ==> e.timer in old(heap) && DealtWith(e, old(heap)[e.timer], now, heap, timers)
      ensures (forall e :: e in expired ==> e.timer in old(heap)) &&
              model.ran == old(model.ran) + Firings(expired, old(heap), now)
    {
      expired, steps := TakeExpired(now);
      ghost var before := model;
      ghost var more := RunExpired(expired, commands);
      RunsThen(old(model), steps, before, more, model);
      steps := steps + more;
      before := model;
      more := Reset(expired, now, clock);
      RunsThen(old(model), steps, before, more, model);
      steps := steps + more;
    }
  }
}
