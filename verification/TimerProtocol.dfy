/** The timer queue as a state machine: an ordered set of entries, timers on the heap, one batch in
    flight, and a timerfd. Times are microseconds; one clock drives everything, and it reads a
    positive time (after the epoch). */
module TimerProtocol {
  import opened Text

  /** The address of a timer. */
  type Ptr = nat
  const PTR_MAX: nat := 0xffff_ffff_ffff_ffff

  const MICROS_PER_SECOND: int := 1000000
  const MIN_DELAY: int := 100
  const INVALID: int := 0

  datatype Timer = Timer(expiration: int, interval: real, sequence: nat) {
    predicate Repeat() { interval > 0.0 }
  }

  /** A handle: the address, or none, and the sequence number the timer had. */
  datatype TimerId = TimerId(timer: Option<Ptr>, sequence: nat)

  datatype Entry = Entry(when: int, timer: Ptr)

  function AddTime(t: int, seconds: real): int
    requires seconds > 0.0
  {
    t + (seconds * 1000000.0).Floor
  }

  /** `later` is an interval after `now`, to the microsecond below. */
  predicate IntervalAfter(later: int, now: int, seconds: real) {
    (later - now) as real <= seconds * 1000000.0 < (later - now + 1) as real
  }

  lemma AddTimeIs(t: int, seconds: real)
    requires seconds > 0.0
    ensures IntervalAfter(AddTime(t, seconds), t, seconds)
  {}

  // ----- the ordered set -----

  predicate Less(a: Entry, b: Entry) { a.when < b.when || (a.when == b.when && a.timer < b.timer) }

  ghost predicate Sorted(s: seq<Entry>) { forall i, j :: 0 <= i < j < |s| ==> Less(s[i], s[j]) }

  /** std::set::lower_bound: the first entry that is not before `key`. */
  function LowerBound(s: seq<Entry>, key: Entry): (n: nat)
    ensures n <= |s|
    ensures forall i :: 0 <= i < n ==> Less(s[i], key)
    ensures n < |s| ==> !Less(s[n], key)
  {
    if s == [] || !Less(s[0], key) then 0 else 1 + LowerBound(s[1..], key)
  }

  /** std::set::insert. */
  function Inserted(s: seq<Entry>, e: Entry): (r: seq<Entry>)
    ensures r != []
  {
    if s == [] || Less(e, s[0]) then [e] + s
    else if s[0] == e then s
    else [s[0]] + Inserted(s[1..], e)
  }

  lemma {:induction false} InsertedIn(s: seq<Entry>, e: Entry)
    ensures forall x :: x in Inserted(s, e) <==> x in s || x == e
    ensures Inserted(s, e)[0] == if s == [] || Less(e, s[0]) then e else s[0]
  {
    if s == [] || Less(e, s[0]) || s[0] == e {
    } else {
      InsertedIn(s[1..], e);
      assert s == [s[0]] + s[1..];
    }
  }

  lemma SortedCons(a: Entry, s: seq<Entry>)
    requires Sorted(s) && (s != [] ==> Less(a, s[0]))
    ensures Sorted([a] + s)
  {
    forall i, j | 0 <= i < j < |[a] + s| ensures Less(([a] + s)[i], ([a] + s)[j]) {
      if i == 0 && j > 1 { assert Less(s[0], s[j - 1]); }
    }
  }

  lemma {:induction false} InsertedSorted(s: seq<Entry>, e: Entry)
    requires Sorted(s)
    ensures Sorted(Inserted(s, e))
  {
    if s == [] || Less(e, s[0]) {
      SortedCons(e, s);
    } else if s[0] != e {
      assert Sorted(s[1..]);
      InsertedSorted(s[1..], e);
      InsertedIn(s[1..], e);
      SortedCons(s[0], Inserted(s[1..], e));
    }
  }

  /** std::set::find followed by erase. */
  function Erased(s: seq<Entry>, e: Entry): seq<Entry> {
    if s == [] then s else if s[0] == e then s[1..] else [s[0]] + Erased(s[1..], e)
  }

  lemma {:induction false} ErasedSorted(s: seq<Entry>, e: Entry)
    requires Sorted(s)
    ensures Sorted(Erased(s, e))
    ensures forall x :: x in Erased(s, e) <==> x in s && x != e
    ensures Erased(s, e) != [] ==> s != [] && s[0].when <= Erased(s, e)[0].when
  {
    if s == [] {
    } else {
      assert s == [s[0]] + s[1..];
      assert forall x :: x in s[1..] ==> Less(s[0], x);
      if s[0] != e {
        ErasedSorted(s[1..], e);
        var r := Erased(s[1..], e);
        if r != [] { assert r[0] in r; }
        SortedCons(s[0], r);
      }
    }
  }

  /** Where getExpired cuts: behind every entry that is due, before every entry that is not. The
      sentry's address is above every real one, so the assert that follows lower_bound holds. */
  lemma ExpiredCut(s: seq<Entry>, now: int)
    requires Sorted(s) && forall e :: e in s ==> e.timer < PTR_MAX
    ensures var n := LowerBound(s, Entry(now, PTR_MAX));
            && (forall i :: 0 <= i < n ==> s[i].when <= now)
            && (forall i :: n <= i < |s| ==> now < s[i].when)
  {
    var n := LowerBound(s, Entry(now, PTR_MAX));
    if n < |s| { assert s[n] in s; }
  }

  // ----- the timerfd -----

  /** howMuchTimeFromNow: seconds and nanoseconds. */
  function HowMuchTimeFromNow(when: int, now: int): (ts: (int, int))
    ensures 0 <= ts.1 < 1000000000
    ensures ts.0 * MICROS_PER_SECOND + ts.1 / 1000 == if when - now < MIN_DELAY then MIN_DELAY else when - now
  {
    var micros := if when - now < MIN_DELAY then MIN_DELAY else when - now;
    (micros / MICROS_PER_SECOND, micros % MICROS_PER_SECOND * 1000)
  }

  function Deadline(when: int, now: int): (d: int)
    ensures d == if when < now + MIN_DELAY then now + MIN_DELAY else when
  {
    var ts := HowMuchTimeFromNow(when, now);
    now + ts.0 * MICROS_PER_SECOND + ts.1 / 1000
  }

  // ----- the machine -----

  /** One callback run: which timer, when it was due, when handleRead took its time. */
  datatype Firing = Firing(sequence: nat, interval: real, due: int, now: int)

  datatype Queue = Queue(
    timers: seq<Entry>,        // timers_
    heap: map<Ptr, Timer>,     // live timers
    armed: Option<int>,        // the timerfd's deadline
    lastArm: int,              // the clock at the last timerfd_settime
    handling: bool,            // inside handleRead
    now: int,                  // its `now`
    batch: seq<Entry>,         // its `expired`, from the first entry reset() has not dealt with
    fired: nat,                // how many of them have run
    transit: set<Ptr>,         // created, addTimerInLoop still to come
    numCreated: nat,           // Timer::s_numCreated_, shared by all queues, when this one last created a timer
    // history
    created: set<nat>,         // sequence numbers of the timers of this queue
    deleted: set<nat>,         // and of those that have been deleted
    ran: seq<Firing>)

  const INITIAL := Queue([], map[], None, 0, false, 0, [], 0, {}, 0, {}, {}, [])

  datatype Step =
    | Create(timer: Ptr, when: int, interval: real, others: nat)  // addTimer, up to the post
    | Add(timer: Ptr, clock: int)                     // addTimerInLoop
    | Cancel(id: TimerId)                             // cancelInLoop
    | Begin(now: int)                                 // handleRead: readTimerfd, getExpired
    | Fire                                            // the next callback
    | ResetOne                                        // reset(), one entry
    | End(clock: int)                                 // reset(), the arming

  /** Other queues have created `others` timers in the meantime. The allocator hands out an address that is not in use; cancelInLoop reads through the pointer it
      is given; the clock is after the epoch. */
  predicate Enabled(q: Queue, e: Step) {
    match e
    case Create(p, _, _, _) => p !in q.heap && p < PTR_MAX
    case Add(p, clock) => p in q.transit && p in q.heap && clock > 0
    case Cancel(id) => id.timer.Some? ==> id.timer.value in q.heap
    case Begin(now) => !q.handling && now > 0
    case Fire => q.handling && q.fired < |q.batch| && q.batch[q.fired].timer in q.heap
    case ResetOne => q.handling && q.batch != [] && q.fired == |q.batch| && q.batch[0].timer in q.heap
    case End(clock) => q.handling && q.batch == [] && clock > 0
  }

  /** The entry under which a live timer is kept. */
  function KeyOf(q: Queue, p: Ptr): Entry
    requires p in q.heap
  {
    Entry(q.heap[p].expiration, p)
  }

  function Armed(q: Queue, when: int, clock: int): Queue {
    q.(armed := Some(Deadline(when, clock)), lastArm := clock)
  }

  /** insert() and the arming of addTimerInLoop. */
  function AddedTimer(q: Queue, p: Ptr, clock: int): Queue
    requires p in q.heap
  {
    var when := q.heap[p].expiration;
    var q' := q.(timers := Inserted(q.timers, KeyOf(q, p)), transit := q.transit - {p});
    if q.timers == [] || when < q.timers[0].when then Armed(q', when, clock) else q'
  }

  function CancelledTimer(q: Queue, id: TimerId): Queue
    requires id.timer.Some? ==> id.timer.value in q.heap
  {
    if id.timer.None? then q
    else
      var p := id.timer.value;
      var e := KeyOf(q, p);
      if e in q.timers then
        q.(timers := Erased(q.timers, e), heap := q.heap - {p}, deleted := q.deleted + {q.heap[p].sequence})
      else q
  }

  function Apply(q: Queue, e: Step): Queue
    requires Enabled(q, e)
  {
    match e
    case Create(p, when, interval, others) =>
      var n := q.numCreated + others + 1;
      q.(heap := q.heap[p := Timer(when, interval, n)],
         transit := q.transit + {p}, numCreated := n, created := q.created + {n})
    case Add(p, clock) => AddedTimer(q, p, clock)
    case Cancel(id) => CancelledTimer(q, id)
    case Begin(now) =>
      var n := LowerBound(q.timers, Entry(now, PTR_MAX));
      q.(handling := true, now := now, fired := 0, batch := q.timers[..n], timers := q.timers[n..],
         armed := if q.armed.Some? && q.armed.value <= now then None else q.armed)
    case Fire =>
      var t := q.heap[q.batch[q.fired].timer];
      q.(ran := q.ran + [Firing(t.sequence, t.interval, q.batch[q.fired].when, q.now)], fired := q.fired + 1)
    case ResetOne =>
      var p := q.batch[0].timer;
      var t := q.heap[p];
      var q' := q.(batch := q.batch[1..], fired := q.fired - 1);
      if t.Repeat() then
        var when := AddTime(q.now, t.interval);
        q'.(heap := q.heap[p := t.(expiration := when)], timers := Inserted(q.timers, Entry(when, p)))
      else
        q'.(heap := q.heap - {p}, deleted := q.deleted + {t.sequence})
    case End(clock) =>
      var q' := q.(handling := false);
      if q.timers != [] && q.timers[0].when > 0 then Armed(q', q.timers[0].when, clock) else q'
  }

  predicate Runs(q: Queue, steps: seq<Step>, r: Queue)
    decreases |steps|
  {
    if steps == [] then q == r else Enabled(q, steps[0]) && Runs(Apply(q, steps[0]), steps[1..], r)
  }

  // ----- invariants -----

  /** The entry's key is its timer's current expiration. */
  predicate Keyed(q: Queue, e: Entry) {
    e.timer in q.heap && e == KeyOf(q, e.timer) && e.timer < PTR_MAX
  }

  /** Every live timer is in exactly one of timers_, the batch, or on its way to addTimerInLoop. */
  predicate InOnePlace(q: Queue, p: Ptr)
    requires p in q.heap
  {
    var moving, waiting, running := p in q.transit, KeyOf(q, p) in q.timers, KeyOf(q, p) in q.batch;
    (moving || waiting || running) && !(moving && waiting) && !(moving && running) && !(waiting && running)
  }

  ghost predicate PlaceInv(q: Queue) {
    && Sorted(q.timers) && Sorted(q.batch)
    && (forall e :: e in q.timers ==> Keyed(q, e))
    && (forall e :: e in q.batch ==> Keyed(q, e))
    && (forall p :: p in q.transit ==> p in q.heap && p < PTR_MAX)
    && (forall p :: p in q.heap ==> InOnePlace(q, p))
    && q.fired <= |q.batch|
    && (!q.handling ==> q.batch == [])
    && (q.handling ==> q.now > 0 && forall e :: e in q.batch ==> e.when <= q.now)
  }

  /** Every sequence number this queue has handed out belongs to exactly one live timer or to a deleted
      one. */
  ghost predicate IdentityInv(q: Queue) {
    && (forall p :: p in q.heap ==> q.heap[p].sequence in q.created && q.heap[p].sequence !in q.deleted)
    && (forall p, r :: p in q.heap && r in q.heap && p != r ==> q.heap[p].sequence != q.heap[r].sequence)
    && (forall n :: n in q.created ==> 1 <= n <= q.numCreated)
    && q.deleted <= q.created
    && (forall n :: n in q.created ==> n in q.deleted || Live(q, n))
  }

  predicate Live(q: Queue, n: nat) { exists p :: p in q.heap && q.heap[p].sequence == n }

  /** The timer with this number has run in the current batch. */
  predicate RanInBatch(q: Queue, n: nat) {
    exists k :: 0 <= k < |q.batch| && k < q.fired && q.batch[k].timer in q.heap && q.heap[q.batch[k].timer].sequence == n
  }

  /** Nothing runs early; a one-shot timer runs at most once. */
  ghost predicate HistoryInv(q: Queue) {
    && (forall i :: 0 <= i < |q.ran| ==> q.ran[i].due <= q.ran[i].now && q.ran[i].sequence <= q.numCreated)
    && (forall i, j :: 0 <= i < j < |q.ran| && q.ran[i].sequence == q.ran[j].sequence ==> q.ran[i].interval > 0.0)
    && (forall i :: 0 <= i < |q.ran| && q.ran[i].interval <= 0.0 ==>
          q.ran[i].sequence in q.deleted || RanInBatch(q, q.ran[i].sequence))
    && (forall i, p :: 0 <= i < |q.ran| && p in q.heap && q.heap[p].sequence == q.ran[i].sequence ==>
          q.ran[i].interval == q.heap[p].interval)
  }

  /** The timerfd will fire no later than the earliest expiration, give or take the minimum delay. */
  predicate ArmedInTime(q: Queue) {
    q.timers != [] ==>
      && q.armed.Some?
      && (q.armed.value <= q.timers[0].when || q.armed.value <= q.lastArm + MIN_DELAY)
  }

  ghost predicate ArmInv(q: Queue) {
    && (!q.handling ==> ArmedInTime(q))
    && (q.handling && q.timers != [] && q.timers[0].when <= 0 ==> ArmedInTime(q))
  }

  ghost predicate Inv(q: Queue) {
    PlaceInv(q) && IdentityInv(q) && HistoryInv(q) && ArmInv(q)
  }

  // ----- places -----

  lemma CreateKeepsPlaces(q: Queue, e: Step)
    requires PlaceInv(q) && e.Create? && Enabled(q, e)
    ensures PlaceInv(Apply(q, e))
  {
    var r := Apply(q, e);
    forall x | x in r.timers || x in r.batch ensures Keyed(r, x) { assert Keyed(q, x); }
    forall p | p in r.heap ensures InOnePlace(r, p) {
      if p == e.timer {
        assert forall x :: x in q.timers || x in q.batch ==> x.timer in q.heap;
      } else {
        assert InOnePlace(q, p);
      }
    }
  }

  lemma AddKeepsPlaces(q: Queue, e: Step)
    requires PlaceInv(q) && e.Add? && Enabled(q, e)
    ensures PlaceInv(Apply(q, e))
  {
    var r, x := Apply(q, e), KeyOf(q, e.timer);
    InsertedSorted(q.timers, x);
    InsertedIn(q.timers, x);
    assert InOnePlace(q, e.timer);
    forall y | y in r.timers || y in r.batch ensures Keyed(r, y) { assert y == x || Keyed(q, y); }
    forall p | p in r.heap ensures InOnePlace(r, p) { assert InOnePlace(q, p); }
  }

  lemma CancelKeepsPlaces(q: Queue, e: Step)
    requires PlaceInv(q) && e.Cancel? && Enabled(q, e)
    ensures PlaceInv(Apply(q, e))
  {
    var r := Apply(q, e);
    if r != q {
      var p := e.id.timer.value;
      var x := KeyOf(q, p);
      ErasedSorted(q.timers, x);
      assert InOnePlace(q, p);
      forall y | y in r.timers ensures Keyed(r, y) { assert Keyed(q, y); }
      forall y | y in r.batch ensures Keyed(r, y) { assert Keyed(q, y); }
      forall z | z in r.heap ensures InOnePlace(r, z) { assert InOnePlace(q, z); }
    }
  }

  /** getExpired splits the set into exactly the entries that are due and the rest, in order. */
  lemma SplitExpired(s: seq<Entry>, now: int)
    requires Sorted(s) && forall e :: e in s ==> e.timer < PTR_MAX
    ensures var n := LowerBound(s, Entry(now, PTR_MAX));
            && s == s[..n] + s[n..] && Sorted(s[..n]) && Sorted(s[n..])
            && (forall e :: e in s[..n] <==> e in s && e.when <= now)
            && (forall e :: e in s[n..] <==> e in s && now < e.when)
  {
    var n := LowerBound(s, Entry(now, PTR_MAX));
    ExpiredCut(s, now);
    SortedSlices(s, n);
    InSlices(s, n);
    forall e | e in s[..n] ensures e.when <= now {
      var i :| 0 <= i < n && s[i] == e;
    }
    forall e | e in s[n..] ensures now < e.when {
      var i :| n <= i < |s| && s[i] == e;
    }
  }

  lemma InSlices(s: seq<Entry>, n: nat)
    requires n <= |s|
    ensures s == s[..n] + s[n..]
    ensures forall e :: e in s <==> e in s[..n] || e in s[n..]
  {
    assert s == s[..n] + s[n..];
  }

  lemma SortedSlices(s: seq<Entry>, n: nat)
    requires Sorted(s) && n <= |s|
    ensures Sorted(s[..n]) && Sorted(s[n..])
  {}

  lemma BeginKeepsPlaces(q: Queue, e: Step)
    requires PlaceInv(q) && e.Begin? && Enabled(q, e)
    ensures PlaceInv(Apply(q, e))
  {
    var r := Apply(q, e);
    assert forall x :: x in q.timers ==> Keyed(q, x);
    SplitExpired(q.timers, e.now);
    forall y | y in r.timers ensures Keyed(r, y) { assert Keyed(q, y); }
    forall y | y in r.batch ensures Keyed(r, y) { assert Keyed(q, y); }
    forall p | p in r.heap ensures InOnePlace(r, p) { assert InOnePlace(q, p); }
  }

  /** The entry that reset() deals with next is not among those behind it, and its timer is nowhere else. */
  lemma FirstOfBatch(q: Queue)
    requires PlaceInv(q) && Enabled(q, ResetOne)
    ensures var p, rest := q.batch[0].timer, q.batch[1..];
            && Keyed(q, q.batch[0]) && p !in q.transit
            && (forall e :: e in q.timers || e in rest ==> Keyed(q, e) && e.timer != p)
            && (forall e :: e in rest ==> e in q.batch && e.when <= q.now)
            && (forall e :: e in q.batch ==> e == q.batch[0] || e in rest)
            && Sorted(rest)
  {
    var p, rest := q.batch[0].timer, q.batch[1..];
    assert q.batch[0] in q.batch && Keyed(q, q.batch[0]) && InOnePlace(q, p);
    assert q.batch == [q.batch[0]] + rest;
    forall e | e in q.timers || e in rest ensures Keyed(q, e) && e.timer != p {
      if e in rest {
        var i :| 0 <= i < |rest| && rest[i] == e;
        assert Less(q.batch[0], q.batch[i + 1]);
      }
    }
  }

  lemma ResetOneKeepsPlaces(q: Queue, e: Step)
    requires PlaceInv(q) && e.ResetOne? && Enabled(q, e)
    ensures PlaceInv(Apply(q, e))
  {
    FirstOfBatch(q);
    if q.heap[q.batch[0].timer].Repeat() { RestartKeepsPlaces(q); } else { DeleteKeepsPlaces(q); }
  }

  lemma DeleteKeepsPlaces(q: Queue)
    requires PlaceInv(q) && Enabled(q, ResetOne) && !q.heap[q.batch[0].timer].Repeat()
    ensures PlaceInv(Apply(q, ResetOne))
  {
    var r := Apply(q, ResetOne);
    FirstOfBatch(q);
    forall y | y in r.timers || y in r.batch ensures Keyed(r, y) { assert Keyed(q, y); }
    forall z | z in r.heap ensures InOnePlace(r, z) { assert InOnePlace(q, z); }
  }

  lemma RestartKeepsPlaces(q: Queue)
    requires PlaceInv(q) && Enabled(q, ResetOne) && q.heap[q.batch[0].timer].Repeat()
    ensures PlaceInv(Apply(q, ResetOne))
  {
    var r, p := Apply(q, ResetOne), q.batch[0].timer;
    var x := KeyOf(r, p);
    FirstOfBatch(q);
    InsertedSorted(q.timers, x);
    InsertedIn(q.timers, x);
    forall y | y in r.timers || y in r.batch ensures Keyed(r, y) { assert y == x || Keyed(q, y); }
    forall z | z in r.heap ensures InOnePlace(r, z) {
      if z != p { assert InOnePlace(q, z); }
    }
  }

  lemma ApplyKeepsPlaces(q: Queue, e: Step)
    requires PlaceInv(q) && Enabled(q, e)
    ensures PlaceInv(Apply(q, e))
  {
    match e
    case Create(_, _, _, _) => CreateKeepsPlaces(q, e);
    case Add(_, _) => AddKeepsPlaces(q, e);
    case Cancel(_) => CancelKeepsPlaces(q, e);
    case Begin(_) => BeginKeepsPlaces(q, e);
    case Fire => SameQueues(q, Apply(q, e));
    case ResetOne => ResetOneKeepsPlaces(q, e);
    case End(_) => SameQueues(q, Apply(q, e));
  }

  lemma SameQueues(q: Queue, r: Queue)
    requires PlaceInv(q)
    requires r.timers == q.timers && r.batch == q.batch && r.heap == q.heap && r.transit == q.transit
    requires r.fired <= |r.batch| && (!r.handling ==> r.batch == []) && (r.handling ==> q.handling && r.now == q.now)
    ensures PlaceInv(r)
  {
    forall x | x in r.timers || x in r.batch ensures Keyed(r, x) { assert Keyed(q, x); }
    forall p | p in r.heap ensures InOnePlace(r, p) { assert InOnePlace(q, p); }
  }

  // ----- sequence numbers -----

  lemma SameIdentity(q: Queue, r: Queue)
    requires IdentityInv(q) && r.numCreated == q.numCreated && r.created == q.created && r.deleted == q.deleted
    requires r.heap.Keys == q.heap.Keys && forall p :: p in q.heap ==> r.heap[p].sequence == q.heap[p].sequence
    ensures IdentityInv(r)
  {
    forall n | n in r.created && n !in r.deleted ensures Live(r, n) {
      var p :| p in q.heap && q.heap[p].sequence == n;
      assert r.heap[p].sequence == n;
    }
  }

  lemma DeleteKeepsIdentity(q: Queue, r: Queue, p: Ptr)
    requires IdentityInv(q) && r.numCreated == q.numCreated && r.created == q.created
    requires p in q.heap && r.heap == q.heap - {p} && r.deleted == q.deleted + {q.heap[p].sequence}
    ensures IdentityInv(r)
  {
    forall n | n in r.created && n !in r.deleted ensures Live(r, n) {
      var x :| x in q.heap && q.heap[x].sequence == n;
      assert r.heap[x].sequence == n;
    }
  }

  lemma CreateKeepsIdentity(q: Queue, e: Step)
    requires IdentityInv(q) && e.Create? && Enabled(q, e)
    ensures IdentityInv(Apply(q, e))
  {
    var r := Apply(q, e);
    forall n | n in r.created && n !in r.deleted ensures Live(r, n) {
      if n == r.numCreated {
        assert r.heap[e.timer].sequence == n;
      } else {
        var p :| p in q.heap && q.heap[p].sequence == n;
        assert r.heap[p].sequence == n;
      }
    }
  }

  lemma ApplyKeepsIdentity(q: Queue, e: Step)
    requires IdentityInv(q) && Enabled(q, e)
    ensures IdentityInv(Apply(q, e))
  {
    var r := Apply(q, e);
    match e
    case Create(_, _, _, _) => CreateKeepsIdentity(q, e);
    case Cancel(id) => if r != q { DeleteKeepsIdentity(q, r, id.timer.value); }
    case ResetOne => ResetOneKeepsIdentity(q);
    case _ => SameIdentity(q, r);
  }

  lemma ResetOneKeepsIdentity(q: Queue)
    requires IdentityInv(q) && Enabled(q, ResetOne)
    ensures IdentityInv(Apply(q, ResetOne))
  {
    var p := q.batch[0].timer;
    if q.heap[p].Repeat() { SameIdentity(q, Apply(q, ResetOne)); } else { DeleteKeepsIdentity(q, Apply(q, ResetOne), p); }
  }

  // ----- history -----

  /** The next timer to run has not run in this batch, since its entry comes once. */
  lemma NotRanYet(q: Queue)
    requires PlaceInv(q) && IdentityInv(q) && Enabled(q, Fire)
    ensures !RanInBatch(q, q.heap[q.batch[q.fired].timer].sequence)
  {
    var x := q.batch[q.fired];
    assert x in q.batch && Keyed(q, x);
    forall k | 0 <= k < |q.batch| && k < q.fired ensures q.batch[k].timer != x.timer {
      assert Less(q.batch[k], x);
      assert q.batch[k] in q.batch && Keyed(q, q.batch[k]);
    }
  }

  lemma FireKeepsRan(q: Queue, n: nat)
    requires Enabled(q, Fire)
    ensures RanInBatch(q, n) ==> RanInBatch(Apply(q, Fire), n)
    ensures RanInBatch(Apply(q, Fire), q.heap[q.batch[q.fired].timer].sequence)
  {
    var r := Apply(q, Fire);
    assert r.heap[r.batch[q.fired].timer] == q.heap[q.batch[q.fired].timer];
    if RanInBatch(q, n) {
      var k :| 0 <= k < |q.batch| && k < q.fired && q.batch[k].timer in q.heap && q.heap[q.batch[k].timer].sequence == n;
      assert r.heap[r.batch[k].timer].sequence == n;
    }
  }

  lemma FireKeepsHistory(q: Queue)
    requires PlaceInv(q) && IdentityInv(q) && HistoryInv(q) && Enabled(q, Fire)
    ensures HistoryInv(Apply(q, Fire))
  {
    var r := Apply(q, Fire);
    NotRanYet(q);
    assert q.batch[q.fired] in q.batch;
    forall i | 0 <= i < |r.ran| && r.ran[i].interval <= 0.0
      ensures r.ran[i].sequence in r.deleted || RanInBatch(r, r.ran[i].sequence)
    {
      FireKeepsRan(q, r.ran[i].sequence);
    }
  }

  /** A timer that has run in this batch has still done so after a step that leaves the batch and its
      timers alone. */
  lemma StillRan(q: Queue, r: Queue, n: nat)
    requires PlaceInv(q) && RanInBatch(q, n)
    requires r.batch == q.batch && r.fired == q.fired
    requires forall x :: x in q.batch ==> x.timer in r.heap && r.heap[x.timer] == q.heap[x.timer]
    ensures RanInBatch(r, n)
  {
    var k :| 0 <= k < |q.batch| && k < q.fired && q.batch[k].timer in q.heap && q.heap[q.batch[k].timer].sequence == n;
    assert q.batch[k] in q.batch;
    assert r.heap[r.batch[k].timer].sequence == n;
  }

  lemma ResetOneKeepsRan(q: Queue, n: nat)
    requires PlaceInv(q) && Enabled(q, ResetOne) && RanInBatch(q, n)
    ensures RanInBatch(Apply(q, ResetOne), n) || n == q.heap[q.batch[0].timer].sequence
  {
    var r := Apply(q, ResetOne);
    var k :| 0 <= k < |q.batch| && k < q.fired && q.batch[k].timer in q.heap && q.heap[q.batch[k].timer].sequence == n;
    if k > 0 {
      assert q.batch[0] in q.batch && q.batch[k] in q.batch;
      assert Less(q.batch[0], q.batch[k]) && Keyed(q, q.batch[0]) && Keyed(q, q.batch[k]);
      assert r.batch[k - 1] == q.batch[k] && r.heap[r.batch[k - 1].timer].sequence == n;
    }
  }

  lemma ResetOneKeepsHistory(q: Queue)
    requires PlaceInv(q) && HistoryInv(q) && Enabled(q, ResetOne)
    ensures HistoryInv(Apply(q, ResetOne))
  {
    var r, t := Apply(q, ResetOne), q.heap[q.batch[0].timer];
    forall i | 0 <= i < |r.ran| && r.ran[i].interval <= 0.0
      ensures r.ran[i].sequence in r.deleted || RanInBatch(r, r.ran[i].sequence)
    {
      var n := q.ran[i].sequence;
      if n !in q.deleted {
        ResetOneKeepsRan(q, n);
        if n == t.sequence { assert q.ran[i].interval == t.interval; }
      }
    }
  }

  lemma NoBatchBefore(q: Queue)
    requires PlaceInv(q)
    ensures !q.handling ==> q.batch == []
  {}

  lemma OthersKeepHistory(q: Queue, e: Step)
    requires PlaceInv(q) && HistoryInv(q) && Enabled(q, e)
    requires !e.Fire? && !e.ResetOne?
    ensures HistoryInv(Apply(q, e))
  {
    hide PlaceInv, Inserted, Erased;
    var r := Apply(q, e);
    forall i | 0 <= i < |r.ran| && r.ran[i].interval <= 0.0
      ensures r.ran[i].sequence in r.deleted || RanInBatch(r, r.ran[i].sequence)
    {
      var n := q.ran[i].sequence;
      if n !in q.deleted {
        assert !e.Begin? by { NoBatchBefore(q); }
        BatchUntouched(q, e);
        StillRan(q, r, n);
      }
    }
  }

  lemma BatchUntouched(q: Queue, e: Step)
    requires PlaceInv(q) && Enabled(q, e)
    requires e.Create? || e.Add? || e.Cancel? || e.End?
    ensures var r := Apply(q, e);
            && r.batch == q.batch && r.fired == q.fired
            && forall x :: x in q.batch ==> x.timer in r.heap && r.heap[x.timer] == q.heap[x.timer]
  {
    forall x | x in q.batch ensures Keyed(q, x) && InOnePlace(q, x.timer) {}
  }

  lemma ApplyKeepsHistory(q: Queue, e: Step)
    requires PlaceInv(q) && IdentityInv(q) && HistoryInv(q) && Enabled(q, e)
    ensures HistoryInv(Apply(q, e))
  {
    match e
    case Fire => FireKeepsHistory(q);
    case ResetOne => ResetOneKeepsHistory(q);
    case _ => OthersKeepHistory(q, e);
  }

  // ----- arming -----

  lemma ApplyKeepsArmed(q: Queue, e: Step)
    requires PlaceInv(q) && ArmInv(q) && Enabled(q, e)
    ensures ArmInv(Apply(q, e))
  {
    match e
    case Add(p, clock) => InsertedIn(q.timers, KeyOf(q, p));
    case Cancel(id) => if id.timer.Some? { ErasedSorted(q.timers, KeyOf(q, id.timer.value)); }
    case Begin(now) =>
      assert forall x :: x in q.timers ==> Keyed(q, x);
      SplitExpired(q.timers, now);
      var r := Apply(q, e);
      if r.timers != [] { assert r.timers[0] in r.timers; }
    case ResetOne =>
      var t := q.heap[q.batch[0].timer];
      if t.Repeat() { InsertedIn(q.timers, Entry(AddTime(q.now, t.interval), q.batch[0].timer)); }
    case _ =>
  }

  // ----- every run -----

  lemma ApplyKeepsInv(q: Queue, e: Step)
    requires Inv(q) && Enabled(q, e)
    ensures Inv(Apply(q, e))
  {
    ApplyKeepsPlaces(q, e);
    ApplyKeepsIdentity(q, e);
    ApplyKeepsHistory(q, e);
    ApplyKeepsArmed(q, e);
  }

  lemma {:induction false} RunsKeepInv(q: Queue, steps: seq<Step>, r: Queue)
    requires Inv(q) && Runs(q, steps, r)
    ensures Inv(r)
    decreases |steps|
  {
    if steps == [] {
    } else {
      ApplyKeepsInv(q, steps[0]);
      RunsKeepInv(Apply(q, steps[0]), steps[1..], r);
    }
  }

  /** Outside handleRead, a queue with timers in it has its timerfd armed, for no later than the
      earliest expiration or, if that had passed, the minimum delay after the last arming. */
  lemma TimerfdArmed(steps: seq<Step>, q: Queue)
    requires Runs(INITIAL, steps, q) && !q.handling && q.timers != []
    ensures q.armed.Some?
    ensures q.armed.value <= q.timers[0].when ||
              exists i :: 0 <= i < |steps| && Clock(steps[i]).Some? && q.armed.value <= Clock(steps[i]).value + 100
  {
    RunsKeepInv(INITIAL, steps, q);
    ArmedByAStep(INITIAL, steps, q);
  }

  /** When each step leaves the timerfd armed for: a new timer that is due before all others, and the first of
      those left at the end of handleRead, but never sooner than in 100 microseconds; it has gone off once
      handleRead begins; no other step touches it. */
  lemma StepArms(q: Queue, e: Step)
    requires PlaceInv(q) && Enabled(q, e)
    ensures var r := Apply(q, e);
            if e.Begin? then r.armed == if q.armed.Some? && q.armed.value <= e.now then None else q.armed
            else
              var first := if e.Add? then q.heap[e.timer].expiration else if q.timers != [] then q.timers[0].when else 0;
              if (e.Add? && forall i :: 0 <= i < |q.timers| ==> first < q.timers[i].when) || (e.End? && first > 0) then
                r.armed == Some(if first - e.clock < 100 then e.clock + 100 else first)
              else r.armed == q.armed
  {
    if e.Add? && q.timers != [] && q.heap[e.timer].expiration < q.timers[0].when {
      forall i | 0 <= i < |q.timers| ensures q.heap[e.timer].expiration < q.timers[i].when {
        assert i > 0 ==> Less(q.timers[0], q.timers[i]);
      }
    }
  }

  /** The clock that a step may have armed the timerfd by. */
  function Clock(e: Step): Option<int> {
    match e
    case Add(_, clock) => Some(clock)
    case End(clock) => Some(clock)
    case _ => None
  }

  lemma {:induction false} ArmedByAStep(q: Queue, steps: seq<Step>, r: Queue)
    requires Runs(q, steps, r)
    ensures (r.armed, r.lastArm) == (q.armed, q.lastArm) || (r.armed.None? && r.lastArm == q.lastArm)
            || exists i :: 0 <= i < |steps| && Clock(steps[i]) == Some(r.lastArm)
    decreases |steps|
  {
    if steps == [] {
    } else {
      var s := Apply(q, steps[0]);
      ArmedByAStep(s, steps[1..], r);
      if exists i :: 0 <= i < |steps[1..]| && Clock(steps[1..][i]) == Some(r.lastArm) {
        var i :| 0 <= i < |steps[1..]| && Clock(steps[1..][i]) == Some(r.lastArm);
        assert steps[i + 1] == steps[1..][i];
      } else if s.lastArm != q.lastArm || (s.armed.Some? && s.armed != q.armed) {
        assert Clock(steps[0]) == Some(s.lastArm);
      }
    }
  }

  /** Each timer ever created is deleted or live, and a live one is in exactly one place. */
  lemma TimersConserved(steps: seq<Step>, q: Queue)
    requires Runs(INITIAL, steps, q)
    ensures forall n :: n in q.created ==> (n in q.deleted) != Live(q, n)
    ensures forall p :: p in q.heap ==> InOnePlace(q, p)
    ensures forall x :: x in q.timers || x in q.batch ==> Keyed(q, x)
  {
    RunsKeepInv(INITIAL, steps, q);
  }

  /** No timer runs before it is due, and a one-shot timer runs at most once. */
  lemma FiringsInTime(steps: seq<Step>, q: Queue)
    requires Runs(INITIAL, steps, q)
    ensures forall i :: 0 <= i < |q.ran| ==> q.ran[i].due <= q.ran[i].now
    ensures forall i, j :: 0 <= i < j < |q.ran| && q.ran[i].interval <= 0.0 ==> q.ran[i].sequence != q.ran[j].sequence
  {
    RunsKeepInv(INITIAL, steps, q);
  }

  // ----- the rhythm of repeating timers -----

  /** Firing i is the last one of timer n. */
  predicate LastOf(ran: seq<Firing>, i: nat, n: nat) {
    i < |ran| && ran[i].sequence == n && forall j :: i < j < |ran| ==> ran[j].sequence != n
  }

  /** Firings i and j are of one timer, and none of it lies between them. */
  predicate Successive(ran: seq<Firing>, i: nat, j: nat) {
    i < j < |ran| && ran[i].sequence == ran[j].sequence && forall k :: i < k < j ==> ran[k].sequence != ran[i].sequence
  }

  /** The timer has run in this batch and has not been dealt with by reset() yet. */
  predicate AwaitsReset(q: Queue, p: Ptr) {
    exists k :: 0 <= k < |q.batch| && k < q.fired && q.batch[k].timer == p
  }

  /** What the last firing of a live timer says about it. */
  ghost predicate InRhythm(q: Queue, p: Ptr, i: nat)
    requires p in q.heap && i < |q.ran|
  {
    if AwaitsReset(q, p) then q.ran[i].now == q.now
    else q.heap[p].interval > 0.0 ==> IntervalAfter(q.heap[p].expiration, q.ran[i].now, q.heap[p].interval)
  }

  ghost predicate LiveInRhythm(q: Queue) {
    forall i: nat, p :: p in q.heap && LastOf(q.ran, i, q.heap[p].sequence) ==> InRhythm(q, p, i)
  }

  ghost predicate PastInRhythm(ran: seq<Firing>) {
    forall i: nat, j: nat :: Successive(ran, i, j) && ran[j].interval > 0.0 ==>
      IntervalAfter(ran[j].due, ran[i].now, ran[j].interval)
  }

  ghost predicate RhythmInv(q: Queue) { LiveInRhythm(q) && PastInRhythm(q.ran) }

  /** A step that runs nothing and changes no live timer, nor which of them await reset. */
  lemma SameRhythm(q: Queue, r: Queue)
    requires RhythmInv(q) && r.ran == q.ran && r.now == q.now
    requires forall p :: p in r.heap ==> p in q.heap && r.heap[p] == q.heap[p]
    requires forall p :: p in r.heap ==> (AwaitsReset(r, p) <==> AwaitsReset(q, p))
    ensures RhythmInv(r)
  {
    forall i: nat, p | p in r.heap && LastOf(r.ran, i, r.heap[p].sequence) ensures InRhythm(r, p, i) {
      assert InRhythm(q, p, i);
    }
  }

  /** One more firing: earlier neighbours stay neighbours, and the new one follows the last of its timer. */
  lemma PastThen(ran: seq<Firing>, f: Firing)
    requires PastInRhythm(ran)
    requires forall i: nat :: LastOf(ran, i, f.sequence) && f.interval > 0.0 ==> IntervalAfter(f.due, ran[i].now, f.interval)
    ensures PastInRhythm(ran + [f])
  {
    var all := ran + [f];
    forall i: nat, j: nat | Successive(all, i, j) && all[j].interval > 0.0
      ensures IntervalAfter(all[j].due, all[i].now, all[j].interval)
    {
      if j < |ran| {
        assert forall k :: 0 <= k < |ran| ==> all[k] == ran[k];
        assert Successive(ran, i, j);
      } else {
        assert forall k :: i < k < |ran| ==> ran[k] == all[k];
        assert LastOf(ran, i, f.sequence);
      }
    }
  }

  /** The timer about to run is due an interval after its last firing, if it repeats. */
  lemma NextInRhythm(q: Queue)
    requires PlaceInv(q) && RhythmInv(q) && Enabled(q, Fire)
    ensures var x := q.batch[q.fired]; var t := q.heap[x.timer];
            forall i: nat :: LastOf(q.ran, i, t.sequence) && t.interval > 0.0 ==> IntervalAfter(x.when, q.ran[i].now, t.interval)
  {
    var x := q.batch[q.fired];
    assert x in q.batch && Keyed(q, x);
    NotAwaiting(q);
    forall i: nat | LastOf(q.ran, i, q.heap[x.timer].sequence) && q.heap[x.timer].interval > 0.0
      ensures IntervalAfter(x.when, q.ran[i].now, q.heap[x.timer].interval)
    {
      assert InRhythm(q, x.timer, i);
    }
  }

  lemma FireKeepsLive(q: Queue)
    requires IdentityInv(q) && RhythmInv(q) && Enabled(q, Fire)
    ensures LiveInRhythm(Apply(q, Fire))
  {
    hide IntervalAfter;
    var r, first := Apply(q, Fire), q.batch[q.fired].timer;
    forall i: nat, p | p in r.heap && LastOf(r.ran, i, r.heap[p].sequence) ensures InRhythm(r, p, i) {
      if p == first {
        assert r.batch[q.fired].timer == p && AwaitsReset(r, p);
        assert r.ran[|q.ran|].sequence == r.heap[p].sequence;
      } else {
        assert i < |q.ran|;
        assert LastOf(q.ran, i, q.heap[p].sequence) by { assert forall k :: 0 <= k < |q.ran| ==> r.ran[k] == q.ran[k]; }
        assert InRhythm(q, p, i);
        FireAwaits(q, p);
      }
    }
  }

  lemma FireKeepsRhythm(q: Queue)
    requires PlaceInv(q) && IdentityInv(q) && RhythmInv(q) && Enabled(q, Fire)
    ensures RhythmInv(Apply(q, Fire))
  {
    var x := q.batch[q.fired];
    var t := q.heap[x.timer];
    NextInRhythm(q);
    PastThen(q.ran, Firing(t.sequence, t.interval, x.when, q.now));
    FireKeepsLive(q);
  }

  lemma NotAwaiting(q: Queue)
    requires PlaceInv(q) && Enabled(q, Fire)
    ensures !AwaitsReset(q, q.batch[q.fired].timer)
  {
    var x := q.batch[q.fired];
    assert x in q.batch && Keyed(q, x);
    forall k | 0 <= k < |q.batch| && k < q.fired ensures q.batch[k].timer != x.timer {
      assert Less(q.batch[k], x);
      assert q.batch[k] in q.batch && Keyed(q, q.batch[k]);
    }
  }

  lemma FireAwaits(q: Queue, p: Ptr)
    requires Enabled(q, Fire) && p != q.batch[q.fired].timer
    ensures AwaitsReset(Apply(q, Fire), p) <==> AwaitsReset(q, p)
  {
    var r := Apply(q, Fire);
    if AwaitsReset(q, p) {
      var k :| 0 <= k < |q.batch| && k < q.fired && q.batch[k].timer == p;
      assert r.batch[k].timer == p;
    }
  }

  /** Who awaits reset after one entry has been dealt with. */
  lemma ResetAwaits(q: Queue, p: Ptr)
    requires PlaceInv(q) && Enabled(q, ResetOne)
    ensures AwaitsReset(Apply(q, ResetOne), p) <==> AwaitsReset(q, p) && p != q.batch[0].timer
  {
    var r := Apply(q, ResetOne);
    FirstOfBatch(q);
    if AwaitsReset(r, p) {
      var k :| 0 <= k < |r.batch| && k < r.fired && r.batch[k].timer == p;
      assert q.batch[k + 1] == r.batch[k] && r.batch[k] in q.batch[1..];
    }
    if AwaitsReset(q, p) && p != q.batch[0].timer {
      var k :| 0 <= k < |q.batch| && k < q.fired && q.batch[k].timer == p;
      assert r.batch[k - 1] == q.batch[k];
    }
  }

  lemma ResetOneKeepsRhythm(q: Queue)
    requires PlaceInv(q) && IdentityInv(q) && RhythmInv(q) && Enabled(q, ResetOne)
    ensures RhythmInv(Apply(q, ResetOne))
  {
    var r, first := Apply(q, ResetOne), q.batch[0].timer;
    assert q.batch[0].timer == first && AwaitsReset(q, first);
    forall i: nat, p | p in r.heap && LastOf(r.ran, i, r.heap[p].sequence)
      ensures InRhythm(r, p, i)
    {
      ResetAwaits(q, p);
      assert LastOf(q.ran, i, q.heap[p].sequence) && InRhythm(q, p, i);
      if p == first { AddTimeIs(q.now, q.heap[p].interval); }
    }
  }

  lemma CreateKeepsRhythm(q: Queue, e: Step)
    requires IdentityInv(q) && HistoryInv(q) && RhythmInv(q) && e.Create? && Enabled(q, e)
    ensures RhythmInv(Apply(q, e))
  {
    var r := Apply(q, e);
    forall i: nat, p | p in r.heap && LastOf(r.ran, i, r.heap[p].sequence)
      ensures InRhythm(r, p, i)
    {
      assert p != e.timer;
      assert InRhythm(q, p, i) && (AwaitsReset(r, p) <==> AwaitsReset(q, p));
    }
  }

  lemma BeginKeepsRhythm(q: Queue, e: Step)
    requires PlaceInv(q) && RhythmInv(q) && e.Begin? && Enabled(q, e)
    ensures RhythmInv(Apply(q, e))
  {
    var r := Apply(q, e);
    forall i: nat, p | p in r.heap && LastOf(r.ran, i, r.heap[p].sequence)
      ensures InRhythm(r, p, i)
    {
      assert InRhythm(q, p, i) && !AwaitsReset(q, p) && !AwaitsReset(r, p);
    }
  }

  lemma ApplyKeepsRhythm(q: Queue, e: Step)
    requires Inv(q) && RhythmInv(q) && Enabled(q, e)
    ensures RhythmInv(Apply(q, e))
  {
    hide RhythmInv, PlaceInv, IdentityInv, HistoryInv, ArmInv;
    match e
    case Create(_, _, _, _) => CreateKeepsRhythm(q, e);
    case Begin(_) => BeginKeepsRhythm(q, e);
    case Fire => FireKeepsRhythm(q);
    case ResetOne => ResetOneKeepsRhythm(q);
    case _ => OthersKeepRhythm(q, e);
  }

  lemma OthersKeepRhythm(q: Queue, e: Step)
    requires PlaceInv(q) && RhythmInv(q) && Enabled(q, e) && (e.Add? || e.Cancel? || e.End?)
    ensures RhythmInv(Apply(q, e))
  {
    hide RhythmInv, PlaceInv;
    SameRhythm(q, Apply(q, e));
  }

  lemma {:induction false} RunsKeepRhythm(q: Queue, steps: seq<Step>, r: Queue)
    requires Inv(q) && RhythmInv(q) && Runs(q, steps, r)
    ensures RhythmInv(r)
    decreases |steps|
  {
    if steps == [] {
    } else {
      ApplyKeepsInv(q, steps[0]);
      ApplyKeepsRhythm(q, steps[0]);
      RunsKeepRhythm(Apply(q, steps[0]), steps[1..], r);
    }
  }

  /** In every run, a repeating timer is due again one interval after the time at which it was last run, to
      the microsecond. */
  lemma RepeatsAfterInterval(steps: seq<Step>, q: Queue)
    requires Runs(INITIAL, steps, q)
    ensures forall i: nat, j: nat :: Successive(q.ran, i, j) && q.ran[j].interval > 0.0 ==>
              (q.ran[j].due - q.ran[i].now) as real <= q.ran[j].interval * 1000000.0
              < (q.ran[j].due - q.ran[i].now + 1) as real
  {
    RunsKeepRhythm(INITIAL, steps, q);
  }

  // ----- cancelling -----

  lemma StepOfDeleted(q: Queue, e: Step, n: nat)
    requires IdentityInv(q) && Enabled(q, e) && n in q.deleted
    ensures var r := Apply(q, e);
            && n in r.deleted
            && (r.ran == q.ran || (|r.ran| == |q.ran| + 1 && r.ran[..|q.ran|] == q.ran && r.ran[|q.ran|].sequence != n))
  {}

  lemma {:induction false} DeletedNeverRuns(q: Queue, steps: seq<Step>, r: Queue, n: nat)
    requires IdentityInv(q) && Runs(q, steps, r) && n in q.deleted
    ensures n in r.deleted && q.ran <= r.ran
    ensures forall i :: |q.ran| <= i < |r.ran| ==> r.ran[i].sequence != n
    decreases |steps|
  {
    if steps == [] {
    } else {
      var s := Apply(q, steps[0]);
      ApplyKeepsIdentity(q, steps[0]);
      StepOfDeleted(q, steps[0], n);
      DeletedNeverRuns(s, steps[1..], r, n);
      forall i | |q.ran| <= i < |r.ran| ensures r.ran[i].sequence != n {
        if i < |s.ran| { assert r.ran[i] == s.ran[i]; }
      }
    }
  }

  /** A cancel that finds its timer in timers_ deletes exactly that timer, and it never runs again;
      one that does not find it changes nothing at all. */
  lemma CancelEffect(q: Queue, id: TimerId, steps: seq<Step>, r: Queue)
    requires Inv(q) && Enabled(q, Cancel(id)) && id.timer.Some?
    requires Runs(Apply(q, Cancel(id)), steps, r)
    ensures var p := id.timer.value; var n := q.heap[p].sequence; var c := Apply(q, Cancel(id));
            && (KeyOf(q, p) in q.timers <==> n in c.deleted)
            && (KeyOf(q, p) in q.timers ==>
                  && c.heap == q.heap - {p} && (forall x :: x in c.timers <==> x in q.timers && x != KeyOf(q, p))
                  && forall i :: |q.ran| <= i < |r.ran| ==> r.ran[i].sequence != n)
            && (KeyOf(q, p) !in q.timers ==> c == q)
  {
    var p := id.timer.value;
    ApplyKeepsInv(q, Cancel(id));
    ErasedSorted(q.timers, KeyOf(q, p));
    if KeyOf(q, p) in q.timers { DeletedNeverRuns(Apply(q, Cancel(id)), steps, r, q.heap[p].sequence); }
  }

  /** So a repeating timer cannot be cancelled by a callback of its own batch: here it cancels itself
      and is back in the queue when handleRead returns. */
  lemma SelfCancelIsLost() returns (steps: seq<Step>, q: Queue)
    ensures Runs(INITIAL, steps, q)
    ensures Cancel(TimerId(Some(1), 1)) in steps && 1 !in q.deleted
    ensures !q.handling && q.timers == [Entry(1000010, 1)]
  {
    var cancel := Cancel(TimerId(Some(1), 1));
    var q1 := Apply(INITIAL, Create(1, 10, 1.0, 0));
    var q2 := Apply(q1, Add(1, 1));
    assert q2.timers == [Entry(10, 1)];
    var q3 := Apply(q2, Begin(10));
    assert LowerBound(q2.timers[1..], Entry(10, PTR_MAX)) == 0;
    assert q3.batch == [Entry(10, 1)] && q3.timers == [];
    var q4 := Apply(q3, Fire);
    var q5 := Apply(q4, cancel);
    assert q5 == q4;
    var q6 := Apply(q5, ResetOne);
    assert AddTime(10, 1.0) == 1000010;
    q := Apply(q6, End(11));
    steps := RunsCons(q6, End(11), [], q);
    steps := RunsCons(q5, ResetOne, steps, q);
    steps := RunsCons(q4, cancel, steps, q);
    ghost var tail := steps;
    steps := RunsCons(q3, Fire, steps, q);
    steps := RunsCons(q2, Begin(10), steps, q);
    steps := RunsCons(q1, Add(1, 1), steps, q);
    steps := RunsCons(INITIAL, Create(1, 10, 1.0, 0), steps, q);
    assert steps[4] == tail[0];
  }

  /** A handle names its timer by address alone. Here the timer it was given for has run and been deleted,
      another one lies at the same address, and cancelling through the old handle deletes that one. */
  lemma StaleHandleCancelsAnother() returns (steps: seq<Step>, q: Queue)
    ensures Runs(INITIAL, steps, q)
    ensures q.created == {1, 2} && q.deleted == {1, 2} && q.heap == map[] && q.timers == []
    ensures q.ran == [Firing(1, 0.0, 10, 10)]
    ensures |steps| > 0 && steps[|steps| - 1] == Cancel(TimerId(Some(1), 1))
  {
    var first, q3 := OneShotTaken();
    var second, q6 := OneShotRun(q3);
    var third;
    q, third := AnotherCancelled(q6);
    RunsThen(q3, second, q6, third, q);
    RunsThen(INITIAL, first, q3, second + third, q);
    steps := first + (second + third);
  }

  lemma OneShotTaken() returns (steps: seq<Step>, q3: Queue)
    ensures Runs(INITIAL, steps, q3)
    ensures q3 == Queue([], map[1 := Timer(10, 0.0, 1)], q3.armed, q3.lastArm, true, 10, [Entry(10, 1)], 0, {}, 1, {1}, {}, [])
  {
    var q1 := Apply(INITIAL, Create(1, 10, 0.0, 0));
    var q2 := Apply(q1, Add(1, 1));
    assert q2.timers == [Entry(10, 1)] && q2.transit == {};
    q3 := Apply(q2, Begin(10));
    assert LowerBound(q2.timers[1..], Entry(10, PTR_MAX)) == 0;
    assert q3.batch == [Entry(10, 1)] && q3.timers == [];
    steps := RunsCons(q2, Begin(10), [], q3);
    steps := RunsCons(q1, Add(1, 1), steps, q3);
    steps := RunsCons(INITIAL, Create(1, 10, 0.0, 0), steps, q3);
  }

  lemma OneShotRun(q3: Queue) returns (steps: seq<Step>, q6: Queue)
    requires q3 == Queue([], map[1 := Timer(10, 0.0, 1)], q3.armed, q3.lastArm, true, 10, [Entry(10, 1)], 0, {}, 1, {1}, {}, [])
    ensures Runs(q3, steps, q6)
    ensures q6.heap == map[] && q6.timers == [] && q6.transit == {} && q6.numCreated == 1
    ensures q6.created == {1} && q6.deleted == {1} && q6.ran == [Firing(1, 0.0, 10, 10)]
  {
    var q4 := Apply(q3, Fire);
    var q5 := Apply(q4, ResetOne);
    q6 := Apply(q5, End(11));
    assert q6.heap == map[];
    steps := RunsCons(q5, End(11), [], q6);
    steps := RunsCons(q4, ResetOne, steps, q6);
    steps := RunsCons(q3, Fire, steps, q6);
  }

  lemma AnotherCancelled(q6: Queue) returns (q: Queue, steps: seq<Step>)
    requires q6.heap == map[] && q6.timers == [] && q6.transit == {} && q6.numCreated == 1
    ensures Runs(q6, steps, q) && q.created == q6.created + {2} && q.deleted == q6.deleted + {2}
    ensures q.heap == map[] && q.timers == [] && q.ran == q6.ran
    ensures |steps| > 0 && steps[|steps| - 1] == Cancel(TimerId(Some(1), 1))
  {
    var last := Cancel(TimerId(Some(1), 1));
    var q7 := Apply(q6, Create(1, 50, 0.0, 0));
    var q8 := Apply(q7, Add(1, 12));
    assert q8.timers == [Entry(50, 1)] && q8.heap[1].sequence == 2;
    q := Apply(q8, last);
    assert Erased(q8.timers, Entry(50, 1)) == [];
    steps := RunsCons(q8, last, [], q);
    steps := RunsCons(q7, Add(1, 12), steps, q);
    steps := RunsCons(q6, Create(1, 50, 0.0, 0), steps, q);
  }

  lemma RunsCons(q: Queue, e: Step, steps: seq<Step>, r: Queue) returns (more: seq<Step>)
    requires Enabled(q, e) && Runs(Apply(q, e), steps, r)
    ensures more == [e] + steps && Runs(q, more, r)
  {
    more := [e] + steps;
    assert more[1..] == steps;
  }

  lemma {:induction false} RunsThen(q: Queue, a: seq<Step>, r: Queue, b: seq<Step>, s: Queue)
    requires Runs(q, a, r) && Runs(r, b, s)
    ensures Runs(q, a + b, s)
    decreases |a|
  {
    if a == [] {
      assert a + b == b;
    } else {
      assert (a + b)[1..] == a[1..] + b;
      RunsThen(Apply(q, a[0]), a[1..], r, b, s);
    }
  }
}
