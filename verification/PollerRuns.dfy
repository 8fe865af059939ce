/** Any number of channels on one poller, and any sequence of calls on them: the kernel's epoll set is
    a function of the calls alone. */
module PollerRuns {
  import opened Poller

  datatype Op = ReadOn | ReadOff | WriteOn | WriteOff | AllOff | TakeOut

  /** `channel` is the position of the channel among those of the loop. */
  datatype Call = Call(channel: nat, op: Op)

  /** What a channel asks for, and whether it has been registered since it was last removed. */
  datatype Wish = Wish(events: Interest, known: bool)

  function Asks(w: Wish, events: Interest): Wish { Wish(events, w.known || events != NONE) }

  function After(w: Wish, op: Op): Wish {
    match op
    case ReadOn => Asks(w, w.events.(read := true))
    case ReadOff => Asks(w, w.events.(read := false))
    case WriteOn => Asks(w, w.events.(write := true))
    case WriteOff => Asks(w, w.events.(write := false))
    case AllOff => Asks(w, NONE)
    case TakeOut => Wish(NONE, false)
  }

  /** Channel c after the calls. */
  function Wanted(calls: seq<Call>, c: nat): Wish {
    if calls == [] then Wish(NONE, false)
    else
      var w, last := Wanted(calls[..|calls| - 1], c), calls[|calls| - 1];
      if last.channel == c then After(w, last.op) else w
  }

  /** The calls are in order: remove() comes only for a channel that asks for nothing and has been
      registered since it was last removed, and a channel is registered only while no other one holds its
      descriptor. These are the asserts of the source; descriptors may be used again. */
  predicate Proper(calls: seq<Call>, fds: seq<int>) {
    forall k :: 0 <= k < |calls| ==> calls[k].channel < |fds| && InOrder(calls[..k], calls[k], fds)
  }

  predicate InOrder(before: seq<Call>, call: Call, fds: seq<int>)
    requires call.channel < |fds|
  {
    var w := Wanted(before, call.channel);
    && (call.op == TakeOut ==> w.known && w.events == NONE)
    && (!w.known && After(w, call.op).known ==>
          forall m :: 0 <= m < |fds| && m != call.channel && fds[m] == fds[call.channel] ==> !Wanted(before, m).known)
  }

  /** The channel is as the calls on it have left it, and so is the kernel while it is registered. */
  ghost predicate InStep(c: Channel, w: Wish)
    reads c, c.poller, c.poller.channels.Values
  {
    && c.Valid() && c.events == w.events && (c.index != NEW <==> w.known)
    && (w.known ==>
          if w.events == NONE then c.fd !in c.poller.interest
          else c.fd in c.poller.interest && c.poller.interest[c.fd] == w.events)
  }

  method Perform(c: Channel, op: Op, ghost w: Wish)
    requires InStep(c, w)
    requires !w.known && After(w, op).known ==> c.fd !in c.poller.channels
    requires op == TakeOut ==> w.known && w.events == NONE
    modifies c, c.poller
    ensures InStep(c, After(w, op))
    ensures c.poller.channels ==
            if After(w, op).known then old(c.poller.channels)[c.fd := c]
            else if w.known then old(c.poller.channels) - {c.fd} else old(c.poller.channels)
    ensures forall fd :: fd != c.fd || !(w.known || After(w, op).known) ==>
              && (fd in c.poller.interest <==> fd in old(c.poller.interest))
              && (fd in c.poller.interest ==> c.poller.interest[fd] == old(c.poller.interest[fd]))
  {
    match op
    case ReadOn => c.EnableReading();
    case ReadOff => c.DisableReading();
    case WriteOn => c.EnableWriting();
    case WriteOff => c.DisableWriting();
    case AllOff => c.DisableAll();
    case TakeOut => c.Remove();
  }

  /** All channels of a poller: each in step, and no others registered. */
  ghost predicate AllInStep(poller: EpollPoller, channels: seq<Channel>, wishes: seq<Wish>)
    reads poller, poller.channels.Values, channels
  {
    && poller.Valid() && |wishes| == |channels|
    && (forall i :: 0 <= i < |channels| ==> channels[i].poller == poller && InStep(channels[i], wishes[i]))
    && (forall i, j :: 0 <= i < j < |channels| ==> channels[i] != channels[j])
    && (forall fd :: fd in poller.channels ==> poller.channels[fd] in channels)
  }

  method PerformOne(poller: EpollPoller, channels: seq<Channel>, n: nat, op: Op, ghost wishes: seq<Wish>)
    requires AllInStep(poller, channels, wishes) && n < |channels|
    requires op == TakeOut ==> wishes[n].known && wishes[n].events == NONE
    requires !wishes[n].known && After(wishes[n], op).known ==>
               forall m :: 0 <= m < |channels| && m != n && channels[m].fd == channels[n].fd ==> !wishes[m].known
    modifies poller, channels
    ensures AllInStep(poller, channels, wishes[n := After(wishes[n], op)])
  {
    Perform(channels[n], op, wishes[n]);
  }

  function AllWanted(calls: seq<Call>, n: nat): (ws: seq<Wish>)
    ensures |ws| == n && forall i :: 0 <= i < n ==> ws[i] == Wanted(calls, i)
  {
    seq(n, i requires 0 <= i < n => Wanted(calls, i))
  }

  lemma WantedNext(calls: seq<Call>, k: nat, n: nat)
    requires k < |calls| && calls[k].channel < n
    ensures var ws, c := AllWanted(calls[..k], n), calls[k].channel;
            AllWanted(calls[..k + 1], n) == ws[c := After(ws[c], calls[k].op)]
  {
    assert calls[..k + 1][..k] == calls[..k];
  }

  function Descriptors(channels: seq<Channel>): (fds: seq<int>)
    ensures |fds| == |channels| && forall i :: 0 <= i < |fds| ==> fds[i] == channels[i].fd
  {
    seq(|channels|, i requires 0 <= i < |channels| => channels[i].fd)
  }

  /** For any channels and any calls in order, descriptors that are closed and used again included: every
      assert holds and no registration fails; in the end the poller's table holds exactly the registered
      channels, and the kernel's set exactly what the calls on each of them ask for. */
  method PerformAll(poller: EpollPoller, channels: seq<Channel>, calls: seq<Call>)
    requires poller.channels == map[] && poller.interest == map[]
    requires forall i :: 0 <= i < |channels| ==>
               channels[i].poller == poller && channels[i].index == NEW && channels[i].events == NONE
    requires forall i, j :: 0 <= i < j < |channels| ==> channels[i] != channels[j]
    requires Proper(calls, Descriptors(channels))
    modifies poller, channels
    ensures forall i :: 0 <= i < |channels| ==> InStep(channels[i], Wanted(calls, i))
    ensures forall i :: 0 <= i < |channels| && Wanted(calls, i).known ==>
              channels[i].fd in poller.channels && poller.channels[channels[i].fd] == channels[i]
    ensures forall fd :: fd in poller.channels ==>
              exists i :: 0 <= i < |channels| && poller.channels[fd] == channels[i] && channels[i].fd == fd
                          && Wanted(calls, i).known
    ensures forall fd :: fd in poller.interest ==>
              exists i :: 0 <= i < |channels| && channels[i].fd == fd && Wanted(calls, i).known
                          && Wanted(calls, i).events == poller.interest[fd] != NONE
  {
    for k := 0 to |calls|
      invariant AllInStep(poller, channels, AllWanted(calls[..k], |channels|))
    {
      WantedNext(calls, k, |channels|);
      assert InOrder(calls[..k], calls[k], Descriptors(channels));
      PerformOne(poller, channels, calls[k].channel, calls[k].op, AllWanted(calls[..k], |channels|));
    }
    assert calls[..|calls|] == calls;
    Registered(poller, channels, AllWanted(calls, |channels|));
  }

  /** The table and the kernel's set, read off the channels. */
  lemma Registered(poller: EpollPoller, channels: seq<Channel>, wishes: seq<Wish>)
    requires AllInStep(poller, channels, wishes)
    ensures forall fd :: fd in poller.channels ==>
              exists i :: 0 <= i < |channels| && poller.channels[fd] == channels[i] && channels[i].fd == fd
                          && wishes[i].known
    ensures forall fd :: fd in poller.interest ==>
              exists i :: 0 <= i < |channels| && channels[i].fd == fd && wishes[i].known
                          && wishes[i].events == poller.interest[fd] != NONE
  {
    forall fd | fd in poller.channels
      ensures exists i :: 0 <= i < |channels| && poller.channels[fd] == channels[i] && channels[i].fd == fd
                          && wishes[i].known
    {
      assert poller.Agrees(fd);
      var i :| 0 <= i < |channels| && channels[i] == poller.channels[fd];
      assert InStep(channels[i], wishes[i]);
    }
    forall fd | fd in poller.interest
      ensures exists i :: 0 <= i < |channels| && channels[i].fd == fd && wishes[i].known
                          && wishes[i].events == poller.interest[fd] != NONE
    {
      assert fd in poller.channels && poller.Agrees(fd);
      var i :| 0 <= i < |channels| && poller.channels[fd] == channels[i] && channels[i].fd == fd && wishes[i].known;
    }
  }
}
