/** What a TcpConnection does with its output, as a value: the life-cycle state, the bytes held back,
    the write interest, and what the peer has been sent. */
module ConnectionSpec {

  datatype State = Connecting | Connected | Disconnecting | Disconnected

  /** What ::write reports. At most `n` bytes are taken. */
  datatype WriteResult = Wrote(n: nat) | WouldBlock | Fault

  /** A queued write-complete callback, with the byte counts at the moment it was queued. */
  datatype Completion = Completion(sent: nat, accepted: nat)

  datatype Conn = Conn(
    state: State,
    out: string,                   // readable bytes of outputBuffer_
    writing: bool,                 // the channel asks for write events
    wire: string,                  // every byte ::write has taken
    accepted: string,              // every message sendInLoop has not refused, in order
    completions: seq<Completion>,
    halfClosed: seq<string>,       // for every shutdownWrite, what had been sent by then
    lateWrites: nat)               // calls of ::write after a shutdownWrite
  {
    predicate Open() { state == Connected || state == Disconnecting }
  }

  const NEW_CONN := Conn(Connecting, "", false, "", "", [], [], 0)

  /** The kernel: it never takes more than it is given, and once the write side is shut down every
      write fails (EPIPE). */
  function Kernel(c: Conn, bytes: string, w: WriteResult): (r: WriteResult)
    ensures r.Wrote? ==> r.n <= |bytes|
  {
    if c.halfClosed != [] then Fault
    else match w
      case Wrote(n) => if n <= |bytes| then w else Wrote(|bytes|)
      case _ => w
  }

  function Attempt(c: Conn): Conn {
    if c.halfClosed != [] then c.(lateWrites := c.lateWrites + 1) else c
  }

  function Complete(c: Conn): Conn {
    c.(completions := c.completions + [Completion(|c.wire|, |c.accepted|)])
  }

  function Established(c: Conn): Conn {
    c.(state := Connected)
  }

  function Closed(c: Conn): Conn {
    c.(state := Disconnected, writing := false)
  }

  function SentInLoop(c: Conn, message: string, w: WriteResult): Conn {
    if c.state == Disconnected then c
    else if !c.writing && c.out == "" then
      var r := Kernel(c, message, w);
      var tried := Attempt(c);
      match r
      case Fault => Closed(tried)
      case WouldBlock =>
        tried.(accepted := c.accepted + message, out := message, writing := message != "")
      case Wrote(n) =>
        var sent := tried.(accepted := c.accepted + message, wire := c.wire + message[..n]);
        if n == |message| then Complete(sent) else sent.(out := message[n..], writing := true)
    else
      c.(accepted := c.accepted + message, out := c.out + message, writing := c.writing || message != "")
  }

  /** send() on the loop's own thread. */
  function Sent(c: Conn, message: string, w: WriteResult): Conn {
    if c.state == Connected then SentInLoop(c, message, w) else c
  }

  function HalfClosedIfDrained(c: Conn): Conn {
    if c.writing then c else c.(halfClosed := c.halfClosed + [c.wire])
  }

  /** shutdown() on the loop's own thread. */
  function ShutDown(c: Conn): Conn {
    if c.state == Connected then HalfClosedIfDrained(c.(state := Disconnecting)) else c
  }

  /** The output buffer has just been emptied. */
  function AllOut(c: Conn): Conn {
    var done := Complete(c.(writing := false));
    if c.state == Disconnecting then HalfClosedIfDrained(done) else done
  }

  function Written(c: Conn, w: WriteResult): Conn {
    if !c.writing then c
    else
      var tried := Attempt(c);
      match Kernel(c, c.out, w)
      case Fault => if c.Open() then Closed(tried) else tried
      case WouldBlock => tried
      case Wrote(n) =>
        var sent := tried.(wire := c.wire + c.out[..n], out := c.out[n..]);
        if n == 0 || sent.out != "" then sent else AllOut(sent)
  }

  // ----- runs -----

  /** DeferredSend is a send() made on another thread while the connection was Connected: its
      sendInLoop runs later, in whatever state the connection is in by then. */
  datatype Event =
    | Send(message: string, w: WriteResult)
    | DeferredSend(message: string, w: WriteResult)
    | Shutdown
    | Writable(w: WriteResult)
    | Close

  function Step(c: Conn, e: Event): Conn {
    match e
    case Send(m, w) => Sent(c, m, w)
    case DeferredSend(m, w) => if c.state == Connecting then c else SentInLoop(c, m, w)
    case Shutdown => ShutDown(c)
    case Writable(w) => Written(c, w)
    case Close => if c.Open() then Closed(c) else c
  }

  function Run(c: Conn, events: seq<Event>): Conn
    decreases |events|
  {
    if events == [] then c else Run(Step(c, events[0]), events[1..])
  }

  ghost predicate Inv(c: Conn) {
    // every accepted byte is on the wire or in the buffer, in order
    && c.wire + c.out == c.accepted
    // the channel asks for write events exactly while there is something to write
    && (c.state != Disconnected ==> (c.writing <==> c.out != ""))
    && (c.state == Disconnected ==> !c.writing)
    && (c.state == Connecting ==> c.accepted == "")
    // write-complete means complete
    && (forall k :: 0 <= k < |c.completions| ==> c.completions[k].sent == c.completions[k].accepted)
    // half-close: at most once, only after shutdown(), only when drained, and final
    && |c.halfClosed| <= 1
    && (c.state == Connecting || c.state == Connected ==> c.halfClosed == [])
    && (c.state == Disconnecting ==> (c.halfClosed != [] <==> c.out == ""))
    && (c.halfClosed != [] ==> c.halfClosed[0] == c.wire && c.out == "")
    && (c.halfClosed == [] ==> c.lateWrites == 0)
  }

  lemma StepKeepsInv(c: Conn, e: Event)
    requires Inv(c)
    ensures Inv(Step(c, e))
    ensures c.wire <= Step(c, e).wire && c.accepted <= Step(c, e).accepted
    ensures c.state == Disconnected ==> Step(c, e) == c
  {
    assert c.wire + "" == c.wire;
    match e
    case Send(m, w) => if c.state == Connected { SendKeepsInv(c, m, w); }
    case DeferredSend(m, w) => if c.state != Connecting { SendKeepsInv(c, m, w); }
    case Shutdown =>
    case Writable(w) =>
      if c.writing {
        var r := Kernel(c, c.out, w);
        if r.Wrote? {
          assert c.out[..r.n] + c.out[r.n..] == c.out;
          assert c.wire + c.out[..r.n] + c.out[r.n..] == c.accepted;
        }
      }
    case Close =>
  }

  lemma SendKeepsInv(c: Conn, m: string, w: WriteResult)
    requires Inv(c) && c.state != Connecting
    ensures Inv(SentInLoop(c, m, w))
    ensures c.wire <= SentInLoop(c, m, w).wire && c.accepted <= SentInLoop(c, m, w).accepted
  {
    if c.state != Disconnected {
      if !c.writing && c.out == "" {
        var r := Kernel(c, m, w);
        assert c.wire + "" == c.wire;
        if r.Wrote? {
          assert m[..r.n] + m[r.n..] == m;
          assert c.wire + m[..r.n] + m[r.n..] == c.wire + m;
          if r.n == |m| { assert m[..r.n] == m && c.wire + m + "" == c.wire + m; }
        }
      } else {
        assert c.wire + (c.out + m) == c.wire + c.out + m;
      }
    }
  }

  /** Output integrity, over every run from a fresh established connection: whatever the kernel does,
      the wire carries a prefix of what was accepted, and the rest is in the buffer. */
  lemma {:induction false} RunKeepsInv(c: Conn, events: seq<Event>)
    requires Inv(c)
    ensures Inv(Run(c, events))
    ensures c.wire <= Run(c, events).wire <= Run(c, events).accepted
    decreases |events|
  {
    if events == [] {
    } else {
      StepKeepsInv(c, events[0]);
      RunKeepsInv(Step(c, events[0]), events[1..]);
    }
  }

  lemma {:induction false} RunSplit(c: Conn, a: seq<Event>, b: seq<Event>)
    ensures Run(c, a + b) == Run(Run(c, a), b)
    decreases |a|
  {
    if a == [] {
      assert a + b == b;
    } else {
      assert (a + b)[1..] == a[1..] + b;
      RunSplit(Step(c, a[0]), a[1..], b);
    }
  }

  // ----- what each step does, field by field -----

  function Least(n: nat, m: nat): nat { if n < m then n else m }

  /** What becomes of bytes that are given to ::write at once, with nothing waiting before them. */
  ghost predicate GivenToWrite(c: Conn, m: string, w: WriteResult, d: Conn) {
    match w
    case Fault => d.state == Disconnected && d.wire == c.wire && d.accepted == c.accepted && d.out == c.out
    case WouldBlock => d.state == c.state && d.wire == c.wire && d.accepted == c.accepted + m && d.out == m
    case Wrote(n) =>
      var k := Least(n, |m|);
      d.state == c.state && d.wire == c.wire + m[..k] && d.accepted == c.accepted + m && d.out == m[k..]
  }

  /** What becomes of a message that is not refused for the state of the connection: it is written as far as
      it goes if nothing waits, and waits behind what does. */
  ghost predicate Handed(c: Conn, m: string, w: WriteResult, d: Conn) {
    if c.out == "" then GivenToWrite(c, m, if c.halfClosed == [] then w else Fault, d)
    else d.state == c.state && d.wire == c.wire && d.accepted == c.accepted + m && d.out == c.out + m
  }

  /** What becomes of the waiting bytes when the descriptor is writable. */
  ghost predicate WrittenAsFarAsTaken(c: Conn, w: WriteResult, d: Conn) {
    if c.out == "" || !c.Open() then d == c
    else
      d.accepted == c.accepted &&
      match w
      case Fault => d.state == Disconnected && d.wire == c.wire && d.out == c.out
      case WouldBlock => d == c
      case Wrote(n) =>
        var k := Least(n, |c.out|);
        && d.state == c.state && d.wire == c.wire + c.out[..k] && d.out == c.out[k..]
        && d.halfClosed == if c.state == Disconnecting && k == |c.out| then [c.accepted] else []
  }

  /** Every event and every result of ::write: what has been sent, what waits, what has been accepted, and
      the state. */
  lemma StepExactly(c: Conn, e: Event)
    requires Inv(c)
    ensures var d := Step(c, e);
            match e
            case Send(m, w) => if c.state == Connected then Handed(c, m, w, d) else d == c
            case DeferredSend(m, w) => if c.Open() then Handed(c, m, w, d) else d == c
            case Shutdown =>
              if c.state != Connected then d == c
              else d.state == Disconnecting && d.wire == c.wire && d.out == c.out && d.accepted == c.accepted
                   && d.halfClosed == if c.out == "" then [c.wire] else []
            case Writable(w) => WrittenAsFarAsTaken(c, w, d)
            case Close =>
              if c.Open() then d.state == Disconnected && d.wire == c.wire && d.out == c.out && d.accepted == c.accepted
              else d == c
  {
    if e.Writable? {
      WritableExactly(c, e.w);
    } else {
      assert c.wire + "" == c.wire;
    }
  }

  lemma WritableExactly(c: Conn, w: WriteResult)
    requires Inv(c)
    ensures WrittenAsFarAsTaken(c, w, Written(c, w))
  {
    StepKeepsInv(c, Writable(w));
    var d := Written(c, w);
    assert d.wire + "" == d.wire;
  }

  /** A write is made that takes all there is: the rest of the buffer, or a message with nothing before it. */
  predicate WholeWrite(c: Conn, e: Event) {
    match e
    case Send(m, w) => c.state == Connected && c.out == "" && w.Wrote? && w.n >= |m|
    case DeferredSend(m, w) => c.Open() && c.halfClosed == [] && c.out == "" && w.Wrote? && w.n >= |m|
    case Writable(w) => c.Open() && c.out != "" && w.Wrote? && w.n >= |c.out|
    case _ => false
  }

  /** Such a write, and nothing else, queues one write-complete callback, and then all that has been accepted
      is out and the connection is open. */
  lemma CompletionsExactly(c: Conn, e: Event)
    requires Inv(c)
    ensures var d := Step(c, e);
            && d.completions == c.completions
                                + (if WholeWrite(c, e) then [Completion(|d.accepted|, |d.accepted|)] else [])
            && (WholeWrite(c, e) ==> d.Open() && d.out == "" && d.wire == d.accepted)
  {
    var d := Step(c, e);
    StepKeepsInv(c, e);
    StepExactly(c, e);
    assert c.completions + [] == c.completions;
    assert d.out == "" ==> d.wire + d.out == d.wire;
  }

  /** How many of the events are such writes. */
  function WholeWrites(c: Conn, events: seq<Event>): nat
    decreases |events|
  {
    if events == [] then 0
    else (if WholeWrite(c, events[0]) then 1 else 0) + WholeWrites(Step(c, events[0]), events[1..])
  }

  /** Over every run there are as many write-complete callbacks as writes that took all there was; none is
      missing and none is made up. */
  lemma {:induction false} CompletionsOverRun(c: Conn, events: seq<Event>)
    requires Inv(c)
    ensures |Run(c, events).completions| == |c.completions| + WholeWrites(c, events)
    ensures c.completions <= Run(c, events).completions
    decreases |events|
  {
    if events == [] {
    } else {
      StepKeepsInv(c, events[0]);
      CompletionsExactly(c, events[0]);
      CompletionsOverRun(Step(c, events[0]), events[1..]);
    }
  }

  /** A sendInLoop posted by another thread that runs after the half-close. */
  predicate LateSend(c: Conn, e: Event) {
    e.DeferredSend? && c.state == Disconnecting && c.out == ""
  }

  lemma StepLate(c: Conn, e: Event)
    requires Inv(c)
    ensures Step(c, e).lateWrites == c.lateWrites + if LateSend(c, e) then 1 else 0
    ensures LateSend(c, e) ==> Step(c, e).state == Disconnected && Step(c, e).accepted == c.accepted
  {}

  /** After the half-close ::write is called again exactly when some late sendInLoop runs. */
  lemma {:induction false} WritesAfterHalfClose(c: Conn, events: seq<Event>)
    requires Inv(c)
    ensures Run(c, events).lateWrites > c.lateWrites
            <==> exists i :: 0 <= i < |events| && LateSend(Run(c, events[..i]), events[i])
    ensures Run(c, events).lateWrites >= c.lateWrites
    decreases |events|
  {
    if events == [] {
    } else {
      var next, rest := Step(c, events[0]), events[1..];
      StepKeepsInv(c, events[0]);
      StepLate(c, events[0]);
      WritesAfterHalfClose(next, rest);
      assert Run(c, events[..0]) == c;
      forall i | 0 <= i < |rest|
        ensures Run(next, rest[..i]) == Run(c, events[..i + 1]) && rest[i] == events[i + 1]
      {
        assert events[..i + 1][1..] == rest[..i];
      }
      if exists i :: 0 <= i < |events| && LateSend(Run(c, events[..i]), events[i]) {
        var i :| 0 <= i < |events| && LateSend(Run(c, events[..i]), events[i]);
        if i > 0 { assert LateSend(Run(next, rest[..i - 1]), rest[i - 1]); }
      }
    }
  }

  /** When every send is made on the loop's thread, nothing is written once the write side is
      closed, and the write side is closed at most once, when everything accepted has been sent. */
  lemma LoopThreadHalfClose(c: Conn, events: seq<Event>)
    requires Inv(c) && c.halfClosed == []
    requires forall i :: 0 <= i < |events| ==> !events[i].DeferredSend?
    ensures var d := Run(c, events);
            d.lateWrites == 0 && (d.halfClosed == [] || d.halfClosed == [d.wire] == [d.accepted])
  {
    RunKeepsInv(c, events);
    WritesAfterHalfClose(c, events);
    var d := Run(c, events);
    if d.halfClosed != [] { assert d.wire + "" == d.wire; }
  }

  // ----- dispatch of one ready mask -----

  datatype Mask = Mask(hup: bool, err: bool, inp: bool, pri: bool, rdhup: bool, outp: bool)

  datatype ReadOutcome = Data | Eof | Again | Failed

  /** The three tests of handleEvent whose callbacks can close the connection. */
  predicate HangupTest(m: Mask) { m.hup && !m.inp }
  predicate ErrorTest(m: Mask) { m.err }
  predicate ReadTest(m: Mask) { m.inp || m.pri || m.rdhup }

  datatype Dispatched = AssertFails | Returns(conn: Conn)

  /** handleClose, which asserts that the connection is open. */
  function Closing(d: Dispatched): Dispatched {
    if d.AssertFails? || !d.conn.Open() then AssertFails else Returns(Closed(d.conn))
  }

  /** handleEvent: close, error, read, write, in this order. `replies` is what the message callback
      does to its own connection. */
  function HandleEvent(c: Conn, m: Mask, read: ReadOutcome, replies: seq<Event>, w: WriteResult): Dispatched {
    var d1 := if HangupTest(m) then Closing(Returns(c)) else Returns(c);
    var d2 := if ErrorTest(m) then Closing(d1) else d1;
    var d3 := if !ReadTest(m) || d2.AssertFails? then d2
              else if read == Again then d2
              else if read == Data then Returns(Run(d2.conn, replies))
              else Closing(d2);
    if !m.outp || d3.AssertFails? then d3 else Returns(Written(d3.conn, w))
  }

  /** handleClose can be entered twice in one dispatch, and its assert then fails, exactly when the
      ready mask passes two of the three tests. */
  lemma DoubleCloseIff(c: Conn, m: Mask)
    requires Inv(c) && c.Open()
    ensures (exists read, replies, w :: HandleEvent(c, m, read, replies, w).AssertFails?)
            <==> (m.err && m.hup && !m.inp) || (m.hup && !m.inp && (m.pri || m.rdhup))
                 || (m.err && (m.inp || m.pri || m.rdhup))
  {
    if (HangupTest(m) && ErrorTest(m)) || (HangupTest(m) && ReadTest(m)) || (ErrorTest(m) && ReadTest(m)) {
      assert HandleEvent(c, m, Eof, [], WouldBlock).AssertFails?;
    }
  }

  /** A dispatch that returns is a run of the connection's own steps, so it keeps Inv. */
  lemma HandleEventIsRun(c: Conn, m: Mask, read: ReadOutcome, replies: seq<Event>, w: WriteResult)
    requires HandleEvent(c, m, read, replies, w).Returns?
    ensures var first := if (m.hup && !m.inp) || m.err then [Close] else [];
            var second := if !(m.inp || m.pri || m.rdhup) || read == Again then []
                          else if read == Data then replies else [Close];
            var third := if m.outp then [Writable(w)] else [];
            HandleEvent(c, m, read, replies, w).conn == Run(c, first + second + third)
  {
    var first := if HangupTest(m) || ErrorTest(m) then [Close] else [];
    var second := if !ReadTest(m) || read == Again then [] else if read == Data then replies else [Close];
    var third := if m.outp then [Writable(w)] else [];
    RunSplit(c, first + second, third);
    RunSplit(c, first, second);
  }
}
