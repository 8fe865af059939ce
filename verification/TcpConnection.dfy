/** The connection object: its buffers, its channel and, through the channel, the kernel's interest
    set, kept in step with ConnectionSpec. */
module TcpConnection {
  import opened NetBuffer
  import opened Poller
  import opened ConnectionSpec

  const EINTR: int := 4
  const EAGAIN: int := 11

  /** An end of file, or an error that is not to be tried again. */
  predicate Closes(r: ReadResult) {
    match r
    case Bytes(bytes) => bytes == ""
    case Errno(code) => code != EAGAIN && code != EINTR
  }

  class TcpConnection {
    var state: State
    const channel: Channel
    const inputBuffer: Buffer
    const outputBuffer: Buffer

    // What the outside has seen of this connection.
    var wire: string
    var completions: seq<Completion>
    var halfClosed: seq<string>
    var lateWrites: nat
    var callbacks: seq<bool>          // connectionCallback_, with connected() at the call
    var closeCallbacks: nat
    var accepted: string

    ghost function View(): Conn
      requires outputBuffer.Valid()
      reads this, channel, outputBuffer, outputBuffer.data
    {
      Conn(state, outputBuffer.Contents(), channel.events.write, wire, accepted, completions, halfClosed, lateWrites)
    }

    /** The channel's registration follows the life cycle. */
    ghost predicate Shape()
      reads this, channel, channel.poller, channel.poller.channels.Values
      reads inputBuffer, outputBuffer, inputBuffer.data, outputBuffer.data
    {
      && inputBuffer != outputBuffer
      && inputBuffer.Valid() && outputBuffer.Valid()
      && inputBuffer.data != outputBuffer.data
      && channel.Valid()
      && match state
         case Connecting => channel.index == NEW && channel.fd !in channel.poller.channels
         case Disconnected => channel.index != ADDED
         case _ => channel.index == ADDED && channel.events.read
    }

    ghost predicate Valid()
      reads this, channel, channel.poller, channel.poller.channels.Values
      reads inputBuffer, outputBuffer, inputBuffer.data, outputBuffer.data
    {
      Shape() && Inv(View())
    }

    /** An open connection is watched by the kernel for input, and for output exactly while bytes are
        waiting. One that is not open is not watched; once its channel is removed, the descriptor
        may belong to another connection. */
    lemma Watched()
      requires Valid()
      ensures if View().Open() then
                && channel.fd in channel.poller.interest
                && channel.poller.interest[channel.fd] == Interest(true, outputBuffer.Contents() != "")
              else channel.fd !in channel.poller.interest || (state == Disconnected && channel.index == NEW)
    {
      if channel.fd in channel.poller.channels {
        assert channel.poller.Agrees(channel.fd);
      }
    }

    constructor (poller: EpollPoller, sockfd: int)
      requires poller.Valid() && sockfd !in poller.channels
      ensures Valid() && View() == NEW_CONN
      ensures channel.poller == poller && channel.fd == sockfd
      ensures fresh(channel) && fresh(inputBuffer) && fresh(outputBuffer)
      ensures fresh(inputBuffer.data) && fresh(outputBuffer.data)
      ensures callbacks == [] && closeCallbacks == 0
    {
      state := Connecting;
      channel := new Channel(poller, sockfd);
      inputBuffer := new Buffer();
      outputBuffer := new Buffer();
      wire, accepted, completions, halfClosed, lateWrites := "", "", [], [], 0;
      callbacks, closeCallbacks := [], 0;
    }

    method ConnectEstablished()
      requires Valid()
      requires state == Connecting
      modifies this, channel, channel.poller
      ensures Valid()
      ensures View() == Established(old(View()))
      ensures callbacks == old(callbacks) + [true] && closeCallbacks == old(closeCallbacks)
    {
      state := Connected;
      channel.EnableReading();
      callbacks := callbacks + [true];
    }

    method HandleClose()
      requires Shape()
      requires View().Open()
      modifies this, channel, channel.poller
      ensures Shape()
      ensures View() == Closed(old(View()))
      ensures callbacks == old(callbacks) + [false] && closeCallbacks == old(closeCallbacks) + 1
    {
      state := Disconnected;
      channel.DisableAll();
      callbacks := callbacks + [false];
      closeCallbacks := closeCallbacks + 1;
    }

    /** ::write on the socket. */
    method SysWrite(bytes: string, w: WriteResult) returns (r: WriteResult)
      requires outputBuffer.Valid()
      modifies this`wire, this`lateWrites
      ensures r == Kernel(old(View()), bytes, w)
      ensures lateWrites == Attempt(old(View())).lateWrites
      ensures wire == if r.Wrote? then old(wire) + bytes[..r.n] else old(wire)
    {
      if halfClosed != [] {
        lateWrites := lateWrites + 1;
        return Fault;
      }
      r := w;
      if w.Wrote? {
        if w.n > |bytes| { r := Wrote(|bytes|); }
        wire := wire + bytes[..r.n];
      }
    }

    method QueueWriteComplete()
      modifies this`completions
      ensures completions == old(completions) + [Completion(|wire|, |accepted|)]
    {
      completions := completions + [Completion(|wire|, |accepted|)];
    }

    /** The direct write of sendInLoop. A fault closes the connection. */
    method TryWrite(message: string, w: WriteResult) returns (remaining: string, faultError: bool)
      requires Shape()
      requires View().Open() && !View().writing && View().out == ""
      modifies this, channel, channel.poller
      ensures Shape()
      ensures var r := Kernel(old(View()), message, w); var tried := Attempt(old(View()));
              && faultError == (r == Fault)
              && if r == Fault then View() == Closed(tried)
                 else
                   var n := if r.Wrote? then r.n else 0;
                   var sent := tried.(accepted := tried.accepted + message, wire := tried.wire + message[..n]);
                   && remaining == message[n..]
                   && View() == if r.Wrote? && n == |message| then Complete(sent) else sent
    {
      remaining, faultError := message, false;
      var r := SysWrite(message, w);
      match r {
        case Wrote(n) =>
          remaining := message[n..];
          accepted := accepted + message;
          if remaining == "" { QueueWriteComplete(); }
        case WouldBlock =>
          accepted := accepted + message;
        case Fault =>
          faultError := true;
          HandleClose();
      }
    }

    /** Keeps bytes for later and asks for write events. */
    method HoldBack(bytes: string)
      requires Shape()
      requires View().Open()
      modifies channel, channel.poller, outputBuffer, outputBuffer.data
      ensures Shape()
      ensures outputBuffer.data == old(outputBuffer.data) || fresh(outputBuffer.data)
      ensures View() == old(View()).(out := old(View()).out + bytes, writing := true)
    {
      outputBuffer.Append(bytes);
      if !channel.IsWriting() {
        channel.EnableWriting();
      }
    }

    method SendInLoop(message: string, w: WriteResult)
      requires Valid()
      requires state != Connecting
      modifies this, channel, channel.poller, outputBuffer, outputBuffer.data
      ensures Valid()
      ensures outputBuffer.data == old(outputBuffer.data) || fresh(outputBuffer.data)
      ensures View() == SentInLoop(old(View()), message, w)
    {
      ghost var v := View();
      if state == Disconnected { return; }
      var remaining, faultError := message, false;
      if !channel.IsWriting() && outputBuffer.ReadableBytes() == 0 {
        remaining, faultError := TryWrite(message, w);
      } else {
        accepted := accepted + message;
      }
      if !faultError && remaining != "" {
        HoldBack(remaining);
      }
      assert View() == SentInLoop(v, message, w);
      SendKeepsInv(v, message, w);
    }

    /** send(). On another thread than the loop's it only posts: each of `posted` is the message of a
        sendInLoop that the loop runs later, which is the event DeferredSend. */
    method Send(message: string, inLoopThread: bool, w: WriteResult) returns (posted: seq<string>)
      requires Valid()
      modifies this, channel, channel.poller, outputBuffer, outputBuffer.data
      ensures Valid()
      ensures outputBuffer.data == old(outputBuffer.data) || fresh(outputBuffer.data)
      ensures inLoopThread ==> View() == Sent(old(View()), message, w) && posted == []
      ensures !inLoopThread ==> View() == old(View()) && posted == if state == Connected then [message] else []
    {
      posted := [];
      if state == Connected {
        if inLoopThread {
          SendInLoop(message, w);
        } else {
          posted := [message];
        }
      }
    }

    /** The loop runs a posted sendInLoop, in whatever state the connection is in by then. */
    method RunPosted(message: string, w: WriteResult)
      requires Valid()
      requires state != Connecting
      modifies this, channel, channel.poller, outputBuffer, outputBuffer.data
      ensures Valid()
      ensures outputBuffer.data == old(outputBuffer.data) || fresh(outputBuffer.data)
      ensures View() == Step(old(View()), DeferredSend(message, w))
    {
      SendInLoop(message, w);
    }

    method ShutdownInLoop()
      requires outputBuffer.Valid()
      modifies this`halfClosed
      ensures View() == HalfClosedIfDrained(old(View()))
    {
      if !channel.IsWriting() {
        halfClosed := halfClosed + [wire];
      }
    }

    /** What shutdown() runs on the loop: at once when called there, otherwise posted. */
    method ShutdownFunctor()
      requires Valid()
      modifies this
      ensures Valid()
      ensures View() == ShutDown(old(View()))
    {
      StepKeepsInv(View(), ConnectionSpec.Shutdown);
      if state == Connected {
        state := Disconnecting;
        ShutdownInLoop();
      }
    }

    /** shutdown(). `posted` says that ShutdownFunctor is left to the loop. */
    method Shutdown(inLoopThread: bool) returns (posted: bool)
      requires Valid()
      modifies this
      ensures Valid()
      ensures posted <==> !inLoopThread
      ensures View() == if inLoopThread then ShutDown(old(View())) else old(View())
    {
      posted := !inLoopThread;
      if inLoopThread {
        ShutdownFunctor();
      }
    }

    method HandleWrite(w: WriteResult)
      requires Valid()
      modifies this, channel, channel.poller, outputBuffer
      ensures Valid()
      ensures outputBuffer.data == old(outputBuffer.data)
      ensures View() == Written(old(View()), w)
      ensures WrittenAsFarAsTaken(old(View()), w, View())
      ensures completions == old(completions) + if old(WholeWrite(View(), Writable(w)))
                                                then [Completion(|accepted|, |accepted|)] else []
    {
      StepKeepsInv(View(), Writable(w));
      CompletionsExactly(View(), Writable(w));
      WritableExactly(View(), w);
      if !channel.IsWriting() {
        channel.DisableWriting();
        return;
      }
      WriteOut(w);
    }

    /** The write of handleWrite. */
    method WriteOut(w: WriteResult)
      requires Shape()
      requires View().Open() && View().writing
      modifies this, channel, channel.poller, outputBuffer
      ensures Shape() && outputBuffer.data == old(outputBuffer.data)
      ensures View() == Written(old(View()), w)
    {
      var bytes := outputBuffer.Peek();
      var r := SysWrite(bytes, w);
      match r {
        case Wrote(n) => Took(n);
        case WouldBlock =>
        case Fault => HandleClose();
      }
    }

    /** The kernel has taken n bytes from the output buffer. */
    method Took(n: nat)
      requires Shape()
      requires View().Open() && n <= |View().out|
      modifies this, channel, channel.poller, outputBuffer
      ensures Shape() && outputBuffer.data == old(outputBuffer.data)
      ensures var v := old(View()); var left := v.(out := v.out[n..]);
              View() == if n == 0 || left.out != "" then left else AllOut(left)
    {
      if n > 0 {
        outputBuffer.Retrieve(n);
        if outputBuffer.ReadableBytes() == 0 {
          Drained();
        }
      }
    }

    /** The last byte of the output buffer has gone out. */
    method Drained()
      requires Shape()
      requires View().Open()
      modifies this, channel, channel.poller
      ensures Shape()
      ensures View() == AllOut(old(View()))
      ensures completions == old(completions) + [Completion(|wire|, |accepted|)]
      ensures !View().writing && state == old(state) && wire == old(wire)
      ensures halfClosed == if state == Disconnecting then old(halfClosed) + [wire] else old(halfClosed)
    {
      channel.DisableWriting();
      QueueWriteComplete();
      if state == Disconnecting {
        ShutdownInLoop();
      }
    }

    /** True when the message callback is due. Only an end of file or a hard error needs an open
        connection: it calls handleClose, whose assert says so. */
    method HandleRead(r: ReadResult) returns (deliver: bool)
      requires Valid()
      requires r.Bytes? ==> |r.bytes| <= inputBuffer.ReadCapacity()
      requires Closes(r) ==> View().Open()
      modifies this, channel, channel.poller, inputBuffer, inputBuffer.data
      ensures Valid()
      ensures inputBuffer.data == old(inputBuffer.data) || fresh(inputBuffer.data)
      ensures deliver <==> r.Bytes? && r.bytes != ""
      ensures inputBuffer.Contents() == old(inputBuffer.Contents()) + if deliver then r.bytes else ""
      ensures var closes := if r.Bytes? then r.bytes == "" else r.code != 11 && r.code != 4;
              && View() == (if closes then Closed(old(View())) else old(View()))
              && callbacks == old(callbacks) + (if closes then [false] else [])
              && closeCallbacks == old(closeCallbacks) + if closes then 1 else 0
    {
      StepKeepsInv(View(), Close);
      var n, savedErrno := inputBuffer.ReadFd(r);
      if n > 0 {
        return true;
      } else if n == 0 {
        HandleClose();
      } else if savedErrno != EAGAIN && savedErrno != EINTR {
        HandleClose();
      }
      return false;
    }

    /** Run by the loop after the connection has left the table. */
    method ConnectDestroyed()
      requires Valid()
      requires channel.index != NEW
      modifies this, channel, channel.poller
      ensures Valid() && state == Disconnected && channel.index == NEW
      ensures channel.poller.channels == old(channel.poller.channels) - {channel.fd}
      ensures channel.poller.interest == old(channel.poller.interest) - {channel.fd}
      ensures View() == if old(state) == Disconnected then old(View()) else Closed(old(View()))
      ensures callbacks == old(callbacks) + if old(state) == Disconnected then [] else [false]
      ensures closeCallbacks == old(closeCallbacks)
    {
      StepKeepsInv(View(), Close);
      if state != Disconnected {
        state := Disconnected;
        channel.DisableAll();
        callbacks := callbacks + [false];
      }
      Watched();
      assert channel.IsNoneEvent();  // so the second disableAll is never needed
      channel.Remove();
    }
  }
}
