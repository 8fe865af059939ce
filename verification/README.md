# A verified model of two C++ web servers

The repository holds two servers: an epoll reactor (`src_epoll/`, headers in `include/csl/`) and a
Boost.Asio HTTP server (`src/asio/`). This project models their protocols in Dafny and proves what they
are for. `dafny verify dfyconfig.toml` checks all of it.

## What is modelled

**The reactor, from the kernel up.** `Buffer.dfy` is the three-region byte buffer on a real array; its
clients see a plain byte sequence. `Poller.dfy` keeps channels, the poller's table and the kernel's epoll
set in agreement; `PollerRuns.dfy` does so for any channels and any sequence of calls.
`ConnectionSpec.dfy` is what a connection does with its output, as a state machine over every result the
kernel may give; `TcpConnection.dfy` is the object, proved to take exactly those steps.
`LoopProtocol.dfy` is the task queue and the eventfd wakeup with any number of threads, each atomic section
a step of its own; `EventLoop.dfy` is the loop object, whose methods are runs of that protocol with
arbitrary steps of other threads between any two of their own. `TimerProtocol.dfy` and `TimerQueue.dfy` do
the same for the ordered timer set, the batch in flight and the timerfd. `Lifecycle.dfy` and
`LifecycleSteps.dfy` follow every connection through the base loop and the IO loops; `TcpServer.dfy` has the
table keyed by formatted names, `ThreadPool.dfy` the round-robin choice of a loop.

**HTTP on the reactor.** `HttpContext.dfy` is the incremental parser on the buffer. `Segmentation.dfy`
compares it, for every stream and every way of cutting it, with a reference that sees all lines at once.
`HttpServer.dfy` answers requests on the connection object. `ReplyStream.dfy` puts it together: what the
peer receives over every run of reads, partial writes and hang-ups. `RequestStream.dfy` and
`ReplyReading.dfy` close the circle with a client: requests as they are printed, responses as they are read.

**The Asio server.** `HttpParser.dfy` is the request-head parser, `HttpPrint.dfy` its round trip;
`HeadStatus.dfy` says, without the parser's own functions, what becomes of every text.
`SessionSpec.dfy` is a session as a state machine over completing reads and writes, `Session.dfy` the
object, `SessionRuns.dfy` the comparison of every run with a reference that has the whole stream.
`SessionErrors.dfy` says what a client whose head is refused is told.
`SessionStream.dfy` and `ResponseStream.dfy` again add the client; how it reads messages is in
`ResponseReader.dfy`, for both servers. `PathDecoding.dfy`, `Paths.dfy` and
`Router.dfy` lead from a request path to a file under the document root; `PathText.dfy` says what the path
operations do to texts. `ServerConfig.dfy` is the INI parser with its round trip, `ConfigReading.dfy` what
every text gives. `Text.dfy`, `Ctype.dfy` and `RequestText.dfy` are shared.

## How it is modelled

- A byte is a `char`. Character classes are those of the C locale.
- Kernel, socket, clock, allocator, file system and application enter as parameters: every theorem holds
  for all their answers. `write` may take any number of the bytes offered, or fail; once the write side is
  shut down it fails. `readv` may deliver anything that fits the two areas. epoll's ready masks are records
  of flags.
- Concurrency is a state machine whose steps are the source's atomic sections; a run is any sequence of
  enabled steps. Methods of the classes record, as ghosts, the steps they have taken.
- A class has the source's fields. Its `Valid()` ties them to the abstract state, and each method's
  contract says which abstract step it is.
- Timers live in a map from addresses, which the allocator may reuse; `std::set` is an ordered sequence,
  `std::map` iteration a sequence of pairs. Intervals are exact reals, times unbounded microseconds, and
  the wall clock and the monotonic clock are one.
- `std::getline`, `operator>>`, `std::stoull` (signs, wrap-around and overflow included) and
  `std::filesystem`'s lexical operations ([fs.path.generic], [fs.path.append], [fs.path.gen] of ISO C++20)
  are written out. Unescaping and the characters of a request head follow the code, not RFC 3986 or RFC 9112.

## What the proofs turned up

Some promises hold only under a condition. Each is stated as an equivalence, or with a run that breaks it.

- A malformed request line ends the parsing of its read: the next complete line stays in the buffer until
  more bytes arrive. Two cuttings of one stream deliver different requests exactly when a request is
  completed after a malformed request line (`Segmentation.CuttingsDeliverAlikeIff`); any request behind a
  line without spaces is a witness (`RequestStream.LostBehindMalformed`). A cut after every line always
  gives what the reference gives (`Segmentation.LineByLineAgrees`). Requests and leftover bytes are the
  reference's for every cutting exactly when no malformed request line is followed by a complete line
  (`Segmentation.SegmentationIndependentIff`).
- A task queued on the loop's own thread before `loop()` is not announced and waits for an unrelated event
  or the poll timeout; this is the only way to lose a wakeup (`LoopProtocol.NoLostWakeup`).
- A `send` from another thread that runs after the half-close writes to a closed socket and closes the
  connection; this is the only write after the half-close (`ConnectionSpec.WritesAfterHalfClose`).
- A ready mask that passes two of the three closing tests enters `handleClose` twice
  (`ConnectionSpec.DoubleCloseIff`).
- A timer cannot be cancelled from a callback of its own batch (`TimerProtocol.CancelEffect`,
  `TimerProtocol.SelfCancelIsLost`). The sequence number in a handle is never compared, so that a stale
  handle deletes whatever waiting timer lies at its address (`TimerProtocol.StaleHandleCancelsAnother`).
- Connection names that are cut at 63 characters collide (`TcpServer.NamesDistinctIff`).
- Never taken: the second `disableAll` in `connectDestroyed`, the `EPOLL_CTL_DEL` in `removeChannel`, and
  the error branch of `handleRequest` when it is reached from the session.
- The epoll server announces no length for an empty body, and it sends the body in answer to HEAD too. A
  client that follows section 6.3 of RFC 9112 reads its answers back exactly when none of them, up to the
  first that closes, has a body in answer to HEAD or with a 1xx, 204 or 304 status, and no other one is
  empty on a connection that stays open (`ReplyReading.PipelineReadIff`). Without a callback every HEAD
  request breaks it, and a callback that leaves the response untouched does so for a plain GET
  (`ReplyReading.HeadAnswerBreaks`, `ReplyReading.EmptyAnswerBreaks`). The Asio server always announces
  the length and omits the body for HEAD; what remains is a body given to a 1xx, 204 or 304 status
  (`ResponseStream.PipelineReadIff`).
- Where comments and code differ, the model follows the code: the buffer's prependable region is 8 bytes, not
  1 KB (`include/csl/net/Buffer.h:30`); registrations do change while an event is handled
  (`src_epoll/net/Channel.cpp:5`); `EINTR` on a write is fatal, on a read it is not.

## Model

| member | source | states |
|---|---|---|
| `NetBuffer.CopyDown` | include/csl/net/Buffer.h:177-179 | copying down inside one array moves the bytes unchanged and touches nothing else, as long as the destination is not behind the source |
| `NetBuffer.Buffer.constructor` | include/csl/net/Buffer.h:34-40 | a new buffer is empty, its readable region starts at offset 8, and it has the asked-for room |
| `NetBuffer.Buffer.WritableBytes` | include/csl/net/Buffer.h:44-56 | the three regions add up to the array |
| `NetBuffer.Buffer.Peek` | include/csl/net/Buffer.h:61-63 | the readable bytes |
| `NetBuffer.Buffer.Retrieve` | include/csl/net/Buffer.h:66-73 | drops exactly the first len readable bytes; the indices are reset only when nothing is left |
| `NetBuffer.Buffer.RetrieveUntil` | include/csl/net/Buffer.h:76-80 | drops everything before a position |
| `NetBuffer.Buffer.RetrieveAll` | include/csl/net/Buffer.h:83-86 | empties the buffer |
| `NetBuffer.Buffer.RetrieveAsString` | include/csl/net/Buffer.h:94-99 | the result and what remains are the old contents, cut at len |
| `NetBuffer.Buffer.RetrieveAllAsString` | include/csl/net/Buffer.h:89-91 | returns all the contents and leaves none |
| `NetBuffer.Buffer.EnsureWritableBytes` | include/csl/net/Buffer.h:104-109 | the contents stay, at least len bytes become writable, and nothing moves when there was room |
| `NetBuffer.Buffer.HasWritten` | include/csl/net/Buffer.h:112-115 | exactly the bytes placed behind the contents are added to them |
| `NetBuffer.Buffer.Append` | include/csl/net/Buffer.h:118-126 | contents become contents + bytes, for every size and every state of the three regions |
| `NetBuffer.Buffer.Prepend` | include/csl/net/Buffer.h:140-145 | contents become bytes + contents |
| `NetBuffer.Buffer.Shrink` | include/csl/net/Buffer.h:151-156 | the contents stay, with the asked-for reserve behind them |
| `NetBuffer.Buffer.Swap` | include/csl/net/Buffer.h:160-164 | the two buffers exchange contents |
| `NetBuffer.Buffer.MakeSpace` | include/csl/net/Buffer.h:170-183 | the contents stay and len bytes become writable; the array is kept if and only if the free room suffices, and then the readable bytes started beyond offset 8, so that the copy moves left |
| `NetBuffer.Buffer.ReadFd` | src_epoll/net/Buffer.cpp:16-44 | exactly the n bytes read are appended, in order, across the writable region and the overflow area; an error changes nothing and is reported |
| `HttpContext.RequestLineOk` | src_epoll/http/HttpServer.cpp:152-198 | a request line is accepted if and only if it has two spaces |
| `HttpContext.HttpContext.ProcessRequestLine` | src_epoll/http/HttpServer.cpp:152-198 | the fields a request line gives; a malformed one can leave its method behind; which method and version each word is, is in `RequestStream.MethodAndVersion` |
| `HttpContext.HttpContext.TakeLine` | src_epoll/http/HttpServer.cpp:25-30 | takes the first complete line, if there is one, and no other byte |
| `HttpContext.HttpContext.ConsumeLine` | src_epoll/http/HttpServer.cpp:99-148 | what the loop does with one line, in either state |
| `HttpContext.HttpContext.ParseRequest` | src_epoll/http/HttpServer.cpp:97-150 | on the buffer in place: the outcome, the parser state and the unconsumed bytes that Parse gives on values |
| `HttpContext.HttpContext.Reset` | src_epoll/http/HttpServer.cpp:200-203 | the parser is as new |
| `HttpContext.TrimBlanksIs` | src_epoll/http/HttpServer.cpp:128-137 | what is cut off is spaces and tabs on either side, and none is left at the ends |
| `HttpContext.HeaderLineIs` | src_epoll/http/HttpServer.cpp:125-139 | a line without a colon changes nothing; any other sets the text before its first colon to the text behind it, without the blanks around that |
| `RequestStream.PrintThenParse` | src_epoll/http/HttpServer.cpp:97-198 | a request printed by a client parses to its path, query, headers and the method and version that `RequestStream.MethodAndVersion` names, and no byte behind it is consumed |
| `RequestStream.MethodAndVersion` | src_epoll/http/HttpServer.cpp:162-194 | GET, POST and HEAD, and HTTP/1.1 and HTTP/1.0, arrive as the methods and versions of those names and nothing else does; every other method is invalid, every other version unknown |
| `RequestStream.PipelineDelivered` | src_epoll/http/HttpServer.cpp:242-264 | pipelined requests reach onRequest as they were written, all of them and nothing else, for every way of cutting the bytes into reads |
| `RequestStream.LostBehindMalformed` | src_epoll/http/HttpServer.cpp:107-109 | a witness for every request: behind a line without spaces it is lost when both come in one read, and delivered when they come in two |
| `Segmentation.TurnFollows` | src_epoll/http/HttpServer.cpp:99-148 | one line through the parser and through the line-at-a-time reference: same result, same request |
| `Segmentation.ParseFollows` | src_epoll/http/HttpServer.cpp:97-150 | one parseRequest call consumes whole lines and ends where the reference ends on them |
| `Segmentation.DrainFollows` | src_epoll/http/HttpServer.cpp:256-263 | so does one onMessage call, over several requests |
| `Segmentation.FeedTracks` | src_epoll/http/HttpServer.cpp:242-264 | so do all onMessage calls, for any chunks |
| `Segmentation.DeliveredIsPrefix` | src_epoll/http/HttpServer.cpp:242-264 | for every cutting of every stream, the requests delivered are a prefix of the reference's |
| `Segmentation.SegmentationIndependent` | src_epoll/http/HttpServer.cpp:97-203 | with no malformed request line but possibly the last line, delivered requests and leftover bytes are the reference's for every cutting; with none at all, the parser's fields too |
| `Segmentation.StalledDrain` | src_epoll/http/HttpServer.cpp:107-109 | a malformed request line followed by another complete line leaves that line in the buffer |
| `Segmentation.SegmentationIndependentIff` | src_epoll/http/HttpServer.cpp:256-259 | all cuttings of a stream agree with the reference if and only if no malformed request line is followed by a complete line |
| `Segmentation.LineByLineAgrees` | src_epoll/http/HttpServer.cpp:256-259 | read line by line, every stream gives the requests and the leftover bytes of the reference |
| `Segmentation.NoneLateDelivered` | src_epoll/http/HttpServer.cpp:97-203 | a stream in which no request is completed after a malformed request line gives the requests of the reference, for every cutting |
| `Segmentation.LateDeliversLess` | src_epoll/http/HttpServer.cpp:107-109 | any other stream gives less in one read than line by line |
| `Segmentation.CuttingsDeliverAlikeIff` | src_epoll/http/HttpServer.cpp:242-264 | any two cuttings of a stream deliver the same requests if and only if no request is completed after a malformed request line |
| `Poller.Channel.SetEvents` | src_epoll/net/Channel.cpp:56-79 | setting the mask keeps channel, poller and kernel in agreement, and says what each of them is afterwards |
| `Poller.Channel.EnableReading` | src_epoll/net/Channel.cpp:56-59 | registers the descriptor, or changes its registration, for reading |
| `Poller.Channel.DisableReading` | src_epoll/net/Channel.cpp:61-64 | drops reading; the registration goes when nothing is left |
| `Poller.Channel.EnableWriting` | src_epoll/net/Channel.cpp:66-69 | registers the descriptor, or changes its registration, for writing |
| `Poller.Channel.DisableWriting` | src_epoll/net/Channel.cpp:71-74 | drops writing; the registration goes when nothing is left |
| `Poller.Channel.DisableAll` | src_epoll/net/Channel.cpp:76-79 | the descriptor leaves the kernel's set |
| `Poller.Channel.Remove` | src_epoll/net/Channel.cpp:81-85 | the channel leaves the poller's table; the kernel need not be told |
| `Poller.EpollPoller.Update` | src_epoll/net/EpollPoller.cpp:166-185 | no epoll_ctl call fails: ADD meets an absent descriptor, MOD and DEL a present one |
| `Poller.EpollPoller.UpdateChannel` | src_epoll/net/EpollPoller.cpp:92-125 | restores the agreement of table, index and kernel set after a change of mask; the asserts hold |
| `Poller.EpollPoller.RemoveChannel` | src_epoll/net/EpollPoller.cpp:129-150 | removes the table entry; the branch that would delete a registration is never taken |
| `PollerRuns.PerformAll` | src_epoll/net/EpollPoller.cpp:92-150 | for any channels, descriptors used again included, and any calls that meet the asserts of the source: no registration fails, the table holds exactly the registered channels, and the kernel's set is exactly what the calls on each of them ask for |
| `ConnectionSpec.StepKeepsInv` | src_epoll/net/TcpConnection.cpp:112-267 | send, deferred send, shutdown, writable and close keep the invariant of the output side; wire and accepted bytes only grow; nothing happens after Disconnected |
| `ConnectionSpec.SendKeepsInv` | src_epoll/net/TcpConnection.cpp:227-258 | the same for sendInLoop in any state but Connecting, for every result of write |
| `ConnectionSpec.RunKeepsInv` | src_epoll/net/TcpConnection.cpp:170-258 | over every run, wire + output buffer is what was accepted; write interest holds exactly while the buffer is not empty; write-complete is queued only when every accepted byte is out |
| `ConnectionSpec.StepExactly` | src_epoll/net/TcpConnection.cpp:112-267 | every event in every state, for every result of write: what is on the wire, what waits, what is accepted, when the write side is shut, and which state follows |
| `ConnectionSpec.CompletionsExactly` | src_epoll/net/TcpConnection.cpp:182-243 | a step queues one write-complete callback, for all that has been accepted, if and only if its write takes all there is; no other step queues any |
| `ConnectionSpec.CompletionsOverRun` | src_epoll/net/TcpConnection.cpp:182-243 | over every run there are as many write-complete callbacks as writes that took all there was |
| `ConnectionSpec.WritesAfterHalfClose` | src_epoll/net/TcpConnection.cpp:112-135 | after the half-close, write is called again if and only if a send posted by another thread runs late |
| `ConnectionSpec.LoopThreadHalfClose` | src_epoll/net/TcpConnection.cpp:187-189 | with sends made on the loop's thread, shutdownWrite is called at most once, when all that was accepted is out, and nothing is written afterwards |
| `ConnectionSpec.DoubleCloseIff` | src_epoll/net/Channel.cpp:103-115 | handleClose can be entered twice in one dispatch, failing its assert, if and only if the ready mask passes two of the three tests |
| `ConnectionSpec.HandleEventIsRun` | src_epoll/net/Channel.cpp:89-123 | a dispatch is a run of the connection's own steps, in the order close or error, read, write |
| `TcpConnection.TcpConnection.constructor` | src_epoll/net/TcpConnection.cpp:24-50 | a new connection is Connecting, silent and not watched |
| `TcpConnection.TcpConnection.Watched` | src_epoll/net/TcpConnection.cpp:170-258 | the kernel watches an open connection for input, and for output exactly while bytes are waiting; a closed one not at all |
| `TcpConnection.TcpConnection.ConnectEstablished` | src_epoll/net/TcpConnection.cpp:76-89 | Connecting becomes Connected, reading is enabled, one callback |
| `TcpConnection.TcpConnection.ConnectDestroyed` | src_epoll/net/TcpConnection.cpp:91-104 | the channel leaves poller and kernel; one down callback if the connection was still open; the second disableAll is never needed |
| `TcpConnection.TcpConnection.Send` | src_epoll/net/TcpConnection.cpp:112-125 | sends only when Connected: at once on the loop's thread, by a posted sendInLoop on any other |
| `TcpConnection.TcpConnection.RunPosted` | src_epoll/net/TcpConnection.cpp:118-122 | a posted sendInLoop, in whatever state the connection is by then, is the event DeferredSend |
| `TcpConnection.TcpConnection.Shutdown` | src_epoll/net/TcpConnection.cpp:127-135 | at once on the loop's thread, posted on any other |
| `TcpConnection.TcpConnection.ShutdownFunctor` | src_epoll/net/TcpConnection.cpp:129-134 | half-closes once, at once or when the buffer drains |
| `TcpConnection.TcpConnection.HandleRead` | src_epoll/net/TcpConnection.cpp:149-168 | bytes go to the input buffer and are delivered; end of file and hard errors close, with one down and one close callback; EAGAIN and EINTR do nothing |
| `TcpConnection.TcpConnection.HandleWrite` | src_epoll/net/TcpConnection.cpp:170-200 | the step Writable, on the objects: as many bytes as the kernel takes leave the buffer for the wire; when that is all of them, one write-complete is queued, and a pending half-close is done |
| `TcpConnection.TcpConnection.WriteOut` | src_epoll/net/TcpConnection.cpp:173-195 | the write of handleWrite, for every result |
| `TcpConnection.TcpConnection.Took` | src_epoll/net/TcpConnection.cpp:177-190 | the bytes taken leave the buffer |
| `TcpConnection.TcpConnection.Drained` | src_epoll/net/TcpConnection.cpp:179-190 | write interest off, one write-complete queued for all that has been accepted, pending half-close done |
| `TcpConnection.TcpConnection.HandleClose` | src_epoll/net/TcpConnection.cpp:202-217 | Disconnected, no interest left, one down callback, one close callback |
| `TcpConnection.TcpConnection.SendInLoop` | src_epoll/net/TcpConnection.cpp:227-258 | the step SentInLoop, on the objects: direct write, remainder buffered, write interest |
| `TcpConnection.TcpConnection.TryWrite` | src_epoll/net/TcpConnection.cpp:235-250 | the direct write, its remainder and its fault |
| `TcpConnection.TcpConnection.HoldBack` | src_epoll/net/TcpConnection.cpp:252-257 | bytes are appended and write events asked for |
| `TcpConnection.TcpConnection.ShutdownInLoop` | src_epoll/net/TcpConnection.cpp:260-267 | shutdownWrite exactly when nothing is waiting to be written |
| `HttpServer.HandledIsDrained` | src_epoll/http/HttpServer.cpp:256-263 | onMessage is: parse all there is, answer each request in turn |
| `HttpServer.RefusedReply` | src_epoll/http/HttpServer.cpp:266-292 | whatever the callback, an invalid method or version is answered with 400, announced and carried out as the last answer on the connection |
| `ReplyStream.RefusedIsLast` | src_epoll/http/HttpServer.cpp:266-292 | nothing that follows such a request in the stream is answered |
| `HttpServer.KeptOpenIff` | src_epoll/http/HttpServer.cpp:32-37 | an HTTP/1.1 connection is kept unless the request says close, an HTTP/1.0 one only if it says Keep-Alive |
| `HttpServer.HttpServer.MakeResponse` | src_epoll/http/HttpServer.cpp:266-283 | an invalid request gets 400 Bad Request and the end of the connection; a callback gets an empty 200 response that closes exactly if the request asks for it; without a callback there is 404 Not Found |
| `HttpServer.AnswerText` | src_epoll/http/HttpServer.cpp:55-93 | the text of every answer, field by field: a length is announced only with a body, a type only with a body and when no header has exactly that name |
| `HttpServer.HttpServer.AppendToBuffer` | src_epoll/http/HttpServer.cpp:55-93 | appends the status line, the server's own fields, the headers and the body |
| `HttpServer.HttpServer.OnRequest` | src_epoll/http/HttpServer.cpp:266-292 | one answer is sent, then a closing one shuts down |
| `HttpServer.HttpServer.HandleOne` | src_epoll/http/HttpServer.cpp:256-263 | one turn of the loop, on the objects |
| `HttpServer.HttpServer.OnMessage` | src_epoll/http/HttpServer.cpp:242-264 | every request found is answered in order; the rest of the input stays in the buffer |
| `HttpServer.HttpServer.OnReadable` | src_epoll/net/TcpConnection.cpp:149-168 | a read of n bytes, the parsing of old and new bytes together, and the answers; without bytes the parser and its input are untouched, and the connection closes on end of file and hard errors |
| `ReplyStream.WireIsPrefixOfReplies` | src_epoll/http/HttpServer.cpp:256-292 | in every run of reads, partial writes and hang-ups, the peer has received a prefix of the answers, up to and including the first that closes, to the reference's requests |
| `ReplyStream.DrainedRepliesExactly` | src_epoll/http/HttpServer.cpp:256-292 | an open connection with an empty output buffer has sent exactly those answers and, after a closing one, has shut its write side once, behind the last byte |
| `ReplyStream.RunFeeds` | src_epoll/http/HttpServer.cpp:242-264 | within a run, the parser has seen the chunks read while the connection was open |
| `ReplyStream.PipelineAnswered` | src_epoll/http/HttpServer.cpp:256-292 | printed requests, cut in any way, are answered in order up to the first closing answer |
| `ReplyReading.ResponseRead` | src_epoll/http/HttpServer.cpp:55-93 | what a client reads of any answer to any request: the body of an answer to HEAD is taken for what follows it, and an empty answer without a length lasts until the connection ends |
| `ReplyReading.ReadRightIff` | src_epoll/http/HttpServer.cpp:55-93 | a client reads back every answer up to the first that closes, with no byte left over, if and only if none to HEAD, and none with a 1xx, 204 or 304 status, has a body, and no other one is empty on a connection that stays open |
| `ReplyReading.PipelineReadIff` | src_epoll/http/HttpServer.cpp:242-292 | end to end: the same for a client that has pipelined requests, however they were cut into reads and the answers into writes |
| `ReplyReading.HeadAnswerBreaks` | src_epoll/http/HttpServer.cpp:279-283 | a server without a callback breaks it for every HEAD request |
| `ReplyReading.EmptyAnswerBreaks` | src_epoll/http/HttpServer.cpp:71-78 | a callback that leaves the response untouched breaks it for every plain GET |
| `LoopProtocol.ApplyKeepsQueueInv` | src_epoll/net/EventLoop.cpp:141-153 | every step keeps: executed + rest of the batch + pending == queued |
| `LoopProtocol.ApplyKeepsWakeInv` | src_epoll/net/EventLoop.cpp:203-210 | every step keeps the wakeup invariant |
| `LoopProtocol.NoLostWakeup` | src_epoll/net/EventLoop.cpp:94-153 | at poll with tasks pending and no wakeup written or owed if and only if the loop's own thread has queued them before the first poll and no other thread has called anything; at poll with quit_ set, never |
| `LoopProtocol.UnannouncedIsReachable` | src_epoll/net/EventLoop.cpp:147-152 | a task queued before loop() does wait without a wakeup |
| `LoopProtocol.FifoExactlyOnce` | src_epoll/net/EventLoop.cpp:252-267 | tasks run once each, in the order queued: started, rest of the batch and pending make up what was queued |
| `LoopProtocol.BatchIsFixed` | src_epoll/net/EventLoop.cpp:262-266 | over every run inside a batch, the batch stays what it was: everything queued meanwhile is pending and none of it is started |
| `LoopProtocol.BatchIsWhatWasPending` | src_epoll/net/EventLoop.cpp:252-267 | from the swap to the end of the batch exactly what was pending at the swap is run; a functor queued during a batch never runs in it |
| `LoopProtocol.QueuedTasksGetServed` | src_epoll/net/EventLoop.cpp:100-117 | from any such poll, the wakeups owed and the loop's own steps alone start every queued task |
| `LoopProtocol.BatchDrains` | src_epoll/net/EventLoop.cpp:262-266 | a batch runs to its end |
| `LoopProtocol.CounterAndQuit` | src_epoll/net/EventLoop.cpp:122-153 | in every run the eventfd holds the number of wakeups written since it was last read, up to its maximum, and quit_ is set if and only if quit() has been called since loop() began |
| `LoopProtocol.DrainedAt` | src_epoll/net/EventLoop.cpp:240-249 | after any read of the eventfd, only what is written later is in it |
| `EventLoop.EventLoop.Wakeup` | src_epoll/net/EventLoop.cpp:203-210 | adds one to the eventfd, unless it is full |
| `EventLoop.EventLoop.Other` | src_epoll/net/EventLoop.cpp:122-153 | what queueInLoop and quit do on another thread, one atomic section at a time |
| `EventLoop.EventLoop.QueueInLoop` | src_epoll/net/EventLoop.cpp:141-153 | the task is queued; during a batch the eventfd is written |
| `EventLoop.EventLoop.QuitInLoop` | src_epoll/net/EventLoop.cpp:122-129 | on the loop's own thread, quit_ is set and nothing else |
| `EventLoop.EventLoop.TakePending` | src_epoll/net/EventLoop.cpp:253-260 | the batch is everything queued up to the swap |
| `EventLoop.EventLoop.RunBatch` | src_epoll/net/EventLoop.cpp:262-264 | the batch is run, in order |
| `EventLoop.EventLoop.RunFunctor` | src_epoll/net/EventLoop.cpp:262-264 | one functor, with whatever it queues and whatever other threads do meanwhile |
| `EventLoop.EventLoop.DoPendingFunctors` | src_epoll/net/EventLoop.cpp:252-267 | executes exactly what was pending at the swap, which includes all that was pending at its start, in order; everything queued after the swap is pending at the end |
| `EventLoop.EventLoop.PollAndDispatch` | src_epoll/net/EventLoop.cpp:101-113 | poll returns and the active channels are handled; if the eventfd is among them it is read empty, and holds afterwards only what was written behind that read |
| `EventLoop.EventLoop.Turn` | src_epoll/net/EventLoop.cpp:100-117 | one turn stops if and only if quit_ is set at the test, and otherwise runs all that was pending then, in order |
| `EventLoop.EventLoop.Loop` | src_epoll/net/EventLoop.cpp:94-120 | any number of turns from the call of loop(), every step of it a step of the protocol |
| `TimerProtocol.InsertedSorted` | src_epoll/timer/TimerQueue.cpp:133-144 | insertion keeps the set ordered and without duplicates |
| `TimerProtocol.ErasedSorted` | src_epoll/timer/TimerQueue.cpp:153-158 | erasing removes exactly the entry |
| `TimerProtocol.ExpiredCut` | src_epoll/timer/TimerQueue.cpp:178-184 | lower_bound of the sentry lies behind every due entry and before every other; the assert holds |
| `TimerProtocol.SplitExpired` | src_epoll/timer/TimerQueue.cpp:178-191 | the set splits into exactly the due entries and the rest, both in order |
| `TimerProtocol.HowMuchTimeFromNow` | src_epoll/timer/TimerQueue.cpp:50-60 | seconds and nanoseconds of the delay, at least 100 microseconds |
| `TimerProtocol.Deadline` | src_epoll/timer/TimerQueue.cpp:62-73 | when the armed timerfd fires |
| `TimerProtocol.ApplyKeepsPlaces` | src_epoll/timer/TimerQueue.cpp:123-211 | every step keeps: each key is its timer's expiration, each live timer is in exactly one of the set, the batch or on its way in |
| `TimerProtocol.ApplyKeepsIdentity` | src_epoll/timer/TimerQueue.cpp:107-211 | every step keeps: each number this queue has handed out, from the counter all queues share, belongs to one live timer or to a deleted one |
| `TimerProtocol.ApplyKeepsHistory` | src_epoll/timer/TimerQueue.cpp:161-211 | every step keeps: nothing ran early, no one-shot timer ran twice |
| `TimerProtocol.ApplyKeepsArmed` | src_epoll/timer/TimerQueue.cpp:123-211 | every step keeps the timerfd armed early enough |
| `TimerProtocol.TimerfdArmed` | src_epoll/timer/TimerQueue.cpp:123-211 | outside handleRead, a non-empty queue has its timerfd armed no later than the earliest expiration, or than 100 microseconds after the clock of some step that armed it |
| `TimerProtocol.StepArms` | src_epoll/timer/TimerQueue.cpp:123-211 | every step: the timerfd is armed for a new timer that is due before all others, and for the first one left at the end of handleRead, but no sooner than in 100 microseconds; no other step touches it |
| `TimerProtocol.TimersConserved` | src_epoll/timer/TimerQueue.cpp:107-211 | every timer this queue ever created is either deleted or live, and a live one is in exactly one place, under its current expiration |
| `TimerProtocol.FiringsInTime` | src_epoll/timer/TimerQueue.cpp:161-176 | no timer runs before it is due; a one-shot timer runs at most once |
| `TimerProtocol.AddTimeIs` | src_epoll/base/timestamp.cpp:123-126 | adding an interval in seconds moves a time by that many microseconds, rounded down to a whole one |
| `TimerProtocol.RepeatsAfterInterval` | src_epoll/timer/TimerQueue.cpp:29-36 | in every run, each firing of a repeating timer is due one interval after the time of the firing before it, up to one microsecond |
| `TimerProtocol.DeletedNeverRuns` | src_epoll/timer/TimerQueue.cpp:146-159 | a deleted timer never runs again, whatever happens |
| `TimerProtocol.CancelEffect` | src_epoll/timer/TimerQueue.cpp:146-159 | a cancel deletes its timer for good if and only if the timer is in timers_, and otherwise changes nothing |
| `TimerProtocol.SelfCancelIsLost` | src_epoll/timer/TimerQueue.cpp:193-198 | a repeating timer that cancels itself in its own callback is back in the queue afterwards |
| `TimerProtocol.StaleHandleCancelsAnother` | src_epoll/timer/TimerQueue.cpp:146-159 | cancelling through the handle of a timer that has run deletes another timer at the same address |
| `TimerQueue.TimerQueue.ResetTimerfd` | src_epoll/timer/TimerQueue.cpp:62-73 | arms the timerfd for the deadline |
| `TimerQueue.TimerQueue.Insert` | src_epoll/timer/TimerQueue.cpp:133-144 | the entry is in the set; the result says whether it is earlier than all before it |
| `TimerQueue.TimerQueue.NewTimer` | src_epoll/timer/TimerQueue.cpp:107-114 | a timer with a fresh number, and a handle for it |
| `TimerQueue.TimerQueue.AddTimerInLoop` | src_epoll/timer/TimerQueue.cpp:123-131 | the step Add: the timer is in the set, and the timerfd is re-armed when it is the earliest |
| `TimerQueue.TimerQueue.CancelInLoop` | src_epoll/timer/TimerQueue.cpp:146-159 | the step Cancel: entry and timer go, the timerfd stays armed |
| `TimerQueue.TimerQueue.GetExpired` | src_epoll/timer/TimerQueue.cpp:178-191 | the due entries leave the set, in order |
| `TimerQueue.TimerQueue.Restart` | src_epoll/timer/TimerQueue.cpp:29-36 | the expiration of a repeating timer becomes now + interval, up to one microsecond; that of any other is invalid |
| `TimerQueue.TimerQueue.RunEntry` | src_epoll/timer/TimerQueue.cpp:170-172 | one callback, with whatever it adds and cancels; the batch and its timers are untouched |
| `TimerQueue.TimerQueue.RunExpired` | src_epoll/timer/TimerQueue.cpp:169-173 | each entry of the batch runs exactly once, in order |
| `TimerQueue.TimerQueue.ResetEntry` | src_epoll/timer/TimerQueue.cpp:194-202 | a repeating timer is back in the set, a one-shot timer is gone, no other timer is affected |
| `TimerQueue.TimerQueue.Reset` | src_epoll/timer/TimerQueue.cpp:193-211 | the same for the whole batch, and the timerfd is armed again |
| `TimerQueue.TimerQueue.HandleRead` | src_epoll/timer/TimerQueue.cpp:161-176 | runs exactly the due timers, in order, once each; afterwards repeating ones are due one interval after now, up to one microsecond, and the others are gone |
| `ThreadPool.EventLoopThreadPool.Start` | src_epoll/net/EventLoopThreadPool.cpp:25-42 | the pool has the loops of its threads, in order |
| `ThreadPool.EventLoopThreadPool.GetNextLoop` | src_epoll/net/EventLoopThreadPool.cpp:44-58 | the loop at next_, which stays in range; the base loop if there is none |
| `ThreadPool.NextLoops` | src_epoll/net/EventLoopThreadPool.cpp:44-58 | the k-th of any number of calls returns loops_[k mod n], and any two loops of the pool are chosen equally often, give or take one |
| `ThreadPool.KthTurn` | src_epoll/net/EventLoopThreadPool.cpp:50-55 | the same for the positions as a sequence |
| `ThreadPool.Fair` | src_epoll/net/EventLoopThreadPool.cpp:44-58 | over any number of calls from any position, two loops are chosen equally often, give or take one |
| `Lifecycle.TaskIsDue` | src_epoll/net/TcpServer.cpp:105-118 | every life-cycle task at the head of a queue finds its connection in the right state, so the asserts of connectEstablished and removeConnectionInLoop hold |
| `Lifecycle.ApplyKeepsInv` | src_epoll/net/TcpServer.cpp:72-118 | every step of every loop keeps the life-cycle invariant of every connection |
| `Lifecycle.LifecycleInOrder` | src_epoll/net/TcpServer.cpp:72-118 | in every interleaving each connection is established, closed, removed and destroyed at most once and in this order, with one callback up and one down, is in the table exactly from acceptance to removal, and belongs to the loop whose turn it was |
| `Lifecycle.ClosedIsOnItsWay` | src_epoll/net/TcpServer.cpp:105-118 | a closed connection has exactly one life-cycle task left in all queues together, the next one, where it must run; a destroyed one has none |
| `Lifecycle.DestroyedOffStack` | src_epoll/net/TcpConnection.cpp:91-104 | when connectDestroyed is about to run, the connection is closed, the loop is its own, and its handleEvent is on no stack |
| `LifecycleSteps.WhereItStands` | src_epoll/net/TcpServer.cpp:72-118 | in every interleaving, the state of a connection, what has happened to it and the one life-cycle task queued for it, where it must run, determine each other |
| `LifecycleSteps.StepExactly` | src_epoll/net/TcpConnection.cpp:76-104 | what every step of every loop does to every connection: state and happenings |
| `LifecycleSteps.AcceptExactly` | src_epoll/net/TcpServer.cpp:72-103 | a new connection has the next number and the loop whose turn it is; on the base loop it is established at once |
| `LifecycleSteps.QueuesInOrder` | src_epoll/net/TcpServer.cpp:105-118 | functors leave a queue at its front and join it at its end, at most one a step |
| `LifecycleSteps.EnabledIff` | src_epoll/net/Channel.cpp:89-123 | after every run, a loop that is in no handleEvent can accept, begin any and run its next functor, and exactly a connection whose handleEvent has begun and not ended can be closed by it |
| `TcpServer.NamesDistinctIff` | src_epoll/net/TcpServer.cpp:78-83 | the names of the first n connections differ if and only if the longest of them fits the 64-byte buffer |
| `TcpServer.FittingNamesDiffer` | src_epoll/net/TcpServer.cpp:78-83 | two names that fit differ |
| `TcpServer.CutNamesCollide` | src_epoll/net/TcpServer.cpp:78-83 | once a name is cut, two connections share one |
| `TcpServer.TcpServer.NewConnection` | src_epoll/net/TcpServer.cpp:72-103 | the connection is entered under its name and belongs to the loop whose turn it is, where it is to be established; a name that fits displaces no other |
| `TcpServer.TcpServer.RemoveConnectionInLoop` | src_epoll/net/TcpServer.cpp:110-118 | the entry goes, and no other; the destruction is queued on the connection's own loop |
| `Ctype.Trim` | src/asio/http_parser.cpp:22-29 | no white space at either end, and trimmed text unchanged |
| `Ctype.TrimPadded` | src/asio/http_parser.cpp:22-29 | trimming undoes padding on either side |
| `Ctype.Classes` | src/asio/http_parser.cpp:22-33 | white space, digits and letters, character by character |
| `Ctype.LowerLetters` | src/asio/http_parser.cpp:15-20 | each capital letter becomes the small one, and nothing else changes |
| `HttpParser.ParseContentLength` | src/asio/http_parser.cpp:46-58 | a value fits 64 bits; which text gives which value is in `HeadStatus.ContentLengthIs` |
| `HeadStatus.ContentLengthIs` | src/asio/http_parser.cpp:46-58 | a text gives a length if and only if it is, trimmed, an optional sign and one or more digits whose value is below 2^64; the length is that value, or what is missing to 2^64 after a minus sign |
| `HeadStatus.SpacedWordsRead` | src/asio/http_parser.cpp:94-100 | words with any white space between and around them read back as those words |
| `HeadStatus.EveryTextIsSpaced` | src/asio/http_parser.cpp:94-100 | and every text is its words with white space between them |
| `HeadStatus.RequestLineIs` | src/asio/http_parser.cpp:90-123 | a request line is accepted if and only if it is three words, the first of letters, digits and the signs - _ . only, the second beginning with a slash; they are method, target and version, and the target is divided at its first question mark |
| `HeadStatus.AllowedIs` | src/asio/http_parser.cpp:35-44 | the content types that are allowed, in any case and with any parameters |
| `HeadStatus.HeadStatusIs` | src/asio/http_parser.cpp:74-192 | the status of every text taken for a head: too large, bad request line, the first faulty header line, missing length or type, or accepted |
| `HeadStatus.BadLengthIsBadRequest` | src/asio/http_parser.cpp:156-161 | a head with a Content-Length that is no number is a bad request, whatever comes behind it |
| `HeadStatus.KeepAliveIs` | src/asio/http_parser.cpp:171-181 | when an accepted request keeps its connection, by version and the word in its Connection header |
| `HttpParser.ParseHttpRequestHead` | src/asio/http_parser.cpp:74-192 | the line loop computes ParseHead, whose status is given by `HeadStatus.HeadStatusIs`; on success the cached fields agree with the headers |
| `HttpParser.ParsedAgrees` | src/asio/http_parser.cpp:125-192 | on success, however often headers repeat, contentLength, contentType and keepAlive are those of the final map and version, keys are trimmed lower case, and the length is within the limit |
| `HttpParser.HeaderIsLastSent` | src/asio/http_parser.cpp:62-72 | after a successful parse, a header looked up in any case is the value of the last line sent under that name in any case, and empty if there was none |
| `HttpParser.AssignRequestBody` | src/asio/http_parser.cpp:194-210 | the body is stored exactly when it has the announced length; otherwise nothing changes |
| `HttpParser.AcceptedHeadTakesBody` | src/asio/http_parser.cpp:194-210 | a head that was accepted takes a body if and only if it has the announced length |
| `HttpParser.PostTypeAllowed` | src/asio/http_parser.cpp:182-188 | an accepted POST with a body has an allowed content type |
| `HttpPrint.PrintThenParse` | src/asio/http_parser.cpp:74-192 | a printed head parses if and only if it is within the limits, its lengths, version and POST type are acceptable; and then method, path, query, version and headers come back |
| `HttpPrint.TakeAllResult` | src/asio/http_parser.cpp:143-169 | the header loop succeeds if and only if every Content-Length is acceptable, and builds the last-value map |
| `SessionSpec.HeadLengthStable` | src/asio/http_server.cpp:107-111 | more bytes do not move the end of a head |
| `Session.Serialize` | src/asio/http_server.cpp:349-364 | status line, own fields, headers, empty line, body unless skipped |
| `Session.Session.constructor` | src/asio/http_server.cpp:74-79 | a session before its first byte |
| `SessionRuns.ThrowIsLast` | src/asio/http_server.cpp:206-211 | when the handler throws, the answer is 500 and the last thing the session reads or writes |
| `SessionErrors.ErrorStatusLine` | src/asio/http_parser.cpp:212-240 | the code and the reason phrase for each status of the parser |
| `SessionErrors.ResponseText` | src/asio/http_server.cpp:349-364 | the text of every response, field by field |
| `SessionErrors.RefusedHeadIsTold` | src/asio/http_server.cpp:124-137 | in every run, a head that is refused is answered with the line for its status; nothing else is ever written, and the application is not asked; one that does not fit the buffer is not answered |
| `Session.Session.CallHandler` | src/asio/http_server.cpp:196-216 | the whole response: the handler's own, with a reason phrase if it has none; 500 and the end of the connection if it throws; 404 Not Found without one |
| `Session.Session.HandleRequest` | src/asio/http_server.cpp:189-217 | the step on the object: body check, handler, response |
| `Session.Session.HandleHead` | src/asio/http_server.cpp:124-158 | the step on the object: limit, parse, take what is there of the body |
| `Session.Session.TakeBody` | src/asio/http_server.cpp:142-157 | what is there of the body is taken, and no byte behind it; the rest is waited for |
| `Session.Session.WriteResponse` | src/asio/http_server.cpp:220-248 | one response is written; HEAD gets no body |
| `Session.Session.OnHeadRead` | src/asio/http_server.cpp:102-121 | a head has arrived |
| `Session.Session.OnBodyRead` | src/asio/http_server.cpp:161-186 | the rest of the body has arrived |
| `Session.Session.OnWritten` | src/asio/http_server.cpp:232-247 | on to the next head, unless the response closes |
| `Session.Serve` | src/asio/http_server.cpp:102-248 | the object over any sequence of completions: no byte lost, the responses of the reference in order, exact bodies, nothing after a closing response, and none missing at the end |
| `SessionRuns.HandleRequestOnCourse` | src/asio/http_server.cpp:189-217 | on a complete body the error branch is not taken, and the session stays on the reference's course |
| `SessionRuns.HandleHeadOnCourse` | src/asio/http_server.cpp:124-158 | whatever has arrived behind the head, the session goes on as the reference does |
| `SessionRuns.ApplyConserves` | src/asio/http_server.cpp:131-151 | no step loses, repeats or reorders a byte |
| `SessionRuns.ApplyKeepsInv` | src/asio/http_server.cpp:102-248 | every completion keeps the session invariant |
| `SessionRuns.SessionFollowsReference` | src/asio/http_server.cpp:102-248 | for every arrival of every stream: consumed + buffered + unread is the stream, the exchanges are the reference's first ones, every handled body has its announced length, nothing follows a closing exchange |
| `SessionRuns.SessionCompletes` | src/asio/http_server.cpp:102-248 | a session that has nothing left to read, or is writing its closing answer, has made all the reference's exchanges |
| `SessionRuns.BodyReadIsComplete` | src/asio/http_server.cpp:161-169 | the body read asks for no more than the buffer holds, so it never ends early |
| `SessionStream.HeadLengthOfText` | src/asio/http_server.cpp:107-111 | the head of a printed message ends at its empty line, whatever follows |
| `SessionStream.AllServed` | src/asio/http_server.cpp:124-217 | the reference serves each acceptable request of a pipeline with its own body, up to the first closing answer |
| `SessionStream.PipelineServed` | src/asio/http_server.cpp:102-248 | however a pipeline arrives, each request reaches the application whole, in order and once, and its answer is what is written |
| `ResponseReader.LengthReads` | src/asio/http_server.cpp:355-355 | a printed length reads back as the same number |
| `ResponseReader.ReadingConserves` | src/asio/http_server.cpp:349-364 | a client that reads messages by their lengths loses no byte of what was sent |
| `ResponseStream.ResponseRead` | src/asio/http_server.cpp:349-364 | a client gets this response, answers to HEAD included, and stops where the next one starts, except that it takes the body of a 1xx, 204 or 304 response for what follows |
| `ResponseStream.ResponsesReadIff` | src/asio/http_server.cpp:349-364 | any number of responses in a row are read as sent, with no byte left over, if and only if none with a 1xx, 204 or 304 status has a body |
| `ResponseStream.PipelineReadIff` | src/asio/http_server.cpp:102-248 | end to end: the client reads back the application's answers to its requests, in order and whole, under exactly that condition |
| `PathDecoding.UrlDecodePath` | src/asio/router.cpp:93-109 | the decoding loop computes Decoded |
| `PathDecoding.HexDigits` | src/asio/router.cpp:26-28 | the hex digits are the sixteen in either case |
| `PathDecoding.ByteRead` | src/asio/router.cpp:98-103 | the digits of a byte, in either case, read back as that byte |
| `PathDecoding.DecodeEncoded` | src/asio/router.cpp:93-109 | decoding undoes every encoding, whichever bytes are escaped and whichever digits are capitals |
| `PathDecoding.ChoicesOf` | src/asio/router.cpp:93-109 | a text that decodes is an encoding of what it decodes to |
| `PathDecoding.DecodesIffEncoding` | src/asio/router.cpp:26-41 | a text decodes to some bytes if and only if it is an encoding of them, and to nothing if and only if it encodes nothing |
| `PathDecoding.DecodesToNothingIff` | src/asio/router.cpp:98-101 | decoding fails if and only if some percent sign, where a token begins, lacks two hex digits |
| `Paths.NormalIsCanonical` | src/asio/router.cpp:199-202 | normalising an absolute path leaves neither dot nor dot-dot |
| `Paths.CanonicalIsNormal` | src/asio/router.cpp:199-202 | and such paths are its fixed points |
| `PathText.ParseSqueezes` | src/asio/router.cpp:194-194 | reading a path and writing it again only collapses runs of separators, for every text |
| `PathText.ParsePrinted` | src/asio/router.cpp:194-194 | every path is read back as it was written |
| `PathText.AppendText` | src/asio/router.cpp:199-199 | on texts, an absolute path replaces what is before it; any other is written behind it, after one separator |
| `PathText.DotVanishes` | src/asio/router.cpp:199-199 | normalising: a dot says nothing |
| `PathText.DotDotCancels` | src/asio/router.cpp:199-199 | normalising: a dot-dot takes the name before it away |
| `PathText.RootStays` | src/asio/router.cpp:199-199 | normalising: a dot-dot at the root says nothing |
| `PathText.RulesCover` | src/asio/router.cpp:199-199 | one of these applies to every path that is not plain (no dots, dot-dots only in front and not behind a root), and a plain one stays as it is |
| `PathText.NormalIs` | src/asio/router.cpp:199-199 | what a normalised path is made of: the names that are left, a dot if none are, and when it ends in a separator |
| `Paths.EscapesIffOutside` | src/asio/router.cpp:50-57 | the escape test holds if and only if the candidate's names do not begin with the root's |
| `Router.DocumentRootIsCanonical` | src/asio/router.cpp:111-113 | the document root is absolute and normalised |
| `Router.CandidateIsCanonical` | src/asio/router.cpp:194-202 | so is every candidate |
| `Router.ResolvedIsContained` | src/asio/router.cpp:185-207 | a resolved path is normalised, has no dot-dot and lies under the root, for every request path, index file and file system |
| `Router.ResolvedIffContained` | src/asio/router.cpp:185-207 | a clean request path is refused if and only if it leads outside the root |
| `Router.ServedAt` | src/asio/router.cpp:185-207 | what is served for every request path that decodes: the place its names lead to below the root, in a directory its index file; nothing outside the root, and nothing for a text with a NUL or a backslash or that is not absolute |
| `Router.MalformedRefused` | src/asio/router.cpp:185-189 | a request path with a broken escape is refused |
| `Router.FileServed` | src/asio/router.cpp:185-207 | a request for names without dots is served from exactly there, whichever of its bytes are escaped |
| `ServerConfig.ParseIni` | src/asio/server_config.cpp:90-128 | the line loop computes Parse, errors with their line numbers included |
| `ServerConfig.EntryRead` | src/asio/server_config.cpp:111-124 | a printed entry reads back as its key and value |
| `ServerConfig.NameRead` | src/asio/server_config.cpp:103-109 | a printed section header reads back as its name |
| `ConfigReading.CommentReads` | src/asio/server_config.cpp:97-101 | a blank line or a comment, with any white space around it, says nothing |
| `ConfigReading.HeaderReads` | src/asio/server_config.cpp:103-109 | a section header, with any white space in and around the brackets |
| `ConfigReading.EntryReads` | src/asio/server_config.cpp:111-124 | an entry, with any white space around key, equals sign and value |
| `ConfigReading.BareReads` | src/asio/server_config.cpp:111-114 | any other line has no equals sign |
| `ConfigReading.LinesRead` | src/asio/server_config.cpp:96-97 | the lines of a text, with or without a line feed at the end |
| `ConfigReading.ConfigIs` | src/asio/server_config.cpp:90-128 | every configuration text: refused for its first line at fault, with the number of that line; otherwise each section and key have the value of the last line that sets it, and nothing else is set |
| `ServerConfig.PrintThenParse` | src/asio/server_config.cpp:90-128 | a printed configuration reads back as its table: names in lower case, sections merged, last value of each key |

## Left out

- TcpConnection.TcpConnection.ConnectDestroyed: requires a channel that has been registered; on one never enabled the source's assert fails.
- TcpConnection.TcpConnection.HandleRead: returns whether the message callback is due; the callback itself is `HttpServer.OnMessage`. A read that has to close requires an open connection, as the assert of the source does.
- ConnectionSpec.CompletionsExactly: the write-complete callback is taken to be set; without one the source queues nothing.
- EventLoop.EventLoop.Turn: the eventfd is read at one place among the callbacks of a poll; a poll that times out is one that brings nothing.
- EventLoop.EventLoop.QuitInLoop: a quit() that precedes loop() is undone by it, as in the source; `LoopProtocol.NoLostWakeup` is about the loop after its start.
- LoopProtocol.QueuedTasksGetServed: gives a continuation in which all is served; that threads are scheduled fairly is not modelled.
- TimerQueue.TimerQueue.CancelInLoop: requires a live timer. The source reads through the pointer of a stale handle, which is undefined.
- TimerQueue.TimerQueue.HandleRead: callbacks add and cancel timers of their own queue; commands through dangling handles are passed over.
- Lifecycle.LifecycleInOrder: connections are identified by number, so names are taken to be distinct; callbacks touch only their own connection; one dispatch closes at most once.
- TcpServer.TcpServer.NewConnection: returns the functor for the loop; that it is run or queued there, and what it does, is in `Lifecycle`. The callbacks it sets are not modelled.
- HttpServer.HttpServer.OnMessage: the context is a parameter; that every connection gets one is not modelled.
- SessionRuns.SessionFollowsReference: a read that fills the buffer without finding the end of a head is the event Failed.
- Router.ResolvedIsContained: lexical containment; symbolic links below the root are the file system's.
- ResponseReader.ReadingConserves: the client knows no transfer codings, and takes a 1xx response for an answer of its own.
- System calls and Boost.Asio internals: epoll_ctl, epoll_wait, readv, write, eventfd, timerfd, async_read_until, async_read and async_write appear by their contracts; a failing read of the eventfd or timerfd is not modelled.
- Integer widths other than Content-Length: timestamps, connection numbers and counters do not overflow.
- Rounding of intervals given as floating-point seconds.
- shared_ptr, weak_ptr and tie: objects live as long as something refers to them; `Lifecycle` tracks stages instead.
- Thread start, join and signal handling; session timeouts; the accept loops.
- Loggers, timestamp formatting, addresses, socket options, the echo servers, console setup, the texts of error pages (a parameter), the order of unordered_map iteration (the headers are a sequence).
- Router::handle and its branches, the MIME table and file reading: decided by one test each.
- loadServerConfig, parseSize, parseBool and the search for the configuration file: lookups in the table that parseIni returns.
- The state kExpectBody of the epoll parser, which is never entered.
