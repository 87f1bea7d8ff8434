# A model of libnbf's protocol cores

libnbf is a C++ framework for network services: I/O threads that read and write framed messages,
service threads that run cooperative coroutines, and the data structures and codecs between them.
This project models the parts whose correctness depends on state kept over many calls and proves what
each of them promises. `dafny verify dfyconfig.toml` checks all of it.

Where the C++ code changes an object in place, the model is a class with the same fields and loops, and
each method is proved against a specification on values; what matters is then proved about the
specification for all inputs, all runs or all reachable states.

**HTTP push parser** (`Http*.dfy`). `HttpStep` is the switch of `http_parser_execute` for one byte, with
the flags, counters and comparisons of all states. `HttpScan` adds what depends on slices: the header byte
counter, and the loops over header names and values with their `memchr` jump. The class in `HttpParser`
is the function as written, with data marks, bulk loops and jumps, and is proved to make the callbacks of
`HttpScan` up to joining adjacent pieces of one kind. On top of that: two ways of cutting a stream that are
both accepted have the same outcome; a coarser cut accepts what a finer one accepts; no `assert` of the C
code can fail. `HttpLenient` shows what acceptance in some cut says about the unsliced stream, and with it
`HttpAccepted` states exactly, for any cut, which methods, URLs, header names, header values, lengths and
chunk sizes are accepted and what is made of them. The elements of a `Connection` header that are heard are
characterized, over several lines too; chunked decoding inverts chunked encoding, trailer fields included; and
a pipeline of requests or of responses is read back as those messages in every cut that leaves one byte per
slice to the header limit: with any method and any URL the parser knows, any version, headers with empty
values and with values over several lines, a body framed by length, in chunks or by the end of the stream,
CONNECT and upgrades, and any answer of on_headers_complete. `HttpBoth` carries this over to the parser the
repository makes, which learns from the first bytes whether it reads requests or responses. `HttpEdges` has
line ends, the bytes between messages, the end of the stream and the meaning of errors.

**Coroutines** (`Coroutine*.dfy`). `CoroutineModel` is the step system of one service thread: status table,
available set, active queue, actors, timers. Its invariant holds over every run; from it follow the
protocol, the delivery of replies and timeouts to the coroutine that waits for them, the absence of
deadlock, and that the branches the comments call impossible are never taken. `CoroutineSlots` and
`CoroutineScheduler` are the classes as written; each method takes the step that bears its name.

**Ring buffer** (`RingBuffer`, `RingThreads`). The queue of one thread, and then any interleaving of any
number of threads, one shared access a step: mutual exclusion, linearizability and progress.

**Timers** (`HeapOrder`, `HeapSift`, `Heap`, `Timer`, `TimerMgr`). The handle-indexed heap with its
in-place sift loops, the one-shot timers on it with callbacks that insert and delete, and the two-index
manager with callbacks that may also run timers themselves.

**Requests and responses** (`Requests`, `AsyncClient`, `SyncClient`, `IoThread`). The tables of outstanding
requests and a ledger of what the service side has been told.

**Codecs and stores** (`Resp`, `RespReply`, `RespKinds`, `Buffer`, `Rapid`, `Base64`, `UrlCodecs`, `IniFile`,
`MatrixStat`). Round trips, byte order and framing, and the meaning of percentiles.

`Arithmetic`, `Bytes` and `Options` are helpers.

## Where the code falls short

- Slicing does matter to the HTTP parser: `memchr` passes over control bytes that would be refused where a
  slice begins, and a slice boundary inside a header name or value makes one byte count twice towards the
  header limit. `HttpLimits` gives a whole stream from a new connection for each, accepted in one slice and
  refused in two. `EveryCutAcceptedIff` says which streams are accepted in every cut: those whose unsliced
  reading, each byte inside a header name or value counted twice, stays within the limit and whose header
  values hold header characters only, the first byte aside. `ValueAccepted` says for a given cut when a
  value is accepted.
- The first byte of a header value is never checked, and the others only where a slice enters the value loop
  (`ValueAccepted`); byte by byte, all but the first are (`ValueByteByByte`).
- After a chunked message the bytes of its trailer stay in the header count and are missing to the head of
  the next message (`Carry` in `RequestReadBack` and `Fits`).
- Not every element of a `Connection` header is heard: one that breaks off inside "close", "keep-alive" or
  "upgrade" swallows the next, and an empty element, or a tab after a comma, ends the hearing, although
  section 7 of RFC 7230 allows both (`CloseUnheard`); all are heard exactly under the condition of
  `AllHeardIff`.
- A header value that goes on over another line, even a blank one, loses what its last element said: "close"
  does not close the connection then (`FoldLoses`), and "chunked" does not announce chunks (`LinesRun`).
  `ConnectionTold` says what is heard of any such value.
- A parser for responses announces a message for every line end before the status line
  (`LineEndsAnnounced`), where one for requests skips them (`LineEndsSkipped`).
- `RecieveMessage` returns at once for a message that carries another coroutine's id, and its actor still
  counts as waiting: the protocol is kept exactly if the id is the caller's own (`CallKeepsIff`), as
  `client.cpp` sees to.
- `MPMCLockfreeRingbuffer::init` allocates one slot less than its mask addresses. A call that is not refused
  leaves the array exactly when its counter is one short of a whole turn (`OutsideIff`), a run exactly if
  more pushes succeed than there are slots (`RunLeavesIff`), and for every size there is such a run that never
  holds more than one element (`NextPushLeaves`).
- `Timer::ProcessTimer` pops after the callback. Whatever the callback does, Pop takes the timer that fired
  and no other exactly if the callback did not delete that timer or left none at all; otherwise it takes one
  of the least deadline that has not fired (`FireAny`). The callbacks of both sequences delete their own
  timer: `SelfDeleteLoses` has two timers, one of which is lost so.
- `EncodeMsg` of a synchronous connection queues one-way messages as if a response would come, and the I/O
  thread then destroys them: the books balance exactly if that does not happen, which depends on the
  connection, the message, the clock and what the protocol can encode (`HandleIoMessageEvent`; `OneWayOnSync`
  is such a message).
- `Base64Encode` refuses to encode when its estimate of the wrapped length is too small
  (`WrappedTextTooLong`); the failure is a string resized to -1, that is, an exception. `Base64Decode` refuses
  nothing: a byte outside the alphabet decodes as if it were 0xff (`ForeignByteDecodes`). The URL-safe
  decoder's table ends at 224 and larger bytes are taken for the letter A, so of the texts it accepts exactly
  those below 224 are encoded back (`SafeEncodeOfDecodeIff`, `PastTheTable`).
- `RedisParser::ParseReply` refuses the empty string and the empty array, and arrays that hold numbers or arrays
  (`ReplyReadBack`); a reply cut short anywhere but in the text of a string is reported as an error, not as one
  to wait for (`ReplyCut`).
- A section that occurs twice in an INI file loses the keys of its second part (`ReopenedDrops`).
- `RapidProtocol::Decode` fails on a frame whose header is complete and whose body is not (`FrameCut`).

## Model

| member | source | states |
|---|---|---|
| HttpInvariant.ByteKeepsValid | src/protocol/http/third/http_parser.c:711-2060 | the invariant over all parser fields is kept by every byte, and no assert of the switch can fail but the one on nread at line 1936, which is a matter of the counter and part of what Execute keeps |
| HttpFlow.ByteFlows | src/protocol/http/third/http_parser.c:711-2060 | the switch opens and closes the pieces of data it reports in the order the five data marks rely on |
| HttpMarks.DeliverSettles | src/protocol/http/third/http_parser.c:69-152 | marks and data callbacks of one slice report, joined, exactly the bytes that belong to each piece |
| HttpExecute.Memchr | src/protocol/http/third/http_parser.c:1541-1542 | memchr within a limit: the first occurrence, or -1 when there is none |
| HttpExecute.SkipToLineEnd | src/protocol/http/third/http_parser.c:1535-1558 | the jump goes to the first line end, or to the end of the slice only if a whole window of header size holds none |
| HttpExecute.FieldLoop | src/protocol/http/third/http_parser.c:1298-1425 | the loop over a header name does what reading its bytes one by one does |
| HttpExecute.ValueLoop | src/protocol/http/third/http_parser.c:1506-1695 | so does the loop over a header value, the memchr jump included |
| HttpExecute.BodyBulk | src/protocol/http/third/http_parser.c:1882-1924 | skipping a whole piece of body equals counting its bytes down one by one |
| HttpParser.HttpParser.Execute | src/protocol/http/third/http_parser.c:634-2091 | one call on any slice leaves the fields, the byte counter and the number of bytes used of the byte-wise reading, and makes its callbacks up to joining; the invariant holds again, with the counter at 0 before a chunk size as line 1936 asserts |
| HttpScan.ScanRunAppend | src/protocol/http/third/http_parser.c:634-2091 | reading two pieces within one slice is reading the first, then the second |
| HttpSlicing.SlicingInvariance | src/protocol/http/third/http_parser.c:634-2091 | two cuts of the same stream that are both accepted end in the same parser fields and the same callbacks |
| HttpSlicing.CoarserAccepts | src/protocol/http/third/http_parser.c:634-2091 | merging slices never makes the parser refuse what it accepted, changes no callback and never counts more header bytes |
| HttpSlicing.EveryCutAcceptedIff | src/protocol/http/third/http_parser.c:634-2091 | a stream is accepted in every cut exactly if its unsliced reading, each byte inside a header name or value counted twice, stays within the header limit, and all bytes of header values but the first are header characters; then all cuts agree with that reading |
| HttpSlicing.SinglesAreFinest | src/protocol/http/third/http_parser.c:634-2091 | and exactly if it is accepted byte by byte |
| HttpSlicing.CutsWithinLimitAccepted | src/protocol/http/third/http_parser.c:634-2091 | with clean header values and one byte to spare per slice, any cut is accepted, and the counter is off by at most one per slice |
| HttpLenient.AcceptedReads | src/protocol/http/third/http_parser.c:634-2091 | what is accepted in some cut is accepted by the unsliced reading that checks no value byte, with the same fields and callbacks |
| HttpLimits.ControlByteDependsOnCut | src/protocol/http/third/http_parser.c:1535-1558 | a whole stream whose header value holds a control byte passes in one slice and is refused in two |
| HttpLimits.LimitDependsOnCut | src/protocol/http/third/http_parser.c:1300-1410 | a whole stream of exactly the allowed size passes in one slice and is refused when cut inside a header name |
| HttpAccepted.MethodAccepted | src/protocol/http/third/http_parser.c:954-1051 | in any cut, a method is accepted exactly if it is one of the 33 names, letter for letter, and then it is the one recorded |
| HttpAccepted.NameAccepted | src/protocol/http/third/http_parser.c:1248-1425 | in any cut, a header name is accepted exactly if it consists of token characters, and taken for Connection, Content-Length, Transfer-Encoding or Upgrade exactly if it spells that name in any case |
| HttpAccepted.ValueAccepted | src/protocol/http/third/http_parser.c:1427-1563 | an uninterpreted value is accepted in a cut exactly if the bytes at which the slices enter the value loop are header characters and the bytes, those counted twice, stay within the limit; it is then reported unchanged |
| HttpAccepted.ValueByteByByte | src/protocol/http/third/http_parser.c:1427-1563 | byte by byte, exactly if all bytes but the first are header characters and twice the length less one stays within the limit |
| HttpValues.ChunkedValueIff | src/protocol/http/third/http_parser.c:1452-1465 | Transfer-Encoding announces a chunked body exactly if its value is "chunked" in any case followed by spaces only |
| HttpConnection.ConnectionHeard | src/protocol/http/third/http_parser.c:1481-1680 | the flags that the value of a Connection header sets are those of the elements heard, for every list of elements |
| HttpConnection.FlagsMean | src/protocol/http/third/http_parser.c:1652-1730 | keep-alive, close and upgrade are set exactly if an element heard says so, in any case, followed by spaces only |
| HttpConnection.AllHeardIff | src/protocol/http/third/http_parser.c:1592-1667 | all elements are heard exactly if each but the last is not an unfinished word and each after the first begins with a token character |
| HttpConnection.CloseUnheard | src/protocol/http/third/http_parser.c:1592-1667 | three lists in which "close" is not heard |
| HttpAccepted.UrlAccepted | src/protocol/http/third/http_parser.c:486-632 | in any cut, a URL is accepted exactly if its form fits the method, and reported unchanged: for CONNECT an authority, otherwise a path, or a scheme and an authority; no two at-signs in a row, and visible characters only |
| HttpUrls.UrlIff | src/protocol/http/third/http_parser.c:486-632 | read whole, a URL is accepted exactly if its form fits the method |
| HttpUrls.OldRequest | src/protocol/http/third/http_parser.c:1085-1114 | a request line may end after the URL, which makes it version 0.9 |
| HttpNumbers.NumberIff | src/protocol/http/third/http_parser.c:805-915 | a part of a version, or a status code, is recorded as the number its digits spell, and accepted exactly up to 999 |
| HttpHead.LinesRun | src/protocol/http/third/http_parser.c:1248-1825 | headers, their values empty, on one line or on several, are reported line by line, and leave exactly the flags and length that the Content-Length, Transfer-Encoding, Connection and Upgrade headers among them announce |
| HttpFolds.ConnectionTold | src/protocol/http/third/http_parser.c:1481-1785 | the flags that a Connection header over several lines sets: where an element may begin the next line goes on with the list, elsewhere the line end spoils the element before it and no further line is heard |
| HttpFolds.FoldLoses | src/protocol/http/third/http_parser.c:1708-1730 | a value of one element that goes on over another line says nothing |
| HttpHead.LengthBegins | src/protocol/http/third/http_parser.c:1466-1480 | a Content-Length that does not begin with a digit, a second one and one that goes on over another line are refused, each with its own error |
| HttpHead.HeadRefused | src/protocol/http/third/http_parser.c:1775-1834 | a head that announces its body both by length and in chunks is refused, and so is one for which on_headers_complete answers anything but 0, 1 or 2 |
| HttpAccepted.LengthAccepted | src/protocol/http/third/http_parser.c:1466-1590 | in any cut, a Content-Length is accepted exactly if it is digits and spaces up to the limit; the length is its decimal value and never the "absent" value |
| HttpAccepted.SizeAccepted | src/protocol/http/third/http_parser.c:1934-1985 | in any cut, a chunk size is accepted exactly up to the limit, and the length is its hexadecimal value |
| HttpChunked.ChunkedBeforeEnd | src/protocol/http/third/http_parser.c:1934-2052 | before the last LF of a chunked body all chunks have been reported and the message is not complete |
| HttpContent.ChunkedTextRun | src/protocol/http/third/http_parser.c:1775-2052 | any list of chunks with extensions, the last chunk and any trailer fields decode to those chunks and fields and complete the message at the last LF; the trailer's bytes stay counted |
| HttpContent.ChunkedEventsSay | src/protocol/http/third/http_parser.c:1925-2052 | the concatenated body is the chunks' concatenation; each chunk is announced and completed once, the message once and last |
| HttpContent.ChunkedTextAnyCut | src/protocol/http/third/http_parser.c:1775-2052 | the same however the bytes are cut into slices |
| HttpContent.ContentRun | src/protocol/http/third/http_parser.c:1775-2052 | after the last header: the body announced, or none where the callback, CONNECT or an upgrade without a body says so, is reported, trailer fields after it, and the message completed once, or the rest of the stream is the body; the parser leaves HTTP exactly for CONNECT, for an upgrade both headers ask for and for the answer 2; the connection is kept exactly if the version and the Connection elements say so |
| HttpRequest.RequestReadBack | src/protocol/http/third/http_parser.c:954-2060 | a request with any method, URL, version, headers and body is read back as just that; nothing after it is read if it is the last one in HTTP, else another may follow exactly if the connection is kept |
| HttpRequest.StreamReadBack | src/protocol/http/third/http_parser.c:634-2091 | pipelined requests are reported one after the other, each with its own URL, headers and body, however the bytes are cut |
| HttpResponse.ResponseReadBack | src/protocol/http/third/http_parser.c:758-953 | a response with any version, status, reason, headers and body is read back as just that; whether it has a body without a length depends on its status and on the callback, which says so for an answer to HEAD |
| HttpResponse.StreamReadBack | src/protocol/http/third/http_parser.c:634-2134 | responses one after the other are reported one after the other in any cut, and the end of the stream completes a body that lasts until then |
| HttpBoth.InitIsOpen | src/protocol/http/http_helper.cpp:14-15 | the parser the repository makes is open to requests and to responses |
| HttpBoth.RequestReadBack | src/protocol/http/third/http_parser.c:721-752 | on a connection made for requests and responses alike, a first request, HEAD included, is read back as by a request parser, and the parser is one from then on |
| HttpBoth.ResponseReadBack | src/protocol/http/third/http_parser.c:721-752 | and a first response as by a response parser |
| HttpBoth.MethodAccepted | src/protocol/http/third/http_parser.c:721-752 | there, in any cut, a method that does not begin with "HT" is accepted exactly if it is one of the 33 names |
| HttpBoth.RequestsReadBack | src/protocol/http/third/http_parser.c:634-2091 | requests one after the other on such a connection are reported one after the other, in any cut |
| HttpBoth.ResponsesReadBack | src/protocol/http/third/http_parser.c:634-2134 | so are responses |
| HttpEdges.BareLineFeed | src/protocol/http/third/http_parser.c:1105-1246 | everywhere in a head where a line may end, a line feed alone does what a carriage return and a line feed do |
| HttpEdges.NoLineEndElsewhere | src/protocol/http/third/http_parser.c:998-1190 | no request line can end before its minor version, other than after the URL |
| HttpEdges.SpacesPassed | src/protocol/http/third/http_parser.c:870-880 | any number of spaces may stand before a URL, a version or a status code |
| HttpEdges.ReasonMissing | src/protocol/http/third/http_parser.c:885-915 | a status line may end after the code, which is the same as a space and no reason |
| HttpEdges.LineFeedOnly | src/protocol/http/third/http_parser.c:1699-1742 | wherever a carriage return has been read, nothing but a line feed is accepted, and after the data of a chunk nothing but a carriage return |
| HttpEdges.LetterOnly | src/protocol/http/third/http_parser.c:1126-1160 | of the protocol name nothing but the next letter is accepted |
| HttpEdges.DigitOnly | src/protocol/http/third/http_parser.c:1161-1245 | in a version or a status code nothing but digits and what ends it is accepted, and a request's major version does not begin with a zero |
| HttpEdges.LineEndsSkipped | src/protocol/http/third/http_parser.c:721-758 | line ends before a request, or before the first message of either kind, change nothing |
| HttpEdges.LineEndsAnnounced | src/protocol/http/third/http_parser.c:758-780 | line ends before a response are each announced as a message |
| HttpEdges.NothingAfterLast | src/protocol/http/third/http_parser.c:711-720 | after a message that does not keep the connection, line ends are skipped and anything else is an error |
| HttpEdges.EndAccepted | src/protocol/http/third/http_parser.c:655-675 | the end of the stream is accepted exactly between messages and in a body that lasts until then, which it completes |
| HttpEdges.ErrorNamesPlace | src/protocol/http/third/http_parser.c:711-2060 | in every reachable state, the error number a byte causes is one of those that belong to the part of the message it stands in |
| CoroutineModel.StepKeeps | src/service/coroutine_service_handle.cpp:33-161 | every step of a service thread keeps the protocol invariant |
| CoroutineModel.Protocol | src/coroutine/coroutine_schedule.cpp:86-178 | over every run: the active queue is empty while a coroutine runs and never longer than 1; only the running coroutine has status running; one that waits is not available and either queued or has its timer pending; each return answers its own request; each call has returned once or still waits |
| CoroutineModel.ReplyReachesItsWaiter | src/coroutine/coroutine_actor.cpp:19-86 | a reply is accepted exactly by the coroutine that waits for its sequence id, whose RecieveMessage returns it before anything else happens; any other reply changes nothing |
| CoroutineModel.TimeoutReachesItsWaiter | src/service/coroutine_service_handle.cpp:83-101 | a timer that fires makes its own coroutine's RecieveMessage return nothing, next |
| CoroutineModel.NeverTaken | src/coroutine/coroutine_actor.cpp:33-66 | the branches that comments and warnings call impossible are not reachable |
| CoroutineModel.CallKeepsIff | src/coroutine/coroutine_actor.cpp:25-31 | a call for a message of another coroutine's id returns at once and breaks the protocol: it is kept exactly if the id is the caller's own |
| CoroutineModel.GivesWay | src/service/coroutine_service_handle.cpp:83-161 | the running coroutine gives way in every step but that of a reply nobody accepts, and to whom |
| CoroutineModel.NeverStuck | src/service/coroutine_service_handle.cpp:20-52 | the main loop always finds a coroutine to run |
| CoroutineSlots.RotationVisits | src/coroutine/coroutine_impl.cpp:62-78 | the rotated scan visits every slot |
| CoroutineSlots.CoroSchedule.CoroutineNew | src/coroutine/coroutine_impl.cpp:53-79 | never fails: the first free slot of the rotated scan, or a new one when all are taken |
| CoroutineSlots.CoroSchedule.CoroutineResume | src/coroutine/coroutine_impl.cpp:93-134 | only a ready or suspended coroutine starts to run, and only when none runs |
| CoroutineSlots.CoroSchedule.CoroutineYield | src/coroutine/coroutine_impl.cpp:151-166 | the running coroutine becomes suspended, and none runs |
| CoroutineSlots.CoroSchedule.Finish | src/coroutine/coroutine_impl.cpp:81-91 | a finished coroutine frees its slot, and the count of taken slots stays right |
| CoroutineScheduler.CoroutineSchedule.InitCoroSchedule | src/coroutine/coroutine_schedule.cpp:19-44 | ends, with the ids 0 to size - 1 handed out in order, in the initial state of the step system |
| CoroutineScheduler.CoroutineSchedule.GetAvailableCoroId | src/coroutine/coroutine_schedule.cpp:46-61 | takes an available coroutine, or creates one when there is none |
| CoroutineScheduler.CoroutineSchedule.RecieveMessage | src/coroutine/coroutine_actor.cpp:19-45 | the call up to its yield is the step Receive, the early return for a message of another coroutine included |
| CoroutineScheduler.CoroutineSchedule.AfterYield | src/coroutine/coroutine_actor.cpp:46-68 | the call after its yield is the end of the step that resumed it |
| CoroutineScheduler.CoroutineSchedule.ProcessClientItem | src/service/coroutine_service_handle.cpp:142-161 | a response from a client connection is the step Deliver |
| CoroutineScheduler.CoroutineSchedule.OnTimer | src/service/coroutine_service_handle.cpp:83-101 | a timer is the step Fire |
| CoroutineScheduler.CoroutineSchedule.CoroutineResumeActive | src/coroutine/coroutine_schedule.cpp:142-159 | resumes the first queued coroutine |
| CoroutineScheduler.CoroutineSchedule.RunOnce | src/service/coroutine_service_handle.cpp:33-50 | one pass of the main loop takes an enabled step of the step system, after which a coroutine runs |
| RingBuffer.MaskIsRemainder | src/common/lockfree_ringbuffer.h:186-186 | masking a counter with a power of two less one is taking the remainder |
| RingBuffer.WriteAppends | src/common/lockfree_ringbuffer.h:116-192 | writing the masked slot at head leaves the unread elements alone and appends, however the counters have turned over the mask |
| RingBuffer.TakeDrops | src/common/lockfree_ringbuffer.h:195-272 | moving tail removes the oldest element and no other |
| RingBuffer.OutsideIff | src/common/lockfree_ringbuffer.h:116-272 | a call that is not refused addresses the element after the array exactly when its counter is one short of a whole turn |
| RingBuffer.RunLeavesIff | src/common/lockfree_ringbuffer.h:95-272 | a run from the initialized buffer leaves the array exactly if more pushes succeed in it than there are slots |
| RingBuffer.NextPushLeaves | src/common/lockfree_ringbuffer.h:95-272 | for every size, as many push and pop pairs as there are slots, and one more push, leave the array |
| RingBuffer.MPMCLockfreeRingbuffer.Init | src/common/lockfree_ringbuffer.h:95-113 | the first call makes room for one less than the least power of two that is at least the size, and allocates as many slots |
| RingBuffer.MPMCLockfreeRingbuffer.Push | src/common/lockfree_ringbuffer.h:116-192 | appends unless full; what is written, inside the array or after it, follows from the counters |
| RingBuffer.MPMCLockfreeRingbuffer.Pop | src/common/lockfree_ringbuffer.h:195-272 | takes the oldest element unless empty, from inside the array or after it |
| RingThreads.StepKeeps | src/common/lockfree_ringbuffer.h:116-272 | every access to shared memory by any thread keeps mutual exclusion, the shape of the buffer and the history |
| RingThreads.QueueConserves | src/common/lockfree_ringbuffer.h:116-272 | in a history that answers as a bounded queue, what was pushed is what was popped followed by what is left |
| RingThreads.Linearizable | src/common/lockfree_ringbuffer.h:116-272 | under every interleaving of any number of threads, each operation takes effect once within its call with the result it returns, in an order in which the results are those of a bounded queue; none is lost or duplicated, and occupancy is bounded |
| RingThreads.Finishes | src/common/lockfree_ringbuffer.h:116-272 | at any point of any run, an operation that is not waiting for the lock ends within nine steps of its thread alone |
| RingThreads.WaiterGetsIn | src/common/lockfree_ringbuffer.h:147-175 | a waiting thread waits for one that is not, and takes the lock with its next step once that one has ended its operation |
| HeapOrder.RootIsLeast | src/common/heap.h:261-303 | heap order alone makes the root a minimum of all live nodes |
| HeapSift.SiftUp | src/common/heap.h:261-280 | the upward loop restores the order, permutes the slots and keeps every node's index right |
| HeapSift.SiftDown | src/common/heap.h:281-303 | so does the downward loop |
| HeapSift.AdjustNode | src/common/heap.h:261-303 | an order broken at one slot only is restored, with the same live nodes and values |
| Heap.HeapBase.Resize | src/common/heap.h:241-251 | doubling keeps handles, values, order and root, and the slots a permutation of the pool |
| Heap.HeapBase.Insert | src/common/heap.h:137-156 | the value gets a handle that was not live; nothing else changes; a key not smaller than the root's leaves the root in place |
| Heap.HeapBase.Update | src/common/heap.h:159-164 | exactly this handle's value changes |
| Heap.HeapBase.UpdateTop | src/common/heap.h:167-176 | exactly the value of the handle at the root changes, if there is one |
| Heap.HeapBase.Erase | src/common/heap.h:195-204 | exactly this handle leaves; the root stays unless it is the one |
| Heap.HeapBase.Pop | src/common/heap.h:188-192 | the handle at the root leaves, and no live value had a smaller key |
| Timer.Timer.AddTimer | src/event/timer/timer.cpp:18-24 | the timer is pending under a new handle |
| Timer.Timer.OnTimer | src/event/timer/timer.cpp:36-41 | what any callback may do that inserts later timers and deletes others, as often as it likes |
| Timer.Timer.ProcessTimer | src/event/timer/timer.cpp:31-45 | fires only timers due at entry, each once, in order of deadline, all of them if none is deleted; leaves the others as they are; ends |
| Timer.Timer.AnyCallback | src/event/timer/timer.cpp:36-41 | any callback at all that sets up timers no earlier than now and deletes any: unless it deletes the timer that fires, that one stays at the root |
| Timer.Timer.FireAny | src/event/timer/timer.cpp:36-42 | Pop takes the timer that fired and no other exactly if the callback did not delete it or left none; otherwise one with the least deadline is lost unfired |
| Timer.SelfDeleteLoses | src/event/timer/timer.cpp:31-45 | two timers, where the first deletes itself and the second is lost |
| TimerMgr.AddKeeps | src/common/timer_mgr.cpp:21-25 | setting up a timer keeps the invariant: both indexes hold the same timers once each, in order, and each id fires or is deleted at most once, no earlier than set |
| TimerMgr.DropKeeps | src/common/timer_mgr.cpp:27-34 | so does deleting a timer and firing the earliest |
| TimerMgr.NoThird | src/common/timer_mgr.cpp:70-92 | a pending id has neither fired nor been deleted before |
| TimerMgr.EndsOnTime | src/common/timer_mgr.cpp:36-92 | over every run: a timer is deleted or its callback called at most once, after it was set up, with the data it was set up with, and by a RunTimer that read the clock as later than its deadline; one that was due has been ended once nothing due is left |
| TimerMgr.Ended | src/common/timer_mgr.cpp:70-92 | so a RunTimer later than the deadline ends a timer that is still pending then |
| TimerMgr.TimerMgr.AddTimer | src/common/timer_mgr.cpp:36-55 | the id is new and the timer pending in both indexes, for the clock's time plus the delay, with its data; no other changes |
| TimerMgr.TimerMgr.DelTimer | src/common/timer_mgr.cpp:57-68 | the id and no other leaves both indexes; an unknown id changes nothing |
| TimerMgr.TimerMgr.RunTimer | src/common/timer_mgr.cpp:70-92 | ends although callbacks set up, delete and run timers; then nothing due is left and every timer that was due has been deleted, or fired with its data |
| AsyncClient.AsyncSequence.Put | src/net/async_sequence.cpp:20-37 | map and list gain the same message, or refuse a sequence id already outstanding |
| AsyncClient.AsyncSequence.Get | src/net/async_sequence.cpp:39-58 | map and list lose the one message with this sequence id, if there is one; the others keep their order |
| AsyncClient.AsyncSequence.Clear | src/net/async_sequence.cpp:68-78 | everything outstanding is handed out in order, once |
| AsyncClient.AsyncClientConnect.OnDecodeMessage | src/net/async_client_connect.cpp:19-54 | a response answers the one request with its sequence id, or nothing |
| AsyncClient.AsyncClientConnect.EncodeMsg | src/net/async_client_connect.cpp:57-80 | exactly when a message is encoded, and that only those that expect a response then wait |
| AsyncClient.AsyncClientConnect.OnTimer | src/net/async_client_connect.cpp:82-105 | a timeout is told, as a timeout, to the one request it belongs to; a heartbeat's closes the connection and fails the others |
| SyncClient.SyncSequence.Get | src/net/sync_sequence.cpp:42-62 | takes the oldest outstanding message |
| SyncClient.SyncClientConnect.EncodeMsg | src/net/sync_client_connect.cpp:62-98 | every message encoded waits, in order |
| SyncClient.SyncClientConnect.DecodeMsg | src/net/sync_client_connect.cpp:121-149 | exactly the first outstanding messages are answered, one per response, in order; the rest of the input is left |
| SyncClient.SyncClientConnect.OnTimer | src/net/sync_sequence.cpp:64-75 | any timeout closes the connection and tells everything outstanding once, in order, of an internal failure |
| SyncClient.AnswersInOrder | src/net/sync_client_connect.cpp:23-60 | whatever is outstanding: the k-th response sent on is for the k-th message whose response is wanted, and every message answered is destroyed once, in order |
| Requests.SentBackInOrder | src/net/client_connect.cpp:228-238 | of what is sent back as failed, the service side is told of exactly the messages that are neither heartbeats nor one-way, in order, each with status internal failure; the others are destroyed |
| IoThread.IoThread.EncodeMsg | src/net/async_client_connect.cpp:57-80 | encodes exactly when the connection is up, the protocol can encode the message, and an asynchronous connection has nothing outstanding under its sequence id |
| IoThread.IoThread.HandleIoMessageEvent | src/net_thread_mgr/io_thread_data_run.cpp:71-104 | a request waits or is answered at once as failed, never both, and exactly when is said; the ledger stays balanced exactly if the message is not a one-way message that a synchronous connection accepts in time |
| IoThread.OneWayOnSync | src/net_thread_mgr/io_thread_data_run.cpp:95-103 | such a message, on a new synchronous connection: it waits, and has been destroyed |
| IoThread.IoThread.HandleIoMessageFailed | src/net_thread_mgr/io_thread_data_run.cpp:106-113 | a request that cannot be sent is answered once |
| IoThread.IoThread.OnHeartBeat | src/net/client_connect.cpp:218-226 | a heartbeat is never shown to the service side and keeps the ledger balanced |
| IoThread.IoThread.OnResponse | src/net/async_client_connect.cpp:19-54 | a response on an asynchronous connection keeps the ledger balanced and answers its request |
| IoThread.IoThread.OnRead | src/net/sync_client_connect.cpp:121-149 | responses on a synchronous connection answer the first outstanding requests in turn |
| IoThread.IoThread.OnTimer | src/net/async_sequence.cpp:60-66 | a timeout keeps the ledger balanced; on an asynchronous connection exactly its request is told, of a timeout, and all others stay, or, for a heartbeat, all others are told of an internal failure; on a synchronous one all are |
| IoThread.IoThread.OnClose | src/net/client_connect.cpp:137-145 | closing tells everything outstanding of an internal failure, in order, once |
| IoThread.ExactlyOneCompletion | src/net_thread_mgr/io_thread_data_run.cpp:71-113 | under a balanced ledger, a request handled once either waits and has not been answered, or has been answered exactly once |
| IoThread.HeardOnce | src/net/client_connect.cpp:228-238 | answered exactly once is exactly one message in the service queue |
| IoThread.Overcharged | src/net_thread_mgr/io_thread_data_run.cpp:95-103 | destroying a message that still waits unbalances the ledger |
| Resp.PrintsOne | src/protocol/redis/redis_parser.cpp:135-136 | a segment is printed as a dollar sign, its length, a line end, itself and a line end |
| Resp.StrtollOfDecimal | src/protocol/redis/redis_parser.cpp:112-145 | strtoll reads back what sprintf wrote |
| Resp.ParseCmd | src/protocol/redis/redis_parser.cpp:112-145 | a text is accepted exactly if no segment is empty, and printed segment by segment |
| RespReply.GetLengthLinelength | src/protocol/redis/redis_parser.h:24-43 | the nested loops find the length of the first line |
| RespReply.ParseReply | src/protocol/redis/redis_parser.cpp:16-110 | the loops over replies and elements compute the reply specification on every input, errors included |
| RespReply.RoundTrip | src/protocol/redis/redis_parser.cpp:16-178 | a printed command, whatever follows it, is parsed back: exactly its bytes are consumed and its segments returned after their number |
| RespReply.NoProperPrefix | src/protocol/redis/redis_parser.cpp:16-178 | no proper prefix of a printed command is taken for a reply |
| RespKinds.ReplyReadBack | src/protocol/redis/redis_parser.cpp:16-110 | a reply of any kind, whatever follows it, is read exactly if it is not an empty string or array and, for an array, holds only strings that are not empty and null strings; its bytes and no more are taken, and what it shows is yielded; only the status PONG is a pong |
| RespKinds.ReplyCut | src/protocol/redis/redis_parser.cpp:16-178 | a reply cut short is never taken for one: more is asked for exactly if the cut is in the text of a string, and elsewhere an error is reported |
| RespKinds.OtherRefused | src/protocol/redis/redis_parser.cpp:106-109 | input that begins with anything else is refused |
| Buffer.Buffer.EnsureSize | src/common/buffer.cpp:60-105 | ends, keeps the unread bytes, and leaves room for what is needed |
| Buffer.Buffer.ShrinkSpace | src/common/buffer.cpp:31-58 | keeps the unread bytes, and shrinks exactly when they fit |
| Buffer.Buffer.FindBytes | src/common/buffer.cpp:17-29 | the first occurrence at or after a position, or -1 if there is none |
| Buffer.Buffer.Write | src/common/buffer.h:21-28 | appends to the unread bytes |
| Buffer.Buffer.DrainReading | src/common/buffer.h:51-55 | drops the first unread bytes, at most as many as there are |
| Buffer.Buffer.StripWriting | src/common/buffer.h:66-72 | takes back the last unread bytes, if there are as many |
| Rapid.HalvesJoin | src/protocol/rapid/rapid_protocol.cpp:23-30 | a 64-bit sequence id split in halves joins to itself |
| Bytes.NetOrders | src/protocol/rapid/rapid_protocol.cpp:112-119 | of two numbers the smaller has the lexicographically smaller bytes: htonl puts the most significant byte first |
| Bytes.NetOrders16 | src/protocol/rapid/rapid_protocol.cpp:112-119 | so does htons |
| Rapid.EncodeTo | src/protocol/rapid/rapid_protocol.cpp:82-128 | an encodable message becomes one frame at the end of the buffer, byte by byte: 0x2B 0x67, version 0, the command, sequence id and size with the most significant byte first, the body; any other leaves it alone |
| Rapid.DecodeFrom | src/protocol/rapid/rapid_protocol.cpp:32-80 | fails on a complete header exactly if it does not begin with 0x2B 0x67, its version exceeds 10, or its size does not fit the input; otherwise takes the frame off with its fields |
| Rapid.DecodeMsg | src/net/connect.cpp:109-135 | the draining loop computes the stream specification |
| Rapid.FrameReadBack | src/protocol/rapid/rapid_protocol.cpp:32-128 | a frame at the front of the input is taken off as the message it was made of, sequence id included |
| Rapid.FrameCut | src/protocol/rapid/rapid_protocol.cpp:32-80 | a frame cut short fails exactly when its header is complete |
| Rapid.StreamReadBack | src/net/connect.cpp:109-135 | frames followed by part of another are delivered as exactly those messages; the part stays unread, and the loop fails exactly if it holds a whole header |
| Base64.Base64Encode | src/common/string_util.cpp:249-348 | succeeds exactly when the text fits the estimate, always without wrapping |
| Base64.TextIsLong | src/common/string_util.cpp:249-285 | the length of the text with its line ends, in closed form |
| Base64.WrappedTextTooLong | src/common/string_util.cpp:338-342 | inputs for which the estimate is too small |
| Base64.Base64Decode | src/common/string_util.cpp:287-337 | the decoder computes the decoding specification on every input |
| Base64.TablesInvert | src/common/string_util.cpp:176-247 | the two tables are each other's inverse, and exactly the bytes outside the alphabet decode to 0xff |
| Base64.Alphabet | src/common/string_util.cpp:181-186 | the alphabet of RFC 4648, in its order |
| Base64.SixBitsEach | src/common/string_util.cpp:187-200 | a character for every six bits, the most significant first |
| Base64.GroupInPlace | src/common/string_util.cpp:249-285 | where in the text every group is, and that a line end follows every line's worth of groups and nothing else |
| Base64.SpaceIgnored | src/common/string_util.cpp:287-310 | the seven white space characters mean nothing to the decoder, wherever they are |
| Base64.RestIgnored | src/common/string_util.cpp:287-310 | nor does anything after a padding |
| Base64.ForeignByteDecodes | src/common/string_util.cpp:287-337 | texts with a byte outside the alphabet that decode all the same |
| Base64.DecodeOfEncode | src/common/string_util.cpp:181-348 | decoding inverts encoding for every input and every wrapping |
| UrlCodecs.UrlSafeBase64Encode | src/common/string_util.cpp:376-404 | the URL-safe text, of length exactly (4n+2)/3 |
| UrlCodecs.UrlSafeBase64Decode | src/common/string_util.cpp:406-458 | the loop over groups computes the decoding specification, refusals included, on every input |
| UrlCodecs.SafeDecodeOfEncode | src/common/string_util.cpp:376-458 | decoding inverts encoding |
| UrlCodecs.SafeEncodeOfDecodeIff | src/common/string_util.cpp:376-458 | of the texts accepted, encoding gives back exactly those whose bytes are below 224 |
| UrlCodecs.SafeAcceptedIff | src/common/string_util.cpp:406-458 | of the texts whose bytes are below 224, exactly those that encoding writes are accepted |
| UrlCodecs.PastTheTable | src/common/string_util.cpp:406-458 | one that is not given back |
| UrlCodecs.SafeIsStandard | src/common/string_util.cpp:317-325 | SafeBase64ToBase64 turns URL-safe text into the standard text of the same bytes |
| UrlCodecs.SafeTextDecodes | src/common/string_util.cpp:317-337 | so the standard decoder reads it back |
| UrlCodecs.UrlEncode | src/common/string_util.cpp:95-122 | percent encoding, byte by byte |
| UrlCodecs.UrlDecode | src/common/string_util.cpp:124-146 | the loop with its lookahead computes the percent decoding specification on every input |
| UrlCodecs.UnescapeOfEscape | src/common/string_util.cpp:95-146 | percent decoding inverts percent encoding |
| UrlCodecs.Percent | src/common/string_util.cpp:109-121 | exactly the unreserved characters of RFC 3986 stay as they are; a space becomes a plus sign, any other byte a percent sign and its two digits, the high one first |
| UrlCodecs.HexDigits | src/common/string_util.cpp:80-93 | digits are written in upper case and read in either |
| IniFile.CIniFileS.Open | src/common/ini_files.cpp:145-278 | the line loop computes the loading specification on every text |
| IniFile.OpenOfSave | src/common/ini_files.cpp:196-449 | opening the text that SaveToFile writes rebuilds the same sections, keys, values and comments |
| IniFile.StoredHolds | src/common/ini_files.cpp:427-449 | each section of the store is in the rebuilt one under its name, with its own pairs |
| IniFile.StoredPairHolds | src/common/ini_files.cpp:427-449 | and each key with its value and comments |
| IniFile.BlanksDoNotMatter | src/common/ini_files.cpp:201-242 | blanks around a key or a value change nothing |
| IniFile.SectionBlanks | src/common/ini_files.cpp:201-222 | nor do blanks around or inside the brackets of a section line, or anything after them |
| IniFile.FirstCounts | src/common/ini_files.cpp:256-263 | of two lines with the same key the first counts |
| IniFile.ReopenedDrops | src/common/ini_files.cpp:228-263 | the keys of a section opened a second time are dropped |
| MatrixStat.ObserveCounts | src/monitor/matrix_stat.cpp:33-46 | one more value keeps count, sum, minimum, maximum and every bucket right |
| MatrixStat.BucketsSumToCount | src/monitor/matrix_stat.cpp:33-46 | the buckets add up to the count |
| MatrixStat.PercentileMeaning | src/monitor/matrix_stat.cpp:48-58 | the percentile names the least bucket up to which at least the asked share of the values lies |
| MatrixStat.PercentileOfValues | src/monitor/matrix_stat.cpp:33-58 | in terms of the values: a multiple of 100 microseconds up to 10 seconds, with fewer than the asked number of values below it and at least as many below the next, unless it is the last |
| MatrixStat.Extremes | src/monitor/matrix_stat.cpp:33-46 | maximum and minimum bound the values and are among them, but for their limits |
| MatrixStat.PercentileMonotone | src/monitor/matrix_stat.cpp:48-58 | a larger share never has a smaller percentile |
| MatrixStat.ChildrenSumToParent | src/monitor/matrix_stat.cpp:21-31 | if every call names a result, the children's counts add up to the parent's |
| MatrixStat.MatrixStat.TimeDistribute | src/monitor/matrix_stat.cpp:21-31 | the call is counted in the parent and in the child of its result |
| MatrixStat.MatrixStat.GetTimeDistribute | src/monitor/matrix_stat.cpp:48-58 | the loop over the buckets computes the percentile specification |

## Left out

Members stated weaker than the source:

- HttpParser.HttpParser.Execute: after an error only the error number is stated, because the memchr window and callbacks made before the bytes of a loop are counted leave other fields and pending data in a state that depends on the slice; slices are shorter than 2^32 bytes, so `nread` does not wrap; all callbacks but on_headers_complete return 0
- HttpRequest.RequestReadBack: written with a carriage return and a line feed at every line end, and one space between the parts of the first line; what else is accepted there is BareLineFeed and SpacesPassed, byte by byte; on_headers_complete gives the same answer for all messages of a stream
- HttpResponse.ResponseReadBack: the same; a status line without a reason is written with the space after the code, and read without it by ReasonMissing
- HttpAccepted.UrlAccepted: for cuts that leave one byte per slice to the header limit, as in the other results about any cut
- HttpEdges.ErrorNamesPlace: about the switch; the header limit and the check of value bytes, which depend on the slices, come on top
- CoroutineModel.Protocol: at most 100000 coroutines, as CoroutineID allows; a message carries the coroutine id that src/client/client.cpp:186-191 sets; which response, timer or task comes next is arbitrary
- RingBuffer.MPMCLockfreeRingbuffer.Push: the order of what is popped holds as far as the memory after the array keeps what is written there; the field `beyond` stands for it
- RingThreads.Linearizable: the buffer has as many slots as its mask has values, one more than init allocates; sequentially consistent memory and 64-bit counters that do not wrap; the back-off pauses of the spin loop are dropped
- Timer.Timer.ProcessTimer: callbacks insert only timers later than the time captured, and do not delete the timer that fires; what happens when they do is FireAny
- TimerMgr.TimerMgr.AddTimer: ids are counted per manager; in the source one counter serves all managers of the process, which keeps them apart as well
- TimerMgr.TimerMgr.RunTimer: callbacks nest to a bounded depth, any bound; the clock does not go back, and ids do not wrap
- Base64.Base64Encode: the failed result is a value; in the source `resize(-1)` throws
- RespReply.RoundTrip: texts shorter than 2^31; reading past the end yields NUL, as c_str guarantees for one byte
- UrlCodecs.UrlDecode: a '%' within the last two bytes makes the code read past the end; the model yields NUL there
- IniFile.OpenOfSave: the names, keys, values and comment lines that SaveToFile can represent
- MatrixStat.PercentileMeaning: the share is a real number, so rounding of double is not modelled; values are not negative and counters do not overflow

Not modelled:

- sockets, epoll, acceptors, reconnecting, logging, configuration, character conversion: system calls and plumbing
- shutting down a service thread, and the switching and copying of stacks: yield and resume are changes of status
- actors and contexts are values in a table, not shared objects, so aliasing between them is not captured
- connections accepted as a server, and the responses an I/O thread writes to them
- locking around the I/O thread's queue, and use of a message after it has been handed over
- http_parser_parse_url and the host parser, which nothing calls
- HttpProtocol's buffering and HttpUtil's rules, which are heuristics
- max-heaps (the feature negated), Refresh and Clear of the heap; node pointers are indices into a pool
- failing allocation, sizes near the limit of size_t, ShrinkSpace(0)
- the Rapid heartbeat, which Encode refuses because of its type
- LoadFromBuffer, SaveToStr and changing single entries of an INI store
- Set, Add, Sub, Reset and the averages of MatrixStat
