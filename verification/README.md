# A verified model of the echo client and server

The repository is a TCP echo client and server built on Asio and Protocol Buffers. A line typed at
the client becomes a numbered request, the request becomes a frame (a fixed-length prefix and a
protobuf message), the frame travels in arbitrary pieces over a byte stream, the server parses it,
changes its type and sends it back, and the client shows the answer. Both programs run on one thread
as self-rescheduling chains of completion handlers over shared buffers and guard flags.

This project models that protocol in Dafny and proves what it promises over every run.

## How it is built

Each part of the code appears twice. Specification functions say what a member does to a small state
value; a class with the code's own fields and methods is proved against them, method by method. The
runs are state machines whose steps use the same specification functions, so what is proved about
runs is about the code of the methods.

| file | models |
|---|---|
| Basics.dfy | bytes, machine-word ranges, failures |
| Utf8.dfy | the UTF-8 check, and the encoder it is proved against |
| Wire.dfy | the Protocol Buffers wire format: varints, fixed32, records |
| Messages.dfy | the two schemas, with proto3's omission of default values and the UTF-8 check |
| Framing.dfy | frames on a stream, and the pure parser "take a prefix, take that many bytes, repeat" |
| Protocols.dfy | `Protocol`: serialize, deserialize and the two prefix caches |
| Readers.dfy | `AsyncReader`: the lock, the read loops, the handlers |
| FrameReading.dfy, LineReading.dfy | runs of a reader in each of its two modes |
| Writers.dfy | `AsyncWriter`, the guard and live buffer of `TcpConnection::send`, and their runs |
| Commands.dfy, Clients.dfy | command dispatch, the echo command handler, `AsyncTcpClient` |
| Connections.dfy | `TcpConnection`, `EchoClientHandler`, the echo handler's server half |
| Registry.dfy | the accept loop and the list of connections |
| EchoSystem.dfy | one client and one connection as a single state machine, and its invariant |
| EchoInvariant.dfy | every step keeps the invariant |
| EchoTheorems.dfy | safety over whole runs, and what an overlapping send costs |
| EchoProgress.dfy | rest, progress, and how every run can be completed |
| Overlap.dfy | a run that shows why overlapping sends are excluded |

Assumptions about the event loop are steps of the machines: handlers run one at a time and never
inside the call that started the operation; `async_read` into a dynamic buffer appends arbitrary
non-empty chunks until the limit is reached; `async_read_until` first searches what is buffered, may
read beyond the delimiter up to the buffer's maximum, and fails when the buffer is full without one;
`async_write` sends its buffer in arbitrary non-empty pieces. An exception or a failed assertion ends
the program it occurs in.

## Main results

- **From typed bytes to answers shown.** For every interleaving and every chunking, the requests the
  server handles are a prefix of those the client's writer accepted, which are a subsequence of the
  numbered echo commands in the typed lines, each with its own text; the server stops by itself only at a request that is too
  long or not UTF-8; and, as long as no send overlapped a write, the client has shown a prefix of the
  welcome and the answers, in order, with only the type changed
  (`CommandsAreNumbered`, `RequestsArriveInOrder`, `EchoesReturnInOrder`, `AnswersMatchRequests`).
- **Rest and progress.** Every step the programs take by themselves decreases a lexicographic rank, so
  they come to rest. At rest, short of an I/O error, the client has stopped if and only if a typed line
  does not fit its buffer (unless an overlap made it stop), every line before that one has been
  dispatched, and the server has handled every request whose frame was written. If the client is
  running, the server is running if and only if all accepted requests were acceptable, and then the
  client has shown the welcome and every answer **if and only if** no send overlapped a write. Every run
  without an overlap or an I/O error can be completed without one
  (`StepDecreases`, `RestIsComplete`, `EveryRunCanBeCompleted`).
- **`TcpConnection::send` is not safe to call during a write.** It replaces the live buffer before it
  asks its guard. `OverlapExactly` gives the exact condition for one write: an overlapping call leaves
  it intact if and only if all its bytes had already been passed on. `OverlapLosesAnswers` is the
  whole-system counterpart: after an overlap, whatever bytes the detached write sends, no run ever
  shows the client the welcome and an answer to every request handled. `OverlapBreaksEcho` is a run in
  which a single short command that arrives while the welcome is being written makes the client show
  the answer where the welcome belongs.
- **Readers refine pure functions.** Framed reading equals the pure parser and line reading equals a
  pure splitter, for every chunking (`ReadingRefinesParsing`, `ReadingRefinesSplitting`).
- **The codec, for every byte string.** The reader accepts exactly the byte strings that are records,
  shortest varints or not; a message or prefix parses exactly from those, with the last record of each
  field deciding; a text is accepted exactly if it encodes Unicode scalar values; and the bytes written
  are given one by one (`ReadsExactlyRecords`, `ParseChatExactly`, `Utf8Exactly`, `FrameLayout`).
- **The prefix is of fixed length only conditionally.** `FixedPrefix` and `SerializeExactly` give the
  exact conditions; the comment in common/proto/framing.proto promises a fixed length outright, which
  proto3's omission of zero fields makes false for an empty message.

## Model

| member | source | states |
|---|---|---|
| Utf8.Utf8Exactly | common/src/proto/Protocol.cpp:42-45 | the UTF-8 check accepts exactly the byte strings that encode a sequence of Unicode scalar values, by the encoder of section 3 of RFC 3629 |
| Wire.VarintExactly | common/proto/chat.proto:7-22 | the encoding of n is the one byte string of base-128 digits, least significant first, with value n and no superfluous last digit |
| Wire.VarintRoundTrip | common/proto/chat.proto:7-22 | reading an encoded varint yields its value and exactly the bytes after it |
| Wire.VarintSizeIsLength | common/src/proto/Protocol.cpp:14 | the size table used for byte counts equals the encoded length of every 64-bit value |
| Wire.LittleEndianExactly | common/proto/framing.proto:7-38 | four bytes are the encoding of a fixed32 if and only if it is their value, least significant byte first |
| Wire.ReadsExactlyRecords | common/src/proto/Protocol.cpp:42-45 | bytes are read as the records fs if and only if they are fs one after another: tag, then varint, 8 bytes, length and payload, or 4 bytes |
| Wire.FieldsRoundTrip | common/proto/chat.proto:6-23 | any list of records, in any order and with any numbers, survives encoding |
| Messages.PrefixBytes | common/proto/framing.proto:6-39 | tag 0x0D before the size, tag 0x1D before the type, each left out when zero |
| Messages.PrefixLayout | common/proto/framing.proto:6-39 | the ten bytes of a prefix, with size and type as sums of their bytes, least significant first |
| Messages.ParsePrefixExactly | common/src/proto/Protocol.cpp:49-59 | bytes parse to a prefix if and only if they are records whose last ones with numbers 1 and 3 hold its size and type |
| Messages.PrefixRoundTrip | common/src/proto/Protocol.cpp:49-59 | every prefix parses back to itself |
| Messages.FixedPrefix | common/src/proto/Protocol.cpp:61-68 | a prefix takes 10 bytes if and only if size and type are both non-zero |
| Messages.ChatBytes | common/proto/chat.proto:6-23 | tags 0x08, 0x12 and 0x78 before id, text and type, each left out at its default |
| Messages.ChatRoundTrip | common/src/proto/Protocol.cpp:37-47 | a message parses back to itself if its text is UTF-8 and fails to parse otherwise |
| Messages.ParseChatExactly | common/src/proto/Protocol.cpp:37-47 | bytes parse to a message if and only if they are records, all texts among them UTF-8, whose last ones of each field hold its id, text and type |
| Messages.ParsedTextIsUtf8 | common/src/proto/Protocol.cpp:42-45 | whatever bytes parse, the resulting text is UTF-8 |
| Messages.EncodingIsInjective | common/proto/chat.proto:6-23 | two messages with the same encoding are the same message, whether or not their texts are UTF-8 |
| Messages.NothingIsShorter | common/src/proto/Protocol.cpp:37-47 | no bytes that parse to an echo message are fewer than that message's own encoding |
| Messages.ByteSizeIsLength | common/src/proto/Protocol.cpp:14 | the byte size computed from the fields is the encoded length |
| Messages.EchoIsOneByteEdit | common/include/acs/message/EchoHandler.hpp:53-55 | a response's payload is the request's with its last byte changed from 4 to 5 |
| Messages.RequestFits | common/include/acs/conn/AsyncReader.hpp:312-313 | a request fits a 1024-byte reader if and only if what its id costs plus its text is at most 1019 bytes |
| Messages.TightTextBound | common/include/acs/conn/AsyncReader.hpp:35 | 1013 bytes is the longest text that fits for every id; 1018 bytes fit only with id 0 |
| Framing.ParseAppend | common/src/proto/Protocol.cpp:49-59 | bytes after whole frames are parsed as if they came first |
| Framing.FramesTakeTheirBytes | common/src/proto/Protocol.cpp:49-59 | a stream of whole frames is as long as their prefixes and bodies together |
| Framing.ParseCutStream | common/include/acs/conn/AsyncReader.hpp:137-178 | cutting a stream of frames anywhere yields exactly the messages before the cut, or stops at the first that does not fit |
| Framing.ParseWholeStream | common/include/acs/conn/AsyncReader.hpp:137-178 | a stream of frames that fit parses to exactly their payloads |
| Framing.FrameLayout | common/src/proto/Protocol.cpp:12-34 | every frame byte by byte: 0x0D, the payload's length least significant byte first, 0x1D 1 0 0 0, the payload |
| Framing.SmallestFrame | common/src/proto/Protocol.cpp:12-34 | the frame of the request with id 0 and no text, as twelve literal bytes |
| Framing.UniquelyDecodable | common/src/proto/Protocol.cpp:12-34 | two payload lists with the same wire bytes are the same list |
| Framing.MessagesAreDecodable | common/src/proto/Protocol.cpp:12-34 | two message lists with the same wire bytes are the same list, whether or not their texts are UTF-8 |
| Framing.PrefixFree | common/src/proto/Protocol.cpp:12-34 | no frame is a proper prefix of another |
| Framing.EchoFrameIsOneByteEdit | common/include/acs/message/EchoHandler.hpp:41-57 | a response's frame has the request's length and prefix and differs only in the last byte |
| Protocols.SerializeExactly | common/src/proto/Protocol.cpp:12-34 | serialize yields the frame except for the all-default message, whose length assertion fails, and above 2 GiB, where it throws |
| Protocols.EchoSerializes | common/src/proto/Protocol.cpp:31 | the assertion holds for every echo request and response, whatever its id and text: it has a frame up to 2 GiB, and serialize throws above |
| Protocols.FrameRoundTrip | common/src/proto/Protocol.cpp:36-59 | the prefix of a serialized message announces its payload, and the payload deserializes to the message |
| Protocols.Protocol.constructor | common/src/proto/Protocol.cpp:9-10 | the probe prefix measures 10 bytes and leaves both caches clear |
| Protocols.Protocol.Serialize | common/src/proto/Protocol.cpp:12-34 | meets its specification and touches only the outgoing cache |
| Protocols.Protocol.Deserialize | common/src/proto/Protocol.cpp:37-47 | meets its specification, which depends on the cache left by the last prefix |
| Protocols.Protocol.GetMessageSize | common/src/proto/Protocol.cpp:49-59 | yields the announced size and caches the prefix, or throws when it does not parse |
| Readers.AsyncReader.TryLockReading | common/include/acs/conn/AsyncReader.hpp:210-221 | succeeds exactly when the lock was free, and leaves it held |
| Readers.AsyncReader.CheckError | common/include/acs/conn/AsyncReader.hpp:239-256 | every error releases the lock and throws; success changes nothing |
| Readers.AsyncReader.ReadAsyncUntilDelimInfOccupy | common/include/acs/conn/AsyncReader.hpp:78-83 | starts the line loop if the lock is free and changes nothing otherwise |
| Readers.AsyncReader.ReadAsyncProtoInfOccupy | common/include/acs/conn/AsyncReader.hpp:86-92 | starts the frame loop if the lock is free, throwing if a prefix does not fit; a refused start keeps callback, protocol and buffer |
| Readers.AsyncReader.HandleReadUntilInfNoUnlockLoopstep | common/include/acs/conn/AsyncReader.hpp:116-135 | delivers up to the first delimiter, keeps what follows, schedules the next read first; without a delimiter the position wraps to 0, as `npos + 1` does |
| Readers.LineHandlerExactly | common/include/acs/conn/AsyncReader.hpp:116-135 | on a line, its delimiter and a rest, the right count delivers the line and leaves the rest, any other count fails the assertion |
| Readers.NoDelimiterExactly | common/include/acs/conn/AsyncReader.hpp:121-129 | without a delimiter only a count of 0 passes the assertion, and nothing is taken out of the buffer |
| Readers.AsyncReader.HandleReadProtoFramePrefixFinished | common/include/acs/conn/AsyncReader.hpp:137-152 | caches the prefix and schedules the message read, or throws with nothing scheduled |
| Readers.PrefixHandlerExactly | common/include/acs/conn/AsyncReader.hpp:137-152 | which of its four exceptions the handler throws, if and only if; otherwise it reads as many bytes as announced; only an I/O error releases the lock |
| Readers.AsyncReader.HandleReadProtoMessageFinished | common/include/acs/conn/AsyncReader.hpp:154-178 | delivers the message after scheduling the next prefix read |
| Readers.MessageHandlerExactly | common/include/acs/conn/AsyncReader.hpp:154-178 | the transferred bytes are delivered, the others stay, the next prefix is read; errors throw and release the lock |
| Readers.AsyncReader.DoReadProtoFramePrefix | common/include/acs/conn/AsyncReader.hpp:290-302 | schedules a read of the prefix size, or throws if it exceeds the limit |
| Readers.AsyncReader.DoReadProtoMessage | common/include/acs/conn/AsyncReader.hpp:310-321 | schedules a read of the announced size, or throws if it exceeds the limit |
| FrameReading.NextInv | common/include/acs/conn/AsyncReader.hpp:137-178 | every step keeps: received bytes are delivered frames, current prefix and buffer; one read pending under the lock; the cache holds the current prefix |
| FrameReading.ReadingRefinesParsing | common/include/acs/conn/AsyncReader.hpp:137-178 | over every run the callback has seen a prefix of the pure parse, each frame with its own prefix in the cache; all of it once settled, with the same end |
| FrameReading.ChunkingIsInvisible | common/include/acs/conn/AsyncReader.hpp:289-321 | settled runs on the same bytes deliver the same messages and end the same way |
| FrameReading.FramesArriveIntact | common/include/acs/conn/AsyncReader.hpp:137-178 | on n frames that fit, the reader delivers a prefix of them and, once settled, exactly the n of them |
| FrameReading.DoneEffect | common/src/proto/Protocol.cpp:36-40 | when a message is delivered the prefix cache holds that message's prefix, although the next prefix read is already scheduled |
| FrameReading.ReadsAreExclusive | common/include/acs/conn/AsyncReader.hpp:210-227 | a pending read implies the lock is held; while it is held every start, of either mode, is refused without a change; an exception leaves nothing pending |
| FrameReading.FirstCallbackGetsAll | common/include/acs/conn/AsyncReader.hpp:86-92 | every message of a run goes to the callback of its first start, however many starts follow |
| FrameReading.FailuresStop | common/include/acs/conn/AsyncReader.hpp:239-256 | after every run, an error of the pending read, end of file included, is thrown in either phase, with the lock free, nothing pending and nothing delivered |
| FrameReading.ReadsStartEmpty | common/include/acs/conn/AsyncReader.hpp:141-161 | each read starts on an empty buffer, so the transferred count is the prefix size and the message is exactly as long as announced |
| FrameReading.SmallLimitNeverReads | common/include/acs/conn/AsyncReader.hpp:293-294 | with a limit below the prefix size the first start throws and nothing is read |
| FrameReading.RunsAreBounded | common/include/acs/conn/AsyncReader.hpp:137-178 | reading a stream takes at most three steps a byte, and one more if it ends in an exception |
| LineReading.ReadingRefinesSplitting | common/include/acs/conn/AsyncReader.hpp:116-135 | over every run the callback has seen a prefix of the pure split, all of it once settled; the assertion on the transferred count never fails; the run stops by itself exactly at a line that does not fit |
| LineReading.ReadingConservesBytes | common/include/acs/conn/AsyncReader.hpp:116-135 | delivered lines with their delimiters, then the buffer, are the bytes received; lines are free of the delimiter; the buffer keeps its limit |
| LineReading.ReadsAreExclusive | common/include/acs/conn/AsyncReader.hpp:78-83 | while the run goes on its read is pending under the lock, every start of either mode is refused without a change, and every line goes to the first callback; an error releases the lock |
| LineReading.FailuresStop | common/include/acs/conn/AsyncReader.hpp:239-256 | the same in line mode |
| LineReading.ZeroLimitNeverReads | common/include/acs/conn/AsyncReader.hpp:48-49 | with a limit of zero nothing is ever read or delivered |
| LineReading.RunsAreBounded | common/include/acs/conn/AsyncReader.hpp:275-281 | reading a stream takes at most two steps a byte |
| Writers.AsyncWriter.Write | common/include/acs/conn/AsyncWriter.hpp:30-41 | a write is accepted if and only if none is in progress; an accepted one stores its data, a refused one changes nothing |
| Writers.AsyncWriter.HandleWriteFinished | common/include/acs/conn/AsyncWriter.hpp:45-56 | clears the guard on any outcome; throws on errors other than end of file |
| Writers.WritesStayIntact | common/include/acs/conn/AsyncWriter.hpp:30-75 | over every run the buffer of an unfinished write is the accepted message and the wire is a prefix of the accepted messages, all of them when idle |
| Writers.SendsStayIntact | server/src/conn/TcpConnection.cpp:32-42 | over every run without an overlapping call the wire is a prefix of the accepted messages |
| Writers.OverlapCorrupts | server/src/conn/TcpConnection.cpp:32-42 | two calls, the second during the first write, leave a wire that holds neither message |
| Writers.OverlapExactly | server/src/conn/TcpConnection.cpp:71-83 | left alone, a pending write sends its message however it is cut; after an overlapping call it is sure to if and only if every byte had already been passed on |
| Commands.TrimWhitespace | client/src/cmd/CommandDispatcher.cpp:9-19 | the npos arithmetic modulo 2^64 drops the blanks at the chosen ends, also when there is nothing else |
| Commands.TrimExactly | client/src/cmd/CommandDispatcher.cpp:9-19 | trimming takes off all blanks around a core without blanks at its ends |
| Commands.ParseCommand | client/src/cmd/CommandDispatcher.cpp:52-69 | yields the text of an echo command and nothing for any other line |
| Commands.DispatchExactly | client/src/cmd/CommandDispatcher.cpp:52-69 | a line dispatches the text t if and only if it is ">echo" and the trimmed t with spaces and tabs anywhere around them |
| Clients.AsyncTcpClient.Send | client/src/conn/AsyncTcpClient.cpp:111-114 | serializes and offers the frame to the writer, leaving the incoming cache alone |
| Clients.AsyncTcpClient.HandleRead | client/src/conn/AsyncTcpClient.cpp:124-128 | yields the response to show, or throws when it does not parse or is not a response |
| Clients.ShowsOnlyResponses | common/include/acs/message/EchoHandler.hpp:22-38 | whatever a peer sends, exactly the payloads that parse to an echo response announced as such are shown, with a UTF-8 text; what is thrown otherwise |
| Clients.EchoCommandHandler.HandleCommand | client/src/echo/EchoCommandHandler.cpp:9-21 | sends a request with the counter's low 32 bits as id and counts only if sending did not throw |
| Clients.CommandExactly | client/src/echo/EchoCommandHandler.cpp:9-21 | the frame an idle writer starts on carries the command's whole text and the counter's low 32 bits; a busy writer drops it; above 2 GiB nothing is counted or written |
| Clients.CommandDispatcher.DispatchCommand | client/src/cmd/CommandDispatcher.cpp:52-69 | an echo command reaches the handler with its text; any other line changes nothing |
| Connections.AnswersDecode | common/include/acs/message/EchoHandler.hpp:41-57 | for arbitrary payloads: exactly those that parse to an echo request are answered, and the answer parses to the same id and text as a response; what is thrown otherwise |
| Connections.BuildWelcome | server/src/echo/EchoClientHandler.cpp:25-64 | the hand-built frame is what serialize makes of the same message |
| Connections.WelcomeFits | server/src/echo/EchoClientHandler.cpp:25-37 | the welcome is UTF-8 and fits the client's reader |
| Connections.WelcomeReads | server/src/echo/EchoClientHandler.cpp:25-37 | the welcome has id 1, the response type and the source's text, character by character |
| Connections.TcpConnection.Send | server/src/conn/TcpConnection.cpp:32-42 | the message replaces the live buffer even when the guard then refuses to write it; the write in progress keeps its length but not its buffer |
| Connections.TcpConnection.HandleWrite | server/src/conn/TcpConnection.cpp:44-55 | clears the guard whatever the outcome |
| Connections.TcpConnection.HandleRead | server/src/conn/TcpConnection.cpp:57-61 | sends the answer to a request, or throws and sends nothing |
| Connections.TcpConnection.Start | server/src/conn/TcpConnection.cpp:22-25 | sends the welcome and starts the receive loop |
| Registry.RegistryIsCreatedMinusClosed | server/include/acs/conn/ConnectionManager.hpp:29-73 | over every run the list is created minus closed in creation order, its last entry is the one connection awaiting an accept, the i-th connection is started if and only if the i-th accept succeeded, only started ones close, and a close removes exactly one entry |
| Registry.ListedMeaning | server/include/acs/conn/ConnectionManager.hpp:70-73 | that list holds exactly the ids created and not closed, strictly increasing |
| Registry.AsyncTcpServer.constructor | server/src/conn/AsyncTcpServer.cpp:9-20 | a new server has one connection, awaiting the first accept |
| Registry.AsyncTcpServer.GenerateConnId | server/src/conn/TcpConnection.cpp:13-16 | ids count up from 0 and wrap at 2^64 |
| Registry.AsyncTcpServer.NewConnection | server/include/acs/conn/ConnectionManager.hpp:29-36 | appends a connection with the next id |
| Registry.AsyncTcpServer.DoStartAccept | server/src/conn/AsyncTcpServer.cpp:25-31 | lists a new connection and waits for it to be accepted |
| Registry.AsyncTcpServer.HandleAccept | server/src/conn/AsyncTcpServer.cpp:33-40 | starts the connection unless the accept failed, keeps it listed, and waits for the next either way |
| Registry.AsyncTcpServer.ConnectionClosed | server/include/acs/conn/ConnectionManager.hpp:59-62 | takes the closed connection off the list |
| Registry.AsyncTcpServer.PurgeConnection | server/include/acs/conn/ConnectionManager.hpp:70-73 | removes every entry with the given id and keeps the others in order |
| EchoInvariant.CommandIsEchoCommand | client/src/echo/EchoCommandHandler.cpp:9-21 | the system's command step has the handler's effect on counter, writer and exception |
| EchoInvariant.RequestAnswered | common/include/acs/message/EchoHandler.hpp:41-57 | an echo request is answered with the same message as a response, or rejected if its text is not UTF-8 |
| EchoInvariant.Delivery | common/include/acs/conn/AsyncReader.hpp:137-178 | on a wire of echo frames a reader has delivered the first of them, byte for byte; it stops by itself only at one that does not fit |
| EchoInvariant.SerCacheIrrelevant | client/src/conn/AsyncTcpClient.cpp:111-127 | outgoing serialize calls do not disturb the reader that shares the protocol object |
| EchoInvariant.NextInv | server/src/conn/TcpConnection.cpp:22-83 | every step of client, server and both streams keeps the system's invariant |
| EchoTheorems.CommandsAreNumbered | client/src/cmd/AsyncCommandLoop.cpp:18-22 | the issued requests are those of the typed lines, in order: the i-th carries the text of the i-th echo command and the id i modulo 2^32; the accepted ones are a subsequence |
| EchoTheorems.AcceptedIds | client/src/echo/EchoCommandHandler.cpp:9-21 | an accepted request carries its command's index modulo 2^32; up to 2^32 commands the ids strictly increase |
| EchoTheorems.AcceptedExactly | client/src/conn/AsyncTcpClient.cpp:111-114 | after every run, the next request is accepted if and only if the client's writer is idle, and no other step accepts one |
| EchoTheorems.AnswerableExactly | common/include/acs/conn/AsyncReader.hpp:312-313 | the server can accept a request if and only if its text is UTF-8 and with what its id costs takes at most 1019 bytes |
| EchoTheorems.RequestsArriveInOrder | common/include/acs/conn/AsyncReader.hpp:137-178 | the server's callback gets the accepted requests in order and byte for byte; refused ones never reach the wire; no type or length assertion of the server fails, and it stops by itself only at a request it cannot accept |
| EchoTheorems.EchoesReturnInOrder | common/include/acs/message/EchoHandler.hpp:22-57 | without an overlapping send the client has shown a prefix of the welcome and the answers, and no check of its own has failed |
| EchoTheorems.AnswersMatchRequests | common/include/acs/message/EchoHandler.hpp:41-57 | the k-th answer shown is the k-th accepted request with only its type changed, and carries the text and index of its command |
| EchoTheorems.OverlapLosesAnswers | server/src/conn/TcpConnection.cpp:38-83 | in every run with an overlapping send, whatever bytes follow it, the client has not shown the welcome and an answer to every request handled, in any order or among other messages |
| EchoProgress.RestIsComplete | server/src/conn/TcpConnection.cpp:57-69 | at rest without I/O errors: barring an overlap the client has stopped if and only if a line does not fit, with all lines before it dispatched; the server has handled all requests written; and for a running client the server runs if and only if all accepted requests were acceptable, with everything shown if and only if no send overlapped a write |
| EchoProgress.StepDecreases | common/include/acs/conn/AsyncReader.hpp:116-178 | after every run, every step the programs take by themselves, the client's stop at an overlong line included, decreases a lexicographic rank of natural numbers |
| EchoProgress.EveryRunCanBeCompleted | server/src/conn/TcpConnection.cpp:22-83 | every run without an overlapping send or an I/O error can be continued without one, and without input, to rest: all lines that fit are dispatched, a client still running gets everything acceptable answered and shown, and stops if and only if a line does not fit |
| Overlap.OverlapBreaksEcho | server/src/conn/TcpConnection.cpp:38-42 | a run of the whole system in which an overlapping reply makes the client show an answer where the welcome belongs |

## Left out

- Asio itself: sockets, acceptor options, stdin descriptors and the event loop appear only as the step assumptions above.
- The Protocol Buffers runtime beyond the two schemas: unknown fields are skipped but not kept, and the deprecated group wire types are rejected.
- Protocols.Protocol.GetMessageSize: leaves open what the prefix cache holds after a prefix that fails to parse, because the exception has then ended the program.
- Write errors in whole runs: the handlers' error branches are modelled, but the system's runs have read and input errors only.
- Commands typed before the client is connected: the system's runs begin with the connection established.
- What freed or overwritten memory holds: once an overlapping send has replaced the string under a pending write, the bytes that write sends are arbitrary.
- `readAsyncUntilDelim`, `readAsyncUntilDelimInf` and mixing line and frame mode on one reader: the programs do not use them.
- `receiveInfinitelySync`, `_initializeFramingProtocol` and `_decodeMessage` of the client: not used by the running client.
- The logger, stream printing, both `main.cpp` files and the build files: output, wiring and configuration.
- `TestClientHandler`: only its call of `close` appears, as a step of the registry.
- C++ object lifetime, such as references to a purged connection.
- Registry.RegistryIsCreatedMinusClosed: covers runs that create fewer than 2^64 connections, because ids repeat after that.
