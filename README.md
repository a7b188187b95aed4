# Delimiter-framed TCP messaging (UnityDemo `TcpServer` and `Tcp`)

This project is a Dafny model of the two networking classes of the UnityDemo WPF application:

- `TcpServer` accepts TCP connections and keeps a registry of connected clients. It runs one
  receive handler per connection, sends text to one client or to all of them, and stops.
- `Tcp` is the client connector. It holds one outbound connection, sends text, and runs a
  receive loop.

Both sides speak the same text protocol. A frame is a piece of text followed by a single `;`. A
receiver appends every chunk it reads to a private buffer. It then cuts the buffer at each `;`
and delivers the text before each `;` unless that text is empty. The text after the last `;`
stays in the buffer for the next read.

Files:

- `wrappers.dfy`: the `Option` type that stands for the nullable references.
- `framing.dfy`: the framing protocol.
  - `ProcessCompleteMessages` is the framer loop as the source writes it. It is proved equal to
    the pure specification `Frames`/`Remainder`, which is built from `Split` (cut at every `;`)
    and `NonEmpty` (drop empty frames). `Join`, the inverse of `Split`, appears only in the lemmas.
  - The lemmas prove that cutting is lossless and unique. They prove that framing does not depend
    on how the decoded text arrives in chunks. They prove the send/receive round trip of the
    server's `message + ";"` encoding.
- `server.dfy`: the class `TcpServer`.
  - Fields: the running flag, the registry (`_connectedClients`, a list), the connections waiting
    for their handler task, one private buffer per live handler, and a log of everything observable.
    A ghost set records every connection ever accepted; each accepted `TcpClient` is a new object.
  - The invariant ties the log to the connections: each one is announced as connected at most once,
    and announced as disconnected at most once. In the model a disconnection also always follows
    the connection's announcement; the source does not guarantee that (see "## Left out").
  - The handler task is split into the steps at which the model lets other operations interleave:
    entry, one turn of the receive loop, the read that Stop cancels, and the `catch`/`finally` exit.
- `client.dfy`: the class `Tcp` with its two nullable references, the sender, `Disconnect`, and the
  receive loop. The receive loop runs over a finite sequence of read outcomes, and the framer
  delivers exactly the frames of everything read.

The environment is passed in as parameters:

- whether a socket reports `Connected`
- whether a write fails
- what each read returns: a chunk, end of stream, or an exception
- whether a connection attempt succeeds

Notifications (`ServerStarted`, `ClientConnected`, `DataReceived`, `ErrorOccurred`, …), socket
writes and socket closes are appended, in order, to an event log held by each object.

The two sides are not symmetric:

- The client's `SendMessageAsync` writes the message as it is. It does not append `;` the way the
  server's `SendToClientAsync` does. A `;`-free message still enters the handler's buffer, but no
  frame is delivered for it (`NoDelimiterNoFrame`); it is delivered joined to the next text that
  carries a `;`, so "abc" and then "def;" arrive as the single frame "abcdef" (`UndelimitedSendsMerge`).
- The client's `ConnectAsync` does not return false when the connection attempt fails. The
  exception propagates, and `_tcpClient` keeps referencing the new, unconnected client while
  `_networkStream` stays null (`ConnectAsync` with `succeeds == false` returns `Threw`).

## Model

| member | source | states |
|---|---|---|
| Framing.IndexOf | UnityDemo/TcpServer.cs:126 | `String.IndexOf(';')` returns -1 or an in-range position that holds the character |
| Framing.IndexOfFirst | UnityDemo/TcpServer.cs:126 | the result is -1 exactly when the character does not occur, and no earlier position holds it |
| Framing.ProcessCompleteMessages | UnityDemo/TcpServer.cs:120-144 | the framer loop delivers exactly `Frames(builder)` in order and leaves exactly `Remainder(builder)` in the builder; every delivered message is non-empty and has no `;`; the new builder contents have no `;`; the client's copy (UnityDemo/Tcp.cs:78-102) is the same loop |
| Framing.WhiteSpaceCases | UnityDemo/TcpServer.cs:148 | the send guard (`IsBlank`, also at UnityDemo/TcpServer.cs:165 and UnityDemo/Tcp.cs:45) accepts the empty text and text of spaces, tabs, line breaks, no-break and ideographic spaces; it rejects `;`, a letter, `" 5 "` and the zero-width space |
| Framing.FramerStep | UnityDemo/TcpServer.cs:126-138 | one loop turn: the frames still owed are the prefix before the first `;` (if non-empty) and then the frames of the text after it; the remainder does not change |
| Framing.FramesAtDelimiter | UnityDemo/TcpServer.cs:129-138 | the frames of a buffer are its first segment (kept only if non-empty) followed by the frames of the text after the first `;` |
| Framing.SplitDelimiterFree | UnityDemo/TcpServer.cs:126-143 | no segment and no remainder produced by the cut contains `;` |
| Framing.NonEmptyFilters | UnityDemo/TcpServer.cs:132-135 | the delivery filter keeps exactly the non-empty segments and never adds any |
| Framing.FramesAreWellFormed | UnityDemo/TcpServer.cs:129-135 | every delivered frame is non-empty and free of `;` |
| Framing.SplitLossless | UnityDemo/TcpServer.cs:126-143 | the segments, each followed by `;`, and then the remainder give back the buffer exactly (nothing lost, nothing reordered) |
| Framing.SplitJoin | UnityDemo/TcpServer.cs:126-143 | `;`-free segments written with their `;` in front of any text are cut off first, in order |
| Framing.SplitUnique | UnityDemo/TcpServer.cs:126-143 | the cut is the only way to read a buffer as `;`-free segments plus a `;`-free tail (Split inverts Join) |
| Framing.SplitAppend | UnityDemo/TcpServer.cs:94-98 | cutting a buffer extended by a chunk equals cutting the buffer, then cutting its remainder extended by the chunk |
| Framing.FramesAppend | UnityDemo/TcpServer.cs:94-98 | framing `x + y` delivers the frames of `x` and then the frames of `x`'s remainder followed by `y` |
| Framing.ChunkingIndependent | UnityDemo/TcpServer.cs:83-99 | running the framer after every chunk delivers the frames of the concatenated chunks and leaves their remainder: the chunk boundaries do not matter |
| Framing.FeedWellFormed | UnityDemo/Tcp.cs:70-74 | after every turn of the receive loop (`Feed`, also UnityDemo/TcpServer.cs:94-98) all delivered frames are non-empty and `;`-free, and after at least one chunk the buffer holds no `;` |
| Framing.Encode | UnityDemo/TcpServer.cs:154 | the wire text is the message followed by exactly one `;` |
| Framing.RoundTrip | UnityDemo/TcpServer.cs:154 | a message that passes the send guard and has no `;` is delivered back as exactly that one frame, and the buffer is left empty |
| Framing.EncodeAll | UnityDemo/TcpServer.cs:154 | several sends put the messages on the wire each followed by `;` |
| Framing.StreamRoundTrip | UnityDemo/TcpServer.cs:83-99 | non-empty `;`-free messages sent one after another are delivered exactly and in order, however the stream is chunked, and the buffer ends empty |
| Framing.NonEmptyKeepsNonEmpty | UnityDemo/TcpServer.cs:132-135 | the delivery filter keeps a list of non-empty frames unchanged |
| Framing.EmptyFrameDiscarded | UnityDemo/TcpServer.cs:132-135 | a `;` at the front of the buffer (two delimiters in a row) delivers nothing and changes nothing else |
| Framing.NoDelimiterNoFrame | UnityDemo/TcpServer.cs:126-143 | text without `;` delivers nothing and stays in the buffer whole |
| Framing.TwoWritesScenario | UnityDemo/TcpServer.cs:83-99 | the writes `"hello;wor"` then `"ld;"` deliver exactly `"hello"` and `"world"`, in that order, and leave nothing behind |
| Framing.UndelimitedSendsMerge | UnityDemo/Tcp.cs:48-50 | the client writes "abc" and then "def;" without adding delimiters; a receiver delivers exactly the one frame "abcdef" and keeps nothing |
| Framing.DelimiterInsideMessage | UnityDemo/MainWindow.xaml.cs:235 | broadcasting `"5;"` puts `"5;;"` on the wire, which delivers the single frame `"5"` and leaves nothing behind |
| Server.DistinctCount | UnityDemo/TcpServer.cs:210-219 | a registry without repeated clients has as many entries as members |
| Server.RemoveFirst | UnityDemo/TcpServer.cs:110 | `List.Remove` shortens the list by one when the client is present and leaves it unchanged when it is absent |
| Server.RemoveFirstCounts | UnityDemo/TcpServer.cs:110 | `List.Remove` takes exactly one occurrence of the client out of the list and keeps every other entry |
| Server.RemoveFirstDistinct | UnityDemo/TcpServer.cs:108-111 | in a registry without repeats, removal keeps it without repeats, removes the client entirely and keeps every other client |
| Server.RegistryAdd | UnityDemo/TcpServer.cs:72-79 | registering a client that has no running handler, with an empty buffer, keeps the registry invariant |
| Server.RegistryRemove | UnityDemo/TcpServer.cs:105-111 | unregistering a client and dropping its buffer keeps the registry invariant and leaves the client unregistered |
| Server.RegistryUpdate | UnityDemo/TcpServer.cs:95-98 | replacing a buffer by a `;`-free remainder keeps the registry invariant |
| Server.LifecycleQuiet | UnityDemo/TcpServer.cs:146-161 | events that announce neither a connection nor a disconnection (writes, closes, errors, start, stop) keep the lifecycle invariant |
| Server.LifecycleAccept | UnityDemo/TcpServer.cs:50-53 | accepting a connection never seen before keeps the invariant: it waits for its handler, not yet announced |
| Server.LifecycleEnter | UnityDemo/TcpServer.cs:72-81 | a handler's entry keeps the invariant and announces its connection for the first and only time |
| Server.LifecycleRefill | UnityDemo/TcpServer.cs:94-98 | replacing a running handler's buffer keeps the invariant |
| Server.LifecycleExit | UnityDemo/TcpServer.cs:101-117 | a handler's exit keeps the invariant; its connection is announced as disconnected exactly once |
| Server.DisconnectionIsFinal | UnityDemo/TcpServer.cs:105-117 | a connection announced as disconnected is neither waiting nor running, was announced as connected exactly once, and is announced as disconnected exactly once |
| Server.FanoutWrites | UnityDemo/TcpServer.cs:175-181 | a broadcast writes the framed message to a client exactly when the client is in the snapshot, reports `Connected` and its write does not fail |
| Server.FanoutOnlyConnected | UnityDemo/TcpServer.cs:175-181 | every event of a broadcast is an error or a write of `message + ";"` to a snapshot member that reports `Connected` |
| Server.BroadcastReachesExactlyConnected | UnityDemo/TcpServer.cs:163-184 | a blank message produces no events; otherwise the writes go to exactly the connected snapshot members whose write succeeds, and every event is such a write or an error |
| Server.TcpServer.constructor | UnityDemo/TcpServer.cs:17-20 | a new server is stopped, has no clients, no pending connections, no handlers, an empty log and has accepted nothing yet |
| Server.TcpServer.ConnectedClientsCount | UnityDemo/TcpServer.cs:210-219 | the count is the registry length, and under the invariant the number of distinct registered clients |
| Server.TcpServer.Start | UnityDemo/TcpServer.cs:22-38 | afterwards the server runs; `ServerStarted` is announced only when it was stopped before; registry and handlers are unchanged; the invariant is kept |
| Server.TcpServer.AcceptClient | UnityDemo/TcpServer.cs:45-54 | while running, the accepted connection, never seen before, waits for its handler task and is recorded as used; once stopped, nothing is accepted; nothing else changes; the invariant is kept |
| Server.TcpServer.AcceptFailed | UnityDemo/TcpServer.cs:60-63 | a failed accept while running is reported as `ErrorOccurred`; the state is otherwise unchanged; the invariant is kept |
| Server.TcpServer.HandlerEnter | UnityDemo/TcpServer.cs:72-81 | the handler registers its client (even after a stop), gives it an empty buffer and announces `ClientConnected`, which now occurs exactly once in the log; the invariant is kept |
| Server.TcpServer.HandlerStep | UnityDemo/TcpServer.cs:83-99 | when running, connected and a chunk is read, the frames of buffer plus chunk are announced in order and the buffer keeps their remainder; otherwise the handler ends (error reported only for a read that threw), the client is removed once and its buffer dropped, then `Closed` and `ClientDisconnected` |
| Server.TcpServer.HandlerCancelled | UnityDemo/TcpServer.cs:101-117 | the read pending at `Stop` throws: `ErrorOccurred`, then the handler's cleanup |
| Server.TcpServer.HandlerExit | UnityDemo/TcpServer.cs:101-117 | the handler's `catch`/`finally`: optional error, removal of the client and its buffer, close, `ClientDisconnected`, which now occurs exactly once in the log; the invariant is kept |
| Server.TcpServer.SendToClient | UnityDemo/TcpServer.cs:146-161 | nothing for a blank message or a disconnected client; otherwise one write of `message + ";"`, or `ErrorOccurred` when the write fails; the invariant is kept |
| Server.TcpServer.Broadcast | UnityDemo/TcpServer.cs:163-184 | the log grows by exactly the broadcast of the registry snapshot (see `BroadcastReachesExactlyConnected`); the invariant is kept |
| Server.TcpServer.Stop | UnityDemo/TcpServer.cs:186-206 | afterwards the server is stopped; when it was running, every registered client is closed in registry order, the registry is emptied and `ServerStopped` is announced; otherwise nothing changes |
| Client.ReceiveMatchesOneRead | UnityDemo/Tcp.cs:58-75 | the text the receive loop reads is the concatenation of the chunks before the first non-chunk read, and framing after each chunk equals framing that text once |
| Client.ReceivedIsConcat | UnityDemo/Tcp.cs:58-71 | the text received is the concatenation of the chunks read before the loop ends |
| Client.Tcp.constructor | UnityDemo/Tcp.cs:14-15 | a new connector holds neither a client nor a stream |
| Client.Tcp.IsConnected | UnityDemo/Tcp.cs:38-41 | connected exactly when a stream reference is held |
| Client.Tcp.Disconnect | UnityDemo/Tcp.cs:104-110 | the held stream, then the held client, are closed, and both references are cleared |
| Client.Tcp.ConnectAsync | UnityDemo/Tcp.cs:17-36 | an open connection is disconnected first; the new client is always kept; the stream is held (and true returned) exactly when the attempt succeeds |
| Client.Tcp.SendMessage | UnityDemo/Tcp.cs:43-51 | nothing without a stream or for a blank message; otherwise one write of the message exactly as given, without a `;` |
| Client.Tcp.ReceiveData | UnityDemo/Tcp.cs:53-76 | with no stream the loop does nothing; otherwise it announces exactly the frames of all text read before the first non-chunk read; it disconnects exactly when that read is end of stream |

## Left out

- Sockets, `TcpListener`, `IPAddress.Parse` and binding: the environment's answers are parameters. Bind failures and malformed addresses in `Start` are not modelled.
- UTF-8: text is modelled as characters. `Encoding.UTF8` and the 1024-byte read buffer are not modelled. The source decodes each read separately, so a multi-byte character split across two reads becomes U+FFFD replacement characters, and then the delivered frames do depend on how the bytes were chunked. `ChunkingIndependent` and `StreamRoundTrip` are about chunks of decoded text.
- Concurrency: every modelled operation is atomic. The `lock` on the registry, `Task.Run`, and the concurrent writes under `Task.WhenAll` are not modelled. The broadcast's writes are logged in snapshot order.
- Server.TcpServer.HandlerEnter: registration, `GetStream` and the `ClientConnected` announcement are one step, though only the `Add` is under the lock. In the source a `Stop` between UnityDemo/TcpServer.cs:75 and :77 closes the freshly registered client, `GetStream` then throws, and the handler reports `ErrorOccurred`, closes the client and announces `ClientDisconnected` with no `ClientConnected` before it. The clause of the lifecycle invariant that every disconnection follows a connection announcement (and the "announced as connected exactly once" half of `DisconnectionIsFinal`) therefore holds only in the model.
- Server.TcpServer.HandlerCancelled: the model does not record whether a handler was inside its read when `Stop` ran. So after a stop, a handler may take either this step or `HandlerStep`'s quiet exit.
- The `CancellationTokenSource`: the server's token is represented by `running` alone (a token is absent or cancelled exactly when the server is stopped). The client's 4000 ms connect timeout is one of the ways `succeeds` can be false.
- Exceptions carry no payload: `ErrorOccurred` records that an error was reported, not which one.
- Client.Tcp.ReceiveData: the read outcomes form a finite sequence, and the loop also ends when they run out. An exception in the client's receive task is not observed by anyone, as in the source.
- Client.Tcp.ReceiveData: another `ConnectAsync` or `Disconnect` running during the loop is not modelled. That covers a second receive loop reading the new stream after a reconnect.
- Client.Tcp.SendMessage: a failed write propagates its exception to the caller. It is not modelled: the method only logs successful writes.
- `Server.TcpServer.IsRunning` reads the flag and has no contract of its own.
- The event handlers' subscribers and the WPF window (`UnityDemo/MainWindow.xaml.cs`) are not part of this model, apart from the `"5;"` broadcast in `DelimiterInsideMessage`.
