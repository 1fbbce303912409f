# Two sequential WebSocket servers

The repository has two small WebSocket servers built on an HTTP listener. Each
takes one HTTP request at a time. A request that is not a WebSocket upgrade
gets status 400 and is closed. An upgrade is accepted and its connection is
handled to completion before the next request is taken.

- The handshake and heartbeat server (`Programs.cs`) sends "HSK" on each new
  connection and reads one reply. Only a reply that decodes to exactly
  "HSK_DONE" starts the heartbeat loop. Each round of that loop sends "PING",
  reads one reply, logs it if it is "PONG", and waits five seconds. The loop
  runs while the socket is Open. The server never closes a connection itself.
- The reply server (`Program.cs`) waits for the client. It answers every text
  message with the fixed text "Connected", ignores binary messages, and
  answers a close message with a Normal Closure (1000) close frame whose
  reason is empty. It runs while the socket is Open.

The model is in four modules:

- `Sockets` (`sockets.dfy`): the socket as a class. It holds the state, the
  messages the peer will still deliver, and an append-only trace of every send
  and receive. A receive when the peer has nothing more to deliver is the
  transport failure: the socket becomes Aborted.
- `Accept` (`accept.dfy`): requests, the listener class, and `Serve`, the
  specification of an accept loop over any connection handler.
- `HeartbeatServer` (`heartbeat_server.dfy`): `Programs.cs`. The imperative
  handlers are methods proved against the recursive functions `PingLoop`,
  `Handshake` and `Session`. The lemmas state the server's properties about
  those functions.
- `ReplyServer` (`reply_server.dfy`): `Program.cs`, built the same way on
  `ReplyLoop` and `ReplySession`.

Neither server catches an exception. When a receive fails, the exception
leaves the handler and also leaves the accept loop. `Serve` therefore stops at
the first connection that ends Aborted and reports it as `faulted`.

Points a reader might not expect from the code:

- The reply server sends no greeting when a client connects.
- It answers each text with the literal "Connected", not an echo of the text.
- Its close frame has an empty reason.
- A failed receive is not contained per connection. It ends the accept loop.
- The handshake gate compares the decoded payload whatever the message type,
  so a binary message whose bytes are "HSK_DONE" also opens the heartbeat
  loop. A close message decodes to the empty text.

## Model

| member | source | states |
|---|---|---|
| Sockets.WebSocket.Receive | Programs.cs:158-159 | One receive delivers the peer's next message and records it. A close message moves the socket to CloseReceived. When the peer has nothing left, the receive fails, the socket becomes Aborted and nothing is recorded. |
| Sockets.WebSocket.SendText | Programs.cs:148-153 | A text send appends exactly that message to the trace and changes nothing else. |
| Sockets.WebSocket.Close | Program.cs:50 | Answering a received close sends the close frame with the given status and reason and leaves the socket Closed. |
| Accept.Listener.GetContext | Program.cs:19 | The listener hands out requests in arrival order, one per call. |
| Accept.ServeInOrder | Program.cs:17-29 | Outcomes follow the requests in arrival order. Each outcome depends only on its own request. The loop ends early exactly when a handler's failure escapes, at that request; otherwise every request gets an outcome. |
| Accept.NonUpgradeRejected | Programs.cs:115-120 | A request that is not an upgrade gets status 400 and no connection, and the loop goes on to the next request. |
| Accept.ServeSequential | Programs.cs:94-121 | Serving two batches one after the other equals serving them together, provided no failure escaped the first batch: connections do not interfere. |
| HeartbeatServer.StartWebSocketServer | Programs.cs:94-121 | The accept loop produces exactly `Serve` of the requests with the heartbeat session: 400 for a non-upgrade; for an upgrade, "HSK" and then the handler, finished before the next request is taken. |
| HeartbeatServer.HandleWebSocket | Programs.cs:124-138 | The handler does one receive, then runs the heartbeat loop exactly when that reply decodes to "HSK_DONE". Its trace, final state and unread messages are those of `Handshake`. |
| HeartbeatServer.StartPingPong | Programs.cs:140-168 | The loop's trace, final state and unread messages are those of `Heartbeat` on what the peer sends. `pongs` is the number of messages the loop read that decode to "PONG". |
| HeartbeatServer.PingLoopOutgoing | Programs.cs:145-153 | The heartbeat loop sends one "PING" per round up to and including the round that reads the first close message, and sends nothing else. |
| HeartbeatServer.PingLoopIncoming | Programs.cs:156-159 | The loop reads the peer's messages in order and leaves the rest unread. What it read followed by what it left is exactly what the peer sent. |
| HeartbeatServer.PingLoopReads | Programs.cs:145-159 | The loop reads up to and including the first close message, or everything when no close comes. |
| HeartbeatServer.PingLoopEnds | Programs.cs:145 | The loop ends CloseReceived exactly when a close message arrives, Aborted when a receive fails, and never Open. |
| HeartbeatServer.PingLoopAlternates | Programs.cs:145-167 | Within the loop, sends stand at the even positions and receives at the odd ones. |
| HeartbeatServer.PingLoopIgnoresContent | Programs.cs:159-163 | A reply's content does not change what the loop sends or the state it ends in; only whether it is a close message does. |
| HeartbeatServer.SessionAlternates | Programs.cs:103-167 | On a heartbeat connection the first operation is the "HSK" send, and sends and receives strictly alternate. |
| HeartbeatServer.SessionBalance | Programs.cs:103-167 | The server sends one message more than it receives exactly when a receive failed, and as many otherwise. |
| HeartbeatServer.HandshakeGate | Programs.cs:129-137 | The first receive is the handshake reply. The first "PING" follows it directly when the reply is "HSK_DONE". Any "PING" is sent if and only if the reply decodes to exactly "HSK_DONE". |
| HeartbeatServer.RejectedHandshake | Programs.cs:133-138 | Any other reply ends the handler after that one receive. Only "HSK" was sent, no receive failed, and the socket is left as the reply left it. |
| HeartbeatServer.NeverCloses | Programs.cs:103-167 | Everything the server sends is "HSK" and, once the handshake is accepted, one "PING" per round. It never sends a close frame. Once accepted, the handler ends only with the socket no longer Open. |
| ReplyServer.ProcessWebSocketRequest | Program.cs:32-53 | The handler's trace and final state are those of `ReplySession` on what the peer sends. |
| ReplyServer.AcceptLoop | Program.cs:17-29 | The accept loop produces exactly `Serve` of the requests with the reply session: 400 for a non-upgrade; an upgrade handled to completion before the next request. |
| ReplyServer.ReplyOutgoing | Program.cs:39-52 | The server sends one "Connected" per text message before the first close message, whatever the texts say, then the Normal Closure frame if a close came. Binary messages get nothing. |
| ReplyServer.ReplyIncoming | Program.cs:39-41 | The server reads in order up to and including the first close message and leaves the rest unread. It ends Closed after a close message and Aborted when a receive fails. |
| ReplyServer.ReplyListensFirst | Program.cs:34-41 | The server's first operation on a connection is a receive; it never speaks first. |
| ReplyServer.ReplyAnswersOnly | Program.cs:42-51 | Every message sent answers the message received just before it. |
| ReplyServer.ReplyAnswersEach | Program.cs:42-51 | Every received message gets its answer right after it: "Connected" for a text, the close frame for a close. A binary message gets nothing, and the next operation is a receive. |
| ReplyServer.ReplyIgnoresContent | Program.cs:42-46 | The server does not echo: peers whose messages differ only in content, not in kind, get the same messages back and leave the socket in the same state. |

## Left out

- The Windows Forms window of the heartbeat server, its log text box and the reply server's console output. Of the log lines only "Received: PONG" (Programs.cs:162) is kept, as the count `pongs` returned by `StartPingPong`. The others (Programs.cs:101, 119, 131, 135, 154; Program.cs:36, 45) are left out. Two of them print a received message (Programs.cs:131, Program.cs:45), which the trace already records. The rest print a fixed line marking an event that the trace or the outcome already records: a connection, an accepted handshake, a "PING" sent, a 400 answer.
- The local IP address lookup, the listener prefixes and `Start`. The model begins at the first `GetContextAsync`.
- Framing, fragmentation, the 1024-byte receive buffer and UTF-8 encoding. One receive delivers one whole message, and its decoded text is the message's own string. A message longer than the buffer would be split across receives in the real library.
- `Task.Delay(5000)`: time is not modelled, so the delay has no effect on the socket.
- Send failures, cancellation, and a peer that closes while the server is sending. Sends always succeed.
- Sockets.WebSocket.Close: modelled only from CloseReceived, the only state in which the reply server calls it. The library also allows a close initiated from Open.
- A silent peer: every receive waits without a timeout or cancellation, so a peer that stays connected and sends nothing blocks its handler forever, and the accept loop, which waits for the handler, never takes a later request. The model ends each connection when the peer's queued messages run out, treating that as a transport failure.
- The endless accept loops, `while (true)` around a blocking `GetContextAsync`: the requests are a finite sequence, and the loop ends when it runs out.
- The uncaught exception itself: it is modelled as `faulted` and the accept loop stopping, not as the process terminating.
- Concurrency: both servers handle one connection at a time, so there is none to model.
