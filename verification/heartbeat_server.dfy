/**
 * The handshake and heartbeat server (Programs.cs): on each accepted
 * connection it offers "HSK", reads one reply, and only on an exact
 * "HSK_DONE" enters a loop that sends "PING" and reads one reply for as long
 * as the socket stays Open. It never closes a connection itself.
 */
module HeartbeatServer {
  import opened Sockets
  import opened Accept

  const Hsk := "HSK"
  const HskDone := "HSK_DONE"
  const Ping := "PING"
  const Pong := "PONG"

  /** The number of messages in `q` whose decoded text is "PONG". */
  function PongCount(q: seq<Event>): nat
  {
    if q == [] then 0 else (if Decoded(q[0]) == Pong then 1 else 0) + PongCount(q[1..])
  }

  lemma {:induction false} PongCountAppend(a: seq<Event>, b: seq<Event>)
    ensures PongCount(a + b) == PongCount(a) + PongCount(b)
  {
    if a == [] {
      assert a + b == b;
    } else {
      assert (a + b)[0] == a[0] && (a + b)[1..] == a[1..] + b;
      PongCountAppend(a[1..], b);
      var head := if Decoded(a[0]) == Pong then 1 else 0;
      assert PongCount(a) == head + PongCount(a[1..]);
      assert PongCount(a + b) == head + PongCount(a[1..] + b);
    }
  }

  /**
   * The heartbeat loop from a socket in `state` whose peer will deliver `q`:
   * each round sends "PING" and receives one message; the loop goes on while
   * the socket is Open. The 5-second delay ending each round has no effect
   * on the socket.
   */
  function PingLoop(state: SocketState, q: seq<Event>): Run
    decreases |q|
  {
    if state != Open then Run([], state, q)
    else if q == [] then Run([Sent(TextFrame(Ping))], Aborted, [])
    else
      var next := PingLoop(StateAfterReceive(q[0]), q[1..]);
      Run([Sent(TextFrame(Ping)), Received(q[0])] + next.ops, next.final, next.rest)
  }

  /** The heartbeat loop entered on an Open socket. */
  function Heartbeat(q: seq<Event>): Run
  {
    PingLoop(Open, q)
  }

  /** True when the handshake reply `q[0]` opens the heartbeat loop. */
  predicate Accepted(q: seq<Event>)
  {
    q != [] && Decoded(q[0]) == HskDone
  }

  /** The handshake gate, after "HSK" has been sent on an Open socket. */
  function Handshake(q: seq<Event>): Run
  {
    if q == [] then Run([], Aborted, [])
    else if Accepted(q) then
      var loop := Heartbeat(q[1..]);
      Run([Received(q[0])] + loop.ops, loop.final, loop.rest)
    else Run([Received(q[0])], StateAfterReceive(q[0]), q[1..])
  }

  /** Everything the server does on one accepted connection. */
  function Session(q: seq<Event>): Run
  {
    var h := Handshake(q);
    Run([Sent(TextFrame(Hsk))] + h.ops, h.final, h.rest)
  }

  /** Sends stand at the even positions of `ops`, receives at the odd ones. */
  predicate Alternating(ops: seq<Op>)
  {
    forall i :: 0 <= i < |ops| ==> (ops[i].Sent? <==> i % 2 == 0)
  }

  /**
   * What the heartbeat loop sends depends only on where the first close
   * message stands: one "PING" per round, and never a close frame.
   */
  lemma {:induction false} PingLoopOutgoing(q: seq<Event>)
    ensures Outgoing(Heartbeat(q).ops) == Repeat(TextFrame(Ping), FirstClose(q) + 1)
  {
    if q != [] {
      var round := [Sent(TextFrame(Ping)), Received(q[0])];
      var next := PingLoop(StateAfterReceive(q[0]), q[1..]);
      OutgoingAppend(round, next.ops);
      assert Outgoing(round) == [TextFrame(Ping)];
      if !q[0].Close? {
        PingLoopOutgoing(q[1..]);
      }
    }
  }

  /**
   * The heartbeat loop receives one message per round, in order, and leaves
   * the rest unread: what it received followed by what it left is exactly
   * what the peer sent.
   */
  lemma {:induction false} PingLoopIncoming(q: seq<Event>)
    ensures Incoming(Heartbeat(q).ops) + Heartbeat(q).rest == q
  {
    if q != [] {
      var next := PingLoop(StateAfterReceive(q[0]), q[1..]);
      PingIncomingStep(q);
      if !q[0].Close? {
        PingLoopIncoming(q[1..]);
        assert ([q[0]] + Incoming(next.ops)) + next.rest == [q[0]] + (Incoming(next.ops) + next.rest);
      } else {
        assert Incoming(next.ops) == [] && next.rest == q[1..];
        assert [q[0]] + q[1..] == q;
      }
    } else {
      assert Heartbeat(q).ops == [Sent(TextFrame(Ping))];
    }
  }

  /** The heartbeat loop reads the peer's messages up to the first close. */
  lemma {:induction false} PingLoopReads(q: seq<Event>)
    ensures |Incoming(Heartbeat(q).ops)| == (if FirstClose(q) < |q| then FirstClose(q) + 1 else |q|)
  {
    if q != [] {
      PingIncomingStep(q);
      if !q[0].Close? {
        PingLoopReads(q[1..]);
        assert FirstClose(q) == 1 + FirstClose(q[1..]);
      }
    }
  }

  /** What one round of the heartbeat loop receives, then the rest. */
  lemma PingIncomingStep(q: seq<Event>)
    requires q != []
    ensures Incoming(Heartbeat(q).ops) == [q[0]] + Incoming(PingLoop(StateAfterReceive(q[0]), q[1..]).ops)
    ensures Heartbeat(q).rest == PingLoop(StateAfterReceive(q[0]), q[1..]).rest
  {
    var round := [Sent(TextFrame(Ping)), Received(q[0])];
    IncomingAppend(round, PingLoop(StateAfterReceive(q[0]), q[1..]).ops);
    assert Incoming(round) == [q[0]];
  }

  /**
   * The heartbeat loop ends exactly when a close is received (CloseReceived)
   * or a receive fails (Aborted), never with the socket Open.
   */
  lemma {:induction false} PingLoopEnds(q: seq<Event>)
    ensures Heartbeat(q).final == (if FirstClose(q) < |q| then CloseReceived else Aborted)
  {
    if q != [] && !q[0].Close? {
      PingLoopEnds(q[1..]);
      assert FirstClose(q) == 1 + FirstClose(q[1..]);
      assert Heartbeat(q).final == Heartbeat(q[1..]).final;
    } else if q != [] {
      assert Heartbeat(q).final == PingLoop(CloseReceived, q[1..]).final;
    } else {
      assert Heartbeat(q).final == Aborted;
    }
  }

  /**
   * Sends and receives alternate strictly on a heartbeat connection, starting
   * with the "HSK" send.
   */
  lemma SessionAlternates(q: seq<Event>)
    ensures Session(q).ops[0] == Sent(TextFrame(Hsk))
    ensures Alternating(Session(q).ops)
  {
    var ops := Session(q).ops;
    if Accepted(q) {
      var loop := Heartbeat(q[1..]);
      PingLoopAlternates(q[1..]);
      assert ops == [Sent(TextFrame(Hsk)), Received(q[0])] + loop.ops;
      forall i | 2 <= i < |ops| ensures ops[i].Sent? <==> i % 2 == 0 {
        assert ops[i] == loop.ops[i - 2];
        assert (i - 2) % 2 == i % 2;
      }
    }
  }

  /**
   * The server sends one message more than it receives on a heartbeat
   * connection exactly when a receive failed, and as many otherwise.
   */
  lemma SessionBalance(q: seq<Event>)
    ensures |Outgoing(Session(q).ops)| == |Incoming(Session(q).ops)| + (if Session(q).final == Aborted then 1 else 0)
  {
    if Accepted(q) {
      var loop := Heartbeat(q[1..]);
      var opening := [Sent(TextFrame(Hsk)), Received(q[0])];
      assert Session(q).ops == opening + loop.ops;
      PingLoopOutgoing(q[1..]);
      PingLoopReads(q[1..]);
      PingLoopEnds(q[1..]);
      OutgoingAppend(opening, loop.ops);
      IncomingAppend(opening, loop.ops);
      assert |Outgoing(Session(q).ops)| == 1 + FirstClose(q[1..]) + 1;
      assert |Incoming(Session(q).ops)| == 1 + |Incoming(loop.ops)|;
    } else if q == [] {
      assert Session(q).ops == [Sent(TextFrame(Hsk))];
    } else {
      RejectedHandshake(q);
    }
  }

  /** Within the heartbeat loop alone, sends stand at the even positions. */
  lemma {:induction false} PingLoopAlternates(q: seq<Event>)
    ensures Alternating(Heartbeat(q).ops)
    decreases |q|
  {
    if q != [] {
      var ops := Heartbeat(q).ops;
      var next := PingLoop(StateAfterReceive(q[0]), q[1..]);
      if !q[0].Close? {
        PingLoopAlternates(q[1..]);
      }
      forall i | 2 <= i < |ops| ensures ops[i].Sent? <==> i % 2 == 0 {
        assert ops[i] == next.ops[i - 2];
        assert (i - 2) % 2 == i % 2;
      }
    }
  }

  /**
   * The handshake gate: the first message after the "HSK" send is the one
   * handshake receive, and the heartbeat loop (its first "PING" right after
   * that receive) runs if and only if the reply decodes to exactly
   * "HSK_DONE".
   */
  lemma HandshakeGate(q: seq<Event>)
    ensures var ops := Session(q).ops;
      (q != [] ==> |ops| >= 2 && ops[1] == Received(q[0])) &&
      (Accepted(q) ==> |ops| >= 3 && ops[2] == Sent(TextFrame(Ping))) &&
      (TextFrame(Ping) in Outgoing(ops) <==> Accepted(q))
  {
    var ops := Session(q).ops;
    if Accepted(q) {
      PingLoopOutgoing(q[1..]);
      OutgoingAppend([Sent(TextFrame(Hsk)), Received(q[0])], Heartbeat(q[1..]).ops);
      assert Outgoing(ops)[1] == TextFrame(Ping);
    } else {
      assert q != [] ==> ops == [Sent(TextFrame(Hsk)), Received(q[0])];
    }
  }

  /**
   * A handshake reply other than "HSK_DONE" ends the handler after that one
   * receive: the only message ever sent is "HSK", no receive failed, and
   * the socket is left as the reply left it.
   */
  lemma RejectedHandshake(q: seq<Event>)
    requires q != [] && Decoded(q[0]) != HskDone
    ensures var s := Session(q);
      Outgoing(s.ops) == [TextFrame(Hsk)] && Incoming(s.ops) == [q[0]] &&
      s.final == StateAfterReceive(q[0]) && s.final != Aborted && s.rest == q[1..]
  {
    assert Session(q).ops == [Sent(TextFrame(Hsk))] + [Received(q[0])];
    OutgoingAppend([Sent(TextFrame(Hsk))], [Received(q[0])]);
    IncomingAppend([Sent(TextFrame(Hsk))], [Received(q[0])]);
  }

  /**
   * The server never sends a close frame: everything it sends is "HSK"
   * followed, once the handshake is accepted, by one "PING" per round; and
   * once accepted, the handler ends only with the socket no longer Open.
   */
  lemma NeverCloses(q: seq<Event>)
    ensures var s := Session(q);
      Outgoing(s.ops) ==
        [TextFrame(Hsk)] + (if Accepted(q) then Repeat(TextFrame(Ping), FirstClose(q[1..]) + 1) else []) &&
      (forall a :: a in Outgoing(s.ops) ==> a.TextFrame?) &&
      (Accepted(q) ==> s.final != Open)
  {
    var s := Session(q);
    if Accepted(q) {
      PingLoopOutgoing(q[1..]);
      PingLoopEnds(q[1..]);
      OutgoingAppend([Sent(TextFrame(Hsk)), Received(q[0])], Heartbeat(q[1..]).ops);
    } else if q != [] {
      RejectedHandshake(q);
    }
  }

  /**
   * Replies other than "PONG" change nothing but the log: two peers whose
   * messages differ only in content, not in which of them are close
   * messages, get the same messages from the heartbeat loop and leave the
   * socket in the same state.
   */
  lemma {:induction false} PingLoopIgnoresContent(q1: seq<Event>, q2: seq<Event>)
    requires |q1| == |q2|
    requires forall i :: 0 <= i < |q1| ==> (q1[i].Close? <==> q2[i].Close?)
    ensures Outgoing(Heartbeat(q1).ops) == Outgoing(Heartbeat(q2).ops)
    ensures Heartbeat(q1).final == Heartbeat(q2).final
  {
    if q1 != [] {
      var next1 := PingLoop(StateAfterReceive(q1[0]), q1[1..]);
      var next2 := PingLoop(StateAfterReceive(q2[0]), q2[1..]);
      if !q1[0].Close? {
        PingLoopIgnoresContent(q1[1..], q2[1..]);
      }
      OutgoingAppend([Sent(TextFrame(Ping)), Received(q1[0])], next1.ops);
      OutgoingAppend([Sent(TextFrame(Ping)), Received(q2[0])], next2.ops);
    }
  }

  /**
   * One round of the heartbeat loop: whatever was done on the socket before,
   * followed by the loop, is the same as that followed by the round's "PING"
   * and receive, followed by the loop from the state the receive leaves.
   */
  lemma PingPass(before: seq<Op>, q: seq<Event>)
    requires q != []
    ensures before + Heartbeat(q).ops ==
      (before + [Sent(TextFrame(Ping)), Received(q[0])]) + PingLoop(StateAfterReceive(q[0]), q[1..]).ops
    ensures Heartbeat(q).final == PingLoop(StateAfterReceive(q[0]), q[1..]).final
    ensures Heartbeat(q).rest == PingLoop(StateAfterReceive(q[0]), q[1..]).rest
  {
  }

  /**
   * StartPingPong: the heartbeat loop. `pongs` counts the replies recognised
   * as "PONG" among the messages the loop read, the one thing a reply changes
   * besides the log.
   */
  method StartPingPong(ws: WebSocket) returns (pongs: nat)
    requires ws.state == Open
    modifies ws
    ensures ws.trace == old(ws.trace) + Heartbeat(old(ws.incoming)).ops
    ensures ws.state == Heartbeat(old(ws.incoming)).final && ws.incoming == Heartbeat(old(ws.incoming)).rest
    ensures |ws.incoming| <= |old(ws.incoming)|
    ensures pongs == PongCount(old(ws.incoming)[..|old(ws.incoming)| - |ws.incoming|])
  {
    pongs := 0;
    ghost var start, all := ws.trace, Heartbeat(ws.incoming);
    ghost var q0, read: seq<Event> := ws.incoming, [];
    while ws.state == Open
      invariant ws.state == Open || ws.state == CloseReceived
      invariant start + all.ops == ws.trace + PingLoop(ws.state, ws.incoming).ops
      invariant all.final == PingLoop(ws.state, ws.incoming).final && all.rest == PingLoop(ws.state, ws.incoming).rest
      invariant q0 == read + ws.incoming && pongs == PongCount(read)
      decreases |ws.incoming|
    {
      ghost var before, q := ws.trace, ws.incoming;
      ws.SendText(Ping);
      var result := ws.Receive();
      if result.None? {
        // The failed receive throws out of the loop.
        assert ws.trace == before + Heartbeat(q).ops;
        assert read == q0[..|q0| - |ws.incoming|];
        return;
      }
      assert ws.trace == before + [Sent(TextFrame(Ping)), Received(q[0])];
      PingPass(before, q);
      assert q0 == (read + [q[0]]) + ws.incoming;
      PongCountAppend(read, [q[0]]);
      read := read + [q[0]];
      var receivedMessage := Decoded(result.value);
      if receivedMessage == Pong {
        pongs := pongs + 1;
      }
      // Task.Delay(5000) ends the round; it does not touch the socket.
    }
    assert read == q0[..|q0| - |ws.incoming|];
  }

  /**
   * HandleWebSocket: one receive for the handshake reply, then the heartbeat
   * loop only if the reply decodes to exactly "HSK_DONE".
   */
  method HandleWebSocket(ws: WebSocket)
    requires ws.state == Open
    modifies ws
    ensures ws.trace == old(ws.trace) + Handshake(old(ws.incoming)).ops
    ensures ws.state == Handshake(old(ws.incoming)).final && ws.incoming == Handshake(old(ws.incoming)).rest
  {
    var result := ws.Receive();
    if result.None? {
      return;
    }
    var receivedMessage := Decoded(result.value);
    if receivedMessage == HskDone {
      ghost var before := ws.trace;
      var pongs := StartPingPong(ws);
      assert before + Heartbeat(old(ws.incoming)[1..]).ops ==
        old(ws.trace) + ([Received(result.value)] + Heartbeat(old(ws.incoming)[1..]).ops);
    }
  }

  /**
   * StartWebSocketServer's accept loop: a non-upgrade request gets 400; an
   * upgrade gets a socket, the "HSK" offer and the handler, and the next
   * request is taken only after the handler returns.
   */
  method StartWebSocketServer(requests: seq<Request>) returns (outcomes: seq<Outcome>, faulted: bool)
    ensures Report(outcomes, faulted) == Serve(requests, Session)
  {
    var listener := new Listener(requests);
    outcomes, faulted := [], false;
    ghost var done: seq<Request> := [];
    while listener.pending != []
      invariant requests == done + listener.pending
      invariant Serve(done, Session) == Report(outcomes, false)
      decreases |listener.pending|
    {
      ghost var waiting := listener.pending;
      var context := listener.GetContext();
      var outcome;
      if context.isUpgrade {
        var ws := new WebSocket(context.peer);
        ws.SendText(Hsk);
        HandleWebSocket(ws);
        outcome := Connection(ws.trace, ws.state);
        assert outcome == Connection(Session(context.peer).ops, Session(context.peer).final) by {
          assert ws.trace == [Sent(TextFrame(Hsk))] + Handshake(context.peer).ops;
        }
      } else {
        outcome := BadRequest(BadRequestStatus);
      }
      assert outcome == Respond(waiting[0], Session);
      outcomes := outcomes + [outcome];
      if Escapes(outcome) {
        // The handler's failure is not caught: it leaves the accept loop.
        faulted := true;
        assert Serve(requests, Session) == Report(outcomes, true) by {
          ServeSequential(done, waiting, Session);
        }
        break;
      }
      assert Serve(done + [waiting[0]], Session) == Report(outcomes, false) by {
        ServeSequential(done, [waiting[0]], Session);
      }
      done := done + [waiting[0]];
    }
    assert !faulted ==> done == requests;
  }
}
