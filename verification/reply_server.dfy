/**
 * The reply server (Program.cs): on each accepted connection it waits for
 * the client, answers every text message with the fixed text "Connected"
 * (it does not echo what it received), ignores binary messages, and answers
 * a close message with a Normal Closure close frame and an empty reason.
 */
module ReplyServer {
  import opened Sockets
  import opened Accept

  const Reply := "Connected"

  /** The close frame the server answers a close message with. */
  const CloseReply := CloseFrame(NormalClosure, "")

  /**
   * The server's answer to one received message: "Connected" to any text,
   * nothing to a binary message, the close frame to a close message.
   */
  function Answer(e: Event): Option<Action>
  {
    match e
    case Text(_) => Some(TextFrame(Reply))
    case Binary(_) => None
    case Close => Some(CloseReply)
  }

  /** One pass of the receive loop: the receive, then the answer if any. */
  function Exchange(e: Event): seq<Op>
  {
    [Received(e)] + (if Answer(e).Some? then [Sent(Answer(e).value)] else [])
  }

  /** The state one pass of the receive loop leaves an Open socket in. */
  function AfterExchange(e: Event): SocketState
  {
    if e.Close? then Closed else Open
  }

  /**
   * The receive loop from a socket in `state` whose peer will still deliver
   * `q`: it goes on while the socket is Open, which a close message ends by
   * way of the close frame sent in answer.
   */
  function ReplyLoop(state: SocketState, q: seq<Event>): Run
    decreases |q|
  {
    if state != Open then Run([], state, q)
    else if q == [] then Run([], Aborted, [])
    else
      var next := ReplyLoop(AfterExchange(q[0]), q[1..]);
      Run(Exchange(q[0]) + next.ops, next.final, next.rest)
  }

  /** The handler of one upgraded connection, from its freshly opened socket. */
  function ReplySession(peer: seq<Event>): Run
  {
    ReplyLoop(Open, peer)
  }

  /** Counting texts before the first close, one message at a time. */
  lemma TextsBeforeClose(q: seq<Event>)
    requires q != [] && !q[0].Close?
    ensures FirstClose(q) == 1 + FirstClose(q[1..])
    ensures FirstClose(q) < |q| <==> FirstClose(q[1..]) < |q[1..]|
    ensures TextCount(q[..FirstClose(q)]) ==
      (if q[0].Text? then 1 else 0) + TextCount(q[1..][..FirstClose(q[1..])])
  {
    var c := FirstClose(q[1..]);
    assert q[..c + 1][0] == q[0] && q[..c + 1][1..] == q[1..][..c];
  }

  /** What one pass of the loop that keeps the socket Open sends, then the rest. */
  lemma ReplyOutgoingStep(q: seq<Event>)
    requires q != [] && !q[0].Close?
    ensures Outgoing(ReplySession(q).ops) ==
      (if q[0].Text? then [TextFrame(Reply)] else []) + Outgoing(ReplySession(q[1..]).ops)
  {
    assert ReplySession(q).ops == Exchange(q[0]) + ReplySession(q[1..]).ops;
    OutgoingAppend(Exchange(q[0]), ReplySession(q[1..]).ops);
    assert Outgoing(Exchange(q[0])) == (if q[0].Text? then [TextFrame(Reply)] else []);
  }

  /**
   * The server sends one "Connected" per text message before the first close
   * message, whatever the texts say, then the close frame if a close message
   * came: it never echoes, and binary messages get nothing.
   */
  lemma {:induction false} ReplyOutgoing(q: seq<Event>)
    ensures Outgoing(ReplySession(q).ops) ==
      Repeat(TextFrame(Reply), TextCount(q[..FirstClose(q)])) + (if FirstClose(q) < |q| then [CloseReply] else [])
  {
    if q == [] {
      assert TextCount(q[..0]) == 0;
    } else if q[0].Close? {
      assert TextCount(q[..0]) == 0;
      assert ReplyLoop(Closed, q[1..]).ops == [];
      assert ReplySession(q).ops == Exchange(q[0]) + [];
    } else {
      var n := TextCount(q[1..][..FirstClose(q[1..])]);
      ReplyOutgoing(q[1..]);
      ReplyOutgoingStep(q);
      TextsBeforeClose(q);
      if q[0].Text? {
        assert Repeat(TextFrame(Reply), n + 1) == [TextFrame(Reply)] + Repeat(TextFrame(Reply), n);
      }
    }
  }

  /** What one pass of the loop that keeps the socket Open receives, then the rest. */
  lemma ReplyIncomingStep(q: seq<Event>)
    requires q != [] && !q[0].Close?
    ensures Incoming(ReplySession(q).ops) == [q[0]] + Incoming(ReplySession(q[1..]).ops)
    ensures ReplySession(q).final == ReplySession(q[1..]).final
    ensures ReplySession(q).rest == ReplySession(q[1..]).rest
  {
    assert ReplySession(q).ops == Exchange(q[0]) + ReplySession(q[1..]).ops;
    IncomingAppend(Exchange(q[0]), ReplySession(q[1..]).ops);
    assert Incoming(Exchange(q[0])) == [q[0]];
  }

  /**
   * The server reads the peer's messages in order up to and including the
   * first close message, and leaves the rest unread: what it received
   * followed by what it left is exactly what the peer sent. It ends Closed
   * after a close message, Aborted when a receive fails.
   */
  lemma {:induction false} ReplyIncoming(q: seq<Event>)
    ensures Incoming(ReplySession(q).ops) + ReplySession(q).rest == q
    ensures |Incoming(ReplySession(q).ops)| == (if FirstClose(q) < |q| then FirstClose(q) + 1 else |q|)
    ensures ReplySession(q).final == (if FirstClose(q) < |q| then Closed else Aborted)
  {
    if q != [] && q[0].Close? {
      assert ReplyLoop(Closed, q[1..]).ops == [];
      assert ReplySession(q).ops == Exchange(q[0]) + [];
      assert Incoming(Exchange(q[0])) == [q[0]];
      assert [q[0]] + q[1..] == q;
    } else if q != [] {
      ReplyIncoming(q[1..]);
      ReplyIncomingStep(q);
      assert FirstClose(q) == 1 + FirstClose(q[1..]);
      var r := ReplySession(q[1..]);
      assert ([q[0]] + Incoming(r.ops)) + r.rest == [q[0]] + (Incoming(r.ops) + r.rest);
    }
  }

  /** The server never speaks first. */
  lemma ReplyListensFirst(q: seq<Event>)
    ensures ReplySession(q).ops == [] || ReplySession(q).ops[0].Received?
  {
  }

  /**
   * Every message the server sends answers the message received just
   * before it.
   */
  lemma {:induction false} ReplyAnswersOnly(q: seq<Event>)
    ensures forall i :: 0 <= i < |ReplySession(q).ops| && ReplySession(q).ops[i].Sent? ==>
      0 < i && ReplySession(q).ops[i - 1].Received? &&
      Answer(ReplySession(q).ops[i - 1].event) == Some(ReplySession(q).ops[i].action)
  {
    if q != [] {
      var ops, next := ReplySession(q).ops, ReplyLoop(AfterExchange(q[0]), q[1..]).ops;
      var d := |Exchange(q[0])|;
      assert ops == Exchange(q[0]) + next;
      assert ops[0] == Received(q[0]);
      assert d == 2 ==> ops[1] == Sent(Answer(q[0]).value);
      if !q[0].Close? {
        ReplyAnswersOnly(q[1..]);
        ReplyListensFirst(q[1..]);
        assert d < |ops| ==> ops[d] == next[0] && ops[d].Received?;
        forall i | d < i < |ops| && ops[i].Sent?
          ensures 0 < i && ops[i - 1].Received? && Answer(ops[i - 1].event) == Some(ops[i].action)
        {
          assert ops[i] == next[i - d] && ops[i - 1] == next[i - 1 - d];
        }
      }
    }
  }

  /**
   * Every message the server receives gets its answer right after it: a
   * text gets "Connected", a close gets the close frame, and a binary
   * message gets nothing, the next operation being a receive.
   */
  lemma {:induction false} ReplyAnswersEach(q: seq<Event>)
    ensures forall i :: 0 <= i < |ReplySession(q).ops| && ReplySession(q).ops[i].Received? ==>
      AnsweredAt(ReplySession(q).ops, i)
  {
    if q != [] {
      var ops, next := ReplySession(q).ops, ReplyLoop(AfterExchange(q[0]), q[1..]).ops;
      var d := |Exchange(q[0])|;
      assert ops == Exchange(q[0]) + next;
      if !q[0].Close? {
        ReplyAnswersEach(q[1..]);
        ReplyListensFirst(q[1..]);
      }
      assert AnsweredAt(ops, 0);
      forall i | d <= i < |ops| && ops[i].Received?
        ensures AnsweredAt(ops, i)
      {
        assert ops[i] == next[i - d];
        assert i + 1 < |ops| ==> ops[i + 1] == next[i + 1 - d];
        assert AnsweredAt(next, i - d);
      }
    }
  }

  /**
   * The receive at position `i` of `ops` is answered right after it: by the
   * message Answer gives, or, when there is none, by no send at all.
   */
  ghost predicate AnsweredAt(ops: seq<Op>, i: nat)
    requires i < |ops| && ops[i].Received?
  {
    if Answer(ops[i].event).Some? then
      i + 1 < |ops| && ops[i + 1] == Sent(Answer(ops[i].event).value)
    else
      i + 1 == |ops| || ops[i + 1].Received?
  }

  /**
   * The server does not echo: two peers whose messages differ only in their
   * content, not in their kind, get exactly the same messages back and leave
   * the socket in the same state.
   */
  lemma {:induction false} ReplyIgnoresContent(q1: seq<Event>, q2: seq<Event>)
    requires |q1| == |q2|
    requires forall i :: 0 <= i < |q1| ==>
      (q1[i].Text? <==> q2[i].Text?) && (q1[i].Binary? <==> q2[i].Binary?)
    ensures Outgoing(ReplySession(q1).ops) == Outgoing(ReplySession(q2).ops)
    ensures ReplySession(q1).final == ReplySession(q2).final
  {
    if q1 != [] && !q1[0].Close? {
      assert !q2[0].Close?;
      ReplyIgnoresContent(q1[1..], q2[1..]);
      OutgoingAppend(Exchange(q1[0]), ReplySession(q1[1..]).ops);
      OutgoingAppend(Exchange(q2[0]), ReplySession(q2[1..]).ops);
      assert Outgoing(Exchange(q1[0])) == Outgoing(Exchange(q2[0]));
    } else if q1 != [] {
      assert q2[0].Close?;
      assert ReplySession(q1).ops == Exchange(q1[0]) + ReplyLoop(Closed, q1[1..]).ops;
      assert ReplySession(q2).ops == Exchange(q2[0]) + ReplyLoop(Closed, q2[1..]).ops;
    }
  }

  /**
   * One pass of the receive loop: whatever was done on the socket before,
   * followed by the loop, is the same as that followed by the pass's receive
   * and answer, followed by the loop from the state the pass leaves.
   */
  lemma ReplyPass(before: seq<Op>, q: seq<Event>)
    requires q != []
    ensures before + ReplyLoop(Open, q).ops ==
      (before + Exchange(q[0])) + ReplyLoop(AfterExchange(q[0]), q[1..]).ops
    ensures ReplyLoop(Open, q).final == ReplyLoop(AfterExchange(q[0]), q[1..]).final
  {
  }

  /**
   * ProcessWebSocketRequest: accept the upgrade, then receive and answer
   * while the socket is Open. Returns what was done on the socket and the
   * state it was left in.
   */
  method ProcessWebSocketRequest(peer: seq<Event>) returns (trace: seq<Op>, final: SocketState)
    ensures trace == ReplySession(peer).ops && final == ReplySession(peer).final
  {
    var socket := new WebSocket(peer);
    ghost var all := ReplySession(peer);
    while socket.state == Open
      invariant socket.state == Open || socket.state == Closed
      invariant all.ops == socket.trace + ReplyLoop(socket.state, socket.incoming).ops
      invariant all.final == ReplyLoop(socket.state, socket.incoming).final
      decreases |socket.incoming|
    {
      ghost var before, q := socket.trace, socket.incoming;
      var result := socket.Receive();
      if result.None? {
        // The failed receive throws out of the handler.
        return socket.trace, socket.state;
      }
      if result.value.Text? {
        socket.SendText(Reply);
      } else if result.value.Close? {
        socket.Close(NormalClosure, "");
      }
      assert socket.trace == before + Exchange(q[0]);
      ReplyPass(before, q);
    }
    return socket.trace, socket.state;
  }

  /**
   * The accept loop of Main: a non-upgrade request gets 400, an upgrade is
   * handled to completion before the next request is taken.
   */
  method AcceptLoop(requests: seq<Request>) returns (outcomes: seq<Outcome>, faulted: bool)
    ensures Report(outcomes, faulted) == Serve(requests, ReplySession)
  {
    var listener := new Listener(requests);
    outcomes, faulted := [], false;
    ghost var done: seq<Request> := [];
    while listener.pending != []
      invariant requests == done + listener.pending
      invariant Serve(done, ReplySession) == Report(outcomes, false)
      decreases |listener.pending|
    {
      ghost var waiting := listener.pending;
      var context := listener.GetContext();
      var outcome;
      if context.isUpgrade {
        var trace, final := ProcessWebSocketRequest(context.peer);
        outcome := Connection(trace, final);
      } else {
        outcome := BadRequest(BadRequestStatus);
      }
      assert outcome == Respond(waiting[0], ReplySession);
      outcomes := outcomes + [outcome];
      if Escapes(outcome) {
        // The handler's failure is not caught: it leaves the accept loop.
        faulted := true;
        assert Serve(requests, ReplySession) == Report(outcomes, true) by {
          ServeSequential(done, waiting, ReplySession);
        }
        break;
      }
      assert Serve(done + [waiting[0]], ReplySession) == Report(outcomes, false) by {
        ServeSequential(done, [waiting[0]], ReplySession);
      }
      done := done + [waiting[0]];
    }
    assert !faulted ==> done == requests;
  }
}
