/**
 * The server side of one WebSocket connection, seen from the application:
 * a socket with a state, the messages the peer will still deliver, and the
 * ordered record of every send and receive the server has made on it.
 *
 * Framing, the 1024-byte receive buffer and UTF-8 decoding belong to the
 * WebSocket library; here one receive delivers one whole message.
 */
module Sockets {

  /** Close status for a normal closure (section 7.4.1 of RFC 6455). */
  const NormalClosure: int := 1000

  datatype Option<T> = None | Some(value: T)

  /** The socket states the two servers can reach. */
  datatype SocketState = Open | CloseReceived | Closed | Aborted

  /** One whole message as a receive delivers it. */
  datatype Event = Text(text: string) | Binary(data: string) | Close

  /** One message the server sends. */
  datatype Action = TextFrame(text: string) | CloseFrame(status: int, reason: string)

  /** One completed operation on the socket, in program order. */
  datatype Op = Sent(action: Action) | Received(event: Event)

  /**
   * What a handler leaves behind: the operations it performed, the state it
   * left the socket in, and the messages the peer had queued but that were
   * never read.
   */
  datatype Run = Run(ops: seq<Op>, final: SocketState, rest: seq<Event>)

  /**
   * The text a handler obtains by decoding the receive buffer up to the byte
   * count of the result, whatever the message type: a close message carries
   * no data bytes.
   */
  function Decoded(e: Event): string
  {
    match e
    case Text(s) => s
    case Binary(d) => d
    case Close => ""
  }

  /** The state of an Open socket once it has received `e`. */
  function StateAfterReceive(e: Event): SocketState
  {
    if e.Close? then CloseReceived else Open
  }

  /** The messages the server sent, in order. */
  function Outgoing(ops: seq<Op>): (r: seq<Action>)
    ensures |r| <= |ops|
  {
    if ops == [] then []
    else (if ops[0].Sent? then [ops[0].action] else []) + Outgoing(ops[1..])
  }

  /** The messages the server received, in order. */
  function Incoming(ops: seq<Op>): (r: seq<Event>)
    ensures |r| <= |ops|
  {
    if ops == [] then []
    else (if ops[0].Received? then [ops[0].event] else []) + Incoming(ops[1..])
  }

  lemma {:induction false} OutgoingAppend(a: seq<Op>, b: seq<Op>)
    ensures Outgoing(a + b) == Outgoing(a) + Outgoing(b)
  {
    if a == [] {
      assert a + b == b;
    } else {
      assert (a + b)[0] == a[0] && (a + b)[1..] == a[1..] + b;
      OutgoingAppend(a[1..], b);
      var head := if a[0].Sent? then [a[0].action] else [];
      assert Outgoing(a) == head + Outgoing(a[1..]);
      assert Outgoing(a + b) == head + Outgoing(a[1..] + b);
    }
  }

  lemma {:induction false} IncomingAppend(a: seq<Op>, b: seq<Op>)
    ensures Incoming(a + b) == Incoming(a) + Incoming(b)
  {
    if a == [] {
      assert a + b == b;
    } else {
      assert (a + b)[0] == a[0] && (a + b)[1..] == a[1..] + b;
      IncomingAppend(a[1..], b);
      var head := if a[0].Received? then [a[0].event] else [];
      assert Incoming(a) == head + Incoming(a[1..]);
      assert Incoming(a + b) == head + Incoming(a[1..] + b);
    }
  }

  /** `n` copies of the message `a`. */
  function Repeat(a: Action, n: nat): (r: seq<Action>)
    ensures |r| == n
    ensures forall i :: 0 <= i < n ==> r[i] == a
  {
    if n == 0 then [] else [a] + Repeat(a, n - 1)
  }

  /** The position of the first close message in `q`, or `|q|` if there is none. */
  function FirstClose(q: seq<Event>): (r: nat)
    ensures r <= |q|
    ensures r < |q| ==> q[r].Close?
    ensures forall i :: 0 <= i < r ==> !q[i].Close?
  {
    if q == [] then 0
    else if q[0].Close? then 0
    else 1 + FirstClose(q[1..])
  }

  /** The number of text messages in `q`. */
  function TextCount(q: seq<Event>): (r: nat)
    ensures r <= |q|
  {
    if q == [] then 0 else (if q[0].Text? then 1 else 0) + TextCount(q[1..])
  }

  /**
   * An accepted server-side socket. `incoming` stands for the peer: it holds
   * the messages the peer will deliver, and running out of them is a
   * transport failure. `trace` is append-only.
   */
  class WebSocket {
    var state: SocketState
    var incoming: seq<Event>
    var trace: seq<Op>

    /** The socket produced by a successful upgrade. */
    constructor (peer: seq<Event>)
      ensures state == Open && incoming == peer && trace == []
    {
      state := Open;
      incoming := peer;
      trace := [];
    }

    /** Send one complete text message. */
    method SendText(s: string)
      requires state == Open || state == CloseReceived
      modifies this
      ensures state == old(state) && incoming == old(incoming)
      ensures trace == old(trace) + [Sent(TextFrame(s))]
    {
      trace := trace + [Sent(TextFrame(s))];
    }

    /**
     * Receive one whole message. `None` is the receive failing: the peer is
     * gone without a close message, and the socket is aborted. A received
     * close message moves the socket to CloseReceived. A receive that never
     * returns, a peer that stays connected but silent, is not modelled.
     */
    method Receive() returns (r: Option<Event>)
      requires state == Open
      modifies this
      ensures old(incoming) == [] ==>
        r == None && state == Aborted && incoming == [] && trace == old(trace)
      ensures old(incoming) != [] ==>
        r == Some(old(incoming)[0]) &&
        state == StateAfterReceive(old(incoming)[0]) &&
        incoming == old(incoming)[1..] &&
        trace == old(trace) + [Received(old(incoming)[0])]
    {
      if incoming == [] {
        state := Aborted;
        r := None;
      } else {
        var e := incoming[0];
        incoming := incoming[1..];
        trace := trace + [Received(e)];
        state := StateAfterReceive(e);
        r := Some(e);
      }
    }

    /**
     * Answer a close message the peer already sent: send the close frame,
     * which completes the closing handshake.
     */
    method Close(status: int, reason: string)
      requires state == CloseReceived
      modifies this
      ensures state == Closed && incoming == old(incoming)
      ensures trace == old(trace) + [Sent(CloseFrame(status, reason))]
    {
      trace := trace + [Sent(CloseFrame(status, reason))];
      state := Closed;
    }
  }
}
