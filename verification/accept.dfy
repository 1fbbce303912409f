/**
 * The accept loop both servers share in shape: take the next HTTP request,
 * answer a non-upgrade request with 400 Bad Request (section 15.5.1 of
 * RFC 9110), hand an upgrade to the connection handler and wait for it to
 * return before taking the next request.
 */
module Accept {
  import opened Sockets

  /** Status code set on the response to a request that is not an upgrade. */
  const BadRequestStatus: int := 400

  /**
   * An incoming HTTP request. When it asks for a WebSocket upgrade, `peer`
   * is what the client will send on the resulting connection.
   */
  datatype Request = Request(isUpgrade: bool, peer: seq<Event>)

  /**
   * What became of one request: a response with a status code that was then
   * closed, or a connection with the operations its handler performed and
   * the state it left the socket in.
   */
  datatype Outcome = BadRequest(status: int) | Connection(ops: seq<Op>, final: SocketState)

  /**
   * The outcomes of the requests taken, in arrival order, and whether the
   * loop ended because a handler's receive failed. Neither server catches
   * that failure, so it leaves the accept loop.
   */
  datatype Report = Report(outcomes: seq<Outcome>, faulted: bool)

  /** The outcome of one request, given the connection handler `session`. */
  function Respond(req: Request, session: seq<Event> -> Run): Outcome
  {
    if !req.isUpgrade then BadRequest(BadRequestStatus)
    else Connection(session(req.peer).ops, session(req.peer).final)
  }

  /** A connection whose handler ended with the receive failure escaping. */
  predicate Escapes(o: Outcome)
  {
    o.Connection? && o.final == Aborted
  }

  /** The requests `reqs`, served one after another. */
  function Serve(reqs: seq<Request>, session: seq<Event> -> Run): Report
    decreases |reqs|
  {
    if reqs == [] then Report([], false)
    else
      var o := Respond(reqs[0], session);
      if Escapes(o) then Report([o], true)
      else
        var more := Serve(reqs[1..], session);
        Report([o] + more.outcomes, more.faulted)
  }

  /**
   * Requests are served in arrival order, each outcome depends on its own
   * request alone, and the loop goes on to the next request unless a
   * handler's failure escapes, which ends it at that request.
   */
  lemma {:induction false} ServeInOrder(reqs: seq<Request>, session: seq<Event> -> Run)
    ensures |Serve(reqs, session).outcomes| <= |reqs|
    ensures forall k :: 0 <= k < |Serve(reqs, session).outcomes| ==>
      Serve(reqs, session).outcomes[k] == Respond(reqs[k], session)
    ensures forall k :: 0 <= k < |Serve(reqs, session).outcomes| - 1 ==>
      !Escapes(Serve(reqs, session).outcomes[k])
    ensures Serve(reqs, session).faulted <==>
      (|Serve(reqs, session).outcomes| > 0 &&
       Escapes(Serve(reqs, session).outcomes[|Serve(reqs, session).outcomes| - 1]))
    ensures !Serve(reqs, session).faulted ==> |Serve(reqs, session).outcomes| == |reqs|
  {
    if reqs != [] {
      var o := Respond(reqs[0], session);
      if !Escapes(o) {
        ServeInOrder(reqs[1..], session);
        var more := Serve(reqs[1..], session);
        assert Serve(reqs, session).outcomes == [o] + more.outcomes;
        forall k | 1 <= k < |more.outcomes| + 1
          ensures ([o] + more.outcomes)[k] == Respond(reqs[k], session)
        {
          assert ([o] + more.outcomes)[k] == more.outcomes[k - 1];
          assert reqs[1..][k - 1] == reqs[k];
        }
      }
    }
  }

  /**
   * A request that is not an upgrade gets status 400 and creates no
   * connection, and the loop goes on to the request after it.
   */
  lemma NonUpgradeRejected(reqs: seq<Request>, session: seq<Event> -> Run, k: nat)
    requires k < |reqs| && !reqs[k].isUpgrade
    requires forall j :: 0 <= j < k ==> !Escapes(Respond(reqs[j], session))
    ensures var r := Serve(reqs, session);
      k < |r.outcomes| && r.outcomes[k] == BadRequest(BadRequestStatus) &&
      (k + 1 < |reqs| ==> k + 1 < |r.outcomes|)
  {
    ServeInOrder(reqs, session);
  }

  /**
   * Serving one batch of requests and then another is serving them all,
   * provided no failure escaped the first batch: connections do not
   * interfere with one another.
   */
  lemma {:induction false} ServeSequential(a: seq<Request>, b: seq<Request>, session: seq<Event> -> Run)
    requires !Serve(a, session).faulted
    ensures Serve(a + b, session) ==
      Report(Serve(a, session).outcomes + Serve(b, session).outcomes, Serve(b, session).faulted)
  {
    if a == [] {
      assert a + b == b;
    } else {
      assert (a + b)[0] == a[0];
      assert (a + b)[1..] == a[1..] + b;
      ServeSequential(a[1..], b, session);
    }
  }

  /**
   * The HTTP listener: the requests that will still arrive, taken one at a
   * time. The real listener blocks until the next request; here the
   * finite sequence running out ends the servers' loops.
   */
  class Listener {
    var pending: seq<Request>

    constructor (requests: seq<Request>)
      ensures pending == requests
    {
      pending := requests;
    }

    /** Take the next request. */
    method GetContext() returns (req: Request)
      requires pending != []
      modifies this
      ensures req == old(pending)[0] && pending == old(pending)[1..]
    {
      req := pending[0];
      pending := pending[1..];
    }
  }
}
