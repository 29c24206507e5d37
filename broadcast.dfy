/**
 * websocket/broadcast.js: the list of connected dashboards and the fan-out
 * of a message to those whose connection is open. A socket is an object
 * whose `readyState` the ws library maintains; what `send` delivers is
 * recorded in its `outbox`. The message is taken already serialised:
 * JSON.stringify is not part of this model.
 */
module Broadcast {

  /** WebSocket.OPEN. */
  const Open: int := 1

  /** A dashboard connection. */
  class Socket {
    var readyState: int
    var outbox: seq<string>

    constructor (readyState: int)
      ensures this.readyState == readyState && outbox == []
    {
      this.readyState := readyState;
      outbox := [];
    }

    /** ws.send(data): the message is queued on this connection. */
    method Send(data: string)
      modifies this
      ensures outbox == old(outbox) + [data] && readyState == old(readyState)
    {
      outbox := outbox + [data];
    }
  }

  /** How many times `ws` occurs in `cs`. */
  function Occurrences(cs: seq<Socket>, ws: Socket): nat
    decreases |cs|
  {
    if cs == [] then 0
    else Occurrences(cs[..|cs| - 1], ws) + if cs[|cs| - 1] == ws then 1 else 0
  }

  /** `k` copies of a message. */
  function Repeat(m: string, k: nat): seq<string>
  {
    if k == 0 then [] else Repeat(m, k - 1) + [m]
  }

  /** `cs.filter(c => c !== ws)`. */
  function Without(cs: seq<Socket>, ws: Socket): seq<Socket>
    decreases |cs|
  {
    if cs == [] then []
    else Without(cs[..|cs| - 1], ws) + if cs[|cs| - 1] == ws then [] else [cs[|cs| - 1]]
  }

  /**
   * After a close the socket is gone, every time it was listed; every other
   * socket stays listed as often as before; and the list is shorter by
   * exactly the occurrences removed.
   */
  lemma {:induction false} WithoutContract(cs: seq<Socket>, ws: Socket)
    ensures ws !in Without(cs, ws)
    ensures forall c :: c != ws ==> Occurrences(Without(cs, ws), c) == Occurrences(cs, c)
    ensures |Without(cs, ws)| == |cs| - Occurrences(cs, ws)
    decreases |cs|
  {
    if cs != [] {
      var n := |cs| - 1;
      WithoutContract(cs[..n], ws);
      var w := Without(cs[..n], ws);
      var tail := if cs[n] == ws then [] else [cs[n]];
      assert Without(cs, ws) == w + tail;
      forall c | c != ws
        ensures Occurrences(Without(cs, ws), c) == Occurrences(cs, c)
      {
        if tail != [] {
          assert (w + tail)[..|w + tail| - 1] == w;
          assert (w + tail)[|w + tail| - 1] == cs[n];
        } else {
          assert w + tail == w;
        }
        assert Occurrences(w + tail, c) == Occurrences(w, c) + if cs[n] == c then 1 else 0;
      }
    }
  }

  /** Removal keeps the order of the remaining sockets: it distributes over concatenation. */
  lemma {:induction false} WithoutAppend(a: seq<Socket>, b: seq<Socket>, ws: Socket)
    ensures Without(a + b, ws) == Without(a, ws) + Without(b, ws)
    decreases |b|
  {
    if b == [] {
      assert a + b == a;
    } else {
      var n := |b| - 1;
      assert (a + b)[..|a + b| - 1] == a + b[..n];
      WithoutAppend(a, b[..n], ws);
    }
  }

  /** The dashboard WebSocket server's registry of clients. */
  class Dashboard {
    var clients: seq<Socket>

    constructor ()
      ensures clients == []
    {
      clients := [];
    }

    /** The 'connection' event: the new socket is listed last. */
    method Connect(ws: Socket)
      modifies this
      ensures clients == old(clients) + [ws]
    {
      clients := clients + [ws];
    }

    /** The socket's 'close' event. */
    method Close(ws: Socket)
      modifies this
      ensures clients == Without(old(clients), ws)
    {
      clients := Without(clients, ws);
    }

    /**
     * broadcast(data): every listed socket whose state is OPEN receives the
     * message once per time it is listed; closed or
     * connecting sockets receive nothing; the list and the sockets' states
     * are left as they were.
     */
    method Broadcast(payload: string)
      modifies set c | c in clients
      ensures forall c :: c in clients ==> c.readyState == old(c.readyState)
      ensures forall c :: c in clients ==>
        c.outbox == old(c.outbox) + Repeat(payload, if old(c.readyState) == Open then Occurrences(clients, c) else 0)
    {
      var i := 0;
      while i < |clients|
        invariant 0 <= i <= |clients|
        invariant forall c :: c in clients ==> c.readyState == old(c.readyState)
        invariant forall c :: c in clients ==>
          c.outbox == old(c.outbox) + Repeat(payload, if old(c.readyState) == Open then Occurrences(clients[..i], c) else 0)
      {
        var client := clients[i];
        assert clients[..i + 1][..i] == clients[..i];
        if client.readyState == Open {
          client.Send(payload);
        }
        i := i + 1;
      }
      assert clients[..i] == clients;
    }
  }
}
