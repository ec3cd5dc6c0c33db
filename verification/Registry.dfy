/** The connection registry of the selector loop and the open-connection gauge of `metrics.py`. */
module Registry {

  /** The gauge; closing clamps at zero. */
  class Metrics {
    var openConnections: int

    constructor ()
      ensures openConnections == 0
    {
      openConnections := 0;
    }

    method ConnectionOpened()
      modifies this
      ensures openConnections == old(openConnections) + 1
    {
      openConnections := openConnections + 1;
    }

    method ConnectionClosed()
      modifies this
      ensures openConnections == if old(openConnections) - 1 < 0 then 0 else old(openConnections) - 1
    {
      openConnections := if openConnections - 1 < 0 then 0 else openConnections - 1;
    }
  }

  /** What `sock.fileno()` answers: a descriptor, or -1 once the socket is closed. */
  datatype Fileno = Fd(number: nat) | ClosedSocket

  /** The registry and the open sockets name each other. */
  ghost predicate Matched(connections: map<Fileno, nat>, fileno: map<nat, Fileno>) {
    && (forall fd :: fd in connections ==>
          fd != ClosedSocket && connections[fd] in fileno && fileno[connections[fd]] == fd)
    && (forall id :: id in fileno && fileno[id] != ClosedSocket ==>
          fileno[id] in connections && connections[fileno[id]] == id)
  }

  lemma MatchedAfterAccept(connections: map<Fileno, nat>, fileno: map<nat, Fileno>, fd: Fileno, id: nat)
    requires Matched(connections, fileno) && id !in fileno
    requires fd.Fd? && forall other :: other in fileno ==> fileno[other] != fd
    ensures fd !in connections && Matched(connections[fd := id], fileno[id := fd])
  {}

  lemma MatchedAfterClose(connections: map<Fileno, nat>, fileno: map<nat, Fileno>, id: nat)
    requires Matched(connections, fileno) && id in fileno && fileno[id] in connections
    ensures Matched(connections - {fileno[id]}, fileno[id := ClosedSocket])
  {}

  /** `fileno` gives the answer of every connection ever made. Descriptors are reused. */
  class SelectorRegistry {
    const maxActiveConnections: int
    const metrics: Metrics
    var connections: map<Fileno, nat>  // descriptor to connection id
    var fileno: map<nat, Fileno>
    var nextConnectionId: nat
    ghost var closed: seq<nat>       // connections counted as closed, in order

    /** Exactly the open sockets are registered, each under its own descriptor; the gauge counts
        them; and every closed connection was counted once. */
    ghost predicate Valid()
      reads this, metrics
    {
      && Matched(connections, fileno)
      && (forall id :: id in fileno <==> 1 <= id <= nextConnectionId)
      && metrics.openConnections == |connections|
      && (|connections| <= maxActiveConnections || connections == map[])
      && ClosedOnce()
    }

    ghost predicate ClosedOnce()
      reads `closed, `fileno
    {
      && (forall id :: id in closed <==> id in fileno && fileno[id] == ClosedSocket)
      && (forall i, j :: 0 <= i < j < |closed| ==> closed[i] != closed[j])
    }

    constructor (maxActiveConnections: int)
      ensures Valid() && connections == map[] && fresh(metrics)
      ensures this.maxActiveConnections == maxActiveConnections
    {
      this.maxActiveConnections := maxActiveConnections;
      metrics := new Metrics();
      connections, fileno, nextConnectionId, closed := map[], map[], 0, [];
    }

    /** One turn of `_accept_selector_clients`. The system hands out a descriptor no open socket
        has; a full or draining server and a failed handshake turn the client away. */
    method Accept(fd: Fileno, draining: bool, handshakeFails: bool) returns (id: nat)
      requires Valid()
      requires fd.Fd? && forall other :: other in fileno ==> fileno[other] != fd
      modifies this, metrics
      ensures Valid() && closed == old(closed)
      ensures if |old(connections)| >= maxActiveConnections || draining || handshakeFails
              then connections == old(connections) && fileno == old(fileno)
              else id == old(nextConnectionId) + 1
                   && connections == old(connections)[fd := id] && fileno == old(fileno)[id := fd]
    {
      id := 0;
      if |connections| >= maxActiveConnections { return; }
      if draining || handshakeFails { return; }
      MatchedAfterAccept(connections, fileno, fd, nextConnectionId + 1);
      hide Matched;
      nextConnectionId := nextConnectionId + 1;
      id := nextConnectionId;
      connections := connections[fd := id];
      fileno := fileno[id := fd];
      metrics.ConnectionOpened();
    }

    /** `_close_selector_connection`: however often and from wherever it is called, a connection
        is deregistered and counted closed once, even if another one has its descriptor by now. */
    method Close(id: nat)
      requires Valid() && id in fileno
      modifies this, metrics
      ensures Valid() && fileno == old(fileno)[id := ClosedSocket]
      ensures if old(fileno)[id] == ClosedSocket
              then connections == old(connections) && closed == old(closed)
              else connections == old(connections) - {old(fileno)[id]} && closed == old(closed) + [id]
      ensures old(fileno)[id] != ClosedSocket ==> metrics.openConnections == old(metrics.openConnections) - 1
    {
      var fd := fileno[id];
      if fd !in connections {
        assert fileno == fileno[id := ClosedSocket];
        return;
      }
      MatchedAfterClose(connections, fileno, id);
      fileno := fileno[id := ClosedSocket];
      connections := connections - {fd};
      closed := closed + [id];
      metrics.ConnectionClosed();
    }

    method AnyRegistered() returns (id: nat)
      requires Valid() && connections != map[]
      ensures id in fileno && fileno[id] in connections
    {
      var fd :| fd in connections;
      id := connections[fd];
    }

    /** The `finally` block of the loop: every registered connection is closed. */
    method CloseAll()
      requires Valid()
      modifies this, metrics
      ensures Valid() && connections == map[] && metrics.openConnections == 0
      ensures forall id :: id in fileno ==> id in closed
    {
      while connections != map[]
        invariant Valid()
        decreases |connections|
      {
        var id := AnyRegistered();
        Close(id);
      }
    }
  }
}
