/**
 * The server's broadcaster (`WebSocketManager`): the set of open browser sockets, and a
 * `broadcast` that sends one JSON frame to each of them and forgets those whose send
 * raised. Sockets are identities; whether a send raises is an input.
 */
module WebSocketManager {
  import opened Wrappers
  import opened JsonData

  type Socket = nat

  /** The frame `broadcast(event, data)` serialises, with `timestamp` the send time. */
  function BroadcastFrame(event: string, data: Option<Record>, timestamp: string): (r: Record)
    ensures r.Keys == {"event", "data", "timestamp"}
    ensures r["event"] == JStr(event) && r["timestamp"] == JStr(timestamp)
    ensures data.None? ==> r["data"] == JObj(map[])
    ensures data.Some? ==> r["data"] == JObj(data.value)
  {
    // `data or {}`: both `None` and an empty dict send an empty object
    map["event" := JStr(event), "data" := JObj(data.GetOr(map[])), "timestamp" := JStr(timestamp)]
  }

  predicate Distinct(s: seq<Socket>) {
    forall i, j :: 0 <= i < j < |s| ==> s[i] != s[j]
  }

  /** Removing the members of `b` from `a` removes exactly the members they share. */
  lemma SizeWithout(a: set<Socket>, b: set<Socket>)
    ensures |a - b| == |a| - |a * b|
  {
    assert a == (a - b) + a * b;
    assert (a - b) * (a * b) == {};
  }

  /** Adding a socket grows the set by one exactly when it was not there. */
  lemma SizeWith(a: set<Socket>, ws: Socket)
    ensures |a + {ws}| == if ws in a then |a| else |a| + 1
  {
    if ws in a {
      assert a + {ws} == a;
    }
  }

  /**
   * The loop of `broadcast` over a snapshot of the set: each socket is sent the frame once,
   * in an order left open, and the sockets whose send raised are collected.
   */
  method SendAll(targets: set<Socket>, failing: set<Socket>) returns (sent: seq<Socket>, dead: set<Socket>)
    ensures Distinct(sent)
    ensures forall ws :: ws in sent <==> ws in targets
    ensures dead == targets * failing
  {
    var remaining := targets;
    dead := {};
    sent := [];
    while remaining != {}
      invariant remaining <= targets
      invariant forall ws :: ws in sent <==> ws in targets && ws !in remaining
      invariant Distinct(sent)
      invariant dead == (targets - remaining) * failing
      decreases |remaining|
    {
      var ws :| ws in remaining;
      sent := sent + [ws];
      if ws in failing {
        dead := dead + {ws};
      }
      remaining := remaining - {ws};
    }
  }

  class Manager {
    /** `_connections`. */
    var connections: set<Socket>

    constructor ()
      ensures connections == {}
    {
      connections := {};
    }

    /**
     * `connect`: the handshake is accepted first; only then is the socket added. When
     * `accept` raises, the exception leaves `connect` and the set is unchanged.
     */
    method Connect(ws: Socket, acceptRaises: bool) returns (added: bool)
      modifies this
      ensures added <==> !acceptRaises
      ensures connections == if added then old(connections) + {ws} else old(connections)
      ensures ConnectionCount() == old(ConnectionCount()) + (if added && ws !in old(connections) then 1 else 0)
    {
      added := !acceptRaises;
      if added {
        SizeWith(connections, ws);
        connections := connections + {ws};
      }
    }

    /** `disconnect`: `discard`, so an unknown socket is no error. */
    method Disconnect(ws: Socket)
      modifies this
      ensures connections == old(connections) - {ws}
      ensures ConnectionCount() == old(ConnectionCount()) - (if ws in old(connections) then 1 else 0)
    {
      connections := connections - {ws};
    }

    /**
     * `broadcast(event, data)` at time `timestamp`, where the sends to the sockets in
     * `failing` raise: every socket of the set is sent the frame exactly once (in the set's
     * iteration order, which is left open), and afterwards the set has lost exactly the
     * sockets whose send raised.
     */
    method Broadcast(event: string, data: Option<Record>, timestamp: string, failing: set<Socket>)
      returns (frame: Record, sent: seq<Socket>)
      modifies this
      ensures frame == BroadcastFrame(event, data, timestamp)
      ensures Distinct(sent)
      ensures forall ws :: ws in sent <==> ws in old(connections)
      ensures connections == old(connections) - failing
      ensures ConnectionCount() == old(ConnectionCount()) - |old(connections) * failing|
    {
      frame := BroadcastFrame(event, data, timestamp);
      var dead;
      sent, dead := SendAll(connections, failing);
      SizeWithout(connections, failing);
      connections := connections - dead;
    }

    /** `connection_count`: how many sockets are open. */
    function ConnectionCount(): (n: nat)
      reads this
      ensures n == |connections|
    {
      |connections|
    }
  }
}
