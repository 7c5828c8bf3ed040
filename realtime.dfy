/** The registry of live websocket connections (backend/app/realtime.py) and
    its fan-out of state messages. */
module Realtime {

  /** A websocket, compared by identity as Python compares them. */
  type Socket = nat

  /** The message `{event, payload}`; its JSON text is a function of it. */
  datatype Envelope<P> = Envelope(event: string, payload: P)

  /** One `send_text` call: to whom, and what. */
  datatype Attempt<P> = Attempt(socket: Socket, message: Envelope<P>)

  /** One send of `message` to each connection, in order. */
  function Fanout<P>(active: seq<Socket>, message: Envelope<P>): (r: seq<Attempt<P>>)
    ensures |r| == |active|
    ensures forall i :: 0 <= i < |r| ==> r[i].socket == active[i] && r[i].message == message
  {
    seq(|active|, i requires 0 <= i < |active| => Attempt(active[i], message))
  }

  /** `list.remove`: drop the first occurrence, if there is one. */
  function RemoveFirst(s: seq<Socket>, x: Socket): (r: seq<Socket>)
    ensures x !in s ==> r == s
  {
    if s == [] then []
    else if s[0] == x then s[1..]
    else
      assert x in s <==> x in s[1..] by { assert s == [s[0]] + s[1..]; }
      [s[0]] + RemoveFirst(s[1..], x)
  }

  /** `list.remove` takes away one copy of the connection, and nothing else. */
  lemma {:induction false} RemoveFirstCount(s: seq<Socket>, x: Socket)
    ensures multiset(RemoveFirst(s, x)) == multiset(s) - multiset{x}
  {
    if s != [] {
      assert s == [s[0]] + s[1..];
      if s[0] != x {
        RemoveFirstCount(s[1..], x);
      }
    }
  }

  /** `list.remove` takes out exactly the first occurrence, at `k`, and
      keeps the order of everything else. */
  lemma {:induction false} RemoveFirstAt(s: seq<Socket>, x: Socket, k: nat)
    requires k < |s| && s[k] == x && forall i :: 0 <= i < k ==> s[i] != x
    ensures RemoveFirst(s, x) == s[..k] + s[k + 1..]
  {
    if k == 0 {
      assert s[..0] + s[1..] == s[1..];
    } else {
      var tail := s[1..];
      RemoveFirstAt(tail, x, k - 1);
      calc {
        RemoveFirst(s, x);
        [s[0]] + RemoveFirst(tail, x);
        [s[0]] + (tail[..k - 1] + tail[k..]);
        { assert [s[0]] + tail[..k - 1] == s[..k]; assert tail[k..] == s[k + 1..]; }
        s[..k] + s[k + 1..];
      }
    }
  }

  /** The connections whose send succeeds, in their order. */
  function Survivors(s: seq<Socket>, failing: set<Socket>): (r: seq<Socket>)
    ensures |r| <= |s|
    ensures forall x :: x in r <==> x in s && x !in failing
  {
    if s == [] then []
    else if s[0] in failing then Survivors(s[1..], failing)
    else [s[0]] + Survivors(s[1..], failing)
  }

  /** The connections whose send raises, in their order: the `stale` list. */
  function Stale(s: seq<Socket>, failing: set<Socket>): (r: seq<Socket>)
    ensures |r| <= |s|
    ensures forall x :: x in r <==> x in s && x in failing
  {
    if s == [] then []
    else if s[0] in failing then [s[0]] + Stale(s[1..], failing)
    else Stale(s[1..], failing)
  }

  lemma {:induction false} StaleAppend(s: seq<Socket>, x: Socket, failing: set<Socket>)
    ensures Stale(s + [x], failing) == Stale(s, failing) + if x in failing then [x] else []
  {
    if s != [] {
      assert (s + [x])[1..] == s[1..] + [x];
      StaleAppend(s[1..], x, failing);
    }
  }

  /** Removing the first stale connection takes it off the stale list and
      leaves the survivors alone. */
  lemma {:induction false} RemoveFirstStale(s: seq<Socket>, failing: set<Socket>, x: Socket, rest: seq<Socket>)
    requires Stale(s, failing) == [x] + rest
    ensures Survivors(RemoveFirst(s, x), failing) == Survivors(s, failing)
    ensures Stale(RemoveFirst(s, x), failing) == rest
  {
    assert ([x] + rest)[0] == x;
    assert x in Stale(s, failing);
    assert s != [] && x in failing;
    if s[0] != x {
      assert s[0] !in failing;
      assert Stale(s[1..], failing) == [x] + rest;
      RemoveFirstStale(s[1..], failing, x, rest);
      var r := RemoveFirst(s[1..], x);
      assert RemoveFirst(s, x) == [s[0]] + r;
      assert ([s[0]] + r)[1..] == r;
      assert Survivors([s[0]] + r, failing) == [s[0]] + Survivors(r, failing);
      assert Stale([s[0]] + r, failing) == Stale(r, failing);
    } else {
      assert RemoveFirst(s, x) == s[1..];
      assert Survivors(s, failing) == Survivors(s[1..], failing);
      assert Stale(s, failing) == [x] + Stale(s[1..], failing);
      assert rest == ([x] + rest)[1..];
    }
  }

  lemma {:induction false} NoStaleAllSurvive(s: seq<Socket>, failing: set<Socket>)
    requires Stale(s, failing) == []
    ensures Survivors(s, failing) == s
  {
    if s != [] {
      assert s[0] !in failing;
      NoStaleAllSurvive(s[1..], failing);
      assert s == [s[0]] + s[1..];
    }
  }

  /** Disconnecting a connection that is not registered changes nothing. */
  lemma DisconnectAbsent(s: seq<Socket>, x: Socket)
    requires x !in s
    ensures RemoveFirst(s, x) == s
  {
  }

  /** For a connection registered once, disconnecting twice is disconnecting
      once, and afterwards it is gone. */
  lemma DisconnectTwice(s: seq<Socket>, x: Socket)
    requires multiset(s)[x] <= 1
    ensures RemoveFirst(RemoveFirst(s, x), x) == RemoveFirst(s, x)
    ensures x !in RemoveFirst(s, x)
  {
    RemoveFirstCount(s, x);
    assert multiset(RemoveFirst(s, x))[x] == 0;
  }

  /** A broadcast prunes exactly the connections whose send failed. */
  lemma {:induction false} SurvivorsSpec(s: seq<Socket>, failing: set<Socket>)
    ensures failing !! set x | x in Survivors(s, failing)
    ensures (forall x :: x in s ==> x !in failing) ==> Survivors(s, failing) == s
  {
    if s != [] {
      SurvivorsSpec(s[1..], failing);
      if forall x :: x in s ==> x !in failing {
        assert s == [s[0]] + s[1..];
        assert forall x :: x in s[1..] ==> x in s;
      }
    }
  }

  /** One more turn of the sending loop adds one attempt. */
  lemma FanoutStep<P>(conns: seq<Socket>, i: nat, message: Envelope<P>)
    requires i < |conns|
    ensures Fanout(conns[..i + 1], message) == Fanout(conns[..i], message) + [Attempt(conns[i], message)]
  {
  }

  /** One more turn of the sending loop adds the connection to `stale`
      exactly when its send fails. */
  lemma StaleStep(conns: seq<Socket>, i: nat, failing: set<Socket>)
    requires i < |conns|
    ensures Stale(conns[..i + 1], failing) == Stale(conns[..i], failing) + if conns[i] in failing then [conns[i]] else []
  {
    assert conns[..i + 1] == conns[..i] + [conns[i]];
    StaleAppend(conns[..i], conns[i], failing);
  }

  /** The first loop of broadcast: one `send_text` per connection, in order,
      remembering the connections whose send raised. */
  method SendAll<P>(conns: seq<Socket>, message: Envelope<P>, failing: set<Socket>)
    returns (attempts: seq<Attempt<P>>, stale: seq<Socket>)
    ensures attempts == Fanout(conns, message)
    ensures stale == Stale(conns, failing)
  {
    attempts := [];
    stale := [];
    var i := 0;
    while i < |conns|
      invariant 0 <= i <= |conns|
      invariant attempts == Fanout(conns[..i], message)
      invariant stale == Stale(conns[..i], failing)
    {
      FanoutStep(conns, i, message);
      StaleStep(conns, i, failing);
      var ws := conns[i];
      attempts := attempts + [Attempt(ws, message)];
      if ws in failing {
        stale := stale + [ws];
      }
      i := i + 1;
    }
    assert conns[..i] == conns;
  }

  /** The `active` list of `ConnectionManager`. */
  class ConnectionManager {
    var active: seq<Socket>

    constructor ()
      ensures active == []
    {
      active := [];
    }

    /** Register a connection at the end (the websocket handshake is not
        modelled). */
    method Connect(ws: Socket)
      modifies this
      ensures active == old(active) + [ws]
    {
      active := active + [ws];
    }

    /** Remove the connection if it is registered; no error otherwise. */
    method Disconnect(ws: Socket)
      modifies this
      ensures active == RemoveFirst(old(active), ws)
    {
      if ws in active {
        active := RemoveFirst(active, ws);
      }
    }

    /** The second loop of broadcast: disconnect each stale connection in
        turn. */
    method Prune(stale: seq<Socket>, ghost failing: set<Socket>)
      requires Stale(active, failing) == stale
      modifies this
      ensures active == Survivors(old(active), failing)
    {
      var j := 0;
      while j < |stale|
        invariant 0 <= j <= |stale|
        invariant Survivors(active, failing) == Survivors(old(active), failing)
        invariant Stale(active, failing) == stale[j..]
      {
        var ws := stale[j];
        assert stale[j..] == [ws] + stale[j + 1..];
        RemoveFirstStale(active, failing, ws, stale[j + 1..]);
        Disconnect(ws);
        j := j + 1;
      }
      NoStaleAllSurvive(active, failing);
    }

    /** Encode the message, send it to every connection, swallow failed
        sends, then prune the connections whose send failed. `encodable`
        says whether `json.dumps` accepts the message: it runs before the
        `try`, so when it raises the exception leaves `broadcast` before any
        send and nothing is pruned. `failing` says which sends raise. */
    method Broadcast<P>(event: string, payload: P, encodable: bool, failing: set<Socket>)
      returns (attempts: seq<Attempt<P>>, raised: bool)
      modifies this
      ensures raised == !encodable
      ensures raised ==> attempts == [] && active == old(active)
      ensures !raised ==> attempts == Fanout(old(active), Envelope(event, payload))
                          && active == Survivors(old(active), failing)
    {
      if !encodable {
        return [], true;
      }
      var stale;
      attempts, stale := SendAll(active, Envelope(event, payload), failing);
      Prune(stale, failing);
      raised := false;
    }
  }
}
