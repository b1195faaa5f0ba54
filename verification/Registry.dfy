/**
 The accept loop (server/src/conn/AsyncTcpServer.cpp) and the list of connections it grows
 (server/include/acs/conn/ConnectionManager.hpp); a connection is represented by its id, which is
 all that `operator==` compares.
 */
module Registry {
  import opened Basics

  /** `std::list::remove`: drops every entry equal to `x`. */
  function Remove(list: seq<nat>, x: nat): seq<nat> {
    if list == [] then []
    else if list[0] == x then Remove(list[1..], x)
    else [list[0]] + Remove(list[1..], x)
  }

  /** The ids below `n` that are not in `closed`, in increasing order: created minus closed. */
  function Listed(n: nat, closed: set<nat>): seq<nat> {
    if n == 0 then []
    else if n - 1 in closed then Listed(n - 1, closed)
    else Listed(n - 1, closed) + [n - 1]
  }

  /** Exactly the ids created and not closed, strictly increasing. */
  lemma {:induction false} ListedMeaning(n: nat, closed: set<nat>)
    ensures forall x: nat :: x in Listed(n, closed) <==> x < n && x !in closed
    ensures forall i, j :: 0 <= i < j < |Listed(n, closed)| ==> Listed(n, closed)[i] < Listed(n, closed)[j]
  {
    if n > 0 {
      ListedMeaning(n - 1, closed);
      var front := Listed(n - 1, closed);
      forall i | 0 <= i < |front| ensures front[i] < n - 1 { assert front[i] in front; }
    }
  }

  lemma {:induction false} RemoveAppend(a: seq<nat>, b: seq<nat>, x: nat)
    ensures Remove(a + b, x) == Remove(a, x) + Remove(b, x)
  {
    if a == [] {
      assert a + b == b;
    } else {
      RemoveAppend(a[1..], b, x);
      assert (a + b)[1..] == a[1..] + b;
    }
  }

  lemma RemoveOne(y: nat, x: nat)
    ensures Remove([y], x) == if y == x then [] else [y]
  {
    assert [y][1..] == [];
  }

  lemma {:induction false} RemoveListed(n: nat, closed: set<nat>, x: nat)
    ensures Remove(Listed(n, closed), x) == Listed(n, closed + {x})
    ensures |Listed(n, closed + {x})| == |Listed(n, closed)| - if x < n && x !in closed then 1 else 0
  {
    if n > 0 {
      RemoveListed(n - 1, closed, x);
      if n - 1 !in closed {
        RemoveAppend(Listed(n - 1, closed), [n - 1], x);
        RemoveOne(n - 1, x);
      }
    }
  }

  /** `awaiting` is the connection whose socket the pending accept will fill. */
  datatype Server = Server(nextId: nat, connections: seq<nat>, awaiting: nat, started: set<nat>, closed: set<nat>)

  datatype Event = Accept(ok: bool) | Close(id: nat)

  function StartAccept(s: Server): Server {
    s.(nextId := (s.nextId + 1) % TWO64, connections := s.connections + [s.nextId], awaiting := s.nextId)
  }

  const INIT := StartAccept(Server(0, [], 0, {}, {}))

  /** Only a connection that was started, and is still listed, closes. */
  predicate Enabled(s: Server, e: Event) {
    e.Close? ==> e.id in s.started && e.id in s.connections
  }

  function Next(s: Server, e: Event): Server {
    match e
    case Accept(ok) => StartAccept(if ok then s.(started := s.started + {s.awaiting}) else s)
    case Close(id) => s.(connections := Remove(s.connections, id), closed := s.closed + {id})
  }

  ghost predicate Inv(s: Server, created: nat) {
    && 1 <= created < TWO64 && s.nextId == created
    && s.awaiting == created - 1 && s.awaiting !in s.started
    && (forall x :: x in s.started ==> x < created)
    && s.closed <= s.started
    && s.connections == Listed(created, s.closed)
  }

  lemma InitInv()
    ensures Inv(INIT, 1)
  {
    assert Listed(0, {}) == [];
    assert Listed(1, {}) == [] + [0];
  }

  lemma NextInv(s: Server, e: Event, created: nat)
    requires Inv(s, created) && Enabled(s, e) && (e.Accept? ==> created + 1 < TWO64)
    ensures Inv(Next(s, e), if e.Accept? then created + 1 else created)
  {
    hide Remove;
    if e.Close? {
      ListedMeaning(created, s.closed);
      RemoveListed(created, s.closed, e.id);
    }
  }

  /** How the accepts of a run went, in order. */
  function Outcomes(es: seq<Event>): seq<bool> {
    if es == [] then []
    else (if es[0].Accept? then [es[0].ok] else []) + Outcomes(es[1..])
  }

  function Accepts(es: seq<Event>): nat { |Outcomes(es)| }

  /** The connections that `outcomes` start, the first of them accepted on connection `first`. */
  function Succeeded(outcomes: seq<bool>, first: nat): set<nat> {
    set i | 0 <= i < |outcomes| && outcomes[i] :: first + i
  }

  lemma SucceededCons(ok: bool, rest: seq<bool>, first: nat)
    ensures Succeeded([ok] + rest, first) == (if ok then {first} else {}) + Succeeded(rest, first + 1)
  {
    var all := [ok] + rest;
    forall x ensures x in Succeeded(all, first) <==> x in (if ok then {first} else {}) + Succeeded(rest, first + 1) {
      if x in Succeeded(all, first) && x != first { assert all[x - first] == rest[x - first - 1]; }
      if x in Succeeded(rest, first + 1) { assert all[x - first] == rest[x - first - 1]; }
      if x == first { assert all[x - first] == ok; }
    }
  }

  predicate ValidRun(s: Server, es: seq<Event>)
    decreases |es|
  {
    es == [] || (Enabled(s, es[0]) && ValidRun(Next(s, es[0]), es[1..]))
  }

  function After(s: Server, es: seq<Event>): Server
    decreases |es|
  {
    if es == [] then s else After(Next(s, es[0]), es[1..])
  }

  lemma NoneSucceeded(first: nat)
    ensures Succeeded([], first) == {}
  {
  }

  lemma Awaiting(s: Server, created: nat)
    requires Inv(s, created)
    ensures s.awaiting == created - 1
  {
  }

  lemma {:induction false} RunInv(s: Server, es: seq<Event>, created: nat)
    requires created >= 1 && Inv(s, created) && ValidRun(s, es) && created + Accepts(es) < TWO64
    ensures Inv(After(s, es), created + Accepts(es))
    ensures After(s, es).started == s.started + Succeeded(Outcomes(es), created - 1)
    decreases |es|
  {
    hide Inv, Enabled, Remove, Succeeded;
    if es == [] {
      NoneSucceeded(created - 1);
    } else {
      NextInv(s, es[0], created);
      Awaiting(s, created);
      if es[0].Accept? {
        SucceededCons(es[0].ok, Outcomes(es[1..]), created - 1);
      } else {
        assert Outcomes(es) == Outcomes(es[1..]);
      }
      RunInv(Next(s, es[0]), es[1..], if es[0].Accept? then created + 1 else created);
    }
  }

  /**
   Over every run the list is created minus closed, in creation order without repeats; its last
   entry is the one connection awaiting an accept, which is not started; the i-th connection was
   started exactly if the i-th accept succeeded, and only those close; and a close takes out exactly
   the one entry it names.
   */
  lemma RegistryIsCreatedMinusClosed(es: seq<Event>)
    requires ValidRun(INIT, es) && Accepts(es) + 1 < TWO64
    ensures var s := After(INIT, es);
      && s.nextId == Accepts(es) + 1
      && s.connections == Listed(s.nextId, s.closed)
      && s.connections != [] && s.connections[|s.connections| - 1] == s.awaiting == s.nextId - 1
      && s.awaiting !in s.started
      && s.started == (set i | 0 <= i < |Outcomes(es)| && Outcomes(es)[i])
      && s.closed <= s.started && (forall id :: Enabled(s, Close(id)) ==> id in s.started - s.closed)
      && forall id :: Enabled(s, Close(id)) ==>
           && |Next(s, Close(id)).connections| == |s.connections| - 1
           && Next(s, Close(id)).connections == Listed(s.nextId, s.closed + {id})
  {
    hide Remove, After, ValidRun, Outcomes;
    InitInv();
    RunInv(INIT, es, 1);
    var s := After(INIT, es);
    assert s.started == Succeeded(Outcomes(es), 0);
    ListedMeaning(s.nextId, s.closed);
    assert s.connections == Listed(s.nextId - 1, s.closed) + [s.nextId - 1];
    forall id | Enabled(s, Close(id))
      ensures |Next(s, Close(id)).connections| == |s.connections| - 1
      ensures Next(s, Close(id)).connections == Listed(s.nextId, s.closed + {id})
    {
      ListedMeaning(s.nextId, s.closed);
      RemoveListed(s.nextId, s.closed, id);
    }
  }

  class AsyncTcpServer {
    var nextId: nat
    var connections: seq<nat>
    var awaiting: nat
    ghost var started: set<nat>
    ghost var closed: set<nat>

    ghost function View(): Server
      reads this
    {
      Server(nextId, connections, awaiting, started, closed)
    }

    constructor ()
      ensures View() == INIT
    {
      nextId, connections, awaiting, started, closed := 0, [], 0, {}, {};
      new;
      DoStartAccept();
    }

    method GenerateConnId() returns (id: nat)
      modifies this`nextId
      ensures id == old(nextId) && nextId == (old(nextId) + 1) % TWO64
    {
      id := nextId;
      nextId := (nextId + 1) % TWO64;
    }

    method NewConnection() returns (id: nat)
      modifies this`nextId, this`connections
      ensures id == old(nextId) && nextId == (old(nextId) + 1) % TWO64
      ensures connections == old(connections) + [id]
    {
      id := GenerateConnId();
      connections := connections + [id];
    }

    method DoStartAccept()
      modifies this
      ensures View() == StartAccept(old(View()))
    {
      awaiting := NewConnection();
    }

    /** Starts the accepted connection unless the accept failed, then waits for the next one either way. */
    method HandleAccept(ok: bool)
      modifies this
      ensures View() == Next(old(View()), Accept(ok))
    {
      if ok {
        started := started + {awaiting};
      }
      DoStartAccept();
    }

    method ConnectionClosed(id: nat)
      modifies this
      ensures View() == Next(old(View()), Close(id))
    {
      connections := PurgeConnection(connections, id);
      closed := closed + {id};
    }

    static method PurgeConnection(list: seq<nat>, id: nat) returns (kept: seq<nat>)
      ensures kept == Remove(list, id)
    {
      kept := [];
      for i := 0 to |list|
        invariant kept == Remove(list[..i], id)
      {
        RemoveAppend(list[..i], [list[i]], id);
        RemoveOne(list[i], id);
        assert list[..i + 1] == list[..i] + [list[i]];
        if list[i] != id {
          kept := kept + [list[i]];
        }
      }
      assert list[..|list|] == list;
    }
  }
}
