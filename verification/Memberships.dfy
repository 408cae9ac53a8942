/** One node's view of the cluster, and how it changes: own heartbeats, merging what others say, and
    failure checks. */
module Memberships {
  import opened Collections
  import opened Detectors

  datatype NodeStatus = Alive | Suspected | Dead

  datatype NodeState = NodeState(address: nat, status: NodeStatus, heartbeatCounter: nat, lastSeen: Option<nat>)

  type Entries<N> = map<N, NodeState>

  /** A membership table as a value. */
  datatype Table<N> = Table(localId: N, entries: Entries<N>, detectors: map<N, Window>)

  function NewTable<N>(localId: N, address: nat, now: nat): Table<N> {
    Table(localId, map[localId := NodeState(address, Alive, 1, Some(now))], map[])
  }

  // ----- merging one claim about one node

  function Refuted(s: NodeState): NodeState {
    s.(heartbeatCounter := s.heartbeatCounter + 1, status := Alive)
  }

  /** A node hears about itself: it refutes a claim that it is not alive, if the claim is current. */
  function HeardOfSelf(own: NodeState, claim: NodeState): NodeState {
    if claim.status != Alive && claim.heartbeatCounter == own.heartbeatCounter then Refuted(own) else own
  }

  /** A node hears about a node it does not know. */
  function HeardOfStranger(claim: NodeState, now: nat): Option<NodeState> {
    if claim.status == Dead then None else Some(claim.(lastSeen := Some(now)))
  }

  /** A node hears about another node it knows: the newer counter wins, the worse status among equals. */
  function HeardOfPeer(local: NodeState, claim: NodeState, now: nat): NodeState {
    if claim.heartbeatCounter > local.heartbeatCounter then
      NodeState(claim.address, claim.status, claim.heartbeatCounter, Some(now))
    else if claim.heartbeatCounter == local.heartbeatCounter then
      if claim.status == Dead && local.status != Dead then local.(status := Dead)
      else if claim.status == Suspected && local.status == Alive then local.(status := Suspected)
      else local
    else local
  }

  function Lookup<N, T>(m: map<N, T>, id: N): Option<T> {
    if id in m then Some(m[id]) else None
  }

  /** The entry for one node, after hearing a claim about it or nothing. */
  function EntryOf(own: bool, entry: Option<NodeState>, claim: Option<NodeState>, now: nat): Option<NodeState> {
    if claim.None? then entry
    else if entry.None? then (if own then None else HeardOfStranger(claim.value, now))
    else if own then Some(HeardOfSelf(entry.value, claim.value))
    else Some(HeardOfPeer(entry.value, claim.value, now))
  }

  /** The detector for one node: a new one for a new node, a heartbeat for a newer counter. */
  function DetectorOf(
      own: bool, entry: Option<NodeState>, detector: Option<Window>, claim: Option<NodeState>, now: nat): Option<Window>
  {
    if claim.None? || own then detector
    else if entry.None? then (if claim.value.status == Dead then detector else Some(Received(Fresh, now)))
    else if claim.value.heartbeatCounter > entry.value.heartbeatCounter && detector.Some?
      then Some(Received(detector.value, now))
    else detector
  }

  function EntryAfter<N>(t: Table<N>, claims: Entries<N>, id: N, now: nat): Option<NodeState> {
    EntryOf(id == t.localId, Lookup(t.entries, id), Lookup(claims, id), now)
  }

  function DetectorAfter<N>(t: Table<N>, claims: Entries<N>, id: N, now: nat): Option<Window> {
    DetectorOf(id == t.localId, Lookup(t.entries, id), Lookup(t.detectors, id), Lookup(claims, id), now)
  }

  /** A merge treats every node by itself: nothing here depends on an order of the claims. */
  function Merge<N>(t: Table<N>, claims: Entries<N>, now: nat): Table<N> {
    Table(
      t.localId,
      map id | id in t.entries.Keys + claims.Keys && EntryAfter(t, claims, id, now).Some?
        :: EntryAfter(t, claims, id, now).value,
      map id | id in t.detectors.Keys + claims.Keys && DetectorAfter(t, claims, id, now).Some?
        :: DetectorAfter(t, claims, id, now).value)
  }

  /** Two tables are equal when they agree on every node. */
  lemma SameTable<N(!new)>(t: Table<N>, u: Table<N>)
    requires t.localId == u.localId
    requires forall id ::
               Lookup(t.entries, id) == Lookup(u.entries, id) && Lookup(t.detectors, id) == Lookup(u.detectors, id)
    ensures t == u
  {
    forall id
      ensures id in t.entries <==> id in u.entries
      ensures id in t.entries ==> t.entries[id] == u.entries[id]
      ensures id in t.detectors <==> id in u.detectors
      ensures id in t.detectors ==> t.detectors[id] == u.detectors[id]
    {
      assert Lookup(t.entries, id) == Lookup(u.entries, id) && Lookup(t.detectors, id) == Lookup(u.detectors, id);
    }
    assert t.entries == u.entries && t.detectors == u.detectors;
  }

  /** A merge, seen from one node. */
  lemma MergeAt<N>(t: Table<N>, claims: Entries<N>, now: nat, id: N)
    ensures Lookup(Merge(t, claims, now).entries, id) == EntryAfter(t, claims, id, now)
    ensures Lookup(Merge(t, claims, now).detectors, id) == DetectorAfter(t, claims, id, now)
  {
  }

  /** Merging claims one after the other, in any order, is merging them all. */
  lemma MergeOneMore<N(!new)>(t: Table<N>, claims: Entries<N>, id: N, claim: NodeState, now: nat)
    requires id !in claims
    ensures Merge(Merge(t, claims, now), map[id := claim], now) == Merge(t, claims[id := claim], now)
  {
    var u := Merge(t, claims, now);
    var one, more := Merge(u, map[id := claim], now), Merge(t, claims[id := claim], now);
    forall j
      ensures Lookup(one.entries, j) == Lookup(more.entries, j) && Lookup(one.detectors, j) == Lookup(more.detectors, j)
    {
      MergeAt(t, claims, now, j);
      MergeAt(u, map[id := claim], now, j);
      MergeAt(t, claims[id := claim], now, j);
    }
    SameTable(one, more);
  }

  function UpdateHeartbeat<N>(t: Table<N>): Table<N> {
    if t.localId in t.entries then t.(entries := t.entries[t.localId := Refuted(t.entries[t.localId])]) else t
  }

  // ----- checking for failures

  function Since(now: nat, then_: nat): nat {
    if now > then_ then now - then_ else 0
  }

  /** One entry after a failure check: suspected when phi is too high, dead when suspected for too long. */
  function CheckedState(s: NodeState, w: Window, now: nat, threshold: real, timeout: nat, score: Score): NodeState {
    if s.status == Dead then s
    else
      var s1 := if Phi(w, now, score) > threshold && s.status == Alive then s.(status := Suspected) else s;
      if s1.status == Suspected && s1.lastSeen.Some? && Since(now, s1.lastSeen.value) > timeout
      then s1.(status := Dead) else s1
  }

  function CheckedEntry<N>(t: Table<N>, id: N, now: nat, threshold: real, timeout: nat, score: Score): NodeState
    requires id in t.entries
  {
    if id == t.localId || id !in t.detectors then t.entries[id]
    else CheckedState(t.entries[id], t.detectors[id], now, threshold, timeout, score)
  }

  function CheckFailures<N>(t: Table<N>, now: nat, threshold: real, timeout: nat, score: Score): Table<N> {
    t.(entries := map id | id in t.entries :: CheckedEntry(t, id, now, threshold, timeout, score))
  }

  // ----- the table, updated in place

  class MembershipTable<N(==, !new)> {
    const localId: N
    var entries: Entries<N>
    var detectors: map<N, PhiAccrualDetector>

    /** Every node has its own detector object. */
    ghost predicate Valid()
      reads this
    {
      && localId in entries
      && forall i, j :: i in detectors && j in detectors && i != j ==> detectors[i] != detectors[j]
    }

    ghost function Repr(): set<object>
      reads this
    {
      set id | id in detectors :: detectors[id]
    }

    ghost function View(): Table<N>
      reads this, Repr()
    {
      Table(localId, entries, map id | id in detectors :: detectors[id].State())
    }

    constructor (localId: N, address: nat, now: nat)
      ensures Valid() && fresh(Repr()) && View() == NewTable(localId, address, now)
    {
      this.localId := localId;
      entries := map[localId := NodeState(address, Alive, 1, Some(now))];
      detectors := map[];
      new;
    }

    method UpdateOwnHeartbeat()
      requires Valid()
      modifies `entries
      ensures Valid() && View() == UpdateHeartbeat(old(View()))
    {
      if localId in entries {
        var state := entries[localId];
        entries := entries[localId := state.(heartbeatCounter := state.heartbeatCounter + 1, status := Alive)];
      }
    }

    method CheckForFailures(now: nat, threshold: real, timeout: nat, score: Score)
      requires Valid()
      modifies `entries
      ensures Valid() && View() == CheckFailures(old(View()), now, threshold, timeout, score)
    {
      ghost var before := View();
      var remaining := entries.Keys;
      while remaining != {}
        invariant Valid() && remaining <= entries.Keys == before.entries.Keys
        invariant View() == before.(entries := entries)
        invariant forall id :: id in remaining ==> entries[id] == before.entries[id]
        invariant forall id :: id in entries && id !in remaining ==>
                    entries[id] == CheckedEntry(before, id, now, threshold, timeout, score)
        decreases remaining
      {
        var id :| id in remaining;
        remaining := remaining - {id};
        var state := entries[id];
        if id != localId && state.status != Dead && id in detectors {
          var phi := detectors[id].ComputePhi(now, score);
          if phi > threshold {
            if state.status == Alive {
              state := state.(status := Suspected);
            }
          }
          if state.status == Suspected {
            if state.lastSeen.Some? && Since(now, state.lastSeen.value) > timeout {
              state := state.(status := Dead);
            }
          }
          assert before.detectors[id] == detectors[id].State();
          entries := entries[id := state];
        }
      }
    }

    /** Handles the claims in whatever order the loop picks them. */
    method MergeAll(incoming: Entries<N>, now: nat)
      requires Valid()
      modifies this, Repr()
      ensures Valid() && fresh(Repr() - old(Repr()))
      ensures View() == Merge(old(View()), incoming, now)
    {
      ghost var before := View();
      var remaining := incoming.Keys;
      ghost var handled: Entries<N> := map[];
      MergeNothing(before, now);
      while remaining != {}
        invariant Valid() && fresh(Repr() - old(Repr()))
        invariant remaining <= incoming.Keys
        invariant forall id :: id in handled <==> id in incoming && id !in remaining
        invariant forall id :: id in handled ==> handled[id] == incoming[id]
        invariant View() == Merge(before, handled, now)
        decreases remaining
      {
        var id :| id in remaining;
        remaining := remaining - {id};
        MergeOneMore(before, handled, id, incoming[id], now);
        MergeClaim(id, incoming[id], now);
        handled := handled[id := incoming[id]];
      }
      assert handled == incoming;
    }

    /** The loop body of `merge`: one claim about one node. */
    method MergeClaim(id: N, claim: NodeState, now: nat)
      requires Valid()
      modifies this, Repr()
      ensures Valid() && fresh(Repr() - old(Repr()))
      ensures View() == Merge(old(View()), map[id := claim], now)
    {
      ghost var before := View();
      if id == localId {
        if claim.status != Alive && claim.heartbeatCounter == entries[localId].heartbeatCounter {
          UpdateOwnHeartbeat();
        }
      } else if id !in entries {
        if claim.status != Dead {
          entries := entries[id := claim.(lastSeen := Some(now))];
          var detector := new PhiAccrualDetector();
          detector.HeartbeatReceived(now);
          detectors := detectors[id := detector];
        }
      } else {
        var local := entries[id];
        if claim.heartbeatCounter > local.heartbeatCounter {
          entries := entries[id := NodeState(claim.address, claim.status, claim.heartbeatCounter, Some(now))];
          if id in detectors {
            detectors[id].HeartbeatReceived(now);
          }
        } else if claim.heartbeatCounter == local.heartbeatCounter {
          if claim.status == Dead && local.status != Dead {
            entries := entries[id := local.(status := Dead)];
          } else if claim.status == Suspected && local.status == Alive {
            entries := entries[id := local.(status := Suspected)];
          }
        }
      }
      forall j
        ensures Lookup(View().entries, j) == EntryAfter(before, map[id := claim], j, now)
        ensures Lookup(View().detectors, j) == DetectorAfter(before, map[id := claim], j, now)
      {
        assert j in before.detectors ==> old(detectors)[j] == old(detectors[j]);
      }
      IsMerge(before, View(), map[id := claim], now);
    }
  }

  lemma MergeNothing<N(!new)>(t: Table<N>, now: nat)
    ensures Merge(t, map[], now) == t
  {
    IsMerge(t, t, map[], now);
  }

  /** A table with the right entry and detector for every node is the merge. */
  lemma IsMerge<N(!new)>(t: Table<N>, u: Table<N>, claims: Entries<N>, now: nat)
    requires u.localId == t.localId
    requires forall id :: Lookup(u.entries, id) == EntryAfter(t, claims, id, now)
    requires forall id :: Lookup(u.detectors, id) == DetectorAfter(t, claims, id, now)
    ensures u == Merge(t, claims, now)
  {
    var m := Merge(t, claims, now);
    forall id
      ensures Lookup(u.entries, id) == Lookup(m.entries, id) && Lookup(u.detectors, id) == Lookup(m.detectors, id)
    {
      MergeAt(t, claims, now, id);
      assert Lookup(u.entries, id) == EntryAfter(t, claims, id, now);
    }
    SameTable(u, m);
  }
}
