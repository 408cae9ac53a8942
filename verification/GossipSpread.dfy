/** How knowledge travels: what a tick sends, what a delivery adds, and what a node says of itself. */
module GossipSpread {
  import opened Collections
  import opened Detectors
  import opened Memberships
  import opened MergeLaws
  import opened GossipNetworks

  ghost predicate SaysSame(a: NodeState, b: NodeState) {
    a.address == b.address && a.status == b.status && a.heartbeatCounter == b.heartbeatCounter
  }

  /** The message says of every node in the table what the table says, and speaks of no other. */
  ghost predicate TellsAll<N>(m: Entries<N>, t: Table<N>) {
    m.Keys == t.entries.Keys && forall id :: id in m ==> SaysSame(m[id], t.entries[id])
  }

  /** A tick sends the whole table, as it stands after the heartbeat and the failure check. */
  lemma TicksTellAll<N>(net: Network<N>, step: Step<N>)
    requires Enabled(net, step) && step.Gossip?
    ensures exists m :: m in Do(net, step).sent && TellsAll(m, Do(net, step).tables[step.id])
  {
    var t := TableAfter(net, step);
    var m := Snapshot(t);
    assert m in Do(net, step).sent && TellsAll(m, t);
  }

  ghost predicate SentAt<N>(steps: seq<Step<N>>, m: Entries<N>, p: nat)
    requires After(steps).Some?
  {
    && p < |steps| && steps[p].Gossip? && steps[p].id in At(steps, p + 1).tables
    && TellsAll(m, At(steps, p + 1).tables[steps[p].id])
  }

  /** Every message on the network was sent by a tick, and tells all that its sender knew then. */
  lemma {:induction false} MessagesTellAll<N>(steps: seq<Step<N>>, m: Entries<N>)
    requires After(steps).Some? && m in After(steps).value.sent
    ensures exists p: nat :: SentAt(steps, m, p)
  {
    if steps != [] {
      var last := |steps| - 1;
      var init := steps[..last];
      AtStep(steps, last);
      assert steps[..|steps|] == steps;
      if m in After(init).value.sent {
        MessagesTellAll(init, m);
        var p: nat :| SentAt(init, m, p);
        assert init[..p + 1] == steps[..p + 1];
        assert SentAt(steps, m, p);
      } else {
        assert TellsAll(m, TableAfter(After(init).value, steps[last]));
        assert SentAt(steps, m, last);
      }
    }
  }

  /** Node `j` knows `id`, at a counter and status no less than `s`. */
  predicate KnowsAtLeast<N>(net: Network<N>, j: N, id: N, s: NodeState) {
    j in net.tables && id in net.tables[j].entries && AtLeast(net.tables[j].entries[id], s)
  }

  predicate Knows<N>(net: Network<N>, j: N, id: N) {
    j in net.tables && id in net.tables[j].entries
  }

  /** What one node knew of another when it gossiped, a third knows at least as well when it has merged the message,
      and from then on; except that it does not learn of a node from being told that it is dead. */
  lemma KnowledgeSpreads<N>(steps: seq<Step<N>>, told: nat, heard: nat, later: nat, about: N)
    requires After(steps).Some? && told < heard < later <= |steps|
    requires steps[heard].Deliver? && SentAt(steps, steps[heard].message, told)
    requires about in At(steps, told + 1).tables[steps[told].id].entries && about != steps[heard].id
    ensures var known := At(steps, told + 1).tables[steps[told].id].entries[about];
            Knows(At(steps, heard), steps[heard].id, about) || known.status != Dead ==>
              KnowsAtLeast(At(steps, later), steps[heard].id, about, known)
  {
    HearingLasts(steps, heard, later, about);
  }

  lemma HearingLasts<N>(steps: seq<Step<N>>, heard: nat, later: nat, about: N)
    requires After(steps).Some? && heard < later <= |steps| && steps[heard].Deliver?
    requires about in steps[heard].message && about != steps[heard].id
    ensures Knows(At(steps, heard), steps[heard].id, about) || steps[heard].message[about].status != Dead ==>
              KnowsAtLeast(At(steps, later), steps[heard].id, about, steps[heard].message[about])
  {
    AtStep(steps, heard);
    if Knows(At(steps, heard), steps[heard].id, about) || steps[heard].message[about].status != Dead {
      HearingTeaches(At(steps, heard), steps[heard], about);
      KnowledgeNeverFalls(steps, heard + 1, later, steps[heard].id, about);
    }
  }

  /** One delivery, seen from one node that the message speaks of. */
  lemma HearingTeaches<N>(net: Network<N>, step: Step<N>, about: N)
    requires Inv(net) && Enabled(net, step) && step.Deliver? && about != step.id && about in step.message
    requires Knows(net, step.id, about) || step.message[about].status != Dead
    ensures KnowsAtLeast(Do(net, step), step.id, about, step.message[about])
  {
    assert TableOk(net, step.id);
    MergeAt(net.tables[step.id], step.message, step.now, about);
  }

  // ----- what a node says of itself

  /** How often node `j` has raised its own counter: once for every tick, and once for every message that spoke
      against it at its current counter. */
  function Beats<N(==)>(steps: seq<Step<N>>, j: N): nat {
    if steps == [] then 0
    else
      var before, last := Beats(steps[..|steps| - 1], j), steps[|steps| - 1];
      if last.id == j && (last.Gossip? || (last.Deliver? && SpeaksAgainst(last.message, j, 1 + before))) then before + 1
      else before
  }

  predicate SpeaksAgainst<N>(m: Entries<N>, j: N, counter: nat) {
    j in m && m[j].status != Alive && m[j].heartbeatCounter == counter
  }

  /** In every reachable network a node's own entry is alive, at the address and time of its start, with one more than
      the number of its beats as its counter. */
  lemma {:induction false} OwnEntryIsExact<N>(steps: seq<Step<N>>, j: N) returns (start: nat)
    requires After(steps).Some?
    ensures j !in After(steps).value.tables ==> Beats(steps, j) == 0
    ensures j in After(steps).value.tables ==>
              && start < |steps| && steps[start].Spawn? && steps[start].id == j
              && j in After(steps).value.tables[j].entries
              && After(steps).value.tables[j].entries[j]
                 == NodeState(steps[start].address, Alive, 1 + Beats(steps, j), Some(steps[start].now))
  {
    start := 0;
    if steps != [] {
      var last := |steps| - 1;
      var init := steps[..last];
      start := OwnEntryIsExact(init, j);
      RunsKeepInv(init);
      if steps[last].id == j {
        if steps[last].Spawn? {
          start := last;
        } else {
          OwnEntryStep(After(init).value, steps[last], j, Beats(init, j));
        }
      }
    }
  }

  lemma OwnEntryStep<N>(net: Network<N>, step: Step<N>, j: N, beats: nat)
    requires Inv(net) && Enabled(net, step) && step.id == j && !step.Spawn?
    requires j in net.tables && j in net.tables[j].entries && net.tables[j].entries[j].heartbeatCounter == 1 + beats
    ensures var raised := step.Gossip? || (step.Deliver? && SpeaksAgainst(step.message, j, 1 + beats));
            && j in TableAfter(net, step).entries
            && TableAfter(net, step).entries[j]
               == net.tables[j].entries[j].(heartbeatCounter := if raised then 2 + beats else 1 + beats)
  {
    assert TableOk(net, j);
    match step
    case Gossip(_, now, score) =>
    case Deliver(_, message, now) => MergeAt(net.tables[j], message, now, j);
    case Seed(_, other, address, now) =>
      MergeAt(net.tables[j], map[other := NodeState(address, Alive, 1, Some(now))], now, j);
  }

  /** A new node starts alone, alive, at counter 1. */
  lemma NodesStartAlone<N>(net: Network<N>, step: Step<N>)
    requires Enabled(net, step) && step.Spawn?
    ensures var t := Do(net, step).tables[step.id];
            && t.localId == step.id && t.entries.Keys == {step.id} && t.detectors == map[]
            && t.entries[step.id] == NodeState(step.address, Alive, 1, Some(step.now))
  {
  }

  /** Seeding introduces an unknown node as alive at counter 1, seen now; of a known one it says nothing new. */
  lemma SeedsIntroduce<N>(net: Network<N>, step: Step<N>)
    requires Enabled(net, step) && step.Seed? && net.tables[step.id].localId == step.id
    ensures var before, after := net.tables[step.id].entries, Do(net, step).tables[step.id].entries;
            && (step.other !in before && step.other != step.id ==>
                  step.other in after && after[step.other] == NodeState(step.address, Alive, 1, Some(step.now)))
            && (step.other in before && before[step.other].heartbeatCounter >= 1 ==>
                  step.other in after && after[step.other] == before[step.other])
  {
    var claims := map[step.other := NodeState(step.address, Alive, 1, Some(step.now))];
    MergeAt(net.tables[step.id], claims, step.now, step.other);
  }

  // ----- the failure check of a tick, in numbers

  /** A tick suspects a live peer exactly when phi exceeds 8, which takes five samples or more; it calls a suspect, old
      or new, dead exactly when the peer was last seen more than two seconds ago; it changes nothing else of a peer. */
  lemma TicksDecide<N>(net: Network<N>, step: Step<N>, id: N)
    requires Enabled(net, step) && step.Gossip? && net.tables[step.id].localId == step.id
    requires id != step.id && id in net.tables[step.id].entries
    ensures id in Do(net, step).tables[step.id].entries
    ensures var t := net.tables[step.id];
            var before, after := t.entries[id], Do(net, step).tables[step.id].entries[id];
            var suspicious := id in t.detectors && Phi(t.detectors[id], step.now, step.score) > 8.0;
            && after == before.(status := after.status)
            && (after.status == Alive <==> before.status == Alive && !suspicious)
            && (after.status == Dead <==>
                  || before.status == Dead
                  || (id in t.detectors && (before.status == Suspected || suspicious)
                      && before.lastSeen.Some? && step.now > before.lastSeen.value + 2 * 1000000000))
            && (suspicious ==> |t.detectors[id].intervals| >= 5)
  {
    ChecksDecide(UpdateHeartbeat(net.tables[step.id]), id, step.now, PHI_THRESHOLD, DEAD_TIMEOUT, step.score);
  }
}
