/** A cluster of gossiping nodes over a network that may lose, duplicate, delay and reorder messages. Node
    identifiers are unique, and a node is started once; a node that has crashed takes no more steps. */
module GossipNetworks {
  import opened Collections
  import opened Detectors
  import opened Memberships
  import opened MergeLaws

  const PHI_THRESHOLD := 8.0
  const DEAD_TIMEOUT := 2000000000

  /** `sent` collects every message ever sent; any of them can arrive anywhere, at any time, any number of times. */
  datatype Network<N> = Network(tables: map<N, Table<N>>, sent: set<Entries<N>>)

  datatype Step<N> =
    | Spawn(id: N, address: nat, now: nat)
    | Gossip(id: N, now: nat, score: Score)
    | Deliver(id: N, message: Entries<N>, now: nat)
    | Seed(id: N, other: N, address: nat, now: nat)

  /** A table as it goes over the wire: the local times stay behind. */
  function Snapshot<N>(t: Table<N>): Entries<N> {
    map id | id in t.entries :: t.entries[id].(lastSeen := None)
  }

  predicate Enabled<N>(net: Network<N>, step: Step<N>) {
    match step
    case Spawn(id, _, _) => id !in net.tables
    case Gossip(id, _, _) => id in net.tables
    case Deliver(id, message, _) => id in net.tables && message in net.sent
    case Seed(id, _, _, _) => id in net.tables
  }

  /** The table of the stepping node after the step. */
  function TableAfter<N>(net: Network<N>, step: Step<N>): Table<N>
    requires Enabled(net, step)
  {
    match step
    case Spawn(id, address, now) => NewTable(id, address, now)
    case Gossip(id, now, score) =>
      CheckFailures(UpdateHeartbeat(net.tables[id]), now, PHI_THRESHOLD, DEAD_TIMEOUT, score)
    case Deliver(id, message, now) => Merge(net.tables[id], message, now)
    case Seed(id, other, address, now) =>
      Merge(net.tables[id], map[other := NodeState(address, Alive, 1, Some(now))], now)
  }

  /** A tick also sends the new table; to which peers does not matter here. */
  function Do<N>(net: Network<N>, step: Step<N>): Network<N>
    requires Enabled(net, step)
  {
    var t := TableAfter(net, step);
    Network(net.tables[step.id := t], if step.Gossip? then net.sent + {Snapshot(t)} else net.sent)
  }

  /** The network after the first steps of a run; `None` if one of them could not be taken. */
  function After<N>(steps: seq<Step<N>>): Option<Network<N>> {
    if steps == [] then Some(Network(map[], {}))
    else
      var before := After(steps[..|steps| - 1]);
      if before.None? || !Enabled(before.value, steps[|steps| - 1]) then None
      else Some(Do(before.value, steps[|steps| - 1]))
  }

  // ----- the invariant

  /** The counter that no claim about `id` exceeds: its own, or 1 before it starts. */
  function Authority<N>(net: Network<N>, id: N): nat {
    if id in net.tables && id in net.tables[id].entries then net.tables[id].entries[id].heartbeatCounter else 1
  }

  ghost predicate ModestClaim<N>(net: Network<N>, claims: Entries<N>, id: N)
    requires id in claims
  {
    claims[id].heartbeatCounter <= Authority(net, id)
  }

  ghost predicate Modest<N>(net: Network<N>, claims: Entries<N>) {
    forall id {:trigger ModestClaim(net, claims, id)} :: id in claims ==> ModestClaim(net, claims, id)
  }

  /** A node's table is its own, and there the node is alive. */
  ghost predicate TableOk<N>(net: Network<N>, id: N)
    requires id in net.tables
  {
    var t := net.tables[id];
    t.localId == id && id in t.entries && t.entries[id].status == Alive && t.entries[id].heartbeatCounter >= 1
    && Modest(net, t.entries)
  }

  ghost predicate Inv<N>(net: Network<N>) {
    && (forall id {:trigger TableOk(net, id)} :: id in net.tables ==> TableOk(net, id))
    && (forall m {:trigger Modest(net, m)} :: m in net.sent ==> Modest(net, m))
  }

  /** The stepping node's own entry stays alive, and its counter does not fall. */
  lemma OwnEntryAfter<N>(net: Network<N>, step: Step<N>)
    requires Inv(net) && Enabled(net, step)
    ensures var t := TableAfter(net, step);
            && t.localId == step.id && step.id in t.entries && t.entries[step.id].status == Alive
            && t.entries[step.id].heartbeatCounter >= Authority(net, step.id) >= 1
            && (step.Gossip? ==> t.entries[step.id].heartbeatCounter == Authority(net, step.id) + 1)
  {
    var id := step.id;
    assert id in net.tables ==> TableOk(net, id);
    match step
    case Deliver(_, message, now) => MergeAt(net.tables[id], message, now, id);
    case Seed(_, other, address, now) =>
      MergeAt(net.tables[id], map[other := NodeState(address, Alive, 1, Some(now))], now, id);
    case _ =>
  }

  /** Counters only grow, so claims that were modest stay modest. */
  lemma AuthorityGrows<N>(net: Network<N>, step: Step<N>, id: N)
    requires Inv(net) && Enabled(net, step)
    ensures Authority(Do(net, step), id) >= Authority(net, id)
  {
    OwnEntryAfter(net, step);
  }

  lemma ModestStays<N>(net: Network<N>, step: Step<N>, claims: Entries<N>)
    requires Inv(net) && Enabled(net, step) && Modest(net, claims)
    ensures Modest(Do(net, step), claims)
  {
    forall id | id in claims
      ensures ModestClaim(Do(net, step), claims, id)
    {
      assert ModestClaim(net, claims, id);
      AuthorityGrows(net, step, id);
    }
  }

  /** Merging modest claims into a modest table gives a modest table. */
  lemma MergedIsModest<N>(net: Network<N>, net': Network<N>, id: N, claims: Entries<N>, now: nat, j: N)
    requires Inv(net) && id in net.tables && Modest(net, claims)
    requires j in Merge(net.tables[id], claims, now).entries && j != id
    requires Authority(net', j) >= Authority(net, j)
    ensures Merge(net.tables[id], claims, now).entries[j].heartbeatCounter <= Authority(net', j)
  {
    var t := net.tables[id];
    assert TableOk(net, id);
    MergeAt(t, claims, now, j);
    assert j in t.entries ==> ModestClaim(net, t.entries, j);
    assert j in claims ==> ModestClaim(net, claims, j);
  }

  lemma TableAfterIsModest<N>(net: Network<N>, step: Step<N>)
    requires Inv(net) && Enabled(net, step)
    ensures Modest(Do(net, step), TableAfter(net, step).entries)
  {
    var id, t, net' := step.id, TableAfter(net, step), Do(net, step);
    OwnEntryAfter(net, step);
    forall j | j in t.entries
      ensures ModestClaim(net', t.entries, j)
    {
      AuthorityGrows(net, step, j);
      if j != id {
        match step {
          case Spawn(_, _, _) =>
          case Gossip(_, _, _) => assert TableOk(net, id) && ModestClaim(net, net.tables[id].entries, j);
          case Deliver(_, message, now) => MergedIsModest(net, net', id, message, now, j);
          case Seed(_, other, address, now) =>
            var claims := map[other := NodeState(address, Alive, 1, Some(now))];
            SeedIsModest(net, claims, other);
            MergedIsModest(net, net', id, claims, now, j);
        }
      }
    }
  }

  lemma SeedIsModest<N>(net: Network<N>, claims: Entries<N>, other: N)
    requires Inv(net) && claims.Keys == {other} && claims[other].heartbeatCounter == 1
    ensures Modest(net, claims)
  {
    forall id | id in claims
      ensures ModestClaim(net, claims, id)
    {
      assert id in net.tables ==> TableOk(net, id);
    }
  }

  lemma StepKeepsInv<N>(net: Network<N>, step: Step<N>)
    requires Inv(net) && Enabled(net, step)
    ensures Inv(Do(net, step))
  {
    var net' := Do(net, step);
    OwnEntryAfter(net, step);
    TableAfterIsModest(net, step);
    forall id | id in net'.tables
      ensures TableOk(net', id)
    {
      if id != step.id {
        assert TableOk(net, id);
        ModestStays(net, step, net.tables[id].entries);
      }
    }
    forall m | m in net'.sent
      ensures Modest(net', m)
    {
      if m in net.sent {
        ModestStays(net, step, m);
      } else {
        SnapshotIsModest(net', TableAfter(net, step));
      }
    }
  }

  lemma SnapshotIsModest<N>(net: Network<N>, t: Table<N>)
    requires Modest(net, t.entries)
    ensures Modest(net, Snapshot(t))
  {
    forall id | id in Snapshot(t)
      ensures ModestClaim(net, Snapshot(t), id)
    {
      assert ModestClaim(net, t.entries, id);
    }
  }

  lemma {:induction false} RunsKeepInv<N>(steps: seq<Step<N>>)
    requires After(steps).Some?
    ensures Inv(After(steps).value)
  {
    if steps != [] {
      RunsKeepInv(steps[..|steps| - 1]);
      StepKeepsInv(After(steps[..|steps| - 1]).value, steps[|steps| - 1]);
    }
  }

  // ----- what holds in every reachable network

  /** No table and no message holds a counter for a node above the node's own; nobody knows a counter above
      1 for a node that has not started; and every node takes itself to be alive. */
  lemma CounterAuthority<N>(steps: seq<Step<N>>, id: N)
    requires After(steps).Some?
    ensures var net := After(steps).value;
            && (forall j :: j in net.tables && id in net.tables[j].entries ==>
                  net.tables[j].entries[id].heartbeatCounter <= Authority(net, id))
            && (forall m: Entries<N> :: m in net.sent && id in m ==> m[id].heartbeatCounter <= Authority(net, id))
            && (id in net.tables ==> id in net.tables[id].entries && net.tables[id].entries[id].status == Alive)
  {
    RunsKeepInv(steps);
    var net := After(steps).value;
    forall j | j in net.tables && id in net.tables[j].entries
      ensures net.tables[j].entries[id].heartbeatCounter <= Authority(net, id)
    {
      assert TableOk(net, j) && ModestClaim(net, net.tables[j].entries, id);
    }
    forall m: Entries<N> | m in net.sent && id in m
      ensures m[id].heartbeatCounter <= Authority(net, id)
    {
      assert Modest(net, m) && ModestClaim(net, m, id);
    }
    assert id in net.tables ==> TableOk(net, id);
  }

  /** After a node has merged a message, its counter exceeds that of anything the message said against it,
      and is no larger than that takes. */
  lemma MergingRefutes<N>(steps: seq<Step<N>>)
    requires steps != [] && After(steps).Some? && steps[|steps| - 1].Deliver?
    ensures var step := steps[|steps| - 1];
            var own := Authority(After(steps[..|steps| - 1]).value, step.id);
            Authority(After(steps).value, step.id)
            == if step.id in step.message && step.message[step.id].status != Alive
               then Max(own, step.message[step.id].heartbeatCounter + 1) else own
  {
    var before, step := After(steps[..|steps| - 1]).value, steps[|steps| - 1];
    RunsKeepInv(steps[..|steps| - 1]);
    RunsKeepInv(steps);
    var id := step.id;
    assert TableOk(before, id) && TableOk(After(steps).value, id);
    if id in step.message {
      assert Modest(before, step.message) && ModestClaim(before, step.message, id);
      MergeAt(before.tables[id], step.message, step.now, id);
    }
  }

  /** A prefix of a run is a run. */
  lemma {:induction false} PrefixRuns<N>(steps: seq<Step<N>>, i: nat)
    requires After(steps).Some? && i <= |steps|
    ensures After(steps[..i]).Some?
    decreases |steps|
  {
    if i < |steps| {
      PrefixRuns(steps[..|steps| - 1], i);
      assert steps[..|steps| - 1][..i] == steps[..i];
    } else {
      assert steps[..i] == steps;
    }
  }

  /** The network after the first `i` steps of a run. */
  function At<N>(steps: seq<Step<N>>, i: nat): Network<N>
    requires After(steps).Some? && i <= |steps|
  {
    PrefixRuns(steps, i);
    After(steps[..i]).value
  }

  lemma AtStep<N>(steps: seq<Step<N>>, i: nat)
    requires After(steps).Some? && i < |steps|
    ensures Enabled(At(steps, i), steps[i]) && At(steps, i + 1) == Do(At(steps, i), steps[i])
    ensures Inv(At(steps, i))
  {
    PrefixRuns(steps, i + 1);
    PrefixRuns(steps, i);
    assert steps[..i + 1][..i] == steps[..i];
    RunsKeepInv(steps[..i]);
  }

  /** A node's counter never falls in the course of a run. */
  lemma {:induction false} AuthorityNeverFalls<N>(steps: seq<Step<N>>, i: nat, j: nat, id: N)
    requires After(steps).Some? && i <= j <= |steps|
    ensures Authority(At(steps, i), id) <= Authority(At(steps, j), id)
    decreases j
  {
    if i < j {
      AuthorityNeverFalls(steps, i, j - 1, id);
      AtStep(steps, j - 1);
      AuthorityGrows(At(steps, j - 1), steps[j - 1], id);
    }
  }

  /** Once node `id` has merged a message that speaks against it at counter `c`, any snapshot it gossips
      afterwards shows it alive at a counter above `c`. */
  lemma LaterSnapshotsRefute<N>(steps: seq<Step<N>>, heard: nat, told: nat)
    requires After(steps).Some? && heard < told < |steps|
    requires steps[heard].Deliver? && steps[told].Gossip? && steps[told].id == steps[heard].id
    requires var id, m := steps[heard].id, steps[heard].message; id in m && m[id].status != Alive
    ensures var id, net := steps[heard].id, At(steps, told + 1);
            && id in net.tables
            && var snapshot := Snapshot(net.tables[id]);
            && snapshot in net.sent
            && id in snapshot && snapshot[id].status == Alive
            && snapshot[id].heartbeatCounter > steps[heard].message[id].heartbeatCounter
  {
    var id, before := steps[heard].id, steps[..heard + 1];
    PrefixRuns(steps, heard + 1);
    assert before[..heard] == steps[..heard];
    MergingRefutes(before);
    AuthorityNeverFalls(steps, heard + 1, told, id);
    AtStep(steps, told);
    OwnEntryAfter(At(steps, told), steps[told]);
  }

  /** Refutation spreads: a node whose knowledge of `id` is no newer than what spoke against `id` takes it to
      be alive again, at a larger counter, as soon as it merges a snapshot gossiped after the refutation. */
  lemma RefutationSpreads<N>(steps: seq<Step<N>>, heard: nat, told: nat, last: nat)
    requires After(steps).Some? && heard < told < last < |steps|
    requires steps[heard].Deliver? && steps[told].Gossip? && steps[told].id == steps[heard].id
    requires var id, m := steps[heard].id, steps[heard].message; id in m && m[id].status != Alive
    requires steps[last].Deliver? && steps[last].id != steps[heard].id && steps[last].id in At(steps, last).tables
    requires steps[told].id in At(steps, told + 1).tables
    requires steps[last].message == Snapshot(At(steps, told + 1).tables[steps[told].id])
    requires var id, known := steps[heard].id, At(steps, last).tables[steps[last].id].entries;
             id in known ==> known[id].heartbeatCounter <= steps[heard].message[id].heartbeatCounter
    ensures var id, j, net := steps[heard].id, steps[last].id, At(steps, last + 1);
            && j in net.tables && id in net.tables[j].entries
            && net.tables[j].entries[id].status == Alive
            && net.tables[j].entries[id].heartbeatCounter > steps[heard].message[id].heartbeatCounter
  {
    LaterSnapshotsRefute(steps, heard, told);
    AtStep(steps, last);
    var net, j := At(steps, last), steps[last].id;
    assert TableOk(net, j);
    MergeAt(net.tables[j], steps[last].message, steps[last].now, steps[heard].id);
  }

  /** If node `j` knows `id` before, it knows it after, at no smaller counter and status. */
  predicate KnowsNoLess<N>(before: Network<N>, after: Network<N>, j: N, id: N) {
    j in before.tables && id in before.tables[j].entries ==>
      && j in after.tables && id in after.tables[j].entries
      && AtLeast(after.tables[j].entries[id], before.tables[j].entries[id])
  }

  lemma KnowledgeIsTransitive<N>(a: Network<N>, b: Network<N>, c: Network<N>, j: N, id: N)
    requires KnowsNoLess(a, b, j, id) && KnowsNoLess(b, c, j, id)
    ensures KnowsNoLess(a, c, j, id)
  {
  }

  /** What a node knows of another never falls in counter and status, and no node is forgotten. */
  lemma {:induction false} KnowledgeNeverFalls<N>(steps: seq<Step<N>>, i: nat, k: nat, j: N, id: N)
    requires After(steps).Some? && i <= k <= |steps|
    ensures KnowsNoLess(At(steps, i), At(steps, k), j, id)
    decreases k
  {
    if i < k {
      KnowledgeNeverFalls(steps, i, k - 1, j, id);
      AtStep(steps, k - 1);
      StepIsGrowth(At(steps, k - 1), steps[k - 1], j, id);
      KnowledgeIsTransitive(At(steps, i), At(steps, k - 1), At(steps, k), j, id);
    }
  }

  lemma StepIsGrowth<N>(net: Network<N>, step: Step<N>, j: N, id: N)
    requires Enabled(net, step)
    ensures KnowsNoLess(net, Do(net, step), j, id)
  {
    if step.id == j && j in net.tables && id in net.tables[j].entries {
      var t := net.tables[j];
      match step
      case Gossip(_, now, score) =>
        ChangeGrows(t, Beat);
        assert GrownAt(t, UpdateHeartbeat(t), id);
        var check := Check(now, PHI_THRESHOLD, DEAD_TIMEOUT, score);
        ChangeGrows(UpdateHeartbeat(t), check);
        assert GrownAt(UpdateHeartbeat(t), TableAfter(net, step), id);
      case Deliver(_, message, now) =>
        ChangeGrows(t, Hear(message, now));
        assert GrownAt(t, TableAfter(net, step), id);
      case Seed(_, other, address, now) =>
        ChangeGrows(t, Hear(map[other := NodeState(address, Alive, 1, Some(now))], now));
        assert GrownAt(t, TableAfter(net, step), id);
    }
  }

  // ----- the tables of a network are the tables of MergeLaws

  /** What a step does to the table of the stepping node. */
  function ChangesOf<N>(step: Step<N>): seq<Change<N>> {
    match step
    case Spawn(_, _, _) => []
    case Gossip(_, now, score) => [Beat, Check(now, PHI_THRESHOLD, DEAD_TIMEOUT, score)]
    case Deliver(_, message, now) => [Hear(message, now)]
    case Seed(_, other, address, now) => [Hear(map[other := NodeState(address, Alive, 1, Some(now))], now)]
  }

  /** What has happened to the table of node `j`. */
  function Changes<N(==)>(steps: seq<Step<N>>, j: N): seq<Change<N>> {
    if steps == [] then []
    else
      var last := steps[|steps| - 1];
      Changes(steps[..|steps| - 1], j) + (if last.id == j then ChangesOf(last) else [])
  }

  lemma ChangedByMore<N>(t: Table<N>, cs: seq<Change<N>>, step: Step<N>)
    ensures ChangesOf(step) == [] ==> ChangedBy(t, cs + ChangesOf(step)) == ChangedBy(t, cs)
    ensures step.Gossip? ==>
              ChangedBy(t, cs + ChangesOf(step))
              == CheckFailures(UpdateHeartbeat(ChangedBy(t, cs)), step.now, PHI_THRESHOLD, DEAD_TIMEOUT, step.score)
    ensures |ChangesOf(step)| == 1 ==>
              ChangedBy(t, cs + ChangesOf(step)) == Changed(ChangedBy(t, cs), ChangesOf(step)[0])
  {
    var more := cs + ChangesOf(step);
    if step.Gossip? {
      assert more[..|more| - 1] == cs + [Beat] && more[..|more| - 1][..|cs|] == cs;
    } else if |ChangesOf(step)| == 1 {
      assert more[..|more| - 1] == cs;
    } else {
      assert more == cs;
    }
  }

  /** Every table of a reachable network has come about from a new table by the changes that its node's own
      steps made. */
  lemma {:induction false} TablesComeFromChanges<N>(steps: seq<Step<N>>, j: N) returns (address: nat, start: nat)
    requires After(steps).Some?
    ensures j !in After(steps).value.tables ==> Changes(steps, j) == []
    ensures j in After(steps).value.tables ==>
              After(steps).value.tables[j] == ChangedBy(NewTable(j, address, start), Changes(steps, j))
  {
    address, start := 0, 0;
    if steps != [] {
      var init, last := steps[..|steps| - 1], steps[|steps| - 1];
      address, start := TablesComeFromChanges(init, j);
      if last.id == j {
        if last.Spawn? {
          address, start := last.address, last.now;
          assert Changes(steps, j) == [];
        }
        ChangedByMore(NewTable(j, address, start), Changes(init, j), last);
      } else {
        assert Changes(steps, j) == Changes(init, j);
      }
    }
  }

  /** In every reachable network the detector of a peer is the replay of the times at which the node heard news
      of that peer, and the peer was last seen at the last of them. */
  lemma DetectorsHoldOwnHistory<N(!new)>(steps: seq<Step<N>>, j: N, id: N) returns (address: nat, start: nat)
    requires After(steps).Some? && j in After(steps).value.tables
    ensures var t, cs, table := NewTable(j, address, start), Changes(steps, j), After(steps).value.tables[j];
            table == ChangedBy(t, cs) && Coupled(table) && ArrivedAt(table, Arrivals(t, cs, id), id)
  {
    address, start := TablesComeFromChanges(steps, j);
    TablesStayCoupled(j, address, start, Changes(steps, j));
    DetectorsReplayArrivals(j, address, start, Changes(steps, j), id);
  }

  /** The clock that node `j` reads in its own steps never runs backward. */
  predicate ClockInOrder<N(==)>(steps: seq<Step<N>>, j: N) {
    forall p, q :: 0 <= p < q < |steps| && steps[p].id == j && steps[q].id == j ==> steps[p].now <= steps[q].now
  }

  /** What one more step adds to the changes of its node is in order if the step is not earlier than they are. */
  lemma MoreInOrder<N>(cs: seq<Change<N>>, start: nat, step: Step<N>)
    requires InOrder(cs, start) && TimeAfter(cs, start) <= step.now && !step.Spawn?
    ensures InOrder(cs + ChangesOf(step), start) && TimeAfter(cs + ChangesOf(step), start) == step.now
  {
    var more := cs + ChangesOf(step);
    if step.Gossip? {
      var beat := cs + [Beat];
      assert beat[..|cs|] == cs && more[..|more| - 1] == beat;
      assert InOrder(beat, start) && TimeAfter(beat, start) == TimeAfter(cs, start);
    } else {
      assert more[..|more| - 1] == cs;
    }
  }

  /** A node that reads an orderly clock makes orderly changes. */
  lemma {:induction false} TablesChangeInOrder<N>(steps: seq<Step<N>>, j: N) returns (address: nat, start: nat)
    requires After(steps).Some? && ClockInOrder(steps, j)
    ensures j !in After(steps).value.tables ==> Changes(steps, j) == []
    ensures j in After(steps).value.tables ==>
              && After(steps).value.tables[j] == ChangedBy(NewTable(j, address, start), Changes(steps, j))
              && InOrder(Changes(steps, j), start)
              && exists p :: 0 <= p < |steps| && steps[p].id == j && TimeAfter(Changes(steps, j), start) == steps[p].now
  {
    address, start := 0, 0;
    if steps != [] {
      var init, last := steps[..|steps| - 1], steps[|steps| - 1];
      address, start := TablesChangeInOrder(init, j);
      if last.id != j {
        assert Changes(steps, j) == Changes(init, j);
        if j in After(init).value.tables {
          var p :| 0 <= p < |init| && init[p].id == j && TimeAfter(Changes(init, j), start) == init[p].now;
          assert steps[p] == init[p];
        }
      } else if last.Spawn? {
        address, start := last.address, last.now;
        assert Changes(steps, j) == [];
        assert steps[|init|].id == j;
      } else {
        var p :| 0 <= p < |init| && init[p].id == j && TimeAfter(Changes(init, j), start) == init[p].now;
        assert steps[p] == init[p] && steps[|init|] == last;
        ChangedByMore(NewTable(j, address, start), Changes(init, j), last);
        MoreInOrder(Changes(init, j), start, last);
      }
    }
  }

  /** In every reachable network, if the clock of a node never ran backward, its window for a peer holds the gaps
      between its latest news of that peer, and they add up to the time from some earlier news to when the peer was
      last seen. */
  lemma NetworkWindowsReachBack<N(!new)>(steps: seq<Step<N>>, j: N, id: N) returns (address: nat, start: nat)
    requires After(steps).Some? && ClockInOrder(steps, j)
    requires j in After(steps).value.tables && id in After(steps).value.tables[j].detectors
    ensures var table := After(steps).value.tables[j];
            var arrivals := Arrivals(NewTable(j, address, start), Changes(steps, j), id);
            && table == ChangedBy(NewTable(j, address, start), Changes(steps, j))
            && arrivals != []
            && id in table.entries && table.entries[id].lastSeen == Some(arrivals[|arrivals| - 1])
            && exists k: nat :: ReachesBack(table.detectors[id], arrivals, k)
  {
    address, start := TablesChangeInOrder(steps, j);
    WindowsReachBack(j, address, start, Changes(steps, j), id);
  }

  // ----- messages that commute

  /** The messages disagree about a node that the receiver does not know, one of them calling it dead. */
  ghost predicate StrangersClashAt<N>(t: Table<N>, m1: Entries<N>, m2: Entries<N>, id: N) {
    id !in t.entries && id in m1 && id in m2 && (StrangerClash(m1[id], m2[id]) || StrangerClash(m2[id], m1[id]))
  }

  /** In a reachable network two sent messages can be merged in either order, with the same counters and
      statuses, if and only if they do not clash about a node that the receiver does not know. */
  lemma SentMessagesCommuteIff<N(!new)>(
      steps: seq<Step<N>>, j: N, m1: Entries<N>, m2: Entries<N>, now1: nat, now2: nat)
    requires After(steps).Some?
    requires j in After(steps).value.tables && m1 in After(steps).value.sent && m2 in After(steps).value.sent
    ensures var t := After(steps).value.tables[j];
            (forall id :: SameRankAt(Merge(Merge(t, m1, now1), m2, now2), Merge(Merge(t, m2, now2), m1, now1), id))
            <==> (forall id :: !StrangersClashAt(t, m1, m2, id))
  {
    var net := After(steps).value;
    var t := net.tables[j];
    RunsKeepInv(steps);
    assert TableOk(net, j) && Modest(net, m1) && Modest(net, m2);
    forall id
      ensures ClashAt(t, m1, m2, id) <==> StrangersClashAt(t, m1, m2, id)
    {
      assert id in m1 ==> ModestClaim(net, m1, id);
      assert id in m2 ==> ModestClaim(net, m2, id);
    }
    MessagesCommuteIff(t, m1, m2, now1, now2);
  }
}
