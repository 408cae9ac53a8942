/** The algebra of merging: a join on what is known, idempotent, and commutative exactly when two kinds of
    clash are absent; and what every change of a table keeps. */
module MergeLaws {
  import opened Collections
  import opened Detectors
  import opened Memberships

  function Severity(s: NodeStatus): nat {
    match s
    case Alive => 0
    case Suspected => 1
    case Dead => 2
  }

  /** The counter first, then the severity of the status. */
  predicate AtLeast(a: NodeState, b: NodeState) {
    || a.heartbeatCounter > b.heartbeatCounter
    || (a.heartbeatCounter == b.heartbeatCounter && Severity(a.status) >= Severity(b.status))
  }

  /** What is known of a known peer after a merge is the least state that covers both the old state and the claim. */
  lemma MergeIsJoin<N>(t: Table<N>, claims: Entries<N>, id: N, now: nat, bound: NodeState)
    requires id != t.localId && id in t.entries && id in claims
    ensures id in Merge(t, claims, now).entries
    ensures var after := Merge(t, claims, now).entries[id];
            && AtLeast(after, t.entries[id]) && AtLeast(after, claims[id])
            && (AtLeast(bound, t.entries[id]) && AtLeast(bound, claims[id]) ==> AtLeast(bound, after))
  {
    MergeAt(t, claims, now, id);
  }

  /** A claim about another node is news if it is about an unknown node that is not dead, or has a larger
      counter than the known entry. */
  predicate IsNews<N>(t: Table<N>, claims: Entries<N>, id: N) {
    && id != t.localId && id in claims
    && (if id in t.entries then claims[id].heartbeatCounter > t.entries[id].heartbeatCounter
        else claims[id].status != Dead)
  }

  /** What a merge takes over, and when: news is taken whole, as seen now, and the node's detector records an
      arrival. Any other claim changes at most the status. */
  lemma MergeTakesNews<N>(t: Table<N>, claims: Entries<N>, id: N, now: nat)
    requires id != t.localId
    ensures var after, news := Merge(t, claims, now), IsNews(t, claims, id);
            && (id in after.entries <==> id in t.entries || news)
            && (news ==>
                  && after.entries[id] == claims[id].(lastSeen := Some(now))
                  && (id !in t.entries ==> id in after.detectors && after.detectors[id] == Received(Fresh, now))
                  && (id in t.entries && id in t.detectors ==>
                        id in after.detectors && after.detectors[id] == Received(t.detectors[id], now)))
            && (!news ==> Lookup(after.detectors, id) == Lookup(t.detectors, id))
            && (!news && id in t.entries ==> after.entries[id] == t.entries[id].(status := after.entries[id].status))
            && (id in t.entries && id !in claims ==> after.entries[id] == t.entries[id])
  {
    MergeAt(t, claims, now, id);
  }

  /** Hearing the same message again changes nothing: no counter, status, address, time or window. */
  lemma MergeIsIdempotent<N(!new)>(t: Table<N>, claims: Entries<N>, now: nat, later: nat)
    ensures Merge(Merge(t, claims, now), claims, later) == Merge(t, claims, now)
  {
    var u := Merge(t, claims, now);
    forall id
      ensures Lookup(u.entries, id) == EntryAfter(u, claims, id, later)
      ensures Lookup(u.detectors, id) == DetectorAfter(u, claims, id, later)
    {
      MergeAt(t, claims, now, id);
      TwiceIsOnce(id == t.localId, Lookup(t.entries, id), Lookup(t.detectors, id), Lookup(claims, id), now, later);
    }
    IsMerge(u, u, claims, later);
  }

  lemma TwiceIsOnce(
      own: bool, entry: Option<NodeState>, detector: Option<Window>, claim: Option<NodeState>, now: nat, later: nat)
    ensures var e, d := EntryOf(own, entry, claim, now), DetectorOf(own, entry, detector, claim, now);
            EntryOf(own, e, claim, later) == e && DetectorOf(own, e, d, claim, later) == d
  {
  }

  // ----- commuting

  /** What two tables must agree on: the counter and the status. */
  function Rank(e: Option<NodeState>): Option<(nat, NodeStatus)> {
    if e.None? then None else Some((e.value.heartbeatCounter, e.value.status))
  }

  /** One claim about this node is current and the other is one ahead of it, and both call it not alive. */
  predicate SelfClash(own: NodeState, c1: NodeState, c2: NodeState) {
    c1.status != Alive && c2.status != Alive
    && c1.heartbeatCounter == own.heartbeatCounter && c2.heartbeatCounter == own.heartbeatCounter + 1
  }

  /** One claim calls an unknown node dead, and the other does not and is no newer. */
  predicate StrangerClash(c1: NodeState, c2: NodeState) {
    c1.status == Dead && c2.status != Dead && c1.heartbeatCounter >= c2.heartbeatCounter
  }

  predicate Clash(own: bool, entry: Option<NodeState>, c1: Option<NodeState>, c2: Option<NodeState>) {
    && c1.Some? && c2.Some?
    && (if entry.Some? then
          own && (SelfClash(entry.value, c1.value, c2.value) || SelfClash(entry.value, c2.value, c1.value))
        else !own && (StrangerClash(c1.value, c2.value) || StrangerClash(c2.value, c1.value)))
  }

  lemma OrderMattersIffClash(
      own: bool, entry: Option<NodeState>, c1: Option<NodeState>, c2: Option<NodeState>, now1: nat, now2: nat)
    ensures Rank(EntryOf(own, EntryOf(own, entry, c1, now1), c2, now2))
            == Rank(EntryOf(own, EntryOf(own, entry, c2, now2), c1, now1))
            <==> !Clash(own, entry, c1, c2)
  {
  }

  ghost predicate ClashAt<N>(t: Table<N>, m1: Entries<N>, m2: Entries<N>, id: N) {
    Clash(id == t.localId, Lookup(t.entries, id), Lookup(m1, id), Lookup(m2, id))
  }

  ghost predicate SameRankAt<N>(t: Table<N>, u: Table<N>, id: N) {
    Rank(Lookup(t.entries, id)) == Rank(Lookup(u.entries, id))
  }

  /** Two messages commute on every counter and status if and only if they clash on no node. */
  lemma MessagesCommuteIff<N(!new)>(t: Table<N>, m1: Entries<N>, m2: Entries<N>, now1: nat, now2: nat)
    ensures var t12, t21 := Merge(Merge(t, m1, now1), m2, now2), Merge(Merge(t, m2, now2), m1, now1);
            (forall id :: SameRankAt(t12, t21, id)) <==> (forall id :: !ClashAt(t, m1, m2, id))
  {
    var t1, t2 := Merge(t, m1, now1), Merge(t, m2, now2);
    var t12, t21 := Merge(t1, m2, now2), Merge(t2, m1, now1);
    forall id
      ensures SameRankAt(t12, t21, id) <==> !ClashAt(t, m1, m2, id)
    {
      MergeAt(t, m1, now1, id);
      MergeAt(t, m2, now2, id);
      MergeAt(t1, m2, now2, id);
      MergeAt(t2, m1, now1, id);
      OrderMattersIffClash(id == t.localId, Lookup(t.entries, id), Lookup(m1, id), Lookup(m2, id), now1, now2);
    }
  }

  // ----- what every change of a table keeps

  datatype Change<N> =
    | Beat
    | Hear(claims: Entries<N>, now: nat)
    | Check(now: nat, threshold: real, timeout: nat, score: Score)

  function Changed<N>(t: Table<N>, c: Change<N>): Table<N> {
    match c
    case Beat => UpdateHeartbeat(t)
    case Hear(claims, now) => Merge(t, claims, now)
    case Check(now, threshold, timeout, score) => CheckFailures(t, now, threshold, timeout, score)
  }

  function ChangedBy<N>(t: Table<N>, cs: seq<Change<N>>): Table<N> {
    if cs == [] then t else Changed(ChangedBy(t, cs[..|cs| - 1]), cs[|cs| - 1])
  }

  ghost predicate GrownAt<N>(t: Table<N>, u: Table<N>, id: N)
    requires id in t.entries
  {
    id in u.entries && AtLeast(u.entries[id], t.entries[id])
  }

  /** No node is forgotten, and no counter and status falls. */
  ghost predicate Grown<N>(t: Table<N>, u: Table<N>) {
    u.localId == t.localId && forall id {:trigger GrownAt(t, u, id)} :: id in t.entries ==> GrownAt(t, u, id)
  }

  lemma ChangeGrows<N>(t: Table<N>, c: Change<N>)
    ensures Grown(t, Changed(t, c))
  {
    forall id | id in t.entries
      ensures GrownAt(t, Changed(t, c), id)
    {
      if c.Hear? {
        MergeAt(t, c.claims, c.now, id);
      }
    }
  }

  /** Status is reversible only by evidence: over any changes, an entry that has become less severe has a
      strictly larger counter. */
  lemma {:induction false} ChangesGrow<N>(t: Table<N>, cs: seq<Change<N>>, id: N)
    requires id in t.entries
    ensures id in ChangedBy(t, cs).entries && ChangedBy(t, cs).localId == t.localId
    ensures AtLeast(ChangedBy(t, cs).entries[id], t.entries[id])
    ensures var before, after := t.entries[id], ChangedBy(t, cs).entries[id];
            Severity(after.status) < Severity(before.status) ==> after.heartbeatCounter > before.heartbeatCounter
  {
    if cs != [] {
      var u := ChangedBy(t, cs[..|cs| - 1]);
      ChangesGrow(t, cs[..|cs| - 1], id);
      ChangeGrows(u, cs[|cs| - 1]);
      assert GrownAt(u, ChangedBy(t, cs), id);
    }
  }

  /** No change moves the node itself, or touches when it was started: its own entry keeps address and time. */
  lemma {:induction false} ChangesKeepOwnPlace<N>(t: Table<N>, cs: seq<Change<N>>)
    requires t.localId in t.entries
    ensures var own := ChangedBy(t, cs);
            && own.localId == t.localId && t.localId in own.entries
            && own.entries[t.localId].address == t.entries[t.localId].address
            && own.entries[t.localId].lastSeen == t.entries[t.localId].lastSeen
  {
    if cs != [] {
      var before, c := ChangedBy(t, cs[..|cs| - 1]), cs[|cs| - 1];
      ChangesKeepOwnPlace(t, cs[..|cs| - 1]);
      if c.Hear? {
        MergeAt(before, c.claims, c.now, t.localId);
      }
    }
  }

  // ----- entries and detectors

  /** The node itself is alive and has no detector; every other entry has one that was last fed when the
      entry was last seen. */
  ghost predicate CoupledAt<N>(t: Table<N>, id: N) {
    if id == t.localId then id in t.entries && t.entries[id].status == Alive && id !in t.detectors
    else
      && (id in t.entries <==> id in t.detectors)
      && (id in t.entries ==> t.detectors[id].lastArrival == t.entries[id].lastSeen && t.entries[id].lastSeen.Some?)
  }

  ghost predicate Coupled<N(!new)>(t: Table<N>) {
    forall id :: CoupledAt(t, id)
  }

  lemma ChangeKeepsCoupled<N(!new)>(t: Table<N>, c: Change<N>)
    requires Coupled(t)
    ensures Coupled(Changed(t, c))
  {
    forall id
      ensures CoupledAt(Changed(t, c), id)
    {
      assert CoupledAt(t, id);
      if c.Hear? {
        MergeAt(t, c.claims, c.now, id);
      }
    }
  }

  /** In every table that a node can come to, on whatever clock, entries and detectors are coupled. */
  lemma {:induction false} TablesStayCoupled<N(!new)>(localId: N, address: nat, start: nat, cs: seq<Change<N>>)
    ensures Coupled(ChangedBy(NewTable(localId, address, start), cs))
  {
    var t := NewTable(localId, address, start);
    if cs == [] {
      forall id
        ensures CoupledAt(t, id)
      {
      }
    } else {
      TablesStayCoupled(localId, address, start, cs[..|cs| - 1]);
      ChangeKeepsCoupled(ChangedBy(t, cs[..|cs| - 1]), cs[|cs| - 1]);
    }
  }

  /** The times at which the table heard news about a node. */
  function Arrivals<N>(t: Table<N>, cs: seq<Change<N>>, id: N): seq<nat> {
    if cs == [] then []
    else
      var before, c := ChangedBy(t, cs[..|cs| - 1]), cs[|cs| - 1];
      var earlier := Arrivals(t, cs[..|cs| - 1], id);
      if c.Hear? && IsNews(before, c.claims, id) then earlier + [c.now] else earlier
  }

  /** What the times at which a node was news say about its entry and its detector. */
  ghost predicate ArrivedAt<N>(t: Table<N>, arrivals: seq<nat>, id: N) {
    if arrivals == [] then id !in t.detectors && (id in t.entries <==> id == t.localId)
    else
      && id in t.detectors && t.detectors[id] == Replay(arrivals)
      && id in t.entries && t.entries[id].lastSeen == Some(arrivals[|arrivals| - 1])
  }

  lemma ChangeArrives<N(!new)>(t: Table<N>, c: Change<N>, arrivals: seq<nat>, id: N)
    requires Coupled(t) && ArrivedAt(t, arrivals, id) && (id == t.localId ==> arrivals == [])
    ensures ArrivedAt(Changed(t, c), if c.Hear? && IsNews(t, c.claims, id) then arrivals + [c.now] else arrivals, id)
  {
    assert CoupledAt(t, id);
    if c.Hear? {
      var more := arrivals + [c.now];
      assert more[..|more| - 1] == arrivals;
      MergeAt(t, c.claims, c.now, id);
    }
  }

  /** A detector is fed exactly when its node is news: on whatever clock, it is the replay of those times. */
  lemma {:induction false} DetectorsReplayArrivals<N(!new)>(
      localId: N, address: nat, start: nat, cs: seq<Change<N>>, id: N)
    ensures var t := NewTable(localId, address, start);
            && ArrivedAt(ChangedBy(t, cs), Arrivals(t, cs, id), id)
            && ChangedBy(t, cs).localId == localId
            && (id == localId ==> Arrivals(t, cs, id) == [])
  {
    if cs != [] {
      var t := NewTable(localId, address, start);
      DetectorsReplayArrivals(localId, address, start, cs[..|cs| - 1], id);
      TablesStayCoupled(localId, address, start, cs[..|cs| - 1]);
      ChangeArrives(ChangedBy(t, cs[..|cs| - 1]), cs[|cs| - 1], Arrivals(t, cs[..|cs| - 1], id), id);
    }
  }

  function TimeOf<N>(c: Change<N>, before: nat): nat {
    match c
    case Beat => before
    case Hear(_, now) => now
    case Check(now, _, _, _) => now
  }

  /** The clock reading of the last timed change. */
  function TimeAfter<N>(cs: seq<Change<N>>, start: nat): nat {
    if cs == [] then start else TimeOf(cs[|cs| - 1], TimeAfter(cs[..|cs| - 1], start))
  }

  /** The clock never runs backward. */
  predicate InOrder<N>(cs: seq<Change<N>>, start: nat) {
    cs == [] || (InOrder(cs[..|cs| - 1], start) && TimeAfter(cs[..|cs| - 1], start) <= TimeAfter(cs, start))
  }

  lemma {:induction false} ArrivalsInOrder<N>(t: Table<N>, start: nat, cs: seq<Change<N>>, id: N)
    requires InOrder(cs, start)
    ensures NonDecreasing(Arrivals(t, cs, id))
    ensures forall time :: time in Arrivals(t, cs, id) ==> time <= TimeAfter(cs, start)
  {
    if cs != [] {
      ArrivalsInOrder(t, start, cs[..|cs| - 1], id);
      var earlier := Arrivals(t, cs[..|cs| - 1], id);
      assert forall i :: 0 <= i < |earlier| ==> earlier[i] in earlier;
    }
  }

  /** On a clock that never runs backward, the window of a peer holds the gaps between its latest news, and they
      add up to the time from some earlier news of that peer to when it was last seen. */
  lemma WindowsReachBack<N(!new)>(localId: N, address: nat, start: nat, cs: seq<Change<N>>, id: N)
    requires InOrder(cs, start)
    requires id in ChangedBy(NewTable(localId, address, start), cs).detectors
    ensures var after := ChangedBy(NewTable(localId, address, start), cs);
            var arrivals := Arrivals(NewTable(localId, address, start), cs, id);
            && arrivals != []
            && id in after.entries && after.entries[id].lastSeen == Some(arrivals[|arrivals| - 1])
            && exists j: nat :: ReachesBack(after.detectors[id], arrivals, j)
  {
    var t := NewTable(localId, address, start);
    DetectorsReplayArrivals(localId, address, start, cs, id);
    ArrivalsInOrder(t, start, cs, id);
    WindowSpansTime(Arrivals(t, cs, id));
  }

  // ----- failure checks

  /** A check suspects a live peer exactly when phi is too high, which takes five samples or more if the threshold
      is not negative; it calls a suspect, old or new, dead exactly after a silence longer than the timeout. The
      node itself, the dead, and everything but the status stay as they are. */
  lemma ChecksDecide<N>(t: Table<N>, id: N, now: nat, threshold: real, timeout: nat, score: Score)
    requires id in t.entries
    ensures id in CheckFailures(t, now, threshold, timeout, score).entries
    ensures CheckFailures(t, now, threshold, timeout, score).detectors == t.detectors
    ensures var before, after := t.entries[id], CheckFailures(t, now, threshold, timeout, score).entries[id];
            var watched := id != t.localId && id in t.detectors;
            var tooHigh := watched && Phi(t.detectors[id], now, score) > threshold;
            var silent := before.lastSeen.Some? && now > before.lastSeen.value + timeout;
            && after == before.(status := after.status)
            && (after.status == Alive <==> before.status == Alive && !tooHigh)
            && (after.status == Dead <==>
                  before.status == Dead || (watched && silent && (before.status == Suspected || tooHigh)))
            && (tooHigh && threshold >= 0.0 ==>
                  |t.detectors[id].intervals| >= 5 && t.detectors[id].lastArrival.Some?)
  {
  }
}
