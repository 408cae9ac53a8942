/** Two messages that were really sent and do not commute: a run in which one node gives up on another while
    a third has heard of neither. */
module GossipClashes {
  import opened Collections
  import opened Detectors
  import opened Memberships
  import opened MergeLaws
  import opened GossipNetworks

  lemma OneStepMore<N>(steps: seq<Step<N>>, step: Step<N>)
    requires After(steps).Some? && Enabled(After(steps).value, step)
    ensures After(steps + [step]) == Some(Do(After(steps).value, step))
  {
    assert (steps + [step])[..|steps|] == steps;
  }

  /** What the watcher has on a node that it has heard from once every nanosecond. */
  ghost predicate Watched<N>(t: Table<N>, x: N, beats: nat) {
    if beats == 0 then x !in t.entries && x !in t.detectors
    else
      && x in t.entries && t.entries[x].status == Alive
      && t.entries[x].heartbeatCounter == beats + 1 && t.entries[x].lastSeen == Some(beats)
      && x in t.detectors && t.detectors[x] == Window(seq(beats - 1, _ => 1), Some(beats))
  }

  /** Node `x` has gossiped `beats` times, each time heard by the watcher, and never by the stranger. */
  ghost predicate Heard<N>(net: Network<N>, watcher: N, stranger: N, x: N, beats: nat) {
    && watcher in net.tables && stranger in net.tables && x in net.tables
    && net.tables[watcher].localId == watcher && net.tables[x].localId == x
    && net.tables[stranger].localId == stranger
    && Watched(net.tables[watcher], x, beats)
    && x !in net.tables[stranger].entries
    && x in net.tables[x].entries && net.tables[x].entries[x].status == Alive
    && net.tables[x].entries[x].heartbeatCounter == beats + 1
    && (beats > 0 ==> exists m :: m in net.sent && SaysAlive(m, x, beats))
  }

  ghost predicate SaysAlive<N>(m: Entries<N>, x: N, beats: nat) {
    x in m && m[x].status == Alive && m[x].heartbeatCounter == beats + 1
  }

  lemma WatchOnce<N>(t: Table<N>, m: Entries<N>, x: N, beats: nat)
    requires Watched(t, x, beats) && x != t.localId && SaysAlive(m, x, beats + 1) && beats < MAX_SAMPLES
    ensures Watched(Merge(t, m, beats + 1), x, beats + 1)
  {
    MergeTakesNews(t, m, x, beats + 1);
    assert beats > 0 ==> seq(beats - 1, _ => 1) + [1] == seq(beats, _ => 1);
  }

  /** One more heartbeat, heard by the watcher a nanosecond after the one before. */
  lemma BeatOnce<N>(net: Network<N>, watcher: N, stranger: N, x: N, beats: nat, score: Score)
    requires Heard(net, watcher, stranger, x, beats) && x != watcher && x != stranger && stranger != watcher
    requires beats < MAX_SAMPLES
    ensures var gossip := Gossip(x, beats + 1, score);
            && Enabled(net, gossip)
            && var m := Snapshot(TableAfter(net, gossip));
            && Enabled(Do(net, gossip), Deliver(watcher, m, beats + 1))
            && Heard(Do(Do(net, gossip), Deliver(watcher, m, beats + 1)), watcher, stranger, x, beats + 1)
  {
    var gossip := Gossip(x, beats + 1, score);
    var t := TableAfter(net, gossip);
    var m := Snapshot(t);
    assert SaysAlive(m, x, beats + 1);
    WatchOnce(net.tables[watcher], m, x, beats);
    var after := Do(Do(net, gossip), Deliver(watcher, m, beats + 1));
    assert m in after.sent;
  }

  lemma StartThree<N>(watcher: N, stranger: N, x: N) returns (steps: seq<Step<N>>)
    requires x != watcher && x != stranger && stranger != watcher
    ensures After(steps).Some? && Heard(After(steps).value, watcher, stranger, x, 0)
  {
    steps := [];
    var watch, strange, start := Spawn(watcher, 0, 0), Spawn(stranger, 1, 0), Spawn(x, 2, 0);
    OneStepMore(steps, watch);
    OneStepMore(steps + [watch], strange);
    OneStepMore(steps + [watch] + [strange], start);
    steps := steps + [watch] + [strange] + [start];
  }

  lemma {:induction false} Beats<N>(watcher: N, stranger: N, x: N, beats: nat, score: Score)
    returns (steps: seq<Step<N>>)
    requires x != watcher && x != stranger && stranger != watcher && beats <= MAX_SAMPLES
    ensures After(steps).Some? && Heard(After(steps).value, watcher, stranger, x, beats)
  {
    if beats == 0 {
      steps := StartThree(watcher, stranger, x);
    } else {
      steps := Beats(watcher, stranger, x, beats - 1, score);
      var net := After(steps).value;
      BeatOnce(net, watcher, stranger, x, beats - 1, score);
      var gossip := Gossip(x, beats, score);
      var m := Snapshot(TableAfter(net, gossip));
      OneStepMore(steps, gossip);
      OneStepMore(steps + [gossip], Deliver(watcher, m, beats));
      steps := steps + [gossip] + [Deliver(watcher, m, beats)];
    }
  }

  /** What the clash needs to know of the functions that phi is made of, and what is true of the real ones. */
  ghost predicate Realistic(score: Score) {
    && score.sqrt(0.0) == 0.0
    && (forall y :: y >= 40.0 ==> 1.0 - score.normalCdf(y) <= MIN_PROBABILITY)
    && score.log10(MIN_PROBABILITY) == -100.0
  }

  const LONG_SILENCE := 3000000000

  /** Six regular heartbeats and then a long silence are suspicious. */
  lemma SilenceIsSuspicious(score: Score)
    requires Realistic(score)
    ensures Phi(Window(seq(5, _ => 1), Some(6)), 6 + LONG_SILENCE, score) > PHI_THRESHOLD
  {
    var s: seq<nat> := seq(5, _ => 1);
    assert s == [1, 1, 1, 1, 1];
    RegularWindow();
    var y := (LONG_SILENCE as real - 1.0) / MIN_STD_DEV;
    assert y >= 40.0;
    assert Phi(Window(s, Some(6)), 6 + LONG_SILENCE, score) == 100.0;
  }

  lemma RegularWindow()
    ensures Mean([1, 1, 1, 1, 1]) == 1.0 && Variance([1, 1, 1, 1, 1]) == 0.0
  {
    var s1, s2, s3, s4, s5: seq<nat> := [1], [1, 1], [1, 1, 1], [1, 1, 1, 1], [1, 1, 1, 1, 1];
    assert s2[..1] == s1 && s3[..2] == s2 && s4[..3] == s3 && s5[..4] == s4;
    assert Total(s5) == 5.0;
    assert SquaredDeviations(s5, 1.0) == 0.0;
  }

  /** After the silence the watcher gives `x` up, and says so. */
  lemma WatcherGivesUp<N>(net: Network<N>, watcher: N, stranger: N, x: N, score: Score)
    requires Heard(net, watcher, stranger, x, 6) && x != watcher && Realistic(score)
    ensures var m := Snapshot(TableAfter(net, Gossip(watcher, 6 + LONG_SILENCE, score)));
            x in m && m[x].status == Dead && m[x].heartbeatCounter == 7
  {
    SilenceIsSuspicious(score);
    var t := UpdateHeartbeat(net.tables[watcher]);
    assert Watched(t, x, 6);
    ChecksDecide(t, x, 6 + LONG_SILENCE, PHI_THRESHOLD, DEAD_TIMEOUT, score);
  }

  lemma StrangerIsTorn<N>(t: Table<N>, m1: Entries<N>, m2: Entries<N>, x: N, now1: nat, now2: nat)
    requires x !in t.entries && x != t.localId && SaysAlive(m2, x, 6)
    requires x in m1 && m1[x].status == Dead && m1[x].heartbeatCounter == 7
    ensures !SameRankAt(Merge(Merge(t, m1, now1), m2, now2), Merge(Merge(t, m2, now2), m1, now1), x)
  {
    MergeAt(t, m1, now1, x);
    MergeAt(t, m2, now2, x);
    MergeAt(Merge(t, m1, now1), m2, now2, x);
    MergeAt(Merge(t, m2, now2), m1, now1, x);
  }

  /** There are runs in which two sent messages leave different tables in the two orders: the watcher calls `x`
      dead, an earlier message of `x` itself says it is alive, and the stranger hears both. */
  lemma SentMessagesCanClash<N(!new)>(watcher: N, stranger: N, x: N, score: Score, now1: nat, now2: nat)
    returns (steps: seq<Step<N>>, m1: Entries<N>, m2: Entries<N>)
    requires x != watcher && x != stranger && stranger != watcher && Realistic(score)
    ensures After(steps).Some?
    ensures var net := After(steps).value;
            && stranger in net.tables && m1 in net.sent && m2 in net.sent
            && var t := net.tables[stranger];
               !SameRankAt(Merge(Merge(t, m1, now1), m2, now2), Merge(Merge(t, m2, now2), m1, now1), x)
  {
    var beats := Beats(watcher, stranger, x, 6, score);
    var net := After(beats).value;
    m2 :| m2 in net.sent && SaysAlive(m2, x, 6);
    var gossip := Gossip(watcher, 6 + LONG_SILENCE, score);
    OneStepMore(beats, gossip);
    WatcherGivesUp(net, watcher, stranger, x, score);
    m1 := Snapshot(TableAfter(net, gossip));
    steps := beats + [gossip];
    StrangerIsTorn(net.tables[stranger], m1, m2, x, now1, now2);
  }
}
