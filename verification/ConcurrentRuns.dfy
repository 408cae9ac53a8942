/** What holds in every run of the concurrent store, whatever the interleaving. */
module ConcurrentRuns {
  import opened Collections
  import opened Stores
  import opened ConcurrentStores
  import opened ConcurrentSteps
  import Ledgers
  import Histories

  /** A run: any interleaving of thread steps and clock ticks. */
  ghost predicate IsRun<K, V>(run: seq<System<K, V>>) {
    run != [] && Init(run[0]) && forall i :: 0 <= i < |run| - 1 ==> Follows(run, i)
  }

  lemma {:induction false} RunHolds<K(!new), V>(run: seq<System<K, V>>, i: nat)
    requires IsRun(run) && i < |run|
    ensures Inv(run[i])
  {
    if i == 0 {
      InitHolds(run[0]);
    } else {
      RunHolds(run, i - 1);
      assert Follows(run, i - 1);
      NextHolds(run[i - 1], run[i]);
    }
  }

  // ----- what every interleaving keeps

  /** Whenever the policy lock is free, the policy tracks exactly the stored keys; and at every moment the
      store is within its capacity. */
  lemma PolicyAgreesWithData<K(!new), V>(run: seq<System<K, V>>, i: nat)
    requires IsRun(run) && i < |run|
    ensures |run[i].data| <= Max(run[i].capacity, 1)
    ensures run[i].policyLock.None? ==> run[i].policy.uses.Keys == run[i].data.Keys
  {
    RunHolds(run, i);
    var s := run[i];
    assert s.writer.Some? ==> LocksAt(s, s.writer.value);
    if s.policyLock.None? {
      forall k
        ensures k in s.policy.uses.Keys <==> k in s.data.Keys
      {
        assert AgreeOn(s, k);
      }
    }
  }

  /** A key is inserted into the policy only when it is not tracked, as the policies require, and there is
      room for it; and the policy that is asked for a victim is a lawful one. */
  lemma PolicyIsCalledLawfully<K(!new), V>(run: seq<System<K, V>>, i: nat, t: nat)
    requires IsRun(run) && i < |run| && t < |run[i].threads|
    ensures Ledgers.ValidLedger(run[i].policy)
    ensures var s, k := run[i], run[i].threads[t].op.key;
            s.threads[t].place.Roomy? && k !in s.data ==>
              k !in s.policy.uses && |s.data| + 1 <= Max(s.capacity, 1)
  {
    RunHolds(run, i);
    InsertionIsLawful(run[i], t);
  }

  // ----- answers and changes

  /** What the record says of a finished operation. A get returned what the last change of its key up to a position
      of the log left, unless that had expired at its reading of the clock; a set or delete made its own change
      there; all between the call and now. */
  lemma AnswersAreOnRecord<K(!new), V>(run: seq<System<K, V>>, i: nat, t: nat)
    requires IsRun(run) && i < |run| && t < |run[i].threads| && run[i].threads[t].place.Done?
    ensures t < |run[0].threads| && run[i].threads[t].op == run[0].threads[t].op
    ensures var s, th, answer := run[i], run[i].threads[t], run[i].threads[t].place.answer;
            match th.op
            case Get(k) =>
              && answer.Looked?
              && th.since <= answer.sight.at <= |s.log| && th.called <= answer.sight.time <= s.now
              && var e := LastOf(s.log[..answer.sight.at], k);
                 answer.returned
                 == if e.Some? && !Expired(e.value, answer.sight.time) then Some(e.value.value) else None
            case Set(k, v, ttl) =>
              answer.Changed? && th.since <= answer.at < |s.log|
              && s.log[answer.at] == Stored(k, Entry(v, Deadline(ttl, th.called)), t)
            case Delete(k) =>
              answer.Changed? && th.since <= answer.at < |s.log| && s.log[answer.at] == Removed(k, t, Deleted)
  {
    RunHolds(run, i);
    assert SightsAt(run[i], t);
    OperationsStay(run, i);
  }

  /** Every change has an author that asked for it, since its call: a store is a set's, a removal a delete's, a
      lookup's that saw the entry expired, or a set's whose new key found the store full. */
  lemma EveryChangeHasAuthor<K(!new), V>(run: seq<System<K, V>>, i: nat, j: nat)
    requires IsRun(run) && i < |run| && j < |run[i].log|
    ensures var s, ev := run[i], run[i].log[j];
            && ev.author < |s.threads| && s.threads[ev.author].since <= j
            && var th := s.threads[ev.author];
               match ev
               case Stored(k, e, _) =>
                 th.op.Set? && th.op.key == k && e == Entry(th.op.value, Deadline(th.op.ttl, th.called))
               case Removed(k, _, Deleted) => th.op == Delete(k)
               case Removed(k, _, Cleaned(sight)) =>
                 && th.op == Get(k) && th.since <= sight.at <= j && sight.entry.Some?
                 && LastOf(s.log[..sight.at], k) == sight.entry && Expired(sight.entry.value, sight.time)
               case Removed(v, _, GivenUp(_)) =>
                 && th.op.Set? && |DataAfter(s.log[..j])| >= s.capacity
                 && th.op.key !in DataAfter(s.log[..j]) && v in DataAfter(s.log[..j])
  {
    RunHolds(run, i);
    assert AuthorOf(run[i], j);
  }

  /** No operation makes two changes, except that a set may evict one key before it stores its own; so finished
      sets and deletes own different changes. */
  lemma ChangesAreMadeOnce<K(!new), V>(run: seq<System<K, V>>, i: nat, j1: nat, j2: nat)
    requires IsRun(run) && i < |run| && j1 < j2 < |run[i].log|
    requires run[i].log[j1].author == run[i].log[j2].author
    ensures IsEviction(run[i].log[j1]) && run[i].log[j2].Stored?
  {
    RunHolds(run, i);
    assert Once(run[i], j1, j2);
  }

  /** A concurrent eviction takes, of all keys stored at that moment, the one that the policy calls made so far, in
      the order of the policy lock, say: the oldest insertion, the oldest use, or the rarest use with the oldest
      first. */
  lemma EvictionsFollowCalls<K(!new), V>(run: seq<System<K, V>>, i: nat, j: nat)
    requires IsRun(run) && i < |run| && j < |run[i].log| && IsEviction(run[i].log[j])
    ensures var s, asked := run[i], run[i].log[j].why.asked;
            && asked < |s.calls| && s.calls[asked] == Histories.EvictCall
            && var earlier, stored := s.calls[..asked], DataAfter(s.log[..j]);
               && Histories.Run(s.kind, earlier).Some?
               && Histories.Run(s.kind, earlier).value.uses.Keys == stored.Keys
               && s.log[j].key in stored
               && forall k :: k in stored && k != s.log[j].key ==>
                    Histories.GoesFirst(s.kind, earlier, s.log[j].key, k)
  {
    RunHolds(run, i);
    assert AuthorOf(run[i], j);
    var earlier := run[i].calls[..run[i].log[j].why.asked];
    Histories.EvictsByHistory(run[i].kind, earlier);
    assert forall k :: k in Histories.Run(run[i].kind, earlier).value.uses.Keys <==> k in DataAfter(run[i].log[..j]);
  }

  /** Evictions reach the data in the order in which the policy was asked, each for a call of its own. */
  lemma EvictionsKeepOrder<K(!new), V>(run: seq<System<K, V>>, i: nat, j1: nat, j2: nat)
    requires IsRun(run) && i < |run| && j1 < j2 < |run[i].log|
    requires IsEviction(run[i].log[j1]) && IsEviction(run[i].log[j2])
    ensures run[i].log[j1].why.asked < run[i].log[j2].why.asked
  {
    RunHolds(run, i);
    assert Once(run[i], j1, j2);
  }

  /** No event on `k` from position `at` of the log on. */
  ghost predicate QuietSince<K, V>(log: seq<Event<K, V>>, at: nat, k: K) {
    forall i :: at <= i < |log| ==> log[i].key != k
  }

  /** Event `i` stored `k`, and nothing has happened to `k` since. */
  ghost predicate LastStore<K, V>(log: seq<Event<K, V>>, i: nat, k: K)
    requires i < |log|
  {
    log[i].Stored? && log[i].key == k && QuietSince(log, i + 1, k)
  }

  lemma {:induction false} LastStoreExists<K, V>(log: seq<Event<K, V>>, k: K) returns (j: nat)
    requires LastOf(log, k).Some?
    ensures j < |log| && LastStore(log, j, k) && LastOf(log, k) == Some(log[j].entry)
  {
    var last := |log| - 1;
    if log[last].key == k {
      j := last;
    } else {
      j := LastStoreExists(log[..last], k);
    }
  }

  lemma {:induction false} LastStoreTells<K, V>(log: seq<Event<K, V>>, k: K, j: nat)
    requires j < |log| && LastStore(log, j, k)
    ensures LastOf(log, k) == Some(log[j].entry)
  {
    var last := |log| - 1;
    if j < last {
      assert log[last].key != k;
      LastStoreTells(log[..last], k, j);
    }
  }

  lemma {:induction false} OperationsStay<K(!new), V>(run: seq<System<K, V>>, i: nat)
    requires IsRun(run) && i < |run|
    ensures |run[i].threads| == |run[0].threads|
    ensures forall t :: 0 <= t < |run[0].threads| ==> run[i].threads[t].op == run[0].threads[t].op
  {
    if i > 0 {
      OperationsStay(run, i - 1);
      assert Follows(run, i - 1);
      NextKeepsOperations(run[i - 1], run[i]);
    }
  }

  lemma NextKeepsOperations<K, V>(s: System<K, V>, s': System<K, V>)
    requires Next(s, s')
    ensures |s'.threads| == |s.threads|
    ensures forall t :: 0 <= t < |s.threads| ==> s'.threads[t].op == s.threads[t].op
  {
    if !Tick(s, s') {
      var t: nat :| t < |s.threads| && Step(s, s', t);
      StepMovesOneThread(s, s', t);
    }
  }

  /** The data are at every moment what the logged changes add up to. */
  lemma LogTellsData<K(!new), V>(run: seq<System<K, V>>, i: nat, k: K)
    requires IsRun(run) && i < |run|
    ensures LastOf(run[i].log, k) == if k in run[i].data then Some(run[i].data[k]) else None
  {
    RunHolds(run, i);
  }
}
