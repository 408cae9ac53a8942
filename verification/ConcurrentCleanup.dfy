/** A reader that sees an expired entry drops its lock before it removes the key, and does not look again.
    When exactly this removes a live entry, and a run in which it does. */
module ConcurrentCleanup {
  import opened Collections
  import opened Stores
  import Ledgers
  import opened ConcurrentStores
  import opened ConcurrentSteps
  import opened ConcurrentRuns

  /** What the log says of `k` was either so at `at`, or was stored since. */
  lemma {:induction false} LastOfSince<K, V>(log: seq<Event<K, V>>, at: nat, k: K)
    requires at <= |log|
    ensures QuietSince(log, at, k) ==> LastOf(log, k) == LastOf(log[..at], k)
    ensures !QuietSince(log, at, k) && LastOf(log, k).Some? ==>
              exists i: nat :: at <= i < |log| && LastStore(log, i, k) && LastOf(log, k) == Some(log[i].entry)
    ensures forall i: nat :: i < |log| && LastStore(log, i, k) ==> LastOf(log, k) == Some(log[i].entry)
  {
    if |log| > 0 {
      var last := |log| - 1;
      var before := log[..last];
      if at <= last {
        LastOfSince(before, at, k);
        assert before[..at] == log[..at];
      } else {
        LastOfSince(before, last, k);
        assert log[..at] == log;
      }
      if log[last].key != k {
        assert forall i: nat :: i < last ==> LastStore(log, i, k) == LastStore(before, i, k);
      } else if log[last].Stored? {
        assert LastStore(log, last, k);
      }
    }
  }

  /** Cleaning up is right when `k` was left alone since the read: the entry is still there and has expired.
      It removes a live entry exactly when, since the read, `k` was stored again with a deadline not yet
      passed and has been left alone after that. */
  lemma CleanupRemovesLiveEntryIff<K(!new), V>(run: seq<System<K, V>>, i: nat, t: nat)
    requires IsRun(run) && i < |run| && t < |run[i].threads|
    requires run[i].threads[t].place.Writing?
    requires run[i].threads[t].place.body.Erase? && run[i].threads[t].place.body.cause.Stale?
    ensures var s, k, sight := run[i], run[i].threads[t].op.key, run[i].threads[t].place.body.cause.sight;
            && sight.at <= |s.log|
            && (QuietSince(s.log, sight.at, k) ==>
                  k in s.data && Some(s.data[k]) == sight.entry && Expired(s.data[k], s.now))
            && (k in s.data && !Expired(s.data[k], s.now) <==>
                  exists j: nat :: sight.at <= j < |s.log| && LastStore(s.log, j, k) && !Expired(s.log[j].entry, s.now))
  {
    RunHolds(run, i);
    var s, k, sight := run[i], run[i].threads[t].op.key, run[i].threads[t].place.body.cause.sight;
    assert SightsAt(s, t);
    LastOfSince(s.log, sight.at, k);
  }

  // ----- the run

  /** Some steps and ticks lead from `s` to `s'`. */
  ghost predicate Reaches<K(!new), V(!new)>(s: System<K, V>, s': System<K, V>) {
    exists run :: Leads(run, s, s')
  }

  ghost predicate Leads<K, V>(run: seq<System<K, V>>, s: System<K, V>, s': System<K, V>) {
    && run != [] && run[0] == s && run[|run| - 1] == s'
    && forall i :: 0 <= i < |run| - 1 ==> Follows(run, i)
  }

  lemma ReachesMore<K(!new), V(!new)>(s: System<K, V>, m: System<K, V>, s': System<K, V>)
    requires Reaches(s, m) && Next(m, s')
    ensures Reaches(s, s')
  {
    var run :| Leads(run, s, m);
    var longer := run + [s'];
    forall i | 0 <= i < |longer| - 1
      ensures Follows(longer, i)
    {
      assert i < |run| - 1 ==> Follows(run, i);
    }
    assert Leads(longer, s, s');
  }

  lemma ReachesStep<K(!new), V(!new)>(s: System<K, V>, m: System<K, V>, s': System<K, V>, t: nat)
    requires Reaches(s, m) && t < |m.threads| && Step(m, s', t)
    ensures Reaches(s, s')
  {
    ReachesMore(s, m, s');
  }

  ghost predicate AllFree<K, V>(s: System<K, V>) {
    s.policyLock.None? && s.writer.None? && s.readers == {}
  }

  function Finished<K, V>(s: System<K, V>, t: nat, th: Thread<K, V>): System<K, V>
    requires t < |s.threads|
  {
    s.(threads := s.threads[t := th])
  }

  function Released<K, V>(s: System<K, V>, t: nat, answer: Answer<V>): System<K, V>
    requires t < |s.threads|
  {
    With(s.(writer := None, policyLock := None), t, Done(answer))
  }

  /** The end of every writer. */
  lemma LocksAreReleased<K(!new), V(!new)>(s0: System<K, V>, s: System<K, V>, t: nat, answer: Answer<V>)
    requires Reaches(s0, s) && t < |s.threads| && s.threads[t].place == Written(answer)
    ensures Reaches(s0, Released(s, t, answer))
  {
    var a := With(s.(writer := None), t, Unlocked(answer));
    var b := With(a.(policyLock := None), t, Done(answer));
    ReachesStep(s0, s, a, t);
    ReachesStep(s0, a, b, t);
    assert b == Released(s, t, answer);
  }

  /** The state after an undisturbed set that needs no eviction. */
  function AfterSet<K, V>(s: System<K, V>, t: nat, k: K, e: Entry<V>): System<K, V>
    requires t < |s.threads| && (k in s.data || k !in s.policy.uses)
  {
    Finished(AfterStore(AfterRecord(s, t, k), t, k, e), t,
             Thread(s.threads[t].op, |s.log|, s.now, Done(Changed(|s.log|))))
  }

  lemma SetUndisturbed<K(!new), V(!new)>(s0: System<K, V>, s: System<K, V>, t: nat, k: K, v: V, ttl: Option<nat>)
    requires Reaches(s0, s) && AllFree(s) && t < |s.threads|
    requires s.threads[t].op == Set(k, v, ttl) && s.threads[t].place.Idle?
    requires k in s.data || (|s.data| < s.capacity && k !in s.policy.uses)
    requires Ledgers.ValidLedger(s.policy)
    ensures Reaches(s0, AfterSet(s, t, k, Entry(v, Deadline(ttl, s.now))))
  {
    var e := Entry(v, Deadline(ttl, s.now));
    var a := s.(threads := s.threads[t := Begun(s, Set(k, v, ttl))]);
    var b := With(a.(policyLock := Some(t)), t, Owning(Assign(e)));
    var c := With(b.(writer := Some(t)), t, Writing(Assign(e)));
    ReachesStep(s0, s, a, t);
    ReachesStep(s0, a, b, t);
    ReachesStep(s0, b, c, t);
    ReachesStep(s0, c, With(c, t, Roomy(e)), t);
    SetBody(s0, s, With(c, t, Roomy(e)), t, k, e);
  }

  lemma SetBody<K(!new), V(!new)>(s0: System<K, V>, s: System<K, V>, d: System<K, V>, t: nat, k: K, e: Entry<V>)
    requires AllFree(s) && t < |s.threads| && Reaches(s0, d) && s.threads[t].op.key == k
    requires k in s.data || k !in s.policy.uses
    requires var roomy := Thread(s.threads[t].op, |s.log|, s.now, Roomy(e));
             d == Finished(s.(policyLock := Some(t), writer := Some(t)), t, roomy)
    ensures Reaches(s0, AfterSet(s, t, k, e))
  {
    var f := With(AfterRecord(d, t, k), t, Tracked(e));
    var g := With(AfterStore(f, t, k, e), t, Written(Changed(|f.log|)));
    ReachesStep(s0, d, f, t);
    ReachesStep(s0, f, g, t);
    LocksAreReleased(s0, g, t, Changed(|f.log|));
    assert Released(g, t, Changed(|f.log|)) == AfterSet(s, t, k, e);
  }

  /** The state after an undisturbed cleanup. */
  function AfterErase<K, V>(s: System<K, V>, t: nat, k: K, cause: Cause<V>): System<K, V>
    requires t < |s.threads|
  {
    With(AfterForget(AfterRemove(s, t, k, Why(cause)), t, k), t, Done(EraseAnswer(s, cause)))
  }

  lemma EraseUndisturbed<K(!new), V(!new)>(s0: System<K, V>, s: System<K, V>, t: nat, k: K, cause: Cause<V>)
    requires Reaches(s0, s) && AllFree(s) && t < |s.threads|
    requires s.threads[t].op.key == k && s.threads[t].place == Waiting(Erase(cause))
    ensures Reaches(s0, AfterErase(s, t, k, cause))
  {
    var b := With(s.(policyLock := Some(t)), t, Owning(Erase(cause)));
    var c := With(b.(writer := Some(t)), t, Writing(Erase(cause)));
    ReachesStep(s0, s, b, t);
    ReachesStep(s0, b, c, t);
    EraseBody(s0, s, c, t, k, cause);
  }

  lemma EraseBody<K(!new), V(!new)>(s0: System<K, V>, s: System<K, V>, c: System<K, V>, t: nat, k: K, cause: Cause<V>)
    requires AllFree(s) && t < |s.threads| && Reaches(s0, c) && s.threads[t].op.key == k
    requires c == With(s.(policyLock := Some(t), writer := Some(t)), t, Writing(Erase(cause)))
    ensures Reaches(s0, AfterErase(s, t, k, cause))
  {
    var answer := EraseAnswer(c, cause);
    var d := With(AfterRemove(c, t, k, Why(cause)), t, Erased(answer));
    var f := With(AfterForget(d, t, k), t, Written(answer));
    ReachesStep(s0, c, d, t);
    ReachesStep(s0, d, f, t);
    LocksAreReleased(s0, f, t, answer);
    assert Released(f, t, answer) == AfterErase(s, t, k, cause);
  }

  /** The state after a reader has found an expired entry and let go of its lock. */
  function AfterStaleRead<K, V>(s: System<K, V>, t: nat, k: K): System<K, V>
    requires t < |s.threads| && k in s.data
  {
    var sight := Sight(Some(s.data[k]), |s.log|, s.now);
    Finished(s, t, Thread(s.threads[t].op, |s.log|, s.now, Waiting(Erase(Stale(sight)))))
  }

  lemma ReadExpired<K(!new), V(!new)>(s0: System<K, V>, s: System<K, V>, t: nat, k: K)
    requires Reaches(s0, s) && AllFree(s) && t < |s.threads|
    requires s.threads[t].op == Get(k) && s.threads[t].place.Idle?
    requires k in s.data && Expired(s.data[k], s.now)
    ensures Reaches(s0, AfterStaleRead(s, t, k))
  {
    var a := s.(threads := s.threads[t := Begun(s, Get(k))]);
    var b := With(a.(readers := a.readers + {t}), t, Reading);
    ReachesStep(s0, s, a, t);
    ReachesStep(s0, a, b, t);
    ReadEnds(s0, s, b, t, k);
  }

  lemma ReadEnds<K(!new), V(!new)>(s0: System<K, V>, s: System<K, V>, b: System<K, V>, t: nat, k: K)
    requires AllFree(s) && t < |s.threads| && Reaches(s0, b) && s.threads[t].op == Get(k)
    requires k in s.data && Expired(s.data[k], s.now)
    requires b == Finished(s.(readers := s.readers + {t}), t, Thread(Get(k), |s.log|, s.now, Reading))
    ensures Reaches(s0, AfterStaleRead(s, t, k))
  {
    assert b.readers - {t} == s.readers;
    var c := With(b.(readers := b.readers - {t}), t, AfterRead(b, k));
    ReachesStep(s0, b, c, t);
    assert c == AfterStaleRead(s, t, k);
  }

  /** A live entry can vanish without a delete or an eviction: a set that expires at once, a lookup that
      sees it expired, and a lasting set that completes before the lookup cleans up. */
  lemma LiveEntryCanVanish<K(!new), V(!new)>(s0: System<K, V>, k: K, v: V, w: V)
    requires Init(s0) && s0.capacity >= 1 && |s0.threads| == 3
    requires s0.threads[0].op == Set(k, v, Some(0)) && s0.threads[1].op == Get(k) && s0.threads[2].op == Set(k, w, None)
    ensures exists s :: Reaches(s0, s) && k !in s.data
                        && |s.threads| == 3 && (forall t :: 0 <= t < 3 ==> s.threads[t].place.Done?)
                        && |s.log| == 3 && s.log[0] == Stored(k, Entry(v, Some(s0.now)), 0)
                        && s.log[1] == Stored(k, Entry(w, None), 2)
                        && s.log[2].Removed? && s.log[2].key == k && s.log[2].author == 1 && s.log[2].why.Cleaned?
  {
    assert Leads([s0], s0, s0);
    var s1 := StoreAndSeeExpired(s0, k, v);
    var s2 := StoreAgain(s0, s1, k, w);
    var cause := s2.threads[1].place.body.cause;
    EraseUndisturbed(s0, s2, 1, k, cause);
    assert AfterErase(s2, 1, k, cause).log == s2.log + [Removed(k, 1, Why(cause))];
  }

  /** The first set is over, and the lookup is about to clean up. */
  ghost predicate AboutToClean<K, V>(s: System<K, V>, k: K) {
    && AllFree(s) && |s.threads| == 3 && Ledgers.ValidLedger(s.policy) && k in s.data
    && s.threads[0].place.Done? && s.threads[1].op == Get(k)
    && s.threads[1].place.Waiting? && s.threads[1].place.body.Erase? && s.threads[1].place.body.cause.Stale?
  }

  lemma StoreAndSeeExpired<K(!new), V(!new)>(s0: System<K, V>, k: K, v: V) returns (s: System<K, V>)
    requires Init(s0) && Reaches(s0, s0) && s0.capacity >= 1 && |s0.threads| == 3
    requires s0.threads[0].op == Set(k, v, Some(0)) && s0.threads[1].op == Get(k)
    ensures Reaches(s0, s) && AboutToClean(s, k)
    ensures s.log == [Stored(k, Entry(v, Some(s0.now)), 0)] && s.threads[2] == s0.threads[2]
  {
    SetUndisturbed(s0, s0, 0, k, v, Some(0));
    var s1 := AfterSet(s0, 0, k, Entry(v, Some(s0.now)));
    Ledgers.InsertIsLawful(s0.policy, k);
    var s2 := s1.(now := s1.now + 1);
    ReachesMore(s0, s1, s2);
    ReadExpired(s0, s2, 1, k);
    s := AfterStaleRead(s2, 1, k);
  }

  lemma StoreAgain<K(!new), V(!new)>(s0: System<K, V>, s: System<K, V>, k: K, w: V) returns (s': System<K, V>)
    requires Reaches(s0, s) && AboutToClean(s, k) && s.threads[2].place.Idle? && s.threads[2].op == Set(k, w, None)
    ensures Reaches(s0, s') && AboutToClean(s', k) && s'.threads[2].place.Done?
    ensures s'.log == s.log + [Stored(k, Entry(w, None), 2)]
  {
    SetUndisturbed(s0, s, 2, k, w, None);
    s' := AfterSet(s, 2, k, Entry(w, None));
    Ledgers.AccessIsLawful(s.policy, k);
  }
}
