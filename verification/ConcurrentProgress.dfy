/** The concurrent store never deadlocks: the policy lock is always taken before the data lock for writing, a
    reader never waits while it reads, and no call of the policy asks for more than its caller has seen to. */
module ConcurrentProgress {
  import opened Collections
  import opened Stores
  import opened ConcurrentStores
  import opened ConcurrentSteps
  import Ledgers

  ghost predicate AllDone<K, V>(s: System<K, V>) {
    forall t {:trigger s.threads[t]} :: 0 <= t < |s.threads| ==> s.threads[t].place.Done?
  }

  /** Nothing holds the thread up where it is. */
  predicate Ready<K, V>(s: System<K, V>, t: nat)
    requires t < |s.threads|
  {
    match s.threads[t].place
    case Asking => s.writer.None?
    case Hit(_) => s.policyLock.None?
    case Waiting(_) => s.policyLock.None?
    case Owning(_) => s.writer.None? && s.readers == {}
    case Done(_) => false
    case _ => true
  }

  /** A call of the policy that comes next is one that the policy allows. */
  ghost predicate CallsLawfully<K, V>(s: System<K, V>, t: nat)
    requires t < |s.threads|
  {
    && Ledgers.ValidLedger(s.policy)
    && (s.threads[t].place.Roomy? && s.threads[t].op.key !in s.data ==> s.threads[t].op.key !in s.policy.uses)
  }

  lemma ReadyThreadSteps<K, V>(s: System<K, V>, t: nat)
    requires t < |s.threads| && Ready(s, t) && CallsLawfully(s, t)
    ensures exists s' :: Step(s, s', t)
  {
    var k := s.threads[t].op.key;
    match s.threads[t].place
    case Idle => assert Step(s, s.(threads := s.threads[t := Begun(s, s.threads[t].op)]), t);
    case Asking => assert Step(s, With(s.(readers := s.readers + {t}), t, Reading), t);
    case Reading => assert Step(s, With(s.(readers := s.readers - {t}), t, AfterRead(s, k)), t);
    case Hit(sight) => assert Step(s, With(s.(policyLock := Some(t)), t, Touching(sight)), t);
    case Touching(sight) =>
      assert Step(s, With(AfterAccess(s, t, k).(policyLock := None), t, Done(Looked(sight, Held(sight)))), t);
    case Waiting(body) => assert Step(s, With(s.(policyLock := Some(t)), t, Owning(body)), t);
    case Owning(body) => assert Step(s, With(s.(writer := Some(t)), t, Writing(body)), t);
    case Written(answer) => assert Step(s, With(s.(writer := None), t, Unlocked(answer)), t);
    case Unlocked(answer) => assert Step(s, With(s.(policyLock := None), t, Done(answer)), t);
    case _ => BodySteps(s, t);
  }

  lemma BodySteps<K, V>(s: System<K, V>, t: nat)
    requires t < |s.threads| && HoldsData(s.threads[t].place) && !s.threads[t].place.Written? && CallsLawfully(s, t)
    ensures exists s' :: Step(s, s', t)
  {
    var k := s.threads[t].op.key;
    match s.threads[t].place
    case Evicted(e, v, asked) => assert Step(s, With(AfterRemove(s, t, v, GivenUp(asked)), t, Roomy(e)), t);
    case Roomy(e) => assert Step(s, With(AfterRecord(s, t, k), t, Tracked(e)), t);
    case Tracked(e) => assert Step(s, With(AfterStore(s, t, k, e), t, Written(Changed(|s.log|))), t);
    case Erased(answer) => assert Step(s, With(AfterForget(s, t, k), t, Written(answer)), t);
    case Writing(Erase(cause)) =>
      assert Step(s, With(AfterRemove(s, t, k, Why(cause)), t, Erased(EraseAnswer(s, cause))), t);
    case Writing(Assign(e)) => assert Step(s, AfterCheck(s, t, k, e), t);
  }

  /** In every reachable state with an unfinished operation some thread can step. */
  lemma NeverStuck<K(!new), V>(s: System<K, V>)
    requires Inv(s) && !AllDone(s)
    ensures exists t: nat, s' :: t < |s.threads| && Step(s, s', t)
  {
    var ready: nat :| ready < |s.threads| && !s.threads[ready].place.Done?;
    assert LocksAt(s, ready);
    if s.policyLock.Some? {
      // the owner steps, unless it waits for readers; then a reader steps
      ready := s.policyLock.value;
      assert LocksAt(s, ready);
      assert s.writer.Some? ==> LocksAt(s, s.writer.value);
      if s.threads[ready].place.Owning? && s.readers != {} {
        ready :| ready in s.readers;
        assert LocksAt(s, ready);
      }
    } else {
      assert s.writer.Some? ==> LocksAt(s, s.writer.value);
    }
    InsertionIsLawful(s, ready);
    ReadyThreadSteps(s, ready);
  }

  /** An upper bound on the steps a thread has left. */
  function Remaining<K, V>(th: Thread<K, V>): nat {
    match th.place
    case Idle => 11
    case Asking => 10
    case Reading => 9
    case Waiting(_) => 8
    case Owning(_) => 7
    case Writing(_) => 6
    case Evicted(_, _, _) => 5
    case Roomy(_) => 4
    case Tracked(_) => 3
    case Erased(_) => 3
    case Written(_) => 2
    case Hit(_) => 2
    case Touching(_) => 1
    case Unlocked(_) => 1
    case Done(_) => 0
  }

  function Work<K, V>(threads: seq<Thread<K, V>>): nat {
    if threads == [] then 0 else Work(threads[..|threads| - 1]) + Remaining(threads[|threads| - 1])
  }

  lemma {:induction false} WorkOfUpdate<K, V>(threads: seq<Thread<K, V>>, t: nat, th: Thread<K, V>)
    requires t < |threads|
    ensures Work(threads[t := th]) == Work(threads) - Remaining(threads[t]) + Remaining(th)
  {
    var last := |threads| - 1;
    var after := threads[t := th];
    if t < last {
      assert after[..last] == threads[..last][t := th];
      WorkOfUpdate(threads[..last], t, th);
    } else {
      assert after[..last] == threads[..last];
    }
  }

  lemma StepAdvances<K, V>(s: System<K, V>, s': System<K, V>, t: nat)
    requires t < |s.threads| && Step(s, s', t)
    ensures t < |s'.threads| && Remaining(s'.threads[t]) < Remaining(s.threads[t])
  {
  }

  /** Every thread step uses up work. */
  lemma StepUsesWork<K, V>(s: System<K, V>, s': System<K, V>, t: nat)
    requires t < |s.threads| && Step(s, s', t)
    ensures Work(s'.threads) < Work(s.threads)
  {
    StepAdvances(s, s', t);
    StepMovesOneThread(s, s', t);
    WorkOfUpdate(s.threads, t, s'.threads[t]);
  }

  ghost predicate Moves<K, V>(s: System<K, V>, s': System<K, V>) {
    exists t: nat :: t < |s.threads| && Step(s, s', t)
  }

  /** A schedule: thread steps in any order, with clock ticks anywhere between. */
  ghost predicate IsSchedule<K, V>(path: seq<System<K, V>>) {
    path != [] && forall i :: 0 <= i < |path| - 1 ==> Follows(path, i)
  }

  /** The number of thread steps in a schedule. */
  ghost function StepsIn<K, V>(path: seq<System<K, V>>): nat {
    if |path| < 2 then 0
    else StepsIn(path[..|path| - 1]) + (if Tick(path[|path| - 2], path[|path| - 1]) then 0 else 1)
  }

  /** However the threads are scheduled, and however time passes, they take no more steps than there is work. */
  lemma {:induction false} SchedulesAreBounded<K, V>(path: seq<System<K, V>>)
    requires IsSchedule(path)
    ensures StepsIn(path) + Work(path[|path| - 1].threads) <= Work(path[0].threads)
  {
    if |path| > 1 {
      var last := |path| - 1;
      var init := path[..last];
      forall i | 0 <= i < |init| - 1
        ensures Follows(init, i)
      {
        assert Follows(path, i);
      }
      SchedulesAreBounded(init);
      assert Follows(path, last - 1);
      if !Tick(path[last - 1], path[last]) {
        var t: nat :| t < |path[last - 1].threads| && Step(path[last - 1], path[last], t);
        StepUsesWork(path[last - 1], path[last], t);
      }
    }
  }

  ghost predicate MovesAt<K, V>(path: seq<System<K, V>>, i: nat)
    requires i + 1 < |path|
  {
    Moves(path[i], path[i + 1])
  }

  /** A schedule in which no time passes. */
  ghost predicate IsPath<K, V>(path: seq<System<K, V>>) {
    path != [] && forall i :: 0 <= i < |path| - 1 ==> MovesAt(path, i)
  }

  /** From every reachable state all operations can finish, even if no time passes. */
  lemma {:induction false} OperationsCanFinish<K(!new), V>(s: System<K, V>)
    requires Inv(s)
    ensures exists path :: IsPath(path) && path[0] == s && AllDone(path[|path| - 1])
    decreases Work(s.threads)
  {
    if AllDone(s) {
      assert IsPath([s]);
    } else {
      NeverStuck(s);
      var t: nat, s' :| t < |s.threads| && Step(s, s', t);
      StepUsesWork(s, s', t);
      StepHolds(s, s', t);
      OperationsCanFinish(s');
      var rest :| IsPath(rest) && rest[0] == s' && AllDone(rest[|rest| - 1]);
      Prepend(s, rest);
    }
  }

  lemma Prepend<K, V>(s: System<K, V>, rest: seq<System<K, V>>)
    requires IsPath(rest) && Moves(s, rest[0]) && AllDone(rest[|rest| - 1])
    ensures exists path :: IsPath(path) && path[0] == s && AllDone(path[|path| - 1])
  {
    var path := [s] + rest;
    forall i | 0 <= i < |path| - 1
      ensures MovesAt(path, i)
    {
      assert i > 0 ==> MovesAt(rest, i - 1);
    }
    assert IsPath(path) && path[0] == s && path[|path| - 1] == rest[|rest| - 1];
  }

  /** A path on which nothing more can move has finished every operation. */
  lemma MaximalPathsFinish<K(!new), V>(s: System<K, V>)
    requires Inv(s) && forall s' :: !Moves(s, s')
    ensures AllDone(s)
  {
    if !AllDone(s) {
      NeverStuck(s);
      var t: nat, s' :| t < |s.threads| && Step(s, s', t);
      assert Moves(s, s');
    }
  }
}
