/** What each operation tells the policy, under any interleaving. With ConcurrentRuns, which says what the policy
    does with its calls, this says what the operations do to the policy. */
module ConcurrentCalls {
  import opened Collections
  import opened Stores
  import opened ConcurrentStores
  import opened ConcurrentSteps
  import opened ConcurrentRuns
  import opened ConcurrentMoments
  import Ledgers
  import Histories

  /** The calls of thread `t` so far. */
  ghost function Own<K, V>(s: System<K, V>, t: nat): seq<Histories.Call<K>> {
    if |s.calls| == |s.callers| then OwnCalls(s.calls, s.callers, t) else []
  }

  /** A new key in a full store calls for an eviction. */
  function EvictPart<K, V>(s: System<K, V>, k: K): seq<Histories.Call<K>> {
    if k !in s.data && |s.data| >= s.capacity then [Histories.EvictCall] else []
  }

  /** A stored key is accessed, a new one inserted. */
  function RecordPart<K, V>(s: System<K, V>, k: K): Histories.Call<K> {
    if k in s.data then Histories.Access(k) else Histories.Insert(k)
  }

  // ----- sets

  /** The body of thread `t`'s set began in state `base`, and so far it has told the policy what that state asks for. */
  ghost predicate SoFar<K, V>(base: System<K, V>, s: System<K, V>, t: nat)
    requires t < |s.threads|
  {
    var k, p := s.threads[t].op.key, s.threads[t].place;
    if p.Evicted? || p.Roomy? then Own(s, t) == EvictPart(base, k) && (k in s.data <==> k in base.data)
    else Own(s, t) == EvictPart(base, k) + [RecordPart(base, k)]
  }

  /** The body of a set has begun. */
  predicate BodyBegun<K, V>(p: Place<K, V>) {
    p.Evicted? || p.Roomy? || p.Tracked? || p.Written? || p.Unlocked? || p.Done?
  }

  lemma OwnGrows<K, V>(s: System<K, V>, s': System<K, V>, t: nat, u: nat)
    requires Traced(s) && Told(s) && u < |s.threads| && Step(s, s', u) && |s'.calls| == |s'.callers|
    ensures var c := CallOf(s, s.threads[u]);
            Own(s', t) == if c.Some? && u == t then Own(s, t) + [c.value] else Own(s, t)
  {
    StepMakesCall(s, s', u);
    var c := CallOf(s, s.threads[u]);
    if c.Some? {
      OneCallMore(s.calls, s.callers, c.value, u, t);
      assert Own(s, t) + [] == Own(s, t);
    }
  }

  lemma BodyBegins<K(!new), V>(s: System<K, V>, s': System<K, V>, t: nat)
    requires Inv(s) && t < |s.threads| && Step(s, s', t) && s.threads[t].place.Writing? && s.threads[t].op.Set?
    ensures t < |s'.threads| && SoFar(s, s', t)
  {
    StepHolds(s, s', t);
    StepMovesOneThread(s, s', t);
    assert SightsAt(s, t) && ToldAt(s, t) && LocksAt(s, t);
    OwnGrows(s, s', t, t);
    Ledgers.EvictIsLawful(s.policy);
    forall j
      ensures j in s.data ==> j in s.policy.uses
    {
      assert AgreeOn(s, j);
    }
    assert s.policy.uses == map[] ==> s.data.Keys == {};
  }

  /** The thread's own next step. */
  lemma BodyGoesOn<K(!new), V>(base: System<K, V>, s: System<K, V>, s': System<K, V>, t: nat)
    requires Inv(s) && t < |s.threads| && Step(s, s', t) && s.threads[t].op.Set?
    requires BodyBegun(s.threads[t].place) && SoFar(base, s, t)
    ensures t < |s'.threads| && SoFar(base, s', t)
  {
    StepHolds(s, s', t);
    StepMovesOneThread(s, s', t);
    assert LocksAt(s, t);
    OwnGrows(s, s', t, t);
  }

  /** A step of another thread: while this one is in its body it holds the data, and nobody else's calls count. */
  lemma OthersDoNotDisturb<K(!new), V>(base: System<K, V>, s: System<K, V>, s': System<K, V>, t: nat, u: nat)
    requires Inv(s) && t < |s.threads| && u < |s.threads| && u != t && Step(s, s', u)
    requires SoFar(base, s, t)
    ensures t < |s'.threads| && s'.threads[t] == s.threads[t] && SoFar(base, s', t)
  {
    StepHolds(s, s', u);
    StepMovesOneThread(s, s', u);
    StepHoldsLocks(s, s', u);
    assert LocksAt(s, t) && LocksAt(s, u);
    OwnGrows(s, s', t, u);
  }

  lemma NextGoesOn<K(!new), V>(base: System<K, V>, s: System<K, V>, s': System<K, V>, t: nat)
    requires Inv(s) && Next(s, s') && t < |s.threads| && s.threads[t].op.Set?
    requires BodyBegun(s.threads[t].place) && SoFar(base, s, t)
    ensures t < |s'.threads| && SoFar(base, s', t)
  {
    if !Tick(s, s') {
      var u: nat :| u < |s.threads| && Step(s, s', u);
      if u == t {
        BodyGoesOn(base, s, s', t);
      } else {
        OthersDoNotDisturb(base, s, s', t, u);
      }
    }
  }

  lemma NextBegins<K(!new), V>(s: System<K, V>, s': System<K, V>, t: nat)
    requires Inv(s) && Next(s, s') && t < |s.threads| == |s'.threads| && s.threads[t].op.Set?
    requires !BodyBegun(s.threads[t].place) && BodyBegun(s'.threads[t].place)
    ensures s.threads[t].place.Writing? && SoFar(s, s', t)
  {
    assert SightsAt(s, t) && ToldAt(s, t) && !Tick(s, s');
    var u: nat :| u < |s.threads| && Step(s, s', u);
    StepMovesOneThread(s, s', u);
    SetMustWrite(s, s', t);
    BodyBegins(s, s', t);
  }

  lemma SetMustWrite<K, V>(s: System<K, V>, s': System<K, V>, t: nat)
    requires t < |s.threads| == |s'.threads| && Step(s, s', t) && SightsAt(s, t) && s.threads[t].op.Set?
    requires |s.calls| == |s.callers| && ToldAt(s, t)
    requires !BodyBegun(s.threads[t].place) && BodyBegun(s'.threads[t].place)
    ensures s.threads[t].place.Writing?
  {
  }

  /** The state in which the body of a set began decides what the set tells the policy. */
  lemma {:induction false} SetsTellPolicy<K(!new), V>(run: seq<System<K, V>>, i: nat, t: nat) returns (m: nat)
    requires IsRun(run) && i < |run| && t < |run[i].threads|
    requires run[i].threads[t].op.Set? && BodyBegun(run[i].threads[t].place)
    ensures m < i && t < |run[m].threads| && run[m].threads[t].place.Writing? && SoFar(run[m], run[i], t)
  {
    assert i > 0 by {
      assert Init(run[0]);
    }
    var before := i - 1;
    RunHolds(run, before);
    assert Follows(run, before);
    NextKeepsOperations(run[before], run[i]);
    if BodyBegun(run[before].threads[t].place) {
      m := SetsTellPolicy(run, before, t);
      NextGoesOn(run[m], run[before], run[i], t);
    } else {
      m := before;
      NextBegins(run[before], run[i], t);
    }
  }

  // ----- every operation

  /** What a finished operation has told the policy, each call once and in this order. A get that hit recorded its
      access after it had looked; one that saw an expired entry reported the key deleted; any other said nothing. A
      delete reported its key. A set, by the state in which its body began: asked for a victim if its key was new and
      the store full, and then recorded an access if its key was stored, an insertion if it was new. */
  lemma OperationsTellPolicy<K(!new), V>(run: seq<System<K, V>>, i: nat, t: nat) returns (m: nat)
    requires IsRun(run) && i < |run| && t < |run[i].threads| && run[i].threads[t].place.Done?
    ensures m < i && t < |run[m].threads| && |run[i].calls| == |run[i].callers|
    ensures var s, own := run[m], OwnCalls(run[i].calls, run[i].callers, t);
            match run[i].threads[t].op
            case Get(k) =>
              && s.threads[t].place.Reading? && Own(s, t) == []
              && own == if k !in s.data then [] else if Expired(s.data[k], s.now) then [Histories.Delete(k)]
                        else [Histories.Access(k)]
            case Set(k, _, _) =>
              && s.threads[t].place.Writing? && Own(s, t) == []
              && own == (if k !in s.data && |s.data| >= s.capacity then [Histories.EvictCall] else [])
                        + [if k in s.data then Histories.Access(k) else Histories.Insert(k)]
            case Delete(k) => own == [Histories.Delete(k)]
  {
    RunHolds(run, i);
    assert SightsAt(run[i], t) && ToldAt(run[i], t);
    if run[i].threads[t].op.Get? {
      m := SightsAreMoments(run, i, t);
      GetTold(run, i, t, m);
    } else if run[i].threads[t].op.Set? {
      m := SetsTellPolicy(run, i, t);
      RunHolds(run, m);
      assert ToldAt(run[m], t);
    } else {
      m := OperationsAreLinearizable(run, i, t);
    }
  }

  lemma GetTold<K(!new), V>(run: seq<System<K, V>>, i: nat, t: nat, m: nat)
    requires IsRun(run) && m < i < |run| && t < |run[i].threads| && run[i].threads[t].place.Done?
    requires Inv(run[i]) && run[i].threads[t].op.Get? && run[i].threads[t].place.answer.Looked?
    requires ReadsNow(run[m], t, run[i].threads[t].place.answer.sight)
    ensures var s, k := run[m], run[i].threads[t].op.key;
            && Own(s, t) == []
            && Own(run[i], t) == if k !in s.data then [] else if Expired(s.data[k], s.now) then [Histories.Delete(k)]
                                 else [Histories.Access(k)]
  {
    RunHolds(run, m);
    assert ToldAt(run[m], t) && ToldAt(run[i], t) && SightsAt(run[i], t);
    OperationsStay(run, i);
    OperationsStay(run, m);
  }

  /** The call is one that the operation has reason to make. */
  predicate Fits<K(==), V>(op: Op<K, V>, call: Histories.Call<K>) {
    match call
    case Access(k) => op.key == k && !op.Delete?
    case Insert(k) => op.key == k && op.Set?
    case Delete(k) => op.key == k && !op.Set?
    case EvictCall => op.Set?
  }

  lemma {:induction false} CallIsOwn<K>(calls: seq<Histories.Call<K>>, callers: seq<nat>, c: nat)
    requires |calls| == |callers| && c < |calls|
    ensures calls[c] in OwnCalls(calls, callers, callers[c])
  {
    var last := |calls| - 1;
    if c < last {
      CallIsOwn(calls[..last], callers[..last], c);
    }
  }

  lemma ToldFits<K, V>(own: seq<Histories.Call<K>>, th: Thread<K, V>, call: Histories.Call<K>, s: System<K, V>, t: nat)
    requires ToldBy(own, th) && call in own && t < |s.threads| && s.threads[t] == th && SightsAt(s, t)
    ensures Fits(th.op, call)
  {
  }

  /** Every call of the policy was made by an operation that has reason to make it. */
  lemma EveryCallHasAuthor<K(!new), V>(run: seq<System<K, V>>, i: nat, c: nat)
    requires IsRun(run) && i < |run| && c < |run[i].calls|
    ensures |run[i].calls| == |run[i].callers| && run[i].callers[c] < |run[i].threads|
    ensures var t := run[i].callers[c];
            run[i].calls[c] in OwnCalls(run[i].calls, run[i].callers, t) && Fits(run[i].threads[t].op, run[i].calls[c])
  {
    RunHolds(run, i);
    var s, t := run[i], run[i].callers[c];
    CallIsOwn(s.calls, s.callers, c);
    assert ToldAt(s, t) && SightsAt(s, t);
    ToldFits(OwnCalls(s.calls, s.callers, t), s.threads[t], s.calls[c], s, t);
  }
}
