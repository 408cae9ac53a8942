/** Every step of the concurrent store keeps its invariant. */
module ConcurrentSteps {
  import opened Collections
  import opened Stores
  import opened ConcurrentStores
  import Ledgers
  import Histories

  lemma InitHolds<K(!new), V>(s: System<K, V>)
    requires Init(s)
    ensures Inv(s)
  {
  }

  /** A lock changes hands only by a free lock being taken, or by its holder releasing it. */
  ghost predicate Passed(lock: Option<nat>, lock': Option<nat>, held: bool, holds: bool, t: nat) {
    if held == holds then lock' == lock
    else if holds then lock.None? && lock' == Some(t)
    else lock'.None?
  }

  ghost predicate ReadersPassed<K, V>(s: System<K, V>, s': System<K, V>, t: nat)
    requires t < |s.threads| == |s'.threads|
  {
    if s.threads[t].place.Reading? == s'.threads[t].place.Reading? then s'.readers == s.readers
    else if s'.threads[t].place.Reading? then s.writer.None? && s'.readers == s.readers + {t}
    else s'.readers == s.readers - {t}
  }

  /** A step moves one thread and does not touch the clock. */
  lemma StepMovesOneThread<K, V>(s: System<K, V>, s': System<K, V>, t: nat)
    requires t < |s.threads| && Step(s, s', t)
    ensures |s'.threads| == |s.threads| && s'.threads == s.threads[t := s'.threads[t]]
    ensures s'.threads[t].op == s.threads[t].op
    ensures s'.now == s.now && s'.capacity == s.capacity && s'.kind == s.kind
  {
  }

  /** Locks move only as the place of the moving thread says. */
  lemma StepMovesLocks<K, V>(s: System<K, V>, s': System<K, V>, t: nat)
    requires t < |s.threads| == |s'.threads| && Step(s, s', t)
    ensures Passed(s.policyLock, s'.policyLock, HoldsPolicy(s.threads[t].place), HoldsPolicy(s'.threads[t].place), t)
    ensures Passed(s.writer, s'.writer, HoldsData(s.threads[t].place), HoldsData(s'.threads[t].place), t)
    ensures ReadersPassed(s, s', t)
    ensures HoldsData(s'.threads[t].place) && !HoldsData(s.threads[t].place) ==> s.readers == {}
  {
  }

  lemma LockedStep<K, V>(s: System<K, V>, s': System<K, V>, t: nat)
    requires Locked(s) && t < |s.threads| && Step(s, s', t)
    ensures Locked(s')
  {
    StepMovesOneThread(s, s', t);
    StepMovesLocks(s, s', t);
    assert LocksAt(s, t);
    forall u | 0 <= u < |s'.threads|
      ensures LocksAt(s', u)
    {
      assert LocksAt(s, u);
    }
  }

  /** Same data and same keys of the policy, seen from a writer's place that asks no more. */
  lemma SameBalance<K(!new), V>(s: System<K, V>, s': System<K, V>)
    requires Balanced(s) && s'.data == s.data && s'.capacity == s.capacity
    requires s'.policy.uses.Keys == s.policy.uses.Keys
    requires s.writer.Some? ==> s.writer.value < |s.threads|
    requires s'.writer.Some? ==> s'.writer.value < |s'.threads|
    requires (s.writer.Some? && s'.writer == s.writer && s'.threads[s.writer.value] == s.threads[s.writer.value])
             || (Ordinary(s) && Ordinary(s'))
    ensures Balanced(s')
  {
    forall k
      ensures AgreeOn(s', k) == AgreeOn(s, k)
    {
      assert k in s'.policy.uses.Keys <==> k in s.policy.uses.Keys;
    }
  }

  predicate MidPlace<K, V>(p: Place<K, V>) {
    p.Evicted? || p.Roomy? || p.Tracked? || p.Erased?
  }

  /** No thread is in the middle of a writer's body. */
  predicate Ordinary<K, V>(s: System<K, V>) {
    s.writer.Some? ==> s.writer.value < |s.threads| && !MidPlace(s.threads[s.writer.value].place)
  }

  lemma CapacityCheckBalance<K(!new), V>(s: System<K, V>, s': System<K, V>, t: nat)
    requires Balanced(s) && t < |s.threads| && s.writer == Some(t)
    requires s.threads[t].place.Writing? && s.threads[t].place.body.Assign? && Step(s, s', t)
    ensures Balanced(s')
  {
    var k := s.threads[t].op.key;
    Ledgers.EvictIsLawful(s.policy);
    forall j
      ensures s'.policy.uses == s.policy.uses ==> AgreeOn(s', j)
      ensures s'.threads[t].place.Evicted? && j != s'.threads[t].place.victim ==> AgreeOn(s', j)
      ensures j in s.data ==> j in s.policy.uses
    {
      assert AgreeOn(s, j);
    }
    assert AgreeOn(s, k);
    if s'.threads[t].place.Evicted? {
      assert AgreeOn(s, s'.threads[t].place.victim);
    } else if k !in s.data && |s.data| >= s.capacity {
      assert s.data.Keys == {};
    }
  }

  lemma AssignBalance<K(!new), V>(s: System<K, V>, s': System<K, V>, t: nat)
    requires Balanced(s) && t < |s.threads| && s.writer == Some(t)
    requires s.threads[t].place.Evicted? || s.threads[t].place.Roomy? || s.threads[t].place.Tracked?
    requires Step(s, s', t)
    ensures Balanced(s')
  {
    var k := s.threads[t].op.key;
    match s.threads[t].place
    case Evicted(e, v, asked) =>
      WithoutShrinks(s.data, v);
      forall j
        ensures AgreeOn(s', j)
      {
        assert j != v ==> AgreeOn(s, j);
      }
    case Roomy(e) =>
      assert AgreeOn(s, k);
      forall j
        ensures j != k ==> AgreeOn(s', j)
      {
        assert AgreeOn(s, j);
      }
    case Tracked(e) =>
      InsertionGrows(s.data, k, e);
      forall j
        ensures AgreeOn(s', j)
      {
        assert j != k ==> AgreeOn(s, j);
      }
  }

  lemma EraseBalance<K(!new), V>(s: System<K, V>, s': System<K, V>, t: nat)
    requires Balanced(s) && t < |s.threads| && s.writer == Some(t)
    requires s.threads[t].place.Erased? || (s.threads[t].place.Writing? && s.threads[t].place.body.Erase?)
    requires Step(s, s', t)
    ensures Balanced(s')
  {
    var k := s.threads[t].op.key;
    WithoutShrinks(s.data, k);
    if s.threads[t].place.Erased? {
      forall j
        ensures AgreeOn(s', j)
      {
        assert j != k ==> AgreeOn(s, j);
      }
    } else {
      forall j
        ensures j != k ==> AgreeOn(s', j)
      {
        assert AgreeOn(s, j);
      }
    }
  }

  lemma InsertionGrows<K, V>(m: map<K, V>, k: K, v: V)
    ensures |m[k := v]| == |m| + (if k in m then 0 else 1)
  {
    assert m[k := v].Keys == m.Keys + {k};
    assert |m| == |m.Keys| && |m[k := v]| == |m[k := v].Keys|;
  }

  lemma BalancedStep<K(!new), V>(s: System<K, V>, s': System<K, V>, t: nat)
    requires Locked(s) && Balanced(s) && t < |s.threads| && Step(s, s', t)
    ensures Balanced(s')
  {
    assert LocksAt(s, t);
    var p := s.threads[t].place;
    if p.Writing? && p.body.Assign? {
      CapacityCheckBalance(s, s', t);
    } else if p.Writing? || p.Erased? {
      EraseBalance(s, s', t);
    } else if MidPlace(p) {
      AssignBalance(s, s', t);
    } else {
      StepMovesOneThread(s, s', t);
      StepMovesLocks(s, s', t);
      assert s.writer.Some? ==> LocksAt(s, s.writer.value);
      StepCalls(s, s', t);
      SameBalance(s, s');
    }
  }

  /** The event that a step logs, if it changes the data. */
  function Logs<K, V>(th: Thread<K, V>, t: nat): Option<Event<K, V>> {
    match th.place
    case Evicted(_, v, asked) => Some(Removed(v, t, GivenUp(asked)))
    case Tracked(e) => Some(Stored(th.op.key, e, t))
    case Writing(Erase(cause)) => Some(Removed(th.op.key, t, Why(cause)))
    case _ => None
  }

  lemma StepLogs<K, V>(s: System<K, V>, s': System<K, V>, t: nat)
    requires t < |s.threads| && Step(s, s', t)
    ensures var ev := Logs(s.threads[t], t);
            && s'.log == (if ev.Some? then s.log + [ev.value] else s.log)
            && s'.data == (if ev.None? then s.data
                           else if ev.value.Stored? then s.data[ev.value.key := ev.value.entry]
                           else Without(s.data, ev.value.key))
  {
  }

  /** Outside a writer's body a step at most records an access. */
  lemma StepCalls<K, V>(s: System<K, V>, s': System<K, V>, t: nat)
    requires t < |s.threads| && Step(s, s', t)
    ensures s.calls <= s'.calls
    ensures var p := s.threads[t].place;
            !MidPlace(p) && !p.Writing? ==>
              s'.policy.uses.Keys == s.policy.uses.Keys
  {
    if s.threads[t].place.Touching? {
      assert s'.policy == Ledgers.OnAccess(s.policy, s.threads[t].op.key);
    }
  }

  lemma LoggedStep<K, V>(s: System<K, V>, s': System<K, V>, t: nat)
    requires Logged(s) && t < |s.threads| && Step(s, s', t)
    ensures Logged(s')
  {
    StepLogs(s, s', t);
    if Logs(s.threads[t], t).Some? {
      assert s'.log[..|s.log|] == s.log;
    }
  }

  /** The call of the policy that a step makes, if it makes one. */
  ghost function CallOf<K, V>(s: System<K, V>, th: Thread<K, V>): Option<Histories.Call<K>> {
    var k := th.op.key;
    match th.place
    case Touching(_) => Some(Histories.Access(k))
    case Writing(Assign(_)) => if k !in s.data && |s.data| >= s.capacity then Some(Histories.EvictCall) else None
    case Roomy(_) => Some(if k in s.data then Histories.Access(k) else Histories.Insert(k))
    case Erased(_) => Some(Histories.Delete(k))
    case _ => None
  }

  lemma StepMakesCall<K, V>(s: System<K, V>, s': System<K, V>, t: nat)
    requires t < |s.threads| && Step(s, s', t) && Ledgers.ValidLedger(s.policy)
    ensures s'.kind == s.kind
    ensures var c := CallOf(s, s.threads[t]);
            if c.None? then s'.calls == s.calls && s'.callers == s.callers && s'.policy == s.policy
            else
              && (c.value.Insert? ==> c.value.key !in s.policy.uses)
              && s'.calls == s.calls + [c.value] && s'.callers == s.callers + [t]
              && s'.policy == Histories.Apply(s.policy, c.value)
  {
  }

  /** Every call of the policy meets what the policy asks, and takes it where its history says. */
  lemma TracedStep<K, V>(s: System<K, V>, s': System<K, V>, t: nat)
    requires Traced(s) && t < |s.threads| && Step(s, s', t)
    ensures Traced(s')
  {
    StepMakesCall(s, s', t);
    if CallOf(s, s.threads[t]).Some? {
      Histories.OneCallMore(s.kind, s.calls, CallOf(s, s.threads[t]).value);
    }
  }

  lemma GenuineStays<K, V>(s: System<K, V>, s': System<K, V>, th: Thread<K, V>, sight: Sight<V>)
    requires Genuine(s, th, sight) && s.log <= s'.log && s.now <= s'.now
    ensures Genuine(s', th, sight)
  {
    assert s'.log[..sight.at] == s.log[..sight.at];
  }

  /** `s'` is a later state: its histories continue those of `s`. */
  ghost predicate Continues<K, V>(s: System<K, V>, s': System<K, V>) {
    s.log <= s'.log && s.calls <= s'.calls && s.now <= s'.now && s'.kind == s.kind && s'.capacity == s.capacity
  }

  lemma GaveUpStays<K, V>(s: System<K, V>, s': System<K, V>, asked: nat, v: K)
    requires GaveUp(s, asked, v) && Continues(s, s')
    ensures GaveUp(s', asked, v) && TrackedAt(s', asked) == TrackedAt(s, asked)
  {
    assert s'.calls[..asked] == s.calls[..asked];
  }

  lemma AnswerStays<K, V>(s: System<K, V>, s': System<K, V>, t: nat, th: Thread<K, V>, answer: Answer<V>)
    requires AnswerOk(s, t, th, answer) && s.log <= s'.log && s.now <= s'.now
    ensures AnswerOk(s', t, th, answer)
  {
    if answer.Looked? {
      GenuineStays(s, s', th, answer.sight);
    }
  }

  lemma BodyStays<K, V>(s: System<K, V>, s': System<K, V>, th: Thread<K, V>, body: Body<V>)
    requires BodyOk(s, th, body) && s.log <= s'.log && s.now <= s'.now
    ensures BodyOk(s', th, body)
  {
    if body.Erase? && body.cause.Stale? {
      GenuineStays(s, s', th, body.cause.sight);
    }
  }

  /** A thread that stays where it is keeps what it knows. */
  lemma SightStays<K, V>(s: System<K, V>, s': System<K, V>, t: nat)
    requires t < |s.threads| == |s'.threads| && s'.threads[t] == s.threads[t]
    requires SightsAt(s, t) && Continues(s, s')
    ensures SightsAt(s', t)
  {
    var th := s.threads[t];
    match th.place
    case Hit(sight) => GenuineStays(s, s', th, sight);
    case Touching(sight) => GenuineStays(s, s', th, sight);
    case Waiting(body) => BodyStays(s, s', th, body);
    case Owning(body) => BodyStays(s, s', th, body);
    case Writing(body) => BodyStays(s, s', th, body);
    case Evicted(_, v, asked) => GaveUpStays(s, s', asked, v);
    case Erased(answer) => AnswerStays(s, s', t, th, answer);
    case Written(answer) => AnswerStays(s, s', t, th, answer);
    case Unlocked(answer) => AnswerStays(s, s', t, th, answer);
    case Done(answer) => AnswerStays(s, s', t, th, answer);
    case _ =>
  }

  /** A thread that moves carries what it knows on, or has just learned it. */
  lemma SightMoves<K, V>(s: System<K, V>, s': System<K, V>, t: nat)
    requires Logged(s) && Traced(s) && t < |s.threads| && SightsAt(s, t) && Step(s, s', t)
    ensures |s'.threads| == |s.threads| && SightsAt(s', t)
  {
    StepContinues(s, s', t);
    StepMovesOneThread(s, s', t);
    var th := s.threads[t];
    match th.place
    case Idle => CallMoves(s, s', t);
    case Reading => ReadMoves(s, s', t);
    case Writing(_) => BodyMoves(s, s', t);
    case Erased(answer) => AnswerMoves(s, s', t, answer);
    case Written(answer) => AnswerMoves(s, s', t, answer);
    case Unlocked(answer) => AnswerMoves(s, s', t, answer);
    case _ => MovedSight(s, s', t);
  }

  lemma StepContinues<K, V>(s: System<K, V>, s': System<K, V>, t: nat)
    requires t < |s.threads| && Step(s, s', t)
    ensures Continues(s, s')
  {
    StepLogs(s, s', t);
    StepCalls(s, s', t);
    StepMovesOneThread(s, s', t);
  }

  lemma CallMoves<K, V>(s: System<K, V>, s': System<K, V>, t: nat)
    requires t < |s.threads| == |s'.threads| && Step(s, s', t) && s.threads[t].place.Idle?
    ensures SightsAt(s', t)
  {
  }

  /** A reader learns what the log says at this moment. */
  lemma ReadMoves<K, V>(s: System<K, V>, s': System<K, V>, t: nat)
    requires Logged(s) && t < |s.threads| == |s'.threads| && SightsAt(s, t) && Step(s, s', t)
    requires s.threads[t].place.Reading?
    ensures SightsAt(s', t)
  {
    assert s.log[..|s.log|] == s.log;
  }

  /** A set that asks for a victim remembers which call gave it up; a removal answers for itself. */
  lemma BodyMoves<K, V>(s: System<K, V>, s': System<K, V>, t: nat)
    requires Traced(s) && t < |s.threads| == |s'.threads| && SightsAt(s, t) && Step(s, s', t) && Continues(s, s')
    requires s.threads[t].place.Writing?
    ensures SightsAt(s', t)
  {
    if s.threads[t].place.body.Assign? {
      if s'.threads[t].place.Evicted? {
        assert s'.calls[..|s.calls|] == s.calls;
        assert GaveUp(s', |s.calls|, s'.threads[t].place.victim);
      }
    } else if s.threads[t].place.body.cause.Stale? {
      GenuineStays(s, s', s.threads[t], s.threads[t].place.body.cause.sight);
    }
  }

  lemma AnswerMoves<K, V>(s: System<K, V>, s': System<K, V>, t: nat, answer: Answer<V>)
    requires t < |s.threads| == |s'.threads| && SightsAt(s, t) && Step(s, s', t) && Continues(s, s')
    requires var p := s.threads[t].place; p == Erased(answer) || p == Written(answer) || p == Unlocked(answer)
    ensures SightsAt(s', t)
  {
    AnswerStays(s, s', t, s.threads[t], answer);
  }

  lemma MovedSight<K, V>(s: System<K, V>, s': System<K, V>, t: nat)
    requires t < |s.threads| == |s'.threads| && SightsAt(s, t) && Step(s, s', t) && Continues(s, s')
    requires var p := s.threads[t].place;
             p.Asking? || p.Hit? || p.Touching? || p.Waiting? || p.Owning? || p.Evicted? || p.Roomy? || p.Tracked?
    ensures SightsAt(s', t)
  {
    var th := s.threads[t];
    match th.place
    case Hit(sight) => GenuineStays(s, s', th, sight);
    case Touching(sight) => GenuineStays(s, s', th, sight);
    case Waiting(body) => BodyStays(s, s', th, body);
    case Owning(body) => BodyStays(s, s', th, body);
    case _ =>
  }

  lemma SightedStep<K, V>(s: System<K, V>, s': System<K, V>, t: nat)
    requires Logged(s) && Traced(s) && Sighted(s) && t < |s.threads| && Step(s, s', t)
    ensures Sighted(s')
  {
    StepMovesOneThread(s, s', t);
    StepContinues(s, s', t);
    forall u | 0 <= u < |s'.threads|
      ensures SightsAt(s', u)
    {
      assert SightsAt(s, u);
      if u == t {
        SightMoves(s, s', t);
      } else {
        SightStays(s, s', u);
      }
    }
  }

  // ----- evictions

  /** A step that calls the policy holds its lock, and one that changes the data holds theirs. */
  lemma StepHoldsLocks<K, V>(s: System<K, V>, s': System<K, V>, t: nat)
    requires t < |s.threads| && Step(s, s', t) && Traced(s)
    ensures !HoldsPolicy(s.threads[t].place) ==> s'.calls == s.calls
    ensures !HoldsData(s.threads[t].place) ==> s'.log == s.log && s'.data == s.data
  {
    StepMakesCall(s, s', t);
    StepLogs(s, s', t);
  }

  /** A victim is asked for while policy and data agree. */
  lemma VictimIsAskedFor<K(!new), V>(s: System<K, V>, s': System<K, V>, t: nat)
    requires Locked(s) && Balanced(s) && Traced(s) && Attributed(s) && t < |s.threads| && Step(s, s', t)
    ensures |s'.threads| == |s.threads| && JustAsked(s', t)
  {
    StepMovesOneThread(s, s', t);
    if s'.threads[t].place.Evicted? {
      var asked := s'.threads[t].place.asked;
      assert LocksAt(s, t) && s'.calls[..asked] == s.calls;
      forall k
        ensures k in s.policy.uses.Keys <==> k in s.data.Keys
      {
        assert AgreeOn(s, k);
      }
      forall i | 0 <= i < |s'.log|
        ensures AskedBefore(s', i, asked)
      {
        assert AuthorOf(s, i);
      }
    }
  }

  /** While a thread holds both locks no other calls the policy or changes the data. */
  lemma PromptStep<K(!new), V>(s: System<K, V>, s': System<K, V>, t: nat)
    requires Locked(s) && Balanced(s) && Traced(s) && Attributed(s) && Prompt(s)
    requires t < |s.threads| && Step(s, s', t)
    ensures Prompt(s')
  {
    StepMovesOneThread(s, s', t);
    VictimIsAskedFor(s, s', t);
    StepHoldsLocks(s, s', t);
    assert LocksAt(s, t);
    forall u | 0 <= u < |s'.threads|
      ensures JustAsked(s', u)
    {
      assert LocksAt(s, u) && JustAsked(s, u);
      if u != t && s.threads[u].place.Evicted? {
        forall i | 0 <= i < |s'.log|
          ensures AskedBefore(s', i, s.threads[u].place.asked)
        {
          assert AskedBefore(s, i, s.threads[u].place.asked);
        }
      }
    }
  }

  // ----- attribution

  /** An answer, once there, stays with its thread. */
  lemma AnswersStay<K, V>(s: System<K, V>, s': System<K, V>, t: nat, answer: Answer<V>)
    requires t < |s.threads| && Step(s, s', t) && |s'.threads| == |s.threads|
    ensures Answers(s.threads[t].place, answer) ==> Answers(s'.threads[t].place, answer)
    ensures PastEviction(s.threads[t].place) ==> PastEviction(s'.threads[t].place)
  {
  }

  lemma MadeByStays<K, V>(s: System<K, V>, s': System<K, V>, i: nat, th: Thread<K, V>, th': Thread<K, V>)
    requires i < |s.log| && MadeBy(s, i, th) && Continues(s, s')
    requires th'.op == th.op && th'.called == th.called && th'.since == th.since
    requires forall answer :: Answers(th.place, answer) ==> Answers(th'.place, answer)
    requires PastEviction(th.place) ==> PastEviction(th'.place)
    ensures MadeBy(s', i, th')
  {
    assert s'.log[i] == s.log[i];
    match s.log[i]
    case Removed(_, _, Cleaned(sight)) =>
      GenuineStays(s, s', th, sight);
    case Removed(v, _, GivenUp(asked)) =>
      GaveUpStays(s, s', asked, v);
      assert s'.log[..i] == s.log[..i];
    case _ =>
  }

  lemma AuthorStays<K, V>(s: System<K, V>, s': System<K, V>, t: nat, i: nat)
    requires t < |s.threads| && Step(s, s', t) && i < |s.log| && AuthorOf(s, i)
    ensures i < |s'.log| && AuthorOf(s', i)
  {
    StepContinues(s, s', t);
    StepMovesOneThread(s, s', t);
    var u := s.log[i].author;
    assert s'.log[i] == s.log[i];
    forall answer | Answers(s.threads[u].place, answer)
      ensures Answers(s'.threads[u].place, answer)
    {
      AnswersStay(s, s', t, answer);
    }
    if u == t {
      AnswersStay(s, s', t, Changed(i));
      StepKeepsCall(s, s', t);
    }
    MadeByStays(s, s', i, s.threads[u], s'.threads[u]);
  }

  /** Once an operation has been called, when that was does not change. */
  lemma StepKeepsCall<K, V>(s: System<K, V>, s': System<K, V>, t: nat)
    requires t < |s.threads| == |s'.threads| && Step(s, s', t) && !s.threads[t].place.Idle?
    ensures s'.threads[t].since == s.threads[t].since && s'.threads[t].called == s.threads[t].called
    ensures s'.threads[t].op == s.threads[t].op && !s'.threads[t].place.Idle?
  {
  }

  /** The event that a step logs is what the thread is there to do. */
  lemma NewEventHasAuthor<K(!new), V>(s: System<K, V>, s': System<K, V>, t: nat)
    requires Locked(s) && Balanced(s) && Logged(s) && t < |s.threads| && SightsAt(s, t) && JustAsked(s, t)
    requires Step(s, s', t) && Logs(s.threads[t], t).Some?
    ensures |s'.log| == |s.log| + 1 && AuthorOf(s', |s.log|)
  {
    StepLogs(s, s', t);
    StepMovesOneThread(s, s', t);
    StepContinues(s, s', t);
    StepKeepsCall(s, s', t);
    assert s'.log[..|s.log|] == s.log && LocksAt(s, t);
    var th := s.threads[t];
    match th.place
    case Evicted(e, v, asked) => GaveUpStays(s, s', asked, v);
    case Writing(Erase(Stale(sight))) => GenuineStays(s, s', th, sight);
    case _ =>
  }

  /** Whoever makes a change has made none before, unless it was an eviction and this is the store; and an
      eviction was asked for after all earlier ones. */
  lemma NewEventIsFirst<K, V>(s: System<K, V>, t: nat, i: nat)
    requires t < |s.threads| && Logs(s.threads[t], t).Some? && i < |s.log| && AuthorOf(s, i) && JustAsked(s, t)
    ensures var ev := Logs(s.threads[t], t).value;
            && (s.log[i].author == t ==> IsEviction(s.log[i]) && ev.Stored?)
            && (IsEviction(s.log[i]) && IsEviction(ev) ==> s.log[i].why.asked < ev.why.asked)
  {
    assert s.threads[t].place.Evicted? ==> AskedBefore(s, i, s.threads[t].place.asked);
  }

  lemma AttributedStep<K(!new), V>(s: System<K, V>, s': System<K, V>, t: nat)
    requires Locked(s) && Balanced(s) && Logged(s) && Sighted(s) && Prompt(s) && Attributed(s)
    requires t < |s.threads| && Step(s, s', t)
    ensures Attributed(s')
  {
    StepLogs(s, s', t);
    assert SightsAt(s, t) && JustAsked(s, t);
    forall i | 0 <= i < |s'.log|
      ensures AuthorOf(s', i)
    {
      if i < |s.log| {
        AuthorStays(s, s', t, i);
      } else {
        NewEventHasAuthor(s, s', t);
      }
    }
    forall i, j | 0 <= i < |s'.log| && 0 <= j < |s'.log|
      ensures Once(s', i, j)
    {
      if i < |s.log| && j < |s.log| {
        assert Once(s, i, j);
      } else if i < |s.log| {
        assert AuthorOf(s, i);
        NewEventIsFirst(s, t, i);
      }
    }
  }

  // ----- the calls of each operation

  lemma OneCallMore<K>(calls: seq<Histories.Call<K>>, callers: seq<nat>, c: Histories.Call<K>, t: nat, u: nat)
    requires |calls| == |callers|
    ensures OwnCalls(calls + [c], callers + [t], u) == OwnCalls(calls, callers, u) + (if t == u then [c] else [])
  {
    assert (calls + [c])[..|calls|] == calls && (callers + [t])[..|calls|] == callers;
  }

  /** A thread tells the policy what its place is there for, and remembers it. */
  lemma MovingTells<K, V>(s: System<K, V>, s': System<K, V>, t: nat, own: seq<Histories.Call<K>>)
    requires t < |s.threads| == |s'.threads| && Step(s, s', t) && SightsAt(s, t) && ToldBy(own, s.threads[t])
    ensures var c := CallOf(s, s.threads[t]);
            ToldBy(if c.Some? then own + [c.value] else own, s'.threads[t])
  {
  }

  lemma ToldStep<K, V>(s: System<K, V>, s': System<K, V>, t: nat)
    requires Traced(s) && Sighted(s) && Told(s) && t < |s.threads| && Step(s, s', t)
    ensures Told(s')
  {
    StepMakesCall(s, s', t);
    StepMovesOneThread(s, s', t);
    assert SightsAt(s, t) && ToldAt(s, t);
    var own, c := OwnCalls(s.calls, s.callers, t), CallOf(s, s.threads[t]);
    MovingTells(s, s', t, own);
    forall u | 0 <= u < |s'.threads|
      ensures ToldAt(s', u)
    {
      assert ToldAt(s, u);
      if c.Some? {
        OneCallMore(s.calls, s.callers, c.value, t, u);
        assert OwnCalls(s.calls, s.callers, u) + [] == OwnCalls(s.calls, s.callers, u);
      }
    }
  }

  // ----- the invariant is inductive

  lemma TickKeepsPrompt<K, V>(s: System<K, V>, s': System<K, V>)
    requires Prompt(s) && Tick(s, s')
    ensures Prompt(s')
  {
    forall t | 0 <= t < |s'.threads|
      ensures JustAsked(s', t)
    {
      assert JustAsked(s, t);
      forall i | 0 <= i < |s'.log| && s.threads[t].place.Evicted?
        ensures AskedBefore(s', i, s.threads[t].place.asked)
      {
        assert AskedBefore(s, i, s.threads[t].place.asked);
      }
    }
  }

  /** Time may pass at any point. */
  lemma TickHolds<K(!new), V>(s: System<K, V>, s': System<K, V>)
    requires Inv(s) && Tick(s, s')
    ensures Inv(s')
  {
    forall t | 0 <= t < |s'.threads|
      ensures LocksAt(s', t) && SightsAt(s', t) && ToldAt(s', t)
    {
      assert LocksAt(s, t) && SightsAt(s, t) && ToldAt(s, t);
      SightStays(s, s', t);
    }
    TickKeepsPrompt(s, s');
    SameBalance(s, s');
    forall i | 0 <= i < |s'.log|
      ensures AuthorOf(s', i)
    {
      assert AuthorOf(s, i);
      MadeByStays(s, s', i, s.threads[s.log[i].author], s'.threads[s.log[i].author]);
    }
    forall i, j | 0 <= i < |s'.log| && 0 <= j < |s'.log|
      ensures Once(s', i, j)
    {
      assert Once(s, i, j);
    }
  }

  lemma StepHolds<K(!new), V>(s: System<K, V>, s': System<K, V>, t: nat)
    requires Inv(s) && t < |s.threads| && Step(s, s', t)
    ensures Inv(s')
  {
    LockedStep(s, s', t);
    BalancedStep(s, s', t);
    LoggedStep(s, s', t);
    TracedStep(s, s', t);
    SightedStep(s, s', t);
    PromptStep(s, s', t);
    AttributedStep(s, s', t);
    ToldStep(s, s', t);
  }

  lemma NextHolds<K(!new), V>(s: System<K, V>, s': System<K, V>)
    requires Inv(s) && Next(s, s')
    ensures Inv(s')
  {
    if Tick(s, s') {
      TickHolds(s, s');
    } else {
      var t: nat :| t < |s.threads| && Step(s, s', t);
      StepHolds(s, s', t);
    }
  }

  /** A set about to tell the policy of a new key finds it untracked, with room for it. */
  lemma InsertionIsLawful<K(!new), V>(s: System<K, V>, t: nat)
    requires Locked(s) && Balanced(s) && t < |s.threads|
    ensures var k := s.threads[t].op.key;
            s.threads[t].place.Roomy? && k !in s.data ==> k !in s.policy.uses && |s.data| + 1 <= Max(s.capacity, 1)
  {
    assert LocksAt(s, t);
    assert s.threads[t].place.Roomy? ==> AgreeOn(s, s.threads[t].op.key);
  }
}
