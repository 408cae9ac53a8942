/** The concurrent store is linearizable: every operation acts at one moment of the run, between its call and
    its return, as if it were alone. */
module ConcurrentMoments {
  import opened Collections
  import opened Stores
  import opened ConcurrentStores
  import opened ConcurrentSteps
  import opened ConcurrentRuns

  // ----- reads

  /** What thread `t` remembers of the data, once it has looked. */
  function Carried<K, V>(p: Place<K, V>): Option<Sight<V>> {
    match p
    case Hit(sight) => Some(sight)
    case Touching(sight) => Some(sight)
    case Waiting(Erase(Stale(sight))) => Some(sight)
    case Owning(Erase(Stale(sight))) => Some(sight)
    case Writing(Erase(Stale(sight))) => Some(sight)
    case Erased(Looked(sight, _)) => Some(sight)
    case Written(Looked(sight, _)) => Some(sight)
    case Unlocked(Looked(sight, _)) => Some(sight)
    case Done(Looked(sight, _)) => Some(sight)
    case _ => None
  }

  /** Thread `t` holds the data for reading, and this is what it sees now. */
  ghost predicate ReadsNow<K, V>(s: System<K, V>, t: nat, sight: Sight<V>) {
    && t < |s.threads| && s.threads[t].place.Reading? && s.threads[t].op.Get?
    && var k := s.threads[t].op.key;
       sight == Sight(if k in s.data then Some(s.data[k]) else None, |s.log|, s.now)
  }

  /** A thread that carries a sight has carried it before, or has seen it just now. */
  lemma StepCarries<K, V>(s: System<K, V>, s': System<K, V>, t: nat)
    requires t < |s.threads| == |s'.threads| && Step(s, s', t) && SightsAt(s, t)
    ensures var sight := Carried(s'.threads[t].place);
            sight.Some? ==> Carried(s.threads[t].place) == sight || ReadsNow(s, t, sight.value)
  {
  }

  /** What a thread carries it saw in one state of the run, while it held the data for reading. */
  lemma {:induction false} SightsAreMoments<K(!new), V>(run: seq<System<K, V>>, i: nat, t: nat) returns (m: nat)
    requires IsRun(run) && i < |run| && t < |run[i].threads| && Carried(run[i].threads[t].place).Some?
    ensures m < i && ReadsNow(run[m], t, Carried(run[i].threads[t].place).value)
  {
    var sight := Carried(run[i].threads[t].place);
    if i > 0 {
      var before := i - 1;
      RunHolds(run, before);
      assert Follows(run, before);
      NextKeepsOperations(run[before], run[i]);
      if Carried(run[before].threads[t].place) == sight {
        m := SightsAreMoments(run, before, t);
      } else {
        var u: nat :| u < |run[before].threads| && Step(run[before], run[i], u);
        StepMovesOneThread(run[before], run[i], u);
        assert SightsAt(run[before], t);
        StepCarries(run[before], run[i], t);
        m := before;
      }
    }
  }

  // ----- changes

  /** The step at which the log came to hold its event number `j`. */
  lemma {:induction false} ChangesAreMoments<K(!new), V>(run: seq<System<K, V>>, i: nat, j: nat) returns (m: nat)
    requires IsRun(run) && i < |run| && j < |run[i].log|
    ensures m < i && run[m].log == run[i].log[..j] && run[m + 1].log == run[i].log[..j + 1]
  {
    if i > 0 {
      var before := i - 1;
      LogGrowsByOne(run, before);
      if j < |run[before].log| {
        m := ChangesAreMoments(run, before, j);
        assert run[before].log[..j] == run[i].log[..j] && run[before].log[..j + 1] == run[i].log[..j + 1];
      } else {
        m := before;
        assert run[i].log[..j + 1] == run[i].log;
      }
    }
  }

  lemma LogGrowsByOne<K, V>(run: seq<System<K, V>>, m: nat)
    requires IsRun(run) && m + 1 < |run|
    ensures run[m].log <= run[m + 1].log && |run[m + 1].log| <= |run[m].log| + 1
  {
    var s, s' := run[m], run[m + 1];
    assert Follows(run, m);
    if !Tick(s, s') {
      var t: nat :| t < |s.threads| && Step(s, s', t);
      StepLogs(s, s', t);
    }
  }

  /** The author of a new event is the thread that steps. */
  lemma AuthorSteps<K, V>(s: System<K, V>, s': System<K, V>)
    requires Next(s, s') && |s'.log| == |s.log| + 1
    ensures var ev := s'.log[|s.log|];
            && ev.author < |s.threads| && Step(s, s', ev.author)
            && Logs(s.threads[ev.author], ev.author) == Some(ev)
  {
    var t: nat :| t < |s.threads| && Step(s, s', t);
    StepLogs(s, s', t);
  }

  // ----- linearizability

  /** What a lookup of `k` returns in this state. */
  function LookupNow<K, V>(s: System<K, V>, k: K): Option<V> {
    if k in s.data && !Expired(s.data[k], s.now) then Some(s.data[k].value) else None
  }

  /** At moment `m` thread `t` is between call and return, and there its operation does to the data what it is
      for, and finds what it answers. */
  ghost predicate TakesEffect<K, V>(run: seq<System<K, V>>, m: nat, t: nat, answer: Answer<V>)
    requires m + 1 < |run|
  {
    var s, s' := run[m], run[m + 1];
    && t < |s.threads| && !s.threads[t].place.Idle? && !s.threads[t].place.Done?
    && match s.threads[t].op
       case Get(k) =>
         && s.threads[t].place.Reading? && answer.Looked? && answer.returned == LookupNow(s, k)
         && answer.sight.at == |s.log| && answer.sight.time == s.now
       case Set(k, v, ttl) =>
         && answer == Changed(|s.log|)
         && s'.data == s.data[k := Entry(v, Deadline(ttl, s.threads[t].called))]
       case Delete(k) => answer == Changed(|s.log|) && s'.data == Without(s.data, k)
  }

  /** Every finished operation took effect at one moment of the run, between its call and its return: a get returned
      what a lookup returns in that state, a set or delete changed the data there and then, as if it were alone. */
  lemma OperationsAreLinearizable<K(!new), V>(run: seq<System<K, V>>, i: nat, t: nat) returns (m: nat)
    requires IsRun(run) && i < |run| && t < |run[i].threads| && run[i].threads[t].place.Done?
    ensures m < i && TakesEffect(run, m, t, run[i].threads[t].place.answer)
    ensures run[m].threads[t].op == run[i].threads[t].op
  {
    AnswersAreOnRecord(run, i, t);
    if run[i].threads[t].op.Get? {
      m := SightsAreMoments(run, i, t);
      GetTakesEffect(run, i, t, m);
    } else {
      m := ChangesAreMoments(run, i, run[i].threads[t].place.answer.at);
      ChangeTakesEffect(run, i, t, m);
    }
  }

  lemma GetTakesEffect<K(!new), V>(run: seq<System<K, V>>, i: nat, t: nat, m: nat)
    requires IsRun(run) && m < i < |run| && t < |run[i].threads| && run[i].threads[t].place.Done?
    requires run[i].threads[t].op.Get? && run[i].threads[t].place.answer.Looked?
    requires ReadsNow(run[m], t, run[i].threads[t].place.answer.sight)
    ensures TakesEffect(run, m, t, run[i].threads[t].place.answer)
    ensures run[m].threads[t].op == run[i].threads[t].op
  {
    RunHolds(run, i);
    assert SightsAt(run[i], t);
    OperationsStay(run, i);
    OperationsStay(run, m);
  }

  lemma ChangeTakesEffect<K(!new), V>(run: seq<System<K, V>>, i: nat, t: nat, m: nat)
    requires IsRun(run) && m < i < |run| && t < |run[i].threads| && run[i].threads[t].place.Done?
    requires run[i].threads[t].place.answer.Changed? && !run[i].threads[t].op.Get?
    requires var at := run[i].threads[t].place.answer.at;
             && at < |run[i].log| && run[i].log[at].author == t && !IsEviction(run[i].log[at])
             && run[m].log == run[i].log[..at] && run[m + 1].log == run[i].log[..at + 1]
    ensures TakesEffect(run, m, t, run[i].threads[t].place.answer)
    ensures run[m].threads[t].op == run[i].threads[t].op
  {
    var s, s' := run[m], run[m + 1];
    assert Follows(run, m);
    AuthorSteps(s, s');
    StepLogs(s, s', t);
    RunHolds(run, m);
    assert SightsAt(s, t);
    OperationsStay(run, i);
    OperationsStay(run, m);
  }

  /** Once called, an operation stays called; once finished, finished. */
  lemma {:induction false} PlacesAdvance<K(!new), V>(run: seq<System<K, V>>, p: nat, q: nat, t: nat)
    requires IsRun(run) && p <= q < |run| && t < |run[p].threads|
    ensures t < |run[q].threads|
    ensures !run[p].threads[t].place.Idle? ==> !run[q].threads[t].place.Idle?
    ensures run[p].threads[t].place.Done? ==> run[q].threads[t].place.Done?
    decreases q
  {
    if p < q {
      var before := q - 1;
      PlacesAdvance(run, p, before, t);
      assert Follows(run, before);
      if !Tick(run[before], run[q]) {
        var u: nat :| u < |run[before].threads| && Step(run[before], run[q], u);
        StepMovesOneThread(run[before], run[q], u);
        if u == t && !run[before].threads[t].place.Idle? {
          StepKeepsCall(run[before], run[q], t);
        }
      }
    }
  }

  /** The moments respect real time: an operation that was over before another was called took effect before it. */
  lemma MomentsRespectTime<K(!new), V>(
      run: seq<System<K, V>>, p: nat, t: nat, u: nat, m: nat, n: nat, first: Answer<V>, second: Answer<V>)
    requires IsRun(run) && p < |run| && t < |run[p].threads| && u < |run[p].threads|
    requires run[p].threads[t].place.Done? && run[p].threads[u].place.Idle?
    requires m + 1 < |run| && n + 1 < |run| && TakesEffect(run, m, t, first) && TakesEffect(run, n, u, second)
    ensures m < p < n
  {
    if p <= m {
      PlacesAdvance(run, p, m, t);
    }
    if n <= p {
      PlacesAdvance(run, n, p, u);
    }
  }

  /** A value that a get returned was written by a set of its key, the latest in lock order when the get looked: in
      that state no store, delete, eviction or cleanup of the key had come after it, and it had not expired. */
  lemma HitsComeFromLatestSet<K(!new), V>(run: seq<System<K, V>>, i: nat, t: nat) returns (m: nat, j: nat)
    requires IsRun(run) && i < |run| && t < |run[i].threads| && run[i].threads[t].place.Done?
    requires run[i].threads[t].op.Get? && run[i].threads[t].place.answer.Looked?
    requires run[i].threads[t].place.answer.returned.Some?
    ensures m < i && t < |run[m].threads| && run[m].threads[t].place.Reading?
    ensures var s, k, answer := run[m], run[i].threads[t].op.key, run[i].threads[t].place.answer;
            && answer.sight.at == |s.log| && answer.sight.time == s.now
            && j < |s.log| && LastStore(s.log, j, k) && s.log[j].author < |s.threads|
            && !Expired(s.log[j].entry, s.now)
            && var writer := s.threads[s.log[j].author];
               && writer.op.Set? && writer.op.key == k && answer.returned == Some(writer.op.value)
               && s.log[j].entry == Entry(writer.op.value, Deadline(writer.op.ttl, writer.called))
  {
    m := OperationsAreLinearizable(run, i, t);
    LogTellsData(run, m, run[i].threads[t].op.key);
    j := LastStoreExists(run[m].log, run[i].threads[t].op.key);
    EveryChangeHasAuthor(run, m, j);
  }

  /** If the last change of `k` was the store at position `j` of the log, this is what a lookup now finds. */
  ghost predicate KeepsTimeout<K, V>(s: System<K, V>, k: K, j: nat, returned: Option<V>) {
    j < |s.log| && LastStore(s.log, j, k) ==>
      && s.log[j].author < |s.threads|
      && var writer := s.threads[s.log[j].author];
         && writer.op.Set? && writer.op.key == k
         && returned == if writer.op.ttl.None? || s.now <= writer.called + writer.op.ttl.value
                        then Some(writer.op.value) else None
  }

  /** A concurrent get keeps to the time-outs of the sets: it looked at one state, and there, if the last change of its
      key was the store of a set called at time `t0` with time-out `ttl`, it hit if and only if there was none or the
      clock had not passed `t0 + ttl`; if there was no such store it missed. */
  lemma GetsKeepTimeouts<K(!new), V>(run: seq<System<K, V>>, i: nat, t: nat) returns (m: nat)
    requires IsRun(run) && i < |run| && t < |run[i].threads| && run[i].threads[t].place.Done?
    requires run[i].threads[t].op.Get?
    ensures m < i && t < |run[m].threads| && run[m].threads[t].place.Reading?
    ensures run[i].threads[t].place.answer.Looked?
    ensures var s, k, returned := run[m], run[i].threads[t].op.key, run[i].threads[t].place.answer.returned;
            && (forall j: nat :: KeepsTimeout(s, k, j, returned))
            && ((forall j: nat :: j < |s.log| ==> !LastStore(s.log, j, k)) ==> returned == None)
  {
    m := OperationsAreLinearizable(run, i, t);
    var s, k, returned := run[m], run[i].threads[t].op.key, run[i].threads[t].place.answer.returned;
    LogTellsData(run, m, k);
    forall j: nat
      ensures KeepsTimeout(s, k, j, returned)
    {
      if j < |s.log| && LastStore(s.log, j, k) {
        LastStoreTells(s.log, k, j);
        EveryChangeHasAuthor(run, m, j);
      }
    }
    if LastOf(s.log, k).Some? {
      var j := LastStoreExists(s.log, k);
    }
  }

  /** When an operation was called, and where the log stood then, is what the state of the call says. */
  lemma {:induction false} CallsAreMoments<K(!new), V>(run: seq<System<K, V>>, i: nat, t: nat) returns (p: nat)
    requires IsRun(run) && i < |run| && t < |run[i].threads| && !run[i].threads[t].place.Idle?
    ensures p < i && t < |run[p].threads| && run[p].threads[t].place.Idle?
    ensures t < |run[p + 1].threads| && !run[p + 1].threads[t].place.Idle?
    ensures run[i].threads[t].called == run[p].now && run[i].threads[t].since == |run[p].log|
  {
    assert i > 0 by {
      assert Init(run[0]);
    }
    var before := i - 1;
    assert Follows(run, before);
    NextKeepsOperations(run[before], run[i]);
    if run[before].threads[t].place.Idle? {
      p := before;
      assert !Tick(run[before], run[i]);
    } else {
      p := CallsAreMoments(run, before, t);
    }
    CalledOnce(run[before], run[i], t);
  }

  lemma CalledOnce<K, V>(s: System<K, V>, s': System<K, V>, t: nat)
    requires Next(s, s') && t < |s.threads| == |s'.threads| && !s'.threads[t].place.Idle?
    ensures var th := s'.threads[t];
            if s.threads[t].place.Idle? then th.called == s.now && th.since == |s.log|
            else th.called == s.threads[t].called && th.since == s.threads[t].since
  {
    if !Tick(s, s') {
      var u: nat :| u < |s.threads| && Step(s, s', u);
      StepMovesOneThread(s, s', u);
      if u == t && !s.threads[t].place.Idle? {
        StepKeepsCall(s, s', t);
      }
    }
  }
}
