/** The concurrent store as a step machine. Every operation is a thread that acquires and releases two
    locks, policy before data; between acquisitions any other thread may run. The policy is its ledger. What
    a policy asks of its callers is a condition of the step that makes the call: that no such condition
    ever holds a thread up is part of what is proved. */
module ConcurrentStores {
  import opened Collections
  import opened Stores
  import Ledgers
  import Histories

  datatype Op<K, V> = Get(key: K) | Set(key: K, value: V, ttl: Option<nat>) | Delete(key: K)

  /** What a reader saw of its key: the entry, if any, at a position of the log and a time of the clock. */
  datatype Sight<V> = Sight(entry: Option<Entry<V>>, at: nat, time: nat)

  /** Why a key is erased: a delete asked for it, or a reader saw it expired. */
  datatype Cause<V> = Asked | Stale(sight: Sight<V>)

  /** What a writer is going to do. */
  datatype Body<V> = Assign(entry: Entry<V>) | Erase(cause: Cause<V>)

  /** How an operation ended: a get with what it saw and returned, a set or delete with its position in the log. */
  datatype Answer<V> = Looked(sight: Sight<V>, returned: Option<V>) | Changed(at: nat)

  datatype Place<K, V> =
    | Idle
    | Asking                                  // wants the data lock for reading
    | Reading                                 // holds it
    | Hit(sight: Sight<V>)                    // wants the policy lock, to record the access
    | Touching(sight: Sight<V>)               // holds it
    | Waiting(body: Body<V>)                  // wants the policy lock
    | Owning(body: Body<V>)                   // holds the policy lock, wants the data lock for writing
    | Writing(body: Body<V>)                  // holds both; the body has not begun
    | Evicted(entry: Entry<V>, victim: K, asked: nat) // the policy, in call number `asked`, gave up `victim`
    | Roomy(entry: Entry<V>)                  // the capacity check is over
    | Tracked(entry: Entry<V>)                // the policy knows the key
    | Erased(answer: Answer<V>)               // the data have lost the key
    | Written(answer: Answer<V>)              // the body is over
    | Unlocked(answer: Answer<V>)             // the data lock is released
    | Done(answer: Answer<V>)

  /** One operation: what was asked, where the log and the clock stood at the call, and how far it has come. */
  datatype Thread<K, V> = Thread(op: Op<K, V>, since: nat, called: nat, place: Place<K, V>)

  /** Why a key was removed: a delete, the cleanup of an expired entry, or an eviction by a call of the policy. */
  datatype Reason<V> = Deleted | Cleaned(sight: Sight<V>) | GivenUp(asked: nat)

  /** The changes made to the data, in the order of the write lock, each with the thread that made it. */
  datatype Event<K, V> = Stored(key: K, entry: Entry<V>, author: nat) | Removed(key: K, author: nat, why: Reason<V>)

  /** `calls` lists the calls of the policy in the order of its lock, and `callers` the threads that made them;
      `log` lists the changes of the data. */
  datatype System<K, V> = System(
    capacity: nat,
    kind: Ledgers.Kind,
    now: nat,
    data: map<K, Entry<V>>,
    policy: Ledgers.Ledger<K>,
    calls: seq<Histories.Call<K>>,
    callers: seq<nat>,
    policyLock: Option<nat>,
    writer: Option<nat>,
    readers: set<nat>,
    threads: seq<Thread<K, V>>,
    log: seq<Event<K, V>>)

  function With<K, V>(s: System<K, V>, t: nat, p: Place<K, V>): System<K, V>
    requires t < |s.threads|
  {
    s.(threads := s.threads[t := s.threads[t].(place := p)])
  }

  /** The call of an operation: a set fixes its deadline before it takes any lock. */
  function Begun<K, V>(s: System<K, V>, op: Op<K, V>): Thread<K, V> {
    Thread(op, |s.log|, s.now,
           match op
           case Get(_) => Asking
           case Set(_, v, ttl) => Waiting(Assign(Entry(v, Deadline(ttl, s.now))))
           case Delete(_) => Waiting(Erase(Asked)))
  }

  /** The value that a reader took along. */
  function Held<V>(sight: Sight<V>): Option<V> {
    if sight.entry.Some? then Some(sight.entry.value.value) else None
  }

  /** What a reader does next, having looked at the data. */
  function AfterRead<K, V>(s: System<K, V>, k: K): Place<K, V> {
    var sight := Sight(if k in s.data then Some(s.data[k]) else None, |s.log|, s.now);
    if k !in s.data then Done(Looked(sight, None))
    else if Expired(s.data[k], s.now) then Waiting(Erase(Stale(sight)))
    else Hit(sight)
  }

  /** How a removal is answered: a delete was asked for it, a get returns nothing. */
  function EraseAnswer<K, V>(s: System<K, V>, cause: Cause<V>): Answer<V> {
    match cause
    case Asked => Changed(|s.log|)
    case Stale(sight) => Looked(sight, None)
  }

  function Why<V>(cause: Cause<V>): Reason<V> {
    match cause
    case Asked => Deleted
    case Stale(sight) => Cleaned(sight)
  }

  /** The state after a call of the policy by thread `t`. */
  function Called<K, V>(s: System<K, V>, t: nat, policy: Ledgers.Ledger<K>, call: Histories.Call<K>): System<K, V> {
    s.(policy := policy, calls := s.calls + [call], callers := s.callers + [t])
  }

  function AfterAccess<K, V>(s: System<K, V>, t: nat, k: K): System<K, V> {
    Called(s, t, Ledgers.OnAccess(s.policy, k), Histories.Access(k))
  }

  function AfterInsert<K, V>(s: System<K, V>, t: nat, k: K): System<K, V>
    requires k !in s.policy.uses
  {
    Called(s, t, Ledgers.OnInsert(s.policy, k), Histories.Insert(k))
  }

  function AfterForget<K, V>(s: System<K, V>, t: nat, k: K): System<K, V> {
    Called(s, t, Ledgers.OnDelete(s.policy, k), Histories.Delete(k))
  }

  /** The capacity check of a set: a full store asks the policy for a victim if the key is new. */
  ghost function AfterCheck<K, V>(s: System<K, V>, t: nat, k: K, e: Entry<V>): System<K, V>
    requires t < |s.threads| && Ledgers.ValidLedger(s.policy)
  {
    if k !in s.data && |s.data| >= s.capacity then
      var (policy, victim) := Ledgers.Evict(s.policy);
      With(Called(s, t, policy, Histories.EvictCall), t,
           if victim.Some? then Evicted(e, victim.value, |s.calls|) else Roomy(e))
    else With(s, t, Roomy(e))
  }

  /** The policy update of a set. */
  function AfterRecord<K, V>(s: System<K, V>, t: nat, k: K): System<K, V>
    requires k in s.data || k !in s.policy.uses
  {
    if k in s.data then AfterAccess(s, t, k) else AfterInsert(s, t, k)
  }

  function AfterStore<K, V>(s: System<K, V>, t: nat, k: K, e: Entry<V>): System<K, V> {
    s.(data := s.data[k := e], log := s.log + [Stored(k, e, t)])
  }

  function AfterRemove<K, V>(s: System<K, V>, t: nat, k: K, why: Reason<V>): System<K, V> {
    s.(data := Without(s.data, k), log := s.log + [Removed(k, t, why)])
  }

  /** Thread `t` takes one step. */
  ghost predicate Step<K, V>(s: System<K, V>, s': System<K, V>, t: nat)
    requires t < |s.threads|
  {
    var k := s.threads[t].op.key;
    match s.threads[t].place
    case Idle => s' == s.(threads := s.threads[t := Begun(s, s.threads[t].op)])
    case Asking => s.writer.None? && s' == With(s.(readers := s.readers + {t}), t, Reading)
    case Reading => s' == With(s.(readers := s.readers - {t}), t, AfterRead(s, k))
    case Hit(sight) => s.policyLock.None? && s' == With(s.(policyLock := Some(t)), t, Touching(sight))
    case Touching(sight) => s' == With(AfterAccess(s, t, k).(policyLock := None), t, Done(Looked(sight, Held(sight))))
    case Waiting(body) => s.policyLock.None? && s' == With(s.(policyLock := Some(t)), t, Owning(body))
    case Owning(body) =>
      s.writer.None? && s.readers == {} && s' == With(s.(writer := Some(t)), t, Writing(body))
    case Writing(Assign(e)) => Ledgers.ValidLedger(s.policy) && s' == AfterCheck(s, t, k, e)
    case Evicted(e, v, asked) => s' == With(AfterRemove(s, t, v, GivenUp(asked)), t, Roomy(e))
    case Roomy(e) => (k in s.data || k !in s.policy.uses) && s' == With(AfterRecord(s, t, k), t, Tracked(e))
    case Tracked(e) => s' == With(AfterStore(s, t, k, e), t, Written(Changed(|s.log|)))
    case Writing(Erase(cause)) => s' == With(AfterRemove(s, t, k, Why(cause)), t, Erased(EraseAnswer(s, cause)))
    case Erased(answer) => s' == With(AfterForget(s, t, k), t, Written(answer))
    case Written(answer) => s' == With(s.(writer := None), t, Unlocked(answer))
    case Unlocked(answer) => s' == With(s.(policyLock := None), t, Done(answer))
    case Done(_) => false
  }

  ghost predicate Tick<K, V>(s: System<K, V>, s': System<K, V>) {
    s'.now >= s.now && s' == s.(now := s'.now)
  }

  ghost predicate Next<K, V>(s: System<K, V>, s': System<K, V>) {
    Tick(s, s') || exists t: nat :: t < |s.threads| && Step(s, s', t)
  }

  /** State number `i` of a run leads to the next one. */
  ghost predicate Follows<K, V>(run: seq<System<K, V>>, i: nat)
    requires i + 1 < |run|
  {
    Next(run[i], run[i + 1])
  }

  /** An empty store and any number of operations about to be called. */
  ghost predicate Init<K, V>(s: System<K, V>) {
    && s.data == map[] && s.log == [] && s.policy == Ledgers.New(s.kind)
    && s.calls == [] && s.callers == []
    && s.policyLock.None? && s.writer.None? && s.readers == {}
    && forall t {:trigger s.threads[t]} :: 0 <= t < |s.threads| ==> s.threads[t].place.Idle?
  }

  // ----- the invariant

  predicate HoldsData<K, V>(p: Place<K, V>) {
    p.Writing? || p.Evicted? || p.Roomy? || p.Tracked? || p.Erased? || p.Written?
  }

  predicate HoldsPolicy<K, V>(p: Place<K, V>) {
    HoldsData(p) || p.Touching? || p.Owning? || p.Unlocked?
  }

  /** The locks are held by the threads that are where they hold them. */
  ghost predicate LocksAt<K, V>(s: System<K, V>, t: nat)
    requires t < |s.threads|
  {
    && (HoldsPolicy(s.threads[t].place) <==> s.policyLock == Some(t))
    && (HoldsData(s.threads[t].place) <==> s.writer == Some(t))
    && (s.threads[t].place.Reading? <==> t in s.readers)
  }

  ghost predicate Locked<K, V>(s: System<K, V>) {
    && (forall t :: 0 <= t < |s.threads| ==> LocksAt(s, t))
    && (s.policyLock.Some? ==> s.policyLock.value < |s.threads|)
    && (s.writer.Some? ==> s.writer.value < |s.threads| && s.readers == {})
    && (forall t :: t in s.readers ==> t < |s.threads|)
  }

  ghost predicate AgreeOn<K, V>(s: System<K, V>, k: K) {
    k in s.policy.uses <==> k in s.data
  }

  /** The policy tracks exactly the stored keys. */
  ghost predicate Agree<K(!new), V>(s: System<K, V>) {
    forall k :: AgreeOn(s, k)
  }

  function Limit<K, V>(s: System<K, V>): int {
    Max(s.capacity, 1)
  }

  /** There is room for `k`. */
  predicate Fits<K, V>(s: System<K, V>, k: K) {
    k in s.data || |s.data| < Limit(s)
  }

  /** How data and policy differ in the middle of a writer's body. */
  ghost predicate MidBody<K(!new), V>(s: System<K, V>, th: Thread<K, V>) {
    var k := th.op.key;
    match th.place
    case Evicted(_, v, _) =>
      && k !in s.data && v in s.data && v !in s.policy.uses && |s.data| >= s.capacity
      && forall j {:trigger AgreeOn(s, j)} :: j != v ==> AgreeOn(s, j)
    case Roomy(_) => Agree(s) && Fits(s, k)
    case Tracked(_) => k in s.policy.uses && Fits(s, k) && forall j {:trigger AgreeOn(s, j)} :: j != k ==> AgreeOn(s, j)
    case Erased(_) => k !in s.data && forall j {:trigger AgreeOn(s, j)} :: j != k ==> AgreeOn(s, j)
    case _ => Agree(s)
  }

  /** Outside a writer's body the policy and the data agree; the capacity limit holds at all times. */
  ghost predicate Balanced<K(!new), V>(s: System<K, V>) {
    && |s.data| <= Limit(s)
    && (if s.writer.Some? && s.writer.value < |s.threads| then MidBody(s, s.threads[s.writer.value]) else Agree(s))
  }

  /** The data after these changes. */
  ghost function DataAfter<K, V>(log: seq<Event<K, V>>): map<K, Entry<V>> {
    if log == [] then map[]
    else
      var before := DataAfter(log[..|log| - 1]);
      match log[|log| - 1]
      case Stored(k, e, _) => before[k := e]
      case Removed(k, _, _) => Without(before, k)
  }

  /** The entry that the changes leave for `k`. */
  ghost function LastOf<K, V>(log: seq<Event<K, V>>, k: K): Option<Entry<V>> {
    var data := DataAfter(log);
    if k in data then Some(data[k]) else None
  }

  /** The data are what the logged changes add up to. */
  ghost predicate Logged<K, V>(s: System<K, V>) {
    s.data == DataAfter(s.log)
  }

  /** The policy is what its calls make of it; none of them inserts a tracked key. */
  ghost predicate Traced<K, V>(s: System<K, V>) {
    Histories.Run(s.kind, s.calls) == Some(s.policy)
  }

  /** Call number `asked` of the policy gave up `v`. */
  ghost predicate GaveUp<K, V>(s: System<K, V>, asked: nat, v: K) {
    && asked < |s.calls| && s.calls[asked] == Histories.EvictCall
    && Histories.Run(s.kind, s.calls[..asked]).Some?
    && Ledgers.Evict(Histories.Run(s.kind, s.calls[..asked]).value).1 == Some(v)
  }

  /** The keys that the policy tracked when its call number `asked` was made. */
  ghost function TrackedAt<K, V>(s: System<K, V>, asked: nat): set<K>
    requires asked <= |s.calls|
  {
    var l := Histories.Run(s.kind, s.calls[..asked]);
    if l.Some? then l.value.uses.Keys else {}
  }

  /** A sight is genuine: at its position, within the operation, that was what the log held for the key. */
  ghost predicate Genuine<K, V>(s: System<K, V>, th: Thread<K, V>, sight: Sight<V>) {
    && th.op.Get? && th.since <= sight.at <= |s.log| && th.called <= sight.time <= s.now
    && LastOf(s.log[..sight.at], th.op.key) == sight.entry
  }

  /** What a lookup returns that sees this. */
  function Visible<V>(sight: Sight<V>): Option<V> {
    if sight.entry.Some? && !Expired(sight.entry.value, sight.time) then Some(sight.entry.value.value) else None
  }

  /** The sight is of an entry that had expired. */
  ghost predicate SawExpired<K, V>(s: System<K, V>, th: Thread<K, V>, sight: Sight<V>) {
    Genuine(s, th, sight) && sight.entry.Some? && Expired(sight.entry.value, sight.time)
  }

  /** The entry is the one that the set was called with. */
  ghost predicate AsCalled<K, V>(th: Thread<K, V>, e: Entry<V>) {
    th.op.Set? && e == Entry(th.op.value, Deadline(th.op.ttl, th.called))
  }

  ghost predicate BodyOk<K, V>(s: System<K, V>, th: Thread<K, V>, body: Body<V>) {
    match body
    case Assign(e) => AsCalled(th, e)
    case Erase(Asked) => th.op.Delete?
    case Erase(Stale(sight)) => SawExpired(s, th, sight)
  }

  /** The answer of thread `t` is on record between its call and now: a get returned what its sight says, a set or
      delete made its own change. */
  ghost predicate AnswerOk<K, V>(s: System<K, V>, t: nat, th: Thread<K, V>, answer: Answer<V>) {
    match answer
    case Looked(sight, returned) => Genuine(s, th, sight) && returned == Visible(sight)
    case Changed(at) =>
      && th.since <= at < |s.log|
      && match th.op
         case Get(_) => false
         case Set(k, v, ttl) => s.log[at] == Stored(k, Entry(v, Deadline(ttl, th.called)), t)
         case Delete(k) => s.log[at] == Removed(k, t, Deleted)
  }

  ghost predicate SightsAt<K, V>(s: System<K, V>, t: nat)
    requires t < |s.threads|
  {
    var th := s.threads[t];
    && (!th.place.Idle? ==> th.since <= |s.log| && th.called <= s.now)
    && match th.place
       case Idle => true
       case Asking => th.op.Get?
       case Reading => th.op.Get?
       case Hit(sight) => Genuine(s, th, sight) && Visible(sight).Some?
       case Touching(sight) => Genuine(s, th, sight) && Visible(sight).Some?
       case Waiting(body) => BodyOk(s, th, body)
       case Owning(body) => BodyOk(s, th, body)
       case Writing(body) => BodyOk(s, th, body)
       case Evicted(e, v, asked) => AsCalled(th, e) && GaveUp(s, asked, v)
       case Roomy(e) => AsCalled(th, e)
       case Tracked(e) => AsCalled(th, e)
       case Erased(answer) => AnswerOk(s, t, th, answer)
       case Written(answer) => AnswerOk(s, t, th, answer)
       case Unlocked(answer) => AnswerOk(s, t, th, answer)
       case Done(answer) => AnswerOk(s, t, th, answer)
  }

  ghost predicate Sighted<K, V>(s: System<K, V>) {
    forall t :: 0 <= t < |s.threads| ==> SightsAt(s, t)
  }

  // ----- who made which change, and why

  ghost predicate Answers<K, V>(p: Place<K, V>, answer: Answer<V>) {
    p == Erased(answer) || p == Written(answer) || p == Unlocked(answer) || p == Done(answer)
  }

  predicate PastEviction<K, V>(p: Place<K, V>) {
    p.Roomy? || p.Tracked? || p.Written? || p.Unlocked? || p.Done?
  }

  /** At position `i` of the log the store was full, `k` was not in it and `v` was. */
  ghost predicate Full<K, V>(s: System<K, V>, i: nat, k: K, v: K)
    requires i <= |s.log|
  {
    var data := DataAfter(s.log[..i]);
    |data| >= s.capacity && k !in data && v in data
  }

  /** Event `i` was made by an operation that asked for it, and that knows it as its own. */
  ghost predicate MadeBy<K, V>(s: System<K, V>, i: nat, th: Thread<K, V>)
    requires i < |s.log|
  {
    match s.log[i]
    case Stored(k, e, _) => th.op.Set? && th.op.key == k && AsCalled(th, e) && Answers(th.place, Changed(i))
    case Removed(k, _, Deleted) => th.op == Delete(k) && Answers(th.place, Changed(i))
    case Removed(k, _, Cleaned(sight)) =>
      th.op == Get(k) && SawExpired(s, th, sight) && sight.at <= i && Answers(th.place, Looked(sight, None))
    case Removed(v, _, GivenUp(asked)) =>
      && th.op.Set? && PastEviction(th.place) && Full(s, i, th.op.key, v)
      && GaveUp(s, asked, v) && TrackedAt(s, asked) == DataAfter(s.log[..i]).Keys
  }

  ghost predicate AuthorOf<K, V>(s: System<K, V>, i: nat)
    requires i < |s.log|
  {
    var t := s.log[i].author;
    t < |s.threads| && !s.threads[t].place.Idle? && s.threads[t].since <= i && MadeBy(s, i, s.threads[t])
  }

  predicate IsEviction<K, V>(ev: Event<K, V>) {
    ev.Removed? && ev.why.GivenUp?
  }

  /** No operation makes two changes, but for a set that evicts and then stores; and evictions are made in the
      order in which the policy was asked for them. */
  ghost predicate Once<K, V>(s: System<K, V>, i: nat, j: nat)
    requires i < |s.log| && j < |s.log|
  {
    i < j ==>
      && (s.log[i].author == s.log[j].author ==> IsEviction(s.log[i]) && s.log[j].Stored?)
      && (IsEviction(s.log[i]) && IsEviction(s.log[j]) ==> s.log[i].why.asked < s.log[j].why.asked)
  }

  ghost predicate Attributed<K, V>(s: System<K, V>) {
    && (forall i :: 0 <= i < |s.log| ==> AuthorOf(s, i))
    && forall i, j {:trigger Once(s, i, j)} :: 0 <= i < |s.log| && 0 <= j < |s.log| ==> Once(s, i, j)
  }

  ghost predicate AskedBefore<K, V>(s: System<K, V>, i: nat, asked: nat)
    requires i < |s.log|
  {
    IsEviction(s.log[i]) ==> s.log[i].why.asked < asked
  }

  /** A thread about to remove a victim has just asked for it: no call of the policy and no change of the data
      has come between, and at that call the policy tracked exactly the stored keys. */
  ghost predicate JustAsked<K, V>(s: System<K, V>, t: nat)
    requires t < |s.threads|
  {
    s.threads[t].place.Evicted? ==>
      var asked := s.threads[t].place.asked;
      && asked + 1 == |s.calls| && TrackedAt(s, asked) == s.data.Keys
      && forall i :: 0 <= i < |s.log| ==> AskedBefore(s, i, asked)
  }

  ghost predicate Prompt<K, V>(s: System<K, V>) {
    forall t :: 0 <= t < |s.threads| ==> JustAsked(s, t)
  }

  // ----- who made which call of the policy

  /** The calls of the policy that thread `t` made, in order. */
  ghost function OwnCalls<K>(calls: seq<Histories.Call<K>>, callers: seq<nat>, t: nat): seq<Histories.Call<K>>
    requires |calls| == |callers|
  {
    if calls == [] then []
    else
      var last := |calls| - 1;
      OwnCalls(calls[..last], callers[..last], t) + (if callers[last] == t then [calls[last]] else [])
  }

  /** The calls of a set: an eviction or none, then an access or an insertion of its key. */
  predicate CallsOfSet<K(==)>(own: seq<Histories.Call<K>>, k: K) {
    || own == [Histories.Access(k)] || own == [Histories.Insert(k)]
    || own == [Histories.EvictCall, Histories.Access(k)] || own == [Histories.EvictCall, Histories.Insert(k)]
  }

  /** The calls of an operation that has done its part: a hit records its access, a removal is reported. */
  ghost predicate CallsOf<K, V>(own: seq<Histories.Call<K>>, op: Op<K, V>, answer: Answer<V>) {
    match op
    case Set(k, _, _) => CallsOfSet(own, k)
    case Delete(k) => own == [Histories.Delete(k)]
    case Get(k) =>
      answer.Looked?
      && own == if answer.returned.Some? then [Histories.Access(k)]
                else if answer.sight.entry.Some? then [Histories.Delete(k)]
                else []
  }

  /** A delete erases its key, and so does a get that saw it expired. */
  predicate Erases<K, V>(op: Op<K, V>, answer: Answer<V>) {
    op.Delete? || (op.Get? && answer.Looked? && answer.returned.None? && answer.sight.entry.Some?)
  }

  /** What a thread has told the policy so far. */
  ghost predicate ToldBy<K, V>(own: seq<Histories.Call<K>>, th: Thread<K, V>) {
    match th.place
    case Evicted(_, _, _) => own == [Histories.EvictCall]
    case Roomy(_) => own == [] || own == [Histories.EvictCall]
    case Tracked(_) => CallsOfSet(own, th.op.key)
    case Erased(answer) => own == [] && Erases(th.op, answer)
    case Written(answer) => CallsOf(own, th.op, answer)
    case Unlocked(answer) => CallsOf(own, th.op, answer)
    case Done(answer) => CallsOf(own, th.op, answer)
    case _ => own == []
  }

  ghost predicate ToldAt<K, V>(s: System<K, V>, t: nat)
    requires |s.calls| == |s.callers| && t < |s.threads|
  {
    ToldBy(OwnCalls(s.calls, s.callers, t), s.threads[t])
  }

  ghost predicate Told<K, V>(s: System<K, V>) {
    && |s.calls| == |s.callers|
    && (forall i :: 0 <= i < |s.callers| ==> s.callers[i] < |s.threads|)
    && forall t :: 0 <= t < |s.threads| ==> ToldAt(s, t)
  }

  ghost predicate Inv<K(!new), V>(s: System<K, V>) {
    && Locked(s) && Balanced(s) && Logged(s) && Traced(s) && Sighted(s) && Prompt(s) && Attributed(s)
    && Told(s)
  }
}
