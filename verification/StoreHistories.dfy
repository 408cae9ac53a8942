/** Which key a full store gives up: its sets and lookups reach the policy as the right calls, in the right
    order, and the policy's promise about calls becomes a promise of the store. */
module StoreHistories {
  import opened Collections
  import opened Ledgers
  import opened Stores
  import opened StoreRuns
  import Histories

  /** The calls that the policy sees when the store serves a call. */
  ghost function PolicyCallsOf<K, V>(s: Store<K, V>, c: Call<K, V>): seq<Histories.Call<K>> {
    match c.op
    case SetOp(k, _, _) =>
      if k in s.entries then [Histories.Access(k)]
      else if |s.entries| >= s.capacity then [Histories.EvictCall, Histories.Insert(k)]
      else [Histories.Insert(k)]
    case GetOp(k) =>
      if k !in s.entries then []
      else if Expired(s.entries[k], c.now) then [Histories.Delete(k)]
      else [Histories.Access(k)]
    case DeleteOp(k) => [Histories.Delete(k)]
  }

  /** The calls that the policy has seen in the course of a run. */
  ghost function PolicyCalls<K, V>(capacity: nat, kind: Kind, t: seq<Call<K, V>>): seq<Histories.Call<K>> {
    if t == [] then []
    else
      var before := t[..|t| - 1];
      PolicyCalls(capacity, kind, before) + PolicyCallsOf(Run(capacity, kind, before), t[|t| - 1])
  }

  /** What a call does to the policy is what the calls that the policy sees do to it. */
  lemma CallReachesPolicy<K, V>(kind: Kind, calls: seq<Histories.Call<K>>, s: Store<K, V>, c: Call<K, V>)
    requires InStep(s) && Histories.Run(kind, calls) == Some(s.policy)
    ensures Histories.Run(kind, calls + PolicyCallsOf(s, c)) == Some(Apply(s, c).policy)
  {
    var more := PolicyCallsOf(s, c);
    if more == [] {
      assert calls + more == calls;
    } else if |more| == 1 {
      assert c.op.SetOp? ==> MakeRoom(s, c.op.key) == s;
      Histories.OneCallMore(kind, calls, more[0]);
    } else {
      var k := c.op.key;
      EvictIsLawful(s.policy);
      RoomKeepsStep(s, k);
      Histories.OneCallMore(kind, calls, Histories.EvictCall);
      Histories.OneCallMore(kind, calls + [Histories.EvictCall], Histories.Insert(k));
      assert calls + more == calls + [Histories.EvictCall] + [Histories.Insert(k)];
    }
  }

  /** In every run the policy is what its calls make of it, and it never sees a tracked key inserted. */
  lemma {:induction false} RunsReachPolicy<K, V>(capacity: nat, kind: Kind, t: seq<Call<K, V>>)
    ensures Histories.Run(kind, PolicyCalls(capacity, kind, t)) == Some(Run(capacity, kind, t).policy)
  {
    if t != [] {
      var before := t[..|t| - 1];
      RunsReachPolicy(capacity, kind, before);
      CallReachesPolicy(kind, PolicyCalls(capacity, kind, before), Run(capacity, kind, before), t[|t| - 1]);
    }
  }

  // ----- the same, by the calls of the store

  /** A run as one use for every set and lookup, whatever came of it. */
  ghost function AsUses<K, V>(capacity: nat, kind: Kind, t: seq<Call<K, V>>): (u: seq<Histories.Call<K>>)
    ensures |u| == |t|
  {
    if t == [] then []
    else
      var before := t[..|t| - 1];
      AsUses(capacity, kind, before) + [AsUse(Run(capacity, kind, before), t[|t| - 1].op)]
  }

  ghost function AsUse<K, V>(s: Store<K, V>, op: Op<K, V>): Histories.Call<K> {
    match op
    case SetOp(k, _, _) => if k in s.entries then Histories.Access(k) else Histories.Insert(k)
    case GetOp(k) => Histories.Access(k)
    case DeleteOp(k) => Histories.Delete(k)
  }

  /** The policy's record of a stored key, in terms of its uses. */
  ghost predicate RecordedAt<K, V>(u: seq<Histories.Call<K>>, s: Store<K, V>, k: K)
    requires k in s.policy.uses
  {
    var kind := s.policy.kind;
    && Histories.LastUse(kind, u, k) < |u|
    && s.policy.uses[k].freq == (if kind == Lfu then Histories.UseCount(kind, u, k) else 1)
  }

  /** The policy's stamps order two stored keys as their last uses do. */
  ghost predicate OrderedAt<K, V>(u: seq<Histories.Call<K>>, s: Store<K, V>, j: K, k: K)
    requires j in s.policy.uses && k in s.policy.uses
  {
    s.policy.uses[j].stamp < s.policy.uses[k].stamp
    <==> Histories.LastUse(s.policy.kind, u, j) < Histories.LastUse(s.policy.kind, u, k)
  }

  ghost predicate Recorded<K, V>(u: seq<Histories.Call<K>>, s: Store<K, V>) {
    && (forall k {:trigger RecordedAt(u, s, k)} :: k in s.policy.uses ==> RecordedAt(u, s, k))
    && forall j, k {:trigger OrderedAt(u, s, j, k)} ::
         j in s.policy.uses && k in s.policy.uses ==> OrderedAt(u, s, j, k)
  }

  /** After one more call a stored key either has been used just now, or has its old record. */
  ghost predicate UsedOrKept<K, V>(
      u: seq<Histories.Call<K>>, x: Histories.Call<K>, s: Store<K, V>, s': Store<K, V>, k: K)
    requires k in s'.policy.uses
  {
    var kind := s.policy.kind;
    && RecordedAt(u + [x], s', k)
    && if s'.policy.uses[k].stamp >= s.policy.clock then
         !x.EvictCall? && x.key == k && Histories.LastUse(kind, u + [x], k) == |u|
       else
         && k in s.policy.uses && s'.policy.uses[k] == s.policy.uses[k]
         && Histories.LastUse(kind, u + [x], k) == Histories.LastUse(kind, u, k)
  }

  lemma OneUseMore<K>(kind: Kind, u: seq<Histories.Call<K>>, x: Histories.Call<K>, k: K)
    ensures Histories.LastUse(kind, u + [x], k)
            == if Histories.Uses(kind, x, k) then |u| else Histories.LastUse(kind, u, k)
    ensures Histories.UseCount(kind, u + [x], k)
            == if x == Histories.Insert(k) then 1
               else Histories.UseCount(kind, u, k) + (if Histories.Uses(kind, x, k) then 1 else 0)
  {
    assert (u + [x])[..|u|] == u;
  }

  lemma SetIsUse<K, V>(u: seq<Histories.Call<K>>, s: Store<K, V>, j: K, v: V, ttl: Option<nat>, now: nat, k: K)
    requires InStep(s) && Recorded(u, s) && k in Set(s, j, v, ttl, now).policy.uses
    ensures UsedOrKept(u, AsUse(s, SetOp(j, v, ttl)), s, Set(s, j, v, ttl, now), k)
  {
    RoomKeepsStep(s, j);
    EvictIsLawful(s.policy);
    OneUseMore(s.policy.kind, u, AsUse(s, SetOp(j, v, ttl)), k);
    assert k in s.policy.uses ==> RecordedAt(u, s, k) && Plausible(s.policy, k);
  }

  lemma GetIsUse<K, V>(u: seq<Histories.Call<K>>, s: Store<K, V>, j: K, now: nat, k: K)
    requires InStep(s) && Recorded(u, s) && k in Get(s, j, now).0.policy.uses
    ensures UsedOrKept(u, Histories.Access(j), s, Get(s, j, now).0, k)
  {
    OneUseMore(s.policy.kind, u, Histories.Access(j), k);
    assert k in s.policy.uses ==> RecordedAt(u, s, k) && Plausible(s.policy, k);
  }

  lemma CallIsUse<K, V>(u: seq<Histories.Call<K>>, s: Store<K, V>, c: Call<K, V>, k: K)
    requires InStep(s) && Recorded(u, s) && k in Apply(s, c).policy.uses
    ensures UsedOrKept(u, AsUse(s, c.op), s, Apply(s, c), k)
  {
    match c.op
    case SetOp(j, v, ttl) => SetIsUse(u, s, j, v, ttl, c.now, k);
    case GetOp(j) => GetIsUse(u, s, j, c.now, k);
    case DeleteOp(j) =>
      OneUseMore(s.policy.kind, u, Histories.Delete(j), k);
      assert RecordedAt(u, s, k) && Plausible(s.policy, k);
  }

  lemma CallKeepsRecords<K, V>(u: seq<Histories.Call<K>>, s: Store<K, V>, c: Call<K, V>)
    requires InStep(s) && Recorded(u, s)
    ensures Recorded(u + [AsUse(s, c.op)], Apply(s, c))
  {
    var u', s' := u + [AsUse(s, c.op)], Apply(s, c);
    ApplyKeepsStep(s, c);
    forall k | k in s'.policy.uses
      ensures RecordedAt(u', s', k)
    {
      CallIsUse(u, s, c, k);
    }
    forall j, k | j in s'.policy.uses && k in s'.policy.uses
      ensures OrderedAt(u', s', j, k)
    {
      CallIsUse(u, s, c, j);
      CallIsUse(u, s, c, k);
      assert j in s.policy.uses ==> RecordedAt(u, s, j) && Plausible(s.policy, j);
      assert k in s.policy.uses ==> RecordedAt(u, s, k) && Plausible(s.policy, k);
      assert j in s.policy.uses && k in s.policy.uses ==> OrderedAt(u, s, j, k);
    }
  }

  /** In every run the policy's records are those of the sets and lookups made. */
  lemma {:induction false} RunsAreRecorded<K, V>(capacity: nat, kind: Kind, t: seq<Call<K, V>>)
    ensures Recorded(AsUses(capacity, kind, t), Run(capacity, kind, t))
  {
    if t != [] {
      var before := t[..|t| - 1];
      RunsAreRecorded(capacity, kind, before);
      CallKeepsRecords(AsUses(capacity, kind, before), Run(capacity, kind, before), t[|t| - 1]);
    }
  }

  /** A set gives up a key exactly when its own key is new and the store is full. Then it gives up just one: the
      oldest insertion (FIFO), the oldest set or lookup (LRU), or the rarest with the oldest first (LFU), by the
      calls of the store, and so by the calls that reached the policy. */
  lemma FullStoreGivesUp<K(!new), V>(capacity: nat, kind: Kind, t: seq<Call<K, V>>, key: K)
    ensures var s := Run(capacity, kind, t);
            if key in s.entries || |s.entries| < Max(capacity, 1) then MakeRoom(s, key).entries == s.entries
            else exists v ::
                   && v in s.entries && MakeRoom(s, key).entries == Without(s.entries, v)
                   && forall k :: k in s.entries && k != v ==>
                        && Histories.GoesFirst(kind, AsUses(capacity, kind, t), v, k)
                        && Histories.GoesFirst(kind, PolicyCalls(capacity, kind, t), v, k)
  {
    var s := Run(capacity, kind, t);
    RunsReachPolicy(capacity, kind, t);
    Histories.EvictsByHistory(kind, PolicyCalls(capacity, kind, t));
    EvictIsLawful(s.policy);
    SameKeysSameSize(s.entries, s.policy.uses);
    if key !in s.entries && |s.entries| >= Max(capacity, 1) {
      var v := Evict(s.policy).1.value;
      assert v in s.entries && MakeRoom(s, key).entries == Without(s.entries, v);
      forall k | k in s.entries && k != v
        ensures Histories.GoesFirst(kind, AsUses(capacity, kind, t), v, k)
      {
        VictimByUse(capacity, kind, t, v, k);
      }
    }
  }

  lemma VictimByUse<K, V>(capacity: nat, kind: Kind, t: seq<Call<K, V>>, v: K, k: K)
    requires var l := Run(capacity, kind, t).policy; IsVictim(l, v) && k in l.uses && k != v
    ensures Histories.GoesFirst(kind, AsUses(capacity, kind, t), v, k)
  {
    var u, s := AsUses(capacity, kind, t), Run(capacity, kind, t);
    RunsAreRecorded(capacity, kind, t);
    assert RecordedAt(u, s, v) && RecordedAt(u, s, k) && OrderedAt(u, s, v, k);
    assert Plausible(s.policy, v) && Plausible(s.policy, k);
  }
}
