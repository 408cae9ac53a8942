/** Two stores, one smaller than the other, serving the same calls. Under LRU the smaller one always
    holds a part of what the larger holds. */
module Inclusion {
  import opened Collections
  import opened Ledgers
  import opened Stores
  import opened StoreRuns

  /** `j` was used before `k` in the one store iff it was in the other. */
  ghost predicate SameAge<K, V>(s: Store<K, V>, b: Store<K, V>, j: K, k: K)
    requires j in s.policy.uses && k in s.policy.uses && j in b.policy.uses && k in b.policy.uses
  {
    s.policy.uses[j].stamp < s.policy.uses[k].stamp <==> b.policy.uses[j].stamp < b.policy.uses[k].stamp
  }

  ghost predicate Shared<K, V>(s: Store<K, V>, b: Store<K, V>, k: K)
    requires k in s.entries
  {
    k in b.entries && b.entries[k] == s.entries[k]
  }

  /** The smaller store's keys are among the larger's, with the same entries. */
  ghost predicate Within<K, V>(s: Store<K, V>, b: Store<K, V>) {
    && InStep(s) && InStep(b) && s.policy.kind == Lru && b.policy.kind == Lru
    && forall k {:trigger Shared(s, b, k)} :: k in s.entries ==> Shared(s, b, k)
  }

  /** The two stores agree on the order in which the shared keys were last used. */
  ghost predicate Aligned<K, V>(s: Store<K, V>, b: Store<K, V>)
    requires Within(s, b)
  {
    forall j, k {:trigger SameAge(s, b, j, k)} :: j in s.entries && k in s.entries ==>
      Shared(s, b, j) && Shared(s, b, k) && SameAge(s, b, j, k)
  }

  /** The number of keys a store really holds: even with capacity 0 it keeps one. */
  function Room<K, V>(s: Store<K, V>): int {
    Max(s.capacity, 1)
  }

  /** The invariant: inclusion, alignment, and a surplus no larger than the difference in capacity. The
      surplus is what rules out that only the larger store has to evict. */
  ghost predicate Included<K, V>(s: Store<K, V>, b: Store<K, V>) {
    && Within(s, b) && Aligned(s, b)
    && s.capacity <= b.capacity
    && |b.entries| - |s.entries| <= Room(b) - Room(s)
  }

  lemma VictimIsOldest<K, V>(s: Store<K, V>, k: K)
    requires InStep(s) && s.policy.kind == Lru && k in s.entries
    ensures s.policy.uses != map[]
    ensures var v := Victim(s.policy); v in s.entries && (k != v ==> s.policy.uses[v].stamp < s.policy.uses[k].stamp)
  {
    assert k in s.policy.uses;
    var v := Victim(s.policy);
    assert Plausible(s.policy, v) && Plausible(s.policy, k);
  }

  /** A larger store that must evict pushes out a key the smaller store does not keep. */
  lemma RoomsStayWithin<K, V>(s: Store<K, V>, b: Store<K, V>, key: K)
    requires Included(s, b)
    ensures var s', b' := MakeRoom(s, key), MakeRoom(b, key);
            && Within(s', b') && Aligned(s', b')
            && (key in s.entries ==> s' == s)
            && (key in b.entries ==> b' == b)
            && |b'.entries| + (if key in b.entries then 0 else 1) - (|s'.entries| + (if key in s.entries then 0 else 1))
               <= Room(b) - Room(s)
  {
    assert key in s.entries ==> Shared(s, b, key);
    RoomKeepsStep(s, key);
    RoomKeepsStep(b, key);
    EvictIsLawful(s.policy);
    EvictIsLawful(b.policy);
    var s', b' := MakeRoom(s, key), MakeRoom(b, key);
    RoomSize(s, key);
    RoomSize(b, key);
    forall k | k in s'.entries
      ensures Shared(s', b', k)
    {
      RoomKeepsEntries(s, key, k);
      assert Shared(s, b, k);
      if k !in b'.entries {
        LargerVictimGoesFirst(s, b, key, k);
      }
    }
    forall j, k | j in s'.entries && k in s'.entries
      ensures Shared(s', b', j) && Shared(s', b', k) && SameAge(s', b', j, k)
    {
      RoomKeepsEntries(s, key, j);
      RoomKeepsEntries(s, key, k);
      assert SameAge(s, b, j, k);
    }
  }

  lemma RoomSize<K, V>(s: Store<K, V>, key: K)
    requires InStep(s)
    ensures |MakeRoom(s, key).entries|
            == |s.entries| - (if key !in s.entries && |s.entries| >= Room(s) then 1 else 0)
    ensures MakeRoom(s, key).capacity == s.capacity && MakeRoom(s, key).policy.kind == s.policy.kind
  {
    SameKeysSameSize(s.entries, s.policy.uses);
    EvictIsLawful(s.policy);
    if Evict(s.policy).1.Some? {
      WithoutShrinks(s.entries, Evict(s.policy).1.value);
    }
  }

  /** Both evict, and a shared key that the larger store drops is the smaller store's victim too. */
  lemma LargerVictimGoesFirst<K, V>(s: Store<K, V>, b: Store<K, V>, key: K, k: K)
    requires Included(s, b) && InStep(MakeRoom(s, key)) && InStep(MakeRoom(b, key))
    requires k in s.entries && Shared(s, b, k) && k !in MakeRoom(b, key).entries
    ensures k !in MakeRoom(s, key).entries
  {
    assert key in s.entries ==> Shared(s, b, key);
    assert key !in b.entries && |b.entries| >= Room(b) && |s.entries| >= Room(s);
    VictimIsOldest(s, k);
    VictimIsOldest(b, k);
    var v := Victim(s.policy);
    assert k == Victim(b.policy);
    if v != k {
      assert Shared(s, b, v) && SameAge(s, b, v, k);
      VictimIsOldest(b, v);
    }
  }

  /** A key used by both stores at once becomes the youngest in both. */
  lemma UseTogether<K, V>(s: Store<K, V>, b: Store<K, V>, s': Store<K, V>, b': Store<K, V>, key: K)
    requires Within(s, b) && Aligned(s, b) && Within(s', b')
    requires key in s'.entries && Used(s, s', key) && Used(b, b', key)
    ensures Aligned(s', b')
  {
    forall j, k | j in s'.entries && k in s'.entries
      ensures Shared(s', b', j) && Shared(s', b', k) && SameAge(s', b', j, k)
    {
      assert Shared(s', b', j) && Shared(s', b', k);
      assert j != key ==> Shared(s, b, j) && Plausible(s.policy, j) && Plausible(b.policy, j);
      assert k != key ==> Shared(s, b, k) && Plausible(s.policy, k) && Plausible(b.policy, k);
      assert j != key && k != key ==> SameAge(s, b, j, k);
    }
  }

  /** `s'` is `s` with `key` stamped as the latest use and every other key as it was. */
  ghost predicate Used<K, V>(s: Store<K, V>, s': Store<K, V>, key: K) {
    && key in s'.policy.uses && s'.policy.uses[key].stamp == s.policy.clock
    && forall k :: k in s'.policy.uses && k != key ==> k in s.policy.uses && s'.policy.uses[k] == s.policy.uses[k]
  }

  lemma SetKeepsInclusion<K, V>(s: Store<K, V>, b: Store<K, V>, key: K, value: V, ttl: Option<nat>, now: nat)
    requires Included(s, b)
    ensures Included(Set(s, key, value, ttl, now), Set(b, key, value, ttl, now))
  {
    RoomsStayWithin(s, b, key);
    SetKeepsStep(s, key, value, ttl, now);
    SetKeepsStep(b, key, value, ttl, now);
    var rs, rb := MakeRoom(s, key), MakeRoom(b, key);
    var s', b' := Set(s, key, value, ttl, now), Set(b, key, value, ttl, now);
    RoomKeepsStep(s, key);
    RoomKeepsStep(b, key);
    SetSize(s, key, value, ttl, now);
    SetSize(b, key, value, ttl, now);
    forall k | k in s'.entries
      ensures Shared(s', b', k)
    {
      assert k != key ==> Shared(rs, rb, k);
    }
    UseTogether(rs, rb, s', b', key);
  }

  lemma SetSize<K, V>(s: Store<K, V>, key: K, value: V, ttl: Option<nat>, now: nat)
    requires InStep(s)
    ensures |Set(s, key, value, ttl, now).entries| == |MakeRoom(s, key).entries| + (if key in s.entries then 0 else 1)
    ensures Set(s, key, value, ttl, now).capacity == s.capacity
    ensures Set(s, key, value, ttl, now).policy.kind == s.policy.kind
    ensures s.policy.kind == Lru ==> Used(MakeRoom(s, key), Set(s, key, value, ttl, now), key)
  {
    RoomKeepsStep(s, key);
    RoomSize(s, key);
    var room, after := MakeRoom(s, key).entries, Set(s, key, value, ttl, now).entries;
    assert after.Keys == room.Keys + {key};
    assert |after| == |after.Keys| && |room| == |room.Keys|;
  }

  lemma RemoveKeepsInclusion<K, V>(s: Store<K, V>, b: Store<K, V>, key: K)
    requires Included(s, b)
    ensures Included(Remove(s, key), Remove(b, key))
  {
    RemoveKeepsStep(s, key);
    RemoveKeepsStep(b, key);
    WithoutShrinks(s.entries, key);
    WithoutShrinks(b.entries, key);
    assert key in s.entries ==> Shared(s, b, key);
    var s', b' := Remove(s, key), Remove(b, key);
    forall k | k in s'.entries
      ensures Shared(s', b', k)
    {
      assert Shared(s, b, k);
    }
    forall j, k | j in s'.entries && k in s'.entries
      ensures Shared(s', b', j) && Shared(s', b', k) && SameAge(s', b', j, k)
    {
      assert Shared(s', b', j) && Shared(s', b', k) && SameAge(s, b, j, k);
    }
  }

  /** A lookup of a key that only the larger store holds moves or drops it there alone. */
  lemma GetKeepsInclusion<K, V>(s: Store<K, V>, b: Store<K, V>, key: K, now: nat)
    requires Included(s, b)
    ensures Included(Get(s, key, now).0, Get(b, key, now).0)
    ensures Get(s, key, now).1.Some? ==> Get(b, key, now).1 == Get(s, key, now).1
  {
    GetKeepsStep(s, key, now);
    GetKeepsStep(b, key, now);
    var s', b' := Get(s, key, now).0, Get(b, key, now).0;
    if key in s.entries {
      assert Shared(s, b, key);
      if Expired(s.entries[key], now) {
        RemoveKeepsInclusion(s, b, key);
      } else {
        SameEntriesWithin(s, b, s', b');
        UseTogether(s, b, s', b', key);
      }
    } else if key in b.entries {
      WithoutShrinks(b.entries, key);
      forall k | k in s'.entries
        ensures Shared(s', b', k)
      {
        assert Shared(s, b, k);
      }
      forall j, k | j in s'.entries && k in s'.entries
        ensures Shared(s', b', j) && Shared(s', b', k) && SameAge(s', b', j, k)
      {
        assert Shared(s', b', j) && Shared(s', b', k) && SameAge(s, b, j, k);
      }
    }
  }

  lemma SameEntriesWithin<K, V>(s: Store<K, V>, b: Store<K, V>, s': Store<K, V>, b': Store<K, V>)
    requires Within(s, b) && InStep(s') && InStep(b') && s'.entries == s.entries && b'.entries == b.entries
    requires s'.policy.kind == Lru && b'.policy.kind == Lru
    ensures Within(s', b')
  {
    forall k | k in s'.entries
      ensures Shared(s', b', k)
    {
      assert Shared(s, b, k);
    }
  }

  /** LRU inclusion: after any calls, every key of the smaller store is in the larger one, with the same
      entry and in the same order of use. */
  lemma {:induction false} SmallerIsIncluded<K, V>(c1: nat, c2: nat, t: seq<Call<K, V>>)
    requires c1 <= c2
    ensures Included(Run(c1, Lru, t), Run(c2, Lru, t))
  {
    if t != [] {
      var t', c := t[..|t| - 1], t[|t| - 1];
      SmallerIsIncluded(c1, c2, t');
      var s, b := Run(c1, Lru, t'), Run(c2, Lru, t');
      match c.op
      case SetOp(k, v, ttl) => SetKeepsInclusion(s, b, k, v, ttl, c.now);
      case GetOp(k) => GetKeepsInclusion(s, b, k, c.now);
      case DeleteOp(k) => RemoveKeepsInclusion(s, b, k);
    }
  }

  /** More capacity never loses a hit: what the smaller LRU store answers, the larger answers too. */
  lemma MoreCapacityKeepsHits<K, V>(c1: nat, c2: nat, t: seq<Call<K, V>>, k: K, now: nat)
    requires c1 <= c2
    ensures var small, large := Get(Run(c1, Lru, t), k, now).1, Get(Run(c2, Lru, t), k, now).1;
            small.Some? ==> large == small
  {
    SmallerIsIncluded(c1, c2, t);
    GetKeepsInclusion(Run(c1, Lru, t), Run(c2, Lru, t), k, now);
  }
}
