/** For which capacities a smaller store is always part of a larger one. LRU has this for all capacities;
    FIFO and LFU have it only where the stores are equal or the smaller one holds a single key. */
module InclusionLimits {
  import opened Collections
  import opened Ledgers
  import opened Stores
  import opened StoreRuns
  import Inclusion

  /** The entries of `s` are among those of `b`. */
  ghost predicate Contained<K, V>(s: Store<K, V>, b: Store<K, V>) {
    forall k {:trigger Inclusion.Shared(s, b, k)} :: k in s.entries ==> Inclusion.Shared(s, b, k)
  }

  // ----- a store of a single key

  lemma SetOfSingle<K, V>(s: Store<K, V>, k: K, v: V, ttl: Option<nat>, now: nat)
    requires InStep(s) && s.capacity <= 1
    ensures Set(s, k, v, ttl, now).entries == map[k := Entry(v, Deadline(ttl, now))]
  {
    RoomKeepsStep(s, k);
    SetKeepsStep(s, k, v, ttl, now);
    var after := Set(s, k, v, ttl, now).entries;
    forall j | j in after
      ensures j == k
    {
      OnlyOneKey(after, j, k);
    }
  }

  lemma OnlyOneKey<K, V>(m: map<K, V>, j: K, k: K)
    requires |m| <= 1 && j in m && k in m
    ensures j == k
  {
    if j != k {
      assert {j, k} <= m.Keys && |m| == |m.Keys|;
      SubsetSize({j, k}, m.Keys);
    }
  }

  lemma {:induction false} SubsetSize<T>(a: set<T>, b: set<T>)
    requires a <= b
    ensures |a| <= |b|
  {
    if a != {} {
      var x :| x in a;
      SubsetSize(a - {x}, b - {x});
    }
  }

  /** The single key of the smaller store is the one set last, and the larger store has just been given it. */
  lemma {:induction false} SingleIsContained<K, V>(c1: nat, c2: nat, kind: Kind, t: seq<Call<K, V>>)
    requires c1 <= 1 && c1 <= c2
    ensures Contained(Run(c1, kind, t), Run(c2, kind, t))
  {
    if t != [] {
      var before, c := t[..|t| - 1], t[|t| - 1];
      SingleIsContained(c1, c2, kind, before);
      var s, b := Run(c1, kind, before), Run(c2, kind, before);
      var s', b' := Run(c1, kind, t), Run(c2, kind, t);
      forall k | k in s'.entries
        ensures Inclusion.Shared(s', b', k)
      {
        match c.op
        case SetOp(j, v, ttl) =>
          SetOfSingle(s, j, v, ttl, c.now);
          SetKeepsStep(b, j, v, ttl, c.now);
        case GetOp(j) =>
          assert Inclusion.Shared(s, b, k);
          if j in s.entries && j != k {
            OnlyOneKey(s.entries, j, k);
          }
        case DeleteOp(j) => assert Inclusion.Shared(s, b, k);
      }
    }
  }

  // ----- stores that keep no entry for a limited time

  function SetOf<V>(k: nat, v: V): Call<nat, V> {
    Call(SetOp(k, v, None), 0)
  }

  function GetOf<V>(k: nat): Call<nat, V> {
    Call(GetOp(k), 0)
  }

  lemma RunMore<K, V>(capacity: nat, kind: Kind, t: seq<Call<K, V>>, c: Call<K, V>)
    ensures Run(capacity, kind, t + [c]) == Apply(Run(capacity, kind, t), c)
  {
    assert (t + [c])[..|t|] == t;
  }

  /** The store is in step, holds `size` keys, and none of them can expire. */
  ghost predicate Lasting<V>(s: Store<nat, V>, size: nat) {
    InStep(s) && |s.entries| == size && forall k :: k in s.entries ==> s.entries[k].expiresAt.None?
  }

  lemma HitTouches<V>(s: Store<nat, V>, size: nat, k: nat, v: V)
    requires Lasting(s, size) && k in s.entries
    ensures var uses := s.policy.uses[k := Touched(s.policy.kind, s.policy.uses[k], s.policy.clock)];
            && Lasting(Get(s, k, 0).0, size) && Lasting(Set(s, k, v, None, 0), size)
            && Get(s, k, 0).0.policy == Ledger(s.policy.kind, s.policy.clock + 1, uses, s.policy.peak)
            && Set(s, k, v, None, 0).policy == Get(s, k, 0).0.policy
  {
    GetKeepsStep(s, k, 0);
    SetKeepsStep(s, k, v, None, 0);
    var after := Set(s, k, v, None, 0);
    assert after.entries.Keys == s.entries.Keys;
    SameKeysSameSize(after.entries, s.entries);
  }

  /** A new key in a store with room. */
  lemma NewKeyFits<V>(s: Store<nat, V>, size: nat, k: nat, v: V)
    requires Lasting(s, size) && k !in s.entries && size < s.capacity
    ensures Lasting(Set(s, k, v, None, 0), size + 1)
    ensures Set(s, k, v, None, 0).policy.uses == s.policy.uses[k := Use(1, s.policy.clock)]
  {
    SetKeepsStep(s, k, v, None, 0);
    Inclusion.SetSize(s, k, v, None, 0);
  }

  /** A new key in a full store takes the place of the victim. */
  lemma NewKeyReplaces<V>(s: Store<nat, V>, size: nat, k: nat, v: V) returns (victim: nat)
    requires Lasting(s, size) && k !in s.entries && size == s.capacity > 0
    ensures IsVictim(s.policy, victim)
    ensures Lasting(Set(s, k, v, None, 0), size)
    ensures Set(s, k, v, None, 0).policy.uses == Without(s.policy.uses, victim)[k := Use(1, s.policy.clock + 1)]
  {
    SameKeysSameSize(s.entries, s.policy.uses);
    EvictIsLawful(s.policy);
    victim := Victim(s.policy);
    SetKeepsStep(s, k, v, None, 0);
    Inclusion.SetSize(s, k, v, None, 0);
    Inclusion.RoomSize(s, k);
  }

  // ----- filling a store with the keys 1, 2, ..., n

  function Filling<V>(n: nat, v: V): seq<Call<nat, V>> {
    if n == 0 then [] else Filling(n - 1, v) + [SetOf(n, v)]
  }

  /** The least key that a store of this capacity still holds. */
  function Oldest(capacity: nat, n: nat): nat {
    if n <= capacity then 1 else n - capacity + 1
  }

  type Uses = map<nat, Use>

  ghost predicate UsedOnce(uses: Uses, j: nat, k: nat)
    requires j in uses && k in uses
  {
    uses[k].freq == 1 && (j < k ==> uses[j].stamp < uses[k].stamp)
  }

  /** The keys from `low` to `high`, each used once, in their own order. */
  ghost predicate Interval(uses: Uses, low: nat, high: nat) {
    && (forall k: nat :: k in uses <==> low <= k <= high)
    && forall j, k {:trigger UsedOnce(uses, j, k)} :: j in uses && k in uses ==> UsedOnce(uses, j, k)
  }

  /** No use is later than the clock. */
  ghost predicate Past(uses: Uses, clock: nat) {
    forall k :: k in uses ==> uses[k].stamp < clock
  }

  lemma UsesArePast(l: Ledger<nat>)
    requires ValidLedger(l)
    ensures Past(l.uses, l.clock)
  {
    forall k | k in l.uses
      ensures l.uses[k].stamp < l.clock
    {
      assert Plausible(l, k);
    }
  }

  lemma IntervalGrows(uses: Uses, low: nat, next: nat, stamp: nat)
    requires low <= next && next > 0 && Interval(uses, low, next - 1) && Past(uses, stamp)
    ensures Interval(uses[next := Use(1, stamp)], low, next)
  {
    var after := uses[next := Use(1, stamp)];
    forall j, k | j in after && k in after
      ensures UsedOnce(after, j, k)
    {
      assert k < next ==> UsedOnce(uses, k, k);
      assert j < next && k < next ==> UsedOnce(uses, j, k);
    }
  }

  lemma IntervalShrinks(uses: Uses, low: nat, n: nat)
    requires Interval(uses, low, n) && low <= n
    ensures Interval(Without(uses, low), low + 1, n)
  {
    var after := Without(uses, low);
    forall j, k | j in after && k in after
      ensures UsedOnce(after, j, k)
    {
      assert UsedOnce(uses, j, k);
    }
  }

  /** The least key is the victim, and no other. */
  lemma LeastGoesFirst(l: Ledger<nat>, low: nat, n: nat, victim: nat)
    requires Interval(l.uses, low, n) && low <= n && IsVictim(l, victim)
    ensures victim == low
  {
    assert UsedOnce(l.uses, low, victim) && UsedOnce(l.uses, victim, low);
  }

  /** The store has been given the keys 1, ..., n and holds the latest of them. */
  ghost predicate FilledTo<V>(s: Store<nat, V>, n: nat) {
    && Lasting(s, if n < s.capacity then n else s.capacity)
    && Interval(s.policy.uses, Oldest(s.capacity, n), n)
  }

  lemma FillWithRoom<V>(s: Store<nat, V>, next: nat, v: V)
    requires 0 < next <= s.capacity && FilledTo(s, next - 1)
    ensures FilledTo(Set(s, next, v, None, 0), next)
  {
    UsesArePast(s.policy);
    NewKeyFits(s, next - 1, next, v);
    IntervalGrows(s.policy.uses, 1, next, s.policy.clock);
    Inclusion.SetSize(s, next, v, None, 0);
  }

  lemma FillFull<V>(s: Store<nat, V>, next: nat, v: V)
    requires 0 < s.capacity < next && FilledTo(s, next - 1)
    ensures FilledTo(Set(s, next, v, None, 0), next)
  {
    var victim := NewKeyReplaces(s, s.capacity, next, v);
    IntervalMoves(s.policy, Oldest(s.capacity, next - 1), next, victim);
    Inclusion.SetSize(s, next, v, None, 0);
  }

  lemma IntervalMoves(l: Ledger<nat>, low: nat, next: nat, victim: nat)
    requires ValidLedger(l) && low < next && Interval(l.uses, low, next - 1) && IsVictim(l, victim)
    ensures Interval(Without(l.uses, victim)[next := Use(1, l.clock + 1)], low + 1, next)
  {
    UsesArePast(l);
    LeastGoesFirst(l, low, next - 1, victim);
    IntervalShrinks(l.uses, low, next - 1);
    IntervalGrows(Without(l.uses, low), low + 1, next, l.clock + 1);
  }

  lemma {:induction false} FilledHoldsLast<V>(capacity: nat, kind: Kind, n: nat, v: V)
    requires capacity > 0
    ensures FilledTo(Run(capacity, kind, Filling(n, v)), n)
  {
    if n == 0 {
      NothingFilled<V>(capacity, kind);
    } else {
      var fewer := n - 1;
      FilledHoldsLast(capacity, kind, fewer, v);
      RunMore(capacity, kind, Filling(fewer, v), SetOf(n, v));
      FillOne(Run(capacity, kind, Filling(fewer, v)), n, v);
    }
  }

  lemma FillOne<V>(s: Store<nat, V>, next: nat, v: V)
    requires s.capacity > 0 && next > 0 && FilledTo(s, next - 1)
    ensures FilledTo(Apply(s, SetOf(next, v)), next)
  {
    if next <= s.capacity {
      FillWithRoom(s, next, v);
    } else {
      FillFull(s, next, v);
    }
  }

  lemma NothingFilled<V>(capacity: nat, kind: Kind)
    requires capacity > 0
    ensures FilledTo<V>(Empty(capacity, kind), 0)
  {
  }

  // ----- FIFO

  /** Fill both stores, set the first key again, and set a new one. */
  function FifoRun<V>(n: nat, v: V): seq<Call<nat, V>> {
    Filling(n, v) + [SetOf(1, v)] + [SetOf(n + 1, v)]
  }

  /** For the store that is just full the first key is still the oldest insertion. */
  lemma FifoDropsFirst<V>(n: nat, v: V)
    requires n >= 2
    ensures 1 !in Run(n, Fifo, FifoRun(n, v)).entries
  {
    FilledHoldsLast(n, Fifo, n, v);
    RunMore(n, Fifo, Filling(n, v), SetOf(1, v));
    RunMore(n, Fifo, Filling(n, v) + [SetOf(1, v)], SetOf(n + 1, v));
    FirstIsOldest(Run(n, Fifo, Filling(n, v)), n, v);
  }

  lemma FirstIsOldest<V>(s: Store<nat, V>, n: nat, v: V)
    requires s.capacity == n >= 2 && s.policy.kind == Fifo && Lasting(s, n) && Interval(s.policy.uses, 1, n)
    ensures var again := Set(s, 1, v, None, 0);
            InStep(again) && 1 !in Set(again, n + 1, v, None, 0).entries
  {
    HitTouches(s, n, 1, v);
    var again, next := Set(s, 1, v, None, 0), n + 1;
    assert again.policy.uses == s.policy.uses;
    var victim := NewKeyReplaces(again, n, next, v);
    LeastGoesFirst(again.policy, 1, n, victim);
  }

  /** For a smaller store, which had lost the first key, it is the latest insertion. */
  lemma FifoKeepsFirst<V>(capacity: nat, n: nat, v: V)
    requires 2 <= capacity < n
    ensures 1 in Run(capacity, Fifo, FifoRun(n, v)).entries
  {
    FilledHoldsLast(capacity, Fifo, n, v);
    RunMore(capacity, Fifo, Filling(n, v), SetOf(1, v));
    RunMore(capacity, Fifo, Filling(n, v) + [SetOf(1, v)], SetOf(n + 1, v));
    var s := Run(capacity, Fifo, Filling(n, v));
    FirstComesBack(s, Oldest(capacity, n), n, v);
    NewestStays(Set(s, 1, v, None, 0), n, 1, n + 1, v);
  }

  lemma FirstComesBack<V>(s: Store<nat, V>, low: nat, n: nat, v: V)
    requires 2 <= low < n && Interval(s.policy.uses, low, n) && s.capacity >= 2 && Lasting(s, s.capacity)
    ensures var s' := Set(s, 1, v, None, 0);
            && Lasting(s', s.capacity) && s'.capacity == s.capacity && n + 1 !in s'.policy.uses
            && n in s'.policy.uses && 1 in s'.policy.uses && Before(s'.policy.uses[n], s'.policy.uses[1])
  {
    var victim := NewKeyReplaces(s, s.capacity, 1, v);
    LeastGoesFirst(s.policy, low, n, victim);
    UsesArePast(s.policy);
    assert UsedOnce(s.policy.uses, n, n);
    Inclusion.SetSize(s, 1, v, None, 0);
  }

  /** A key with another key before it is not given up. */
  lemma NewestStays<V>(s: Store<nat, V>, older: nat, newer: nat, key: nat, v: V)
    requires Lasting(s, s.capacity) && s.capacity > 0 && key !in s.policy.uses
    requires older in s.policy.uses && newer in s.policy.uses
    requires Before(s.policy.uses[older], s.policy.uses[newer])
    ensures newer in Set(s, key, v, None, 0).entries
  {
    var victim := NewKeyReplaces(s, s.capacity, key, v);
    assert victim != newer;
  }

  // ----- LFU

  /** Look up the keys 2, ..., m. */
  function Lookups<V>(m: nat): seq<Call<nat, V>> {
    if m < 2 then [] else Lookups(m - 1) + [GetOf(m)]
  }

  /** Fill both stores, use the last key, then the first, then all the others, and set a new key. */
  function LfuRun<V>(n: nat, v: V): seq<Call<nat, V>>
    requires n > 0
  {
    LfuStart(n, v) + Lookups(n - 1) + [SetOf(n + 1, v)]
  }

  function LfuStart<V>(n: nat, v: V): seq<Call<nat, V>> {
    Filling(n, v) + [GetOf(n)] + [SetOf(1, v)]
  }

  /** The keys up to `m` and key `n` have been used twice, key `n` before the others; the rest once. */
  ghost predicate UsedUpTo(uses: Uses, n: nat, m: nat) {
    && (forall k: nat :: k in uses <==> 1 <= k <= n)
    && n in uses && uses[n].freq == 2
    && forall k: nat :: 1 <= k < n ==> UsedBy(uses, n, m, k)
  }

  ghost predicate UsedBy(uses: Uses, n: nat, m: nat, k: nat) {
    && k in uses && n in uses
    && uses[k].freq == (if k <= m then 2 else 1)
    && (k <= m ==> uses[k].stamp > uses[n].stamp)
  }

  lemma UseNext(uses: Uses, n: nat, m: nat, stamp: nat)
    requires UsedUpTo(uses, n, m) && m + 1 < n && Past(uses, stamp)
    ensures UsedUpTo(uses[m + 1 := Use(2, stamp)], n, m + 1)
  {
    var next := m + 1;
    var after := uses[next := Use(2, stamp)];
    forall k: nat | 1 <= k < n
      ensures UsedBy(after, n, next, k)
    {
      assert UsedBy(uses, n, m, k);
    }
  }

  lemma {:induction false} LookupsUseAll<V>(n: nat, m: nat, v: V)
    requires 1 <= m < n
    ensures var s := Run(n, Lfu, LfuStart(n, v) + Lookups(m));
            Lasting(s, n) && UsedUpTo(s.policy.uses, n, m)
  {
    if m == 1 {
      assert LfuStart(n, v) + Lookups(1) == LfuStart(n, v);
      StartUsesTwo(n, v);
    } else {
      LookupsUseAll(n, m - 1, v);
      var t := LfuStart(n, v) + Lookups(m - 1);
      assert LfuStart(n, v) + Lookups(m) == t + [GetOf(m)];
      RunMore(n, Lfu, t, GetOf(m));
      LookupUsesNext(Run(n, Lfu, t), n, m, v);
    }
  }

  lemma LookupUsesNext<V>(s: Store<nat, V>, n: nat, m: nat, v: V)
    requires Lasting(s, n) && s.policy.kind == Lfu && 1 < m < n && UsedUpTo(s.policy.uses, n, m - 1)
    ensures Lasting(Get(s, m, 0).0, n) && UsedUpTo(Get(s, m, 0).0.policy.uses, n, m)
  {
    HitTouches(s, n, m, v);
    UsesArePast(s.policy);
    assert UsedBy(s.policy.uses, n, m - 1, m);
    UseNext(s.policy.uses, n, m - 1, s.policy.clock);
  }

  lemma StartUsesTwo<V>(n: nat, v: V)
    requires n >= 2
    ensures var s := Run(n, Lfu, LfuStart(n, v));
            Lasting(s, n) && UsedUpTo(s.policy.uses, n, 1)
  {
    FilledHoldsLast(n, Lfu, n, v);
    RunMore(n, Lfu, Filling(n, v), GetOf(n));
    RunMore(n, Lfu, Filling(n, v) + [GetOf(n)], SetOf(1, v));
    var s := Run(n, Lfu, Filling(n, v));
    UseTwo(s, n, v);
  }

  lemma UseTwo<V>(s: Store<nat, V>, n: nat, v: V)
    requires Lasting(s, n) && s.policy.kind == Lfu && n >= 2 && Interval(s.policy.uses, 1, n)
    ensures var got := Get(s, n, 0).0;
            InStep(got) && Lasting(Set(got, 1, v, None, 0), n) && UsedUpTo(Set(got, 1, v, None, 0).policy.uses, n, 1)
  {
    HitTouches(s, n, n, v);
    TwoUsed(s.policy.uses, n, s.policy.clock);
    UseFirst(s.policy.uses, Get(s, n, 0).0, n, v);
  }

  lemma UseFirst<V>(before: Uses, got: Store<nat, V>, n: nat, v: V)
    requires Lasting(got, n) && got.policy.kind == Lfu && n >= 2 && got.policy.clock > 0
    requires Interval(before, 1, n) && got.policy.uses == before[n := Use(2, got.policy.clock - 1)]
    ensures Lasting(Set(got, 1, v, None, 0), n) && UsedUpTo(Set(got, 1, v, None, 0).policy.uses, n, 1)
  {
    TwoUsed(before, n, got.policy.clock - 1);
    HitTouches(got, n, 1, v);
  }

  lemma TwoUsed(uses: Uses, n: nat, clock: nat)
    requires Interval(uses, 1, n) && n >= 2
    ensures uses[1].freq == 1 && uses[n].freq == 1
    ensures UsedUpTo(uses[n := Use(2, clock)][1 := Use(2, clock + 1)], n, 1)
  {
    var after, m := uses[n := Use(2, clock)][1 := Use(2, clock + 1)], 1;
    assert UsedOnce(uses, 1, 1) && UsedOnce(uses, n, n);
    forall k: nat | 1 <= k < n
      ensures UsedBy(after, n, m, k)
    {
      assert UsedOnce(uses, k, k);
    }
  }

  /** For the store that is just full, all keys have been used twice and the last one longest ago. */
  lemma LfuDropsLast<V>(n: nat, v: V)
    requires n >= 2
    ensures n !in Run(n, Lfu, LfuRun(n, v)).entries
  {
    LookupsUseAll(n, n - 1, v);
    var t := LfuStart(n, v) + Lookups(n - 1);
    RunMore(n, Lfu, t, SetOf(n + 1, v));
    var s := Run(n, Lfu, t);
    var victim := NewKeyReplaces(s, n, n + 1, v);
    assert victim < n ==> UsedBy(s.policy.uses, n, n - 1, victim);
    assert victim == n;
  }

  /** Key 1 has come in anew, while key `n` has been used twice. */
  ghost predicate Shielded(uses: Uses, n: nat) {
    n in uses && uses[n].freq == 2 && 1 in uses && uses[1].freq == 1 && n + 1 !in uses
  }

  lemma StartShields<V>(capacity: nat, n: nat, v: V)
    requires 2 <= capacity < n
    ensures var s := Run(capacity, Lfu, LfuStart(n, v));
            Lasting(s, capacity) && Shielded(s.policy.uses, n)
  {
    FilledHoldsLast(capacity, Lfu, n, v);
    RunMore(capacity, Lfu, Filling(n, v), GetOf(n));
    RunMore(capacity, Lfu, Filling(n, v) + [GetOf(n)], SetOf(1, v));
    var s := Run(capacity, Lfu, Filling(n, v));
    LastIsUsedTwice(s, Oldest(capacity, n), n, v);
    FirstComesIn(Get(s, n, 0).0, n, v);
  }

  /** Key `n` has been used twice, and some other key once. */
  ghost predicate LastTwice(uses: Uses, n: nat) {
    n in uses && uses[n].freq == 2 && exists k :: k in uses && uses[k].freq == 1
  }

  lemma LastIsUsedTwice<V>(s: Store<nat, V>, low: nat, n: nat, v: V)
    requires 2 <= low < n && Interval(s.policy.uses, low, n) && Lasting(s, s.capacity) && s.policy.kind == Lfu
    ensures var got := Get(s, n, 0).0;
            && Lasting(got, s.capacity) && got.capacity == s.capacity
            && LastTwice(got.policy.uses, n) && 1 !in got.policy.uses && n + 1 !in got.policy.uses
  {
    assert UsedOnce(s.policy.uses, n - 1, n - 1) && UsedOnce(s.policy.uses, n, n);
    HitTouches(s, s.capacity, n, v);
    var other: nat := n - 1;
    assert Get(s, n, 0).0.policy.uses[other].freq == 1;
  }

  lemma FirstComesIn<V>(s: Store<nat, V>, n: nat, v: V)
    requires Lasting(s, s.capacity) && s.capacity >= 2 && n > 1
    requires LastTwice(s.policy.uses, n) && 1 !in s.policy.uses && n + 1 !in s.policy.uses
    ensures Lasting(Set(s, 1, v, None, 0), s.capacity) && Shielded(Set(s, 1, v, None, 0).policy.uses, n)
  {
    var victim := NewKeyReplaces(s, s.capacity, 1, v);
    assert victim != n;
  }

  lemma {:induction false} LookupsShield<V>(capacity: nat, n: nat, m: nat, v: V)
    requires 2 <= capacity < n && 1 <= m < n
    ensures var s := Run(capacity, Lfu, LfuStart(n, v) + Lookups(m));
            Lasting(s, capacity) && Shielded(s.policy.uses, n)
  {
    if m == 1 {
      assert LfuStart(n, v) + Lookups(1) == LfuStart(n, v);
      StartShields(capacity, n, v);
    } else {
      LookupsShield(capacity, n, m - 1, v);
      var t := LfuStart(n, v) + Lookups(m - 1);
      assert LfuStart(n, v) + Lookups(m) == t + [GetOf(m)];
      RunMore(capacity, Lfu, t, GetOf(m));
      LookupShields(Run(capacity, Lfu, t), n, m, v);
    }
  }

  lemma LookupShields<V>(s: Store<nat, V>, n: nat, m: nat, v: V)
    requires Lasting(s, s.capacity) && 1 < m < n && Shielded(s.policy.uses, n)
    ensures Lasting(Get(s, m, 0).0, s.capacity) && Shielded(Get(s, m, 0).0.policy.uses, n)
  {
    if m in s.entries {
      HitTouches(s, s.capacity, m, v);
    }
  }

  /** A smaller store gives up key 1, or another key that was used once, rather than key `n`. */
  lemma LfuKeepsLast<V>(capacity: nat, n: nat, v: V)
    requires 2 <= capacity < n
    ensures n in Run(capacity, Lfu, LfuRun(n, v)).entries
  {
    LookupsShield(capacity, n, n - 1, v);
    var t := LfuStart(n, v) + Lookups(n - 1);
    RunMore(capacity, Lfu, t, SetOf(n + 1, v));
    NewestStays(Run(capacity, Lfu, t), 1, n, n + 1, v);
  }

  // ----- the exact condition

  /** After whatever calls, the store of capacity `c1` holds a part of what the one of capacity `c2` holds. */
  ghost predicate Includes<V(!new)>(kind: Kind, c1: nat, c2: nat) {
    forall t: seq<Call<nat, V>> :: Contained(Run(c1, kind, t), Run(c2, kind, t))
  }

  /** A larger store always includes a smaller one under LRU; under FIFO and LFU if and only if they have the
      same capacity or the smaller one holds a single key. */
  lemma InclusionHoldsIff<V(!new)>(kind: Kind, c1: nat, c2: nat, v: V)
    requires c1 <= c2
    ensures Includes<V>(kind, c1, c2) <==> kind == Lru || c1 == c2 || c1 <= 1
  {
    if kind == Lru || c1 == c2 || c1 <= 1 {
      forall t: seq<Call<nat, V>>
        ensures Contained(Run(c1, kind, t), Run(c2, kind, t))
      {
        if kind == Lru {
          Inclusion.SmallerIsIncluded(c1, c2, t);
        } else if c1 <= 1 {
          SingleIsContained(c1, c2, kind, t);
        }
      }
    } else if kind == Fifo {
      FifoKeepsFirst(c1, c2, v);
      FifoDropsFirst(c2, v);
      NotContained(c1, c2, Fifo, FifoRun(c2, v), 1);
    } else {
      LfuKeepsLast(c1, c2, v);
      LfuDropsLast(c2, v);
      NotContained(c1, c2, Lfu, LfuRun(c2, v), c2);
    }
  }

  lemma NotContained<V(!new)>(c1: nat, c2: nat, kind: Kind, t: seq<Call<nat, V>>, k: nat)
    requires k in Run(c1, kind, t).entries && k !in Run(c2, kind, t).entries
    ensures !Includes<V>(kind, c1, c2)
  {
    assert !Inclusion.Shared(Run(c1, kind, t), Run(c2, kind, t), k);
    assert !Contained(Run(c1, kind, t), Run(c2, kind, t));
  }
}
