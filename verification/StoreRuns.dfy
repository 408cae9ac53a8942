/** Runs of the sequential store: what a lookup returns, in terms of the calls made so far. */
module StoreRuns {
  import opened Collections
  import opened Ledgers
  import opened Stores

  datatype Op<K, V> = SetOp(key: K, value: V, ttl: Option<nat>) | GetOp(key: K) | DeleteOp(key: K)

  /** A call and the clock reading it makes. */
  datatype Call<K, V> = Call(op: Op<K, V>, now: nat)

  ghost function Apply<K, V>(s: Store<K, V>, c: Call<K, V>): Store<K, V>
    requires InStep(s)
  {
    match c.op
    case SetOp(k, v, ttl) => Set(s, k, v, ttl, c.now)
    case GetOp(k) => Get(s, k, c.now).0
    case DeleteOp(k) => Remove(s, k)
  }

  lemma ApplyKeepsStep<K, V>(s: Store<K, V>, c: Call<K, V>)
    requires InStep(s)
    ensures InStep(Apply(s, c))
    ensures Apply(s, c).capacity == s.capacity && Apply(s, c).policy.kind == s.policy.kind
  {
    match c.op
    case SetOp(k, v, ttl) =>
      SetKeepsStep(s, k, v, ttl, c.now);
      RoomKeepsStep(s, k);
    case GetOp(k) => GetKeepsStep(s, k, c.now);
    case DeleteOp(k) => RemoveKeepsStep(s, k);
  }

  /** The store after a run that starts empty: its keys are the policy's keys, within capacity. */
  ghost function Run<K, V>(capacity: nat, kind: Kind, t: seq<Call<K, V>>): (s: Store<K, V>)
    ensures InStep(s)
    ensures s.capacity == capacity && s.policy.kind == kind
  {
    if t == [] then Empty(capacity, kind)
    else
      ApplyKeepsStep(Run(capacity, kind, t[..|t| - 1]), t[|t| - 1]);
      Apply(Run(capacity, kind, t[..|t| - 1]), t[|t| - 1])
  }

  /** The entry written by the last set of `k`, unless `k` was deleted since. */
  function LastWrite<K(==), V>(t: seq<Call<K, V>>, k: K): Option<Entry<V>> {
    if t == [] then None
    else
      var c := t[|t| - 1];
      match c.op
      case SetOp(j, v, ttl) =>
        if j == k then Some(Entry(v, Deadline(ttl, c.now))) else LastWrite(t[..|t| - 1], k)
      case GetOp(_) => LastWrite(t[..|t| - 1], k)
      case DeleteOp(j) => if j == k then None else LastWrite(t[..|t| - 1], k)
  }

  /** Was `k` the victim of a set of another key since it was last set? */
  ghost predicate EvictedSince<K, V>(capacity: nat, kind: Kind, t: seq<Call<K, V>>, k: K) {
    if t == [] then false
    else
      var before := Run(capacity, kind, t[..|t| - 1]);
      match t[|t| - 1].op
      case SetOp(j, _, _) =>
        j != k && (EvictedSince(capacity, kind, t[..|t| - 1], k)
                   || (k in before.entries && k !in MakeRoom(before, j).entries))
      case _ => EvictedSince(capacity, kind, t[..|t| - 1], k)
  }

  /** The clock readings never decrease, and none is later than `now`. */
  predicate ClockUpTo<K, V>(t: seq<Call<K, V>>, now: nat) {
    t == [] || (t[|t| - 1].now <= now && ClockUpTo(t[..|t| - 1], t[|t| - 1].now))
  }

  /** What the store holds for `k`, by the calls alone. A key that is gone without having been deleted
      or evicted had expired. */
  ghost predicate Explained<K, V>(capacity: nat, kind: Kind, t: seq<Call<K, V>>, s: Store<K, V>, k: K, now: nat) {
    var w := LastWrite(t, k);
    var evicted := EvictedSince(capacity, kind, t, k);
    if k in s.entries then w == Some(s.entries[k]) && !evicted
    else w.None? || evicted || Expired(w.value, now)
  }

  lemma ExplainedLater<K, V>(
      capacity: nat, kind: Kind, t: seq<Call<K, V>>, s: Store<K, V>, k: K, now: nat, later: nat)
    requires Explained(capacity, kind, t, s, k, now) && now <= later
    ensures Explained(capacity, kind, t, s, k, later)
  {
  }

  /** Making room removes keys and changes no entry that stays. */
  lemma RoomKeepsEntries<K, V>(s: Store<K, V>, j: K, k: K)
    requires InStep(s) && k in MakeRoom(s, j).entries
    ensures k in s.entries && MakeRoom(s, j).entries[k] == s.entries[k]
  {
  }

  lemma {:induction false} EveryKeyIsExplained<K, V>(
      capacity: nat, kind: Kind, t: seq<Call<K, V>>, k: K, now: nat)
    requires ClockUpTo(t, now)
    ensures Explained(capacity, kind, t, Run(capacity, kind, t), k, now)
  {
    if t != [] {
      var t', c := t[..|t| - 1], t[|t| - 1];
      EveryKeyIsExplained(capacity, kind, t', k, c.now);
      var before := Run(capacity, kind, t');
      match c.op {
        case SetOp(j, _, _) =>
          RoomKeepsStep(before, j);
          if k in MakeRoom(before, j).entries {
            RoomKeepsEntries(before, j, k);
          }
        case GetOp(j) =>
        case DeleteOp(j) =>
      }
      ExplainedLater(capacity, kind, t, Run(capacity, kind, t), k, c.now, now);
    }
  }

  /** A lookup hits exactly when the key was set, not deleted or evicted since, and has not expired; it
      then returns the value of the latest set. */
  lemma LookupIsExact<K, V>(capacity: nat, kind: Kind, t: seq<Call<K, V>>, k: K, now: nat)
    requires ClockUpTo(t, now)
    ensures var w := LastWrite(t, k);
            Get(Run(capacity, kind, t), k, now).1
            == if w.Some? && !EvictedSince(capacity, kind, t, k) && !Expired(w.value, now)
               then Some(w.value.value) else None
  {
    EveryKeyIsExplained(capacity, kind, t, k, now);
  }

  /** Call number `p` was the last to set `k`, and no later one deleted it. */
  predicate SetLastAt<K(==), V>(t: seq<Call<K, V>>, k: K, p: nat) {
    && p < |t| && t[p].op.SetOp? && t[p].op.key == k
    && forall i :: p < i < |t| && t[i].op.key == k ==> t[i].op.GetOp?
  }

  lemma {:induction false} LastWriteIsAt<K, V>(t: seq<Call<K, V>>, k: K) returns (p: nat)
    ensures LastWrite(t, k).None? ==> forall q: nat :: !SetLastAt(t, k, q)
    ensures LastWrite(t, k).Some? ==>
              SetLastAt(t, k, p) && LastWrite(t, k).value == Entry(t[p].op.value, Deadline(t[p].op.ttl, t[p].now))
    ensures forall q: nat, r: nat :: SetLastAt(t, k, q) && SetLastAt(t, k, r) ==> q == r
  {
    p := 0;
    if t != [] {
      var last := |t| - 1;
      var before, c := t[..last], t[last];
      p := LastWriteIsAt(before, k);
      if c.op.key == k && c.op.SetOp? {
        p := last;
      } else {
        forall q: nat
          ensures SetLastAt(t, k, q) ==> SetLastAt(before, k, q)
        {
        }
      }
    }
  }

  /** A value is served for exactly as long as its time-out says: if the last set of `k`, made at time `t0` and not
      deleted since, gave the time-out `ttl`, a lookup hits if and only if the key was not evicted since, and there
      was no time-out or the clock has not passed `t0 + ttl`. */
  lemma TimeoutsAreKept<K, V>(capacity: nat, kind: Kind, t: seq<Call<K, V>>, k: K, p: nat, now: nat)
    requires ClockUpTo(t, now) && SetLastAt(t, k, p)
    ensures Get(Run(capacity, kind, t), k, now).1
            == if !EvictedSince(capacity, kind, t, k) && (t[p].op.ttl.None? || now <= t[p].now + t[p].op.ttl.value)
               then Some(t[p].op.value) else None
  {
    var q := LastWriteIsAt(t, k);
    assert q == p;
    LookupIsExact(capacity, kind, t, k, now);
  }

  /** A lookup of a key that was never set, or deleted since, misses. */
  lemma UnsetKeysMiss<K, V>(capacity: nat, kind: Kind, t: seq<Call<K, V>>, k: K, now: nat)
    requires ClockUpTo(t, now) && forall p: nat :: !SetLastAt(t, k, p)
    ensures Get(Run(capacity, kind, t), k, now).1 == None
  {
    var q := LastWriteIsAt(t, k);
    LookupIsExact(capacity, kind, t, k, now);
  }
}
