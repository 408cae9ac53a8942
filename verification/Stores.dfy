/** The key-value store as a value: its entries, its capacity, and the ledger of its policy. */
module Stores {
  import opened Collections
  import opened Ledgers

  datatype Entry<+V> = Entry(value: V, expiresAt: Option<nat>)

  predicate Expired<V>(e: Entry<V>, now: nat) {
    e.expiresAt.Some? && now > e.expiresAt.value
  }

  function Deadline(ttl: Option<nat>, now: nat): Option<nat> {
    if ttl.Some? then Some(now + ttl.value) else None
  }

  datatype Store<K, V> = Store(capacity: nat, entries: map<K, Entry<V>>, policy: Ledger<K>)

  /** The policy tracks exactly the stored keys, and there are never more than max(capacity, 1) of them. */
  ghost predicate InStep<K, V>(s: Store<K, V>) {
    && ValidLedger(s.policy)
    && s.entries.Keys == s.policy.uses.Keys
    && |s.entries| <= Max(s.capacity, 1)
    && s.policy.peak <= Max(s.capacity, 1)
  }

  function Empty<K, V>(capacity: nat, kind: Kind): Store<K, V> {
    Store(capacity, map[], New(kind))
  }

  /** A new key that finds the store full pushes out the policy's victim. */
  ghost function MakeRoom<K, V>(s: Store<K, V>, key: K): Store<K, V>
    requires ValidLedger(s.policy)
  {
    if key !in s.entries && |s.entries| >= s.capacity then
      var (policy, victim) := Evict(s.policy);
      s.(policy := policy, entries := if victim.Some? then Without(s.entries, victim.value) else s.entries)
    else s
  }

  ghost function Put<K, V>(s: Store<K, V>, key: K, e: Entry<V>): Store<K, V>
    requires key in s.entries || key !in s.policy.uses
  {
    s.(policy := if key in s.entries then OnAccess(s.policy, key) else OnInsert(s.policy, key),
       entries := s.entries[key := e])
  }

  ghost function Set<K, V>(s: Store<K, V>, key: K, value: V, ttl: Option<nat>, now: nat): Store<K, V>
    requires InStep(s)
  {
    RoomKeepsStep(s, key);
    Put(MakeRoom(s, key), key, Entry(value, Deadline(ttl, now)))
  }

  function Remove<K, V>(s: Store<K, V>, key: K): Store<K, V> {
    s.(policy := OnDelete(s.policy, key), entries := Without(s.entries, key))
  }

  function Get<K, V>(s: Store<K, V>, key: K, now: nat): (Store<K, V>, Option<V>) {
    if key !in s.entries then (s, None)
    else if Expired(s.entries[key], now) then (Remove(s, key), None)
    else (s.(policy := OnAccess(s.policy, key)), Some(s.entries[key].value))
  }

  lemma SameKeysSameSize<K, V, W>(m: map<K, V>, n: map<K, W>)
    requires m.Keys == n.Keys
    ensures |m| == |n|
  {
    assert |m| == |m.Keys| && |n| == |n.Keys|;
  }

  /** After making room the two halves still agree, and a new key fits. */
  lemma RoomKeepsStep<K, V>(s: Store<K, V>, key: K)
    requires InStep(s)
    ensures InStep(MakeRoom(s, key))
    ensures MakeRoom(s, key).entries.Keys <= s.entries.Keys
    ensures key in s.entries <==> key in MakeRoom(s, key).entries
    ensures key !in s.entries ==> |MakeRoom(s, key).entries| + 1 <= Max(s.capacity, 1)
  {
    SameKeysSameSize(s.entries, s.policy.uses);
    EvictIsLawful(s.policy);
    var victim := Evict(s.policy).1;
    if victim.Some? {
      WithoutShrinks(s.entries, victim.value);
    }
  }

  lemma SetKeepsStep<K, V>(s: Store<K, V>, key: K, value: V, ttl: Option<nat>, now: nat)
    requires InStep(s)
    ensures InStep(Set(s, key, value, ttl, now))
    ensures Set(s, key, value, ttl, now).entries.Keys == MakeRoom(s, key).entries.Keys + {key}
  {
    RoomKeepsStep(s, key);
    var room, after := MakeRoom(s, key), Set(s, key, value, ttl, now);
    SameKeysSameSize(room.entries, room.policy.uses);
    if key in room.entries {
      AccessIsLawful(room.policy, key);
    } else {
      InsertIsLawful(room.policy, key);
    }
    assert after.entries.Keys == room.entries.Keys + {key};
    SameKeysSameSize(after.entries, after.policy.uses);
  }

  lemma RemoveKeepsStep<K, V>(s: Store<K, V>, key: K)
    requires InStep(s)
    ensures InStep(Remove(s, key))
  {
    DeleteIsLawful(s.policy, key);
    WithoutShrinks(s.entries, key);
  }

  lemma GetKeepsStep<K, V>(s: Store<K, V>, key: K, now: nat)
    requires InStep(s)
    ensures InStep(Get(s, key, now).0)
  {
    RemoveKeepsStep(s, key);
    AccessIsLawful(s.policy, key);
  }
}
