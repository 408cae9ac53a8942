/** The sequential store: a map of entries and an eviction policy kept in step by every operation. */
module KvStores {
  import opened Collections
  import Ledgers
  import Stores
  import opened FifoPolicies
  import opened LruPolicies
  import opened LfuPolicies

  /** An injected policy. Its ledger says what it means, whichever structure computes it. */
  datatype Policy<K(==, !new)> = Fifo(fifo: FifoPolicy<K>) | Lru(lru: LruPolicy<K>) | Lfu(lfu: LfuPolicy<K>) {

    ghost function Repr(): set<object> {
      match this
      case Fifo(p) => {p}
      case Lru(p) => {p}
      case Lfu(p) => {p}
    }

    ghost predicate Valid()
      reads Repr()
    {
      match this
      case Fifo(p) => p.Valid()
      case Lru(p) => p.Valid()
      case Lfu(p) => p.Valid()
    }

    ghost function Ledger(): Ledgers.Ledger<K>
      reads Repr()
    {
      match this
      case Fifo(p) => p.ledger
      case Lru(p) => p.ledger
      case Lfu(p) => p.ledger
    }

    method OnInsert(key: K)
      requires Valid()
      modifies Repr()
      ensures Valid() <==> key !in old(Ledger()).uses
      ensures Valid() ==> Ledger() == Ledgers.OnInsert(old(Ledger()), key)
    {
      match this
      case Fifo(p) => p.OnInsert(key);
      case Lru(p) => p.OnInsert(key);
      case Lfu(p) => p.OnInsert(key);
    }

    method OnAccess(key: K)
      requires Valid()
      modifies Repr()
      ensures Valid() && Ledger() == Ledgers.OnAccess(old(Ledger()), key)
    {
      match this
      case Fifo(p) => p.OnAccess(key);
      case Lru(p) => p.OnAccess(key);
      case Lfu(p) => p.OnAccess(key);
    }

    method Evict() returns (victim: Option<K>)
      requires Valid()
      modifies Repr()
      ensures Valid() && Ledgers.ValidLedger(old(Ledger()))
      ensures (Ledger(), victim) == Ledgers.Evict(old(Ledger()))
    {
      match this
      case Fifo(p) => victim := p.Evict();
      case Lru(p) => victim := p.Evict();
      case Lfu(p) => victim := p.Evict();
    }

    method OnDelete(key: K)
      requires Valid()
      modifies Repr()
      ensures Valid() && Ledger() == Ledgers.OnDelete(old(Ledger()), key)
    {
      match this
      case Fifo(p) => p.OnDelete(key);
      case Lru(p) => p.OnDelete(key);
      case Lfu(p) => p.OnDelete(key);
    }
  }

  class KvStore<K(==, !new), V(!new)> {
    var store: map<K, Stores.Entry<V>>
    const capacity: nat
    const policy: Policy<K>

    ghost predicate Valid()
      reads this, policy.Repr()
    {
      policy.Valid() && Stores.InStep(View())
    }

    /** What the store means: a value on which every operation is a function. */
    ghost function View(): Stores.Store<K, V>
      reads this, policy.Repr()
    {
      Stores.Store(capacity, store, policy.Ledger())
    }

    /** A store is in step from the start exactly when its policy tracks nothing yet, and never has tracked more
        keys than the store may hold. */
    constructor (capacity: nat, policy: Policy<K>)
      requires policy.Valid()
      ensures this.policy == policy && View() == Stores.Store(capacity, map[], policy.Ledger())
      ensures Valid() <==> policy.Ledger().uses == map[] && policy.Ledger().peak <= Max(capacity, 1)
    {
      this.store := map[];
      this.capacity := capacity;
      this.policy := policy;
    }

    method Set(key: K, value: V, ttl: Option<nat>, now: nat)
      requires Valid()
      modifies this, policy.Repr()
      ensures Valid() && View() == Stores.Set(old(View()), key, value, ttl, now)
    {
      Stores.RoomKeepsStep(View(), key);
      Stores.SetKeepsStep(View(), key, value, ttl, now);
      var expiresAt := if ttl.Some? then Some(now + ttl.value) else None;
      EvictIfFull(key);
      Record(key, Stores.Entry(value, expiresAt));
    }

    /** The capacity check of `Set`. */
    method EvictIfFull(key: K)
      requires Valid()
      modifies this, policy.Repr()
      ensures policy.Valid() && View() == Stores.MakeRoom(old(View()), key)
    {
      ghost var before := View();
      if key !in store && |store| >= capacity {
        var victim := policy.Evict();
        assert policy.Valid() && (policy.Ledger(), victim) == Ledgers.Evict(before.policy);
        if victim.Some? {
          store := Without(store, victim.value);
        }
      }
      assert View() == Stores.MakeRoom(before, key);
    }

    /** The policy update and the storage of `Set`. */
    method Record(key: K, entry: Stores.Entry<V>)
      requires policy.Valid() && (key in store || key !in policy.Ledger().uses)
      modifies this, policy.Repr()
      ensures policy.Valid() && View() == Stores.Put(old(View()), key, entry)
    {
      ghost var before := View();
      TellPolicy(key);
      store := store[key := entry];
      assert View() == Stores.Put(before, key, entry);
    }

    /** The policy update of `Set`: a stored key is accessed, a new one inserted. */
    method TellPolicy(key: K)
      requires policy.Valid() && (key in store || key !in policy.Ledger().uses)
      modifies policy.Repr()
      ensures policy.Valid()
      ensures policy.Ledger() == if key in store then Ledgers.OnAccess(old(policy.Ledger()), key)
                                 else Ledgers.OnInsert(old(policy.Ledger()), key)
    {
      if key in store {
        policy.OnAccess(key);
      } else {
        policy.OnInsert(key);
      }
    }

    method Get(key: K, now: nat) returns (value: Option<V>)
      requires Valid()
      modifies this, policy.Repr()
      ensures Valid() && (View(), value) == Stores.Get(old(View()), key, now)
    {
      ghost var before := View();
      Stores.GetKeepsStep(before, key, now);
      var isExpired := false;
      if key in store {
        var entry := store[key];
        if entry.expiresAt.Some? && now > entry.expiresAt.value {
          isExpired := true;
        }
      }
      if isExpired {
        Drop(key);
        return None;
      }
      if key in store {
        policy.OnAccess(key);
        assert View() == Stores.Get(before, key, now).0;
        return Some(store[key].value);
      }
      return None;
    }

    method Delete(key: K)
      requires Valid()
      modifies this, policy.Repr()
      ensures Valid() && View() == Stores.Remove(old(View()), key)
    {
      Stores.RemoveKeepsStep(View(), key);
      Drop(key);
    }

    /** The removal of a key from both sides, as in `Delete` and in the cleanup of `Get`. */
    method Drop(key: K)
      requires policy.Valid()
      modifies this, policy.Repr()
      ensures policy.Valid() && View() == Stores.Remove(old(View()), key)
    {
      ghost var before := View();
      store := Without(store, key);
      policy.OnDelete(key);
      assert View() == Stores.Remove(before, key);
    }

    /** The arena of the policy never grows beyond the number of keys the store may hold. */
    lemma ArenaIsBounded()
      requires Valid()
      ensures policy.Lru? ==> |policy.lru.arena| <= Max(capacity, 1)
      ensures policy.Lfu? ==> |policy.lfu.arena| <= Max(capacity, 1)
    {
      assert policy.Ledger().peak <= Max(capacity, 1);
    }
  }
}
