/** Least recently used: one arena list holding every tracked key, most recent at the head. */
module LruPolicies {
  import opened Collections
  import opened ArenaLists
  import opened RecencyLists
  import Ledgers

  ghost predicate ListedIfLive<K>(a: Arena<K, ()>, order: seq<nat>, i: nat) {
    Live(a, i) ==> i in order
  }

  /** One list holds all live slots, and live and free slots partition the arena. */
  ghost predicate Structured<K>(a: Arena<K, ()>, order: seq<nat>, index: map<K, nat>, free: seq<nat>) {
    && Linked(a, order)
    && Indexed(a, index) && Recycles(a, free)
    && forall i: nat :: ListedIfLive(a, order, i)
  }

  /** Filling a reserved slot and linking it in front keeps the structure. */
  lemma InsertStructured<K>(a: Arena<K, ()>, order: seq<nat>, index: map<K, nat>, free: seq<nat>, key: K)
    requires Structured(a, order, index, free) && key !in index
    ensures free != [] ==> free[|free| - 1] < |a|
    ensures var (b, free', idx) := Reserved(a, free);
            var filled := Filled(a, free, Node(key, (), None, None));
            && idx < |b| && Live(filled, idx)
            && (order != [] ==> Live(filled, order[0]))
            && var c := LinkedFront(filled, At(order, 0), idx);
            && Structured(c, [idx] + order, index[key := idx], free')
            && Live(c, idx) && c[idx].value.key == key
            && forall i :: i in order ==> i != idx && SameNodeLive(a, c, i)
  {
    var (b, free', idx) := Reserved(a, free);
    var node := Node(key, (), None, None);
    Filling(a, index, free, node);
    var filled := Filled(a, free, node);
    MembersAreLive(a, order);
    LinkedFrame(a, filled, order);
    LinkingFront(filled, order, idx);
    var c, order' := LinkedFront(filled, At(order, 0), idx), [idx] + order;
    LinksKeepIndex(filled, c, index[key := idx], free');
    forall i: nat
      ensures ListedIfLive(c, order', i)
      ensures i in order ==> SameNodeLive(a, c, i)
    {
      assert ListedIfLive(a, order, i);
      assert i < |c| ==> SameNode(filled, c, i);
    }
    assert SameNode(filled, c, idx);
  }

  /** Taking a member out of the list; until it is linked again or freed it is the only live slot outside. */
  lemma UnlinkStructured<K>(a: Arena<K, ()>, order: seq<nat>, index: map<K, nat>, free: seq<nat>, p: nat)
    requires Structured(a, order, index, free) && p < |order|
    ensures UnlinkReady(a, order[p])
    ensures var c, rest := Unlinked(a, order[p]), RemoveAt(order, p);
            && Linked(c, rest) && Indexed(c, index) && Recycles(c, free)
            && Live(c, order[p]) && c[order[p]].value.key == a[order[p]].value.key && order[p] !in rest
            && (forall i :: i in rest ==> i != order[p] && SameNodeLive(a, c, i))
            && forall i: nat {:trigger ListedIfLive(c, rest, i)} :: i != order[p] ==> ListedIfLive(c, rest, i)
  {
    MembersCanBeUnlinked(a, order, p);
    Unlinking(a, order, p);
    UnlinkingFrame(a, order, p);
    RemoveAtMembers(order, p);
    MembersAreLive(a, order);
    var c, rest := Unlinked(a, order[p]), RemoveAt(order, p);
    LinksKeepIndex(a, c, index, free);
    forall i: nat
      ensures i != order[p] ==> ListedIfLive(c, rest, i)
      ensures i in order ==> SameNodeLive(a, c, i)
    {
      assert ListedIfLive(a, order, i);
      assert i < |c| ==> SameNode(a, c, i);
    }
    assert order[p] in order;
  }

  /** Moving a member to the front keeps the structure. */
  lemma RequeueStructured<K>(a: Arena<K, ()>, order: seq<nat>, index: map<K, nat>, free: seq<nat>, p: nat)
    requires Structured(a, order, index, free) && p < |order|
    ensures UnlinkReady(a, order[p])
    ensures var b, idx, rest := Unlinked(a, order[p]), order[p], RemoveAt(order, p);
            && Live(b, idx) && (rest != [] ==> Live(b, rest[0]))
            && var c := LinkedFront(b, At(rest, 0), idx);
            && Structured(c, [idx] + rest, index, free)
            && Live(c, idx) && c[idx].value.key == a[idx].value.key
            && (forall i :: i in rest ==> i != idx && SameNodeLive(a, c, i))
  {
    UnlinkStructured(a, order, index, free, p);
    var b, idx, rest := Unlinked(a, order[p]), order[p], RemoveAt(order, p);
    LinkingFront(b, rest, idx);
    var c := LinkedFront(b, At(rest, 0), idx);
    LinksKeepIndex(b, c, index, free);
    forall i: nat
      ensures ListedIfLive(c, [idx] + rest, i)
      ensures i in rest ==> SameNodeLive(a, c, i)
    {
      assert i != idx ==> ListedIfLive(b, rest, i);
      assert i < |c| ==> SameNode(b, c, i);
      assert i in rest ==> SameNodeLive(a, b, i);
    }
    assert SameNode(b, c, idx);
  }

  /** Taking a member out and emptying its slot keeps the structure. */
  lemma RemoveStructured<K>(a: Arena<K, ()>, order: seq<nat>, index: map<K, nat>, free: seq<nat>, p: nat)
    requires Structured(a, order, index, free) && p < |order|
    ensures UnlinkReady(a, order[p])
    ensures var b, idx, rest := Unlinked(a, order[p]), order[p], RemoveAt(order, p);
            && Live(b, idx) && b[idx].value.key == a[idx].value.key
            && Structured(b[idx := None], rest, Without(index, b[idx].value.key), free + [idx])
            && forall i :: i in rest ==> SameNodeLive(a, b[idx := None], i)
  {
    UnlinkStructured(a, order, index, free, p);
    var b, idx, rest := Unlinked(a, order[p]), order[p], RemoveAt(order, p);
    Freeing(b, index, free, idx);
    var c := b[idx := None];
    forall i | i in rest
      ensures Live(b, i) && c[i] == b[i] && SameNodeLive(a, c, i)
    {
      assert SameNodeLive(a, b, i);
    }
    LinkedFrame(b, c, rest);
    forall i: nat
      ensures ListedIfLive(c, rest, i)
    {
      assert i != idx ==> ListedIfLive(b, rest, i);
    }
  }

  /** The structure holds exactly the ledger's keys, in the ledger's order, in as few slots as possible. */
  ghost predicate Faithful<K>(
      a: Arena<K, ()>, order: seq<nat>, index: map<K, nat>, free: seq<nat>, l: Ledgers.Ledger<K>)
  {
    && Structured(a, order, index, free)
    && Ledgers.ValidLedger(l) && l.kind == Ledgers.Lru
    && l.uses.Keys == index.Keys
    && NewestFirst(a, order, l.uses)
    && |l.uses| + |free| == |a| == l.peak
  }

  lemma InsertFaithful<K>(
      a: Arena<K, ()>, order: seq<nat>, index: map<K, nat>, free: seq<nat>, l: Ledgers.Ledger<K>, key: K)
    requires Faithful(a, order, index, free, l) && key !in l.uses
    ensures free != [] ==> free[|free| - 1] < |a|
    ensures var (b, free', idx) := Reserved(a, free);
            var filled := Filled(a, free, Node(key, (), None, None));
            && idx < |b| && Live(filled, idx)
            && (order != [] ==> Live(filled, order[0]))
            && Faithful(LinkedFront(filled, At(order, 0), idx), [idx] + order, index[key := idx], free',
                        Ledgers.OnInsert(l, key))
  {
    Ledgers.InsertIsLawful(l, key);
    InsertStructured(a, order, index, free, key);
    var (b, free', idx) := Reserved(a, free);
    var c := LinkedFront(Filled(a, free, Node(key, (), None, None)), At(order, 0), idx);
    NewestFirstFront(a, c, order, idx, index, l, Ledgers.OnInsert(l, key));
  }

  /** An operation on a key that is not tracked only passes time. */
  lemma TickFaithful<K>(
      a: Arena<K, ()>, order: seq<nat>, index: map<K, nat>, free: seq<nat>, l: Ledgers.Ledger<K>)
    requires Faithful(a, order, index, free, l)
    ensures Faithful(a, order, index, free, l.(clock := l.clock + 1))
  {
    Ledgers.TickIsLawful(l);
  }

  lemma RequeueFaithful<K>(
      a: Arena<K, ()>, order: seq<nat>, index: map<K, nat>, free: seq<nat>, l: Ledgers.Ledger<K>, p: nat)
    requires Faithful(a, order, index, free, l) && p < |order| && Live(a, order[p])
    ensures UnlinkReady(a, order[p])
    ensures var b, idx, rest := Unlinked(a, order[p]), order[p], RemoveAt(order, p);
            && Live(b, idx) && (rest != [] ==> Live(b, rest[0]))
            && Faithful(LinkedFront(b, At(rest, 0), idx), [idx] + rest, index, free,
                        Ledgers.OnAccess(l, a[idx].value.key))
  {
    RequeueStructured(a, order, index, free, p);
    var b, idx, rest := Unlinked(a, order[p]), order[p], RemoveAt(order, p);
    var key := a[idx].value.key;
    assert SlotFound(a, index, idx);
    Ledgers.AccessIsLawful(l, key);
    NewestFirstWithout(a, order, l.uses, p);
    NewestFirstFront(a, LinkedFront(b, At(rest, 0), idx), rest, idx, index, l, Ledgers.OnAccess(l, key));
  }

  lemma RemoveFaithful<K>(
      a: Arena<K, ()>, order: seq<nat>, index: map<K, nat>, free: seq<nat>, l: Ledgers.Ledger<K>, p: nat)
    requires Faithful(a, order, index, free, l) && p < |order| && Live(a, order[p])
    ensures UnlinkReady(a, order[p])
    ensures var b, idx, key := Unlinked(a, order[p]), order[p], a[order[p]].value.key;
            && Live(b, idx) && b[idx].value.key == key
            && Faithful(b[idx := None], RemoveAt(order, p), Without(index, key), free + [idx], Ledgers.OnDelete(l, key))
  {
    RemoveStructured(a, order, index, free, p);
    var b, idx, rest := Unlinked(a, order[p]), order[p], RemoveAt(order, p);
    var key := a[idx].value.key;
    assert SlotFound(a, index, idx);
    Ledgers.DeleteIsLawful(l, key);
    NewestFirstWithout(a, order, l.uses, p);
    var c, l' := b[idx := None], Ledgers.OnDelete(l, key);
    RemoveAtMembers(order, p);
    forall i | i in rest
      ensures SameUse(a, c, l.uses, l'.uses, i)
    {
      assert SameNodeLive(a, c, i) && SlotFound(a, index, i);
    }
    NewestFirstFrame(a, c, rest, l.uses, l'.uses);
  }

  /** The tail holds the key whose last use is oldest. */
  lemma TailIsVictim<K>(
      a: Arena<K, ()>, order: seq<nat>, index: map<K, nat>, free: seq<nat>, l: Ledgers.Ledger<K>)
    requires Faithful(a, order, index, free, l)
    ensures order == [] <==> l.uses == map[]
    ensures order != [] ==> Live(a, order[|order| - 1]) && Ledgers.IsVictim(l, a[order[|order| - 1]].value.key)
  {
    MembersAreLive(a, order);
    forall k | k in l.uses
      ensures order != [] && Live(a, order[|order| - 1])
      ensures var v := a[order[|order| - 1]].value.key;
              v in l.uses && (k != v ==> Ledgers.Before(l.uses[v], l.uses[k]))
    {
      assert KeyFound(a, index, k) && ListedIfLive(a, order, index[k]);
      var p :| 0 <= p < |order| && order[p] == index[k];
      var last := order[|order| - 1];
      assert last in order && SlotFound(a, index, last);
      assert Ledgers.Plausible(l, k) && Ledgers.Plausible(l, a[last].value.key);
      assert p < |order| - 1 ==> NewerAt(a, order, l.uses, p, |order| - 1);
    }
    if order != [] {
      assert order[0] in order && SlotFound(a, index, order[0]);
    }
  }

  class LruPolicy<K(==, !new)> {
    var arena: Arena<K, ()>
    var keyToIndex: map<K, nat>
    var head: Option<nat>
    var tail: Option<nat>
    var freeList: seq<nat>

    ghost var order: seq<nat>           // the slots of the list, head first
    ghost var ledger: Ledgers.Ledger<K> // what the policy means

    ghost predicate Valid()
      reads this
    {
      && Faithful(arena, order, keyToIndex, freeList, ledger)
      && head == At(order, 0) && tail == At(order, |order| - 1)
    }

    constructor ()
      ensures Valid() && ledger == Ledgers.New(Ledgers.Lru)
    {
      arena, keyToIndex, head, tail, freeList := [], map[], None, None, [];
      order, ledger := [], Ledgers.New(Ledgers.Lru);
    }

    method Alloc() returns (idx: nat)
      modifies `arena, `freeList
      ensures (arena, freeList, idx) == Reserved(old(arena), old(freeList))
    {
      if freeList != [] {
        idx := freeList[|freeList| - 1];
        freeList := freeList[..|freeList| - 1];
      } else {
        idx := |arena|;
        arena := arena + [None];
      }
    }

    method LinkAtHead(idx: nat)
      requires Live(arena, idx) && (head.Some? ==> Live(arena, head.value))
      modifies `arena, `head, `tail
      ensures arena == LinkedFront(old(arena), old(head), idx)
      ensures head == Some(idx)
      ensures tail == if old(tail).None? then Some(idx) else old(tail)
    {
      var oldHead := head;
      arena := WithNext(WithPrev(arena, idx, None), idx, oldHead);
      if oldHead.Some? {
        arena := WithPrev(arena, oldHead.value, Some(idx));
      }
      head := Some(idx);
      if tail.None? {
        tail := Some(idx);
      }
    }

    method Unlink(idx: nat)
      requires UnlinkReady(arena, idx)
      modifies `arena, `head, `tail
      ensures arena == Unlinked(old(arena), idx)
      ensures head == if old(arena)[idx].value.prev.None? then old(arena)[idx].value.next else old(head)
      ensures tail == if old(arena)[idx].value.next.None? then old(arena)[idx].value.prev else old(tail)
    {
      var prev, next := arena[idx].value.prev, arena[idx].value.next;
      match prev {
        case Some(p) => arena := WithNext(arena, p, next);
        case None => head := next;
      }
      match next {
        case Some(n) => arena := WithPrev(arena, n, prev);
        case None => tail := prev;
      }
    }

    /** Takes a new key in. Called with a tracked key it breaks the structure, and only then. */
    method OnInsert(key: K)
      requires Valid()
      modifies this
      ensures Valid() <==> key !in old(ledger).uses
      ensures Valid() ==> ledger == Ledgers.OnInsert(old(ledger), key)
    {
      ghost var isNew := key !in ledger.uses;
      if isNew {
        InsertFaithful(arena, order, keyToIndex, freeList, ledger, key);
      } else {
        assert order != [] ==> Wired(arena, order, 0);
        SecondSlotIsLost(arena, keyToIndex, freeList, Node(key, (), None, None), head);
      }
      PlaceAtHead(key);
      if isNew {
        ledger := Ledgers.OnInsert(ledger, key);
      }
    }

    /** The steps of `OnInsert` on the concrete fields. */
    method PlaceAtHead(key: K)
      requires freeList != [] ==> freeList[|freeList| - 1] < |arena|
      requires head.Some? ==> Live(Filled(arena, freeList, Node(key, (), None, None)), head.value)
      modifies this
      ensures ledger == old(ledger)
      ensures var (b, free', idx) := Reserved(old(arena), old(freeList));
              && arena == LinkedFront(Filled(old(arena), old(freeList), Node(key, (), None, None)), old(head), idx)
              && keyToIndex == old(keyToIndex)[key := idx]
              && freeList == free'
              && head == Some(idx)
              && tail == (if old(tail).None? then Some(idx) else old(tail))
              && order == [idx] + old(order)
    {
      var idx := Alloc();
      arena := arena[idx := Some(Node(key, (), None, None))];
      LinkAtHead(idx);
      keyToIndex := keyToIndex[key := idx];
      order := [idx] + order;
    }

    method OnAccess(key: K)
      requires Valid()
      modifies this
      ensures Valid() && ledger == Ledgers.OnAccess(old(ledger), key)
    {
      if key in keyToIndex {
        ghost var p := PositionOf(key);
        RequeueFaithful(arena, order, keyToIndex, freeList, ledger, p);
        EndsAfterUnlinking(arena, order, p);
        MoveToHead(keyToIndex[key], p);
      } else {
        TickFaithful(arena, order, keyToIndex, freeList, ledger);
      }
      ledger := Ledgers.OnAccess(ledger, key);
    }

    /** The two list operations of `OnAccess`. */
    method MoveToHead(idx: nat, ghost p: nat)
      requires p < |order| && order[p] == idx && UnlinkReady(arena, idx) && Live(Unlinked(arena, idx), idx)
      requires head == At(order, 0) && tail == At(order, |order| - 1)
      requires At(RemoveAt(order, p), 0) == if arena[idx].value.prev.None? then arena[idx].value.next else head
      requires At(RemoveAt(order, p), |order| - 2)
               == if arena[idx].value.next.None? then arena[idx].value.prev else tail
      requires |order| > 1 ==> Live(Unlinked(arena, idx), RemoveAt(order, p)[0])
      modifies `arena, `head, `tail, `order
      ensures order == [idx] + RemoveAt(old(order), p)
      ensures arena == LinkedFront(Unlinked(old(arena), idx), At(RemoveAt(old(order), p), 0), idx)
      ensures head == At(order, 0) && tail == At(order, |order| - 1)
    {
      Unlink(idx);
      LinkAtHead(idx);
      order := [idx] + RemoveAt(order, p);
    }

    /** Where a tracked key stands in the list. */
    lemma PositionOf(key: K) returns (p: nat)
      requires Valid() && key in keyToIndex
      ensures p < |order| && order[p] == keyToIndex[key]
      ensures Live(arena, order[p]) && arena[order[p]].value.key == key
    {
      assert KeyFound(arena, keyToIndex, key) && ListedIfLive(arena, order, keyToIndex[key]);
      p :| 0 <= p < |order| && order[p] == keyToIndex[key];
    }

    method Evict() returns (victim: Option<K>)
      requires Valid()
      modifies this
      ensures Valid() && (ledger, victim) == Ledgers.Evict(old(ledger))
    {
      TailIsVictim(arena, order, keyToIndex, freeList, ledger);
      if tail.None? {
        TickFaithful(arena, order, keyToIndex, freeList, ledger);
        ledger := Ledgers.Evict(ledger).0;
        return None;
      }
      var key := arena[tail.value].value.key;
      Ledgers.EvictIs(ledger, key);
      RemoveFaithful(arena, order, keyToIndex, freeList, ledger, |order| - 1);
      EndsAfterUnlinking(arena, order, |order| - 1);
      Release(tail.value, |order| - 1);
      ledger := Ledgers.OnDelete(ledger, key);
      victim := Some(key);
    }

    method OnDelete(key: K)
      requires Valid()
      modifies this
      ensures Valid() && ledger == Ledgers.OnDelete(old(ledger), key)
    {
      if key in keyToIndex {
        ghost var p := PositionOf(key);
        RemoveFaithful(arena, order, keyToIndex, freeList, ledger, p);
        EndsAfterUnlinking(arena, order, p);
        Release(keyToIndex[key], p);
      } else {
        TickFaithful(arena, order, keyToIndex, freeList, ledger);
        assert Without(ledger.uses, key) == ledger.uses;
      }
      ledger := Ledgers.OnDelete(ledger, key);
    }

    /** The steps that `Evict` and `OnDelete` share: unlink the slot, empty it, forget its key, recycle it. */
    method Release(idx: nat, ghost p: nat)
      requires p < |order| && order[p] == idx && UnlinkReady(arena, idx) && Live(Unlinked(arena, idx), idx)
      requires At(RemoveAt(order, p), 0) == if arena[idx].value.prev.None? then arena[idx].value.next else head
      requires At(RemoveAt(order, p), |order| - 2)
               == if arena[idx].value.next.None? then arena[idx].value.prev else tail
      modifies this
      ensures ledger == old(ledger)
      ensures arena == Unlinked(old(arena), idx)[idx := None]
      ensures keyToIndex == Without(old(keyToIndex), Unlinked(old(arena), idx)[idx].value.key)
      ensures freeList == old(freeList) + [idx]
      ensures order == RemoveAt(old(order), p)
      ensures head == At(order, 0) && tail == At(order, |order| - 1)
    {
      Unlink(idx);
      var key := arena[idx].value.key;
      arena := arena[idx := None];
      keyToIndex := Without(keyToIndex, key);
      freeList := freeList + [idx];
      order := RemoveAt(order, p);
    }

    /** Walking from the head by `next` meets exactly the tracked keys, the latest used first; walking from the
        tail by `prev` meets the same slots in the opposite order. */
    lemma WalksAreRecency()
      requires Valid()
      ensures var walk := Forward(arena, head, |arena|);
              && (forall i :: i in walk ==> Live(arena, i))
              && (forall k :: k in ledger.uses <==> exists i :: i in walk && Live(arena, i) && arena[i].value.key == k)
              && NewestFirst(arena, walk, ledger.uses)
              && Backward(arena, tail, |arena|) == Reversed(walk)
    {
      WholeWalks(arena, order);
      forall k
        ensures k in ledger.uses <==> exists i :: i in order && Live(arena, i) && arena[i].value.key == k
      {
        TrackedIsListed(k);
      }
    }

    lemma TrackedIsListed(k: K)
      requires Valid()
      ensures k in ledger.uses <==> exists i :: i in order && Live(arena, i) && arena[i].value.key == k
    {
      if k in ledger.uses {
        var p := PositionOf(k);
        assert order[p] in order;
      }
      if i :| i in order && Live(arena, i) && arena[i].value.key == k {
        assert SlotFound(arena, keyToIndex, i);
      }
    }
  }
}
