/** Doubly linked lists threaded through an arena of slots: `prev` points toward the head and
    `next` toward the tail. A ghost sequence of slot indices, head first, says what a list is. */
module ArenaLists {
  import opened Collections

  datatype Node<K, T> = Node(key: K, tag: T, prev: Option<nat>, next: Option<nat>)

  type Arena<K, T> = seq<Option<Node<K, T>>>

  predicate Live<K, T>(a: Arena<K, T>, i: nat) {
    i < |a| && a[i].Some?
  }

  /** Element `i` of a list, if there is one there: `At(s, 0)` is its head, `At(s, |s| - 1)` its tail. */
  function At(s: seq<nat>, i: int): Option<nat> {
    if 0 <= i < |s| then Some(s[i]) else None
  }

  /** Position `i` of list `s` is a live slot whose links name the neighbouring positions. */
  ghost predicate Wired<K, T>(a: Arena<K, T>, s: seq<nat>, i: nat)
    requires i < |s|
  {
    && Live(a, s[i])
    && a[s[i]].value.prev == At(s, i - 1)
    && a[s[i]].value.next == At(s, i + 1)
  }

  /** The slots of `s` are distinct and linked in that order in both directions. */
  ghost predicate Linked<K, T>(a: Arena<K, T>, s: seq<nat>) {
    && Distinct(s)
    && forall i :: 0 <= i < |s| ==> Wired(a, s, i)
  }

  function WithPrev<K, T>(a: Arena<K, T>, i: nat, p: Option<nat>): Arena<K, T>
    requires Live(a, i)
  {
    a[i := Some(a[i].value.(prev := p))]
  }

  function WithNext<K, T>(a: Arena<K, T>, i: nat, n: Option<nat>): Arena<K, T>
    requires Live(a, i)
  {
    a[i := Some(a[i].value.(next := n))]
  }

  ghost predicate SameNode<K, T>(a: Arena<K, T>, b: Arena<K, T>, i: nat)
    requires i < |a| && i < |b|
  {
    && (a[i].Some? <==> b[i].Some?)
    && (a[i].Some? ==> a[i].value.key == b[i].value.key && a[i].value.tag == b[i].value.tag)
  }

  /** Both arenas hold the same keys and tags in the same slots; only links may differ. */
  ghost predicate SameNodes<K, T>(a: Arena<K, T>, b: Arena<K, T>) {
    && |a| == |b|
    && forall i :: 0 <= i < |a| ==> SameNode(a, b, i)
  }

  /** Outside `touched` the arenas are equal. */
  ghost predicate SameOutside<K, T>(a: Arena<K, T>, b: Arena<K, T>, touched: seq<nat>) {
    && |a| == |b|
    && forall i {:trigger b[i]} :: 0 <= i < |a| && i !in touched ==> a[i] == b[i]
  }

  /** The arena after slot `idx` is put in front of the list whose head is `head`. */
  function LinkedFront<K, T>(a: Arena<K, T>, head: Option<nat>, idx: nat): Arena<K, T>
    requires Live(a, idx) && (head.Some? ==> Live(a, head.value))
  {
    var a1 := WithNext(WithPrev(a, idx, None), idx, head);
    if head.Some? then WithPrev(a1, head.value, Some(idx)) else a1
  }

  /** Slot `idx` and the neighbours it points at are all live, so it can be unlinked. */
  predicate UnlinkReady<K, T>(a: Arena<K, T>, idx: nat) {
    && Live(a, idx)
    && (a[idx].value.prev.Some? ==> Live(a, a[idx].value.prev.value))
    && (a[idx].value.next.Some? ==> Live(a, a[idx].value.next.value))
  }

  /** The arena after slot `idx` is taken out of its list; its own links stay as they were. */
  function Unlinked<K, T>(a: Arena<K, T>, idx: nat): Arena<K, T>
    requires UnlinkReady(a, idx)
  {
    var p, n := a[idx].value.prev, a[idx].value.next;
    var a1 := if p.Some? then WithNext(a, p.value, n) else a;
    if n.Some? then WithPrev(a1, n.value, p) else a1
  }

  lemma MembersAreLive<K, T>(a: Arena<K, T>, s: seq<nat>)
    requires Linked(a, s)
    ensures forall i :: i in s ==> Live(a, i)
  {
    forall i | i in s
      ensures Live(a, i)
    {
      var p :| 0 <= p < |s| && s[p] == i;
      assert Wired(a, s, p);
    }
  }

  /** Linking a floating slot in front of a list gives the list with that slot as its head. */
  lemma LinkingFront<K, T>(a: Arena<K, T>, s: seq<nat>, idx: nat)
    requires Linked(a, s) && Live(a, idx) && idx !in s
    ensures s != [] ==> Live(a, s[0])
    ensures Linked(LinkedFront(a, At(s, 0), idx), [idx] + s)
    ensures SameNodes(a, LinkedFront(a, At(s, 0), idx))
    ensures SameOutside(a, LinkedFront(a, At(s, 0), idx), [idx] + s)
  {
    assert s != [] ==> Wired(a, s, 0);
    var b, t := LinkedFront(a, At(s, 0), idx), [idx] + s;
    forall i | 0 <= i < |t|
      ensures Wired(b, t, i)
    {
      if i > 0 {
        assert Wired(a, s, i - 1);
        assert At(t, i + 1) == At(s, i);
        assert i > 1 ==> At(t, i - 1) == At(s, i - 2);
      }
    }
  }

  /** A list member and the neighbours it points at are live. */
  lemma MembersCanBeUnlinked<K, T>(a: Arena<K, T>, s: seq<nat>, p: nat)
    requires Linked(a, s) && p < |s|
    ensures UnlinkReady(a, s[p])
  {
    assert Wired(a, s, p);
    assert p > 0 ==> Wired(a, s, p - 1);
    assert p + 1 < |s| ==> Wired(a, s, p + 1);
  }

  /** Unlinking the slot at position `p` gives the list without that position. */
  lemma Unlinking<K, T>(a: Arena<K, T>, s: seq<nat>, p: nat)
    requires Linked(a, s) && p < |s| && UnlinkReady(a, s[p])
    ensures Linked(Unlinked(a, s[p]), RemoveAt(s, p))
  {
    var b, t := Unlinked(a, s[p]), RemoveAt(s, p);
    RemoveAtMembers(s, p);
    assert Wired(a, s, p);
    forall i | 0 <= i < |t|
      ensures Wired(b, t, i)
    {
      RemovedNeighbours(s, p, i);
      assert Wired(a, s, if i < p then i else i + 1);
    }
  }

  /** The head and tail left behind by unlinking position `p`, as its own links tell them. */
  lemma EndsAfterUnlinking<K, T>(a: Arena<K, T>, s: seq<nat>, p: nat)
    requires Linked(a, s) && p < |s| && UnlinkReady(a, s[p])
    ensures At(RemoveAt(s, p), 0) == if a[s[p]].value.prev.None? then a[s[p]].value.next else At(s, 0)
    ensures At(RemoveAt(s, p), |s| - 2) == if a[s[p]].value.next.None? then a[s[p]].value.prev else At(s, |s| - 1)
  {
    assert Wired(a, s, p);
  }

  lemma RemovedNeighbours(s: seq<nat>, p: nat, i: nat)
    requires p < |s| && i < |s| - 1
    ensures RemoveAt(s, p)[i] == s[if i < p then i else i + 1]
    ensures At(RemoveAt(s, p), i - 1) == At(s, if i < p then i - 1 else if i == p then p - 1 else i)
    ensures At(RemoveAt(s, p), i + 1) == At(s, if i + 1 < p then i + 1 else i + 2)
  {
  }

  /** Unlinking touches links only, and only inside the list. */
  lemma UnlinkingFrame<K, T>(a: Arena<K, T>, s: seq<nat>, p: nat)
    requires Linked(a, s) && p < |s| && UnlinkReady(a, s[p])
    ensures SameNodes(a, Unlinked(a, s[p]))
    ensures SameOutside(a, Unlinked(a, s[p]), s)
  {
    assert Wired(a, s, p);
  }

  /** A list is not disturbed by changes to slots outside it. */
  lemma LinkedFrame<K, T>(a: Arena<K, T>, b: Arena<K, T>, s: seq<nat>)
    requires Linked(a, s) && forall i :: i in s ==> i < |b| && i < |a| && b[i] == a[i]
    ensures Linked(b, s)
  {
    forall i | 0 <= i < |s|
      ensures Wired(b, s, i)
    {
      assert Wired(a, s, i) && s[i] in s;
    }
  }

  ghost predicate KeyFound<K, T>(a: Arena<K, T>, index: map<K, nat>, k: K)
    requires k in index
  {
    Live(a, index[k]) && a[index[k]].value.key == k
  }

  ghost predicate SlotFound<K, T>(a: Arena<K, T>, index: map<K, nat>, i: nat)
    requires i < |a|
  {
    a[i].Some? ==> a[i].value.key in index && index[a[i].value.key] == i
  }

  /** `index` maps exactly the keys of live slots, each to its own slot. */
  ghost predicate Indexed<K, T>(a: Arena<K, T>, index: map<K, nat>) {
    && (forall k {:trigger KeyFound(a, index, k)} :: k in index ==> KeyFound(a, index, k))
    && (forall i :: 0 <= i < |a| ==> SlotFound(a, index, i))
  }

  ghost predicate EmptyIffFree<K, T>(a: Arena<K, T>, free: seq<nat>, i: nat) {
    i in free <==> i < |a| && a[i].None?
  }

  /** `free` lists every empty slot once. */
  ghost predicate Recycles<K, T>(a: Arena<K, T>, free: seq<nat>) {
    && Distinct(free)
    && forall i: nat :: EmptyIffFree(a, free, i)
  }

  lemma LinksKeepIndex<K, T>(a: Arena<K, T>, b: Arena<K, T>, index: map<K, nat>, free: seq<nat>)
    requires Indexed(a, index) && Recycles(a, free) && SameNodes(a, b)
    ensures Indexed(b, index) && Recycles(b, free)
  {
    forall k | k in index
      ensures KeyFound(b, index, k)
    {
      assert KeyFound(a, index, k) && SameNode(a, b, index[k]);
    }
    forall i | 0 <= i < |b|
      ensures SlotFound(b, index, i)
    {
      assert SlotFound(a, index, i) && SameNode(a, b, i);
    }
    forall i: nat
      ensures EmptyIffFree(b, free, i)
    {
      assert EmptyIffFree(a, free, i) && (i < |a| ==> SameNode(a, b, i));
    }
  }

  /** Emptying a live slot: its key leaves the index and the slot joins the free list. */
  lemma Freeing<K, T>(a: Arena<K, T>, index: map<K, nat>, free: seq<nat>, idx: nat)
    requires Indexed(a, index) && Recycles(a, free) && Live(a, idx)
    ensures Indexed(a[idx := None], Without(index, a[idx].value.key))
    ensures Recycles(a[idx := None], free + [idx])
  {
    var b, index', free' := a[idx := None], Without(index, a[idx].value.key), free + [idx];
    assert SlotFound(a, index, idx) && EmptyIffFree(a, free, idx);
    forall k | k in index'
      ensures KeyFound(b, index', k)
    {
      assert KeyFound(a, index, k);
    }
    forall i | 0 <= i < |b|
      ensures SlotFound(b, index', i)
    {
      assert SlotFound(a, index, i);
    }
    forall i: nat
      ensures EmptyIffFree(b, free', i)
    {
      assert EmptyIffFree(a, free, i);
    }
  }

  /** The slot the allocator hands out: the last freed one, or else a new one at the end. The
      result is the arena, the remaining free list and the reserved slot. */
  function Reserved<K, T>(a: Arena<K, T>, free: seq<nat>): (Arena<K, T>, seq<nat>, nat) {
    if free != [] then (a, free[..|free| - 1], free[|free| - 1])
    else (a + [None], free, |a|)
  }

  /** The arena with a new node in the reserved slot. */
  function Filled<K, T>(a: Arena<K, T>, free: seq<nat>, n: Node<K, T>): Arena<K, T>
    requires free != [] ==> free[|free| - 1] < |a|
  {
    var (b, _, idx) := Reserved(a, free);
    b[idx := Some(n)]
  }

  /** Placing a key that already has a slot leaves that slot behind, where the index no longer finds it. */
  lemma SecondSlotIsLost<K, T>(a: Arena<K, T>, index: map<K, nat>, free: seq<nat>, n: Node<K, T>, head: Option<nat>)
    requires Indexed(a, index) && Recycles(a, free) && n.key in index
    requires head.Some? ==> Live(a, head.value)
    ensures free != [] ==> free[|free| - 1] < |a|
    ensures var idx, filled := Reserved(a, free).2, Filled(a, free, n);
            && Live(filled, idx) && (head.Some? ==> Live(filled, head.value))
            && !Indexed(LinkedFront(filled, head, idx), index[n.key := idx])
  {
    var idx, first := Reserved(a, free).2, index[n.key];
    assert KeyFound(a, index, n.key) && EmptyIffFree(a, free, idx);
    var c := LinkedFront(Filled(a, free, n), head, idx);
    assert first != idx && c[first].Some? && c[first].value.key == n.key;
    assert !SlotFound(c, index[n.key := idx], first);
  }

  /** Placing a new key: it takes an empty slot, and the arena grows only when no slot is free. */
  lemma Filling<K, T>(a: Arena<K, T>, index: map<K, nat>, free: seq<nat>, n: Node<K, T>)
    requires Indexed(a, index) && Recycles(a, free) && n.key !in index
    ensures free != [] ==> free[|free| - 1] < |a|
    ensures var (b, free', idx) := Reserved(a, free);
            && idx < |b| && !Live(a, idx)
            && Indexed(Filled(a, free, n), index[n.key := idx])
            && Recycles(Filled(a, free, n), free')
            && forall i {:trigger Filled(a, free, n)[i]} :: 0 <= i < |a| && i != idx ==> Filled(a, free, n)[i] == a[i]
  {
    var (b, free', idx) := Reserved(a, free);
    assert EmptyIffFree(a, free, idx);
    if free != [] {
      var last := |free| - 1;
      assert idx in free && free' == RemoveAt(free, last);
      RemoveAtMembers(free, last);
    }
    var c, index' := Filled(a, free, n), index[n.key := idx];
    forall k | k in index'
      ensures KeyFound(c, index', k)
    {
      assert k != n.key ==> KeyFound(a, index, k);
    }
    forall i | 0 <= i < |c|
      ensures SlotFound(c, index', i)
    {
      assert i < |a| ==> SlotFound(a, index, i);
    }
    forall i: nat
      ensures EmptyIffFree(c, free', i)
    {
      assert EmptyIffFree(a, free, i);
    }
  }

  /** The slots met by following `next` for at most `steps` links. */
  function Forward<K, T>(a: Arena<K, T>, from: Option<nat>, steps: nat): seq<nat>
    decreases steps
  {
    if steps == 0 || from.None? || !Live(a, from.value) then []
    else [from.value] + Forward(a, a[from.value].value.next, steps - 1)
  }

  /** The slots met by following `prev` for at most `steps` links. */
  function Backward<K, T>(a: Arena<K, T>, from: Option<nat>, steps: nat): seq<nat>
    decreases steps
  {
    if steps == 0 || from.None? || !Live(a, from.value) then []
    else [from.value] + Backward(a, a[from.value].value.prev, steps - 1)
  }

  /** Walking from any position to the tail visits the rest of the list and stops there by itself. */
  lemma {:induction false} ForwardVisits<K, T>(a: Arena<K, T>, s: seq<nat>, i: nat, steps: nat)
    requires Linked(a, s) && i <= |s| && steps >= |s| - i
    ensures Forward(a, At(s, i), steps) == s[i..]
    decreases |s| - i
  {
    if i < |s| {
      assert Wired(a, s, i);
      ForwardVisits(a, s, i + 1, steps - 1);
    }
  }

  /** Walking backward from the tail visits the same slots in the opposite order. */
  lemma {:induction false} BackwardVisits<K, T>(a: Arena<K, T>, s: seq<nat>, i: nat, steps: nat)
    requires Linked(a, s) && i <= |s| && steps >= i
    ensures Backward(a, At(s, i - 1), steps) == Reversed(s[..i])
  {
    if i > 0 {
      assert Wired(a, s, i - 1);
      BackwardVisits(a, s, i - 1, steps - 1);
      assert s[..i][..i - 1] == s[..i - 1];
    }
  }

  /** The two walks of a whole list; an arena's worth of steps is always enough. */
  lemma WholeWalks<K, T>(a: Arena<K, T>, s: seq<nat>)
    requires Linked(a, s)
    ensures Forward(a, At(s, 0), |a|) == s
    ensures Backward(a, At(s, |s| - 1), |a|) == Reversed(s)
    ensures forall i :: i in s ==> Live(a, i)
  {
    MembersAreLive(a, s);
    DistinctBound(s, NatsBelow(|a|));
    ForwardVisits(a, s, 0, |a|);
    BackwardVisits(a, s, |s|, |a|);
    assert s[0..] == s && s[..|s|] == s;
  }
}
