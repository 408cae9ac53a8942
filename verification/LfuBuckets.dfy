/** The linked structure of the LFU policy: one arena shared by a list for every frequency in use.
    A node's tag is its frequency. The ghost map `lists` gives each frequency its list, head first. */
module LfuBuckets {
  import opened Collections
  import opened ArenaLists

  type Lists = map<nat, seq<nat>>

  datatype FreqBucket = FreqBucket(head: Option<nat>, tail: Option<nat>)

  ghost predicate Tagged<K>(a: Arena<K, nat>, i: nat, f: nat) {
    Live(a, i) && a[i].value.tag == f
  }

  /** The list of frequency `f` is well formed, not empty, and holds slots of that frequency only. */
  ghost predicate ListOk<K>(a: Arena<K, nat>, lists: Lists, f: nat)
    requires f in lists
  {
    && lists[f] != [] && Linked(a, lists[f])
    && forall i {:trigger Tagged(a, i, f)} :: i in lists[f] ==> Tagged(a, i, f)
  }

  /** A live slot is in the list of its own frequency. */
  ghost predicate Placed<K>(a: Arena<K, nat>, lists: Lists, i: nat) {
    Live(a, i) ==> a[i].value.tag in lists && i in lists[a[i].value.tag]
  }

  ghost predicate ListsOk<K>(a: Arena<K, nat>, lists: Lists) {
    forall f {:trigger ListOk(a, lists, f)} :: f in lists ==> ListOk(a, lists, f)
  }

  /** The frequency lists and the free list partition the slots, and the index finds every live one. */
  ghost predicate Structured<K>(a: Arena<K, nat>, lists: Lists, index: map<K, nat>, free: seq<nat>) {
    && ListsOk(a, lists)
    && Indexed(a, index) && Recycles(a, free)
    && forall i: nat :: Placed(a, lists, i)
  }

  /** As `Structured`, except that slot `idx` is live but in no list. */
  ghost predicate Loose<K>(a: Arena<K, nat>, lists: Lists, index: map<K, nat>, free: seq<nat>, idx: nat) {
    && ListsOk(a, lists)
    && Indexed(a, index) && Recycles(a, free)
    && Live(a, idx)
    && (forall i: nat {:trigger Placed(a, lists, i)} :: i != idx ==> Placed(a, lists, i))
    && forall f {:trigger lists[f]} :: f in lists ==> idx !in lists[f]
  }

  ghost predicate SameSlot<K>(a: Arena<K, nat>, b: Arena<K, nat>, i: nat) {
    Live(a, i) && Live(b, i) && b[i].value.key == a[i].value.key && b[i].value.tag == a[i].value.tag
  }

  /** Live slots other than `idx` keep their key and frequency. */
  ghost predicate Elsewhere<K>(a: Arena<K, nat>, b: Arena<K, nat>, idx: nat) {
    forall i: nat {:trigger SameSlot(a, b, i)} :: i != idx && Live(a, i) ==> SameSlot(a, b, i)
  }

  function ListAt(lists: Lists, f: nat): seq<nat> {
    if f in lists then lists[f] else []
  }

  /** The lists after slot `idx` is put in front of list `f`. */
  function Fronted(lists: Lists, f: nat, idx: nat): Lists {
    lists[f := [idx] + ListAt(lists, f)]
  }

  /** The lists after position `p` of list `f` is taken out and an emptied list is dropped. */
  function Dropped(lists: Lists, f: nat, p: nat): Lists
    requires f in lists && p < |lists[f]|
  {
    if |lists[f]| == 1 then Without(lists, f) else lists[f := RemoveAt(lists[f], p)]
  }

  function Retagged<K>(a: Arena<K, nat>, idx: nat, f: nat): Arena<K, nat>
    requires Live(a, idx)
  {
    a[idx := Some(a[idx].value.(tag := f))]
  }

  /** Placing a new key in a reserved slot leaves it floating. */
  lemma Fill<K>(a: Arena<K, nat>, lists: Lists, index: map<K, nat>, free: seq<nat>, n: Node<K, nat>)
    requires Structured(a, lists, index, free) && n.key !in index
    ensures free != [] ==> free[|free| - 1] < |a|
    ensures var (b, free', idx) := Reserved(a, free);
            var c := Filled(a, free, n);
            && idx < |b| && c == b[idx := Some(n)]
            && Loose(c, lists, index[n.key := idx], free', idx) && Elsewhere(a, c, idx)
  {
    Filling(a, index, free, n);
    var (b, free', idx) := Reserved(a, free);
    var c := Filled(a, free, n);
    forall f | f in lists
      ensures ListOk(c, lists, f) && idx !in lists[f]
    {
      assert ListOk(a, lists, f);
      MembersAreLive(a, lists[f]);
      LinkedFrame(a, c, lists[f]);
      forall i | i in lists[f]
        ensures Tagged(c, i, f)
      {
        assert Tagged(a, i, f);
      }
    }
    forall i: nat | i != idx
      ensures Placed(c, lists, i)
    {
      assert Placed(a, lists, i);
    }
  }

  /** Linking the floating slot into the list of its frequency. */
  lemma Link<K>(a: Arena<K, nat>, lists: Lists, index: map<K, nat>, free: seq<nat>, idx: nat)
    requires Loose(a, lists, index, free, idx)
    ensures var f := a[idx].value.tag;
            && (ListAt(lists, f) != [] ==> Live(a, ListAt(lists, f)[0]))
            && var b := LinkedFront(a, At(ListAt(lists, f), 0), idx);
            && Structured(b, Fronted(lists, f, idx), index, free)
            && Elsewhere(a, b, idx) && SameSlot(a, b, idx)
  {
    var f := a[idx].value.tag;
    var s, lists' := ListAt(lists, f), Fronted(lists, f, idx);
    assert f in lists ==> ListOk(a, lists, f);
    LinkingFront(a, s, idx);
    var b := LinkedFront(a, At(s, 0), idx);
    LinksKeepIndex(a, b, index, free);
    forall i: nat | Live(a, i)
      ensures SameSlot(a, b, i)
    {
      assert SameNode(a, b, i);
    }
    forall g | g in lists'
      ensures ListOk(b, lists', g)
    {
      if g != f {
        assert ListOk(a, lists, g);
        OtherListUntouched(a, b, lists, f, g, [idx] + s, idx);
      }
      forall i | i in lists'[g]
        ensures Tagged(b, i, g)
      {
        assert i != idx ==> Tagged(a, i, g);
        assert SameSlot(a, b, i);
      }
    }
    forall i: nat
      ensures Placed(b, lists', i)
    {
      assert i != idx ==> Placed(a, lists, i);
      assert i < |b| ==> SameNode(a, b, i);
    }
  }

  /** Changes inside one list, or to a floating slot, leave every other list linked. */
  lemma OtherListUntouched<K>(
      a: Arena<K, nat>, b: Arena<K, nat>, lists: Lists, f: nat, g: nat, touched: seq<nat>, idx: nat)
    requires g in lists && g != f && ListOk(a, lists, g) && SameOutside(a, b, touched)
    requires idx !in lists[g]
    requires forall i :: i in touched && i != idx ==> Tagged(a, i, f)
    ensures Linked(b, lists[g])
  {
    forall i | i in lists[g]
      ensures i < |a| && b[i] == a[i]
    {
      assert Tagged(a, i, g);
      assert i in touched ==> Tagged(a, i, f);
    }
    LinkedFrame(a, b, lists[g]);
  }

  /** Taking position `p` out of list `f` leaves its slot floating. */
  lemma Unlink<K>(a: Arena<K, nat>, lists: Lists, index: map<K, nat>, free: seq<nat>, f: nat, p: nat)
    requires Structured(a, lists, index, free) && f in lists && p < |lists[f]|
    ensures UnlinkReady(a, lists[f][p])
    ensures var idx := lists[f][p];
            var b := Unlinked(a, idx);
            && Loose(b, Dropped(lists, f, p), index, free, idx)
            && Elsewhere(a, b, idx) && SameSlot(a, b, idx)
  {
    var s, idx := lists[f], lists[f][p];
    assert ListOk(a, lists, f);
    MembersCanBeUnlinked(a, s, p);
    Unlinking(a, s, p);
    UnlinkingFrame(a, s, p);
    RemoveAtMembers(s, p);
    var b, lists' := Unlinked(a, idx), Dropped(lists, f, p);
    LinksKeepIndex(a, b, index, free);
    forall i: nat | Live(a, i)
      ensures SameSlot(a, b, i)
    {
      assert SameNode(a, b, i);
    }
    assert Tagged(a, idx, f);
    forall g | g in lists'
      ensures ListOk(b, lists', g) && idx !in lists'[g]
    {
      assert ListOk(a, lists, g);
      if g != f {
        assert idx in lists[g] ==> Tagged(a, idx, g);
        forall i | i in s
          ensures Tagged(a, i, f)
        {
        }
        OtherListUntouched(a, b, lists, f, g, s, idx);
      }
      forall i | i in lists'[g]
        ensures Tagged(b, i, g)
      {
        assert Tagged(a, i, g) && SameSlot(a, b, i);
      }
    }
    forall i: nat | i != idx
      ensures Placed(b, lists', i)
    {
      assert Placed(a, lists, i);
      assert i < |b| ==> SameNode(a, b, i);
      assert |s| == 1 ==> (i in s ==> i == idx);
    }
  }

  /** The frequency of a floating slot can change. */
  lemma Retag<K>(a: Arena<K, nat>, lists: Lists, index: map<K, nat>, free: seq<nat>, idx: nat, f: nat)
    requires Loose(a, lists, index, free, idx)
    ensures Loose(Retagged(a, idx, f), lists, index, free, idx)
    ensures Elsewhere(a, Retagged(a, idx, f), idx)
  {
    var b := Retagged(a, idx, f);
    forall k | k in index
      ensures KeyFound(b, index, k)
    {
      assert KeyFound(a, index, k);
    }
    forall i | 0 <= i < |b|
      ensures SlotFound(b, index, i)
    {
      assert SlotFound(a, index, i);
    }
    forall i: nat
      ensures EmptyIffFree(b, free, i)
    {
      assert EmptyIffFree(a, free, i);
    }
    FloatingSlotIsFree(a, b, lists, idx);
  }

  /** The lists and the placement of other slots do not depend on the floating slot. */
  lemma FloatingSlotIsFree<K>(a: Arena<K, nat>, b: Arena<K, nat>, lists: Lists, idx: nat)
    requires ListsOk(a, lists) && forall f {:trigger lists[f]} :: f in lists ==> idx !in lists[f]
    requires forall i: nat {:trigger Placed(a, lists, i)} :: i != idx ==> Placed(a, lists, i)
    requires |b| == |a| && forall i {:trigger b[i]} :: 0 <= i < |a| && i != idx ==> b[i] == a[i]
    ensures ListsOk(b, lists)
    ensures forall i: nat {:trigger Placed(b, lists, i)} :: i != idx ==> Placed(b, lists, i)
  {
    forall f | f in lists
      ensures ListOk(b, lists, f)
    {
      assert ListOk(a, lists, f);
      MembersAreLive(a, lists[f]);
      LinkedFrame(a, b, lists[f]);
      forall i | i in lists[f]
        ensures Tagged(b, i, f)
      {
        assert Tagged(a, i, f);
      }
    }
    forall i: nat | i != idx
      ensures Placed(b, lists, i)
    {
      assert Placed(a, lists, i);
    }
  }

  /** Emptying the floating slot completes the structure again. */
  lemma Free<K>(a: Arena<K, nat>, lists: Lists, index: map<K, nat>, free: seq<nat>, idx: nat)
    requires Loose(a, lists, index, free, idx)
    ensures Structured(a[idx := None], lists, Without(index, a[idx].value.key), free + [idx])
    ensures Elsewhere(a, a[idx := None], idx)
  {
    Freeing(a, index, free, idx);
    FloatingSlotIsFree(a, a[idx := None], lists, idx);
    assert Placed(a[idx := None], lists, idx);
  }
}
