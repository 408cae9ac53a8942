/** Least frequently used: a list of keys for every frequency, and the least frequency in use. */
module LfuPolicies {
  import opened Collections
  import opened ArenaLists
  import opened RecencyLists
  import opened LfuBuckets
  import Ledgers

  type Buckets = map<nat, FreqBucket>

  // ----- the buckets: head and tail of every list

  ghost predicate BucketOk(buckets: Buckets, lists: Lists, f: nat) {
    && (f in buckets <==> f in lists)
    && (f in buckets ==> buckets[f] == FreqBucket(At(lists[f], 0), At(lists[f], |lists[f]| - 1)))
  }

  ghost predicate Bucketed(buckets: Buckets, lists: Lists) {
    forall f: nat :: BucketOk(buckets, lists, f)
  }

  function BucketAt(buckets: Buckets, f: nat): FreqBucket {
    if f in buckets then buckets[f] else FreqBucket(None, None)
  }

  /** The buckets after slot `idx` becomes the head of bucket `f`. */
  function BucketFronted(buckets: Buckets, f: nat, idx: nat): Buckets {
    var tail := BucketAt(buckets, f).tail;
    buckets[f := FreqBucket(Some(idx), if tail.None? then Some(idx) else tail)]
  }

  /** The buckets after slot `idx`, with neighbours `prev` and `next`, leaves bucket `f`. */
  function BucketUnlinked(buckets: Buckets, f: nat, idx: nat, prev: Option<nat>, next: Option<nat>): Buckets {
    if f !in buckets then buckets
    else
      var b := buckets[f];
      buckets[f := FreqBucket(if b.head == Some(idx) then next else b.head,
                              if b.tail == Some(idx) then prev else b.tail)]
  }

  /** Bucket `f` exists and has no head. */
  predicate Drained(buckets: Buckets, f: nat) {
    f in buckets && buckets[f].head.None?
  }

  function BucketCleaned(buckets: Buckets, f: nat): Buckets {
    if Drained(buckets, f) then Without(buckets, f) else buckets
  }

  lemma FrontBuckets(buckets: Buckets, lists: Lists, f: nat, idx: nat)
    requires Bucketed(buckets, lists)
    ensures BucketAt(buckets, f).head == At(ListAt(lists, f), 0)
    ensures Bucketed(BucketFronted(buckets, f, idx), Fronted(lists, f, idx))
  {
    assert BucketOk(buckets, lists, f);
    forall g: nat
      ensures BucketOk(BucketFronted(buckets, f, idx), Fronted(lists, f, idx), g)
    {
      assert BucketOk(buckets, lists, g);
    }
  }

  /** Unlinking and cleaning up a bucket follows the list, and reports whether the list was its last member. */
  lemma DropBuckets<K>(a: Arena<K, nat>, buckets: Buckets, lists: Lists, f: nat, p: nat)
    requires Bucketed(buckets, lists) && f in lists && p < |lists[f]|
    requires Linked(a, lists[f]) && Live(a, lists[f][p])
    ensures var n := a[lists[f][p]].value;
            var after := BucketUnlinked(buckets, f, lists[f][p], n.prev, n.next);
            && Bucketed(BucketCleaned(after, f), Dropped(lists, f, p))
            && (Drained(after, f) <==> |lists[f]| == 1)
  {
    var s := lists[f];
    var n := a[s[p]].value;
    var after := BucketUnlinked(buckets, f, s[p], n.prev, n.next);
    assert Wired(a, s, p);
    assert BucketOk(buckets, lists, f);
    forall g: nat
      ensures BucketOk(BucketCleaned(after, f), Dropped(lists, f, p), g)
    {
      assert BucketOk(buckets, lists, g);
    }
  }

  // ----- the least frequency

  ghost predicate IsMinimum(m: nat, lists: Lists) {
    if lists == map[] then m == 0 else IsLeast(lists.Keys, m)
  }

  /** Scanning the bucket keys finds the least frequency. */
  lemma ScanFindsMinimum(buckets: Buckets, lists: Lists)
    requires Bucketed(buckets, lists)
    ensures IsMinimum(LeastOr(buckets.Keys, 0), lists)
  {
    forall f: nat
      ensures f in buckets.Keys <==> f in lists.Keys
    {
      assert BucketOk(buckets, lists, f);
    }
    assert buckets.Keys == lists.Keys;
  }

  lemma InsertMinimum(lists: Lists, idx: nat)
    requires forall f :: f in lists ==> f >= 1
    ensures IsMinimum(1, Fronted(lists, 1, idx))
  {
  }

  /** The last key to leave the least frequency goes exactly one up, so the minimum moves with it. */
  lemma PromoteMinimum(m: nat, lists: Lists, f: nat, p: nat, idx: nat)
    requires IsMinimum(m, lists) && f in lists && p < |lists[f]|
    ensures IsMinimum(if |lists[f]| == 1 && f == m then f + 1 else m, Fronted(Dropped(lists, f, p), f + 1, idx))
  {
    var after := Fronted(Dropped(lists, f, p), f + 1, idx);
    assert forall g :: g in after <==> g == f + 1 || (g in lists && !(g == f && |lists[f]| == 1));
    assert f + 1 in after;
  }

  lemma DropMinimum(m: nat, lists: Lists, f: nat, p: nat)
    requires IsMinimum(m, lists) && f in lists && p < |lists[f]|
    requires |lists[f]| != 1 || f != m
    ensures IsMinimum(m, Dropped(lists, f, p))
  {
    assert m in Dropped(lists, f, p);
  }

  /** The minimum after a removal: rescanned when its bucket vanished, otherwise still right. */
  lemma MinimumAfterDrop<K>(a: Arena<K, nat>, buckets: Buckets, lists: Lists, m: nat, f: nat, p: nat)
    requires Bucketed(buckets, lists) && IsMinimum(m, lists) && f in lists && p < |lists[f]|
    requires Linked(a, lists[f]) && Live(a, lists[f][p])
    ensures var n := a[lists[f][p]].value;
            var unlinked := BucketUnlinked(buckets, f, lists[f][p], n.prev, n.next);
            var after := BucketCleaned(unlinked, f);
            IsMinimum(if Drained(unlinked, f) && f == m then LeastOr(after.Keys, 0) else m, Dropped(lists, f, p))
  {
    DropBuckets(a, buckets, lists, f, p);
    var n := a[lists[f][p]].value;
    var unlinked := BucketUnlinked(buckets, f, lists[f][p], n.prev, n.next);
    if Drained(unlinked, f) && f == m {
      ScanFindsMinimum(BucketCleaned(unlinked, f), Dropped(lists, f, p));
    } else {
      DropMinimum(m, lists, f, p);
    }
  }

  /** The buckets and the minimum after a key is promoted. */
  lemma PromoteBuckets<K>(a: Arena<K, nat>, buckets: Buckets, lists: Lists, m: nat, f: nat, p: nat)
    requires Bucketed(buckets, lists) && IsMinimum(m, lists) && f in lists && p < |lists[f]|
    requires Linked(a, lists[f]) && Live(a, lists[f][p])
    ensures var idx := lists[f][p];
            var unlinked := BucketUnlinked(buckets, f, idx, a[idx].value.prev, a[idx].value.next);
            var after, rest := BucketCleaned(unlinked, f), Dropped(lists, f, p);
            && BucketAt(after, f + 1).head == At(ListAt(rest, f + 1), 0)
            && Bucketed(BucketFronted(after, f + 1, idx), Fronted(rest, f + 1, idx))
            && IsMinimum(if Drained(unlinked, f) && f == m then f + 1 else m, Fronted(rest, f + 1, idx))
  {
    var idx := lists[f][p];
    DropBuckets(a, buckets, lists, f, p);
    var unlinked := BucketUnlinked(buckets, f, idx, a[idx].value.prev, a[idx].value.next);
    FrontBuckets(BucketCleaned(unlinked, f), Dropped(lists, f, p), f + 1, idx);
    PromoteMinimum(m, lists, f, p, idx);
  }

  // ----- agreement with the ledger

  ghost predicate OrderedAt<K>(a: Arena<K, nat>, lists: Lists, uses: map<K, Ledgers.Use>, f: nat)
    requires f in lists
  {
    NewestFirst(a, lists[f], uses)
  }

  /** Within every frequency the keys stand in the order in which they reached it, latest first. */
  ghost predicate Ordered<K>(a: Arena<K, nat>, lists: Lists, uses: map<K, Ledgers.Use>) {
    forall f {:trigger OrderedAt(a, lists, uses, f)} :: f in lists ==> OrderedAt(a, lists, uses, f)
  }

  ghost predicate Counted<K>(a: Arena<K, nat>, l: Ledgers.Ledger<K>, i: nat) {
    Live(a, i) ==> a[i].value.key in l.uses && l.uses[a[i].value.key].freq == a[i].value.tag
  }

  ghost predicate Faithful<K>(
      a: Arena<K, nat>, lists: Lists, index: map<K, nat>, free: seq<nat>, l: Ledgers.Ledger<K>)
  {
    && Structured(a, lists, index, free)
    && Ledgers.ValidLedger(l) && l.kind == Ledgers.Lfu
    && l.uses.Keys == index.Keys
    && (forall i: nat :: Counted(a, l, i))
    && Ordered(a, lists, l.uses)
    && |l.uses| + |free| == |a| == l.peak
  }

  /** Every listed slot is live and is not `idx`. */
  ghost predicate Excludes<K>(a: Arena<K, nat>, lists: Lists, idx: nat) {
    forall g, i :: g in lists && i in lists[g] ==> i != idx && Live(a, i)
  }

  lemma DropOrdered<K>(a: Arena<K, nat>, lists: Lists, uses: map<K, Ledgers.Use>, f: nat, p: nat)
    requires Ordered(a, lists, uses) && f in lists && p < |lists[f]|
    ensures Ordered(a, Dropped(lists, f, p), uses)
  {
    forall g | g in Dropped(lists, f, p)
      ensures OrderedAt(a, Dropped(lists, f, p), uses, g)
    {
      assert OrderedAt(a, lists, uses, g);
      if g == f {
        NewestFirstWithout(a, lists[f], uses, p);
      }
    }
  }

  /** A key that is in slot `idx`, if anywhere, is not in another live slot. */
  lemma OtherSlotOtherKey<K>(a: Arena<K, nat>, index: map<K, nat>, i: nat, idx: nat, key: K)
    requires Indexed(a, index) && Live(a, i) && i != idx && (key in index ==> index[key] == idx)
    ensures a[i].value.key != key
  {
    assert SlotFound(a, index, i);
  }

  /** The key used just now goes to the front of any list without disturbing the order of the others. */
  lemma FrontOrdered<K>(
      a: Arena<K, nat>, b: Arena<K, nat>, lists: Lists, f: nat, idx: nat, index: map<K, nat>,
      l: Ledgers.Ledger<K>, l': Ledgers.Ledger<K>)
    requires Ordered(a, lists, l.uses)
    requires Indexed(a, index) && Ledgers.ValidLedger(l) && index.Keys == l.uses.Keys
    requires Elsewhere(a, b, idx)
    requires Excludes(a, lists, idx)
    requires Live(b, idx) && UsedNow(l, l', b[idx].value.key)
    requires b[idx].value.key in index ==> index[b[idx].value.key] == idx
    ensures Ordered(b, Fronted(lists, f, idx), l'.uses)
  {
    var lists' := Fronted(lists, f, idx);
    forall g | g in lists'
      ensures OrderedAt(b, lists', l'.uses, g)
    {
      var s := ListAt(lists, g);
      assert g in lists ==> OrderedAt(a, lists, l.uses, g);
      forall i | i in s
        ensures i != idx && SameNodeLive(a, b, i) && SameUse(a, b, l.uses, l'.uses, i)
      {
        assert g in lists && SameSlot(a, b, i);
        OtherSlotOtherKey(a, index, i, idx, b[idx].value.key);
      }
      if g == f {
        NewestFirstFront(a, b, s, idx, index, l, l');
      } else {
        NewestFirstFrame(a, b, s, l.uses, l'.uses);
      }
    }
  }

  lemma MembersFloatNot<K>(a: Arena<K, nat>, lists: Lists, idx: nat)
    requires ListsOk(a, lists) && forall f {:trigger lists[f]} :: f in lists ==> idx !in lists[f]
    ensures Excludes(a, lists, idx)
  {
    forall g, i | g in lists && i in lists[g]
      ensures i != idx && Live(a, i)
    {
      assert ListOk(a, lists, g) && Tagged(a, i, g);
    }
  }

  lemma InsertFaithful<K>(
      a: Arena<K, nat>, lists: Lists, index: map<K, nat>, free: seq<nat>, l: Ledgers.Ledger<K>, key: K)
    requires Faithful(a, lists, index, free, l) && key !in l.uses
    ensures free != [] ==> free[|free| - 1] < |a|
    ensures var (b, free', idx) := Reserved(a, free);
            var filled := Filled(a, free, Node(key, 1, None, None));
            && idx < |b| && Live(filled, idx)
            && (ListAt(lists, 1) != [] ==> Live(filled, ListAt(lists, 1)[0]))
            && Faithful(LinkedFront(filled, At(ListAt(lists, 1), 0), idx), Fronted(lists, 1, idx),
                        index[key := idx], free', Ledgers.OnInsert(l, key))
  {
    var node, l' := Node(key, 1, None, None), Ledgers.OnInsert(l, key);
    Ledgers.InsertIsLawful(l, key);
    Fill(a, lists, index, free, node);
    var (b, free', idx) := Reserved(a, free);
    var filled := Filled(a, free, node);
    Link(filled, lists, index[key := idx], free', idx);
    var c := LinkedFront(filled, At(ListAt(lists, 1), 0), idx);
    ElsewhereTransitive(a, filled, c, idx);
    MembersFloatNot(a, lists, idx);
    assert SameSlot(filled, c, idx);
    UsedSlotFaithful(a, c, lists, 1, idx, index, index[key := idx], free', l, l', key);
  }

  /** What insertion and promotion have in common: the slot of the key just used heads its list. */
  lemma UsedSlotFaithful<K>(
      a: Arena<K, nat>, c: Arena<K, nat>, rest: Lists, f: nat, idx: nat, index: map<K, nat>, index': map<K, nat>,
      free: seq<nat>, l: Ledgers.Ledger<K>, l': Ledgers.Ledger<K>, key: K)
    requires Indexed(a, index) && index.Keys == l.uses.Keys && Ledgers.ValidLedger(l)
    requires Ordered(a, rest, l.uses) && forall i: nat :: Counted(a, l, i)
    requires Excludes(a, rest, idx)
    requires Structured(c, Fronted(rest, f, idx), index', free) && Elsewhere(a, c, idx)
    requires Live(c, idx) && c[idx].value.key == key && c[idx].value.tag == f
    requires index' == index[key := idx] && (key in index ==> index[key] == idx)
    requires Ledgers.ValidLedger(l') && l'.kind == Ledgers.Lfu && l'.uses.Keys == index'.Keys
    requires UsedNow(l, l', key) && l'.uses[key].freq == f
    requires |l'.uses| + |free| == |c| == l'.peak
    ensures Faithful(c, Fronted(rest, f, idx), index', free, l')
  {
    FrontOrdered(a, c, rest, f, idx, index, l, l');
    CountedElsewhere(a, c, index, index', l, l', key, idx);
    forall i: nat
      ensures Counted(c, l', i)
    {
      assert i != idx ==> Counted(c, l', i);
    }
  }

  /** No key has frequency zero. */
  lemma FrequenciesArePositive<K>(
      a: Arena<K, nat>, lists: Lists, index: map<K, nat>, free: seq<nat>, l: Ledgers.Ledger<K>)
    requires Faithful(a, lists, index, free, l)
    ensures forall f :: f in lists ==> f >= 1
  {
    forall f | f in lists
      ensures f >= 1
    {
      assert ListOk(a, lists, f) && Tagged(a, lists[f][0], f) && Counted(a, l, lists[f][0]);
      assert Ledgers.Plausible(l, a[lists[f][0]].value.key);
    }
  }

  /** Promoting a key: unlink it, count the access, link it one frequency up. */
  lemma PromoteFaithful<K>(
      a: Arena<K, nat>, lists: Lists, index: map<K, nat>, free: seq<nat>, l: Ledgers.Ledger<K>, f: nat, p: nat)
    requires Faithful(a, lists, index, free, l) && f in lists && p < |lists[f]| && Live(a, lists[f][p])
    ensures UnlinkReady(a, lists[f][p]) && Linked(a, lists[f]) && a[lists[f][p]].value.tag == f
    ensures var idx := lists[f][p];
            var b, rest := Unlinked(a, idx), Dropped(lists, f, p);
            && Live(b, idx)
            && var b' := Retagged(b, idx, f + 1);
            && (ListAt(rest, f + 1) != [] ==> Live(b', ListAt(rest, f + 1)[0]))
            && Faithful(LinkedFront(b', At(ListAt(rest, f + 1), 0), idx), Fronted(rest, f + 1, idx), index, free,
                        Ledgers.OnAccess(l, a[idx].value.key))
  {
    var idx, rest := lists[f][p], Dropped(lists, f, p);
    var key := a[idx].value.key;
    var l' := Ledgers.OnAccess(l, key);
    assert ListOk(a, lists, f) && Tagged(a, idx, f) && SlotFound(a, index, idx) && Counted(a, l, idx);
    Ledgers.AccessIsLawful(l, key);
    Unlink(a, lists, index, free, f, p);
    var b := Unlinked(a, idx);
    Retag(b, rest, index, free, idx, f + 1);
    var b' := Retagged(b, idx, f + 1);
    Link(b', rest, index, free, idx);
    var c := LinkedFront(b', At(ListAt(rest, f + 1), 0), idx);
    ElsewhereTransitive(a, b, b', idx);
    ElsewhereTransitive(a, b', c, idx);
    assert SameSlot(a, b, idx) && SameSlot(b', c, idx);
    DropOrdered(a, lists, l.uses, f, p);
    RestIsLive(a, b, lists, rest, f, p, idx);
    UsedSlotFaithful(a, c, rest, f + 1, idx, index, index, free, l, l', key);
  }

  /** The same with the buckets that the code works on. */
  lemma PromoteIsValid<K>(
      a: Arena<K, nat>, buckets: Buckets, lists: Lists, m: nat, index: map<K, nat>, free: seq<nat>,
      l: Ledgers.Ledger<K>, f: nat, p: nat)
    requires Faithful(a, lists, index, free, l) && f in lists && p < |lists[f]| && Live(a, lists[f][p])
    requires Bucketed(buckets, lists) && IsMinimum(m, lists)
    ensures UnlinkReady(a, lists[f][p]) && a[lists[f][p]].value.tag == f
    ensures var idx, n := lists[f][p], a[lists[f][p]].value;
            var b, unlinked := Unlinked(a, idx), BucketUnlinked(buckets, f, idx, n.prev, n.next);
            var after := BucketCleaned(unlinked, f);
            && Live(b, idx) && b[idx].value.tag == f
            && var b', head, lists' := Retagged(b, idx, f + 1), BucketAt(after, f + 1).head,
                                       Fronted(Dropped(lists, f, p), f + 1, idx);
               && (head.Some? ==> Live(b', head.value))
               && Faithful(LinkedFront(b', head, idx), lists', index, free, Ledgers.OnAccess(l, n.key))
               && Bucketed(BucketFronted(after, f + 1, idx), lists')
               && IsMinimum(if Drained(unlinked, f) && f == m then f + 1 else m, lists')
  {
    PromoteFaithful(a, lists, index, free, l, f, p);
    PromoteBuckets(a, buckets, lists, m, f, p);
    assert ListOk(a, lists, f) && SameNode(a, Unlinked(a, lists[f][p]), lists[f][p]);
  }

  /** Removing a key: unlink it, empty its slot, recycle the slot. */
  lemma RemoveFaithful<K>(
      a: Arena<K, nat>, lists: Lists, index: map<K, nat>, free: seq<nat>, l: Ledgers.Ledger<K>, f: nat, p: nat)
    requires Faithful(a, lists, index, free, l) && f in lists && p < |lists[f]| && Live(a, lists[f][p])
    ensures UnlinkReady(a, lists[f][p]) && Linked(a, lists[f]) && a[lists[f][p]].value.tag == f
    ensures var idx, key := lists[f][p], a[lists[f][p]].value.key;
            var b := Unlinked(a, idx);
            && Live(b, idx) && b[idx].value.key == key
            && Faithful(b[idx := None], Dropped(lists, f, p), Without(index, key), free + [idx],
                        Ledgers.OnDelete(l, key))
  {
    var idx, rest := lists[f][p], Dropped(lists, f, p);
    var key := a[idx].value.key;
    var l' := Ledgers.OnDelete(l, key);
    assert ListOk(a, lists, f) && Tagged(a, idx, f) && SlotFound(a, index, idx);
    Ledgers.DeleteIsLawful(l, key);
    Unlink(a, lists, index, free, f, p);
    var b := Unlinked(a, idx);
    assert SameSlot(a, b, idx);
    Free(b, rest, index, free, idx);
    var c := b[idx := None];
    ElsewhereTransitive(a, b, c, idx);
    DropOrdered(a, lists, l.uses, f, p);
    RestIsLive(a, b, lists, rest, f, p, idx);
    KeepOrdered(a, c, rest, idx, index, l, l', key);
    CountedElsewhere(a, c, index, Without(index, key), l, l', key, idx);
    forall i: nat
      ensures Counted(c, l', i)
    {
      assert i != idx ==> Counted(c, l', i);
    }
  }

  lemma KeepOrdered<K>(
      a: Arena<K, nat>, c: Arena<K, nat>, lists: Lists, idx: nat, index: map<K, nat>,
      l: Ledgers.Ledger<K>, l': Ledgers.Ledger<K>, key: K)
    requires Ordered(a, lists, l.uses) && Indexed(a, index) && key in index && index[key] == idx
    requires Elsewhere(a, c, idx)
    requires Excludes(a, lists, idx)
    requires forall k :: k in l.uses && k != key ==> k in l'.uses && l'.uses[k] == l.uses[k]
    ensures Ordered(c, lists, l'.uses)
  {
    forall g | g in lists
      ensures OrderedAt(c, lists, l'.uses, g)
    {
      assert OrderedAt(a, lists, l.uses, g);
      forall i | i in lists[g]
        ensures SameUse(a, c, l.uses, l'.uses, i)
      {
        assert SameSlot(a, c, i) && SlotFound(a, index, i);
      }
      NewestFirstFrame(a, c, lists[g], l.uses, l'.uses);
    }
  }

  lemma RestIsLive<K>(
      a: Arena<K, nat>, b: Arena<K, nat>, lists: Lists, rest: Lists, f: nat, p: nat, idx: nat)
    requires ListsOk(a, lists) && f in lists && p < |lists[f]| && idx == lists[f][p] && rest == Dropped(lists, f, p)
    requires forall g {:trigger rest[g]} :: g in rest ==> idx !in rest[g]
    ensures Excludes(a, rest, idx)
  {
    forall g, i | g in rest && i in rest[g]
      ensures i != idx && Live(a, i)
    {
      assert ListOk(a, lists, g) && Tagged(a, i, g);
    }
  }

  /** An operation on one key leaves the counts of the others as they were. */
  lemma CountedElsewhere<K>(
      a: Arena<K, nat>, c: Arena<K, nat>, index: map<K, nat>, index': map<K, nat>,
      l: Ledgers.Ledger<K>, l': Ledgers.Ledger<K>, key: K, idx: nat)
    requires Indexed(a, index) && Indexed(c, index') && Elsewhere(a, c, idx) && forall i: nat :: Counted(a, l, i)
    requires forall k :: k in index' && k != key ==> k in index && index'[k] == index[k]
    requires key in index' ==> index'[key] == idx
    requires forall k :: k in l.uses && k != key ==> k in l'.uses && l'.uses[k] == l.uses[k]
    ensures forall i: nat {:trigger Counted(c, l', i)} :: i != idx ==> Counted(c, l', i)
  {
    forall i: nat | i != idx && Live(c, i)
      ensures Counted(c, l', i)
    {
      var k := c[i].value.key;
      assert SlotFound(c, index', i) && KeyFound(a, index, k);
      assert SameSlot(a, c, i) && Counted(a, l, i);
    }
  }

  /** The tail of the least bucket holds the key with the least (frequency, stamp). */
  lemma TailIsVictim<K>(
      a: Arena<K, nat>, lists: Lists, index: map<K, nat>, free: seq<nat>, l: Ledgers.Ledger<K>, m: nat)
    requires Faithful(a, lists, index, free, l) && IsMinimum(m, lists)
    ensures m in lists <==> l.uses != map[]
    ensures m in lists ==>
              && lists[m] != [] && Live(a, lists[m][|lists[m]| - 1])
              && Ledgers.IsVictim(l, a[lists[m][|lists[m]| - 1]].value.key)
  {
    if m in lists {
      assert ListOk(a, lists, m);
      var last := lists[m][|lists[m]| - 1];
      assert Tagged(a, last, m);
      assert SlotFound(a, index, last) && Counted(a, l, last);
      var v := a[last].value.key;
      forall k | k in l.uses && k != v
        ensures Ledgers.Before(l.uses[v], l.uses[k])
      {
        var i := index[k];
        assert KeyFound(a, index, k) && Counted(a, l, i) && Placed(a, lists, i);
        if a[i].value.tag == m {
          var p :| 0 <= p < |lists[m]| && lists[m][p] == i;
          assert OrderedAt(a, lists, l.uses, m) && NewerAt(a, lists[m], l.uses, p, |lists[m]| - 1);
        }
      }
    }
    if l.uses != map[] {
      var k :| k in l.uses;
      assert KeyFound(a, index, k) && Placed(a, lists, index[k]);
    }
  }

  lemma ElsewhereTransitive<K>(a: Arena<K, nat>, b: Arena<K, nat>, c: Arena<K, nat>, idx: nat)
    requires Elsewhere(a, b, idx) && Elsewhere(b, c, idx)
    ensures Elsewhere(a, c, idx)
  {
    forall i: nat | i != idx && Live(a, i)
      ensures SameSlot(a, c, i)
    {
      assert SameSlot(a, b, i) && SameSlot(b, c, i);
    }
  }

  class LfuPolicy<K(==, !new)> {
    var arena: Arena<K, nat>
    var keyToIndex: map<K, nat>
    var buckets: Buckets
    var minFreq: nat
    var freeList: seq<nat>

    ghost var lists: Lists
    ghost var ledger: Ledgers.Ledger<K>

    ghost predicate Valid()
      reads this
    {
      && Faithful(arena, lists, keyToIndex, freeList, ledger)
      && Bucketed(buckets, lists) && IsMinimum(minFreq, lists)
    }

    constructor ()
      ensures Valid() && ledger == Ledgers.New(Ledgers.Lfu)
    {
      arena, keyToIndex, buckets, minFreq, freeList := [], map[], map[], 0, [];
      lists, ledger := map[], Ledgers.New(Ledgers.Lfu);
    }

    method Alloc() returns (idx: nat)
      modifies `arena, `freeList
      ensures (arena, freeList, idx) == Reserved(old(arena), old(freeList))
    {
      if freeList != [] {
        idx := freeList[|freeList| - 1];
        freeList := freeList[..|freeList| - 1];
      } else {
        idx := |arena|;
        arena := arena + [None];
      }
    }

    method LinkAtHeadOfBucket(freq: nat, idx: nat)
      requires Live(arena, idx)
      requires BucketAt(buckets, freq).head.Some? ==> Live(arena, BucketAt(buckets, freq).head.value)
      modifies `arena, `buckets
      ensures buckets == BucketFronted(old(buckets), freq, idx)
      ensures arena == LinkedFront(old(arena), BucketAt(old(buckets), freq).head, idx)
    {
      var bucket := if freq in buckets then buckets[freq] else FreqBucket(None, None);
      var oldHead := bucket.head;
      buckets := buckets[freq := FreqBucket(Some(idx), if bucket.tail.None? then Some(idx) else bucket.tail)];
      arena := WithNext(WithPrev(arena, idx, None), idx, oldHead);
      if oldHead.Some? {
        arena := WithPrev(arena, oldHead.value, Some(idx));
      }
    }

    method UnlinkFromBucket(freq: nat, idx: nat)
      requires UnlinkReady(arena, idx)
      modifies `arena, `buckets
      ensures arena == Unlinked(old(arena), idx)
      ensures buckets ==
              BucketUnlinked(old(buckets), freq, idx, old(arena)[idx].value.prev, old(arena)[idx].value.next)
    {
      var prev, next := arena[idx].value.prev, arena[idx].value.next;
      if prev.Some? {
        arena := WithNext(arena, prev.value, next);
      }
      if next.Some? {
        arena := WithPrev(arena, next.value, prev);
      }
      if freq in buckets {
        var bucket := buckets[freq];
        if bucket.head == Some(idx) {
          bucket := bucket.(head := next);
        }
        if bucket.tail == Some(idx) {
          bucket := bucket.(tail := prev);
        }
        buckets := buckets[freq := bucket];
      }
    }

    method CleanupBucket(freq: nat) returns (removed: bool)
      modifies `buckets
      ensures removed == Drained(old(buckets), freq)
      ensures buckets == BucketCleaned(old(buckets), freq)
    {
      if freq in buckets && buckets[freq].head.None? {
        buckets := Without(buckets, freq);
        return true;
      }
      return false;
    }

    /** Takes a new key in. Called with a tracked key it breaks the structure, and only then. */
    method OnInsert(key: K)
      requires Valid()
      modifies this
      ensures Valid() <==> key !in old(ledger).uses
      ensures Valid() ==> ledger == Ledgers.OnInsert(old(ledger), key)
    {
      ghost var isNew := key !in ledger.uses;
      FrontBuckets(buckets, lists, 1, Reserved(arena, freeList).2);
      if isNew {
        InsertFaithful(arena, lists, keyToIndex, freeList, ledger, key);
        FrequenciesArePositive(arena, lists, keyToIndex, freeList, ledger);
        InsertMinimum(lists, Reserved(arena, freeList).2);
      } else {
        assert 1 in lists ==> ListOk(arena, lists, 1) && Tagged(arena, lists[1][0], 1);
        SecondSlotIsLost(arena, keyToIndex, freeList, Node(key, 1, None, None), BucketAt(buckets, 1).head);
      }
      Place(key);
      if isNew {
        ledger := Ledgers.OnInsert(ledger, key);
      }
    }

    /** The steps of `OnInsert` on the concrete fields. */
    method Place(key: K)
      requires freeList != [] ==> freeList[|freeList| - 1] < |arena|
      requires var head := BucketAt(buckets, 1).head;
               head.Some? ==> Live(Filled(arena, freeList, Node(key, 1, None, None)), head.value)
      modifies this
      ensures ledger == old(ledger)
      ensures var (b, free', idx) := Reserved(old(arena), old(freeList));
              var filled := Filled(old(arena), old(freeList), Node(key, 1, None, None));
              && arena == LinkedFront(filled, BucketAt(old(buckets), 1).head, idx)
              && keyToIndex == old(keyToIndex)[key := idx]
              && freeList == free'
              && buckets == BucketFronted(old(buckets), 1, idx)
              && lists == Fronted(old(lists), 1, idx)
      ensures minFreq == 1
    {
      var idx := Alloc();
      arena := arena[idx := Some(Node(key, 1, None, None))];
      LinkAtHeadOfBucket(1, idx);
      keyToIndex := keyToIndex[key := idx];
      minFreq := 1;
      lists := Fronted(lists, 1, idx);
    }

    method OnAccess(key: K)
      requires Valid()
      modifies this
      ensures Valid() && ledger == Ledgers.OnAccess(old(ledger), key)
    {
      if key in keyToIndex {
        ghost var f, p := PositionOf(key);
        PromoteIsValid(arena, buckets, lists, minFreq, keyToIndex, freeList, ledger, f, p);
        Promote(keyToIndex[key], p);
      } else {
        TickFaithful(arena, lists, keyToIndex, freeList, ledger);
      }
      ledger := Ledgers.OnAccess(ledger, key);
    }

    /** The steps of `OnAccess` on the concrete fields. */
    method Promote(idx: nat, ghost p: nat)
      requires UnlinkReady(arena, idx) && Live(Unlinked(arena, idx), idx)
      requires arena[idx].value.tag in lists && p < |lists[arena[idx].value.tag]|
      requires Unlinked(arena, idx)[idx].value.tag == arena[idx].value.tag
      requires var n := arena[idx].value;
               var after := BucketCleaned(BucketUnlinked(buckets, n.tag, idx, n.prev, n.next), n.tag);
               var head := BucketAt(after, n.tag + 1).head;
               head.Some? ==> Live(Retagged(Unlinked(arena, idx), idx, n.tag + 1), head.value)
      modifies `arena, `buckets, `minFreq, `lists
      ensures var n := old(arena)[idx].value;
              lists == Fronted(Dropped(old(lists), n.tag, p), n.tag + 1, idx)
      ensures var n := old(arena)[idx].value;
              var unlinked := BucketUnlinked(old(buckets), n.tag, idx, n.prev, n.next);
              var after := BucketCleaned(unlinked, n.tag);
              && buckets == BucketFronted(after, n.tag + 1, idx)
              && arena == LinkedFront(Retagged(Unlinked(old(arena), idx), idx, n.tag + 1),
                                      BucketAt(after, n.tag + 1).head, idx)
              && minFreq == (if Drained(unlinked, n.tag) && n.tag == old(minFreq) then n.tag + 1 else old(minFreq))
    {
      var oldFreq := arena[idx].value.tag;
      var newFreq := oldFreq + 1;
      UnlinkFromBucket(oldFreq, idx);
      var removed := CleanupBucket(oldFreq);
      if removed && oldFreq == minFreq {
        minFreq := newFreq;
      }
      arena := Retagged(arena, idx, newFreq);
      LinkAtHeadOfBucket(newFreq, idx);
      lists := Fronted(Dropped(lists, oldFreq, p), newFreq, idx);
    }

    method Evict() returns (victim: Option<K>)
      requires Valid()
      modifies this
      ensures Valid() && (ledger, victim) == Ledgers.Evict(old(ledger))
    {
      TailIsVictim(arena, lists, keyToIndex, freeList, ledger, minFreq);
      assert BucketOk(buckets, lists, minFreq);
      if minFreq !in buckets || buckets[minFreq].tail.None? {
        TickFaithful(arena, lists, keyToIndex, freeList, ledger);
        ledger := Ledgers.Evict(ledger).0;
        return None;
      }
      var tailIdx := buckets[minFreq].tail.value;
      var key := arena[tailIdx].value.key;
      Ledgers.EvictIs(ledger, key);
      ghost var p := |lists[minFreq]| - 1;
      RemoveFaithful(arena, lists, keyToIndex, freeList, ledger, minFreq, p);
      DropBuckets(arena, buckets, lists, minFreq, p);
      MinimumAfterDrop(arena, buckets, lists, minFreq, minFreq, p);
      Release(minFreq, tailIdx, p);
      ledger := Ledgers.OnDelete(ledger, key);
      victim := Some(key);
    }

    method OnDelete(key: K)
      requires Valid()
      modifies this
      ensures Valid() && ledger == Ledgers.OnDelete(old(ledger), key)
    {
      if key in keyToIndex {
        ghost var f, p := PositionOf(key);
        var idx := keyToIndex[key];
        RemoveFaithful(arena, lists, keyToIndex, freeList, ledger, f, p);
        DropBuckets(arena, buckets, lists, f, p);
        MinimumAfterDrop(arena, buckets, lists, minFreq, f, p);
        Release(arena[idx].value.tag, idx, p);
      } else {
        TickFaithful(arena, lists, keyToIndex, freeList, ledger);
        assert Without(ledger.uses, key) == ledger.uses;
      }
      ledger := Ledgers.OnDelete(ledger, key);
    }

    /** The steps that `Evict` and `OnDelete` share: unlink the slot, empty it, forget its key, recycle
        it, drop its bucket if that is now empty, and rescan if that was the least bucket. */
    method Release(freq: nat, idx: nat, ghost p: nat)
      requires UnlinkReady(arena, idx) && Live(Unlinked(arena, idx), idx)
      requires freq in lists && p < |lists[freq]|
      modifies this
      ensures ledger == old(ledger) && lists == Dropped(old(lists), freq, p)
      ensures arena == Unlinked(old(arena), idx)[idx := None]
      ensures keyToIndex == Without(old(keyToIndex), Unlinked(old(arena), idx)[idx].value.key)
      ensures freeList == old(freeList) + [idx]
      ensures var n := old(arena)[idx].value;
              var unlinked := BucketUnlinked(old(buckets), freq, idx, n.prev, n.next);
              && buckets == BucketCleaned(unlinked, freq)
              && minFreq == (if Drained(unlinked, freq) && freq == old(minFreq)
                             then LeastOr(BucketCleaned(unlinked, freq).Keys, 0) else old(minFreq))
    {
      UnlinkFromBucket(freq, idx);
      var key := arena[idx].value.key;
      arena := arena[idx := None];
      keyToIndex := Without(keyToIndex, key);
      freeList := freeList + [idx];
      lists := Dropped(lists, freq, p);
      var removed := CleanupBucket(freq);
      if removed && freq == minFreq {
        minFreq := LeastOr(buckets.Keys, 0);
      }
    }

    /** The list and position of a tracked key. */
    lemma PositionOf(key: K) returns (f: nat, p: nat)
      requires Valid() && key in keyToIndex
      ensures f in lists && p < |lists[f]| && lists[f][p] == keyToIndex[key]
      ensures Live(arena, lists[f][p]) && arena[lists[f][p]].value.key == key && arena[lists[f][p]].value.tag == f
    {
      var idx := keyToIndex[key];
      assert KeyFound(arena, keyToIndex, key) && Placed(arena, lists, idx);
      f := arena[idx].value.tag;
      p :| 0 <= p < |lists[f]| && lists[f][p] == idx;
    }

    /** Walking the bucket of a frequency by `next` meets exactly the keys of that frequency, the latest to
        reach it first; walking it by `prev` from its tail meets them in the opposite order. */
    lemma WalksAreBuckets(f: nat)
      requires Valid() && f in buckets
      ensures var walk := Forward(arena, buckets[f].head, |arena|);
              && walk != []
              && (forall i :: i in walk ==> Tagged(arena, i, f))
              && (forall k :: k in ledger.uses && ledger.uses[k].freq == f
                              <==> exists i :: i in walk && Live(arena, i) && arena[i].value.key == k)
              && NewestFirst(arena, walk, ledger.uses)
              && Backward(arena, buckets[f].tail, |arena|) == Reversed(walk)
    {
      assert BucketOk(buckets, lists, f) && ListOk(arena, lists, f) && OrderedAt(arena, lists, ledger.uses, f);
      var s := lists[f];
      WholeWalks(arena, s);
      forall i | i in s
        ensures Tagged(arena, i, f)
      {
      }
      forall k
        ensures k in ledger.uses && ledger.uses[k].freq == f
                <==> exists i :: i in s && Live(arena, i) && arena[i].value.key == k
      {
        BucketMember(f, k);
      }
    }

    lemma BucketMember(f: nat, k: K)
      requires Valid() && f in lists
      ensures k in ledger.uses && ledger.uses[k].freq == f
              <==> exists i :: i in lists[f] && Live(arena, i) && arena[i].value.key == k
    {
      assert ListOk(arena, lists, f);
      if k in ledger.uses {
        var g, p := PositionOf(k);
        assert Counted(arena, ledger, lists[g][p]) && lists[g][p] in lists[g];
      }
      if i :| i in lists[f] && Live(arena, i) && arena[i].value.key == k {
        assert Tagged(arena, i, f) && SlotFound(arena, keyToIndex, i) && Counted(arena, ledger, i);
      }
    }
  }

  lemma TickFaithful<K>(
      a: Arena<K, nat>, lists: Lists, index: map<K, nat>, free: seq<nat>, l: Ledgers.Ledger<K>)
    requires Faithful(a, lists, index, free, l)
    ensures Faithful(a, lists, index, free, l.(clock := l.clock + 1))
  {
    Ledgers.TickIsLawful(l);
    var l' := l.(clock := l.clock + 1);
    forall i: nat
      ensures Counted(a, l', i)
    {
      assert Counted(a, l, i);
    }
  }
}
