/** The consistent hash ring: virtual nodes sorted by hash, lookups by binary search, and the clockwise walk
    that collects replicas. Both hash functions are parameters; virtual nodes may collide. */
module HashRings {
  import opened Collections
  import opened Sequences

  type Ring<N> = seq<(nat, N)>

  ghost predicate Sorted<N>(ring: Ring<N>) {
    forall i, j :: 0 <= i < j < |ring| ==> ring[i].0 <= ring[j].0
  }

  /** What a binary search by hash may answer: any entry with that hash, or the insertion point if there is none. */
  ghost predicate Found<N>(ring: Ring<N>, hash: nat, pos: nat) {
    && pos <= |ring|
    && ((pos < |ring| && ring[pos].0 == hash)
        || ((forall i :: 0 <= i < pos ==> ring[i].0 < hash) && (forall i :: pos <= i < |ring| ==> ring[i].0 > hash)))
  }

  lemma FoundSplits<N>(ring: Ring<N>, hash: nat, pos: nat)
    requires Sorted(ring) && Found(ring, hash, pos)
    ensures forall i :: 0 <= i < pos ==> ring[i].0 <= hash
    ensures forall i :: pos <= i < |ring| ==> ring[i].0 >= hash
  {
  }

  // ----- what the ring holds

  function NotOf<N(==)>(x: N): ((nat, N)) -> bool {
    (e: (nat, N)) => e.1 != x
  }

  /** The ring without the virtual nodes of `x`. */
  function Others<N(==)>(ring: Ring<N>, x: N): Ring<N> {
    Filter(NotOf(x), ring)
  }

  /** The virtual nodes of `node` with indices below `count`. */
  ghost function Vnodes<N>(hash: (N, nat) -> nat, node: N, count: nat): multiset<(nat, N)> {
    if count == 0 then multiset{} else Vnodes(hash, node, count - 1) + multiset{(hash(node, count - 1), node)}
  }

  lemma {:induction false} VnodesAreOf<N>(hash: (N, nat) -> nat, node: N, count: nat, e: (nat, N))
    requires e in Vnodes(hash, node, count)
    ensures e.1 == node && exists i: nat :: i < count && hash(node, i) == e.0
  {
    if e != (hash(node, count - 1), node) {
      VnodesAreOf(hash, node, count - 1, e);
    }
  }

  lemma {:induction false} VnodesHoldFirst<N>(hash: (N, nat) -> nat, node: N, count: nat)
    requires count > 0
    ensures (hash(node, 0), node) in Vnodes(hash, node, count)
  {
    if count > 1 {
      VnodesHoldFirst(hash, node, count - 1);
    }
  }

  ghost predicate HoldsEntry<N>(ring: Ring<N>, nodes: map<N, nat>, hash: (N, nat) -> nat, e: (nat, N)) {
    multiset(ring)[e] == if e.1 in nodes then Vnodes(hash, e.1, nodes[e.1])[e] else 0
  }

  /** The ring is sorted, and its entries are exactly the virtual nodes of the current nodes. */
  ghost predicate Populated<N(!new)>(ring: Ring<N>, nodes: map<N, nat>, hash: (N, nat) -> nat) {
    Sorted(ring) && forall e :: HoldsEntry(ring, nodes, hash, e)
  }

  /** The virtual nodes of `node` that have this hash. */
  ghost function IndicesAt<N>(hash: (N, nat) -> nat, node: N, count: nat, h: nat): set<nat> {
    set i: nat | i < count && hash(node, i) == h
  }

  lemma {:induction false} VnodesCount<N>(hash: (N, nat) -> nat, node: N, count: nat, h: nat)
    ensures Vnodes(hash, node, count)[(h, node)] == |IndicesAt(hash, node, count, h)|
  {
    if count > 0 {
      var last := count - 1;
      VnodesCount(hash, node, last, h);
      var fewer := IndicesAt(hash, node, last, h);
      assert IndicesAt(hash, node, count, h) == if hash(node, last) == h then fewer + {last} else fewer;
    }
  }

  /** The ring holds an entry for a node and a hash once for every virtual node index of the node with that hash, and
      nothing else. */
  lemma RingHoldsVnodes<N(!new)>(ring: Ring<N>, nodes: map<N, nat>, hash: (N, nat) -> nat, node: N, h: nat)
    requires Populated(ring, nodes, hash)
    ensures multiset(ring)[(h, node)] == if node in nodes then |IndicesAt(hash, node, nodes[node], h)| else 0
  {
    assert HoldsEntry(ring, nodes, hash, (h, node));
    if node in nodes {
      VnodesCount(hash, node, nodes[node], h);
    }
  }

  function Inserted<N>(ring: Ring<N>, pos: nat, e: (nat, N)): Ring<N>
    requires pos <= |ring|
  {
    ring[..pos] + [e] + ring[pos..]
  }

  lemma InsertedSorted<N>(ring: Ring<N>, pos: nat, e: (nat, N))
    requires Sorted(ring) && Found(ring, e.0, pos)
    ensures Sorted(Inserted(ring, pos, e))
  {
    FoundSplits(ring, e.0, pos);
    var r := Inserted(ring, pos, e);
    forall i, j | 0 <= i < j < |r|
      ensures r[i].0 <= r[j].0
    {
      assert r[i] == (if i < pos then ring[i] else if i == pos then e else ring[i - 1]);
      assert r[j] == (if j < pos then ring[j] else if j == pos then e else ring[j - 1]);
    }
  }

  lemma InsertedEntries<N>(ring: Ring<N>, pos: nat, e: (nat, N))
    requires pos <= |ring|
    ensures multiset(Inserted(ring, pos, e)) == multiset(ring) + multiset{e}
  {
    assert ring == ring[..pos] + ring[pos..];
  }

  lemma InsertedKeepsOthers<N>(ring: Ring<N>, pos: nat, e: (nat, N))
    requires pos <= |ring|
    ensures Others(Inserted(ring, pos, e), e.1) == Others(ring, e.1)
  {
    assert ring == ring[..pos] + ring[pos..];
    FilterConcat(NotOf(e.1), ring[..pos] + [e], ring[pos..]);
    FilterConcat(NotOf(e.1), ring[..pos], [e]);
    FilterConcat(NotOf(e.1), ring[..pos], ring[pos..]);
    FilterNone(NotOf(e.1), [e]);
  }

  lemma AbsentNodeHasNoEntries<N(!new)>(ring: Ring<N>, nodes: map<N, nat>, hash: (N, nat) -> nat, node: N)
    requires Populated(ring, nodes, hash) && node !in nodes
    ensures Others(ring, node) == ring
  {
    forall e | e in ring
      ensures NotOf(node)(e)
    {
      assert HoldsEntry(ring, nodes, hash, e) && multiset(ring)[e] > 0;
    }
    FilterAll(NotOf(node), ring);
  }

  lemma AddedIsPopulated<N(!new)>(
      ring: Ring<N>, ring': Ring<N>, nodes: map<N, nat>, hash: (N, nat) -> nat, node: N, count: nat)
    requires Populated(ring, nodes, hash) && node !in nodes && Sorted(ring')
    requires multiset(ring') == multiset(ring) + Vnodes(hash, node, count)
    ensures Populated(ring', nodes[node := count], hash)
  {
    var nodes' := nodes[node := count];
    forall e
      ensures HoldsEntry(ring', nodes', hash, e)
    {
      assert HoldsEntry(ring, nodes, hash, e);
      if e in Vnodes(hash, node, count) {
        VnodesAreOf(hash, node, count, e);
      }
    }
  }

  lemma {:induction false} OthersSorted<N>(ring: Ring<N>, x: N)
    requires Sorted(ring)
    ensures Sorted(Others(ring, x))
  {
    if ring != [] {
      var init := ring[..|ring| - 1];
      OthersSorted(init, x);
      forall e | e in Others(init, x)
        ensures e.0 <= ring[|ring| - 1].0
      {
        FilterMembers(NotOf(x), init, e);
        var i :| 0 <= i < |init| && init[i] == e;
      }
    }
  }

  lemma RemovedIsPopulated<N(!new)>(ring: Ring<N>, nodes: map<N, nat>, hash: (N, nat) -> nat, node: N)
    requires Populated(ring, nodes, hash)
    ensures Populated(Others(ring, node), Without(nodes, node), hash)
  {
    OthersSorted(ring, node);
    var r, n := Others(ring, node), Without(nodes, node);
    forall e
      ensures HoldsEntry(r, n, hash, e)
    {
      assert HoldsEntry(ring, nodes, hash, e);
      FilterCounts(NotOf(node), ring, e);
    }
  }

  // ----- history

  /** Equal hashes belong to equal nodes. */
  ghost predicate NoCollision<N>(ring: Ring<N>) {
    forall i, j :: 0 <= i < j < |ring| && ring[i].0 == ring[j].0 ==> ring[i].1 == ring[j].1
  }

  lemma SameLastEntry<N>(r: Ring<N>, s: Ring<N>)
    requires Sorted(r) && Sorted(s) && multiset(r) == multiset(s) && NoCollision(r)
    requires r != [] && s != []
    ensures r[|r| - 1] == s[|s| - 1]
  {
    var a, b := r[|r| - 1], s[|s| - 1];
    assert a in multiset(s) && b in multiset(r);
    var i :| 0 <= i < |s| && s[i] == a;
    var j :| 0 <= j < |r| && r[j] == b;
    assert a.0 <= b.0 && b.0 <= a.0;
  }

  lemma WithoutLast<N>(r: Ring<N>)
    requires r != []
    ensures multiset(r[..|r| - 1]) == multiset(r) - multiset{r[|r| - 1]}
    ensures Sorted(r) ==> Sorted(r[..|r| - 1])
    ensures NoCollision(r) ==> NoCollision(r[..|r| - 1])
  {
    assert r == r[..|r| - 1] + [r[|r| - 1]];
  }

  lemma SameLength<T>(r: seq<T>, s: seq<T>)
    requires multiset(r) == multiset(s)
    ensures |r| == |s|
  {
    assert |r| == |multiset(r)| && |s| == |multiset(s)|;
  }

  lemma {:induction false} SortedIsUnique<N>(r: Ring<N>, s: Ring<N>)
    requires Sorted(r) && Sorted(s) && multiset(r) == multiset(s) && NoCollision(r)
    ensures r == s
    decreases |r|
  {
    SameLength(r, s);
    if r != [] {
      SameLastEntry(r, s);
      WithoutLast(r);
      WithoutLast(s);
      var r', s' := r[..|r| - 1], s[..|s| - 1];
      SortedIsUnique(r', s');
      SameInitSameLast(r, s);
    }
  }

  lemma SameInitSameLast<T>(r: seq<T>, s: seq<T>)
    requires r != [] && s != [] && r[..|r| - 1] == s[..|s| - 1] && r[|r| - 1] == s[|s| - 1]
    ensures r == s
  {
    assert r == r[..|r| - 1] + [r[|r| - 1]] && s == s[..|s| - 1] + [s[|s| - 1]];
  }

  /** The ring depends on the current nodes alone, not on the order in which they came and went. */
  lemma RingIsDeterminedByNodes<N(!new)>(r: Ring<N>, s: Ring<N>, nodes: map<N, nat>, hash: (N, nat) -> nat)
    requires Populated(r, nodes, hash) && Populated(s, nodes, hash) && NoCollision(r)
    ensures r == s
  {
    forall e
      ensures multiset(r)[e] == multiset(s)[e]
    {
      assert HoldsEntry(r, nodes, hash, e) && HoldsEntry(s, nodes, hash, e);
    }
    assert multiset(r) == multiset(s);
    SortedIsUnique(r, s);
  }

  /** A node joins: its virtual nodes are inserted one after the other, each wherever the search lands. */
  ghost predicate Joins<N(!new)>(hash: (N, nat) -> nat, ring: Ring<N>, node: N, count: nat, after: Ring<N>) {
    if count == 0 then after == ring
    else
      var e := (hash(node, count - 1), node);
      exists before {:trigger Inserts(before, e, after)} ::
        Joins(hash, ring, node, count - 1, before) && Inserts(before, e, after)
  }

  /** `after` is the ring with the entry inserted where a search for its hash may land. */
  ghost predicate Inserts<N>(ring: Ring<N>, e: (nat, N), after: Ring<N>) {
    exists pos :: Found(ring, e.0, pos) && after == Inserted(ring, pos, e)
  }

  lemma InsertsEntry<N>(ring: Ring<N>, e: (nat, N), after: Ring<N>)
    requires Sorted(ring) && Inserts(ring, e, after)
    ensures Sorted(after) && multiset(after) == multiset(ring) + multiset{e}
  {
    var pos: nat :| Found(ring, e.0, pos) && after == Inserted(ring, pos, e);
    InsertedSorted(ring, pos, e);
    InsertedEntries(ring, pos, e);
  }

  lemma JoinsOneMore<N(!new)>(
      hash: (N, nat) -> nat, ring: Ring<N>, node: N, count: nat, before: Ring<N>, after: Ring<N>)
    requires Joins(hash, ring, node, count, before) && Inserts(before, (hash(node, count), node), after)
    ensures Joins(hash, ring, node, count + 1, after)
  {
  }

  lemma JoinedBefore<N(!new)>(hash: (N, nat) -> nat, ring: Ring<N>, node: N, count: nat, after: Ring<N>)
    returns (before: Ring<N>)
    requires Joins(hash, ring, node, count + 1, after)
    ensures Joins(hash, ring, node, count, before) && Inserts(before, (hash(node, count), node), after)
  {
    var e := (hash(node, count), node);
    before :| Joins(hash, ring, node, count, before) && Inserts(before, e, after);
  }

  ghost predicate AddsVnodes<N>(hash: (N, nat) -> nat, ring: Ring<N>, node: N, count: nat, after: Ring<N>) {
    multiset(after) == multiset(ring) + Vnodes(hash, node, count)
  }

  lemma OneVnodeMore<N>(
      hash: (N, nat) -> nat, ring: Ring<N>, node: N, count: nat, before: Ring<N>, after: Ring<N>)
    requires AddsVnodes(hash, ring, node, count, before) && Sorted(before)
    requires Inserts(before, (hash(node, count), node), after)
    ensures Sorted(after) && AddsVnodes(hash, ring, node, count + 1, after)
  {
    InsertsEntry(before, (hash(node, count), node), after);
  }

  /** Joining adds exactly the virtual nodes of the node. */
  lemma {:induction false} JoinsAddsVnodes<N(!new)>(
      hash: (N, nat) -> nat, ring: Ring<N>, node: N, count: nat, after: Ring<N>)
    requires Sorted(ring) && Joins(hash, ring, node, count, after)
    ensures Sorted(after) && AddsVnodes(hash, ring, node, count, after)
    decreases count
  {
    if count == 0 {
      assert AddsVnodes(hash, ring, node, 0, ring);
    } else {
      var fewer := count - 1;
      var before := JoinedBefore(hash, ring, node, fewer, after);
      JoinsAddsVnodes(hash, ring, node, fewer, before);
      OneVnodeMore(hash, ring, node, fewer, before, after);
    }
  }

  /** Joining keeps the other entries, in their order. */
  lemma {:induction false} JoinsKeepsOthers<N(!new)>(
      hash: (N, nat) -> nat, ring: Ring<N>, node: N, count: nat, after: Ring<N>)
    requires Joins(hash, ring, node, count, after)
    ensures Others(after, node) == Others(ring, node)
  {
    if count > 0 {
      var before := JoinedBefore(hash, ring, node, count - 1, after);
      JoinsKeepsOthers(hash, ring, node, count - 1, before);
      var pos: nat :| Found(before, hash(node, count - 1), pos)
        && after == Inserted(before, pos, (hash(node, count - 1), node));
      InsertedKeepsOthers(before, pos, (hash(node, count - 1), node));
    }
  }

  // ----- the clockwise walk

  function From<N>(hash: nat): ((nat, N)) -> bool {
    (e: (nat, N)) => e.0 >= hash
  }

  function Below<N>(hash: nat): ((nat, N)) -> bool {
    (e: (nat, N)) => e.0 < hash
  }

  function NodesOf<N>(ring: Ring<N>): seq<N> {
    seq(|ring|, i requires 0 <= i < |ring| => ring[i].1)
  }

  /** The entries in the order in which a key with this hash meets them. */
  function Clockwise<N>(ring: Ring<N>, hash: nat): Ring<N> {
    Filter(From(hash), ring) + Filter(Below(hash), ring)
  }

  /** The distinct nodes in the order in which a key with this hash meets them. */
  function Walk<N(==)>(ring: Ring<N>, hash: nat): seq<N> {
    Dedup(NodesOf(Clockwise(ring, hash)))
  }

  /** The entries from a position on, wrapping around: what the code walks. */
  function Rotation<N>(ring: Ring<N>, pos: nat): Ring<N>
    requires pos <= |ring|
  {
    ring[pos..] + ring[..pos]
  }

  /** No two nodes share this hash. */
  ghost predicate Unambiguous<N>(ring: Ring<N>, hash: nat) {
    forall i, j :: 0 <= i < |ring| && 0 <= j < |ring| && ring[i].0 == hash && ring[j].0 == hash ==>
      ring[i].1 == ring[j].1
  }

  /** Where the entries with this hash start. */
  lemma StartOf<N>(ring: Ring<N>, hash: nat, pos: nat) returns (a: nat)
    requires Sorted(ring) && Found(ring, hash, pos)
    ensures a <= pos
    ensures forall i :: 0 <= i < a ==> ring[i].0 < hash
    ensures forall i :: a <= i < pos ==> ring[i].0 == hash
    ensures forall i :: pos <= i < |ring| ==> ring[i].0 >= hash
    ensures a < pos ==> pos < |ring| && ring[pos].0 == hash
  {
    FoundSplits(ring, hash, pos);
    a := pos;
    while a > 0 && ring[a - 1].0 == hash
      invariant a <= pos && forall i :: a <= i < pos ==> ring[i].0 == hash
    {
      a := a - 1;
    }
    assert a < pos ==> ring[pos - 1].0 == hash;
  }

  lemma ClockwiseStarts<N>(ring: Ring<N>, hash: nat, a: nat)
    requires a <= |ring|
    requires forall i :: 0 <= i < a ==> ring[i].0 < hash
    requires forall i :: a <= i < |ring| ==> ring[i].0 >= hash
    ensures Clockwise(ring, hash) == Rotation(ring, a)
  {
    assert ring == ring[..a] + ring[a..];
    FilterSplit(From(hash), ring[..a], ring[a..]);
    FilterSplit(Below(hash), ring[..a], ring[a..]);
  }

  /** Wherever in a block of equal hashes the search lands, the walk meets the same nodes in the same order. */
  lemma RotationWalks<N>(ring: Ring<N>, hash: nat, pos: nat)
    requires Sorted(ring) && Found(ring, hash, pos) && Unambiguous(ring, hash)
    ensures Dedup(NodesOf(Rotation(ring, pos))) == Walk(ring, hash)
  {
    var a := StartOf(ring, hash, pos);
    ClockwiseStarts(ring, hash, a);
    if a < pos {
      BlockCanBeSplit(ring, hash, a, pos);
    }
  }

  lemma BlockCanBeSplit<N>(ring: Ring<N>, hash: nat, a: nat, pos: nat)
    requires a < pos < |ring| && ring[pos].0 == hash && Unambiguous(ring, hash)
    requires forall i :: a <= i < pos ==> ring[i].0 == hash
    ensures Dedup(NodesOf(Rotation(ring, pos))) == Dedup(NodesOf(Rotation(ring, a)))
  {
    var block, rest := NodesOf(ring[a..pos]), NodesOf(ring[pos + 1..] + ring[..a]);
    assert NodesOf(Rotation(ring, pos)) == [ring[pos].1] + rest + block;
    assert NodesOf(Rotation(ring, a)) == block + [ring[pos].1] + rest;
    RepeatsCanWait(ring[pos].1, block, rest);
  }

  /** Repetitions of the first element can come at the end instead. */
  lemma RepeatsCanWait<N>(x: N, block: seq<N>, rest: seq<N>)
    requires block != [] && forall i :: 0 <= i < |block| ==> block[i] == x
    ensures Dedup([x] + rest + block) == Dedup(block + [x] + rest)
  {
    var once: seq<N> := [x];
    var first := once + rest;
    var more := block[1..] + once;
    assert first[0] == x;
    DedupSkips(first, block, []);
    SameConcat(first, block);
    DedupSkips(once, more, rest);
    BlockFirst(x, block, rest);
  }

  lemma SameConcat<T>(s: seq<T>, t: seq<T>)
    ensures s + t + [] == s + t && s + [] == s
  {
  }

  lemma BlockFirst<T>(x: T, block: seq<T>, rest: seq<T>)
    requires block != [] && block[0] == x
    ensures [x] + (block[1..] + [x]) + rest == block + [x] + rest
  {
    assert block == [x] + block[1..];
  }

  /** The search may land on any entry with the hash, so the first node met is determined if and only if no
      two nodes share the hash. */
  lemma LookupIsDeterminedIff<N>(ring: Ring<N>, hash: nat)
    requires Sorted(ring) && ring != []
    ensures Unambiguous(ring, hash)
            <==> forall p, q :: Found(ring, hash, p) && Found(ring, hash, q) ==>
                   NodesOf(Rotation(ring, p))[0] == NodesOf(Rotation(ring, q))[0]
  {
    if !Unambiguous(ring, hash) {
      var i: nat, j: nat :|
        i < |ring| && j < |ring| && ring[i].0 == hash && ring[j].0 == hash && ring[i].1 != ring[j].1;
      assert Found(ring, hash, i) && Found(ring, hash, j);
    } else {
      forall p, q | Found(ring, hash, p) && Found(ring, hash, q)
        ensures NodesOf(Rotation(ring, p))[0] == NodesOf(Rotation(ring, q))[0]
      {
        RotationWalks(ring, hash, p);
        RotationWalks(ring, hash, q);
        DedupStart(NodesOf(Rotation(ring, p)));
        DedupStart(NodesOf(Rotation(ring, q)));
      }
    }
  }

  lemma DedupStart<T>(s: seq<T>)
    requires s != []
    ensures Dedup(s) != [] && Dedup(s)[0] == s[0]
  {
    assert s == s[..1] + s[1..];
    assert Dedup(s[..1]) == [s[0]];
    DedupExtends(s[..1], s[1..]);
  }

  lemma {:induction false} NodesOfOthers<N>(ring: Ring<N>, x: N)
    ensures NodesOf(Others(ring, x)) == Minus(NodesOf(ring), x)
  {
    if ring != [] {
      var init, last := ring[..|ring| - 1], ring[|ring| - 1];
      NodesOfOthers(init, x);
      assert NodesOf(ring)[..|ring| - 1] == NodesOf(init);
    }
  }

  /** Removing a node deletes it from every walk and changes nothing else. */
  lemma WalkWithoutNode<N>(ring: Ring<N>, x: N, hash: nat)
    ensures Walk(Others(ring, x), hash) == Minus(Walk(ring, hash), x)
  {
    FiltersCommute(From(hash), NotOf(x), ring);
    FiltersCommute(Below(hash), NotOf(x), ring);
    FilterConcat(NotOf(x), Filter(From(hash), ring), Filter(Below(hash), ring));
    assert Clockwise(Others(ring, x), hash) == Others(Clockwise(ring, hash), x);
    NodesOfOthers(Clockwise(ring, hash), x);
    DedupOfFilter(Except(x), NodesOf(Clockwise(ring, hash)));
  }

  /** Minimal movement. Between a ring with `x` and the same ring without it, a key's first `n` nodes differ
      only if `x` is one of them: then the later ones move up and the next node on the walk joins. */
  lemma OnlyOneReplicaMoves<N>(ring: Ring<N>, x: N, hash: nat, n: nat)
    ensures var walk := Walk(ring, hash);
            var with_, without := Take(walk, n), Take(Walk(Others(ring, x), hash), n);
            && (x !in with_ ==> without == with_)
            && (x in with_ ==> without == Minus(with_, x) + (if |walk| > n then [walk[n]] else []))
  {
    DedupMembers(NodesOf(Clockwise(ring, hash)));
    WalkWithoutNode(ring, x, hash);
    TakeOfMinus(Walk(ring, hash), x, n);
  }

  /** A key changes its owner only to `x`, when `x` joins, or away from `x`, when `x` leaves. */
  lemma OnlyOwnedKeysMove<N>(ring: Ring<N>, x: N, hash: nat)
    requires Others(ring, x) != []
    ensures Walk(ring, hash) != [] && Walk(Others(ring, x), hash) != []
    ensures Walk(ring, hash)[0] != x ==> Walk(Others(ring, x), hash)[0] == Walk(ring, hash)[0]
  {
    OnlyOneReplicaMoves(ring, x, hash, 1);
    WalkIsNotEmpty(Others(ring, x), hash);
    WalkIsNotEmpty(ring, hash);
    assert Take(Walk(ring, hash), 1) == [Walk(ring, hash)[0]];
    assert Take(Walk(Others(ring, x), hash), 1) == [Walk(Others(ring, x), hash)[0]];
  }

  lemma WalkIsNotEmpty<N>(ring: Ring<N>, hash: nat)
    requires ring != []
    ensures Walk(ring, hash) != []
  {
    var e := ring[0];
    FilterMembers(From(hash), ring, e);
    FilterMembers(Below(hash), ring, e);
    assert e in Clockwise(ring, hash);
    DedupStart(NodesOf(Clockwise(ring, hash)));
  }

  // ----- what the calls return

  /** What a lookup may return: the first node clockwise from where a search for the hash may land. */
  ghost predicate OwnerFor<N>(ring: Ring<N>, hash: nat, node: N) {
    ring != [] && exists pos :: Found(ring, hash, pos) && node == NodesOf(Rotation(ring, pos))[0]
  }

  /** Position `p` holds the least hash from `hash` on, or the least of all if every hash is below. */
  ghost predicate IsSuccessor<N>(ring: Ring<N>, hash: nat, p: nat) {
    && p < |ring|
    && forall q :: 0 <= q < |ring| ==>
         && (ring[p].0 >= hash && ring[q].0 >= hash ==> ring[p].0 <= ring[q].0)
         && (ring[p].0 < hash ==> ring[q].0 < hash && ring[p].0 <= ring[q].0)
  }

  /** A key belongs to a node with the next hash on the ring, wrapping around, collisions or not. */
  lemma OwnerIsSuccessor<N>(ring: Ring<N>, hash: nat, node: N)
    requires Sorted(ring) && OwnerFor(ring, hash, node)
    ensures exists p: nat :: IsSuccessor(ring, hash, p) && ring[p].1 == node
  {
    var pos: nat :| Found(ring, hash, pos) && node == NodesOf(Rotation(ring, pos))[0];
    FoundSplits(ring, hash, pos);
    var p := if pos < |ring| then pos else 0;
    assert Rotation(ring, pos)[0] == ring[p];
    assert IsSuccessor(ring, hash, p);
  }

  /** What a request for replicas may return: the first `n` distinct nodes from there. */
  ghost predicate ReplicasFor<N>(ring: Ring<N>, hash: nat, n: nat, replicas: seq<N>) {
    exists pos :: Found(ring, hash, pos) && replicas == Take(Dedup(NodesOf(Rotation(ring, pos))), n)
  }

  lemma OthersUnambiguous<N>(ring: Ring<N>, x: N, hash: nat)
    requires Unambiguous(ring, hash)
    ensures Unambiguous(Others(ring, x), hash)
  {
    var rest := Others(ring, x);
    forall i, j | 0 <= i < |rest| && 0 <= j < |rest| && rest[i].0 == hash && rest[j].0 == hash
      ensures rest[i].1 == rest[j].1
    {
      FilterMembers(NotOf(x), ring, rest[i]);
      FilterMembers(NotOf(x), ring, rest[j]);
    }
  }

  /** Replica stability, call to call. A key's replicas asked for with `x` on the ring and without it are the same
      unless `x` is one of them; then the others move up and the next node on the walk joins. */
  lemma ReplicasMoveOnlyWith<N>(ring: Ring<N>, x: N, hash: nat, n: nat, with_: seq<N>, without: seq<N>)
    requires Sorted(ring) && Unambiguous(ring, hash)
    requires ReplicasFor(ring, hash, n, with_) && ReplicasFor(Others(ring, x), hash, n, without)
    ensures x !in with_ ==> without == with_
    ensures x in with_ ==>
              without == Minus(with_, x) + (if |Walk(ring, hash)| > n then [Walk(ring, hash)[n]] else [])
  {
    OthersSorted(ring, x);
    OthersUnambiguous(ring, x, hash);
    ReplicasAreOfWalk(ring, hash, n, with_);
    ReplicasAreOfWalk(Others(ring, x), hash, n, without);
    OnlyOneReplicaMoves(ring, x, hash, n);
  }

  lemma ReplicasAreOfWalk<N>(ring: Ring<N>, hash: nat, n: nat, replicas: seq<N>)
    requires Sorted(ring) && Unambiguous(ring, hash) && ReplicasFor(ring, hash, n, replicas)
    ensures replicas == Take(Walk(ring, hash), n)
  {
    var pos: nat :| Found(ring, hash, pos) && replicas == Take(Dedup(NodesOf(Rotation(ring, pos))), n);
    RotationWalks(ring, hash, pos);
  }

  /** A key looked up with `x` on the ring and without it has the same owner, unless that was `x`. */
  lemma OwnerMovesOnlyWith<N>(ring: Ring<N>, x: N, hash: nat, with_: N, without: N)
    requires Sorted(ring) && Unambiguous(ring, hash)
    requires OwnerFor(ring, hash, with_) && OwnerFor(Others(ring, x), hash, without)
    ensures with_ != x ==> without == with_
  {
    OthersSorted(ring, x);
    OthersUnambiguous(ring, x, hash);
    OwnerIsOfWalk(ring, hash, with_);
    OwnerIsOfWalk(Others(ring, x), hash, without);
    OnlyOwnedKeysMove(ring, x, hash);
  }

  lemma OwnerIsOfWalk<N>(ring: Ring<N>, hash: nat, node: N)
    requires Sorted(ring) && Unambiguous(ring, hash) && OwnerFor(ring, hash, node)
    ensures Walk(ring, hash) != [] && node == Walk(ring, hash)[0]
  {
    var pos: nat :| Found(ring, hash, pos) && node == NodesOf(Rotation(ring, pos))[0];
    RotationWalks(ring, hash, pos);
    DedupStart(NodesOf(Rotation(ring, pos)));
  }

  // ----- the ring, updated in place

  /** Stands for the library's binary search; callers use only that it finds some matching entry or the
      insertion point. */
  method BinarySearchByKey<N>(ring: Ring<N>, hash: nat) returns (pos: nat)
    requires Sorted(ring)
    ensures Found(ring, hash, pos)
  {
    var lo, hi := 0, |ring|;
    while lo < hi
      invariant 0 <= lo <= hi <= |ring|
      invariant forall i :: 0 <= i < lo ==> ring[i].0 < hash
      invariant forall i :: hi <= i < |ring| ==> ring[i].0 > hash
    {
      var mid := lo + (hi - lo) / 2;
      if ring[mid].0 == hash {
        return mid;
      } else if ring[mid].0 < hash {
        lo := mid + 1;
      } else {
        hi := mid;
      }
    }
    return lo;
  }

  class HashRing<N(==, !new)> {
    var ring: Ring<N>
    var nodes: map<N, nat>
    const vnodesPerNode: nat
    const hashVnode: (N, nat) -> nat

    ghost predicate Valid()
      reads this
    {
      && Populated(ring, nodes, hashVnode)
      && forall n :: n in nodes ==> nodes[n] == vnodesPerNode
    }

    constructor (vnodesPerNode: nat, hashVnode: (N, nat) -> nat)
      ensures Valid() && nodes == map[] && ring == []
      ensures this.vnodesPerNode == vnodesPerNode && this.hashVnode == hashVnode
    {
      ring, nodes := [], map[];
      this.vnodesPerNode, this.hashVnode := vnodesPerNode, hashVnode;
    }

    /** The new node's entries join; without them the ring is exactly what it was, so that removing the node
        again restores it. */
    method AddNode(node: N)
      requires Valid()
      modifies this
      ensures Valid()
      ensures nodes == if node in old(nodes) then old(nodes) else old(nodes)[node := vnodesPerNode]
      ensures if node in old(nodes) then ring == old(ring)
              else Others(ring, node) == old(ring) && Joins(hashVnode, old(ring), node, vnodesPerNode, ring)
    {
      if node in nodes {
        return;
      }
      AbsentNodeHasNoEntries(ring, nodes, hashVnode, node);
      ghost var oldNodes := nodes;
      nodes := nodes[node := vnodesPerNode];
      for i := 0 to vnodesPerNode
        invariant nodes == oldNodes[node := vnodesPerNode]
        invariant Sorted(ring) && Joins(hashVnode, old(ring), node, i, ring)
      {
        ghost var before := ring;
        var hash := hashVnode(node, i);
        InsertVnode(hash, node);
        JoinsOneMore(hashVnode, old(ring), node, i, before, ring);
      }
      JoinsAddsVnodes(hashVnode, old(ring), node, vnodesPerNode, ring);
      JoinsKeepsOthers(hashVnode, old(ring), node, vnodesPerNode, ring);
      AddedIsPopulated(old(ring), ring, oldNodes, hashVnode, node, vnodesPerNode);
    }

    /** An entry of equal hash is met at the place of the search, so the new entry goes before it. */
    method InsertVnode(hash: nat, node: N)
      requires Sorted(ring)
      modifies `ring
      ensures Inserts(old(ring), (hash, node), ring)
      ensures Sorted(ring) && multiset(ring) == multiset(old(ring)) + multiset{(hash, node)}
      ensures Others(ring, node) == Others(old(ring), node)
    {
      var pos := BinarySearchByKey(ring, hash);
      ring := ring[..pos] + [(hash, node)] + ring[pos..];
      assert ring == Inserted(old(ring), pos, (hash, node));
      InsertsEntry(old(ring), (hash, node), ring);
      InsertedKeepsOthers(old(ring), pos, (hash, node));
    }

    method RemoveNode(node: N)
      requires Valid()
      modifies this
      ensures Valid() && nodes == Without(old(nodes), node)
      ensures ring == Others(old(ring), node)
    {
      if node !in nodes {
        AbsentNodeHasNoEntries(ring, nodes, hashVnode, node);
        assert Without(nodes, node) == nodes;
        return;
      }
      RemovedIsPopulated(ring, nodes, hashVnode, node);
      nodes := Without(nodes, node);
      ring := Others(ring, node);
    }

    /** The first node clockwise from the key's hash, if there is any. */
    method GetNode(keyHash: nat) returns (node: Option<N>)
      requires Valid()
      ensures node.None? <==> ring == []
      ensures node.Some? ==> node.value in nodes
      ensures node.Some? ==> OwnerFor(ring, keyHash, node.value)
      ensures node.Some? && Unambiguous(ring, keyHash) ==>
                Walk(ring, keyHash) != [] && node.value == Walk(ring, keyHash)[0]
    {
      if ring == [] {
        return None;
      }
      var pos := BinarySearchByKey(ring, keyHash);
      DedupStart(NodesOf(Rotation(ring, pos)));
      if Unambiguous(ring, keyHash) {
        RotationWalks(ring, keyHash, pos);
      }
      if pos == |ring| {
        node := Some(ring[0].1);
        EntryIsOfNode(0);
      } else {
        node := Some(ring[pos].1);
        EntryIsOfNode(pos);
      }
      assert node.value == NodesOf(Rotation(ring, pos))[0];
    }

    lemma EntryIsOfNode(i: nat)
      requires Valid() && i < |ring|
      ensures ring[i].1 in nodes
    {
      assert HoldsEntry(ring, nodes, hashVnode, ring[i]) && ring[i] in multiset(ring);
    }

    /** The first `n` distinct nodes clockwise from the key's hash, or all of them if there are fewer. */
    method GetReplicas(keyHash: nat, n: nat) returns (replicas: seq<N>)
      requires Valid()
      ensures Distinct(replicas) && forall x :: x in replicas ==> x in nodes
      ensures ReplicasFor(ring, keyHash, n, replicas)
      ensures Unambiguous(ring, keyHash) ==> replicas == Take(Walk(ring, keyHash), n)
      ensures vnodesPerNode > 0 ==> |replicas| == if n <= |nodes| then n else |nodes|
    {
      EveryNodeHasEntries();
      if ring == [] || n == 0 {
        ghost var pos := SomePosition(ring, keyHash);
        assert [] == Take(Dedup(NodesOf(Rotation(ring, pos))), n);
        return [];
      }
      var start := BinarySearchByKey(ring, keyHash);
      replicas := WalkFrom(start, n);
      WalkLength(start);
      if Unambiguous(ring, keyHash) {
        RotationWalks(ring, keyHash, start);
      }
    }

    /** A ring is empty only if it has no nodes, unless nodes have no virtual nodes. */
    lemma EveryNodeHasEntries()
      requires Valid()
      ensures vnodesPerNode > 0 ==> forall x :: x in nodes ==> (hashVnode(x, 0), x) in ring
      ensures vnodesPerNode > 0 && ring == [] ==> |nodes| == 0
    {
      if vnodesPerNode > 0 {
        forall x | x in nodes
          ensures (hashVnode(x, 0), x) in ring
        {
          var e := (hashVnode(x, 0), x);
          VnodesHoldFirst(hashVnode, x, vnodesPerNode);
          assert HoldsEntry(ring, nodes, hashVnode, e);
          assert e in multiset(ring);
        }
        if nodes != map[] {
          var x :| x in nodes;
          assert (hashVnode(x, 0), x) in ring;
        }
      }
    }

    /** A full walk meets every node once. */
    lemma WalkLength(start: nat)
      requires Valid() && start <= |ring|
      ensures |Dedup(NodesOf(Rotation(ring, start)))| <= |nodes|
      ensures vnodesPerNode > 0 ==> |Dedup(NodesOf(Rotation(ring, start)))| == |nodes|
    {
      var met := NodesOf(Rotation(ring, start));
      DedupMembers(met);
      forall x | x in met
        ensures x in nodes.Keys
      {
        MetIsNode(start, x);
      }
      DistinctBound(Dedup(met), nodes.Keys);
      assert |nodes| == |nodes.Keys|;
      if vnodesPerNode > 0 {
        forall x | x in nodes.Keys
          ensures x in met
        {
          NodeIsMet(start, x);
        }
        CoverBound(Dedup(met), nodes.Keys);
      }
    }

    lemma MetIsNode(start: nat, x: N)
      requires Valid() && start <= |ring| && x in NodesOf(Rotation(ring, start))
      ensures x in nodes
    {
      var j :| 0 <= j < |ring| && NodesOf(Rotation(ring, start))[j] == x;
      RotationAt(ring, start, j);
      EntryIsOfNode((start + j) % |ring|);
    }

    lemma NodeIsMet(start: nat, x: N)
      requires Valid() && start <= |ring| && x in nodes && vnodesPerNode > 0
      ensures x in NodesOf(Rotation(ring, start))
    {
      EveryNodeHasEntries();
      var i :| 0 <= i < |ring| && ring[i] == (hashVnode(x, 0), x);
      var j := if i >= start then i - start else i + |ring| - start;
      assert Rotation(ring, start)[j] == ring[i];
      assert NodesOf(Rotation(ring, start))[j] == x;
    }

    /** The loop of `GetReplicas`. */
    method WalkFrom(start: nat, n: nat) returns (replicas: seq<N>)
      requires Valid() && ring != [] && start <= |ring|
      ensures replicas == Take(Dedup(NodesOf(Rotation(ring, start))), n)
      ensures Distinct(replicas) && forall x :: x in replicas ==> x in nodes
    {
      ghost var met := NodesOf(Rotation(ring, start));
      replicas := [];
      var seen: set<N> := {};
      var i := 0;
      while i < |ring| && !(|replicas| == n || |replicas| == |nodes|)
        invariant i <= |ring| == |met|
        invariant replicas == Dedup(met[..i]) && |replicas| <= n
        invariant forall x :: x in seen <==> x in replicas
      {
        var pos := (start + i) % |ring|;
        var node := ring[pos].1;
        RotationAt(ring, start, i);
        assert met[..i + 1][..i] == met[..i];
        if node !in seen {
          seen := seen + {node};
          replicas := replicas + [node];
        }
        i := i + 1;
      }
      WalkEnds(start, i, n);
    }

    /** Stopping early loses nothing: there are enough nodes, or no others. */
    lemma WalkEnds(start: nat, i: nat, n: nat)
      requires Valid() && start <= |ring| && i <= |ring|
      requires var met := NodesOf(Rotation(ring, start));
               |Dedup(met[..i])| <= n && (i == |met| || |Dedup(met[..i])| == n || |Dedup(met[..i])| == |nodes|)
      ensures var met := NodesOf(Rotation(ring, start));
              && Dedup(met[..i]) == Take(Dedup(met), n)
              && Distinct(Dedup(met[..i])) && forall x :: x in Dedup(met[..i]) ==> x in nodes
    {
      var met := NodesOf(Rotation(ring, start));
      var part, all := Dedup(met[..i]), Dedup(met);
      assert met == met[..i] + met[i..];
      DedupExtends(met[..i], met[i..]);
      DedupMembers(met);
      DedupMembers(met[..i]);
      forall x | x in met
        ensures x in nodes
      {
        MetIsNode(start, x);
      }
      DistinctBound(all, nodes.Keys);
      assert |nodes| == |nodes.Keys|;
      assert part == all[..|part|];
      if i == |met| {
        assert met[..i] == met;
      }
    }
  }

  lemma RotationAt<N>(ring: Ring<N>, start: nat, i: nat)
    requires start <= |ring| && i < |ring|
    ensures NodesOf(Rotation(ring, start))[i] == ring[(start + i) % |ring|].1
  {
    if start + i < |ring| {
      assert (start + i) % |ring| == start + i;
    } else {
      assert (start + i) % |ring| == start + i - |ring|;
    }
  }

  lemma SomePosition<N>(ring: Ring<N>, hash: nat) returns (pos: nat)
    requires Sorted(ring)
    ensures Found(ring, hash, pos)
  {
    pos := 0;
    while pos < |ring| && ring[pos].0 < hash
      invariant pos <= |ring| && forall i :: 0 <= i < pos ==> ring[i].0 < hash
    {
      pos := pos + 1;
    }
  }
}
