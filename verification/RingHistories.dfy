/** When the order in which nodes came and went can be read off the ring. */
module RingHistories {
  import opened Collections
  import opened Sequences
  import opened HashRings

  datatype Op<N> = Join(node: N) | Leave(node: N)

  function NodesAfter<N>(ops: seq<Op<N>>): set<N> {
    if ops == [] then {}
    else
      var before := NodesAfter(ops[..|ops| - 1]);
      match ops[|ops| - 1]
      case Join(n) => before + {n}
      case Leave(n) => before - {n}
  }

  /** The operations may leave this ring, from the empty one, with nodes of `count` virtual nodes each. */
  ghost predicate Builds<N(!new)>(hash: (N, nat) -> nat, count: nat, ops: seq<Op<N>>, ring: Ring<N>) {
    if ops == [] then ring == []
    else
      var init, op := ops[..|ops| - 1], ops[|ops| - 1];
      var nodes := NodesAfter(init);
      exists before {:trigger Steps(hash, count, nodes, before, op, ring)} ::
        Builds(hash, count, init, before) && Steps(hash, count, nodes, before, op, ring)
  }

  ghost predicate Steps<N(!new)>(
      hash: (N, nat) -> nat, count: nat, nodes: set<N>, before: Ring<N>, op: Op<N>, ring: Ring<N>)
  {
    match op
    case Join(n) => if n in nodes then ring == before else Joins(hash, before, n, count, ring)
    case Leave(n) => ring == Others(before, n)
  }

  /** Some two nodes share the hash of a virtual node. */
  ghost predicate Collide<N>(hash: (N, nat) -> nat, count: nat, a: N, b: N) {
    a != b && exists i: nat, j: nat :: i < count && j < count && hash(a, i) == hash(b, j)
  }

  function Counts<N>(nodes: set<N>, count: nat): map<N, nat> {
    map n | n in nodes :: count
  }

  // ----- what every history leaves

  lemma {:induction false} BuiltIsPopulated<N(!new)>(
      hash: (N, nat) -> nat, count: nat, ops: seq<Op<N>>, ring: Ring<N>)
    requires Builds(hash, count, ops, ring)
    ensures Populated(ring, Counts(NodesAfter(ops), count), hash)
  {
    if ops != [] {
      var init, op := ops[..|ops| - 1], ops[|ops| - 1];
      var nodes := NodesAfter(init);
      var before: Ring<N> :| Builds(hash, count, init, before) && Steps(hash, count, nodes, before, op, ring);
      BuiltIsPopulated(hash, count, init, before);
      match op {
        case Join(n) =>
          if n in nodes {
            assert nodes + {n} == nodes;
          } else {
            JoinsAddsVnodes(hash, before, n, count, ring);
            AddedIsPopulated(before, ring, Counts(nodes, count), hash, n, count);
            assert Counts(nodes, count)[n := count] == Counts(nodes + {n}, count);
          }
        case Leave(n) =>
          RemovedIsPopulated(before, Counts(nodes, count), hash, n);
          assert Without(Counts(nodes, count), n) == Counts(nodes - {n}, count);
      }
    }
  }

  lemma {:induction false} NodesCanJoin<N(!new)>(hash: (N, nat) -> nat, ring: Ring<N>, node: N, count: nat)
    returns (after: Ring<N>)
    requires Sorted(ring)
    ensures Joins(hash, ring, node, count, after)
  {
    if count == 0 {
      after := ring;
    } else {
      var before := NodesCanJoin(hash, ring, node, count - 1);
      JoinsAddsVnodes(hash, ring, node, count - 1, before);
      var e := (hash(node, count - 1), node);
      var pos := SomePosition(before, e.0);
      after := Inserted(before, pos, e);
      assert Inserts(before, e, after);
    }
  }

  /** Every sequence of operations can be carried out. */
  lemma {:induction false} HistoriesBuild<N(!new)>(hash: (N, nat) -> nat, count: nat, ops: seq<Op<N>>)
    returns (ring: Ring<N>)
    ensures Builds(hash, count, ops, ring)
  {
    if ops == [] {
      ring := [];
    } else {
      var init, op := ops[..|ops| - 1], ops[|ops| - 1];
      var before := HistoriesBuild(hash, count, init);
      BuiltIsPopulated(hash, count, init, before);
      match op {
        case Join(n) =>
          if n in NodesAfter(init) {
            ring := before;
          } else {
            ring := NodesCanJoin(hash, before, n, count);
          }
        case Leave(n) => ring := Others(before, n);
      }
      assert Steps(hash, count, NodesAfter(init), before, op, ring);
    }
  }

  lemma EntryHasVnode<N(!new)>(hash: (N, nat) -> nat, count: nat, nodes: set<N>, ring: Ring<N>, p: nat)
    returns (i: nat)
    requires Populated(ring, Counts(nodes, count), hash) && p < |ring|
    ensures ring[p].1 in nodes && i < count && hash(ring[p].1, i) == ring[p].0
  {
    var e := ring[p];
    assert HoldsEntry(ring, Counts(nodes, count), hash, e) && e in multiset(ring);
    VnodesAreOf(hash, e.1, count, e);
    i :| i < count && hash(e.1, i) == e.0;
  }

  /** Without collisions the ring tells nothing but the nodes. */
  lemma HistoryIsForgotten<N(!new)>(
      hash: (N, nat) -> nat, count: nat, ops1: seq<Op<N>>, ops2: seq<Op<N>>, r1: Ring<N>, r2: Ring<N>)
    requires Builds(hash, count, ops1, r1) && Builds(hash, count, ops2, r2) && NodesAfter(ops1) == NodesAfter(ops2)
    requires forall a, b :: a in NodesAfter(ops1) && b in NodesAfter(ops1) ==> !Collide(hash, count, a, b)
    ensures r1 == r2
  {
    var nodes := NodesAfter(ops1);
    BuiltIsPopulated(hash, count, ops1, r1);
    BuiltIsPopulated(hash, count, ops2, r2);
    forall p, q | 0 <= p < q < |r1| && r1[p].0 == r1[q].0
      ensures r1[p].1 == r1[q].1
    {
      var i := EntryHasVnode(hash, count, nodes, r1, p);
      var j := EntryHasVnode(hash, count, nodes, r1, q);
      assert !Collide(hash, count, r1[p].1, r1[q].1);
    }
    RingIsDeterminedByNodes(r1, r2, Counts(nodes, count), hash);
  }

  // ----- what a collision preserves

  /** The last entry with this hash is one of `node`. */
  ghost predicate LastAt<N>(ring: Ring<N>, hash: nat, node: N, p: nat) {
    p < |ring| && ring[p] == (hash, node) && forall q :: p < q < |ring| ==> ring[q].0 != hash
  }

  ghost predicate LastIs<N>(ring: Ring<N>, hash: nat, node: N) {
    exists p: nat :: LastAt(ring, hash, node, p)
  }

  lemma LastIsUnique<N>(ring: Ring<N>, hash: nat, a: N, b: N)
    requires LastIs(ring, hash, a) && LastIs(ring, hash, b)
    ensures a == b
  {
    var p: nat :| LastAt(ring, hash, a, p);
    var q: nat :| LastAt(ring, hash, b, q);
    assert p == q;
  }

  /** An entry is inserted before its equals, so the last of them stays the last. */
  lemma InsertionKeepsLast<N>(ring: Ring<N>, e: (nat, N), after: Ring<N>, hash: nat, node: N)
    requires Inserts(ring, e, after) && LastIs(ring, hash, node)
    ensures LastIs(after, hash, node)
  {
    var pos: nat :| Found(ring, e.0, pos) && after == Inserted(ring, pos, e);
    var p: nat :| LastAt(ring, hash, node, p);
    var p' := if pos <= p then p + 1 else p;
    assert e.0 == hash ==> pos <= p;
    assert after[p'] == ring[p];
    forall q | p' < q < |after|
      ensures after[q].0 != hash
    {
      assert after[q] == if q < pos then ring[q] else if q == pos then e else ring[q - 1];
    }
    assert LastAt(after, hash, node, p');
  }

  lemma {:induction false} JoiningKeepsLast<N(!new)>(
      hash: (N, nat) -> nat, ring: Ring<N>, x: N, count: nat, after: Ring<N>, h: nat, node: N)
    requires Joins(hash, ring, x, count, after) && LastIs(ring, h, node)
    ensures LastIs(after, h, node)
  {
    if count > 0 {
      var e := (hash(x, count - 1), x);
      var before: Ring<N> :| Joins(hash, ring, x, count - 1, before) && Inserts(before, e, after);
      JoiningKeepsLast(hash, ring, x, count - 1, before, h, node);
      InsertionKeepsLast(before, e, after, h, node);
    }
  }

  lemma OnlyEntryIsLast<N>(ring: Ring<N>, e: (nat, N), after: Ring<N>)
    requires Inserts(ring, e, after) && forall q: nat :: q < |ring| ==> ring[q].0 != e.0
    ensures LastIs(after, e.0, e.1)
  {
    var pos: nat :| Found(ring, e.0, pos) && after == Inserted(ring, pos, e);
    assert LastAt(after, e.0, e.1, pos);
  }

  /** The first node to join has the last entry at each of its hashes. */
  lemma {:induction false} FirstComerIsLast<N(!new)>(
      hash: (N, nat) -> nat, node: N, count: nat, after: Ring<N>, i: nat)
    requires Joins(hash, [], node, count, after) && i < count
    ensures LastIs(after, hash(node, i), node)
  {
    var e := (hash(node, count - 1), node);
    var before: Ring<N> :| Joins(hash, [], node, count - 1, before) && Inserts(before, e, after);
    if i < count - 1 {
      FirstComerIsLast(hash, node, count - 1, before, i);
      InsertionKeepsLast(before, e, after, hash(node, i), node);
    } else if j: nat :| j < count - 1 && hash(node, j) == e.0 {
      FirstComerIsLast(hash, node, count - 1, before, j);
      InsertionKeepsLast(before, e, after, e.0, node);
    } else {
      JoinsAddsVnodes(hash, [], node, count - 1, before);
      forall q: nat | q < |before|
        ensures before[q].0 != e.0
      {
        assert before[q] in multiset(before);
        VnodesAreOf(hash, node, count - 1, before[q]);
      }
      OnlyEntryIsLast(before, e, after);
    }
  }

  ghost predicate OnlyJoins<N>(ops: seq<Op<N>>) {
    forall i :: 0 <= i < |ops| ==> ops[i].Join?
  }

  lemma {:induction false} LaterJoinsKeepFirst<N(!new)>(
      hash: (N, nat) -> nat, count: nat, a: N, rest: seq<Op<N>>, ring: Ring<N>, i: nat)
    requires Builds(hash, count, [Join(a)] + rest, ring) && OnlyJoins(rest) && i < count
    ensures LastIs(ring, hash(a, i), a)
  {
    var ops := [Join(a)] + rest;
    var init, op := ops[..|ops| - 1], ops[|ops| - 1];
    var before: Ring<N> :| Builds(hash, count, init, before) && Steps(hash, count, NodesAfter(init), before, op, ring);
    if rest == [] {
      FirstComerIsLast(hash, a, count, ring, i);
    } else {
      var shorter := rest[..|rest| - 1];
      assert init == [Join(a)] + shorter && op == rest[|rest| - 1];
      LaterJoinsKeepFirst(hash, count, a, shorter, before, i);
      if op.node !in NodesAfter(init) {
        JoiningKeepsLast(hash, before, op.node, count, ring, hash(a, i), a);
      }
    }
  }

  /** Of two nodes that share a hash, the ring tells which one joined first, whoever joins later. */
  lemma OrderOfJoiningShows<N(!new)>(
      hash: (N, nat) -> nat, count: nat, a: N, b: N, rest1: seq<Op<N>>, rest2: seq<Op<N>>, r1: Ring<N>, r2: Ring<N>)
    requires Collide(hash, count, a, b) && OnlyJoins(rest1) && OnlyJoins(rest2)
    requires Builds(hash, count, [Join(a)] + rest1, r1) && Builds(hash, count, [Join(b)] + rest2, r2)
    ensures r1 != r2
  {
    var i: nat, j: nat :| i < count && j < count && hash(a, i) == hash(b, j);
    LaterJoinsKeepFirst(hash, count, a, rest1, r1, i);
    LaterJoinsKeepFirst(hash, count, b, rest2, r2, j);
    if r1 == r2 {
      LastIsUnique(r1, hash(a, i), a, b);
    }
  }

  /** Some order in which to join all of these nodes. */
  lemma {:induction false} JoinAll<N>(first: N, nodes: set<N>) returns (rest: seq<Op<N>>)
    ensures OnlyJoins(rest) && NodesAfter([Join(first)] + rest) == nodes + {first}
    decreases nodes
  {
    if nodes == {} {
      rest := [];
      assert ([Join(first)] + rest)[..0] == [];
    } else {
      var n :| n in nodes;
      var most := JoinAll(first, nodes - {n});
      rest := most + [Join(n)];
      assert ([Join(first)] + rest)[..|rest|] == [Join(first)] + most;
    }
  }

  /** Any two histories that end with these nodes end with the same ring. */
  ghost predicate Forgets<N(!new)>(hash: (N, nat) -> nat, count: nat, nodes: set<N>) {
    forall ops1, ops2, r1, r2 ::
      && Builds(hash, count, ops1, r1) && Builds(hash, count, ops2, r2)
      && NodesAfter(ops1) == nodes && NodesAfter(ops2) == nodes
      ==> r1 == r2
  }

  /** The ring depends on the current nodes alone, and not on how they came and went, if and only if no two
      of them share the hash of a virtual node. */
  lemma HistoryMattersIffCollision<N(!new)>(hash: (N, nat) -> nat, count: nat, nodes: set<N>)
    ensures Forgets(hash, count, nodes)
            <==> forall a, b :: a in nodes && b in nodes ==> !Collide(hash, count, a, b)
  {
    if forall a, b :: a in nodes && b in nodes ==> !Collide(hash, count, a, b) {
      forall ops1, ops2, r1, r2 |
        Builds(hash, count, ops1, r1) && Builds(hash, count, ops2, r2)
        && NodesAfter(ops1) == nodes && NodesAfter(ops2) == nodes
        ensures r1 == r2
      {
        HistoryIsForgotten(hash, count, ops1, ops2, r1, r2);
      }
    } else {
      var a, b :| a in nodes && b in nodes && Collide(hash, count, a, b);
      var rest1 := JoinAll(a, nodes);
      var rest2 := JoinAll(b, nodes);
      assert nodes + {a} == nodes && nodes + {b} == nodes;
      var r1 := HistoriesBuild(hash, count, [Join(a)] + rest1);
      var r2 := HistoriesBuild(hash, count, [Join(b)] + rest2);
      OrderOfJoiningShows(hash, count, a, b, rest1, rest2, r1, r2);
    }
  }
}
