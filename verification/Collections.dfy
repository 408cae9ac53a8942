/** Options, and the few facts about sequences, sets and maps that several models share. */
module Collections {

  datatype Option<+T> = None | Some(value: T)

  function Max(a: int, b: int): int {
    if a < b then b else a
  }

  ghost predicate Distinct<T>(s: seq<T>) {
    forall i, j :: 0 <= i < j < |s| ==> s[i] != s[j]
  }

  function Reversed<T>(s: seq<T>): seq<T> {
    if s == [] then [] else [s[|s| - 1]] + Reversed(s[..|s| - 1])
  }

  /** `s` without the element at position `p`. */
  function RemoveAt<T>(s: seq<T>, p: nat): seq<T>
    requires p < |s|
  {
    s[..p] + s[p + 1..]
  }

  /** Dropping a position of a duplicate-free sequence drops exactly that element. */
  lemma RemoveAtMembers<T>(s: seq<T>, p: nat)
    requires Distinct(s) && p < |s|
    ensures Distinct(RemoveAt(s, p))
    ensures forall x :: x in RemoveAt(s, p) <==> x in s && x != s[p]
  {
    forall x | x in s && x != s[p]
      ensures x in RemoveAt(s, p)
    {
      var i :| 0 <= i < |s| && s[i] == x;
      assert RemoveAt(s, p)[if i < p then i else i - 1] == x;
    }
  }

  /** A duplicate-free sequence drawn from a set is no longer than the set. */
  lemma {:induction false} DistinctBound<T>(s: seq<T>, within: set<T>)
    requires Distinct(s) && forall x :: x in s ==> x in within
    ensures |s| <= |within|
  {
    if s != [] {
      var rest := s[1..];
      assert forall x :: x in rest ==> x in s && x != s[0];
      DistinctBound(rest, within - {s[0]});
    }
  }

  /** `m` without key `k`. */
  function Without<K, V>(m: map<K, V>, k: K): map<K, V> {
    map j | j in m && j != k :: m[j]
  }

  lemma WithoutShrinks<K, V>(m: map<K, V>, k: K)
    ensures Without(m, k).Keys == m.Keys - {k}
    ensures |Without(m, k)| == |m| - (if k in m then 1 else 0)
  {
    assert Without(m, k).Keys == m.Keys - {k};
    assert |m| == |m.Keys| && |Without(m, k)| == |Without(m, k).Keys|;
  }

  ghost function NatsBelow(n: nat): (s: set<nat>)
    ensures |s| == n && forall x: nat :: x in s <==> x < n
  {
    if n == 0 then {} else NatsBelow(n - 1) + {n - 1}
  }

  /** A sequence that meets every element of a set is at least as long as the set. */
  lemma {:induction false} CoverBound<T>(s: seq<T>, covered: set<T>)
    requires forall x :: x in covered ==> x in s
    ensures |covered| <= |s|
  {
    if s != [] {
      assert forall x :: x in covered - {s[0]} ==> x in s && x != s[0];
      CoverBound(s[1..], covered - {s[0]});
    }
  }

  predicate IsLeast(s: set<nat>, m: nat) {
    m in s && forall x :: x in s ==> m <= x
  }

  lemma {:induction false} LeastExists(s: set<nat>)
    requires s != {}
    ensures exists m :: IsLeast(s, m)
  {
    var m :| m in s;
    if s == {m} {
      assert IsLeast(s, m);
    } else {
      LeastExists(s - {m});
      var r :| IsLeast(s - {m}, r);
      assert forall x :: x in s ==> x == m || x in s - {m};
      assert IsLeast(s, if m <= r then m else r);
    }
  }

  /** The least element of a set of naturals, or `otherwise` when the set is empty. */
  function LeastOr(s: set<nat>, otherwise: nat): (m: nat)
    ensures s == {} ==> m == otherwise
    ensures s != {} ==> IsLeast(s, m)
  {
    if s == {} then otherwise
    else
      LeastExists(s);
      var m: nat :| IsLeast(s, m);
      m
  }
}
