/** Filtering, removing repetitions, and how the two combine. */
module Sequences {
  import opened Collections

  function Filter<T>(p: T -> bool, s: seq<T>): seq<T> {
    if s == [] then []
    else
      var rest := Filter(p, s[..|s| - 1]);
      if p(s[|s| - 1]) then rest + [s[|s| - 1]] else rest
  }

  lemma {:induction false} FilterMembers<T>(p: T -> bool, s: seq<T>, x: T)
    ensures x in Filter(p, s) <==> x in s && p(x)
  {
    if s != [] {
      FilterMembers(p, s[..|s| - 1], x);
      assert s == s[..|s| - 1] + [s[|s| - 1]];
    }
  }

  lemma {:induction false} FilterConcat<T>(p: T -> bool, s: seq<T>, t: seq<T>)
    ensures Filter(p, s + t) == Filter(p, s) + Filter(p, t)
  {
    if t == [] {
      assert s + t == s;
    } else {
      var last := |t| - 1;
      assert (s + t)[..|s + t| - 1] == s + t[..last];
      FilterConcat(p, s, t[..last]);
    }
  }

  lemma {:induction false} FilterAll<T>(p: T -> bool, s: seq<T>)
    requires forall x :: x in s ==> p(x)
    ensures Filter(p, s) == s
  {
    if s != [] {
      FilterAll(p, s[..|s| - 1]);
      assert s == s[..|s| - 1] + [s[|s| - 1]];
    }
  }

  lemma {:induction false} FilterNone<T>(p: T -> bool, s: seq<T>)
    requires forall x :: x in s ==> !p(x)
    ensures Filter(p, s) == []
  {
    if s != [] {
      FilterNone(p, s[..|s| - 1]);
    }
  }

  /** Where a sequence falls into two parts, one kept and one not, filtering finds the kept part. */
  lemma FilterSplit<T>(p: T -> bool, s: seq<T>, t: seq<T>)
    ensures (forall x :: x in s ==> !p(x)) && (forall x :: x in t ==> p(x)) ==> Filter(p, s + t) == t
    ensures (forall x :: x in s ==> p(x)) && (forall x :: x in t ==> !p(x)) ==> Filter(p, s + t) == s
  {
    FilterConcat(p, s, t);
    if (forall x :: x in s ==> !p(x)) && forall x :: x in t ==> p(x) {
      FilterNone(p, s);
      FilterAll(p, t);
    }
    if (forall x :: x in s ==> p(x)) && forall x :: x in t ==> !p(x) {
      FilterAll(p, s);
      FilterNone(p, t);
    }
  }

  lemma {:induction false} FiltersCommute<T>(p: T -> bool, q: T -> bool, s: seq<T>)
    ensures Filter(p, Filter(q, s)) == Filter(q, Filter(p, s))
  {
    if s != [] {
      var init, last := s[..|s| - 1], s[|s| - 1];
      FiltersCommute(p, q, init);
      FilterConcat(p, Filter(q, init), [last]);
      FilterConcat(q, Filter(p, init), [last]);
      assert [last][..0] == [];
      assert Filter(p, [last]) == (if p(last) then [last] else []);
      assert Filter(q, [last]) == (if q(last) then [last] else []);
    }
  }

  lemma {:induction false} FilterCounts<T>(p: T -> bool, s: seq<T>, x: T)
    ensures multiset(Filter(p, s))[x] == if p(x) then multiset(s)[x] else 0
  {
    if s != [] {
      FilterCounts(p, s[..|s| - 1], x);
      assert s == s[..|s| - 1] + [s[|s| - 1]];
    }
  }

  /** The first occurrences of the elements of `s`, in order. */
  function Dedup<T(==)>(s: seq<T>): seq<T> {
    if s == [] then []
    else
      var rest := Dedup(s[..|s| - 1]);
      if s[|s| - 1] in rest then rest else rest + [s[|s| - 1]]
  }

  lemma {:induction false} DedupMembers<T>(s: seq<T>)
    ensures Distinct(Dedup(s))
    ensures forall x :: x in Dedup(s) <==> x in s
  {
    if s != [] {
      DedupMembers(s[..|s| - 1]);
      assert s == s[..|s| - 1] + [s[|s| - 1]];
    }
  }

  /** What is seen early stays in front. */
  lemma {:induction false} DedupExtends<T>(s: seq<T>, t: seq<T>)
    ensures Dedup(s) <= Dedup(s + t)
  {
    if t == [] {
      assert s + t == s;
    } else {
      assert (s + t)[..|s + t| - 1] == s + t[..|t| - 1];
      DedupExtends(s, t[..|t| - 1]);
    }
  }

  /** A stretch of elements that were all seen before can be left out. */
  lemma {:induction false} DedupSkips<T>(s: seq<T>, seen: seq<T>, t: seq<T>)
    requires forall x :: x in seen ==> x in s
    ensures Dedup(s + seen + t) == Dedup(s + t)
  {
    if t != [] {
      var init := t[..|t| - 1];
      DedupSkips(s, seen, init);
      assert (s + seen + t)[..|s + seen + t| - 1] == s + seen + init;
      assert (s + t)[..|s + t| - 1] == s + init;
    } else if seen != [] {
      var init := seen[..|seen| - 1];
      assert forall x :: x in init ==> x in seen;
      DedupSkips(s, init, t);
      assert s + seen + t == s + seen && s + init + t == s + init && s + t == s;
      assert (s + seen)[..|s + seen| - 1] == s + init;
      assert seen[|seen| - 1] in seen;
      DedupMembers(s);
    } else {
      assert s + seen + t == s + t;
    }
  }

  lemma {:induction false} DedupOfFilter<T>(p: T -> bool, s: seq<T>)
    ensures Dedup(Filter(p, s)) == Filter(p, Dedup(s))
  {
    if s != [] {
      var init, last := s[..|s| - 1], s[|s| - 1];
      DedupOfFilter(p, init);
      FilterMembers(p, Dedup(init), last);
      FilterConcat(p, Dedup(init), [last]);
      assert [last][..0] == [];
      assert Filter(p, [last]) == (if p(last) then [last] else []);
      assert (Filter(p, init) + [last])[..|Filter(p, init)|] == Filter(p, init);
    }
  }

  function Take<T>(s: seq<T>, n: nat): seq<T> {
    if |s| <= n then s else s[..n]
  }

  function Except<T(==)>(x: T): T -> bool {
    y => y != x
  }

  /** `s` without the occurrences of `x`. */
  function Minus<T(==)>(s: seq<T>, x: T): seq<T> {
    Filter(Except(x), s)
  }

  lemma MinusMiddle<T>(a: seq<T>, x: T, b: seq<T>)
    requires x !in a && x !in b
    ensures Minus(a + [x] + b, x) == a + b
  {
    FilterConcat(Except(x), a + [x], b);
    FilterConcat(Except(x), a, [x]);
    FilterAll(Except(x), a);
    FilterNone(Except(x), [x]);
    FilterAll(Except(x), b);
  }

  lemma MinusIsRemoveAt<T>(s: seq<T>, p: nat)
    requires Distinct(s) && p < |s|
    ensures Minus(s, s[p]) == RemoveAt(s, p)
  {
    assert s == s[..p] + [s[p]] + s[p + 1..];
    MinusMiddle(s[..p], s[p], s[p + 1..]);
  }

  lemma TakeOfRemoveAt<T>(s: seq<T>, p: nat, n: nat)
    requires p < |s|
    ensures p >= n ==> Take(RemoveAt(s, p), n) == Take(s, n)
    ensures p < n ==> p < |Take(s, n)|
                      && Take(RemoveAt(s, p), n) == RemoveAt(Take(s, n), p) + (if |s| > n then [s[n]] else [])
  {
    if p < n && |s| > n {
      assert s[..n][p + 1..] + [s[n]] == s[p + 1..n + 1];
    }
  }

  /** Taking `x` out of a duplicate-free list changes its first `n` elements only if `x` is among them;
      then the others move up and the next one joins. */
  lemma TakeOfMinus<T>(s: seq<T>, x: T, n: nat)
    requires Distinct(s)
    ensures Take(Minus(s, x), n)
            == if x in Take(s, n) then Minus(Take(s, n), x) + (if |s| > n then [s[n]] else []) else Take(s, n)
  {
    if x !in s {
      FilterAll(Except(x), s);
    } else {
      var p :| 0 <= p < |s| && s[p] == x;
      MinusIsRemoveAt(s, p);
      TakeOfRemoveAt(s, p, n);
      if p < n {
        assert Take(s, n)[p] == x;
        MinusIsRemoveAt(Take(s, n), p);
      } else {
        assert x !in Take(s, n);
      }
    }
  }
}
