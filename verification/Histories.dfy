/** Policies seen from outside: what the sequence of calls alone says about the next victim. */
module Histories {
  import opened Collections
  import opened Ledgers

  datatype Call<K> = Insert(key: K) | Access(key: K) | Delete(key: K) | EvictCall

  ghost function Apply<K>(l: Ledger<K>, c: Call<K>): Ledger<K>
    requires ValidLedger(l) && (c.Insert? ==> c.key !in l.uses)
  {
    match c
    case Insert(k) => OnInsert(l, k)
    case Access(k) => OnAccess(l, k)
    case Delete(k) => OnDelete(l, k)
    case EvictCall => Evict(l).0
  }

  lemma ApplyIsLawful<K>(l: Ledger<K>, c: Call<K>)
    requires ValidLedger(l) && (c.Insert? ==> c.key !in l.uses)
    ensures ValidLedger(Apply(l, c))
  {
    match c
    case Insert(k) => InsertIsLawful(l, k);
    case Access(k) => AccessIsLawful(l, k);
    case Delete(k) => DeleteIsLawful(l, k);
    case EvictCall => EvictIsLawful(l);
  }

  /** The ledger after a sequence of calls in which no key is inserted while it is tracked; `None` otherwise. */
  ghost function Run<K>(kind: Kind, t: seq<Call<K>>): (r: Option<Ledger<K>>)
    ensures r.Some? ==> ValidLedger(r.value)
  {
    if t == [] then Some(New(kind))
    else
      var before := Run(kind, t[..|t| - 1]);
      var c := t[|t| - 1];
      if before.None? || (c.Insert? && c.key in before.value.uses) then None
      else
        ApplyIsLawful(before.value, c);
        Some(Apply(before.value, c))
  }

  lemma OneCallMore<K>(kind: Kind, t: seq<Call<K>>, c: Call<K>)
    requires Run(kind, t).Some? && (c.Insert? ==> c.key !in Run(kind, t).value.uses)
    ensures Run(kind, t + [c]) == Some(Apply(Run(kind, t).value, c))
  {
    assert (t + [c])[..|t|] == t;
  }

  /** Does call `c` count as a use of `k`? An access does, except for FIFO. */
  predicate Uses<K(==)>(kind: Kind, c: Call<K>, k: K) {
    c == Insert(k) || (c == Access(k) && kind != Fifo)
  }

  /** The position of the last use of `k`, or -1. */
  function LastUse<K(==)>(kind: Kind, t: seq<Call<K>>, k: K): int {
    if t == [] then -1
    else if Uses(kind, t[|t| - 1], k) then |t| - 1
    else LastUse(kind, t[..|t| - 1], k)
  }

  /** How often `k` was used, counting from its last insertion. */
  function UseCount<K(==)>(kind: Kind, t: seq<Call<K>>, k: K): nat {
    if t == [] then 0
    else if t[|t| - 1] == Insert(k) then 1
    else UseCount(kind, t[..|t| - 1], k) + (if Uses(kind, t[|t| - 1], k) then 1 else 0)
  }

  /** The largest number of keys tracked at once. */
  ghost function Peak<K>(kind: Kind, t: seq<Call<K>>): nat
    requires Run(kind, t).Some?
  {
    if t == [] then 0
    else Max(Peak(kind, t[..|t| - 1]), |Run(kind, t).value.uses|)
  }

  /** What the ledger has on record for a key it tracks. */
  ghost predicate Recorded<K(!new)>(kind: Kind, t: seq<Call<K>>, l: Ledger<K>, k: K) {
    k in l.uses ==>
      && l.uses[k].stamp == LastUse(kind, t, k)
      && l.uses[k].freq == (if kind == Lfu then UseCount(kind, t, k) else 1)
  }

  /** One call keeps the records right: it is the latest use of its own key, and of no other. */
  lemma RecordedStep<K(!new)>(kind: Kind, t: seq<Call<K>>, c: Call<K>, l: Ledger<K>, k: K)
    requires ValidLedger(l) && (c.Insert? ==> c.key !in l.uses)
    requires l.kind == kind && l.clock == |t| && Recorded(kind, t, l, k)
    ensures Recorded(kind, t + [c], Apply(l, c), k)
  {
    assert (t + [c])[..|t|] == t;
    assert k in l.uses ==> Plausible(l, k);
    if c == EvictCall {
      EvictIsLawful(l);
    }
  }

  lemma CallSizes<K>(l: Ledger<K>, c: Call<K>)
    requires ValidLedger(l) && (c.Insert? ==> c.key !in l.uses)
    ensures Apply(l, c).kind == l.kind && Apply(l, c).clock == l.clock + 1
    ensures Apply(l, c).peak == Max(l.peak, |Apply(l, c).uses|)
  {
    match c
    case Insert(k) => InsertIsLawful(l, k);
    case Access(k) => AccessIsLawful(l, k);
    case Delete(k) => DeleteIsLawful(l, k);
    case EvictCall => EvictIsLawful(l);
  }

  /** A ledger is exactly the summary of its history. */
  lemma {:induction false} LedgerSummarizesHistory<K(!new)>(kind: Kind, t: seq<Call<K>>)
    requires Run(kind, t).Some?
    ensures Run(kind, t).value.kind == kind && Run(kind, t).value.clock == |t|
    ensures Run(kind, t).value.peak == Peak(kind, t)
    ensures forall k :: Recorded(kind, t, Run(kind, t).value, k)
  {
    if t != [] {
      var t', c := t[..|t| - 1], t[|t| - 1];
      assert t == t' + [c];
      LedgerSummarizesHistory(kind, t');
      var l := Run(kind, t').value;
      CallSizes(l, c);
      forall k
        ensures Recorded(kind, t, Apply(l, c), k)
      {
        assert Recorded(kind, t', l, k);
        RecordedStep(kind, t', c, l, k);
      }
    }
  }

  /** The eviction order promised for each policy, in terms of the calls alone. */
  ghost predicate GoesFirst<K>(kind: Kind, t: seq<Call<K>>, v: K, k: K) {
    if kind == Lfu then
      || UseCount(kind, t, v) < UseCount(kind, t, k)
      || (UseCount(kind, t, v) == UseCount(kind, t, k) && LastUse(kind, t, v) < LastUse(kind, t, k))
    else LastUse(kind, t, v) < LastUse(kind, t, k)
  }

  /** The victim is the oldest insertion (FIFO), the oldest use (LRU), or the rarest use with the oldest
      first among equals (LFU); there is none only when nothing is tracked. */
  lemma EvictsByHistory<K(!new)>(kind: Kind, t: seq<Call<K>>)
    requires Run(kind, t).Some?
    ensures var l := Run(kind, t).value;
            var victim := Evict(l).1;
            && (victim.None? <==> l.uses == map[])
            && (victim.Some? ==>
                  && victim.value in l.uses
                  && forall k :: k in l.uses && k != victim.value ==> GoesFirst(kind, t, victim.value, k))
  {
    LedgerSummarizesHistory(kind, t);
    var l := Run(kind, t).value;
    EvictIsLawful(l);
    if l.uses != map[] {
      var v := Victim(l);
      forall k | k in l.uses && k != v
        ensures GoesFirst(kind, t, v, k)
      {
        assert Recorded(kind, t, l, v) && Recorded(kind, t, l, k);
      }
    }
  }
}
