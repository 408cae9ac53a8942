/** What an eviction policy means, independent of how it stores its keys.

    A ledger keeps, for every tracked key, how often it was used and when it was last used. All
    three policies are then one rule, "evict the key whose (frequency, stamp) is least", and differ
    only in what an access writes down. The linked structures of the policy classes are proved to
    compute this rule. */
module Ledgers {
  import opened Collections

  datatype Kind = Fifo | Lru | Lfu

  datatype Use = Use(freq: nat, stamp: nat)

  predicate Before(a: Use, b: Use) {
    a.freq < b.freq || (a.freq == b.freq && a.stamp < b.stamp)
  }

  /** `clock` counts the operations so far; `peak` is the largest number of keys ever tracked at once. */
  datatype Ledger<K> = Ledger(kind: Kind, clock: nat, uses: map<K, Use>, peak: nat)

  ghost predicate Plausible<K>(l: Ledger<K>, k: K)
    requires k in l.uses
  {
    l.uses[k].stamp < l.clock && l.uses[k].freq >= 1 && (l.kind != Lfu ==> l.uses[k].freq == 1)
  }

  ghost predicate Apart<K>(l: Ledger<K>, j: K, k: K)
    requires j in l.uses && k in l.uses
  {
    j != k ==> l.uses[j].stamp != l.uses[k].stamp
  }

  ghost predicate ValidLedger<K>(l: Ledger<K>) {
    && (forall k {:trigger Plausible(l, k)} :: k in l.uses ==> Plausible(l, k))
    && (forall j, k {:trigger Apart(l, j, k)} :: j in l.uses && k in l.uses ==> Apart(l, j, k))
    && |l.uses| <= l.peak
  }

  function New<K>(kind: Kind): Ledger<K> {
    Ledger(kind, 0, map[], 0)
  }

  /** What one access writes down about a key last used as `u`. */
  function Touched(kind: Kind, u: Use, clock: nat): Use {
    match kind
    case Fifo => u
    case Lru => Use(1, clock)
    case Lfu => Use(u.freq + 1, clock)
  }

  function OnInsert<K>(l: Ledger<K>, k: K): Ledger<K>
    requires k !in l.uses
  {
    Ledger(l.kind, l.clock + 1, l.uses[k := Use(1, l.clock)], Max(l.peak, |l.uses| + 1))
  }

  function OnAccess<K>(l: Ledger<K>, k: K): Ledger<K> {
    l.(clock := l.clock + 1,
       uses := if k in l.uses then l.uses[k := Touched(l.kind, l.uses[k], l.clock)] else l.uses)
  }

  function OnDelete<K>(l: Ledger<K>, k: K): Ledger<K> {
    l.(clock := l.clock + 1, uses := Without(l.uses, k))
  }

  ghost predicate IsVictim<K>(l: Ledger<K>, v: K) {
    && v in l.uses
    && forall k :: k in l.uses && k != v ==> Before(l.uses[v], l.uses[k])
  }

  /** Some key is least, because the stamps of tracked keys differ. */
  lemma {:induction false} VictimExists<K>(l: Ledger<K>)
    requires ValidLedger(l) && l.uses != map[]
    ensures exists v :: IsVictim(l, v)
    decreases |l.uses|
  {
    var k :| k in l.uses;
    var rest := OnDelete(l, k);
    DeleteIsLawful(l, k);
    assert forall j :: j in l.uses ==> j == k || j in rest.uses;
    if rest.uses == map[] {
      assert IsVictim(l, k);
    } else {
      VictimExists(rest);
      var v :| IsVictim(rest, v);
      assert Apart(l, k, v);
      if Before(l.uses[k], l.uses[v]) {
        assert IsVictim(l, k);
      } else {
        assert IsVictim(l, v);
      }
    }
  }

  ghost function Victim<K>(l: Ledger<K>): (v: K)
    requires ValidLedger(l) && l.uses != map[]
    ensures IsVictim(l, v)
  {
    VictimExists(l);
    var v :| IsVictim(l, v);
    v
  }

  ghost function Evict<K>(l: Ledger<K>): (Ledger<K>, Option<K>)
    requires ValidLedger(l)
  {
    if l.uses == map[] then (l.(clock := l.clock + 1), None)
    else (OnDelete(l, Victim(l)), Some(Victim(l)))
  }

  /** The rule leaves no choice: whatever is least is what `Evict` returns. */
  lemma EvictIs<K>(l: Ledger<K>, v: K)
    requires ValidLedger(l) && IsVictim(l, v)
    ensures l.uses != map[]
    ensures Evict(l) == (OnDelete(l, v), Some(v))
  {
    assert v in l.uses;
    assert !(Before(l.uses[v], l.uses[Victim(l)]) && Before(l.uses[Victim(l)], l.uses[v]));
  }

  // Every operation keeps a ledger valid and changes the tracked keys by exactly its own key:
  // the contract that the stores rely on, whatever the policy.

  /** A step that rewrites at most the entry of `k`, and stamps it with the current clock, is valid. */
  lemma StepKeepsValid<K>(l: Ledger<K>, l': Ledger<K>, k: K)
    requires ValidLedger(l) && l'.kind == l.kind && l'.clock == l.clock + 1 && |l'.uses| <= l'.peak
    requires forall j :: j in l'.uses && j != k ==> j in l.uses && l'.uses[j] == l.uses[j]
    requires k in l'.uses ==>
               || (k in l.uses && l'.uses[k] == l.uses[k])
               || (l'.uses[k].stamp == l.clock && l'.uses[k].freq >= 1 && (l.kind != Lfu ==> l'.uses[k].freq == 1))
    ensures ValidLedger(l')
  {
    forall j | j in l'.uses
      ensures Plausible(l', j)
    {
      assert j in l.uses ==> Plausible(l, j);
    }
    forall i, j | i in l'.uses && j in l'.uses
      ensures Apart(l', i, j)
    {
      assert i in l.uses ==> Plausible(l, i);
      assert j in l.uses ==> Plausible(l, j);
      assert i in l.uses && j in l.uses ==> Apart(l, i, j);
    }
  }

  lemma TickIsLawful<K>(l: Ledger<K>)
    requires ValidLedger(l)
    ensures ValidLedger(l.(clock := l.clock + 1))
  {
    if l.uses != map[] {
      var k :| k in l.uses;
      StepKeepsValid(l, l.(clock := l.clock + 1), k);
    }
  }

  lemma InsertIsLawful<K>(l: Ledger<K>, k: K)
    requires ValidLedger(l) && k !in l.uses
    ensures ValidLedger(OnInsert(l, k)) && OnInsert(l, k).uses.Keys == l.uses.Keys + {k}
    ensures |OnInsert(l, k).uses| == |l.uses| + 1
  {
    var after := OnInsert(l, k);
    assert after.uses.Keys == l.uses.Keys + {k};
    assert |after.uses| == |after.uses.Keys| && |l.uses| == |l.uses.Keys|;
    StepKeepsValid(l, after, k);
  }

  lemma AccessIsLawful<K>(l: Ledger<K>, k: K)
    requires ValidLedger(l)
    ensures ValidLedger(OnAccess(l, k)) && OnAccess(l, k).uses.Keys == l.uses.Keys
    ensures |OnAccess(l, k).uses| == |l.uses|
  {
    var after := OnAccess(l, k);
    assert after.uses.Keys == l.uses.Keys;
    assert |after.uses| == |after.uses.Keys| && |l.uses| == |l.uses.Keys|;
    assert k in l.uses ==> Plausible(l, k);
    StepKeepsValid(l, after, k);
  }

  lemma DeleteIsLawful<K>(l: Ledger<K>, k: K)
    requires ValidLedger(l)
    ensures ValidLedger(OnDelete(l, k))
    ensures |OnDelete(l, k).uses| == |l.uses| - (if k in l.uses then 1 else 0)
  {
    WithoutShrinks(l.uses, k);
    StepKeepsValid(l, OnDelete(l, k), k);
  }

  lemma EvictIsLawful<K>(l: Ledger<K>)
    requires ValidLedger(l)
    ensures ValidLedger(Evict(l).0)
    ensures Evict(l).1.None? <==> l.uses == map[]
    ensures Evict(l).1.None? ==> Evict(l).0.uses == l.uses
    ensures Evict(l).1.Some? ==>
              && Evict(l).1.value in l.uses
              && Evict(l).0.uses == Without(l.uses, Evict(l).1.value)
              && |Evict(l).0.uses| == |l.uses| - 1
  {
    if l.uses != map[] {
      DeleteIsLawful(l, Victim(l));
    }
  }
}
