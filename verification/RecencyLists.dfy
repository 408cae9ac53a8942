/** Arena lists kept in recency order: the key nearer the head has the larger stamp in the ledger. */
module RecencyLists {
  import opened Collections
  import opened Ledgers
  import opened ArenaLists

  ghost predicate NewerAt<K, T>(a: Arena<K, T>, s: seq<nat>, uses: map<K, Use>, i: nat, j: nat)
    requires i < j < |s|
  {
    && Live(a, s[i]) && a[s[i]].value.key in uses
    && Live(a, s[j]) && a[s[j]].value.key in uses
    && uses[a[s[i]].value.key].stamp > uses[a[s[j]].value.key].stamp
  }

  ghost predicate NewestFirst<K, T>(a: Arena<K, T>, s: seq<nat>, uses: map<K, Use>) {
    forall i, j :: 0 <= i < j < |s| ==> NewerAt(a, s, uses, i, j)
  }

  /** Slot `i` holds the same key, used the same way, before and after. */
  ghost predicate SameUse<K, T>(a: Arena<K, T>, b: Arena<K, T>, uses: map<K, Use>, uses': map<K, Use>, i: nat) {
    && Live(a, i) && Live(b, i) && b[i].value.key == a[i].value.key
    && (a[i].value.key in uses ==> a[i].value.key in uses' && uses'[a[i].value.key] == uses[a[i].value.key])
  }

  /** A list stays in order when neither its keys nor their uses change. */
  lemma NewestFirstFrame<K, T>(a: Arena<K, T>, b: Arena<K, T>, s: seq<nat>, uses: map<K, Use>, uses': map<K, Use>)
    requires NewestFirst(a, s, uses) && forall i :: i in s ==> SameUse(a, b, uses, uses', i)
    ensures NewestFirst(b, s, uses')
  {
    forall i, j | 0 <= i < j < |s|
      ensures NewerAt(b, s, uses', i, j)
    {
      assert NewerAt(a, s, uses, i, j) && SameUse(a, b, uses, uses', s[i]) && SameUse(a, b, uses, uses', s[j]);
    }
  }

  lemma NewestFirstWithout<K, T>(a: Arena<K, T>, s: seq<nat>, uses: map<K, Use>, p: nat)
    requires NewestFirst(a, s, uses) && p < |s|
    ensures NewestFirst(a, RemoveAt(s, p), uses)
  {
    var t := RemoveAt(s, p);
    forall i, j | 0 <= i < j < |t|
      ensures NewerAt(a, t, uses, i, j)
    {
      assert NewerAt(a, s, uses, if i < p then i else i + 1, if j < p then j else j + 1);
    }
  }

  /** `l'` is `l` after its clock stamped the use of `k` alone. */
  ghost predicate UsedNow<K>(l: Ledger<K>, l': Ledger<K>, k: K) {
    && k in l'.uses && l'.uses[k].stamp == l.clock
    && forall j :: j in l.uses && j != k ==> j in l'.uses && l'.uses[j] == l.uses[j]
  }

  /** The key used just now goes to the head of a list that it is not in. */
  lemma NewestFirstFront<K, T>(
      a: Arena<K, T>, b: Arena<K, T>, s: seq<nat>, idx: nat, index: map<K, nat>, l: Ledger<K>, l': Ledger<K>)
    requires NewestFirst(a, s, l.uses)
    requires Indexed(a, index) && ValidLedger(l) && index.Keys == l.uses.Keys
    requires forall i :: i in s ==> i != idx && SameNodeLive(a, b, i)
    requires Live(b, idx) && UsedNow(l, l', b[idx].value.key)
    requires b[idx].value.key in index ==> index[b[idx].value.key] == idx
    ensures NewestFirst(b, [idx] + s, l'.uses)
  {
    var t := [idx] + s;
    forall i | i in s
      ensures SameUse(a, b, l.uses, l'.uses, i)
      ensures a[i].value.key in l.uses && l.uses[a[i].value.key].stamp < l.clock
    {
      assert SameNodeLive(a, b, i) && SlotFound(a, index, i) && Plausible(l, a[i].value.key);
      assert a[i].value.key != b[idx].value.key;
    }
    NewestFirstFrame(a, b, s, l.uses, l'.uses);
    forall i, j | 0 <= i < j < |t|
      ensures NewerAt(b, t, l'.uses, i, j)
    {
      assert i > 0 ==> NewerAt(b, s, l'.uses, i - 1, j - 1);
      assert t[j] in s && SameUse(a, b, l.uses, l'.uses, t[j]);
    }
  }

  ghost predicate SameNodeLive<K, T>(a: Arena<K, T>, b: Arena<K, T>, i: nat) {
    Live(a, i) && Live(b, i) && b[i].value.key == a[i].value.key
  }
}
