/** First in, first out: a queue of keys; accesses are ignored. */
module FifoPolicies {
  import opened Collections
  import Ledgers

  ghost predicate QueuedAt<K>(queue: seq<K>, uses: map<K, Ledgers.Use>, i: nat, j: nat)
    requires i < j < |queue|
  {
    queue[i] in uses && queue[j] in uses && uses[queue[i]].stamp < uses[queue[j]].stamp
  }

  /** The queue holds the tracked keys, each once, in the order of their insertion. */
  ghost predicate Faithful<K>(queue: seq<K>, l: Ledgers.Ledger<K>) {
    && Ledgers.ValidLedger(l) && l.kind == Ledgers.Fifo
    && Distinct(queue)
    && (forall k :: k in queue ==> k in l.uses)
    && (forall k :: k in l.uses ==> k in queue)
    && forall i, j :: 0 <= i < j < |queue| ==> QueuedAt(queue, l.uses, i, j)
  }

  lemma InsertFaithful<K>(queue: seq<K>, l: Ledgers.Ledger<K>, key: K)
    requires Faithful(queue, l) && key !in l.uses
    ensures Faithful(queue + [key], Ledgers.OnInsert(l, key))
  {
    Ledgers.InsertIsLawful(l, key);
    var longer, l' := queue + [key], Ledgers.OnInsert(l, key);
    forall i, j | 0 <= i < j < |longer|
      ensures QueuedAt(longer, l'.uses, i, j)
    {
      if j < |queue| {
        assert QueuedAt(queue, l.uses, i, j);
      } else {
        assert queue[i] in queue && Ledgers.Plausible(l, queue[i]);
      }
    }
  }

  lemma QueuedTwice<K>(queue: seq<K>, key: K)
    requires key in queue
    ensures !Distinct(queue + [key])
  {
    var i :| 0 <= i < |queue| && queue[i] == key;
    assert (queue + [key])[i] == (queue + [key])[|queue|];
  }

  /** Removing one queued key leaves the use of another as it was. */
  lemma StillQueued<K>(queue: seq<K>, l: Ledgers.Ledger<K>, p: nat, i: nat)
    requires Faithful(queue, l) && p < |queue| && i < |queue| && i != p
    ensures queue[i] in l.uses && queue[i] in Ledgers.OnDelete(l, queue[p]).uses
    ensures Ledgers.OnDelete(l, queue[p]).uses[queue[i]] == l.uses[queue[i]]
  {
    assert queue[i] in queue && queue[i] != queue[p];
  }

  lemma RemoveFaithful<K>(queue: seq<K>, l: Ledgers.Ledger<K>, p: nat)
    requires Faithful(queue, l) && p < |queue|
    ensures Faithful(RemoveAt(queue, p), Ledgers.OnDelete(l, queue[p]))
  {
    Ledgers.DeleteIsLawful(l, queue[p]);
    RemoveAtMembers(queue, p);
    var rest, l' := RemoveAt(queue, p), Ledgers.OnDelete(l, queue[p]);
    forall i, j | 0 <= i < j < |rest|
      ensures QueuedAt(rest, l'.uses, i, j)
    {
      var i', j' := if i < p then i else i + 1, if j < p then j else j + 1;
      assert rest[i] == queue[i'] && rest[j] == queue[j'];
      assert QueuedAt(queue, l.uses, i', j');
      StillQueued(queue, l, p, i');
      StillQueued(queue, l, p, j');
    }
  }

  lemma FrontIsVictim<K>(queue: seq<K>, l: Ledgers.Ledger<K>)
    requires Faithful(queue, l)
    ensures queue == [] <==> l.uses == map[]
    ensures queue != [] ==> Ledgers.IsVictim(l, queue[0])
  {
    if l.uses != map[] {
      var k :| k in l.uses;
      assert k in queue;
    }
    if queue != [] {
      assert queue[0] in queue;
      forall k | k in l.uses && k != queue[0]
        ensures Ledgers.Before(l.uses[queue[0]], l.uses[k])
      {
        assert k in queue;
        var i :| 0 <= i < |queue| && queue[i] == k;
        assert QueuedAt(queue, l.uses, 0, i) && Ledgers.Plausible(l, k) && Ledgers.Plausible(l, queue[0]);
      }
    }
  }

  class FifoPolicy<K(==, !new)> {
    var queue: seq<K>
    ghost var ledger: Ledgers.Ledger<K>

    ghost predicate Valid()
      reads this
    {
      Faithful(queue, ledger)
    }

    constructor ()
      ensures Valid() && ledger == Ledgers.New(Ledgers.Fifo)
    {
      queue, ledger := [], Ledgers.New(Ledgers.Fifo);
    }

    /** Takes a new key in. Called with a queued key it queues it twice, and only then breaks the policy. */
    method OnInsert(key: K)
      requires Valid()
      modifies this
      ensures queue == old(queue) + [key]
      ensures Valid() <==> key !in old(ledger).uses
      ensures Valid() ==> ledger == Ledgers.OnInsert(old(ledger), key)
    {
      if key !in ledger.uses {
        InsertFaithful(queue, ledger, key);
        ledger := Ledgers.OnInsert(ledger, key);
      } else {
        QueuedTwice(queue, key);
      }
      queue := queue + [key];
    }

    method OnAccess(key: K)
      requires Valid()
      modifies this
      ensures Valid() && ledger == Ledgers.OnAccess(old(ledger), key)
      ensures queue == old(queue)
    {
      Ledgers.AccessIsLawful(ledger, key);
      assert Ledgers.OnAccess(ledger, key).uses == ledger.uses;
      ledger := Ledgers.OnAccess(ledger, key);
    }

    method Evict() returns (victim: Option<K>)
      requires Valid()
      modifies this
      ensures Valid() && (ledger, victim) == Ledgers.Evict(old(ledger))
    {
      FrontIsVictim(queue, ledger);
      if queue == [] {
        Ledgers.TickIsLawful(ledger);
        ledger := Ledgers.Evict(ledger).0;
        return None;
      }
      Ledgers.EvictIs(ledger, queue[0]);
      RemoveFaithful(queue, ledger, 0);
      assert RemoveAt(queue, 0) == queue[1..];
      victim := Some(queue[0]);
      ledger := Ledgers.OnDelete(ledger, queue[0]);
      queue := queue[1..];
    }

    /** Scans for the key and takes it out; it stands in the queue at most once. */
    method OnDelete(key: K)
      requires Valid()
      modifies this
      ensures Valid() && ledger == Ledgers.OnDelete(old(ledger), key)
    {
      var pos := 0;
      while pos < |queue| && queue[pos] != key
        invariant 0 <= pos <= |queue| && key !in queue[..pos]
      {
        pos := pos + 1;
      }
      if pos < |queue| {
        RemoveFaithful(queue, ledger, pos);
        queue := RemoveAt(queue, pos);
      } else {
        assert queue[..pos] == queue;
        Ledgers.DeleteIsLawful(ledger, key);
        assert Without(ledger.uses, key) == ledger.uses;
      }
      ledger := Ledgers.OnDelete(ledger, key);
    }
  }
}
