/** The residency directory as the router runs it: per backend a table of namespaces, per namespace
    a table of prefix keys, every entry stamped with the time and sequence number of its last
    touch. Tables are scanned in arbitrary order. */
module CacheIndex {
  import opened Words
  import opened Fnv
  import opened Recency
  import opened Directory

  /** Stamp of the last touch; lastSeen 0 is Go's zero time and never stamps an entry. */
  datatype Entry = Entry(lastSeen: nat, sequence: nat)

  type Table = map<string, map<Word64, Entry>>

  predicate Has(t: Table, s: Slot) {
    s.ns in t && s.key in t[s.ns]
  }

  function At(t: Table, s: Slot): Entry
    requires Has(t, s)
  {
    t[s.ns][s.key]
  }

  predicate Older(a: Entry, b: Entry) {
    a.lastSeen < b.lastSeen || (a.lastSeen == b.lastSeen && a.sequence < b.sequence)
  }

  /** The table holds exactly the slots of `order`. */
  ghost predicate Lists(t: Table, order: seq<Slot>) {
    && (forall s :: Has(t, s) ==> s in order)
    && (forall s :: s in order ==> Has(t, s))
  }

  /** No stamp is zero or later than the clock and the sequence counter. */
  ghost predicate StampsBounded(t: Table, clock: nat, sequence: nat) {
    forall s :: Has(t, s) ==> 0 < At(t, s).lastSeen <= clock && At(t, s).sequence <= sequence
  }

  /** The i-th slot is stamped earlier than the j-th. */
  ghost predicate StampedBefore(t: Table, order: seq<Slot>, i: nat, j: nat)
    requires i < |order| && j < |order|
  {
    Has(t, order[i]) && Has(t, order[j]) && Older(At(t, order[i]), At(t, order[j]))
  }

  /** Stamps increase along the order. */
  ghost predicate StampsSorted(t: Table, order: seq<Slot>) {
    forall i, j :: 0 <= i < j < |order| ==> StampedBefore(t, order, i, j)
  }

  ghost predicate Represents(t: Table, order: seq<Slot>, clock: nat, sequence: nat) {
    Lists(t, order) && StampsBounded(t, clock, sequence) && StampsSorted(t, order)
  }

  lemma RepresentsDistinct(t: Table, order: seq<Slot>)
    requires StampsSorted(t, order)
    ensures Distinct(order)
  {
    forall i, j | 0 <= i < j < |order|
      ensures order[i] != order[j]
    {
      assert StampedBefore(t, order, i, j);
    }
  }

  /** The table with one slot stamped anew. */
  function Stamped(t: Table, s: Slot, e: Entry): (t': Table)
    requires s.ns in t
    ensures forall o :: Has(t', o) <==> Has(t, o) || o == s
    ensures forall o :: Has(t', o) ==> At(t', o) == if o == s then e else At(t, o)
  {
    var inner: map<Word64, Entry> := t[s.ns];
    t[s.ns := inner[s.key := e]]
  }

  /** Stamping a slot with a newer stamp promotes it in the order. */
  lemma TouchPromotes(t: Table, order: seq<Slot>, clock: nat, sequence: nat, s: Slot, now: nat)
    requires Represents(t, order, clock, sequence) && clock <= now && now > 0 && s.ns in t
    ensures Represents(Stamped(t, s, Entry(now, sequence + 1)), Promote(order, s), now, sequence + 1)
  {
    var t', order' := Stamped(t, s, Entry(now, sequence + 1)), Promote(order, s);
    RepresentsDistinct(t, order);
    PromoteDistinct(order, s);
    forall i, j | 0 <= i < j < |order'|
      ensures StampedBefore(t', order', i, j)
    {
      assert order'[i] in order' && order'[j] in order' && order'[i] != order'[j];
      if j < |order'| - 1 {
        assert order'[j] != order'[|order'| - 1] == s;
        PromoteKeepsOrder(t, order, s, i, j);
      }
    }
  }

  /** An empty namespace table changes nothing. */
  lemma EmptyNamespace(t: Table, order: seq<Slot>, clock: nat, sequence: nat, ns: string)
    requires Represents(t, order, clock, sequence) && ns !in t
    ensures Represents(t[ns := map[]], order, clock, sequence)
  {
    var t' := t[ns := map[]];
    assert forall o :: Has(t', o) <==> Has(t, o);
    forall i, j | 0 <= i < j < |order|
      ensures StampedBefore(t', order, i, j)
    {
      assert StampedBefore(t, order, i, j);
    }
  }

  /** Time may pass. */
  lemma RepresentsLater(t: Table, order: seq<Slot>, clock: nat, sequence: nat, clock': nat, sequence': nat)
    requires Represents(t, order, clock, sequence) && clock <= clock' && sequence <= sequence'
    ensures Represents(t, order, clock', sequence')
  {
  }

  lemma PromoteKeepsOrder(t: Table, order: seq<Slot>, s: Slot, i: nat, j: nat)
    requires StampsSorted(t, order) && i < j < |Promote(order, s)| - 1
    ensures Has(t, Promote(order, s)[i]) && Has(t, Promote(order, s)[j])
    ensures Older(At(t, Promote(order, s)[i]), At(t, Promote(order, s)[j]))
  {
    RepresentsDistinct(t, order);
    if k :| 0 <= k < |order| && order[k] == s {
      PromoteSplit(order, k);
      assert StampedBefore(t, order, if i < k then i else i + 1, if j < k then j else j + 1);
    } else {
      PromoteAbsent(order, s);
      assert StampedBefore(t, order, i, j);
    }
  }

  /** What deleting one slot leaves; an emptied namespace goes with it. */
  function Deleted(t: Table, s: Slot): (t': Table)
    requires Has(t, s)
    ensures forall o :: Has(t', o) <==> Has(t, o) && o != s
    ensures forall o :: Has(t', o) ==> At(t', o) == At(t, o)
  {
    var inner: map<Word64, Entry> := t[s.ns] - {s.key};
    assert forall o :: Has(t, o) && o != s && o.ns == s.ns ==> o.key in inner;
    if inner == map[] then t - {s.ns} else t[s.ns := inner]
  }

  lemma DeleteOldest(t: Table, order: seq<Slot>, clock: nat, sequence: nat)
    requires Represents(t, order, clock, sequence) && order != []
    ensures Represents(Deleted(t, order[0]), order[1..], clock, sequence)
  {
    var t', rest := Deleted(t, order[0]), order[1..];
    RepresentsDistinct(t, order);
    assert order == [order[0]] + rest;
    forall o | o in rest
      ensures Has(t', o)
    {
      var k :| 0 <= k < |rest| && rest[k] == o;
      assert order[k + 1] == o;
    }
    forall i, j | 0 <= i < j < |rest|
      ensures StampedBefore(t', rest, i, j)
    {
      assert StampedBefore(t, order, i + 1, j + 1);
      assert rest[i] in rest && rest[j] in rest;
    }
  }

  /** All slots of the given namespaces. */
  ghost function SlotsOf(t: Table, names: set<string>): set<Slot> {
    set ns, key | ns in names && ns in t && key in t[ns] :: Slot(ns, key)
  }

  lemma SlotsOfOne(t: Table, ns: string)
    requires ns in t
    ensures |SlotsOf(t, {ns})| == |t[ns]|
  {
    KeyedSize(ns, t[ns].Keys);
    assert SlotsOf(t, {ns}) == set key | key in t[ns].Keys :: Slot(ns, key);
  }

  lemma {:induction false} KeyedSize(ns: string, keys: set<Word64>)
    ensures |set key | key in keys :: Slot(ns, key)| == |keys|
  {
    if keys != {} {
      var k :| k in keys;
      KeyedSize(ns, keys - {k});
      assert (set key | key in keys :: Slot(ns, key))
          == (set key | key in keys - {k} :: Slot(ns, key)) + {Slot(ns, k)};
    }
  }

  lemma RepresentedSize(t: Table, order: seq<Slot>, clock: nat, sequence: nat)
    requires Represents(t, order, clock, sequence)
    ensures |SlotsOf(t, t.Keys)| == |order|
  {
    forall s | s in order
      ensures s in SlotsOf(t, t.Keys)
    {
      assert Has(t, s);
    }
    forall s | s in SlotsOf(t, t.Keys)
      ensures s in order
    {
      assert Has(t, s);
    }
    assert SlotsOf(t, t.Keys) == Elements(order);
    RepresentsDistinct(t, order);
    DistinctCount(order);
  }

  class BackendCache {
    ghost const id: string  // the key it is registered under
    const capacity: int
    var entries: Table

    constructor (ghost id: string, capacity: int)
      ensures this.id == id && this.capacity == capacity && entries == map[]
    {
      this.id := id;
      this.capacity := capacity;
      entries := map[];
    }
  }

  datatype Stats = Stats(backendID: string, capacity: int, used: nat)

  class Index {
    var backends: map<string, BackendCache>
    var sequence: nat
    ghost var clock: nat                     // the latest time read so far
    ghost var shelves: map<string, Shelf>    // the abstract directory

    constructor ()
      ensures Valid() && shelves == map[] && clock == 0
    {
      backends := map[];
      sequence := 0;
      clock := 0;
      shelves := map[];
    }

    /** Every backend's table holds exactly what its shelf's history says it should. */
    ghost predicate Valid()
      reads this, backends.Values`entries
    {
      && backends.Keys == shelves.Keys
      && (forall id :: id in backends ==> backends[id].id == id)
      && (forall id :: id in backends ==> Stores(backends[id], shelves[id]))
    }

    ghost predicate Stores(b: BackendCache, shelf: Shelf)
      reads this`clock, this`sequence, b`entries
    {
      b.capacity == shelf.capacity && Represents(b.entries, Kept(shelf), clock, sequence)
    }

    method Register(backendID: string, capacity: int)
      requires Valid()
      modifies this`backends, this`shelves
      ensures Valid()
      ensures shelves == old(shelves)[backendID := Shelf(capacity, [])]
      ensures backendID in backends && fresh(backends[backendID])
      ensures backends == old(backends)[backendID := backends[backendID]]
    {
      var b := new BackendCache(backendID, capacity);
      backends := backends[backendID := b];
      shelves := shelves[backendID := Shelf(capacity, [])];
      EmptyShelf(capacity, clock, sequence);
    }

    /** How many leading blocks of a request the backend's table still has keys for, in that namespace. */
    method Lookup(backendID: string, namespace: string, blocks: Blocks) returns (matched: nat)
      requires Valid()
      ensures backendID !in shelves ==> matched == 0
      ensures backendID in shelves ==> matched == Reach(Kept(shelves[backendID]), namespace, blocks)
      ensures matched <= |blocks|
    {
      if backendID !in backends {
        return 0;
      }
      matched := Walk(backends[backendID].entries, Kept(shelves[backendID]), namespace, blocks);
    }

    /** The loop of Lookup: follow the key chain up to the first missing key. */
    method Walk(table: Table, ghost order: seq<Slot>, namespace: string, blocks: Blocks) returns (matched: nat)
      requires Lists(table, order)
      ensures matched == Reach(order, namespace, blocks)
    {
      var entries: map<Word64, Entry> := if namespace in table then table[namespace] else map[];
      matched := 0;
      var keys := CumulativeKeys(blocks);
      for n := 0 to |keys|
        invariant matched == n
        invariant forall m :: 0 <= m < n ==> SlotAt(namespace, blocks, m) in order
      {
        assert keys[n] in entries <==> Has(table, SlotAt(namespace, blocks, n));
        if keys[n] !in entries {
          break;
        }
        matched := n + 1;
      }
      ReachUnique(order, namespace, blocks, matched);
    }

    /** Adds the batch to the history of one shelf. In the tables that is: stamp all its keys anew, then
        shrink to the bound. */
    method Commit(backendID: string, namespace: string, blocks: Blocks, now: nat)
      requires Valid() && clock <= now && now > 0
      modifies this`sequence, this`clock, this`shelves,
               (if backendID in backends then {backends[backendID]} else {})`entries
      ensures Valid() && clock == now
      ensures backendID !in old(shelves) ==> shelves == old(shelves)
      ensures backendID in old(shelves) ==>
                shelves == old(shelves)[backendID := Committed(old(shelves)[backendID], Batch(namespace, blocks))]
    {
      if backendID !in backends {
        clock := now;
        forall id | id in backends
          ensures Stores(backends[id], shelves[id])
        {
          assert old(Stores(backends[id], shelves[id]));
          RepresentsLater(backends[id].entries, Kept(shelves[id]), old(clock), sequence, clock, sequence);
        }
        return;
      }
      var b := backends[backendID];
      ghost var shelf := shelves[backendID];
      Record(b, shelf, namespace, blocks, now);
      shelves := shelves[backendID := Committed(shelf, Batch(namespace, blocks))];
      forall id | id in backends && id != backendID
        ensures Stores(backends[id], shelves[id])
      {
        assert old(Stores(backends[id], shelves[id]));
        RepresentsLater(backends[id].entries, Kept(shelves[id]), old(clock), old(sequence), clock, sequence);
      }
    }

    /** Commit on a registered backend: touch everything, then evict. */
    method Record(b: BackendCache, ghost shelf: Shelf, namespace: string, blocks: Blocks, now: nat)
      requires b.capacity == shelf.capacity && clock <= now && now > 0
      requires Represents(b.entries, Kept(shelf), clock, sequence)
      modifies this`clock, this`sequence, b`entries
      ensures clock == now && sequence >= old(sequence)
      ensures Represents(b.entries, Kept(Committed(shelf, Batch(namespace, blocks))), clock, sequence)
    {
      RepresentsLater(b.entries, Kept(shelf), clock, sequence, now, sequence);
      clock := now;
      if b.capacity <= 0 {
        return;
      }
      ghost var batch := Batch(namespace, blocks);
      TouchAll(b, namespace, blocks, now, Kept(shelf));
      Shrink(b, PromoteAll(Kept(shelf), BatchSlots(batch)));
      CommitIsLru(shelf, batch);
    }

    /** The first half of Commit: stamp every cumulative prefix, shortest first. */
    method TouchAll(b: BackendCache, namespace: string, blocks: Blocks, now: nat, ghost before: seq<Slot>)
      requires now == clock > 0 && Represents(b.entries, before, clock, sequence)
      modifies this`sequence, b`entries
      ensures sequence == old(sequence) + |blocks|
      ensures Represents(b.entries, PromoteAll(before, BatchSlots(Batch(namespace, blocks))), clock, sequence)
    {
      if namespace !in b.entries {
        EmptyNamespace(b.entries, before, clock, sequence, namespace);
        b.entries := b.entries[namespace := map[]];
      }
      var keys := CumulativeKeys(blocks);
      ghost var slots := BatchSlots(Batch(namespace, blocks));
      for n := 0 to |keys|
        invariant namespace in b.entries
        invariant sequence == old(sequence) + n
        invariant Represents(b.entries, PromoteAll(before, slots[..n]), now, sequence)
      {
        assert slots[..n + 1][..n] == slots[..n];
        Touch(b, Slot(namespace, keys[n]), now, PromoteAll(before, slots[..n]));
      }
      assert slots[..|keys|] == slots;
    }

    /** One round of the touch loop: take the next sequence number and stamp the entry. */
    method Touch(b: BackendCache, s: Slot, now: nat, ghost order: seq<Slot>)
      requires now == clock > 0 && s.ns in b.entries && Represents(b.entries, order, clock, sequence)
      modifies this`sequence, b`entries
      ensures sequence == old(sequence) + 1
      ensures s.ns in b.entries && Represents(b.entries, Promote(order, s), clock, sequence)
    {
      TouchPromotes(b.entries, order, clock, sequence, s, now);
      sequence := sequence + 1;
      var entries: map<Word64, Entry> := b.entries[s.ns];
      if s.key in entries {
        entries := entries[s.key := entries[s.key].(lastSeen := now, sequence := sequence)];
      } else {
        entries := entries[s.key := Entry(now, sequence)];
      }
      b.entries := b.entries[s.ns := entries];
    }

    /** The second half of Commit: evict until the bound holds. */
    method Shrink(b: BackendCache, ghost order: seq<Slot>)
      requires b.capacity > 0
      requires Represents(b.entries, order, clock, sequence)
      modifies b`entries
      ensures Represents(b.entries, Newest(order, b.capacity), clock, sequence)
    {
      ghost var left := order;
      var total := TotalEntries(b, left);
      while total > b.capacity
        invariant Newest(left, b.capacity) == Newest(order, b.capacity)
        invariant Represents(b.entries, left, clock, sequence)
        invariant total == |left|
        decreases |left|
      {
        EvictOldest(b, left);
        left := left[1..];
        total := TotalEntries(b, left);
      }
    }

    method TotalEntries(b: BackendCache, ghost order: seq<Slot>) returns (n: nat)
      requires Represents(b.entries, order, clock, sequence)
      ensures n == |order|
    {
      n := 0;
      var table := b.entries;
      var todo := table.Keys;
      while todo != {}
        invariant todo <= table.Keys
        invariant n == |SlotsOf(table, table.Keys - todo)|
        decreases |todo|
      {
        var ns :| ns in todo;
        SlotsOfOne(table, ns);
        assert SlotsOf(table, table.Keys - (todo - {ns}))
            == SlotsOf(table, table.Keys - todo) + SlotsOf(table, {ns});
        n := n + |table[ns]|;
        todo := todo - {ns};
      }
      assert table.Keys - todo == table.Keys;
      RepresentedSize(b.entries, order, clock, sequence);
    }

    /** Finds the oldest stamp among all tables, scanning them in any order, and deletes that entry. */
    method EvictOldest(b: BackendCache, ghost order: seq<Slot>)
      requires Represents(b.entries, order, clock, sequence)
      modifies b`entries
      ensures order == [] ==> b.entries == old(b.entries)
      ensures order != [] ==> Represents(b.entries, order[1..], clock, sequence)
    {
      var oldNS, oldKey, oldest := ScanForOldest(b.entries, order, clock, sequence);
      if oldest == 0 {
        return;
      }
      DeleteOldest(b.entries, order, clock, sequence);
      b.entries := b.entries[oldNS := b.entries[oldNS] - {oldKey}];
      if b.entries[oldNS] == map[] {
        b.entries := b.entries - {oldNS};
      }
      assert b.entries == Deleted(old(b.entries), order[0]);
    }

    method Usage(backendID: string) returns (stats: Stats)
      requires Valid()
      ensures backendID !in shelves ==> stats == Stats(backendID, 0, 0)
      ensures backendID in shelves ==>
                stats == Stats(backendID, shelves[backendID].capacity, |Kept(shelves[backendID])|)
      ensures stats.capacity > 0 ==> stats.used <= stats.capacity
    {
      if backendID !in backends {
        return Stats(backendID, 0, 0);
      }
      var b := backends[backendID];
      var used := TotalEntries(b, Kept(shelves[backendID]));
      KeptWithinCapacity(shelves[backendID]);
      return Stats(backendID, b.capacity, used);
    }
  }

  lemma EmptyShelf(capacity: int, clock: nat, sequence: nat)
    ensures Kept(Shelf(capacity, [])) == []
    ensures Represents(map[], Kept(Shelf(capacity, [])), clock, sequence)
  {
  }

  /** The scan's candidate is the oldest of the entries seen so far; none before the first. */
  ghost predicate OldestOf(t: Table, seen: set<Slot>, ns: string, key: Word64, oldest: nat, sequence: nat) {
    && (forall s :: s in seen ==> Has(t, s))
    && (oldest == 0 ==> seen == {})
    && (oldest > 0 ==>
          && Slot(ns, key) in seen && At(t, Slot(ns, key)) == Entry(oldest, sequence)
          && forall s :: s in seen ==> !Older(At(t, s), Entry(oldest, sequence)))
  }

  /** The double loop of the eviction scan. It returns the first slot of the order, or the zero
      time when there is no entry at all. */
  method ScanForOldest(table: Table, ghost order: seq<Slot>, ghost clock: nat, ghost counter: nat)
    returns (oldNS: string, oldKey: Word64, oldest: nat)
    requires Represents(table, order, clock, counter)
    ensures oldest == 0 <==> order == []
    ensures order != [] ==> order[0] == Slot(oldNS, oldKey) && Has(table, order[0])
  {
    var sequence: nat;
    oldNS, oldKey, oldest, sequence := "", 0, 0, 0;
    var spaces := table.Keys;
    ghost var seen: set<Slot> := {};
    while spaces != {}
      invariant spaces <= table.Keys
      invariant forall s :: Has(table, s) ==> s in seen || s.ns in spaces
      invariant OldestOf(table, seen, oldNS, oldKey, oldest, sequence)
      decreases |spaces|
    {
      var ns :| ns in spaces;
      spaces := spaces - {ns};
      var keys := table[ns].Keys;
      while keys != {}
        invariant keys <= table[ns].Keys
        invariant forall s :: Has(table, s) ==> s in seen || s.ns in spaces || (s.ns == ns && s.key in keys)
        invariant OldestOf(table, seen, oldNS, oldKey, oldest, sequence)
        decreases |keys|
      {
        var key :| key in keys;
        keys := keys - {key};
        var e := table[ns][key];
        assert Has(table, Slot(ns, key));
        OldestStep(table, order, clock, counter, seen, oldNS, oldKey, oldest, sequence, Slot(ns, key));
        if oldest == 0 || e.lastSeen < oldest || (e.lastSeen == oldest && e.sequence < sequence) {
          oldNS, oldKey, oldest, sequence := ns, key, e.lastSeen, e.sequence;
        }
        seen := seen + {Slot(ns, key)};
      }
    }
    OldestIsFirst(table, order, clock, counter, seen, oldNS, oldKey, oldest, sequence);
  }

  /** Seeing one more entry: the candidate changes exactly when the new one is older, or first. */
  lemma OldestStep(t: Table, order: seq<Slot>, clock: nat, counter: nat, seen: set<Slot>,
                   ns: string, key: Word64, oldest: nat, sequence: nat, s: Slot)
    requires Represents(t, order, clock, counter) && Has(t, s)
    requires OldestOf(t, seen, ns, key, oldest, sequence)
    ensures if oldest == 0 || Older(At(t, s), Entry(oldest, sequence))
            then OldestOf(t, seen + {s}, s.ns, s.key, At(t, s).lastSeen, At(t, s).sequence)
            else OldestOf(t, seen + {s}, ns, key, oldest, sequence)
  {
  }

  lemma OldestIsFirst(t: Table, order: seq<Slot>, clock: nat, counter: nat, seen: set<Slot>,
                      ns: string, key: Word64, oldest: nat, sequence: nat)
    requires Represents(t, order, clock, counter)
    requires OldestOf(t, seen, ns, key, oldest, sequence) && forall o :: Has(t, o) ==> o in seen
    ensures oldest == 0 <==> order == []
    ensures order != [] ==> order[0] == Slot(ns, key) && Has(t, order[0])
  {
    assert oldest > 0 ==> Has(t, Slot(ns, key));
    if order != [] {
      assert order[0] in order && Has(t, order[0]);
      var s := Slot(ns, key);
      assert s in seen && s in order;
      var i :| 0 <= i < |order| && order[i] == s;
      assert i > 0 ==> StampedBefore(t, order, 0, i);
    }
  }
}
