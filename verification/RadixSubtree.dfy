/** Which paths lie below a path, and which entries a walk over part of a subtree has seen. */
module RadixSubtree {
  import opened Words
  import opened RadixFlat
  import SliceSort

  predicate Under(q: Path, p: Path) {
    q == p || (q.Step? && Under(q.parent, p))
  }

  /** The first hash on the way down from p to q. */
  function Branch(q: Path, p: Path): Word64
    requires Under(q, p) && q != p
  {
    if q.parent == p then q.hash else Branch(q.parent, p)
  }

  function Length(p: Path): nat {
    if p.Root? then 0 else Length(p.parent) + 1
  }

  lemma {:induction false} UnderIsLonger(q: Path, p: Path)
    requires Under(q, p)
    ensures Length(q) >= Length(p) && (q != p ==> Length(q) > Length(p))
  {
    if q != p {
      UnderIsLonger(q.parent, p);
    }
  }

  /** The subtree of child h is the part of p's subtree that starts with h. */
  lemma {:induction false} UnderChild(q: Path, p: Path, h: Word64)
    ensures Under(q, Step(p, h)) <==> Under(q, p) && q != p && Branch(q, p) == h
  {
    if q == p {
      if Under(q, Step(p, h)) {
        UnderIsLonger(q, Step(p, h));
      }
    } else if q.Step? {
      UnderChild(q.parent, p, h);
    }
  }

  lemma {:induction false} AllUnderRoot(q: Path)
    ensures Under(q, Root)
  {
    if q.Step? {
      AllUnderRoot(q.parent);
    }
  }

  /** The backend's keys in p's subtree, leaving out the branches still to do. */
  ghost function Held(flat: Flat, backend: string, p: Path, todo: set<Word64>): set<Key> {
    set k | k in flat && k.backend == backend && Under(k.path, p) && (k.path == p || Branch(k.path, p) !in todo)
  }

  /** All the backend's keys. */
  ghost function Mine(flat: Flat, backend: string): set<Key> {
    set k | k in flat && k.backend == backend
  }

  lemma HeldAtRoot(flat: Flat, backend: string)
    ensures Held(flat, backend, Root, {}) == Mine(flat, backend)
  {
    forall k | k in Mine(flat, backend)
      ensures Under(k.path, Root)
    {
      AllUnderRoot(k.path);
    }
  }

  /** Doing branch h adds exactly the keys of the child's whole subtree, none of them seen before. */
  lemma HeldAfterBranch(flat: Flat, backend: string, p: Path, todo: set<Word64>, h: Word64)
    requires h in todo
    ensures Held(flat, backend, p, todo - {h}) == Held(flat, backend, p, todo) + Held(flat, backend, Step(p, h), {})
    ensures Held(flat, backend, p, todo) !! Held(flat, backend, Step(p, h), {})
  {
    forall k: Key
      ensures Under(k.path, Step(p, h)) <==> Under(k.path, p) && k.path != p && Branch(k.path, p) == h
    {
      UnderChild(k.path, p, h);
    }
  }

  /** The paths of a tree that lie in p's subtree. */
  ghost function Subtree(paths: set<Path>, p: Path): set<Path> {
    set q | q in paths && Under(q, p)
  }

  lemma ChildSubtreeIsSmaller(paths: set<Path>, p: Path, h: Word64)
    requires p in paths
    ensures Subtree(paths, Step(p, h)) < Subtree(paths, p)
  {
    forall q | Under(q, Step(p, h))
      ensures Under(q, p) && q != p
    {
      UnderChild(q, p, h);
    }
    assert p in Subtree(paths, p);
  }

  // ---------------------------------------------------------------------------------------------
  // Removing by index
  // ---------------------------------------------------------------------------------------------

  /** The entries from position `from` on whose positions are not listed. */
  ghost function Kept(entries: seq<CacheEntry>, from: nat, listed: set<int>): seq<CacheEntry>
    requires from <= |entries|
    decreases |entries| - from
  {
    if from == |entries| then []
    else if from in listed then Kept(entries, from + 1, listed)
    else [entries[from]] + Kept(entries, from + 1, listed)
  }

  lemma {:induction false} KeptRun(entries: seq<CacheEntry>, from: nat, to: nat, listed: set<int>)
    requires from <= to <= |entries|
    requires forall j :: from <= j < to ==> j !in listed
    ensures Kept(entries, from, listed) == entries[from..to] + Kept(entries, to, listed)
    decreases |entries| - from
  {
    if from < to {
      KeptRun(entries, from + 1, to, listed);
      var run, tail := entries[from + 1..to], Kept(entries, to, listed);
      assert entries[from..to] == [entries[from]] + run;
      assert ([entries[from]] + run) + tail == [entries[from]] + (run + tail);
    } else {
      assert entries[from..to] == [];
    }
  }

  lemma {:induction false} KeptTail(entries: seq<CacheEntry>, from: nat, listed: set<int>)
    requires from <= |entries|
    requires forall j :: from <= j < |entries| ==> j !in listed
    ensures Kept(entries, from, listed) == entries[from..]
    decreases |entries| - from
  {
    if from < |entries| {
      KeptTail(entries, from + 1, listed);
    }
  }

  /** Removing in descending index order: no removal shifts a position still to be removed, so what
      remains is exactly the entries at the unlisted positions. */
  method RemoveIndices(entries: seq<CacheEntry>, indices: seq<int>) returns (rest: seq<CacheEntry>)
    requires forall k :: 0 <= k < |indices| ==> 0 <= indices[k] < |entries|
    requires forall k, l :: 0 <= k < l < |indices| ==> indices[k] > indices[l]
    ensures rest == Kept(entries, 0, set i | i in indices)
  {
    rest := entries;
    ghost var m, listed := |entries|, set i | i in indices;
    for k := 0 to |indices|
      invariant 0 <= m <= |entries|
      invariant m == if k == 0 then |entries| else indices[k - 1]
      invariant rest == entries[..m] + Kept(entries, m, listed)
    {
      var idx := indices[k];
      assert forall j :: idx < j < m ==> j !in listed;
      KeptRun(entries, idx + 1, m, listed);
      RemoveOne(entries, idx, m, Kept(entries, m, listed));
      rest := rest[..idx] + rest[idx + 1..];
      m := idx;
    }
    KeptFromStart(entries, m, listed);
  }

  lemma RemoveOne(entries: seq<CacheEntry>, idx: nat, m: nat, tail: seq<CacheEntry>)
    requires idx < m <= |entries|
    ensures var rest := entries[..m] + tail;
            rest[..idx] + rest[idx + 1..] == entries[..idx] + (entries[idx + 1..m] + tail)
  {
  }

  lemma KeptFromStart(entries: seq<CacheEntry>, to: nat, listed: set<int>)
    requires to <= |entries| && forall j :: 0 <= j < to ==> j !in listed
    ensures Kept(entries, 0, listed) == entries[..to] + Kept(entries, to, listed)
  {
    KeptRun(entries, 0, to, listed);
    assert entries[0..to] == entries[..to];
  }

  lemma KeptIsCut(entries: seq<CacheEntry>, i: nat)
    requires i < |entries|
    ensures Kept(entries, 0, {i}) == Cut(entries, i)
  {
    KeptFromStart(entries, i, {i});
    KeptTail(entries, i + 1, {i});
    assert Kept(entries, i, {i}) == Kept(entries, i + 1, {i});
  }

  lemma SingletonOrder(a: seq<int>, b: seq<int>)
    requires |a| == 1 && multiset(a) == multiset(b)
    ensures a == b
  {
    assert a[0] in multiset(b);
    assert |multiset(b)| == |b|;
  }

  /** Sorts the listed positions, highest first, and removes them. With one entry per backend there
      is only one position to remove. */
  method RemoveListed(entries: seq<CacheEntry>, indices: seq<int>) returns (rest: seq<CacheEntry>)
    requires |indices| == 1 && 0 <= indices[0] < |entries|
    ensures rest == Cut(entries, indices[0])
  {
    var descending := SliceSort.InsertionSort(indices, (i: int) => -i);
    SingletonOrder(indices, descending);
    assert (set i | i in descending) == {indices[0]};
    rest := RemoveIndices(entries, descending);
    KeptIsCut(entries, indices[0]);
  }

  /** Cutting out a backend's entry drops its key from the flat map and nothing else. */
  lemma CutDrops(entries: seq<CacheEntry>, p: Path, flat: Flat, backend: string)
    requires Carries(entries, p, flat) && Holds(entries, backend)
    ensures Carries(Cut(entries, Find(entries, backend)), p, flat - {Key(p, backend)})
    ensures forall q :: q != p ==> AgreeAt(flat, flat - {Key(p, backend)}, q)
    ensures Others(Cut(entries, Find(entries, backend)), backend) == Others(entries, backend)
  {
    CarriesCut(entries, p, flat, Find(entries, backend));
    CutKeepsOthers(entries, Find(entries, backend));
    forall q | q != p
      ensures AgreeAt(flat, flat - {Key(p, backend)}, q)
    {
      OneKeyLess(flat, Key(p, backend), q);
    }
  }

  lemma OneKeyLess(flat: Flat, k: Key, q: Path)
    requires q != k.path
    ensures AgreeAt(flat, flat - {k}, q)
  {
  }

  // ---------------------------------------------------------------------------------------------
  // Evicting
  // ---------------------------------------------------------------------------------------------

  /** What evicting up to count of a backend's entries may do: drop exactly min(count, all it has)
      of them, each no newer than every one it keeps, and nothing else. */
  ghost predicate Evicted(before: Flat, after: Flat, backend: string, count: int) {
    var gone, mine := before.Keys - after.Keys, Mine(before, backend);
    && after == before - gone
    && gone <= mine
    && |gone| == (if count < 0 then 0 else if count < |mine| then count else |mine|)
    && (forall g, k {:trigger NoNewer(before, g, k)} :: g in gone && k in mine - gone ==> NoNewer(before, g, k))
  }

  predicate NoNewer(flat: Flat, g: Key, k: Key) {
    g in flat && k in flat && flat[g].lastAccess <= flat[k].lastAccess
  }

  /** An eviction in numbers and entry by entry. */
  lemma EvictedEntries(before: Flat, after: Flat, backend: string, count: int)
    requires Evicted(before, after, backend, count)
    ensures var mine := set k | k in before && k.backend == backend;
            |before| - |after| == if count <= 0 then 0 else if count < |mine| then count else |mine|
    ensures forall k :: k in after ==> k in before && after[k] == before[k]
    ensures forall k :: k in before && k.backend != backend ==> k in after
  {
    assert Mine(before, backend) == set k | k in before && k.backend == backend;
    var gone := before.Keys - after.Keys;
    assert after.Keys == before.Keys - gone;
    assert |after.Keys| == |before.Keys| - |gone|;
    assert |after| == |after.Keys| && |before| == |before.Keys|;
  }

  lemma {:induction false} LengthIsHashes(p: Path)
    ensures Length(p) == |HashesOf(p)|
  {
    match p
    case Root =>
    case Step(parent, _) => LengthIsHashes(parent);
  }

  /** In terms of the log: what is dropped was last used no later than anything kept. */
  lemma EvictedByUse(before: Flat, after: Flat, backend: string, count: int, uses: seq<Use>)
    requires Evicted(before, after, backend, count) && StampsFollow(before, uses)
    ensures StampsFollow(after, uses)
    ensures forall gone, kept :: gone in before && gone !in after && kept in after && kept.backend == backend ==>
              UsedNoLater(uses, gone, kept)
  {
    forall gone, kept | gone in before && gone !in after && kept in after && kept.backend == backend
      ensures UsedNoLater(uses, gone, kept)
    {
      assert NoNewer(before, gone, kept);
    }
  }

  lemma NothingEvicted(flat: Flat, backend: string, count: int)
    requires count <= 0 || Mine(flat, backend) == {}
    ensures Evicted(flat, flat, backend, count)
  {
    assert flat.Keys - flat.Keys == {};
    assert flat - {} == flat;
  }
}
