/** What the radix tree stands for: a flat map from (prefix, backend) to cache entry, together with
    the prefixes themselves and the entry list that a tree node keeps for one prefix. */
module RadixFlat {
  import opened Words

  /** A block-hash prefix, built one hash at a time. */
  datatype Path = Root | Step(parent: Path, hash: Word64)

  datatype CacheEntry = CacheEntry(backendID: string, insertedAt: nat, lastAccess: nat, hitCount: int)

  datatype Key = Key(path: Path, backend: string)

  type Flat = map<Key, CacheEntry>

  // ---------------------------------------------------------------------------------------------
  // Paths
  // ---------------------------------------------------------------------------------------------

  /** The path of the first n hashes of a sequence. */
  function PathOf(hashes: seq<Word64>, n: nat): Path
    requires n <= |hashes|
  {
    if n == 0 then Root else Step(PathOf(hashes, n - 1), hashes[n - 1])
  }

  /** The hashes along a path. */
  function HashesOf(p: Path): seq<Word64> {
    match p
    case Root => []
    case Step(parent, h) => HashesOf(parent) + [h]
  }

  /** Paths and hash sequences are the same thing. */
  lemma {:induction false} PathsAreSequences(hashes: seq<Word64>, n: nat)
    requires n <= |hashes|
    ensures HashesOf(PathOf(hashes, n)) == hashes[..n]
  {
    if n > 0 {
      PathsAreSequences(hashes, n - 1);
    }
  }

  lemma {:induction false} SequencesArePaths(p: Path)
    ensures PathOf(HashesOf(p), |HashesOf(p)|) == p
  {
    match p
    case Root =>
    case Step(parent, h) =>
      SequencesArePaths(parent);
      SharedPath(HashesOf(p), HashesOf(parent), |HashesOf(parent)|);
  }

  lemma {:induction false} SharedPath(a: seq<Word64>, b: seq<Word64>, n: nat)
    requires n <= |a| && n <= |b| && a[..n] == b[..n]
    ensures PathOf(a, n) == PathOf(b, n)
  {
    if n > 0 {
      assert a[n - 1] == a[..n][n - 1] && b[n - 1] == b[..n][n - 1];
      assert a[..n - 1] == a[..n][..n - 1] && b[..n - 1] == b[..n][..n - 1];
      SharedPath(a, b, n - 1);
    }
  }

  // ---------------------------------------------------------------------------------------------
  // Entry lists
  // ---------------------------------------------------------------------------------------------

  /** Index of the backend's entry in a node, the length if it has none. */
  function Find(entries: seq<CacheEntry>, backend: string): (i: nat)
    ensures i <= |entries|
    ensures i < |entries| ==> entries[i].backendID == backend
    ensures forall j :: 0 <= j < i ==> entries[j].backendID != backend
  {
    if entries == [] || entries[0].backendID == backend then 0 else Find(entries[1..], backend) + 1
  }

  predicate Holds(entries: seq<CacheEntry>, backend: string) {
    Find(entries, backend) < |entries|
  }

  ghost predicate OnePerBackend(entries: seq<CacheEntry>) {
    forall i :: 0 <= i < |entries| ==> Find(entries, entries[i].backendID) == i
  }

  /** The entries of all other backends, in order. */
  function Others(entries: seq<CacheEntry>, backend: string): seq<CacheEntry>
    decreases |entries|
  {
    if entries == [] then []
    else
      var last := entries[|entries| - 1];
      Others(entries[..|entries| - 1], backend) + (if last.backendID == backend then [] else [last])
  }

  lemma FindUnique(entries: seq<CacheEntry>, backend: string, i: nat)
    requires i <= |entries| && (i < |entries| ==> entries[i].backendID == backend)
    requires forall j :: 0 <= j < i ==> entries[j].backendID != backend
    ensures Find(entries, backend) == i
  {
  }

  /** Replacing an entry by one of the same backend moves nothing. */
  lemma FindAfterUpdate(entries: seq<CacheEntry>, i: nat, e: CacheEntry, backend: string)
    requires i < |entries| && e.backendID == entries[i].backendID
    ensures Find(entries[i := e], backend) == Find(entries, backend)
  {
    FindUnique(entries[i := e], backend, Find(entries, backend));
  }

  lemma FindAfterAppend(entries: seq<CacheEntry>, e: CacheEntry, backend: string)
    ensures Find(entries + [e], backend) ==
            if Holds(entries, backend) then Find(entries, backend)
            else if e.backendID == backend then |entries| else |entries| + 1
  {
    FindUnique(entries + [e], backend,
               if Holds(entries, backend) then Find(entries, backend)
               else if e.backendID == backend then |entries| else |entries| + 1);
  }

  /** The list without position i. */
  function Cut(entries: seq<CacheEntry>, i: nat): seq<CacheEntry>
    requires i < |entries|
  {
    entries[..i] + entries[i + 1..]
  }

  lemma FindAfterCut(entries: seq<CacheEntry>, i: nat, backend: string)
    requires i < |entries| && OnePerBackend(entries)
    ensures var f := Find(entries, backend);
            if f == i then !Holds(Cut(entries, i), backend)
            else Find(Cut(entries, i), backend) == if f < i then f else f - 1
  {
    var f, c := Find(entries, backend), Cut(entries, i);
    forall j | 0 <= j < |c|
      ensures c[j] == entries[if j < i then j else j + 1]
    {
    }
    if f == i {
      forall j | 0 <= j < |c|
        ensures c[j].backendID != backend
      {
        var k := if j < i then j else j + 1;
        assert Find(entries, entries[k].backendID) == k;
      }
      FindUnique(c, backend, |c|);
    } else {
      FindUnique(c, backend, if f < i then f else f - 1);
    }
  }

  lemma {:induction false} CutKeepsOthers(entries: seq<CacheEntry>, i: nat)
    requires i < |entries|
    ensures Others(Cut(entries, i), entries[i].backendID) == Others(entries, entries[i].backendID)
    decreases |entries|
  {
    var front, last, c := entries[..|entries| - 1], entries[|entries| - 1], Cut(entries, i);
    if i == |front| {
      assert c == front;
    } else {
      assert c[..|c| - 1] == Cut(front, i);
      assert c[|c| - 1] == last;
      CutKeepsOthers(front, i);
    }
  }

  /** The entries of all other backends are the list without this one's. */
  lemma OthersAreTheRest(entries: seq<CacheEntry>, i: nat)
    requires OnePerBackend(entries) && i < |entries|
    ensures Others(entries, entries[i].backendID) == entries[..i] + entries[i + 1..]
  {
    FindAfterCut(entries, i, entries[i].backendID);
    assert Find(entries, entries[i].backendID) == i;
    AllOthers(Cut(entries, i), entries[i].backendID);
    CutKeepsOthers(entries, i);
  }

  lemma {:induction false} AllOthers(entries: seq<CacheEntry>, backend: string)
    requires !Holds(entries, backend)
    ensures Others(entries, backend) == entries
    decreases |entries|
  {
    if entries != [] {
      var front := entries[..|entries| - 1];
      assert entries[|entries| - 1].backendID != backend;
      FindUnique(front, backend, |front|);
      AllOthers(front, backend);
      assert entries == front + [entries[|entries| - 1]];
    }
  }

  // ---------------------------------------------------------------------------------------------
  // The flat map
  // ---------------------------------------------------------------------------------------------

  /** What recording (path, backend) does to the flat map. */
  function Recorded(flat: Flat, k: Key, now: nat): Flat {
    flat[k := if k in flat then flat[k].(lastAccess := now, hitCount := flat[k].hitCount + 1)
              else CacheEntry(k.backend, now, now, 1)]
  }

  /** What a touch does: the same, but only to an entry that exists. */
  function Touched(flat: Flat, k: Key, now: nat): Flat {
    if k in flat then Recorded(flat, k, now) else flat
  }

  // ---------------------------------------------------------------------------------------------
  // The log of uses
  // ---------------------------------------------------------------------------------------------

  /** An insertion, or a touch that found its entry. */
  datatype Use = Use(key: Key, time: nat)

  /** When the key was last used. */
  function LastUse(uses: seq<Use>, k: Key): (t: Option<nat>)
    ensures t.None? <==> forall i :: 0 <= i < |uses| ==> uses[i].key != k
    ensures t.Some? ==> exists i: nat :: IsLastUse(uses, k, t.value, i)
    decreases |uses|
  {
    if uses == [] then None
    else
      var front, last := uses[..|uses| - 1], uses[|uses| - 1];
      if last.key == k then assert IsLastUse(uses, k, last.time, |uses| - 1); Some(last.time)
      else
        var t := LastUse(front, k);
        assert forall i: nat :: t.Some? && IsLastUse(front, k, t.value, i) ==> IsLastUse(uses, k, t.value, i);
        t
  }

  /** Use i is the last one of this key, at this time. */
  ghost predicate IsLastUse(uses: seq<Use>, k: Key, t: nat, i: nat) {
    i < |uses| && uses[i] == Use(k, t) && forall j :: i < j < |uses| ==> uses[j].key != k
  }

  /** Every entry is stamped with the time of its last use. */
  ghost predicate StampsFollow(flat: Flat, uses: seq<Use>) {
    forall k :: k in flat ==> LastUse(uses, k) == Some(flat[k].lastAccess)
  }

  lemma StampsAfterUse(flat: Flat, uses: seq<Use>, k: Key, now: nat)
    ensures StampsFollow(flat, uses) ==> StampsFollow(Recorded(flat, k, now), uses + [Use(k, now)])
  {
    assert (uses + [Use(k, now)])[..|uses|] == uses;
  }

  /** The one key was last used no later than the other. */
  ghost predicate UsedNoLater(uses: seq<Use>, a: Key, b: Key) {
    LastUse(uses, a).Some? && LastUse(uses, b).Some? && LastUse(uses, a).value <= LastUse(uses, b).value
  }

  /** d is the length of the longest prefix of q, up to length n, at which the backend has an
      entry; -1 if there is none. */
  function LongestHeld(flat: Flat, q: seq<Word64>, n: nat, backend: string): (d: int)
    requires n <= |q|
    ensures -1 <= d <= n
    ensures d >= 0 ==> Key(PathOf(q, d), backend) in flat
    ensures forall k: nat :: d < k <= n ==> Key(PathOf(q, k), backend) !in flat
  {
    if Key(PathOf(q, n), backend) in flat then n
    else if n == 0 then -1 else LongestHeld(flat, q, n - 1, backend)
  }

  /** The node's entry list holds exactly the flat map's entries for its path, one per backend. */
  ghost predicate Carries(entries: seq<CacheEntry>, p: Path, flat: Flat) {
    && OnePerBackend(entries)
    && (forall b :: Key(p, b) in flat <==> Holds(entries, b))
    && (forall b :: Key(p, b) in flat ==> flat[Key(p, b)] == entries[Find(entries, b)])
  }

  /** Two flat maps agree about a path. */
  ghost predicate AgreeAt(flat: Flat, flat': Flat, p: Path) {
    && (forall b :: Key(p, b) in flat <==> Key(p, b) in flat')
    && (forall b :: Key(p, b) in flat ==> flat[Key(p, b)] == flat'[Key(p, b)])
  }

  lemma CarriesUpdated(entries: seq<CacheEntry>, p: Path, flat: Flat, i: nat, e: CacheEntry)
    requires Carries(entries, p, flat) && i < |entries| && e.backendID == entries[i].backendID
    ensures Carries(entries[i := e], p, flat[Key(p, e.backendID) := e])
  {
    var entries' := entries[i := e];
    assert Find(entries, e.backendID) == i;
    forall b
      ensures Find(entries', b) == Find(entries, b)
    {
      FindAfterUpdate(entries, i, e, b);
    }
    forall j | 0 <= j < |entries'|
      ensures Find(entries', entries'[j].backendID) == j
    {
      assert Find(entries, entries[j].backendID) == j;
    }
  }

  lemma CarriesAppended(entries: seq<CacheEntry>, p: Path, flat: Flat, e: CacheEntry)
    requires Carries(entries, p, flat) && !Holds(entries, e.backendID)
    ensures Carries(entries + [e], p, flat[Key(p, e.backendID) := e])
  {
    var entries' := entries + [e];
    forall b
      ensures Find(entries', b) == if Holds(entries, b) then Find(entries, b)
                                   else if e.backendID == b then |entries| else |entries| + 1
    {
      FindAfterAppend(entries, e, b);
    }
    forall j | 0 <= j < |entries'|
      ensures Find(entries', entries'[j].backendID) == j
    {
      assert j < |entries| ==> Find(entries, entries[j].backendID) == j;
    }
  }

  lemma CarriesCut(entries: seq<CacheEntry>, p: Path, flat: Flat, i: nat)
    requires Carries(entries, p, flat) && i < |entries|
    ensures Carries(Cut(entries, i), p, flat - {Key(p, entries[i].backendID)})
  {
    CutStaysUnique(entries, i);
    var c, gone := Cut(entries, i), entries[i].backendID;
    assert Find(entries, gone) == i;
    forall b
      ensures Holds(c, b) <==> b != gone && Holds(entries, b)
      ensures b != gone && Holds(entries, b) ==> c[Find(c, b)] == entries[Find(entries, b)]
    {
      FindAfterCut(entries, i, b);
    }
  }

  lemma CutStaysUnique(entries: seq<CacheEntry>, i: nat)
    requires OnePerBackend(entries) && i < |entries|
    ensures OnePerBackend(Cut(entries, i))
  {
    var c := Cut(entries, i);
    forall j | 0 <= j < |c|
      ensures Find(c, c[j].backendID) == j
    {
      var k := if j < i then j else j + 1;
      assert c[j] == entries[k] && Find(entries, entries[k].backendID) == k;
      FindAfterCut(entries, i, entries[k].backendID);
    }
  }

  /** The keys whose paths are among the given ones. */
  ghost function KeysWithin(flat: Flat, paths: set<Path>): set<Key> {
    set k | k in flat && k.path in paths
  }

  ghost function KeysOfFirst(entries: seq<CacheEntry>, p: Path, n: nat): set<Key>
    requires n <= |entries|
  {
    set i | 0 <= i < n :: Key(p, entries[i].backendID)
  }

  lemma {:induction false} FirstKeysAreDistinct(entries: seq<CacheEntry>, p: Path, n: nat)
    requires OnePerBackend(entries) && n <= |entries|
    ensures |KeysOfFirst(entries, p, n)| == n
  {
    if n > 0 {
      FirstKeysAreDistinct(entries, p, n - 1);
      NextKeyIsNew(entries, p, n - 1);
      OneMoreKey(entries, p, n - 1);
    }
  }

  lemma NextKeyIsNew(entries: seq<CacheEntry>, p: Path, n: nat)
    requires OnePerBackend(entries) && n < |entries|
    ensures Key(p, entries[n].backendID) !in KeysOfFirst(entries, p, n)
  {
    assert Find(entries, entries[n].backendID) == n;
  }

  lemma OneMoreKey(entries: seq<CacheEntry>, p: Path, n: nat)
    requires n < |entries|
    ensures KeysOfFirst(entries, p, n + 1) == KeysOfFirst(entries, p, n) + {Key(p, entries[n].backendID)}
  {
  }

  /** A node's list has one entry for every key of its path. */
  lemma EntriesAreKeys(entries: seq<CacheEntry>, p: Path, flat: Flat)
    requires Carries(entries, p, flat)
    ensures |KeysWithin(flat, {p})| == |entries|
  {
    FirstKeysAreDistinct(entries, p, |entries|);
    forall k | k in KeysWithin(flat, {p})
      ensures k in KeysOfFirst(entries, p, |entries|)
    {
      assert Key(p, k.backend) in flat && Holds(entries, k.backend);
    }
    forall i | 0 <= i < |entries|
      ensures Key(p, entries[i].backendID) in flat
    {
      assert Find(entries, entries[i].backendID) == i && Holds(entries, entries[i].backendID);
    }
    assert KeysWithin(flat, {p}) == KeysOfFirst(entries, p, |entries|);
  }

  // ---------------------------------------------------------------------------------------------
  // Looking up
  // ---------------------------------------------------------------------------------------------

  /** The result says about backend b what the flat map says about the first n hashes. */
  ghost predicate MatchFits(result: map<string, int>, flat: Flat, q: seq<Word64>, n: nat, b: string)
    requires n <= |q|
  {
    && (b in result <==> LongestHeld(flat, q, n, b) >= 0)
    && (b in result ==> result[b] == LongestHeld(flat, q, n, b))
  }

  lemma SameLongest(flat: Flat, q: seq<Word64>, n: nat, m: nat, b: string)
    requires n <= m <= |q|
    requires forall k: nat :: n < k <= m ==> Key(PathOf(q, k), b) !in flat
    ensures LongestHeld(flat, q, m, b) == LongestHeld(flat, q, n, b)
  {
  }

  /** The backends with an entry at the root match zero blocks. */
  method AtRoot(entries: seq<CacheEntry>) returns (result: map<string, int>)
    ensures forall b :: b in result <==> Holds(entries, b)
    ensures forall b :: b in result ==> result[b] == 0
  {
    result := map[];
    for i := 0 to |entries|
      invariant forall b :: b in result ==> Holds(entries, b) && result[b] == 0
      invariant forall j :: 0 <= j < i ==> entries[j].backendID in result
    {
      FindBounded(entries, i);
      result := result[entries[i].backendID := 0];
    }
  }

  lemma FindBounded(entries: seq<CacheEntry>, i: nat)
    requires i < |entries|
    ensures Find(entries, entries[i].backendID) <= i
  {
  }

  /** One level further down: the backends with an entry here now match `matched` blocks. */
  method Deepen(entries: seq<CacheEntry>, before: map<string, int>, matched: int) returns (result: map<string, int>)
    requires forall b :: b in before ==> before[b] < matched
    ensures forall b :: b in result ==> b in before || Holds(entries, b)
    ensures forall b :: b in before && !Holds(entries, b) ==> b in result && result[b] == before[b]
    ensures forall b :: Holds(entries, b) ==> b in result && result[b] == matched
  {
    result := before;
    ghost var seen: set<string> := {};
    for i := 0 to |entries|
      invariant forall b :: b in seen ==> Holds(entries, b)
      invariant forall j :: 0 <= j < i ==> entries[j].backendID in seen
      invariant result.Keys == before.Keys + seen
      invariant forall b :: b in result ==> result[b] == if b in seen then matched else before[b]
    {
      var b := entries[i].backendID;
      FindBounded(entries, i);
      seen := seen + {b};
      if b !in result || matched > result[b] {
        result := result[b := matched];
      }
    }
  }

  lemma DeeperFits(flat: Flat, q: seq<Word64>, n: nat, entries: seq<CacheEntry>,
                   before: map<string, int>, result: map<string, int>)
    requires 0 < n <= |q| && Carries(entries, PathOf(q, n), flat)
    requires var m := n - 1; forall b :: MatchFits(before, flat, q, m, b)
    requires forall b :: b in result ==> b in before || Holds(entries, b)
    requires forall b :: b in before && !Holds(entries, b) ==> b in result && result[b] == before[b]
    requires forall b :: Holds(entries, b) ==> b in result && result[b] == n
    ensures forall b :: MatchFits(result, flat, q, n, b)
  {
    forall b
      ensures MatchFits(result, flat, q, n, b)
    {
      var m := n - 1;
      assert MatchFits(before, flat, q, m, b);
      assert Key(PathOf(q, n), b) in flat <==> Holds(entries, b);
    }
  }

  /** One turn of Lookup's loop: the n-th node's entries are added to the result. */
  method Level(ghost flat: Flat, ghost q: seq<Word64>, n: nat, entries: seq<CacheEntry>, before: map<string, int>)
    returns (result: map<string, int>)
    requires 0 < n <= |q| && Carries(entries, PathOf(q, n), flat)
    requires var m := n - 1; forall b :: MatchFits(before, flat, q, m, b)
    ensures forall b :: MatchFits(result, flat, q, n, b)
  {
    ghost var m := n - 1;
    forall b | b in before
      ensures before[b] < n
    {
      assert MatchFits(before, flat, q, m, b);
    }
    result := Deepen(entries, before, n);
    DeeperFits(flat, q, n, entries, before, result);
  }

  lemma EmptyCarries(p: Path, flat: Flat)
    requires forall k :: k in flat ==> k.path != p
    ensures Carries([], p, flat)
  {
  }
}
