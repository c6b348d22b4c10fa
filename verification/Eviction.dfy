/** The eviction model: per backend a list of cached prefixes of different sizes, least recently
    used first, with a running total and a log of what was evicted. */
module Eviction {
  import opened Words

  type Hashes = seq<Word64>

  datatype Entry = Entry(hashes: Hashes, insertedAt: nat, lastAccess: nat, sizeBlocks: nat)

  /** What identifies an insertion, whatever happens to its access time later. */
  datatype Origin = Origin(hashes: Hashes, insertedAt: nat)

  function OriginOf(e: Entry): Origin {
    Origin(e.hashes, e.insertedAt)
  }

  function Origins(entries: seq<Entry>): (r: seq<Origin>)
    ensures |r| == |entries|
    ensures forall i :: 0 <= i < |r| ==> r[i] == OriginOf(entries[i])
  {
    seq(|entries|, i requires 0 <= i < |entries| => OriginOf(entries[i]))
  }

  function HashesOf(entries: seq<Entry>): (r: seq<Hashes>)
    ensures |r| == |entries|
    ensures forall i :: 0 <= i < |r| ==> r[i] == entries[i].hashes
  {
    seq<Hashes>(|entries|, i requires 0 <= i < |entries| => entries[i].hashes)
  }

  /** Total size of a list of entries. */
  function Total(entries: seq<Entry>): nat
    decreases |entries|
  {
    if entries == [] then 0
    else Total(entries[..|entries| - 1]) + entries[|entries| - 1].sizeBlocks
  }

  lemma {:induction false} TotalConcat(a: seq<Entry>, b: seq<Entry>)
    ensures Total(a + b) == Total(a) + Total(b)
    decreases |b|
  {
    if b == [] {
      assert a + b == a;
    } else {
      assert (a + b)[..|a + b| - 1] == a + b[..|b| - 1];
      TotalConcat(a, b[..|b| - 1]);
    }
  }

  /** How many of the oldest entries must go before size more blocks fit: the smallest number that
      makes room, or all of them. */
  function VictimCount(entries: seq<Entry>, size: nat, capacity: int): (k: nat)
    ensures k <= |entries|
    ensures k == |entries| || Total(entries[k..]) + size <= capacity
    ensures forall j :: 0 <= j < k ==> Total(entries[j..]) + size > capacity
    decreases |entries|
  {
    if Total(entries) + size <= capacity || entries == [] then 0
    else
      var k := VictimCount(entries[1..], size, capacity) + 1;
      assert forall j :: 1 <= j <= |entries| ==> entries[1..][j - 1..] == entries[j..];
      k
  }

  ghost predicate NotNewer(entries: seq<Entry>, i: nat, j: nat)
    requires i < |entries| && j < |entries|
  {
    entries[i].lastAccess <= entries[j].lastAccess
  }

  /** Oldest access first. */
  ghost predicate SortedByAccess(entries: seq<Entry>) {
    forall i, j :: 0 <= i < j < |entries| ==> NotNewer(entries, i, j)
  }

  ghost predicate AccessedBy(entries: seq<Entry>, clock: nat) {
    forall e :: e in entries ==> e.lastAccess <= clock
  }

  /** The entries as the eviction log keeps them: their access time now says when they left. */
  function Marked(entries: seq<Entry>, now: nat): (r: seq<Entry>)
    ensures |r| == |entries|
    ensures forall i :: 0 <= i < |r| ==> r[i] == entries[i].(lastAccess := now)
  {
    seq(|entries|, i requires 0 <= i < |entries| => entries[i].(lastAccess := now))
  }

  /** Two prefixes share at least one block. */
  predicate Shares(a: Hashes, b: Hashes) {
    exists h :: h in a && h in b
  }

  /** The oldest entry that shares a block with the query; the length if there is none. */
  function FirstMatch(entries: seq<Entry>, query: Hashes): (i: nat)
    ensures i <= |entries|
    ensures i < |entries| ==> Shares(entries[i].hashes, query)
    ensures forall j :: 0 <= j < i ==> !Shares(entries[j].hashes, query)
    decreases |entries|
  {
    if entries == [] || Shares(entries[0].hashes, query) then 0
    else FirstMatch(entries[1..], query) + 1
  }

  /** One block in common is enough, wherever it stands: the entry found has one, no older one has. */
  lemma FirstMatchMeans(entries: seq<Entry>, query: Hashes)
    ensures var i := FirstMatch(entries, query);
            && (i < |entries| ==>
                  exists a, b :: 0 <= a < |entries[i].hashes| && 0 <= b < |query| && entries[i].hashes[a] == query[b])
            && (forall j, a, b :: 0 <= j < i && 0 <= a < |entries[j].hashes| && 0 <= b < |query| ==>
                  entries[j].hashes[a] != query[b])
  {
    var i := FirstMatch(entries, query);
    forall j, a, b | 0 <= j < i && 0 <= a < |entries[j].hashes| && 0 <= b < |query|
      ensures entries[j].hashes[a] != query[b]
    {
      assert !Shares(entries[j].hashes, query);
      assert entries[j].hashes[a] in entries[j].hashes && query[b] in query;
    }
  }

  /** All blocks of all entries. */
  function AllBlocks(entries: seq<Entry>): Hashes
    decreases |entries|
  {
    if entries == [] then [] else AllBlocks(entries[..|entries| - 1]) + entries[|entries| - 1].hashes
  }

  /** The total is the number of blocks that the entries hold together. */
  lemma {:induction false} TotalIsBlocks(entries: seq<Entry>)
    requires forall e :: e in entries ==> e.sizeBlocks == |e.hashes|
    ensures Total(entries) == |AllBlocks(entries)|
    decreases |entries|
  {
    if entries != [] {
      TotalIsBlocks(entries[..|entries| - 1]);
      assert entries[|entries| - 1] in entries;
    }
  }

  /** Entry i moved to the recent end with a new access time; all others keep their order. */
  function Promoted(entries: seq<Entry>, i: nat, now: nat): seq<Entry>
    requires i < |entries|
  {
    entries[..i] + entries[i + 1..] + [entries[i].(lastAccess := now)]
  }

  lemma PromotedTotal(entries: seq<Entry>, i: nat, now: nat)
    requires i < |entries|
    ensures Total(Promoted(entries, i, now)) == Total(entries)
  {
    SplitAt(entries, i);
    MovedTotal(entries[..i], entries[i], entries[i + 1..], entries[i].(lastAccess := now));
  }

  lemma SplitAt<T>(s: seq<T>, i: nat)
    requires i < |s|
    ensures s == s[..i] + [s[i]] + s[i + 1..]
  {
  }

  lemma MovedTotal(older: seq<Entry>, e: Entry, newer: seq<Entry>, moved: Entry)
    requires moved.sizeBlocks == e.sizeBlocks
    ensures Total(older + newer + [moved]) == Total(older + [e] + newer)
  {
    TotalAround(older, e, newer);
    TotalConcat(older + newer, [moved]);
    TotalConcat(older, newer);
    TotalOfOne(moved);
  }

  lemma TotalAround(a: seq<Entry>, e: Entry, b: seq<Entry>)
    ensures Total(a + [e] + b) == Total(a) + e.sizeBlocks + Total(b)
  {
    TotalConcat(a + [e], b);
    TotalConcat(a, [e]);
    TotalOfOne(e);
  }

  lemma TotalOfOne(e: Entry)
    ensures Total([e]) == e.sizeBlocks
  {
    assert [e][..0] == [];
  }

  lemma PromotedOrigins(entries: seq<Entry>, i: nat, now: nat)
    requires i < |entries|
    ensures multiset(Origins(Promoted(entries, i, now))) == multiset(Origins(entries))
  {
    var older, newer, o := Origins(entries[..i]), Origins(entries[i + 1..]), OriginOf(entries[i]);
    assert Origins(entries) == older + [o] + newer;
    assert Origins(Promoted(entries, i, now)) == older + newer + [o];
  }

  lemma PromotedSorted(entries: seq<Entry>, i: nat, now: nat)
    requires i < |entries| && SortedByAccess(entries) && AccessedBy(entries, now)
    ensures SortedByAccess(Promoted(entries, i, now)) && AccessedBy(Promoted(entries, i, now), now)
  {
    var p, n := Promoted(entries, i, now), |entries|;
    forall j, k | 0 <= j < k < n
      ensures NotNewer(p, j, k)
    {
      var j', k' := if j < i then j else j + 1, if k < i then k else k + 1;
      if k < n - 1 {
        assert NotNewer(entries, j', k');
      } else {
        assert p[j] == entries[j'] && entries[j'] in entries;
      }
    }
  }

  /** The least index from which on every logged eviction happened at or after `since`. */
  function FirstSince(evicted: seq<Entry>, since: nat): (j: nat)
    ensures j <= |evicted|
    ensures j > 0 ==> evicted[j - 1].lastAccess < since
    ensures forall k :: j <= k < |evicted| ==> evicted[k].lastAccess >= since
    decreases |evicted|
  {
    if evicted == [] || evicted[|evicted| - 1].lastAccess < since then |evicted|
    else FirstSince(evicted[..|evicted| - 1], since)
  }

  /** Hashes of log positions j to k, none if the range is empty. */
  function HashesBetween(log: seq<Entry>, j: nat, k: nat): seq<Hashes>
    requires k <= |log|
  {
    if k <= j then [] else HashesOf(log[j..k])
  }

  lemma HashesBetweenStep(log: seq<Entry>, j: nat, k: nat)
    requires k < |log|
    ensures HashesBetween(log, j, k + 1) == HashesBetween(log, j, k) + (if j <= k then [log[k].hashes] else [])
  {
  }

  /** On a log in order of eviction, being recent enough is a matter of position. */
  lemma FirstSinceDecides(evicted: seq<Entry>, since: nat, k: nat)
    requires SortedByAccess(evicted) && k < |evicted|
    ensures evicted[k].lastAccess >= since <==> FirstSince(evicted, since) <= k
  {
    var j := FirstSince(evicted, since);
    if k + 1 < j {
      assert NotNewer(evicted, k, j - 1);
    }
  }

  /** Running total, LRU order, order of the eviction log, conservation of insertions, and the
      capacity bound that a lone oversize entry may exceed. */
  ghost predicate Consistent(entries: seq<Entry>, used: int, evicted: seq<Entry>, inserted: seq<Origin>,
                             capacity: int, clock: nat) {
    && used == Total(entries)
    && SortedByAccess(entries) && AccessedBy(entries, clock)
    && SortedByAccess(evicted) && AccessedBy(evicted, clock)
    && multiset(Origins(evicted)) + multiset(Origins(entries)) == multiset(inserted)
    && (used <= capacity || |entries| <= 1)
    && (forall e :: e in entries ==> e.sizeBlocks == |e.hashes|)
  }

  lemma SuffixSorted(entries: seq<Entry>, k: nat)
    requires k <= |entries| && SortedByAccess(entries)
    ensures SortedByAccess(entries[k..])
  {
    forall i, j | 0 <= i < j < |entries| - k
      ensures NotNewer(entries[k..], i, j)
    {
      assert NotNewer(entries, i + k, j + k);
    }
  }

  lemma LatestAppended(entries: seq<Entry>, more: seq<Entry>, now: nat)
    requires SortedByAccess(entries) && AccessedBy(entries, now)
    requires forall e :: e in more ==> e.lastAccess == now
    ensures SortedByAccess(entries + more) && AccessedBy(entries + more, now)
  {
    var all := entries + more;
    forall i, j | 0 <= i < j < |all|
      ensures NotNewer(all, i, j)
    {
      if j < |entries| {
        assert NotNewer(entries, i, j);
      } else {
        assert all[j] in more;
        assert all[i] in entries || all[i] in more;
      }
    }
  }

  /** Inserting a prefix after evicting k victims keeps the cache consistent. */
  lemma InsertKeepsConsistent(entries: seq<Entry>, used: int, evicted: seq<Entry>, inserted: seq<Origin>,
                              capacity: int, clock: nat, k: nat, e: Entry)
    requires Consistent(entries, used, evicted, inserted, capacity, clock) && clock <= e.lastAccess
    requires k == VictimCount(entries, e.sizeBlocks, capacity) && e.sizeBlocks == |e.hashes|
    ensures Consistent(entries[k..] + [e], Total(entries[k..]) + e.sizeBlocks,
                       evicted + Marked(entries[..k], e.lastAccess), inserted + [OriginOf(e)],
                       capacity, e.lastAccess)
  {
    SuffixSorted(entries, k);
    LatestAppended(entries[k..], [e], e.lastAccess);
    LatestAppended(evicted, Marked(entries[..k], e.lastAccess), e.lastAccess);
    TotalConcat(entries[k..], [e]);
    InsertKeepsOrigins(entries, evicted, inserted, k, e);
  }

  lemma InsertKeepsOrigins(entries: seq<Entry>, evicted: seq<Entry>, inserted: seq<Origin>, k: nat, e: Entry)
    requires k <= |entries| && multiset(Origins(evicted)) + multiset(Origins(entries)) == multiset(inserted)
    ensures multiset(Origins(evicted + Marked(entries[..k], e.lastAccess)))
            + multiset(Origins(entries[k..] + [e])) == multiset(inserted + [OriginOf(e)])
  {
    var gone, left := Origins(entries[..k]), Origins(entries[k..]);
    assert Origins(entries) == gone + left;
    assert Origins(evicted + Marked(entries[..k], e.lastAccess)) == Origins(evicted) + gone;
    assert Origins(entries[k..] + [e]) == left + [OriginOf(e)];
  }

  lemma PromotionKeepsConsistent(entries: seq<Entry>, used: int, evicted: seq<Entry>, inserted: seq<Origin>,
                                 capacity: int, clock: nat, i: nat, now: nat)
    requires Consistent(entries, used, evicted, inserted, capacity, clock) && clock <= now && i < |entries|
    ensures Consistent(Promoted(entries, i, now), used, evicted, inserted, capacity, now)
  {
    PromotedTotal(entries, i, now);
    PromotedOrigins(entries, i, now);
    PromotedSorted(entries, i, now);
    assert entries[i] in entries;
  }

  class BackendCache {
    ghost const id: string
    const capacity: int
    var entries: seq<Entry>
    var used: int
    var evicted: seq<Entry>
    ghost var inserted: seq<Origin>  // everything inserted since registration

    constructor (ghost id: string, capacity: int)
      ensures this.id == id && this.capacity == capacity
      ensures entries == [] && used == 0 && evicted == [] && inserted == []
    {
      this.id := id;
      this.capacity := capacity;
      entries, used, evicted, inserted := [], 0, [], [];
    }

    ghost predicate Valid(clock: nat)
      reads this
    {
      Consistent(entries, used, evicted, inserted, capacity, clock)
    }

    /** The whole effect of an access: the oldest entry that shares a block with the query, if any, is
        stamped with the time and moved to the recent end; the rest keep their order. */
    twostate predicate LookedFor(query: Hashes, now: nat)
      reads this
    {
      var before, i := old(entries), FirstMatch(old(entries), query);
      && (i == |before| ==> entries == before)
      && (i < |before| ==> entries == before[..i] + before[i + 1..] + [before[i].(lastAccess := now)])
      && evicted == old(evicted) && inserted == old(inserted) && used == old(used)
    }

    /** The whole effect of an insertion: the shortest prefix of victims that makes room is moved to
        the log and returned, oldest first; the new entry is the most recent one; and the total is
        within capacity unless that entry is alone. */
    twostate predicate TookIn(hashes: Hashes, now: nat, evictedHashes: seq<Hashes>)
      reads this
    {
      var k := VictimCount(old(entries), |hashes|, capacity);
      && evictedHashes == HashesOf(old(entries)[..k])
      && entries == old(entries)[k..] + [Entry(hashes, now, now, |hashes|)]
      && evicted == old(evicted) + Marked(old(entries)[..k], now)
      && inserted == old(inserted) + [Origin(hashes, now)]
      && (used <= capacity || |entries| == 1)
    }
  }

  class Model {
    var backends: map<string, BackendCache>
    ghost var clock: nat

    constructor ()
      ensures Valid() && backends == map[] && clock == 0
    {
      backends := map[];
      clock := 0;
    }

    ghost predicate Valid()
      reads this, backends.Values
    {
      && (forall id :: id in backends ==> backends[id].id == id)
      && (forall id :: id in backends ==> backends[id].Valid(clock))
    }

    method Register(backendID: string, capacity: int)
      requires Valid()
      modifies this`backends
      ensures Valid()
      ensures backendID in backends && fresh(backends[backendID])
      ensures backends == old(backends)[backendID := backends[backendID]]
      ensures backends[backendID].capacity == capacity
      ensures backends[backendID].entries == []
      ensures backends[backendID].evicted == [] && backends[backendID].inserted == []
    {
      var b := new BackendCache(backendID, capacity);
      backends := backends[backendID := b];
    }

    /** Inserts a prefix, evicting least recently used entries until it fits or none is left.
        Returns the hashes of the evicted entries, oldest first. */
    method RecordInsert(backendID: string, hashes: Hashes, now: nat) returns (evictedHashes: seq<Hashes>)
      requires Valid() && clock <= now
      modifies this`clock, if backendID in backends then {backends[backendID]} else {}
      ensures Valid() && clock == now
      ensures backendID !in backends ==> evictedHashes == []
      ensures backendID in backends ==> backends[backendID].TookIn(hashes, now, evictedHashes)
    {
      StaysValid(now);
      clock := now;
      if backendID !in backends {
        return [];
      }
      evictedHashes := InsertInto(backends[backendID], hashes, old(clock), now);
    }

    /** RecordInsert on a registered backend. */
    method InsertInto(bc: BackendCache, hashes: Hashes, ghost clock: nat, now: nat) returns (evictedHashes: seq<Hashes>)
      requires bc.Valid(clock) && clock <= now
      modifies bc
      ensures bc.Valid(now)
      ensures bc.TookIn(hashes, now, evictedHashes)
    {
      var entry := Entry(hashes, now, now, |hashes|);
      ghost var k := VictimCount(bc.entries, |hashes|, bc.capacity);
      InsertKeepsConsistent(bc.entries, bc.used, bc.evicted, bc.inserted, bc.capacity, clock, k, entry);
      evictedHashes := MakeRoom(bc, |hashes|, now);
      bc.entries := bc.entries + [entry];
      bc.used := bc.used + entry.sizeBlocks;
      bc.inserted := bc.inserted + [OriginOf(entry)];
    }

    /** The eviction loop of RecordInsert. */
    method MakeRoom(bc: BackendCache, size: nat, now: nat) returns (evictedHashes: seq<Hashes>)
      requires bc.used == Total(bc.entries)
      modifies bc`entries, bc`used, bc`evicted
      ensures var k := VictimCount(old(bc.entries), size, bc.capacity);
              && evictedHashes == HashesOf(old(bc.entries)[..k])
              && bc.entries == old(bc.entries)[k..]
              && bc.evicted == old(bc.evicted) + Marked(old(bc.entries)[..k], now)
              && bc.used == Total(bc.entries)
    {
      evictedHashes := [];
      ghost var all, log, k := bc.entries, bc.evicted, 0;
      while bc.used + size > bc.capacity && |bc.entries| > 0
        invariant 0 <= k <= |all| && bc.entries == all[k..]
        invariant bc.used == Total(bc.entries)
        invariant forall j :: 0 <= j < k ==> Total(all[j..]) + size > bc.capacity
        invariant evictedHashes == HashesOf(all[..k])
        invariant bc.evicted == log + Marked(all[..k], now)
        decreases |bc.entries|
      {
        var victim := bc.entries[0];
        OneMoreVictim(all, k, now);
        bc.entries := bc.entries[1..];
        bc.used := bc.used - victim.sizeBlocks;
        bc.evicted := bc.evicted + [victim.(lastAccess := now)];
        evictedHashes := evictedHashes + [victim.hashes];
        k := k + 1;
      }
      VictimCountUnique(all, size, bc.capacity, k);
    }

    /** Marks a hit: the oldest entry that shares a block with the query becomes most recent. */
    method RecordAccess(backendID: string, hashes: Hashes, now: nat)
      requires Valid() && clock <= now
      modifies this`clock, if backendID in backends then {backends[backendID]} else {}
      ensures Valid() && clock == now
      ensures backendID in backends ==> backends[backendID].LookedFor(hashes, now)
    {
      StaysValid(now);
      clock := now;
      if backendID !in backends {
        return;
      }
      var bc := backends[backendID];
      AccessIn(bc, hashes, old(clock), now);
      assert bc.LookedFor(hashes, now);
    }

    /** RecordAccess on a registered backend. */
    method AccessIn(bc: BackendCache, hashes: Hashes, ghost clock: nat, now: nat)
      requires bc.Valid(clock) && clock <= now
      modifies bc`entries
      ensures bc.Valid(now)
      ensures bc.LookedFor(hashes, now)
    {
      var entries := bc.entries;
      for i := 0 to |entries|
        invariant bc.entries == entries
        invariant forall j :: 0 <= j < i ==> !Shares(entries[j].hashes, hashes)
      {
        var e := entries[i];
        var hit := MatchesHashes(e.hashes, hashes);
        if hit {
          FirstMatchUnique(entries, hashes, i);
          PromotionKeepsConsistent(entries, bc.used, bc.evicted, bc.inserted, bc.capacity, clock, i, now);
          bc.entries := bc.entries[..i] + bc.entries[i + 1..];
          bc.entries := bc.entries + [e.(lastAccess := now)];
          return;
        }
      }
      FirstMatchUnique(entries, hashes, |entries|);
    }

    method MatchesHashes(entryHashes: Hashes, query: Hashes) returns (hit: bool)
      ensures hit == Shares(entryHashes, query)
    {
      for i := 0 to |entryHashes|
        invariant forall j :: 0 <= j < i ==> entryHashes[j] !in query
      {
        if entryHashes[i] in query {
          return true;
        }
      }
      return false;
    }

    /** The hashes of everything evicted at or after `since`: exactly a suffix of the eviction log. */
    method EvictedSince(backendID: string, since: nat) returns (result: seq<Hashes>)
      requires Valid()
      ensures backendID !in backends ==> result == []
      ensures backendID in backends ==>
                result == HashesOf(backends[backendID].evicted[FirstSince(backends[backendID].evicted, since)..])
    {
      if backendID !in backends {
        return [];
      }
      result := CollectSince(backends[backendID].evicted, since);
    }

    /** The filtering loop of EvictedSince. */
    method CollectSince(log: seq<Entry>, since: nat) returns (result: seq<Hashes>)
      requires SortedByAccess(log)
      ensures result == HashesOf(log[FirstSince(log, since)..])
    {
      result := [];
      ghost var j := FirstSince(log, since);
      for k := 0 to |log|
        invariant result == HashesBetween(log, j, k)
      {
        FirstSinceDecides(log, since, k);
        HashesBetweenStep(log, j, k);
        if log[k].lastAccess >= since {
          result := result + [log[k].hashes];
        }
      }
      assert log[j..|log|] == log[j..];
    }

    /** Every backend stays valid as the clock moves on. */
    lemma StaysValid(now: nat)
      requires Valid() && clock <= now
      ensures forall id :: id in backends ==> backends[id].Valid(now)
    {
    }
  }

  lemma OneMoreVictim(all: seq<Entry>, k: nat, now: nat)
    requires k < |all|
    ensures all[k..][1..] == all[k + 1..] && Total(all[k..]) == all[k].sizeBlocks + Total(all[k + 1..])
    ensures HashesOf(all[..k + 1]) == HashesOf(all[..k]) + [all[k].hashes]
    ensures Marked(all[..k + 1], now) == Marked(all[..k], now) + [all[k].(lastAccess := now)]
  {
    var rest := all[k + 1..];
    assert all[k..] == [all[k]] + rest;
    TotalConcat([all[k]], rest);
    TotalOfOne(all[k]);
  }

  lemma VictimCountUnique(entries: seq<Entry>, size: nat, capacity: int, k: nat)
    requires k <= |entries| && (k == |entries| || Total(entries[k..]) + size <= capacity)
    requires forall j :: 0 <= j < k ==> Total(entries[j..]) + size > capacity
    ensures VictimCount(entries, size, capacity) == k
  {
  }

  lemma FirstMatchUnique(entries: seq<Entry>, query: Hashes, i: nat)
    requires i <= |entries| && (i < |entries| ==> Shares(entries[i].hashes, query))
    requires forall j :: 0 <= j < i ==> !Shares(entries[j].hashes, query)
    ensures FirstMatch(entries, query) == i
  {
  }
}
