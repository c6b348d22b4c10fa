/** What the residency directory of one backend means: a function of the batches committed to it
    since it was registered. The class in CacheIndex is proved to hold exactly this; here are the
    theorems about it. */
module Directory {
  import opened Words
  import opened Fnv
  import opened Recency
  import opened Tokenizer

  type Blocks = seq<Word64>

  /** One directory entry: a prefix key inside a namespace. */
  datatype Slot = Slot(ns: string, key: Word64)

  /** One commit. */
  datatype Batch = Batch(ns: string, blocks: Blocks)

  /** A backend's capacity and everything committed to it since it was registered. */
  datatype Shelf = Shelf(capacity: int, history: seq<Batch>)

  /** The slot of the prefix that ends with block n. */
  function SlotAt(ns: string, blocks: Blocks, n: nat): Slot
    requires n < |blocks|
  {
    Slot(ns, PrefixKey(blocks[..n + 1]))
  }

  /** The slots a commit touches, shortest prefix first. */
  function BatchSlots(b: Batch): (slots: seq<Slot>)
    ensures |slots| == |b.blocks|
  {
    seq(|b.blocks|, n requires 0 <= n < |b.blocks| => SlotAt(b.ns, b.blocks, n))
  }

  /** Every touch of a history, in order. */
  function Touches(history: seq<Batch>): seq<Slot>
    decreases |history|
  {
    if history == [] then []
    else Touches(history[..|history| - 1]) + BatchSlots(history[|history| - 1])
  }

  /** All slots ever touched, least recently touched first. */
  function Ranking(history: seq<Batch>): seq<Slot> {
    PromoteAll([], Touches(history))
  }

  /** The directory's contents, oldest first. */
  function Kept(shelf: Shelf): seq<Slot> {
    if shelf.capacity <= 0 then [] else Newest(Ranking(shelf.history), shelf.capacity)
  }

  /** What a commit does to a shelf: backends without capacity ignore it. */
  function Committed(shelf: Shelf, b: Batch): Shelf {
    if shelf.capacity <= 0 then shelf else shelf.(history := shelf.history + [b])
  }

  /** m is the number of leading prefixes of blocks that are all held. */
  ghost predicate IsReach(held: seq<Slot>, ns: string, blocks: Blocks, m: nat) {
    && m <= |blocks|
    && (forall n :: 0 <= n < m ==> SlotAt(ns, blocks, n) in held)
    && (m < |blocks| ==> SlotAt(ns, blocks, m) !in held)
  }

  function ReachFrom(held: seq<Slot>, ns: string, blocks: Blocks, m: nat): (r: nat)
    requires m <= |blocks|
    requires forall n :: 0 <= n < m ==> SlotAt(ns, blocks, n) in held
    ensures IsReach(held, ns, blocks, r)
    decreases |blocks| - m
  {
    if m < |blocks| && SlotAt(ns, blocks, m) in held then ReachFrom(held, ns, blocks, m + 1) else m
  }

  /** The lookup result: length of the longest known prefix. */
  function Reach(held: seq<Slot>, ns: string, blocks: Blocks): (r: nat)
    ensures IsReach(held, ns, blocks, r)
  {
    ReachFrom(held, ns, blocks, 0)
  }

  lemma ReachUnique(held: seq<Slot>, ns: string, blocks: Blocks, m: nat)
    requires IsReach(held, ns, blocks, m)
    ensures Reach(held, ns, blocks) == m
  {
  }

  // ---------------------------------------------------------------------------------------------
  // Exact LRU
  // ---------------------------------------------------------------------------------------------

  lemma RankingFacts(history: seq<Batch>)
    ensures Distinct(Ranking(history))
    ensures forall s :: s in Ranking(history) ==> s in Touches(history)
    ensures forall s :: s in Touches(history) ==> s in Ranking(history)
    ensures |Ranking(history)| == |Elements(Touches(history))|
  {
    var none: seq<Slot> := [];
    PromoteAllDistinct(none, Touches(history));
    DistinctCount(Ranking(history));
    assert Elements(Ranking(history)) == Elements(Touches(history));
  }

  lemma KeptWithinCapacity(shelf: Shelf)
    ensures |Kept(shelf)| <= if shelf.capacity > 0 then shelf.capacity else 0
  {
    RankingFacts(shelf.history);
    if shelf.capacity > 0 {
      NewestDistinct(Ranking(shelf.history), shelf.capacity);
    }
  }

  lemma KeptWasTouched(shelf: Shelf, s: Slot)
    requires s in Kept(shelf)
    ensures s in Touches(shelf.history)
  {
    RankingFacts(shelf.history);
    NewestDistinct(Ranking(shelf.history), shelf.capacity);
  }

  /** The directory holds exactly the min(capacity, distinct) most recently touched slots: the
      count is right, nothing is held twice, and a slot is held exactly when it was touched and
      at most `capacity` distinct slots were touched from its last touch onwards. */
  lemma ExactLru(shelf: Shelf, s: Slot)
    requires shelf.capacity > 0
    ensures Distinct(Kept(shelf))
    ensures |Kept(shelf)| == (var distinct := |Elements(Touches(shelf.history))|;
                              if distinct <= shelf.capacity then distinct else shelf.capacity)
    ensures s in Kept(shelf) <==>
            (s in Touches(shelf.history) &&
             |Elements(Touches(shelf.history)[LastTouch(Touches(shelf.history), s)..])| <= shelf.capacity)
  {
    var xs := Touches(shelf.history);
    RankingFacts(shelf.history);
    NewestDistinct(Ranking(shelf.history), shelf.capacity);
    if s in xs {
      StackDistance(xs, s, shelf.capacity);
    }
  }

  /** One commit touches its whole batch and keeps the newest. */
  lemma CommitKeepsNewest(shelf: Shelf, b: Batch)
    requires shelf.capacity > 0
    ensures Kept(Committed(shelf, b)) == Newest(PromoteAll(Kept(shelf), BatchSlots(b)), shelf.capacity)
  {
    var h := shelf.history + [b];
    assert h[..|h| - 1] == shelf.history;
    PromoteAllConcat([], Touches(shelf.history), BatchSlots(b));
    RankingFacts(shelf.history);
    NewestPromoteAll(Ranking(shelf.history), BatchSlots(b), shelf.capacity);
  }

  /** Committing a batch and evicting once equals touching its keys one at a time in a cache that
      evicts after every touch. */
  lemma CommitIsLru(shelf: Shelf, b: Batch)
    requires shelf.capacity > 0
    ensures Kept(Committed(shelf, b)) == Newest(PromoteAll(Kept(shelf), BatchSlots(b)), shelf.capacity)
    ensures Kept(Committed(shelf, b)) == TouchEach(Kept(shelf), BatchSlots(b), shelf.capacity)
  {
    CommitKeepsNewest(shelf, b);
    RankingFacts(shelf.history);
    NewestDistinct(Ranking(shelf.history), shelf.capacity);
    BatchEqualsOneAtATime(Kept(shelf), BatchSlots(b), shelf.capacity);
  }

  /** After any history the directory equals the textbook cache fed one touch at a time. */
  lemma WholeRunIsLru(shelf: Shelf)
    requires shelf.capacity > 0
    ensures Kept(shelf) == TouchEach([], Touches(shelf.history), shelf.capacity)
  {
    var none: seq<Slot> := [];
    BatchEqualsOneAtATime(none, Touches(shelf.history), shelf.capacity);
  }

  // ---------------------------------------------------------------------------------------------
  // The orphan frontier
  // ---------------------------------------------------------------------------------------------

  /** Two different non-empty prefixes with the same key. */
  ghost predicate Collide(a: Blocks, m: nat, b: Blocks, n: nat) {
    0 < m <= |a| && 0 < n <= |b| && a[..m] != b[..n] && PrefixKey(a[..m]) == PrefixKey(b[..n])
  }

  /** No two prefixes of these sequences collide. */
  ghost predicate CollisionFree(all: set<Blocks>) {
    forall a, b, m: nat, n: nat :: a in all && b in all ==> !Collide(a, m, b, n)
  }

  lemma SameKeySamePrefix(all: set<Blocks>, a: Blocks, b: Blocks, m: nat, n: nat)
    requires CollisionFree(all) && a in all && b in all
    requires 0 < m <= |a| && 0 < n <= |b| && PrefixKey(a[..m]) == PrefixKey(b[..n])
    ensures m == n && a[..m] == b[..n]
  {
    assert !Collide(a, m, b, n);
    assert |a[..m]| == m && |b[..n]| == n;
  }

  /** The block sequences of a history. */
  ghost function Sequences(history: seq<Batch>): set<Blocks> {
    set i | 0 <= i < |history| :: history[i].blocks
  }

  /** Position in the touch sequence where commit c begins. */
  function Start(history: seq<Batch>, c: nat): nat
    requires c <= |history|
  {
    |Touches(history[..c])|
  }

  /** The most recent commit that touched s. */
  function LastCommit(history: seq<Batch>, s: Slot): (c: nat)
    requires s in Touches(history)
    ensures c < |history| && s in BatchSlots(history[c])
    ensures forall d :: c < d < |history| ==> s !in BatchSlots(history[d])
    decreases |history|
  {
    if s in BatchSlots(history[|history| - 1]) then |history| - 1
    else LastCommit(history[..|history| - 1], s)
  }

  /** Index of the commit that touched s last, or -1 for a slot never touched. */
  function Owner(history: seq<Batch>, s: Slot): int {
    if s in Touches(history) then LastCommit(history, s) else -1
  }

  lemma {:induction false} TouchOfCommit(history: seq<Batch>, c: nat, n: nat)
    requires c < |history| && n < |history[c].blocks|
    ensures Start(history, c) + n < Start(history, c + 1) <= |Touches(history)|
    ensures Touches(history)[Start(history, c) + n] == SlotAt(history[c].ns, history[c].blocks, n)
    decreases |history|
  {
    var front := history[..|history| - 1];
    if c == |history| - 1 {
      assert history[..c] == front && history[..c + 1] == history;
    } else {
      TouchOfCommit(front, c, n);
      assert front[..c] == history[..c] && front[..c + 1] == history[..c + 1];
    }
  }

  lemma {:induction false} LastTouchInCommit(history: seq<Batch>, s: Slot)
    requires s in Touches(history)
    ensures var c := LastCommit(history, s);
            Start(history, c) <= LastTouch(Touches(history), s) < Start(history, c + 1)
    decreases |history|
  {
    var front, last := history[..|history| - 1], BatchSlots(history[|history| - 1]);
    if s in last {
      assert history[..|history|] == history;
      LastTouchWithin(Touches(front), last, s);
    } else {
      assert s in Touches(front);
      LastTouchBefore(Touches(front), last, s);
      LastTouchInCommit(front, s);
      var c := LastCommit(front, s);
      assert front[..c] == history[..c] && front[..c + 1] == history[..c + 1];
    }
  }

  lemma {:induction false} StartMonotone(history: seq<Batch>, c: nat, d: nat)
    requires c <= d <= |history|
    ensures Start(history, c) <= Start(history, d)
    decreases d - c
  {
    if c < d {
      StartMonotone(history, c, d - 1);
      assert history[..d][..d - 1] == history[..d - 1];
    }
  }

  /** A slot whose last touch lies within commit c was last touched by commit c. */
  lemma OwnerOfTouch(history: seq<Batch>, s: Slot, c: nat)
    requires s in Touches(history) && c < |history|
    requires Start(history, c) <= LastTouch(Touches(history), s) < Start(history, c + 1)
    ensures LastCommit(history, s) == c
  {
    LastTouchInCommit(history, s);
    var d := LastCommit(history, s);
    if d < c {
      StartMonotone(history, d + 1, c);
    } else if c < d {
      StartMonotone(history, c + 1, d);
    }
  }

  ghost predicate Evicted(shelf: Shelf) {
    shelf.capacity > 0 && |Ranking(shelf.history)| > shelf.capacity
  }

  /** The most recently touched slot among those no longer held. */
  function Frontier(shelf: Shelf): Slot
    requires Evicted(shelf)
  {
    Ranking(shelf.history)[|Ranking(shelf.history)| - shelf.capacity - 1]
  }

  /** Prefix p is held although some shorter prefix of it is not. */
  ghost predicate Orphan(shelf: Shelf, ns: string, p: Blocks) {
    && p != []
    && SlotAt(ns, p, |p| - 1) in Kept(shelf)
    && exists j :: 0 <= j < |p| - 1 && SlotAt(ns, p, j) !in Kept(shelf)
  }

  /** Sequences that share a prefix share the slots inside it. */
  lemma SharedSlot(ns: string, a: Blocks, b: Blocks, k: nat, j: nat)
    requires j < k <= |a| && k <= |b| && a[..k] == b[..k]
    ensures SlotAt(ns, a, j) == SlotAt(ns, b, j)
  {
    assert a[..j + 1] == a[..k][..j + 1] && b[..j + 1] == b[..k][..j + 1];
  }

  /** If a held prefix was last touched by commit c, that commit touched every shorter prefix of
      it, just before. */
  lemma ChainOfLastCommit(shelf: Shelf, ns: string, p: Blocks, j: nat)
    requires j < |p|
    requires CollisionFree(Sequences(shelf.history) + {p})
    requires SlotAt(ns, p, |p| - 1) in Touches(shelf.history)
    ensures SlotAt(ns, p, j) in Touches(shelf.history)
    ensures Start(shelf.history, LastCommit(shelf.history, SlotAt(ns, p, |p| - 1)))
            <= LastTouch(Touches(shelf.history), SlotAt(ns, p, j))
  {
    var c := OwnerHasPrefix(shelf.history, ns, p);
    assert p[..|p|] == p;
    SharedSlot(ns, p, shelf.history[c].blocks, |p|, j);
    TouchedSince(shelf.history, c, j);
  }

  /** The commit that last touched the key of p committed a sequence beginning with p. */
  lemma OwnerHasPrefix(history: seq<Batch>, ns: string, p: Blocks) returns (c: nat)
    requires p != [] && CollisionFree(Sequences(history) + {p})
    requires SlotAt(ns, p, |p| - 1) in Touches(history)
    ensures c < |history| && c == LastCommit(history, SlotAt(ns, p, |p| - 1)) && history[c].ns == ns
    ensures |p| <= |history[c].blocks| && history[c].blocks[..|p|] == p
  {
    var s := SlotAt(ns, p, |p| - 1);
    c := LastCommit(history, s);
    var b := history[c];
    var m :| 0 <= m < |b.blocks| && BatchSlots(b)[m] == s;
    assert b.blocks in Sequences(history) && p[..|p|] == p;
    SameKeySamePrefix(Sequences(history) + {p}, p, b.blocks, |p|, m + 1);
  }

  lemma TouchedSince(history: seq<Batch>, c: nat, n: nat)
    requires c < |history| && n < |history[c].blocks|
    ensures SlotAt(history[c].ns, history[c].blocks, n) in Touches(history)
    ensures Start(history, c) <= LastTouch(Touches(history), SlotAt(history[c].ns, history[c].blocks, n))
  {
    TouchOfCommit(history, c, n);
  }

  /** Whatever was last touched between the start of commit c's block and c's own last touch of
      some slot belongs to c as well. */
  lemma SameOwner(history: seq<Batch>, s: Slot, between: Slot, from: nat)
    requires s in Touches(history) && between in Touches(history)
    requires Start(history, LastCommit(history, s)) <= from
    requires from <= LastTouch(Touches(history), between) < LastTouch(Touches(history), s)
    ensures Owner(history, between) == Owner(history, s) >= 0
  {
    LastTouchInCommit(history, s);
    OwnerOfTouch(history, between, LastCommit(history, s));
  }

  /** Held slots are those last touched after the frontier. */
  lemma HeldIffAfterFrontier(shelf: Shelf, s: Slot)
    requires Evicted(shelf) && s in Touches(shelf.history)
    ensures Frontier(shelf) in Touches(shelf.history)
    ensures s in Kept(shelf) <==>
            LastTouch(Touches(shelf.history), Frontier(shelf)) < LastTouch(Touches(shelf.history), s)
  {
    var xs, none: seq<Slot> := Touches(shelf.history), [];
    var r := PromoteAll(none, xs);
    assert Frontier(shelf) == r[|r| - shelf.capacity - 1] && Kept(shelf) == Newest(r, shelf.capacity);
    KeptIffAfterFrontier(xs, s, shelf.capacity);
  }

  lemma AllKeptBelowCapacity(shelf: Shelf, s: Slot)
    requires 0 < shelf.capacity && |Ranking(shelf.history)| <= shelf.capacity && s in Touches(shelf.history)
    ensures s in Kept(shelf)
  {
    RankingFacts(shelf.history);
    assert Kept(shelf) == Ranking(shelf.history);
  }

  /** Touched slots that are missing were last touched no later than the frontier. */
  lemma MissingBeforeFrontier(shelf: Shelf, s: Slot)
    requires shelf.capacity > 0 && s in Touches(shelf.history) && s !in Kept(shelf)
    ensures Evicted(shelf) && Frontier(shelf) in Touches(shelf.history)
    ensures LastTouch(Touches(shelf.history), s) <= LastTouch(Touches(shelf.history), Frontier(shelf))
  {
    if |Ranking(shelf.history)| <= shelf.capacity {
      AllKeptBelowCapacity(shelf, s);
    }
    HeldIffAfterFrontier(shelf, s);
  }

  /** Single orphan frontier. With collision-free keys, every held prefix with a hole below it was
      last touched by one and the same commit: the one that last touched the frontier slot. */
  lemma SingleOrphanFrontier(shelf: Shelf, ns: string, p: Blocks)
    requires Orphan(shelf, ns, p)
    requires CollisionFree(Sequences(shelf.history) + {p})
    ensures Evicted(shelf)
    ensures Owner(shelf.history, SlotAt(ns, p, |p| - 1)) == Owner(shelf.history, Frontier(shelf)) >= 0
  {
    var held := SlotAt(ns, p, |p| - 1);
    KeptWasTouched(shelf, held);
    var j :| 0 <= j < |p| - 1 && SlotAt(ns, p, j) !in Kept(shelf);
    ChainOfLastCommit(shelf, ns, p, j);
    MissingBeforeFrontier(shelf, SlotAt(ns, p, j));
    HeldIffAfterFrontier(shelf, held);
    SameOwner(shelf.history, held, Frontier(shelf), LastTouch(Touches(shelf.history), SlotAt(ns, p, j)));
  }

  /** A held prefix that is no orphan is reached by every lookup that extends it. */
  lemma HeldChainIsReached(shelf: Shelf, ns: string, p: Blocks, q: Blocks)
    requires p != [] && p <= q
    requires SlotAt(ns, p, |p| - 1) in Kept(shelf) && !Orphan(shelf, ns, p)
    ensures Reach(Kept(shelf), ns, q) >= |p|
  {
    var r := Reach(Kept(shelf), ns, q);
    if r < |p| {
      SharedSlot(ns, p, q, |p|, r);
    }
  }

  /** Everything last touched by a commit other than the frontier's still has its whole chain, and
      every lookup that extends it reaches it. */
  lemma OtherCommitsStayReachable(shelf: Shelf, ns: string, p: Blocks, q: Blocks)
    requires p != [] && p <= q
    requires CollisionFree(Sequences(shelf.history) + {p})
    requires SlotAt(ns, p, |p| - 1) in Kept(shelf)
    requires Evicted(shelf) ==>
             Owner(shelf.history, SlotAt(ns, p, |p| - 1)) != Owner(shelf.history, Frontier(shelf))
    ensures forall j :: 0 <= j < |p| ==> SlotAt(ns, p, j) in Kept(shelf)
    ensures Reach(Kept(shelf), ns, q) >= |p|
  {
    if Orphan(shelf, ns, p) {
      SingleOrphanFrontier(shelf, ns, p);
    }
    HeldChainIsReached(shelf, ns, p, q);
  }

  lemma BatchSlotsAreDistinct(b: Batch)
    requires CollisionFree({b.blocks})
    ensures Distinct(BatchSlots(b))
  {
    var slots := BatchSlots(b);
    forall i, j | 0 <= i < j < |slots|
      ensures slots[i] != slots[j]
    {
      if slots[i] == slots[j] {
        SameKeySamePrefix({b.blocks}, b.blocks, b.blocks, i + 1, j + 1);
      }
    }
  }

  /** What an oversize batch leaves: its own newest slots and nothing else. */
  lemma OversizeBatchFillsShelf(shelf: Shelf, b: Batch)
    requires 0 < shelf.capacity < |b.blocks| && CollisionFree({b.blocks})
    ensures Kept(Committed(shelf, b)) == BatchSlots(b)[|b.blocks| - shelf.capacity..]
  {
    BatchSlotsAreDistinct(b);
    CommitKeepsNewest(shelf, b);
    NewestOfBatch(Kept(shelf), BatchSlots(b), shelf.capacity);
  }

  /** When a batch alone overflows the shelf, only the keys of its longest prefixes stay, `capacity`
      of them, and nothing older does. None can be reached: looking up the very same blocks right after
      the commit finds nothing. */
  lemma OversizeCommitIsUnreachable(shelf: Shelf, ns: string, blocks: Blocks)
    requires 0 < shelf.capacity < |blocks| && CollisionFree({blocks})
    ensures var kept := Kept(Committed(shelf, Batch(ns, blocks)));
            && kept == BatchSlots(Batch(ns, blocks))[|blocks| - shelf.capacity..]
            && Reach(kept, ns, blocks) == 0
            && Orphan(Committed(shelf, Batch(ns, blocks)), ns, blocks)
  {
    var slots := BatchSlots(Batch(ns, blocks));
    var kept := slots[|slots| - shelf.capacity..];
    OversizeBatchFillsShelf(shelf, Batch(ns, blocks));
    BatchSlotsAreDistinct(Batch(ns, blocks));
    assert kept[shelf.capacity - 1] == slots[|slots| - 1];
    assert SlotAt(ns, blocks, 0) == slots[0] && slots[0] !in kept;
    ReachUnique(kept, ns, blocks, 0);
  }

  /** Collision-free sequences of more than one block exist: any block, followed by one of two
      neighbouring blocks. */
  lemma CollisionFreePair(first: Word64, x: Word64) returns (blocks: Blocks)
    requires x % 256 < 255
    ensures |blocks| == 2 && CollisionFree({blocks})
  {
    NeighboursDiffer([first], x);
    blocks := [first] + [if PrefixKey([first] + [x]) != PrefixKey([first]) then x else x + 1];
    assert blocks[..1] == [first];
    PairIsCollisionFree(blocks);
  }

  lemma PairIsCollisionFree(blocks: Blocks)
    requires |blocks| == 2 && PrefixKey(blocks) != PrefixKey(blocks[..1])
    ensures CollisionFree({blocks})
  {
    assert blocks[..2] == blocks;
    forall a, b, m: nat, n: nat | a in {blocks} && b in {blocks}
      ensures !Collide(a, m, b, n)
    {
    }
  }

  /** The hypotheses of the orphan and the scan theorems are met by real histories: with capacity one
      a commit of two blocks leaves an orphan, with capacity two it leaves none and is found again. */
  lemma OrphansExist() returns (small: Shelf, large: Shelf, ns: string, blocks: Blocks)
    ensures small.capacity > 0 && Orphan(small, ns, blocks) && CollisionFree(Sequences(small.history) + {blocks})
    ensures large.capacity > 0 && !Evicted(large) && CollisionFree(Sequences(large.history) + {blocks})
    ensures Reach(Kept(large), ns, blocks) == BestMatch(large.history, ns, blocks) == 2
  {
    blocks := CollisionFreePair(7, 7);
    ns := "";
    var batch := Batch(ns, blocks);
    small, large := Committed(Shelf(1, []), batch), Committed(Shelf(2, []), batch);
    assert Sequences([batch]) + {blocks} == {blocks};
    OversizeCommitIsUnreachable(Shelf(1, []), ns, blocks);
    PairFits(batch);
    LookupEqualsScan(large, ns, blocks);
    ScanFindsItself(batch);
  }

  lemma PairFits(b: Batch)
    requires |b.blocks| == 2
    ensures !Evicted(Shelf(2, [b]))
  {
    TouchesOfOne(b);
    RankingFacts([b]);
    ElementsAtMost(Touches([b]));
  }

  lemma ScanFindsItself(b: Batch)
    ensures BestMatch([b], b.ns, b.blocks) == |b.blocks|
  {
    assert [b][..0] == [];
  }

  /** A commit of one block is found again, and a block that differs from it in a single byte is not. */
  lemma OneByteOffIsAMiss(capacity: int, ns: string, x: Word64, y: Word64, i: nat)
    requires capacity > 0 && DifferOnlyAt(x, y, i)
    ensures var held := Kept(Shelf(capacity, [Batch(ns, [x])]));
            Reach(held, ns, [x]) == 1 && Reach(held, ns, [y]) == 0
  {
    var b := Batch(ns, [x]);
    var held := Kept(Shelf(capacity, [b]));
    OneSlotHeld(capacity, b);
    KeysOfOne(x, y, i);
    assert BatchSlots(b)[0] == SlotAt(ns, [x], 0);
    ReachUnique(held, ns, [x], 1);
    ReachUnique(held, ns, [y], 0);
  }

  lemma KeysOfOne(x: Word64, y: Word64, i: nat)
    requires DifferOnlyAt(x, y, i)
    ensures PrefixKey([x][..1]) != PrefixKey([y][..1])
  {
    assert [x][..1] == [] + [x] && [y][..1] == [] + [y];
    OneByteDiffers([], x, y, i);
  }

  /** What a shelf holds after a first commit of one block. */
  lemma OneSlotHeld(capacity: int, b: Batch)
    requires capacity > 0 && |b.blocks| == 1
    ensures forall s :: s in Kept(Shelf(capacity, [b])) <==> s == BatchSlots(b)[0]
  {
    TouchesOfOne(b);
    RankingFacts([b]);
    ElementsAtMost(Touches([b]));
    forall s
      ensures s in Touches([b]) <==> s == BatchSlots(b)[0]
    {
    }
  }

  lemma TouchesOfOne(b: Batch)
    ensures Touches([b]) == BatchSlots(b)
  {
    assert [b][..0] == [];
  }

  /** A commit adds nothing but its own slots. */
  lemma CommitAddsOnlyItsSlots(shelf: Shelf, b: Batch, s: Slot)
    requires s in Kept(Committed(shelf, b))
    ensures s in Kept(shelf) || s in BatchSlots(b)
  {
    if shelf.capacity > 0 {
      CommitKeepsNewest(shelf, b);
      RankingFacts(shelf.history);
      NewestDistinct(Ranking(shelf.history), shelf.capacity);
      PromoteAllDistinct(Kept(shelf), BatchSlots(b));
      NewestDistinct(PromoteAll(Kept(shelf), BatchSlots(b)), shelf.capacity);
    }
  }

  /** Who holds more of a query's slots reaches at least as far. */
  lemma ReachIsMonotone(less: seq<Slot>, more: seq<Slot>, ns: string, q: Blocks)
    requires forall s :: s in less && s.ns == ns ==> s in more
    ensures Reach(less, ns, q) <= Reach(more, ns, q)
  {
    var r := Reach(more, ns, q);
    assert IsReach(more, ns, q, r) && IsReach(less, ns, q, Reach(less, ns, q));
  }

  /** A commit in one namespace makes no lookup in another one reach further. */
  lemma OtherNamespacesGainNothing(shelf: Shelf, b: Batch, ns: string, q: Blocks)
    requires ns != b.ns
    ensures Reach(Kept(Committed(shelf, b)), ns, q) <= Reach(Kept(shelf), ns, q)
  {
    forall s | s in Kept(Committed(shelf, b)) && s.ns == ns
      ensures s in Kept(shelf)
    {
      CommitAddsOnlyItsSlots(shelf, b, s);
    }
    ReachIsMonotone(Kept(Committed(shelf, b)), Kept(shelf), ns, q);
  }

  // ---------------------------------------------------------------------------------------------
  // Homecoming
  // ---------------------------------------------------------------------------------------------

  lemma {:induction false} TouchesConcat(a: seq<Batch>, b: seq<Batch>)
    ensures Touches(a + b) == Touches(a) + Touches(b)
    decreases |b|
  {
    if b == [] {
      assert a + b == a;
    } else {
      var front, last := b[..|b| - 1], b[|b| - 1];
      assert (a + b)[..|a + b| - 1] == a + front;
      TouchesConcat(a, front);
      assert Touches(a) + (Touches(front) + BatchSlots(last)) == (Touches(a) + Touches(front)) + BatchSlots(last);
    }
  }

  /** Whatever was touched in a recent enough stretch of the history is still held. */
  lemma RecentIsKept(capacity: int, before: seq<Batch>, recent: seq<Batch>, s: Slot)
    requires capacity > 0 && s in Touches(recent)
    requires |Elements(Touches(recent))| <= capacity
    ensures s in Kept(Shelf(capacity, before + recent))
  {
    TouchesConcat(before, recent);
    RecentSurvives(Touches(before), Touches(recent), s, capacity);
  }

  /** Homecoming. A conversation committed on a backend, followed by any other commits there: as
      long as no more than `capacity` distinct keys were touched from that commit onwards, every
      later request in the namespace whose text extends the conversation finds all of its full
      blocks. No assumption about collisions is needed. */
  lemma Homecoming(h: BlockHasher, shelf: Shelf, at: nat, ns: string, text: Text, longer: Text)
    requires h.Valid() && shelf.capacity > 0
    requires at < |shelf.history| && shelf.history[at] == Batch(ns, h.HashText(text))
    requires |Elements(Touches(shelf.history[at..]))| <= shelf.capacity
    requires text <= longer
    ensures Reach(Kept(shelf), ns, h.HashText(longer)) >= |text| / h.blockSize
  {
    var before, recent := shelf.history[..at], shelf.history[at..];
    assert shelf.history == before + recent;
    var a, b := h.HashText(text), h.HashText(longer);
    h.FullBlocksAreStable(text, longer);
    var r := Reach(Kept(shelf), ns, b);
    if r < |text| / h.blockSize {
      var full := |text| / h.blockSize;
      SharedSlot(ns, a, b, full, r);
      assert recent[0] == Batch(ns, a);
      TouchOfCommit(recent, 0, r);
      RecentIsKept(shelf.capacity, before, recent, SlotAt(ns, a, r));
    }
  }

  /** The same for conversations: the follow-up turn repeats the earlier messages and adds more. */
  lemma FollowUpTurnComesHome(h: BlockHasher, shelf: Shelf, at: nat, ns: string,
                              turn: seq<Message>, added: seq<Message>)
    requires h.Valid() && shelf.capacity > 0
    requires at < |shelf.history| && shelf.history[at] == Batch(ns, h.HashText(Flatten(turn)))
    requires |Elements(Touches(shelf.history[at..]))| <= shelf.capacity
    ensures Reach(Kept(shelf), ns, h.HashText(Flatten(turn + added))) >= |Flatten(turn)| / h.blockSize
  {
    FlattenAppend(turn, added);
    Homecoming(h, shelf, at, ns, Flatten(turn), Flatten(turn + added));
  }

  // ---------------------------------------------------------------------------------------------
  // Agreement with the naive scan
  // ---------------------------------------------------------------------------------------------

  /** The naive lookup: compare the query with every sequence ever committed in the namespace. */
  function BestMatch(history: seq<Batch>, ns: string, query: Blocks): (m: nat)
    ensures forall i :: 0 <= i < |history| && history[i].ns == ns ==> MatchLength(query, history[i].blocks) <= m
    ensures m == 0 ||
            exists i :: 0 <= i < |history| && history[i].ns == ns && MatchLength(query, history[i].blocks) == m
    decreases |history|
  {
    if history == [] then 0
    else
      var last := history[|history| - 1];
      var m := BestMatch(history[..|history| - 1], ns, query);
      if last.ns == ns && MatchLength(query, last.blocks) > m then MatchLength(query, last.blocks) else m
  }

  lemma {:induction false} TouchHasSource(history: seq<Batch>, s: Slot) returns (c: nat, n: nat)
    requires s in Touches(history)
    ensures c < |history| && n < |history[c].blocks|
    ensures s == SlotAt(history[c].ns, history[c].blocks, n)
  {
    c := LastCommit(history, s);
    var m :| 0 <= m < |BatchSlots(history[c])| && BatchSlots(history[c])[m] == s;
    n := m;
  }

  /** No phantom and no cross-namespace match: a lookup never claims more than the naive scan. */
  lemma LookupNeverExceedsScan(shelf: Shelf, ns: string, query: Blocks)
    requires CollisionFree(Sequences(shelf.history) + {query})
    ensures Reach(Kept(shelf), ns, query) <= BestMatch(shelf.history, ns, query)
  {
    var r := Reach(Kept(shelf), ns, query);
    if r > 0 {
      var s := SlotAt(ns, query, r - 1);
      KeptWasTouched(shelf, s);
      var c, n := TouchHasSource(shelf.history, s);
      var b := shelf.history[c];
      assert b.blocks in Sequences(shelf.history);
      SameKeySamePrefix(Sequences(shelf.history) + {query}, query, b.blocks, r, n + 1);
      CommonPrefixIff(query, b.blocks, r);
    }
  }

  /** As long as nothing has been evicted, the lookup is the naive scan. */
  lemma LookupEqualsScan(shelf: Shelf, ns: string, query: Blocks)
    requires CollisionFree(Sequences(shelf.history) + {query})
    requires shelf.capacity > 0 && !Evicted(shelf)
    ensures Reach(Kept(shelf), ns, query) == BestMatch(shelf.history, ns, query)
  {
    LookupNeverExceedsScan(shelf, ns, query);
    var m, r := BestMatch(shelf.history, ns, query), Reach(Kept(shelf), ns, query);
    if r < m {
      var i :| && 0 <= i < |shelf.history| && shelf.history[i].ns == ns
               && MatchLength(query, shelf.history[i].blocks) == m;
      var b := shelf.history[i].blocks;
      SharedSlot(ns, query, b, m, r);
      TouchOfCommit(shelf.history, i, r);
      RankingFacts(shelf.history);
    }
  }
}
