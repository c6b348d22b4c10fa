/** The radix tree over block hashes: heap nodes linked by child tables, each with a list of cache
    entries, one per backend. The ghost `view` ties it to the flat map that it refines. */
module RadixTree {
  import opened Words
  import opened RadixFlat
  import opened RadixSubtree
  import SliceSort

  // ---------------------------------------------------------------------------------------------
  // Heap
  // ---------------------------------------------------------------------------------------------

  class Node {
    ghost const path: Path  // the hashes leading here from the root
    var children: map<Word64, Node>
    var entries: seq<CacheEntry>

    constructor (ghost path: Path)
      ensures this.path == path && children == map[] && entries == []
    {
      this.path := path;
      children := map[];
      entries := [];
    }
  }

  /** The ghost picture of a tree: its reachable nodes by path, and the flat map it stands for. */
  datatype View = View(nodes: map<Path, Node>, flat: Flat)

  /** Where eviction found an entry, and the entry as it was then. */
  datatype EntryRef = EntryRef(node: Node, index: nat, entry: CacheEntry)

  ghost function KeysOf(refs: seq<EntryRef>, backend: string): set<Key> {
    set r | r in refs :: Key(r.node.path, backend)
  }

  ghost function KeysAt(nodes: set<Node>, backend: string): set<Key> {
    set n | n in nodes :: Key(n.path, backend)
  }

  lemma KeysOfConcat(a: seq<EntryRef>, b: seq<EntryRef>, backend: string)
    ensures KeysOf(a + b, backend) == KeysOf(a, backend) + KeysOf(b, backend)
  {
  }

  lemma {:induction false} AtMostOneKeyEach(refs: seq<EntryRef>, backend: string)
    ensures |KeysOf(refs, backend)| <= |refs|
  {
    if refs != [] {
      var front, last := refs[..|refs| - 1], refs[|refs| - 1];
      AtMostOneKeyEach(front, backend);
      assert refs == front + [last];
      KeysOfConcat(front, [last], backend);
      assert KeysOf([last], backend) == {Key(last.node.path, backend)};
    }
  }

  /** When all refs have different keys, so has any split of them. */
  lemma SplitKeys(refs: seq<EntryRef>, n: nat, backend: string)
    requires n <= |refs| && |KeysOf(refs, backend)| == |refs|
    ensures |KeysOf(refs[..n], backend)| == n
    ensures KeysOf(refs, backend) == KeysOf(refs[..n], backend) + KeysOf(refs[n..], backend)
  {
    var a, b := refs[..n], refs[n..];
    assert refs == a + b;
    KeysOfConcat(a, b, backend);
    AtMostOneKeyEach(a, backend);
    AtMostOneKeyEach(b, backend);
    UnionSize(KeysOf(a, backend), KeysOf(b, backend));
  }

  lemma UnionSize<T>(a: set<T>, b: set<T>)
    ensures |a + b| <= |a| + |b|
  {
    assert |a + b| == |a| + |b| - |a * b|;
  }

  ghost function PositionOf(refs: seq<EntryRef>, k: Key, backend: string): (i: nat)
    requires k in KeysOf(refs, backend)
    ensures i < |refs| && k == Key(refs[i].node.path, backend)
  {
    var r :| r in refs && k == Key(r.node.path, backend);
    var i :| 0 <= i < |refs| && refs[i] == r;
    i
  }

  datatype TreeStats = TreeStats(nodeCount: int, entryCount: int, maxDepth: int)

  class Tree {
    const root: Node
    var nodeCount: int
    var entryCount: int
    ghost var view: View
    ghost var uses: seq<Use>  // every insertion and every touch that found its entry, in order

    /** The node at a path knows its path and carries the flat map's entries for it. */
    ghost predicate NodeFits(p: Path)
      reads this`view, view.nodes.Values
    {
      p in view.nodes ==> view.nodes[p].path == p && Carries(view.nodes[p].entries, p, view.flat)
    }

    /** Child table and reachable paths agree about one edge. */
    ghost predicate EdgeFits(p: Path, h: Word64)
      reads this`view, view.nodes.Values
    {
      && (p in view.nodes && h in view.nodes[p].children ==>
            Step(p, h) in view.nodes && view.nodes[p].children[h] == view.nodes[Step(p, h)])
      && (Step(p, h) in view.nodes ==> p in view.nodes && h in view.nodes[p].children)
    }

    /** The heap is the tree that the view describes. */
    ghost predicate Describes()
      reads this`view, view.nodes.Values
    {
      && Root in view.nodes && view.nodes[Root] == root
      && (forall p :: NodeFits(p))
      && (forall p, h :: EdgeFits(p, h))
      && (forall k :: k in view.flat ==> k.path in view.nodes)
    }

    ghost predicate Valid()
      reads this`view, this`nodeCount, this`entryCount, view.nodes.Values
    {
      Describes() && nodeCount == |view.nodes| && entryCount == |view.flat|
    }

    /** Every entry is stamped with the time of its last insertion or touch. */
    ghost predicate Dated()
      reads this`view, this`uses
    {
      StampsFollow(view.flat, uses)
    }

    ghost predicate IsNode(node: Node)
      reads this`view
    {
      node.path in view.nodes && view.nodes[node.path] == node
    }

    /** Every node is still there, and every further node is new and on the way to the target. */
    twostate predicate Grown(target: Path)
      reads this`view
    {
      && (forall p :: p in old(view.nodes) ==> p in view.nodes && view.nodes[p] == old(view.nodes)[p])
      && (forall p :: p in view.nodes && p !in old(view.nodes) ==> fresh(view.nodes[p]) && Under(target, p))
    }

    constructor ()
      ensures Valid() && fresh(view.nodes.Values)
      ensures view.nodes.Keys == {Root} && view.flat == map[] && uses == [] && Dated()
    {
      root := new Node(Root);
      nodeCount, entryCount := 1, 0;
      view := View(map[Root := root], map[]);
      uses := [];
    }

    /** Creates the child for hash h of an existing node. */
    method AddChild(node: Node, h: Word64) returns (child: Node)
      requires Valid() && IsNode(node) && h !in node.children
      modifies this`view, this`nodeCount, node`children
      ensures Valid() && entryCount == old(entryCount)
      ensures fresh(child) && child.path == Step(node.path, h)
      ensures view == old(view).(nodes := old(view.nodes)[child.path := child])
    {
      child := new Node(Step(node.path, h));
      Attach(node, h, child);
    }

    /** Links a new empty node as child h and counts it. */
    method Attach(node: Node, h: Word64, child: Node)
      requires Valid() && IsNode(node) && h !in node.children
      requires child.path == Step(node.path, h) && child.children == map[] && child.entries == []
      requires child !in view.nodes.Values
      modifies this`view, this`nodeCount, node`children
      ensures Valid() && entryCount == old(entryCount)
      ensures view == old(view).(nodes := old(view.nodes)[child.path := child])
    {
      Link(node, h, child);
      nodeCount := nodeCount + 1;
    }

    /** Links a new empty node as child h. */
    method Link(node: Node, h: Word64, child: Node)
      requires Describes() && IsNode(node) && h !in node.children
      requires child.path == Step(node.path, h) && child.children == map[] && child.entries == []
      requires child !in view.nodes.Values
      modifies this`view, node`children
      ensures Describes() && child.path !in old(view.nodes)
      ensures view == old(view).(nodes := old(view.nodes)[child.path := child])
    {
      assert EdgeFits(node.path, h);
      node.children := node.children[h := child];
      view := view.(nodes := view.nodes[child.path := child]);
      forall p
        ensures NodeFits(p)
      {
        assert old(NodeFits(p));
        if p == child.path {
          EmptyCarries(p, view.flat);
        }
      }
      forall p, g
        ensures EdgeFits(p, g)
      {
        assert old(EdgeFits(p, g)) && old(NodeFits(p));
        if p == child.path {
          assert old(EdgeFits(p, g));
        }
      }
    }

    /** Replaces a node's entry list, and with it the flat map's entries for the node's path. */
    method Rewrite(node: Node, entries: seq<CacheEntry>, ghost flat: Flat)
      requires Describes() && IsNode(node)
      requires Carries(entries, node.path, flat)
      requires forall k :: k in flat ==> k.path in view.nodes
      requires forall p :: p != node.path ==> AgreeAt(view.flat, flat, p)
      modifies this`view, node`entries
      ensures Describes() && node.entries == entries
      ensures view == old(view).(flat := flat)
    {
      node.entries := entries;
      view := view.(flat := flat);
      forall p
        ensures NodeFits(p)
      {
        assert old(NodeFits(p));
        if p != node.path {
          assert AgreeAt(old(view.flat), flat, p);
        }
      }
      forall p, g
        ensures EdgeFits(p, g)
      {
        assert old(EdgeFits(p, g));
      }
    }

    /** The scan for a backend's entry in a node. */
    method FindEntry(node: Node, backendID: string) returns (i: nat)
      ensures i == Find(node.entries, backendID)
    {
      for n := 0 to |node.entries|
        invariant forall j :: 0 <= j < n ==> node.entries[j].backendID != backendID
      {
        if node.entries[n].backendID == backendID {
          FindUnique(node.entries, backendID, n);
          return n;
        }
      }
      FindUnique(node.entries, backendID, |node.entries|);
      return |node.entries|;
    }

    /** Refreshes the entry at position i: later access time, one more hit. */
    method Refresh(node: Node, i: nat, now: nat)
      requires Valid() && IsNode(node) && i < |node.entries|
      modifies this`view, node`entries
      ensures Valid()
      ensures view == old(view).(flat := Recorded(old(view.flat), Key(node.path, old(node.entries[i].backendID)), now))
    {
      var e := node.entries[i].(lastAccess := now, hitCount := node.entries[i].hitCount + 1);
      ghost var k := Key(node.path, e.backendID);
      assert NodeFits(node.path);
      assert Find(node.entries, e.backendID) == i;
      CarriesUpdated(node.entries, node.path, view.flat, i, e);
      assert view.flat[k := e].Keys == view.flat.Keys;
      Rewrite(node, node.entries[i := e], view.flat[k := e]);
    }

    /** Appends the backend's first entry at a node. */
    method AddEntry(node: Node, backendID: string, now: nat)
      requires Valid() && IsNode(node) && !Holds(node.entries, backendID)
      modifies this`view, this`entryCount, node`entries
      ensures Valid() && Key(node.path, backendID) !in old(view.flat)
      ensures view == old(view).(flat := Recorded(old(view.flat), Key(node.path, backendID), now))
    {
      var e := CacheEntry(backendID, now, now, 1);
      assert NodeFits(node.path);
      CarriesAppended(node.entries, node.path, view.flat, e);
      Rewrite(node, node.entries + [e], view.flat[Key(node.path, backendID) := e]);
      entryCount := entryCount + 1;
    }

    /** Records that a prefix was sent to a backend: creates the nodes on the way, then updates the
        backend's entry there or adds one. */
    method Insert(hashes: seq<Word64>, backendID: string, now: nat)
      requires Valid()
      modifies this, view.nodes.Values
      ensures Valid()
      ensures Grown(PathOf(hashes, |hashes|))
      ensures var k, before := Key(PathOf(hashes, |hashes|), backendID), old(view.flat);
              && uses == old(uses) + [Use(k, now)] && view.flat.Keys == before.Keys + {k}
              && (k !in before ==> view.flat[k] == CacheEntry(backendID, now, now, 1))
              && (k in before ==> view.flat[k].lastAccess == now && view.flat[k].hitCount == before[k].hitCount + 1)
              && (k in before ==> view.flat[k].insertedAt == before[k].insertedAt)
              && forall other :: other in before && other != k ==> view.flat[other] == before[other]
      ensures old(Dated()) ==> Dated()
    {
      ghost var flat, k := view.flat, Key(PathOf(hashes, |hashes|), backendID);
      StampsAfterUse(flat, uses, k, now);
      RecordedEntries(flat, k, now);
      Put(hashes, backendID, now);
      uses := uses + [Use(k, now)];
    }

    /** The insertion proper. */
    method Put(hashes: seq<Word64>, backendID: string, now: nat)
      requires Valid()
      modifies this`view, this`nodeCount, this`entryCount, view.nodes.Values
      ensures Valid()
      ensures view.flat == Recorded(old(view.flat), Key(PathOf(hashes, |hashes|), backendID), now)
      ensures Grown(PathOf(hashes, |hashes|))
    {
      var node := Descend(hashes);
      var i := FindEntry(node, backendID);
      if i < |node.entries| {
        Refresh(node, i, now);
        return;
      }
      AddEntry(node, backendID, now);
    }

    /** One step of Insert's first loop: the child for hash h, created if missing. */
    method StepDown(node: Node, h: Word64) returns (child: Node)
      requires Valid() && IsNode(node)
      modifies this`view, this`nodeCount, node`children
      ensures Valid() && view.flat == old(view.flat) && entryCount == old(entryCount)
      ensures IsNode(child) && child.path == Step(node.path, h)
      ensures Grown(child.path)
    {
      assert EdgeFits(node.path, h) && NodeFits(Step(node.path, h));
      if h !in node.children {
        child := AddChild(node, h);
      } else {
        child := node.children[h];
      }
    }

    /** The first loop of Insert: follow the hashes, creating missing nodes. */
    method Descend(hashes: seq<Word64>) returns (node: Node)
      requires Valid()
      modifies this`view, this`nodeCount, view.nodes.Values
      ensures Valid() && view.flat == old(view.flat) && entryCount == old(entryCount)
      ensures Grown(PathOf(hashes, |hashes|))
      ensures IsNode(node) && node.path == PathOf(hashes, |hashes|)
    {
      node := root;
      assert NodeFits(Root);
      for i := 0 to |hashes|
        invariant Valid() && view.flat == old(view.flat) && entryCount == old(entryCount)
        invariant Grown(node.path)
        invariant IsNode(node) && node.path == PathOf(hashes, i)
      {
        node := StepDown(node, hashes[i]);
      }
    }

    /** A path that is not in the tree has no longer path below it. */
    lemma {:induction false} MissingBelow(hashes: seq<Word64>, i: nat, n: nat)
      requires Describes() && i <= n <= |hashes| && PathOf(hashes, i) !in view.nodes
      ensures PathOf(hashes, n) !in view.nodes
    {
      if i < n {
        MissingBelow(hashes, i, n - 1);
        assert EdgeFits(PathOf(hashes, n - 1), hashes[n - 1]);
      }
    }

    /** Follows the hashes without creating anything. */
    method Follow(hashes: seq<Word64>) returns (found: bool, node: Node)
      requires Valid()
      ensures found <==> PathOf(hashes, |hashes|) in view.nodes
      ensures found ==> IsNode(node) && node.path == PathOf(hashes, |hashes|)
    {
      node := root;
      assert NodeFits(Root);
      for i := 0 to |hashes|
        invariant IsNode(node) && node.path == PathOf(hashes, i)
      {
        assert EdgeFits(node.path, hashes[i]) && NodeFits(Step(node.path, hashes[i]));
        if hashes[i] !in node.children {
          MissingBelow(hashes, i + 1, |hashes|);
          return false, node;
        }
        node := node.children[hashes[i]];
      }
      return true, node;
    }

    /** Refreshes the backend's entry at exactly this prefix, if there is one. */
    method Touch(hashes: seq<Word64>, backendID: string, now: nat)
      requires Valid()
      modifies this`view, this`uses, view.nodes.Values
      ensures Valid() && view.nodes == old(view.nodes) && view.flat.Keys == old(view.flat.Keys)
      ensures var k, before := Key(PathOf(hashes, |hashes|), backendID), old(view.flat);
              && (k !in before ==> view.flat == before && uses == old(uses))
              && (k in before ==> uses == old(uses) + [Use(k, now)])
              && (k in before ==> view.flat[k].lastAccess == now && view.flat[k].hitCount == before[k].hitCount + 1)
              && (k in before ==> view.flat[k].insertedAt == before[k].insertedAt)
              && forall other :: other in before && other != k ==> view.flat[other] == before[other]
      ensures old(Dated()) ==> Dated()
    {
      ghost var flat, k := view.flat, Key(PathOf(hashes, |hashes|), backendID);
      ghost var log := if k in flat then uses + [Use(k, now)] else uses;
      StampsAfterTouch(flat, uses, k, now);
      TouchedEntries(flat, k, now);
      RefreshFound(hashes, backendID, now);
      uses := log;
    }

    /** The touch proper. */
    method RefreshFound(hashes: seq<Word64>, backendID: string, now: nat)
      requires Valid()
      modifies this`view, view.nodes.Values
      ensures Valid()
      ensures view == old(view).(flat := Touched(old(view.flat), Key(PathOf(hashes, |hashes|), backendID), now))
    {
      var found, node := Follow(hashes);
      if !found {
        return;
      }
      assert NodeFits(node.path);
      var i := FindEntry(node, backendID);
      if i < |node.entries| {
        Refresh(node, i, now);
      }
    }

    /** For every backend with an entry on some prefix of the hashes, the longest such prefix. */
    method Lookup(hashes: seq<Word64>) returns (result: map<string, int>)
      requires Valid()
      ensures forall b :: MatchFits(result, view.flat, hashes, |hashes|, b)
    {
      var node := root;
      assert NodeFits(Root);
      result := AtRoot(node.entries);
      forall b
        ensures MatchFits(result, view.flat, hashes, 0, b)
      {
        assert Key(Root, b) in view.flat <==> Holds(node.entries, b);
      }
      for depth := 0 to |hashes|
        invariant IsNode(node) && node.path == PathOf(hashes, depth)
        invariant forall b :: MatchFits(result, view.flat, hashes, depth, b)
      {
        assert EdgeFits(node.path, hashes[depth]) && NodeFits(Step(node.path, hashes[depth]));
        if hashes[depth] !in node.children {
          NothingLonger(result, hashes, depth);
          return;
        }
        node := node.children[hashes[depth]];
        result := Level(view.flat, hashes, depth + 1, node.entries, result);
      }
    }

    lemma NothingLonger(result: map<string, int>, hashes: seq<Word64>, n: nat)
      requires Describes() && n < |hashes| && PathOf(hashes, n + 1) !in view.nodes
      requires forall b :: MatchFits(result, view.flat, hashes, n, b)
      ensures forall b :: MatchFits(result, view.flat, hashes, |hashes|, b)
    {
      forall k: nat | n < k <= |hashes|
        ensures PathOf(hashes, k) !in view.nodes
      {
        MissingBelow(hashes, n + 1, k);
      }
      forall b
        ensures MatchFits(result, view.flat, hashes, |hashes|, b)
      {
        assert MatchFits(result, view.flat, hashes, n, b);
        SameLongest(view.flat, hashes, n, |hashes|, b);
      }
    }

    // -------------------------------------------------------------------------------------------
    // Eviction
    // -------------------------------------------------------------------------------------------

    /** The ref points at the backend's entry in its node. */
    ghost predicate RefFits(r: EntryRef, backend: string)
      reads this`view, view.nodes.Values
    {
      && r.node.path in view.nodes && view.nodes[r.node.path] == r.node
      && Key(r.node.path, backend) in view.flat && r.entry == view.flat[Key(r.node.path, backend)]
      && r.index == Find(view.nodes[r.node.path].entries, backend)
    }

    /** Collects a ref to every entry of the backend in n's subtree, each exactly once, visiting the
        children in any order. */
    method Walk(n: Node, backendID: string) returns (refs: seq<EntryRef>)
      requires Valid() && IsNode(n)
      ensures forall r :: r in refs ==> RefFits(r, backendID)
      ensures KeysOf(refs, backendID) == Held(view.flat, backendID, n.path, {})
      ensures |KeysOf(refs, backendID)| == |refs|
      decreases Subtree(view.nodes.Keys, n.path)
    {
      refs := OwnRefs(n, backendID);
      var todo := n.children.Keys;
      while todo != {}
        invariant todo <= n.children.Keys
        invariant forall r :: r in refs ==> RefFits(r, backendID)
        invariant KeysOf(refs, backendID) == Held(view.flat, backendID, n.path, todo)
        invariant |KeysOf(refs, backendID)| == |refs|
      {
        var h :| h in todo;
        assert EdgeFits(n.path, h) && NodeFits(Step(n.path, h));
        ChildSubtreeIsSmaller(view.nodes.Keys, n.path, h);
        var below := Walk(n.children[h], backendID);
        HeldAfterBranch(view.flat, backendID, n.path, todo, h);
        KeysOfConcat(refs, below, backendID);
        refs, todo := refs + below, todo - {h};
      }
    }

    /** The refs to the backend's entries in one node: at most one. */
    method OwnRefs(n: Node, backendID: string) returns (refs: seq<EntryRef>)
      requires Valid() && IsNode(n)
      ensures forall r :: r in refs ==> RefFits(r, backendID)
      ensures KeysOf(refs, backendID) == Held(view.flat, backendID, n.path, n.children.Keys)
      ensures |KeysOf(refs, backendID)| == |refs|
    {
      assert NodeFits(n.path);
      ghost var own := Key(n.path, backendID);
      OwnHeld(n, backendID);
      refs := [];
      for i := 0 to |n.entries|
        invariant refs == if Find(n.entries, backendID) < i
                          then [EntryRef(n, Find(n.entries, backendID), n.entries[Find(n.entries, backendID)])] else []
      {
        FindBounded(n.entries, i);
        if n.entries[i].backendID == backendID {
          assert Find(n.entries, backendID) == i;
          refs := refs + [EntryRef(n, i, n.entries[i])];
        }
      }
      if own in view.flat {
        assert KeysOf(refs, backendID) == {own};
      } else {
        assert KeysOf(refs, backendID) == {};
      }
    }

    lemma OwnHeld(n: Node, backendID: string)
      requires Valid() && IsNode(n)
      ensures Held(view.flat, backendID, n.path, n.children.Keys) ==
              if Key(n.path, backendID) in view.flat then {Key(n.path, backendID)} else {}
    {
      forall k | k in view.flat && Under(k.path, n.path) && k.path != n.path
        ensures Branch(k.path, n.path) in n.children
      {
        BranchIsChild(k.path, n.path);
      }
    }

    lemma {:induction false} BranchIsChild(q: Path, p: Path)
      requires Describes() && q in view.nodes && Under(q, p) && q != p
      ensures p in view.nodes && Branch(q, p) in view.nodes[p].children
    {
      assert EdgeFits(q.parent, q.hash);
      if q.parent != p {
        BranchIsChild(q.parent, p);
      }
    }

    /** All of the backend's entries, least recently accessed first. */
    method CollectByAge(backendID: string) returns (refs: seq<EntryRef>)
      requires Valid()
      ensures forall r :: r in refs ==> RefFits(r, backendID)
      ensures KeysOf(refs, backendID) == Mine(view.flat, backendID)
      ensures |KeysOf(refs, backendID)| == |refs|
      ensures SliceSort.Ascending(refs, LastAccess)
    {
      assert NodeFits(Root);
      var found := Walk(root, backendID);
      HeldAtRoot(view.flat, backendID);
      refs := SliceSort.InsertionSort(found, LastAccess);
      SameRefs(found, refs, backendID);
    }

    /** Collects and sorts the backend's entries and picks the first count, or all, grouped by node. */
    method Choose(backendID: string, count: int) returns (removals: map<Node, seq<int>>, toEvict: nat)
      requires Valid() && count > 0
      ensures removals.Keys <= view.nodes.Values
      ensures AllSit(removals, removals.Keys, backendID)
      ensures Evicted(view.flat, view.flat - KeysAt(removals.Keys, backendID), backendID, count)
      ensures |view.flat - KeysAt(removals.Keys, backendID)| == |view.flat| - toEvict
    {
      var refs := CollectByAge(backendID);
      toEvict := count;
      if toEvict > |refs| {
        toEvict := |refs|;
      }
      removals := Group(refs, toEvict, backendID);
      OldestGo(refs, view.flat, toEvict, KeysAt(removals.Keys, backendID), backendID, count);
    }

    /** Groups the indices of the first n refs by node. */
    method Group(refs: seq<EntryRef>, n: nat, ghost backendID: string) returns (removals: map<Node, seq<int>>)
      requires Describes() && n <= |refs| && |KeysOf(refs, backendID)| == |refs|
      requires forall r :: r in refs ==> RefFits(r, backendID)
      ensures removals.Keys <= view.nodes.Values
      ensures KeysAt(removals.Keys, backendID) == KeysOf(refs[..n], backendID)
      ensures AllSit(removals, removals.Keys, backendID)
    {
      removals := map[];
      for i := 0 to n
        invariant removals.Keys <= view.nodes.Values
        invariant KeysAt(removals.Keys, backendID) == KeysOf(refs[..i], backendID)
        invariant forall node :: node in removals ==> IsNode(node) && SitsAt(node, removals[node], backendID)
      {
        var r := refs[i];
        assert RefFits(r, backendID) && NodeFits(r.node.path);
        NextKey(refs, i, backendID);
        NewNode(removals.Keys, r.node, backendID);
        removals := removals[r.node := Listed(removals, r.node) + [r.index]];
      }
    }

    /** The indices are the one position where the backend's entry sits. */
    ghost predicate SitsAt(node: Node, indices: seq<int>, backend: string)
      reads node`entries
    {
      Holds(node.entries, backend) && indices == [Find(node.entries, backend)]
    }

    /** Removes a node's listed entries, highest index first. */
    method RemoveAt(node: Node, indices: seq<int>, backendID: string)
      requires Describes() && IsNode(node) && SitsAt(node, indices, backendID)
      modifies this`view, node`entries
      ensures Describes()
      ensures view == old(view).(flat := old(view.flat) - {Key(node.path, backendID)})
      ensures Others(node.entries, backendID) == old(Others(node.entries, backendID))
    {
      assert NodeFits(node.path);
      CutDrops(node.entries, node.path, view.flat, backendID);
      var rest := RemoveListed(node.entries, indices);
      Rewrite(node, rest, view.flat - {Key(node.path, backendID)});
    }

    /** Each of the nodes holds the entry listed for it. */
    ghost predicate AllSit(removals: map<Node, seq<int>>, nodes: set<Node>, backend: string)
      reads this`view, nodes`entries
    {
      nodes <= removals.Keys && forall node :: node in nodes ==> IsNode(node) && SitsAt(node, removals[node], backend)
    }

    /** Removes one node's entry; the other nodes still hold theirs. */
    method RemoveNext(removals: map<Node, seq<int>>, ghost todo: set<Node>, node: Node, backendID: string)
      requires Describes() && node in todo && todo <= view.nodes.Values && AllSit(removals, todo, backendID)
      modifies this`view, node`entries
      ensures Describes() && AllSit(removals, todo - {node}, backendID) && AllOthersKept(backendID)
      ensures view == old(view).(flat := old(view.flat) - {Key(node.path, backendID)})
    {
      RemoveAt(node, removals[node], backendID);
    }

    /** Removes the grouped entries, node by node in any order. */
    method RemoveAll(removals: map<Node, seq<int>>, backendID: string)
      requires Describes() && removals.Keys <= view.nodes.Values && AllSit(removals, removals.Keys, backendID)
      modifies this`view, view.nodes.Values`entries
      ensures Describes()
      ensures view.flat == old(view.flat) - KeysAt(removals.Keys, backendID)
      ensures AllOthersKept(backendID)
    {
      var todo := removals.Keys;
      ghost var done: set<Node> := {};
      while todo != {}
        invariant todo <= removals.Keys && removals.Keys == todo + done
        invariant Describes() && AllSit(removals, todo, backendID) && AllOthersKept(backendID)
        invariant view.flat == old(view.flat) - KeysAt(done, backendID)
      {
        var node :| node in todo;
        MoveOne(todo, done, node);
        RemoveNext(removals, todo, node, backendID);
        DropMore(old(view.flat), done, node, backendID);
        todo, done := todo - {node}, done + {node};
      }
    }

    /** All other backends' entries at this node are what they were, in the same order. */
    twostate predicate OthersKept(node: Node, backend: string)
      reads node`entries
    {
      Others(node.entries, backend) == old(Others(node.entries, backend))
    }

    /** No node is gone, and at none of them other backends' entries have changed. */
    twostate predicate AllOthersKept(backend: string)
      reads this`view, view.nodes.Values`entries
    {
      view.nodes == old(view.nodes) && forall node :: node in old(view.nodes.Values) ==> OthersKept(node, backend)
    }

    /** Removes up to count of the backend's entries, least recently accessed first. */
    method Evict(backendID: string, count: int)
      requires Valid()
      modifies this`view, this`entryCount, view.nodes.Values`entries
      ensures Valid() && view.nodes == old(view.nodes)
      ensures Evicted(old(view.flat), view.flat, backendID, count)
      ensures AllOthersKept(backendID)
      ensures var before, mine := old(view.flat), set k | k in old(view.flat) && k.backend == backendID;
              && |before| - |view.flat| == (if count <= 0 then 0 else if count < |mine| then count else |mine|)
              && (forall k :: k in view.flat ==> k in before && view.flat[k] == before[k])
              && (forall k :: k in before && k.backend != backendID ==> k in view.flat)
      ensures old(Dated()) ==> Dated()
      ensures old(Dated()) ==>
                forall gone, kept :: gone in old(view.flat) && gone !in view.flat
                                     && kept in view.flat && kept.backend == backendID ==>
                  UsedNoLater(uses, gone, kept)
    {
      ghost var flat := view.flat;
      DropOldest(backendID, count);
      EvictedEntries(flat, view.flat, backendID, count);
      if StampsFollow(flat, uses) {
        EvictedByUse(flat, view.flat, backendID, count, uses);
      }
    }

    /** The eviction proper. */
    method DropOldest(backendID: string, count: int)
      requires Valid()
      modifies this`view, this`entryCount, view.nodes.Values`entries
      ensures Valid() && view.nodes == old(view.nodes)
      ensures Evicted(old(view.flat), view.flat, backendID, count)
      ensures AllOthersKept(backendID)
    {
      if count <= 0 {
        NothingEvicted(view.flat, backendID, count);
        return;
      }
      var removals, toEvict := Choose(backendID, count);
      RemoveGroups(removals, toEvict, backendID);
    }

    /** Removes the grouped entries and counts them out. */
    method RemoveGroups(removals: map<Node, seq<int>>, n: nat, backendID: string)
      requires Valid() && removals.Keys <= view.nodes.Values
      requires AllSit(removals, removals.Keys, backendID)
      requires |view.flat - KeysAt(removals.Keys, backendID)| == |view.flat| - n
      modifies this`view, this`entryCount, view.nodes.Values`entries
      ensures Valid() && view == old(view).(flat := old(view.flat) - KeysAt(removals.Keys, backendID))
      ensures AllOthersKept(backendID)
    {
      RemoveAll(removals, backendID);
      entryCount := entryCount - n;
    }

    // -------------------------------------------------------------------------------------------
    // Statistics
    // -------------------------------------------------------------------------------------------

    /** The number of entries actually stored in the nodes at the given paths. */
    ghost function Stored(paths: set<Path>): nat
      requires paths <= view.nodes.Keys
      reads this`view, view.nodes.Values
    {
      if paths == {} then 0 else
        var p :| p in paths;
        |view.nodes[p].entries| + Stored(paths - {p})
    }

    lemma {:induction false} StoredIsFlat(paths: set<Path>)
      requires Describes() && paths <= view.nodes.Keys
      ensures Stored(paths) == |KeysWithin(view.flat, paths)|
    {
      if paths == {} {
        assert KeysWithin(view.flat, paths) == {};
      } else {
        var p :| p in paths && Stored(paths) == |view.nodes[p].entries| + Stored(paths - {p});
        StoredIsFlat(paths - {p});
        StoredAt(p);
        KeysSplit(view.flat, paths, p);
      }
    }

    lemma StoredAt(p: Path)
      requires Describes() && p in view.nodes
      ensures |view.nodes[p].entries| == |KeysWithin(view.flat, {p})|
    {
      assert NodeFits(p);
      EntriesAreKeys(view.nodes[p].entries, p, view.flat);
    }

    /** The counter is the number of entries stored in all the nodes. */
    lemma EntryCountIsReal()
      requires Valid()
      ensures entryCount == Stored(view.nodes.Keys)
    {
      StoredIsFlat(view.nodes.Keys);
      assert KeysWithin(view.flat, view.nodes.Keys) == view.flat.Keys;
    }

    /** The deepest level in n's subtree, visiting the children in any order. */
    method Deepest(n: Node, depth: nat, best: nat) returns (maxDepth: nat)
      requires Valid() && IsNode(n) && depth == Length(n.path)
      ensures maxDepth >= best
      ensures forall q :: q in view.nodes && Under(q, n.path) ==> Length(q) <= maxDepth
      ensures maxDepth == best || exists q :: q in view.nodes && Length(q) == maxDepth
      decreases Subtree(view.nodes.Keys, n.path)
    {
      maxDepth := if depth > best then depth else best;
      var todo := n.children.Keys;
      while todo != {}
        invariant todo <= n.children.Keys && maxDepth >= best && maxDepth >= depth
        invariant forall h :: h in n.children && h !in todo ==> LevelsWithin(Step(n.path, h), maxDepth)
        invariant maxDepth == best || exists q :: q in view.nodes && Length(q) == maxDepth
      {
        var h :| h in todo;
        assert EdgeFits(n.path, h) && NodeFits(Step(n.path, h));
        ChildSubtreeIsSmaller(view.nodes.Keys, n.path, h);
        maxDepth := Deepest(n.children[h], depth + 1, maxDepth);
        todo := todo - {h};
      }
      forall q | q in view.nodes && Under(q, n.path)
        ensures Length(q) <= maxDepth
      {
        if q != n.path {
          BranchIsChild(q, n.path);
          UnderChild(q, n.path, Branch(q, n.path));
          assert LevelsWithin(Step(n.path, Branch(q, n.path)), maxDepth);
        }
      }
    }

    ghost predicate LevelsWithin(p: Path, d: nat)
      reads this`view
    {
      forall q :: q in view.nodes && Under(q, p) ==> Length(q) <= d
    }

    /** The counters, which are exact, and the length of the longest path. */
    method Stats() returns (stats: TreeStats)
      requires Valid()
      ensures stats.nodeCount == |view.nodes| && stats.entryCount == |view.flat|
      ensures forall q :: q in view.nodes ==> Length(q) <= stats.maxDepth
      ensures exists q :: q in view.nodes && Length(q) == stats.maxDepth
    {
      assert NodeFits(Root);
      var maxDepth := Deepest(root, 0, 0);
      forall q | q in view.nodes
        ensures Under(q, Root)
      {
        AllUnderRoot(q);
      }
      assert Length(Root) == 0;
      stats := TreeStats(nodeCount, entryCount, maxDepth);
    }
  }

  /** What a use does, entry by entry. */
  lemma RecordedEntries(flat: Flat, k: Key, now: nat)
    ensures var after := Recorded(flat, k, now);
            && after.Keys == flat.Keys + {k}
            && (k !in flat ==> after[k] == CacheEntry(k.backend, now, now, 1))
            && (k in flat ==> after[k].lastAccess == now && after[k].hitCount == flat[k].hitCount + 1)
            && (k in flat ==> after[k].insertedAt == flat[k].insertedAt)
            && forall other :: other in flat && other != k ==> after[other] == flat[other]
  {
  }

  /** What a touch does, entry by entry. */
  lemma TouchedEntries(flat: Flat, k: Key, now: nat)
    ensures var after := Touched(flat, k, now);
            && after.Keys == flat.Keys && (k !in flat ==> after == flat)
            && (k in flat ==> after[k].lastAccess == now && after[k].hitCount == flat[k].hitCount + 1)
            && (k in flat ==> after[k].insertedAt == flat[k].insertedAt)
            && forall other :: other in flat && other != k ==> after[other] == flat[other]
  {
  }

  lemma StampsAfterTouch(flat: Flat, uses: seq<Use>, k: Key, now: nat)
    ensures StampsFollow(flat, uses) ==>
              StampsFollow(Touched(flat, k, now), if k in flat then uses + [Use(k, now)] else uses)
  {
    StampsAfterUse(flat, uses, k, now);
  }

  function LastAccess(r: EntryRef): int {
    r.entry.lastAccess
  }

  lemma SameRefs(a: seq<EntryRef>, b: seq<EntryRef>, backend: string)
    requires multiset(a) == multiset(b)
    ensures |a| == |b| && KeysOf(a, backend) == KeysOf(b, backend)
    ensures forall r :: r in b ==> r in a
  {
    assert forall r :: r in a ==> r in multiset(a);
    assert forall r :: r in b ==> r in multiset(b);
    assert |multiset(a)| == |a| && |multiset(b)| == |b|;
  }

  /** Go's map access: an absent node has an empty list. */
  function Listed(removals: map<Node, seq<int>>, node: Node): seq<int> {
    if node in removals then removals[node] else []
  }

  lemma NewNode(nodes: set<Node>, node: Node, backend: string)
    requires Key(node.path, backend) !in KeysAt(nodes, backend)
    ensures node !in nodes
    ensures KeysAt(nodes + {node}, backend) == KeysAt(nodes, backend) + {Key(node.path, backend)}
  {
    assert forall n :: n in nodes ==> Key(n.path, backend) in KeysAt(nodes, backend);
  }

  lemma KeysAtMore(nodes: set<Node>, node: Node, backend: string)
    ensures KeysAt(nodes + {node}, backend) == KeysAt(nodes, backend) + {Key(node.path, backend)}
  {
  }

  lemma MoveOne<T>(todo: set<T>, done: set<T>, x: T)
    requires x in todo
    ensures (todo - {x}) + (done + {x}) == todo + done
  {
  }

  lemma KeysSplit(flat: Flat, paths: set<Path>, p: Path)
    requires p in paths
    ensures |KeysWithin(flat, paths)| == |KeysWithin(flat, {p})| + |KeysWithin(flat, paths - {p})|
  {
    var here, rest := KeysWithin(flat, {p}), KeysWithin(flat, paths - {p});
    assert KeysWithin(flat, paths) == here + rest && here !! rest;
  }

  lemma DropMore(flat: Flat, nodes: set<Node>, node: Node, backend: string)
    ensures (flat - KeysAt(nodes, backend)) - {Key(node.path, backend)} == flat - KeysAt(nodes + {node}, backend)
  {
    KeysAtMore(nodes, node, backend);
  }

  /** When all refs have different keys, each one adds a key that the ones before it do not have. */
  lemma NextKey(refs: seq<EntryRef>, i: nat, backend: string)
    requires i < |refs| && |KeysOf(refs, backend)| == |refs|
    ensures Key(refs[i].node.path, backend) !in KeysOf(refs[..i], backend)
    ensures KeysOf(refs[..i + 1], backend) == KeysOf(refs[..i], backend) + {Key(refs[i].node.path, backend)}
  {
    SplitKeys(refs, i, backend);
    SplitKeys(refs, i + 1, backend);
    KeysOfNext(refs, i, backend);
    var before, k := KeysOf(refs[..i], backend), Key(refs[i].node.path, backend);
    assert k in before ==> before + {k} == before;
  }

  lemma KeysOfNext(refs: seq<EntryRef>, i: nat, backend: string)
    requires i < |refs|
    ensures KeysOf(refs[..i + 1], backend) == KeysOf(refs[..i], backend) + {Key(refs[i].node.path, backend)}
  {
    assert refs[..i + 1] == refs[..i] + [refs[i]];
    KeysOfConcat(refs[..i], [refs[i]], backend);
    assert KeysOf([refs[i]], backend) == {Key(refs[i].node.path, backend)};
  }

  /** Dropping the keys of the n first refs in order of age is a proper eviction. */
  lemma OldestGo(refs: seq<EntryRef>, flat: Flat, n: nat, out: set<Key>, backend: string, count: int)
    requires KeysOf(refs, backend) == Mine(flat, backend) && |KeysOf(refs, backend)| == |refs|
    requires forall r :: r in refs ==> Key(r.node.path, backend) in flat && flat[Key(r.node.path, backend)] == r.entry
    requires SliceSort.Ascending(refs, LastAccess)
    requires count > 0 && n == (if count > |refs| then |refs| else count) && out == KeysOf(refs[..n], backend)
    ensures Evicted(flat, flat - out, backend, count)
    ensures |flat - out| == |flat| - n
  {
    SplitKeys(refs, n, backend);
    RemovedKeys(flat, out);
    forall g, k | g in out && k in Mine(flat, backend) - out
      ensures NoNewer(flat, g, k)
    {
      OlderThanKept(refs, flat, n, g, k, backend);
    }
  }

  lemma RemovedKeys(flat: Flat, out: set<Key>)
    requires out <= flat.Keys
    ensures flat.Keys - (flat - out).Keys == out
    ensures |flat - out| == |flat| - |out|
  {
    var after := flat - out;
    assert after.Keys == flat.Keys - out;
    assert |after.Keys| == |flat.Keys| - |out|;
    assert |after| == |after.Keys| && |flat| == |flat.Keys|;
  }

  lemma OlderThanKept(refs: seq<EntryRef>, flat: Flat, n: nat, g: Key, k: Key, backend: string)
    requires n <= |refs| && g in KeysOf(refs[..n], backend) && k in KeysOf(refs[n..], backend)
    requires forall r :: r in refs ==> Key(r.node.path, backend) in flat && flat[Key(r.node.path, backend)] == r.entry
    requires SliceSort.Ascending(refs, LastAccess)
    ensures NoNewer(flat, g, k)
  {
    var i, j := PositionOf(refs[..n], g, backend), n + PositionOf(refs[n..], k, backend);
    assert refs[i] == refs[..n][i] && refs[j] == refs[n..][j - n];
    assert LastAccess(refs[i]) <= LastAccess(refs[j]);
  }
}
