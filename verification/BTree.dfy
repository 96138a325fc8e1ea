/** BTree::insert, remove and get (src/storage/btree.cpp), run through a write transaction's pages. */
module BTrees {
  import opened Bytes
  import opened Nodes
  import opened Entries
  import opened FreeLists
  import opened Trees
  import opened TreeEdit
  import opened TreeDeletes
  import opened TreeShapes
  import opened KvTx
  import opened TxPages

  // ---------------------------------------------------------------- insert

  const SCRATCH: nat := 2 * PAGE_SIZE

  /** Store every child on a new page, and build the links to them. */
  method LinkChildren(tx: KVTX, children: seq<Node>) returns (links: seq<Entry>, ghost ptrs: seq<nat>)
    requires tx.Valid()
    requires forall i :: 0 <= i < |children| ==> children[i].es != []
    modifies tx.free`state, tx.free`g, tx.pages
    ensures tx.Valid()
    ensures |ptrs| == |children| && AllDistinct(ptrs) && ToSet(ptrs) !! old(tx.Held())
    ensures tx.Held() == old(tx.Held()) + ToSet(ptrs)
    ensures forall i :: 0 <= i < |ptrs| ==> HasNode(tx.View(), ptrs[i], children[i])
    ensures Unchanged(old(tx.Held()), old(tx.View()), tx.View())
    ensures forall p :: p in ptrs ==> !tx.Pinned(p)
    ensures links == ChildLinks(ptrs, children)
  {
    hide Items, Slot, PageBuffer.Count, KVTX.Valid;
    links, ptrs := [], [];
    for i := 0 to |children|
      invariant tx.Valid()
      invariant |ptrs| == i && AllDistinct(ptrs) && ToSet(ptrs) !! old(tx.Held())
      invariant tx.Held() == old(tx.Held()) + ToSet(ptrs)
      invariant forall j :: 0 <= j < i ==> HasNode(tx.View(), ptrs[j], children[j])
      invariant Unchanged(old(tx.Held()), old(tx.View()), tx.View())
      invariant forall p :: p in ptrs ==> !tx.Pinned(p)
      invariant links == ChildLinks(ptrs, children[..i])
    {
      var ptr := tx.PageNew(children[i]);
      assert ptr !in ToSet(ptrs);
      assert forall j :: 0 <= j < i ==> ptrs[j] in ToSet(ptrs);
      ghost var before := ptrs;
      ptrs := ptrs + [ptr];
      assert ToSet(ptrs) == ToSet(before) + {ptr};
      links := links + [Entry(ptr, children[i].es[0].key, [])];
    }
    assert children[..|children|] == children;
  }

  /** Link the children in place of entry idx. */
  method NodeReplaceChildN(tx: KVTX, node: Node, idx: nat, children: seq<Node>) returns (r: Node, ghost ptrs: seq<nat>)
    requires tx.Valid() && idx < |node.es|
    requires forall i :: 0 <= i < |children| ==> children[i].es != []
    modifies tx.free`state, tx.free`g, tx.pages
    ensures tx.Valid()
    ensures |ptrs| == |children| && AllDistinct(ptrs) && ToSet(ptrs) !! old(tx.Held())
    ensures tx.Held() == old(tx.Held()) + ToSet(ptrs)
    ensures forall i :: 0 <= i < |ptrs| ==> HasNode(tx.View(), ptrs[i], children[i])
    ensures Unchanged(old(tx.Held()), old(tx.View()), tx.View())
    ensures forall p :: p in ptrs ==> !tx.Pinned(p)
    ensures r == Node(false, node.es[..idx] + ChildLinks(ptrs, children) + node.es[idx + 1..])
  {
    var links;
    links, ptrs := LinkChildren(tx, children);
    r := Node(false, node.es[..idx] + links + node.es[idx + 1..]);
  }

  /** What tree_insert hands back: a node u not stored yet, with key in it, on pages swapped for t's. */
  ghost predicate InsertResult(t: Tree, h: nat, key: Key, val: Key, held: set<nat>, view: Pages,
                               r: Node, u: Tree, held': set<nat>, view': Pages)
  {
    && Loose(u, h, view', held') && Fits(u.Kids())
    && r == NodeOf(u) && NBytes(r) <= PAGE_SIZE + ENTRY_OVERHEAD + MAX_KEY + MAX_VAL <= SCRATCH
    && FlatT(u) == Inserted(FlatT(t), key, val)
    && Swapped(held, held', PagesF(t.Kids()), PagesF(u.Kids()))
    && Unchanged(held - PagesF(t.Kids()), view, view')
  }

  lemma LeafStep(t: Tree, h: nat, key: Key, val: Key, held: set<nat>, view: Pages, idx: int, r: Node)
    requires Loose(t, h, view, held) && t.Leaf? && NBytes(NodeOf(t)) <= PAGE_SIZE
    requires |key| <= MAX_KEY && |val| <= MAX_VAL
    requires Le(FirstKey(t), key) && IsLookup(t.es, key, idx)
    requires r == if idx >= 0 && t.es[idx].key == key then LeafUpdate(NodeOf(t), idx, key, val) else LeafInsert(NodeOf(t), idx + 1, key, val)
    ensures InsertResult(t, h, key, val, held, view, r, Leaf(0, r.es), held, view)
  {
    LeafInserted(NodeOf(t), key, val, idx, r);
    InsertedFromFirst(t.es, key, val);
  }

  lemma KidStep(t: Tree, h: nat, key: Key, val: Key, i: nat, uc: Tree, parts: seq<Node>, ptrs: seq<nat>, r: Node,
                held: seq<set<nat>>, views: seq<Pages>)
    requires |held| == 4 && |views| == 4
    requires Loose(t, h, views[0], held[0]) && t.Inner? && i < |t.kids| && h > 0 && Fits(t.kids)
    requires NBytes(NodeOf(t)) <= PAGE_SIZE
    requires |key| <= MAX_KEY && |val| <= MAX_VAL && IsLookup(Links(t.kids), key, i)
    requires Loose(uc, h - 1, views[1], held[1]) && Fits(uc.Kids()) && FlatT(uc) == Inserted(FlatT(t.kids[i]), key, val)
    requires AreParts(parts, NodeOf(uc)) && |ptrs| == |parts| && AllDistinct(ptrs)
    requires forall k :: 0 <= k < |parts| ==> NBytes(parts[k]) <= PAGE_SIZE
    requires Moves(t, i, uc, ptrs, held, views)
    requires forall k :: 0 <= k < |ptrs| ==> HasNode(views[3], ptrs[k], parts[k])
    requires r == Node(false, NodeOf(t).es[..i] + ChildLinks(ptrs, parts) + NodeOf(t).es[i + 1..])
    ensures |parts| == 2 ==> |parts[0].es| <= |NodeOf(uc).es|
    ensures |Pieces(uc, parts)| == |ptrs|
    ensures InsertResult(t, h, key, val, held[0], views[0], r, Replaced(t, i, uc, parts, ptrs), held[3], views[3])
  {
    hide Items, Slot, PageBuffer.Count, Loose, ShapedT, Shaped, FlatT, Flat, Links, Fits, Moves, Swapped, Unchanged, Sorted, IsLookup, Inserted, Replaced, Size, Pieces;
    LooseParts(t, h, views[0], held[0]);
    LooseParts(uc, h - 1, views[1], held[1]);
    KidInserted(t, h, key, val, i);
    WholeInserted(t, h, key, val, i);
    ReplacedIsLoose(t, h, i, uc, parts, ptrs, held, views);
    ReplacedContents(t, h, i, uc, parts, ptrs);
    ReplacedFits(t, h, i, uc, parts, ptrs);
    ReplacedNode(t, h, i, uc, parts, ptrs);
    InsertGrowth(t, h, key, val, i, uc, parts, ptrs, r);
  }

  /** The parent's node grows by at most one link, because the first key of the child is kept. */
  lemma InsertGrowth(t: Tree, h: nat, key: Key, val: Key, i: nat, uc: Tree, parts: seq<Node>, ptrs: seq<nat>, r: Node)
    requires ShapedT(t, h) && t.Inner? && i < |t.kids| && h > 0 && Sorted(FlatT(t)) && WithinLimits(FlatT(t))
    requires |key| <= MAX_KEY && |val| <= MAX_VAL && IsLookup(Links(t.kids), key, i)
    requires ShapedT(uc, h - 1) && WithinLimits(FlatT(uc)) && FlatT(uc) == Inserted(FlatT(t.kids[i]), key, val)
    requires AreParts(parts, NodeOf(uc)) && |ptrs| == |parts|
    requires r == Node(false, NodeOf(t).es[..i] + ChildLinks(ptrs, parts) + NodeOf(t).es[i + 1..])
    ensures NBytes(r) <= NBytes(NodeOf(t)) + ENTRY_OVERHEAD + MAX_KEY
  {
    hide Size;
    KidAccepts(t, h, key, val, i);
    NodeFirstKey(uc, h - 1);
    NodeWithinLimits(uc, h - 1);
    FirstPartKey(parts, NodeOf(uc));
    assert NodeOf(t).es[i] == Link(t.kids[i]);
    LinkGrowth(NodeOf(t), i, ptrs, parts, r);
  }

  lemma FirstPartKey(parts: seq<Node>, n: Node)
    requires AreParts(parts, n)
    ensures n.es != [] && parts[0].es[0] == n.es[0]
    ensures WithinLimits(n.es) ==> forall i :: 0 <= i < |parts| ==> |parts[i].es[0].key| <= MAX_KEY
  {
    if |parts| == 2 {
      assert n.es[|parts[0].es|] == parts[1].es[0];
    }
  }

  method TreeInsert(tx: KVTX, node: Node, key: Key, val: Key, ghost t: Tree, ghost h: nat) returns (r: Node, ghost u: Tree)
    requires tx.Valid() && Loose(t, h, tx.View(), tx.Held()) && Fits(t.Kids())
    requires node == NodeOf(t) && NBytes(node) <= PAGE_SIZE
    requires |key| <= MAX_KEY && |val| <= MAX_VAL && Le(FirstKey(t), key)
    modifies tx.free`state, tx.free`g, tx.pages
    ensures tx.Valid()
    ensures InsertResult(t, h, key, val, old(tx.Held()), old(tx.View()), r, u, tx.Held(), tx.View())
    ensures Bare(u) == Grown(Bare(t), key, val)
    decreases h
  {
    hide Items, Slot, PageBuffer.Count, Bare, Grown, SplitAt, AreParts, KVTX.Valid, KVTX.Held, KVTX.View, Loose, ShapedT, Shaped, FlatT, Flat, Links, Fits, Swapped, Unchanged, Sorted, IsLookup, Inserted, Replaced, Size, Pieces, NodeOf, Stored, Distinct, PagesF, HasNode, InsertResult;
    NodeIsSorted(t, h, tx.View(), tx.Held());
    var idx := LookupLe(node, key);
    if node.leaf {
      if idx >= 0 && node.es[idx].key == key {
        r := LeafUpdate(node, idx, key, val);
      } else {
        r := LeafInsert(node, idx + 1, key, val);
      }
      u := Leaf(0, r.es);
      LeafStep(t, h, key, val, tx.Held(), tx.View(), idx, r);
      LeafGrown(t, h, key, val, tx.Held(), tx.View(), r, u);
    } else {
      ghost var held, views := [tx.Held()], [tx.View()];
      DescendsInto(t, h, key, idx, tx.View(), tx.Held());
      ghost var c := t.kids[idx];
      var ptr := node.es[idx].ptr;
      var child := tx.PageGet(ptr, NodeOf(c));
      ghost var uc;
      var updated;
      updated, uc := TreeInsert(tx, child, key, val, c, h - 1);
      held, views := held + [tx.Held()], views + [tx.View()];
      UpdatedChild(c, h - 1, key, val, held[0], views[0], updated, uc, held[1], views[1]);

      var split := SplitIfNeeded(updated);
      PartsOf(updated, split);
      tx.PageDel(ptr);
      held, views := held + [tx.Held()], views + [tx.View()];
      ghost var ptrs;
      r, ptrs := NodeReplaceChildN(tx, node, idx, split);
      held, views := held + [tx.Held()], views + [tx.View()];
      KidStep(t, h, key, val, idx, uc, split, ptrs, r, held, views);
      NodeGrown(t, h, key, val, views[0], held[0], idx, uc, split, ptrs);
      u := Replaced(t, idx, uc, split, ptrs);
    }
  }

  lemma PartsOf(n: Node, parts: seq<Node>)
    requires 1 <= |parts| <= 2 && n.es != [] && (|parts| == 1 ==> parts[0] == n)
    requires |parts| == 2 ==> parts[0].es + parts[1].es == n.es
    requires forall i :: 0 <= i < |parts| ==> parts[i].leaf == n.leaf && parts[i].es != []
    ensures AreParts(parts, n)
  {
  }

  lemma LeafGrown(t: Tree, h: nat, key: Key, val: Key, held: set<nat>, view: Pages, r: Node, u: Tree)
    requires InsertResult(t, h, key, val, held, view, r, u, held, view) && t.Leaf? && u == Leaf(0, r.es)
    ensures Bare(u) == Grown(Bare(t), key, val)
  {
  }

  lemma NodeGrown(t: Tree, h: nat, key: Key, val: Key, view: Pages, held: set<nat>, j: nat, uc: Tree, parts: seq<Node>, ptrs: seq<nat>)
    requires Loose(t, h, view, held) && t.Inner? && h > 0 && j < |t.kids| && IsLookup(Links(t.kids), key, j)
    requires Bare(uc) == Grown(Bare(t.kids[j]), key, val)
    requires AreParts(parts, NodeOf(uc)) && (|parts| == 1 <==> NBytes(NodeOf(uc)) <= PAGE_SIZE) && |ptrs| == |parts|
    requires |parts| == 2 ==> |parts[0].es| == SplitAt(NodeOf(uc).es)
    ensures |Pieces(uc, parts)| == |ptrs| && Bare(Replaced(t, j, uc, parts, ptrs)) == Grown(Bare(t), key, val)
  {
    hide Bare, Grown, NodeOf, Size, FlatT, Sorted, IsLookup, Find, AreParts, SplitAt, Replaced, Pieces, Loose;
    LooseParts(t, h, view, held);
    InnerParts(t, h);
    LinksSorted(t.kids, h - 1);
    LookupIsFind(Links(t.kids), key, j);
    GrownByReplace(t, key, val, j, uc, parts, ptrs);
  }

  /** The child a search for key descends into is ready for the same call, and lies on a held page. */
  lemma DescendsInto(t: Tree, h: nat, key: Key, idx: int, view: Pages, held: set<nat>)
    requires Loose(t, h, view, held) && Fits(t.Kids()) && t.Inner?
    requires IsLookup(NodeOf(t).es, key, idx) && Le(FirstKey(t), key)
    ensures h > 0 && 0 <= idx < |t.kids| == |NodeOf(t).es|
    ensures forall k :: 0 <= k < |t.kids| ==> NodeOf(t).es[k].ptr == t.kids[k].ptr
    ensures Loose(t.kids[idx], h - 1, view, held) && Fits(t.kids[idx].Kids()) && NBytes(NodeOf(t.kids[idx])) <= PAGE_SIZE
    ensures HasNode(view, t.kids[idx].ptr, NodeOf(t.kids[idx]))
    ensures t.kids[idx].ptr in held && t.kids[idx].ptr !in PagesF(t.kids[idx].Kids())
    ensures Le(FirstKey(t.kids[idx]), key)
  {
    hide Flat, Sorted, Size, PagesF, StoredT, DistinctT, WithinLimits, Lt;
    NodeFirstKey(t, h);
    LookupFromFirst(NodeOf(t).es, key, idx);
    KidIsLoose(t, h, view, held, idx);
    SearchPath(t.kids, h - 1, key, idx);
    assert FitsT(t.kids[idx]);
  }

  lemma UpdatedChild(c: Tree, h: nat, key: Key, val: Key, held: set<nat>, view: Pages, r: Node, u: Tree, held': set<nat>, view': Pages)
    requires InsertResult(c, h, key, val, held, view, r, u, held', view')
    requires c.ptr in held && c.ptr !in PagesF(c.Kids())
    ensures r.es != [] && WithinLimits(r.es) && NBytes(r) <= PAGE_SIZE + ENTRY_OVERHEAD + MAX_KEY + MAX_VAL
    ensures c.ptr in held'
    ensures r == NodeOf(u) && Loose(u, h, view', held') && Fits(u.Kids()) && FlatT(u) == Inserted(FlatT(c), key, val)
    ensures Swapped(held, held', PagesF(c.Kids()), PagesF(u.Kids()))
    ensures Unchanged(held - PagesF(c.Kids()), view, view')
  {
    NodeFirstKey(u, h);
    NodeWithinLimits(u, h);
  }

  lemma NodeIsSorted(t: Tree, h: nat, view: Pages, held: set<nat>)
    requires Loose(t, h, view, held)
    ensures Sorted(NodeOf(t).es)
    ensures NodeOf(t).leaf == t.Leaf? && (t.Leaf? ==> NodeOf(t).es == t.es) && (t.Inner? ==> h > 0 && NodeOf(t).es == Links(t.kids))
  {
    if t.Inner? {
      LinksSorted(t.kids, h - 1);
    }
  }

  /** check_key_limit; the source throws where this is false. */
  predicate KeyInLimit(key: Key)
  {
    key != [] && |key| <= MAX_KEY
  }

  /** The root after tree_insert, once its node is written as one page. */
  lemma RootInserted(rt: Root, key: Key, val: Key, held: set<nat>, view: Pages, r: Node, u: Tree, held': set<nat>, view': Pages)
    requires RootOk(rt, view, held) && rt.Rooted? && KeyInLimit(key) && |val| <= MAX_VAL
    requires InsertResult(rt.t, rt.h, key, val, held, view, r, u, held', view')
    ensures held' == {rt.t.ptr} + PagesF(u.Kids()) && rt.t.ptr !in PagesF(u.Kids())
    ensures ShapedT(u, rt.h) && Distinct(u.Kids()) && Stored(view', u.Kids()) && Fits(u.Kids())
    ensures Sorted(FlatT(u)) && WithinLimits(FlatT(u)) && FirstKey(u) == []
    ensures AsMap(FlatT(u)) - {[]} == Contents(rt)[key := val]
    ensures r == NodeOf(u) && r.es != [] && WithinLimits(r.es) && NBytes(r) <= PAGE_SIZE + ENTRY_OVERHEAD + MAX_KEY + MAX_VAL
  {
    RootIsLoose(rt, view, held);
    ContentsInserted(rt, view, held, key, val);
    NodeFirstKey(u, rt.h);
    NodeWithinLimits(u, rt.h);
  }

  /**
   * Binds key to val, rewriting only the path to it. False, changing nothing, for a key or value the source throws
   * invalid_argument for. Every page fits, the root moves to a page nothing older uses, and the tree's pages are
   * exactly the held ones: none leaked.
   */
  method Insert(tx: KVTX, key: Key, val: Key, ghost rt: Root) returns (ok: bool, ghost after: Root)
    requires tx.Valid() && RootOk(rt, tx.View(), tx.Held()) && RootFits(rt) && tx.root == RootPage(rt)
    modifies tx`root, tx.free`state, tx.free`g, tx.pages
    ensures tx.Valid() && RootOk(after, tx.View(), tx.Held()) && RootFits(after) && tx.root == RootPage(after)
    ensures ok <==> KeyInLimit(key) && |val| <= MAX_VAL
    ensures !ok ==> after == rt && unchanged(tx, tx.free, tx.pages)
    ensures ok ==> Contents(after) == Contents(rt)[key := val] && !tx.Pinned(tx.root) && tx.root != 0
    ensures ok ==> BareRoot(after) == GrownRoot(BareRoot(rt), key, val)
  {
    hide Items, Slot, PageBuffer.Count, Bare, Grown, SplitAt, AreParts, GrownRoot, BareRoot, Placed, KVTX.Valid, KVTX.Held, KVTX.View, Loose, ShapedT, FlatT, Flat, Fits, Swapped, Unchanged, Sorted, Inserted, Size, Pieces, NodeOf, Stored, Distinct, PagesF, HasNode, InsertResult, RootOk, RootFits;
    after := rt;
    if !(KeyInLimit(key) && |val| <= MAX_VAL) {
      return false, rt;
    }
    ok := true;
    RootIsEmpty(rt, tx.View(), tx.Held());
    if tx.root == 0 {
      // [] orders before every permitted key, which gives LookupLe an answer >= 0 in every later search.
      var newRoot := Node(true, [Entry(0, [], []), Entry(0, key, val)]);
      tx.root := tx.PageNew(newRoot);
      after := Rooted(Leaf(tx.root, newRoot.es), 0);
      assert tx.Held() == {tx.root};
      EmptyGrown(tx.root, key, val);
      FirstRoot(tx.root, key, val, tx.View(), newRoot);
      return;
    }
    RootIsLoose(rt, tx.View(), tx.Held());
    ContentsInserted(rt, tx.View(), tx.Held(), key, val);
    ghost var held, view := tx.Held(), tx.View();
    var node := tx.PageGet(tx.root, NodeOf(rt.t));
    var updated;
    ghost var u;
    updated, u := TreeInsert(tx, node, key, val, rt.t, rt.h);
    RootInserted(rt, key, val, held, view, updated, u, tx.Held(), tx.View());
    var split := SplitIfNeeded(updated);
    PartsOf(updated, split);
    held, view := PagesF(u.Kids()), tx.View();
    tx.PageDel(tx.root);
    StoredUnchanged(held, view, tx.View(), u.Kids());
    if |split| > 1 {
      view := tx.View();
      var links;
      ghost var ptrs;
      links, ptrs := LinkChildren(tx, split);
      var newRoot := Node(false, links);
      ghost var linked := tx.View();
      tx.root := tx.PageNew(newRoot);
      StoredUnchanged(held, view, linked, u.Kids());
      StoredUnchanged(held + ToSet(ptrs), linked, tx.View(), u.Kids());
      NodesUnchanged(held + ToSet(ptrs), linked, tx.View(), ptrs, split);
      assert tx.Held() == {tx.root} + (ToSet(ptrs) + PagesF(u.Kids()));
      SplitRoot(u, rt.h, split, ptrs, tx.root, tx.View(), newRoot);
      RootSplit(rt, key, val, u, split, ptrs, tx.root);
      after := Rooted(Inner(tx.root, Placed(Pieces(u, split), ptrs)), rt.h + 1);
    } else {
      view := tx.View();
      tx.root := tx.PageNew(split[0]);
      StoredUnchanged(held, view, tx.View(), u.Kids());
      PlacedRoot(u, rt.h, tx.root, tx.View(), tx.Held());
      RootGrown(rt, key, val, u, tx.root);
      after := Rooted(u.At(tx.root), rt.h);
    }
  }

  lemma EmptyGrown(p: nat, key: Key, val: Key)
    ensures BareRoot(Rooted(Leaf(p, [Entry(0, [], []), Entry(0, key, val)]), 0)) == GrownRoot(BareRoot(Root.Empty), key, val)
  {
  }

  lemma RootGrown(rt: Root, key: Key, val: Key, u: Tree, p: nat)
    requires rt.Rooted? && Bare(u) == Grown(Bare(rt.t), key, val) && NBytes(NodeOf(u)) <= PAGE_SIZE
    ensures BareRoot(Rooted(u.At(p), rt.h)) == GrownRoot(BareRoot(rt), key, val)
  {
    hide Grown, Size, NodeOf;
    BareAt(u, p);
    BareNode(u);
  }

  lemma RootSplit(rt: Root, key: Key, val: Key, u: Tree, parts: seq<Node>, ptrs: seq<nat>, q: nat)
    requires rt.Rooted? && Bare(u) == Grown(Bare(rt.t), key, val) && NBytes(NodeOf(u)) > PAGE_SIZE
    requires AreParts(parts, NodeOf(u)) && |parts| == |ptrs| == 2 && |parts[0].es| == SplitAt(NodeOf(u).es)
    ensures |Pieces(u, parts)| == |ptrs|
    ensures BareRoot(Rooted(Inner(q, Placed(Pieces(u, parts), ptrs)), rt.h + 1)) == GrownRoot(BareRoot(rt), key, val)
  {
    hide Grown, Size, NodeOf, SplitAt, Pieces, Placed;
    BareCut(u, parts, ptrs);
    BareNode(u);
    BareKids(Inner(q, Placed(Pieces(u, parts), ptrs)));
    CutInTwo(Bare(u));
  }

  lemma CutInTwo(u: Tree)
    requires NBytes(NodeOf(u)) > PAGE_SIZE
    ensures |CutTree(u)| == 2
  {
    hide Size, SplitAt;
  }

  // ---------------------------------------------------------------- delete

  /** Overflow is the source's assert in node_append_kv: the process stops, so nothing is said of the pages. */
  datatype Outcome = NotFound | Deleted(node: Node) | Overflow

  /** A node left with a single child got that child in this transaction. */
  ghost predicate OnlyChildIsNew(tx: KVTX, u: Tree)
  {
    u.Inner? && |u.kids| == 1 ==> !tx.Pinned(u.kids[0].ptr)
  }

  /** Merge an updated child below a quarter page with its left, else its right sibling, if the result fits. */
  method ShouldMerge(tx: KVTX, node: Node, idx: nat, updated: Node, ghost t: Tree) returns (dir: MergeDir, sibling: Node)
    requires t.Inner? && node == NodeOf(t) && idx < |t.kids|
    requires forall k :: 0 <= k < |t.kids| && k != idx ==> HasNode(tx.View(), t.kids[k].ptr, NodeOf(t.kids[k]))
    ensures dir == MergeDirOf(t.kids, idx, NBytes(updated))
    ensures var quarter := 4 * NBytes(updated) <= PAGE_SIZE;
            var left := idx > 0 && NBytes(NodeOf(t.kids[idx - 1])) + NBytes(updated) - HEADER <= PAGE_SIZE;
            var right := idx + 1 < |t.kids| && NBytes(NodeOf(t.kids[idx + 1])) + NBytes(updated) - HEADER <= PAGE_SIZE;
            (dir.MergeLeft? <==> quarter && left) && (dir.MergeRight? <==> quarter && !left && right)
    ensures dir.MergeLeft? ==> idx > 0 && sibling == NodeOf(t.kids[idx - 1])
    ensures dir.MergeRight? ==> idx + 1 < |t.kids| && sibling == NodeOf(t.kids[idx + 1])
  {
    hide Size;
    sibling := Node(true, []);
    if NBytes(updated) > MERGE_BELOW {
      return NoMerge, sibling;
    }
    if idx > 0 {
      sibling := tx.PageGet(node.es[idx - 1].ptr, NodeOf(t.kids[idx - 1]));
      var merged := NBytes(sibling) + NBytes(updated) - HEADER;
      if merged <= PAGE_SIZE {
        return MergeLeft, sibling;
      }
    }
    if idx + 1 < |node.es| {
      sibling := tx.PageGet(node.es[idx + 1].ptr, NodeOf(t.kids[idx + 1]));
      var merged := NBytes(sibling) + NBytes(updated) - HEADER;
      if merged <= PAGE_SIZE {
        return MergeRight, sibling;
      }
    }
    dir := NoMerge;
  }

  /** The siblings of a freed child are still in place. */
  lemma SiblingsInPlace(t: Tree, h: nat, i: nat, uc: Tree, held: seq<set<nat>>, views: seq<Pages>)
    requires |held| == 3 && |views| == 3
    requires Loose(t, h, views[0], held[0]) && t.Inner? && i < |t.kids|
    requires Swapped(held[0], held[1], PagesF(t.kids[i].Kids()), PagesF(uc.Kids()))
    requires held[2] == held[1] - {t.kids[i].ptr}
    requires Unchanged(held[0] - PagesF(t.kids[i].Kids()), views[0], views[1]) && Unchanged(held[2], views[1], views[2])
    ensures forall k :: 0 <= k < |t.kids| && k != i ==> t.kids[k].ptr in held[2] && HasNode(views[2], t.kids[k].ptr, NodeOf(t.kids[k]))
  {
    forall k | 0 <= k < |t.kids| && k != i
      ensures t.kids[k].ptr in held[2] && HasNode(views[2], t.kids[k].ptr, NodeOf(t.kids[k]))
    {
      KidApart(t.kids, i, k);
      assert StoredT(views[0], t.kids[k]);
      PagesOfKid(t.kids, k);
      PagesSingleton(t.kids[k]);
      PagesSingleton(t.kids[i]);
    }
  }

  lemma KidApart(kids: seq<Tree>, i: nat, k: nat)
    requires i < |kids| && k < |kids| && i != k && Distinct(kids)
    ensures PagesT(kids[k]) !! PagesT(kids[i])
  {
    DistinctAroundKid(kids, i);
    if k < i {
      PagesOfKid(kids[..i], k);
    } else {
      PagesOfKid(kids[i + 1..], k - i - 1);
    }
  }

  method TreeDelete(tx: KVTX, node: Node, key: Key, ghost t: Tree, ghost h: nat) returns (r: Outcome, ghost u: Tree)
    requires tx.Valid() && Loose(t, h, tx.View(), tx.Held()) && Fits(t.Kids())
    requires node == NodeOf(t) && NBytes(node) <= PAGE_SIZE && Le(FirstKey(t), key)
    modifies tx.free`state, tx.free`g, tx.pages
    ensures r.NotFound? <==> !Has(FlatT(t), key)
    ensures r.NotFound? ==> unchanged(tx.free, tx.pages) && tx.Valid()
    ensures !r.NotFound? ==> (r.Overflow? <==> !DeleteFits(t, key))
    ensures r.Deleted? ==> tx.Valid() && NBytes(r.node) <= PAGE_SIZE
    ensures r.Deleted? ==> DeleteResult(t, h, key, old(tx.Held()), old(tx.View()), r.node, u, tx.Held(), tx.View())
    ensures r.Deleted? ==> OnlyChildIsNew(tx, u)
    ensures r.Deleted? ==> Bare(u) == Pruned(Bare(t), key)
    decreases h
  {
    hide Items, Slot, PageBuffer.Count, KVTX.Valid, KVTX.Held, KVTX.View, Loose, ShapedT, Shaped, FlatT, Flat, Links, Fits, Swapped, Unchanged, Sorted, IsLookup, Removed, Replaced, Size, Pieces, NodeOf, Stored, Distinct, PagesF, HasNode, DeleteResult, DeleteFits, AfterBytes, MergeDirOf, Bare, Pruned;
    u := t;
    NodeIsSorted(t, h, tx.View(), tx.Held());
    var idx := LookupLe(node, key);
    if node.leaf {
      FindHas(node.es, key, idx);
      LeafParts(t);
      if idx >= 0 && node.es[idx].key == key {
        r := Deleted(LeafDelete(node, idx));
        u := Leaf(0, r.node.es);
        LeafPruned(t, h, key, idx, tx.View(), tx.Held());
        LeafDeleteStep(t, h, key, tx.Held(), tx.View(), idx);
        return;
      }
      return NotFound, t;
    }
    r, u := NodeDelete(tx, node, idx, key, t, h);
  }

  lemma LeafParts(t: Tree)
    requires t.Leaf?
    ensures FlatT(t) == t.es == NodeOf(t).es
    ensures forall key :: DeleteFits(t, key)
  {
  }

  /** u is t with child i replaced by uc, wherever that is stored; if that is empty, so is u. */
  ghost predicate IsReplacement(t: Tree, i: nat, uc: Tree, updated: Node, u: Tree)
  {
    && t.Inner? && i < |t.kids|
    && if updated.es == [] then u == Inner(0, []) else exists p: nat :: u == WithKid(t, i, uc, p)
  }

  ghost function WithKid(t: Tree, i: nat, uc: Tree, p: nat): Tree
    requires t.Inner? && i < |t.kids|
  {
    Inner(0, t.kids[..i] + [uc.At(p)] + t.kids[i + 1..])
  }

  lemma ReplacedOne(t: Tree, i: nat, uc: Tree, updated: Node, p: nat)
    requires t.Inner? && i < |t.kids|
    ensures |Pieces(uc, [updated])| == 1 && Replaced(t, i, uc, [updated], [p]) == WithKid(t, i, uc, p)
  {
    assert Placed([uc], [p]) == [uc.At(p)];
  }

  /** A leaf without its entry for key is the leaf pruned. */
  lemma LeafPruned(t: Tree, h: nat, key: Key, idx: nat, view: Pages, held: set<nat>)
    requires Loose(t, h, view, held) && t.Leaf? && IsLookup(NodeOf(t).es, key, idx) && idx < |t.es| && t.es[idx].key == key
    ensures Bare(Leaf(0, LeafDelete(NodeOf(t), idx).es)) == Pruned(Bare(t), key)
  {
    LeafDeleted(NodeOf(t), key, idx);
  }

  /** A node whose child was pruned, and then merged with a sibling or put back, is pruned. */
  lemma NodePruned(t: Tree, h: nat, key: Key, j: nat, dir: MergeDir, updated: Node, uc: Tree, i: nat, s: Tree, w: Tree, p: nat, u: Tree)
    requires ShapedT(t, h) && t.Inner? && h > 0 && Sorted(FlatT(t)) && j < |t.kids| && IsLookup(Links(t.kids), key, j)
    requires updated == NodeOf(uc) && (uc.Leaf? <==> h == 1) && Bare(uc) == Pruned(Bare(t.kids[j]), key)
    requires dir == MergeDirOf(t.kids, j, NBytes(updated))
    requires dir.NoMerge? ==> IsReplacement(t, j, uc, updated, u)
    requires !dir.NoMerge? ==> MergePlan(t, j, dir, uc, i, s, w) && i + 1 < |t.kids| && u == Merged(t, i, w, p)
    ensures Bare(u) == Pruned(Bare(t), key)
  {
    hide Bare, Pruned, NodeOf, MergeDirOf, Merged, MergedTree, Removed, Size, FlatT, Sorted, IsLookup, Find, WithKid;
    InnerParts(t, h);
    LinksSorted(t.kids, h - 1);
    LookupIsFind(Links(t.kids), key, j);
    if dir.NoMerge? {
      if updated.es == [] {
        PrunedByReplace(t, key, j, uc, uc, u);
      } else {
        var q: nat :| u == WithKid(t, j, uc, q);
        BareAt(uc, q);
        WithKidIs(t, j, uc, q);
        PrunedByReplace(t, key, j, uc, uc.At(q), u);
      }
    } else {
      SiblingKind(t, h, j, dir, uc, i, s, w);
      PrunedByMerge(t, key, j, dir, uc, i, s, w, p);
    }
  }

  lemma WithKidIs(t: Tree, i: nat, uc: Tree, p: nat)
    requires t.Inner? && i < |t.kids|
    ensures WithKid(t, i, uc, p) == Inner(0, t.kids[..i] + [uc.At(p)] + t.kids[i + 1..])
  {
  }

  lemma ResultKind(t: Tree, h: nat, key: Key, held: set<nat>, view: Pages, r: Node, u: Tree, held': set<nat>, view': Pages)
    requires DeleteResult(t, h, key, held, view, r, u, held', view')
    ensures u.Leaf? <==> h == 0
  {
  }

  lemma SiblingKind(t: Tree, h: nat, j: nat, dir: MergeDir, uc: Tree, i: nat, s: Tree, w: Tree)
    requires ShapedT(t, h) && t.Inner? && h > 0 && j < |t.kids| && MergePlan(t, j, dir, uc, i, s, w)
    ensures s.Leaf? <==> h == 1
  {
    hide MergedTree;
    InnerParts(t, h);
    assert ShapedT(s, h - 1);
  }

  lemma MergeMoved(s: Tree, c: Tree, uc: Tree, p: nat, held: seq<set<nat>>, views: seq<Pages>)
    requires |held| == 5 && |views| == 5
    requires Swapped(held[0], held[1], PagesF(c.Kids()), PagesF(uc.Kids()))
    requires held[2] == held[1] - {c.ptr} && held[3] == held[2] - {s.ptr} && p !in held[3] && held[4] == held[3] + {p}
    requires Unchanged(held[0] - PagesF(c.Kids()), views[0], views[1]) && Unchanged(held[2], views[1], views[2])
    requires Unchanged(held[3], views[2], views[3]) && Unchanged(held[3], views[3], views[4])
    ensures MergeMoves(s, c, uc, p, held, views)
  {
  }

  lemma OnlyMergedKid(tx: KVTX, t: Tree, i: nat, w: Tree, p: nat)
    requires t.Inner? && i + 1 < |t.kids| && !tx.Pinned(p)
    ensures OnlyChildIsNew(tx, Merged(t, i, w, p))
  {
  }

  /** Free one page and store a node on another, or the same again. h3 and v3 are how the pages stood in between. */
  method SwapPage(tx: KVTX, freed: nat, node: Node) returns (ptr: nat, ghost h3: set<nat>, ghost v3: Pages)
    requires tx.Valid() && freed in tx.Held()
    modifies tx.free`state, tx.free`g, tx.pages
    ensures tx.Valid() && ptr != 0 && !tx.Pinned(ptr) && HasNode(tx.View(), ptr, node)
    ensures h3 == old(tx.Held()) - {freed} && ptr !in h3 && tx.Held() == h3 + {ptr}
    ensures Unchanged(h3, old(tx.View()), v3) && Unchanged(h3, v3, tx.View())
  {
    hide Items, Slot, PageBuffer.Count, KVTX.Valid, KVTX.Held, KVTX.View, HasNode, Unchanged;
    tx.PageDel(freed);
    h3, v3 := tx.Held(), tx.View();
    ptr := tx.PageNew(node);
  }

  /**
   * Store the merge of two neighbours, free the sibling's page, and put one link in place of two. The ghost arguments
   * say which child is being merged with which sibling, and how the pages stood so far.
   */
  method MergeChildren(tx: KVTX, node: Node, i: nat, left: Node, right: Node, freed: nat,
                       ghost key: Key, ghost dir: MergeDir, ghost t: Tree, ghost h: nat, ghost j: nat, ghost uc: Tree, ghost s: Tree,
                       ghost held: seq<set<nat>>, ghost views: seq<Pages>)
    returns (r: Node, ghost u: Tree, ghost p: nat)
    requires |held| == 3 && |views| == 3 && held[2] == tx.Held() && views[2] == tx.View() && tx.Valid()
    requires Loose(t, h, views[0], held[0]) && t.Inner? && h > 0 && Fits(t.kids) && node == NodeOf(t)
    requires j < |t.kids| && |node.es| == |t.kids| && IsLookup(Links(t.kids), key, j)
    requires var updated := if dir.MergeLeft? then right else left;
             && DeleteResult(t.kids[j], h - 1, key, held[0], views[0], updated, uc, held[1], views[1])
             && dir == MergeDirOf(t.kids, j, NBytes(updated)) && MergePlan(t, j, dir, uc, i, s, if dir.MergeLeft? then MergedTree(s, uc) else MergedTree(uc, s))
    requires (if dir.MergeLeft? then left else right) == NodeOf(s) && freed == s.ptr
    requires held[2] == held[1] - {t.kids[j].ptr} && Unchanged(held[2], views[1], views[2]) && freed in held[2]
    modifies tx.free`state, tx.free`g, tx.pages
    ensures tx.Valid()
    ensures DeleteResult(t, h, key, held[0], views[0], r, u, tx.Held(), tx.View()) && OnlyChildIsNew(tx, u)
    ensures i + 1 < |t.kids| && u == Merged(t, i, if dir.MergeLeft? then MergedTree(s, uc) else MergedTree(uc, s), p)
  {
    hide Items, Slot, PageBuffer.Count, KVTX.Valid, KVTX.Held, KVTX.View, HasNode, DeleteResult, Loose, Fits, Links, Swapped, Unchanged, IsLookup, Size, NodeOf, MergeDirOf, MergedTree, PagesF, Merged, MergeMoves, NodeReplace2Child, MergePlan, OnlyChildIsNew;
    ghost var updated := if dir.MergeLeft? then right else left;
    ghost var w := if dir.MergeLeft? then MergedTree(s, uc) else MergedTree(uc, s);
    ResultParts(t.kids[j], h - 1, key, held[0], views[0], updated, uc, held[1], views[1]);
    LooseParts(t, h, views[0], held[0]);
    MergedNodeFacts(t, h, key, j, dir, updated, uc, i, s, w, held[0], views[0], held[1], views[1]);
    var merged := NodeMerge(left, right);
    var ptr;
    ghost var h3, v3;
    ptr, h3, v3 := SwapPage(tx, freed, merged);
    p := ptr;
    r := NodeReplace2Child(node, i, ptr, merged.es[0].key);
    u := Merged(t, i, w, p);
    ghost var hs, vs := [held[0], held[1], held[2], h3, tx.Held()], [views[0], views[1], views[2], v3, tx.View()];
    MergeMoved(s, t.kids[j], uc, p, hs, vs);
    OnlyMergedKid(tx, t, i, w, p);
    MergeStep(t, h, key, j, dir, updated, uc, i, s, w, p, r, hs, vs);
  }

  /** Without a merge: link the updated child in place of the old one, or become empty with it. */
  method ReplaceChild(tx: KVTX, node: Node, idx: nat, updated: Node, ghost key: Key, ghost t: Tree, ghost h: nat, ghost uc: Tree,
                      ghost held: seq<set<nat>>, ghost views: seq<Pages>)
    returns (r: Node, ghost u: Tree)
    requires |held| == 3 && |views| == 3 && held[2] == tx.Held() && views[2] == tx.View() && tx.Valid()
    requires Loose(t, h, views[0], held[0]) && t.Inner? && h > 0 && Fits(t.kids) && node == NodeOf(t)
    requires idx < |t.kids| && |node.es| == |t.kids| && IsLookup(Links(t.kids), key, idx)
    requires DeleteResult(t.kids[idx], h - 1, key, held[0], views[0], updated, uc, held[1], views[1]) && NBytes(updated) <= PAGE_SIZE
    requires MergeDirOf(t.kids, idx, NBytes(updated)).NoMerge?
    requires held[2] == held[1] - {t.kids[idx].ptr} && Unchanged(held[2], views[1], views[2])
    modifies tx.free`state, tx.free`g, tx.pages
    ensures tx.Valid()
    ensures DeleteResult(t, h, key, held[0], views[0], r, u, tx.Held(), tx.View()) && OnlyChildIsNew(tx, u)
    ensures IsReplacement(t, idx, uc, updated, u)
  {
    hide Items, Slot, PageBuffer.Count, KVTX.Valid, KVTX.Held, KVTX.View, HasNode, DeleteResult, Loose, Fits, Links, Swapped, Unchanged, IsLookup, Size, NodeOf, MergeDirOf, PagesF;
    if updated.es == [] {
      EmptyNodeBytes(updated);
      EmptyChildIsAlone(t.kids, idx);
      assert |node.es| == 1 && idx == 0;  // an empty child has a sibling to merge with, or none at all
      r, u := Node(false, []), Inner(0, []);
      EmptyStep(t, h, key, updated, uc, held, views);
    } else {
      ResultParts(t.kids[idx], h - 1, key, held[0], views[0], updated, uc, held[1], views[1]);
      ghost var ptrs;
      r, ptrs := NodeReplaceChildN(tx, node, idx, [updated]);
      assert ptrs == [ptrs[0]];
      u := Replaced(t, idx, uc, [updated], ptrs);
      ReplacedOne(t, idx, uc, updated, ptrs[0]);
      ghost var hs, vs := [held[0], held[1], held[2], tx.Held()], [views[0], views[1], views[2], tx.View()];
      assert Moves(t, idx, uc, ptrs, hs, vs);
      hide Moves, Replaced, WithKid;
      ReplaceStep(t, h, key, idx, updated, uc, ptrs[0], r, hs, vs);
    }
  }

  method NodeDelete(tx: KVTX, node: Node, idx: int, key: Key, ghost t: Tree, ghost h: nat) returns (r: Outcome, ghost u: Tree)
    requires tx.Valid() && Loose(t, h, tx.View(), tx.Held()) && Fits(t.Kids()) && t.Inner?
    requires node == NodeOf(t) && NBytes(node) <= PAGE_SIZE && Le(FirstKey(t), key)
    requires IsLookup(node.es, key, idx)
    modifies tx.free`state, tx.free`g, tx.pages
    ensures r.NotFound? <==> !Has(FlatT(t), key)
    ensures r.NotFound? ==> unchanged(tx.free, tx.pages) && tx.Valid()
    ensures !r.NotFound? ==> (r.Overflow? <==> !DeleteFits(t, key))
    ensures r.Deleted? ==> tx.Valid() && NBytes(r.node) <= PAGE_SIZE
    ensures r.Deleted? ==> DeleteResult(t, h, key, old(tx.Held()), old(tx.View()), r.node, u, tx.Held(), tx.View())
    ensures r.Deleted? ==> OnlyChildIsNew(tx, u)
    ensures r.Deleted? ==> Bare(u) == Pruned(Bare(t), key)
    decreases h, 0
  {
    hide Items, Slot, PageBuffer.Count, KVTX.Valid, KVTX.Held, KVTX.View, Loose, ShapedT, Shaped, FlatT, Flat, Links, Fits, Swapped, Unchanged, Sorted, IsLookup, Removed, Size, NodeOf, Stored, Distinct, PagesF, HasNode, DeleteResult, DeleteFits, AfterBytes, MergeDirOf, Bare, Pruned, MergedTree, Merged, IsReplacement;
    u := t;
    ghost var h0, v0 := tx.Held(), tx.View();
    DescendsInto(t, h, key, idx, v0, h0);
    LooseParts(t, h, v0, h0);
    ghost var c := t.kids[idx];
    var ptr := node.es[idx].ptr;
    var child := tx.PageGet(ptr, NodeOf(c));
    ghost var uc;
    r, uc := TreeDelete(tx, child, key, c, h - 1);
    InnerParts(t, h);
    KidRemoved(t, h, key, idx);
    FitsExactly(t, h, key, idx);
    if !r.Deleted? {
      return;
    }
    var updated := r.node;
    ghost var h1, v1 := tx.Held(), tx.View();
    ResultParts(c, h - 1, key, h0, v0, updated, uc, h1, v1);
    tx.PageDel(ptr);
    ghost var h2, v2 := tx.Held(), tx.View();
    SiblingsInPlace(t, h, idx, uc, [h0, h1, h2], [v0, v1, v2]);
    var dir, sibling := ShouldMerge(tx, node, idx, updated, t);
    var newNode;
    ghost var p := 0;
    match dir {
      case MergeLeft =>
        newNode, u, p := MergeChildren(tx, node, idx - 1, sibling, updated, node.es[idx - 1].ptr, key, dir, t, h, idx, uc, t.kids[idx - 1], [h0, h1, h2], [v0, v1, v2]);
      case MergeRight =>
        newNode, u, p := MergeChildren(tx, node, idx, updated, sibling, node.es[idx + 1].ptr, key, dir, t, h, idx, uc, t.kids[idx + 1], [h0, h1, h2], [v0, v1, v2]);
      case NoMerge =>
        newNode, u := ReplaceChild(tx, node, idx, updated, key, t, h, uc, [h0, h1, h2], [v0, v1, v2]);
    }
    ResultKind(c, h - 1, key, h0, v0, updated, uc, h1, v1);
    ghost var s := if dir.MergeLeft? then t.kids[idx - 1] else if dir.MergeRight? then t.kids[idx + 1] else c;
    NodePruned(t, h, key, idx, dir, updated, uc, if dir.MergeLeft? then idx - 1 else idx, s,
               if dir.MergeLeft? then MergedTree(s, uc) else MergedTree(uc, s), p, u);
    ResultParts(t, h, key, h0, v0, newNode, u, tx.Held(), tx.View());
    if NBytes(newNode) > PAGE_SIZE {
      return Overflow, t;
    }
    r := Deleted(newNode);
  }

  lemma EmptyNodeBytes(n: Node)
    requires n.es == []
    ensures NBytes(n) == HEADER
  {
  }

  datatype Removal = Rejected | Absent | Unbound | Aborted

  /** The root after tree_delete, before it is written or its level dropped. */
  lemma RootDeleted(rt: Root, key: Key, held: set<nat>, view: Pages, r: Node, u: Tree, held': set<nat>, view': Pages)
    requires RootOk(rt, view, held) && rt.Rooted? && KeyInLimit(key)
    requires DeleteResult(rt.t, rt.h, key, held, view, r, u, held', view')
    ensures r.es != [] && r == NodeOf(u)
    ensures held' == {rt.t.ptr} + PagesF(u.Kids()) && rt.t.ptr !in PagesF(u.Kids())
    ensures ShapedT(u, rt.h) && Distinct(u.Kids()) && Stored(view', u.Kids()) && Fits(u.Kids())
    ensures Sorted(FlatT(u)) && WithinLimits(FlatT(u)) && FirstKey(u) == []
    ensures AsMap(FlatT(u)) - {[]} == Contents(rt) - {key}
  {
    hide Sorted, WithinLimits, Stored, Distinct, PagesF, Removed, AsMap, ShapedT, Fits, AfterBytes, Size, NodeOf;
    RootIsLoose(rt, view, held);
    SentinelStays(rt, view, held, key);
  }

  lemma SentinelStays(rt: Root, view: Pages, held: set<nat>, key: Key)
    requires RootOk(rt, view, held) && rt.Rooted? && KeyInLimit(key)
    ensures Removed(FlatT(rt.t), key) != [] && Removed(FlatT(rt.t), key)[0].key == []
    ensures AsMap(Removed(FlatT(rt.t), key)) == AsMap(FlatT(rt.t)) - {key}
  {
    RootIsLoose(rt, view, held);
    RemovedSorted(FlatT(rt.t), key);
    AsMapRemoved(FlatT(rt.t), key);
  }

  lemma PresentInContents(rt: Root, view: Pages, held: set<nat>, key: Key)
    requires RootOk(rt, view, held) && rt.Rooted? && key != []
    ensures key in Contents(rt) <==> Has(FlatT(rt.t), key)
    ensures Le(FirstKey(rt.t), key)
  {
    AsMapKeys(FlatT(rt.t));
    LtIsStrictTotalOrder();
  }

  /** An internal root with one child gives way to that child. */
  lemma DroppedLevel(u: Tree, h: nat, view: Pages)
    requires ShapedT(u, h) && u.Inner? && |u.kids| == 1
    requires Distinct(u.kids) && Stored(view, u.kids) && Fits(u.kids) && 0 !in PagesF(u.kids)
    requires Sorted(FlatT(u)) && WithinLimits(FlatT(u)) && FirstKey(u) == []
    ensures h > 0 && RootOk(Rooted(u.kids[0], h - 1), view, PagesF(u.kids)) && RootFits(Rooted(u.kids[0], h - 1))
    ensures FlatT(u.kids[0]) == FlatT(u)
  {
    assert u.kids == [u.kids[0]];
    FlatSingleton(u.kids[0]);
    PagesSingleton(u.kids[0]);
    DistinctSingleton(u.kids[0]);
  }

  /** The root kept, or the only child in its place, as PrunedRoot has it. */
  lemma RootPruned(rt: Root, key: Key, u: Tree, p: nat)
    requires rt.Rooted? && Bare(u) == Pruned(Bare(rt.t), key) && ShapedT(u, rt.h)
    ensures PrunedRoot(BareRoot(rt), key) ==
            if u.Inner? && |u.kids| == 1 && rt.h > 0 then BareRoot(Rooted(u.kids[0], rt.h - 1)) else BareRoot(Rooted(u.At(p), rt.h))
  {
    hide Pruned, ShapedT;
    BareKids(u);
    BareAt(u, p);
  }

  /**
   * Unbinds key, rewriting only the path to it. Rejected is the source's throw, Absent its false; both change nothing.
   * Aborted is the assert of a page overflowing, which happens exactly when the key is present and DeleteFits fails.
   */
  method Remove(tx: KVTX, key: Key, ghost rt: Root) returns (r: Removal, ghost after: Root)
    requires tx.Valid() && RootOk(rt, tx.View(), tx.Held()) && RootFits(rt) && tx.root == RootPage(rt)
    modifies tx`root, tx.free`state, tx.free`g, tx.pages
    ensures r.Rejected? <==> !KeyInLimit(key)
    ensures KeyInLimit(key) ==> (r.Absent? <==> key !in Contents(rt))
    ensures KeyInLimit(key) && key in Contents(rt) ==> (r.Aborted? <==> !RootDeleteFits(rt, key))
    ensures r.Rejected? || r.Absent? ==> after == rt && unchanged(tx, tx.free, tx.pages)
    ensures !r.Aborted? ==> tx.Valid() && RootOk(after, tx.View(), tx.Held()) && RootFits(after) && tx.root == RootPage(after)
    ensures r.Unbound? ==> Contents(after) == Contents(rt) - {key} && !tx.Pinned(tx.root) && tx.root != 0
    ensures r.Unbound? ==> BareRoot(after) == PrunedRoot(BareRoot(rt), key)
  {
    hide Items, Slot, PageBuffer.Count, Bare, Pruned, BareRoot, PrunedRoot, KVTX.Valid, KVTX.Held, KVTX.View, Loose, ShapedT, FlatT, Flat, Fits, Swapped, Unchanged, Sorted, Size, NodeOf, Stored, Distinct, PagesF, HasNode, DeleteResult, RootOk, RootFits, DeleteFits, AfterBytes;
    after := rt;
    if !KeyInLimit(key) {
      return Rejected, rt;
    }
    RootIsEmpty(rt, tx.View(), tx.Held());
    if tx.root == 0 {
      return Absent, rt;
    }
    RootIsLoose(rt, tx.View(), tx.Held());
    PresentInContents(rt, tx.View(), tx.Held(), key);
    ghost var held, view := tx.Held(), tx.View();
    var node := tx.PageGet(tx.root, NodeOf(rt.t));
    var d;
    ghost var u;
    d, u := TreeDelete(tx, node, key, rt.t, rt.h);
    match d {
      case NotFound => return Absent, rt;
      case Overflow => return Aborted, rt;
      case Deleted(updated) =>
        r := Unbound;
        RootDeleted(rt, key, held, view, updated, u, tx.Held(), tx.View());
        held, view := PagesF(u.Kids()), tx.View();
        tx.PageDel(tx.root);
        StoredUnchanged(held, view, tx.View(), u.Kids());
        tx.HeldIsNonZero();
        NodeKind(u);
        RootPruned(rt, key, u, tx.root);
        if !updated.leaf && |updated.es| == 1 {
          // Only one child is left: drop this level.
          tx.root := updated.es[0].ptr;
          DroppedLevel(u, rt.h, tx.View());
          after := Rooted(u.kids[0], rt.h - 1);
        } else {
          view := tx.View();
          tx.root := tx.PageNew(updated);
          StoredUnchanged(held, view, tx.View(), u.Kids());
          PlacedRoot(u, rt.h, tx.root, tx.View(), tx.Held());
          after := Rooted(u.At(tx.root), rt.h);
          RootPruned(rt, key, u, tx.root);
        }
    }
  }

  lemma NodeKind(u: Tree)
    ensures NodeOf(u).leaf == u.Leaf?
    ensures u.Inner? ==> |NodeOf(u).es| == |u.kids| && (forall k :: 0 <= k < |u.kids| ==> NodeOf(u).es[k].ptr == u.kids[k].ptr)
  {
  }
}
