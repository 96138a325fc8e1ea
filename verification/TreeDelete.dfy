/** Deletion: what it does to sizes, when a page would overflow, and how two siblings become one. */
module TreeDeletes {
  import opened Bytes
  import opened Nodes
  import opened Entries
  import opened FreeLists
  import opened Trees
  import opened TreeEdit

  datatype MergeDir = NoMerge | MergeLeft | MergeRight

  const MERGE_BELOW: nat := PAGE_SIZE / 4

  // ------------------------------------------------------------------ sizes

  /** should_merge, from the sizes alone: child i is about to have bytes bytes. */
  ghost function MergeDirOf(kids: seq<Tree>, i: nat, bytes: int): MergeDir
    requires i < |kids|
  {
    if bytes > MERGE_BELOW then NoMerge
    else if i > 0 && NBytes(NodeOf(kids[i - 1])) + bytes - HEADER <= PAGE_SIZE then MergeLeft
    else if i + 1 < |kids| && NBytes(NodeOf(kids[i + 1])) + bytes - HEADER <= PAGE_SIZE then MergeRight
    else NoMerge
  }

  /** The size of the parent's node once child i holds rest in bytes bytes. */
  ghost function InnerBytes(kids: seq<Tree>, i: nat, bytes: int, rest: seq<Entry>): int
    requires i < |kids|
  {
    var links := Links(kids);
    var before := NBytes(Node(false, links));
    match MergeDirOf(kids, i, bytes)
    case MergeLeft => before - EntrySize(links[i])
    case MergeRight =>
      before - EntrySize(links[i]) - EntrySize(links[i + 1]) + ENTRY_OVERHEAD + |(if rest == [] then links[i + 1].key else rest[0].key)|
    case NoMerge => if rest == [] then HEADER else before - |links[i].key| + |rest[0].key|
  }

  /** The size of t's node after deleting key below it, computed before the call. */
  ghost function AfterBytes(t: Tree, key: Key): int
  {
    match t
    case Leaf(_, es) =>
      var i := Find(es, key);
      NBytes(Node(true, es)) - if i >= 0 then EntrySize(es[i]) else 0
    case Inner(_, kids) =>
      var i := Find(Links(kids), key);
      if i < 0 then HEADER else InnerBytes(kids, i, AfterBytes(kids[i], key), Removed(FlatT(kids[i]), key))
  }

  /**
   * The exact condition under which deleting key overflows no page: wherever the search path passes a separator equal
   * to key, the node still fits with the next key in its place. Other separators on the path cannot grow.
   */
  ghost predicate DeleteFits(t: Tree, key: Key)
  {
    match t
    case Leaf(_, _) => true
    case Inner(_, kids) =>
      var i := Find(Links(kids), key);
      i >= 0 ==>
        && DeleteFits(kids[i], key)
        && (Links(kids)[i].key == key ==> InnerBytes(kids, i, AfterBytes(kids[i], key), Removed(FlatT(kids[i]), key)) <= PAGE_SIZE)
  }

  /** A separator other than the deleted key keeps its key, so the node does not grow. */
  lemma OtherSeparatorsDoNotGrow(kids: seq<Tree>, i: nat, bytes: int, key: Key)
    requires i < |kids| && FlatT(kids[i]) != [] && Links(kids)[i].key != key
    ensures InnerBytes(kids, i, bytes, Removed(FlatT(kids[i]), key)) <= NBytes(Node(false, Links(kids)))
  {
    var m := FlatT(kids[i]);
    assert Links(kids)[i].key == m[0].key;
    assert Removed(m, key) == [m[0]] + Removed(m[1..], key);
  }

  // ---------------------------------------------------------------- removal

  lemma RemovedWithinLimits(es: seq<Entry>, key: Key)
    requires Sorted(es) && WithinLimits(es)
    ensures Sorted(Removed(es, key)) && WithinLimits(Removed(es, key))
  {
    RemovedSorted(es, key);
    if Has(es, key) {
      var r :| 0 <= r < |es| && es[r].key == key;
      RemovedAt(es, key, r);
    }
  }

  /** Removing from child i removes from the whole; key is in the whole exactly if it is in child i. */
  lemma KidRemoved(t: Tree, h: nat, key: Key, i: nat)
    requires ShapedT(t, h) && t.Inner? && Sorted(FlatT(t))
    requires i < |t.kids| && IsLookup(Links(t.kids), key, i)
    ensures Flat(t.kids[..i]) + Removed(FlatT(t.kids[i]), key) + Flat(t.kids[i + 1..]) == Removed(FlatT(t), key)
    ensures Has(FlatT(t), key) <==> Has(FlatT(t.kids[i]), key)
  {
    hide *;
    InnerParts(t, h);
    SearchPath(t.kids, h - 1, key, i);
    FlatAroundKid(t.kids, i);
    RemovedWithin(Flat(t.kids[..i]), FlatT(t.kids[i]), Flat(t.kids[i + 1..]), key);
  }

  /** leaf_delete at the position found. */
  lemma LeafDeleted(node: Node, key: Key, idx: nat)
    requires node.leaf && Sorted(node.es) && WithinLimits(node.es) && IsLookup(node.es, key, idx)
    requires idx < |node.es| && node.es[idx].key == key
    ensures LeafDelete(node, idx) == Node(true, Removed(node.es, key))
    ensures NBytes(LeafDelete(node, idx)) == NBytes(node) - EntrySize(node.es[idx])
    ensures idx == Find(node.es, key)
  {
    RemovedAt(node.es, key, idx);
    LookupIsFind(node.es, key, idx);
    SizeAppend(node.es[..idx], node.es[idx + 1..]);
    SizeCut(node.es, idx + 1);
    SizeStep(node.es, idx);
  }

  // ------------------------------------------------------------------ merging

  /** What node_merge makes of two neighbours. */
  ghost function MergedTree(a: Tree, b: Tree): Tree
  {
    if a.Leaf? && b.Leaf? then Leaf(0, a.es + b.es) else Inner(0, a.Kids() + b.Kids())
  }

  lemma MergedLinks(a: Tree, b: Tree)
    requires a.Leaf? <==> b.Leaf?
    ensures NodeOf(MergedTree(a, b)) == NodeMerge(NodeOf(a), NodeOf(b))
  {
    hide FlatT, FirstKey;
    if a.Inner? {
      assert Links(a.kids + b.kids) == Links(a.kids) + Links(b.kids);
    }
  }

  lemma MergedParts(a: Tree, b: Tree)
    requires a.Leaf? <==> b.Leaf?
    ensures NodeOf(MergedTree(a, b)) == NodeMerge(NodeOf(a), NodeOf(b))
    ensures FlatT(MergedTree(a, b)) == FlatT(a) + FlatT(b)
    ensures MergedTree(a, b).Kids() == a.Kids() + b.Kids()
    ensures NBytes(NodeOf(MergedTree(a, b))) == NBytes(NodeOf(a)) + NBytes(NodeOf(b)) - HEADER
  {
    MergedLinks(a, b);
    hide NodeOf, Size, Flat;
    SizeAppend(NodeOf(a).es, NodeOf(b).es);
    FlatAppend(a.Kids(), b.Kids());
  }

  /** t with children i and i + 1 replaced by w, stored at p. */
  ghost function Merged(t: Tree, i: nat, w: Tree, p: nat): Tree
    requires t.Inner? && i + 1 < |t.kids|
  {
    Inner(0, t.kids[..i] + [w.At(p)] + t.kids[i + 2..])
  }

  lemma CutAtPair(kids: seq<Tree>, i: nat)
    requires i + 1 < |kids|
    ensures kids == kids[..i] + [kids[i], kids[i + 1]] + kids[i + 2..]
  {
  }

  lemma PairFacts(a: Tree, b: Tree)
    ensures Flat([a, b]) == FlatT(a) + FlatT(b)
    ensures PagesF([a, b]) == PagesT(a) + PagesT(b)
    ensures Distinct([a, b]) <==> DistinctT(a) && DistinctT(b) && PagesT(a) !! PagesT(b)
  {
    assert [a, b][1..] == [b] && [b][1..] == [];
    assert Flat([b]) == FlatT(b) + Flat([]) && PagesF([b]) == PagesT(b) + PagesF([]);
    assert Distinct([b]) <==> DistinctT(b);
  }

  lemma PagesAroundPair(kids: seq<Tree>, i: nat)
    requires i + 1 < |kids|
    ensures PagesF(kids) == PagesF(kids[..i]) + (PagesT(kids[i]) + PagesT(kids[i + 1])) + PagesF(kids[i + 2..])
  {
    hide *;
    CutAtPair(kids, i);
    PagesAround(kids[..i], [kids[i], kids[i + 1]], kids[i + 2..]);
    PairFacts(kids[i], kids[i + 1]);
  }

  lemma DistinctAroundPair(kids: seq<Tree>, i: nat)
    requires i + 1 < |kids| && Distinct(kids)
    ensures Distinct(kids[..i]) && Distinct(kids[i + 2..])
    ensures DistinctT(kids[i]) && DistinctT(kids[i + 1]) && PagesT(kids[i]) !! PagesT(kids[i + 1])
    ensures PagesF(kids[..i]) !! PagesT(kids[i]) + PagesT(kids[i + 1])
    ensures PagesF(kids[i + 2..]) !! PagesT(kids[i]) + PagesT(kids[i + 1])
    ensures PagesF(kids[..i]) !! PagesF(kids[i + 2..])
  {
    hide *;
    CutAtPair(kids, i);
    DistinctAround(kids[..i], [kids[i], kids[i + 1]], kids[i + 2..]);
    PairFacts(kids[i], kids[i + 1]);
  }

  lemma HeldAfterMerge(held: set<nat>, l: set<nat>, sp: nat, sk: set<nat>, cp: nat, ck: set<nat>, r: set<nat>, uk: set<nat>, p: nat)
    requires l + ({sp} + sk) + ({cp} + ck) + r <= held
    requires l !! ({sp} + sk) + ({cp} + ck) && r !! ({sp} + sk) + ({cp} + ck) && l !! r
    requires ({sp} + sk) !! ({cp} + ck) && sp !in sk && cp !in ck
    requires uk !! (held - ck) && p !in (((held - ck) + uk) - {cp}) - {sp}
    ensures ((((held - ck) + uk) - {cp}) - {sp}) + {p} ==
            (held - (l + (({sp} + sk) + ({cp} + ck)) + r)) + (l + ({p} + (sk + uk)) + r)
    ensures l + ({p} + (sk + uk)) + r !! held - (l + (({sp} + sk) + ({cp} + ck)) + r)
    ensures l !! {p} + (sk + uk) && r !! {p} + (sk + uk) && p !in sk + uk && sk !! uk
  {
  }

  /** held through node_delete with a merge: child rebuilt, its page freed, the sibling's page freed, one page taken. */
  ghost predicate MergeMoves(s: Tree, c: Tree, uc: Tree, p: nat, held: seq<set<nat>>, views: seq<Pages>)
    requires |held| == 5 && |views| == 5
  {
    && Swapped(held[0], held[1], PagesF(c.Kids()), PagesF(uc.Kids()))
    && held[2] == held[1] - {c.ptr}
    && held[3] == held[2] - {s.ptr}
    && p !in held[3] && held[4] == held[3] + {p}
    && Unchanged(held[0] - PagesF(c.Kids()), views[0], views[1])
    && Unchanged(held[2], views[1], views[2])
    && Unchanged(held[3], views[2], views[3])
    && Unchanged(held[3], views[3], views[4])
  }

  /** The pair at i consists of the rebuilt child c and its sibling s, in either order. */
  ghost predicate IsPair(t: Tree, i: nat, s: Tree, c: Tree)
  {
    t.Inner? && i + 1 < |t.kids| && ((s == t.kids[i] && c == t.kids[i + 1]) || (c == t.kids[i] && s == t.kids[i + 1]))
  }

  lemma PairPages(t: Tree, i: nat, s: Tree, c: Tree, held: set<nat>)
    requires IsPair(t, i, s, c) && Distinct(t.kids) && PagesF(t.kids) <= held
    ensures var sp, sk, cp, ck, l, r := s.ptr, PagesF(s.Kids()), c.ptr, PagesF(c.Kids()), PagesF(t.kids[..i]), PagesF(t.kids[i + 2..]);
            && PagesF(t.kids) == l + (({sp} + sk) + ({cp} + ck)) + r
            && l !! ({sp} + sk) + ({cp} + ck) && r !! ({sp} + sk) + ({cp} + ck) && l !! r
            && ({sp} + sk) !! ({cp} + ck) && sp !in sk && cp !in ck
            && Distinct(t.kids[..i]) && Distinct(t.kids[i + 2..]) && Distinct(s.Kids())
  {
    hide PagesF, PagesT, Distinct, DistinctT;
    PagesAroundPair(t.kids, i);
    DistinctAroundPair(t.kids, i);
    PagesSingleton(s);
    PagesSingleton(c);
    DistinctSingleton(s);
    DistinctSingleton(c);
  }

  lemma MergedPages(t: Tree, i: nat, s: Tree, c: Tree, uc: Tree, w: Tree, p: nat, held: seq<set<nat>>, views: seq<Pages>)
    requires |held| == 5 && |views| == 5
    requires IsPair(t, i, s, c) && Distinct(t.kids) && PagesF(t.kids) <= held[0]
    requires MergeMoves(s, c, uc, p, held, views)
    requires Distinct(uc.Kids())
    requires w.Kids() == s.Kids() + uc.Kids() || w.Kids() == uc.Kids() + s.Kids()
    ensures var u := Merged(t, i, w, p);
            Distinct(u.kids) && Swapped(held[0], held[4], PagesF(t.kids), PagesF(u.kids))
  {
    hide PagesF, PagesT, Distinct, DistinctT, Unchanged;
    PairPages(t, i, s, c, held[0]);
    HeldAfterMerge(held[0], PagesF(t.kids[..i]), s.ptr, PagesF(s.Kids()), c.ptr, PagesF(c.Kids()), PagesF(t.kids[i + 2..]),
                   PagesF(uc.Kids()), p);
    PagesAppend(s.Kids(), uc.Kids());
    PagesAppend(uc.Kids(), s.Kids());
    DistinctAppend(s.Kids(), uc.Kids());
    DistinctAppend(uc.Kids(), s.Kids());
    var placed := w.At(p);
    assert placed.Kids() == w.Kids() && placed.ptr == p;
    PagesSingleton(placed);
    DistinctSingleton(placed);
    PagesAround(t.kids[..i], [placed], t.kids[i + 2..]);
    DistinctAround(t.kids[..i], [placed], t.kids[i + 2..]);
  }

  lemma MergeUnchanged(s: Tree, c: Tree, uc: Tree, p: nat, held: seq<set<nat>>, views: seq<Pages>, pages: set<nat>)
    requires |held| == 5 && |views| == 5 && MergeMoves(s, c, uc, p, held, views)
    requires pages <= held[0] - PagesF(c.Kids()) - {c.ptr} - {s.ptr}
    ensures Unchanged(pages, views[0], views[4])
  {
    hide Unchanged, PagesF;
    UnchangedLess(held[0] - PagesF(c.Kids()), pages, views[0], views[1]);
    UnchangedLess(held[2], pages, views[1], views[2]);
    UnchangedLess(held[3], pages, views[2], views[3]);
    UnchangedLess(held[3], pages, views[3], views[4]);
    UnchangedChain(pages, views[0], views[1], views[2]);
    UnchangedChain(pages, views[0], views[2], views[3]);
    UnchangedChain(pages, views[0], views[3], views[4]);
  }

  lemma MergeKeepsNewKids(s: Tree, c: Tree, uc: Tree, p: nat, held: seq<set<nat>>, views: seq<Pages>)
    requires |held| == 5 && |views| == 5 && MergeMoves(s, c, uc, p, held, views)
    requires c.ptr in held[0] - PagesF(c.Kids()) && s.ptr in held[0] - PagesF(c.Kids())
    requires Stored(views[1], uc.Kids())
    ensures Stored(views[4], uc.Kids())
  {
    var pages := PagesF(uc.Kids());
    assert pages <= held[3];
    hide Unchanged, PagesF, Stored;
    UnchangedLess(held[2], pages, views[1], views[2]);
    UnchangedLess(held[3], pages, views[2], views[3]);
    UnchangedLess(held[3], pages, views[3], views[4]);
    UnchangedChain(pages, views[1], views[2], views[3]);
    UnchangedChain(pages, views[1], views[3], views[4]);
    StoredUnchanged(pages, views[1], views[4], uc.Kids());
  }

  lemma MergedStored(t: Tree, i: nat, s: Tree, c: Tree, uc: Tree, w: Tree, p: nat, held: seq<set<nat>>, views: seq<Pages>)
    requires |held| == 5 && |views| == 5
    requires IsPair(t, i, s, c) && Distinct(t.kids) && PagesF(t.kids) <= held[0] && Stored(views[0], t.kids)
    requires MergeMoves(s, c, uc, p, held, views) && Stored(views[1], uc.Kids())
    requires w.Kids() == s.Kids() + uc.Kids() || w.Kids() == uc.Kids() + s.Kids()
    requires HasNode(views[4], p, NodeOf(w))
    ensures Stored(views[4], Merged(t, i, w, p).kids)
    ensures Unchanged(held[0] - PagesF(t.kids), views[0], views[4])
  {
    hide PagesF, Unchanged, Distinct, Stored, StoredT, NodeOf, HasNode;
    PairPages(t, i, s, c, held[0]);
    var l, r := t.kids[..i], t.kids[i + 2..];
    StoredPair(views[0], t, i, s, c);
    MergeUnchanged(s, c, uc, p, held, views, PagesF(l));
    MergeUnchanged(s, c, uc, p, held, views, PagesF(r));
    MergeUnchanged(s, c, uc, p, held, views, PagesF(s.Kids()));
    MergeUnchanged(s, c, uc, p, held, views, held[0] - PagesF(t.kids));
    StoredUnchanged(PagesF(l), views[0], views[4], l);
    StoredUnchanged(PagesF(r), views[0], views[4], r);
    StoredUnchanged(PagesF(s.Kids()), views[0], views[4], s.Kids());
    MergeKeepsNewKids(s, c, uc, p, held, views);
    StoredJoin(views[4], l, w, p, r, s.Kids(), uc.Kids());
  }

  lemma StoredPair(view: Pages, t: Tree, i: nat, s: Tree, c: Tree)
    requires IsPair(t, i, s, c) && Stored(view, t.kids)
    ensures Stored(view, t.kids[..i]) && Stored(view, t.kids[i + 2..]) && Stored(view, s.Kids())
  {
    assert StoredT(view, s);
  }

  lemma StoredJoin(view: Pages, l: seq<Tree>, w: Tree, p: nat, r: seq<Tree>, a: seq<Tree>, b: seq<Tree>)
    requires Stored(view, l) && Stored(view, r) && Stored(view, a) && Stored(view, b)
    requires w.Kids() == a + b || w.Kids() == b + a
    requires HasNode(view, p, NodeOf(w))
    ensures Stored(view, l + [w.At(p)] + r)
  {
    assert w.At(p).Kids() == w.Kids() && NodeOf(w.At(p)) == NodeOf(w);
    assert Stored(view, w.Kids());
    assert StoredT(view, w.At(p));
  }

  lemma MergedShape(t: Tree, h: nat, i: nat, w: Tree)
    requires ShapedT(t, h) && t.Inner? && i + 1 < |t.kids| && h > 0 && ShapedT(w, h - 1)
    ensures ShapedT(Inner(0, t.kids[..i] + [w] + t.kids[i + 2..]), h)
    ensures FlatT(Inner(0, t.kids[..i] + [w] + t.kids[i + 2..])) == Flat(t.kids[..i] + [w] + t.kids[i + 2..])
  {
  }

  /** node_replace_2_child */
  function NodeReplace2Child(node: Node, idx: nat, ptr: nat, key: Key): Node
    requires idx + 1 < |node.es|
  {
    Node(false, node.es[..idx] + [Entry(ptr, key, [])] + node.es[idx + 2..])
  }

  lemma MergedNode(t: Tree, h: nat, i: nat, w: Tree, p: nat)
    requires t.Inner? && i + 1 < |t.kids| && ShapedT(w, h)
    ensures NodeOf(w).es != []
    ensures NodeOf(Merged(t, i, w, p)) == NodeReplace2Child(NodeOf(t), i, p, NodeOf(w).es[0].key)
  {
    NodeFirstKey(w, h);
    assert FirstKey(w.At(p)) == FirstKey(w);
  }

  lemma Replace2Bytes(node: Node, i: nat, ptr: nat, key: Key)
    requires i + 1 < |node.es|
    ensures NBytes(NodeReplace2Child(node, i, ptr, key)) ==
            NBytes(node) - EntrySize(node.es[i]) - EntrySize(node.es[i + 1]) + ENTRY_OVERHEAD + |key|
  {
    var e := Entry(ptr, key, []);
    SizeAppend(node.es[..i] + [e], node.es[i + 2..]);
    SizeAppend(node.es[..i], [e]);
    SizeSingleton([e]);
    SizeCut(node.es, i + 2);
    SizeStep(node.es, i + 1);
    SizeStep(node.es, i);
  }

  /** Every page below a merge fits, given that the merged node does. */
  lemma MergedFits(t: Tree, i: nat, s: Tree, c: Tree, uc: Tree, w: Tree, p: nat)
    requires IsPair(t, i, s, c) && Fits(t.kids) && Fits(uc.Kids())
    requires w.Kids() == s.Kids() + uc.Kids() || w.Kids() == uc.Kids() + s.Kids()
    requires NBytes(NodeOf(w)) <= PAGE_SIZE
    ensures Fits(Merged(t, i, w, p).kids)
  {
    FitsPair(t, i, s, c);
    hide Size;
    assert Fits(w.Kids());
    assert w.At(p).Kids() == w.Kids() && NodeOf(w.At(p)) == NodeOf(w);
    FitsJoin(t.kids[..i], w.At(p), t.kids[i + 2..]);
  }

  lemma FitsPair(t: Tree, i: nat, s: Tree, c: Tree)
    requires IsPair(t, i, s, c) && Fits(t.kids)
    ensures Fits(t.kids[..i]) && Fits(t.kids[i + 2..]) && Fits(s.Kids())
  {
    assert FitsT(s);
  }

  lemma FitsJoin(l: seq<Tree>, w: Tree, r: seq<Tree>)
    requires Fits(l) && Fits(r) && Fits(w.Kids()) && NBytes(NodeOf(w)) <= PAGE_SIZE
    ensures Fits(l + [w] + r)
  {
    assert FitsT(w);
  }

  // ------------------------------------------------------------ one level of deletion

  /** What tree_delete hands back for a key it found: a node u not stored yet, possibly empty. */
  ghost predicate DeleteResult(t: Tree, h: nat, key: Key, held: set<nat>, view: Pages,
                               r: Node, u: Tree, held': set<nat>, view': Pages)
  {
    && Subtree(u, h, view', held') && Fits(u.Kids())
    && r == NodeOf(u) && NBytes(r) == AfterBytes(t, key)
    && FlatT(u) == Removed(FlatT(t), key)
    && (if r.es == [] then u.Kids() == [] && FlatT(u) == [] else ShapedT(u, h) && FlatT(u) != [])
    && Swapped(held, held', PagesF(t.Kids()), PagesF(u.Kids()))
    && Unchanged(held - PagesF(t.Kids()), view, view')
  }

  lemma LeafDeleteStep(t: Tree, h: nat, key: Key, held: set<nat>, view: Pages, idx: nat)
    requires Loose(t, h, view, held) && t.Leaf? && NBytes(NodeOf(t)) <= PAGE_SIZE
    requires IsLookup(t.es, key, idx) && idx < |t.es| && t.es[idx].key == key
    ensures DeleteResult(t, h, key, held, view, LeafDelete(NodeOf(t), idx), Leaf(0, LeafDelete(NodeOf(t), idx).es), held, view)
    ensures NBytes(LeafDelete(NodeOf(t), idx)) <= PAGE_SIZE
  {
    LeafDeleted(NodeOf(t), key, idx);
    RemovedWithinLimits(t.es, key);
    RemovedNoLinks(t.es, key);
    LeafAfterBytes(t, key, idx);
    hide Size, Removed, Sorted, WithinLimits, IsLookup, Find, AfterBytes, LeafDelete;
    LeafResult(t, h, key, held, view, LeafDelete(NodeOf(t), idx));
  }

  lemma {:induction false} RemovedNoLinks(es: seq<Entry>, key: Key)
    requires NoLinks(es)
    ensures NoLinks(Removed(es, key))
  {
    if es != [] && es[0].key != key {
      RemovedNoLinks(es[1..], key);
    }
  }

  lemma LeafAfterBytes(t: Tree, key: Key, idx: nat)
    requires t.Leaf? && idx < |t.es| && idx == Find(t.es, key)
    ensures AfterBytes(t, key) == NBytes(NodeOf(t)) - EntrySize(t.es[idx])
  {
  }

  lemma LeafResult(t: Tree, h: nat, key: Key, held: set<nat>, view: Pages, r: Node)
    requires t.Leaf? && h == 0 && r == Node(true, Removed(t.es, key))
    requires NBytes(r) == AfterBytes(t, key)
    requires Sorted(Removed(t.es, key)) && WithinLimits(Removed(t.es, key)) && NoLinks(Removed(t.es, key))
    ensures DeleteResult(t, h, key, held, view, r, Leaf(0, r.es), held, view)
  {
    hide Size, Removed, Sorted, WithinLimits, AfterBytes;
  }

  /** node_delete without a merge, the updated child not empty. */
  lemma ReplaceStep(t: Tree, h: nat, key: Key, i: nat, updated: Node, uc: Tree, p: nat, r: Node, held: seq<set<nat>>, views: seq<Pages>)
    requires |held| == 4 && |views| == 4
    requires Loose(t, h, views[0], held[0]) && t.Inner? && h > 0 && Fits(t.kids)
    requires i < |t.kids| && IsLookup(Links(t.kids), key, i)
    requires DeleteResult(t.kids[i], h - 1, key, held[0], views[0], updated, uc, held[1], views[1]) && updated.es != [] && NBytes(updated) <= PAGE_SIZE
    requires Moves(t, i, uc, [p], held, views) && HasNode(views[3], p, updated)
    requires r == Node(false, NodeOf(t).es[..i] + ChildLinks([p], [updated]) + NodeOf(t).es[i + 1..])
    requires MergeDirOf(t.kids, i, NBytes(updated)).NoMerge?
    ensures DeleteResult(t, h, key, held[0], views[0], r, Replaced(t, i, uc, [updated], [p]), held[3], views[3])
  {
    hide Loose, ShapedT, Shaped, FlatT, Flat, Links, Fits, Moves, Swapped, Unchanged, Sorted, IsLookup, Removed, Size, Stored, Distinct, PagesF, InnerBytes, AfterBytes, NodeOf, WithinLimits, HasNode;
    LooseParts(t, h, views[0], held[0]);
    InnerParts(t, h);
    LinksSorted(t.kids, h - 1);
    KidRemoved(t, h, key, i);
    RemovedWithinLimits(FlatT(t), key);
    DeletedChild(t.kids[i], h - 1, key, held[0], views[0], updated, uc, held[1], views[1]);
    ReplacedIsLoose(t, h, i, uc, [updated], [p], held, views);
    ReplacedContents(t, h, i, uc, [updated], [p]);
    ReplacedFits(t, h, i, uc, [updated], [p]);
    ReplacedNode(t, h, i, uc, [updated], [p]);
    ReplaceBytes(t, h, key, i, updated, uc, p, r);
    InnerResult(t, h, key, held[0], views[0], r, Replaced(t, i, uc, [updated], [p]), held[3], views[3]);
  }

  lemma DeletedChild(t: Tree, h: nat, key: Key, held: set<nat>, view: Pages, r: Node, u: Tree, held': set<nat>, view': Pages)
    requires DeleteResult(t, h, key, held, view, r, u, held', view') && r.es != []
    ensures Loose(u, h, view', held') && Fits(u.Kids()) && r == NodeOf(u) && NBytes(r) == AfterBytes(t, key)
    ensures FlatT(u) == Removed(FlatT(t), key) && ShapedT(u, h) && FlatT(u) != []
    ensures r.es[0].key == FirstKey(u)
  {
    NodeFirstKey(u, h);
  }

  /** Putting a result together for an internal node. */
  lemma InnerResult(t: Tree, h: nat, key: Key, held: set<nat>, view: Pages, r: Node, u: Tree, held': set<nat>, view': Pages)
    requires t.Inner? && u.Inner? && Loose(u, h, view', held') && Fits(u.kids)
    requires r == NodeOf(u) && NBytes(r) == AfterBytes(t, key)
    requires FlatT(u) == Removed(FlatT(t), key)
    requires Swapped(held, held', PagesF(t.kids), PagesF(u.kids)) && Unchanged(held - PagesF(t.kids), view, view')
    ensures DeleteResult(t, h, key, held, view, r, u, held', view')
  {
    ShapedFlat(u, h);
    NodeFirstKey(u, h);
  }

  lemma ReplaceBytes(t: Tree, h: nat, key: Key, i: nat, updated: Node, uc: Tree, p: nat, r: Node)
    requires ShapedT(t, h) && t.Inner? && i < |t.kids| && Sorted(Links(t.kids)) && IsLookup(Links(t.kids), key, i)
    requires updated.es != [] && NBytes(updated) == AfterBytes(t.kids[i], key)
    requires FlatT(uc) == Removed(FlatT(t.kids[i]), key) && FlatT(uc) != [] && updated.es[0].key == FirstKey(uc)
    requires r == Node(false, NodeOf(t).es[..i] + ChildLinks([p], [updated]) + NodeOf(t).es[i + 1..])
    requires MergeDirOf(t.kids, i, NBytes(updated)).NoMerge?
    ensures NBytes(r) == AfterBytes(t, key)
  {
    LookupIsFind(Links(t.kids), key, i);
    assert ChildLinks([p], [updated]) == [Entry(p, updated.es[0].key, [])];
    SizeAround(NodeOf(t).es, i, Entry(p, updated.es[0].key, []));
  }

  /** The pair a merge joins, and the tree it makes of it. */
  ghost predicate MergePlan(t: Tree, j: nat, dir: MergeDir, uc: Tree, i: nat, s: Tree, w: Tree)
    requires t.Inner? && j < |t.kids|
  {
    match dir
    case NoMerge => false
    case MergeLeft => j > 0 && i == j - 1 && s == t.kids[j - 1] && w == MergedTree(s, uc)
    case MergeRight => j + 1 < |t.kids| && i == j && s == t.kids[j + 1] && w == MergedTree(uc, s)
  }

  lemma MergeFlat(t: Tree, j: nat, dir: MergeDir, uc: Tree, i: nat, s: Tree, w: Tree)
    requires t.Inner? && j < |t.kids| && MergePlan(t, j, dir, uc, i, s, w)
    ensures i + 1 < |t.kids|
    ensures var m := if dir.MergeLeft? then FlatT(s) + FlatT(uc) else FlatT(uc) + FlatT(s);
            Flat(t.kids[..i]) + m + Flat(t.kids[i + 2..]) == Flat(t.kids[..j]) + FlatT(uc) + Flat(t.kids[j + 1..])
  {
    hide Flat, FlatT, MergedTree;
    if dir.MergeLeft? {
      assert t.kids[..j] == t.kids[..i] + [s] && i + 2 == j + 1;
      FlatAppend(t.kids[..i], [s]);
      FlatSingleton(s);
      assert Flat(t.kids[..i]) + (FlatT(s) + FlatT(uc)) == Flat(t.kids[..i]) + FlatT(s) + FlatT(uc);
    } else {
      assert t.kids[j + 1..] == [s] + t.kids[j + 2..] && i == j;
      FlatAppend([s], t.kids[j + 2..]);
      FlatSingleton(s);
      assert Flat(t.kids[..j]) + (FlatT(uc) + FlatT(s)) + Flat(t.kids[j + 2..])
          == Flat(t.kids[..j]) + FlatT(uc) + (FlatT(s) + Flat(t.kids[j + 2..]));
    }
  }

  lemma MergedShaped(a: Tree, b: Tree, h: nat)
    requires (a.Leaf? <==> h == 0) && (b.Leaf? <==> h == 0)
    requires h > 0 ==> Shaped(a.Kids(), h - 1) && Shaped(b.Kids(), h - 1)
    requires h == 0 ==> NoLinks(NodeOf(a).es) && NoLinks(NodeOf(b).es)
    requires NodeOf(a).es + NodeOf(b).es != []
    ensures ShapedT(MergedTree(a, b), h)
  {
  }

  /** The merged node is not empty, fits, and starts with the key AfterBytes expects. */
  lemma MergedNodeFacts(t: Tree, h: nat, key: Key, j: nat, dir: MergeDir, updated: Node, uc: Tree, i: nat, s: Tree, w: Tree,
                        held: set<nat>, view: Pages, held': set<nat>, view': Pages)
    requires ShapedT(t, h) && t.Inner? && h > 0 && j < |t.kids|
    requires DeleteResult(t.kids[j], h - 1, key, held, view, updated, uc, held', view')
    requires dir == MergeDirOf(t.kids, j, NBytes(updated)) && MergePlan(t, j, dir, uc, i, s, w)
    ensures IsPair(t, i, s, t.kids[j])
    ensures NodeOf(w) == if dir.MergeLeft? then NodeMerge(NodeOf(s), updated) else NodeMerge(updated, NodeOf(s))
    ensures NodeOf(w).es != [] && NBytes(NodeOf(w)) <= PAGE_SIZE && ShapedT(w, h - 1)
    ensures FlatT(w) == if dir.MergeLeft? then FlatT(s) + FlatT(uc) else FlatT(uc) + FlatT(s)
    ensures w.Kids() == s.Kids() + uc.Kids() || w.Kids() == uc.Kids() + s.Kids()
    ensures NodeOf(w).es[0].key == if dir.MergeLeft? || updated.es == [] then FirstKey(s) else FirstKey(uc)
  {
    hide Stored, Distinct, PagesF, Swapped, Unchanged, AfterBytes, Removed, Sorted, WithinLimits, Size, FlatT, FirstKey;
    NodeFirstKey(s, h - 1);
    if updated.es != [] {
      NodeFirstKey(uc, h - 1);
    }
    MergedShaped(s, uc, h - 1);
    MergedShaped(uc, s, h - 1);
    hide NodeOf, MergedTree, ShapedT, Shaped, Links;
    MergedParts(s, uc);
    MergedParts(uc, s);
  }

  lemma MergeBytes(t: Tree, h: nat, key: Key, j: nat, dir: MergeDir, updated: Node, uc: Tree, i: nat, s: Tree, w: Tree, r: Node, p: nat)
    requires t.Inner? && j < |t.kids| && Sorted(Links(t.kids)) && IsLookup(Links(t.kids), key, j)
    requires dir == MergeDirOf(t.kids, j, NBytes(updated)) && MergePlan(t, j, dir, uc, i, s, w)
    requires NBytes(updated) == AfterBytes(t.kids[j], key)
    requires FlatT(uc) == Removed(FlatT(t.kids[j]), key) && (updated.es == [] <==> FlatT(uc) == [])
    requires NodeOf(w).es != []
    requires NodeOf(w).es[0].key == if dir.MergeLeft? || updated.es == [] then FirstKey(s) else FirstKey(uc)
    requires i + 1 < |t.kids| && r == NodeReplace2Child(NodeOf(t), i, p, NodeOf(w).es[0].key)
    ensures NBytes(r) == AfterBytes(t, key)
  {
    hide Sorted, IsLookup, Removed, Size, Find;
    LookupIsFind(Links(t.kids), key, j);
    Replace2Bytes(NodeOf(t), i, p, NodeOf(w).es[0].key);
  }

  /** node_delete with a merge. */
  lemma MergeStep(t: Tree, h: nat, key: Key, j: nat, dir: MergeDir, updated: Node, uc: Tree, i: nat, s: Tree, w: Tree, p: nat, r: Node,
                  held: seq<set<nat>>, views: seq<Pages>)
    requires |held| == 5 && |views| == 5
    requires Loose(t, h, views[0], held[0]) && t.Inner? && h > 0 && Fits(t.kids)
    requires j < |t.kids| && IsLookup(Links(t.kids), key, j)
    requires DeleteResult(t.kids[j], h - 1, key, held[0], views[0], updated, uc, held[1], views[1])
    requires dir == MergeDirOf(t.kids, j, NBytes(updated)) && MergePlan(t, j, dir, uc, i, s, w)
    requires MergeMoves(s, t.kids[j], uc, p, held, views) && HasNode(views[4], p, NodeOf(w))
    requires i + 1 < |t.kids| && NodeOf(w).es != [] && r == NodeReplace2Child(NodeOf(t), i, p, NodeOf(w).es[0].key)
    ensures DeleteResult(t, h, key, held[0], views[0], r, Merged(t, i, w, p), held[4], views[4])
  {
    hide Loose, ShapedT, Shaped, FlatT, Flat, Links, Fits, MergeMoves, Swapped, Unchanged, Sorted, IsLookup, Removed, Size, Stored, Distinct, PagesF, InnerBytes, AfterBytes, NodeOf, WithinLimits, HasNode;
    var c := t.kids[j];
    LooseParts(t, h, views[0], held[0]);
    InnerParts(t, h);
    LinksSorted(t.kids, h - 1);
    KidRemoved(t, h, key, j);
    RemovedWithinLimits(FlatT(t), key);
    ResultParts(c, h - 1, key, held[0], views[0], updated, uc, held[1], views[1]);
    MergedNodeFacts(t, h, key, j, dir, updated, uc, i, s, w, held[0], views[0], held[1], views[1]);
    MergeFlat(t, j, dir, uc, i, s, w);
    PlacedShape(t, h, i, w, p);
    MergedPages(t, i, s, c, uc, w, p, held, views);
    MergedStored(t, i, s, c, uc, w, p, held, views);
    MergedFits(t, i, s, c, uc, w, p);
    MergedNode(t, h - 1, i, w, p);
    MergeBytes(t, h, key, j, dir, updated, uc, i, s, w, r, p);
    MergedLoose(t, h, i, w, p, held[0], held[4], views[4]);
    InnerResult(t, h, key, held[0], views[0], r, Merged(t, i, w, p), held[4], views[4]);
  }

  lemma MergedLoose(t: Tree, h: nat, i: nat, w: Tree, p: nat, held: set<nat>, held': set<nat>, view: Pages)
    requires t.Inner? && i + 1 < |t.kids|
    requires ShapedT(Merged(t, i, w, p), h) && Distinct(Merged(t, i, w, p).kids) && Stored(view, Merged(t, i, w, p).kids)
    requires Swapped(held, held', PagesF(t.kids), PagesF(Merged(t, i, w, p).kids))
    requires Sorted(FlatT(Merged(t, i, w, p))) && WithinLimits(FlatT(Merged(t, i, w, p)))
    ensures Loose(Merged(t, i, w, p), h, view, held')
  {
  }

  lemma PlacedShape(t: Tree, h: nat, i: nat, w: Tree, p: nat)
    requires ShapedT(t, h) && t.Inner? && i + 1 < |t.kids| && h > 0 && ShapedT(w, h - 1)
    ensures ShapedT(Merged(t, i, w, p), h)
    ensures FlatT(Merged(t, i, w, p)) == Flat(t.kids[..i]) + FlatT(w) + Flat(t.kids[i + 2..])
  {
    assert ShapedT(w.At(p), h - 1) && FlatT(w.At(p)) == FlatT(w);
    hide FlatT, Flat;
    FlatAround(t.kids[..i], [w.At(p)], t.kids[i + 2..]);
    FlatSingleton(w.At(p));
    MergedShape(t, h, i, w.At(p));
  }

  lemma ResultParts(t: Tree, h: nat, key: Key, held: set<nat>, view: Pages, r: Node, u: Tree, held': set<nat>, view': Pages)
    requires DeleteResult(t, h, key, held, view, r, u, held', view')
    ensures Distinct(u.Kids()) && Stored(view', u.Kids()) && Fits(u.Kids())
    ensures r == NodeOf(u) && NBytes(r) == AfterBytes(t, key)
    ensures FlatT(u) == Removed(FlatT(t), key) && (r.es == [] <==> FlatT(u) == [])
    ensures Swapped(held, held', PagesF(t.Kids()), PagesF(u.Kids())) && Unchanged(held - PagesF(t.Kids()), view, view')
  {
  }

  /** An empty child always finds a sibling to merge with, unless it is the only child. */
  lemma EmptyChildIsAlone(kids: seq<Tree>, i: nat)
    requires i < |kids| && Fits(kids) && MergeDirOf(kids, i, HEADER).NoMerge?
    ensures |kids| == 1 && i == 0
  {
    assert i > 0 ==> FitsT(kids[i - 1]);
    assert i + 1 < |kids| ==> FitsT(kids[i + 1]);
  }

  /** node_delete with nothing left in its only child: the result has no entries. */
  lemma EmptyStep(t: Tree, h: nat, key: Key, updated: Node, uc: Tree, held: seq<set<nat>>, views: seq<Pages>)
    requires |held| == 3 && |views| == 3
    requires Loose(t, h, views[0], held[0]) && t.Inner? && h > 0 && |t.kids| == 1
    requires IsLookup(Links(t.kids), key, 0)
    requires DeleteResult(t.kids[0], h - 1, key, held[0], views[0], updated, uc, held[1], views[1]) && updated.es == []
    requires held[2] == held[1] - {t.kids[0].ptr} && Unchanged(held[2], views[1], views[2])
    requires MergeDirOf(t.kids, 0, NBytes(updated)).NoMerge?
    ensures DeleteResult(t, h, key, held[0], views[0], Node(false, []), Inner(0, []), held[2], views[2])
  {
    LooseParts(t, h, views[0], held[0]);
    EmptyContents(t, h, key, NBytes(updated));
    EmptyPages(t, held, uc);
    UnchangedLess(held[0] - PagesF(t.kids[0].Kids()), held[0] - PagesF(t.kids), views[0], views[1]);
    UnchangedLess(held[2], held[0] - PagesF(t.kids), views[1], views[2]);
    hide *;
    UnchangedChain(held[0] - PagesF(t.kids), views[0], views[1], views[2]);
    EmptyResult(t, h, key, held[0], views[0], held[2], views[2]);
  }

  lemma EmptyResult(t: Tree, h: nat, key: Key, held: set<nat>, view: Pages, held': set<nat>, view': Pages)
    requires t.Inner? && h > 0 && AfterBytes(t, key) == HEADER && Removed(FlatT(t), key) == []
    requires Swapped(held, held', PagesF(t.kids), {}) && Unchanged(held - PagesF(t.kids), view, view')
    ensures DeleteResult(t, h, key, held, view, Node(false, []), Inner(0, []), held', view')
  {
    hide AfterBytes, Removed, Unchanged;
    assert Links([]) == [];
  }

  lemma EmptyContents(t: Tree, h: nat, key: Key, bytes: int)
    requires ShapedT(t, h) && t.Inner? && h > 0 && |t.kids| == 1 && Sorted(FlatT(t)) && IsLookup(Links(t.kids), key, 0)
    requires Removed(FlatT(t.kids[0]), key) == [] && bytes == AfterBytes(t.kids[0], key)
    requires MergeDirOf(t.kids, 0, bytes).NoMerge?
    ensures AfterBytes(t, key) == HEADER && Removed(FlatT(t), key) == []
  {
    InnerParts(t, h);
    LinksSorted(t.kids, h - 1);
    LookupIsFind(Links(t.kids), key, 0);
    KidRemoved(t, h, key, 0);
    assert Flat(t.kids[..0]) == [] && Flat(t.kids[1..]) == [];
  }

  lemma EmptyPages(t: Tree, held: seq<set<nat>>, uc: Tree)
    requires |held| == 3 && t.Inner? && |t.kids| == 1 && Distinct(t.kids) && PagesF(t.kids) <= held[0] && uc.Kids() == []
    requires Swapped(held[0], held[1], PagesF(t.kids[0].Kids()), PagesF(uc.Kids()))
    requires held[2] == held[1] - {t.kids[0].ptr}
    ensures Swapped(held[0], held[2], PagesF(t.kids), {})
    ensures held[0] - PagesF(t.kids) <= held[0] - PagesF(t.kids[0].Kids()) && held[0] - PagesF(t.kids) <= held[2]
  {
    KidPages(t, 0, held[0]);
    assert t.kids == [t.kids[0]];
    PagesSingleton(t.kids[0]);
    assert PagesF([]) == {};
  }

  /** Given that the child fits, the node does exactly under DeleteFits. */
  lemma FitsExactly(t: Tree, h: nat, key: Key, i: nat)
    requires ShapedT(t, h) && t.Inner? && Sorted(FlatT(t)) && NBytes(NodeOf(t)) <= PAGE_SIZE
    requires i < |t.kids| && IsLookup(Links(t.kids), key, i)
    ensures DeleteFits(t, key) <==> DeleteFits(t.kids[i], key) && AfterBytes(t, key) <= PAGE_SIZE
  {
    InnerParts(t, h);
    LinksSorted(t.kids, h - 1);
    LookupIsFind(Links(t.kids), key, i);
    if Links(t.kids)[i].key != key {
      OtherSeparatorsDoNotGrow(t.kids, i, AfterBytes(t.kids[i], key), key);
    }
  }
}
