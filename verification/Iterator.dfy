/**
 * Bidirectional iteration over a stored tree (src/storage/btree_iter.cpp). An iterator is an index into the tree's
 * sorted entries: index 0 holds the sentinel and stands before the keys, index |entries| stands behind them.
 */
module Iterators {
  import opened Bytes
  import opened Nodes
  import opened Entries
  import opened FreeLists
  import opened Trees
  import opened TreeEdit

  datatype Cmp = GE | GT | LT | LE
  {
    predicate Forward() { GE? || GT? }
  }

  /** The comparison key cmp bound in byte order. */
  predicate CmpOk(key: Key, cmp: Cmp, bound: Key)
  {
    match cmp
    case GE => Le(bound, key)
    case GT => Lt(bound, key)
    case LT => Lt(key, bound)
    case LE => Le(key, bound)
  }

  // ------------------------------------------------------------ a path as a range of entries

  /** trees[0..k] is a path of stored nodes: each next tree is the child that pos selects. */
  ghost predicate OnPath(view: Pages, root: Tree, h: nat, trees: seq<Tree>, path: seq<Node>, pos: seq<nat>, k: nat)
  {
    && |trees| == |path| == |pos| <= h + 1 && k < |pos|
    && trees[0] == root
    && (forall l :: 0 <= l <= k ==> path[l] == NodeOf(trees[l]) && StoredT(view, trees[l]) && ShapedT(trees[l], h - l))
    && (forall l :: 0 <= l < k ==> trees[l].Inner? && pos[l] < |trees[l].kids| && trees[l + 1] == trees[l].kids[pos[l]])
  }

  /** How many entries of t come before its element p: a leaf's entry or an internal node's child. */
  ghost function Before(t: Tree, p: nat): nat
  {
    match t
    case Leaf(_, es) => if p <= |es| then p else |es|
    case Inner(_, kids) => |Flat(kids[..if p <= |kids| then p else |kids|])|
  }

  /** How many entries come before trees[k]. */
  ghost function Start(trees: seq<Tree>, pos: seq<nat>, k: nat): nat
    requires k < |trees| && |pos| == |trees|
  {
    if k == 0 then 0 else Start(trees, pos, k - 1) + Before(trees[k - 1], pos[k - 1])
  }

  /** Where element pos[k] of level k begins and ends among the entries. */
  ghost function From(trees: seq<Tree>, pos: seq<nat>, k: nat): nat
    requires k < |trees| && |pos| == |trees|
  {
    Start(trees, pos, k) + Before(trees[k], pos[k])
  }

  ghost function To(trees: seq<Tree>, pos: seq<nat>, k: nat): nat
    requires k < |trees| && |pos| == |trees|
  {
    Start(trees, pos, k) + Before(trees[k], pos[k] + 1)
  }

  lemma BeforeStep(t: Tree, h: nat, p: nat)
    requires ShapedT(t, h)
    ensures Before(t, 0) == 0 && |NodeOf(t).es| > 0 && |FlatT(t)| > 0
    ensures p >= |NodeOf(t).es| ==> Before(t, p) == |FlatT(t)|
    ensures p < |NodeOf(t).es| ==> Before(t, p) < Before(t, p + 1) <= |FlatT(t)|
    ensures p + 1 < |NodeOf(t).es| ==> Before(t, p + 1) < |FlatT(t)|
  {
    ShapedFlat(t, h);
    if t.Inner? {
      assert t.kids[..0] == [] && t.kids[..|t.kids|] == t.kids;
      if p < |t.kids| {
        KidRange(t, h, p);
      }
      if p + 1 < |t.kids| {
        KidRange(t, h, p + 1);
      }
    }
  }

  /** part is the run of all that begins at position at. */
  ghost predicate IsSlice(all: seq<Entry>, part: seq<Entry>, at: nat)
  {
    at + |part| <= |all| && forall i :: 0 <= i < |part| ==> part[i] == all[at + i]
  }

  /** Child p holds the entries from Before(p) to Before(p + 1). */
  lemma KidRange(t: Tree, h: nat, p: nat)
    requires ShapedT(t, h) && t.Inner? && p < |t.kids|
    ensures Before(t, p + 1) == Before(t, p) + |FlatT(t.kids[p])| <= |FlatT(t)| && |FlatT(t.kids[p])| > 0
    ensures IsSlice(FlatT(t), FlatT(t.kids[p]), Before(t, p))
  {
    hide FlatT, Flat, ShapedT, Shaped, IsSlice;
    InnerParts(t, h);
    KidShaped(t, h, p);
    assert t.kids[..p + 1] == t.kids[..p] + [t.kids[p]];
    FlatAppend(t.kids[..p], [t.kids[p]]);
    FlatSingleton(t.kids[p]);
    FlatAroundKid(t.kids, p);
    SliceAround(Flat(t.kids[..p]), FlatT(t.kids[p]), Flat(t.kids[p + 1..]));
  }

  lemma KidShaped(t: Tree, h: nat, p: nat)
    requires ShapedT(t, h) && t.Inner? && p < |t.kids|
    ensures h > 0 && ShapedT(t.kids[p], h - 1) && FlatT(t.kids[p]) != []
  {
    ShapedFlat(t.kids[p], h - 1);
  }

  lemma SliceAround(l: seq<Entry>, m: seq<Entry>, r: seq<Entry>)
    ensures IsSlice(l + m + r, m, |l|)
  {
  }

  /** Start only looks at the path above. */
  lemma {:induction false} StartFrame(a: seq<Tree>, p: seq<nat>, b: seq<Tree>, q: seq<nat>, k: nat)
    requires k < |a| == |b| == |p| == |q|
    requires forall l :: 0 <= l < k ==> a[l] == b[l] && p[l] == q[l]
    ensures Start(a, p, k) == Start(b, q, k)
  {
    if k > 0 {
      StartFrame(a, p, b, q, k - 1);
    }
  }

  lemma PathAt(view: Pages, root: Tree, h: nat, trees: seq<Tree>, path: seq<Node>, pos: seq<nat>, k: nat)
    requires OnPath(view, root, h, trees, path, pos, k)
    ensures |trees| == |path| == |pos| <= h + 1 && k < |pos|
    ensures path[k] == NodeOf(trees[k]) && StoredT(view, trees[k]) && ShapedT(trees[k], h - k)
    ensures k == 0 ==> trees[k] == root
    ensures k > 0 ==> OnPath(view, root, h, trees, path, pos, k - 1)
    ensures k > 0 ==> trees[k - 1].Inner? && pos[k - 1] < |trees[k - 1].kids| && trees[k] == trees[k - 1].kids[pos[k - 1]]
    ensures k > 0 ==> |NodeOf(trees[k - 1]).es| == |trees[k - 1].kids|
  {
  }

  /** The entries of trees[k] are a slice of the whole. */
  lemma {:induction false} PathSlice(view: Pages, root: Tree, h: nat, trees: seq<Tree>, path: seq<Node>, pos: seq<nat>, k: nat)
    requires OnPath(view, root, h, trees, path, pos, k)
    ensures |trees| == |pos| <= h + 1 && k < |pos|
    ensures IsSlice(FlatT(root), FlatT(trees[k]), Start(trees, pos, k))
  {
    hide OnPath, FlatT, Flat, Before, StoredT, ShapedT, NodeOf, IsSlice;
    PathAt(view, root, h, trees, path, pos, k);
    if k > 0 {
      PathSlice(view, root, h, trees, path, pos, k - 1);
      var t := trees[k - 1];
      PathAt(view, root, h, trees, path, pos, k - 1);
      KidRange(t, h - (k - 1), pos[k - 1]);
      SliceOfSlice(FlatT(root), FlatT(t), FlatT(trees[k]), Start(trees, pos, k - 1), Before(t, pos[k - 1]));
    } else {
      WholeSlice(FlatT(root));
    }
  }

  lemma WholeSlice(all: seq<Entry>)
    ensures IsSlice(all, all, 0)
  {
  }

  lemma SliceOfSlice(all: seq<Entry>, mid: seq<Entry>, part: seq<Entry>, a: nat, b: nat)
    requires IsSlice(all, mid, a) && IsSlice(mid, part, b)
    ensures IsSlice(all, part, a + b)
  {
    forall i | 0 <= i < |part|
      ensures part[i] == all[a + b + i]
    {
      var j := b + i;
      assert part[i] == mid[j] && mid[j] == all[a + j];
    }
  }

  /** Where a level's element ends, and whether anything follows it. */
  lemma LevelEnds(view: Pages, root: Tree, h: nat, trees: seq<Tree>, path: seq<Node>, pos: seq<nat>, k: nat)
    requires OnPath(view, root, h, trees, path, pos, k)
    ensures |trees| == |path| == |pos| <= h + 1 && k < |pos| && |path[k].es| > 0
    ensures From(trees, pos, k) <= To(trees, pos, k) <= |FlatT(root)|
    ensures pos[k] + 1 < |path[k].es| ==> To(trees, pos, k) < |FlatT(root)|
    ensures pos[k] + 1 >= |path[k].es| ==> To(trees, pos, k) == if k == 0 then |FlatT(root)| else To(trees, pos, k - 1)
    ensures pos[k] > 0 ==> From(trees, pos, k) > 0
    ensures pos[k] == 0 ==> From(trees, pos, k) == if k == 0 then 0 else From(trees, pos, k - 1)
    ensures pos[k] < |path[k].es| ==> From(trees, pos, k) < To(trees, pos, k)
  {
    hide OnPath, FlatT, Flat, Before, StoredT, ShapedT, NodeOf;
    PathAt(view, root, h, trees, path, pos, k);
    PathSlice(view, root, h, trees, path, pos, k);
    BeforeStep(trees[k], h - k, pos[k]);
    BeforeStep(trees[k], h - k, pos[k] + 1);
    if pos[k] > 0 {
      BeforeStep(trees[k], h - k, pos[k] - 1);
    }
    if k > 0 {
      PathAt(view, root, h, trees, path, pos, k - 1);
      KidRange(trees[k - 1], h - (k - 1), pos[k - 1]);
    }
  }

  /** Moving one element right or left within a node. */
  lemma Shifted(view: Pages, root: Tree, h: nat, trees: seq<Tree>, path: seq<Node>, pos: seq<nat>, k: nat, p: nat)
    requires OnPath(view, root, h, trees, path, pos, k)
    ensures |trees| == |pos| <= h + 1 && k < |pos|
    ensures OnPath(view, root, h, trees, path, pos[k := p], k)
    ensures Start(trees, pos[k := p], k) == Start(trees, pos, k)
    ensures p == pos[k] + 1 ==> From(trees, pos[k := p], k) == To(trees, pos, k)
    ensures p + 1 == pos[k] ==> To(trees, pos[k := p], k) == From(trees, pos, k)
  {
    hide FlatT, Flat, Before, StoredT, ShapedT, NodeOf;
    StartFrame(trees, pos, trees, pos[k := p], k);
  }

  /** The child an internal node's element leads to. */
  lemma KidStored(view: Pages, t: Tree, h: nat, p: nat)
    requires StoredT(view, t) && ShapedT(t, h) && h > 0 && p < |NodeOf(t).es|
    ensures t.Inner? && p < |t.kids| && NodeOf(t).es[p].ptr in view
    ensures var kid := view[NodeOf(t).es[p].ptr]; kid.TreePage? && kid.node == NodeOf(t.kids[p])
    ensures StoredT(view, t.kids[p]) && ShapedT(t.kids[p], h - 1) && |NodeOf(t.kids[p]).es| > 0
  {
    hide FlatT, Flat;
    NodeFirstKey(t.kids[p], h - 1);
    assert StoredT(view, t.kids[p]);
  }

  /** Going down one level from a valid element, to its first or last one. */
  lemma Descended(view: Pages, root: Tree, h: nat, trees: seq<Tree>, path: seq<Node>, pos: seq<nat>, k: nat, atLast: bool)
    requires OnPath(view, root, h, trees, path, pos, k) && k + 1 < |pos| && pos[k] < |path[k].es|
    ensures trees[k].Inner? && pos[k] < |trees[k].kids| && path[k].es[pos[k]].ptr in view
    ensures var c := trees[k].kids[pos[k]];
            var kid := NodeOf(c);
            var p := if atLast then |kid.es| - 1 else 0;
            && view[path[k].es[pos[k]].ptr].TreePage? && view[path[k].es[pos[k]].ptr].node == kid && |kid.es| > 0
            && OnPath(view, root, h, trees[k + 1 := c], path[k + 1 := kid], pos[k + 1 := p], k + 1)
            && Start(trees[k + 1 := c], pos[k + 1 := p], k) == Start(trees, pos, k)
            && (atLast ==> To(trees[k + 1 := c], pos[k + 1 := p], k + 1) == To(trees, pos, k))
            && (!atLast ==> From(trees[k + 1 := c], pos[k + 1 := p], k + 1) == From(trees, pos, k))
  {
    hide FlatT, Flat, Before, Start, To, From, StoredT, ShapedT, NodeOf, OnPath;
    PathAt(view, root, h, trees, path, pos, k);
    KidStored(view, trees[k], h - k, pos[k]);
    var c := trees[k].kids[pos[k]];
    var kid := NodeOf(c);
    var p := if atLast then |kid.es| - 1 else 0;
    var trees', path', pos' := trees[k + 1 := c], path[k + 1 := kid], pos[k + 1 := p];
    OnPathDown(view, root, h, trees, path, pos, k, c, p);
    DescendedRange(view, root, h, trees, pos, trees', path', pos', k);
  }

  lemma OnPathDown(view: Pages, root: Tree, h: nat, trees: seq<Tree>, path: seq<Node>, pos: seq<nat>, k: nat, c: Tree, p: nat)
    requires OnPath(view, root, h, trees, path, pos, k) && k + 1 < |pos|
    requires trees[k].Inner? && pos[k] < |trees[k].kids| && c == trees[k].kids[pos[k]]
    requires StoredT(view, c) && ShapedT(c, h - k - 1)
    ensures OnPath(view, root, h, trees[k + 1 := c], path[k + 1 := NodeOf(c)], pos[k + 1 := p], k + 1)
  {
    hide StoredT, ShapedT, NodeOf;
  }

  lemma DescendedRange(view: Pages, root: Tree, h: nat, trees: seq<Tree>, pos: seq<nat>, trees': seq<Tree>, path': seq<Node>, pos': seq<nat>, k: nat)
    requires OnPath(view, root, h, trees', path', pos', k + 1)
    requires k < |trees| == |pos| == |pos'| && (forall l :: 0 <= l <= k ==> trees'[l] == trees[l] && pos'[l] == pos[l])
    ensures Start(trees', pos', k) == Start(trees, pos, k)
    ensures pos'[k + 1] + 1 == |path'[k + 1].es| ==> To(trees', pos', k + 1) == To(trees, pos, k)
    ensures pos'[k + 1] == 0 ==> From(trees', pos', k + 1) == From(trees, pos, k)
  {
    hide FlatT, Flat, Before, OnPath;
    LevelEnds(view, root, h, trees', path', pos', k + 1);
    StartFrame(trees', pos', trees, pos, k);
  }

  // ------------------------------------------------------------ the iterator

  /** A tree whose entries are sorted and start with the sentinel, the only empty key. */
  ghost predicate Iterable(root: Root, view: Pages)
  {
    root.Rooted? ==>
      && ShapedT(root.t, root.h) && StoredT(view, root.t) && 0 !in PagesT(root.t)
      && Sorted(FlatT(root.t)) && FirstKey(root.t) == []
  }

  lemma IterableRoot(root: Root, view: Pages, held: set<nat>)
    requires RootOk(root, view, held) && 0 !in held
    ensures Iterable(root, view)
  {
    if root.Rooted? {
      PagesSingleton(root.t);
    }
  }

  /** The tree is in place in every view. */
  ghost predicate InPlace(root: Root, views: nat -> Pages)
  {
    forall n :: Iterable(root, views(n))
  }

  class BIter {
    const views: nat -> Pages   // what the pages hold when they are read: views(n) for the n-th read
    var nread: nat
    var path: seq<Node>         // path[k] is trees[k]'s node; none for Empty
    var pos: seq<nat>           // pos[k] picks trees[k + 1] in path[k]; the last one picks the entry

    ghost const root: Root
    ghost var trees: seq<Tree>

    constructor (views: nat -> Pages, nread: nat, path: seq<Node>, pos: seq<nat>, ghost root: Root, ghost trees: seq<Tree>)
      ensures this.views == views && this.path == path && this.pos == pos && this.root == root && this.trees == trees
    {
      this.views, this.nread, this.path, this.pos, this.root, this.trees := views, nread, path, pos, root, trees;
    }

    ghost predicate Placed(k: nat)
      reads this
    {
      && InPlace(root, views)
      && root.Rooted? && |path| == |pos| == |trees| == root.h + 1 && OnPath(views(0), root.t, root.h, trees, path, pos, k)
    }

    ghost predicate Valid()
      reads this
    {
      && InPlace(root, views)
      && if root.Empty? then path == [] && pos == []
         else
           && Placed(root.h) && pos[root.h] <= |path[root.h].es|
           && (pos[root.h] == |path[root.h].es| ==> Index() == |Entries()|)
    }

    /** Every entry of the tree, in key order; the sentinel is entry 0. */
    ghost function Entries(): seq<Entry>
    {
      if root.Empty? then [] else FlatT(root.t)
    }

    /** The iterator's position among the entries. */
    ghost function Index(): nat
      reads this
    {
      if root.Rooted? && |trees| == |pos| == root.h + 1 then From(trees, pos, root.h) else 0
    }

    lemma Bounded()
      requires Valid()
      ensures Index() <= |Entries()|
    {
      hide OnPath, Sorted, NodeOf, FlatT, Flat, Before, Start, Iterable;
      if root.Rooted? {
        LevelEnds(views(0), root.t, root.h, trees, path, pos, root.h);
      }
    }

    /** Make level + 1 the child that pos[level] picks, so that both ranges begin (or, atLast, end) at the same entry. */
    method ReloadKid(level: nat, atLast: bool)
      requires Placed(level) && pos[level] < |path[level].es|
      modifies this
      ensures Placed(level) && pos[level] < |path[level].es|
      ensures From(trees, pos, level) == old(From(trees, pos, level)) && To(trees, pos, level) == old(To(trees, pos, level))
      ensures level < root.h ==> Placed(level + 1) && |path[level + 1].es| > 0 && pos[level + 1] < |path[level + 1].es|
      ensures level < root.h && atLast ==> To(trees, pos, level + 1) == To(trees, pos, level)
      ensures level < root.h && !atLast ==> From(trees, pos, level + 1) == From(trees, pos, level)
    {
      hide FlatT, Flat, Before, Start, StoredT, ShapedT, NodeOf, OnPath, InPlace, Iterable;
      PathAt(views(0), root.t, root.h, trees, path, pos, level);
      if level + 1 == |path| {
        return;
      }
      Descended(views(0), root.t, root.h, trees, path, pos, level, atLast);
      OnPathInAnyView(root, views, nread, trees, path, pos, level);
      Descended(views(nread), root.t, root.h, trees, path, pos, level, atLast);
      ghost var c := trees[level].kids[pos[level]];
      var kid := views(nread)[path[level].es[pos[level]].ptr].node;
      nread := nread + 1;
      pos := pos[level + 1 := if atLast then |kid.es| - 1 else 0];
      path := path[level + 1 := kid];
      trees := trees[level + 1 := c];
      PathAt(views(0), root.t, root.h, trees, path, pos, level + 1);
    }

    /** The range at level begins where it ended before. False is the answer if that was the end of all entries. */
    method IterNext(level: nat) returns (ok: bool)
      requires Placed(level)
      modifies this
      ensures Placed(level)
      ensures ok <==> old(To(trees, pos, level)) < |Entries()|
      ensures ok ==> pos[level] < |path[level].es| && From(trees, pos, level) == old(To(trees, pos, level))
      ensures ok && level < root.h ==> Placed(level + 1) && pos[level + 1] < |path[level + 1].es|
      ensures ok && level < root.h ==> From(trees, pos, level + 1) == From(trees, pos, level)
      ensures !ok ==> path == old(path) && pos == old(pos) && trees == old(trees)
      decreases level
    {
      hide FlatT, Flat, Before, Start, StoredT, ShapedT, NodeOf, OnPath, To, From, InPlace, Iterable;
      PathAt(views(0), root.t, root.h, trees, path, pos, level);
      LevelEnds(views(0), root.t, root.h, trees, path, pos, level);
      if pos[level] + 1 < |path[level].es| {
        Shifted(views(0), root.t, root.h, trees, path, pos, level, pos[level] + 1);
        pos := pos[level := pos[level] + 1];
      } else if level == 0 {
        return false;
      } else {
        ok := IterNext(level - 1);
        if !ok {
          return;
        }
      }
      ok := true;
      PathAt(views(0), root.t, root.h, trees, path, pos, level);
      ReloadKid(level, false);
    }

    /** The range at level ends where it began before. False is the answer if that was entry 0. */
    method IterPrev(level: nat) returns (ok: bool)
      requires Placed(level) && pos[level] <= |path[level].es|
      modifies this
      ensures Placed(level)
      ensures ok <==> old(From(trees, pos, level)) > 0
      ensures ok ==> pos[level] < |path[level].es| && To(trees, pos, level) == old(From(trees, pos, level))
      ensures ok && level < root.h ==> Placed(level + 1) && pos[level + 1] < |path[level + 1].es|
      ensures ok && level < root.h ==> To(trees, pos, level + 1) == To(trees, pos, level)
      ensures !ok ==> path == old(path) && pos == old(pos) && trees == old(trees)
      decreases level
    {
      hide FlatT, Flat, Before, Start, StoredT, ShapedT, NodeOf, OnPath, To, From, InPlace, Iterable;
      PathAt(views(0), root.t, root.h, trees, path, pos, level);
      LevelEnds(views(0), root.t, root.h, trees, path, pos, level);
      if pos[level] > 0 {
        Shifted(views(0), root.t, root.h, trees, path, pos, level, pos[level] - 1);
        pos := pos[level := pos[level] - 1];
      } else if level == 0 {
        return false;
      } else {
        ok := IterPrev(level - 1);
        if !ok {
          return;
        }
      }
      ok := true;
      PathAt(views(0), root.t, root.h, trees, path, pos, level);
      ReloadKid(level, true);
    }

    /** Is the iterator at a key, rather than at the sentinel or after the last key? */
    method IsValid() returns (b: bool)
      requires Valid()
      ensures b <==> 0 < Index() < |Entries()|
    {
      hide OnPath, Sorted, NodeOf, FlatT, Flat, Before, Start;
      if path == [] {
        return false;
      }
      var leaf, p := path[|path| - 1], pos[|pos| - 1];
      if p >= |leaf.es| {
        return false;
      }
      LeafEntry(views(0), root, trees, path, pos);
      LevelEnds(views(0), root.t, root.h, trees, path, pos, root.h);
      SentinelOnly(views(0), root, Index());
      b := p > 0 || leaf.es[0].key != [];
    }

    method Deref() returns (key: Key, val: Key)
      requires Valid() && 0 < Index() < |Entries()|
      ensures key == Entries()[Index()].key && val == Entries()[Index()].val
    {
      hide OnPath, Sorted, NodeOf, FlatT, Flat, Before, Start;
      var leaf, p := path[|path| - 1], pos[|pos| - 1];
      LeafEntry(views(0), root, trees, path, pos);
      key, val := leaf.es[p].key, leaf.es[p].val;
    }

    /** To the next key, or after the last one. */
    method Next()
      requires Valid()
      modifies this
      ensures Valid()
      ensures Index() == if old(Index()) < |Entries()| then old(Index()) + 1 else old(Index())
    {
      hide OnPath, Sorted, NodeOf, FlatT, Flat, Before, Start, Iterable;
      if path == [] {
        return;
      }
      LeafEntry(views(0), root, trees, path, pos);
      var ok := IterNext(|path| - 1);
      if !ok {
        AtEnd(views(0), root, trees, path, pos);
        pos := pos[|pos| - 1 := |path[|path| - 1].es|];
      }
    }

    /** To the previous key, or to the sentinel. */
    method Prev()
      requires Valid()
      modifies this
      ensures Valid()
      ensures Index() == if old(Index()) > 0 then old(Index()) - 1 else 0
    {
      hide OnPath, Sorted, NodeOf, FlatT, Flat, Before, Start, Iterable;
      if path == [] {
        return;
      }
      var ok := IterPrev(|path| - 1);
      LeafEntry(views(0), root, trees, path, pos);
    }
  }

  /** A path of the tree is one in every view, since it leads through the same nodes. */
  lemma OnPathInAnyView(root: Root, views: nat -> Pages, n: nat, trees: seq<Tree>, path: seq<Node>, pos: seq<nat>, k: nat)
    requires InPlace(root, views) && root.Rooted? && OnPath(views(0), root.t, root.h, trees, path, pos, k)
    ensures OnPath(views(n), root.t, root.h, trees, path, pos, k)
  {
    hide ShapedT, NodeOf, FlatT, StoredT, Sorted, FirstKey, PagesT;
    assert Iterable(root, views(n));
    StoredAlong(views(0), views(n), root.t, root.h, trees, path, pos, k);
  }

  lemma {:induction false} StoredAlong(v: Pages, w: Pages, root: Tree, h: nat, trees: seq<Tree>, path: seq<Node>, pos: seq<nat>, k: nat)
    requires OnPath(v, root, h, trees, path, pos, k) && StoredT(w, root)
    ensures forall l :: 0 <= l <= k ==> StoredT(w, trees[l])
  {
    hide ShapedT, NodeOf, StoredT, OnPath;
    PathAt(v, root, h, trees, path, pos, k);
    if k > 0 {
      StoredAlong(v, w, root, h, trees, path, pos, k - 1);
      PathAt(v, root, h, trees, path, pos, k - 1);
      KidStored(w, trees[k - 1], h - (k - 1), pos[k - 1]);
    }
  }

  /** Only entry 0 has an empty key. */
  lemma SentinelOnly(view: Pages, root: Root, i: nat)
    requires Iterable(root, view) && root.Rooted? && i < |FlatT(root.t)|
    ensures FlatT(root.t)[i].key == [] <==> i == 0
  {
    FirstKeyIs(root.t);
    assert i > 0 ==> Lt(FlatT(root.t)[0].key, FlatT(root.t)[i].key);
  }

  /** The leaf of a path: its entries are consecutive entries of the whole. */
  lemma LeafEntry(view: Pages, root: Root, trees: seq<Tree>, path: seq<Node>, pos: seq<nat>)
    requires root.Rooted? && |path| == root.h + 1 && OnPath(view, root.t, root.h, trees, path, pos, root.h)
    ensures |trees| == |pos| == |path|
    ensures pos[root.h] < |path[root.h].es| ==>
              && From(trees, pos, root.h) < |FlatT(root.t)| && To(trees, pos, root.h) == From(trees, pos, root.h) + 1
              && FlatT(root.t)[From(trees, pos, root.h)] == path[root.h].es[pos[root.h]]
    ensures pos[root.h] == |path[root.h].es| ==> To(trees, pos, root.h) == From(trees, pos, root.h)
  {
    hide OnPath, FlatT, Flat, Before, StoredT, ShapedT, NodeOf, Start, IsSlice;
    PathAt(view, root.t, root.h, trees, path, pos, root.h);
    PathSlice(view, root.t, root.h, trees, path, pos, root.h);
    LeafBefore(trees[root.h], pos[root.h]);
    LeafBefore(trees[root.h], pos[root.h] + 1);
    IndexSlice(FlatT(root.t), FlatT(trees[root.h]), Start(trees, pos, root.h), pos[root.h]);
  }

  lemma IndexSlice(all: seq<Entry>, part: seq<Entry>, at: nat, i: nat)
    requires IsSlice(all, part, at)
    ensures i < |part| ==> at + i < |all| && all[at + i] == part[i]
  {
  }

  lemma LeafBefore(t: Tree, p: nat)
    requires ShapedT(t, 0)
    ensures NodeOf(t).es == FlatT(t)
    ensures p <= |FlatT(t)| ==> Before(t, p) == p
    ensures p == |FlatT(t)| ==> Before(t, p + 1) == p
  {
  }

  /** After the last key of the last leaf. */
  lemma AtEnd(view: Pages, root: Root, trees: seq<Tree>, path: seq<Node>, pos: seq<nat>)
    requires root.Rooted? && |path| == root.h + 1 && OnPath(view, root.t, root.h, trees, path, pos, root.h)
    requires pos[root.h] <= |path[root.h].es| && To(trees, pos, root.h) >= |FlatT(root.t)|
    ensures |trees| == |pos| == |path|
    ensures var p := pos[root.h := |path[root.h].es|];
            && OnPath(view, root.t, root.h, trees, path, p, root.h)
            && From(trees, p, root.h) == To(trees, pos, root.h) == |FlatT(root.t)|
  {
    hide OnPath, FlatT, Flat, Before, StoredT, ShapedT, NodeOf, Start;
    PathAt(view, root.t, root.h, trees, path, pos, root.h);
    LevelEnds(view, root.t, root.h, trees, path, pos, root.h);
    var n := |path[root.h].es|;
    LeafBefore(trees[root.h], n);
    LeafBefore(trees[root.h], pos[root.h]);
    LeafBefore(trees[root.h], pos[root.h] + 1);
    Shifted(view, root.t, root.h, trees, path, pos, root.h, n);
  }

  // ------------------------------------------------------------ seeking

  ghost predicate BelowTo(es: seq<Entry>, n: nat, key: Key)
  {
    n <= |es| && forall i :: 0 <= i < n ==> Lt(es[i].key, key)
  }

  ghost predicate AboveFrom(es: seq<Entry>, n: nat, key: Key)
  {
    n <= |es| && forall i :: n <= i < |es| ==> Lt(key, es[i].key)
  }

  /** Bounds found inside a slice whose outside is bounded already. */
  lemma BoundsOutside(all: seq<Entry>, mid: seq<Entry>, a: nat, b: nat, c: nat, key: Key)
    requires IsSlice(all, mid, a) && BelowTo(all, a, key) && AboveFrom(all, a + |mid|, key)
    requires BelowTo(mid, b, key) && AboveFrom(mid, c, key)
    ensures BelowTo(all, a + b, key) && AboveFrom(all, a + c, key)
  {
    forall i | a <= i < a + |mid|
      ensures all[i] == mid[i - a]
    {
      assert mid[i - a] == all[a + (i - a)];
    }
  }

  lemma BoundsAround(l: seq<Entry>, m: seq<Entry>, r: seq<Entry>, key: Key)
    requires AllBelow(l, key) && AllAbove(r, key)
    ensures BelowTo(l + m + r, |l|, key) && AboveFrom(l + m + r, |l| + |m|, key)
  {
  }

  /** A search through child p leaves everything outside it on the right side of key. */
  lemma KidBounds(t: Tree, h: nat, p: nat, key: Key)
    requires ShapedT(t, h) && t.Inner? && p < |t.kids| && Sorted(FlatT(t)) && IsLookup(NodeOf(t).es, key, p)
    ensures BelowTo(FlatT(t), Before(t, p), key) && AboveFrom(FlatT(t), Before(t, p) + |FlatT(t.kids[p])|, key)
    ensures Sorted(FlatT(t.kids[p])) && Le(FirstKey(t.kids[p]), key)
  {
    hide Sorted, IsLookup, ShapedT, Shaped, Flat, Lt, FirstKey, AllBelow, AllAbove, BelowTo, AboveFrom;
    InnerParts(t, h);
    SearchPath(t.kids, h - 1, key, p);
    FlatAroundKid(t.kids, p);
    BoundsAround(Flat(t.kids[..p]), FlatT(t.kids[p]), Flat(t.kids[p + 1..]), key);
  }

  /** Down a path of lookups, everything before the subtree is below key and everything after it above. */
  lemma {:induction false} SeekRange(view: Pages, root: Tree, h: nat, trees: seq<Tree>, path: seq<Node>, pos: seq<nat>, k: nat, key: Key)
    requires OnPath(view, root, h, trees, path, pos, k) && Sorted(FlatT(root))
    requires forall l :: 0 <= l < k ==> IsLookup(path[l].es, key, pos[l])
    ensures |trees| == |pos| && k < |pos|
    ensures BelowTo(FlatT(root), Start(trees, pos, k), key)
    ensures AboveFrom(FlatT(root), Start(trees, pos, k) + |FlatT(trees[k])|, key) && Sorted(FlatT(trees[k]))
  {
    hide OnPath, FlatT, Flat, Before, StoredT, ShapedT, NodeOf, IsSlice, Sorted, IsLookup, BelowTo, AboveFrom;
    PathAt(view, root, h, trees, path, pos, k);
    if k == 0 {
      NoBounds(FlatT(root), key);
    } else {
      var t := trees[k - 1];
      PathAt(view, root, h, trees, path, pos, k - 1);
      SeekRange(view, root, h, trees, path, pos, k - 1, key);
      PathSlice(view, root, h, trees, path, pos, k - 1);
      KidBounds(t, h - (k - 1), pos[k - 1], key);
      BoundsOutside(FlatT(root), FlatT(t), Start(trees, pos, k - 1), Before(t, pos[k - 1]),
                    Before(t, pos[k - 1]) + |FlatT(trees[k])|, key);
    }
  }

  lemma NoBounds(es: seq<Entry>, key: Key)
    ensures BelowTo(es, 0, key) && AboveFrom(es, |es|, key)
  {
  }

  /** A path of lookups down to a leaf is the lookup among all entries. */
  lemma SeekLanded(view: Pages, root: Tree, h: nat, trees: seq<Tree>, path: seq<Node>, pos: seq<nat>, key: Key)
    requires |path| == h + 1 && OnPath(view, root, h, trees, path, pos, h) && Sorted(FlatT(root))
    requires |pos| == h + 1 && forall l :: 0 <= l <= h ==> IsLookup(path[l].es, key, pos[l])
    ensures |trees| == h + 1 && IsLookup(FlatT(root), key, From(trees, pos, h))
  {
    hide OnPath, FlatT, Flat, Before, StoredT, ShapedT, NodeOf, IsSlice, Sorted, IsLookup, BelowTo, AboveFrom, Start;
    PathAt(view, root, h, trees, path, pos, h);
    PathSlice(view, root, h, trees, path, pos, h);
    SeekRange(view, root, h, trees, path, pos, h, key);
    LookupInside(path[h].es, key, pos[h]);
    LeafBefore(trees[h], pos[h]);
    LookupOutside(FlatT(root), FlatT(trees[h]), Start(trees, pos, h), pos[h], key);
  }

  lemma LookupInside(es: seq<Entry>, key: Key, r: int)
    requires IsLookup(es, key, r)
    ensures r < |es|
  {
  }

  lemma LookupOutside(all: seq<Entry>, part: seq<Entry>, at: nat, r: nat, key: Key)
    requires IsSlice(all, part, at) && BelowTo(all, at, key) && AboveFrom(all, at + |part|, key)
    requires IsLookup(part, key, r)
    ensures IsLookup(all, key, at + r)
  {
    forall i | at <= i < at + |part|
      ensures all[i] == part[i - at]
    {
      assert part[i - at] == all[at + (i - at)];
    }
  }

  /** The tree a seek visits next. */
  ghost predicate Ahead(view: Pages, t: Tree, h: nat, key: Key)
  {
    && ShapedT(t, h) && StoredT(view, t) && Sorted(FlatT(t)) && Le(FirstKey(t), key) && 0 !in PagesT(t)
  }

  lemma AheadNode(view: Pages, t: Tree, h: nat, key: Key)
    requires Ahead(view, t, h, key)
    ensures HasNode(view, t.ptr, NodeOf(t)) && t.ptr != 0 && Sorted(NodeOf(t).es)
    ensures NodeOf(t).leaf == t.Leaf? && (t.Leaf? <==> h == 0)
    ensures forall r :: IsLookup(NodeOf(t).es, key, r) ==> 0 <= r < |NodeOf(t).es|
  {
    if t.Inner? {
      LinksSorted(t.kids, h - 1);
    }
    NodeFirstKey(t, h);
    forall r | IsLookup(NodeOf(t).es, key, r)
      ensures 0 <= r < |NodeOf(t).es|
    {
      LtIsStrictTotalOrder();
    }
  }

  lemma AheadKid(view: Pages, t: Tree, h: nat, key: Key, p: nat)
    requires Ahead(view, t, h, key) && t.Inner? && IsLookup(NodeOf(t).es, key, p)
    ensures p < |t.kids| && h > 0 && Ahead(view, t.kids[p], h - 1, key) && NodeOf(t).es[p].ptr == t.kids[p].ptr
  {
    hide Flat, FlatT, Sorted, Lt, FirstKey, IsLookup;
    LookupInside(NodeOf(t).es, key, p);
    KidBounds(t, h, p, key);
    PagesOfKid(t.kids, p);
    KidStored(view, t, h, p);
    KidPointer(t, p);
  }

  lemma AheadKids(views: nat -> Pages, t: Tree, h: nat, key: Key, p: nat)
    requires AheadAlways(views, t, h, key) && t.Inner? && IsLookup(NodeOf(t).es, key, p)
    ensures p < |t.kids| && h > 0 && AheadAlways(views, t.kids[p], h - 1, key) && NodeOf(t).es[p].ptr == t.kids[p].ptr
  {
    hide Ahead, IsLookup, NodeOf;
    AheadKid(views(0), t, h, key, p);
    forall n: nat
      ensures Ahead(views(n), t.kids[p], h - 1, key)
    {
      AheadKid(views(n), t, h, key, p);
    }
  }

  lemma KidPointer(t: Tree, p: nat)
    requires t.Inner? && p < |t.kids|
    ensures NodeOf(t).es[p].ptr == t.kids[p].ptr
  {
  }

  lemma AheadRoot(view: Pages, root: Root, key: Key)
    requires Iterable(root, view) && root.Rooted?
    ensures Ahead(view, root.t, root.h, key)
  {
    LtIsStrictTotalOrder();
  }

  /** The part of a path built so far, all lookups, and the tree it leads to next. */
  ghost predicate Seeking(view: Pages, root: Root, trees: seq<Tree>, path: seq<Node>, pos: seq<nat>, key: Key)
  {
    && root.Rooted? && |trees| == |path| == |pos| <= root.h + 1
    && (path != [] ==> OnPath(view, root.t, root.h, trees, path, pos, |path| - 1))
    && (forall l :: 0 <= l < |path| ==> IsLookup(path[l].es, key, pos[l]))
  }

  ghost predicate LeadsTo(root: Root, trees: seq<Tree>, pos: seq<nat>, t: Tree)
    requires root.Rooted? && |trees| == |pos|
  {
    var k := |trees|;
    if k == 0 then t == root.t
    else trees[k - 1].Inner? && pos[k - 1] < |trees[k - 1].kids| && t == trees[k - 1].kids[pos[k - 1]]
  }

  lemma SeekStep(view: Pages, root: Root, trees: seq<Tree>, path: seq<Node>, pos: seq<nat>, key: Key, t: Tree, p: nat)
    requires Seeking(view, root, trees, path, pos, key) && |path| <= root.h
    requires LeadsTo(root, trees, pos, t)
    requires StoredT(view, t) && ShapedT(t, root.h - |path|) && IsLookup(NodeOf(t).es, key, p)
    ensures Seeking(view, root, trees + [t], path + [NodeOf(t)], pos + [p], key)
  {
    hide StoredT, ShapedT, NodeOf, IsLookup;
    var k := |path|;
    var trees', path', pos' := trees + [t], path + [NodeOf(t)], pos + [p];
    assert OnPath(view, root.t, root.h, trees', path', pos', k);
  }

  /** seek_le: to the last entry whose key is at most key, the sentinel if there is none. Each node is read on its own. */
  method SeekLe(views: nat -> Pages, ptr: nat, key: Key, ghost root: Root) returns (iter: BIter)
    requires InPlace(root, views) && ptr == RootPage(root)
    ensures fresh(iter) && iter.Valid() && iter.root == root && iter.views == views
    ensures root.Rooted? ==> IsLookup(iter.Entries(), key, iter.Index())
  {
    hide OnPath, Sorted, NodeOf, FlatT, Flat, Before, Start, IsLookup, Iterable, Ahead, Seeking, HasNode;
    RootSeek(views, root, key);
    var path: seq<Node>, pos: seq<nat> := [], [];
    ghost var trees: seq<Tree>, t := [], if root.Rooted? then root.t else Leaf(0, []);
    var next, nread := ptr, 0;
    while next != 0
      invariant root.Empty? ==> next == 0 && path == [] && pos == []
      invariant root.Rooted? ==> Seeking(views(0), root, trees, path, pos, key) && |trees| == |pos| == |path|
      invariant root.Rooted? && next != 0 ==> |path| <= root.h && LeadsTo(root, trees, pos, t)
      invariant root.Rooted? && next != 0 ==> AheadAlways(views, t, root.h - |path|, key) && next == t.ptr
      invariant root.Rooted? && next == 0 ==> |path| == root.h + 1
      decreases if next != 0 then root.h + 1 - |path| else 0
    {
      AheadNode(views(0), t, root.h - |path|, key);
      AheadNode(views(nread), t, root.h - |path|, key);
      AheadStored(views(0), t, root.h - |path|, key);
      var node := ReadNode(views(nread), next, t);
      nread := nread + 1;
      var idx := LookupLe(node, key);
      if node.leaf {
        next := 0;
      } else {
        AheadKids(views, t, root.h - |path|, key, idx);
        next := node.es[idx].ptr;
        AheadNode(views(0), t.kids[idx], root.h - |path| - 1, key);
      }
      SeekStep(views(0), root, trees, path, pos, key, t, idx);
      path, pos, trees := path + [node], pos + [idx], trees + [t];
      t := if node.leaf then t else t.kids[idx];
    }
    iter := new BIter(views, nread, path, pos, root, trees);
    if root.Rooted? {
      SeekDone(views(0), root, trees, path, pos, key);
    }
  }

  ghost predicate AheadAlways(views: nat -> Pages, t: Tree, h: nat, key: Key)
  {
    forall n :: Ahead(views(n), t, h, key)
  }

  method ReadNode(view: Pages, ptr: nat, ghost t: Tree) returns (node: Node)
    requires HasNode(view, ptr, NodeOf(t))
    ensures node == NodeOf(t)
  {
    node := view[ptr].node;
  }

  lemma AheadStored(view: Pages, t: Tree, h: nat, key: Key)
    requires Ahead(view, t, h, key)
    ensures StoredT(view, t) && ShapedT(t, h)
  {
  }

  lemma RootSeek(views: nat -> Pages, root: Root, key: Key)
    requires InPlace(root, views)
    ensures root.Rooted? ==> Seeking(views(0), root, [], [], [], key) && AheadAlways(views, root.t, root.h, key) && root.t.ptr != 0
  {
    hide Iterable, Ahead;
    if root.Rooted? {
      forall n
        ensures Ahead(views(n), root.t, root.h, key)
      {
        AheadRoot(views(n), root, key);
      }
      AheadNode(views(0), root.t, root.h, key);
    }
  }

  lemma SeekDone(view: Pages, root: Root, trees: seq<Tree>, path: seq<Node>, pos: seq<nat>, key: Key)
    requires Iterable(root, view) && Seeking(view, root, trees, path, pos, key) && |path| == root.h + 1
    ensures OnPath(view, root.t, root.h, trees, path, pos, root.h) && pos[root.h] < |path[root.h].es|
    ensures IsLookup(FlatT(root.t), key, From(trees, pos, root.h))
  {
    hide OnPath, IsLookup, FlatT, Sorted, From, StoredT, ShapedT;
    LookupInside(path[root.h].es, key, pos[root.h]);
    SeekLanded(view, root.t, root.h, trees, path, pos, key);
  }

  /** Where seek lands: the nearest key satisfying cmp; with none, before the first or after the last key. */
  ghost predicate Nearest(es: seq<Entry>, i: nat, cmp: Cmp, key: Key)
  {
    if cmp.Forward() then
      && 1 <= i <= |es| && (i < |es| ==> CmpOk(es[i].key, cmp, key))
      && (forall j :: 1 <= j < i ==> !CmpOk(es[j].key, cmp, key))
    else
      && i < |es| && (i > 0 ==> CmpOk(es[i].key, cmp, key))
      && (forall j :: i < j < |es| ==> !CmpOk(es[j].key, cmp, key))
  }

  /** What the four comparisons say of keys. */
  lemma CmpIs(key: Key, bound: Key)
    ensures (CmpOk(key, LT, bound) <==> Lt(key, bound)) && (CmpOk(key, GT, bound) <==> Lt(bound, key))
    ensures (CmpOk(key, GE, bound) <==> !Lt(key, bound)) && (CmpOk(key, LE, bound) <==> !Lt(bound, key))
    ensures GE.Forward() && GT.Forward() && !LT.Forward() && !LE.Forward()
  {
    LtIsStrictTotalOrder();
  }

  /** Where seek lands, for each comparison: among the keys in order, just after those before it and just before the others. */
  lemma NearestIs(es: seq<Entry>, i: nat, key: Key)
    requires Sorted(es)
    ensures Nearest(es, i, GE, key) <==> 1 <= i <= |es| && forall j :: 1 <= j < |es| ==> (j < i <==> Lt(es[j].key, key))
    ensures Nearest(es, i, GT, key) <==> 1 <= i <= |es| && forall j :: 1 <= j < |es| ==> (j < i <==> !Lt(key, es[j].key))
    ensures Nearest(es, i, LT, key) <==> i < |es| && forall j :: 1 <= j < |es| ==> (j <= i <==> Lt(es[j].key, key))
    ensures Nearest(es, i, LE, key) <==> i < |es| && forall j :: 1 <= j < |es| ==> (j <= i <==> !Lt(key, es[j].key))
  {
    LtIsStrictTotalOrder();
    forall j | 1 <= j < |es|
      ensures (CmpOk(es[j].key, LT, key) <==> Lt(es[j].key, key)) && (CmpOk(es[j].key, GT, key) <==> Lt(key, es[j].key))
      ensures (CmpOk(es[j].key, GE, key) <==> !Lt(es[j].key, key)) && (CmpOk(es[j].key, LE, key) <==> !Lt(key, es[j].key))
    {
      CmpIs(es[j].key, key);
    }
    hide CmpOk, Lt;
    if 1 <= i < |es| {
      forall j | i < j < |es|
        ensures Lt(es[i].key, es[j].key)
      {
      }
    }
  }

  /** The one step that fixes the lookup's off-by-one. */
  lemma FixedByOneStep(es: seq<Entry>, r: nat, key: Key, cmp: Cmp)
    requires Sorted(es) && es != [] && es[0].key == [] && IsLookup(es, key, r) && r < |es|
    ensures var ok := r > 0 && CmpOk(es[r].key, cmp, key);
            && (ok ==> Nearest(es, r, cmp, key))
            && (!ok && cmp.Forward() ==> Nearest(es, r + 1, cmp, key))
            && (!ok && !cmp.Forward() && r > 0 ==> Nearest(es, r - 1, cmp, key))
            && (r == 0 && !cmp.Forward() ==> Nearest(es, 0, cmp, key))
  {
    LtIsStrictTotalOrder();
    hide Lt;
    forall i, j | 0 <= i < j < |es|
      ensures Lt(es[i].key, es[j].key) && es[i].key != es[j].key
    {
    }
  }

  method Seek(views: nat -> Pages, ptr: nat, key: Key, cmp: Cmp, ghost root: Root) returns (iter: BIter)
    requires InPlace(root, views) && ptr == RootPage(root)
    ensures fresh(iter) && iter.Valid() && iter.root == root && iter.views == views
    ensures root.Rooted? ==> Nearest(iter.Entries(), iter.Index(), cmp, key)
  {
    hide Iterable, OnPath, FlatT, IsLookup, Sorted, Nearest, From, To, CmpOk;
    iter := SeekLe(views, ptr, key, root);
    SeekFacts(views(0), root, iter.Entries(), iter.Index(), key, cmp);
    var valid := iter.IsValid();
    var ok := false;
    if valid {
      var at, _ := iter.Deref();
      ok := CmpOk(at, cmp, key);
    }
    if !ok && cmp.Forward() {
      iter.Next();
    } else if !ok && valid {
      iter.Prev();
    }
  }

  lemma SeekFacts(view: Pages, root: Root, es: seq<Entry>, r: nat, key: Key, cmp: Cmp)
    requires Iterable(root, view) && root.Rooted? ==> es == FlatT(root.t) && IsLookup(es, key, r)
    requires Iterable(root, view)
    ensures root.Rooted? ==> r < |es| && Sorted(es) && es[0].key == []
    ensures root.Rooted? ==>
              var ok := r > 0 && CmpOk(es[r].key, cmp, key);
              && (ok ==> Nearest(es, r, cmp, key))
              && (!ok && cmp.Forward() ==> Nearest(es, r + 1, cmp, key))
              && (!ok && !cmp.Forward() && r > 0 ==> Nearest(es, r - 1, cmp, key))
              && (r == 0 && !cmp.Forward() ==> Nearest(es, 0, cmp, key))
  {
    hide Nearest, CmpOk, Flat;
    if root.Rooted? {
      ShapedFlat(root.t, root.h);
      FirstKeyIs(root.t);
      FixedByOneStep(es, r, key, cmp);
    }
  }

  // ------------------------------------------------------------ undoing a step

  /** prev undoes next and next undoes prev, also one step back from either end. */
  method NextThenPrev(iter: BIter)
    requires iter.Valid() && iter.Index() < |iter.Entries()|
    modifies iter
    ensures iter.Valid() && iter.Index() == old(iter.Index())
  {
    iter.Next();
    iter.Prev();
  }

  method PrevThenNext(iter: BIter)
    requires iter.Valid() && iter.Index() > 0
    modifies iter
    ensures iter.Valid() && iter.Index() == old(iter.Index())
  {
    iter.Bounded();
    iter.Prev();
    iter.Next();
  }
}
