/** The trees that insertion and deletion make, down to which entries lie in which node, but not on which page. */
module TreeShapes {
  import opened Bytes
  import opened Nodes
  import opened Entries
  import opened Trees
  import opened TreeEdit
  import opened TreeDeletes

  /** The tree without its page numbers. */
  ghost function Bare(t: Tree): Tree
  {
    match t
    case Leaf(_, es) => Leaf(0, es)
    case Inner(_, kids) => Inner(0, seq(|kids|, i requires 0 <= i < |kids| => Bare(kids[i])))
  }

  ghost function BareF(ts: seq<Tree>): (r: seq<Tree>)
    ensures |r| == |ts|
  {
    seq(|ts|, i requires 0 <= i < |ts| => Bare(ts[i]))
  }

  lemma BareKids(t: Tree)
    ensures t.Inner? ==> Bare(t) == Inner(0, BareF(t.kids))
    ensures Bare(t).Kids() == BareF(t.Kids())
  {
  }

  lemma {:induction false} BareFlat(t: Tree)
    ensures FlatT(Bare(t)) == FlatT(t)
    decreases t, 0
  {
    if t.Inner? {
      BareKids(t);
      BareFlatF(t.kids);
    }
  }

  lemma {:induction false} BareFlatF(ts: seq<Tree>)
    ensures Flat(BareF(ts)) == Flat(ts)
    decreases ts, 1
  {
    if ts != [] {
      BareFlat(ts[0]);
      BareFlatF(ts[1..]);
      assert BareF(ts) == [Bare(ts[0])] + BareF(ts[1..]);
    }
  }

  // ------------------------------------------------------------ sizes and keys do not depend on pages

  /** Entry by entry the same key and the same size. */
  ghost predicate AlikeEntries(a: seq<Entry>, b: seq<Entry>)
  {
    |a| == |b| && forall i :: 0 <= i < |a| ==> a[i].key == b[i].key && a[i].val == b[i].val
  }

  lemma {:induction false} AlikeSizes(a: seq<Entry>, b: seq<Entry>, key: Key)
    requires AlikeEntries(a, b)
    ensures Size(a) == Size(b) && Find(a, key) == Find(b, key)
    decreases |a|
  {
    if a != [] {
      AlikeSizes(a[1..], b[1..], key);
      var n := |a| - 1;
      AlikeSizes(a[..n], b[..n], key);
    }
  }

  lemma BareLinks(ts: seq<Tree>)
    ensures AlikeEntries(Links(BareF(ts)), Links(ts))
  {
    hide FlatT;
    forall i | 0 <= i < |ts|
      ensures Links(BareF(ts))[i].key == Links(ts)[i].key
    {
      BareFlat(ts[i]);
    }
  }

  lemma BareNode(t: Tree)
    ensures AlikeEntries(NodeOf(Bare(t)).es, NodeOf(t).es)
    ensures NBytes(NodeOf(Bare(t))) == NBytes(NodeOf(t))
  {
    hide Links, BareF, Find, Size;
    if t.Inner? {
      BareKids(t);
      BareLinks(t.kids);
    }
    AlikeSizes(NodeOf(Bare(t)).es, NodeOf(t).es, []);
  }

  lemma BareMergeDir(kids: seq<Tree>, i: nat, bytes: int)
    requires i < |kids|
    ensures MergeDirOf(BareF(kids), i, bytes) == MergeDirOf(kids, i, bytes)
  {
    hide Bare, NodeOf, Size;
    if i > 0 {
      BareNode(kids[i - 1]);
    }
    if i + 1 < |kids| {
      BareNode(kids[i + 1]);
    }
  }

  lemma BareInnerBytes(kids: seq<Tree>, i: nat, bytes: int, rest: seq<Entry>)
    requires i < |kids|
    ensures InnerBytes(BareF(kids), i, bytes, rest) == InnerBytes(kids, i, bytes, rest)
  {
    hide BareF, Links, Size, Find, NodeOf;
    BareLinks(kids);
    AlikeSizes(Links(BareF(kids)), Links(kids), []);
    BareMergeDir(kids, i, bytes);
    LinksLength(kids);
    LinksLength(BareF(kids));
    var a, b := Links(BareF(kids)), Links(kids);
    assert a[i].key == b[i].key && a[i].val == b[i].val;
    if i + 1 < |kids| {
      assert a[i + 1].key == b[i + 1].key && a[i + 1].val == b[i + 1].val;
    }
  }

  lemma LinksLength(kids: seq<Tree>)
    ensures |Links(kids)| == |kids|
  {
  }

  lemma BareFind(kids: seq<Tree>, key: Key)
    ensures Find(Links(BareF(kids)), key) == Find(Links(kids), key) < |kids|
  {
    hide BareF, Links, Size, Find;
    BareLinks(kids);
    AlikeSizes(Links(BareF(kids)), Links(kids), key);
    LinksLength(kids);
  }

  lemma {:induction false} BareAfterBytes(t: Tree, key: Key)
    ensures AfterBytes(Bare(t), key) == AfterBytes(t, key)
  {
    hide FlatT, InnerBytes, Links, Find, Removed, Size;
    if t.Inner? {
      BareKids(t);
      BareFind(t.kids, key);
      var i := Find(Links(t.kids), key);
      if i >= 0 {
        BareAfterBytes(t.kids[i], key);
        BareFlat(t.kids[i]);
        BareInnerBytes(t.kids, i, AfterBytes(t.kids[i], key), Removed(FlatT(t.kids[i]), key));
      }
    }
  }

  /** Whether a deletion fits does not depend on page numbers. */
  lemma {:induction false} BareDeleteFits(t: Tree, key: Key)
    ensures DeleteFits(Bare(t), key) <==> DeleteFits(t, key)
  {
    hide FlatT, InnerBytes, Links, Find, Removed, Size, AfterBytes;
    if t.Inner? {
      BareKids(t);
      BareFind(t.kids, key);
      var i := Find(Links(t.kids), key);
      if i >= 0 {
        BareDeleteFits(t.kids[i], key);
        BareAfterBytes(t.kids[i], key);
        BareFlat(t.kids[i]);
        BareInnerBytes(t.kids, i, AfterBytes(t.kids[i], key), Removed(FlatT(t.kids[i]), key));
        BareLinks(t.kids);
      }
    }
  }

  // ------------------------------------------------------------ deletion

  /** The tree below a node once key is deleted from it. */
  ghost function Pruned(t: Tree, key: Key): Tree
  {
    match t
    case Leaf(_, es) => Leaf(0, Removed(es, key))
    case Inner(_, kids) =>
      var i := Find(Links(kids), key);
      if i < 0 then t
      else
        var uc := Pruned(kids[i], key);
        match MergeDirOf(kids, i, NBytes(NodeOf(uc)))
        case MergeLeft => Merged(t, i - 1, MergedTree(kids[i - 1], uc), 0)
        case MergeRight => Merged(t, i, MergedTree(uc, kids[i + 1]), 0)
        case NoMerge =>
          if NodeOf(uc).es == [] then Inner(0, []) else Inner(0, kids[..i] + [uc] + kids[i + 1..])
  }

  ghost function PrunedRoot(rt: Root, key: Key): Root
  {
    match rt
    case Empty => Empty
    case Rooted(t, h) =>
      var u := Pruned(t, key);
      if u.Inner? && |u.kids| == 1 && h > 0 then Rooted(u.kids[0], h - 1) else Rooted(u, h)
  }

  ghost function BareRoot(rt: Root): Root
  {
    if rt.Empty? then Empty else Rooted(Bare(rt.t), rt.h)
  }

  lemma BareMergedTree(a: Tree, b: Tree)
    requires a.Leaf? <==> b.Leaf?
    ensures Bare(MergedTree(a, b)) == MergedTree(Bare(a), Bare(b))
  {
    BareKids(a);
    BareKids(b);
    BareKids(MergedTree(a, b));
    assert BareF(a.Kids() + b.Kids()) == BareF(a.Kids()) + BareF(b.Kids());
  }

  lemma BareAt(t: Tree, p: nat)
    ensures Bare(t.At(p)) == Bare(t)
    ensures Bare(t).At(0) == Bare(t)
  {
  }

  lemma BareMerged(t: Tree, i: nat, w: Tree, p: nat)
    requires t.Inner? && i + 1 < |t.kids|
    ensures Bare(t).Inner? && |Bare(t).kids| == |t.kids| && Bare(Merged(t, i, w, p)) == Merged(Bare(t), i, Bare(w), 0)
  {
    hide Bare;
    BareKids(t);
    BareAt(w, p);
    BareKids(Merged(t, i, w, p));
    assert BareF(t.kids[..i] + [w.At(p)] + t.kids[i + 2..]) == BareF(t.kids)[..i] + [Bare(w)] + BareF(t.kids)[i + 2..];
  }

  lemma BareAround(kids: seq<Tree>, j: nat, w: seq<Tree>)
    requires j < |kids|
    ensures |BareF(kids)| == |kids| && BareF(kids)[j] == Bare(kids[j])
    ensures BareF(kids[..j] + w + kids[j + 1..]) == BareF(kids)[..j] + BareF(w) + BareF(kids)[j + 1..]
  {
  }

  lemma BareOne(c: Tree)
    ensures BareF([c]) == [Bare(c)]
  {
  }

  /** One level up, after a merge. */
  lemma PrunedByMerge(t: Tree, key: Key, j: nat, dir: MergeDir, uc: Tree, i: nat, s: Tree, w: Tree, p: nat)
    requires t.Inner? && j < |t.kids| && j == Find(Links(t.kids), key)
    requires Bare(uc) == Pruned(Bare(t.kids[j]), key) && (s.Leaf? <==> uc.Leaf?)
    requires dir == MergeDirOf(t.kids, j, NBytes(NodeOf(uc))) && MergePlan(t, j, dir, uc, i, s, w)
    ensures i + 1 < |t.kids| && Bare(Merged(t, i, w, p)) == Pruned(Bare(t), key)
  {
    hide Links, Find, MergeDirOf, MergedTree, NodeOf, Size, Merged;
    BareKids(t);
    BareFind(t.kids, key);
    BareNode(uc);
    BareMergeDir(t.kids, j, NBytes(NodeOf(uc)));
    BareMerged(t, i, w, p);
    BareMergedTree(s, uc);
    BareMergedTree(uc, s);
  }

  lemma PrunedUnmerged(t: Tree, key: Key, j: nat)
    requires t.Inner? && j < |t.kids| && j == Find(Links(t.kids), key)
    requires MergeDirOf(t.kids, j, NBytes(NodeOf(Pruned(t.kids[j], key)))).NoMerge?
    ensures var uc := Pruned(t.kids[j], key);
            Pruned(t, key) == if NodeOf(uc).es == [] then Inner(0, []) else Inner(0, t.kids[..j] + [uc] + t.kids[j + 1..])
  {
    hide Links, Find, MergeDirOf, NodeOf, Size, Merged, MergedTree, FlatT;
  }

  /** One level up, without a merge. */
  lemma PrunedByReplace(t: Tree, key: Key, j: nat, uc: Tree, c: Tree, u: Tree)
    requires t.Inner? && j < |t.kids| && j == Find(Links(t.kids), key)
    requires Bare(uc) == Pruned(Bare(t.kids[j]), key) && MergeDirOf(t.kids, j, NBytes(NodeOf(uc))).NoMerge?
    requires Bare(c) == Bare(uc)
    requires u == if NodeOf(uc).es == [] then Inner(0, []) else Inner(0, t.kids[..j] + [c] + t.kids[j + 1..])
    ensures Bare(u) == Pruned(Bare(t), key)
  {
    hide Links, Find, MergeDirOf, NodeOf, Size, Merged, MergedTree, FlatT, Bare, BareF, Pruned;
    BareKids(t);
    BareFind(t.kids, key);
    BareNode(uc);
    BareMergeDir(t.kids, j, NBytes(NodeOf(uc)));
    BareKids(u);
    BareAround(t.kids, j, [c]);
    BareOne(c);
    PrunedUnmerged(Bare(t), key, j);
  }

  // ------------------------------------------------------------ insertion

  lemma {:induction false} AlikeShrunk(a: seq<Entry>, b: seq<Entry>, k: nat)
    requires AlikeEntries(a, b) && k <= |a|
    ensures ShrunkTo(a, k) == ShrunkTo(b, k)
  {
    hide Size;
    AlikeSizes(a[..k], b[..k], []);
    if k > 0 {
      AlikeShrunk(a, b, k - 1);
    }
  }

  lemma {:induction false} AlikeGrown(a: seq<Entry>, b: seq<Entry>, k: nat)
    requires AlikeEntries(a, b) && k <= |a|
    ensures GrownTo(a, k) == GrownTo(b, k)
    decreases |a| - k
  {
    hide Size;
    AlikeSizes(a[k..], b[k..], []);
    if k < |a| {
      AlikeGrown(a, b, k + 1);
    }
  }

  /** An updated node as it is, or cut in two where node_split does. */
  ghost function CutTree(u: Tree): (r: seq<Tree>)
    ensures 1 <= |r| <= 2
  {
    if NBytes(NodeOf(u)) <= PAGE_SIZE then [u]
    else
      var n := SplitAt(NodeOf(u).es);
      match u
      case Leaf(_, es) => [Leaf(0, es[..n]), Leaf(0, es[n..])]
      case Inner(_, kids) => [Inner(0, kids[..n]), Inner(0, kids[n..])]
  }

  /** The tree below a node once key is bound to val in it; its node may be too large for a page yet. */
  ghost function Grown(t: Tree, key: Key, val: Key): Tree
  {
    match t
    case Leaf(_, es) => Leaf(0, Inserted(es, key, val))
    case Inner(_, kids) =>
      var i := Find(Links(kids), key);
      if i < 0 then t else Inner(0, kids[..i] + CutTree(Grown(kids[i], key, val)) + kids[i + 1..])
  }

  ghost function GrownRoot(rt: Root, key: Key, val: Key): Root
  {
    match rt
    case Empty => Rooted(Leaf(0, [Entry(0, [], []), Entry(0, key, val)]), 0)
    case Rooted(t, h) =>
      var parts := CutTree(Grown(t, key, val));
      if |parts| == 1 then Rooted(parts[0], h) else Rooted(Inner(0, parts), h + 1)
  }

  /** A root that outgrows its page is cut in two below a new one; a first key makes a leaf with the sentinel. */
  lemma RootGrowsIf(t: Tree, h: nat, key: Key, val: Key)
    ensures var u := Grown(t, key, val);
            if NBytes(NodeOf(u)) <= PAGE_SIZE then GrownRoot(Rooted(t, h), key, val) == Rooted(u, h)
            else
              var r := GrownRoot(Rooted(t, h), key, val);
              r.Rooted? && r.h == h + 1 && r.t.Inner? && |r.t.kids| == 2 && Flat(r.t.kids) == FlatT(u)
    ensures var r := GrownRoot(Root.Empty, key, val); r.Rooted? && r.h == 0 && FlatT(r.t) == [Entry(0, [], []), Entry(0, key, val)]
  {
    hide Size, SplitAt, Grown;
    var u := Grown(t, key, val);
    if NBytes(NodeOf(u)) > PAGE_SIZE {
      var n, parts := SplitAt(NodeOf(u).es), CutTree(u);
      assert parts == [parts[0]] + [parts[1]];
      FlatAppend([parts[0]], [parts[1]]);
      FlatSingleton(parts[0]);
      FlatSingleton(parts[1]);
      if u.Leaf? {
        assert u.es[..n] + u.es[n..] == u.es;
      } else {
        FlatAppend(u.kids[..n], u.kids[n..]);
        assert u.kids[..n] + u.kids[n..] == u.kids;
      }
    }
  }

  /** An internal root left with one child gives way to it, and to no more than that. */
  lemma RootDropsIf(t: Tree, h: nat, key: Key)
    ensures var u := Pruned(t, key);
            PrunedRoot(Rooted(t, h), key) == if u.Inner? && |u.kids| == 1 && h > 0 then Rooted(u.kids[0], h - 1) else Rooted(u, h)
  {
  }

  /** What the cut is depends on sizes alone. */
  lemma BareCut(u: Tree, parts: seq<Node>, ptrs: seq<nat>)
    requires AreParts(parts, NodeOf(u)) && (|parts| == 1 <==> NBytes(NodeOf(u)) <= PAGE_SIZE) && |ptrs| == |parts|
    requires |parts| == 2 ==> |parts[0].es| == SplitAt(NodeOf(u).es)
    ensures |Pieces(u, parts)| == |ptrs| && BareF(Placed(Pieces(u, parts), ptrs)) == CutTree(Bare(u))
  {
    hide Size, SplitAt, Links, Bare;
    BareNode(u);
    BareKids(u);
    AlikeSplit(NodeOf(Bare(u)).es, NodeOf(u).es);
    if |parts| == 1 {
      BareAt(u, ptrs[0]);
      assert Placed([u], ptrs) == [u.At(ptrs[0])];
    } else {
      var n := SplitAt(NodeOf(u).es);
      var a, b := Pieces(u, parts)[0], Pieces(u, parts)[1];
      BareAt(a, ptrs[0]);
      BareAt(b, ptrs[1]);
      BareHalves(u, n);
      var w := Placed(Pieces(u, parts), ptrs);
      assert w == [a.At(ptrs[0]), b.At(ptrs[1])];
      assert BareF(w) == [Bare(a), Bare(b)];
    }
  }

  lemma AlikeSplit(a: seq<Entry>, b: seq<Entry>)
    requires AlikeEntries(a, b)
    ensures SplitAt(a) == SplitAt(b)
  {
    AlikeShrunk(a, b, |a| / 2);
    AlikeGrown(a, b, ShrunkTo(a, |a| / 2));
  }

  lemma BareHalves(u: Tree, n: nat)
    requires n <= |NodeOf(u).es|
    ensures Bare(u).Leaf? <==> u.Leaf?
    ensures match u
            case Leaf(p, es) => Bare(Leaf(p, es[..n])) == Leaf(0, Bare(u).es[..n]) && Bare(Leaf(p, es[n..])) == Leaf(0, Bare(u).es[n..])
            case Inner(p, kids) =>
              && |Bare(u).kids| == |kids| >= n
              && Bare(Inner(p, kids[..n])) == Inner(0, Bare(u).kids[..n]) && Bare(Inner(p, kids[n..])) == Inner(0, Bare(u).kids[n..])
  {
    BareKids(u);
    if u.Inner? {
      BareKids(Inner(u.ptr, u.kids[..n]));
      BareKids(Inner(u.ptr, u.kids[n..]));
      assert BareF(u.kids[..n]) == BareF(u.kids)[..n] && BareF(u.kids[n..]) == BareF(u.kids)[n..];
    }
  }

  /** One level up, after the child was cut. */
  lemma GrownByReplace(t: Tree, key: Key, val: Key, j: nat, uc: Tree, parts: seq<Node>, ptrs: seq<nat>)
    requires t.Inner? && j < |t.kids| && j == Find(Links(t.kids), key) && Bare(uc) == Grown(Bare(t.kids[j]), key, val)
    requires AreParts(parts, NodeOf(uc)) && (|parts| == 1 <==> NBytes(NodeOf(uc)) <= PAGE_SIZE) && |ptrs| == |parts|
    requires |parts| == 2 ==> |parts[0].es| == SplitAt(NodeOf(uc).es)
    ensures |Pieces(uc, parts)| == |ptrs| && Bare(Replaced(t, j, uc, parts, ptrs)) == Grown(Bare(t), key, val)
  {
    hide Links, Find, NodeOf, Size, CutTree, Pieces, Placed, Bare, BareF;
    BareCut(uc, parts, ptrs);
    BareKids(t);
    BareFind(t.kids, key);
    var w := Placed(Pieces(uc, parts), ptrs);
    BareKids(Replaced(t, j, uc, parts, ptrs));
    BareAround(t.kids, j, w);
  }

  // ------------------------------------------------------------ several deletions

  ghost predicate RootDeleteFits(rt: Root, key: Key)
  {
    rt.Rooted? ==> DeleteFits(rt.t, key)
  }

  lemma BareRootFits(rt: Root, key: Key)
    ensures RootDeleteFits(BareRoot(rt), key) <==> RootDeleteFits(rt, key)
  {
    if rt.Rooted? {
      BareDeleteFits(rt.t, key);
    }
  }

  /** Deleting these keys one after the other overflows no page: each deletion fits the tree that those before it leave. */
  ghost predicate ChainFits(rt: Root, keys: seq<Key>)
    decreases keys
  {
    keys == [] || (RootDeleteFits(rt, keys[0]) && ChainFits(PrunedRoot(rt, keys[0]), keys[1..]))
  }

  /** The tree that deleting these keys one after the other leaves. */
  ghost function PrunedBy(rt: Root, keys: seq<Key>): Root
    decreases keys
  {
    if keys == [] then rt else PrunedRoot(PrunedBy(rt, keys[..|keys| - 1]), keys[|keys| - 1])
  }

  /** Each deletion is into the tree that those before it leave. */
  lemma {:induction false} ChainFitsEach(rt: Root, keys: seq<Key>)
    ensures ChainFits(rt, keys) <==> forall i :: 0 <= i < |keys| ==> RootDeleteFits(PrunedBy(rt, keys[..i]), keys[i])
    decreases keys
  {
    hide RootDeleteFits, PrunedRoot;
    if keys != [] {
      var first, rest := PrunedRoot(rt, keys[0]), keys[1..];
      ChainFitsEach(first, rest);
      forall i | 0 < i <= |keys|
        ensures PrunedBy(rt, keys[..i]) == PrunedBy(first, rest[..i - 1])
      {
        FirstPruned(rt, keys[..i]);
        assert keys[..i][1..] == rest[..i - 1];
      }
      forall i | 0 < i < |keys|
        ensures RootDeleteFits(PrunedBy(rt, keys[..i]), keys[i]) <==> RootDeleteFits(PrunedBy(first, rest[..i - 1]), rest[i - 1])
      {
      }
      assert forall i :: 0 <= i < |rest| ==> rest[i] == keys[i + 1];
      if forall i :: 0 <= i < |keys| ==> RootDeleteFits(PrunedBy(rt, keys[..i]), keys[i]) {
        forall i | 0 <= i < |rest|
          ensures RootDeleteFits(PrunedBy(first, rest[..i]), rest[i])
        {
          assert RootDeleteFits(PrunedBy(rt, keys[..i + 1]), keys[i + 1]);
        }
        assert RootDeleteFits(PrunedBy(rt, keys[..0]), keys[0]);
      }
    }
  }

  lemma {:induction false} FirstPruned(rt: Root, keys: seq<Key>)
    requires keys != []
    ensures PrunedBy(rt, keys) == PrunedBy(PrunedRoot(rt, keys[0]), keys[1..])
    decreases keys
  {
    hide PrunedRoot;
    var n := |keys| - 1;
    if n == 0 {
      assert keys[..0] == [];
    } else {
      FirstPruned(rt, keys[..n]);
      assert keys[..n][1..] == keys[1..][..n - 1];
    }
  }
}
