/**
 * The copy-on-write B+tree as a value: every node with its page number. A tree is stored in a set of pages when each
 * page holds the node the tree says; separators are always the first key of their child.
 */
module Trees {
  import opened Bytes
  import opened Nodes
  import opened Entries
  import opened FreeLists

  datatype Tree = Leaf(ptr: nat, es: seq<Entry>) | Inner(ptr: nat, kids: seq<Tree>)
  {
    function Kids(): seq<Tree>
    {
      if Leaf? then [] else kids
    }

    function At(p: nat): Tree
    {
      if Leaf? then Leaf(p, es) else Inner(p, kids)
    }
  }

  // -------------------------------------------------------------- contents

  ghost function FlatT(t: Tree): seq<Entry>
    decreases t, 0
  {
    match t
    case Leaf(_, es) => es
    case Inner(_, kids) => Flat(kids)
  }

  /** The entries below ts, left to right. */
  ghost function Flat(ts: seq<Tree>): seq<Entry>
    decreases ts, 1
  {
    if ts == [] then [] else FlatT(ts[0]) + Flat(ts[1..])
  }

  lemma {:induction false} FlatAppend(a: seq<Tree>, b: seq<Tree>)
    ensures Flat(a + b) == Flat(a) + Flat(b)
  {
    if a == [] {
      assert a + b == b;
    } else {
      assert (a + b)[1..] == a[1..] + b;
      FlatAppend(a[1..], b);
    }
  }

  lemma FlatSingleton(t: Tree)
    ensures Flat([t]) == FlatT(t)
  {
    assert [t][1..] == [];
  }

  ghost function FirstKey(t: Tree): Key
  {
    if FlatT(t) == [] then [] else FlatT(t)[0].key
  }

  ghost function Link(t: Tree): Entry
  {
    Entry(t.ptr, FirstKey(t), [])
  }

  ghost function Links(ts: seq<Tree>): seq<Entry>
  {
    seq(|ts|, i requires 0 <= i < |ts| => Link(ts[i]))
  }

  ghost function NodeOf(t: Tree): Node
  {
    match t
    case Leaf(_, es) => Node(true, es)
    case Inner(_, kids) => Node(false, Links(kids))
  }

  // ----------------------------------------------------------------- pages

  ghost function PagesT(t: Tree): set<nat>
    decreases t, 0
  {
    match t
    case Leaf(p, _) => {p}
    case Inner(p, kids) => {p} + PagesF(kids)
  }

  ghost function PagesF(ts: seq<Tree>): set<nat>
    decreases ts, 1
  {
    if ts == [] then {} else PagesT(ts[0]) + PagesF(ts[1..])
  }

  lemma {:induction false} PagesAppend(a: seq<Tree>, b: seq<Tree>)
    ensures PagesF(a + b) == PagesF(a) + PagesF(b)
  {
    if a == [] {
      assert a + b == b;
    } else {
      assert (a + b)[1..] == a[1..] + b;
      PagesAppend(a[1..], b);
    }
  }

  lemma PagesSingleton(t: Tree)
    ensures PagesF([t]) == PagesT(t) == {t.ptr} + PagesF(t.Kids())
  {
    assert [t][1..] == [];
  }

  lemma {:induction false} PagesOfKid(ts: seq<Tree>, i: nat)
    requires i < |ts|
    ensures PagesT(ts[i]) <= PagesF(ts)
  {
    if i > 0 {
      PagesOfKid(ts[1..], i - 1);
    }
  }

  /** No page occurs twice. */
  ghost predicate DistinctT(t: Tree)
    decreases t, 0
  {
    match t
    case Leaf(_, _) => true
    case Inner(p, kids) => p !in PagesF(kids) && Distinct(kids)
  }

  ghost predicate Distinct(ts: seq<Tree>)
    decreases ts, 1
  {
    ts == [] || (DistinctT(ts[0]) && PagesT(ts[0]) !! PagesF(ts[1..]) && Distinct(ts[1..]))
  }

  lemma {:induction false} DistinctAppend(a: seq<Tree>, b: seq<Tree>)
    ensures Distinct(a + b) <==> Distinct(a) && Distinct(b) && PagesF(a) !! PagesF(b)
  {
    if a == [] {
      assert a + b == b;
    } else {
      assert (a + b)[1..] == a[1..] + b;
      DistinctAppend(a[1..], b);
      PagesAppend(a[1..], b);
    }
  }

  lemma DistinctSingleton(t: Tree)
    ensures Distinct([t]) <==> DistinctT(t)
    ensures DistinctT(t) <==> t.ptr !in PagesF(t.Kids()) && Distinct(t.Kids())
  {
    assert [t][1..] == [];
  }

  // ------------------------------------------------------ stored and shaped

  ghost predicate StoredT(view: Pages, t: Tree)
    decreases t, 0
  {
    HasNode(view, t.ptr, NodeOf(t)) && (t.Inner? ==> Stored(view, t.kids))
  }

  ghost predicate Stored(view: Pages, ts: seq<Tree>)
    decreases ts, 1
  {
    forall i :: 0 <= i < |ts| ==> StoredT(view, ts[i])
  }

  /** The entries of a leaf have no child. */
  predicate NoLinks(es: seq<Entry>)
  {
    forall i :: 0 <= i < |es| ==> es[i].ptr == 0
  }

  /** Uniform depth h, no empty node. */
  ghost predicate ShapedT(t: Tree, h: nat)
    decreases t, 0
  {
    match t
    case Leaf(_, es) => h == 0 && es != [] && NoLinks(es)
    case Inner(_, kids) => h > 0 && kids != [] && Shaped(kids, h - 1)
  }

  ghost predicate Shaped(ts: seq<Tree>, h: nat)
    decreases ts, 1
  {
    forall i :: 0 <= i < |ts| ==> ShapedT(ts[i], h)
  }

  /** Every node fits its page. */
  ghost predicate FitsT(t: Tree)
    decreases t, 0
  {
    NBytes(NodeOf(t)) <= PAGE_SIZE && (t.Inner? ==> Fits(t.kids))
  }

  ghost predicate Fits(ts: seq<Tree>)
    decreases ts, 1
  {
    forall i :: 0 <= i < |ts| ==> FitsT(ts[i])
  }

  lemma {:induction false} ShapedFlat(t: Tree, h: nat)
    requires ShapedT(t, h)
    ensures FlatT(t) != []
    decreases h
  {
    if t.Inner? {
      ShapedFlat(t.kids[0], h - 1);
    }
  }

  /** Storage only depends on the tree's own pages. */
  lemma {:induction false} StoredFrame(v: Pages, w: Pages, ts: seq<Tree>)
    requires Stored(v, ts)
    requires forall p :: p in PagesF(ts) && p in v ==> p in w && w[p] == v[p]
    ensures Stored(w, ts)
    decreases ts, 1
  {
    forall i | 0 <= i < |ts|
      ensures StoredT(w, ts[i])
    {
      PagesOfKid(ts, i);
      StoredFrameT(v, w, ts[i]);
    }
  }

  lemma {:induction false} StoredFrameT(v: Pages, w: Pages, t: Tree)
    requires StoredT(v, t)
    requires forall p :: p in PagesT(t) && p in v ==> p in w && w[p] == v[p]
    ensures StoredT(w, t)
    decreases t, 0
  {
    if t.Inner? {
      StoredFrame(v, w, t.kids);
    }
  }

  // ------------------------------------------------ one child among its siblings

  lemma CutAt(kids: seq<Tree>, i: nat)
    requires i < |kids|
    ensures kids == kids[..i] + [kids[i]] + kids[i + 1..]
  {
  }

  /** The contents of kids split around child i. */
  lemma FlatAroundKid(kids: seq<Tree>, i: nat)
    requires i < |kids|
    ensures Flat(kids) == Flat(kids[..i]) + FlatT(kids[i]) + Flat(kids[i + 1..])
  {
    hide *;
    CutAt(kids, i);
    FlatAround(kids[..i], [kids[i]], kids[i + 1..]);
    FlatSingleton(kids[i]);
  }

  lemma PagesAroundKid(kids: seq<Tree>, i: nat)
    requires i < |kids|
    ensures PagesF(kids) == PagesF(kids[..i]) + PagesT(kids[i]) + PagesF(kids[i + 1..])
  {
    hide *;
    CutAt(kids, i);
    PagesAround(kids[..i], [kids[i]], kids[i + 1..]);
    PagesSingleton(kids[i]);
  }

  lemma DistinctAroundKid(kids: seq<Tree>, i: nat)
    requires i < |kids|
    ensures Distinct(kids) <==>
              && Distinct(kids[..i]) && DistinctT(kids[i]) && Distinct(kids[i + 1..])
              && PagesF(kids[..i]) !! PagesT(kids[i]) && PagesF(kids[..i]) !! PagesF(kids[i + 1..])
              && PagesT(kids[i]) !! PagesF(kids[i + 1..])
  {
    hide *;
    CutAt(kids, i);
    DistinctAround(kids[..i], [kids[i]], kids[i + 1..]);
    PagesSingleton(kids[i]);
    DistinctSingleton(kids[i]);
  }

  lemma FlatAround(l: seq<Tree>, m: seq<Tree>, r: seq<Tree>)
    ensures Flat(l + m + r) == Flat(l) + Flat(m) + Flat(r)
  {
    hide *;
    FlatAppend(l + m, r);
    FlatAppend(l, m);
  }

  lemma PagesAround(l: seq<Tree>, m: seq<Tree>, r: seq<Tree>)
    ensures PagesF(l + m + r) == PagesF(l) + PagesF(m) + PagesF(r)
  {
    hide *;
    PagesAppend(l + m, r);
    PagesAppend(l, m);
  }

  lemma DistinctAround(l: seq<Tree>, m: seq<Tree>, r: seq<Tree>)
    ensures Distinct(l + m + r) <==>
              && Distinct(l) && Distinct(m) && Distinct(r)
              && PagesF(l) !! PagesF(m) && PagesF(l) !! PagesF(r) && PagesF(m) !! PagesF(r)
  {
    hide *;
    PagesAppend(l, m);
    DistinctAppend(l + m, r);
    DistinctAppend(l, m);
  }

  /** Entry k of child i is entry |Flat(kids[..i])| + k of them all. */
  lemma FlatOfKid(kids: seq<Tree>, i: nat, k: nat)
    requires i < |kids| && k < |FlatT(kids[i])|
    ensures |Flat(kids[..i])| + k < |Flat(kids)|
    ensures Flat(kids)[|Flat(kids[..i])| + k] == FlatT(kids[i])[k]
  {
    hide *;
    FlatAroundKid(kids, i);
  }

  /** The contents of a later child start after those of an earlier one. */
  lemma KidsInOrder(kids: seq<Tree>, i: nat, j: nat)
    requires i < j < |kids|
    ensures |Flat(kids[..i])| + |FlatT(kids[i])| <= |Flat(kids[..j])|
  {
    hide *;
    assert kids[..j][..i] == kids[..i];
    FlatAroundKid(kids[..j], i);
  }

  /** A sorted run's children are sorted runs. */
  lemma KidSorted(kids: seq<Tree>, i: nat)
    requires i < |kids| && Sorted(Flat(kids))
    ensures Sorted(FlatT(kids[i]))
    ensures WithinLimits(Flat(kids)) ==> WithinLimits(FlatT(kids[i]))
  {
    hide Flat, FlatT, Lt;
    var at := |Flat(kids[..i])|;
    forall k | 0 <= k < |FlatT(kids[i])|
      ensures at + k < |Flat(kids)| && FlatT(kids[i])[k] == Flat(kids)[at + k]
    {
      FlatOfKid(kids, i, k);
    }
  }

  /** Sorted contents give sorted separators, so an internal node can be searched. */
  lemma LinksSorted(kids: seq<Tree>, h: nat)
    requires Shaped(kids, h) && Sorted(Flat(kids))
    ensures Sorted(Links(kids))
    ensures forall i :: 0 <= i < |kids| ==> Sorted(FlatT(kids[i])) && FlatT(kids[i]) != []
  {
    forall i | 0 <= i < |kids|
      ensures Sorted(FlatT(kids[i])) && FlatT(kids[i]) != []
    {
      KidSorted(kids, i);
      ShapedFlat(kids[i], h);
    }
    forall i, j | 0 <= i < j < |kids|
      ensures Lt(Links(kids)[i].key, Links(kids)[j].key)
    {
      SeparatorsInOrder(kids, i, j);
    }
  }

  lemma SeparatorsInOrder(kids: seq<Tree>, i: nat, j: nat)
    requires i < j < |kids| && Sorted(Flat(kids))
    requires FlatT(kids[i]) != [] && FlatT(kids[j]) != []
    ensures Lt(FirstKey(kids[i]), FirstKey(kids[j]))
  {
    hide Flat, FlatT, Lt;
    FlatOfKid(kids, i, 0);
    FlatOfKid(kids, j, 0);
    KidsInOrder(kids, i, j);
  }

  /** The child a search descends into has every smaller key to its left and every larger one to its right. */
  lemma SearchPath(kids: seq<Tree>, h: nat, key: Key, i: nat)
    requires Shaped(kids, h) && Sorted(Flat(kids))
    requires i < |kids| && IsLookup(Links(kids), key, i)
    ensures AllBelow(Flat(kids[..i]), key) && AllAbove(Flat(kids[i + 1..]), key)
    ensures Sorted(FlatT(kids[i])) && FlatT(kids[i]) != [] && Le(FirstKey(kids[i]), key)
  {
    LinksSorted(kids, h);
    FlatAroundKid(kids, i);
    LtIsStrictTotalOrder();
    assert Le(Links(kids)[i].key, key);
    SmallerToTheLeft(Flat(kids[..i]), FlatT(kids[i]), Flat(kids[i + 1..]), key);
    if i + 1 < |kids| {
      assert Lt(key, Links(kids)[i + 1].key);
      assert Flat(kids[i + 1..]) == FlatT(kids[i + 1]) + Flat(kids[i + 1..][1..]);
      LargerToTheRight(Flat(kids[..i]) + FlatT(kids[i]), Flat(kids[i + 1..]), key);
    }
  }

  lemma SmallerToTheLeft(l: seq<Entry>, m: seq<Entry>, r: seq<Entry>, key: Key)
    requires Sorted(l + m + r) && m != [] && Le(m[0].key, key)
    ensures AllBelow(l, key)
  {
    LtIsStrictTotalOrder();
    hide Lt;
    var all := l + m + r;
    assert all[|l|] == m[0];
    assert forall k :: 0 <= k < |l| ==> l[k] == all[k] && Lt(all[k].key, all[|l|].key);
  }

  lemma LargerToTheRight(l: seq<Entry>, r: seq<Entry>, key: Key)
    requires Sorted(l + r) && r != [] && Lt(key, r[0].key)
    ensures AllAbove(r, key)
  {
    LtIsStrictTotalOrder();
    hide Lt;
    var all := l + r;
    assert all[|l|] == r[0];
    assert forall k :: 0 < k < |r| ==> r[k] == all[|l| + k] && Lt(all[|l|].key, all[|l| + k].key);
  }
}
