/** BTree::get (src/storage/btree.cpp) over pages that may change between reads, as under an open reader. */
module BTreeReads {
  import opened Bytes
  import opened Nodes
  import opened Entries
  import opened FreeLists
  import opened Trees
  import opened TreeEdit
  import opened BTrees

  /** Refused is the source's throw for an empty or oversized key. */
  datatype Lookup = Refused | Missing | Found(val: Key)

  /** a and b hold the same entries for key. */
  ghost predicate SameFor(a: seq<Entry>, b: seq<Entry>, key: Key)
  {
    forall e: Entry :: e.key == key ==> (e in a <==> e in b)
  }

  lemma SameWithin(l: seq<Entry>, m: seq<Entry>, r: seq<Entry>, key: Key)
    requires AllBelow(l, key) && AllAbove(r, key)
    ensures SameFor(l + m + r, m, key)
  {
    LtIsStrictTotalOrder();
    forall e: Entry | e.key == key
      ensures e in l + m + r <==> e in m
    {
      assert e !in l && e !in r;
    }
  }

  /** What a search for key still has to do below t answers for the whole tree. */
  ghost predicate Searching(views: nat -> Pages, rt: Root, key: Key, t: Tree, h: nat)
  {
    && rt.Rooted?
    && ShapedT(t, h) && Sorted(FlatT(t)) && SameFor(FlatT(rt.t), FlatT(t), key)
    && (forall k :: StoredT(views(k), t))
  }

  lemma SearchNode(views: nat -> Pages, rt: Root, key: Key, t: Tree, h: nat)
    requires Searching(views, rt, key, t, h)
    ensures Sorted(NodeOf(t).es) && NodeOf(t).leaf == t.Leaf?
    ensures forall k :: HasNode(views(k), t.ptr, NodeOf(t))
  {
    hide Sorted, SameFor;
    if t.Inner? {
      LinksSorted(t.kids, h - 1);
    }
    forall k
      ensures HasNode(views(k), t.ptr, NodeOf(t))
    {
      assert StoredT(views(k), t);
    }
  }

  lemma SearchChild(views: nat -> Pages, rt: Root, key: Key, t: Tree, h: nat, idx: int)
    requires Searching(views, rt, key, t, h) && t.Inner? && IsLookup(NodeOf(t).es, key, idx) && idx >= 0
    ensures h > 0 && idx < |t.kids| && Searching(views, rt, key, t.kids[idx], h - 1)
    ensures NodeOf(t).es[idx].ptr == t.kids[idx].ptr
  {
    hide Sorted, IsLookup, Lt, Le;
    assert h > 0 && NodeOf(t).es == Links(t.kids);
    IndexInside(NodeOf(t).es, key, idx);
    SearchPath(t.kids, h - 1, key, idx);
    FlatAroundKid(t.kids, idx);
    SameWithin(Flat(t.kids[..idx]), FlatT(t.kids[idx]), Flat(t.kids[idx + 1..]), key);
    forall k
      ensures StoredT(views(k), t.kids[idx])
    {
      assert StoredT(views(k), t);
    }
  }

  lemma IndexInside(es: seq<Entry>, key: Key, idx: int)
    requires IsLookup(es, key, idx)
    ensures -1 <= idx < |es|
  {
  }

  /** A search that falls before the first key of a node ends: the key is not there. */
  lemma SearchEnds(views: nat -> Pages, rt: Root, key: Key, t: Tree, h: nat, idx: int)
    requires Searching(views, rt, key, t, h) && IsLookup(NodeOf(t).es, key, idx)
    requires idx < 0 || (t.Leaf? && idx < |NodeOf(t).es| && NodeOf(t).es[idx].key != key)
    ensures !Has(FlatT(rt.t), key)
  {
    if t.Inner? {
      LinksSorted(t.kids, h - 1);
      BeforeFirst(t, h, key);
    } else {
      FindHas(t.es, key, idx);
    }
    HasSame(FlatT(rt.t), FlatT(t), key);
  }

  lemma HasSame(a: seq<Entry>, b: seq<Entry>, key: Key)
    requires SameFor(a, b, key)
    ensures Has(a, key) ==> Has(b, key)
  {
    if Has(a, key) {
      var i :| 0 <= i < |a| && a[i].key == key;
      assert a[i] in b;
      var j :| 0 <= j < |b| && b[j] == a[i];
    }
  }

  lemma BeforeFirst(t: Tree, h: nat, key: Key)
    requires ShapedT(t, h) && t.Inner? && Sorted(FlatT(t)) && Lt(key, NodeOf(t).es[0].key)
    ensures !Has(FlatT(t), key)
  {
    NodeFirstKey(t, h);
    ShapedFlat(t, h);
    LtIsStrictTotalOrder();
    FirstKeyIs(t);
    hide NodeOf, FlatT;
    forall i | 0 <= i < |FlatT(t)|
      ensures FlatT(t)[i].key != key
    {
      assert i > 0 ==> Lt(FlatT(t)[0].key, FlatT(t)[i].key);
    }
  }

  lemma SearchFinds(views: nat -> Pages, rt: Root, key: Key, t: Tree, h: nat, idx: int)
    requires Searching(views, rt, key, t, h) && t.Leaf? && 0 <= idx < |t.es| && t.es[idx].key == key
    requires Sorted(FlatT(rt.t)) && key != []
    ensures key in Contents(rt) && Contents(rt)[key] == t.es[idx].val
  {
    var e := t.es[idx];
    assert e in FlatT(t) && e in FlatT(rt.t);
    var i :| 0 <= i < |FlatT(rt.t)| && FlatT(rt.t)[i] == e;
    AsMapAt(FlatT(rt.t), i);
  }

  lemma AbsentInContents(rt: Root, key: Key)
    requires rt.Rooted? && !Has(FlatT(rt.t), key)
    ensures key !in Contents(rt)
  {
    AsMapKeys(FlatT(rt.t));
  }

  /**
   * The value bound to key. The k-th page read is answered by views(k): whatever happens to other pages in between, the
   * answer is the snapshot's.
   */
  method Get(views: nat -> Pages, root: nat, key: Key, ghost rt: Root, ghost held: set<nat>) returns (r: Lookup)
    requires forall k :: RootOk(rt, views(k), held)
    requires root == RootPage(rt)
    ensures r.Refused? <==> !KeyInLimit(key)
    ensures KeyInLimit(key) ==> r == if key in Contents(rt) then Found(Contents(rt)[key]) else Missing
  {
    hide RootOk, Searching, IsLookup, Sorted, NodeOf, Contents, HasNode;
    if !KeyInLimit(key) {
      return Refused;
    }
    RootedSearch(views, rt, held, key);
    if root == 0 {
      return Missing;
    }
    ghost var t, h := rt.t, rt.h;
    SearchNode(views, rt, key, t, h);
    var node := ReadNode(views, 0, root, t);
    var read := 1;
    while true
      invariant Searching(views, rt, key, t, h) && node == NodeOf(t) && read >= 1
      decreases h
    {
      SearchNode(views, rt, key, t, h);
      var idx := LookupLe(node, key);
      IndexInside(node.es, key, idx);
      if idx < 0 {
        SearchEnds(views, rt, key, t, h, idx);
        AbsentInContents(rt, key);
        return Missing;
      }
      if node.leaf {
        LeafNode(t);
        if node.es[idx].key == key {
          SearchFinds(views, rt, key, t, h, idx);
          return Found(node.es[idx].val);
        }
        SearchEnds(views, rt, key, t, h, idx);
        AbsentInContents(rt, key);
        return Missing;
      }
      SearchChild(views, rt, key, t, h, idx);
      t, h := t.kids[idx], h - 1;
      SearchNode(views, rt, key, t, h);
      node := ReadNode(views, read, node.es[idx].ptr, t);
      read := read + 1;
    }
  }

  lemma LeafNode(t: Tree)
    requires t.Leaf?
    ensures NodeOf(t).es == t.es
  {
  }

  lemma RootedSearch(views: nat -> Pages, rt: Root, held: set<nat>, key: Key)
    requires forall k :: RootOk(rt, views(k), held)
    ensures RootPage(rt) == 0 <==> rt.Empty?
    ensures rt.Empty? ==> key !in Contents(rt)
    ensures rt.Rooted? ==> Searching(views, rt, key, rt.t, rt.h) && Sorted(FlatT(rt.t))
  {
    assert RootOk(rt, views(0), held);
    if rt.Rooted? {
      forall k
        ensures StoredT(views(k), rt.t)
      {
        assert RootOk(rt, views(k), held);
      }
    }
  }

  method ReadNode(views: nat -> Pages, k: nat, ptr: nat, ghost t: Tree) returns (node: Node)
    requires HasNode(views(k), ptr, NodeOf(t))
    ensures node == NodeOf(t)
  {
    node := views(k)[ptr].node;
  }
}
