/** The tree as the file holds it: every node in the bytes of one page, and get on those bytes. */
module ByteReads {
  import opened Bytes
  import opened Nodes
  import opened FreeLists
  import opened Trees
  import opened TreeEdit
  import opened BTrees
  import opened BTreeReads
  import opened NodeLayouts
  import opened OrderPreserving

  type File = map<nat, seq<Byte>>

  // ------------------------------------------------------------ every node has its page

  ghost predicate PageOk(node: Node)
  {
    EntriesOk(node.es) && NBytes(node) <= PAGE_SIZE
  }

  ghost predicate IsPageOf(d: seq<Byte>, node: Node)
  {
    |d| == PAGE_SIZE && Encodes(d, node)
  }

  /** The bytes of the pages held are exactly the nodes that view has there. */
  ghost predicate InBytes(file: File, view: Pages, held: set<nat>)
  {
    forall p :: p in held ==> p in file && p in view && view[p].TreePage? && IsPageOf(file[p], view[p].node)
  }

  /** A page with the first n entries laid out. */
  lemma {:induction false} PartLaid(node: Node, n: nat) returns (d: seq<Byte>)
    requires PageOk(node) && n <= |node.es|
    ensures |d| == PAGE_SIZE && Laid(d, node.leaf, |node.es|, node.es[..n])
  {
    hide LittleEndian, PairBytes, HeaderBytes, PairsSize, At, Overwritten, Laid, EntriesOk;
    if n == 0 {
      d := HeaderLaid(node);
    } else {
      var d0 := PartLaid(node, n - 1);
      var es, e, k := node.es[..n - 1], node.es[n - 1], |node.es|;
      PairsStep(node.es, n - 1);
      PairsSizeIs(node.es);
      var d1 := Overwritten(d0, PtrSlot(|es|), LittleEndian(e.ptr, 8));
      var d2 := Overwritten(d1, HEADER + 10 * k + PairsSize(es), PairBytes(e));
      d := Overwritten(d2, OffsetSlot(k, |es| + 1), LittleEndian(PairsSize(es) + |PairBytes(e)|, 2));
      NodeLayouts.Appended(d0, d1, d2, d, node.leaf, k, es, e);
      assert node.es[..n] == es + [e];
    }
  }

  lemma HeaderLaid(node: Node) returns (d: seq<Byte>)
    requires PageOk(node)
    ensures |d| == PAGE_SIZE && Laid(d, node.leaf, |node.es|, node.es[..0])
  {
    PairsSizeIs(node.es);
    d := Overwritten(seq(PAGE_SIZE, _ => 0), 0, HeaderBytes(node.leaf, |node.es|));
    OverwrittenAt(seq(PAGE_SIZE, _ => 0), 0, HeaderBytes(node.leaf, |node.es|));
  }

  ghost function BytesOf(node: Node): (d: seq<Byte>)
    requires PageOk(node)
    ensures IsPageOf(d, node)
  {
    HasBytes(node);
    var d :| IsPageOf(d, node);
    d
  }

  lemma HasBytes(node: Node)
    requires PageOk(node)
    ensures exists d :: IsPageOf(d, node)
  {
    var d := PartLaid(node, |node.es|);
    assert node.es[..|node.es|] == node.es;
    assert IsPageOf(d, node);
  }

  /** In a tree that is in place every node fits its page and has entries that its layout can hold. */
  lemma {:induction false} NodesAreOk(ts: seq<Tree>, h: nat, view: Pages)
    requires Shaped(ts, h) && Fits(ts) && Stored(view, ts) && WithinLimits(Flat(ts)) && forall p :: p in PagesF(ts) ==> p < Power(8)
    ensures forall p :: p in PagesF(ts) ==> p in view && view[p].TreePage? && PageOk(view[p].node)
    decreases h, |ts|
  {
    hide Power, WithinLimits, NBytes, EntriesOk;
    if ts != [] {
      var t := ts[0];
      assert ShapedT(t, h) && FitsT(t) && StoredT(view, t);
      assert PagesF(ts) == PagesT(t) + PagesF(ts[1..]);
      FlatParts(ts);
      NodeIsOk(t, h);
      if t.Inner? {
        PagesOfKids(t);
        NodesAreOk(t.kids, h - 1, view);
      }
      assert forall i :: 0 <= i < |ts[1..]| ==> ts[1..][i] == ts[i + 1];
      NodesAreOk(ts[1..], h, view);
    }
  }

  lemma FlatParts(ts: seq<Tree>)
    requires ts != [] && WithinLimits(Flat(ts))
    ensures WithinLimits(FlatT(ts[0])) && WithinLimits(Flat(ts[1..]))
    ensures ts[0].Inner? ==> WithinLimits(Flat(ts[0].kids))
  {
    hide FlatT, Flat, WithinLimits;
    HeadAndRest(ts);
    LimitsOfParts(FlatT(ts[0]), Flat(ts[1..]));
  }

  lemma HeadAndRest(ts: seq<Tree>)
    requires ts != []
    ensures Flat(ts) == FlatT(ts[0]) + Flat(ts[1..])
    ensures ts[0].Inner? ==> FlatT(ts[0]) == Flat(ts[0].kids)
  {
  }

  lemma LimitsOfParts(a: seq<Entry>, b: seq<Entry>)
    requires WithinLimits(a + b)
    ensures WithinLimits(a) && WithinLimits(b)
  {
    forall i | 0 <= i < |b|
      ensures |b[i].key| <= MAX_KEY && |b[i].val| <= MAX_VAL
    {
      assert (a + b)[|a| + i] == b[i];
    }
    forall i | 0 <= i < |a|
      ensures |a[i].key| <= MAX_KEY && |a[i].val| <= MAX_VAL
    {
      assert (a + b)[i] == a[i];
    }
  }

  lemma PagesOfKids(t: Tree)
    requires t.Inner?
    ensures PagesF(t.kids) <= PagesT(t)
  {
  }

  lemma NodeIsOk(t: Tree, h: nat)
    requires ShapedT(t, h) && FitsT(t) && WithinLimits(FlatT(t)) && forall p :: p in PagesT(t) ==> p < Power(8)
    ensures PageOk(NodeOf(t))
  {
    hide Power, NBytes, FlatT;
    NodeWithinLimits(t, h);
    assert 0 < Power(8) by {
      PowerPositive();
    }
    forall i | 0 <= i < |NodeOf(t).es|
      ensures NodeOf(t).es[i].ptr < Power(8)
    {
      if t.Inner? {
        PagesOfKid(t.kids, i);
        PagesSingleton(t.kids[i]);
        PagesOfKids(t);
        assert NodeOf(t).es[i].ptr == t.kids[i].ptr && t.kids[i].ptr in PagesT(t.kids[i]);
      }
    }
  }

  lemma PowerPositive()
    ensures Power(8) > 0
  {
  }

  /** So a tree whose page numbers fit their 8 bytes is in place in some file of bytes, as soon as it is in place at all. */
  lemma TreeInBytes(rt: Root, view: Pages, held: set<nat>) returns (file: File)
    requires RootOk(rt, view, held) && RootFits(rt) && forall p :: p in held ==> p < Power(8)
    ensures InBytes(file, view, held)
  {
    hide Power, PageOk, IsPageOf;
    if rt.Rooted? {
      RootNodes(rt, view, held);
    }
    file := map p | p in held :: BytesOf(view[p].node);
  }

  lemma RootNodes(rt: Root, view: Pages, held: set<nat>)
    requires RootOk(rt, view, held) && RootFits(rt) && rt.Rooted? && forall p :: p in held ==> p < Power(8)
    ensures forall p :: p in held ==> p in view && view[p].TreePage? && PageOk(view[p].node)
  {
    hide Power, PageOk, WithinLimits, FlatT;
    FlatSingleton(rt.t);
    NodesAreOk([rt.t], rt.h, view);
  }

  // ------------------------------------------------------------ get on bytes

  /** The n-th page read, as a node object over a copy of its bytes. */
  method Load(bytes: seq<Byte>) returns (n: BNode)
    ensures fresh(n) && fresh(n.data) && n.data[..] == bytes
  {
    n := new BNode(|bytes|);
    for i := 0 to |bytes|
      invariant n.data.Length == |bytes| && n.data[..i] == bytes[..i]
      modifies n.data
    {
      n.data[i] := bytes[i];
    }
  }

  /** node_lookup_le on bytes. */
  method LookupLeInBytes(n: BNode, key: Key, ghost node: Node) returns (r: int)
    requires n.Holds(node) && Sorted(node.es)
    ensures IsLookup(node.es, key, r)
  {
    hide Laid, EntriesOk;
    LtIsStrictTotalOrder();
    var count: nat := n.NKeys(node.leaf, |node.es|, node.es);
    var lo, hi := 0, count - 1;
    r := -1;
    while lo <= hi
      invariant 0 <= lo <= hi + 1 <= |node.es|
      invariant r == lo - 1
      invariant forall i :: 0 <= i < lo ==> Lt(node.es[i].key, key)
      invariant forall i :: hi < i < |node.es| ==> Lt(key, node.es[i].key)
    {
      var mid := lo + (hi - lo) / 2;
      var cur := n.GetKey(mid, node);
      if cur == key {
        return mid;
      }
      if Lt(cur, key) {
        r := mid;
        lo := mid + 1;
      } else {
        hi := mid - 1;
      }
    }
  }

  /**
   * get as the program runs it, on the bytes of pages: the value bound to the key in the tree that these bytes hold,
   * whatever happens to other pages between reads.
   */
  method GetInBytes(files: nat -> File, root: nat, key: Key, ghost views: nat -> Pages, ghost rt: Root, ghost held: set<nat>)
    returns (r: Lookup)
    requires forall k :: RootOk(rt, views(k), held) && InBytes(files(k), views(k), held)
    requires root == RootPage(rt)
    ensures r.Refused? <==> !KeyInLimit(key)
    ensures KeyInLimit(key) ==> r == if key in Contents(rt) then Found(Contents(rt)[key]) else Missing
  {
    hide RootOk, Searching, IsLookup, Sorted, NodeOf, Contents, HasNode, InBytes, Encodes, PagesT;
    if !KeyInLimit(key) {
      return Refused;
    }
    RootedSearch(views, rt, held, key);
    if root == 0 {
      return Missing;
    }
    ghost var t, h := rt.t, rt.h;
    RootHeld(rt, views(0), held);
    SearchNode(views, rt, key, t, h);
    NodeInFile(files(0), views(0), held, t);
    var n := Load(files(0)[root]);
    var read := 1;
    while true
      invariant Searching(views, rt, key, t, h) && PagesT(t) <= held && n.Holds(NodeOf(t)) && read >= 1
      decreases h
    {
      SearchNode(views, rt, key, t, h);
      ghost var node := NodeOf(t);
      var idx := LookupLeInBytes(n, key, node);
      IndexInside(node.es, key, idx);
      if idx < 0 {
        SearchEnds(views, rt, key, t, h, idx);
        AbsentInContents(rt, key);
        return Missing;
      }
      var leaf := n.IsLeaf(node);
      if leaf {
        LeafNode(t);
        var found := n.GetKey(idx, node);
        if found == key {
          SearchFinds(views, rt, key, t, h, idx);
          var val := n.GetVal(idx, node);
          return Found(val);
        }
        SearchEnds(views, rt, key, t, h, idx);
        AbsentInContents(rt, key);
        return Missing;
      }
      var ptr := n.GetPtr(idx, node);
      SearchChild(views, rt, key, t, h, idx);
      KidHeld(t, idx, held);
      t, h := t.kids[idx], h - 1;
      SearchNode(views, rt, key, t, h);
      NodeInFile(files(read), views(read), held, t);
      n := Load(files(read)[ptr]);
      read := read + 1;
    }
  }

  lemma RootHeld(rt: Root, view: Pages, held: set<nat>)
    requires RootOk(rt, view, held) && rt.Rooted?
    ensures PagesT(rt.t) <= held && rt.t.ptr == RootPage(rt)
  {
    PagesSingleton(rt.t);
  }

  lemma KidHeld(t: Tree, i: nat, held: set<nat>)
    requires t.Inner? && i < |t.kids| && PagesT(t) <= held
    ensures PagesT(t.kids[i]) <= held
  {
    PagesOfKid(t.kids, i);
  }

  lemma NodeInFile(file: File, view: Pages, held: set<nat>, t: Tree)
    requires InBytes(file, view, held) && PagesT(t) <= held && HasNode(view, t.ptr, NodeOf(t))
    ensures t.ptr in file && Encodes(file[t.ptr], NodeOf(t))
  {
    PagesSingleton(t);
  }
}
