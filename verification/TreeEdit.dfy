/** Facts about replacing the link to one child, shared by insertion and deletion. */
module TreeEdit {
  import opened Bytes
  import opened Nodes
  import opened Entries
  import opened FreeLists
  import opened Trees

  /** A node not on a page yet (or about to leave it), whose children are stored and held. */
  ghost predicate Loose(t: Tree, h: nat, view: Pages, held: set<nat>)
  {
    && ShapedT(t, h)
    && Subtree(t, h, view, held)
  }

  /** The same for a node that may have become empty. */
  ghost predicate Subtree(t: Tree, h: nat, view: Pages, held: set<nat>)
  {
    && (t.Leaf? <==> h == 0)
    && (h > 0 ==> Shaped(t.Kids(), h - 1))
    && Distinct(t.Kids()) && PagesF(t.Kids()) <= held
    && Stored(view, t.Kids())
    && Sorted(FlatT(t)) && WithinLimits(FlatT(t))
  }

  lemma LooseParts(t: Tree, h: nat, view: Pages, held: set<nat>)
    requires Loose(t, h, view, held)
    ensures ShapedT(t, h) && Sorted(FlatT(t)) && WithinLimits(FlatT(t))
    ensures Distinct(t.Kids()) && PagesF(t.Kids()) <= held && Stored(view, t.Kids())
  {
  }

  lemma NodeFirstKey(t: Tree, h: nat)
    requires ShapedT(t, h)
    ensures NodeOf(t).es != [] && NodeOf(t).es[0].key == FirstKey(t)
  {
    if t.Inner? {
      ShapedFlat(t.kids[0], h - 1);
      assert Flat(t.kids)[0] == FlatT(t.kids[0])[0];
    }
  }

  lemma NodeWithinLimits(t: Tree, h: nat)
    requires ShapedT(t, h) && WithinLimits(FlatT(t))
    ensures WithinLimits(NodeOf(t).es)
  {
    if t.Inner? {
      forall i | 0 <= i < |t.kids|
        ensures |Links(t.kids)[i].key| <= MAX_KEY && |Links(t.kids)[i].val| <= MAX_VAL
      {
        ShapedFlat(t.kids[i], h - 1);
        FlatOfKid(t.kids, i, 0);
      }
    }
  }

  /** A child of a loose node, seen as a loose node itself. */
  lemma KidIsLoose(t: Tree, h: nat, view: Pages, held: set<nat>, i: nat)
    requires Loose(t, h, view, held) && t.Inner? && i < |t.kids|
    ensures h > 0 && Loose(t.kids[i], h - 1, view, held)
    ensures HasNode(view, t.kids[i].ptr, NodeOf(t.kids[i]))
    ensures t.kids[i].ptr in held && t.kids[i].ptr !in PagesF(t.kids[i].Kids())
  {
    PagesAroundKid(t.kids, i);
    DistinctAroundKid(t.kids, i);
    KidSorted(t.kids, i);
    PagesSingleton(t.kids[i]);
    DistinctSingleton(t.kids[i]);
    assert StoredT(view, t.kids[i]);
  }

  // --------------------------------------------------------------- splitting

  /** The one or two trees whose nodes are the parts of u's node. */
  ghost function Pieces(u: Tree, parts: seq<Node>): seq<Tree>
    requires |parts| == 2 ==> |parts[0].es| <= |NodeOf(u).es|
  {
    if |parts| != 2 then [u]
    else
      var n := |parts[0].es|;
      match u
      case Leaf(p, es) => [Leaf(p, es[..n]), Leaf(p, es[n..])]
      case Inner(p, kids) => [Inner(p, kids[..n]), Inner(p, kids[n..])]
  }

  ghost predicate AreParts(parts: seq<Node>, n: Node)
  {
    && 1 <= |parts| <= 2
    && (|parts| == 1 ==> parts[0] == n)
    && (|parts| == 2 ==> parts[0].es + parts[1].es == n.es)
    && (forall i :: 0 <= i < |parts| ==> parts[i].leaf == n.leaf && parts[i].es != [])
  }

  /** The children of the pieces, which are the children of the tree they were cut from. */
  ghost function KidsOf(ts: seq<Tree>): seq<Tree>
  {
    if ts == [] then [] else ts[0].Kids() + KidsOf(ts[1..])
  }

  lemma KidsOfTwo(a: Tree, b: Tree)
    ensures KidsOf([a, b]) == a.Kids() + b.Kids()
    ensures KidsOf([a]) == a.Kids()
    ensures Flat([a, b]) == FlatT(a) + FlatT(b)
  {
    assert [a, b][1..] == [b] && [b][1..] == [] && [a][1..] == [];
    assert KidsOf([b]) == b.Kids() && KidsOf([a]) == a.Kids();
    FlatSingleton(b);
  }

  lemma PiecesOf(u: Tree, parts: seq<Node>, h: nat)
    requires ShapedT(u, h) && AreParts(parts, NodeOf(u))
    ensures |parts| == 2 ==> |parts[0].es| <= |NodeOf(u).es|
    ensures |Pieces(u, parts)| == |parts|
    ensures forall i :: 0 <= i < |parts| ==> NodeOf(Pieces(u, parts)[i]) == parts[i] && ShapedT(Pieces(u, parts)[i], h)
    ensures Flat(Pieces(u, parts)) == FlatT(u)
    ensures KidsOf(Pieces(u, parts)) == u.Kids()
  {
    hide ShapedT, NoLinks;
    var ps := Pieces(u, parts);
    if |parts| == 1 {
      FlatSingleton(u);
      KidsOfTwo(u, u);
    } else {
      var n := |parts[0].es|;
      KidsOfTwo(ps[0], ps[1]);
      assert NodeOf(u).es[..n] == parts[0].es && NodeOf(u).es[n..] == parts[1].es;
      PieceShapes(u, n, h);
      if u.Inner? {
        assert u.kids[..n] + u.kids[n..] == u.kids;
        FlatAppend(u.kids[..n], u.kids[n..]);
        assert Links(u.kids[..n]) == parts[0].es && Links(u.kids[n..]) == parts[1].es;
      }
    }
  }

  /** Both halves of a node are nodes of its height. */
  lemma PieceShapes(u: Tree, n: nat, h: nat)
    requires ShapedT(u, h) && 0 < n < |NodeOf(u).es|
    ensures u.Leaf? ==> ShapedT(Leaf(u.ptr, u.es[..n]), h) && ShapedT(Leaf(u.ptr, u.es[n..]), h)
    ensures u.Inner? ==> ShapedT(Inner(u.ptr, u.kids[..n]), h) && ShapedT(Inner(u.ptr, u.kids[n..]), h)
  {
    if u.Leaf? {
      NoLinksCut(u.es, n);
    }
  }

  lemma NoLinksCut(es: seq<Entry>, n: nat)
    requires NoLinks(es) && n <= |es|
    ensures NoLinks(es[..n]) && NoLinks(es[n..])
  {
  }

  /** ts put on the pages ptrs. */
  ghost function Placed(ts: seq<Tree>, ptrs: seq<nat>): seq<Tree>
    requires |ts| == |ptrs|
  {
    seq(|ts|, i requires 0 <= i < |ts| => ts[i].At(ptrs[i]))
  }

  ghost predicate AllDistinct(ptrs: seq<nat>)
  {
    forall i, j :: 0 <= i < j < |ptrs| ==> ptrs[i] != ptrs[j]
  }

  ghost function ToSet(ptrs: seq<nat>): set<nat>
  {
    set p | p in ptrs
  }

  lemma {:induction false} FlatPlaced(ts: seq<Tree>, ptrs: seq<nat>)
    requires |ts| == |ptrs|
    ensures Flat(Placed(ts, ptrs)) == Flat(ts)
  {
    if ts != [] {
      assert Placed(ts, ptrs)[1..] == Placed(ts[1..], ptrs[1..]);
      FlatPlaced(ts[1..], ptrs[1..]);
    }
  }

  lemma {:induction false} PagesPlaced(ts: seq<Tree>, ptrs: seq<nat>)
    requires |ts| == |ptrs|
    ensures PagesF(Placed(ts, ptrs)) == ToSet(ptrs) + PagesF(KidsOf(ts))
  {
    if ts != [] {
      var rest, restPtrs := ts[1..], ptrs[1..];
      assert Placed(ts, ptrs)[1..] == Placed(rest, restPtrs);
      assert ToSet(ptrs) == {ptrs[0]} + ToSet(restPtrs) by {
        assert ptrs == [ptrs[0]] + restPtrs;
      }
      PagesAppend(ts[0].Kids(), KidsOf(rest));
      PagesPlaced(rest, restPtrs);
      PagesSingleton(Placed(ts, ptrs)[0]);
    }
  }

  /** Putting loose nodes with distinct children on fresh, distinct pages keeps everything distinct. */
  lemma {:induction false} DistinctPlaced(ts: seq<Tree>, ptrs: seq<nat>)
    requires |ts| == |ptrs|
    requires AllDistinct(ptrs) && ToSet(ptrs) !! PagesF(KidsOf(ts)) && Distinct(KidsOf(ts))
    ensures Distinct(Placed(ts, ptrs))
  {
    if ts != [] {
      var rest, restPtrs, first := ts[1..], ptrs[1..], Placed(ts, ptrs)[0];
      assert Placed(ts, ptrs)[1..] == Placed(rest, restPtrs);
      assert ptrs == [ptrs[0]] + restPtrs;
      assert ptrs[0] in ToSet(ptrs) && ToSet(restPtrs) <= ToSet(ptrs) && ptrs[0] !in ToSet(restPtrs);
      PagesAppend(ts[0].Kids(), KidsOf(rest));
      DistinctAppend(ts[0].Kids(), KidsOf(rest));
      DistinctPlaced(rest, restPtrs);
      PagesPlaced(rest, restPtrs);
      PagesSingleton(first);
      DistinctSingleton(first);
    }
  }

  lemma {:induction false} KidsOfMember(ts: seq<Tree>, i: nat)
    requires i < |ts|
    ensures forall k :: k in ts[i].Kids() ==> k in KidsOf(ts)
  {
    if i > 0 {
      KidsOfMember(ts[1..], i - 1);
    }
  }

  lemma StoredPlaced(ts: seq<Tree>, ptrs: seq<nat>, view: Pages)
    requires |ts| == |ptrs|
    requires forall i :: 0 <= i < |ts| ==> HasNode(view, ptrs[i], NodeOf(ts[i]))
    requires Stored(view, KidsOf(ts))
    ensures Stored(view, Placed(ts, ptrs))
  {
    forall i | 0 <= i < |ts|
      ensures StoredT(view, Placed(ts, ptrs)[i])
    {
      KidsOfMember(ts, i);
      forall k | 0 <= k < |ts[i].Kids()|
        ensures StoredT(view, ts[i].Kids()[k])
      {
        assert ts[i].Kids()[k] in KidsOf(ts);
      }
      assert Placed(ts, ptrs)[i].Kids() == ts[i].Kids() && Stored(view, ts[i].Kids());
    }
  }

  lemma FitsPlaced(ts: seq<Tree>, ptrs: seq<nat>)
    requires |ts| == |ptrs|
    requires forall i :: 0 <= i < |ts| ==> NBytes(NodeOf(ts[i])) <= PAGE_SIZE
    requires Fits(KidsOf(ts))
    ensures Fits(Placed(ts, ptrs))
  {
    forall i | 0 <= i < |ts|
      ensures FitsT(Placed(ts, ptrs)[i])
    {
      KidsOfMember(ts, i);
      forall k | 0 <= k < |ts[i].Kids()|
        ensures FitsT(ts[i].Kids()[k])
      {
        assert ts[i].Kids()[k] in KidsOf(ts);
      }
      assert Placed(ts, ptrs)[i].Kids() == ts[i].Kids() && Fits(ts[i].Kids());
      assert NodeOf(Placed(ts, ptrs)[i]) == NodeOf(ts[i]);
    }
  }

  lemma LinksPlaced(ts: seq<Tree>, ptrs: seq<nat>, h: nat)
    requires |ts| == |ptrs| && Shaped(ts, h)
    ensures Shaped(Placed(ts, ptrs), h)
    ensures forall i :: 0 <= i < |ts| ==> NodeOf(ts[i]).es != []
    ensures forall i :: 0 <= i < |ts| ==> Link(Placed(ts, ptrs)[i]) == Entry(ptrs[i], NodeOf(ts[i]).es[0].key, [])
  {
    forall i | 0 <= i < |ts|
      ensures ShapedT(Placed(ts, ptrs)[i], h) && NodeOf(ts[i]).es != []
      ensures Link(Placed(ts, ptrs)[i]) == Entry(ptrs[i], NodeOf(ts[i]).es[0].key, [])
    {
      NodeFirstKey(ts[i], h);
    }
  }

  // --------------------------------------------- replacing one child's link

  /** The links node_replace_child_n writes for children stored at ptrs. */
  function ChildLinks(ptrs: seq<nat>, children: seq<Node>): seq<Entry>
    requires |ptrs| == |children|
    requires forall i :: 0 <= i < |children| ==> children[i].es != []
  {
    seq(|children|, i requires 0 <= i < |children| => Entry(ptrs[i], children[i].es[0].key, []))
  }

  /** The page set after child c's subtree was rebuilt: its children re-made as uk, its page freed, ptrs taken. */
  lemma HeldAfterReplace(held: set<nat>, l: set<nat>, cp: nat, ck: set<nat>, r: set<nat>, uk: set<nat>, ptrs: set<nat>)
    requires l + {cp} + ck + r <= held
    requires l !! ({cp} + ck) && r !! ({cp} + ck) && l !! r && cp !in ck
    requires uk !! (held - ck)
    requires ptrs !! (((held - ck) + uk) - {cp})
    ensures (((held - ck) + uk) - {cp}) + ptrs == (held - (l + ({cp} + ck) + r)) + (l + (ptrs + uk) + r)
    ensures (l + (ptrs + uk) + r) !! (held - (l + ({cp} + ck) + r))
    ensures l !! (ptrs + uk) && r !! (ptrs + uk) && ptrs !! uk
  {
  }

  /** t with child i replaced by the parts of uc, stored at ptrs. */
  ghost function Replaced(t: Tree, i: nat, uc: Tree, parts: seq<Node>, ptrs: seq<nat>): Tree
    requires t.Inner? && i < |t.kids|
    requires |parts| == 2 ==> |parts[0].es| <= |NodeOf(uc).es|
    requires |Pieces(uc, parts)| == |ptrs|
  {
    Inner(0, t.kids[..i] + Placed(Pieces(uc, parts), ptrs) + t.kids[i + 1..])
  }

  /** uc was made from t.kids[i] out of pages that held does not contain. */
  ghost predicate Rebuilt(t: Tree, h: nat, i: nat, uc: Tree, held: set<nat>)
  {
    && ShapedT(t, h) && t.Inner? && i < |t.kids| && h > 0
    && Distinct(t.kids) && PagesF(t.kids) <= held
    && ShapedT(uc, h - 1) && Distinct(uc.Kids())
    && PagesF(uc.Kids()) !! (held - PagesF(t.kids[i].Kids()))
  }

  ghost function HeldWithout(t: Tree, i: nat, uc: Tree, held: set<nat>): set<nat>
    requires t.Inner? && i < |t.kids|
  {
    ((held - PagesF(t.kids[i].Kids())) + PagesF(uc.Kids())) - {t.kids[i].ptr}
  }

  lemma ReplacedPages(t: Tree, h: nat, i: nat, uc: Tree, parts: seq<Node>, ptrs: seq<nat>, held: set<nat>)
    requires Rebuilt(t, h, i, uc, held)
    requires AreParts(parts, NodeOf(uc)) && |ptrs| == |parts| && AllDistinct(ptrs)
    requires ToSet(ptrs) !! HeldWithout(t, i, uc, held)
    ensures |parts| == 2 ==> |parts[0].es| <= |NodeOf(uc).es|
    ensures |Pieces(uc, parts)| == |ptrs|
    ensures var u := Replaced(t, i, uc, parts, ptrs);
            && Distinct(u.kids)
            && PagesF(u.kids) !! (held - PagesF(t.kids))
            && HeldWithout(t, i, uc, held) + ToSet(ptrs) == (held - PagesF(t.kids)) + PagesF(u.kids)
  {
    PiecesOf(uc, parts, h - 1);
    var l, c, r := t.kids[..i], t.kids[i], t.kids[i + 1..];
    PagesAroundKid(t.kids, i);
    DistinctAroundKid(t.kids, i);
    PagesSingleton(c);
    DistinctSingleton(c);
    HeldAfterReplace(held, PagesF(l), c.ptr, PagesF(c.Kids()), PagesF(r), PagesF(uc.Kids()), ToSet(ptrs));
    var placed := Placed(Pieces(uc, parts), ptrs);
    PagesPlaced(Pieces(uc, parts), ptrs);
    DistinctPlaced(Pieces(uc, parts), ptrs);
    PagesAround(l, placed, r);
    DistinctAround(l, placed, r);
  }

  lemma ReplacedContents(t: Tree, h: nat, i: nat, uc: Tree, parts: seq<Node>, ptrs: seq<nat>)
    requires ShapedT(t, h) && t.Inner? && i < |t.kids| && h > 0 && ShapedT(uc, h - 1)
    requires AreParts(parts, NodeOf(uc)) && |ptrs| == |parts|
    ensures |parts| == 2 ==> |parts[0].es| <= |NodeOf(uc).es|
    ensures |Pieces(uc, parts)| == |ptrs|
    ensures ShapedT(Replaced(t, i, uc, parts, ptrs), h)
    ensures FlatT(Replaced(t, i, uc, parts, ptrs)) == Flat(t.kids[..i]) + FlatT(uc) + Flat(t.kids[i + 1..])
  {
    PiecesOf(uc, parts, h - 1);
    var pieces := Pieces(uc, parts);
    var placed := Placed(pieces, ptrs);
    FlatPlaced(pieces, ptrs);
    LinksPlaced(pieces, ptrs, h - 1);
    hide Pieces, FlatT, ShapedT, Links;
    FlatAround(t.kids[..i], placed, t.kids[i + 1..]);
    ReplacedShape(t, h, i, placed);
  }

  lemma ReplacedNode(t: Tree, h: nat, i: nat, uc: Tree, parts: seq<Node>, ptrs: seq<nat>)
    requires t.Inner? && i < |t.kids| && h > 0 && ShapedT(uc, h - 1)
    requires AreParts(parts, NodeOf(uc)) && |ptrs| == |parts|
    ensures |parts| == 2 ==> |parts[0].es| <= |NodeOf(uc).es|
    ensures |Pieces(uc, parts)| == |ptrs|
    ensures NodeOf(Replaced(t, i, uc, parts, ptrs)) == Node(false, NodeOf(t).es[..i] + ChildLinks(ptrs, parts) + NodeOf(t).es[i + 1..])
  {
    PiecesOf(uc, parts, h - 1);
    var pieces := Pieces(uc, parts);
    var placed := Placed(pieces, ptrs);
    LinksPlaced(pieces, ptrs, h - 1);
    hide Pieces, FlatT, ShapedT;
    assert Links(placed) == ChildLinks(ptrs, parts);
    LinksAround(t.kids, i, placed);
  }

  lemma LinksAround(kids: seq<Tree>, i: nat, m: seq<Tree>)
    requires i < |kids|
    ensures Links(kids[..i] + m + kids[i + 1..]) == Links(kids)[..i] + Links(m) + Links(kids)[i + 1..]
  {
  }

  lemma ReplacedShape(t: Tree, h: nat, i: nat, placed: seq<Tree>)
    requires ShapedT(t, h) && t.Inner? && i < |t.kids| && h > 0 && Shaped(placed, h - 1) && placed != []
    ensures var u := Inner(0, t.kids[..i] + placed + t.kids[i + 1..]);
            && ShapedT(u, h) && FlatT(u) == Flat(u.kids)
  {
  }

  lemma ReplacedStored(t: Tree, h: nat, i: nat, uc: Tree, parts: seq<Node>, ptrs: seq<nat>, view: Pages)
    requires t.Inner? && i < |t.kids| && h > 0 && ShapedT(uc, h - 1)
    requires AreParts(parts, NodeOf(uc)) && |ptrs| == |parts|
    requires Stored(view, t.kids[..i]) && Stored(view, t.kids[i + 1..]) && Stored(view, uc.Kids())
    requires forall k :: 0 <= k < |ptrs| ==> HasNode(view, ptrs[k], parts[k])
    ensures |parts| == 2 ==> |parts[0].es| <= |NodeOf(uc).es|
    ensures |Pieces(uc, parts)| == |ptrs|
    ensures Stored(view, Replaced(t, i, uc, parts, ptrs).kids)
  {
    PiecesOf(uc, parts, h - 1);
    StoredPlaced(Pieces(uc, parts), ptrs, view);
  }

  lemma ReplacedFits(t: Tree, h: nat, i: nat, uc: Tree, parts: seq<Node>, ptrs: seq<nat>)
    requires t.Inner? && i < |t.kids| && h > 0 && ShapedT(uc, h - 1)
    requires AreParts(parts, NodeOf(uc)) && |ptrs| == |parts|
    requires Fits(t.kids) && Fits(uc.Kids())
    requires forall k :: 0 <= k < |parts| ==> NBytes(parts[k]) <= PAGE_SIZE
    ensures |parts| == 2 ==> |parts[0].es| <= |NodeOf(uc).es|
    ensures |Pieces(uc, parts)| == |ptrs|
    ensures Fits(Replaced(t, i, uc, parts, ptrs).kids)
  {
    PiecesOf(uc, parts, h - 1);
    FitsPlaced(Pieces(uc, parts), ptrs);
  }

  lemma FirstKeyIs(t: Tree)
    requires FlatT(t) != []
    ensures FirstKey(t) == FlatT(t)[0].key
  {
  }

  lemma InnerParts(t: Tree, h: nat)
    requires ShapedT(t, h) && t.Inner?
    ensures h > 0 && t.kids != [] && Shaped(t.kids, h - 1)
    ensures FlatT(t) == Flat(t.kids) && NodeOf(t) == Node(false, Links(t.kids))
  {
  }

  // --------------------------------------------------- one level of insertion

  lemma LookupFromFirst(es: seq<Entry>, key: Key, r: int)
    requires es != [] && IsLookup(es, key, r) && Le(es[0].key, key)
    ensures r >= 0
  {
    LtIsStrictTotalOrder();
    assert !(Le(es[0].key, key) && Lt(key, es[0].key));
  }

  /** Inserting a key that is not below the first one keeps the run sorted, within limits, and its first key. */
  lemma InsertedFromFirst(es: seq<Entry>, key: Key, val: Key)
    requires Sorted(es) && WithinLimits(es) && |key| <= MAX_KEY && |val| <= MAX_VAL
    requires es != [] && Le(es[0].key, key)
    ensures Sorted(Inserted(es, key, val)) && WithinLimits(Inserted(es, key, val))
    ensures Inserted(es, key, val) != [] && Inserted(es, key, val)[0].key == es[0].key
  {
    hide Inserted, Lt, Le;
    var r := LookupExists(es, key);
    LookupFromFirst(es, key, r);
    InsertedSorted(es, key, val, r);
    InsertedAt(es, key, val, r);
  }

  /** The leaf case: leaf_insert or leaf_update at the position found. */
  lemma LeafInserted(node: Node, key: Key, val: Key, idx: int, r: Node)
    requires node.leaf && Sorted(node.es) && node.es != [] && Le(node.es[0].key, key)
    requires |key| <= MAX_KEY && |val| <= MAX_VAL
    requires IsLookup(node.es, key, idx)
    requires r == if idx >= 0 && node.es[idx].key == key then LeafUpdate(node, idx, key, val) else LeafInsert(node, idx + 1, key, val)
    ensures r == Node(true, Inserted(node.es, key, val))
    ensures NBytes(r) <= NBytes(node) + ENTRY_OVERHEAD + MAX_KEY + MAX_VAL
  {
    hide Inserted, Lt, Le;
    LookupFromFirst(node.es, key, idx);
    InsertedAt(node.es, key, val, idx);
    SizeAround(node.es, idx, Entry(0, key, val));
    SizeAround(node.es, idx + 1, Entry(0, key, val));
  }

  /** Sizes after putting e before entry n, or in place of it. */
  lemma SizeAround(es: seq<Entry>, n: nat, e: Entry)
    requires n <= |es|
    ensures Size(es[..n] + [e] + es[n..]) == Size(es) + EntrySize(e)
    ensures n < |es| ==> Size(es[..n] + [e] + es[n + 1..]) == Size(es) + EntrySize(e) - EntrySize(es[n])
  {
    SizeAppend(es[..n] + [e], es[n..]);
    SizeAppend(es[..n], [e]);
    SizeSingleton([e]);
    SizeCut(es, n);
    if n < |es| {
      SizeAppend(es[..n] + [e], es[n + 1..]);
      SizeCut(es, n + 1);
      SizeStep(es, n);
    }
  }

  /** The internal case: inserting into child i inserts into the whole. */
  lemma KidInserted(t: Tree, h: nat, key: Key, val: Key, i: nat)
    requires ShapedT(t, h) && t.Inner? && Sorted(FlatT(t))
    requires i < |t.kids| && IsLookup(Links(t.kids), key, i)
    ensures Flat(t.kids[..i]) + Inserted(FlatT(t.kids[i]), key, val) + Flat(t.kids[i + 1..]) == Inserted(FlatT(t), key, val)
  {
    SearchPath(t.kids, h - 1, key, i);
    assert FlatT(t) == Flat(t.kids);
    hide *;
    FlatAroundKid(t.kids, i);
    InsertedWithin(Flat(t.kids[..i]), FlatT(t.kids[i]), Flat(t.kids[i + 1..]), key, val);
  }

  /** Inserting below a child keeps the whole sorted, within limits and with the same first key. */
  lemma WholeInserted(t: Tree, h: nat, key: Key, val: Key, i: nat)
    requires ShapedT(t, h) && t.Inner? && Sorted(FlatT(t)) && WithinLimits(FlatT(t))
    requires |key| <= MAX_KEY && |val| <= MAX_VAL
    requires i < |t.kids| && IsLookup(Links(t.kids), key, i)
    ensures Sorted(Inserted(FlatT(t), key, val)) && WithinLimits(Inserted(FlatT(t), key, val))
    ensures FlatT(t) != [] && Inserted(FlatT(t), key, val) != [] && Inserted(FlatT(t), key, val)[0].key == FlatT(t)[0].key
  {
    FirstBelow(t, h, key, i);
    hide *;
    InsertedFromFirst(FlatT(t), key, val);
  }

  lemma KidAccepts(t: Tree, h: nat, key: Key, val: Key, i: nat)
    requires ShapedT(t, h) && t.Inner? && Sorted(FlatT(t)) && WithinLimits(FlatT(t))
    requires |key| <= MAX_KEY && |val| <= MAX_VAL
    requires i < |t.kids| && IsLookup(Links(t.kids), key, i)
    ensures FlatT(t.kids[i]) != [] && Le(FlatT(t.kids[i])[0].key, key)
    ensures Inserted(FlatT(t.kids[i]), key, val) != []
    ensures Inserted(FlatT(t.kids[i]), key, val)[0].key == FlatT(t.kids[i])[0].key
  {
    hide *;
    InnerParts(t, h);
    SearchPath(t.kids, h - 1, key, i);
    KidSorted(t.kids, i);
    FirstKeyIs(t.kids[i]);
    InsertedFromFirst(FlatT(t.kids[i]), key, val);
  }

  /** A key the search accepted is not below the whole tree. */
  lemma FirstBelow(t: Tree, h: nat, key: Key, i: nat)
    requires ShapedT(t, h) && t.Inner? && Sorted(FlatT(t))
    requires i < |t.kids| && IsLookup(Links(t.kids), key, i)
    ensures FlatT(t) != [] && Le(FlatT(t)[0].key, key)
  {
    ShapedFlat(t, h);
    ShapedFlat(t.kids[0], h - 1);
    FlatOfKid(t.kids, 0, 0);
    assert t.kids[..0] == [];
    assert Le(Links(t.kids)[0].key, key);
  }

  /** Growth of the parent: the first new link is as long as the old one, and at most one is added. */
  lemma LinkGrowth(node: Node, idx: nat, ptrs: seq<nat>, parts: seq<Node>, r: Node)
    requires idx < |node.es| && |ptrs| == |parts| && 1 <= |parts| <= 2
    requires forall i :: 0 <= i < |parts| ==> parts[i].es != [] && |parts[i].es[0].key| <= MAX_KEY
    requires |parts[0].es[0].key| == |node.es[idx].key| && node.es[idx].val == []
    requires r == Node(false, node.es[..idx] + ChildLinks(ptrs, parts) + node.es[idx + 1..])
    ensures NBytes(r) <= NBytes(node) + ENTRY_OVERHEAD + MAX_KEY
  {
    var links := ChildLinks(ptrs, parts);
    SizeAppend(node.es[..idx] + links, node.es[idx + 1..]);
    SizeAppend(node.es[..idx], links);
    SizeCut(node.es, idx + 1);
    SizeStep(node.es, idx);
    assert links == [links[0]] + links[1..];
    assert Size(links) == EntrySize(links[0]) + Size(links[1..]);
    if |parts| == 2 {
      SizeSingleton(links[1..]);
    } else {
      assert links[1..] == [];
    }
  }

  // ------------------------------------------------------- page bookkeeping

  /** The pages out were given up for the pages into, which were not held before. */
  ghost predicate Swapped(before: set<nat>, after: set<nat>, out: set<nat>, into: set<nat>)
  {
    into !! (before - out) && after == (before - out) + into
  }

  lemma UnchangedLess(more: set<nat>, less: set<nat>, v: Pages, w: Pages)
    requires Unchanged(more, v, w) && less <= more
    ensures Unchanged(less, v, w)
  {
  }

  lemma StoredUnchanged(pages: set<nat>, v: Pages, w: Pages, ts: seq<Tree>)
    requires Unchanged(pages, v, w) && PagesF(ts) <= pages && Stored(v, ts)
    ensures Stored(w, ts)
  {
    StoredFrame(v, w, ts);
  }

  lemma NodesUnchanged(pages: set<nat>, v: Pages, w: Pages, ptrs: seq<nat>, nodes: seq<Node>)
    requires |ptrs| == |nodes| && ToSet(ptrs) <= pages && Unchanged(pages, v, w)
    requires forall k :: 0 <= k < |ptrs| ==> HasNode(v, ptrs[k], nodes[k])
    ensures forall k :: 0 <= k < |ptrs| ==> HasNode(w, ptrs[k], nodes[k])
  {
    assert forall k :: 0 <= k < |ptrs| ==> ptrs[k] in ToSet(ptrs);
  }

  lemma RootIsEmpty(rt: Root, view: Pages, held: set<nat>)
    requires RootOk(rt, view, held)
    ensures RootPage(rt) == 0 <==> rt.Empty?
    ensures rt.Empty? ==> held == {}
  {
  }

  lemma UnchangedChain(pages: set<nat>, u: Pages, v: Pages, w: Pages)
    requires Unchanged(pages, u, v) && Unchanged(pages, v, w)
    ensures Unchanged(pages, u, w)
  {
  }

  /** held through the three moves of node_insert and node_delete: child rebuilt, child page freed, new pages taken. */
  ghost predicate Moves(t: Tree, i: nat, uc: Tree, ptrs: seq<nat>, held: seq<set<nat>>, views: seq<Pages>)
    requires t.Inner? && i < |t.kids| && |held| == 4 && |views| == 4
  {
    && Swapped(held[0], held[1], PagesF(t.kids[i].Kids()), PagesF(uc.Kids()))
    && held[2] == held[1] - {t.kids[i].ptr}
    && ToSet(ptrs) !! held[2] && held[3] == held[2] + ToSet(ptrs)
    && Unchanged(held[0] - PagesF(t.kids[i].Kids()), views[0], views[1])
    && Unchanged(held[2], views[1], views[2])
    && Unchanged(held[2], views[2], views[3])
  }

  lemma MovesUnchanged(t: Tree, i: nat, uc: Tree, ptrs: seq<nat>, held: seq<set<nat>>, views: seq<Pages>, pages: set<nat>)
    requires t.Inner? && i < |t.kids| && |held| == 4 && |views| == 4
    requires Moves(t, i, uc, ptrs, held, views)
    requires pages <= held[0] - PagesF(t.kids[i].Kids()) - {t.kids[i].ptr}
    ensures Unchanged(pages, views[0], views[3])
  {
    hide Unchanged, PagesF, ToSet;
    UnchangedLess(held[0] - PagesF(t.kids[i].Kids()), pages, views[0], views[1]);
    UnchangedLess(held[2], pages, views[1], views[2]);
    UnchangedLess(held[2], pages, views[2], views[3]);
    UnchangedChain(pages, views[0], views[1], views[2]);
    UnchangedChain(pages, views[0], views[2], views[3]);
  }

  lemma MovesKeepNewKids(t: Tree, i: nat, uc: Tree, ptrs: seq<nat>, held: seq<set<nat>>, views: seq<Pages>)
    requires t.Inner? && i < |t.kids| && |held| == 4 && |views| == 4
    requires Moves(t, i, uc, ptrs, held, views)
    requires t.kids[i].ptr in held[0] - PagesF(t.kids[i].Kids())
    requires Stored(views[1], uc.Kids())
    ensures Stored(views[3], uc.Kids())
  {
    var pages := PagesF(uc.Kids());
    assert pages <= held[2];
    UnchangedLess(held[2], pages, views[1], views[2]);
    UnchangedLess(held[2], pages, views[2], views[3]);
    UnchangedChain(pages, views[1], views[2], views[3]);
    StoredFrame(views[1], views[3], uc.Kids());
  }

  /** Child i's pages, its siblings' and nothing else are below t. */
  lemma KidPages(t: Tree, i: nat, held: set<nat>)
    requires t.Inner? && i < |t.kids| && Distinct(t.kids) && PagesF(t.kids) <= held
    ensures t.kids[i].ptr in held - PagesF(t.kids[i].Kids())
    ensures PagesF(t.kids[..i]) <= held - PagesF(t.kids[i].Kids()) - {t.kids[i].ptr}
    ensures PagesF(t.kids[i + 1..]) <= held - PagesF(t.kids[i].Kids()) - {t.kids[i].ptr}
    ensures held - PagesF(t.kids) <= held - PagesF(t.kids[i].Kids()) - {t.kids[i].ptr}
  {
    hide *;
    PagesAroundKid(t.kids, i);
    DistinctAroundKid(t.kids, i);
    PagesSingleton(t.kids[i]);
    DistinctSingleton(t.kids[i]);
  }

  lemma MovesKeepSiblings(t: Tree, i: nat, uc: Tree, ptrs: seq<nat>, held: seq<set<nat>>, views: seq<Pages>)
    requires t.Inner? && i < |t.kids| && |held| == 4 && |views| == 4
    requires Distinct(t.kids) && PagesF(t.kids) <= held[0] && Stored(views[0], t.kids)
    requires Moves(t, i, uc, ptrs, held, views)
    ensures Stored(views[3], t.kids[..i]) && Stored(views[3], t.kids[i + 1..])
  {
    KidPages(t, i, held[0]);
    MovesUnchanged(t, i, uc, ptrs, held, views, PagesF(t.kids[..i]));
    MovesUnchanged(t, i, uc, ptrs, held, views, PagesF(t.kids[i + 1..]));
    StoredParts(views[0], t.kids, i);
    hide Stored, PagesF, Moves, Distinct;
    StoredFrame(views[0], views[3], t.kids[..i]);
    StoredFrame(views[0], views[3], t.kids[i + 1..]);
  }

  lemma StoredParts(view: Pages, kids: seq<Tree>, i: nat)
    requires i < |kids| && Stored(view, kids)
    ensures Stored(view, kids[..i]) && Stored(view, kids[i + 1..]) && StoredT(view, kids[i])
  {
  }

  /** One child replaced: the new node is loose again, on exactly the swapped pages. */
  lemma ReplacedIsLoose(t: Tree, h: nat, i: nat, uc: Tree, parts: seq<Node>, ptrs: seq<nat>, held: seq<set<nat>>, views: seq<Pages>)
    requires |held| == 4 && |views| == 4
    requires Loose(t, h, views[0], held[0]) && t.Inner? && i < |t.kids| && h > 0
    requires Loose(uc, h - 1, views[1], held[1])
    requires AreParts(parts, NodeOf(uc)) && |ptrs| == |parts| && AllDistinct(ptrs)
    requires Moves(t, i, uc, ptrs, held, views)
    requires forall k :: 0 <= k < |ptrs| ==> HasNode(views[3], ptrs[k], parts[k])
    requires Sorted(Flat(t.kids[..i]) + FlatT(uc) + Flat(t.kids[i + 1..]))
    requires WithinLimits(Flat(t.kids[..i]) + FlatT(uc) + Flat(t.kids[i + 1..]))
    ensures |parts| == 2 ==> |parts[0].es| <= |NodeOf(uc).es|
    ensures |Pieces(uc, parts)| == |ptrs|
    ensures Loose(Replaced(t, i, uc, parts, ptrs), h, views[3], held[3])
    ensures Swapped(held[0], held[3], PagesF(t.kids), PagesF(Replaced(t, i, uc, parts, ptrs).kids))
    ensures Unchanged(held[0] - PagesF(t.kids), views[0], views[3])
  {
    KidPages(t, i, held[0]);
    assert held[2] == HeldWithout(t, i, uc, held[0]);
    ReplacedPages(t, h, i, uc, parts, ptrs, held[0]);
    ReplacedContents(t, h, i, uc, parts, ptrs);
    MovesKeepSiblings(t, i, uc, ptrs, held, views);
    MovesKeepNewKids(t, i, uc, ptrs, held, views);
    ReplacedStored(t, h, i, uc, parts, ptrs, views[3]);
    MovesUnchanged(t, i, uc, ptrs, held, views, held[0] - PagesF(t.kids));
  }

  // -------------------------------------------------------------- the root

  /** A database tree: none yet, or a root of height h. */
  datatype Root = Empty | Rooted(t: Tree, h: nat)

  ghost function RootPage(rt: Root): nat
  {
    if rt.Empty? then 0 else rt.t.ptr
  }

  /** rt's pages are exactly the held ones and store it; its first entry is the sentinel with the empty key. */
  ghost predicate RootOk(rt: Root, view: Pages, held: set<nat>)
  {
    match rt
    case Empty => held == {}
    case Rooted(t, h) =>
      && t.ptr != 0
      && PagesF([t]) == held && DistinctT(t) && StoredT(view, t)
      && ShapedT(t, h) && Sorted(FlatT(t)) && WithinLimits(FlatT(t))
      && FirstKey(t) == []
  }

  ghost predicate RootFits(rt: Root)
  {
    rt.Rooted? ==> FitsT(rt.t)
  }

  /** The map the tree stands for; the sentinel is not part of it. */
  ghost function Contents(rt: Root): map<Key, Key>
  {
    if rt.Empty? then map[] else AsMap(FlatT(rt.t)) - {[]}
  }

  lemma RootIsLoose(rt: Root, view: Pages, held: set<nat>)
    requires RootOk(rt, view, held) && rt.Rooted?
    ensures Loose(rt.t, rt.h, view, held)
    ensures HasNode(view, rt.t.ptr, NodeOf(rt.t)) && rt.t.ptr in held && rt.t.ptr !in PagesF(rt.t.Kids())
    ensures held == {rt.t.ptr} + PagesF(rt.t.Kids())
    ensures RootFits(rt) ==> Fits(rt.t.Kids()) && NBytes(NodeOf(rt.t)) <= PAGE_SIZE
    ensures FlatT(rt.t) != []
  {
    PagesSingleton(rt.t);
    DistinctSingleton(rt.t);
    ShapedFlat(rt.t, rt.h);
  }

  /** A loose node whose children are all that is held, put on a new page, is a root. */
  lemma PlacedRoot(u: Tree, h: nat, p: nat, view: Pages, held: set<nat>)
    requires p != 0 && p !in PagesF(u.Kids()) && held == {p} + PagesF(u.Kids())
    requires ShapedT(u, h) && Distinct(u.Kids()) && Stored(view, u.Kids()) && HasNode(view, p, NodeOf(u))
    requires Sorted(FlatT(u)) && WithinLimits(FlatT(u)) && FirstKey(u) == []
    ensures RootOk(Rooted(u.At(p), h), view, held)
    ensures FlatT(u.At(p)) == FlatT(u)
    ensures Fits(u.Kids()) && NBytes(NodeOf(u)) <= PAGE_SIZE ==> RootFits(Rooted(u.At(p), h))
  {
    PagesSingleton(u.At(p));
    DistinctSingleton(u.At(p));
    assert u.At(p).Kids() == u.Kids() && NodeOf(u.At(p)) == NodeOf(u);
  }

  lemma FirstRoot(p: nat, key: Key, val: Key, view: Pages, n: Node)
    requires p != 0 && key != [] && |key| <= MAX_KEY && |val| <= MAX_VAL
    requires n == Node(true, [Entry(0, [], []), Entry(0, key, val)]) && HasNode(view, p, n)
    ensures RootOk(Rooted(Leaf(p, n.es), 0), view, {p}) && RootFits(Rooted(Leaf(p, n.es), 0))
    ensures Contents(Rooted(Leaf(p, n.es), 0)) == map[key := val]
  {
    var t := Leaf(p, n.es);
    assert Sorted(n.es);
    PagesSingleton(t);
    assert n.es[1..] == [n.es[1]] && n.es[1..][1..] == [];
    assert AsMap(n.es[1..]) == map[key := val];
    assert Size(n.es) == EntrySize(n.es[0]) + Size(n.es[1..]);
    SizeSingleton(n.es[1..]);
  }

  lemma ContentsInserted(rt: Root, view: Pages, held: set<nat>, key: Key, val: Key)
    requires RootOk(rt, view, held) && rt.Rooted? && key != [] && |key| <= MAX_KEY && |val| <= MAX_VAL
    ensures AsMap(Inserted(FlatT(rt.t), key, val)) - {[]} == Contents(rt)[key := val]
    ensures Le(FirstKey(rt.t), key)
    ensures Inserted(FlatT(rt.t), key, val) != [] && Inserted(FlatT(rt.t), key, val)[0].key == []
  {
    LtIsStrictTotalOrder();
    ShapedFlat(rt.t, rt.h);
    AsMapInserted(FlatT(rt.t), key, val);
    InsertedFromFirst(FlatT(rt.t), key, val);
  }

  /** The two halves of an oversized root, under a new one. */
  lemma SplitRoot(u: Tree, h: nat, parts: seq<Node>, ptrs: seq<nat>, q: nat, view: Pages, r: Node)
    requires ShapedT(u, h) && Distinct(u.Kids()) && Stored(view, u.Kids())
    requires Sorted(FlatT(u)) && WithinLimits(FlatT(u)) && FirstKey(u) == []
    requires AreParts(parts, NodeOf(u)) && |ptrs| == |parts| && AllDistinct(ptrs)
    requires forall k :: 0 <= k < |parts| ==> NBytes(parts[k]) <= PAGE_SIZE
    requires ToSet(ptrs) !! PagesF(u.Kids()) && q !in ToSet(ptrs) + PagesF(u.Kids()) && q != 0
    requires forall k :: 0 <= k < |ptrs| ==> HasNode(view, ptrs[k], parts[k])
    requires r == Node(false, ChildLinks(ptrs, parts)) && HasNode(view, q, r)
    requires Fits(u.Kids())
    ensures |parts| == 2 ==> |parts[0].es| <= |NodeOf(u).es|
    ensures |Pieces(u, parts)| == |ptrs|
    ensures var n := Rooted(Inner(q, Placed(Pieces(u, parts), ptrs)), h + 1);
            RootOk(n, view, {q} + (ToSet(ptrs) + PagesF(u.Kids()))) && RootFits(n) && FlatT(n.t) == FlatT(u)
  {
    hide Sorted, WithinLimits, Stored, Shaped, Distinct, FlatT, Flat, PagesF;
    PiecesOf(u, parts, h);
    var pieces := Pieces(u, parts);
    var placed := Placed(pieces, ptrs);
    FlatPlaced(pieces, ptrs);
    PagesPlaced(pieces, ptrs);
    DistinctPlaced(pieces, ptrs);
    StoredPlaced(pieces, ptrs, view);
    FitsPlaced(pieces, ptrs);
    LinksPlaced(pieces, ptrs, h);
    assert Links(placed) == ChildLinks(ptrs, parts);
    NewRootNode(u, h, parts, ptrs);
    var n := Inner(0, placed);
    NewRootFlat(placed, h);
    hide *;
    PlacedRoot(n, h + 1, q, view, {q} + (ToSet(ptrs) + PagesF(u.Kids())));
  }

  lemma NewRootFlat(placed: seq<Tree>, h: nat)
    requires Shaped(placed, h) && placed != []
    ensures ShapedT(Inner(0, placed), h + 1) && FlatT(Inner(0, placed)) == Flat(placed)
    ensures NodeOf(Inner(0, placed)) == Node(false, Links(placed)) && Inner(0, placed).Kids() == placed
    ensures forall q :: Inner(0, placed).At(q) == Inner(q, placed)
    ensures FirstKey(Inner(0, placed)) == if Flat(placed) == [] then [] else Flat(placed)[0].key
  {
  }

  lemma NewRootNode(u: Tree, h: nat, parts: seq<Node>, ptrs: seq<nat>)
    requires ShapedT(u, h) && WithinLimits(FlatT(u)) && AreParts(parts, NodeOf(u)) && |ptrs| == |parts|
    ensures NBytes(Node(false, ChildLinks(ptrs, parts))) <= PAGE_SIZE
  {
    NodeWithinLimits(u, h);
    NodeFirstKey(u, h);
    if |parts| == 2 {
      assert NodeOf(u).es[|parts[0].es|] == parts[1].es[0];
    }
    var links := ChildLinks(ptrs, parts);
    assert links == [links[0]] + links[1..];
    assert Size(links) == EntrySize(links[0]) + Size(links[1..]);
    if |parts| == 2 {
      SizeSingleton(links[1..]);
    } else {
      assert links[1..] == [];
    }
  }
}
