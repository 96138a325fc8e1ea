/**
 * When BTree::remove keeps every page within its size. A separator is replaced by the next key, which may be longer, so
 * a node can outgrow its page; deletion is safe when the next key is not longer than the deleted one.
 */
module DeleteLimits {
  import opened Bytes
  import opened Nodes
  import opened Entries
  import opened FreeLists
  import opened Trees
  import opened TreeEdit
  import opened TreeDeletes
  import opened TreeShapes

  /** The key after key, if both are there, is not longer. */
  ghost predicate ShortSuccessor(es: seq<Entry>, key: Key)
  {
    forall j :: 0 <= j < |es| - 1 && es[j].key == key ==> |es[j + 1].key| <= |key|
  }

  lemma SuccessorBelow(t: Tree, h: nat, key: Key, i: nat)
    requires ShapedT(t, h) && t.Inner? && i < |t.kids| && ShortSuccessor(FlatT(t), key)
    ensures ShortSuccessor(FlatT(t.kids[i]), key)
  {
    InnerParts(t, h);
    var at, m := |Flat(t.kids[..i])|, FlatT(t.kids[i]);
    forall j | 0 <= j < |m| - 1 && m[j].key == key
      ensures |m[j + 1].key| <= |key|
    {
      FlatOfKid(t.kids, i, j);
      FlatOfKid(t.kids, i, j + 1);
      hide Flat, FlatT;
      assert Flat(t.kids)[at + j + 1] == m[j + 1];
    }
  }

  /** Exchanging a separator for a key that is not longer cannot grow the node. */
  lemma ShortExchange(kids: seq<Tree>, i: nat, bytes: int, key: Key)
    requires i < |kids| && FlatT(kids[i]) != [] && FlatT(kids[i])[0].key == key && ShortSuccessor(FlatT(kids[i]), key)
    ensures InnerBytes(kids, i, bytes, Removed(FlatT(kids[i]), key)) <= NBytes(Node(false, Links(kids)))
  {
    var m := FlatT(kids[i]);
    assert Links(kids)[i].key == key && Removed(m, key) == m[1..];
    assert |m| > 1 ==> m[1..][0] == m[1];
    SizeStep(Links(kids), i);
    SizeCut(Links(kids), i + 1);
  }

  /** Deleting a key whose successor is not longer never overflows a page. */
  lemma {:induction false} ShortSuccessorFits(t: Tree, h: nat, key: Key)
    requires ShapedT(t, h) && FitsT(t) && Sorted(FlatT(t)) && ShortSuccessor(FlatT(t), key)
    ensures DeleteFits(t, key)
    decreases h
  {
    if t.Inner? {
      InnerParts(t, h);
      LinksSorted(t.kids, h - 1);
      FindIsLookup(Links(t.kids), key);
      var i := Find(Links(t.kids), key);
      if i >= 0 {
        SuccessorBelow(t, h, key, i);
        ShapedFlat(t.kids[i], h - 1);
        assert FitsT(t.kids[i]);
        ShortSuccessorFits(t.kids[i], h - 1, key);
        if Links(t.kids)[i].key == key {
          ShortExchange(t.kids, i, AfterBytes(t.kids[i], key), key);
        }
      }
    }
  }

  /** In terms of the map alone: the next larger key, if there is one, is not longer. */
  ghost predicate NextNotLonger(m: map<Key, Key>, key: Key)
  {
    forall k :: k in m && Lt(key, k) && (forall q :: q in m && Lt(key, q) ==> Le(k, q)) ==> |k| <= |key|
  }

  lemma NextNotLongerFits(rt: Root, view: Pages, held: set<nat>, key: Key)
    requires RootOk(rt, view, held) && RootFits(rt) && NextNotLonger(Contents(rt), key)
    ensures RootDeleteFits(rt, key)
  {
    hide StoredT, PagesF, DistinctT, WithinLimits, Lt, FitsT, ShapedT;
    if rt.Rooted? {
      var es := FlatT(rt.t);
      forall j | 0 <= j < |es| - 1 && es[j].key == key
        ensures |es[j + 1].key| <= |key|
      {
        NextEntry(rt, es, j);
      }
      ShortSuccessorFits(rt.t, rt.h, key);
    }
  }

  /** The entry after one is the next larger key of the map. */
  lemma NextEntry(rt: Root, es: seq<Entry>, j: nat)
    requires rt.Rooted? && es == FlatT(rt.t) && Sorted(es) && j + 1 < |es|
    ensures es[j + 1].key in Contents(rt) && Lt(es[j].key, es[j + 1].key)
    ensures forall q :: q in Contents(rt) && Lt(es[j].key, q) ==> Le(es[j + 1].key, q)
  {
    hide FlatT, AsMap;
    LtIsStrictTotalOrder();
    AsMapKeys(es);
    assert Has(es, es[j + 1].key);
    NothingBelowEmpty(es[j].key);
    forall q | q in Contents(rt) && Lt(es[j].key, q)
      ensures Le(es[j + 1].key, q)
    {
      var i :| 0 <= i < |es| && es[i].key == q;
      assert i > j;
    }
  }

  lemma NothingBelowEmpty(a: Key)
    ensures !Lt(a, [])
  {
  }

  /** Deleting these keys one after the other, each has no longer key next to it when its turn comes. */
  ghost predicate ChainShort(m: map<Key, Key>, keys: seq<Key>)
  {
    keys == [] || (NextNotLonger(m, keys[0]) && ChainShort(m - {keys[0]}, keys[1..]))
  }

  /** So it is whenever all keys are of one length. */
  lemma {:induction false} OneLengthShort(m: map<Key, Key>, keys: seq<Key>, length: nat)
    requires (forall k :: k in m ==> |k| == length) && forall k :: k in keys ==> |k| == length
    ensures ChainShort(m, keys)
    decreases keys
  {
    hide Lt;
    if keys != [] {
      OneLengthShort(m - {keys[0]}, keys[1..], length);
    }
  }
}
