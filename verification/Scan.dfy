/** Runs of sorted entries cut by two bounds, and what they are for a table (src/access/scanner.cpp). */
module Scans {
  import opened Bytes
  import opened Nodes
  import opened FreeLists
  import opened Trees
  import opened TreeEdit
  import opened Iterators
  import opened OrderPreserving
  import opened RowCodec
  import opened Tables
  import opened TableAccess

  // ------------------------------------------------------------ entries in a range

  /** The entries from position i on, as long as they satisfy cmp: those a scanner at i still has to visit. */
  ghost function RestForward(es: seq<Entry>, i: nat, cmp: Cmp, end: Key): seq<Entry>
    decreases |es| - i
  {
    if 1 <= i < |es| && CmpOk(es[i].key, cmp, end) then [es[i]] + RestForward(es, i + 1, cmp, end) else []
  }

  ghost function RestBackward(es: seq<Entry>, i: nat, cmp: Cmp, end: Key): seq<Entry>
    decreases i
  {
    if 1 <= i < |es| && CmpOk(es[i].key, cmp, end) then [es[i]] + RestBackward(es, i - 1, cmp, end) else []
  }

  ghost function Rest(es: seq<Entry>, i: nat, forward: bool, cmp: Cmp, end: Key): seq<Entry>
  {
    if forward then RestForward(es, i, cmp, end) else RestBackward(es, i, cmp, end)
  }

  ghost predicate InRange(e: Entry, cmp1: Cmp, k1: Key, cmp2: Cmp, k2: Key)
  {
    CmpOk(e.key, cmp1, k1) && CmpOk(e.key, cmp2, k2)
  }

  /** hits are exactly the entries but the sentinel that satisfy both bounds, in key order or its reverse. */
  ghost predicate IsRange(hits: seq<Entry>, es: seq<Entry>, cmp1: Cmp, k1: Key, cmp2: Cmp, k2: Key)
  {
    && (forall e :: e in hits <==> (exists i :: 1 <= i < |es| && es[i] == e) && InRange(e, cmp1, k1, cmp2, k2))
    && (forall i, j :: 0 <= i < j < |hits| ==>
          if cmp1.Forward() then Lt(hits[i].key, hits[j].key) else Lt(hits[j].key, hits[i].key))
  }

  /** Once a bound that points down fails, it fails for every larger key; and the mirror image. */
  lemma Monotone(a: Key, b: Key, cmp: Cmp, k: Key)
    requires Lt(a, b)
    ensures !cmp.Forward() && CmpOk(b, cmp, k) ==> CmpOk(a, cmp, k)
    ensures cmp.Forward() && CmpOk(a, cmp, k) ==> CmpOk(b, cmp, k)
  {
    LtIsStrictTotalOrder();
  }

  /** The entries from i on that a scanner visits are a run of neighbours. */
  lemma {:induction false} ForwardRun(es: seq<Entry>, i: nat, cmp: Cmp, end: Key) returns (n: nat)
    requires 1 <= i <= |es|
    ensures i <= n <= |es| && RestForward(es, i, cmp, end) == es[i..n]
    ensures forall j :: i <= j < n ==> CmpOk(es[j].key, cmp, end)
    ensures n < |es| ==> !CmpOk(es[n].key, cmp, end)
    decreases |es| - i
  {
    hide CmpOk;
    n := i;
    if i < |es| && CmpOk(es[i].key, cmp, end) {
      n := ForwardRun(es, i + 1, cmp, end);
      assert es[i..n] == [es[i]] + es[i + 1..n];
    }
  }

  lemma ForwardHits(es: seq<Entry>, i: nat, cmp: Cmp, end: Key)
    requires Sorted(es) && !cmp.Forward() && 1 <= i
    ensures forall e :: e in RestForward(es, i, cmp, end) <==> exists j :: i <= j < |es| && es[j] == e && CmpOk(e.key, cmp, end)
    ensures forall a, b :: 0 <= a < b < |RestForward(es, i, cmp, end)| ==>
              Lt(RestForward(es, i, cmp, end)[a].key, RestForward(es, i, cmp, end)[b].key)
  {
    hide CmpOk, Lt;
    if i < |es| {
      var n := ForwardRun(es, i, cmp, end);
      var hits := RestForward(es, i, cmp, end);
      assert forall k :: 0 <= k < |hits| ==> hits[k] == es[i + k];
      forall j | n <= j < |es|
        ensures !CmpOk(es[j].key, cmp, end)
      {
        if n < j {
          Monotone(es[n].key, es[j].key, cmp, end);
        }
      }
      forall e
        ensures e in hits <==> exists j :: i <= j < |es| && es[j] == e && CmpOk(e.key, cmp, end)
      {
        if j :| i <= j < |es| && es[j] == e && CmpOk(e.key, cmp, end) {
          assert hits[j - i] == e;
        }
      }
    }
  }

  lemma {:induction false} BackwardRun(es: seq<Entry>, i: nat, cmp: Cmp, end: Key) returns (n: nat)
    requires i < |es|
    ensures n <= i && |RestBackward(es, i, cmp, end)| == i - n
    ensures forall k :: 0 <= k < i - n ==> RestBackward(es, i, cmp, end)[k] == es[i - k]
    ensures forall j :: n < j <= i ==> CmpOk(es[j].key, cmp, end)
    ensures n > 0 ==> !CmpOk(es[n].key, cmp, end)
    decreases i
  {
    hide CmpOk;
    n := i;
    if 1 <= i && CmpOk(es[i].key, cmp, end) {
      n := BackwardRun(es, i - 1, cmp, end);
    }
  }

  lemma BackwardHits(es: seq<Entry>, i: nat, cmp: Cmp, end: Key)
    requires Sorted(es) && cmp.Forward() && i < |es|
    ensures forall e :: e in RestBackward(es, i, cmp, end) <==> exists j :: 1 <= j <= i && es[j] == e && CmpOk(e.key, cmp, end)
    ensures forall a, b :: 0 <= a < b < |RestBackward(es, i, cmp, end)| ==>
              Lt(RestBackward(es, i, cmp, end)[b].key, RestBackward(es, i, cmp, end)[a].key)
  {
    hide CmpOk, Lt;
    var n := BackwardRun(es, i, cmp, end);
    var hits := RestBackward(es, i, cmp, end);
    forall j | 1 <= j <= n
      ensures !CmpOk(es[j].key, cmp, end)
    {
      if j < n {
        Monotone(es[j].key, es[n].key, cmp, end);
      }
    }
    forall e
      ensures e in hits <==> exists j :: 1 <= j <= i && es[j] == e && CmpOk(e.key, cmp, end)
    {
      if j :| 1 <= j <= i && es[j] == e && CmpOk(e.key, cmp, end) {
        assert hits[i - j] == e;
      }
    }
  }

  /** A scan begun at the entry nearest to its first bound visits exactly its range. */
  lemma ScanIsRange(es: seq<Entry>, i: nat, cmp1: Cmp, k1: Key, cmp2: Cmp, k2: Key)
    requires Sorted(es) && es != [] && Nearest(es, i, cmp1, k1) && cmp1.Forward() != cmp2.Forward()
    ensures IsRange(Rest(es, i, cmp1.Forward(), cmp2, k2), es, cmp1, k1, cmp2, k2)
  {
    hide CmpOk, Lt;
    var hits := Rest(es, i, cmp1.Forward(), cmp2, k2);
    if cmp1.Forward() {
      ForwardHits(es, i, cmp2, k2);
      forall j | i <= j < |es|
        ensures CmpOk(es[j].key, cmp1, k1)
      {
        if i < j {
          Monotone(es[i].key, es[j].key, cmp1, k1);
        }
      }
    } else {
      BackwardHits(es, i, cmp2, k2);
      forall j | 1 <= j <= i
        ensures CmpOk(es[j].key, cmp1, k1)
      {
        if j < i {
          Monotone(es[j].key, es[i].key, cmp1, k1);
        }
      }
    }
    forall e
      ensures e in hits <==> (exists j :: 1 <= j < |es| && es[j] == e) && InRange(e, cmp1, k1, cmp2, k2)
    {
      if (exists j :: 1 <= j < |es| && es[j] == e) && InRange(e, cmp1, k1, cmp2, k2) {
        var j :| 1 <= j < |es| && es[j] == e;
        assert if cmp1.Forward() then i <= j else j <= i;
      }
    }
  }

  lemma RestStep(es: seq<Entry>, i: nat, forward: bool, cmp: Cmp, end: Key)
    ensures Rest(es, i, forward, cmp, end) != [] <==> 0 < i < |es| && CmpOk(es[i].key, cmp, end)
    ensures Rest(es, i, forward, cmp, end) != [] ==> Rest(es, i, forward, cmp, end)[0] == es[i]
    ensures Rest(es, i, forward, cmp, end) != [] && forward ==>
              Rest(es, i, forward, cmp, end)[1..] == Rest(es, i + 1, forward, cmp, end)
    ensures Rest(es, i, forward, cmp, end) != [] && !forward ==>
              i > 0 && Rest(es, i, forward, cmp, end)[1..] == Rest(es, i - 1, forward, cmp, end)
  {
    hide CmpOk;
  }

  // ------------------------------------------------------------ the scanner

  /** check_bound: the key names a prefix of the columns, with their types. */
  predicate BoundFits(td: TableDef, cols: seq<Name>, key: Record)
    requires |td.cols| == |td.types| && |key.cols| == |key.vals|
  {
    && IsPrefix(cols, key.cols)
    && forall i :: 0 <= i < |key.cols| ==>
         key.cols[i] in td.cols && key.vals[i].Type() == td.types[ColIndex(td.cols, key.cols[i])]
  }

  method CheckBound(td: TableDef, cols: seq<Name>, key: Record) returns (ok: bool)
    requires |td.cols| == |td.types| && |key.cols| == |key.vals| && forall c :: c in cols ==> c in td.cols
    ensures ok <==> BoundFits(td, cols, key)
  {
    if !IsPrefix(cols, key.cols) {
      return false;
    }
    PrefixKnown(td, cols, key.cols);
    for i := 0 to |key.cols|
      invariant forall j :: 0 <= j < i ==> key.vals[j].Type() == td.types[ColIndex(td.cols, key.cols[j])]
    {
      if key.vals[i].Type() != td.types[ColIndex(td.cols, key.cols[i])] {
        return false;
      }
    }
    ok := true;
  }

  lemma PrefixKnown(td: TableDef, cols: seq<Name>, short: seq<Name>)
    requires IsPrefix(cols, short) && forall c :: c in cols ==> c in td.cols
    ensures forall c :: c in short ==> c in td.cols
    ensures forall i :: 0 <= i < |short| ==> short[i] == cols[i] && short[i] in td.cols
  {
    assert short == cols[..|short|];
    forall i | 0 <= i < |short|
      ensures short[i] == cols[i] && short[i] in td.cols
    {
      assert cols[i] in cols;
    }
  }

  /** Whether db_scan accepts the bounds, given the tree it chose. */
  ghost predicate Accepts(td: TableDef, tree: int, cmp1: Cmp, cmp2: Cmp, key1: Record, key2: Record)
    requires TableOk(td) && |key1.cols| == |key1.vals| && |key2.cols| == |key2.vals|
  {
    && cmp1.Forward() != cmp2.Forward() && -1 <= tree < |td.indexes|
    && BoundFits(td, TreeCols(td, tree), key1) && BoundFits(td, TreeCols(td, tree), key2)
  }

  /** One bound points up and the other down, and both name first columns of the tree, with values of their types. */
  lemma AcceptsIs(td: TableDef, tree: int, cmp1: Cmp, cmp2: Cmp, key1: Record, key2: Record)
    requires TableOk(td) && |key1.cols| == |key1.vals| && |key2.cols| == |key2.vals| && td.pkeys <= |td.cols|
    ensures Accepts(td, tree, cmp1, cmp2, key1, key2) <==>
              && (cmp1 == GE || cmp1 == GT) != (cmp2 == GE || cmp2 == GT)
              && -1 <= tree < |td.indexes|
              && var cols := if tree < 0 then td.cols[..td.pkeys] else td.indexes[tree];
                 && key1.cols <= cols && key2.cols <= cols
                 && (forall i :: 0 <= i < |key1.cols| ==> key1.cols[i] in td.cols && key1.vals[i].Type() == td.types[ColIndex(td.cols, key1.cols[i])])
                 && (forall i :: 0 <= i < |key2.cols| ==> key2.cols[i] in td.cols && key2.vals[i].Type() == td.types[ColIndex(td.cols, key2.cols[i])])
  {
    hide IndexOk;
  }

  lemma TreeKnown(td: TableDef, tree: int)
    requires TableOk(td) && -1 <= tree < |td.indexes|
    ensures forall c :: c in TreeCols(td, tree) ==> c in td.cols
    ensures |td.types| == |td.cols| && TreePrefix(td, tree) < PREFIX_LIMIT
  {
    assert tree >= 0 ==> IndexOk(td, td.indexes[tree]);
  }

  /** A bound's values have the types of the tree's first columns. */
  lemma BoundTyped(td: TableDef, tree: int, key: Record)
    requires TableOk(td) && -1 <= tree < |td.indexes| && |key.cols| == |key.vals| && BoundFits(td, TreeCols(td, tree), key)
    ensures forall c :: c in TreeCols(td, tree) ==> c in td.cols
    ensures var types := ColTypes(td, TreeCols(td, tree)); |key.vals| <= |types| && Types(key.vals) == types[..|key.vals|]
  {
    TreeKnown(td, tree);
    var cols := TreeCols(td, tree);
    var types := ColTypes(td, cols);
    PrefixKnown(td, cols, key.cols);
    forall i | 0 <= i < |key.vals|
      ensures key.vals[i].Type() == types[i]
    {
      assert key.cols[i] == cols[i];
    }
  }

  /** A bound that is accepted can be encoded: neither its values nor the columns padded for it have type ERROR. */
  predicate Encodable(td: TableDef, tree: int, key: Record, cmp: Cmp)
    requires TableOk(td) && -1 <= tree < |td.indexes| && |key.cols| == |key.vals| && BoundFits(td, TreeCols(td, tree), key)
  {
    BoundTyped(td, tree, key);
    Storable(key.vals) && (cmp.GT? || cmp.LE? ==> Paddable(ColTypes(td, TreeCols(td, tree))[|key.vals|..]))
  }

  /** Whether db_scan gets as far as a first entry: it accepts the bounds, and encoding them does not throw. */
  ghost predicate Starts(td: TableDef, tree: int, cmp1: Cmp, cmp2: Cmp, key1: Record, key2: Record)
    requires TableOk(td) && |key1.cols| == |key1.vals| && |key2.cols| == |key2.vals|
  {
    Accepts(td, tree, cmp1, cmp2, key1, key2) && Encodable(td, tree, key1, cmp1) && Encodable(td, tree, key2, cmp2)
  }

  /** Where a scan starts and what it stops at. */
  function BoundKey(td: TableDef, tree: int, key: Record, cmp: Cmp): Key
    requires TableOk(td) && -1 <= tree < |td.indexes| && |key.cols| == |key.vals| && BoundFits(td, TreeCols(td, tree), key)
    requires Encodable(td, tree, key, cmp)
  {
    BoundTyped(td, tree, key);
    EncodePartial(TreePrefix(td, tree), key.vals, ColTypes(td, TreeCols(td, tree)), cmp)
  }

  /** What db_scan comes to: a scanner that is positioned, its error, or the exception of encoding a bound. */
  datatype ScanStart = Ready | Rejected | Throws

  class Scanner {
    const cmp1: Cmp
    const cmp2: Cmp
    const key1: Record   // where to start; picks the tree
    const key2: Record   // how far to go

    var tree: int        // as Chosen numbers them
    var keyEnd: Key      // key2 encoded
    var iter: BIter?     // null for a scanner that has not been positioned

    constructor (cmp1: Cmp, cmp2: Cmp, key1: Record, key2: Record)
      ensures this.cmp1 == cmp1 && this.cmp2 == cmp2 && this.key1 == key1 && this.key2 == key2 && iter == null
    {
      this.cmp1, this.cmp2, this.key1, this.key2 := cmp1, cmp2, key1, key2;
      tree, keyEnd, iter := -1, [], null;
    }

    ghost predicate Positioned()
      reads this, iter
    {
      iter != null && iter.Valid()
    }

    /** The entries this scanner still has to visit, in the order it will. */
    ghost function Remaining(): seq<Entry>
      reads this, iter
    {
      if iter == null then [] else Rest(iter.Entries(), iter.Index(), cmp1.Forward(), cmp2, keyEnd)
    }

    /**
     * db_scan: choose the tree by key1, check both bounds against it, and go to the first entry. The n-th page read, now
     * or by a later step, finds what views(n) holds.
     */
    method DbScan(views: nat -> Pages, ptr: nat, td: TableDef, ghost root: Root) returns (r: ScanStart)
      requires TableOk(td) && InPlace(root, views) && ptr == RootPage(root)
      requires |key1.cols| == |key1.vals| && |key2.cols| == |key2.vals|
      modifies this
      ensures exists w :: Chosen(td, key1.cols, w) && (!r.Rejected? <==> Accepts(td, w, cmp1, cmp2, key1, key2))
                          && (r.Ready? <==> Starts(td, w, cmp1, cmp2, key1, key2)) && (r.Ready? ==> tree == w)
      ensures r.Ready? ==> Positioned() && fresh(iter) && iter.root == root && iter.views == views
      ensures r.Ready? ==> Starts(td, tree, cmp1, cmp2, key1, key2)
      ensures r.Ready? && root.Rooted? ==>
                IsRange(Remaining(), FlatT(root.t), cmp1, BoundKey(td, tree, key1, cmp1), cmp2, BoundKey(td, tree, key2, cmp2))
      ensures r.Ready? && root.Empty? ==> Remaining() == []
      ensures !r.Ready? ==> iter == null
    {
      hide FlatT, Iterable, Nearest, IsRange, EncodePartial, Chosen, RestForward, RestBackward, TableOk, BIter.Valid, BIter.Index, TreeCols,
        TreePrefix, Paddable, Storable;
      TableSizes(td);
      assert Iterable(root, views(0));
      iter := null;
      var w := FindIndex(td, key1.cols);
      if !(cmp1.Forward() && !cmp2.Forward()) && !(!cmp1.Forward() && cmp2.Forward()) {
        return Rejected;
      }
      if w < -1 {
        return Rejected;
      }
      WinnerInside(td, key1.cols, w);
      TreeKnown(td, w);
      var cols := TreeCols(td, w);
      var fits1 := CheckBound(td, cols, key1);
      if !fits1 {
        return Rejected;
      }
      var fits2 := CheckBound(td, cols, key2);
      if !fits2 {
        return Rejected;
      }
      tree := w;
      BoundTyped(td, w, key1);
      BoundTyped(td, w, key2);
      var types := ColTypes(td, cols);
      var end := EncodeKeyPartial(TreePrefix(td, w), key2.vals, types, cmp2);
      if end.None? {
        return Throws;
      }
      keyEnd := end.value;
      var start := EncodeKeyPartial(TreePrefix(td, w), key1.vals, types, cmp1);
      if start.None? {
        return Throws;
      }
      iter := Seek(views, ptr, start.value, cmp1, root);
      ScanFacts(views(0), root, iter.Index(), cmp1, start.value, cmp2, keyEnd);
      r := Ready;
    }

    /** Is the current entry within the range? */
    method IsValid() returns (b: bool)
      requires iter == null || Positioned()
      ensures b <==> Remaining() != []
    {
      hide FlatT, BIter.Valid, BIter.Index, RestForward, RestBackward, Rest;
      if iter == null {
        return false;
      }
      RestStep(iter.Entries(), iter.Index(), cmp1.Forward(), cmp2, keyEnd);
      b := iter.IsValid();
      if b {
        var key, _ := iter.Deref();
        b := CmpOk(key, cmp2, keyEnd);
      }
    }

    /** The current entry. */
    method Current() returns (key: Key, val: Key)
      requires Positioned() && Remaining() != []
      ensures key == Remaining()[0].key && val == Remaining()[0].val
    {
      hide FlatT, BIter.Valid, BIter.Index, RestForward, RestBackward, Rest;
      RestStep(iter.Entries(), iter.Index(), cmp1.Forward(), cmp2, keyEnd);
      key, val := iter.Deref();
    }

    /** Move toward key2. */
    method Next()
      requires Positioned() && Remaining() != []
      modifies iter
      ensures Positioned() && Remaining() == old(Remaining())[1..]
    {
      hide FlatT, BIter.Valid, BIter.Index, RestForward, RestBackward, Rest;
      RestStep(iter.Entries(), iter.Index(), cmp1.Forward(), cmp2, keyEnd);
      if cmp1.Forward() {
        iter.Next();
      } else {
        iter.Prev();
      }
    }
  }

  lemma WinnerInside(td: TableDef, keys: seq<Name>, w: int)
    requires td.pkeys <= |td.cols| && Chosen(td, keys, w) && w >= -1
    ensures w < |td.indexes|
  {
  }

  lemma ScanFacts(view: Pages, root: Root, i: nat, cmp1: Cmp, k1: Key, cmp2: Cmp, k2: Key)
    requires Iterable(root, view) && cmp1.Forward() != cmp2.Forward()
    requires root.Rooted? ==> Nearest(FlatT(root.t), i, cmp1, k1)
    ensures root.Rooted? ==> IsRange(Rest(FlatT(root.t), i, cmp1.Forward(), cmp2, k2), FlatT(root.t), cmp1, k1, cmp2, k2)
    ensures root.Empty? ==> Rest([], i, cmp1.Forward(), cmp2, k2) == []
  {
    hide Nearest, IsRange, CmpOk;
    if root.Rooted? {
      ShapedFlat(root.t, root.h);
      ScanIsRange(FlatT(root.t), i, cmp1, k1, cmp2, k2);
    }
  }
}
