/** Eight sets on an empty store after which deleting a key that is there overflows the root page. */
module OverflowRuns {
  import opened Bytes
  import opened Nodes
  import opened Entries
  import opened Trees
  import opened TreeEdit
  import opened TreeDeletes
  import opened TreeShapes
  import opened BTrees
  import opened KvTx
  import opened KvStore

  function Long(b: Byte): (k: Key)
    ensures |k| == MAX_KEY
  {
    seq(MAX_KEY, _ => b)
  }

  const LOW: Key := [0]
  const SHORT: Key := [1]

  const SENTINEL := Entry(0, [], [])

  function Low(): Entry { Entry(0, LOW, Long(0)) }

  function Short(): Entry { Entry(0, SHORT, []) }

  /** An entry of the largest size there is; two fill a page. */
  function Big(b: Byte): (e: Entry)
    ensures EntrySize(e) == 2014
  {
    Entry(0, Long(b), Long(b))
  }

  lemma LongOrder(a: Byte, b: Byte)
    requires a < b
    ensures Lt(Long(a), Long(b)) && !Le(Long(b), Long(a))
    ensures 1 < b ==> Lt(SHORT, Long(b)) && Lt(LOW, Long(b))
    ensures Lt([], Long(b))
  {
    assert Long(a)[0] == a && Long(b)[0] == b;
  }

  lemma LowOrder()
    ensures Lt([], LOW) && Lt(LOW, SHORT) && Lt([], SHORT)
  {
  }

  // ------------------------------------------------------------ steps of an insertion

  lemma {:induction false} InsertedLast(es: seq<Entry>, key: Key, val: Key)
    requires AllBelow(es, key)
    ensures Inserted(es, key, val) == es + [Entry(0, key, val)]
  {
    LtIsStrictTotalOrder();
    if es != [] {
      InsertedLast(es[1..], key, val);
    }
  }

  lemma SplitInHalf(es: seq<Entry>)
    requires HEADER + Size(es[..|es| / 2]) <= PAGE_SIZE && HEADER + Size(es[|es| / 2..]) <= PAGE_SIZE
    ensures SplitAt(es) == |es| / 2
  {
    assert LeftBytes(es, |es| / 2) <= PAGE_SIZE && RightBytes(es, |es| / 2) <= PAGE_SIZE;
  }

  /** A leaf whose halves fit is cut there. */
  lemma LeafCut(es: seq<Entry>)
    requires HEADER + Size(es) > PAGE_SIZE
    requires HEADER + Size(es[..|es| / 2]) <= PAGE_SIZE && HEADER + Size(es[|es| / 2..]) <= PAGE_SIZE
    ensures CutTree(Leaf(0, es)) == [Leaf(0, es[..|es| / 2]), Leaf(0, es[|es| / 2..])]
  {
    SplitInHalf(es);
  }

  lemma SizeOne(a: Entry)
    ensures Size([a]) == EntrySize(a)
  {
    SizeSingleton([a]);
  }

  lemma SizeTwo(a: Entry, b: Entry)
    ensures Size([a, b]) == EntrySize(a) + EntrySize(b)
  {
    assert [a, b][1..] == [b];
    SizeOne(b);
  }

  lemma SizeThree(a: Entry, b: Entry, c: Entry)
    ensures Size([a, b, c]) == EntrySize(a) + EntrySize(b) + EntrySize(c)
  {
    assert [a, b, c][1..] == [b, c];
    SizeTwo(b, c);
  }

  /** A key above the last leaf of a two-level tree goes there, and that leaf is cut in two. */
  lemma LastLeafGrows(front: seq<Tree>, es: seq<Entry>, key: Key, val: Key, left: seq<Entry>, right: seq<Entry>)
    requires es != [] && AllBelow(es, key) && left + right == es + [Entry(0, key, val)] && |left| == (|es| + 1) / 2
    requires HEADER + Size(left + right) > PAGE_SIZE && HEADER + Size(left) <= PAGE_SIZE && HEADER + Size(right) <= PAGE_SIZE
    ensures Grown(Inner(0, front + [Leaf(0, es)]), key, val) == Inner(0, front + [Leaf(0, left), Leaf(0, right)])
  {
    hide Size, Inserted, CutTree;
    var kids := front + [Leaf(0, es)];
    var i := |front|;
    assert Links(kids)[i].key == es[0].key && Lt(es[0].key, key);
    assert Find(Links(kids), key) == i;
    InsertedLast(es, key, val);
    var more := left + right;
    assert more[..|more| / 2] == left && more[|more| / 2..] == right;
    LeafCut(more);
    assert kids[..i] == front && kids[i + 1..] == [];
    assert front + [Leaf(0, left), Leaf(0, right)] + [] == front + [Leaf(0, left), Leaf(0, right)];
  }

  /** Adding the next big entry behind a leaf with two of them. */
  lemma BigStep(front: seq<Tree>, b: Byte)
    requires 1 < b < 254
    ensures Grown(Inner(0, front + [Leaf(0, [Big(b), Big(b + 1)])]), Long(b + 2), Long(b + 2)) ==
            Inner(0, front + [Leaf(0, [Big(b)])] + [Leaf(0, [Big(b + 1), Big(b + 2)])])
  {
    hide Size, Grown, Big;
    LongOrder(b, b + 2);
    LongOrder(b + 1, b + 2);
    BigIs(b);
    BigIs(b + 1);
    BigIs(b + 2);
    var left, right := [Big(b)], [Big(b + 1), Big(b + 2)];
    SizeOne(Big(b));
    SizeTwo(Big(b + 1), Big(b + 2));
    SizeAppend(left, right);
    assert left + right == [Big(b), Big(b + 1)] + [Big(b + 2)];
    LastLeafGrows(front, [Big(b), Big(b + 1)], Long(b + 2), Long(b + 2), left, right);
    assert front + [Leaf(0, left)] + [Leaf(0, right)] == front + [Leaf(0, left), Leaf(0, right)];
  }

  lemma BigIs(b: Byte)
    ensures Big(b) == Entry(0, Long(b), Long(b)) && EntrySize(Big(b)) == 2014
  {
  }

  // ------------------------------------------------------------ the root page

  lemma {:induction false} SizeOfLong(es: seq<Entry>)
    requires forall i :: 0 <= i < |es| ==> |es[i].key| == MAX_KEY && es[i].val == []
    ensures Size(es) == (ENTRY_OVERHEAD + MAX_KEY) * |es|
  {
    if es != [] {
      SizeOfLong(es[1..]);
    }
  }

  /** The leaves of a root: the sentinel's, the one that starts with SHORT, and others that start with long keys. */
  ghost predicate Fan(kids: seq<Tree>)
  {
    && |kids| >= 2 && FirstKey(kids[0]) == [] && FirstKey(kids[1]) == SHORT
    && forall i :: 2 <= i < |kids| ==> |FirstKey(kids[i])| == MAX_KEY
  }

  lemma FanSize(kids: seq<Tree>)
    requires Fan(kids)
    ensures NBytes(NodeOf(Inner(0, kids))) == 4 + 14 + 15 + 1014 * (|kids| - 2)
  {
    hide Size, FirstKey, Long;
    var links := Links(kids);
    SizeCut(links, 2);
    assert links[..2] == [links[0], links[1]];
    SizeTwo(links[0], links[1]);
    SizeOfLong(links[2..]);
  }

  lemma FanFits(kids: seq<Tree>)
    requires Fan(kids) && |kids| <= 6
    ensures CutTree(Inner(0, kids)) == [Inner(0, kids)]
  {
    hide Fan;
    FanSize(kids);
  }

  // ------------------------------------------------------------ the eight sets

  function LowLeaf(): Tree { Leaf(0, [SENTINEL, Low()]) }

  function ShortLeaf(): Tree { Leaf(0, [Short(), Big(2)]) }

  /** The tree after the fifth set and n more. */
  function Wide(n: nat): seq<Tree>
    requires n <= 3
  {
    [LowLeaf(), ShortLeaf()] + seq(n, i requires 0 <= i < n => Leaf(0, [Big(3 + i)])) + [Leaf(0, [Big(3 + n), Big(4 + n)])]
  }

  lemma WideIsFan(n: nat)
    requires n <= 3
    ensures |Wide(n)| == 3 + n && Fan(Wide(n))
    ensures Wide(n)[0] == LowLeaf() && Wide(n)[1] == ShortLeaf()
    ensures forall i :: 2 <= i < |Wide(n)| ==> FirstKey(Wide(n)[i]) == Long(i + 1)
  {
    hide Long;
    forall i | 2 <= i < |Wide(n)|
      ensures FirstKey(Wide(n)[i]) == Long(i + 1)
    {
    }
  }

  lemma FirstSets()
    ensures GrownRoot(Root.Empty, LOW, Long(0)) == Rooted(Leaf(0, [SENTINEL, Low()]), 0)
    ensures GrownRoot(Rooted(Leaf(0, [SENTINEL, Low()]), 0), SHORT, []) == Rooted(Leaf(0, [SENTINEL, Low(), Short()]), 0)
  {
    hide Long;
    var es := [SENTINEL, Low()];
    LowOrder();
    InsertedLast(es, SHORT, []);
    SizeThree(SENTINEL, Low(), Short());
    assert es + [Short()] == [SENTINEL, Low(), Short()];
  }

  lemma ThirdSet()
    ensures GrownRoot(Rooted(Leaf(0, [SENTINEL, Low(), Short()]), 0), Long(2), Long(2)) ==
            Rooted(Leaf(0, [SENTINEL, Low(), Short(), Big(2)]), 0)
  {
    hide Size;
    var es := [SENTINEL, Low(), Short()];
    LongOrder(1, 2);
    InsertedLast(es, Long(2), Long(2));
    SizeThree(SENTINEL, Low(), Short());
    SizeOne(Big(2));
    SizeAppend(es, [Big(2)]);
    assert es + [Big(2)] == [SENTINEL, Low(), Short(), Big(2)];
  }

  /** The leaf of five entries is cut behind the second. */
  lemma FourthSet()
    ensures GrownRoot(Rooted(Leaf(0, [SENTINEL, Low(), Short(), Big(2)]), 0), Long(3), Long(3)) ==
            Rooted(Inner(0, [LowLeaf(), Leaf(0, [Short(), Big(2), Big(3)])]), 1)
  {
    hide Size, CutTree;
    var es := [SENTINEL, Low(), Short(), Big(2)];
    LongOrder(1, 3);
    LongOrder(2, 3);
    InsertedLast(es, Long(3), Long(3));
    var left, right := [SENTINEL, Low()], [Short(), Big(2), Big(3)];
    var more := left + right;
    assert es + [Big(3)] == more && more[..|more| / 2] == left && more[|more| / 2..] == right;
    SizeTwo(SENTINEL, Low());
    SizeThree(Short(), Big(2), Big(3));
    SizeAppend(left, right);
    LeafCut(more);
  }

  lemma FifthSet()
    ensures GrownRoot(Rooted(Inner(0, [LowLeaf(), Leaf(0, [Short(), Big(2), Big(3)])]), 1), Long(4), Long(4)) == Rooted(Inner(0, Wide(0)), 1)
  {
    hide Size, Grown, CutTree, Big, Short, Fan;
    var es := [Short(), Big(2), Big(3)];
    var left, right := [Short(), Big(2)], [Big(3), Big(4)];
    EntriesBelowFour();
    SizeTwo(Short(), Big(2));
    SizeTwo(Big(3), Big(4));
    SizeAppend(left, right);
    assert left + right == es + [Big(4)];
    BigIs(4);
    LastLeafGrows([LowLeaf()], es, Long(4), Long(4), left, right);
    assert [LowLeaf()] + [Leaf(0, es)] == [LowLeaf(), Leaf(0, es)];
    assert [LowLeaf()] + [Leaf(0, left), Leaf(0, right)] == Wide(0);
    WideIsFan(0);
    FanFits(Wide(0));
  }

  lemma EntriesBelowFour()
    ensures AllBelow([Short(), Big(2), Big(3)], Long(4)) && EntrySize(Short()) == 15 && EntrySize(Big(2)) == EntrySize(Big(3)) == EntrySize(Big(4)) == 2014
  {
    LongOrder(2, 4);
    LongOrder(3, 4);
  }

  lemma LaterSet(n: nat)
    requires n <= 2
    ensures GrownRoot(Rooted(Inner(0, Wide(n)), 1), Long(5 + n), Long(5 + n)) == Rooted(Inner(0, Wide(n + 1)), 1)
  {
    hide Size, Grown, CutTree, Big, Fan;
    var front := [LowLeaf(), ShortLeaf()] + seq(n, i requires 0 <= i < n => Leaf(0, [Big(3 + i)]));
    assert Wide(n) == front + [Leaf(0, [Big(3 + n), Big(4 + n)])];
    BigStep(front, 3 + n);
    assert Wide(n + 1) == front + [Leaf(0, [Big(3 + n)])] + [Leaf(0, [Big(4 + n), Big(5 + n)])];
    WideIsFan(n + 1);
    FanFits(Wide(n + 1));
  }

  // ------------------------------------------------------------ the deletion

  lemma {:induction false} FindAt(es: seq<Entry>, key: Key, n: nat)
    requires n < |es| && Le(es[n].key, key) && forall i :: n < i < |es| ==> !Le(es[i].key, key)
    ensures Find(es, key) == n
    decreases |es|
  {
    if |es| > n + 1 {
      FindAt(es[..|es| - 1], key, n);
    }
  }

  lemma ShortLeafAfter()
    ensures AfterBytes(ShortLeaf(), SHORT) == 2018 && Removed(FlatT(ShortLeaf()), SHORT) == [Big(2)]
  {
    var es := [Short(), Big(2)];
    LongOrder(1, 2);
    FindAt(es, SHORT, 0);
    SizeTwo(Short(), Big(2));
    assert es[1..] == [Big(2)];
  }

  /** The separator SHORT would have to become a key of 1000 bytes, for which the root page has no room. */
  lemma WideOverflows()
    ensures !RootDeleteFits(Rooted(Inner(0, Wide(3)), 1), SHORT)
  {
    hide Size, AfterBytes, Removed, FlatT, Long, Fan;
    var kids := Wide(3);
    WideIsFan(3);
    FanSize(kids);
    var links := Links(kids);
    assert links[1].key == SHORT by {
      ShortFirst();
    }
    forall i | 1 < i < |links|
      ensures !Le(links[i].key, SHORT)
    {
      LongOrder(1, i + 1);
      LtIsStrictTotalOrder();
    }
    FindAt(links, SHORT, 1);
    ShortLeafAfter();
    BigIs(2);
    assert kids[1] == ShortLeaf();
  }

  lemma ShortFirst()
    ensures FirstKey(ShortLeaf()) == SHORT
  {
  }

  lemma KeysFit()
    ensures KeyInLimit(LOW) && KeyInLimit(SHORT) && forall b: Byte :: KeyInLimit(Long(b)) && |Long(b)| <= MAX_VAL
  {
    hide Long;
  }

  method FourSets(kv: KV, tx: KVTX)
    requires kv.Valid() && kv.Running(tx) && kv.TxShape() == Root.Empty
    modifies kv`s, tx`root, tx.free`state, tx.free`g, tx.pages
    ensures kv.Valid() && kv.Running(tx) && SHORT in kv.TxMap()
    ensures kv.TxShape() == Rooted(Inner(0, [LowLeaf(), Leaf(0, [Short(), Big(2), Big(3)])]), 1)
  {
    hide KV.Valid, KV.Running, KV.TxShape, KV.TxMap, GrownRoot, Short, Low, Big, Long, LowLeaf, KeyInLimit;
    KeysFit();
    FirstSets();
    ThirdSet();
    FourthSet();
    var ok := kv.Set(tx, LOW, Long(0));
    ok := kv.Set(tx, SHORT, []);
    ok := kv.Set(tx, Long(2), Long(2));
    ok := kv.Set(tx, Long(3), Long(3));
  }

  method FourMore(kv: KV, tx: KVTX)
    requires kv.Valid() && kv.Running(tx) && SHORT in kv.TxMap()
    requires kv.TxShape() == Rooted(Inner(0, [LowLeaf(), Leaf(0, [Short(), Big(2), Big(3)])]), 1)
    modifies kv`s, tx`root, tx.free`state, tx.free`g, tx.pages
    ensures kv.Valid() && kv.Running(tx) && SHORT in kv.TxMap() && kv.TxShape() == Rooted(Inner(0, Wide(3)), 1)
  {
    hide KV.Valid, KV.Running, KV.TxShape, KV.TxMap, GrownRoot, Wide, Short, Big, Long, LowLeaf, KeyInLimit;
    KeysFit();
    FifthSet();
    LaterSet(0);
    LaterSet(1);
    LaterSet(2);
    var ok := kv.Set(tx, Long(4), Long(4));
    ok := kv.Set(tx, Long(5), Long(5));
    ok := kv.Set(tx, Long(6), Long(6));
    ok := kv.Set(tx, Long(7), Long(7));
  }

  /** On an empty store the eight sets succeed, and then deleting a key that one of them bound overflows. */
  method ReachOverflow(kv: KV) returns (r: Removal)
    requires kv.Valid() && kv.s.writer.Idle? && kv.s.versions != [] && kv.s.Current().rt == Root.Empty
    modifies kv`s
    ensures r.Aborted?
  {
    hide KV.Valid, KV.Running, KV.TxShape, KV.TxMap, RootDeleteFits, Wide, KeyInLimit;
    var tx := kv.Begin();
    FourSets(kv, tx);
    FourMore(kv, tx);
    KeysFit();
    WideOverflows();
    r := kv.Del(tx, SHORT);
  }
}
