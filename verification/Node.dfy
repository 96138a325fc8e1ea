/** A B+tree node as a value, its size on the page, and the builders of src/storage/btree.cpp. */
module Nodes {
  import opened Bytes

  const PAGE_SIZE: nat := 4096
  const MAX_KEY: nat := 1000
  const MAX_VAL: nat := 1000

  // Child pointer, offset slot, key length and value length of one entry.
  const ENTRY_OVERHEAD: nat := 8 + 2 + 2 + 2

  // Type and key count.
  const HEADER: nat := 4

  /** One link of an internal node (val is empty) or one pair of a leaf (ptr is 0). */
  datatype Entry = Entry(ptr: nat, key: Key, val: Key)

  datatype Node = Node(leaf: bool, es: seq<Entry>)

  function EntrySize(e: Entry): nat
  {
    ENTRY_OVERHEAD + |e.key| + |e.val|
  }

  function Size(es: seq<Entry>): nat
  {
    if es == [] then 0 else EntrySize(es[0]) + Size(es[1..])
  }

  /** The bytes a node occupies. */
  function NBytes(n: Node): nat
  {
    HEADER + Size(n.es)
  }

  predicate WithinLimits(es: seq<Entry>)
  {
    forall i :: 0 <= i < |es| ==> |es[i].key| <= MAX_KEY && |es[i].val| <= MAX_VAL
  }

  ghost predicate Sorted(es: seq<Entry>)
  {
    forall i, j :: 0 <= i < j < |es| ==> Lt(es[i].key, es[j].key)
  }

  lemma {:induction false} SizeAppend(a: seq<Entry>, b: seq<Entry>)
    ensures Size(a + b) == Size(a) + Size(b)
  {
    if a == [] {
      assert a + b == b;
    } else {
      assert (a + b)[1..] == a[1..] + b;
      SizeAppend(a[1..], b);
    }
  }

  /** Taking one more entry adds exactly its size. */
  lemma SizeStep(es: seq<Entry>, i: nat)
    requires i < |es|
    ensures Size(es[..i + 1]) == Size(es[..i]) + EntrySize(es[i])
  {
    assert es[..i + 1] == es[..i] + [es[i]];
    SizeAppend(es[..i], [es[i]]);
  }

  lemma SizeCut(es: seq<Entry>, i: nat)
    requires i <= |es|
    ensures Size(es) == Size(es[..i]) + Size(es[i..])
  {
    assert es == es[..i] + es[i..];
    SizeAppend(es[..i], es[i..]);
  }

  // ---------------------------------------------------------------- lookup

  /** Keys up to position r are at most key, and those behind it are larger. */
  ghost predicate IsLookup(es: seq<Entry>, key: Key, r: int)
  {
    && -1 <= r < |es|
    && (forall i :: 0 <= i <= r ==> Le(es[i].key, key))
    && (forall i :: r < i < |es| ==> Lt(key, es[i].key))
  }

  /** Binary search; the early exit on an exact match is the source's. */
  method LookupLe(n: Node, key: Key) returns (r: int)
    requires Sorted(n.es)
    ensures IsLookup(n.es, key, r)
  {
    LtIsStrictTotalOrder();
    var lo, hi := 0, |n.es| - 1;
    r := -1;
    while lo <= hi
      invariant 0 <= lo <= hi + 1 <= |n.es|
      invariant r == lo - 1
      invariant forall i :: 0 <= i < lo ==> Lt(n.es[i].key, key)
      invariant forall i :: hi < i < |n.es| ==> Lt(key, n.es[i].key)
    {
      var mid := lo + (hi - lo) / 2;
      var cur := n.es[mid].key;
      if cur == key {
        return mid;
      }
      if Lt(cur, key) {
        r := mid;
        lo := mid + 1;
      } else {
        hi := mid - 1;
      }
    }
  }

  // -------------------------------------------------------------- builders

  function LeafInsert(node: Node, idx: nat, key: Key, val: Key): Node
    requires idx <= |node.es|
  {
    Node(true, node.es[..idx] + [Entry(0, key, val)] + node.es[idx..])
  }

  function LeafUpdate(node: Node, idx: nat, key: Key, val: Key): Node
    requires idx < |node.es|
  {
    Node(true, node.es[..idx] + [Entry(0, key, val)] + node.es[idx + 1..])
  }

  function LeafDelete(node: Node, idx: nat): Node
    requires idx < |node.es|
  {
    Node(true, node.es[..idx] + node.es[idx + 1..])
  }

  function NodeMerge(left: Node, right: Node): Node
  {
    Node(left.leaf, left.es + right.es)
  }

  // ----------------------------------------------------------------- split

  /** What node_split may be given: at least 2 entries, each within half a page, at most one of them too many. */
  ghost predicate Splittable(n: Node)
  {
    && |n.es| >= 2
    && WithinLimits(n.es)
    && NBytes(n) <= PAGE_SIZE + ENTRY_OVERHEAD + MAX_KEY + MAX_VAL
  }

  /** The first k entries and the rest, as node_split counts them: both include a header. */
  function LeftBytes(es: seq<Entry>, k: nat): nat
    requires k <= |es|
  {
    HEADER + Size(es[..k])
  }

  function RightBytes(es: seq<Entry>, k: nat): nat
    requires k <= |es|
  {
    HEADER + Size(es[k..])
  }

  lemma SplitPoint(es: seq<Entry>, k: nat)
    requires k <= |es|
    ensures LeftBytes(es, k) + RightBytes(es, k) == 2 * HEADER + Size(es)
    ensures k == 0 ==> LeftBytes(es, k) == HEADER
    ensures k == |es| ==> RightBytes(es, k) == HEADER
  {
    SizeCut(es, k);
  }

  lemma Halves(node: Node, k: nat)
    requires k <= |node.es|
    ensures NBytes(Node(node.leaf, node.es[..k])) == LeftBytes(node.es, k)
    ensures NBytes(Node(node.leaf, node.es[k..])) == RightBytes(node.es, k)
    ensures node.es[..k] + node.es[k..] == node.es
  {
  }

  /** Moving the split point by one entry moves at most half a page. */
  lemma SplitPointStep(es: seq<Entry>, k: nat)
    requires k < |es| && WithinLimits(es)
    ensures LeftBytes(es, k) < LeftBytes(es, k + 1)
    ensures 2 * (LeftBytes(es, k + 1) - LeftBytes(es, k)) <= PAGE_SIZE - HEADER
    ensures RightBytes(es, k) - RightBytes(es, k + 1) == LeftBytes(es, k + 1) - LeftBytes(es, k)
  {
    SizeStep(es, k);
    SplitPoint(es, k);
    SplitPoint(es, k + 1);
  }

  /** The split point: moved left from k until the left half fits, then right until the right half does. */
  function ShrunkTo(es: seq<Entry>, k: nat): (n: nat)
    requires k <= |es|
    ensures n <= k
  {
    if k > 0 && LeftBytes(es, k) > PAGE_SIZE then ShrunkTo(es, k - 1) else k
  }

  function GrownTo(es: seq<Entry>, k: nat): (n: nat)
    requires k <= |es|
    ensures n <= |es|
    decreases |es| - k
  {
    if k < |es| && RightBytes(es, k) > PAGE_SIZE then GrownTo(es, k + 1) else k
  }

  function SplitAt(es: seq<Entry>): (n: nat)
    ensures n <= |es|
  {
    GrownTo(es, ShrunkTo(es, |es| / 2))
  }

  /** The split point is the middle, or as near to it as lets both halves fit. */
  lemma SplitNearMiddle(es: seq<Entry>)
    requires WithinLimits(es) && HEADER + Size(es) <= PAGE_SIZE + ENTRY_OVERHEAD + MAX_KEY + MAX_VAL
    ensures var n, half := SplitAt(es), |es| / 2;
            && (n < half ==> HEADER + Size(es[..n + 1]) > PAGE_SIZE)
            && (n > half ==> HEADER + Size(es[n - 1..]) > PAGE_SIZE)
            && (HEADER + Size(es[..half]) <= PAGE_SIZE && HEADER + Size(es[half..]) <= PAGE_SIZE ==> n == half)
  {
    hide Size, WithinLimits;
    var half := |es| / 2;
    var shrunk := ShrunkTo(es, half);
    ShrunkNoFurther(es, half);
    GrownNoFurther(es, shrunk);
    if shrunk < half {
      SplitPointStep(es, shrunk);
      SplitPoint(es, shrunk);
      assert RightBytes(es, shrunk) <= PAGE_SIZE;
    }
  }

  lemma {:induction false} ShrunkNoFurther(es: seq<Entry>, k: nat)
    requires k <= |es|
    ensures ShrunkTo(es, k) < k ==> LeftBytes(es, ShrunkTo(es, k) + 1) > PAGE_SIZE && LeftBytes(es, k) > PAGE_SIZE
  {
    if k > 0 && LeftBytes(es, k) > PAGE_SIZE {
      ShrunkNoFurther(es, k - 1);
    }
  }

  lemma {:induction false} GrownNoFurther(es: seq<Entry>, k: nat)
    requires k <= |es|
    ensures GrownTo(es, k) >= k && (GrownTo(es, k) > k ==> RightBytes(es, GrownTo(es, k) - 1) > PAGE_SIZE && RightBytes(es, k) > PAGE_SIZE)
    decreases |es| - k
  {
    if k < |es| && RightBytes(es, k) > PAGE_SIZE {
      GrownNoFurther(es, k + 1);
    }
  }

  /**
   * Two halves, each non-empty and within a page, that concatenate to the original. shrunk and grew record which of
   * the two adjusting loops ran: never both.
   */
  method NodeSplit(node: Node) returns (left: Node, right: Node, ghost shrunk: bool, ghost grew: bool)
    requires Splittable(node)
    ensures left.es + right.es == node.es
    ensures left.leaf == node.leaf && right.leaf == node.leaf
    ensures left.es != [] && right.es != []
    ensures NBytes(left) <= PAGE_SIZE && NBytes(right) <= PAGE_SIZE
    ensures !(shrunk && grew) && |left.es| == SplitAt(node.es)
  {
    hide Size, LeftBytes, RightBytes;
    var nleft := |node.es| / 2;
    shrunk, grew := false, false;
    SplitPoint(node.es, 0);
    SplitPoint(node.es, |node.es|);
    var leftBytes := LeftBytes(node.es, nleft);
    while leftBytes > PAGE_SIZE
      invariant 1 <= nleft < |node.es|
      invariant leftBytes == LeftBytes(node.es, nleft)
      invariant shrunk ==> LeftBytes(node.es, nleft + 1) > PAGE_SIZE
      invariant ShrunkTo(node.es, nleft) == ShrunkTo(node.es, |node.es| / 2)
      decreases nleft
    {
      SplitPointStep(node.es, nleft - 1);
      shrunk := true;
      nleft := nleft - 1;
      leftBytes := LeftBytes(node.es, nleft);
    }

    SplitPoint(node.es, nleft);
    SplitPointStep(node.es, nleft);
    var rightBytes := NBytes(node) - leftBytes + HEADER;
    while rightBytes > PAGE_SIZE
      invariant 1 <= nleft < |node.es|
      invariant leftBytes == LeftBytes(node.es, nleft) <= PAGE_SIZE
      invariant rightBytes == RightBytes(node.es, nleft)
      invariant shrunk ==> rightBytes <= PAGE_SIZE
      invariant grew ==> !shrunk
      invariant GrownTo(node.es, nleft) == SplitAt(node.es)
      decreases |node.es| - nleft
    {
      SplitPointStep(node.es, nleft);
      SplitPoint(node.es, nleft);
      grew := true;
      nleft := nleft + 1;
      leftBytes := LeftBytes(node.es, nleft);
      rightBytes := NBytes(node) - leftBytes + HEADER;
      SplitPoint(node.es, nleft);
    }
    Halves(node, nleft);
    left := Node(node.leaf, node.es[..nleft]);
    right := Node(node.leaf, node.es[nleft..]);
  }

  lemma SizeSingleton(es: seq<Entry>)
    requires |es| == 1
    ensures Size(es) == EntrySize(es[0])
  {
    assert es[1..] == [];
  }

  lemma OversizedHasTwoEntries(n: Node)
    requires WithinLimits(n.es) && NBytes(n) > PAGE_SIZE
    ensures |n.es| >= 2
  {
    if |n.es| == 1 {
      SizeSingleton(n.es);
    }
  }

  /** node_split_if_needed: the node itself, or its two halves. */
  method SplitIfNeeded(n: Node) returns (parts: seq<Node>)
    requires n.es != [] && WithinLimits(n.es)
    requires NBytes(n) <= PAGE_SIZE + ENTRY_OVERHEAD + MAX_KEY + MAX_VAL
    ensures |parts| == 1 ==> parts[0] == n
    ensures |parts| == 2 ==> parts[0].es + parts[1].es == n.es && |parts[0].es| == SplitAt(n.es)
    ensures 1 <= |parts| <= 2 && (|parts| == 1 <==> NBytes(n) <= PAGE_SIZE)
    ensures forall i :: 0 <= i < |parts| ==> parts[i].leaf == n.leaf && parts[i].es != [] && NBytes(parts[i]) <= PAGE_SIZE
  {
    if NBytes(n) <= PAGE_SIZE {
      return [n];
    }
    OversizedHasTwoEntries(n);
    var left, right, _, _ := NodeSplit(n);
    return [left, right];
  }
}
