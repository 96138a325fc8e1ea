/**
 * The unrolled linked list of freed pages, stored in the pages it manages (include/storage/freelist.h,
 * src/storage/freelist.cpp), as a value: what each operation does to it, and what it keeps of any list saved earlier.
 */
module FreeLists {
  import opened Nodes

  // (4096 - 8) / 16 slots a node.
  const CAP: nat := 255

  /** The node, counted from the first ever, and the slot within it that position p lies in. */
  function Block(p: nat): nat { p / CAP }

  function Slot(p: nat): nat { p % CAP }

  /** A freed page and the version whose update freed it. */
  datatype Item = Item(ptr: nat, ver: nat)

  datatype ListBytes = ListBytes(next: nat, slots: seq<Item>)

  /** A page read as a list node. */
  type LNode = n: ListBytes | |n.slots| == CAP witness ListBytes(0, seq(CAP, _ => Item(0, 0)))

  function Zeros(n: nat): (r: seq<Item>)
    ensures |r| == n
  {
    seq(n, _ => Item(0, 0))
  }

  /**
   * The bytes of a page. A tree page can be read as a list node too, since a reused page keeps its stale bytes until
   * they are overwritten; asList is whatever that reading yields.
   */
  datatype Page = TreePage(node: Node, asList: LNode) | ListPage(list: LNode)
  {
    function AsList(): LNode
    {
      if TreePage? then asList else list
    }
  }

  type Pages = map<nat, Page>

  /** A page of zeros, read as a list node. */
  function ZeroPage(): Page
  {
    ListPage(ListBytes(0, Zeros(CAP)))
  }

  /** p stores node in view. */
  ghost predicate HasNode(view: Pages, p: nat, node: Node)
  {
    p in view && view[p].TreePage? && view[p].node == node
  }

  /** None of these pages differs between the two views. */
  ghost predicate Unchanged(pages: set<nat>, before: Pages, after: Pages)
  {
    forall p :: p in pages && p in before ==> p in after && after[p] == before[p]
  }

  /** The part kept in the meta page. */
  datatype FLState = FLState(headPage: nat, headSeq: nat, tailPage: nat, tailSeq: nat)

  // ------------------------------------------------------- the list as a value

  /** What a page is used for. Transit is a drained list node on its way back into the list. */
  datatype Role = Meta | Held | ListNode(block: nat) | Free(pos: nat) | Transit

  /**
   * Positions count up forever: position p lives in slot p % CAP of the node of block p / CAP. Items are live from
   * head up to tail, nodes from block Block(head) up to last. role partitions the pages below count.
   */
  datatype Lists = Lists(head: nat, tail: nat, last: nat, items: map<nat, Item>, nodes: map<nat, nat>,
                         role: map<nat, Role>, count: nat)
  {
    predicate LiveItem(p: nat) { head <= p < tail }

    predicate LiveNode(b: nat) { Block(head) <= b <= last }

    /** The tail node has a free slot. */
    predicate HasRoom() { Block(tail) == last }

    /** p is a free page, freed at version w or later. */
    predicate FreedSince(p: nat, w: nat)
    {
      p in role && role[p].Free? && role[p].pos in items && items[role[p].pos].ver >= w
    }
  }

  /** Every page below count has exactly one role, and the list agrees with the roles. */
  ghost predicate Partitioned(g: Lists)
  {
    && (forall p: nat :: p in g.role <==> p < g.count)
    && (forall p :: p in g.role ==> (g.role[p].Meta? <==> p == 0))
    && (forall b :: g.LiveNode(b) ==> b in g.nodes && g.nodes[b] in g.role && g.role[g.nodes[b]] == ListNode(b))
    && (forall p :: p in g.role && g.role[p].ListNode? ==> g.LiveNode(g.role[p].block) && g.nodes[g.role[p].block] == p)
    && (forall i :: g.LiveItem(i) ==> i in g.items && g.items[i].ptr in g.role && g.role[g.items[i].ptr] == Free(i))
    && (forall p :: p in g.role && g.role[p].Free? ==> g.LiveItem(g.role[p].pos) && g.items[g.role[p].pos].ptr == p)
  }

  /** Well-formed as of an update running at version: items are in version order, none from the future. */
  ghost predicate Good(g: Lists, version: nat)
  {
    && g.head <= g.tail
    && Block(g.head) <= g.last
    && g.last * CAP <= g.tail <= (g.last + 1) * CAP
    && Partitioned(g)
    && (forall i, j :: g.LiveItem(i) && g.LiveItem(j) && i <= j ==> g.items[i].ver <= g.items[j].ver)
    && (forall i :: g.LiveItem(i) ==> g.items[i].ver <= version)
  }

  /** The node of block b links to the next one. */
  ghost predicate NextStored(view: Pages, g: Lists, b: nat)
  {
    && b in g.nodes && g.nodes[b] in view && b + 1 in g.nodes
    && view[g.nodes[b]].AsList().next == g.nodes[b + 1]
  }

  /** The item at position i is in its slot. */
  ghost predicate ItemStored(view: Pages, g: Lists, i: nat)
  {
    && i in g.items && Block(i) in g.nodes && g.nodes[Block(i)] in view
    && view[g.nodes[Block(i)]].AsList().slots[Slot(i)] == g.items[i]
  }

  /** The pages store the list: linked nodes, and every live item in its slot. */
  ghost predicate Stores(view: Pages, g: Lists)
  {
    && (forall p :: p in g.role && p != 0 ==> p in view)
    && (forall b: nat :: g.LiveNode(b) && b < g.last ==> NextStored(view, g, b))
    && (forall i: nat :: g.LiveItem(i) ==> ItemStored(view, g, i))
  }

  /** The live items, oldest first. */
  ghost function Queue(g: Lists): (q: seq<Item>)
    requires forall i :: g.LiveItem(i) ==> i in g.items
    requires g.head <= g.tail
  {
    seq(g.tail - g.head, i requires 0 <= i < g.tail - g.head => assert g.LiveItem(g.head + i); g.items[g.head + i])
  }

  // ------------------------------------------------------- what a saved list still relies on

  /** A page that s uses, or has free but must not hand out because it was freed at version keep or later. */
  ghost predicate Needed(s: Lists, p: nat, keep: nat)
  {
    p in s.role && (s.role[p].Held? || s.role[p].ListNode? || s.FreedSince(p, keep))
  }

  /** Two images of the node of block b that agree on every slot below position tail, and on next if linked. */
  ghost predicate SameBelow(a: LNode, b: LNode, block: nat, tail: nat, linked: bool)
  {
    && (forall i :: 0 <= i < CAP && block * CAP + i < tail ==> a.slots[i] == b.slots[i])
    && (linked ==> a.next == b.next)
  }

  /** page c still serves s at p, where s was stored in sv. */
  ghost predicate Serves(s: Lists, sv: Pages, p: nat, c: Page)
    requires p in s.role && p in sv
  {
    if s.role[p].ListNode? then
      SameBelow(sv[p].AsList(), c.AsList(), s.role[p].block, s.tail, s.role[p].block < s.last)
    else
      c == sv[p]
  }

  /**
   * g, stored in view, has kept everything s needs: its pages are still in their role or were freed at version
   * freedAt or later, pages freed at keep or later are still free, and none of these pages changed in a way s sees.
   */
  ghost predicate Keeps(s: Lists, sv: Pages, g: Lists, view: Pages, keep: nat, freedAt: nat)
  {
    && s.head <= g.head && s.tail <= g.tail && s.last <= g.last && s.count <= g.count
    && (forall p :: Needed(s, p, keep) ==>
          && p in sv && p in view && p in g.role
          && Serves(s, sv, p, view[p])
          && KeepsRole(s, g, p, freedAt))
  }

  ghost predicate KeepsRole(s: Lists, g: Lists, p: nat, freedAt: nat)
    requires p in s.role && p in g.role
  {
    || (g.role[p] == s.role[p] && (s.role[p].Free? ==>
          s.role[p].pos in s.items && s.role[p].pos in g.items && s.items[s.role[p].pos] == g.items[s.role[p].pos]))
    || (!s.role[p].Free? && (g.FreedSince(p, freedAt) || g.role[p].Transit?))
  }

  lemma KeepsReflexive(s: Lists, sv: Pages, version: nat, keep: nat)
    requires Good(s, version) && Stores(sv, s)
    ensures Keeps(s, sv, s, sv, keep, version)
  {
  }

  /** Keeping is transitive when the later update neither reuses nor hides anything the first list needs. */
  lemma KeepsTransitive(a: Lists, av: Pages, b: Lists, bv: Pages, c: Lists, cv: Pages, keep: nat, minReader: nat, version: nat)
    requires Keeps(a, av, b, bv, keep, keep) && Keeps(b, bv, c, cv, minReader, version)
    requires minReader <= keep <= version
    requires forall p :: p in b.role ==> !b.role[p].Transit?
    ensures Keeps(a, av, c, cv, keep, keep)
  {
    forall p | Needed(a, p, keep)
      ensures p in cv && p in c.role && Serves(a, av, p, cv[p]) && KeepsRole(a, c, p, keep)
    {
      assert Needed(b, p, minReader);
    }
  }

  // ------------------------------------------------------- the steps every operation is made of

  /** Everything a running update maintains: s and sv are the list it began on and the pages it began on. */
  ghost predicate Running(g: Lists, view: Pages, s: Lists, sv: Pages, minReader: nat, version: nat)
  {
    && minReader <= version
    && Good(g, version)
    && Stores(view, g)
    && Partitioned(s)
    && Keeps(s, sv, g, view, minReader, version)
  }

  /** Take the oldest item; a node drained by that is in transit. */
  ghost function Popped(g: Lists): Lists
    requires g.head in g.items && Block(g.head) in g.nodes
  {
    var role := g.role[g.items[g.head].ptr := Held];
    g.(head := g.head + 1,
       role := if Slot(g.head + 1) == 0 then role[g.nodes[Block(g.head)] := Transit] else role)
  }

  ghost predicate CanPop(g: Lists, version: nat, minReader: nat)
  {
    && Good(g, version)
    && g.head < g.tail && g.LiveItem(g.head) && g.items[g.head].ver < minReader
    && (g.HasRoom() || g.items[g.tail - 1].ver >= minReader)
  }

  /** Popping never drains the tail node of a full list, since its newest item is not reusable yet. */
  lemma PopStaysBelowLast(g: Lists, version: nat, minReader: nat)
    requires CanPop(g, version, minReader)
    ensures Block(g.head) in g.nodes
    ensures Block(g.head + 1) <= g.last
  {
    assert g.LiveNode(Block(g.head)) && g.LiveItem(g.tail - 1);
  }

  lemma PopNodes(g: Lists, version: nat, minReader: nat)
    requires CanPop(g, version, minReader)
    ensures Block(g.head) in g.nodes
    ensures forall b: nat :: Popped(g).LiveNode(b) ==> b in g.nodes && g.nodes[b] in g.role && Popped(g).role[g.nodes[b]] == ListNode(b)
    ensures forall b: nat :: Popped(g).LiveNode(b) ==> g.LiveNode(b) && (Slot(g.head + 1) == 0 ==> b != Block(g.head))
    ensures forall b: nat :: g.LiveNode(b) && !(Slot(g.head + 1) == 0 && b == Block(g.head)) ==> Popped(g).LiveNode(b)
  {
    PopStaysBelowLast(g, version, minReader);
    assert g.LiveNode(Block(g.head));
    assert Block(g.head + 1) == if Slot(g.head + 1) == 0 then Block(g.head) + 1 else Block(g.head);
    forall b: nat | Popped(g).LiveNode(b)
      ensures b in g.nodes && g.nodes[b] in g.role && Popped(g).role[g.nodes[b]] == ListNode(b)
    {
      assert g.LiveNode(b);
    }
  }

  lemma PopPartitioned(g: Lists, version: nat, minReader: nat)
    requires CanPop(g, version, minReader)
    ensures Block(g.head) in g.nodes && Partitioned(Popped(g))
  {
    PopNodes(g, version, minReader);
    assert forall i: nat :: Popped(g).LiveItem(i) ==> g.LiveItem(i);
  }

  lemma PopGood(g: Lists, version: nat, minReader: nat)
    requires CanPop(g, version, minReader)
    ensures Block(g.head) in g.nodes && Good(Popped(g), version)
  {
    PopStaysBelowLast(g, version, minReader);
    PopPartitioned(g, version, minReader);
    hide Partitioned;
    assert forall i: nat :: Popped(g).LiveItem(i) ==> g.LiveItem(i);
  }

  lemma PopStores(g: Lists, view: Pages, version: nat, minReader: nat)
    requires CanPop(g, version, minReader) && Stores(view, g)
    ensures Block(g.head) in g.nodes && Stores(view, Popped(g))
  {
    PopStaysBelowLast(g, version, minReader);
    var h := Popped(g);
    forall b: nat | h.LiveNode(b) && b < h.last
      ensures NextStored(view, h, b)
    {
      assert NextStored(view, g, b);
    }
    forall i: nat | h.LiveItem(i)
      ensures ItemStored(view, h, i)
    {
      assert ItemStored(view, g, i);
    }
  }

  lemma PopKeepsSaved(g: Lists, view: Pages, s: Lists, sv: Pages, minReader: nat, version: nat)
    requires CanPop(g, version, minReader) && minReader <= version
    requires Keeps(s, sv, g, view, minReader, version)
    ensures Block(g.head) in g.nodes && Keeps(s, sv, Popped(g), view, minReader, version)
    ensures !Needed(s, g.items[g.head].ptr, minReader)
  {
    PopStaysBelowLast(g, version, minReader);
    assert g.LiveNode(Block(g.head));
  }

  lemma PopKeeps(g: Lists, view: Pages, s: Lists, sv: Pages, minReader: nat, version: nat)
    requires Running(g, view, s, sv, minReader, version)
    requires CanPop(g, version, minReader)
    ensures Block(g.head) in g.nodes && Running(Popped(g), view, s, sv, minReader, version)
    ensures !Needed(s, g.items[g.head].ptr, minReader)
  {
    PopGood(g, version, minReader);
    PopStores(g, view, version, minReader);
    PopKeepsSaved(g, view, s, sv, minReader, version);
  }

  /** Record p as freed at version in the tail node's next slot. */
  ghost function Appended(g: Lists, p: nat, version: nat): Lists
  {
    g.(tail := g.tail + 1, items := g.items[g.tail := Item(p, version)], role := g.role[p := Free(g.tail)])
  }

  ghost predicate CanAppend(g: Lists, p: nat, version: nat)
  {
    && Good(g, version)
    && g.HasRoom()
    && p in g.role && (g.role[p].Held? || g.role[p].Transit?)
  }

  lemma AppendPartitioned(g: Lists, p: nat, version: nat)
    requires CanAppend(g, p, version)
    ensures Partitioned(Appended(g, p, version))
  {
    var h := Appended(g, p, version);
    forall b: nat | h.LiveNode(b)
      ensures b in h.nodes && h.nodes[b] in h.role && h.role[h.nodes[b]] == ListNode(b)
    {
      assert g.LiveNode(b);
    }
    assert forall i: nat :: h.LiveItem(i) && i != g.tail ==> g.LiveItem(i);
  }

  lemma AppendGood(g: Lists, p: nat, version: nat)
    requires CanAppend(g, p, version)
    ensures Good(Appended(g, p, version), version)
  {
    AppendPartitioned(g, p, version);
    hide Partitioned;
    assert forall i: nat :: Appended(g, p, version).LiveItem(i) && i != g.tail ==> g.LiveItem(i);
  }

  function StoreSlot(l: LNode, idx: nat, item: Item): LNode
    requires idx < CAP
  {
    l.(slots := l.slots[idx := item])
  }

  /** The pages after writing item at position tail. */
  ghost function AppendedPages(g: Lists, view: Pages, item: Item): Pages
    requires g.last in g.nodes && g.nodes[g.last] in view
  {
    view[g.nodes[g.last] := ListPage(StoreSlot(view[g.nodes[g.last]].AsList(), Slot(g.tail), item))]
  }

  lemma TailNode(g: Lists, view: Pages, version: nat)
    requires Good(g, version) && Stores(view, g)
    ensures g.last in g.nodes && g.nodes[g.last] in view && g.nodes[g.last] in g.role
    ensures g.role[g.nodes[g.last]] == ListNode(g.last) && g.nodes[g.last] != 0
  {
    assert g.LiveNode(g.last);
  }

  /** The node that holds a live item is a live node. */
  lemma ItemNode(g: Lists, i: nat, version: nat)
    requires Good(g, version) && g.LiveItem(i)
    ensures g.LiveNode(Block(i)) && Block(i) in g.nodes
    ensures g.nodes[Block(i)] in g.role && g.role[g.nodes[Block(i)]] == ListNode(Block(i))
  {
  }

  lemma AppendStores(g: Lists, p: nat, view: Pages, version: nat)
    requires CanAppend(g, p, version) && Stores(view, g)
    ensures g.last in g.nodes && g.nodes[g.last] in view
    ensures Stores(AppendedPages(g, view, Item(p, version)), Appended(g, p, version))
  {
    TailNode(g, view, version);
    var h, after := Appended(g, p, version), AppendedPages(g, view, Item(p, version));
    forall b: nat | h.LiveNode(b) && b < h.last
      ensures NextStored(after, h, b)
    {
      assert NextStored(view, g, b) && g.LiveNode(b);
    }
    forall i: nat | h.LiveItem(i)
      ensures ItemStored(after, h, i)
    {
      if i != g.tail {
        assert ItemStored(view, g, i);
        ItemNode(g, i, version);
        assert Block(i) == g.last ==> Slot(i) != Slot(g.tail);
      }
    }
  }

  lemma AppendKeepsSaved(g: Lists, p: nat, view: Pages, s: Lists, sv: Pages, minReader: nat, version: nat)
    requires CanAppend(g, p, version) && Stores(view, g)
    requires Keeps(s, sv, g, view, minReader, version)
    ensures g.last in g.nodes && g.nodes[g.last] in view
    ensures Keeps(s, sv, Appended(g, p, version), AppendedPages(g, view, Item(p, version)), minReader, version)
  {
    TailNode(g, view, version);
    var h, after := Appended(g, p, version), AppendedPages(g, view, Item(p, version));
    forall q | Needed(s, q, minReader)
      ensures q in after && q in h.role && Serves(s, sv, q, after[q]) && KeepsRole(s, h, q, version)
    {
      assert KeepsRole(s, g, q, version) && Serves(s, sv, q, view[q]);
      if g.role[q].Free? {
        assert g.LiveItem(g.role[q].pos);
      }
    }
  }

  lemma AppendKeeps(g: Lists, p: nat, view: Pages, s: Lists, sv: Pages, minReader: nat, version: nat)
    requires Running(g, view, s, sv, minReader, version)
    requires CanAppend(g, p, version)
    ensures g.last in g.nodes && g.nodes[g.last] in view
    ensures Running(Appended(g, p, version), AppendedPages(g, view, Item(p, version)), s, sv, minReader, version)
  {
    AppendGood(g, p, version);
    AppendStores(g, p, view, version);
    AppendKeepsSaved(g, p, view, s, sv, minReader, version);
  }

  /** Make q the node after a full tail node. */
  ghost function Linked(g: Lists, q: nat): Lists
  {
    g.(last := g.last + 1, nodes := g.nodes[g.last + 1 := q], role := g.role[q := ListNode(g.last + 1)])
  }

  ghost predicate CanLink(g: Lists, q: nat, version: nat)
  {
    && Good(g, version)
    && !g.HasRoom()
    && q in g.role && g.role[q].Held?
  }

  function StoreNext(l: LNode, next: nat): LNode
  {
    l.(next := next)
  }

  /** The pages after setting the tail node's next. */
  ghost function LinkedPages(g: Lists, view: Pages, q: nat): Pages
    requires g.last in g.nodes && g.nodes[g.last] in view
  {
    view[g.nodes[g.last] := ListPage(StoreNext(view[g.nodes[g.last]].AsList(), q))]
  }

  lemma LinkPartitioned(g: Lists, q: nat, version: nat)
    requires CanLink(g, q, version)
    ensures Partitioned(Linked(g, q))
  {
    var h := Linked(g, q);
    forall b: nat | h.LiveNode(b)
      ensures b in h.nodes && h.nodes[b] in h.role && h.role[h.nodes[b]] == ListNode(b)
    {
      assert b <= g.last ==> g.LiveNode(b);
    }
    assert forall i: nat :: h.LiveItem(i) ==> g.LiveItem(i);
  }

  lemma LinkGood(g: Lists, q: nat, version: nat)
    requires CanLink(g, q, version)
    ensures Good(Linked(g, q), version)
  {
    LinkPartitioned(g, q, version);
    hide Partitioned;
    assert forall i: nat :: Linked(g, q).LiveItem(i) ==> g.LiveItem(i);
  }

  lemma LinkStores(g: Lists, q: nat, view: Pages, version: nat)
    requires CanLink(g, q, version) && Stores(view, g)
    ensures g.last in g.nodes && g.nodes[g.last] in view
    ensures Stores(LinkedPages(g, view, q), Linked(g, q))
  {
    TailNode(g, view, version);
    var h, after := Linked(g, q), LinkedPages(g, view, q);
    forall b: nat | h.LiveNode(b) && b < h.last
      ensures NextStored(after, h, b)
    {
      if b < g.last {
        assert NextStored(view, g, b) && g.LiveNode(b) && g.LiveNode(b + 1);
      }
    }
    forall i: nat | h.LiveItem(i)
      ensures ItemStored(after, h, i)
    {
      assert ItemStored(view, g, i);
      ItemNode(g, i, version);
    }
  }

  lemma LinkKeepsSaved(g: Lists, q: nat, view: Pages, s: Lists, sv: Pages, minReader: nat, version: nat)
    requires CanLink(g, q, version) && Stores(view, g)
    requires Keeps(s, sv, g, view, minReader, version) && !Needed(s, q, minReader)
    ensures g.last in g.nodes && g.nodes[g.last] in view
    ensures Keeps(s, sv, Linked(g, q), LinkedPages(g, view, q), minReader, version)
  {
    TailNode(g, view, version);
    var h, after := Linked(g, q), LinkedPages(g, view, q);
    forall p | Needed(s, p, minReader)
      ensures p in after && p in h.role && Serves(s, sv, p, after[p]) && KeepsRole(s, h, p, version)
    {
      assert KeepsRole(s, g, p, version) && Serves(s, sv, p, view[p]);
    }
  }

  lemma LinkKeeps(g: Lists, q: nat, view: Pages, s: Lists, sv: Pages, minReader: nat, version: nat)
    requires Running(g, view, s, sv, minReader, version)
    requires CanLink(g, q, version) && !Needed(s, q, minReader)
    ensures g.last in g.nodes && g.nodes[g.last] in view
    ensures Running(Linked(g, q), LinkedPages(g, view, q), s, sv, minReader, version)
  {
    LinkGood(g, q, version);
    LinkStores(g, q, view, version);
    LinkKeepsSaved(g, q, view, s, sv, minReader, version);
  }

  /** Append a page to the file. */
  ghost function Extended(g: Lists): Lists
  {
    g.(count := g.count + 1, role := g.role[g.count := Held])
  }

  lemma ExtendPartitioned(g: Lists)
    requires Partitioned(g) && g.count > 0
    ensures Partitioned(Extended(g))
  {
    var h := Extended(g);
    assert g.count !in g.role;
    forall b: nat | h.LiveNode(b)
      ensures b in h.nodes && h.nodes[b] in h.role && h.role[h.nodes[b]] == ListNode(b)
    {
      assert g.LiveNode(b);
    }
    assert forall i: nat :: h.LiveItem(i) ==> g.LiveItem(i);
  }

  lemma ExtendGood(g: Lists, version: nat)
    requires Good(g, version) && g.count > 0
    ensures Good(Extended(g), version)
  {
    ExtendPartitioned(g);
    hide Partitioned;
    assert forall i: nat :: Extended(g).LiveItem(i) ==> g.LiveItem(i);
  }

  lemma ExtendStores(g: Lists, page: Page, view: Pages, version: nat)
    requires Good(g, version) && g.count > 0 && Stores(view, g)
    ensures Stores(view[g.count := page], Extended(g))
  {
    var h, after := Extended(g), view[g.count := page];
    forall b: nat | h.LiveNode(b) && b < h.last
      ensures NextStored(after, h, b)
    {
      assert NextStored(view, g, b) && g.LiveNode(b);
    }
    forall i: nat | h.LiveItem(i)
      ensures ItemStored(after, h, i)
    {
      assert ItemStored(view, g, i);
      ItemNode(g, i, version);
    }
  }

  lemma ExtendKeeps(g: Lists, page: Page, view: Pages, s: Lists, sv: Pages, minReader: nat, version: nat)
    requires Running(g, view, s, sv, minReader, version)
    requires g.count > 0
    ensures Running(Extended(g), view[g.count := page], s, sv, minReader, version)
    ensures !Needed(s, g.count, minReader)
  {
    ExtendGood(g, version);
    ExtendStores(g, page, view, version);
    assert Keeps(s, sv, Extended(g), view[g.count := page], minReader, version);
  }

  /** Overwrite a held page that the saved list does not need. */
  lemma WriteStores(g: Lists, p: nat, page: Page, view: Pages, version: nat)
    requires Good(g, version) && Stores(view, g)
    requires p in g.role && g.role[p].Held?
    ensures Stores(view[p := page], g)
  {
    var after := view[p := page];
    forall b: nat | g.LiveNode(b) && b < g.last
      ensures NextStored(after, g, b)
    {
      assert NextStored(view, g, b);
    }
    forall i: nat | g.LiveItem(i)
      ensures ItemStored(after, g, i)
    {
      assert ItemStored(view, g, i);
      ItemNode(g, i, version);
    }
  }

  lemma WriteKeeps(g: Lists, p: nat, page: Page, view: Pages, s: Lists, sv: Pages, minReader: nat, version: nat)
    requires Running(g, view, s, sv, minReader, version)
    requires p in HeldPages(g) && !Needed(s, p, minReader)
    ensures Running(g, view[p := page], s, sv, minReader, version)
  {
    WriteStores(g, p, page, view, version);
    assert Keeps(s, sv, g, view[p := page], minReader, version);
  }

  // ------------------------------------------------------- effects seen from outside

  ghost function HeldPages(g: Lists): set<nat>
  {
    set p | p in g.role && g.role[p].Held?
  }

  /** The queue of a well-formed list, total for use in contracts. */
  ghost function Items(g: Lists): seq<Item>
  {
    if g.head <= g.tail && (forall i :: g.LiveItem(i) ==> i in g.items) then Queue(g) else []
  }

  ghost function TransitPages(g: Lists): set<nat>
  {
    set p | p in g.role && g.role[p].Transit?
  }

  /** The tail node has room and no drained node is on its way back into the list. */
  ghost predicate Settled(g: Lists)
  {
    g.HasRoom() && TransitPages(g) == {}
  }

  /** The persisted fields describe g. */
  ghost predicate AtState(g: Lists, state: FLState)
  {
    && state.headSeq == g.head && state.tailSeq == g.tail
    && Block(g.head) in g.nodes && state.headPage == g.nodes[Block(g.head)]
    && g.last in g.nodes && state.tailPage == g.nodes[g.last]
  }

  /** Every page past those on disk is buffered, so a commit writes it. */
  ghost predicate Buffered(g: Lists, onDisk: nat, updates: set<nat>)
  {
    forall p :: p in g.role && p >= onDisk && p != 0 ==> p in updates
  }

  lemma BufferedSameKeys(g: Lists, h: Lists, onDisk: nat, updates: set<nat>)
    requires Buffered(g, onDisk, updates) && h.role.Keys == g.role.Keys
    ensures Buffered(h, onDisk, updates)
  {
  }

  lemma ItemsOf(g: Lists, version: nat)
    requires Good(g, version)
    ensures |Items(g)| == g.tail - g.head
    ensures forall i :: 0 <= i < |Items(g)| ==> g.head + i in g.items && Items(g)[i] == g.items[g.head + i]
  {
    assert forall i :: g.LiveItem(i) ==> i in g.items;
  }

  lemma PopRoles(g: Lists, version: nat, minReader: nat)
    requires CanPop(g, version, minReader)
    ensures Block(g.head) in g.nodes
    ensures g.items[g.head].ptr != 0 && g.items[g.head].ptr !in HeldPages(g) && g.nodes[Block(g.head)] != 0
    ensures HeldPages(Popped(g)) == HeldPages(g) + {g.items[g.head].ptr}
    ensures TransitPages(Popped(g)) == TransitPages(g) + if Slot(g.head + 1) == 0 then {g.nodes[Block(g.head)]} else {}
    ensures g.nodes[Block(g.head)] !in HeldPages(Popped(g))
  {
    PopStaysBelowLast(g, version, minReader);
    var p, n := g.items[g.head].ptr, g.nodes[Block(g.head)];
    assert g.LiveNode(Block(g.head));
    assert p in g.role && g.role[p] == Free(g.head) && n in g.role && g.role[n] == ListNode(Block(g.head));
    hide Good, Partitioned;
    var h := Popped(g);
    assert forall q :: q in h.role <==> q in g.role;
    assert h.role[p] == Held;
  }

  lemma PopFields(g: Lists, version: nat, minReader: nat)
    requires CanPop(g, version, minReader)
    ensures Good(g, version) && g.head in g.items && Block(g.head) in g.nodes
    ensures g.head < g.tail && g.items[g.head].ver < minReader
    ensures Popped(g).head == g.head + 1 && Popped(g).tail == g.tail && Popped(g).items == g.items
    ensures Popped(g).HasRoom() == g.HasRoom()
  {
    PopStaysBelowLast(g, version, minReader);
  }

  lemma PopEffect(g: Lists, version: nat, minReader: nat)
    requires CanPop(g, version, minReader)
    ensures g.head in g.items && Block(g.head) in g.nodes && g.items[g.head].ver < minReader
    ensures Items(g) != [] && Items(g)[0] == g.items[g.head] && Items(Popped(g)) == Items(g)[1..]
    ensures Popped(g).HasRoom() == g.HasRoom()
  {
    hide *;
    PopFields(g, version, minReader);
    ItemsOf(g, version);
    PopGood(g, version, minReader);
    ItemsOf(Popped(g), version);
    assert Popped(g).head == g.head + 1 && Popped(g).items == g.items;
    forall i | 0 <= i < |Items(Popped(g))|
      ensures Items(Popped(g))[i] == Items(g)[1..][i]
    {
      var now, before := Items(Popped(g))[i], Items(g)[i + 1];
      assert now == g.items[g.head + 1 + i] && before == g.items[g.head + (i + 1)];
    }
    var first := Items(g)[0];
  }

  lemma AppendEffect(g: Lists, p: nat, version: nat)
    requires CanAppend(g, p, version)
    ensures HeldPages(Appended(g, p, version)) == HeldPages(g) - {p}
    ensures TransitPages(Appended(g, p, version)) == TransitPages(g) - {p}
    ensures Appended(g, p, version).HasRoom() == (Slot(g.tail + 1) != 0)
  {
  }

  lemma AppendQueue(g: Lists, p: nat, version: nat)
    requires CanAppend(g, p, version)
    ensures Items(Appended(g, p, version)) == Items(g) + [Item(p, version)]
  {
    hide Good, Items;
    AppendGood(g, p, version);
    ItemsOf(g, version);
    ItemsOf(Appended(g, p, version), version);
  }

  lemma LinkEffect(g: Lists, q: nat, version: nat)
    requires CanLink(g, q, version)
    ensures HeldPages(Linked(g, q)) == HeldPages(g) - {q}
    ensures TransitPages(Linked(g, q)) == TransitPages(g)
    ensures Linked(g, q).HasRoom() && Slot(g.tail) == 0
  {
  }

  lemma LinkQueue(g: Lists, q: nat, version: nat)
    requires CanLink(g, q, version)
    ensures Items(Linked(g, q)) == Items(g)
  {
    hide Good, Items;
    LinkGood(g, q, version);
    ItemsOf(g, version);
    ItemsOf(Linked(g, q), version);
  }

  lemma ExtendEffect(g: Lists, version: nat)
    requires Good(g, version) && g.count > 0
    ensures g.count !in HeldPages(g)
    ensures HeldPages(Extended(g)) == HeldPages(g) + {g.count}
    ensures TransitPages(Extended(g)) == TransitPages(g)
    ensures Extended(g).HasRoom() == g.HasRoom()
  {
    assert g.count !in g.role;
  }

  lemma ExtendQueue(g: Lists, version: nat)
    requires Good(g, version) && g.count > 0
    ensures Items(Extended(g)) == Items(g)
  {
    hide Good, Items;
    ExtendGood(g, version);
    ItemsOf(g, version);
    ItemsOf(Extended(g), version);
  }

  /** The version order makes the head decide for the whole queue. */
  lemma HeadDecides(g: Lists, version: nat, minReader: nat)
    requires Good(g, version)
    requires g.head == g.tail || (g.head in g.items && g.items[g.head].ver >= minReader)
    ensures forall i :: 0 <= i < |Items(g)| ==> Items(g)[i].ver >= minReader
  {
    ItemsOf(g, version);
    forall i | 0 <= i < |Items(g)|
      ensures Items(g)[i].ver >= minReader
    {
      assert g.LiveItem(g.head) && g.LiveItem(g.head + i);
    }
  }

  /** What pop reads from the head page. */
  lemma HeadOnPage(g: Lists, view: Pages, state: FLState, version: nat)
    requires Good(g, version) && Stores(view, g) && AtState(g, state)
    ensures state.headSeq == g.head <= g.tail == state.tailSeq
    ensures g.head < g.tail ==>
              && state.headPage in view && g.head in g.items && g.LiveItem(g.head)
              && view[state.headPage].AsList().slots[Slot(state.headSeq)] == g.items[g.head]
              && (Block(g.head) < g.last ==>
                    Block(g.head) + 1 in g.nodes && view[state.headPage].AsList().next == g.nodes[Block(g.head) + 1])
    ensures Block(g.head) in g.nodes && state.headPage == g.nodes[Block(g.head)]
  {
    if g.head < g.tail {
      assert g.LiveItem(g.head);
      ItemNode(g, g.head, version);
      assert ItemStored(view, g, g.head);
      assert Block(g.head) < g.last ==> NextStored(view, g, Block(g.head));
    }
  }

  lemma AppendAtState(g: Lists, p: nat, state: FLState, version: nat)
    requires CanAppend(g, p, version) && AtState(g, state)
    ensures AtState(Appended(g, p, version), state.(tailSeq := state.tailSeq + 1))
    ensures Appended(g, p, version).role.Keys == g.role.Keys && Appended(g, p, version).count == g.count
    ensures state.tailSeq == g.tail && g.last in g.nodes && state.tailPage == g.nodes[g.last]
  {
  }

  lemma RunningIsGood(g: Lists, view: Pages, s: Lists, sv: Pages, minReader: nat, version: nat)
    requires Running(g, view, s, sv, minReader, version)
    ensures minReader <= version && Good(g, version) && Stores(view, g)
    ensures g.head <= g.tail
  {
  }

  /** Where the persisted fields stand after a pop that read next from the head page. */
  function AfterPop(state: FLState, next: nat): FLState
  {
    FLState(if Slot(state.headSeq + 1) == 0 then next else state.headPage, state.headSeq + 1, state.tailPage, state.tailSeq)
  }

  lemma PopAtState(g: Lists, state: FLState, next: nat, version: nat, minReader: nat)
    requires CanPop(g, version, minReader) && AtState(g, state)
    requires Block(g.head) < g.last ==> Block(g.head) + 1 in g.nodes && next == g.nodes[Block(g.head) + 1]
    ensures AtState(Popped(g), AfterPop(state, next))
    ensures Popped(g).role.Keys == g.role.Keys && Popped(g).count == g.count
  {
    PopStaysBelowLast(g, version, minReader);
    assert g.LiveNode(Block(g.head));
    assert Block(g.head + 1) == if Slot(g.head + 1) == 0 then Block(g.head) + 1 else Block(g.head);
  }

  lemma LinkAtState(g: Lists, q: nat, state: FLState, version: nat)
    requires CanLink(g, q, version) && AtState(g, state)
    ensures AtState(Linked(g, q), state.(tailPage := q))
    ensures Linked(g, q).role.Keys == g.role.Keys && Linked(g, q).count == g.count
  {
  }

  /** No page held in g differs between the two views. */
  ghost predicate HeldUnchanged(g: Lists, before: Pages, after: Pages)
  {
    forall p :: p in HeldPages(g) && p in before ==> p in after && after[p] == before[p]
  }

  lemma HeldUnchangedChain(g0: Lists, g1: Lists, g2: Lists, v0: Pages, v1: Pages, v2: Pages)
    requires HeldUnchanged(g0, v0, v1) && HeldUnchanged(g1, v1, v2)
    requires HeldPages(g2) <= HeldPages(g1) && HeldPages(g2) <= HeldPages(g0)
    ensures HeldUnchanged(g2, v0, v2)
  {
  }

  lemma HeldUnchangedRefl(g: Lists, v: Pages)
    ensures HeldUnchanged(g, v, v)
  {
  }

  /** Rewriting the tail node touches no held page. */
  lemma TailNodeNotHeld(g: Lists, view: Pages, version: nat, page: Page)
    requires Good(g, version) && Stores(view, g)
    ensures g.last in g.nodes && g.nodes[g.last] in view
    ensures HeldUnchanged(g, view, view[g.nodes[g.last] := page])
    ensures g.nodes[g.last] in g.role && g.nodes[g.last] != 0
  {
    TailNode(g, view, version);
  }

  /** What taking the oldest item does to the pages and to the queue; drained is the node that emptied, or 0. */
  ghost predicate PoppedTo(g: Lists, h: Lists, ptr: nat, drained: nat, minReader: nat)
  {
    && ptr !in HeldPages(g) && HeldPages(h) == HeldPages(g) + {ptr}
    && Items(g) != [] && Items(g)[0].ptr == ptr && Items(g)[0].ver < minReader && Items(h) == Items(g)[1..]
    && TransitPages(h) == TransitPages(g) + (if drained != 0 then {drained} else {})
    && h.HasRoom() == g.HasRoom()
    && (drained != 0 ==> drained !in HeldPages(h))
  }

  lemma PopOutcome(g: Lists, version: nat, minReader: nat)
    requires CanPop(g, version, minReader)
    ensures Block(g.head) in g.nodes && g.head in g.items && g.items[g.head].ptr != 0
    ensures PoppedTo(g, Popped(g), g.items[g.head].ptr, if Slot(g.head + 1) == 0 then g.nodes[Block(g.head)] else 0, minReader)
  {
    hide Good, HeldPages, TransitPages, Items, Popped;
    PopRoles(g, version, minReader);
    PopEffect(g, version, minReader);
  }

  lemma MayPop(g: Lists, version: nat, minReader: nat)
    requires Good(g, version) && g.head < g.tail && g.head in g.items && g.items[g.head].ver < minReader
    requires g.HasRoom() || (Items(g) != [] && Items(g)[|Items(g)| - 1].ver >= minReader)
    ensures CanPop(g, version, minReader) && Block(g.head + 1) <= g.last
    ensures Block(g.head) in g.nodes && g.nodes[Block(g.head)] != 0
  {
    ItemsOf(g, version);
    PopStaysBelowLast(g, version, minReader);
    assert g.LiveNode(Block(g.head));
  }

  lemma MayAppend(g: Lists, p: nat, version: nat)
    requires Good(g, version) && g.HasRoom() && (p in HeldPages(g) || p in TransitPages(g))
    ensures CanAppend(g, p, version)
  {
  }

  lemma MayLink(g: Lists, q: nat, version: nat)
    requires Good(g, version) && !g.HasRoom() && q in HeldPages(g)
    ensures CanLink(g, q, version)
  {
  }

  /** What freeing ptr at version does. */
  ghost predicate AppendedTo(g: Lists, h: Lists, ptr: nat, version: nat)
  {
    && HeldPages(h) == HeldPages(g) - {ptr}
    && Items(h) == Items(g) + [Item(ptr, version)]
    && TransitPages(h) == TransitPages(g) - {ptr}
  }

  lemma AppendOutcome(g: Lists, p: nat, version: nat)
    requires CanAppend(g, p, version)
    ensures AppendedTo(g, Appended(g, p, version), p, version)
    ensures Appended(g, p, version).HasRoom() == (Slot(g.tail + 1) != 0)
  {
    hide CanAppend, HeldPages, TransitPages, Items, Appended;
    AppendEffect(g, p, version);
    AppendQueue(g, p, version);
  }

  /** What moving a held page q into the list, or a new page into the file, leaves alone. */
  ghost predicate SameQueue(g: Lists, h: Lists)
  {
    TransitPages(h) == TransitPages(g) && Items(h) == Items(g)
  }

  lemma LinkOutcome(g: Lists, q: nat, version: nat)
    requires CanLink(g, q, version)
    ensures SameQueue(g, Linked(g, q)) && HeldPages(Linked(g, q)) == HeldPages(g) - {q}
    ensures Linked(g, q).HasRoom() && Slot(g.tail) == 0
  {
    hide CanLink, HeldPages, TransitPages, Items, Linked;
    LinkEffect(g, q, version);
    LinkQueue(g, q, version);
  }

  lemma ExtendOutcome(g: Lists, version: nat)
    requires Good(g, version) && g.count > 0
    ensures SameQueue(g, Extended(g)) && Extended(g).HasRoom() == g.HasRoom()
    ensures g.count !in HeldPages(g) && HeldPages(Extended(g)) == HeldPages(g) + {g.count}
  {
    hide Good, HeldPages, TransitPages, Items, Extended;
    ExtendEffect(g, version);
    ExtendQueue(g, version);
  }

  // ------------------------------------------------------- which pages an update has to write

  /**
   * Every change to the list since s lies on a buffered page: appended items and new links. A tail node just linked has
   * neither, so its stale bytes need not be written. Only pages of the file are buffered, never the meta page.
   */
  ghost predicate ListWritten(s: Lists, g: Lists, updates: set<nat>)
  {
    && s.head <= g.head && s.tail <= g.tail && s.last <= g.last
    && (forall p :: p in updates ==> p in g.role && p != 0)
    && (forall b: nat :: g.LiveNode(b) && b <= s.last ==> b in s.nodes && b in g.nodes && g.nodes[b] == s.nodes[b])
    && (forall b: nat :: g.LiveNode(b) && s.last <= b < g.last ==> b in g.nodes && g.nodes[b] in updates)
    && (forall i: nat :: s.tail <= i < g.tail && g.LiveNode(Block(i)) ==> Block(i) in g.nodes && g.nodes[Block(i)] in updates)
  }

  lemma WrittenAtFirst(s: Lists, updates: set<nat>, version: nat)
    requires Good(s, version) && forall p :: p in updates ==> p in s.role && p != 0
    ensures ListWritten(s, s, updates)
  {
  }

  lemma WrittenMore(s: Lists, g: Lists, updates: set<nat>, p: nat, more: set<nat>)
    requires ListWritten(s, g, updates) && more == updates + {p} && p in g.role && p != 0
    ensures ListWritten(s, g, more)
  {
    assert p in more;
    assert forall q :: q in updates ==> q in more;
  }

  lemma PopWritten(s: Lists, g: Lists, updates: set<nat>, version: nat, minReader: nat)
    requires ListWritten(s, g, updates) && CanPop(g, version, minReader)
    ensures Block(g.head) in g.nodes && ListWritten(s, Popped(g), updates)
  {
    PopNodes(g, version, minReader);
  }

  lemma AppendWritten(s: Lists, g: Lists, p: nat, updates: set<nat>, more: set<nat>, version: nat)
    requires ListWritten(s, g, updates) && CanAppend(g, p, version)
    requires g.last in g.nodes && more == updates + {g.nodes[g.last]} && g.nodes[g.last] != 0
    ensures ListWritten(s, Appended(g, p, version), more)
  {
    var h := Appended(g, p, version);
    assert g.nodes[g.last] in more;
    assert forall q :: q in updates ==> q in more;
    forall i: nat | s.tail <= i < h.tail && h.LiveNode(Block(i))
      ensures Block(i) in h.nodes && h.nodes[Block(i)] in more
    {
      assert i == g.tail ==> Block(i) == g.last;
      assert g.LiveNode(Block(i));
    }
  }

  lemma LinkWritten(s: Lists, g: Lists, q: nat, updates: set<nat>, more: set<nat>, version: nat)
    requires ListWritten(s, g, updates) && CanLink(g, q, version)
    requires g.last in g.nodes && more == updates + {g.nodes[g.last]}
    requires g.nodes[g.last] != 0 && g.nodes[g.last] in g.role
    ensures ListWritten(s, Linked(g, q), more)
  {
    hide Partitioned;
    var h := Linked(g, q);
    assert g.nodes[g.last] in more;
    assert forall p :: p in updates ==> p in more;
    forall b: nat | h.LiveNode(b) && s.last <= b < h.last
      ensures b in h.nodes && h.nodes[b] in more
    {
      assert g.LiveNode(b);
    }
    forall i: nat | s.tail <= i < h.tail && h.LiveNode(Block(i))
      ensures Block(i) in h.nodes && h.nodes[Block(i)] in more
    {
      assert g.LiveNode(Block(i));
    }
  }

  lemma ExtendWritten(s: Lists, g: Lists, updates: set<nat>)
    requires ListWritten(s, g, updates)
    ensures ListWritten(s, Extended(g), updates)
  {
    assert forall b: nat :: Extended(g).LiveNode(b) ==> g.LiveNode(b);
  }

  // ------------------------------------------------------- a running update, with its fields and buffers

  /** What ties the fields of a running update, and the pages it has buffered, to the list g. */
  ghost predicate Tracked(g: Lists, state: FLState, view: Pages, updates: set<nat>, onDisk: nat, count: nat,
                          s: Lists, sv: Pages, minReader: nat, version: nat)
  {
    && Running(g, view, s, sv, minReader, version)
    && g.count == count > 0
    && AtState(g, state)
    && Buffered(g, onDisk, updates)
    && ListWritten(s, g, updates)
  }

  lemma TrackedParts(g: Lists, state: FLState, view: Pages, updates: set<nat>, onDisk: nat, count: nat,
                     s: Lists, sv: Pages, minReader: nat, version: nat)
    requires Tracked(g, state, view, updates, onDisk, count, s, sv, minReader, version)
    ensures minReader <= version && Good(g, version) && Stores(view, g) && AtState(g, state)
    ensures g.count == count > 0
    ensures 0 !in HeldPages(g) && HeldPages(g) <= g.role.Keys
  {
  }

  lemma PopTracked(g: Lists, state: FLState, view: Pages, updates: set<nat>, onDisk: nat, count: nat,
                   s: Lists, sv: Pages, minReader: nat, version: nat, next: nat)
    requires Tracked(g, state, view, updates, onDisk, count, s, sv, minReader, version)
    requires CanPop(g, version, minReader)
    requires Block(g.head) < g.last ==> Block(g.head) + 1 in g.nodes && next == g.nodes[Block(g.head) + 1]
    ensures Block(g.head) in g.nodes
    ensures Tracked(Popped(g), AfterPop(state, next), view, updates, onDisk, count, s, sv, minReader, version)
    ensures !Needed(s, g.items[g.head].ptr, minReader)
  {
    assert g.head in g.items;
    hide Running, Good, AtState, Buffered, ListWritten, CanPop, Popped, AfterPop, Needed;
    PopKeeps(g, view, s, sv, minReader, version);
    PopAtState(g, state, next, version, minReader);
    PopWritten(s, g, updates, version, minReader);
    BufferedSameKeys(g, Popped(g), onDisk, updates);
  }

  lemma AppendTracked(g: Lists, p: nat, state: FLState, view: Pages, updates: set<nat>, onDisk: nat, count: nat,
                      s: Lists, sv: Pages, minReader: nat, version: nat)
    requires Tracked(g, state, view, updates, onDisk, count, s, sv, minReader, version)
    requires CanAppend(g, p, version)
    ensures state.tailSeq == g.tail && g.last in g.nodes && g.nodes[g.last] in view && state.tailPage == g.nodes[g.last]
    ensures Tracked(Appended(g, p, version), state.(tailSeq := state.tailSeq + 1), AppendedPages(g, view, Item(p, version)),
                    updates + {state.tailPage}, onDisk, count, s, sv, minReader, version)
  {
    RunningIsGood(g, view, s, sv, minReader, version);
    TailNode(g, view, version);
    assert state.tailPage == g.nodes[g.last];
    hide Running, Good, Stores, Buffered, AtState, ListWritten, CanAppend, Appended, AppendedPages;
    AppendAtState(g, p, state, version);
    AppendKeeps(g, p, view, s, sv, minReader, version);
    AppendWritten(s, g, p, updates, updates + {state.tailPage}, version);
    BufferedMore(g, Appended(g, p, version), onDisk, updates, updates + {state.tailPage});
  }

  lemma LinkTracked(g: Lists, q: nat, state: FLState, view: Pages, updates: set<nat>, onDisk: nat, count: nat,
                    s: Lists, sv: Pages, minReader: nat, version: nat)
    requires Tracked(g, state, view, updates, onDisk, count, s, sv, minReader, version)
    requires CanLink(g, q, version) && !Needed(s, q, minReader)
    ensures g.last in g.nodes && g.nodes[g.last] in view && state.tailPage == g.nodes[g.last]
    ensures Tracked(Linked(g, q), state.(tailPage := q), LinkedPages(g, view, q),
                    updates + {state.tailPage}, onDisk, count, s, sv, minReader, version)
  {
    RunningIsGood(g, view, s, sv, minReader, version);
    TailNode(g, view, version);
    assert state.tailPage == g.nodes[g.last];
    hide Running, Good, Stores, Buffered, AtState, ListWritten, CanLink, Linked, LinkedPages, Needed;
    LinkAtState(g, q, state, version);
    LinkKeeps(g, q, view, s, sv, minReader, version);
    LinkWritten(s, g, q, updates, updates + {state.tailPage}, version);
    BufferedMore(g, Linked(g, q), onDisk, updates, updates + {state.tailPage});
  }

  lemma BufferedMore(g: Lists, h: Lists, onDisk: nat, updates: set<nat>, more: set<nat>)
    requires Buffered(g, onDisk, updates) && h.role.Keys == g.role.Keys && updates <= more
    ensures Buffered(h, onDisk, more)
  {
  }

  lemma ExtendTracked(g: Lists, page: Page, state: FLState, view: Pages, updates: set<nat>, onDisk: nat, count: nat,
                      s: Lists, sv: Pages, minReader: nat, version: nat)
    requires Tracked(g, state, view, updates, onDisk, count, s, sv, minReader, version)
    ensures Tracked(Extended(g), state, view[g.count := page], updates + {g.count}, onDisk, count + 1,
                    s, sv, minReader, version)
    ensures !Needed(s, g.count, minReader)
  {
    assert AtState(Extended(g), state);
    assert Buffered(Extended(g), onDisk, updates + {g.count});
    hide Running, Buffered, AtState, ListWritten, Needed;
    ExtendKeeps(g, page, view, s, sv, minReader, version);
    ExtendWritten(s, g, updates);
    WrittenMore(s, Extended(g), updates, g.count, updates + {g.count});
  }

  lemma WriteTracked(g: Lists, p: nat, page: Page, state: FLState, view: Pages, updates: set<nat>, onDisk: nat, count: nat,
                     s: Lists, sv: Pages, minReader: nat, version: nat)
    requires Tracked(g, state, view, updates, onDisk, count, s, sv, minReader, version)
    requires p in HeldPages(g) && !Needed(s, p, minReader)
    ensures Tracked(g, state, view[p := page], updates + {p}, onDisk, count, s, sv, minReader, version)
  {
    TrackedParts(g, state, view, updates, onDisk, count, s, sv, minReader, version);
    assert p in g.role && p != 0;
    hide Running, Buffered, AtState, ListWritten, Needed, HeldPages, Good, Stores;
    WriteKeeps(g, p, page, view, s, sv, minReader, version);
    WrittenMore(s, g, updates, p, updates + {p});
    BufferedMore(g, g, onDisk, updates, updates + {p});
  }
}
