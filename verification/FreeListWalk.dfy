/** Reading a saved free list back from its pages, and why later in-place updates do not show. */
module FreeListWalk {
  import opened FreeLists
  import opened TreeEdit
  import opened KvStates
  import opened KvSafety

  /** Follow the list from position head in page up to tail, as pop does: slot by slot, then through next. */
  function Walk(view: Pages, page: nat, head: nat, tail: nat): seq<Item>
    decreases tail - head
  {
    if head >= tail || page !in view then []
    else
      var node := view[page].AsList();
      [node.slots[Slot(head)]] + Walk(view, if Slot(head + 1) == 0 then node.next else page, head + 1, tail)
  }

  function WalkFrom(view: Pages, state: FLState): seq<Item>
  {
    Walk(view, state.headPage, state.headSeq, state.tailSeq)
  }

  /** The list part of Stores. */
  ghost predicate ListStored(view: Pages, g: Lists)
  {
    && (forall b: nat :: g.LiveNode(b) && b < g.last ==> NextStored(view, g, b))
    && (forall i: nat :: g.LiveItem(i) ==> ItemStored(view, g, i))
  }

  lemma {:induction false} WalkReadsItems(g: Lists, view: Pages, version: nat, page: nat, h: nat)
    requires Good(g, version) && ListStored(view, g) && g.head <= h <= g.tail
    requires h < g.tail ==> Block(h) in g.nodes && page == g.nodes[Block(h)]
    ensures |Walk(view, page, h, g.tail)| == g.tail - h
    ensures forall i: nat :: h <= i < g.tail ==> i in g.items && Walk(view, page, h, g.tail)[i - h] == g.items[i]
    decreases g.tail - h
  {
    hide Partitioned;
    if h < g.tail {
      assert ItemStored(view, g, h);
      var node := view[page].AsList();
      var next := if Slot(h + 1) == 0 then node.next else page;
      if h + 1 < g.tail {
        assert Block(h + 1) == if Slot(h + 1) == 0 then Block(h) + 1 else Block(h);
        if Slot(h + 1) == 0 {
          assert g.LiveNode(Block(h)) && Block(h) < g.last;
          assert NextStored(view, g, Block(h));
        }
      }
      WalkReadsItems(g, view, version, next, h + 1);
      var rest := Walk(view, next, h + 1, g.tail);
      forall i: nat | h <= i < g.tail
        ensures i in g.items && ([node.slots[Slot(h)]] + rest)[i - h] == g.items[i]
      {
        assert ItemStored(view, g, i);
      }
    }
  }

  /** Walking the list from its persisted fields yields its items, oldest first. */
  lemma WalkIsQueue(g: Lists, view: Pages, state: FLState, version: nat)
    requires Good(g, version) && ListStored(view, g) && AtState(g, state)
    ensures WalkFrom(view, state) == Items(g)
  {
    hide Good, ListStored, Items, Walk;
    GoodHead(g, version);
    WalkReadsItems(g, view, version, state.headPage, g.head);
    ItemsOf(g, version);
    var walk := WalkFrom(view, state);
    forall i | 0 <= i < |walk|
      ensures walk[i] == Items(g)[i]
    {
      var a, b := walk[i], Items(g)[i];
      var at := g.head + i;
      assert at in g.items && a == g.items[at];
    }
  }

  lemma GoodHead(g: Lists, version: nat)
    requires Good(g, version)
    ensures g.head <= g.tail
  {
  }

  /**
   * In-place updates are invisible to a saved state: as long as everything a saved list needs has been kept, walking it
   * from its saved fields in the new pages still yields its items.
   */
  lemma SavedListUnchanged(s: Lists, sv: Pages, state: FLState, version: nat, g: Lists, view: Pages, keep: nat, freedAt: nat)
    requires Good(s, version) && Stores(sv, s) && AtState(s, state)
    requires Keeps(s, sv, g, view, keep, freedAt)
    ensures WalkFrom(view, state) == WalkFrom(sv, state) == Items(s)
  {
    hide Good, ListStored, Items, Stores, Keeps, AtState, WalkFrom;
    KeptListStored(s, sv, version, g, view, keep, freedAt);
    WalkIsQueue(s, sv, state, version);
    WalkIsQueue(s, view, state, version);
  }

  lemma KeptListStored(s: Lists, sv: Pages, version: nat, g: Lists, view: Pages, keep: nat, freedAt: nat)
    requires Good(s, version) && Stores(sv, s) && Keeps(s, sv, g, view, keep, freedAt)
    ensures ListStored(sv, s) && ListStored(view, s)
  {
    forall b: nat | s.LiveNode(b) && b < s.last
      ensures NextStored(view, s, b)
    {
      assert NextStored(sv, s, b) && Needed(s, s.nodes[b], keep);
    }
    forall i: nat | s.LiveItem(i)
      ensures ItemStored(view, s, i)
    {
      assert ItemStored(sv, s, i);
      ItemNode(s, i, version);
      assert Needed(s, s.nodes[Block(i)], keep);
    }
  }

  lemma VersionWalk(v: Version, g: Lists, view: Pages)
    requires VersionOk(v) && Keeps(v.g, v.img, g, view, v.num, v.num)
    ensures WalkFrom(view, v.free) == Items(v.g)
  {
    hide RootOk, RootFits, Settled, Items, WalkFrom, Keeps, AtState, Good, Stores;
    SavedListUnchanged(v.g, v.img, v.free, v.num, g, view, v.num, v.num);
  }

  /**
   * In every state, every version that may still be recovered or is still read has its list readable from both images
   * of the file, and from a running transaction's pages however much that has pushed and popped.
   */
  lemma ListsReadable(states: seq<State>, steps: seq<Step>, i: nat, n: nat)
    requires IsRun(states, steps) && i < |states| && 1 <= n && states[i].Protected(n)
    ensures n < |states[i].versions|
    ensures var s, v := states[i], states[i].versions[n];
            && WalkFrom(s.cache, v.free) == Items(v.g)
            && WalkFrom(s.disk, v.free) == Items(v.g)
            && (s.writer.Active? ==> WalkFrom(s.writer.tx.View(), v.free) == Items(v.g))
  {
    hide Storage, Kept, VersionOk, TxOk, WalkFrom, Items, Keeps, IsRun;
    RunKeepsInv(states, steps, i);
    var s := states[i];
    StorageParts(s);
    KeptAt(s, s.cache, n);
    KeptAt(s, s.disk, n);
    VersionWalk(s.versions[n], s.Current().g, s.cache);
    VersionWalk(s.versions[n], s.Current().g, s.disk);
    if s.writer.Active? {
      TxServes(s, s.writer.tx, n);
      VersionWalk(s.versions[n], s.writer.tx.g, s.writer.tx.View());
    }
  }

  lemma KeptAt(s: State, view: Pages, n: nat)
    requires History(s) && Kept(s, view) && 1 <= n && s.Protected(n)
    ensures Keeps(s.versions[n].g, s.versions[n].img, s.Current().g, view, n, n)
  {
  }
}
