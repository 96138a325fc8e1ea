/** How a write transaction reads, buffers and frees pages (KVTX::page_* in src/storage/kv.cpp, FreeList). */
module TxPages {
  import opened FreeLists

  /** Pages the snapshot maps, shadowed by the pages this transaction has buffered. */
  class PageBuffer {
    const mapped: Pages
    const flushed: nat        // pages of the committed version
    ghost const onDisk: nat   // those of them the file has: a new file has none but the meta page
    var updates: Pages
    var append: nat

    constructor (mapped: Pages, flushed: nat, updates: Pages, ghost onDisk: nat)
      ensures this.mapped == mapped && this.flushed == flushed && this.updates == updates && append == 0
      ensures this.onDisk == onDisk
    {
      this.mapped, this.flushed, this.updates, this.append := mapped, flushed, updates, 0;
      this.onDisk := onDisk;
    }

    ghost function View(): Pages
      reads this
    {
      mapped + updates
    }

    ghost function Count(): nat
      reads this
    {
      flushed + append
    }

    /** page_read */
    method Read(ptr: nat) returns (page: Page)
      requires ptr in View()
      ensures page == View()[ptr]
    {
      if ptr in updates {
        page := updates[ptr];
      } else {
        page := mapped[ptr];
      }
    }

    /** page_use: buffer the page, so that it can be updated in place. */
    method Use(ptr: nat) returns (page: Page)
      requires ptr in View()
      modifies this`updates
      ensures View() == old(View()) && page == View()[ptr]
      ensures updates == old(updates)[ptr := page]
    {
      page := Read(ptr);
      updates := updates[ptr := page];
      assert View() == old(View());
    }

    method Put(ptr: nat, page: Page)
      modifies this`updates
      ensures View() == old(View())[ptr := page]
      ensures updates == old(updates)[ptr := page]
    {
      updates := updates[ptr := page];
      assert View() == old(View())[ptr := page];
    }

    /** page_append */
    method Append() returns (ptr: nat)
      modifies this
      ensures ptr == old(Count()) && Count() == old(Count()) + 1
      ensures View() == old(View())[ptr := ZeroPage()]
      ensures updates == old(updates)[ptr := ZeroPage()]
    {
      ptr := flushed + append;
      append := append + 1;
      Put(ptr, ZeroPage());
    }
  }

  /** The pop inside a push cannot take the item just pushed. */
  lemma QueueAfterPush(queue: seq<Item>, pushed: Item, taken: nat, minReader: nat)
    requires pushed.ver >= minReader && taken <= 1
    requires taken == 1 ==> (queue + [pushed])[0].ver < minReader
    ensures taken <= |queue| && (queue + [pushed])[taken..] == queue[taken..] + [pushed]
    ensures taken == 1 ==> queue[0] == (queue + [pushed])[0]
  {
  }

  class FreeList {
    const pages: PageBuffer
    const version: nat    // the version of every item appended
    const minReader: nat  // items of smaller versions, and only those, may be popped
    var state: FLState

    ghost var g: Lists
    ghost const saved: Lists        // the list this update began on
    ghost const savedPages: Pages   // and the pages it began on

    constructor (pages: PageBuffer, state: FLState, version: nat, minReader: nat, ghost saved: Lists, ghost savedPages: Pages)
      requires minReader <= version
      requires Good(saved, version) && Settled(saved) && AtState(saved, state)
      requires Stores(pages.View(), saved) && saved.count == pages.Count()
      requires forall p :: p in saved.role && p != 0 ==> p in savedPages && pages.View()[p] == savedPages[p]
      requires Buffered(saved, pages.onDisk, pages.updates.Keys)
      requires forall p :: p in pages.updates ==> p in saved.role && p != 0
      ensures Valid() && Settled(g) && g == saved && this.state == state
      ensures this.pages == pages && this.version == version && this.minReader == minReader
      ensures this.saved == saved && this.savedPages == savedPages
    {
      this.pages, this.version, this.minReader, this.state := pages, version, minReader, state;
      this.g, this.saved, this.savedPages := saved, saved, savedPages;
      WrittenAtFirst(saved, pages.updates.Keys, version);
    }

    ghost predicate Valid()
      reads this, pages
    {
      Tracked(g, state, pages.View(), pages.updates.Keys, pages.onDisk, pages.Count(), saved, savedPages, minReader, version)
    }

    /** The next item, if it is reusable; drained is the head node if that emptied it. */
    method Pop() returns (ptr: nat, drained: nat)
      requires Valid()
      requires g.HasRoom() || (Items(g) != [] && Items(g)[|Items(g)| - 1].ver >= minReader)
      modifies this`state, this`g
      ensures Valid()
      ensures ptr == 0 ==> drained == 0 && g == old(g) && state == old(state)
      ensures ptr == 0 ==> forall i :: 0 <= i < |Items(g)| ==> Items(g)[i].ver >= minReader
      ensures ptr != 0 ==> PoppedTo(old(g), g, ptr, drained, minReader) && !Needed(saved, ptr, minReader)
      ensures drained != 0 <==> ptr != 0 && Slot(old(state.headSeq) + 1) == 0
      ensures state.headSeq == old(state.headSeq) + (if ptr != 0 then 1 else 0) && state.tailSeq == old(state.tailSeq)
    {
      hide Tracked, Good, Stores, Needed, Items, Popped, PoppedTo, AtState, CanPop;
      TrackedParts(g, state, pages.View(), pages.updates.Keys, pages.onDisk, pages.Count(), saved, savedPages, minReader, version);
      HeadOnPage(g, pages.View(), state, version);
      if state.headSeq == state.tailSeq {
        HeadDecides(g, version, minReader);
        return 0, 0;
      }
      var page := pages.Read(state.headPage);
      var node := page.AsList();
      var idx := Slot(state.headSeq);
      if !(node.slots[idx].ver < minReader) {
        HeadDecides(g, version, minReader);
        return 0, 0;
      }
      MayPop(g, version, minReader);
      PopTracked(g, state, pages.View(), pages.updates.Keys, pages.onDisk, pages.Count(), saved, savedPages, minReader, version, node.next);
      PopOutcome(g, version, minReader);
      ptr, drained := node.slots[idx].ptr, 0;
      state := state.(headSeq := state.headSeq + 1);
      if Slot(state.headSeq) == 0 {
        drained := state.headPage;
        state := state.(headPage := node.next);
      }
      g := Popped(g);
    }

    method AppendItem(ptr: nat)
      requires Valid() && g.HasRoom() && (ptr in HeldPages(g) || ptr in TransitPages(g))
      modifies this`state, this`g, pages`updates
      ensures Valid()
      ensures AppendedTo(old(g), g, ptr, version)
      ensures state.tailSeq == old(state.tailSeq) + 1 && state.headSeq == old(state.headSeq) && g.HasRoom() == (Slot(state.tailSeq) != 0)
      ensures HeldUnchanged(old(g), old(pages.View()), pages.View())
      ensures old(pages.updates).Keys <= pages.updates.Keys
    {
      hide Tracked, Good, Stores, Items, AtState, HeldPages, TransitPages, CanAppend, Appended, AppendedTo, HeldUnchanged;
      TrackedParts(g, state, pages.View(), pages.updates.Keys, pages.onDisk, pages.Count(), saved, savedPages, minReader, version);
      MayAppend(g, ptr, version);
      AppendTracked(g, ptr, state, pages.View(), pages.updates.Keys, pages.onDisk, pages.Count(), saved, savedPages, minReader, version);
      AppendOutcome(g, ptr, version);
      ghost var written := pages.updates.Keys + {state.tailPage};
      var idx := Slot(state.tailSeq);
      var page := pages.Use(state.tailPage);
      var updated := ListPage(StoreSlot(page.AsList(), idx, Item(ptr, version)));
      TailNodeNotHeld(g, pages.View(), version, updated);
      pages.Put(state.tailPage, updated);
      state := state.(tailSeq := state.tailSeq + 1);
      g := Appended(g, ptr, version);
      assert pages.updates.Keys == written;
    }

    /** Make next the node after a full tail node. */
    method LinkTail(next: nat)
      requires Valid() && !g.HasRoom() && next in HeldPages(g) && !Needed(saved, next, minReader)
      modifies this`state, this`g, pages`updates
      ensures Valid() && g.HasRoom() && Slot(state.tailSeq) == 0
      ensures HeldPages(g) == HeldPages(old(g)) - {next} && SameQueue(old(g), g)
      ensures HeldUnchanged(old(g), old(pages.View()), pages.View())
      ensures old(pages.updates).Keys <= pages.updates.Keys
    {
      hide Tracked, Good, Stores, Items, AtState, Needed, Linked, HeldPages, CanLink, SameQueue, HeldUnchanged;
      TrackedParts(g, state, pages.View(), pages.updates.Keys, pages.onDisk, pages.Count(), saved, savedPages, minReader, version);
      MayLink(g, next, version);
      LinkTracked(g, next, state, pages.View(), pages.updates.Keys, pages.onDisk, pages.Count(), saved, savedPages, minReader, version);
      LinkOutcome(g, next, version);
      ghost var written := pages.updates.Keys + {state.tailPage};
      var page := pages.Use(state.tailPage);
      var updated := ListPage(StoreNext(page.AsList(), next));
      TailNodeNotHeld(g, pages.View(), version, updated);
      pages.Put(state.tailPage, updated);
      state := state.(tailPage := next);
      g := Linked(g, next);
      assert pages.updates.Keys == written;
    }

    /** A page from past the end of the file. */
    method AppendPage() returns (ptr: nat)
      requires Valid()
      modifies this`g, pages
      ensures Valid() && g.HasRoom() == old(g).HasRoom() && pages.Count() == old(pages.Count()) + 1
      ensures ptr != 0 && !Needed(saved, ptr, minReader)
      ensures ptr !in HeldPages(old(g)) && HeldPages(g) == HeldPages(old(g)) + {ptr}
      ensures SameQueue(old(g), g)
      ensures HeldUnchanged(old(g), old(pages.View()), pages.View())
      ensures old(pages.updates).Keys <= pages.updates.Keys
    {
      hide Tracked, Good, Stores, HeldPages, SameQueue, AtState, Needed;
      TrackedParts(g, state, pages.View(), pages.updates.Keys, pages.onDisk, pages.Count(), saved, savedPages, minReader, version);
      ExtendTracked(g, ZeroPage(), state, pages.View(), pages.updates.Keys, pages.onDisk, pages.Count(), saved, savedPages, minReader, version);
      ExtendOutcome(g, version);
      ghost var written := pages.updates.Keys + {g.count};
      ptr := pages.Append();
      g := Extended(g);
      assert pages.updates.Keys == written;
    }

    /**
     * Link a new node after a full tail node: the oldest item if it is reusable, else an appended page. A node drained
     * by taking that item goes back into the list.
     */
    method Refill() returns (ghost taken: nat, ghost recycled: seq<Item>)
      requires Valid() && !g.HasRoom() && TransitPages(g) == {}
      requires Items(g) != [] && Items(g)[|Items(g)| - 1].ver >= minReader
      modifies this`state, this`g, pages
      ensures Valid() && g.HasRoom() && TransitPages(g) == {}
      ensures HeldPages(g) == HeldPages(old(g))
      ensures HeldUnchanged(old(g), old(pages.View()), pages.View())
      ensures old(pages.updates).Keys <= pages.updates.Keys
      ensures taken < |Items(old(g))| && taken == (if Items(old(g))[0].ver < minReader then 1 else 0)
      ensures pages.Count() == old(pages.Count()) + 1 - taken
      ensures |recycled| == (if taken == 1 && Slot(old(state.headSeq) + 1) == 0 then 1 else 0)
      ensures |recycled| == 1 ==> recycled[0].ver == version
      ensures Items(g) == Items(old(g))[taken..] + recycled
    {
      hide Tracked, Good, Stores, Items, Needed, HeldPages, TransitPages, AtState, Popped, CanPop;
      taken, recycled := 0, [];
      var next, drained := Pop();
      if next == 0 {
        next := AppendPage();
      } else {
        taken := 1;
      }
      LinkTail(next);
      if drained != 0 {
        AppendItem(drained);
        recycled := [Item(drained, version)];
      }
      assert TransitPages(g) == {} && HeldPages(g) == HeldPages(old(g));
    }

    /**
     * Hand ptr over for later reuse. The queue gains ptr at the back; when that fills the tail node, one reusable
     * item may be taken off the front as the next node, and the node drained by that follows ptr.
     */
    method PushTail(ptr: nat) returns (ghost taken: nat, ghost recycled: seq<Item>)
      requires Valid() && g.HasRoom()
      requires (ptr in HeldPages(g) && TransitPages(g) == {}) || TransitPages(g) == {ptr}
      modifies this`state, this`g, pages
      ensures Valid() && Settled(g)
      ensures HeldPages(g) == HeldPages(old(g)) - {ptr}
      ensures HeldUnchanged(g, old(pages.View()), pages.View())
      ensures old(pages.updates).Keys <= pages.updates.Keys
      ensures taken <= |Items(old(g))|
      ensures taken == if Slot(old(state.tailSeq) + 1) == 0 && Items(old(g)) != [] && Items(old(g))[0].ver < minReader then 1 else 0
      ensures pages.Count() == old(pages.Count()) + if Slot(old(state.tailSeq) + 1) == 0 && taken == 0 then 1 else 0
      ensures |recycled| == (if taken == 1 && Slot(old(state.headSeq) + 1) == 0 then 1 else 0)
      ensures |recycled| == 1 ==> recycled[0].ver == version
      ensures Items(g) == Items(old(g))[taken..] + [Item(ptr, version)] + recycled
    {
      hide Tracked, Good, Stores, Items, Needed, HeldPages, TransitPages, AtState, Popped, HeldUnchanged;
      TrackedParts(g, state, pages.View(), pages.updates.Keys, pages.onDisk, pages.Count(), saved, savedPages, minReader, version);
      taken, recycled := 0, [];
      AppendItem(ptr);
      assert TransitPages(g) == {};
      ghost var full, fullView := g, pages.View();
      if Slot(state.tailSeq) != 0 {
        HeldUnchangedChain(old(g), g, g, old(pages.View()), fullView, fullView);
        return;
      }
      taken, recycled := Refill();
      HeldUnchangedChain(old(g), full, g, old(pages.View()), fullView, pages.View());
      QueueAfterPush(Items(old(g)), Item(ptr, version), taken, minReader);
    }

    /**
     * The oldest item's page if its version is below minReader, else 0. A node drained by that is pushed, which may
     * take one more item off the front as a list node.
     */
    method PopHead() returns (ptr: nat, ghost taken: nat, ghost pushed: seq<Item>)
      requires Valid() && Settled(g)
      modifies this`state, this`g, pages
      ensures Valid() && Settled(g)
      ensures HeldUnchanged(old(g), old(pages.View()), pages.View())
      ensures old(pages.updates).Keys <= pages.updates.Keys
      ensures ptr == 0 ==> g == old(g) && pages.View() == old(pages.View()) && pages.Count() == old(pages.Count())
      ensures ptr == 0 <==> forall i :: 0 <= i < |Items(old(g))| ==> Items(old(g))[i].ver >= minReader
      ensures ptr != 0 ==> ptr !in HeldPages(old(g)) && HeldPages(g) == HeldPages(old(g)) + {ptr}
      ensures ptr != 0 ==> !Needed(saved, ptr, minReader)
      ensures ptr != 0 ==> taken <= |Items(old(g))| && Items(old(g))[0].ptr == ptr
      ensures ptr != 0 ==>
                var refill := Slot(old(state.headSeq) + 1) == 0 && Slot(old(state.tailSeq) + 1) == 0;
                var more := |Items(old(g))| > 1 && Items(old(g))[1].ver < minReader;
                && taken == (if refill && more then 2 else 1)
                && pages.Count() == old(pages.Count()) + if refill && !more then 1 else 0
      ensures ptr != 0 ==> (forall i :: 0 <= i < taken ==> Items(old(g))[i].ver < minReader)
      ensures ptr != 0 ==> |pushed| <= taken && (forall i :: 0 <= i < |pushed| ==> pushed[i].ver == version)
      ensures ptr != 0 ==> Items(g) == Items(old(g))[taken..] + pushed
    {
      hide Tracked, Good, Stores, Items, Needed, HeldPages, TransitPages, AtState, Popped, HeldUnchanged, CanPop, Popped;
      pushed := [];
      var drained;
      ptr, drained := Pop();
      taken := 1;
      HeldUnchangedRefl(old(g), pages.View());
      if drained != 0 {
        ghost var popped, poppedView := g, pages.View();
        ghost var more, recycled := PushTail(drained);
        taken, pushed := taken + more, [Item(drained, version)] + recycled;
        HeldUnchangedChain(old(g), g, old(g), old(pages.View()), poppedView, pages.View());
      }
    }
  }
}
