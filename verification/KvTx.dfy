/** The page side of a write transaction (KVTX in include/storage/kv.h and src/storage/kv.cpp). */
module KvTx {
  import opened Nodes
  import opened FreeLists
  import opened TxPages

  class KVTX {
    const pages: PageBuffer
    const free: FreeList
    var root: nat

    constructor (pages: PageBuffer, free: FreeList, root: nat)
      requires free.pages == pages && free.Valid() && Settled(free.g) && free.g == free.saved
      ensures Valid() && this.pages == pages && this.free == free && this.root == root
    {
      this.pages, this.free, this.root := pages, free, root;
    }

    ghost predicate Valid()
      reads free, pages
    {
      free.pages == pages && free.Valid() && Settled(free.g) && NewPagesBuffered()
    }

    /** A page the tree took during this transaction is buffered, so a commit writes it. */
    ghost predicate NewPagesBuffered()
      reads free, pages
    {
      forall p :: p in HeldPages(free.g) && p !in pages.updates ==> p in HeldPages(free.saved)
    }

    ghost function View(): Pages
      reads pages
    {
      pages.View()
    }

    /** The pages handed out to the tree and not freed yet. */
    ghost function Held(): set<nat>
      reads free
    {
      HeldPages(free.g)
    }

    /** A page that the state this transaction began on, or an older one still read, relies on. */
    ghost predicate Pinned(p: nat)
    {
      Needed(free.saved, p, free.minReader)
    }

    /** The meta page is never held. */
    lemma HeldIsNonZero()
      requires Valid()
      ensures 0 !in Held()
    {
    }

    method PageGet(ptr: nat, ghost node: Node) returns (r: Node)
      requires HasNode(View(), ptr, node)
      ensures r == node
    {
      var page := pages.Read(ptr);
      r := page.node;
    }

    /**
     * A page that was not held, and that nothing saved relies on, now holds node. It is the oldest listed page if that one
     * is reusable, and then the file does not grow, unless recycling a drained list node fills the last one with nothing
     * else to reuse.
     */
    method PageNew(node: Node) returns (ptr: nat)
      requires Valid()
      modifies free`state, free`g, pages
      ensures Valid()
      ensures ptr != 0 && ptr !in old(Held()) && !Pinned(ptr)
      ensures Held() == old(Held()) + {ptr}
      ensures HasNode(View(), ptr, node)
      ensures Unchanged(old(Held()), old(View()), View())
      ensures var q, m := old(Items(free.g)), free.minReader;
              if q != [] && q[0].ver < m then
                && ptr == q[0].ptr
                && pages.Count() == old(pages.Count()) +
                     if Slot(old(free.state.headSeq) + 1) == 0 && Slot(old(free.state.tailSeq) + 1) == 0 && !(|q| > 1 && q[1].ver < m) then 1 else 0
              else ptr == old(pages.Count()) && pages.Count() == old(pages.Count()) + 1
    {
      hide Tracked, Good, Stores, Items, Needed, HeldPages, TransitPages, AtState;
      var stale: LNode := *;
      ghost var taken, pushed;
      ptr, taken, pushed := free.PopHead();
      ghost var written := pages.updates.Keys;
      TrackedParts(free.g, free.state, pages.View(), written, pages.onDisk, pages.Count(), free.saved, free.savedPages, free.minReader, free.version);
      if ptr == 0 {
        ExtendEffect(free.g, free.version);
        ExtendTracked(free.g, TreePage(node, stale), free.state, pages.View(), written, pages.onDisk, pages.Count(), free.saved, free.savedPages, free.minReader, free.version);
        ptr := pages.flushed + pages.append;
        pages.append := pages.append + 1;
        pages.Put(ptr, TreePage(node, stale));
        free.g := Extended(free.g);
      } else {
        WriteTracked(free.g, ptr, TreePage(node, stale), free.state, pages.View(), written, pages.onDisk, pages.Count(), free.saved, free.savedPages, free.minReader, free.version);
        pages.Put(ptr, TreePage(node, stale));
      }
      assert pages.updates.Keys == written + {ptr};
    }

    /** ptr is held no longer and listed as freed at this version; no other held page changes. */
    method PageDel(ptr: nat)
      requires Valid() && ptr in Held()
      modifies free`state, free`g, pages
      ensures Valid()
      ensures Held() == old(Held()) - {ptr}
      ensures Unchanged(Held(), old(View()), View())
      ensures Item(ptr, free.version) in Items(free.g)
      ensures var q, fills := old(Items(free.g)), Slot(old(free.state.tailSeq) + 1) == 0;
              pages.Count() == old(pages.Count()) + if fills && !(q != [] && q[0].ver < free.minReader) then 1 else 0
    {
      hide Tracked, Good, Stores, Items, Needed, HeldPages, TransitPages, AtState;
      ghost var taken, recycled := free.PushTail(ptr);
      assert Items(free.g)[|old(Items(free.g))[taken..]|] == Item(ptr, free.version);
    }
  }
}
