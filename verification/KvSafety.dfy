/** Every step of the store keeps its invariant, so every run does. */
module KvSafety {
  import opened FreeLists
  import opened Trees
  import opened TreeEdit
  import opened KvStates

  // ----------------------------------------------------- pages kept by a change of view

  /** Every page a still needs serves it in view w. */
  ghost predicate AllServe(a: Version, w: Pages)
  {
    forall p :: Needed(a.g, p, a.num) ==> p in a.g.role && p in a.img && p in w && Serves(a.g, a.img, p, w[p])
  }

  lemma KeptServes(a: Version, g: Lists, view: Pages)
    requires Keeps(a.g, a.img, g, view, a.num, a.num)
    ensures AllServe(a, view)
  {
  }

  lemma KeepsElsewhere(a: Version, g: Lists, view: Pages, w: Pages)
    requires Keeps(a.g, a.img, g, view, a.num, a.num) && AllServe(a, w)
    ensures Keeps(a.g, a.img, g, w, a.num, a.num)
  {
  }

  /** A version serves itself on the pages it was committed on. */
  lemma KeepsSelf(a: Version, view: Pages)
    requires VersionOk(a) && AllServe(a, view)
    ensures Keeps(a.g, a.img, a.g, view, a.num, a.num)
  {
    KeepsReflexive(a.g, a.img, a.num, a.num);
  }

  lemma TornServes(s: Lists, sv: Pages, p: nat, a: Page, b: Page, c: Page)
    requires p in s.role && p in sv && Serves(s, sv, p, a) && Serves(s, sv, p, b) && Torn(a, b, c)
    ensures Serves(s, sv, p, c)
  {
    if s.role[p].ListNode? {
      var block := s.role[p].block;
      forall i | 0 <= i < CAP && block * CAP + i < s.tail
        ensures sv[p].AsList().slots[i] == c.AsList().slots[i]
      {
        assert sv[p].AsList().slots[i] == a.AsList().slots[i] == b.AsList().slots[i];
      }
    }
  }

  /** One page overwritten, wholly or torn, by a page that also serves. */
  lemma ServesAfterWrite(a: Version, w: Pages, p: nat, b: Page, c: Page)
    requires AllServe(a, w) && MayTear(w, p, b, c)
    requires Needed(a.g, p, a.num) ==> p in a.g.role && p in a.img && Serves(a.g, a.img, p, b)
    ensures AllServe(a, w[p := c])
  {
    hide Serves, Torn, Needed;
    if Needed(a.g, p, a.num) {
      TornServes(a.g, a.img, p, w[p], b, c);
    }
  }

  lemma ServesAfterFlush(a: Version, cache: Pages, disk: Pages, dirty: set<nat>)
    requires AllServe(a, cache) && AllServe(a, disk)
    ensures AllServe(a, Flushed(cache, disk, dirty))
  {
    hide Serves, Needed;
  }

  /** What a transaction does keeps every version that min_reader protects. */
  lemma KeptByTx(a: Version, v: Version, tx: Tx)
    requires 1 <= a.num <= v.num && VersionOk(v) && TxOk(v, tx) && tx.minReader <= a.num
    requires Keeps(a.g, a.img, v.g, tx.mapped, a.num, a.num)
    ensures Keeps(a.g, a.img, tx.g, tx.View(), a.num, a.num)
  {
    hide RootOk, RootFits, Buffered, ListWritten, Stores, Good, AtState, Needed, KeepsRole, Serves;
    assert Keeps(v.g, tx.mapped, tx.g, tx.View(), tx.minReader, v.num);
    assert forall p :: p in v.g.role && v.g.role[p].Transit? ==> p in TransitPages(v.g);
    KeepsTransitive(a.g, a.img, v.g, tx.mapped, tx.g, tx.View(), a.num, tx.minReader, v.num);
  }

  // ------------------------------------------------------------ a version about to be published

  lemma TxParts(v: Version, tx: Tx)
    requires TxOk(v, tx)
    ensures Good(tx.g, v.num) && Stores(tx.View(), tx.g) && AtState(tx.g, tx.free)
    ensures Buffered(tx.g, OnDisk(v), tx.updates.Keys) && ListWritten(v.g, tx.g, tx.updates.Keys)
    ensures v.g.count <= tx.g.count
  {
  }

  lemma CommittedOk(v: Version, tx: Tx)
    requires VersionOk(v) && TxOk(v, tx)
    ensures VersionOk(Committed(v, tx))
  {
    hide RootOk, RootFits, Stores, AtState, Settled, Tracked;
    TxParts(v, tx);
  }

  /** A page of the new version that the transaction did not write is a page of the old one, seen no further than there. */
  lemma UnwrittenNode(v: Version, tx: Tx, p: nat, disk: Page, mapped: Page)
    requires Good(v.g, v.num) && Good(tx.g, v.num) && ListWritten(v.g, tx.g, tx.updates.Keys)
    requires p in tx.g.role && tx.g.role[p].ListNode? && p !in tx.updates
    requires p in v.img && p in v.g.role && v.g.role[p].ListNode? ==> Serves(v.g, v.img, p, disk) && Serves(v.g, v.img, p, mapped)
    requires p in v.g.role && v.g.role[p].ListNode? ==> p in v.img
    ensures SameBelow(mapped.AsList(), disk.AsList(), tx.g.role[p].block, tx.g.tail, tx.g.role[p].block < tx.g.last)
  {
    var b := tx.g.role[p].block;
    assert tx.g.LiveNode(b) && tx.g.nodes[b] == p;
    assert b < tx.g.last ==> b < v.g.last;
    if b <= v.g.last {
      assert v.g.nodes[b] == p && v.g.LiveNode(b) && v.g.role[p] == ListNode(b);
    }
    forall i | 0 <= i < CAP && b * CAP + i < tx.g.tail
      ensures mapped.AsList().slots[i] == disk.AsList().slots[i]
    {
      BlockOf(b, i);
      assert b * CAP + i < v.g.tail;
    }
  }

  lemma BlockOf(b: nat, i: nat)
    requires i < CAP
    ensures Block(b * CAP + i) == b && Slot(b * CAP + i) == i
  {
  }

  lemma CommittedOnDisk(v: Version, tx: Tx, disk: Pages)
    requires VersionOk(v) && TxOk(v, tx) && (v.num == 0 ==> v.g == EMPTY_LIST)
    requires v.num > 0 ==> AllServe(v, tx.mapped) && AllServe(v, disk)
    requires forall p :: p in tx.updates ==> p in disk && disk[p] == tx.updates[p]
    requires v.num > 0 ==> forall p :: p in v.g.role && p != 0 ==> p in disk
    ensures AllServe(Committed(v, tx), disk)
    ensures forall p :: p in tx.g.role && p != 0 ==> p in disk
  {
    hide RootOk, RootFits, AtState, Settled, Tracked, ListWritten, Stores, Partitioned, SameBelow, Good;
    TxParts(v, tx);
    forall p | p in tx.g.role && p != 0
      ensures p in disk
    {
      if p !in tx.updates {
        OldPage(v, tx, p);
      }
    }
    forall p | Needed(tx.g, p, v.num + 1)
      ensures p in tx.View() && p in disk && Serves(tx.g, tx.View(), p, disk[p])
    {
      NeededPage(v, tx, p);
      if p in tx.updates {
        SameBelowSelf(tx.updates[p].AsList(), tx.g, p);
      } else if tx.g.role[p].ListNode? {
        OldPage(v, tx, p);
        OldNode(v, p);
        UnwrittenNode(v, tx, p, disk[p], tx.mapped[p]);
      } else {
        assert p in HeldPages(tx.g) && p in HeldPages(v.g);
        OldHeld(v, p);
      }
    }
  }

  lemma SameBelowSelf(l: LNode, g: Lists, p: nat)
    ensures p in g.role && g.role[p].ListNode? ==> SameBelow(l, l, g.role[p].block, g.tail, g.role[p].block < g.last)
  {
  }

  lemma NeededPage(v: Version, tx: Tx, p: nat)
    requires TxOk(v, tx) && Needed(tx.g, p, v.num + 1)
    ensures p != 0 && p in tx.View() && (tx.g.role[p].Held? || tx.g.role[p].ListNode?)
  {
    TxParts(v, tx);
  }

  lemma OldPage(v: Version, tx: Tx, p: nat)
    requires VersionOk(v) && TxOk(v, tx) && p in tx.g.role && p != 0 && p !in tx.updates && (v.num == 0 ==> v.g == EMPTY_LIST)
    ensures v.num > 0 && p in v.g.role
  {
    TxParts(v, tx);
    assert p >= OnDisk(v) ==> p in tx.updates.Keys;
  }

  lemma OldNode(v: Version, p: nat)
    requires VersionOk(v)
    ensures Good(v.g, v.num)
    ensures p in v.g.role && v.g.role[p].ListNode? ==> Needed(v.g, p, v.num) && p in v.img
  {
    if p in v.g.role && v.g.role[p].ListNode? {
      assert p != 0;
    }
  }

  lemma OldHeld(v: Version, p: nat)
    requires VersionOk(v) && p in HeldPages(v.g)
    ensures Needed(v.g, p, v.num) && p in v.g.role && v.g.role[p].Held? && (v.num == 0 ==> v.g != EMPTY_LIST)
  {
  }

  // ------------------------------------------------------------ frames

  /** Nothing becomes protected that was not. */
  ghost predicate NoneProtected(s: State, t: State)
  {
    t.versions == s.versions && forall n: nat :: t.Protected(n) ==> s.Protected(n)
  }

  lemma KeptFrame(s: State, t: State, view: Pages)
    requires s.versions != [] && Kept(s, view) && NoneProtected(s, t)
    ensures Kept(t, view)
  {
    hide Keeps;
  }

  lemma StorageFrame(s: State, t: State)
    requires s.versions != [] && Storage(s) && NoneProtected(s, t) && t.durable == s.durable
    requires t.cache == s.cache && t.disk == s.disk && t.meta == s.meta && t.metaDisk == s.metaDisk
    ensures Storage(t)
  {
    hide Kept;
    KeptFrame(s, t, s.cache);
    KeptFrame(s, t, s.disk);
  }

  lemma KeptElsewhere(s: State, view: Pages, w: Pages)
    requires s.versions != [] && Kept(s, view) && History(s)
    requires forall n: nat :: 1 <= n && s.Protected(n) ==> AllServe(s.versions[n], w)
    ensures Kept(s, w)
  {
    hide Keeps, AllServe, VersionOk;
    forall n: nat | 1 <= n && s.Protected(n)
      ensures Keeps(s.versions[n].g, s.versions[n].img, s.Current().g, w, n, n)
    {
      KeepsElsewhere(s.versions[n], s.Current().g, view, w);
    }
  }

  lemma ProtectedServes(s: State, view: Pages, n: nat)
    requires History(s) && Kept(s, view) && 1 <= n && s.Protected(n)
    ensures AllServe(s.versions[n], view)
  {
    hide Keeps, AllServe, VersionOk;
    KeptServes(s.versions[n], s.Current().g, view);
  }

  /** Every protected version survives the running transaction. */
  lemma TxServes(s: State, tx: Tx, n: nat)
    requires History(s) && RunningTx(s, tx) && 1 <= n && s.Protected(n)
    ensures Keeps(s.versions[n].g, s.versions[n].img, tx.g, tx.View(), n, n)
    ensures AllServe(s.versions[n], tx.View())
  {
    hide Keeps, AllServe, VersionOk, TxOk;
    KeptByTx(s.versions[n], s.Current(), tx);
    KeptServes(s.versions[n], tx.g, tx.View());
  }

  /** The kernel copying cache to disk, however torn, keeps every protected version on disk. */
  lemma WriteBackKept(s: State, p: nat, c: Page)
    requires History(s) && Kept(s, s.cache) && Kept(s, s.disk) && p in s.cache && MayTear(s.disk, p, s.cache[p], c)
    ensures Kept(s, s.disk[p := c])
  {
    hide Keeps, AllServe, VersionOk, MayTear;
    forall n: nat | 1 <= n && s.Protected(n)
      ensures AllServe(s.versions[n], s.disk[p := c])
    {
      var a := s.versions[n];
      ProtectedServes(s, s.cache, n);
      ProtectedServes(s, s.disk, n);
      ServesAt(a, s.cache, p);
      ServesAfterWrite(a, s.disk, p, s.cache[p], c);
    }
    KeptElsewhere(s, s.disk, s.disk[p := c]);
  }

  lemma ServesAt(a: Version, w: Pages, p: nat)
    requires AllServe(a, w) && p in w
    ensures Needed(a.g, p, a.num) ==> p in a.g.role && p in a.img && Serves(a.g, a.img, p, w[p])
  {
  }

  /** A page write of the first phase, even one cut short, keeps every protected version in the cache. */
  lemma PageWriteKept(s: State, tx: Tx, p: nat, c: Page)
    requires History(s) && Kept(s, s.cache) && RunningTx(s, tx) && p in tx.updates && MayTear(s.cache, p, tx.updates[p], c)
    ensures Kept(s, s.cache[p := c])
  {
    hide Keeps, AllServe, VersionOk, TxOk, MayTear;
    forall n: nat | 1 <= n && s.Protected(n)
      ensures AllServe(s.versions[n], s.cache[p := c])
    {
      var a := s.versions[n];
      ProtectedServes(s, s.cache, n);
      TxServes(s, tx, n);
      ServesAt(a, tx.View(), p);
      ServesAfterWrite(a, s.cache, p, tx.updates[p], c);
    }
    KeptElsewhere(s, s.cache, s.cache[p := c]);
  }

  lemma FlushKept(s: State)
    requires History(s) && Kept(s, s.cache) && Kept(s, s.disk)
    ensures Kept(s, Flushed(s.cache, s.disk, s.dirty))
  {
    hide Keeps, AllServe, VersionOk;
    forall n: nat | 1 <= n && s.Protected(n)
      ensures AllServe(s.versions[n], Flushed(s.cache, s.disk, s.dirty))
    {
      ProtectedServes(s, s.cache, n);
      ProtectedServes(s, s.disk, n);
      ServesAfterFlush(s.versions[n], s.cache, s.disk, s.dirty);
    }
    KeptElsewhere(s, s.disk, Flushed(s.cache, s.disk, s.dirty));
  }

  lemma TxFrame(s: State, t: State, tx: Tx)
    requires History(s) && RunningTx(s, tx) && NoneProtected(s, t)
    requires t.durable == s.durable && forall id :: id in t.readers ==> tx.minReader <= t.readers[id]
    ensures RunningTx(t, tx)
  {
    hide Kept, TxOk, VersionOk;
    KeptFrame(s, t, tx.mapped);
  }

  lemma TxStays(s: State, t: State, tx: Tx)
    requires History(s) && RunningTx(s, tx) && NoneProtected(s, t)
    requires t.durable == s.durable && t.readers == s.readers
    ensures RunningTx(t, tx)
  {
    hide Kept, TxOk, VersionOk;
    TxFrame(s, t, tx);
  }

  // ------------------------------------------------------------ steps outside a commit

  lemma ReadStep(s: State, e: Step)
    requires Inv(s) && Enabled(s, e) && (e.BeginRead? || e.EndRead?)
    ensures Inv(After(s, e))
  {
    hide Storage, RunningTx, VersionOk, Writing, MetaPage.Valid;
    var t := After(s, e);
    assert NoneProtected(s, t);
    StorageFrame(s, t);
    match s.writer {
      case Active(tx) => TxReads(s, t, tx);
      case Flushing(tx, todo) =>
        TxReads(s, t, tx);
        WritingFrame(s, t, tx, todo);
      case Synced(tx) => TxReads(s, t, tx);
      case _ =>
    }
  }

  lemma TxReads(s: State, t: State, tx: Tx)
    requires History(s) && RunningTx(s, tx) && NoneProtected(s, t) && t.durable == s.durable
    requires forall id :: id in t.readers ==> (id in s.readers && t.readers[id] == s.readers[id]) || t.readers[id] == |s.versions| - 1
    ensures RunningTx(t, tx)
  {
    hide Kept, TxOk, VersionOk;
    assert tx.minReader <= |s.versions| - 1;
    TxFrame(s, t, tx);
  }

  lemma WritingFrame(s: State, t: State, tx: Tx, todo: set<nat>)
    requires Writing(s, tx, todo) && t.cache == s.cache && t.dirty == s.dirty
    ensures Writing(t, tx, todo)
  {
  }

  lemma BeginStep(s: State, m: nat)
    requires Inv(s) && Enabled(s, Begin(m))
    ensures Inv(After(s, Begin(m)))
  {
    hide Kept, Storage, VersionOk, TxOk, MetaPage.Valid;
    var t := After(s, Begin(m));
    StorageFrame(s, t);
    StorageParts(s);
    NewTxOk(s, m);
    KeptFrame(s, t, s.cache);
  }

  lemma StorageParts(s: State)
    requires s.versions != [] && Storage(s)
    ensures Kept(s, s.cache) && Kept(s, s.disk) && Covers(s, s.cache) && Covers(s, s.disk)
    ensures MetaOk(s, s.meta) && MetaOk(s, s.metaDisk)
  {
  }

  lemma CurrentInCache(s: State)
    requires History(s) && Kept(s, s.cache)
    ensures |s.versions| > 1 ==> AllServe(s.Current(), s.cache)
  {
    hide Keeps, Kept, VersionOk, AllServe;
    if |s.versions| > 1 {
      assert s.Protected(|s.versions| - 1);
      ProtectedServes(s, s.cache, |s.versions| - 1);
    }
  }

  lemma NewTxOk(s: State, m: nat)
    requires History(s) && Kept(s, s.cache) && Covers(s, s.cache) && m <= s.durable
    ensures TxOk(s.Current(), NewTx(s, m))
  {
    hide Keeps, Kept, VersionOk, AllServe, TxOk, Covers;
    CurrentInCache(s);
    var v := s.Current();
    if |s.versions| == 1 {
      FirstTx(s.cache, m);
    } else {
      CoversCurrent(s, s.cache);
      LaterTx(v, s.cache, m);
    }
  }

  lemma CoversCurrent(s: State, view: Pages)
    requires History(s) && Covers(s, view) && |s.versions| > 1
    ensures forall p :: p in s.Current().g.role && p != 0 ==> p in view
  {
  }

  lemma FirstTx(cache: Pages, m: nat)
    requires m == 0
    ensures TxOk(FirstVersion(), Tx(cache, map[1 := ZeroPage()], 0, m, Empty, FLState(1, 0, 1, 0), EMPTY_LIST, false))
  {
    var v := FirstVersion();
    var tx := Tx(cache, map[1 := ZeroPage()], 0, m, Empty, FLState(1, 0, 1, 0), EMPTY_LIST, false);
    FirstIsOk();
    assert tx.View() == Base(v, cache);
    assert Stores(tx.View(), EMPTY_LIST);
    KeepsReflexive(EMPTY_LIST, tx.View(), 0, m);
    WrittenAtFirst(EMPTY_LIST, tx.updates.Keys, 0);
    assert HeldPages(EMPTY_LIST) == {};
  }

  lemma FirstIsOk()
    ensures VersionOk(FirstVersion())
  {
    assert HeldPages(EMPTY_LIST) == {};
    assert TransitPages(EMPTY_LIST) == {};
  }

  lemma LaterTx(v: Version, cache: Pages, m: nat)
    requires VersionOk(v) && v.num > 0 && AllServe(v, cache) && m <= v.num
    requires forall p :: p in v.g.role && p != 0 ==> p in cache
    ensures TxOk(v, Tx(cache, map[], 0, m, v.rt, v.free, v.g, false))
  {
    hide RootOk, RootFits, ListWritten, Keeps, Stores, AllServe, AtState, Good, Settled;
    var tx := Tx(cache, map[], 0, m, v.rt, v.free, v.g, false);
    assert tx.View() == cache && tx.updates.Keys == {};
    StoredInCache(v, cache);
    KeepsReflexive(v.g, cache, v.num, m);
    WrittenAtFirst(v.g, {}, v.num);
    GoodCount(v.g, v.num);
  }

  lemma GoodCount(g: Lists, version: nat)
    requires Good(g, version)
    ensures Partitioned(g) && Buffered(g, g.count, {})
  {
  }

  /** The cache holds the current version: its list by the slots that count, its tree byte for byte. */
  lemma StoredInCache(v: Version, cache: Pages)
    requires VersionOk(v) && AllServe(v, cache)
    requires forall p :: p in v.g.role && p != 0 ==> p in cache
    ensures Stores(cache, v.g) && RootOk(v.rt, cache, HeldPages(v.g))
  {
    hide RootOk, RootFits, AllServe, Settled;
    ListInView(v, cache);
    TreeInView(v, cache);
  }

  lemma ListInView(v: Version, w: Pages)
    requires Good(v.g, v.num) && Stores(v.img, v.g) && AllServe(v, w)
    requires forall p :: p in v.g.role && p != 0 ==> p in w
    ensures Stores(w, v.g)
  {
    forall b: nat | v.g.LiveNode(b) && b < v.g.last
      ensures NextStored(w, v.g, b)
    {
      assert NextStored(v.img, v.g, b) && Needed(v.g, v.g.nodes[b], v.num);
    }
    forall i: nat | v.g.LiveItem(i)
      ensures ItemStored(w, v.g, i)
    {
      assert ItemStored(v.img, v.g, i);
      ItemNode(v.g, i, v.num);
      assert Needed(v.g, v.g.nodes[Block(i)], v.num);
    }
  }

  lemma TreeInView(v: Version, w: Pages)
    requires RootOk(v.rt, v.img, HeldPages(v.g)) && AllServe(v, w)
    ensures RootOk(v.rt, w, HeldPages(v.g))
    ensures forall p :: p in HeldPages(v.g) ==> p in w && p in v.img && w[p] == v.img[p]
  {
    forall p | p in HeldPages(v.g)
      ensures p in w && p in v.img && w[p] == v.img[p]
    {
      assert Needed(v.g, p, v.num);
    }
    if v.rt.Rooted? {
      StoredFrame(v.img, w, [v.rt.t]);
      assert StoredT(w, [v.rt.t][0]);
    }
  }

  lemma UpdateStep(s: State, change: Change, tx: Tx)
    requires Inv(s) && Enabled(s, Update(change, tx))
    ensures Inv(After(s, Update(change, tx)))
  {
    hide Storage, Kept, VersionOk, TxOk, MetaPage.Valid, Contents, Needed;
    var t := After(s, Update(change, tx));
    StorageFrame(s, t);
    KeptFrame(s, t, s.cache);
    RootIsPinned(s.Current(), tx.minReader);
  }

  /** The root a transaction began with is a page it may not reuse, so a root it moved to is another one. */
  lemma RootIsPinned(v: Version, minReader: nat)
    requires VersionOk(v)
    ensures RootPage(v.rt) == 0 || Needed(v.g, RootPage(v.rt), minReader)
  {
    if v.rt.Rooted? {
      RootIsLoose(v.rt, v.img, HeldPages(v.g));
    }
  }

  // ------------------------------------------------------------ the first phase

  /** Steps that only end or hand on the transaction. */
  lemma EndStep(s: State, e: Step)
    requires Inv(s) && Enabled(s, e)
    requires e.Abort? || e.CommitNothing? || e.StartFlush? || e.WriteFails? || e.MetaFails? || e.SyncFails?
    ensures Inv(After(s, e))
  {
    hide Storage, Kept, VersionOk, TxOk, MetaPage.Valid;
    var t := After(s, e);
    StorageFrame(s, t);
    if e.StartFlush? {
      TxFrame(s, t, s.writer.tx);
    }
  }

  lemma WriteStep(s: State, e: Step)
    requires Inv(s) && Enabled(s, e) && (e.WritePage? || e.TearPage?)
    ensures Inv(After(s, e))
  {
    hide Storage, Kept, Covers, VersionOk, RunningTx, MetaPage.Valid, Writing;
    var t := After(s, e);
    var tx := s.writer.tx;
    var c := if e.WritePage? then tx.updates[e.p] else e.c;
    StorageParts(s);
    assert MayTear(s.cache, e.p, tx.updates[e.p], c);
    PageWriteKept(s, tx, e.p, c);
    assert NoneProtected(s, t);
    KeptFrame(s, t, t.cache);
    KeptFrame(s, t, s.disk);
    CoversMore(s, t, s.cache, t.cache);
    CoversMore(s, t, s.disk, s.disk);
    MetaFrame(s, t);
    StorageOf(t);
    TxStays(s, t, tx);
    WritingOn(s, t, tx, e.p);
  }

  lemma CoversMore(s: State, t: State, v: Pages, w: Pages)
    requires s.versions != [] && t.versions == s.versions && Covers(s, v) && v.Keys <= w.Keys
    ensures Covers(t, w)
  {
    assert forall p :: p in v ==> p in w;
  }

  lemma MetaFrame(s: State, t: State)
    requires MetaOk(s, s.meta) && MetaOk(s, s.metaDisk) && t.versions == s.versions && t.durable == s.durable
    ensures MetaOk(t, s.meta) && MetaOk(t, s.metaDisk)
  {
  }

  lemma StorageOf(s: State)
    requires s.versions != [] && Kept(s, s.cache) && Kept(s, s.disk) && Covers(s, s.cache) && Covers(s, s.disk)
    requires MetaOk(s, s.meta) && MetaOk(s, s.metaDisk)
    ensures Storage(s)
  {
  }

  lemma WritingOn(s: State, t: State, tx: Tx, p: nat)
    requires s.writer.Flushing? && tx == s.writer.tx && Writing(s, tx, s.writer.todo) && p in tx.updates && p in s.writer.todo
    requires t.dirty == s.dirty + {p} && p in t.cache && t.cache == s.cache[p := t.cache[p]]
    requires t.writer.Flushing? && t.writer.tx == tx
    requires t.writer.todo == s.writer.todo || (t.writer.todo == s.writer.todo - {p} && t.cache[p] == tx.updates[p])
    ensures Writing(t, tx, t.writer.todo)
  {
  }

  /** The first fsync: everything the transaction buffered is on disk. */
  lemma Sync1Step(s: State)
    requires Inv(s) && Enabled(s, Sync1)
    ensures Inv(After(s, Sync1))
  {
    hide Storage, Kept, Covers, VersionOk, RunningTx, MetaPage.Valid, Flushed;
    var t := After(s, Sync1);
    var tx := s.writer.tx;
    FlushStorage(s, t);
    TxStays(s, t, tx);
    AllWritten(s, tx);
  }

  lemma FlushStorage(s: State, t: State)
    requires History(s) && Storage(s) && NoneProtected(s, t) && t.durable == s.durable
    requires t.cache == s.cache && t.disk == Flushed(s.cache, s.disk, s.dirty)
    requires t.meta == s.meta && (t.metaDisk == s.metaDisk || t.metaDisk == s.meta)
    ensures Storage(t)
  {
    hide Kept, Covers, VersionOk, Flushed;
    FlushKept(s);
    KeptFrame(s, t, t.cache);
    KeptFrame(s, t, t.disk);
    FlushedKeys(s.cache, s.disk, s.dirty);
    CoversMore(s, t, s.cache, t.cache);
    CoversMore(s, t, s.disk, t.disk);
    MetaFrame(s, t);
  }

  lemma FlushedKeys(cache: Pages, disk: Pages, dirty: set<nat>)
    ensures disk.Keys <= Flushed(cache, disk, dirty).Keys
    ensures forall p :: p in dirty && p in cache ==> p in Flushed(cache, disk, dirty) && Flushed(cache, disk, dirty)[p] == cache[p]
  {
  }

  lemma AllWritten(s: State, tx: Tx)
    requires Writing(s, tx, {})
    ensures s.cache == tx.View()
    ensures forall p :: p in tx.updates ==>
              p in Flushed(s.cache, s.disk, s.dirty) && Flushed(s.cache, s.disk, s.dirty)[p] == tx.updates[p]
  {
    FlushedKeys(s.cache, s.disk, s.dirty);
  }

  // ------------------------------------------------------------ publishing and the second phase

  lemma PublishNeeds(s: State)
    requires Enabled(s, Publish)
    ensures s.versions != [] && s.writer.Synced?
  {
  }

  lemma PublishEnabled(s: State)
    requires s.versions != [] && s.writer.Synced?
    ensures Enabled(s, Publish)
    ensures After(s, Publish) == s.(versions := s.versions + [Committed(s.Current(), s.writer.tx)], writer := Published)
  {
    hide Committed;
  }

  lemma PublishStep(s: State)
    requires Inv(s) && Enabled(s, Publish)
    ensures Inv(After(s, Publish))
  {
    hide Storage, Kept, Covers, VersionOk, MetaPage.Valid, TxOk, Committed, Enabled, After;
    var t := After(s, Publish);
    PublishNeeds(s);
    PublishEnabled(s);
    var v, tx := s.Current(), s.writer.tx;
    StorageParts(s);
    CommittedOk(v, tx);
    CommittedNum(v, tx);
    TxInOrder(s, tx);
    PublishedKept(s, t, tx);
    PublishedCovers(s, t, tx);
    assert forall n :: 0 <= n < |s.versions| ==> t.versions[n] == s.versions[n];
    StorageOf(t);
  }

  lemma CommittedNum(v: Version, tx: Tx)
    ensures Committed(v, tx).num == v.num + 1 && Committed(v, tx).g == tx.g && Committed(v, tx).img == tx.View()
  {
  }

  /** Version 0 has no committed pages, and every later one is in the cache and on disk. */
  lemma TxInOrder(s: State, tx: Tx)
    requires History(s) && Storage(s)
    ensures s.Current().num == |s.versions| - 1
    ensures s.Current().num == 0 ==> s.Current().g == EMPTY_LIST
    ensures s.Current().num > 0 ==> AllServe(s.Current(), s.cache) && AllServe(s.Current(), s.disk)
    ensures s.Current().num > 0 ==> forall p :: p in s.Current().g.role && p != 0 ==> p in s.disk
  {
    hide Kept, VersionOk, AllServe;
    if |s.versions| > 1 {
      assert s.Protected(|s.versions| - 1);
      ProtectedServes(s, s.cache, |s.versions| - 1);
      ProtectedServes(s, s.disk, |s.versions| - 1);
    }
  }

  lemma NewVersionServes(s: State, tx: Tx)
    requires History(s) && Storage(s) && RunningTx(s, tx) && s.cache == tx.View()
    requires forall p :: p in tx.updates ==> p in s.disk && s.disk[p] == tx.updates[p]
    ensures AllServe(Committed(s.Current(), tx), s.cache) && AllServe(Committed(s.Current(), tx), s.disk)
    ensures forall p :: p in tx.g.role && p != 0 ==> p in s.disk && p in s.cache
  {
    hide Kept, Storage, VersionOk, AllServe, TxOk, Committed;
    var v := s.Current();
    TxInOrder(s, tx);
    if v.num > 0 {
      assert s.Protected(|s.versions| - 1);
      ProtectedServes(s, tx.mapped, |s.versions| - 1);
    }
    CommittedOnDisk(v, tx, s.disk);
    ViewServes(v, tx);
  }

  lemma ViewServes(v: Version, tx: Tx)
    requires VersionOk(v) && TxOk(v, tx)
    ensures AllServe(Committed(v, tx), tx.View())
    ensures forall p :: p in tx.g.role && p != 0 ==> p in tx.View()
  {
    hide Stores, AtState, ListWritten, Buffered, RootOk, RootFits, VersionOk, TxOk, Committed;
    TxParts(v, tx);
    CommittedOk(v, tx);
    CommittedNum(v, tx);
    StoredCovers(tx.View(), tx.g);
    OwnPagesServe(Committed(v, tx));
  }

  lemma StoredCovers(view: Pages, g: Lists)
    requires Stores(view, g)
    ensures forall p :: p in g.role && p != 0 ==> p in view
  {
  }

  lemma OwnPagesServe(v: Version)
    requires VersionOk(v)
    ensures AllServe(v, v.img)
  {
    hide RootOk, RootFits;
    KeepsReflexive(v.g, v.img, v.num, v.num);
  }

  /** Publishing protects the new version on top of the old ones. */
  lemma PublishedKept(s: State, t: State, tx: Tx)
    requires History(s) && Storage(s) && RunningTx(s, tx) && s.cache == tx.View()
    requires forall p :: p in tx.updates ==> p in s.disk && s.disk[p] == tx.updates[p]
    requires t.versions == s.versions + [Committed(s.Current(), tx)] && t.durable == s.durable && t.readers == s.readers
    ensures Kept(t, s.cache) && Kept(t, s.disk)
  {
    hide Kept, Storage, VersionOk, AllServe, TxOk, Committed, Keeps;
    StorageParts(s);
    TxInOrder(s, tx);
    CommittedNum(s.Current(), tx);
    var c := Committed(s.Current(), tx);
    assert t.Current() == c;
    NewVersionServes(s, tx);
    CommittedOk(s.Current(), tx);
    KeepsSelf(c, s.cache);
    KeepsSelf(c, s.disk);
    forall n: nat | 1 <= n && t.Protected(n)
      ensures Keeps(t.versions[n].g, t.versions[n].img, c.g, s.cache, n, n)
      ensures Keeps(t.versions[n].g, t.versions[n].img, c.g, s.disk, n, n)
    {
      if n < |s.versions| {
        assert s.Protected(n) && t.versions[n] == s.versions[n];
        TxServes(s, tx, n);
        ProtectedServes(s, s.disk, n);
        KeepsElsewhere(s.versions[n], c.g, s.cache, s.disk);
      }
    }
    KeptIf(t, s.cache);
    KeptIf(t, s.disk);
  }

  lemma KeptIf(s: State, view: Pages)
    requires s.versions != []
    requires forall n: nat :: 1 <= n && s.Protected(n) ==> Keeps(s.versions[n].g, s.versions[n].img, s.Current().g, view, n, n)
    ensures Kept(s, view)
  {
    hide Keeps;
  }

  lemma PublishedCovers(s: State, t: State, tx: Tx)
    requires History(s) && Storage(s) && RunningTx(s, tx) && s.cache == tx.View()
    requires forall p :: p in tx.updates ==> p in s.disk && s.disk[p] == tx.updates[p]
    requires t.versions == s.versions + [Committed(s.Current(), tx)]
    ensures Covers(t, s.cache) && Covers(t, s.disk)
  {
    hide Kept, Storage, VersionOk, AllServe, TxOk, Committed;
    NewVersionServes(s, tx);
    CommittedNum(s.Current(), tx);
  }

  lemma WriteMetaStep(s: State)
    requires Inv(s) && Enabled(s, WriteMeta)
    ensures Inv(After(s, WriteMeta))
  {
    hide Storage, Kept, Covers, VersionOk, MetaPage.Valid;
    var t := After(s, WriteMeta);
    StorageParts(s);
    KeptFrame(s, t, s.cache);
    KeptFrame(s, t, s.disk);
    CoversMore(s, t, s.cache, s.cache);
    CoversMore(s, t, s.disk, s.disk);
    StorageOf(t);
  }

  /** The second fsync: only the new version can be recovered from now on. */
  lemma Sync2Step(s: State)
    requires Inv(s) && Enabled(s, Sync2)
    ensures Inv(After(s, Sync2))
  {
    hide Storage, Kept, Covers, VersionOk, MetaPage.Valid, Flushed;
    var t := After(s, Sync2);
    StorageParts(s);
    var mid := s.(disk := t.disk, metaDisk := t.metaDisk);
    FlushStorage(s, mid);
    StorageParts(mid);
    KeptFrame(mid, t, t.cache);
    KeptFrame(mid, t, t.disk);
    CoversMore(mid, t, t.cache, t.cache);
    CoversMore(mid, t, t.disk, t.disk);
    StorageOf(t);
  }

  // ------------------------------------------------------------ the kernel, crashes and reopening

  lemma WriteBackStep(s: State, e: Step)
    requires Inv(s) && Enabled(s, e) && (e.WriteBack? || e.WriteBackMeta?)
    ensures Inv(After(s, e))
  {
    hide Storage, Kept, Covers, VersionOk, MetaPage.Valid, RunningTx, MayTear;
    var t := After(s, e);
    StorageParts(s);
    if e.WriteBack? {
      WriteBackKept(s, e.p, e.c);
    }
    assert NoneProtected(s, t);
    KeptFrame(s, t, s.cache);
    KeptFrame(s, t, t.disk);
    CoversMore(s, t, s.cache, s.cache);
    CoversMore(s, t, s.disk, t.disk);
    MetaFrame(s, t);
    StorageOf(t);
    WriterAfterWriteBack(s, t, e);
  }

  lemma WriteBackEffect(s: State, p: nat, c: Page)
    requires Enabled(s, WriteBack(p, c))
    ensures After(s, WriteBack(p, c)) == s.(disk := s.disk[p := c])
  {
    hide MayTear;
  }

  lemma WriteBackMetaEffect(s: State)
    requires Enabled(s, WriteBackMeta)
    ensures After(s, WriteBackMeta) == s.(metaDisk := s.meta)
  {
  }

  lemma WriteBackNeeds(s: State, p: nat, c: Page)
    requires Enabled(s, WriteBack(p, c))
    ensures p in s.cache && MayTear(s.disk, p, s.cache[p], c)
  {
  }

  /** Nothing the writer relies on has changed: what it has synced is still on disk. */
  lemma WriterStays(s: State, t: State)
    requires History(s) && WriterOk(s) && NoneProtected(s, t)
    requires t.durable == s.durable && t.readers == s.readers && t.writer == s.writer && t.cache == s.cache && t.dirty == s.dirty
    requires t.meta == s.meta && t.metaDirty == s.metaDirty
    requires forall p :: p in s.cache && p in s.disk && s.disk[p] == s.cache[p] ==> p in t.disk && t.disk[p] == s.disk[p]
    ensures t.versions != [] && WriterOk(t)
  {
    hide Kept, VersionOk, MetaPage.Valid, RunningTx, Writing;
    match s.writer {
      case Active(tx) => TxStays(s, t, tx);
      case Flushing(tx, todo) =>
        TxStays(s, t, tx);
        WritingFrame(s, t, tx, todo);
      case Synced(tx) => TxStays(s, t, tx);
      case _ =>
    }
  }

  lemma WriterAfterWriteBack(s: State, t: State, e: Step)
    requires Inv(s) && Enabled(s, e) && (e.WriteBack? || e.WriteBackMeta?) && t == After(s, e)
    ensures t.versions != [] && WriterOk(t)
  {
    hide Storage, Kept, Covers, VersionOk, MetaPage.Valid, RunningTx, Writing, WriterOk, Enabled, After, MayTear;
    if e.WriteBack? {
      WriteBackEffect(s, e.p, e.c);
      WriteBackNeeds(s, e.p, e.c);
      SameStays(s.disk, e.p, s.cache[e.p], e.c);
    } else {
      WriteBackMetaEffect(s);
    }
    WriterStays(s, t);
  }

  lemma SameStays(from: Pages, p: nat, b: Page, c: Page)
    requires MayTear(from, p, b, c)
    ensures p in from && from[p] == b ==> c == b
  {
  }

  lemma CrashStep(s: State)
    requires Inv(s)
    ensures Enabled(s, Crash) && Inv(After(s, Crash))
  {
    hide Storage, Kept, Covers, VersionOk, RunningTx, Writing;
    var t := After(s, Crash);
    StorageParts(s);
    KeptFrame(s, t, s.disk);
    CoversMore(s, t, s.disk, s.disk);
    MetaFrame(s, t);
    StorageOf(t);
    assert WriterOk(t);
  }

  /** The process ends, with readers and a transaction open; the file stays as reads see it. */
  lemma KillStep(s: State)
    requires Inv(s) && Enabled(s, Kill)
    ensures Inv(After(s, Kill))
  {
    hide Storage, Kept, Covers, VersionOk, RunningTx, Writing;
    var t := After(s, Kill);
    assert NoneProtected(s, t);
    StorageFrame(s, t);
  }

  lemma CloseStep(s: State, e: Step)
    requires Inv(s) && Enabled(s, e) && e.Close?
    ensures Inv(After(s, e))
  {
    hide Storage, Kept, Covers, VersionOk, Flushed;
    var t := After(s, e);
    assert NoneProtected(s, t);
    if e.ok {
      FlushStorage(s, t);
    } else {
      StorageFrame(s, t);
    }
  }

  lemma OpenStep(s: State)
    requires Inv(s) && Enabled(s, OpenFile)
    ensures Inv(After(s, OpenFile))
  {
    hide Storage, Kept, Covers, VersionOk, MetaPage.Valid;
    var t := After(s, OpenFile);
    StorageParts(s);
    if s.meta.Signed? {
      Recovered(s, t, s.cache);
      Recovered(s, t, s.disk);
      StorageOf(t);
    } else {
      NeverCommitted(s);
      assert t.versions == s.versions && NoneProtected(s, t);
      StorageFrame(s, t);
    }
  }

  /** A file without pages has seen no commit. */
  lemma NeverCommitted(s: State)
    requires History(s) && Covers(s, map[])
    ensures s.versions == [FirstVersion()]
  {
    if |s.versions| > 1 {
      OnePage(s.Current());
      assert false;
    }
  }

  lemma OnePage(v: Version)
    requires VersionOk(v)
    ensures 1 in v.g.role
  {
    hide RootOk, RootFits, Stores, AtState, Settled;
  }

  /** The version the meta page names becomes the current one, and it alone needs protection. */
  lemma Recovered(s: State, t: State, view: Pages)
    requires History(s) && Kept(s, view) && Covers(s, view) && s.readers == map[]
    requires s.meta.Signed? && MetaOk(s, s.meta)
    requires t.versions == s.versions[..s.meta.version + 1] && t.durable == s.meta.version && t.readers == map[]
    ensures Kept(t, view) && Covers(t, view)
  {
    hide Kept, Covers, VersionOk, Keeps, AllServe;
    var n := s.meta.version;
    var d := s.versions[n];
    assert s.Protected(n);
    ProtectedServes(s, view, n);
    KeepsSelf(d, view);
    assert t.Current() == d;
    forall k: nat | 1 <= k && t.Protected(k)
      ensures Keeps(t.versions[k].g, t.versions[k].img, d.g, view, k, k)
    {
      assert k == n;
    }
    KeptIf(t, view);
    KeptCount(s, view, n);
    FewerPages(d, s.Current());
    CoversCurrent(s, view);
    CoversIf(t, view);
  }

  lemma CoversIf(s: State, view: Pages)
    requires s.versions != [] && forall p :: p in s.Current().g.role && p != 0 ==> p in view
    ensures Covers(s, view)
  {
  }

  lemma KeptCount(s: State, view: Pages, n: nat)
    requires History(s) && Kept(s, view) && 1 <= n && s.Protected(n)
    ensures s.versions[n].g.count <= s.Current().g.count
  {
    hide VersionOk;
  }

  lemma FewerPages(a: Version, b: Version)
    requires VersionOk(a) && VersionOk(b) && a.g.count <= b.g.count
    ensures forall p :: p in a.g.role ==> p in b.g.role
  {
    hide RootOk, RootFits, Stores, AtState, Settled;
  }

  // ------------------------------------------------------------ every run

  lemma InitInv()
    ensures Inv(Init())
  {
    FirstIsOk();
    hide VersionOk;
    assert Init().Current() == FirstVersion();
  }

  lemma StepKeepsInv(s: State, e: Step)
    requires Inv(s) && Enabled(s, e)
    ensures Inv(After(s, e))
  {
    hide *;
    match e {
      case OpenFile => OpenStep(s);
      case Close(_) => CloseStep(s, e);
      case BeginRead(_) => ReadStep(s, e);
      case EndRead(_) => ReadStep(s, e);
      case Begin(m) => BeginStep(s, m);
      case Update(change, tx) => UpdateStep(s, change, tx);
      case WritePage(_) => WriteStep(s, e);
      case TearPage(_, _) => WriteStep(s, e);
      case Sync1 => Sync1Step(s);
      case Publish => PublishStep(s);
      case WriteMeta => WriteMetaStep(s);
      case Sync2 => Sync2Step(s);
      case WriteBack(_, _) => WriteBackStep(s, e);
      case WriteBackMeta => WriteBackStep(s, e);
      case Kill => KillStep(s);
      case Crash => CrashStep(s);
      case _ => EndStep(s, e);
    }
  }

  /** states[0] is an empty file and every next state is one step on. */
  ghost predicate IsRun(states: seq<State>, steps: seq<Step>)
  {
    && |states| == |steps| + 1 && states[0] == Init()
    && forall i :: 0 <= i < |steps| ==> Enabled(states[i], steps[i]) && states[i + 1] == After(states[i], steps[i])
  }

  /** In every state of every run the invariant holds. */
  lemma {:induction false} RunKeepsInv(states: seq<State>, steps: seq<Step>, i: nat)
    requires IsRun(states, steps) && i < |states|
    ensures Inv(states[i])
  {
    hide Inv, Enabled, After;
    if i == 0 {
      InitInv();
    } else {
      RunKeepsInv(states, steps, i - 1);
      StepKeepsInv(states[i - 1], steps[i - 1]);
    }
  }
}
