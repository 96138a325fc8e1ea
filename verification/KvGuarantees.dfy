/** What the invariant means for a reader, for a crash, for a commit and for the file's pages. */
module KvGuarantees {
  import opened FreeLists
  import opened Trees
  import opened TreeEdit
  import opened KvStates
  import opened KvSafety

  // ------------------------------------------------------------ snapshot isolation

  /** The tree a reader began on, whatever version is current. */
  ghost function Snapshot(s: State, id: nat): Version
    requires id in s.readers && s.readers[id] < |s.versions|
  {
    s.versions[s.readers[id]]
  }

  /** In any state, mid-commit or after a failed one, an open reader's tree is stored as it was committed. */
  lemma ReaderIntact(s: State, id: nat)
    requires Inv(s) && id in s.readers
    ensures s.readers[id] < |s.versions|
    ensures RootOk(Snapshot(s, id).rt, s.cache, HeldPages(Snapshot(s, id).g))
    ensures forall p :: p in HeldPages(Snapshot(s, id).g) ==>
              p in s.cache && p in Snapshot(s, id).img && s.cache[p] == Snapshot(s, id).img[p]
  {
    hide Kept, Covers, VersionOk, WriterOk, AllServe, RootOk;
    var n := s.readers[id];
    VersionTree(s.versions[n]);
    if n > 0 {
      assert s.Protected(n);
      StorageParts(s);
      ProtectedServes(s, s.cache, n);
      TreeInView(s.versions[n], s.cache);
    } else {
      FirstTree(s.cache);
    }
  }

  lemma VersionTree(v: Version)
    requires VersionOk(v)
    ensures RootOk(v.rt, v.img, HeldPages(v.g)) && Good(v.g, v.num)
  {
  }

  lemma FirstTree(view: Pages)
    ensures RootOk(FirstVersion().rt, view, HeldPages(FirstVersion().g)) && HeldPages(FirstVersion().g) == {}
  {
  }

  lemma ReaderStays(s: State, e: Step, id: nat)
    requires Inv(s) && Enabled(s, e) && id in s.readers && id in After(s, e).readers
    ensures s.readers[id] < |s.versions|
    ensures After(s, e).readers[id] == s.readers[id] < |After(s, e).versions|
    ensures Snapshot(After(s, e), id) == Snapshot(s, id)
  {
    hide Kept, Storage, VersionOk, WriterOk, Updates, IsMinReader, MayTear, MetaPage.Valid, Flushed, Committed, NewTx;
  }

  /**
   * Whatever the writer, the kernel and other readers do between two moments at which a reader is open throughout, it
   * sees the same tree on the same, unchanged pages.
   */
  lemma {:induction false} SnapshotIsolation(states: seq<State>, steps: seq<Step>, i: nat, j: nat, id: nat)
    requires IsRun(states, steps) && i <= j < |states|
    requires forall k :: i <= k <= j ==> id in states[k].readers
    ensures states[i].readers[id] == states[j].readers[id]
    ensures states[i].readers[id] < |states[i].versions| && states[j].readers[id] < |states[j].versions|
    ensures Snapshot(states[j], id) == Snapshot(states[i], id)
    ensures var v := Snapshot(states[i], id);
            && RootOk(v.rt, states[j].cache, HeldPages(v.g))
            && (forall p :: p in HeldPages(v.g) ==>
                  p in states[i].cache && p in states[j].cache && states[j].cache[p] == states[i].cache[p])
  {
    hide Inv, Enabled, After, RootOk, HeldPages;
    RunKeepsInv(states, steps, i);
    RunKeepsInv(states, steps, j);
    ReaderIntact(states[i], id);
    ReaderIntact(states[j], id);
    if i < j {
      SnapshotIsolation(states, steps, i, j - 1, id);
      RunKeepsInv(states, steps, j - 1);
      ReaderStays(states[j - 1], steps[j - 1], id);
    }
  }

  // ------------------------------------------------------------ crash recovery

  /** A version committed before is intact in the pages a view holds. */
  ghost predicate Intact(v: Version, view: Pages)
  {
    RootOk(v.rt, view, HeldPages(v.g)) && RootFits(v.rt) && Stores(view, v.g) && Good(v.g, v.num) && AtState(v.g, v.free)
  }

  lemma ProtectedIntact(s: State, view: Pages, n: nat)
    requires History(s) && Kept(s, view) && Covers(s, view) && 1 <= n && s.Protected(n)
    ensures Intact(s.versions[n], view)
  {
    hide Kept, Covers, VersionOk, AllServe, RootOk, RootFits, Stores, Good, AtState;
    ProtectedServes(s, view, n);
    KeptCount(s, view, n);
    FewerPages(s.versions[n], s.Current());
    CoversCurrent(s, view);
    StoredInCache(s.versions[n], view);
    VersionParts(s.versions[n]);
  }

  lemma VersionParts(v: Version)
    requires VersionOk(v)
    ensures RootFits(v.rt) && Good(v.g, v.num) && AtState(v.g, v.free)
  {
  }

  /** read_root never rejects the meta page of a committed version. */
  lemma MetaAccepted(v: Version)
    requires VersionOk(v) && v.num > 0
    ensures v.Meta().Valid()
  {
    hide Stores, Settled, RootFits;
    assert v.g.LiveNode(Block(v.g.head)) && v.g.LiveNode(v.g.last);
    if v.rt.Rooted? {
      RootIsLoose(v.rt, v.img, HeldPages(v.g));
    }
  }

  /** What read_root rejects in a meta page with a signature. */
  lemma MetaRejectedIf(m: MetaPage)
    requires m.Signed?
    ensures !m.Valid() <==>
              || m.version == 0 || m.flushed < 2 || m.root >= m.flushed
              || m.free.headPage == 0 || m.free.headPage >= m.flushed || m.free.tailPage == 0 || m.free.tailPage >= m.flushed
              || m.free.headSeq > m.free.tailSeq
  {
  }

  /** What may go wrong, and when: the process or the machine stops, a write or a sync fails, the kernel writes back. */
  lemma FaultsMayHappen(s: State, p: nat, c: Page, left: set<nat>, leftMeta: bool)
    requires s.versions != []
    ensures Enabled(s, Crash) && Enabled(s, WriteBackMeta) && (s.up ==> Enabled(s, Kill))
    ensures p in s.cache && MayTear(s.disk, p, s.cache[p], c) ==> Enabled(s, WriteBack(p, c))
    ensures s.writer.Flushing? ==> Enabled(s, WriteFails)
    ensures s.writer.Flushing? && p in s.writer.todo && p in s.writer.tx.updates && MayTear(s.cache, p, s.writer.tx.updates[p], c) ==>
              Enabled(s, TearPage(p, c))
    ensures left <= s.dirty && (s.writer.MetaWritten? || (s.writer.Flushing? && s.writer.todo == {})) ==> Enabled(s, SyncFails(left, leftMeta))
    ensures s.writer.Published? ==> Enabled(s, MetaFails)
  {
    hide MayTear;
  }

  /** A write cut short may leave any slot as it was or as it was to be. */
  lemma AnyMixtureMayTear(from: Pages, p: nat, b: Page, c: Page)
    requires p in from && (c.AsList().next == from[p].AsList().next || c.AsList().next == b.AsList().next)
    requires forall i :: 0 <= i < CAP ==> c.AsList().slots[i] == from[p].AsList().slots[i] || c.AsList().slots[i] == b.AsList().slots[i]
    ensures b != from[p] ==> MayTear(from, p, b, c)
  {
  }

  /**
   * After a crash at any moment, a file with a meta page opens as exactly one committed version, no older than the last
   * durable one, with its tree and free list intact.
   */
  lemma CrashRecovers(s: State)
    requires Inv(s) && s.metaDisk.Signed?
    ensures Enabled(s, Crash) && Enabled(After(s, Crash), OpenFile)
    ensures var n, r := s.metaDisk.version, After(After(s, Crash), OpenFile);
            && s.durable <= n < |s.versions|
            && r.up && r.versions == s.versions[..n + 1] && r.durable == n
            && r.Current() == s.versions[n] && s.versions[n].Meta() == s.metaDisk
            && Intact(r.Current(), r.cache) && Intact(r.Current(), r.disk)
  {
    hide Storage, Kept, Covers, VersionOk, WriterOk, Intact, MetaPage.Valid;
    CrashStep(s);
    StorageParts(s);
    var n := s.metaDisk.version;
    MetaAccepted(s.versions[n]);
    assert s.Protected(n);
    ProtectedIntact(s, s.disk, n);
  }

  /** So in every run: a reader of the reopened file gets the map of one committed version, at least the durable one's. */
  lemma EveryCrashRecovers(states: seq<State>, steps: seq<Step>, i: nat)
    requires IsRun(states, steps) && i < |states| && states[i].durable > 0
    ensures Enabled(states[i], Crash) && Enabled(After(states[i], Crash), OpenFile)
    ensures var s, r := states[i], After(After(states[i], Crash), OpenFile);
            && r.versions != [] && RootOk(r.Current().rt, r.cache, HeldPages(r.Current().g))
            && exists n :: s.durable <= n < |s.versions| && Contents(r.Current().rt) == Contents(s.versions[n].rt)
  {
    hide Inv, Enabled, After, Contents, RootOk;
    RunKeepsInv(states, steps, i);
    DurableHasMeta(states[i]);
    CrashRecovers(states[i]);
  }

  /** Once a commit is durable the file always has a meta page. */
  lemma DurableHasMeta(s: State)
    requires Inv(s) && s.durable > 0
    ensures s.metaDisk.Signed?
  {
  }

  /** Exactly when a crash leaves a file that opens: not in the middle of the very first commit. */
  lemma ReopensExactlyIf(s: State)
    requires Inv(s)
    ensures Enabled(s, Crash)
    ensures Enabled(After(s, Crash), OpenFile) <==> s.metaDisk.Signed? || s.disk == map[]
  {
    hide Inv, Intact, MetaPage.Valid;
    HistoryExists(s);
    if s.metaDisk.Signed? {
      CrashRecovers(s);
    }
  }

  lemma HistoryExists(s: State)
    requires Inv(s)
    ensures s.versions != []
  {
  }

  /** The failing case: during the first commit one page reaches the disk, and the meta page does not. */
  lemma FirstCommitCrash(s: State, p: nat) returns (t: State, u: State)
    requires Inv(s) && s.metaDisk.Unsigned? && s.writer.Flushing? && p in s.writer.tx.updates && p !in s.disk
    requires Enabled(s, WritePage(p))
    ensures t == After(s, WritePage(p))
    ensures Enabled(t, WriteBack(p, s.writer.tx.updates[p])) && u == After(t, WriteBack(p, s.writer.tx.updates[p]))
    ensures Enabled(u, Crash) && !Enabled(After(u, Crash), OpenFile)
  {
    hide Inv, Updates, IsMinReader, MetaPage.Valid, Flushed, Committed, NewTx;
    t := After(s, WritePage(p));
    var c := s.writer.tx.updates[p];
    assert p in t.cache && t.disk == s.disk && t.metaDisk == s.metaDisk;
    u := After(t, WriteBack(p, c));
    assert p in u.disk && u.disk != map[] && u.metaDisk == s.metaDisk;
  }

  /**
   * Opening is safe exactly if the meta page read is the one on disk. If reads still return a newer one from memory, the
   * version taken to be durable is not, and a crash would fall back behind it.
   */
  lemma OpenIsSafeExactlyIf(s: State)
    requires Inv(s) && !s.up && s.meta.Signed?
    ensures s.meta.Valid() && s.meta.version < |s.versions|
    ensures Inv(Opened(s)) <==> s.meta == s.metaDisk
  {
    hide Kept, Covers, VersionOk, WriterOk, MetaPage.Valid, FirstVersion;
    var n := s.meta.version;
    assert MetaOk(s, s.meta) && MetaOk(s, s.metaDisk);
    MetaAccepted(s.versions[n]);
    if s.meta == s.metaDisk {
      assert Enabled(s, OpenFile) && After(s, OpenFile) == Opened(s);
      OpenStep(s);
    }
    assert Inv(Opened(s)) ==> MetaOk(Opened(s), s.metaDisk);
  }

  /** Such a file exists: the last sync of a commit fails, so does the one at close, and the old meta page is still on disk. */
  lemma UnsyncedMetaAtOpen(s: State) returns (t: State)
    requires Inv(s) && s.writer.MetaWritten? && s.readers == map[] && s.up && s.metaDisk != s.meta
    ensures Enabled(s, SyncFails({}, false)) && Enabled(After(s, SyncFails({}, false)), Close(false))
    ensures t == After(After(s, SyncFails({}, false)), Close(false))
    ensures !t.up && t.meta.Signed? && t.meta != t.metaDisk && t.meta.version < |t.versions|
    ensures Enabled(t, Crash) && !Inv(Opened(t)) && (t.metaDisk.Signed? ==> t.metaDisk.version < Opened(t).durable)
  {
    hide Kept, Covers, VersionOk, MetaPage.Valid, FirstVersion, Updates, IsMinReader;
    var u := After(s, SyncFails({}, false));
    HistoryExists(s);
    StepKeepsInv(s, SyncFails({}, false));
    t := After(u, Close(false));
    StepKeepsInv(u, Close(false));
    assert MetaOk(t, t.meta) && MetaOk(t, t.metaDisk);
    OpenIsSafeExactlyIf(t);
  }

  /** No step makes a durable version less durable, or takes it out of the history. */
  lemma DurableStep(s: State, e: Step)
    requires Inv(s) && Enabled(s, e)
    ensures s.durable < |s.versions| && After(s, e).versions != []
    ensures s.durable <= After(s, e).durable < |After(s, e).versions|
    ensures After(s, e).versions[..s.durable + 1] == s.versions[..s.durable + 1]
  {
    hide Inv, Enabled, After;
    DurableBound(s);
    match e {
      case OpenFile => DurableOpen(s);
      case Publish => PublishAppends(s);
      case Sync2 => Sync2Durable(s);
      case _ => OtherSteps(s, e);
    }
  }

  lemma PublishAppends(s: State)
    requires Enabled(s, Publish)
    ensures After(s, Publish).versions == s.versions + [Committed(s.Current(), s.writer.tx)]
    ensures After(s, Publish).durable == s.durable
  {
    hide Committed;
  }

  lemma Sync2Durable(s: State)
    requires Enabled(s, Sync2)
    ensures After(s, Sync2).versions == s.versions && After(s, Sync2).durable == |s.versions| - 1
  {
    hide Flushed;
  }

  lemma OtherSteps(s: State, e: Step)
    requires Enabled(s, e) && !e.OpenFile? && !e.Publish? && !e.Sync2?
    ensures After(s, e).versions == s.versions && After(s, e).durable == s.durable
  {
    hide Updates, IsMinReader, MayTear, Flushed, NewTx, Committed;
  }

  lemma DurableOpen(s: State)
    requires Inv(s) && Enabled(s, OpenFile)
    ensures s.durable < |s.versions|
    ensures s.durable <= After(s, OpenFile).durable < |After(s, OpenFile).versions|
    ensures After(s, OpenFile).versions[..s.durable + 1] == s.versions[..s.durable + 1]
  {
    hide Kept, Covers, VersionOk, MetaPage.Valid, RunningTx, Writing;
    if s.meta.Signed? {
      assert s.versions[..s.meta.version + 1][..s.durable + 1] == s.versions[..s.durable + 1];
    } else {
      assert s.versions[..1] == [FirstVersion()];
    }
  }

  /** Through any number of crashes and failed commits, a version once durable stays in every later history. */
  lemma {:induction false} DurableForever(states: seq<State>, steps: seq<Step>, i: nat, j: nat)
    requires IsRun(states, steps) && i <= j < |states|
    ensures states[i].durable < |states[i].versions|
    ensures states[i].durable <= states[j].durable < |states[j].versions|
    ensures states[j].versions[..states[i].durable + 1] == states[i].versions[..states[i].durable + 1]
  {
    hide Inv, Enabled, After;
    RunKeepsInv(states, steps, i);
    DurableBound(states[i]);
    if i < j {
      DurableForever(states, steps, i, j - 1);
      RunKeepsInv(states, steps, j - 1);
      DurableStep(states[j - 1], steps[j - 1]);
      PrefixOfPrefix(states[j].versions, states[j - 1].versions, states[j - 1].durable + 1, states[i].durable + 1);
    }
  }

  lemma DurableBound(s: State)
    requires Inv(s)
    ensures s.durable < |s.versions|
  {
  }

  lemma PrefixOfPrefix(a: seq<Version>, b: seq<Version>, n: nat, m: nat)
    requires m <= n <= |a| && n <= |b| && a[..n] == b[..n]
    ensures a[..m] == b[..m]
  {
    assert a[..m] == a[..n][..m] && b[..m] == b[..n][..m];
  }

  // ------------------------------------------------------------ the early return of commit

  /** commit writes nothing exactly when no set ran and no del returned true; the tree is then the same one. */
  lemma EarlyReturnIsExact(states: seq<State>, steps: seq<Step>, i: nat)
    requires IsRun(states, steps) && i < |states| && states[i].writer.Active?
    ensures states[i].versions != []
    ensures var s, tx := states[i], states[i].writer.tx;
            && (Enabled(s, CommitNothing) <==> !tx.changed)
            && (Enabled(s, StartFlush) <==> tx.changed)
            && (!tx.changed ==> Contents(tx.rt) == Contents(s.Current().rt))
  {
    hide Storage, TxOk, Kept, VersionOk, Contents, IsRun;
    RunKeepsInv(states, steps, i);
  }

  // ------------------------------------------------------------ page reuse

  /** A transaction may reuse exactly the pages freed before the durable version and before every open reader's. */
  lemma ReusableExactlyIf(s: State, m: nat, item: Item)
    requires Enabled(s, Begin(m)) && item in Items(s.Current().g)
    ensures item.ver < m <==> item.ver < s.durable && forall id :: id in s.readers ==> item.ver < s.readers[id]
  {
  }

  // ------------------------------------------------------------ page conservation

  ghost function TreePages(rt: Root): set<nat>
  {
    if rt.Empty? then {} else PagesF([rt.t])
  }

  ghost predicate IsListPage(g: Lists, p: nat)
  {
    exists b: nat :: g.LiveNode(b) && b in g.nodes && g.nodes[b] == p
  }

  ghost predicate IsFreePage(g: Lists, p: nat)
  {
    exists i: nat :: g.LiveItem(i) && i in g.items && g.items[i].ptr == p
  }

  /** Every page of the file is the meta page, a tree page, a list node or a free page, and only one of these. */
  ghost predicate Conserved(g: Lists, rt: Root)
  {
    && (forall p: nat :: p < g.count <==> p == 0 || p in TreePages(rt) || IsListPage(g, p) || IsFreePage(g, p))
    && 0 !in TreePages(rt) && !IsListPage(g, 0) && !IsFreePage(g, 0)
    && (forall p :: p in TreePages(rt) ==> !IsListPage(g, p) && !IsFreePage(g, p))
    && (forall p: nat :: IsListPage(g, p) ==> !IsFreePage(g, p))
    && (forall i: nat, j: nat :: g.LiveItem(i) && g.LiveItem(j) && i in g.items && j in g.items && g.items[i].ptr == g.items[j].ptr ==> i == j)
    && (forall a: nat, b: nat :: g.LiveNode(a) && g.LiveNode(b) && a in g.nodes && b in g.nodes && g.nodes[a] == g.nodes[b] ==> a == b)
  }

  lemma ConservedBy(g: Lists, rt: Root, view: Pages, version: nat)
    requires Good(g, version) && Settled(g) && RootOk(rt, view, HeldPages(g)) && g.count > 0
    ensures Conserved(g, rt)
  {
    assert TreePages(rt) == HeldPages(g);
    forall p: nat | p < g.count
      ensures p == 0 || p in TreePages(rt) || IsListPage(g, p) || IsFreePage(g, p)
    {
      assert p in g.role && p !in TransitPages(g);
      match g.role[p] {
        case ListNode(b) => assert g.LiveNode(b) && g.nodes[b] == p;
        case Free(i) => assert g.LiveItem(i) && g.items[i].ptr == p;
        case _ =>
      }
    }
    forall p: nat | IsListPage(g, p)
      ensures p < g.count && g.role[p].ListNode?
    {
      var b: nat :| g.LiveNode(b) && b in g.nodes && g.nodes[b] == p;
    }
    forall p: nat | IsFreePage(g, p)
      ensures p < g.count && g.role[p].Free?
    {
      var i: nat :| g.LiveItem(i) && i in g.items && g.items[i].ptr == p;
    }
  }

  /** At every commit, and after every update of a running transaction, no page is leaked and none is used twice. */
  lemma NoPageLeaks(states: seq<State>, steps: seq<Step>, i: nat)
    requires IsRun(states, steps) && i < |states|
    ensures forall n :: 0 <= n < |states[i].versions| ==> Conserved(states[i].versions[n].g, states[i].versions[n].rt)
    ensures states[i].writer.Active? ==> Conserved(states[i].writer.tx.g, states[i].writer.tx.rt)
  {
    hide Storage, Kept, IsRun, Conserved, RootOk, Good, Settled, VersionOk, TxOk;
    RunKeepsInv(states, steps, i);
    var s := states[i];
    forall n | 0 <= n < |s.versions|
      ensures Conserved(s.versions[n].g, s.versions[n].rt)
    {
      VersionConserved(s.versions[n]);
    }
    if s.writer.Active? {
      TxConserved(s.Current(), s.writer.tx);
    }
  }

  lemma VersionConserved(v: Version)
    requires VersionOk(v)
    ensures Conserved(v.g, v.rt)
  {
    hide Conserved, RootOk, Good, Settled, Stores, AtState;
    ConservedBy(v.g, v.rt, v.img, v.num);
  }

  lemma TxConserved(v: Version, tx: Tx)
    requires VersionOk(v) && TxOk(v, tx)
    ensures Conserved(tx.g, tx.rt)
  {
    hide Conserved, RootOk, Good, Settled, Stores, AtState, Tracked;
    TxParts(v, tx);
    ConservedBy(tx.g, tx.rt, tx.View(), v.num);
  }
}
