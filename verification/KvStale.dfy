/**
 * What opening over an unsynced meta page can cost. The second commit of a file fails at its last sync and the file is
 * closed and opened again, so its version is taken as durable; the next transaction reuses a page of the version that
 * is still the one on disk, and a crash then recovers a version whose tree is gone.
 */
module StaleMetas {
  import opened Bytes
  import opened FreeLists
  import opened Trees
  import opened TreeEdit
  import opened KvStates
  import opened KvSafety
  import opened KvGuarantees
  import opened KvStore
  import opened KvRuns

  // ------------------------------------------------------------ the second commit

  /** The list after the first commit; then page 2 freed by version 1 and page 3 appended; then 3 freed and 2 reused. */
  ghost function List1(): Lists { Extended(EMPTY_LIST) }

  ghost function List2(): Lists { Extended(Appended(List1(), 2, 1)) }

  ghost function List3(): Lists { Popped(Appended(List2(), 3, 2)) }

  ghost function Root1(p: nat, val: seq<Byte>): Root { Rooted(Leaf(p, OneLeaf(val).es), 0) }

  ghost function Pages1(): Pages { KvRuns.FirstTx().updates }

  ghost function Pages2(): Pages { AppendedPages(List1(), Pages1(), Item(2, 1))[3 := LeafPage([7])] }

  ghost function Pages3(): Pages { AppendedPages(List2(), Pages2(), Item(3, 2))[2 := LeafPage([8])] }

  ghost function Start2(): Tx
  {
    Tx(Pages1(), map[], 0, 1, Root1(2, []), FLState(1, 0, 1, 0), List1(), false)
  }

  /** After it has bound KEY to [7]: the leaf of page 2 is freed and its copy is on page 3. */
  ghost function Tx2(): Tx
  {
    Tx(Pages1(), map[1 := Pages2()[1], 3 := LeafPage([7])], 1, 1, Root1(3, [7]), FLState(1, 0, 1, 1), List2(), true)
  }

  ghost function Version2(): Version { Committed(FirstCommitted(), Tx2()) }

  ghost function Start3(): Tx
  {
    Tx(Pages2(), map[], 0, 2, Root1(3, [7]), FLState(1, 0, 1, 1), List2(), false)
  }

  /** After it has bound KEY to [8]: version 2 is taken as durable, so page 2, freed by version 1, is reused. */
  ghost function Tx3(): Tx
  {
    Tx(Pages2(), map[1 := Pages3()[1], 2 := LeafPage([8])], 0, 2, Root1(2, [8]), FLState(1, 1, 1, 2), List3(), true)
  }

  lemma Lists2()
    ensures Settled(List1()) && HeldPages(List1()) == {2} && HeldPages(List2()) == {3} && Settled(List2())
  {
  }

  lemma Lists3()
    ensures HeldPages(Appended(List2(), 3, 2)) == {} && HeldPages(List3()) == {2} && Settled(List3())
    ensures List2().items == map[0 := Item(2, 1)] && Appended(List2(), 3, 2).items == map[0 := Item(2, 1), 1 := Item(3, 2)]
  {
  }

  lemma Pages2Are()
    ensures Tx2().View() == Pages2() && Pages2().Keys == {1, 2, 3} && Pages2()[2] == LeafPage([])
    ensures HasNode(Pages2(), 3, OneLeaf([7]))
  {
  }

  lemma Pages3Are()
    ensures Tx3().View() == Pages3() && HasNode(Pages3(), 2, OneLeaf([8]))
  {
    Pages2Are();
  }

  lemma Append2()
    requires Tracked(List1(), FLState(1, 0, 1, 0), Pages1(), {}, 3, 3, List1(), Pages1(), 1, 1)
    ensures Tracked(List2(), FLState(1, 0, 1, 1), Pages2(), {1, 3}, 3, 4, List1(), Pages1(), 1, 1) && !Needed(List1(), 3, 1)
  {
    hide Tracked, Good, AppendedPages, Needed;
    TrackedParts(List1(), FLState(1, 0, 1, 0), Pages1(), {}, 3, 3, List1(), Pages1(), 1, 1);
    AppendTracked(List1(), 2, FLState(1, 0, 1, 0), Pages1(), {}, 3, 3, List1(), Pages1(), 1, 1);
    assert {} + {1} == {1};
    ExtendTracked(Appended(List1(), 2, 1), LeafPage([7]), FLState(1, 0, 1, 1), AppendedPages(List1(), Pages1(), Item(2, 1)),
                  {1}, 3, 3, List1(), Pages1(), 1, 1);
    assert {1} + {3} == {1, 3};
  }

  lemma Reuse3()
    requires Tracked(List2(), FLState(1, 0, 1, 1), Pages2(), {}, 4, 4, List2(), Pages2(), 2, 2)
    ensures Tracked(List3(), FLState(1, 1, 1, 2), Pages3(), {1, 2}, 4, 4, List2(), Pages2(), 2, 2) && !Needed(List2(), 2, 2)
  {
    hide Tracked, Good, AppendedPages, Needed, Pages2;
    Lists2();
    Pages2Are();
    var a, view := Appended(List2(), 3, 2), AppendedPages(List2(), Pages2(), Item(3, 2));
    Lists3();
    TrackedParts(List2(), FLState(1, 0, 1, 1), Pages2(), {}, 4, 4, List2(), Pages2(), 2, 2);
    AppendTracked(List2(), 3, FLState(1, 0, 1, 1), Pages2(), {}, 4, 4, List2(), Pages2(), 2, 2);
    assert {} + {1} == {1};
    TrackedParts(a, FLState(1, 0, 1, 2), view, {1}, 4, 4, List2(), Pages2(), 2, 2);
    PopTracked(a, FLState(1, 0, 1, 2), view, {1}, 4, 4, List2(), Pages2(), 2, 2, 0);
    WriteTracked(List3(), 2, LeafPage([8]), FLState(1, 1, 1, 2), view, {1}, 4, 4, List2(), Pages2(), 2, 2);
    assert {1} + {2} == {1, 2};
  }

  /** What a transaction that has done nothing yet is tracked by. */
  lemma Fresh(v: Version, t: Tx)
    requires v.num > 0 && TxOk(v, t) && t.updates == map[] && t.append == 0
    ensures Tracked(t.g, t.free, t.mapped, {}, v.g.count, v.g.count, v.g, t.mapped, t.minReader, v.num)
  {
    hide Tracked, RootOk, RootFits;
    assert t.View() == t.mapped && t.updates.Keys == {};
  }

  lemma Tx2Ok()
    requires TxOk(FirstCommitted(), Start2())
    ensures TxOk(FirstCommitted(), Tx2()) && !Needed(List1(), 3, 1)
  {
    hide Tracked, RootOk, RootFits, Pages2, Needed;
    Fresh(FirstCommitted(), Start2());
    Append2();
    Lists2();
    Pages2Are();
    FirstRoot(3, KEY, [7], Pages2(), OneLeaf([7]));
    assert Tx2().updates.Keys == {1, 3};
  }

  lemma Tx3Ok()
    requires TxOk(Version2(), Start3())
    ensures TxOk(Version2(), Tx3()) && !Needed(List2(), 2, 2)
  {
    hide Tracked, RootOk, RootFits, Pages2, Pages3, Needed, Settled, HeldPages, AppendedPages, Contents;
    Fresh(Version2(), Start3());
    Reuse3();
    Lists3();
    Pages3Are();
    FirstRoot(2, KEY, [8], Pages3(), OneLeaf([8]));
    assert Tx3().updates.Keys == {1, 2};
  }

  // ------------------------------------------------------------ to the second meta page

  ghost function History2(): seq<Version> { [FirstVersion(), FirstCommitted(), Version2()] }

  /** Between the two commits, with this writer. */
  ghost function Durable1(w: Writer): State
  {
    State(Pages1(), Pages1(), {}, FirstCommitted().Meta(), FirstCommitted().Meta(), false, true,
          [FirstVersion(), FirstCommitted()], 1, map[], w)
  }

  /** The second commit: pages in the cache only, then synced. */
  ghost function Written2(w: Writer): State
  {
    Durable1(w).(cache := Pages2(), dirty := {1, 3})
  }

  ghost function Synced2(w: Writer): State
  {
    Durable1(w).(cache := Pages2(), disk := Pages2())
  }

  /** Its meta page is written but not synced. */
  ghost function MetaInMemory2(): State
  {
    Synced2(MetaWritten).(versions := History2(), meta := Version2().Meta(), metaDirty := true)
  }

  lemma FirstIsDurable()
    ensures Reachable(Durable1(Idle))
  {
    hide Reachable, FirstVersion, LeafPage, Version.Meta;
    WritesMeta();
    var s := MetaInMemory();
    ReachableStep(s, Sync2);
    assert Flushed(s.cache, s.disk, s.dirty) == Pages1();
    assert After(s, Sync2) == Durable1(Idle);
  }

  lemma Begins2()
    ensures Reachable(Durable1(Active(Start2())))
  {
    hide Reachable, FirstVersion, LeafPage, Version.Meta;
    FirstIsDurable();
    var s := Durable1(Idle);
    assert IsMinReader(1, s) && s.Current() == FirstCommitted();
    FirstImage();
    assert NewTx(s, 1) == Start2();
    ReachableStep(s, Begin(1));
  }

  lemma FirstImage()
    ensures FirstCommitted().num == 1 && FirstCommitted().g == List1() && FirstCommitted().rt == Root1(2, [])
    ensures FirstCommitted().free == FLState(1, 0, 1, 0) && FirstCommitted().img == Pages1()
  {
    assert KvRuns.FirstTx().View() == Pages1();
  }

  lemma Change2()
    requires TxOk(FirstCommitted(), Start2())
    ensures Updates(FirstCommitted(), Start2(), Bind(KEY, [7]), Tx2())
  {
    hide TxOk, FirstVersion, FirstCommitted, List1, List2, Pages1, Pages2, Needed, Contents, OneLeaf;
    Tx2Ok();
    FirstImage();
    OneContents(2, []);
    OneContents(3, [7]);
  }

  lemma Binds2()
    ensures Reachable(Durable1(Active(Tx2())))
  {
    hide Reachable, Inv, Updates, TxOk, FirstVersion, FirstCommitted, Version.Meta, Start2, Tx2, Pages1;
    Begins2();
    var s := Durable1(Active(Start2()));
    ReachableInv(s);
    WriterHasTx(s);
    Change2();
    ReachableStep(s, KvStates.Update(Bind(KEY, [7]), Tx2()));
  }

  /** The first phase of a transaction that wrote two pages, up to its sync. */
  lemma TwoWrites(s: State, tx: Tx, p: nat, q: nat)
    requires Reachable(s) && s.versions != [] && s.writer == Active(tx) && s.dirty == {}
    requires tx.updates.Keys == {p, q} && p != q && RootPage(tx.rt) != RootPage(s.Current().rt)
    ensures Reachable(s.(cache := s.cache + tx.updates, dirty := {p, q}, writer := Flushing(tx, {})))
  {
    hide Reachable;
    ReachableStep(s, StartFlush);
    var r := After(s, StartFlush);
    ReachableStep(r, WritePage(p));
    var t := After(r, WritePage(p));
    ReachableStep(t, WritePage(q));
    var u := After(t, WritePage(q));
    assert u.cache == s.cache + tx.updates;
    assert u.dirty == {p, q} && {p, q} - {p} - {q} == {};
  }

  lemma Writes2()
    ensures Reachable(Written2(Flushing(Tx2(), {})))
  {
    hide Reachable, FirstVersion, FirstCommitted, Version.Meta, List1, List2, Pages1, Pages2, LeafPage, OneLeaf;
    Binds2();
    FirstImage();
    Pages2Are();
    assert Tx2().updates.Keys == {1, 3};
    TwoWrites(Durable1(Active(Tx2())), Tx2(), 1, 3);
  }

  lemma WritesMeta2()
    ensures Reachable(MetaInMemory2())
  {
    hide Reachable, FirstVersion, FirstCommitted, Tx2, Version.Meta, Pages1, Pages2;
    Writes2();
    var s := Written2(Flushing(Tx2(), {}));
    ReachableStep(s, Sync1);
    SyncedPages2();
    assert After(s, Sync1) == Synced2(Synced(Tx2()));
    var t := Synced2(Synced(Tx2()));
    ReachableStep(t, Publish);
    var u := After(t, Publish);
    assert u.versions == History2();
    ReachableStep(u, WriteMeta);
    assert After(u, WriteMeta) == MetaInMemory2();
  }

  lemma SyncedPages2()
    ensures Flushed(Pages2(), Pages1(), {1, 3}) == Pages2()
  {
    Pages2Are();
  }

  // ------------------------------------------------------------ the third transaction, and the harm

  /** The file opened over the unsynced meta page: version 2 is current and taken as durable, on disk is version 1's. */
  ghost function Stale(w: Writer): State
  {
    Synced2(w).(versions := History2(), meta := Version2().Meta(), durable := 2)
  }

  /** Where the crash leads: version 1 is recovered, and page 2 is not its leaf but the one of the lost transaction. */
  ghost function Lost(): State
  {
    Durable1(Idle).(cache := Pages2()[2 := LeafPage([8])], disk := Pages2()[2 := LeafPage([8])])
  }

  lemma SecondImage()
    ensures Version2().num == 2 && Version2().g == List2() && Version2().rt == Root1(3, [7])
    ensures Version2().free == FLState(1, 0, 1, 1) && Version2().img == Pages2()
  {
    Pages2Are();
    FirstImage();
  }

  /** Had the meta page been synced, the same transaction would run in a state of some run. */
  lemma Start3Ok()
    ensures TxOk(Version2(), Start3())
  {
    hide Reachable, Inv, TxOk, FirstVersion, FirstCommitted, Version2, Version.Meta, Pages1, Pages2, List2, Storage, Enabled, After;
    WritesMeta2();
    var s := MetaInMemory2();
    SyncedMeta2();
    ReachableStep(s, Sync2);
    ReachableInv(After(s, Sync2));
    InvParts(After(s, Sync2));
    SecondImage();
    NewTxOk(After(s, Sync2), 2);
  }

  lemma SyncedMeta2()
    ensures Enabled(MetaInMemory2(), Sync2)
    ensures After(MetaInMemory2(), Sync2) == Stale(Idle).(metaDisk := Version2().Meta())
  {
    hide Version2, Version.Meta, Pages2, Pages1, FirstVersion, FirstCommitted;
    assert Flushed(Pages2(), Pages2(), {}) == Pages2();
  }

  lemma InvParts(s: State)
    requires Inv(s)
    ensures History(s) && Kept(s, s.cache) && Covers(s, s.cache)
  {
  }

  lemma Change3()
    ensures Updates(Version2(), Start3(), Bind(KEY, [8]), Tx3())
  {
    hide TxOk, FirstVersion, FirstCommitted, Version2, List1, List2, List3, Pages1, Pages2, Pages3, Needed, Contents, OneLeaf;
    Start3Ok();
    Tx3Ok();
    SecondImage();
    OneContents(3, [7]);
    OneContents(2, [8]);
  }

  lemma Begins3()
    ensures Enabled(Stale(Idle), Begin(2)) && After(Stale(Idle), Begin(2)) == Stale(Active(Start3()))
  {
    hide FirstVersion, FirstCommitted, Version2, Version.Meta, Pages1, Pages2, List2;
    SecondImage();
    assert IsMinReader(2, Stale(Idle)) && Stale(Idle).Current() == Version2();
  }

  lemma Binds3()
    ensures var s, e := Stale(Active(Start3())), KvStates.Update(Bind(KEY, [8]), Tx3());
            Enabled(s, e) && After(s, e) == Stale(Active(Tx3()))
  {
    hide Updates, FirstVersion, FirstCommitted, Version2, Version.Meta, Start3, Tx3, Pages1, Pages2;
    Change3();
  }

  /** Page 2 is written, and the kernel takes it to disk. */
  ghost function Overwritten(disk: Pages): State
  {
    Stale(Flushing(Tx3(), {1})).(cache := Pages2()[2 := LeafPage([8])], disk := disk, dirty := {2})
  }

  lemma Overwrites()
    ensures Enabled(Stale(Active(Tx3())), StartFlush)
    ensures var s := After(Stale(Active(Tx3())), StartFlush);
            Enabled(s, WritePage(2)) && After(s, WritePage(2)) == Overwritten(Pages2())
  {
    hide FirstVersion, FirstCommitted, Version2, Version.Meta, List1, List2, List3, Pages1, Pages2, Pages3, LeafPage, OneLeaf;
    SecondImage();
    var s := Stale(Active(Tx3()));
    assert s.Current() == Version2() && Tx3().updates.Keys == {1, 2} && {1, 2} - {2} == {1};
  }

  lemma CrashesAndOpens()
    ensures Leads(Overwritten(Pages2()), [WriteBack(2, LeafPage([8])), Crash, OpenFile], Lost())
  {
    hide FirstVersion, FirstCommitted, Version2, Version.Meta, Tx3, Pages1, Pages2, LeafPage, Leads;
    var s, e := Overwritten(Pages2()), WriteBack(2, LeafPage([8]));
    assert Enabled(s, e);
    var c := Overwritten(Pages2()[2 := LeafPage([8])]);
    assert After(s, e) == c;
    Recovers();
    NoSteps(Lost());
    LeadsFrom(After(c, Crash), OpenFile, [], Lost());
    assert [OpenFile] + [] == [OpenFile] && [Crash] + [OpenFile] == [Crash, OpenFile];
    assert [e] + [Crash, OpenFile] == [e, Crash, OpenFile];
    LeadsFrom(c, Crash, [OpenFile], Lost());
    LeadsFrom(s, e, [Crash, OpenFile], Lost());
  }

  lemma NoSteps(s: State)
    ensures Leads(s, [], s)
  {
  }

  lemma Recovers()
    ensures var c := Overwritten(Pages2()[2 := LeafPage([8])]);
            Enabled(c, Crash) && Enabled(After(c, Crash), OpenFile) && After(After(c, Crash), OpenFile) == Lost()
  {
    hide Version2, Tx3, Pages1, Pages2, LeafPage;
    FirstImage();
    assert FirstCommitted().Meta().Valid();
    assert History2()[..2] == [FirstVersion(), FirstCommitted()];
  }

  ghost function HarmfulSteps(): seq<Step>
  {
    [Begin(2), KvStates.Update(Bind(KEY, [8]), Tx3()), StartFlush, WritePage(2)] + [WriteBack(2, LeafPage([8])), Crash, OpenFile]
  }

  lemma Harms()
    ensures Leads(Stale(Idle), HarmfulSteps(), Lost())
  {
    hide Stale, Overwritten, Lost, Tx3, Start3, LeafPage, Leads, Enabled, After;
    var s, t, last := Stale(Active(Start3())), Stale(Active(Tx3())), [WriteBack(2, LeafPage([8])), Crash, OpenFile];
    CrashesAndOpens();
    Overwrites();
    LeadsFrom(After(t, StartFlush), WritePage(2), last, Lost());
    LeadsFrom(t, StartFlush, [WritePage(2)] + last, Lost());
    Binds3();
    var u := KvStates.Update(Bind(KEY, [8]), Tx3());
    LeadsFrom(s, u, [StartFlush] + ([WritePage(2)] + last), Lost());
    Begins3();
    LeadsFrom(Stale(Idle), Begin(2), [u] + ([StartFlush] + ([WritePage(2)] + last)), Lost());
    assert HarmfulSteps() == [Begin(2)] + ([u] + ([StartFlush] + ([WritePage(2)] + last)));
  }

  /** What the failing syncs and the close leave, and what opening it gives. */
  lemma ClosedStale()
    ensures var s := MetaInMemory2();
            && Enabled(s, SyncFails({}, false)) && Enabled(After(s, SyncFails({}, false)), Close(false))
            && After(After(s, SyncFails({}, false)), Close(false)) == MetaInMemory2().(metaDirty := false, up := false, writer := Idle)
    ensures Opened(MetaInMemory2().(metaDirty := false, up := false, writer := Idle)) == Stale(Idle)
  {
    hide FirstVersion, FirstCommitted, Tx2, Pages1, Pages2;
    SecondImage();
    assert History2()[..3] == History2();
  }

  ghost predicate Holds(rt: Root, key: Key, val: Key)
  {
    key in Contents(rt) && Contents(rt)[key] == val
  }

  lemma Bindings2()
    ensures Contents(History2()[0].rt) == map[] && Contents(History2()[1].rt) == map[KEY := []]
    ensures Contents(History2()[2].rt) == map[KEY := [7]]
    ensures forall n :: 0 <= n < |History2()| ==> !Holds(History2()[n].rt, KEY, [8])
  {
    hide Contents, Pages1, Pages2, OneLeaf;
    FirstImage();
    SecondImage();
    OneContents(2, []);
    OneContents(3, [7]);
    NoContents();
  }

  lemma NoContents()
    ensures Contents(FirstVersion().rt) == map[]
  {
  }

  lemma LostTree()
    ensures !RootOk(Lost().Current().rt, Lost().cache, HeldPages(Lost().Current().g))
    ensures HasNode(Lost().cache, RootPage(Lost().Current().rt), OneLeaf([8]))
  {
    hide Pages1, Pages2, FirstVersion;
    FirstImage();
    assert OneLeaf([8]).es[1] != OneLeaf([]).es[1];
  }

  /**
   * Some run leaves a closed file that opens on version 2 with KEY bound to [7]; a transaction, a page written back and
   * a crash later it opens on version 1, whose tree is no longer in the file: its root page is the leaf of the lost
   * transaction, with a binding that no version ever had.
   */
  lemma UnsyncedMetaHarms() returns (t: State, steps: seq<Step>, r: State)
    ensures Reachable(t) && !t.up && t.meta.Signed? && t.metaDisk.Signed? && t.metaDisk.version < t.meta.version < |t.versions|
    ensures Contents(Opened(t).Current().rt) == map[KEY := [7]]
    ensures Leads(Opened(t), steps, r) && r.up && 1 < |r.versions| <= |t.versions| && r.Current() == t.versions[t.metaDisk.version]
    ensures Contents(r.Current().rt) == map[KEY := []] && !RootOk(r.Current().rt, r.cache, HeldPages(r.Current().g))
    ensures HasNode(r.cache, RootPage(r.Current().rt), OneLeaf([8]))
    ensures forall n :: 0 <= n < |t.versions| ==> !Holds(t.versions[n].rt, KEY, [8])
  {
    hide Reachable, Inv, Enabled, After, Contents, Leads, Pages1, Pages2, List1, List2, OneLeaf, FirstVersion, FirstCommitted, Version2;
    WritesMeta2();
    ReachableInv(MetaInMemory2());
    FirstImage();
    SecondImage();
    t := UnsyncedMetaAtOpen(MetaInMemory2());
    ReachableStep(MetaInMemory2(), SyncFails({}, false));
    ReachableStep(After(MetaInMemory2(), SyncFails({}, false)), Close(false));
    ClosedStale();
    steps, r := HarmfulSteps(), Lost();
    Harms();
    LostTree();
    Bindings2();
  }
}
