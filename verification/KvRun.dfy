/** Runs from an empty file to the states in which recovery has a condition. */
module KvRuns {
  import opened Nodes
  import opened FreeLists
  import opened Trees
  import opened TreeEdit
  import opened KvStates
  import opened KvSafety
  import opened KvGuarantees
  import opened KvStore

  const KEY: seq<Bytes.Byte> := [1]

  /** The leaf of a tree that binds KEY alone, and its page. */
  function OneLeaf(val: seq<Bytes.Byte>): Node
  {
    Node(true, [Entry(0, [], []), Entry(0, KEY, val)])
  }

  function LeafPage(val: seq<Bytes.Byte>): Page
  {
    TreePage(OneLeaf(val), ListBytes(0, Zeros(CAP)))
  }

  /** The first transaction of a new file, before it has done anything. */
  ghost function NewFileTx(): Tx
  {
    Tx(map[], map[1 := ZeroPage()], 0, 0, Root.Empty, FLState(1, 0, 1, 0), EMPTY_LIST, false)
  }

  /** After it has bound KEY, in a leaf on page 2. */
  ghost function FirstTx(): Tx
  {
    Tx(map[], map[1 := ZeroPage(), 2 := LeafPage([])], 1, 0, Rooted(Leaf(2, OneLeaf([]).es), 0), FLState(1, 0, 1, 0),
       Extended(EMPTY_LIST), true)
  }

  /** The state of an opened new file with this writer. */
  ghost function NewFile(w: Writer): State
  {
    Init().(up := true, writer := w)
  }

  lemma Opens()
    ensures Reachable(NewFile(Idle))
  {
    hide VersionOk, MetaPage.Valid, FirstVersion;
    var s := Init();
    assert IsRun([s], []) && EndsIn([s], s);
    assert Enabled(s, OpenFile) && After(s, OpenFile) == NewFile(Idle);
    ReachableStep(s, OpenFile);
  }

  lemma Begins()
    ensures Reachable(NewFile(Active(NewFileTx())))
  {
    hide Reachable;
    Opens();
    var s := NewFile(Idle);
    assert IsMinReader(0, s) && s.Current() == FirstVersion();
    assert NewTx(s, 0) == NewFileTx();
    assert After(s, Begin(0)) == NewFile(Active(NewFileTx()));
    ReachableStep(s, Begin(0));
  }

  lemma FirstPages()
    ensures FirstTx().View() == NewFileTx().View()[2 := LeafPage([])]
    ensures FirstTx().updates.Keys == NewFileTx().updates.Keys + {2}
    ensures HasNode(FirstTx().View(), 2, OneLeaf([]))
  {
  }

  lemma FirstTxOk()
    ensures TxOk(FirstVersion(), FirstTx()) && !Needed(EMPTY_LIST, 2, 0)
  {
    hide Tracked, RootOk, RootFits, Reachable, Good;
    Begins();
    var s := NewFile(Active(NewFileTx()));
    ReachableInv(s);
    var t, u, v := NewFileTx(), FirstTx(), FirstVersion();
    WriterHasTx(s);
    FirstPages();
    ExtendTracked(EMPTY_LIST, LeafPage([]), t.free, t.View(), t.updates.Keys, OnDisk(v), 2, v.g, Base(v, t.mapped), 0, 0);
    NewList();
    FirstRoot(2, KEY, [], u.View(), OneLeaf([]));
  }

  lemma WriterHasTx(s: State)
    requires Inv(s) && s.versions != [] && s.writer.Active?
    ensures TxOk(s.Current(), s.writer.tx)
  {
  }

  lemma NewList()
    ensures Settled(Extended(EMPTY_LIST)) && HeldPages(Extended(EMPTY_LIST)) == {2} && HeldPages(EMPTY_LIST) == {}
  {
  }

  lemma Binds()
    ensures Reachable(NewFile(Active(FirstTx())))
  {
    hide Reachable, TxOk;
    Begins();
    FirstTxOk();
    var s := NewFile(Active(NewFileTx()));
    var change := Bind(KEY, []);
    FirstContents();
    assert s.Current() == FirstVersion();
    assert Updates(s.Current(), NewFileTx(), change, FirstTx());
    ReachableStep(s, KvStates.Update(change, FirstTx()));
  }

  lemma FirstContents()
    ensures Contents(FirstTx().rt) == Contents(Root.Empty)[KEY := []]
  {
    OneContents(2, []);
  }

  lemma OneContents(p: nat, val: seq<Bytes.Byte>)
    ensures Contents(Rooted(Leaf(p, OneLeaf(val).es), 0)) == map[KEY := val]
  {
    var es := OneLeaf(val).es;
    assert es[1..] == [es[1]] && es[1..][1..] == [];
    assert Entries.AsMap(es[1..]) == map[KEY := val];
  }

  lemma Flushes()
    ensures Reachable(NewFile(Flushing(FirstTx(), {1, 2})))
  {
    hide Reachable;
    Binds();
    var s := NewFile(Active(FirstTx()));
    assert FirstTx().updates.Keys == {1, 2};
    ReachableStep(s, StartFlush);
  }

  /** Some run ends in a crash during the first commit after which the file does not open. */
  lemma FirstCommitCrashReached() returns (s: State)
    ensures Reachable(s) && !s.up && !Enabled(s, OpenFile)
  {
    hide Reachable, Inv, Enabled, After, MayTear;
    Flushes();
    var r := NewFile(Flushing(FirstTx(), {1, 2}));
    ReachableInv(r);
    WriteEnabled(r, 2);
    var t, u := FirstCommitCrash(r, 2);
    ReachableStep(r, WritePage(2));
    ReachableStep(t, WriteBack(2, LeafPage([])));
    ReachableStep(u, Crash);
    s := After(u, Crash);
    Crashed(u);
  }

  lemma Crashed(u: State)
    requires Enabled(u, Crash)
    ensures !After(u, Crash).up
  {
  }

  // ------------------------------------------------------------ to the meta page

  /** The file once both pages are written: in memory only, or synced. */
  ghost function Written(w: Writer): State
  {
    NewFile(w).(cache := FirstTx().updates, dirty := {1, 2})
  }

  ghost function Flushed1(w: Writer): State
  {
    NewFile(w).(cache := FirstTx().updates, disk := FirstTx().updates)
  }

  lemma Writes()
    ensures Reachable(Written(Flushing(FirstTx(), {})))
  {
    hide Reachable;
    Flushes();
    var r := NewFile(Flushing(FirstTx(), {1, 2}));
    ReachableStep(r, WritePage(1));
    var t := After(r, WritePage(1));
    ReachableStep(t, WritePage(2));
    var u := After(t, WritePage(2));
    assert u.cache == FirstTx().updates && u.dirty == {1, 2};
    assert {1, 2} - {1} - {2} == {};
    assert u == Written(Flushing(FirstTx(), {}));
  }

  lemma Syncs()
    ensures Reachable(Flushed1(Synced(FirstTx())))
  {
    hide Reachable, LeafPage;
    Writes();
    var s := Written(Flushing(FirstTx(), {}));
    ReachableStep(s, Sync1);
    assert Flushed(s.cache, s.disk, s.dirty) == FirstTx().updates;
    assert After(s, Sync1) == Flushed1(Synced(FirstTx()));
  }

  /** The first version of the file, published, with its meta page written but not yet synced. */
  ghost function FirstCommitted(): Version
  {
    Committed(FirstVersion(), FirstTx())
  }

  ghost function MetaInMemory(): State
  {
    Flushed1(MetaWritten).(versions := [FirstVersion(), FirstCommitted()], meta := FirstCommitted().Meta(), metaDirty := true)
  }

  lemma WritesMeta()
    ensures Reachable(MetaInMemory())
  {
    hide Reachable, FirstTx, FirstVersion;
    Syncs();
    var s := Flushed1(Synced(FirstTx()));
    ReachableStep(s, Publish);
    var t := After(s, Publish);
    assert t.versions == [FirstVersion(), FirstCommitted()];
    ReachableStep(t, WriteMeta);
    assert After(t, WriteMeta) == MetaInMemory();
  }

  /** Some run leaves a closed file whose meta page is newer in memory than on disk, so that opening it is not safe. */
  lemma UnsyncedMetaReached() returns (t: State)
    ensures Reachable(t) && !t.up && t.meta.Signed? && t.meta != t.metaDisk && t.meta.version < |t.versions|
    ensures !Inv(Opened(t))
  {
    hide Reachable, Inv, Enabled, After, FirstTx, FirstVersion;
    WritesMeta();
    var s := MetaInMemory();
    ReachableInv(s);
    t := UnsyncedMetaAtOpen(s);
    ReachableStep(s, SyncFails({}, false));
    ReachableStep(After(s, SyncFails({}, false)), Close(false));
  }
}
