/** The store object (KV in include/storage/kv.h and src/storage/kv.cpp): each method is a run of steps of the machine. */
module KvStore {
  import opened Bytes
  import opened Nodes
  import opened Entries
  import opened FreeLists
  import opened Trees
  import opened TxPages
  import opened KvTx
  import opened TreeEdit
  import opened TreeShapes
  import opened DeleteLimits
  import opened BTrees
  import opened BTreeReads
  import opened Iterators
  import opened KvStates
  import opened KvSafety
  import opened KvGuarantees
  import opened ReaderHeaps
  import opened Mmaps

  ghost predicate EndsIn(states: seq<State>, s: State)
  {
    states != [] && states[|states| - 1] == s
  }

  /** Some run leads to s. */
  ghost predicate Reachable(s: State)
  {
    exists states, steps :: IsRun(states, steps) && EndsIn(states, s)
  }

  lemma ReachableInv(s: State)
    requires Reachable(s)
    ensures Inv(s) && s.versions != []
  {
    hide Inv, IsRun;
    var states, steps :| IsRun(states, steps) && EndsIn(states, s);
    RunKeepsInv(states, steps, |states| - 1);
    HistoryExists(s);
  }

  lemma ReachableStep(s: State, e: Step)
    requires Reachable(s) && Enabled(s, e)
    ensures Reachable(After(s, e))
  {
    hide Enabled, After;
    var states, steps :| IsRun(states, steps) && EndsIn(states, s);
    var more, longer := steps + [e], states + [After(s, e)];
    forall i | 0 <= i < |more|
      ensures Enabled(longer[i], more[i]) && longer[i + 1] == After(longer[i], more[i])
    {
      assert i < |steps| ==> Enabled(states[i], steps[i]);
    }
    assert IsRun(longer, more) && EndsIn(longer, After(s, e));
  }

  /** steps lead from s to r. */
  ghost predicate Leads(s: State, steps: seq<Step>, r: State)
    decreases |steps|
  {
    if steps == [] then s == r else Enabled(s, steps[0]) && Leads(After(s, steps[0]), steps[1..], r)
  }

  lemma LeadsFrom(s: State, e: Step, steps: seq<Step>, r: State)
    requires Enabled(s, e) && Leads(After(s, e), steps, r)
    ensures Leads(s, [e] + steps, r)
  {
    hide Enabled, After;
    assert ([e] + steps)[1..] == steps;
  }

  /** A step that neither opens the file nor settles what is to be committed. */
  ghost predicate Quiet(e: Step)
  {
    !e.OpenFile? && !e.StartFlush?
  }

  /** Some such steps lead from s to t. */
  ghost predicate Onward(s: State, t: State)
  {
    exists steps :: Leads(s, steps, t) && AllQuiet(steps)
  }

  ghost predicate AllQuiet(steps: seq<Step>)
  {
    forall i :: 0 <= i < |steps| ==> Quiet(steps[i])
  }

  lemma OnwardSelf(s: State)
    ensures Onward(s, s)
  {
    assert Leads(s, [], s) && AllQuiet([]);
  }

  lemma {:induction false} LeadsOn(s: State, steps: seq<Step>, t: State, e: Step)
    requires Leads(s, steps, t) && Enabled(t, e)
    ensures Leads(s, steps + [e], After(t, e))
    decreases |steps|
  {
    hide Enabled, After;
    if steps == [] {
      assert Leads(After(t, e), [], After(t, e));
      LeadsFrom(t, e, [], After(t, e));
      assert [e] + [] == [] + [e];
    } else {
      LeadsOn(After(s, steps[0]), steps[1..], t, e);
      assert steps + [e] == [steps[0]] + (steps[1..] + [e]);
      LeadsFrom(s, steps[0], steps[1..] + [e], After(t, e));
    }
  }

  lemma QuietStep(from: State, s: State, e: Step)
    requires Reachable(s) && Onward(from, s) && Enabled(s, e) && Quiet(e)
    ensures Reachable(After(s, e)) && Onward(from, After(s, e))
  {
    hide Enabled, After, Reachable, Leads;
    ReachableStep(s, e);
    var steps :| Leads(from, steps, s) && AllQuiet(steps);
    LeadsOn(from, steps, s, e);
    assert AllQuiet(steps + [e]);
  }

  // ------------------------------------------------------------ readers

  ghost predicate MappingOk(chunks: seq<Chunk>, total: nat)
  {
    Contiguous(chunks) && total == Total(chunks)
  }

  /** More mappings, with those before still in front of them. */
  method Remap(chunks: seq<Chunk>, total: nat, size: nat) returns (more: seq<Chunk>, mapped: nat)
    requires MappingOk(chunks, total)
    ensures MappingOk(more, mapped) && mapped >= size && mapped >= total && chunks <= more
  {
    more, mapped := ExtendMmap(chunks, total, size);
    MappedForGood(chunks, more);
  }

  lemma EnoughMapped(chunks: seq<Chunk>, total: nat, v: Version)
    requires MappingOk(chunks, total) && (v.num > 0 ==> v.g.count <= total)
    ensures Maps(chunks, v)
  {
  }

  lemma MapsEnough(chunks: seq<Chunk>, total: nat, v: Version)
    requires MappingOk(chunks, total) && Maps(chunks, v)
    ensures v.num > 0 ==> v.g.count <= total
  {
  }

  /** Every page of the version is mapped. A new file maps nothing before its first commit. */
  ghost predicate Maps(chunks: seq<Chunk>, v: Version)
  {
    Contiguous(chunks) && (v.num > 0 ==> v.g.count <= Total(chunks))
  }

  /** Every reader holds the root of its version and mappings for its pages. */
  ghost predicate RootsOk(items: seq<KVReader>, versions: seq<Version>)
    reads items
  {
    forall r :: r in items ==>
      r.version < |versions| && r.root == RootPage(versions[r.version].rt) && Maps(r.chunks, versions[r.version])
  }

  // ------------------------------------------------------------ the write transaction

  /** The transaction object holds what the machine's transaction t says. */
  ghost predicate Matches(tx: KVTX, t: Tx, v: Version)
    reads tx, tx.free, tx.pages
  {
    && tx.Valid() && RootOk(t.rt, tx.View(), tx.Held()) && RootFits(t.rt) && tx.root == RootPage(t.rt)
    && tx.pages.mapped == t.mapped && tx.pages.updates == t.updates && tx.pages.append == t.append
    && tx.free.state == t.free && tx.free.g == t.g && tx.free.minReader == t.minReader
    && tx.pages.flushed == v.g.count && tx.free.version == v.num
    && tx.free.saved == v.g && tx.free.savedPages == Base(v, t.mapped) && tx.pages.onDisk == OnDisk(v)
  }

  /** The machine's view of a transaction object after an update that left its tree rt. */
  ghost function Snap(tx: KVTX, t: Tx, rt: Root, changed: bool): Tx
    reads tx, tx.free, tx.pages
  {
    t.(updates := tx.pages.updates, append := tx.pages.append, rt := rt, free := tx.free.state, g := tx.free.g, changed := changed)
  }

  lemma MatchesTxOk(tx: KVTX, t: Tx, v: Version)
    requires Matches(tx, t, v)
    ensures TxOk(v, t)
  {
  }

  datatype CommitResult = Unchanged | FirstPhaseFailed | SecondPhaseFailed | Durable

  /** Existence requirement of an update. */
  datatype UpdateMode = UpdateOrInsert | UpdateOnly | InsertOnly
  {
    predicate Permits(present: bool)
    {
      UpdateOrInsert? || (UpdateOnly? && present) || (InsertOnly? && !present)
    }
  }

  /** previous is the value replaced, if there was one; Thrown stands for the source's exception. */
  datatype UpdateResult = Thrown | Refused(previous: Lookup) | Updated(previous: Lookup)

  class KV {
    // the file, as reads see it
    var cache: Pages
    var meta: MetaPage

    // FieldsOk: what the current version of s is, and s.durable
    var root: nat
    var version: nat
    var flushed: nat
    var free: FLState
    var durable: nat
    var chunks: seq<Chunk>   // the file as mapped so far
    var mmapTotal: nat
    const readers: ReaderHeap
    const reliable: bool     // no write and no sync of this file ever fails

    ghost var s: State      // the machine this object runs
    ghost var mark: State   // its state when the file was last opened, or a commit last began to write

    /** An object for a file that is closed, whatever happened to it before. */
    constructor (cache: Pages, meta: MetaPage, reliable: bool, ghost s: State)
      requires Reachable(s) && !s.up && s.cache == cache && s.meta == meta
      ensures FileOk() && this.s == s == mark && this.reliable == reliable
      ensures fresh(readers) && readers.Valid() && readers.items == [] && readers.open == map[]
    {
      this.cache, this.meta, this.reliable, this.s, mark := cache, meta, reliable, s, s;
      OnwardSelf(s);
      root, version, flushed, free, durable := 0, 0, 0, FLState(0, 0, 0, 0), 0;
      chunks, mmapTotal := [], 0;
      readers := new ReaderHeap();
    }

    /** The file is the machine's, in a state that some run reaches. */
    ghost predicate FileOk()
      reads this
    {
      Reachable(s) && Onward(mark, s) && s.cache == cache && s.meta == meta && MappingOk(chunks, mmapTotal)
    }

    /** The fields describe the current version. */
    ghost predicate FieldsOk()
      reads this
    {
      && s.up && s.versions != []
      && version == s.Current().num && root == RootPage(s.Current().rt)
      && flushed == s.Current().g.count && free == s.Current().free && durable == s.durable
      && Maps(chunks, s.Current())
    }

    ghost predicate ReadersOk()
      reads this, readers, readers.items
    {
      readers.Valid() && readers.open == s.readers && RootsOk(readers.items, s.versions)
    }

    ghost predicate Valid()
      reads this, readers, readers.items
    {
      FileOk() && FieldsOk() && ReadersOk()
    }

    /** tx is the running write transaction. */
    ghost predicate Running(tx: KVTX)
      reads this, tx, tx.free, tx.pages
    {
      s.versions != [] && s.writer.Active? && Matches(tx, s.writer.tx, s.Current())
    }

    /** The map the running transaction sees. */
    ghost function TxMap(): map<Key, Key>
      reads this
    {
      if s.writer.Active? then Contents(s.writer.tx.rt) else map[]
    }

    /** Which entries lie in which node of its tree. */
    ghost function TxShape(): Root
      reads this
    {
      if s.writer.Active? then BareRoot(s.writer.tx.rt) else Root.Empty
    }

    /** A deletion fits if the next larger key is not longer. */
    lemma ShortNextFits(tx: KVTX, key: Key)
      requires Running(tx) && NextNotLonger(TxMap(), key)
      ensures RootDeleteFits(TxShape(), key)
    {
      hide Matches, RootOk, RootFits, Contents, KVTX.Valid, NextNotLonger, RootDeleteFits, BareRoot;
      MatchesParts(tx, s.writer.tx, s.Current());
      NextNotLongerFits(s.writer.tx.rt, tx.View(), tx.Held(), key);
      BareRootFits(s.writer.tx.rt, key);
    }

    /** Only keys that set accepts are ever in a map. */
    lemma MapKeysInLimit(tx: KVTX)
      requires Running(tx)
      ensures forall key :: key in TxMap() ==> KeyInLimit(key)
    {
      hide KVTX.Valid, RootFits;
      RootKeysInLimit(s.writer.tx.rt, tx.View(), tx.Held());
    }

    // ---------------------------------------------------------- opening and closing

    /**
     * Open the file: a new one starts empty, any other continues from its meta page, whose version is taken to be
     * durable. False stands for the exceptions of read_root. If the page read is the one on disk, the store is sound
     * again; if reads still return a newer one, it is not.
     */
    method Open() returns (ok: bool)
      requires FileOk() && !s.up && readers.Valid() && readers.open == map[] && readers.items == []
      modifies this`root, this`version, this`flushed, this`free, this`durable, this`chunks, this`mmapTotal, this`s, this`mark
      ensures ok <==> meta.Signed? || cache == map[]
      ensures !ok ==> s == old(s) && mark == old(mark)
      ensures ok ==> mark == s
      ensures ok ==> (meta.Signed? ==> meta.version < |old(s.versions)|) && s == Opened(old(s)) && FieldsOk() && s.writer == Idle
      ensures old(s.meta) == old(s.metaDisk) ==> (ok <==> Enabled(old(s), OpenFile))
      ensures ok && old(s.meta) == old(s.metaDisk) ==> Valid() && s == After(old(s), OpenFile)
      ensures ok && meta.Signed? && old(s.meta) != old(s.metaDisk) ==> !Inv(s)
    {
      hide Reachable, Onward, Enabled, After, Opened, Inv, ReaderHeap.Valid, MetaPage.Valid, MappingOk, Maps, ReadersOk, Describe;
      ReachableInv(s);
      OpenFacts(s);
      ok := ReadRoot();
      if !ok {
        return;
      }
      if s.meta == s.metaDisk {
        ReachableStep(s, OpenFile);
      }
      s := Opened(s);
      mark := s;
      OnwardSelf(s);
      Described();
      NobodyReads();
    }

    /** What FieldsOk says of the state that opening the file leads to. */
    ghost predicate Describe(t: State)
      reads this`version, this`root, this`flushed, this`free, this`durable, this`chunks
    {
      && t.versions != []
      && version == t.Current().num && root == RootPage(t.Current().rt)
      && flushed == t.Current().g.count && free == t.Current().free && durable == t.durable
      && Maps(chunks, t.Current())
    }

    lemma Described()
      requires Describe(s) && s.up
      ensures FieldsOk()
    {
    }

    /** Take over the meta page, if the file is not new; false stands for the exceptions. */
    method ReadRoot() returns (ok: bool)
      requires FileOk() && !s.up
      modifies this`root, this`version, this`flushed, this`free, this`durable, this`chunks, this`mmapTotal
      ensures ok <==> meta.Signed? || cache == map[]
      ensures MappingOk(chunks, mmapTotal)
      ensures ok ==> (meta.Signed? ==> meta.version < |s.versions|) && Describe(Opened(s))
    {
      hide Reachable, Onward, Enabled, After, Opened, Inv, MetaPage.Valid, MappingOk, Maps;
      ReachableInv(s);
      OpenFacts(s);
      if meta.Unsigned? {
        if cache != map[] {
          return false;
        }
        root, version, durable, flushed, free := 0, 0, 0, 2, FLState(1, 0, 1, 0);
      } else {
        if !meta.Valid() {
          return false;
        }
        root, version, durable, flushed, free := meta.root, meta.version, meta.version, meta.flushed, meta.free;
        chunks, mmapTotal := Remap(chunks, mmapTotal, flushed);
      }
      ok := true;
      EnoughMapped(chunks, mmapTotal, Opened(s).Current());
    }

    lemma NobodyReads()
      requires readers.Valid() && readers.open == map[] && readers.items == [] && s.readers == map[]
      ensures ReadersOk()
    {
    }

    /** Close the file once every reader and transaction has ended; its fsync may fail unnoticed. */
    method CloseFile()
      requires Valid() && s.writer == Idle && readers.items == []
      modifies this`chunks, this`mmapTotal, this`s
      ensures FileOk() && !s.up && s.versions == old(s.versions) && s.durable == old(s.durable)
    {
      hide Reachable, Onward, Enabled, After, Inv, Flushed;
      var ok: bool := *;
      NoReaders(readers);
      CloseEnabled(s, ok);
      QuietStep(mark, s, Close(ok));
      s := After(s, Close(ok));
      chunks, mmapTotal := [], 0;
    }

    // ---------------------------------------------------------- readers

    method BeginRead(tx: KVReader)
      requires Valid() && tx.id !in s.readers && tx !in readers.items
      modifies this`s, tx, readers, readers.items`heapIndex
      ensures Valid() && Enabled(old(s), KvStates.BeginRead(tx.id)) && s == After(old(s), KvStates.BeginRead(tx.id))
      ensures tx.version == version && tx.root == root && tx in readers.items
    {
      hide Reachable, Onward, Enabled, After, ReaderHeap.Valid, Inv, MappingOk, Maps;
      ReachableInv(s);
      ReadEnabled(s, tx.id);
      QuietStep(mark, s, KvStates.BeginRead(tx.id));
      tx.version, tx.root, tx.chunks := version, root, chunks;
      ghost var members := readers.items;
      readers.Push(tx);
      PushedMembers(members, readers.items, tx);
      s := After(s, KvStates.BeginRead(tx.id));
    }

    method EndRead(tx: KVReader)
      requires Valid() && tx in readers.items
      modifies this`s, readers, readers.items`heapIndex
      ensures Valid() && Enabled(old(s), KvStates.EndRead(tx.id)) && s == After(old(s), KvStates.EndRead(tx.id))
      ensures tx.heapIndex == -1 && tx !in readers.items
    {
      hide Reachable, Onward, Enabled, After, ReaderHeap.Valid, Inv, MappingOk, Maps;
      ReachableInv(s);
      readers.SlotOf(tx);
      EndEnabled(s, tx.id);
      QuietStep(mark, s, KvStates.EndRead(tx.id));
      ghost var members := readers.items;
      var removed := readers.Remove(tx.heapIndex);
      RemovedMembers(members, readers.items, tx);
      s := After(s, KvStates.EndRead(tx.id));
    }

    // ---------------------------------------------------------- the write transaction

    /**
     * The new transaction sees the current version's map. It may reuse exactly the pages freed before the durable version
     * and before the version of every open reader.
     */
    method Begin() returns (tx: KVTX)
      requires Valid() && s.writer == Idle
      modifies this`s
      ensures Valid() && Running(tx) && fresh(tx) && fresh(tx.free) && fresh(tx.pages)
      ensures forall item :: item in Items(tx.free.g) ==>
                (item.ver < tx.free.minReader <==> item.ver < durable && forall r :: r in readers.items ==> item.ver < r.version)
      ensures tx.free.minReader <= durable && (forall r :: r in readers.items ==> tx.free.minReader <= r.version)
      ensures tx.free.minReader == durable || exists r :: r in readers.items && r.version == tx.free.minReader
      ensures tx.free.g == s.Current().g && tx.pages.Count() == flushed
      ensures Enabled(old(s), KvStates.Begin(tx.free.minReader)) && s == After(old(s), KvStates.Begin(tx.free.minReader))
      ensures TxMap() == Contents(s.Current().rt) && TxShape() == BareRoot(s.Current().rt) && !s.writer.tx.changed
    {
      hide Reachable, Onward, Enabled, After, ReaderHeap.Valid, Inv, Matches, NewTx, Items, RootsOk;
      ReachableInv(s);
      var minReader := MinReader();
      OldestDecides(minReader, Items(s.Current().g));
      BeginEnabled(s, minReader);
      QuietStep(mark, s, KvStates.Begin(minReader));
      tx := NewTransaction(minReader);
      s := After(s, KvStates.Begin(minReader));
    }

    /** The durable version, or that of the oldest reader if it is older. */
    method MinReader() returns (m: nat)
      requires Valid()
      ensures m <= durable && (forall r :: r in readers.items ==> m <= r.version)
      ensures m == durable || exists r :: r in readers.items && r.version == m
      ensures m <= s.durable && (forall id :: id in s.readers ==> m <= s.readers[id])
      ensures m == s.durable || exists id :: id in s.readers && s.readers[id] == m
    {
      hide Reachable, Onward;
      m := durable;
      var oldest := readers.Min();
      if oldest != null && oldest.version < durable {
        m := oldest.version;
      }
    }

    lemma OldestDecides(m: nat, items: seq<Item>)
      requires m <= durable && (forall r :: r in readers.items ==> m <= r.version)
      requires m == durable || exists r :: r in readers.items && r.version == m
      ensures forall item :: item in items ==> (item.ver < m <==> item.ver < durable && forall r :: r in readers.items ==> item.ver < r.version)
    {
    }

    /** The buffers, list and root of a transaction that may reuse pages freed before minReader. */
    method NewTransaction(minReader: nat) returns (tx: KVTX)
      requires Valid() && minReader <= durable
      ensures Matches(tx, NewTx(s, minReader), s.Current()) && fresh(tx) && fresh(tx.free) && fresh(tx.pages)
      ensures tx.free.minReader == minReader && tx.free.g == s.Current().g && tx.pages.Count() == flushed
      ensures NewTx(s, minReader).rt == s.Current().rt && !NewTx(s, minReader).changed
    {
      hide Reachable, Onward, ReaderHeap.Valid, Inv, Matches, TxOk, Tracked, Good, Stores, Buffered, Settled, AtState, KVTX.Valid;
      ReachableInv(s);
      BeginParts(s, minReader);
      ghost var v, t := s.Current(), NewTx(s, minReader);
      var pages := new PageBuffer(cache, flushed, if version == 0 then map[1 := ZeroPage()] else map[], OnDisk(v));
      var list := new FreeList(pages, free, version, minReader, v.g, pages.View());
      tx := new KVTX(pages, list, root);
      NewMatches(tx, t, v);
    }

    /** Bind key to val in the transaction; false for a key or value the source throws for. */
    method Set(tx: KVTX, key: Key, val: Key) returns (ok: bool)
      requires Valid() && Running(tx)
      modifies this`s, tx`root, tx.free`state, tx.free`g, tx.pages
      ensures Valid() && Running(tx)
      ensures ok <==> KeyInLimit(key) && |val| <= MAX_VAL
      ensures !ok ==> s == old(s)
      ensures ok ==> TxMap() == old(TxMap())[key := val] && s.writer.tx.changed
      ensures ok ==> TxShape() == GrownRoot(old(TxShape()), key, val)
      ensures s.versions == old(s.versions) && s.readers == old(s.readers) && s.durable == old(s.durable)
    {
      hide GrownRoot, PrunedRoot, BareRoot, RootDeleteFits, Reachable, Enabled, After, ReaderHeap.Valid, Inv, Matches, TxOk, Updates, RootOk, RootFits, Contents, KVTX.Valid;
      ghost var t, v := s.writer.tx, s.Current();
      MatchesParts(tx, t, v);
      ghost var after;
      ok, after := Insert(tx, key, val, t.rt);
      if ok {
        ghost var next := Snap(tx, t, after, true);
        MatchesNext(tx, t, v, next);
        ChangeEnabled(tx, s, Bind(key, val), next);
        QuietStep(mark, s, KvStates.Update(Bind(key, val), next));
        s := After(s, KvStates.Update(Bind(key, val), next));
      }
    }

    /** Unbind key. Absent and Rejected change nothing; Aborted is the assert of an overflowing page. */
    method Del(tx: KVTX, key: Key) returns (r: Removal)
      requires Valid() && Running(tx)
      modifies this`s, tx`root, tx.free`state, tx.free`g, tx.pages
      ensures r.Rejected? <==> !KeyInLimit(key)
      ensures KeyInLimit(key) ==> (r.Absent? <==> key !in old(TxMap()))
      ensures KeyInLimit(key) && key in old(TxMap()) ==> (r.Aborted? <==> !RootDeleteFits(old(TxShape()), key))
      ensures !r.Aborted? ==> Valid() && Running(tx)
      ensures r.Rejected? || r.Absent? ==> s == old(s)
      ensures r.Unbound? ==> TxMap() == old(TxMap()) - {key} && s.writer.tx.changed
      ensures r.Unbound? ==> TxShape() == PrunedRoot(old(TxShape()), key)
      ensures s.versions == old(s.versions) && s.readers == old(s.readers) && s.durable == old(s.durable)
    {
      hide GrownRoot, PrunedRoot, BareRoot, RootDeleteFits, Reachable, Enabled, After, ReaderHeap.Valid, Inv, Matches, TxOk, Updates, RootOk, RootFits, Contents, KVTX.Valid;
      ghost var t, v := s.writer.tx, s.Current();
      MatchesParts(tx, t, v);
      ghost var after;
      BareRootFits(t.rt, key);
      r, after := Remove(tx, key, t.rt);
      if r.Unbound? {
        ghost var next := Snap(tx, t, after, true);
        MatchesNext(tx, t, v, next);
        ChangeEnabled(tx, s, Unbind(key), next);
        QuietStep(mark, s, KvStates.Update(Unbind(key), next));
        s := After(s, KvStates.Update(Unbind(key), next));
      }
    }

    /** Lookup in the transaction's map. */
    method TxGet(tx: KVTX, key: Key) returns (r: Lookup)
      requires Valid() && Running(tx)
      ensures r.Refused? <==> !KeyInLimit(key)
      ensures KeyInLimit(key) ==> r == if key in TxMap() then Found(TxMap()[key]) else Missing
    {
      hide Reachable, Onward, ReaderHeap.Valid, Inv, Matches, RootOk, RootFits, Contents, KVTX.Valid;
      MatchesParts(tx, s.writer.tx, s.Current());
      var view := tx.pages.mapped + tx.pages.updates;
      assert view == tx.View();
      r := Get(_ => view, tx.root, key, s.writer.tx.rt, tx.Held());
    }

    /** set if the mode is met by the key being there or not; reports what was there. */
    method Update(tx: KVTX, key: Key, val: Key, mode: UpdateMode) returns (r: UpdateResult)
      requires Valid() && Running(tx)
      modifies this`s, tx`root, tx.free`state, tx.free`g, tx.pages
      ensures Valid() && Running(tx)
      ensures r.Thrown? <==>
                || !KeyInLimit(key)
                || (|val| > MAX_VAL && !(mode.InsertOnly? && key in old(TxMap())) && !(mode.UpdateOnly? && key !in old(TxMap())))
      ensures r.Refused? <==> KeyInLimit(key) && ((mode.InsertOnly? && key in old(TxMap())) || (mode.UpdateOnly? && key !in old(TxMap())))
      ensures mode.InsertOnly? ==> forall k :: k in old(TxMap()) ==> k in TxMap() && TxMap()[k] == old(TxMap())[k]
      ensures mode.UpdateOnly? ==> TxMap().Keys == old(TxMap()).Keys
      ensures mode.UpdateOrInsert? && KeyInLimit(key) && |val| <= MAX_VAL ==> key in TxMap() && TxMap()[key] == val
      ensures !r.Thrown? ==> r.previous == if key in old(TxMap()) then Found(old(TxMap())[key]) else Missing
      ensures r.Updated? ==> TxMap() == old(TxMap())[key := val] && s.writer.tx.changed
      ensures r.Updated? ==> TxShape() == GrownRoot(old(TxShape()), key, val)
      ensures !r.Updated? ==> s == old(s)
    {
      hide GrownRoot, PrunedRoot, BareRoot, RootDeleteFits, Reachable, Enabled, After, ReaderHeap.Valid, Inv, Matches, Contents, KVTX.Valid;
      var previous := TxGet(tx, key);
      if previous.Refused? {
        return Thrown;
      }
      if !mode.Permits(previous.Found?) {
        return UpdateResult.Refused(previous);
      }
      var ok := Set(tx, key, val);
      r := if ok then Updated(previous) else Thrown;
    }

    /** Of two insertions of one key the first stays. */
    method InsertTwice(tx: KVTX, key: Key, first: Key, second: Key) returns (a: UpdateResult, b: UpdateResult)
      requires Valid() && Running(tx) && KeyInLimit(key) && |first| <= MAX_VAL
      modifies this`s, tx`root, tx.free`state, tx.free`g, tx.pages
      ensures Valid() && Running(tx) && b.Refused? && b.previous.Found? && key in TxMap() && b.previous.val == TxMap()[key]
      ensures TxMap()[key] == if key in old(TxMap()) then old(TxMap())[key] else first
      ensures a.Updated? <==> key !in old(TxMap())
    {
      hide Valid, Running, TxMap, TxShape, UpdateMode.Permits, KeyInLimit, GrownRoot;
      a := Update(tx, key, first, InsertOnly);
      b := Update(tx, key, second, InsertOnly);
    }

    /** Del, with the binding that was there. */
    method DelReporting(tx: KVTX, key: Key) returns (r: Removal, previous: Lookup)
      requires Valid() && Running(tx)
      modifies this`s, tx`root, tx.free`state, tx.free`g, tx.pages
      ensures r.Rejected? <==> !KeyInLimit(key)
      ensures KeyInLimit(key) ==> (r.Absent? <==> key !in old(TxMap()))
      ensures KeyInLimit(key) ==> previous == if key in old(TxMap()) then Found(old(TxMap())[key]) else Missing
      ensures KeyInLimit(key) && key in old(TxMap()) ==> (r.Aborted? <==> !RootDeleteFits(old(TxShape()), key))
      ensures !r.Aborted? ==> Valid() && Running(tx)
      ensures r.Rejected? || r.Absent? ==> s == old(s)
      ensures r.Unbound? ==> TxMap() == old(TxMap()) - {key} && s.writer.tx.changed
      ensures r.Unbound? ==> TxShape() == PrunedRoot(old(TxShape()), key)
    {
      hide GrownRoot, PrunedRoot, BareRoot, RootDeleteFits, Reachable, Enabled, After, ReaderHeap.Valid, Inv, Matches, Contents, KVTX.Valid;
      previous := TxGet(tx, key);
      if previous.Refused? {
        return Rejected, previous;
      }
      if previous.Missing? {
        return Absent, previous;
      }
      r := Del(tx, key);
    }

    /** Lookup in the map of the reader's version. */
    method ReadGet(tx: KVReader, key: Key) returns (r: Lookup)
      requires Valid() && tx in readers.items
      ensures tx.version < |s.versions|
      ensures r.Refused? <==> !KeyInLimit(key)
      ensures KeyInLimit(key) ==>
                var m := Contents(s.versions[tx.version].rt);
                r == if key in m then Found(m[key]) else Missing
    {
      hide Reachable, Onward, ReaderHeap.Valid, Inv, RootOk, Contents;
      ReachableInv(s);
      readers.SlotOf(tx);
      ReaderIntact(s, tx.id);
      var view := cache;
      r := Get(_ => view, tx.root, key, s.versions[tx.version].rt, HeldPages(s.versions[tx.version].g));
    }

    /** The running transaction's tree can be walked in its own pages. */
    lemma TxTree(tx: KVTX)
      requires Running(tx)
      ensures tx.root == RootPage(s.writer.tx.rt) && Iterable(s.writer.tx.rt, tx.View())
    {
      hide Matches, RootOk, RootFits, Contents, KVTX.Valid, Iterable;
      MatchesParts(tx, s.writer.tx, s.Current());
      tx.HeldIsNonZero();
      IterableRoot(s.writer.tx.rt, tx.View(), tx.Held());
    }

    /** A reader's tree can be walked in the file as it is now, whatever has been committed since. */
    lemma ReaderTree(tx: KVReader)
      requires Valid() && tx in readers.items
      ensures tx.version < |s.versions| && tx.root == RootPage(s.versions[tx.version].rt)
      ensures Iterable(s.versions[tx.version].rt, cache)
    {
      hide Reachable, Onward, ReaderHeap.Valid, Inv, RootOk, Contents, Iterable;
      ReachableInv(s);
      readers.SlotOf(tx);
      ReaderIntact(s, tx.id);
      VersionHolds(s, tx.version);
      IterableRoot(s.versions[tx.version].rt, cache, HeldPages(s.versions[tx.version].g));
    }

    /**
     * page_get_mapped on a reader: no page of its version's tree is ever out of range of the mappings it copied when it
     * began.
     */
    method ReadPage(tx: KVReader, ptr: nat) returns (p: Mapped)
      requires Valid() && tx in readers.items && tx.version < |s.versions|
      ensures ptr in HeldPages(s.versions[tx.version].g) ==> p == FilePage(ptr) && ptr in cache
    {
      hide Reachable, Onward, ReaderHeap.Valid, Inv, RootOk, Contents;
      ReachableInv(s);
      readers.SlotOf(tx);
      ReaderIntact(s, tx.id);
      HeldBelowCount(s, tx.version);
      p := PageGetMapped(tx.chunks, ptr);
    }

    /** The nearest entry in the tree of the reader's version. */
    method ReadSeek(tx: KVReader, key: Key, cmp: Cmp) returns (iter: BIter)
      requires Valid() && tx in readers.items
      ensures fresh(iter) && iter.Valid()
      ensures tx.version < |s.versions|
      ensures var rt := s.versions[tx.version].rt;
              && (rt.Empty? ==> iter.Entries() == [])
              && (rt.Rooted? ==> iter.Entries() == FlatT(rt.t) && Nearest(FlatT(rt.t), iter.Index(), cmp, key))
    {
      hide Valid, Iterable, Nearest, FlatT;
      ReaderTree(tx);
      var view := cache;
      iter := Seek(_ => view, tx.root, key, cmp, s.versions[tx.version].rt);
    }

    method Abort(tx: KVTX)
      requires Valid() && Running(tx)
      modifies this`s
      ensures Valid() && Enabled(old(s), KvStates.Abort) && s == After(old(s), KvStates.Abort)
      ensures s.writer == Idle && s.versions == old(s.versions)
    {
      hide Reachable, Onward, Enabled, After, ReaderHeap.Valid, Matches;
      AbortEnabled(s);
      QuietStep(mark, s, KvStates.Abort);
      s := After(s, KvStates.Abort);
    }

    // ---------------------------------------------------------- commit

    /** The kernel may copy any cached bytes to disk at any time. */
    ghost method Kernel()
      requires FileOk()
      modifies this`s
      ensures FileOk() && s == old(s).(disk := s.disk, metaDisk := s.metaDisk)
    {
      hide Reachable, Onward, Enabled, After;
      var rounds: int := *;
      while rounds > 0
        invariant FileOk() && s == old(s).(disk := s.disk, metaDisk := s.metaDisk)
      {
        var p: nat, c: Page := *, *;
        if Enabled(s, WriteBack(p, c)) {
          WriteBackEffect(s, p, c);
          QuietStep(mark, s, WriteBack(p, c));
          s := After(s, WriteBack(p, c));
        } else if Enabled(s, WriteBackMeta) {
          WriteBackMetaEffect(s);
          QuietStep(mark, s, WriteBackMeta);
          s := After(s, WriteBackMeta);
        }
        rounds := rounds - 1;
      }
    }

    /** Write one buffered page. A failing write may leave any mixture of old and new bytes. */
    method WritePage(p: nat, page: Page) returns (ok: bool)
      requires FileOk() && s.versions != [] && s.writer.Flushing? && p in s.writer.todo
      requires p in s.writer.tx.updates && s.writer.tx.updates[p] == page
      modifies this`cache, this`s
      ensures reliable ==> ok
      ensures FileOk()
      ensures ok ==> s == old(s).(cache := cache, dirty := s.dirty, disk := s.disk, metaDisk := s.metaDisk,
                                  writer := Flushing(old(s.writer.tx), old(s.writer.todo) - {p}))
      ensures !ok ==> s == old(s).(cache := cache, dirty := s.dirty, disk := s.disk, metaDisk := s.metaDisk)
    {
      hide Reachable, Onward, Enabled, After, MayTear;
      ok := *;
      ok := ok || reliable;
      if ok {
        WriteEnabled(s, p);
        QuietStep(mark, s, KvStates.WritePage(p));
        cache := cache[p := page];
        s := After(s, KvStates.WritePage(p));
      } else {
        var c: Page := *;
        if MayTear(cache, p, page, c) {
          TearEnabled(s, p, c);
          QuietStep(mark, s, TearPage(p, c));
          cache := cache[p := c];
          s := After(s, TearPage(p, c));
        }
      }
      Kernel();
    }

    /** Write every buffered page, in page order; false once a write fails. */
    method WritePages(tx: KVTX) returns (ok: bool)
      requires FileOk() && s.versions != [] && s.writer.Flushing? && s.writer.todo == s.writer.tx.updates.Keys
      requires tx.pages.updates == s.writer.tx.updates
      requires forall p :: p in tx.pages.updates ==> p < flushed + tx.pages.append
      modifies this`cache, this`chunks, this`mmapTotal, this`s
      ensures reliable ==> ok
      ensures FileOk() && mmapTotal >= flushed + tx.pages.append && mmapTotal >= old(mmapTotal)
      ensures s == old(s).(cache := cache, dirty := s.dirty, disk := s.disk, metaDisk := s.metaDisk, writer := s.writer)
      ensures s.writer.Flushing? && s.writer.tx == old(s.writer.tx) && (ok ==> s.writer.todo == {})
    {
      hide Reachable, Onward, MappingOk;
      ok := true;
      chunks, mmapTotal := Remap(chunks, mmapTotal, flushed + tx.pages.append);
      ghost var more, mapped := chunks, mmapTotal;
      var ptr, total := 0, flushed + tx.pages.append;
      while ptr < total
        invariant 0 <= ptr <= total && FileOk() && ok && chunks == more && mmapTotal == mapped
        invariant s == old(s).(cache := cache, dirty := s.dirty, disk := s.disk, metaDisk := s.metaDisk, writer := s.writer)
        invariant s.writer.Flushing? && s.writer.tx == old(s.writer.tx)
        invariant forall p :: p in s.writer.todo <==> p in tx.pages.updates && p >= ptr
      {
        if ptr in tx.pages.updates {
          ok := WritePage(ptr, tx.pages.updates[ptr]);
          if !ok {
            return;
          }
        }
        ptr := ptr + 1;
      }
    }

    /** The fsync that ends the first phase. A failing one may forget which pages still have to reach the disk. */
    method FirstSync() returns (ok: bool)
      requires FileOk() && s.versions != [] && s.writer.Flushing? && s.writer.todo == {}
      modifies this`s
      ensures reliable ==> ok
      ensures FileOk()
      ensures s == old(s).(dirty := s.dirty, disk := s.disk, metaDisk := s.metaDisk, metaDirty := s.metaDirty, writer := s.writer)
      ensures s.writer == if ok then Synced(old(s.writer.tx)) else Idle
    {
      hide Reachable, Onward, Enabled, After, Flushed;
      ok := *;
      ok := ok || reliable;
      ghost var left: set<nat>, leftMeta: bool := *, *;
      ghost var e := if ok then Sync1 else SyncFails(if left <= s.dirty then left else {}, leftMeta);
      FirstSyncEnabled(s, e);
      QuietStep(mark, s, e);
      s := After(s, e);
      Kernel();
    }

    /** Write the meta page, which is atomic. */
    method UpdateRoot() returns (ok: bool)
      requires FileOk() && s.versions != [] && s.writer == Published && Signed(root, flushed, free, version) == s.Current().Meta()
      modifies this`meta, this`s
      ensures reliable ==> ok
      ensures FileOk()
      ensures s == old(s).(meta := s.meta, metaDirty := s.metaDirty, disk := s.disk, metaDisk := s.metaDisk, writer := s.writer)
      ensures s.writer == if ok then MetaWritten else Idle
    {
      hide Reachable, Onward, Enabled, After;
      ok := *;
      ok := ok || reliable;
      if ok {
        MetaEnabled(s, WriteMeta);
        QuietStep(mark, s, WriteMeta);
        meta := Signed(root, flushed, free, version);
        s := After(s, WriteMeta);
      } else {
        MetaEnabled(s, MetaFails);
        QuietStep(mark, s, MetaFails);
        s := After(s, MetaFails);
      }
      Kernel();
    }

    /** The fsync that ends the second phase. */
    method SecondSync() returns (ok: bool)
      requires FileOk() && s.versions != [] && s.writer == MetaWritten
      modifies this`s
      ensures reliable ==> ok
      ensures FileOk() && s.writer == Idle
      ensures s == old(s).(dirty := s.dirty, disk := s.disk, metaDisk := s.metaDisk, metaDirty := s.metaDirty,
                           durable := s.durable, writer := Idle)
      ensures s.durable == if ok then |s.versions| - 1 else old(s.durable)
      ensures ok ==> s.metaDisk == s.Current().Meta()
    {
      hide Reachable, Onward, Enabled, After, Inv, Flushed;
      ReachableInv(s);
      ok := *;
      ok := ok || reliable;
      ghost var left: set<nat>, leftMeta: bool := *, *;
      ghost var e := if ok then Sync2 else SyncFails(if left <= s.dirty then left else {}, leftMeta);
      SecondSyncEnabled(s, e);
      QuietStep(mark, s, e);
      s := After(s, e);
    }

    /** Write and sync every page, then publish the new version to readers. */
    method FirstPhase(tx: KVTX) returns (ok: bool)
      requires FileOk() && FieldsOk() && Running(tx) && tx.root != root
      modifies this`cache, this`root, this`version, this`flushed, this`free, this`chunks, this`mmapTotal, this`s, this`mark
      ensures reliable ==> ok
      ensures Enabled(old(s), StartFlush) && mark == After(old(s), StartFlush)
      ensures FileOk() && FieldsOk() && s.readers == old(s.readers) && s.durable == old(s.durable)
      ensures !ok ==> s.writer == Idle && s.versions == old(s.versions)
      ensures ok ==> s.writer == Published && s.versions == old(s.versions) + [Committed(old(s.Current()), old(s.writer.tx))]
    {
      hide Reachable, Onward, Enabled, After, Inv, Matches, Committed, MappingOk, Maps;
      ReachableInv(s);
      CommitFacts(tx, s);
      MapsEnough(chunks, mmapTotal, s.Current());
      ghost var t, v := s.writer.tx, s.Current();
      ReachableStep(s, StartFlush);
      s := After(s, StartFlush);
      mark := s;
      OnwardSelf(s);
      ok := WritePages(tx);
      EnoughMapped(chunks, mmapTotal, v);
      if !ok {
        FailEnabled(s, WriteFails);
        QuietStep(mark, s, WriteFails);
        s := After(s, WriteFails);
        return;
      }
      ok := FirstSync();
      if !ok {
        return;
      }
      PublishVersion(tx, v, t);
    }

    /** Publish the synced version: the fields and the mappings are its own from now on. */
    method PublishVersion(tx: KVTX, ghost v: Version, ghost t: Tx)
      requires FileOk() && s.up && s.versions != [] && s.Current() == v && s.writer == Synced(t)
      requires version == v.num && flushed == v.g.count && durable == s.durable && mmapTotal >= t.g.count
      requires tx.root == RootPage(t.rt) && tx.free.state == t.free && t.g.count == v.g.count + tx.pages.append
      modifies this`root, this`version, this`flushed, this`free, this`s
      ensures FileOk() && FieldsOk() && s.readers == old(s.readers) && s.durable == old(s.durable)
      ensures s.writer == Published && s.versions == old(s.versions) + [Committed(v, t)]
    {
      hide Reachable, Onward, Enabled, After, MappingOk, Maps;
      flushed := flushed + tx.pages.append;
      free := tx.free.state;
      root := tx.root;
      version := version + 1;
      PublishEnabled(s);
      QuietStep(mark, s, Publish);
      s := After(s, Publish);
      assert s.Current() == Committed(v, t);
      EnoughMapped(chunks, mmapTotal, s.Current());
    }

    /** Write and sync the meta page. */
    method SecondPhase() returns (ok: bool)
      requires FileOk() && FieldsOk() && s.writer == Published
      modifies this`meta, this`durable, this`s
      ensures reliable ==> ok
      ensures FileOk() && FieldsOk() && s.readers == old(s.readers) && s.versions == old(s.versions) && s.writer == Idle
      ensures !ok ==> durable == old(durable)
      ensures ok ==> durable == |s.versions| - 1 && s.metaDisk == s.Current().Meta()
    {
      hide Reachable, Onward, Inv, MappingOk, Maps;
      ReachableInv(s);
      CurrentNum(s);
      ok := UpdateRoot();
      if !ok {
        return;
      }
      ok := SecondSync();
      if !ok {
        return;
      }
      durable := version;
    }

    /**
     * The two-phase commit. A failing first phase leaves the old version current. A failing second phase keeps the new
     * version, which the file may or may not hold; only a completed one makes it durable.
     */
    method Commit(tx: KVTX) returns (r: CommitResult)
      requires Valid() && Running(tx)
      modifies this`cache, this`meta, this`root, this`version, this`flushed, this`free, this`durable, this`chunks, this`mmapTotal, this`s,
               this`mark
      ensures if r.Unchanged? then mark == old(mark) else Enabled(old(s), StartFlush) && mark == After(old(s), StartFlush)
      ensures Valid() && s.writer == Idle && s.readers == old(s.readers)
      ensures r.Unchanged? <==> !old(s.writer.tx.changed)
      ensures r.Unchanged? ==> s == old(s).(writer := Idle) && old(TxMap()) == Contents(s.Current().rt)
      ensures reliable ==> r.Unchanged? || r.Durable?
      ensures r.FirstPhaseFailed? ==> s.versions == old(s.versions)
      ensures r.SecondPhaseFailed? || r.Durable? ==> s.versions == old(s.versions) + [Committed(old(s.Current()), old(s.writer.tx))]
      ensures !r.Durable? ==> durable == old(durable)
      ensures r.Durable? ==> durable == |s.versions| - 1 && s.metaDisk == s.Current().Meta()
    {
      hide Reachable, Onward, Enabled, After, ReaderHeap.Valid, Inv, Matches, Contents, Committed, MappingOk, Maps;
      ReachableInv(s);
      CommitFacts(tx, s);
      if tx.root == root {
        QuietStep(mark, s, CommitNothing);
        s := After(s, CommitNothing);
        return Unchanged;
      }
      var ok := FirstPhase(tx);
      if !ok {
        return FirstPhaseFailed;
      }
      ok := SecondPhase();
      r := if ok then Durable else SecondPhaseFailed;
    }
  }

  // ------------------------------------------------------------ what the machine allows

  lemma ReadEnabled(s: State, id: nat)
    requires Inv(s) && s.up && id !in s.readers
    ensures Enabled(s, BeginRead(id))
    ensures var t := After(s, BeginRead(id));
            && t == s.(readers := s.readers[id := s.Current().num])
    ensures s.Current().num == |s.versions| - 1
  {
    hide Storage, Kept, VersionOk, WriterOk;
  }

  lemma EndEnabled(s: State, id: nat)
    requires Inv(s) && s.up && id in s.readers
    ensures Enabled(s, EndRead(id))
    ensures After(s, EndRead(id)) == s.(readers := s.readers - {id})
  {
    hide Inv;
    HistoryExists(s);
  }

  lemma AbortEnabled(s: State)
    requires s.versions != [] && s.writer.Active?
    ensures Enabled(s, Abort) && After(s, Abort) == s.(writer := Idle)
  {
  }

  lemma BeginEnabled(s: State, m: nat)
    requires Inv(s) && s.up && s.writer == Idle
    requires m <= s.durable && (forall id :: id in s.readers ==> m <= s.readers[id])
    requires m == s.durable || exists id :: id in s.readers && s.readers[id] == m
    ensures s.versions != [] && Enabled(s, Begin(m)) && After(s, Begin(m)) == s.(writer := Active(NewTx(s, m)))
  {
    hide Inv, NewTx;
    HistoryExists(s);
  }

  /** What the constructors of a transaction's parts need. */
  lemma BeginParts(s: State, m: nat)
    requires Inv(s) && m <= s.durable
    ensures s.versions != []
    ensures TxOk(s.Current(), NewTx(s, m)) && NewTx(s, m).rt == s.Current().rt && !NewTx(s, m).changed
    ensures var v, t := s.Current(), NewTx(s, m);
            && m <= v.num && Good(v.g, v.num) && Settled(v.g) && AtState(v.g, v.free) && Stores(t.View(), v.g)
            && Buffered(v.g, OnDisk(v), t.updates.Keys) && t.View() == Base(v, t.mapped)
            && (forall p :: p in t.updates ==> p in v.g.role && p != 0)
            && (forall p :: p in v.g.role && p != 0 ==> p in t.View())
  {
    hide Kept, VersionOk, TxOk, Covers, Good, Stores, Buffered, ListWritten, Settled, AtState, WriterOk, MetaOk;
    StorageParts(s);
    NewTxOk(s, m);
    var v, t := s.Current(), NewTx(s, m);
    TxParts(v, t);
    VersionParts(v);
    VersionSettled(v);
    StoredCovers(t.View(), t.g);
    assert t.View() == Base(v, t.mapped);
    WrittenInFile(v.g, t.g, t.updates.Keys);
  }

  lemma VersionSettled(v: Version)
    requires VersionOk(v)
    ensures Settled(v.g)
  {
  }

  lemma WrittenInFile(s: Lists, g: Lists, updates: set<nat>)
    requires ListWritten(s, g, updates)
    ensures forall p :: p in updates ==> p in g.role && p != 0
  {
  }

  lemma NewMatches(tx: KVTX, t: Tx, v: Version)
    requires TxOk(v, t) && tx.Valid() && tx.root == RootPage(t.rt) && t.View() == Base(v, t.mapped)
    requires tx.pages.mapped == t.mapped && tx.pages.updates == t.updates && tx.pages.append == t.append
    requires tx.free.state == t.free && tx.free.g == t.g && tx.free.minReader == t.minReader
    requires tx.pages.flushed == v.g.count && tx.free.version == v.num && tx.pages.onDisk == OnDisk(v)
    requires tx.free.saved == v.g && tx.free.savedPages == t.View()
    ensures Matches(tx, t, v)
  {
    hide Tracked, RootOk, RootFits, Settled;
  }

  /** What a transaction object fixes for good. */
  ghost predicate SameTx(tx: KVTX, t: Tx, v: Version)
  {
    && tx.pages.mapped == t.mapped && tx.free.minReader == t.minReader
    && tx.pages.flushed == v.g.count && tx.free.version == v.num
    && tx.free.saved == v.g && tx.free.savedPages == Base(v, t.mapped) && tx.pages.onDisk == OnDisk(v)
  }

  lemma MatchesParts(tx: KVTX, t: Tx, v: Version)
    requires Matches(tx, t, v)
    ensures tx.Valid() && RootOk(t.rt, tx.View(), tx.Held()) && RootFits(t.rt) && tx.root == RootPage(t.rt)
    ensures SameTx(tx, t, v)
  {
    hide KVTX.Valid, RootOk, RootFits;
  }

  lemma MatchesNext(tx: KVTX, t: Tx, v: Version, next: Tx)
    requires SameTx(tx, t, v) && tx.Valid() && RootOk(next.rt, tx.View(), tx.Held()) && RootFits(next.rt)
    requires tx.root == RootPage(next.rt) && next == Snap(tx, t, next.rt, next.changed)
    ensures Matches(tx, next, v)
    ensures next.mapped == t.mapped && next.minReader == t.minReader
  {
    hide KVTX.Valid, RootOk, RootFits;
  }

  lemma ChangeEnabled(tx: KVTX, s: State, change: Change, next: Tx)
    requires s.versions != [] && s.writer.Active? && Matches(tx, next, s.Current()) && !change.Neither?
    requires next.mapped == s.writer.tx.mapped && next.minReader == s.writer.tx.minReader && next.changed
    requires tx.root != 0 && !tx.Pinned(tx.root)
    requires change.Bind? ==> Contents(next.rt) == Contents(s.writer.tx.rt)[change.key := change.val]
    requires change.Unbind? ==> change.key in Contents(s.writer.tx.rt) && Contents(next.rt) == Contents(s.writer.tx.rt) - {change.key}
    ensures Enabled(s, KvStates.Update(change, next))
    ensures After(s, KvStates.Update(change, next)) == s.(writer := Active(next))
  {
    hide TxOk, RootOk, RootFits, Contents, KVTX.Valid, Needed;
    MatchesTxOk(tx, next, s.Current());
  }

  lemma WriteEnabled(s: State, p: nat)
    requires s.versions != [] && s.writer.Flushing? && p in s.writer.todo && p in s.writer.tx.updates
    ensures Enabled(s, WritePage(p))
    ensures After(s, WritePage(p)) ==
            s.(cache := s.cache[p := s.writer.tx.updates[p]], dirty := s.dirty + {p}, writer := Flushing(s.writer.tx, s.writer.todo - {p}))
  {
  }

  lemma TearEnabled(s: State, p: nat, c: Page)
    requires s.versions != [] && s.writer.Flushing? && p in s.writer.todo && p in s.writer.tx.updates
    requires MayTear(s.cache, p, s.writer.tx.updates[p], c)
    ensures Enabled(s, TearPage(p, c))
    ensures After(s, TearPage(p, c)) == s.(cache := s.cache[p := c], dirty := s.dirty + {p})
  {
    hide MayTear;
  }

  lemma FailEnabled(s: State, e: Step)
    requires s.versions != [] && s.writer.Flushing? && e == WriteFails
    ensures Enabled(s, e) && After(s, e) == s.(writer := Idle)
  {
  }

  lemma FirstSyncEnabled(s: State, e: Step)
    requires s.versions != [] && s.writer.Flushing? && s.writer.todo == {}
    requires e == Sync1 || (e.SyncFails? && e.left <= s.dirty)
    ensures Enabled(s, e)
    ensures var t := After(s, e);
            && t == s.(dirty := t.dirty, disk := t.disk, metaDisk := t.metaDisk, metaDirty := t.metaDirty, writer := t.writer)
            && t.writer == if e == Sync1 then Synced(s.writer.tx) else Idle
  {
    hide Flushed;
  }

  lemma MetaEnabled(s: State, e: Step)
    requires s.versions != [] && s.writer == Published && (e == WriteMeta || e == MetaFails)
    ensures Enabled(s, e)
    ensures After(s, e) ==
            if e == WriteMeta then s.(meta := s.Current().Meta(), metaDirty := true, writer := MetaWritten) else s.(writer := Idle)
  {
  }

  lemma SecondSyncEnabled(s: State, e: Step)
    requires Inv(s) && s.writer == MetaWritten
    requires e == Sync2 || (e.SyncFails? && e.left <= s.dirty)
    ensures s.versions != [] && Enabled(s, e)
    ensures var t := After(s, e);
            && t == s.(dirty := t.dirty, disk := t.disk, metaDisk := t.metaDisk, metaDirty := t.metaDirty, durable := t.durable, writer := Idle)
            && t.durable == (if e == Sync2 then |s.versions| - 1 else s.durable)
            && (e == Sync2 ==> t.metaDisk == s.Current().Meta())
  {
    hide Flushed, Storage, VersionOk;
  }

  /** What commit reads off the transaction, and that its test of the root decides whether there is anything to write. */
  lemma CommitFacts(tx: KVTX, s: State)
    requires Inv(s) && s.versions != [] && s.writer.Active? && Matches(tx, s.writer.tx, s.Current())
    ensures var t, v := s.writer.tx, s.Current();
            && tx.root == RootPage(t.rt) && tx.pages.updates == t.updates && tx.free.state == t.free
            && t.g.count == v.g.count + tx.pages.append
            && (forall p :: p in t.updates ==> p < t.g.count)
            && Committed(v, t).Meta() == Signed(tx.root, t.g.count, tx.free.state, v.num + 1)
            && (RootPage(t.rt) == RootPage(v.rt) ==>
                  !t.changed && t.rt == v.rt && Enabled(s, CommitNothing) && After(s, CommitNothing) == s.(writer := Idle))
            && (RootPage(t.rt) != RootPage(v.rt) ==>
                  t.changed && Enabled(s, StartFlush) && After(s, StartFlush) == s.(writer := Flushing(t, t.updates.Keys)))
  {
    hide Storage, VersionOk, Kept, RootOk, RootFits, TxOk, KVTX.Valid;
    MatchesTxOk(tx, s.writer.tx, s.Current());
    CommitPages(s.Current(), s.writer.tx);
  }

  lemma CommitPages(v: Version, t: Tx)
    requires TxOk(v, t)
    ensures t.g.count == v.g.count + t.append
    ensures forall p :: p in t.updates ==> p < t.g.count
  {
    hide RootOk, RootFits, Settled, Stores;
    WrittenInFile(v.g, t.g, t.updates.Keys);
  }

  lemma CurrentNum(s: State)
    requires Inv(s)
    ensures s.versions != [] && s.Current().num == |s.versions| - 1
  {
    hide Storage, WriterOk, VersionOk;
  }

  /** What read_root finds in any file that a run can leave behind. */
  lemma OpenFacts(s: State)
    requires Inv(s) && !s.up
    ensures s.versions != [] && (s.meta.Signed? ==> s.meta.Valid() && s.meta.version < |s.versions|)
    ensures s.meta == s.metaDisk ==>
              (Enabled(s, OpenFile) <==> s.meta.Signed? || s.cache == map[]) && (Enabled(s, OpenFile) ==> After(s, OpenFile) == Opened(s))
    ensures s.meta.Signed? ==> (Inv(Opened(s)) <==> s.meta == s.metaDisk)
    ensures var t := Opened(s);
            && t == s.(up := true, versions := t.versions, durable := t.durable) && t.versions != []
            && t.readers == map[] && t.writer == Idle
            && (if s.meta.Signed? then t.Current().Meta() == s.meta && t.durable == s.meta.version
                else t.Current() == FirstVersion() && t.durable == 0)
  {
    hide Kept, Covers, VersionOk, MetaPage.Valid;
    if s.meta.Signed? {
      MetaAccepted(s.versions[s.meta.version]);
      OpenIsSafeExactlyIf(s);
    }
  }

  lemma NoReaders(heap: ReaderHeap)
    requires heap.Valid() && heap.items == []
    ensures heap.open == map[]
  {
  }

  lemma CloseEnabled(s: State, ok: bool)
    requires s.versions != [] && s.up && s.readers == map[] && s.writer == Idle
    ensures Enabled(s, Close(ok))
    ensures var t := After(s, Close(ok));
            t == s.(up := false, disk := t.disk, dirty := t.dirty, metaDisk := t.metaDisk, metaDirty := t.metaDirty)
  {
    hide Flushed;
  }

  lemma HeldBelowCount(s: State, n: nat)
    requires Inv(s) && n < |s.versions|
    ensures s.versions[n].num == n && forall p :: p in HeldPages(s.versions[n].g) ==> p < s.versions[n].g.count && n > 0
  {
    hide Storage, WriterOk;
    assert VersionOk(s.versions[n]);
  }

  /** Page 0 holds no tree. */
  lemma VersionHolds(s: State, n: nat)
    requires Inv(s) && n < |s.versions|
    ensures 0 !in HeldPages(s.versions[n].g)
  {
    hide Storage, WriterOk;
    assert VersionOk(s.versions[n]);
  }

  lemma RootKeysInLimit(rt: Root, view: Pages, held: set<nat>)
    requires RootOk(rt, view, held)
    ensures forall key :: key in Contents(rt) ==> KeyInLimit(key)
  {
    if rt.Rooted? {
      AsMapKeys(FlatT(rt.t));
      forall key | key in Contents(rt)
        ensures KeyInLimit(key)
      {
        assert Has(FlatT(rt.t), key);
      }
    }
  }
}
