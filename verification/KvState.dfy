/**
 * The store as a state machine (src/storage/kv.cpp): readers, one write transaction, the two-phase commit with every
 * page write a step of its own, failing and lying fsyncs, crashes and reopening. A page has two images: cache is what
 * reads return, disk is what a crash leaves; the kernel may copy any bytes from cache to disk at any time.
 */
module KvStates {
  import opened Bytes
  import opened FreeLists
  import opened TreeEdit

  /** Page 0, written atomically. Unsigned stands for a file whose meta page was never written. */
  datatype MetaPage = Unsigned | Signed(root: nat, flushed: nat, free: FLState, version: nat)
  {
    /** The checks of read_root. */
    predicate Valid()
    {
      && Signed? && version != 0 && flushed >= 2 && root < flushed
      && free.headPage != 0 && free.headPage < flushed
      && free.tailPage != 0 && free.tailPage < flushed
      && free.headSeq <= free.tailSeq
    }
  }

  /** A committed version: its tree and free list, and the pages as of its commit. */
  datatype Version = Version(num: nat, rt: Root, free: FLState, g: Lists, img: Pages)
  {
    ghost function Meta(): MetaPage { Signed(RootPage(rt), g.count, free, num) }
  }

  /** A write transaction; changed records whether a set ran or a del returned true. */
  datatype Tx = Tx(mapped: Pages, updates: Pages, append: nat, minReader: nat, rt: Root, free: FLState, g: Lists, changed: bool)
  {
    ghost function View(): Pages { mapped + updates }
  }

  /** Where the writer is. Flushing has pages left to write, Synced has passed the first fsync. */
  datatype Writer = Idle | Active(tx: Tx) | Flushing(tx: Tx, todo: set<nat>) | Synced(tx: Tx) | Published | MetaWritten

  datatype State = State(
    cache: Pages, disk: Pages, dirty: set<nat>,
    meta: MetaPage, metaDisk: MetaPage, metaDirty: bool,
    up: bool,
    versions: seq<Version>,   // every committed version; the last is the current one
    durable: nat,             // durable_version_
    readers: map<nat, nat>,   // open readers and their versions
    writer: Writer)
  {
    ghost function Current(): Version
      requires versions != []
    {
      versions[|versions| - 1]
    }

    /** A version that recovery may choose or an open reader reads. */
    ghost predicate Protected(n: nat)
    {
      n < |versions| && (durable <= n || exists id :: id in readers && readers[id] == n)
    }
  }

  // ------------------------------------------------------------------ steps

  datatype Change = Bind(key: Key, val: Key) | Unbind(key: Key) | Neither

  /** Kill ends the process and keeps the file as reads see it; Crash keeps only what is on disk. */
  datatype Step =
    | OpenFile | Close(ok: bool)
    | BeginRead(id: nat) | EndRead(id: nat)
    | Begin(minReader: nat) | Update(change: Change, tx: Tx) | Abort
    | CommitNothing | StartFlush | WritePage(p: nat) | TearPage(p: nat, c: Page) | WriteFails | Sync1
    | SyncFails(left: set<nat>, leftMeta: bool)
    | Publish | WriteMeta | MetaFails | Sync2
    | WriteBack(p: nat, c: Page) | WriteBackMeta | Kill | Crash

  /** c mixes bytes of a and b: whatever a and b agree on, c has too. */
  predicate Torn(a: Page, b: Page, c: Page)
  {
    && (a == b ==> c == a)
    && (a.AsList().next == b.AsList().next ==> c.AsList().next == a.AsList().next)
    && (forall i :: 0 <= i < CAP && a.AsList().slots[i] == b.AsList().slots[i] ==> c.AsList().slots[i] == a.AsList().slots[i])
  }

  predicate MayTear(from: Pages, p: nat, b: Page, c: Page)
  {
    p in from ==> Torn(from[p], b, c)
  }

  /** What a successful fsync leaves on disk. */
  ghost function Flushed(cache: Pages, disk: Pages, dirty: set<nat>): Pages
  {
    disk + map p | p in dirty && p in cache :: cache[p]
  }

  const EMPTY_LIST: Lists := Lists(0, 0, 0, map[], map[0 := 1], map[0 := Role.Meta, 1 := ListNode(0)], 2)

  /** A new file before its first commit: page 1 is reserved for the free list's first node. */
  ghost function FirstVersion(): Version
  {
    Version(0, Empty, FLState(1, 0, 1, 0), EMPTY_LIST, map[1 := ZeroPage()])
  }

  /** The pages a transaction starts from; the first one of a new file buffers the list node. */
  ghost function Base(v: Version, mapped: Pages): Pages
  {
    if v.num == 0 then mapped[1 := ZeroPage()] else mapped
  }

  /** How many pages of v the file has: none but the meta page before the first commit. */
  ghost function OnDisk(v: Version): nat
  {
    if v.num == 0 then 1 else v.g.count
  }

  /** min_reader: the durable version, or the oldest reader's if that is older. */
  ghost predicate IsMinReader(m: nat, s: State)
  {
    && m <= s.durable
    && (forall id :: id in s.readers ==> m <= s.readers[id])
    && (m == s.durable || exists id :: id in s.readers && s.readers[id] == m)
  }

  ghost function NewTx(s: State, minReader: nat): Tx
    requires s.versions != []
  {
    var v := s.Current();
    Tx(s.cache, if v.num == 0 then map[1 := ZeroPage()] else map[], 0, minReader, v.rt, v.free, v.g, false)
  }

  /** What the contracts of KVTX, Insert and Remove promise of a transaction on version v. */
  ghost predicate TxOk(v: Version, tx: Tx)
  {
    && Tracked(tx.g, tx.free, tx.View(), tx.updates.Keys, OnDisk(v), v.g.count + tx.append, v.g, Base(v, tx.mapped),
               tx.minReader, v.num)
    && Settled(tx.g)
    && (forall p :: p in HeldPages(tx.g) && p !in tx.updates ==> p in HeldPages(v.g))
    && RootOk(tx.rt, tx.View(), HeldPages(tx.g)) && RootFits(tx.rt)
  }

  /** after is tx with the change made; a real change puts the root on a page that no kept version relies on. */
  ghost predicate Updates(v: Version, tx: Tx, change: Change, after: Tx)
  {
    && after.mapped == tx.mapped && after.minReader == tx.minReader && TxOk(v, after)
    && match change
       case Bind(key, val) =>
         Contents(after.rt) == Contents(tx.rt)[key := val] && Moved(v, after)
       case Unbind(key) =>
         key in Contents(tx.rt) && Contents(after.rt) == Contents(tx.rt) - {key} && Moved(v, after)
       case Neither =>
         after.rt == tx.rt && after.changed == tx.changed
  }

  ghost predicate Moved(v: Version, after: Tx)
  {
    after.changed && RootPage(after.rt) != 0 && !Needed(v.g, RootPage(after.rt), after.minReader)
  }

  ghost function Committed(v: Version, tx: Tx): Version
  {
    Version(v.num + 1, tx.rt, tx.free, tx.g, tx.View())
  }

  ghost predicate Enabled(s: State, e: Step)
  {
    && s.versions != []
    && match e
       case OpenFile =>
         !s.up && s.meta == s.metaDisk && (if s.meta.Signed? then s.meta.Valid() && s.meta.version < |s.versions| else s.cache == map[])
       case Close(_) => s.up && s.readers == map[] && s.writer == Idle
       case BeginRead(id) => s.up && id !in s.readers
       case EndRead(id) => s.up && id in s.readers
       case Begin(minReader) => s.up && s.writer == Idle && IsMinReader(minReader, s)
       case Update(change, tx) => s.writer.Active? && Updates(s.Current(), s.writer.tx, change, tx)
       case Abort => s.writer.Active?
       case CommitNothing => s.writer.Active? && RootPage(s.writer.tx.rt) == RootPage(s.Current().rt)
       case StartFlush => s.writer.Active? && RootPage(s.writer.tx.rt) != RootPage(s.Current().rt)
       case WritePage(p) => s.writer.Flushing? && p in s.writer.todo && p in s.writer.tx.updates
       case TearPage(p, c) =>
         s.writer.Flushing? && p in s.writer.todo && p in s.writer.tx.updates && MayTear(s.cache, p, s.writer.tx.updates[p], c)
       case WriteFails => s.writer.Flushing?
       case Sync1 => s.writer.Flushing? && s.writer.todo == {}
       case SyncFails(left, _) => ((s.writer.Flushing? && s.writer.todo == {}) || s.writer == MetaWritten) && left <= s.dirty
       case Publish => s.writer.Synced?
       case WriteMeta => s.writer == Published
       case MetaFails => s.writer == Published
       case Sync2 => s.writer == MetaWritten
       case WriteBack(p, c) => p in s.cache && MayTear(s.disk, p, s.cache[p], c)
       case WriteBackMeta => true
       case Kill => s.up
       case Crash => true
  }

  /** open takes the version of the meta page it reads as the current and as the durable one. */
  ghost function Opened(s: State): State
    requires s.meta.Signed? ==> s.meta.version < |s.versions|
  {
    if s.meta.Signed? then
      s.(up := true, versions := s.versions[..s.meta.version + 1], durable := s.meta.version)
    else
      s.(up := true, versions := [FirstVersion()], durable := 0)
  }

  ghost function After(s: State, e: Step): State
    requires Enabled(s, e)
  {
    match e
    case OpenFile => Opened(s)
    case Close(ok) =>
      if ok then
        s.(up := false, disk := Flushed(s.cache, s.disk, s.dirty), dirty := {},
           metaDisk := if s.metaDirty then s.meta else s.metaDisk, metaDirty := false)
      else s.(up := false)
    case BeginRead(id) => s.(readers := s.readers[id := |s.versions| - 1])
    case EndRead(id) => s.(readers := s.readers - {id})
    case Begin(minReader) => s.(writer := Active(NewTx(s, minReader)))
    case Update(_, tx) => s.(writer := Active(tx))
    case Abort => s.(writer := Idle)
    case CommitNothing => s.(writer := Idle)
    case StartFlush => s.(writer := Flushing(s.writer.tx, s.writer.tx.updates.Keys))
    case WritePage(p) =>
      s.(cache := s.cache[p := s.writer.tx.updates[p]], dirty := s.dirty + {p},
         writer := Flushing(s.writer.tx, s.writer.todo - {p}))
    case TearPage(p, c) => s.(cache := s.cache[p := c], dirty := s.dirty + {p})
    case WriteFails => s.(writer := Idle)
    case Sync1 =>
      s.(disk := Flushed(s.cache, s.disk, s.dirty), dirty := {},
         metaDisk := if s.metaDirty then s.meta else s.metaDisk, metaDirty := false, writer := Synced(s.writer.tx))
    case SyncFails(left, leftMeta) => s.(dirty := left, metaDirty := s.metaDirty && leftMeta, writer := Idle)
    case Publish => s.(versions := s.versions + [Committed(s.Current(), s.writer.tx)], writer := Published)
    case WriteMeta => s.(meta := s.Current().Meta(), metaDirty := true, writer := MetaWritten)
    case MetaFails => s.(writer := Idle)
    case Sync2 =>
      s.(disk := Flushed(s.cache, s.disk, s.dirty), dirty := {},
         metaDisk := if s.metaDirty then s.meta else s.metaDisk, metaDirty := false,
         durable := |s.versions| - 1, writer := Idle)
    case WriteBack(p, c) => s.(disk := s.disk[p := c])
    case WriteBackMeta => s.(metaDisk := s.meta)
    case Kill => s.(up := false, readers := map[], writer := Idle)
    case Crash =>
      s.(cache := s.disk, dirty := {}, meta := s.metaDisk, metaDirty := false, up := false, readers := map[], writer := Idle)
  }

  /** An empty file that nothing has opened yet. */
  ghost function Init(): State
  {
    State(map[], map[], {}, Unsigned, Unsigned, false, false, [FirstVersion()], 0, map[], Idle)
  }

  // -------------------------------------------------------------- invariant

  /** A version's tree and free list are stored in its pages, and these and the meta page are all the pages there are. */
  ghost predicate VersionOk(v: Version)
  {
    && RootOk(v.rt, v.img, HeldPages(v.g)) && RootFits(v.rt)
    && Good(v.g, v.num) && Stores(v.img, v.g) && Settled(v.g) && AtState(v.g, v.free)
    && v.g.count >= 2
  }

  ghost predicate History(s: State)
  {
    && s.versions != [] && s.versions[0] == FirstVersion()
    && (forall n :: 0 <= n < |s.versions| ==> s.versions[n].num == n && VersionOk(s.versions[n]))
    && s.durable < |s.versions|
    && (forall id :: id in s.readers ==> s.readers[id] < |s.versions|)
    && (!s.up ==> s.readers == map[] && s.writer == Idle)
  }

  /** Every protected version is intact in view. A new file has no pages yet, so version 0 needs none. */
  ghost predicate Kept(s: State, view: Pages)
    requires s.versions != []
  {
    forall n: nat :: 1 <= n && s.Protected(n) ==>
      Keeps(s.versions[n].g, s.versions[n].img, s.Current().g, view, n, n)
  }

  /** Every page of the current version exists. */
  ghost predicate Covers(s: State, view: Pages)
    requires s.versions != []
  {
    |s.versions| > 1 ==> forall p :: p in s.Current().g.role && p != 0 ==> p in view
  }

  /** m is the meta page of a version no older than the durable one. */
  ghost predicate MetaOk(s: State, m: MetaPage)
  {
    if m.Unsigned? then s.durable == 0
    else 1 <= m.version < |s.versions| && s.durable <= m.version && m == s.versions[m.version].Meta()
  }

  ghost predicate RunningTx(s: State, tx: Tx)
    requires s.versions != []
  {
    && TxOk(s.Current(), tx) && Kept(s, tx.mapped)
    && tx.minReader <= s.durable && (forall id :: id in s.readers ==> tx.minReader <= s.readers[id])
    && (tx.changed <==> RootPage(tx.rt) != RootPage(s.Current().rt))
    && (!tx.changed ==> tx.rt == s.Current().rt)
  }

  /** During the first phase: pages not left to do are written, others are as they were or torn. */
  ghost predicate Writing(s: State, tx: Tx, todo: set<nat>)
  {
    && todo <= tx.updates.Keys
    && (forall p :: p in tx.mapped && p !in tx.updates ==> p in s.cache && s.cache[p] == tx.mapped[p])
    && (forall p :: p in s.cache ==> p in tx.mapped || p in tx.updates)
    && (forall p :: p in tx.updates && p !in todo ==> p in s.dirty && p in s.cache && s.cache[p] == tx.updates[p])
  }

  ghost predicate WriterOk(s: State)
    requires s.versions != []
  {
    match s.writer
    case Idle => true
    case Active(tx) => RunningTx(s, tx) && tx.mapped == s.cache
    case Flushing(tx, todo) => RunningTx(s, tx) && tx.changed && Writing(s, tx, todo)
    case Synced(tx) =>
      && RunningTx(s, tx) && tx.changed && s.cache == tx.View()
      && (forall p :: p in tx.updates ==> p in s.disk && s.disk[p] == tx.updates[p])
    case Published => |s.versions| > 1
    case MetaWritten => |s.versions| > 1 && s.meta == s.Current().Meta() && s.metaDirty
  }

  /** Both images of every page keep the protected versions, and both images of the meta page name one. */
  ghost predicate Storage(s: State)
    requires s.versions != []
  {
    && Kept(s, s.cache) && Kept(s, s.disk) && Covers(s, s.cache) && Covers(s, s.disk)
    && MetaOk(s, s.meta) && MetaOk(s, s.metaDisk)
  }

  ghost predicate Inv(s: State)
  {
    History(s) && Storage(s) && WriterOk(s)
  }
}
