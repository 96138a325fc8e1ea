/** The tables of every version that a run commits, and so of every one that a crash can leave. */
module CatalogRuns {
  import opened TreeEdit
  import opened KvTx
  import opened KvStates
  import opened KvSafety
  import opened KvGuarantees
  import opened KvStore
  import opened Catalogs

  // ------------------------------------------------------------ chains of operations

  /** One after the other, ops turn a into b. */
  ghost predicate Chain(a: Db, ops: seq<TableOp>, b: Db)
    decreases |ops|
  {
    if ops == [] then a == b else exists mid :: Does(ops[0], a, mid) && Chain(mid, ops[1..], b)
  }

  lemma {:induction false} ChainKeepsCatalog(a: Db, ops: seq<TableOp>, b: Db)
    requires CatalogOk(a.m, a.tables, a.rows) && Chain(a, ops, b)
    ensures CatalogOk(b.m, b.tables, b.rows)
    decreases |ops|
  {
    hide CatalogOk, Does;
    if ops != [] {
      var mid :| Does(ops[0], a, mid) && Chain(mid, ops[1..], b);
      DoesKeepsCatalog(ops[0], a, mid);
      ChainKeepsCatalog(mid, ops[1..], b);
    }
  }

  /** A transaction's operations are a chain, one more at a time. */
  lemma {:induction false} ChainMore(a: Db, ops: seq<TableOp>, b: Db, op: TableOp, c: Db)
    requires Chain(a, ops, b) && Does(op, b, c)
    ensures Chain(a, ops + [op], c)
    decreases |ops|
  {
    hide Does;
    if ops == [] {
      assert Chain(c, [], c);
      assert ([] + [op])[1..] == [] && ([] + [op])[0] == op;
    } else {
      var mid :| Does(ops[0], a, mid) && Chain(mid, ops[1..], b);
      ChainMore(mid, ops[1..], b, op, c);
      assert (ops + [op])[1..] == ops[1..] + [op];
    }
  }

  // ------------------------------------------------------------ one label for each version

  /** For each version its tables and rows, and for the commit under way those that it will publish. */
  datatype Labels = Labels(versions: seq<Db>, pending: Db)
  {
    /** That of the current version. */
    ghost function Last(): Db
      requires versions != []
    {
      versions[|versions| - 1]
    }
  }

  const NO_TABLES: Db := Db(map[], [], [])

  const START: Labels := Labels([NO_TABLES], NO_TABLES)

  /** d holds exactly what the tree does, and its tables account for every key of it. */
  ghost predicate IsLabel(d: Db, rt: Root)
  {
    d.m == Contents(rt) && CatalogOk(d.m, d.tables, d.rows)
  }

  /** Operations on tables lead from a to b. */
  ghost predicate MadeFrom(a: Db, b: Db)
  {
    exists ops :: Chain(a, ops, b)
  }

  /** How a step moves the labels: what a commit publishes was made of the current version's tables by operations on them. */
  ghost predicate LabelStep(l: Labels, s: State, e: Step, k: Labels)
    requires Enabled(s, e)
  {
    match e
    case StartFlush => k.versions == l.versions != [] && MadeFrom(l.Last(), k.pending) && k.pending.m == Contents(s.writer.tx.rt)
    case Publish => k == l.(versions := l.versions + [l.pending])
    case OpenFile => k == l.(versions := Front(l.versions, |After(s, e).versions|))
    case _ => k == l
  }

  ghost function Front(ds: seq<Db>, n: nat): seq<Db>
  {
    if n <= |ds| then ds[..n] else ds
  }

  /** A run whose commits have changed the map by creating tables and by updating and deleting rows only. */
  ghost predicate IsTableRun(states: seq<State>, steps: seq<Step>, labels: seq<Labels>)
  {
    && IsRun(states, steps) && |labels| == |states| && labels[0] == START
    && forall i :: 0 <= i < |steps| ==> LabelStep(labels[i], states[i], steps[i], labels[i + 1])
  }

  /** Every version has its label, made from the one before, and so has what a commit under way will publish. */
  ghost predicate Labelled(s: State, l: Labels)
  {
    && |l.versions| == |s.versions|
    && (forall n :: 0 <= n < |s.versions| ==> IsLabel(l.versions[n], s.versions[n].rt))
    && (forall n :: 0 < n < |l.versions| ==> MadeFrom(l.versions[n - 1], l.versions[n]))
    && (s.writer.Flushing? || s.writer.Synced? ==>
          l.versions != [] && MadeFrom(l.Last(), l.pending) && IsLabel(l.pending, s.writer.tx.rt))
  }

  lemma NewFileLabelled()
    ensures IsLabel(NO_TABLES, FirstVersion().rt)
  {
    EmptyCatalog();
  }

  lemma PendingLabelled(s: State, l: Labels, b: Db)
    requires s.versions != [] && Labelled(s, l) && MadeFrom(l.Last(), b) && s.writer.Active? && b.m == Contents(s.writer.tx.rt)
    ensures IsLabel(b, s.writer.tx.rt)
  {
    hide CatalogOk, Contents, Chain;
    var a := l.Last();
    var ops :| Chain(a, ops, b);
    assert IsLabel(a, s.versions[|s.versions| - 1].rt);
    ChainKeepsCatalog(a, ops, b);
  }

  lemma CommittedTree(v: Version, t: Tx)
    ensures Committed(v, t).rt == t.rt
  {
  }

  lemma OpenedFront(s: State)
    requires Inv(s) && Enabled(s, OpenFile)
    ensures var t := After(s, OpenFile); |t.versions| <= |s.versions| && t.versions == s.versions[..|t.versions|]
  {
    hide Kept, Covers, VersionOk, MetaPage.Valid, FirstVersion;
  }

  lemma StepKeepsLabels(s: State, e: Step, l: Labels, k: Labels)
    requires Inv(s) && Enabled(s, e) && Labelled(s, l) && LabelStep(l, s, e, k)
    ensures Labelled(After(s, e), k)
  {
    hide Inv, Enabled, After, Labelled, LabelStep;
    match e
    case StartFlush => FlushLabelled(s, l, k);
    case Publish => PublishLabelled(s, l, k);
    case OpenFile => OpenLabelled(s, l, k);
    case _ => OtherLabelled(s, e, l, k);
  }

  lemma FlushLabelled(s: State, l: Labels, k: Labels)
    requires Enabled(s, StartFlush) && Labelled(s, l) && LabelStep(l, s, StartFlush, k)
    ensures Labelled(After(s, StartFlush), k)
  {
    hide IsLabel, MadeFrom, Contents;
    PendingLabelled(s, l, k.pending);
  }

  lemma PublishLabelled(s: State, l: Labels, k: Labels)
    requires Enabled(s, Publish) && Labelled(s, l) && LabelStep(l, s, Publish, k)
    ensures Labelled(After(s, Publish), k)
  {
    hide IsLabel, MadeFrom, Contents, Committed;
    CommittedTree(s.Current(), s.writer.tx);
  }

  lemma OpenLabelled(s: State, l: Labels, k: Labels)
    requires Inv(s) && Enabled(s, OpenFile) && Labelled(s, l) && LabelStep(l, s, OpenFile, k)
    ensures Labelled(After(s, OpenFile), k)
  {
    hide Inv, IsLabel, MadeFrom, Contents, Enabled, After;
    OpenedFront(s);
    OpenedIdle(s);
  }

  lemma OtherLabelled(s: State, e: Step, l: Labels, k: Labels)
    requires Enabled(s, e) && Labelled(s, l) && LabelStep(l, s, e, k) && !e.StartFlush? && !e.Publish? && !e.OpenFile?
    ensures Labelled(After(s, e), k)
  {
    hide IsLabel, MadeFrom, Contents, Updates, IsMinReader, MayTear, Flushed, NewTx, MetaPage.Valid;
  }

  lemma OpenedIdle(s: State)
    requires Inv(s) && Enabled(s, OpenFile)
    ensures After(s, OpenFile).writer == Idle
  {
  }

  /**
   * In every state of every such run each version has exactly the tables and rows of its label, which operations on
   * tables have made of those of the version before.
   */
  lemma {:induction false} EveryVersionLabelled(states: seq<State>, steps: seq<Step>, labels: seq<Labels>, i: nat)
    requires IsTableRun(states, steps, labels) && i < |states|
    ensures Labelled(states[i], labels[i])
  {
    hide Inv, Labelled, Enabled, After, LabelStep;
    if i == 0 {
      StartLabelled();
    } else {
      EveryVersionLabelled(states, steps, labels, i - 1);
      RunKeepsInv(states, steps, i - 1);
      StepKeepsLabels(states[i - 1], steps[i - 1], labels[i - 1], labels[i]);
    }
  }

  lemma StartLabelled()
    ensures Labelled(Init(), START)
  {
    hide IsLabel, Contents;
    NewFileLabelled();
  }

  /**
   * After a crash anywhere in such a run the file opens on a version, at least the durable one, whose tables and rows
   * are those of its label.
   */
  lemma RecoveredTables(states: seq<State>, steps: seq<Step>, labels: seq<Labels>, i: nat)
    requires IsTableRun(states, steps, labels) && i < |states| && states[i].durable > 0
    ensures Enabled(states[i], Crash) && Enabled(After(states[i], Crash), OpenFile)
    ensures var r := After(After(states[i], Crash), OpenFile);
            && states[i].durable < |r.versions| <= |labels[i].versions|
            && Labelled(r, labels[i].(versions := labels[i].versions[..|r.versions|]))
  {
    hide Inv, Labelled, Enabled, After, RootOk, Intact, LabelStep;
    RunKeepsInv(states, steps, i);
    EveryVersionLabelled(states, steps, labels, i);
    DurableHasMeta(states[i]);
    CrashRecovers(states[i]);
    var r := After(After(states[i], Crash), OpenFile);
    CrashStep(states[i]);
    OpenedIdle(After(states[i], Crash));
    LabelledFront(states[i], r, labels[i]);
  }

  lemma LabelledFront(s: State, r: State, l: Labels)
    requires Labelled(s, l) && |r.versions| <= |s.versions| && r.versions == s.versions[..|r.versions|] && r.writer == Idle
    ensures |r.versions| <= |l.versions| && Labelled(r, l.(versions := l.versions[..|r.versions|]))
  {
    hide IsLabel;
  }

  /** What a durable commit left in the tables stays in every later history, through any number of crashes. */
  lemma {:induction false} DurableTables(states: seq<State>, steps: seq<Step>, labels: seq<Labels>, i: nat, j: nat)
    requires IsTableRun(states, steps, labels) && i <= j < |states|
    ensures states[i].durable < |labels[i].versions| && states[i].durable <= states[j].durable < |labels[j].versions|
    ensures labels[j].versions[..states[i].durable + 1] == labels[i].versions[..states[i].durable + 1]
  {
    hide Inv, Enabled, After, IsLabel;
    RunKeepsInv(states, steps, i);
    DurableBound(states[i]);
    EveryVersionLabelled(states, steps, labels, i);
    if i < j {
      DurableTables(states, steps, labels, i, j - 1);
      RunKeepsInv(states, steps, j - 1);
      RunKeepsInv(states, steps, j);
      EveryVersionLabelled(states, steps, labels, j - 1);
      EveryVersionLabelled(states, steps, labels, j);
      DurableStep(states[j - 1], steps[j - 1]);
      LabelsKept(states[j - 1], steps[j - 1], labels[j - 1], labels[j], states[j - 1].durable + 1);
      FrontOfFront(labels[j].versions, labels[j - 1].versions, states[j - 1].durable + 1, states[i].durable + 1);
    }
  }

  /** Labels are only added, and cut off at open. */
  lemma LabelsKept(s: State, e: Step, l: Labels, k: Labels, n: nat)
    requires Enabled(s, e) && LabelStep(l, s, e, k) && n <= |l.versions| && n <= |k.versions|
    ensures k.versions[..n] == l.versions[..n]
  {
    hide Enabled, After, MadeFrom;
  }

  lemma FrontOfFront(a: seq<Db>, b: seq<Db>, n: nat, m: nat)
    requires m <= n <= |a| && n <= |b| && a[..n] == b[..n]
    ensures a[..m] == b[..m]
  {
    assert a[..m] == a[..n][..m] && b[..m] == b[..n][..m];
  }

  // ------------------------------------------------------------ the same for the store's object

  /** Some run of this kind leads to s with these labels. */
  ghost predicate HasLabels(s: State, l: Labels)
  {
    exists states, steps, labels :: IsTableRun(states, steps, labels) && EndsIn(states, s) && labels != [] && labels[|labels| - 1] == l
  }

  lemma HasLabelsIsLabelled(s: State, l: Labels)
    requires HasLabels(s, l)
    ensures Labelled(s, l)
  {
    hide IsTableRun, Labelled;
    var states, steps, labels :| IsTableRun(states, steps, labels) && EndsIn(states, s) && labels != [] && labels[|labels| - 1] == l;
    TableRunSizes(states, steps, labels);
    EveryVersionLabelled(states, steps, labels, |states| - 1);
  }

  lemma TableRunSizes(states: seq<State>, steps: seq<Step>, labels: seq<Labels>)
    requires IsTableRun(states, steps, labels)
    ensures |labels| == |states| == |steps| + 1 && IsRun(states, steps)
  {
  }

  lemma HasLabelsAtStart()
    ensures HasLabels(Init(), START)
  {
    assert IsTableRun([Init()], [], [START]) && EndsIn([Init()], Init()) && [START][0] == START;
  }

  lemma HasLabelsAfter(s: State, l: Labels, e: Step, k: Labels)
    requires HasLabels(s, l) && Enabled(s, e) && LabelStep(l, s, e, k)
    ensures HasLabels(After(s, e), k)
  {
    hide Enabled, After, LabelStep;
    var states, steps, labels :| IsTableRun(states, steps, labels) && EndsIn(states, s) && labels != [] && labels[|labels| - 1] == l;
    var more, longer, all := steps + [e], states + [After(s, e)], labels + [k];
    forall i | 0 <= i < |more|
      ensures Enabled(longer[i], more[i]) && longer[i + 1] == After(longer[i], more[i]) && LabelStep(all[i], longer[i], more[i], all[i + 1])
    {
      if i < |steps| {
        assert Enabled(states[i], steps[i]) && LabelStep(labels[i], states[i], steps[i], labels[i + 1]);
      }
    }
    assert IsTableRun(longer, more, all) && EndsIn(longer, After(s, e)) && all[|all| - 1] == k;
  }

  /** The labels once n versions have been published: those missing are what the last commit published. */
  ghost function Grown(l: Labels, n: nat): Labels
  {
    l.(versions := l.versions + seq(if n < |l.versions| then 0 else n - |l.versions|, _ => l.pending))
  }

  /** Between opening the file and the next commit, only publishing moves the labels. */
  lemma {:induction false} LabelsOnward(s: State, l: Labels, steps: seq<Step>, t: State)
    requires HasLabels(s, l) && Leads(s, steps, t) && AllQuiet(steps)
    ensures |t.versions| >= |l.versions| && HasLabels(t, Grown(l, |t.versions|))
    decreases |steps|
  {
    hide HasLabels, Enabled, After, Labelled;
    HasLabelsIsLabelled(s, l);
    SameCount(s, l);
    if steps == [] {
      assert Grown(l, |t.versions|) == l;
    } else {
      var e := steps[0];
      assert Quiet(e) && forall i :: 0 <= i < |steps[1..]| ==> steps[1..][i] == steps[i + 1];
      var k := if e.Publish? then l.(versions := l.versions + [l.pending]) else l;
      QuietLabels(s, l, e, k);
      HasLabelsAfter(s, l, e, k);
      LabelsOnward(After(s, e), k, steps[1..], t);
      assert Grown(k, |t.versions|) == Grown(l, |t.versions|);
    }
  }

  lemma SameCount(s: State, l: Labels)
    requires Labelled(s, l)
    ensures |l.versions| == |s.versions|
  {
  }

  lemma QuietLabels(s: State, l: Labels, e: Step, k: Labels)
    requires Enabled(s, e) && Quiet(e) && k == if e.Publish? then l.(versions := l.versions + [l.pending]) else l
    ensures LabelStep(l, s, e, k)
  {
    hide Enabled;
  }

  /** The labels of the state that a store's object is in, given those at its last open or commit. */
  ghost function LabelsNow(l: Labels, s: State): Labels
  {
    Grown(l, |s.versions|)
  }

  lemma NowLabelled(mark: State, l: Labels, s: State)
    requires HasLabels(mark, l) && Onward(mark, s)
    ensures HasLabels(s, LabelsNow(l, s)) && Labelled(s, LabelsNow(l, s))
  {
    hide HasLabels, Leads, AllQuiet, Labelled, Grown;
    var steps :| Leads(mark, steps, s) && AllQuiet(steps);
    LabelsOnward(mark, l, steps, s);
    HasLabelsIsLabelled(s, LabelsNow(l, s));
  }

  lemma CurrentMap(s: State, l: Labels)
    requires Labelled(s, l) && s.versions != []
    ensures l.versions != [] && l.Last().m == Contents(s.Current().rt) && CatalogOk(l.Last().m, l.Last().tables, l.Last().rows)
  {
    hide CatalogOk, Contents, MadeFrom;
    assert IsLabel(l.versions[|l.versions| - 1], s.versions[|s.versions| - 1].rt);
  }

  lemma LabelsOf(kv: KV, l: Labels)
    requires kv.Valid() && HasLabels(kv.mark, l)
    ensures kv.s.versions != [] && HasLabels(kv.s, LabelsNow(l, kv.s)) && Labelled(kv.s, LabelsNow(l, kv.s))
  {
    hide HasLabels, Labelled, Onward, Reachable, KV.ReadersOk;
    NowLabelled(kv.mark, l, kv.s);
  }

  lemma FlushStep(s: State, l: Labels, k: Labels)
    requires Enabled(s, StartFlush) && l.versions != [] && k == l.(pending := k.pending)
    requires MadeFrom(l.Last(), k.pending) && k.pending.m == Contents(s.writer.tx.rt)
    ensures LabelStep(l, s, StartFlush, k)
  {
    hide MadeFrom, Contents;
  }

  lemma GrownOne(k: Labels)
    ensures Grown(k, |k.versions|).versions == k.versions && Grown(k, |k.versions| + 1).versions == k.versions + [k.pending]
  {
  }

  /**
   * Commit a transaction made of operations on tables. If it publishes, the new version has exactly the tables and rows
   * given, and all others keep theirs.
   */
  method CommitTables(kv: KV, tx: KVTX, ghost l: Labels, ghost b: Db) returns (r: CommitResult, ghost k: Labels)
    requires kv.Valid() && kv.Running(tx) && HasLabels(kv.mark, l)
    requires LabelsNow(l, kv.s).versions != [] && MadeFrom(LabelsNow(l, kv.s).Last(), b) && b.m == kv.TxMap()
    modifies kv`cache, kv`meta, kv`root, kv`version, kv`flushed, kv`free, kv`durable, kv`chunks, kv`mmapTotal, kv`s, kv`mark
    ensures kv.Valid() && kv.s.writer == Idle && kv.s.readers == old(kv.s.readers) && HasLabels(kv.mark, k)
    ensures HasLabels(kv.s, LabelsNow(k, kv.s)) && Labelled(kv.s, LabelsNow(k, kv.s))
    ensures LabelsNow(k, kv.s).versions == LabelsNow(l, old(kv.s)).versions + if r.SecondPhaseFailed? || r.Durable? then [b] else []
    ensures r.Durable? ==> kv.durable == |kv.s.versions| - 1
    ensures kv.reliable && b.m != LabelsNow(l, old(kv.s)).Last().m ==> r.Durable?
  {
    hide KV.Valid, Matches, CatalogOk, HasLabels, Labelled, MadeFrom, Contents, Committed, Enabled, After, Onward, Reachable, Grown;
    ghost var s := kv.s;
    LabelsOf(kv, l);
    r := kv.Commit(tx);
    if r.Unchanged? {
      k := l;
      CurrentMap(s, LabelsNow(l, s));
    } else {
      k := LabelsNow(l, s).(pending := b);
      SameCount(s, LabelsNow(l, s));
      GrownOne(k);
      FlushStep(s, LabelsNow(l, s), k);
      HasLabelsAfter(s, LabelsNow(l, s), StartFlush, k);
    }
    LabelsOf(kv, k);
  }
}
