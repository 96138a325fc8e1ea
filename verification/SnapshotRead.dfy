/** A reader at work while the store runs on: every page it reads may be read in a different state. */
module SnapshotReads {
  import opened Bytes
  import opened FreeLists
  import opened Trees
  import opened TreeEdit
  import opened BTrees
  import opened BTreeReads
  import opened Iterators
  import opened KvStates
  import opened KvSafety
  import opened KvGuarantees
  import KvStore

  /** Reader id is open throughout these states of a run. */
  ghost predicate OpenThroughout(states: seq<State>, steps: seq<Step>, i: nat, j: nat, id: nat)
  {
    && IsRun(states, steps) && i <= j < |states|
    && forall k :: i <= k <= j ==> id in states[k].readers
  }

  /** Its tree is the same and in place in all of them. */
  lemma InPlaceThroughout(states: seq<State>, steps: seq<Step>, i: nat, j: nat, id: nat, k: nat)
    requires OpenThroughout(states, steps, i, j, id) && i <= k <= j
    ensures states[i].readers[id] < |states[i].versions|
    ensures var v := Snapshot(states[i], id); RootOk(v.rt, states[k].cache, HeldPages(v.g)) && Iterable(v.rt, states[k].cache)
  {
    hide IsRun, RootOk, Iterable;
    SnapshotIsolation(states, steps, i, k, id);
    RunKeepsInv(states, steps, i);
    var v := Snapshot(states[i], id);
    KvStore.VersionHolds(states[i], states[i].readers[id]);
    IterableRoot(v.rt, states[k].cache, HeldPages(v.g));
  }

  /**
   * get by an open reader whose k-th page read happens in state at(k), whatever the writer, the kernel and other readers
   * have done by then: the map of the version it began on.
   */
  method GetDuringRun(views: nat -> Pages, root: nat, key: Key, ghost at: nat -> nat,
                      ghost states: seq<State>, ghost steps: seq<Step>, ghost i: nat, ghost j: nat, ghost id: nat)
    returns (r: Lookup)
    requires OpenThroughout(states, steps, i, j, id)
    requires forall k :: i <= at(k) <= j && views(k) == states[at(k)].cache
    requires states[i].readers[id] < |states[i].versions| && root == RootPage(Snapshot(states[i], id).rt)
    ensures r.Refused? <==> !KeyInLimit(key)
    ensures KeyInLimit(key) ==>
              var m := Contents(Snapshot(states[i], id).rt);
              r == if key in m then Found(m[key]) else Missing
  {
    hide IsRun, RootOk, Iterable, Contents;
    ghost var v := Snapshot(states[i], id);
    forall k
      ensures RootOk(v.rt, views(k), HeldPages(v.g))
    {
      InPlaceThroughout(states, steps, i, j, id, at(k));
    }
    r := Get(views, root, key, v.rt, HeldPages(v.g));
  }

  /**
   * seek by an open reader, and every step of the iterator it returns, with each page read in a state of its own: the
   * iterator stands in the sorted entries of the version that the reader began on, and stays there.
   */
  method SeekDuringRun(views: nat -> Pages, root: nat, key: Key, cmp: Cmp, ghost at: nat -> nat,
                       ghost states: seq<State>, ghost steps: seq<Step>, ghost i: nat, ghost j: nat, ghost id: nat)
    returns (iter: BIter)
    requires OpenThroughout(states, steps, i, j, id)
    requires forall k :: i <= at(k) <= j && views(k) == states[at(k)].cache
    requires states[i].readers[id] < |states[i].versions| && root == RootPage(Snapshot(states[i], id).rt)
    ensures fresh(iter) && iter.Valid() && iter.views == views
    ensures var rt := Snapshot(states[i], id).rt;
            && (rt.Empty? ==> iter.Entries() == [])
            && (rt.Rooted? ==> iter.Entries() == FlatT(rt.t) && Nearest(FlatT(rt.t), iter.Index(), cmp, key))
  {
    hide IsRun, RootOk, Iterable, Nearest, FlatT;
    ghost var v := Snapshot(states[i], id);
    forall k
      ensures Iterable(v.rt, views(k))
    {
      InPlaceThroughout(states, steps, i, j, id, at(k));
    }
    iter := Seek(views, root, key, cmp, v.rt);
  }
}
