/** The min-heap of open readers with back-pointers (src/storage/reader_heap.cpp). */
module ReaderHeaps {
  import opened Mmaps

  class KVReader {
    const id: nat         // which reader this is
    var version: nat      // the version this reader's snapshot is of
    var root: nat         // and that version's tree root
    var chunks: seq<Chunk>   // the mappings as of then
    var heapIndex: int    // the member's index in items, -1 for others

    constructor (id: nat)
      ensures this.id == id && heapIndex == -1
    {
      this.id, version, root, chunks, heapIndex := id, 0, 0, [], -1;
    }
  }

  function Parent(i: nat): nat
    requires i > 0
  {
    (i - 1) / 2
  }

  /** Every version but that of slot except is at least its parent's. */
  ghost predicate HeapBut(versions: seq<nat>, except: nat)
  {
    forall i: nat :: 0 < i < |versions| && i != except ==> versions[Parent(i)] <= versions[i]
  }

  ghost predicate Heap(versions: seq<nat>)
  {
    forall i: nat :: 0 < i < |versions| ==> versions[Parent(i)] <= versions[i]
  }

  /** Every slot but those below hole is at least its parent, and those are at least the hole's parent. */
  ghost predicate HeapAround(versions: seq<nat>, hole: nat)
  {
    && (forall i: nat :: 0 < i < |versions| && i != hole && Parent(i) != hole ==> versions[Parent(i)] <= versions[i])
    && (forall i: nat :: 0 < i < |versions| && Parent(i) == hole && 0 < hole ==> versions[Parent(hole)] <= versions[i])
  }

  function Swap<T>(s: seq<T>, i: nat, j: nat): seq<T>
    requires i < |s| && j < |s|
  {
    s[i := s[j]][j := s[i]]
  }

  ghost predicate SameMembers<T>(s: seq<T>, t: seq<T>)
  {
    multiset(s) == multiset(t)
  }

  lemma SameSelf<T>(s: seq<T>)
    ensures SameMembers(s, s)
  {
  }

  /** What is left after the last of the swapped items is dropped and the rest are reordered. */
  lemma LastDropped<T>(s: seq<T>, swapped: seq<T>, rest: seq<T>, after: seq<T>, last: T)
    requires SameMembers(s, swapped) && swapped == rest + [last] && SameMembers(rest, after) && last !in rest
    ensures multiset(after) == multiset(s) - multiset{last}
    ensures last !in after
  {
    assert last !in multiset(rest);
    assert last !in multiset(after);
  }

  lemma SameTwice<T>(s: seq<T>, t: seq<T>, u: seq<T>)
    requires SameMembers(s, t) && SameMembers(t, u)
    ensures SameMembers(s, u)
    ensures forall r :: r in t ==> r in s
  {
    forall r | r in t
      ensures r in s
    {
      assert r in multiset(t);
    }
  }

  lemma SwapKeepsMembers<T>(r: seq<T>, s: seq<T>, i: nat, j: nat)
    requires i < |s| && j < |s| && SameMembers(r, s)
    ensures SameMembers(r, Swap(s, i, j))
    ensures s[i] in r && s[j] in r
  {
    assert s[i] in multiset(s) && s[j] in multiset(s);
  }

  lemma SwapLast<T>(s: seq<T>, i: nat)
    requires i < |s|
    ensures |Swap(s, i, |s| - 1)| == |s| && Swap(s, i, |s| - 1)[|s| - 1] == s[i]
  {
  }

  /** Only slot j may be older than its parent, and nothing below j is older than that parent either. */
  ghost predicate OnlyAbove(versions: seq<nat>, j: nat)
  {
    && j < |versions| && HeapBut(versions, j)
    && forall i: nat :: 0 < i < |versions| && Parent(i) == j && 0 < j ==> versions[Parent(j)] <= versions[i]
  }

  /** Moving slot j's version above its larger parent moves the only misplaced slot up. */
  lemma UpStep(v: seq<nat>, j: nat)
    requires OnlyAbove(v, j) && 0 < j && v[j] < v[Parent(j)]
    ensures OnlyAbove(Swap(v, Parent(j), j), Parent(j))
  {
    var p := Parent(j);
    var w := Swap(v, p, j);
    forall i: nat | 0 < i < |w| && i != p
      ensures w[Parent(i)] <= w[i]
    {
      assert Parent(i) == p && i != j ==> v[p] <= v[i];
    }
  }

  lemma UpDone(v: seq<nat>, j: nat)
    requires OnlyAbove(v, j) && (j == 0 || v[Parent(j)] <= v[j])
    ensures Heap(v)
  {
  }

  /** Moving the smaller child's version into the hole moves the hole down to it. */
  lemma DownStep(v: seq<nat>, i: nat, kid: nat)
    requires i < kid < |v| && Parent(kid) == i && v[kid] < v[i]
    requires HeapAround(v, i)
    requires forall k: nat :: 0 < k < |v| && Parent(k) == i ==> v[kid] <= v[k]
    ensures HeapAround(Swap(v, i, kid), kid)
    ensures 0 < i ==> Swap(v, i, kid)[Parent(i)] <= Swap(v, i, kid)[i]
    ensures Swap(v, i, kid)[i] <= Swap(v, i, kid)[kid]
  {
    var w := Swap(v, i, kid);
    forall k: nat | 0 < k < |w| && k != kid && Parent(k) != kid
      ensures w[Parent(k)] <= w[k]
    {
      assert k == i ==> v[Parent(i)] <= v[kid];
    }
  }

  /** Filling a removed slot with the last one, which then may be misplaced either way. */
  lemma RemoveStep(v: seq<nat>, i: nat)
    requires Heap(v) && i < |v|
    ensures var w := Swap(v, i, |v| - 1)[..|v| - 1]; if i < |w| then HeapAround(w, i) else Heap(w)
  {
    var w := Swap(v, i, |v| - 1)[..|v| - 1];
    forall k: nat | 0 < k < |w| && Parent(k) == i && 0 < i
      ensures w[Parent(i)] <= w[k]
    {
      assert v[Parent(i)] <= v[i] <= v[k];
    }
  }

  /** A hole whose version is no larger than those below it can only be misplaced upwards. */
  lemma DownDone(v: seq<nat>, hole: nat)
    requires HeapAround(v, hole) && hole < |v|
    requires forall k: nat :: 0 < k < |v| && Parent(k) == hole ==> v[hole] <= v[k]
    ensures OnlyAbove(v, hole)
  {
  }

  /** A slot that is no younger than both children's slots is no younger than any child. */
  lemma KidIsLeast(v: seq<nat>, i: nat, kid: nat)
    requires kid < |v|
    requires 2 * i + 1 < |v| ==> v[kid] <= v[2 * i + 1]
    requires 2 * i + 2 < |v| ==> v[kid] <= v[2 * i + 2]
    ensures forall k: nat :: 0 < k < |v| && Parent(k) == i ==> v[kid] <= v[k]
  {
    forall k: nat | 0 < k < |v| && Parent(k) == i
      ensures v[kid] <= v[k]
    {
      assert k == 2 * i + 1 || k == 2 * i + 2;
    }
  }

  lemma {:induction false} RootIsLeast(v: seq<nat>, i: nat)
    requires Heap(v) && i < |v|
    ensures v[0] <= v[i]
  {
    if i > 0 {
      RootIsLeast(v, Parent(i));
    }
  }

  /** open maps the readers in items to their versions, each under its id. */
  ghost predicate InHeap(items: seq<KVReader>, open: map<nat, nat>)
    reads items
  {
    && (forall r :: r in items ==> r.id in open && open[r.id] == r.version)
    && (forall id :: id in open ==> exists r :: r in items && r.id == id)
    && (forall r, q :: r in items && q in items && r.id == q.id ==> r == q)
  }

  lemma PushedMembers(before: seq<KVReader>, after: seq<KVReader>, tx: KVReader)
    requires multiset(after) == multiset(before) + multiset{tx}
    ensures forall r :: r in after <==> r in before || r == tx
  {
    forall r
      ensures r in after <==> r in before || r == tx
    {
      assert r in after <==> r in multiset(after);
      assert r in before <==> r in multiset(before);
    }
  }

  lemma RemovedMembers(before: seq<KVReader>, after: seq<KVReader>, tx: KVReader)
    requires multiset(after) == multiset(before) - multiset{tx} && tx !in after
    ensures forall r :: r in after <==> r in before && r != tx
  {
    forall r
      ensures r in after <==> r in before && r != tx
    {
      assert r in after <==> r in multiset(after);
      assert r in before <==> r in multiset(before);
    }
  }

  class ReaderHeap {
    var items: seq<KVReader>
    ghost var open: map<nat, nat>   // the members, by id

    constructor ()
      ensures Valid() && items == [] && open == map[]
    {
      items, open := [], map[];
    }

    ghost function Versions(): (v: seq<nat>)
      reads this, items
      ensures |v| == |items|
    {
      seq(|items|, i requires 0 <= i < |items| reads this, items => items[i].version)
    }

    /** Each member knows its slot; so no reader is in twice. */
    ghost predicate Linked()
      reads this, items
    {
      forall i :: 0 <= i < |items| ==> items[i].heapIndex == i
    }

    ghost predicate Ordered()
      reads this, items
    {
      Linked() && Heap(Versions())
    }

    ghost predicate Valid()
      reads this, items
    {
      Ordered() && InHeap(items, open)
    }

    /** A member is in the slot it remembers. */
    lemma SlotOf(reader: KVReader)
      requires Valid() && reader in items
      ensures 0 <= reader.heapIndex < |items| && items[reader.heapIndex] == reader
      ensures reader.id in open && open[reader.id] == reader.version
    {
    }

    method SwapSlots(i: nat, j: nat)
      requires Linked() && i < |items| && j < |items|
      modifies this`items, {items[i], items[j]}`heapIndex
      ensures Linked() && items == Swap(old(items), i, j)
      ensures Versions() == Swap(old(Versions()), i, j)
    {
      items := items[i := items[j]][j := items[i]];
      items[i].heapIndex := i;
      items[j].heapIndex := j;
    }

    /** Sift slot start up while it is older than its parent. */
    method Up(start: nat)
      requires Linked() && OnlyAbove(Versions(), start)
      modifies this`items, items`heapIndex
      ensures Ordered() && SameMembers(old(items), items)
    {
      hide OnlyAbove, Heap, Linked, SameMembers;
      AboveInside(Versions(), start);
      SameSelf(items);
      var j: nat := start;
      while j > 0
        invariant Linked() && j < |items| && OnlyAbove(Versions(), j)
        invariant SameMembers(old(items), items)
      {
        var parent := Parent(j);
        if !(items[j].version < items[parent].version) {
          break;
        }
        UpStep(Versions(), j);
        SwapKeepsMembers(old(items), items, parent, j);
        SwapSlots(parent, j);
        j := parent;
      }
      UpDone(Versions(), j);
    }

    /** Sift slot start down while a child is older; true if it moved. */
    method Down(start: nat) returns (moved: bool)
      requires Linked() && start < |items| && HeapAround(Versions(), start)
      modifies this`items, items`heapIndex
      ensures Linked() && SameMembers(old(items), items)
      ensures moved ==> Heap(Versions())
      ensures !moved ==> items == old(items) && OnlyAbove(Versions(), start)
    {
      hide OnlyAbove, Heap, Linked, HeapAround, HeapBut, SameMembers;
      SameSelf(items);
      var i: nat := start;
      while 2 * i + 1 < |items|
        invariant Linked() && start <= i < |items| && HeapAround(Versions(), i)
        invariant SameMembers(old(items), items)
        invariant i == start ==> items == old(items)
        invariant i > start ==> Versions()[Parent(i)] <= Versions()[i]
        decreases |items| - i
      {
        var kid := 2 * i + 1;
        if kid + 1 < |items| && items[kid + 1].version < items[kid].version {
          kid := kid + 1;
        }
        KidIsLeast(Versions(), i, kid);
        if !(items[kid].version < items[i].version) {
          break;
        }
        DownStep(Versions(), i, kid);
        SwapKeepsMembers(old(items), items, i, kid);
        SwapSlots(i, kid);
        i := kid;
      }
      KidIsLeast(Versions(), i, i);
      DownDone(Versions(), i);
      moved := i > start;
      if moved {
        UpDone(Versions(), i);
      }
    }

    method Push(reader: KVReader)
      requires Valid() && reader !in items && reader.id !in open
      modifies this, reader`heapIndex, items`heapIndex
      ensures Valid() && multiset(items) == multiset(old(items)) + multiset{reader} && reader in items
      ensures open == old(open)[reader.id := reader.version]
    {
      ghost var members := items;
      Place(reader);
      PushedMembers(members, items, reader);
      open := open[reader.id := reader.version];
    }

    /** Put a reader in the last slot and sift it up. */
    method Place(reader: KVReader)
      requires Ordered() && reader !in items
      modifies this`items, reader`heapIndex, items`heapIndex
      ensures Ordered() && multiset(items) == multiset(old(items)) + multiset{reader}
    {
      ghost var v := Versions();
      reader.heapIndex := |items|;
      items := items + [reader];
      assert Versions()[..|v|] == v;
      Up(|items| - 1);
    }

    /** A reader that is in no slot forgets its slot. */
    method Detach(reader: KVReader)
      requires Ordered() && reader !in items
      modifies reader`heapIndex
      ensures Ordered() && reader.heapIndex == -1
    {
      ghost var versions := Versions();
      reader.heapIndex := -1;
      forall i | 0 <= i < |items|
        ensures items[i].heapIndex == i && Versions()[i] == versions[i]
      {
        assert items[i] in items;
      }
      assert Versions() == versions;
    }

    /** Take out the reader in slot index, wherever it is. */
    method Remove(index: nat) returns (reader: KVReader)
      requires Valid() && index < |items|
      modifies this, items`heapIndex
      ensures Valid() && reader == old(items[index]) && reader.heapIndex == -1 && reader !in items
      ensures multiset(items) == multiset(old(items)) - multiset{reader}
      ensures open == old(open) - {reader.id}
    {
      ghost var members := items;
      reader := TakeOut(index);
      RemovedMembers(members, items, reader);
      open := open - {reader.id};
    }

    /** Take out the reader in slot index and restore the order of the others, by RemoveStep. */
    method TakeOut(index: nat) returns (reader: KVReader)
      requires Ordered() && index < |items|
      modifies this`items, items`heapIndex
      ensures Ordered() && reader == old(items[index]) && reader.heapIndex == -1 && reader !in items
      ensures multiset(items) == multiset(old(items)) - multiset{reader}
    {
      hide OnlyAbove, Heap, HeapAround, HeapBut, SameMembers, Versions, Swap;
      RemoveStep(Versions(), index);
      SameSelf(items);
      SwapKeepsMembers(items, items, index, |items| - 1);
      reader := FillSlot(index);
      ghost var rest := items;
      SameTwice(old(items), rest + [reader], rest + [reader]);
      assert forall i :: 0 <= i < |items| ==> items[i] == (rest + [reader])[i] && items[i] in old(items);
      SameSelf(rest);
      if index < |items| {
        var moved := Down(index);
        if !moved {
          Up(index);
        }
      }
      LastDropped(old(items), rest + [reader], rest, items, reader);
      Detach(reader);
    }

    /** Fill slot index with the last reader, which may be misplaced there. */
    method FillSlot(index: nat) returns (reader: KVReader)
      requires Linked() && index < |items|
      modifies this`items, items`heapIndex
      ensures Linked() && reader == old(items[index]) && reader !in items
      ensures |old(items)| == |items| + 1 && items + [reader] == Swap(old(items), index, |items|)
      ensures Versions() == Swap(old(Versions()), index, |items|)[..|items|]
    {
      hide Swap, Versions;
      SwapLast(items, index);
      SwapSlots(index, |items| - 1);
      reader := items[|items| - 1];
      ghost var swapped, versions := items, Versions();
      VersionsAre();
      items := items[..|items| - 1];
      assert swapped == items + [reader];
      FrontVersions(versions);
      NotAmong(items, reader);
    }

    lemma VersionsAre()
      ensures forall i :: 0 <= i < |items| ==> Versions()[i] == items[i].version
    {
    }

    lemma FrontVersions(versions: seq<nat>)
      requires |versions| >= |items| && forall i :: 0 <= i < |items| ==> versions[i] == items[i].version
      ensures Versions() == versions[..|items|]
    {
    }

    /** A member's slot number tells it from every other member. */
    lemma NotAmong(rest: seq<KVReader>, reader: KVReader)
      requires forall i :: 0 <= i < |rest| ==> rest[i].heapIndex == i
      requires reader.heapIndex == |rest|
      ensures reader !in multiset(rest) && reader !in rest
    {
    }

    /** A reader of the least version, if there is any. */
    method Min() returns (reader: KVReader?)
      requires Valid()
      ensures reader == null <==> items == []
      ensures reader != null ==> reader in items && forall r :: r in items ==> reader.version <= r.version
      ensures reader == null ==> open == map[]
      ensures reader != null ==> reader.id in open && open[reader.id] == reader.version
      ensures reader != null ==> forall id :: id in open ==> reader.version <= open[id]
    {
      if items == [] {
        return null;
      }
      reader := items[0];
      forall i: nat | i < |items|
        ensures reader.version <= items[i].version
      {
        RootIsLeast(Versions(), i);
      }
    }
  }

  lemma AboveInside(v: seq<nat>, j: nat)
    requires OnlyAbove(v, j)
    ensures j < |v|
  {
  }
}
