/** Sorted runs of entries: what inserting and removing a key means, independent of how a tree stores them. */
module Entries {
  import opened Bytes
  import opened Nodes

  /** es with key bound to val: replaced where it is, else put before the first larger key. */
  function Inserted(es: seq<Entry>, key: Key, val: Key): seq<Entry>
  {
    if es == [] then [Entry(0, key, val)]
    else if es[0].key == key then [Entry(0, key, val)] + es[1..]
    else if Lt(key, es[0].key) then [Entry(0, key, val)] + es
    else [es[0]] + Inserted(es[1..], key, val)
  }

  /** es without its entry for key, if it has one. */
  function Removed(es: seq<Entry>, key: Key): seq<Entry>
  {
    if es == [] then []
    else if es[0].key == key then es[1..]
    else [es[0]] + Removed(es[1..], key)
  }

  predicate Has(es: seq<Entry>, key: Key)
  {
    exists i :: 0 <= i < |es| && es[i].key == key
  }

  /** The finite map a run of entries stands for. */
  ghost function AsMap(es: seq<Entry>): map<Key, Key>
  {
    if es == [] then map[] else AsMap(es[1..])[es[0].key := es[0].val]
  }

  ghost predicate AllBelow(es: seq<Entry>, key: Key)
  {
    forall i :: 0 <= i < |es| ==> Lt(es[i].key, key)
  }

  ghost predicate AllAbove(es: seq<Entry>, key: Key)
  {
    forall i :: 0 <= i < |es| ==> Lt(key, es[i].key)
  }

  // ------------------------------------------------------------ map meaning

  lemma {:induction false} AsMapInserted(es: seq<Entry>, key: Key, val: Key)
    ensures AsMap(Inserted(es, key, val)) == AsMap(es)[key := val]
  {
    if es != [] && es[0].key != key && !Lt(key, es[0].key) {
      AsMapInserted(es[1..], key, val);
      assert Inserted(es, key, val)[1..] == Inserted(es[1..], key, val);
    } else if es != [] && es[0].key == key {
      assert Inserted(es, key, val)[1..] == es[1..];
    } else {
      assert Inserted(es, key, val)[1..] == es;
    }
  }

  lemma {:induction false} AsMapKeys(es: seq<Entry>)
    ensures forall k :: k in AsMap(es) <==> Has(es, k)
  {
    if es != [] {
      AsMapKeys(es[1..]);
      forall k
        ensures k in AsMap(es) <==> Has(es, k)
      {
        if Has(es[1..], k) {
          var i :| 0 <= i < |es[1..]| && es[1..][i].key == k;
          assert es[i + 1].key == k;
        }
        if Has(es, k) && k != es[0].key {
          var i :| 0 <= i < |es| && es[i].key == k;
          assert es[1..][i - 1].key == k;
        }
      }
    }
  }

  lemma {:induction false} AsMapAt(es: seq<Entry>, i: nat)
    requires Sorted(es) && i < |es|
    ensures es[i].key in AsMap(es) && AsMap(es)[es[i].key] == es[i].val
  {
    LtIsStrictTotalOrder();
    if i > 0 {
      assert es[i] == es[1..][i - 1] && es[0].key != es[i].key;
      AsMapAt(es[1..], i - 1);
    }
  }

  lemma {:induction false} AsMapRemoved(es: seq<Entry>, key: Key)
    requires Sorted(es)
    ensures AsMap(Removed(es, key)) == AsMap(es) - {key}
  {
    LtIsStrictTotalOrder();
    if es == [] {
    } else if es[0].key == key {
      AsMapKeys(es[1..]);
      assert !Has(es[1..], key);
    } else {
      AsMapRemoved(es[1..], key);
      assert Removed(es, key)[1..] == Removed(es[1..], key);
    }
  }

  // --------------------------------------------------- locality of updates

  lemma {:induction false} InsertedAfter(a: seq<Entry>, b: seq<Entry>, key: Key, val: Key)
    requires AllBelow(a, key)
    ensures Inserted(a + b, key, val) == a + Inserted(b, key, val)
  {
    if a == [] {
      assert a + b == b;
      assert a + Inserted(b, key, val) == Inserted(b, key, val);
    } else {
      LtIsStrictTotalOrder();
      assert Lt(a[0].key, key) && !Lt(key, a[0].key);
      assert (a + b)[1..] == a[1..] + b;
      InsertedAfter(a[1..], b, key, val);
      assert [a[0]] + (a[1..] + Inserted(b, key, val)) == a + Inserted(b, key, val);
    }
  }

  lemma {:induction false} InsertedBefore(a: seq<Entry>, b: seq<Entry>, key: Key, val: Key)
    requires AllAbove(b, key)
    ensures Inserted(a + b, key, val) == Inserted(a, key, val) + b
  {
    LtIsStrictTotalOrder();
    if a == [] {
      assert a + b == b;
      if b != [] {
        assert Lt(key, b[0].key);
      }
    } else {
      assert (a + b)[1..] == a[1..] + b;
      if a[0].key != key && !Lt(key, a[0].key) {
        InsertedBefore(a[1..], b, key, val);
      }
    }
  }

  /** Inserting into the middle run. */
  lemma InsertedWithin(a: seq<Entry>, m: seq<Entry>, b: seq<Entry>, key: Key, val: Key)
    requires AllBelow(a, key) && AllAbove(b, key)
    ensures Inserted(a + m + b, key, val) == a + Inserted(m, key, val) + b
  {
    assert a + m + b == a + (m + b);
    InsertedAfter(a, m + b, key, val);
    InsertedBefore(m, b, key, val);
    assert a + (Inserted(m, key, val) + b) == a + Inserted(m, key, val) + b;
  }

  lemma InsertedBetween(a: seq<Entry>, b: seq<Entry>, key: Key, val: Key)
    requires AllBelow(a, key)
    requires b == [] || b[0].key == key || Lt(key, b[0].key)
    ensures Inserted(a + b, key, val) == a + [Entry(0, key, val)] + if b != [] && b[0].key == key then b[1..] else b
  {
    InsertedAfter(a, b, key, val);
    var rest := if b != [] && b[0].key == key then b[1..] else b;
    assert Inserted(b, key, val) == [Entry(0, key, val)] + rest;
    assert a + ([Entry(0, key, val)] + rest) == a + [Entry(0, key, val)] + rest;
  }

  /** What leaf_insert and leaf_update build at the position node_lookup_le found. */
  lemma InsertedAt(es: seq<Entry>, key: Key, val: Key, r: int)
    requires Sorted(es) && IsLookup(es, key, r)
    ensures r >= 0 && es[r].key == key ==> Inserted(es, key, val) == es[..r] + [Entry(0, key, val)] + es[r + 1..]
    ensures !(r >= 0 && es[r].key == key) ==> Inserted(es, key, val) == es[..r + 1] + [Entry(0, key, val)] + es[r + 1..]
  {
    hide Lt, Inserted;
    BelowLookup(es, key, r);
    var n := if r >= 0 && es[r].key == key then r else r + 1;
    var a, b := es[..n], es[n..];
    assert es == a + b;
    assert n == r ==> b[1..] == es[r + 1..];
    InsertedBetween(a, b, key, val);
  }

  /** The entries before the insertion point are smaller, the one at r + 1 is larger. */
  lemma BelowLookup(es: seq<Entry>, key: Key, r: int)
    requires Sorted(es) && IsLookup(es, key, r)
    ensures r >= 0 ==> AllBelow(es[..r], key)
    ensures !(r >= 0 && es[r].key == key) ==> AllBelow(es[..r + 1], key)
    ensures r + 1 < |es| ==> Lt(key, es[r + 1].key) && es[r + 1].key != key
  {
    LtIsStrictTotalOrder();
  }

  lemma {:induction false} RemovedAfter(a: seq<Entry>, b: seq<Entry>, key: Key)
    requires !Has(a, key)
    ensures Removed(a + b, key) == a + Removed(b, key)
  {
    if a == [] {
      assert a + b == b;
      assert a + Removed(b, key) == Removed(b, key);
    } else {
      assert a[0].key != key;
      assert (a + b)[1..] == a[1..] + b;
      assert !Has(a[1..], key) by {
        assert forall i :: 0 <= i < |a[1..]| ==> a[1..][i] == a[i + 1];
      }
      RemovedAfter(a[1..], b, key);
      assert [a[0]] + (a[1..] + Removed(b, key)) == a + Removed(b, key);
    }
  }

  lemma {:induction false} RemovedBefore(a: seq<Entry>, b: seq<Entry>, key: Key)
    requires !Has(b, key)
    ensures Removed(a + b, key) == Removed(a, key) + b
  {
    if a == [] {
      assert a + b == b;
      RemovedAfter(b, [], key);
      assert b + [] == b;
    } else {
      assert (a + b)[1..] == a[1..] + b;
      if a[0].key != key {
        RemovedBefore(a[1..], b, key);
      }
    }
  }

  lemma RemovedWithin(a: seq<Entry>, m: seq<Entry>, b: seq<Entry>, key: Key)
    requires AllBelow(a, key) && AllAbove(b, key)
    ensures Removed(a + m + b, key) == a + Removed(m, key) + b
    ensures Has(a + m + b, key) <==> Has(m, key)
  {
    LtIsStrictTotalOrder();
    assert a + m + b == a + (m + b);
    assert !Has(a, key) && !Has(b, key);
    RemovedAfter(a, m + b, key);
    RemovedBefore(m, b, key);
    assert a + (Removed(m, key) + b) == a + Removed(m, key) + b;
    if Has(m, key) {
      var i :| 0 <= i < |m| && m[i].key == key;
      assert (a + m + b)[|a| + i].key == key;
    }
    if Has(a + m + b, key) {
      var i :| 0 <= i < |a + m + b| && (a + m + b)[i].key == key;
      assert forall j :: 0 <= j < |a| ==> (a + m + b)[j] == a[j];
      assert forall j :: |a| + |m| <= j < |a + m + b| ==> (a + m + b)[j] == b[j - |a| - |m|];
      assert |a| <= i < |a| + |m|;
      assert m[i - |a|].key == key;
    }
  }

  lemma RemovedAt(es: seq<Entry>, key: Key, r: nat)
    requires Sorted(es) && r < |es| && es[r].key == key
    ensures Removed(es, key) == es[..r] + es[r + 1..]
  {
    LtIsStrictTotalOrder();
    assert es == es[..r] + es[r..] && es[r..][1..] == es[r + 1..];
    assert !Has(es[..r], key);
    RemovedAfter(es[..r], es[r..], key);
  }

  // -------------------------------------------------------- what is kept

  lemma InsertedSorted(es: seq<Entry>, key: Key, val: Key, r: int)
    requires Sorted(es) && IsLookup(es, key, r)
    ensures Sorted(Inserted(es, key, val))
    ensures r >= 0 ==> Inserted(es, key, val)[0].key == es[0].key
    ensures Inserted(es, key, val) != []
  {
    InsertedAt(es, key, val, r);
    BelowLookup(es, key, r);
    hide Inserted, Lt;
    var n := if r >= 0 && es[r].key == key then r else r + 1;
    SortedAround(es[..n], Entry(0, key, val), es[r + 1..]);
  }

  lemma SortedAround(a: seq<Entry>, e: Entry, b: seq<Entry>)
    requires Sorted(a) && Sorted(b) && AllBelow(a, e.key) && AllAbove(b, e.key)
    ensures Sorted(a + [e] + b)
  {
    LtIsStrictTotalOrder();
    hide Lt;
    var all := a + [e] + b;
    assert all[|a|] == e;
    forall i, j | 0 <= i < j < |all|
      ensures Lt(all[i].key, all[j].key)
    {
      assert i < |a| ==> all[i] == a[i];
      assert j > |a| ==> all[j] == b[j - |a| - 1];
      assert i > |a| ==> all[i] == b[i - |a| - 1];
    }
  }

  lemma RemovedSorted(es: seq<Entry>, key: Key)
    requires Sorted(es)
    ensures Sorted(Removed(es, key))
    ensures !Has(es, key) ==> Removed(es, key) == es
    ensures es != [] && es[0].key != key ==> Removed(es, key) != [] && Removed(es, key)[0] == es[0]
  {
    if Has(es, key) {
      var r :| 0 <= r < |es| && es[r].key == key;
      RemovedAt(es, key, r);
    } else {
      RemovedAfter(es, [], key);
      assert es + [] == es;
    }
  }

  /** node_lookup_le always has an answer. */
  lemma {:induction false} LookupExists(es: seq<Entry>, key: Key) returns (r: int)
    requires Sorted(es)
    ensures IsLookup(es, key, r)
  {
    LtIsStrictTotalOrder();
    if es == [] {
      r := -1;
    } else if Lt(key, es[|es| - 1].key) {
      r := LookupExists(es[..|es| - 1], key);
    } else {
      r := |es| - 1;
    }
  }

  /** The position node_lookup_le returns, as a function. */
  function Find(es: seq<Entry>, key: Key): (r: int)
    ensures -1 <= r < |es|
  {
    if es == [] then -1
    else if Le(es[|es| - 1].key, key) then |es| - 1
    else Find(es[..|es| - 1], key)
  }

  lemma {:induction false} FindIsLookup(es: seq<Entry>, key: Key)
    requires Sorted(es)
    ensures IsLookup(es, key, Find(es, key))
  {
    LtIsStrictTotalOrder();
    if es != [] && !Le(es[|es| - 1].key, key) {
      FindIsLookup(es[..|es| - 1], key);
    }
  }

  lemma LookupIsFind(es: seq<Entry>, key: Key, r: int)
    requires Sorted(es) && IsLookup(es, key, r)
    ensures r == Find(es, key)
  {
    FindIsLookup(es, key);
    LtIsStrictTotalOrder();
    hide Find;
    assert forall i :: 0 <= i < |es| ==> !(Le(es[i].key, key) && Lt(key, es[i].key));
  }

  /** The key is present exactly when the lookup lands on it. */
  lemma FindHas(es: seq<Entry>, key: Key, r: int)
    requires Sorted(es) && IsLookup(es, key, r)
    ensures Has(es, key) <==> r >= 0 && es[r].key == key
  {
    LtIsStrictTotalOrder();
    if Has(es, key) {
      var i :| 0 <= i < |es| && es[i].key == key;
      assert i <= r;
      assert i < r ==> Lt(es[i].key, es[r].key) && Le(es[r].key, key);
    }
  }
}
