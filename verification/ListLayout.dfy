/** The bytes of a free list node (LNodeT in include/storage/freelist.h), updated in place. */
module ListLayouts {
  import opened Bytes
  import opened Nodes
  import opened FreeLists
  import opened OrderPreserving
  import opened NodeLayouts

  const FREE_LIST_HEADER: nat := 8
  const FREE_LIST_ITEM_SIZE: nat := 16

  function SlotAt(idx: nat): nat { FREE_LIST_HEADER + idx * FREE_LIST_ITEM_SIZE }

  /** CAP is as many slots as a page has room for. */
  lemma SlotsFillPage()
    ensures SlotAt(CAP) <= PAGE_SIZE < SlotAt(CAP + 1)
  {
  }

  /** What a page's bytes are when read as a list node, whatever was stored there. */
  ghost function ListOf(d: seq<Byte>): LNode
    requires |d| == PAGE_SIZE
  {
    ListBytes(ReadLE(d, 0, 8), seq(CAP, i requires 0 <= i < CAP => ItemOf(d, i)))
  }

  ghost function ItemOf(d: seq<Byte>, i: nat): Item
    requires |d| == PAGE_SIZE && i < CAP
  {
    Item(ReadLE(d, SlotAt(i), 8), ReadLE(d, SlotAt(i) + 8, 8))
  }

  /** A field written reads back, and every other field reads as before. */
  lemma FieldWritten(d: seq<Byte>, a: nat, v: nat, b: nat)
    requires a + 8 <= |d| && b + 8 <= |d| && v < Power(8) && (a == b || a + 8 <= b || b + 8 <= a)
    ensures ReadLE(Overwritten(d, a, LittleEndian(v, 8)), b, 8) == if a == b then v else ReadLE(d, b, 8)
  {
    var x := LittleEndian(v, 8);
    if a == b {
      OverwrittenAt(d, a, x);
      ReadBack(Overwritten(d, a, x), a, v, 8);
    } else {
      OverwrittenApart(d, a, x, b, d[b..b + 8]);
    }
  }

  lemma NextWritten(d: seq<Byte>, v: nat)
    requires |d| == PAGE_SIZE && v < Power(8)
    ensures ListOf(Overwritten(d, 0, LittleEndian(v, 8))) == StoreNext(ListOf(d), v)
  {
    hide ReadLE, Overwritten, LittleEndian, Power;
    var w := Overwritten(d, 0, LittleEndian(v, 8));
    FieldWritten(d, 0, v, 0);
    forall i: nat | i < CAP
      ensures ItemOf(w, i) == ItemOf(d, i)
    {
      FieldWritten(d, 0, v, SlotAt(i));
      FieldWritten(d, 0, v, SlotAt(i) + 8);
    }
    assert ListOf(w).slots == ListOf(d).slots;
  }

  /** One half of a slot written: the page number, or the version 8 bytes further on. */
  lemma SlotWritten(d: seq<Byte>, idx: nat, half: bool, v: nat)
    requires |d| == PAGE_SIZE && v < Power(8) && idx < CAP
    ensures var was := ItemOf(d, idx);
            ListOf(Overwritten(d, SlotAt(idx) + (if half then 8 else 0), LittleEndian(v, 8))) ==
            StoreSlot(ListOf(d), idx, if half then Item(was.ptr, v) else Item(v, was.ver))
  {
    hide ReadLE, Overwritten, LittleEndian, Power;
    var a := SlotAt(idx) + if half then 8 else 0;
    var w := Overwritten(d, a, LittleEndian(v, 8));
    FieldWritten(d, a, v, 0);
    forall i: nat | i < CAP
      ensures ItemOf(w, i) == if i != idx then ItemOf(d, i) else if half then Item(ItemOf(d, i).ptr, v) else Item(v, ItemOf(d, i).ver)
    {
      FieldWritten(d, a, v, SlotAt(i));
      FieldWritten(d, a, v, SlotAt(i) + 8);
    }
    var was := ItemOf(d, idx);
    assert ListOf(w).slots == ListOf(d).slots[idx := if half then Item(was.ptr, v) else Item(v, was.ver)];
  }

  class LNodeView {
    const page: array<Byte>

    constructor (page: array<Byte>)
      requires page.Length == PAGE_SIZE
      ensures this.page == page
    {
      this.page := page;
    }

    ghost predicate Valid()
    {
      page.Length == PAGE_SIZE
    }

    ghost function Value(): LNode
      requires Valid()
      reads page
    {
      ListOf(page[..])
    }

    method Next() returns (ptr: nat)
      requires Valid()
      ensures ptr == Value().next
    {
      ptr := Load(page, 0, 8);
    }

    method GetPtr(idx: nat) returns (ptr: nat)
      requires Valid() && idx < CAP
      ensures ptr == Value().slots[idx].ptr
    {
      ptr := Load(page, SlotAt(idx), 8);
    }

    /** Only next changes. */
    method SetNext(ptr: nat)
      requires Valid() && ptr < Power(8)
      modifies page
      ensures Value() == StoreNext(old(Value()), ptr)
    {
      NextWritten(page[..], ptr);
      Store(page, 0, LittleEndian(ptr, 8));
    }

    /** Only the page number of this slot changes. */
    method SetPtr(idx: nat, ptr: nat)
      requires Valid() && idx < CAP && ptr < Power(8)
      modifies page
      ensures Value() == StoreSlot(old(Value()), idx, Item(ptr, old(Value()).slots[idx].ver))
    {
      hide ReadLE, Overwritten, LittleEndian, Power;
      SlotWritten(page[..], idx, false, ptr);
      Store(page, SlotAt(idx), LittleEndian(ptr, 8));
    }

    /** Only the version of this slot changes. */
    method SetVersion(idx: nat, version: nat)
      requires Valid() && idx < CAP && version < Power(8)
      modifies page
      ensures Value() == StoreSlot(old(Value()), idx, Item(old(Value()).slots[idx].ptr, version))
    {
      hide ReadLE, Overwritten, LittleEndian, Power;
      SlotWritten(page[..], idx, true, version);
      Store(page, SlotAt(idx) + 8, LittleEndian(version, 8));
    }

  }

  // ------------------------------------------------------------ versions that wrap around

  const WORD: int := 0x1_0000_0000_0000_0000

  /** version_before: the sign of the 64-bit difference. */
  predicate VersionBefore(a: nat, b: nat)
    requires a < WORD && b < WORD
  {
    (a - b) % WORD >= WORD / 2
  }

  /**
   * Counters that have wrapped around still compare as the versions they stand for, exactly as long as they are less
   * than half the range apart.
   */
  lemma VersionBeforeIsOrder(a: nat, b: nat)
    requires -WORD < a - b < WORD
    ensures (VersionBefore(a % WORD, b % WORD) <==> a < b) <==> -(WORD / 2) <= a - b < WORD / 2
  {
    var k := a / WORD - b / WORD;
    assert (a % WORD) - (b % WORD) == (a - b) - k * WORD;
    SameRemainder(a - b, k);
  }

  lemma SameRemainder(d: int, k: int)
    requires -WORD < d < WORD && -WORD < d - k * WORD < WORD
    ensures (d - k * WORD) % WORD == if d >= 0 then d else d + WORD
  {
    assert -2 < k < 2;
  }
}
