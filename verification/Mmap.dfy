/** The file's pages as mapped memory (extend_mmap in src/storage/kv.cpp, page_get_mapped in src/storage/kv_reader.cpp). */
module Mmaps {

  const MIN_MMAP_PAGES: nat := 64 * 1024 * 1024 / 4096

  /** One mapping: so many pages of the file from first on. */
  datatype Chunk = Chunk(first: nat, pages: nat)

  datatype Mapped = BadPtr | FilePage(p: nat)

  function Total(chunks: seq<Chunk>): nat
  {
    if chunks == [] then 0 else Total(chunks[..|chunks| - 1]) + chunks[|chunks| - 1].pages
  }

  /** The mappings follow one another in the file from its start, without a gap. */
  predicate Contiguous(chunks: seq<Chunk>)
  {
    forall i :: 0 <= i < |chunks| ==> chunks[i].first == Total(chunks[..i])
  }

  lemma TotalStep(chunks: seq<Chunk>, i: nat)
    requires i < |chunks|
    ensures Total(chunks[..i + 1]) == Total(chunks[..i]) + chunks[i].pages
  {
    assert chunks[..i + 1][..i] == chunks[..i];
  }

  lemma {:induction false} TotalGrows(chunks: seq<Chunk>, i: nat, j: nat)
    requires i <= j <= |chunks|
    ensures Total(chunks[..i]) <= Total(chunks[..j]) <= Total(chunks)
    decreases |chunks| - i
  {
    if i < |chunks| {
      TotalStep(chunks, i);
      if i < j {
        TotalGrows(chunks, i + 1, j);
      } else {
        TotalGrows(chunks, i + 1, i + 1);
      }
    } else {
      assert chunks[..i] == chunks;
    }
  }

  /** page_get_mapped: exactly the pages below the total are mapped, each to itself. */
  method PageGetMapped(chunks: seq<Chunk>, ptr: nat) returns (r: Mapped)
    requires Contiguous(chunks)
    ensures r == if ptr < Total(chunks) then FilePage(ptr) else BadPtr
  {
    var start := 0;
    for i := 0 to |chunks|
      invariant start == Total(chunks[..i]) <= ptr
    {
      TotalStep(chunks, i);
      var end := start + chunks[i].pages;
      if ptr < end {
        TotalGrows(chunks, i + 1, i + 1);
        return FilePage(chunks[i].first + (ptr - start));
      }
      start := end;
    }
    assert chunks[..|chunks|] == chunks;
    r := BadPtr;
  }

  /** extend_mmap: at most one more mapping, at least as large as all before it together; those stay where they are. */
  method ExtendMmap(chunks: seq<Chunk>, total: nat, size: nat) returns (more: seq<Chunk>, mapped: nat)
    requires Contiguous(chunks) && total == Total(chunks)
    ensures Contiguous(more) && chunks <= more && |more| <= |chunks| + 1
    ensures mapped == Total(more) >= size && (Total(chunks) >= size ==> more == chunks)
    ensures more == chunks || Total(more) >= 2 * Total(chunks)
    ensures more != chunks ==>
              var alloc, first := Total(more) - total, if total < MIN_MMAP_PAGES then MIN_MMAP_PAGES else total;
              alloc >= first && (alloc == first || 2 * total + alloc < 2 * size)
  {
    hide Contiguous, Total;
    if size <= total {
      return chunks, total;
    }
    var alloc := if total < MIN_MMAP_PAGES then MIN_MMAP_PAGES else total;
    while total + alloc < size
      invariant alloc >= total && alloc > 0 && alloc >= (if total < MIN_MMAP_PAGES then MIN_MMAP_PAGES else total)
      invariant alloc == (if total < MIN_MMAP_PAGES then MIN_MMAP_PAGES else total) || 2 * total + alloc < 2 * size
      decreases size - alloc
    {
      alloc := alloc * 2;
    }
    more, mapped := chunks + [Chunk(total, alloc)], total + alloc;
    OneMore(chunks, alloc);
  }

  lemma OneMore(chunks: seq<Chunk>, alloc: nat)
    requires Contiguous(chunks)
    ensures var more := chunks + [Chunk(Total(chunks), alloc)]; Contiguous(more) && Total(more) == Total(chunks) + alloc
  {
    var more := chunks + [Chunk(Total(chunks), alloc)];
    assert more[..|chunks|] == chunks;
    TotalStep(more, |chunks|);
    assert more[..|chunks| + 1] == more;
    forall i | 0 <= i < |chunks|
      ensures more[i].first == Total(more[..i])
    {
      assert more[..i] == chunks[..i];
    }
  }

  /** What a reader's copy of the mappings finds, every later list of mappings finds too. */
  lemma MappedForGood(chunks: seq<Chunk>, more: seq<Chunk>)
    requires chunks <= more
    ensures Total(chunks) <= Total(more)
  {
    TotalGrows(more, |chunks|, |chunks|);
  }
}
