/** sf_free, sf_realloc and sf_memalign on heap values, and what holds over whole runs of calls (hw3/src/sfmm.c). */
module HeapOperations {
  import opened HeapTags
  import opened HeapModel
  import opened HeapAllocation

  // ---- sf_free ----

  lemma MergedLive(tags: Tags, epi: int, lo: int, hi: int, p: int)
    requires lo in tags && hi in tags && lo <= p < hi && p in tags && lo != epi && p != epi
    requires forall a :: a in tags && lo <= a < hi && tags[a].alloc ==> a == p
    ensures LiveIn(Merged(tags, lo, hi), epi) == LiveIn(tags, epi) - {p}
  {
    var t := Merged(tags, lo, hi);
    assert forall a :: a in t && a != lo ==> t[a].size == tags[a].size && t[a].alloc == tags[a].alloc;
  }

  /** The freed block is the only live one in the region it merges into. */
  lemma OnlyFreed(h: Heap, p: int)
    requires Inv(h) && Live(h, p)
    ensures Low(h, p) <= p < High(h, p) && Low(h, p) != h.Epilogue()
    ensures forall a :: a in h.tags && Low(h, p) <= a < High(h, p) && h.tags[a].alloc ==> a == p
  {
    FreedRegion(h, p);
    assert BlockShape(h.tags, h.First(), h.Epilogue(), p);
    hide Low, High;
  }

  lemma FreedLive(h: Heap, p: int)
    requires Inv(h) && Live(h, p)
    ensures LiveBlocks(Freed(h, p)) == LiveBlocks(h) - {p}
  {
    hide Inv, Low, High, Merged, LiveIn, Detached;
    OnlyFreed(h, p);
    MergedLive(h.tags, h.Epilogue(), Low(h, p), High(h, p), p);
  }

  /** Freeing ends the life of the given block and of no other. */
  lemma FreedCorrect(h: Heap, p: int)
    requires Inv(h) && Live(h, p)
    ensures Inv(Freed(h, p)) && LiveBlocks(Freed(h, p)) == LiveBlocks(h) - {p}
    ensures Freed(h, p).start == h.start && Freed(h, p).end == h.end
  {
    hide Inv;
    FreedInv(h, p);
    FreedLive(h, p);
  }

  // ---- cutting a live block in two ----

  /** A live block becomes two live blocks, the first of `need` bytes. */
  function Cut(h: Heap, p: int, need: int): Heap
    requires p in h.tags
  {
    h.(tags := Split(h.tags, p, need, true))
  }

  lemma CutViews(tags: Tags, epi: int, p: int, need: int)
    requires p in tags && tags[p].alloc && p != epi && p + need !in tags && p + need != epi && need != 0
    ensures Homes(Split(tags, p, need, true), epi) == Homes(tags, epi)
    ensures LiveIn(Split(tags, p, need, true), epi) == LiveIn(tags, epi)[p := need][p + need := tags[p].size - need]
  {
    var t := Split(tags, p, need, true);
    assert forall a :: a in t <==> a in tags || a == p + need;
    assert forall a :: a in tags && a != p ==> t[a] == tags[a];
  }

  lemma CutCorrect(h: Heap, p: int, need: int)
    requires Inv(h) && Live(h, p)
    requires need >= MIN_BLOCK && need % 16 == 0 && h.tags[p].size - need >= MIN_BLOCK
    ensures Inv(Cut(h, p, need)) && Live(Cut(h, p, need), p) && Live(Cut(h, p, need), p + need)
    ensures LiveBlocks(Cut(h, p, need)) == LiveBlocks(h)[p := need][p + need := h.tags[p].size - need]
    ensures p + need !in h.tags
  {
    SplitTiled(h.tags, h.First(), h.Epilogue(), p, need, true);
    SplitKeeps(h, p, need, true);
    CutViews(h.tags, h.Epilogue(), p, need);
  }

  lemma LiveShape(h: Heap, p: int)
    requires Inv(h) && Live(h, p)
    ensures p > 0 && (p + 8) % 16 == 0 && h.tags[p].size >= MIN_BLOCK && h.tags[p].size % 16 == 0
    ensures p in LiveBlocks(h) && LiveBlocks(h)[p] == h.tags[p].size
  {
    assert BlockShape(h.tags, h.First(), h.Epilogue(), p);
  }

  /** Shrinking in place: the tail is cut off and freed. */
  function Trimmed(h: Heap, p: int, need: int): Heap
    requires Inv(h) && Live(h, p)
    requires need >= MIN_BLOCK && need % 16 == 0 && h.tags[p].size - need >= MIN_BLOCK
  {
    CutCorrect(h, p, need);
    Freed(Cut(h, p, need), p + need)
  }

  lemma TrimmedCorrect(h: Heap, p: int, need: int)
    requires Inv(h) && Live(h, p)
    requires need >= MIN_BLOCK && need % 16 == 0 && h.tags[p].size - need >= MIN_BLOCK
    ensures Inv(Trimmed(h, p, need)) && LiveBlocks(Trimmed(h, p, need)) == LiveBlocks(h)[p := need]
    ensures Trimmed(h, p, need).start == h.start && Trimmed(h, p, need).end == h.end
  {
    hide Inv, Split, Freed;
    CutCorrect(h, p, need);
    FreedCorrect(Cut(h, p, need), p + need);
    assert p + need !in LiveBlocks(h);
  }

  // ---- sf_realloc ----

  /** Resizing the live block with header `p`; the result's pointer is 0 when NULL is returned. */
  function Realloc(h: Heap, limit: int, p: int, size: int): Outcome
    requires Inv(h) && Live(h, p) && Request(size) && h.end <= limit
  {
    if size == 0 then Outcome(Freed(h, p), 0) else
      var need, length := Adjusted(size), h.tags[p].size;
      if need > length then
        var r := Malloc(h, limit, size);
        MallocCorrect(h, limit, size);
        StillLive(h, limit, size, p);
        if r.ptr == 0 then r else Outcome(Freed(r.heap, p), r.ptr)
      else if length - need < MIN_BLOCK then Outcome(h, p + 8)
      else Outcome(Trimmed(h, p, need), p + 8)
  }

  lemma StillLive(h: Heap, limit: int, size: int, p: int)
    requires Inv(h) && Live(h, p) && Request(size) && h.end <= limit && size > 0
    ensures var r := Malloc(h, limit, size); Live(r.heap, p) && (r.ptr != 0 ==> r.ptr - 8 != p)
    ensures var r := Malloc(h, limit, size); r.heap.tags[p].size == h.tags[p].size
  {
    hide Inv, Malloc, Exhausted;
    MallocCorrect(h, limit, size);
    assert p in LiveBlocks(h);
    assert p in LiveBlocks(Malloc(h, limit, size).heap);
  }

  ghost predicate ReallocMeets(h: Heap, limit: int, p: int, size: int, r: Outcome)
    requires Inv(h) && p in h.tags && Request(size)
  {
    var live, need := LiveBlocks(h), Adjusted(size);
    && Inv(r.heap) && r.heap.start == h.start && h.end <= r.heap.end <= limit
    && (if size == 0 then r.ptr == 0 && LiveBlocks(r.heap) == live - {p}
        else if r.ptr == 0 then need > h.tags[p].size && Exhausted(h, limit, need) && LiveBlocks(r.heap) == live
        else NewBlock(live - {p}, r.heap, r.ptr - 8, need) && (need <= h.tags[p].size ==> r.ptr == p + 8)
             && (need > h.tags[p].size ==> !Exhausted(h, limit, need) && r.ptr - 8 !in live))
  }

  lemma ReallocMoves(h: Heap, limit: int, p: int, size: int)
    requires Inv(h) && Live(h, p) && Request(size) && size > 0 && h.end <= limit && Adjusted(size) > h.tags[p].size
    ensures ReallocMeets(h, limit, p, size, Realloc(h, limit, p, size))
  {
    hide Inv, Malloc, Exhausted, Freed;
    var r := Malloc(h, limit, size);
    MallocCorrect(h, limit, size);
    StillLive(h, limit, size, p);
    if r.ptr != 0 {
      FreedCorrect(r.heap, p);
      MovedLive(LiveBlocks(h), r.heap, p, r.ptr - 8, Adjusted(size), Freed(r.heap, p));
    }
  }

  lemma ReallocKeeps(h: Heap, limit: int, p: int, size: int)
    requires Inv(h) && Live(h, p) && Request(size) && size > 0 && h.end <= limit
    requires Adjusted(size) <= h.tags[p].size < Adjusted(size) + MIN_BLOCK
    ensures ReallocMeets(h, limit, p, size, Outcome(h, p + 8))
  {
    hide Inv, Exhausted;
    LiveShape(h, p);
    var live := LiveBlocks(h);
    assert live == (live - {p})[p := h.tags[p].size];
  }

  lemma ReallocTrims(h: Heap, limit: int, p: int, size: int)
    requires Inv(h) && Live(h, p) && Request(size) && size > 0 && h.end <= limit
    requires Adjusted(size) + MIN_BLOCK <= h.tags[p].size
    ensures ReallocMeets(h, limit, p, size, Outcome(Trimmed(h, p, Adjusted(size)), p + 8))
  {
    hide Inv, Exhausted, Trimmed;
    var live, need := LiveBlocks(h), Adjusted(size);
    LiveShape(h, p);
    TrimmedCorrect(h, p, need);
    assert live[p := need] == (live - {p})[p := need];
    assert p in LiveBlocks(Trimmed(h, p, need));
  }

  /**
   * With size 0 the block is freed. Otherwise exactly one block for the request takes the place of
   * the old one, at the same address when it was long enough; or NULL is returned because memory
   * is exhausted, and nothing live changed.
   */
  lemma ReallocCorrect(h: Heap, limit: int, p: int, size: int)
    requires Inv(h) && Live(h, p) && Request(size) && h.end <= limit
    ensures ReallocMeets(h, limit, p, size, Realloc(h, limit, p, size))
  {
    if size == 0 {
      hide Inv, Freed;
      FreedCorrect(h, p);
    } else if Adjusted(size) > h.tags[p].size {
      ReallocMoves(h, limit, p, size);
    } else if h.tags[p].size - Adjusted(size) < MIN_BLOCK {
      ReallocKeeps(h, limit, p, size);
    } else {
      ReallocTrims(h, limit, p, size);
    }
  }

  lemma MovedLive(live: map<int, int>, m: Heap, p: int, q: int, need: int, g: Heap)
    requires NewBlock(live, m, q, need) && p != q && LiveBlocks(g) == LiveBlocks(m) - {p}
    ensures NewBlock(live - {p}, g, q, need)
  {
    assert q in LiveBlocks(g);
    assert live[q := m.tags[q].size] - {p} == (live - {p})[q := m.tags[q].size];
  }
}
