/**
 * sf_memalign on heap values: the over-sized block, the aligned address inside it, and the two cuts
 * (hw3/src/sfmm.c).
 */
module HeapAlignment {
  import opened Powers
  import opened HeapTags
  import opened HeapModel
  import opened HeapAllocation
  import opened HeapOperations

  // ---- the search for an aligned address ----

  lemma ModStep(x: int, m: int)
    requires m > 0
    ensures (x + 1) % m == if x % m + 1 == m then 0 else x % m + 1
  {
    var q, r := x / m, x % m;
    assert x == m * q + r;
    if r + 1 == m {
      assert x + 1 == m * (q + 1) + 0;
      QuotientIs(x + 1, m, q + 1, 0);
    } else {
      QuotientIs(x + 1, m, q, r + 1);
    }
  }

  /** The first address from `x` on that is a multiple of `align`. */
  function AlignedFrom(x: int, align: int): (y: int)
    requires align > 0
    ensures y % align == 0 && x <= y < x + align && (x % align != 0 ==> y < x + align - x % align + 1)
    ensures forall z :: x <= z < y ==> z % align != 0
    decreases if x % align == 0 then 0 else align - x % align
  {
    if x % align == 0 then x else
      ModStep(x, align);
      AlignedFrom(x + 1, align)
  }

  lemma SixteenIsPow2()
    ensures Pow2(4) == 16
  {
    assert Pow2(2) == 4;
  }

  lemma MultipleOf16(k: nat, y: int)
    requires k >= 4 && y % Pow2(k) == 0
    ensures y % 16 == 0 && Pow2(k) % 16 == 0
  {
    hide Pow2;
    var m := Pow2(k - 4);
    Pow2Add(4, k - 4);
    SixteenIsPow2();
    assert 4 + (k - 4) == k;
    Factor(y, 16, m);
    QuotientIs(16 * m, 16, m, 0);
  }

  lemma Factor(y: int, a: int, b: int)
    requires a > 0 && b > 0 && y % (a * b) == 0
    ensures y % a == 0
  {
    var z := y / (a * b);
    assert y == (a * b) * z;
    assert (a * b) * z == a * (b * z);
    QuotientIs(y, a, b * z, 0);
  }

  lemma SmallAlignments(k: nat, p: int)
    requires k <= 4 && p % 16 == 0
    ensures p % Pow2(k) == 0
  {
    Pow2Add(k, 4 - k);
    assert k + (4 - k) == 4 && Pow2(4) == 16;
    Factor(p, Pow2(k), Pow2(4 - k));
  }

  /** The address sf_memalign settles on inside a block whose payload starts at `ptr`. */
  function AlignedInside(ptr: int, align: int): int
    requires align > 0
  {
    AlignedFrom(ptr + 24, align)
  }

  /**
   * The search only asks for a distance of 32 from the header, 24 from the payload; the piece cut
   * off in front is a whole block all the same, and what is left still holds `size` bytes.
   */
  lemma AlignedRoom(ptr: int, align: int, size: int, length: int)
    requires ptr % 16 == 0 && IsPow2(align) && ptr % align != 0
    requires length % 16 == 0 && length >= size + align + 40
    ensures var q := AlignedInside(ptr, align);
            && q % align == 0 && q % 16 == 0 && (q - ptr) % 16 == 0
            && MIN_BLOCK <= q - ptr <= align + 16
            && length - (q - ptr) >= size + 24
  {
    var k: nat :| align == Pow2(k);
    var q := AlignedInside(ptr, align);
    if k <= 4 { SmallAlignments(k, ptr); }
    MultipleOf16(k, q);
    hide AlignedFrom;
    RoomArithmetic(ptr, align, size, length, q);
  }

  lemma RoomArithmetic(ptr: int, align: int, size: int, length: int, q: int)
    requires ptr % 16 == 0 && align % 16 == 0 && q % 16 == 0 && 24 <= q - ptr < align + 24
    requires length >= size + align + 40
    ensures (q - ptr) % 16 == 0 && MIN_BLOCK <= q - ptr <= align + 16 && length - (q - ptr) >= size + 24
  {
  }

  // ---- sf_memalign ----

  ghost predicate BadArguments(size: int, align: int) {
    size < 32 || !IsPow2(align) || align >= 0x8000_0000
  }

  /** The arguments are ones the source's arithmetic is defined for. */
  predicate AlignRequest(size: int, align: int) {
    0 <= size && 0 <= align < SIZE_MAX && Request(size) && Request(size + align + 32)
  }

  ghost predicate Carvable(h: Heap, p: int, q: int, need: int) {
    && p in h.tags && q - p >= MIN_BLOCK && (q - p) % 16 == 0
    && need >= MIN_BLOCK && need % 16 == 0 && h.tags[p].size - (q - p) >= need
  }

  lemma CutFront(h: Heap, p: int, q: int, need: int)
    requires Inv(h) && Live(h, p) && Carvable(h, p, q, need)
    ensures var cut, rest := Cut(h, p, q - p), h.tags[p].size - (q - p);
            && Inv(cut) && Live(cut, p) && Live(cut, q) && cut.tags[q].size == rest
            && LiveBlocks(cut) == LiveBlocks(h)[p := q - p][q := rest]
            && q !in LiveBlocks(h) && p in LiveBlocks(h)
  {
    hide Inv, LiveBlocks;
    CutCorrect(h, p, q - p);
    LiveShape(h, p);
    NotLive(h, q);
  }

  lemma NotLive(h: Heap, a: int)
    ensures a !in h.tags ==> a !in LiveBlocks(h)
  {
  }

  lemma CutBoth(h: Heap, p: int, q: int, need: int)
    requires Inv(h) && Live(h, p) && Carvable(h, p, q, need) && h.tags[p].size - (q - p) - need >= MIN_BLOCK
    ensures var c := Cut(Cut(h, p, q - p), q, need);
            && Inv(c) && Live(c, p) && Inv(Freed(c, p)) && Live(Freed(c, p), q + need)
            && LiveBlocks(Freed(c, p)) == (LiveBlocks(h) - {p})[q := need][q + need := h.tags[p].size - (q - p) - need]
            && q + need !in LiveBlocks(h) && q + need != p
  {
    hide Inv, Freed, Split;
    CutFront(h, p, q, need);
    var cut := Cut(h, p, q - p);
    CutCorrect(cut, q, need);
    var c := Cut(cut, q, need);
    assert q + need !in LiveBlocks(cut);
    assert p in LiveBlocks(c);
    FreedCorrect(c, p);
    assert q + need in LiveBlocks(Freed(c, p));
  }

  lemma CarveReady(h: Heap, p: int, q: int, need: int)
    requires Inv(h) && Live(h, p) && Carvable(h, p, q, need)
    ensures var cut := Cut(h, p, q - p);
            && Inv(cut) && Live(cut, p) && q in cut.tags
            && (h.tags[p].size - (q - p) - need >= MIN_BLOCK ==>
                  var c := Cut(cut, q, need); Inv(c) && Live(c, p) && Inv(Freed(c, p)) && Live(Freed(c, p), q + need))
  {
    hide Inv, Freed, Split;
    CutFront(h, p, q, need);
    if h.tags[p].size - (q - p) - need >= MIN_BLOCK { CutBoth(h, p, q, need); }
  }

  /** Front piece off, rest trimmed to the request: the heap after both pieces were freed. */
  function Carved(h: Heap, p: int, q: int, need: int): Heap
    requires Inv(h) && Live(h, p) && Carvable(h, p, q, need)
  {
    hide Inv, Freed;
    CarveReady(h, p, q, need);
    var cut := Cut(h, p, q - p);
    if h.tags[p].size - (q - p) - need < MIN_BLOCK then Freed(cut, p)
    else Freed(Freed(Cut(cut, q, need), p), q + need)
  }

  /** The block at `q` takes the place of the block at `p`; nothing else live changes. */
  lemma CarvedCorrect(h: Heap, p: int, q: int, need: int)
    requires Inv(h) && Live(h, p) && Carvable(h, p, q, need)
    ensures var g := Carved(h, p, q, need);
            && Inv(g) && g.start == h.start && g.end == h.end
            && q in g.tags && need <= g.tags[q].size < need + MIN_BLOCK
            && LiveBlocks(g) == (LiveBlocks(h) - {p})[q := g.tags[q].size] && q !in LiveBlocks(h)
  {
    hide Inv, Freed, Split;
    CutFront(h, p, q, need);
    var cut, live := Cut(h, p, q - p), LiveBlocks(h);
    if h.tags[p].size - (q - p) - need < MIN_BLOCK {
      FreedCorrect(cut, p);
      assert LiveBlocks(Freed(cut, p)) == (live - {p})[q := cut.tags[q].size];
      assert q in LiveBlocks(Freed(cut, p));
    } else {
      CutBoth(h, p, q, need);
      var c := Cut(cut, q, need);
      FreedCorrect(c, p);
      FreedCorrect(Freed(c, p), q + need);
      var g := Freed(Freed(c, p), q + need);
      assert LiveBlocks(g) == (live - {p})[q := need];
      assert q in LiveBlocks(g);
    }
  }

  lemma FreshBlock(h: Heap, limit: int, size: int)
    requires Inv(h) && Request(size) && h.end <= limit && size > 0 && Malloc(h, limit, size).ptr != 0
    ensures var r := Malloc(h, limit, size);
            && Inv(r.heap) && Live(r.heap, r.ptr - 8) && r.heap.end <= limit && r.ptr % 16 == 0
            && r.heap.tags[r.ptr - 8].size >= Adjusted(size) && r.heap.tags[r.ptr - 8].size % 16 == 0
            && LiveBlocks(r.heap) - {r.ptr - 8} == LiveBlocks(h)
  {
    hide Inv, Malloc, Exhausted;
    MallocCorrect(h, limit, size);
    var r := Malloc(h, limit, size);
    assert r.ptr - 8 in LiveBlocks(r.heap);
    LiveShape(r.heap, r.ptr - 8);
  }

  /** The over-sized block leaves room for an aligned block of the requested size. */
  lemma AlignedBlock(g: Heap, ptr: int, size: int, align: int)
    requires ptr - 8 in g.tags && ptr % 16 == 0 && Request(size) && size >= 32 && IsPow2(align)
    requires g.tags[ptr - 8].size % 16 == 0 && g.tags[ptr - 8].size >= size + align + 40
    ensures align > 0 && Adjusted(size) <= g.tags[ptr - 8].size
    ensures ptr % align != 0 ==> Carvable(g, ptr - 8, AlignedInside(ptr, align) - 8, Adjusted(size))
  {
    AlignPositive(align);
    hide AlignedInside, Adjusted;
    if ptr % align != 0 { AlignedRoom(ptr, align, size, g.tags[ptr - 8].size); }
  }

  lemma AlignPositive(align: int)
    requires IsPow2(align)
    ensures align > 0
  {
  }

  /** Allocation at an address that is a multiple of `align`; pointer 0 stands for NULL. */
  ghost function Memalign(h: Heap, limit: int, size: int, align: int): Outcome
    requires Inv(h) && AlignRequest(size, align) && h.end <= limit
  {
    if size == 0 || BadArguments(size, align) then Outcome(h, 0) else
      hide Inv, Malloc, Carved, Realloc, AlignedInside;
      var r := Malloc(h, limit, size + align + 32);
      if r.ptr == 0 then MallocCorrect(h, limit, size + align + 32); r else
        FreshBlock(h, limit, size + align + 32);
        AlignedBlock(r.heap, r.ptr, size, align);
        if r.ptr % align == 0 then Realloc(r.heap, limit, r.ptr - 8, size)
        else Outcome(Carved(r.heap, r.ptr - 8, AlignedInside(r.ptr, align) - 8, Adjusted(size)),
          AlignedInside(r.ptr, align))
  }

  /**
   * A call with valid arguments yields one new live block for the request at an address divisible
   * by the alignment, or NULL exactly when no block of `size + align + 32` bytes can be had;
   * every other live block stays as it was.
   */
  ghost predicate MemalignMeets(h: Heap, limit: int, size: int, align: int, r: Outcome)
    requires Inv(h) && AlignRequest(size, align)
  {
    && Inv(r.heap) && r.heap.start == h.start && h.end <= r.heap.end <= limit
    && (if size == 0 || BadArguments(size, align) then r.ptr == 0 && r.heap == h
        else align > 0 && (r.ptr == 0 <==> Exhausted(h, limit, Adjusted(size + align + 32)))
             && (if r.ptr == 0 then LiveBlocks(r.heap) == LiveBlocks(h)
                 else r.ptr % align == 0 && NewBlock(LiveBlocks(h), r.heap, r.ptr - 8, Adjusted(size))))
  }

  lemma MemalignResized(h: Heap, limit: int, size: int, align: int, r: Outcome)
    requires Inv(h) && AlignRequest(size, align) && h.end <= limit && size > 0 && !BadArguments(size, align)
    requires r == Malloc(h, limit, size + align + 32) && r.ptr != 0 && align > 0 && r.ptr % align == 0
    ensures MemalignMeets(h, limit, size, align, Memalign(h, limit, size, align))
  {
    hide Inv, Malloc, Exhausted, Realloc;
    MallocCorrect(h, limit, size + align + 32);
    FreshBlock(h, limit, size + align + 32);
    AlignedBlock(r.heap, r.ptr, size, align);
    ReallocCorrect(r.heap, limit, r.ptr - 8, size);
  }

  lemma MemalignCarved(h: Heap, limit: int, size: int, align: int, r: Outcome)
    requires Inv(h) && AlignRequest(size, align) && h.end <= limit && size > 0 && !BadArguments(size, align)
    requires r == Malloc(h, limit, size + align + 32) && r.ptr != 0 && align > 0 && r.ptr % align != 0
    ensures MemalignMeets(h, limit, size, align, Memalign(h, limit, size, align))
  {
    hide Inv, Malloc, Exhausted, Carved, AlignedInside;
    MallocCorrect(h, limit, size + align + 32);
    FreshBlock(h, limit, size + align + 32);
    AlignedBlock(r.heap, r.ptr, size, align);
    AlignedRoom(r.ptr, align, size, r.heap.tags[r.ptr - 8].size);
    CarvedCorrect(r.heap, r.ptr - 8, AlignedInside(r.ptr, align) - 8, Adjusted(size));
  }

  lemma MemalignCorrect(h: Heap, limit: int, size: int, align: int)
    requires Inv(h) && AlignRequest(size, align) && h.end <= limit
    ensures MemalignMeets(h, limit, size, align, Memalign(h, limit, size, align))
  {
    hide Inv, Malloc, Exhausted, Carved, Realloc, AlignedInside;
    if size != 0 && !BadArguments(size, align) {
      AlignPositive(align);
      var r := Malloc(h, limit, size + align + 32);
      if r.ptr == 0 {
        MallocCorrect(h, limit, size + align + 32);
      } else if r.ptr % align == 0 {
        MemalignResized(h, limit, size, align, r);
      } else {
        MemalignCarved(h, limit, size, align, r);
      }
    }
  }
}
