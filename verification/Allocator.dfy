/**
 * The allocator itself: the functions of hw3/src/sfmm.c over an array of 64-bit words, each proved
 * against the heap value it stands for. Bytes are addressed as in the source; cell `a / 8` of the
 * array is the word at address `a`. The dummy heads take the addresses below HEADS_END, the heap
 * takes those from `start` to `end`, and no other address is ever read or written.
 */
module Allocator {
  import opened Powers
  import opened HeapTags
  import opened HeapModel
  import opened HeapAllocation
  import opened HeapOperations
  import opened HeapAlignment
  import opened HeapMemory
  import opened HeapRefinement
  import opened HeapPlacementWords
  import opened HeapGrowthWords
  import opened HeapFreeBranches
  import opened HeapMallocSteps
  import opened HeapRuns

  datatype Errno = NoError | ENOMEM | EINVAL

  /** What sf_realloc leaves behind is what the heap value says. */
  ghost predicate Reallocated(h: Heap, limit: int, p: int, size: int, g: Heap, moved: int) {
    Inv(h) && Live(h, p) && Request(size) && h.end <= limit &&
      Outcome(g, moved) == HeapOperations.Realloc(h, limit, p, size)
  }

  /** The first min(old payload length, new size) bytes of the block at `ptr` are found at `moved`. */
  ghost predicate Preserved(m: Mem, h: Heap, ptr: int, n: Mem, moved: int, size: int) {
    && ptr - 8 in h.tags
    && (moved != 0 ==>
          Copied(m, ptr, n, moved, if h.tags[ptr - 8].size - 8 < size then h.tags[ptr - 8].size - 8 else size))
  }

  /** What sf_memalign leaves behind is what the heap value says. */
  ghost predicate MemAligned(h: Heap, limit: int, size: int, align: int, g: Heap, ptr: int) {
    Inv(h) && AlignRequest(size, align) && h.end <= limit &&
      Outcome(g, ptr) == HeapAlignment.Memalign(h, limit, size, align)
  }

  class SfHeap {
    const start: int
    const words: array<int>
    var end: int
    var errno: Errno
    ghost var heap: Heap

    /** No page may reach beyond this address. */
    function Limit(): int {
      8 * words.Length
    }

    ghost function Memory(): Mem
      reads words
    {
      map a | 0 <= a < 8 * words.Length && a % 8 == 0 :: words[a / 8]
    }

    ghost predicate Bounded()
      reads this
    {
      && start >= HEADS_END && start % 16 == 0 && start + PAGE_SIZE <= Limit()
      && start <= end <= Limit() && (end - start) % PAGE_SIZE == 0
      && heap.start == start && heap.end == end
    }

    /** The heap is in use and memory stands for it. */
    ghost predicate Running()
      reads this, words
    {
      Bounded() && Inv(heap) && Represents(Memory(), heap)
    }

    ghost predicate Valid()
      reads this, words
    {
      Running() || (Bounded() && heap == Blank(start))
    }

    constructor (start: int, pages: nat)
      requires start >= HEADS_END && start % 16 == 0 && pages >= 1
      ensures Valid() && fresh(words) && heap == Blank(start)
      ensures this.start == start && Limit() == start + pages * PAGE_SIZE && errno == NoError
    {
      this.start := start;
      words := new int[start / 8 + pages * 1024];
      end, errno := start, NoError;
      heap := Blank(start);
    }

    // ---- words ----

    function Load(a: int): (v: int)
      requires Bounded() && Accessible(heap, a)
      reads this, words
      ensures v == Word(Memory(), a)
    {
      words[a / 8]
    }

    method Store(a: int, v: int)
      requires Bounded() && Accessible(heap, a)
      modifies words
      ensures Memory() == old(Memory())[a := v]
    {
      words[a / 8] := v;
    }

    // ---- links ----

    /** `prev->next = next; next->prev = prev` */
    method Unlink(p: int)
      requires Bounded() && Accessible(heap, p + 8) && Accessible(heap, p + 16)
      requires Accessible(heap, PrevOf(Memory(), p) + 8) && Accessible(heap, NextOf(Memory(), p) + 16)
      modifies words
      ensures Memory() == Unlinked(old(Memory()), p)
    {
      hide Memory, Load, Inv;
      var prev := Load(p + 16);
      var next := Load(p + 8);
      Store(prev + 8, next);
      Store(next + 16, prev);
    }

    /** The block goes to the front of list `i`. */
    method PushFront(i: int, p: int)
      requires Bounded() && 0 <= i < 8 && Accessible(heap, p + 8) && Accessible(heap, p + 16) && IsBlock(p)
      requires Accessible(heap, NextOf(Memory(), Head(i)) + 16) && IsNode(NextOf(Memory(), Head(i)))
      modifies words
      ensures Memory() == PushedFront(old(Memory()), Head(i), p)
    {
      hide Memory, Load, Inv;
      var second := Load(Head(i) + 8);
      Store(Head(i) + 8, p);
      Store(second + 16, p);
      Store(p + 16, Head(i));
      Store(p + 8, second);
    }

    /** The block becomes the only one of list `i`, whatever that held. */
    method SetOnly(i: int, p: int)
      requires Bounded() && 0 <= i < 8 && Accessible(heap, p + 8) && Accessible(heap, p + 16)
      modifies words
      ensures Memory() == OnlyNode(old(Memory()), Head(i), p)
    {
      hide Memory, Load, Inv;
      Store(Head(i) + 8, p);
      Store(Head(i) + 16, p);
      Store(p + 16, Head(i));
      Store(p + 8, Head(i));
    }

    method SetNewEpilogue()
      requires Bounded() && Accessible(heap, end - 8)
      modifies words
      ensures Memory() == old(Memory())[end - 8 := 1]
    {
      hide Memory, Accessible;
      Store(end - 8, 1);
    }

    // ---- sf_free ----

    /** The last block, with an allocated one before it. */
    method FreeLast(p: int, length: int, pal: int)
      requires Running() && Live(heap, p) && length == heap.tags[p].size && heap.tags[p].pal && pal == 2
      requires Next(heap.tags, p) == heap.Epilogue()
      modifies words
      ensures Memory() == FreedWords(old(Memory()), heap, p)
    {
      hide Inv, Represents, Memory, Load, FreedWords, PushedFront, Unlinked, Low, High, NewHeader, Accessible;
      PreviousReads(Memory(), heap, p);
      NextReads(Memory(), heap, p);
      StagesAccessible(Memory(), heap, p);
      WordsByBits(Memory(), heap, p);
      var newHeader := length + pal;
      Store(p, newHeader);
      Store(p + length - 8, newHeader);
      PushFront(7, p);
      SetNewEpilogue();
    }

    /** The last block, with a free one before it. */
    method FreeLastWithPrevious(p: int, length: int)
      requires Running() && Live(heap, p) && length == heap.tags[p].size && !heap.tags[p].pal
      requires Next(heap.tags, p) == heap.Epilogue()
      modifies words
      ensures Memory() == FreedWords(old(Memory()), heap, p)
    {
      hide Inv, Represents, Memory, Load, FreedWords, Unlinked, Low, High, OnlyNode, NewHeader, Accessible;
      PreviousReads(Memory(), heap, p);
      NextReads(Memory(), heap, p);
      StagesAccessible(Memory(), heap, p);
      LastWithPrevious(Memory(), heap, p);
      var previousLength := SizeOf(Load(p - 8));
      var previous := p - previousLength;
      var newHeader := length + previousLength + PrevBit(Load(previous));
      Store(previous, newHeader);
      Store(p + length - 8, newHeader);
      Unlink(previous);
      SetOnly(7, previous);
      SetNewEpilogue();
    }

    /** Not the last block, and no free neighbour. */
    method FreeAlone(p: int, length: int, pal: int, nextLength: int, nextAlloc: int)
      requires Running() && Live(heap, p) && length == heap.tags[p].size && heap.tags[p].pal && pal == 2
      requires Next(heap.tags, p) in heap.tags && heap.tags[Next(heap.tags, p)].alloc
      requires Next(heap.tags, p) != heap.Epilogue()
      requires nextLength == heap.tags[Next(heap.tags, p)].size && nextAlloc == 1
      modifies words
      ensures Memory() == FreedWords(old(Memory()), heap, p)
    {
      hide Inv, Represents, Memory, Load, FreedWords, PushedFront, Unlinked, Low, High, NewHeader, Accessible;
      PreviousReads(Memory(), heap, p);
      NextReads(Memory(), heap, p);
      StagesAccessible(Memory(), heap, p);
      WordsByBits(Memory(), heap, p);
      var insertIndex := ComputeMemoryIndex(length);
      var newHeader := length + pal;
      Store(p, newHeader);
      Store(p + length - 8, newHeader);
      PushFront(insertIndex, p);
      Store(p + length, nextLength + nextAlloc);
    }

    /**
     * The start of the branches with a free block before: it is found through its footer, its
     * header and the region's footer get the merged length, and it leaves its list.
     */
    method AbsorbPrevious(p: int, rest: int) returns (previous: int, mergedLength: int)
      requires Running() && Live(heap, p) && !heap.tags[p].pal && p + rest == High(heap, p)
      requires UnlinkPlan(Memory()[Low(heap, p) := NewHeader(heap, p)][High(heap, p) - 8 := NewHeader(heap, p)],
                          heap, Low(heap, p))
      modifies words
      ensures previous == Low(heap, p) && mergedLength == High(heap, p) - Low(heap, p)
      ensures var v := NewHeader(heap, p);
              Memory() == Unlinked(old(Memory())[Low(heap, p) := v][High(heap, p) - 8 := v], Low(heap, p))
    {
      hide Inv, Represents, Memory, Load, Unlinked, Low, High, NewHeader, Accessible;
      PreviousReads(Memory(), heap, p);
      var previousLength := SizeOf(Load(p - 8));
      previous := p - previousLength;
      mergedLength := rest + previousLength;
      var newHeader := mergedLength + PrevBit(Load(previous));
      Store(previous, newHeader);
      Store(p + rest - 8, newHeader);
      Unlink(previous);
    }

    /** The block before is free, the one after is allocated and not the epilogue. */
    method FreeWithPrevious(p: int, length: int, nextLength: int)
      requires Running() && Live(heap, p) && length == heap.tags[p].size && !heap.tags[p].pal
      requires Next(heap.tags, p) in heap.tags && heap.tags[Next(heap.tags, p)].alloc
      requires Next(heap.tags, p) != heap.Epilogue()
      requires nextLength == heap.tags[Next(heap.tags, p)].size
      modifies words
      ensures Memory() == FreedWords(old(Memory()), heap, p)
    {
      hide Inv, Represents, Memory, Load, FreedWords, PushedFront, Unlinked, Low, High, NewHeader, Accessible;
      PreviousReads(Memory(), heap, p);
      NextReads(Memory(), heap, p);
      WithPreviousPlan(Memory(), heap, p);
      var previous, mergedLength := AbsorbPrevious(p, length);
      var insertIndex := ComputeMemoryIndex(mergedLength);
      PushFront(insertIndex, previous);
      Store(p + length, nextLength + 1);
    }

    /**
     * The end of both branches with a free block after: the merged block becomes the wilderness,
     * whose list is simply overwritten, or replaces its neighbour in the lists.
     */
    method RelinkNext(merged: int, mergedLength: int, next: int, nextNext: int, nextNextLength: int, nextNextAlloc: int)
      requires Bounded() && IsBlock(merged) && Accessible(heap, merged + 8) && Accessible(heap, merged + 16)
      requires nextNextLength != 0 ==>
                 && Accessible(heap, next + 8) && Accessible(heap, next + 16) && Accessible(heap, nextNext)
                 && Accessible(heap, PrevOf(Memory(), next) + 8) && Accessible(heap, NextOf(Memory(), next) + 16)
                 && Accessible(heap, NextOf(Unlinked(Memory(), next), Head(ClassIndex(mergedLength))) + 16)
                 && IsNode(NextOf(Unlinked(Memory(), next), Head(ClassIndex(mergedLength))))
      modifies words
      ensures Memory() == if nextNextLength == 0 then OnlyNode(old(Memory()), Head(WILDERNESS), merged)
                          else PushedFront(Unlinked(old(Memory()), next), Head(ClassIndex(mergedLength)), merged)
                                 [nextNext := nextNextLength + nextNextAlloc]
    {
      hide Inv, Memory, Load, PushedFront, Unlinked, Accessible, OnlyNode;
      if nextNextLength == 0 {
        SetOnly(7, merged);
      } else {
        Unlink(next);
        var insertIndex := ComputeMemoryIndex(mergedLength);
        PushFront(insertIndex, merged);
        Store(nextNext, nextNextLength + nextNextAlloc);
      }
    }

    /** The block after is free, the one before is allocated. */
    method FreeWithNext(p: int, length: int, pal: int, nextLength: int)
      requires Running() && Live(heap, p) && length == heap.tags[p].size && heap.tags[p].pal && pal == 2
      requires Next(heap.tags, p) in heap.tags && !heap.tags[Next(heap.tags, p)].alloc
      requires nextLength == heap.tags[Next(heap.tags, p)].size
      modifies words
      ensures Memory() == FreedWords(old(Memory()), heap, p)
    {
      hide Inv, Represents, Memory, Load, FreedWords, PushedFront, Unlinked, Low, High, NewHeader, Accessible, OnlyNode;
      PreviousReads(Memory(), heap, p);
      NextReads(Memory(), heap, p);
      if High(heap, p) == heap.Epilogue() {
        WithWildernessPlan(Memory(), heap, p);
      } else {
        WithNextPlan(Memory(), heap, p);
      }
      var next := p + length;
      var nextNext := next + nextLength;
      var nextNextLength, nextNextAlloc := SizeOf(Load(nextNext)), AllocBit(Load(nextNext));
      var mergedLength := length + nextLength;
      var newHeader := mergedLength + pal;
      assert nextNext == High(heap, p) && newHeader == NewHeader(heap, p);
      Store(p, newHeader);
      Store(nextNext - 8, newHeader);
      RelinkNext(p, mergedLength, next, nextNext, nextNextLength, nextNextAlloc);
    }

    /** Both neighbours are free. */
    method FreeWithBoth(p: int, length: int, nextLength: int)
      requires Running() && Live(heap, p) && length == heap.tags[p].size && !heap.tags[p].pal
      requires Next(heap.tags, p) in heap.tags && !heap.tags[Next(heap.tags, p)].alloc
      requires nextLength == heap.tags[Next(heap.tags, p)].size
      modifies words
      ensures Memory() == FreedWords(old(Memory()), heap, p)
    {
      hide Inv, Represents, Memory, Load, FreedWords, PushedFront, Unlinked, Low, High, NewHeader, Accessible, OnlyNode;
      PreviousReads(Memory(), heap, p);
      NextReads(Memory(), heap, p);
      if High(heap, p) == heap.Epilogue() {
        WithWildernessPlan(Memory(), heap, p);
      } else {
        WithNextPlan(Memory(), heap, p);
      }
      var next := p + length;
      var nextNext := next + nextLength;
      var nextNextLength, nextNextAlloc := SizeOf(Load(nextNext)), AllocBit(Load(nextNext));
      var previous, mergedLength := AbsorbPrevious(p, length + nextLength);
      RelinkNext(previous, mergedLength, next, nextNext, nextNextLength, nextNextAlloc);
    }

    /** Coalescing: the branches of the source, by the bits of the block and of its neighbour. */
    method Coalesce(p: int, length: int, pal: int, nextLength: int, nextAlloc: int)
      requires Running() && Live(heap, p) && Next(heap.tags, p) in heap.tags
      requires length == heap.tags[p].size && pal == (if heap.tags[p].pal then 2 else 0)
      requires nextLength == heap.tags[Next(heap.tags, p)].size
      requires nextAlloc == if heap.tags[Next(heap.tags, p)].alloc then 1 else 0
      modifies words
      ensures Memory() == FreedWords(old(Memory()), heap, p)
    {
      hide Inv, Represents, Memory, FreedWords, Accessible;
      NextReads(Memory(), heap, p);
      if nextLength == 0 {
        if pal != 0 {
          FreeLast(p, length, pal);
        } else {
          FreeLastWithPrevious(p, length);
        }
      } else if pal != 0 && nextAlloc != 0 {
        FreeAlone(p, length, pal, nextLength, nextAlloc);
      } else if pal == 0 && nextAlloc != 0 {
        FreeWithPrevious(p, length, nextLength);
      } else if pal != 0 && nextAlloc == 0 {
        FreeWithNext(p, length, pal, nextLength);
      } else {
        FreeWithBoth(p, length, nextLength);
      }
    }

    /** The validity checks of sf_free and sf_realloc: none of them fires for a live block. */
    method PassesChecks(ptr: int) returns (ok: bool)
      requires Running() && Live(heap, ptr - 8)
      ensures ok
    {
      hide Inv, Represents, Memory, Load, Low, High, NewHeader;
      var p := ptr - 8;
      PreviousReads(Memory(), heap, p);
      NextReads(Memory(), heap, p);
      LivePassesChecks(Memory(), heap, p);
      if ptr == 0 || ptr % 16 != 0 {
        return false;
      }
      var length, allocBit, pal := SizeOf(Load(p)), AllocBit(Load(p)), PrevBit(Load(p));
      var next, memStart, memEnd := p + length, start + 40, end - 8;
      if length % 16 != 0 || length < 32 || allocBit == 0 || p < memStart || p >= memEnd || next < memStart ||
        next > memEnd {
        return false;
      }
      if pal == 0 {
        var previous := p - SizeOf(Load(p - 8));
        if AllocBit(Load(previous)) != 0 {
          return false;
        }
      }
      return true;
    }

    /**
     * sf_free. A live block is never taken for an invalid pointer; the block and its free
     * neighbours become one filed free block, and no other live payload changes.
     */
    method Free(ptr: int) returns (aborted: bool)
      requires Running() && Live(heap, ptr - 8)
      modifies this`heap, words
      ensures !aborted && Running() && heap == Freed(old(heap), ptr - 8)
      ensures LiveKept(old(Memory()), Memory(), LiveBlocks(old(heap)) - {ptr - 8})
    {
      hide Inv, Represents, Memory, Load, FreedWords, Low, High, NewHeader, Freed, LiveBlocks, LiveKept;
      var p := ptr - 8;
      var ok := PassesChecks(ptr);
      if !ok {
        return true;
      }
      PreviousReads(Memory(), heap, p);
      NextReads(Memory(), heap, p);
      FreedStep(Memory(), heap, p);
      var length, pal := SizeOf(Load(p)), PrevBit(Load(p));
      var next := p + length;
      Coalesce(p, length, pal, SizeOf(Load(next)), AllocBit(Load(next)));
      heap := Freed(heap, p);
      return false;
    }

    // ---- growing the heap ----

    /** sf_mem_grow: one page more, or NULL (0) and ENOMEM. */
    method MemGrow() returns (page: int)
      requires Bounded()
      modifies this`end, this`errno, this`heap
      ensures Bounded()
      ensures old(end) + PAGE_SIZE > Limit() ==>
                page == 0 && end == old(end) && errno == ENOMEM && heap == old(heap)
      ensures old(end) + PAGE_SIZE <= Limit() ==>
                && page == old(end) && end == old(end) + PAGE_SIZE
                && errno == old(errno) && heap == old(heap).(end := end)
    {
      if end + PAGE_SIZE > Limit() {
        errno := ENOMEM;
        return 0;
      }
      page := end;
      end := end + PAGE_SIZE;
      heap := heap.(end := end);
    }

    lemma MappedUpTo(end: int)
      requires end <= Limit()
      ensures Mapped(Memory(), end)
    {
    }

    /** All lists are made empty. */
    method LinkHeads()
      requires Bounded() && start < end
      modifies words
      ensures HeadsEmpty(Memory(), 8) && Word(Memory(), end - 8) == Word(old(Memory()), end - 8)
      ensures Word(Memory(), start + 8) == Word(old(Memory()), start + 8)
    {
      hide Inv, Represents, Memory, HeadsEmpty;
      NoHeads(Memory());
      for i := 0 to 8
        invariant HeadsEmpty(Memory(), i) && Word(Memory(), end - 8) == Word(old(Memory()), end - 8)
        invariant Word(Memory(), start + 8) == Word(old(Memory()), start + 8)
      {
        SelfLinkedGrows(Memory(), i);
        Store(Head(i) + 8, Head(i));
        Store(Head(i) + 16, Head(i));
      }
    }

    /** The set-up at the start of sf_malloc: prologue, epilogue, list heads and the first free block. */
    method Initialize()
      requires Bounded() && end == start
      modifies this`end, this`errno, this`heap, words
      ensures Running() && heap == Initial(start) && errno == old(errno)
      ensures Word(Memory(), start + 8) == 33
    {
      hide Inv, Represents, Memory, HeadsEmpty, OnlyNode, Mapped, Accessible;
      var startAddress := MemGrow();
      InitialInv(start);
      heap := Initial(start);
      FirstPageAccessible(heap);
      Store(startAddress + 8, 33);
      SetNewEpilogue();
      LinkHeads();
      MappedUpTo(end);
      FirstPage(Memory(), start);
      var first := startAddress + 8 + 32;
      Store(first, 8144 + 2);
      Store(first + 8, 0);
      Store(first + 16, 0);
      Store(first + 8144 - 8, Load(first));
      OnlyNodeKeeps(Memory(), 7, first, start + 8);
      SetOnly(7, first);
    }

    lemma OnlyNodeKeeps(m: Mem, i: nat, p: int, a: int)
      requires i < 8 && HEADS_END <= a < p
      ensures Word(OnlyNode(m, Head(i), p), a) == Word(m, a)
    {
    }

    /** Another page, merged with the wilderness if there is one. */
    method Extend() returns (ok: bool)
      requires Running()
      modifies this`end, this`errno, this`heap, words
      ensures Running() && (ok <==> old(end) + PAGE_SIZE <= Limit())
      ensures ok ==> heap == Extended(old(heap)) && errno == old(errno)
      ensures !ok ==> heap == old(heap) && errno == ENOMEM && Memory() == old(Memory())
      ensures LiveKept(old(Memory()), Memory(), LiveBlocks(old(heap)))
    {
      hide Inv, Represents, Memory, Load, Extended, ExtendedWords, LiveKept, OnlyNode, Mapped, LiveBlocks;
      ghost var h := heap;
      KeptItself(Memory(), LiveBlocks(h));
      ExtendedReads(Memory(), heap);
      var page := MemGrow();
      if page == 0 {
        return false;
      }
      MappedUpTo(end);
      ExtendedStep(Memory(), h);
      ghost var grown := Extended(h);
      GrowWords(h, page);
      heap := grown;
      return true;
    }

    /** The writes after a page was added at `page`. */
    method GrowWords(ghost h: Heap, page: int)
      requires Bounded() && Inv(h) && Represents(Memory(), h) && h.start == start
      requires h.end == page && end == page + PAGE_SIZE
      modifies words
      ensures Memory() == ExtendedWords(old(Memory()), h)
    {
      hide Inv, Represents, Memory, Load, ExtendedWords, OnlyNode, LastBlock, Accessible, Tells;
      ExtendedReads(Memory(), h);
      GrownAccess(h, heap, NextOf(Memory(), Head(7)));
      var w := Load(Head(7) + 8);
      if w == Head(7) {
        NewLastBlock(page - 8, 8192, 2);
        SetOnly(7, page - 8);
      } else {
        LengthenLast(w, h.tags[w]);
      }
    }

    /** What was accessible stays so, and the old epilogue becomes a block. */
    lemma GrownAccess(h: Heap, g: Heap, w: int)
      requires g.start == h.start && g.end == h.end + PAGE_SIZE && h.start >= HEADS_END && h.start <= h.end - 8
      requires h.end % 8 == 0 && IsBlock(h.end - 8)
      ensures Accessible(g, Head(7) + 8) && Accessible(g, h.end - 8) && Accessible(g, h.end) && Accessible(g, h.end + 8)
      ensures Accessible(h, w) ==> Accessible(g, w)
      ensures Accessible(h, w) && IsBlock(w) ==> w >= h.start
    {
      Eights(h.end, -8);
      Eights(h.end, 8);
    }

    lemma LastAccessible(h: Heap, a: int, length: int)
      requires Accessible(h, a) && a >= h.start && length >= MIN_BLOCK && length % 16 == 0 && a + length == h.end - 8
      ensures Accessible(h, a + length - 8) && Accessible(h, h.end - 8)
    {
    }

    /** The wilderness takes in the new page. */
    method LengthenLast(w: int, ghost t: Tag)
      requires Bounded() && Accessible(heap, w) && w >= start && Tells(Word(Memory(), w), t)
      requires w + t.size + PAGE_SIZE == end - 8 && t.size >= 0 && t.size % 16 == 0 && !t.alloc
      modifies words
      ensures Memory() == LastBlock(old(Memory()), w, t.(size := t.size + PAGE_SIZE))
    {
      hide Inv, Memory, Load, LastBlock;
      var length, pal := SizeOf(Load(w)), PrevBit(Load(w));
      NewLastBlock(w, length + 8192, pal);
    }

    /** Header and footer of the last block, and the epilogue. */
    method NewLastBlock(a: int, length: int, pal: int)
      requires Bounded() && Accessible(heap, a) && a >= start && length >= MIN_BLOCK && length % 16 == 0
      requires pal == 0 || pal == 2
      requires a + length == end - 8
      modifies words
      ensures Memory() == LastBlock(old(Memory()), a, Tag(length, pal == 2, false))
    {
      hide Inv, Memory, Load, Accessible, SizeOf;
      LastAccessible(heap, a, length);
      assert SizeOf(length + pal) == length by { PackUnpack(Tag(length, pal == 2, false)); }
      Store(a, length + pal);
      Store(a + SizeOf(Load(a)) - 8, Load(a));
      SetNewEpilogue();
    }

    lemma KeptItself(m: Mem, live: map<int, int>)
      ensures LiveKept(m, m, live)
    {
    }

    // ---- searching ----

    /** First fit in list `i`; 0 if no block is large enough. */
    method FindInList(i: nat, need: int) returns (found: int)
      requires Running() && i < 8 && need > 0
      ensures |heap.lists| == 8 && forall k :: 0 <= k < |heap.lists[i]| ==> heap.lists[i][k] in heap.tags
      ensures var k := FirstIn(heap.tags, heap.lists[i], need);
              found == if k < |heap.lists[i]| then heap.lists[i][k] else 0
    {
      hide Inv, Represents, Memory, Load, Accessible, FirstIn;
      ListInTags(heap, i);
      ghost var k := 0;
      ListReads(Memory(), heap, i, k);
      var node := Load(Head(i) + 8);
      while node != Head(i)
        invariant 0 <= k <= |heap.lists[i]| && node == At(Head(i), heap.lists[i], k)
        invariant forall j :: 0 <= j < k ==> heap.tags[heap.lists[i][j]].size < need
        decreases |heap.lists[i]| - k
      {
        ListReads(Memory(), heap, i, k);
        if need <= SizeOf(Load(node)) {
          FirstInIs(heap.tags, heap.lists[i], need, k);
          return node;
        }
        node := Load(node + 8);
        k := k + 1;
      }
      if k < |heap.lists[i]| { ListReads(Memory(), heap, i, k); }
      FirstInIs(heap.tags, heap.lists[i], need, k);
      return 0;
    }

    /** First fit over the lists from the request's size class to the wilderness. */
    method Search(need: int) returns (found: int, cameFromWilderness: bool)
      requires Running() && need >= MIN_BLOCK
      ensures FirstFit(heap, need, 0) == if found == 0 then NoFit else Fit(found)
      ensures found != 0 ==>
              found in heap.tags && (cameFromWilderness <==> ListOf(heap.tags, heap.Epilogue(), found) == WILDERNESS)
    {
      hide Inv, Represents, Memory, Load, FirstFit;
      var startSearchIndex := ComputeMemoryIndex(need);
      SkippingLosesNothing(heap, need, startSearchIndex);
      for i := startSearchIndex to 8
        invariant FirstFit(heap, need, 0) == FirstFit(heap, need, i)
      {
        ListReads(Memory(), heap, i, 0);
        FirstFitStep(heap, need, i);
        if Load(Head(i) + 8) != Head(i) {
          found := FindInList(i, need);
          if found != 0 {
            return found, i == 7;
          }
        }
      }
      FirstFitStep(heap, need, 7);
      return 0, false;
    }

    // ---- sf_malloc ----

    /** The chosen block is unlinked and marked, whole. */
    method TakeWhole(a: int)
      requires Running() && a in heap.tags && !heap.tags[a].alloc && Next(heap.tags, a) in heap.tags
      modifies words
      ensures Memory() == TakenWords(old(Memory()), heap, a)
    {
      hide Inv, Represents, Memory, Load, Accessible;
      PlacedReads(Memory(), heap, a);
      ghost var t, u := heap.tags[a], heap.tags[Next(heap.tags, a)];
      PackUnpack(t);
      PackUnpack(t.(alloc := true));
      assert SetPrev(Pack(u)) == Pack(u.(pal := true)) by { NextSizeAligned(a); PackUnpack(u); }
      Unlink(a);
      Store(a, SetAlloc(Load(a)));
      var after := a + SizeOf(Load(a));
      Store(after, SetPrev(Load(after)));
    }

    lemma NextSizeAligned(a: int)
      requires Inv(heap) && a in heap.tags && Next(heap.tags, a) in heap.tags
      ensures heap.tags[Next(heap.tags, a)].size % 16 == 0
    {
      assert BlockShape(heap.tags, heap.First(), heap.Epilogue(), Next(heap.tags, a));
    }

    /** The chosen block is cut; the remainder is filed. */
    method TakePart(a: int, need: int, cameFromWilderness: bool)
      requires Running() && a in heap.tags && !heap.tags[a].alloc
      requires need >= MIN_BLOCK && need % 16 == 0 && heap.tags[a].size - need >= MIN_BLOCK
      requires cameFromWilderness <==> ListOf(heap.tags, heap.Epilogue(), a) == WILDERNESS
      modifies words
      ensures Memory() == SplitWords(old(Memory()), heap, a, need)
    {
      hide Inv, Represents, Memory, Load, Accessible, PushedFront, Unlinked, OnlyNode, SplitTagWords;
      PlacedReads(Memory(), heap, a);
      ghost var home := ListOf(Split(heap.tags, a, need, false), heap.Epilogue(), a + need);
      RestHome(heap.tags, heap.Epilogue(), a, need);
      SplitAccess(Memory(), heap, a, need, home);
      if cameFromWilderness { WildernessReplaced(Memory(), heap, a, need); }
      var rest, leftOver := WriteParts(a, need);
      if cameFromWilderness {
        ReplaceNode(a, rest);
      } else {
        Unlink(a);
        var insertIndex := ComputeMemoryIndex(leftOver);
        PushFront(insertIndex, rest);
      }
    }

    /** Headers of both parts and the footer of the remainder. */
    method WriteParts(a: int, need: int) returns (rest: int, leftOver: int)
      requires Running() && a in heap.tags && !heap.tags[a].alloc
      requires need >= MIN_BLOCK && need % 16 == 0 && heap.tags[a].size - need >= MIN_BLOCK
      modifies words
      ensures rest == a + need && leftOver == heap.tags[a].size - need
      ensures Memory() == SplitTagWords(old(Memory()), heap.tags, a, need, false)
    {
      hide Inv, Represents, Memory, Load, Accessible;
      PlacedReads(Memory(), heap, a);
      SplitAccess(Memory(), heap, a, need, 0);
      leftOver := SizeOf(Load(a)) - need;
      var inherit := PrevBit(Load(a));
      Store(a, need + 1);
      Store(a, Load(a) + inherit);
      rest := a + need;
      Store(rest, leftOver + 2);
      Store(rest + leftOver - 8, Load(rest));
    }

    /** `rest` takes the place of the wilderness `a` in the last list. */
    method ReplaceNode(a: int, rest: int)
      requires Bounded() && Accessible(heap, a + 8) && Accessible(heap, a + 16) && Accessible(heap, rest + 8)
      requires Accessible(heap, rest + 16)
      requires PrevOf(Memory(), a) == Head(WILDERNESS) && NextOf(Memory(), a) == Head(WILDERNESS)
      modifies words
      ensures Memory() == OnlyNode(old(Memory()), Head(WILDERNESS), rest)
    {
      hide Inv, Memory, Load;
      var prev := Load(a + 16);
      var next := Load(a + 8);
      Store(prev + 8, rest);
      Store(next + 16, rest);
      Store(rest + 16, prev);
      Store(rest + 8, next);
    }

    lemma RestHome(tags: Tags, epi: int, a: int, need: int)
      requires a in tags && need != 0
      ensures var t := Split(tags, a, need, false); a + need in t && ListOf(t, epi, a + need) <= 7
      ensures ListOf(Split(tags, a, need, false), epi, a + need) ==
                if ListOf(tags, epi, a) == WILDERNESS then WILDERNESS else ClassIndex(tags[a].size - need)
    {
    }

    /** Handing out block `a`: the end of sf_malloc. */
    method Place(a: int, need: int, cameFromWilderness: bool)
      requires Running() && Fits(heap.tags, a, need) && need >= MIN_BLOCK && need % 16 == 0
      requires cameFromWilderness <==> ListOf(heap.tags, heap.Epilogue(), a) == WILDERNESS
      modifies this`heap, words
      ensures Running() && heap == HeapAllocation.Placed(old(heap), a, need)
      ensures LiveKept(old(Memory()), Memory(), LiveBlocks(old(heap)))
    {
      hide Inv, Represents, Memory, Load, TakenWords, SplitWords, HeapAllocation.Placed, LiveKept, LiveBlocks;
      PlacedStep(Memory(), heap, a, need);
      PlacedReads(Memory(), heap, a);
      if SizeOf(Load(a)) - need < 32 {
        TakeWhole(a);
      } else {
        TakePart(a, need, cameFromWilderness);
      }
      heap := HeapAllocation.Placed(heap, a, need);
    }

    /** Pages until the wilderness holds `need` bytes. */
    method GrowTo(need: int) returns (ok: bool)
      requires Running() && WildernessSize(heap) < need
      modifies this`end, this`errno, this`heap, words
      ensures Running() && (heap, ok) == Grown(old(heap), need, Limit())
      ensures errno == if ok then old(errno) else ENOMEM
      ensures LiveKept(old(Memory()), Memory(), LiveBlocks(old(heap)))
    {
      hide Inv, Represents, Memory, Load, Grown, Extended, LiveBlocks, LiveKept, WildernessSize;
      ghost var h, live := heap, LiveBlocks(heap);
      ghost var m := Memory();
      GrownStep(heap, need, Limit());
      WildernessNotNegative(heap);
      ok := Extend();
      if !ok {
        return;
      }
      ExtendedReads(Memory(), heap);
      WildernessNotNegative(heap);
      var wilderness := Load(Head(7) + 8);
      var blockSize := SizeOf(Load(wilderness));
      while need > blockSize
        invariant Running() && errno == old(errno) && ok
        invariant Grown(h, need, Limit()) == if WildernessSize(heap) >= need then (heap, true)
                  else Grown(heap, need, Limit())
        invariant blockSize == WildernessSize(heap)
        invariant LiveBlocks(heap) == live && LiveKept(m, Memory(), live)
        decreases need - blockSize
      {
        GrownStep(heap, need, Limit());
        WildernessNotNegative(heap);
        ghost var before := Memory();
        ok := Extend();
        LiveKeptTrans(m, before, Memory(), live, live);
        if !ok {
          return;
        }
        ExtendedReads(Memory(), heap);
        WildernessNotNegative(heap);
        wilderness := Load(Head(7) + 8);
        blockSize := SizeOf(Load(wilderness));
      }
    }

    method MallocRunning(size: int) returns (ptr: int)
      requires Running() && Request(size) && size > 0
      modifies this`end, this`errno, this`heap, words
      ensures Running()
      ensures Outcome(heap, ptr) == HeapAllocation.Malloc(old(heap), Limit(), size)
      ensures errno == if ptr == 0 then ENOMEM else old(errno)
      ensures LiveKept(old(Memory()), Memory(), LiveBlocks(old(heap)))
    {
      hide Inv, Represents, Memory, Load, LiveKept, FirstFit, Grown, HeapAllocation.Placed, HeapAllocation.Malloc,
        Adjusted, LiveBlocks, WildernessSize;
      ghost var m, live := Memory(), LiveBlocks(heap);
      MallocOutcome(heap, Limit(), size);
      GrownKeepsLive(heap, Adjusted(size), Limit());
      KeptItself(m, live);
      var adjustedSize := AdjustSize(size);
      var found, cameFromWilderness := Search(adjustedSize);
      if found == 0 {
        var ok := GrowTo(adjustedSize);
        if !ok {
          return 0;
        }
        WildernessHead(Memory(), heap);
        found, cameFromWilderness := Load(Head(7) + 8), true;
      }
      ghost var grown := Memory();
      Place(found, adjustedSize, cameFromWilderness);
      LiveKeptTrans(m, grown, Memory(), live, live);
      return found + 8;
    }

    lemma GrownKeepsLive(h: Heap, need: int, limit: int)
      requires Inv(h)
      ensures WildernessSize(h) < need ==> LiveBlocks(Grown(h, need, limit).0) == LiveBlocks(h)
    {
      if WildernessSize(h) < need { GrownIsLeast(h, need, limit); }
    }

    /**
     * sf_malloc. A successful call returns the payload address of the block that first fit over
     * the segregated lists, or growth by the least number of pages, provides.
     */
    method Malloc(size: int) returns (ptr: int)
      requires Valid() && Request(size)
      modifies this`end, this`errno, this`heap, words
      ensures Running()
      ensures Outcome(heap, ptr) == HeapAllocation.Malloc(Started(old(heap)), Limit(), size)
      ensures errno == if size > 0 && ptr == 0 then ENOMEM else old(errno)
      ensures LiveKept(old(Memory()), Memory(), LiveBlocks(old(heap)))
    {
      hide Inv, Represents, Memory, LiveKept, LiveBlocks, HeapAllocation.Malloc, Initial, Blank;
      StartedRunning();
      KeptItself(Memory(), LiveBlocks(heap));
      if end == start {
        Initialize();
      }
      KeptNothing(old(Memory()), Memory());
      MallocNothing(heap, Limit());
      if size <= 0 {
        return 0;
      }
      ptr := MallocRunning(size);
      KeptNothing(old(Memory()), Memory());
    }

    lemma MallocNothing(h: Heap, limit: int)
      requires Inv(h)
      ensures HeapAllocation.Malloc(h, limit, 0) == Outcome(h, 0)
    {
    }

    lemma KeptNothing(m: Mem, n: Mem)
      ensures LiveKept(m, n, map[])
    {
    }

    method AdjustSize(size: int) returns (adjustedSize: int)
      requires Request(size) && size > 0
      ensures adjustedSize == Adjusted(size)
    {
      if size <= 24 {
        adjustedSize := 32;
      } else {
        adjustedSize := ComputeMemorySize(size + 8);
      }
    }

    /** Before the first call nothing is live; afterwards the heap has at least one page. */
    lemma StartedRunning()
      requires Valid()
      ensures if end == start then heap == Blank(start) && LiveBlocks(heap) == map[]
              else Running() && Started(heap) == heap
      ensures Running() ==> end > start
      ensures Started(heap).end <= Limit()
    {
      if Inv(heap) { assert start + 40 < end - 8; }
      InitialInv(start);
    }

    // ---- sf_realloc ----

    /** memcpy between payloads, a word at a time. */
    method CopyPayload(from: int, to: int, length: int)
      requires Running() && Live(heap, from - 8) && Live(heap, to - 8) && from != to
      requires 0 <= length <= heap.tags[from - 8].size - 8 && length <= heap.tags[to - 8].size - 8 && length % 8 == 0
      modifies words
      ensures Running() && Copied(old(Memory()), from, Memory(), to, length)
      ensures LiveKept(old(Memory()), Memory(), LiveBlocks(heap) - {to - 8})
    {
      hide Inv, Represents, Memory, Load, Accessible, LiveKept, LiveBlocks, Copied, Live;
      ghost var m := Memory();
      KeptItself(m, LiveBlocks(heap) - {to - 8});
      NothingCopied(m, from, m, to);
      var k := 0;
      while k < length
        invariant 0 <= k && k % 8 == 0 && k <= length && Running()
        invariant LiveKept(m, Memory(), LiveBlocks(heap) - {to - 8}) && Copied(m, from, Memory(), to, k)
      {
        CopyStep(m, Memory(), heap, from - 8, to - 8, k, length);
        Store(to + k, Load(from + k));
        k := k + 8;
      }
    }

    lemma NothingCopied(m: Mem, from: int, n: Mem, to: int)
      ensures Copied(m, from, n, to, 0)
    {
    }

    /** The tail of a live block is cut off and freed. */
    method Trim(p: int, need: int, pal: int)
      requires Running() && Live(heap, p) && pal == (if heap.tags[p].pal then 2 else 0)
      requires need >= MIN_BLOCK && need % 16 == 0 && heap.tags[p].size - need >= MIN_BLOCK
      modifies this`heap, words
      ensures Running() && heap == Trimmed(old(heap), p, need)
      ensures LiveKept(old(Memory()), Memory(), LiveBlocks(old(heap)) - {p})
      ensures PayloadKept(old(Memory()), Memory(), p, need)
    {
      hide Inv, Represents, Memory, Load, Accessible, LiveKept, PayloadKept, LiveBlocks, Freed, Split;
      ghost var m, h := Memory(), heap;
      CutStep(m, heap, p, need);
      LiveShape(heap, p);
      var next := p + need;
      var diff := SizeOf(Load(p)) - need;
      Store(p, need + 1);
      Store(p, Load(p) + pal);
      Store(next, diff + 1);
      Store(next, SetPrev(Load(next)));
      heap := Cut(heap, p, need);
      TrimWords(m, h.tags, p, need);
      ghost var middle := Memory();
      var aborted := Free(next + 8);
      TrimKept(h, m, middle, Memory(), p, need);
    }

    lemma TrimWords(m: Mem, tags: Tags, p: int, need: int)
      requires p in tags && tags[p].size % 16 == 0 && need % 16 == 0 && need >= MIN_BLOCK
      ensures var diff, pal := tags[p].size - need, if tags[p].pal then 2 else 0;
              m[p := need + 1][p := need + 1 + pal][p + need := diff + 1][p + need := SetPrev(diff + 1)] ==
                SplitTagWords(m, tags, p, need, true)
    {
      Sixteens(tags[p].size, need);
      var diff := tags[p].size - need;
      PackUnpack(Tag(diff, false, true));
      assert SetPrev(diff + 1) == diff + 3;
      hide SetPrev;
    }

    lemma TrimKept(h: Heap, m: Mem, middle: Mem, n: Mem, p: int, need: int)
      requires Inv(h) && Live(h, p) && need >= MIN_BLOCK && need % 16 == 0 && h.tags[p].size - need >= MIN_BLOCK
      requires LiveKept(m, middle, LiveBlocks(h) - {p}) && PayloadKept(m, middle, p, need)
      requires LiveKept(middle, n, LiveBlocks(Cut(h, p, need)) - {p + need})
      ensures LiveKept(m, n, LiveBlocks(h) - {p}) && PayloadKept(m, n, p, need)
    {
      hide Inv;
      CutCorrect(h, p, need);
      var live := LiveBlocks(Cut(h, p, need)) - {p + need};
      assert p + need !in LiveBlocks(h);
      LiveKeptTrans(m, middle, n, LiveBlocks(h) - {p}, live);
      assert PayloadKept(middle, n, p, live[p]);
    }

    /** The request is larger than the block: a new block is filled from the old one, which is freed. */
    method Move(ptr: int, length: int, size: int) returns (moved: int)
      requires Running() && Live(heap, ptr - 8) && length == heap.tags[ptr - 8].size
      requires Request(size) && size > 0 && Adjusted(size) > length
      modifies this`end, this`errno, this`heap, words
      ensures Running() && Reallocated(old(heap), Limit(), ptr - 8, size, heap, moved)
      ensures errno == if moved == 0 then ENOMEM else old(errno)
      ensures moved == 0 ==> LiveKept(old(Memory()), Memory(), LiveBlocks(old(heap)))
      ensures LiveKept(old(Memory()), Memory(), LiveBlocks(old(heap)) - {ptr - 8})
      ensures moved != 0 ==> Copied(old(Memory()), ptr, Memory(), moved, length - 8)
    {
      hide Inv, Represents, Memory, Load, Accessible, LiveKept, PayloadKept, LiveBlocks, Freed, Copied,
        HeapAllocation.Malloc, HeapOperations.Realloc, NewBlock, Adjusted;
      ghost var h, m, p := heap, Memory(), ptr - 8;
      ghost var live := LiveBlocks(heap);
      InLive(h, p);
      MovePlan(heap, Limit(), p, size);
      moved := MallocRunning(size);
      ghost var g, grown := heap, Memory();
      if moved == 0 {
        KeptWithout(m, grown, live, p);
        return;
      }
      FillAndFree(ptr, moved, length);
      MovedKept(m, grown, Memory(), live, LiveBlocks(g), p, moved - 8, length);
    }

    /** The payload is copied to the new block and the old block is freed. */
    method FillAndFree(ptr: int, moved: int, length: int)
      requires Running() && Live(heap, ptr - 8) && Live(heap, moved - 8) && ptr != moved
      requires length == heap.tags[ptr - 8].size <= heap.tags[moved - 8].size
      modifies this`heap, words
      ensures Running() && heap == Freed(old(heap), ptr - 8)
      ensures LiveKept(old(Memory()), Memory(), LiveBlocks(old(heap)) - {ptr - 8, moved - 8})
      ensures Copied(old(Memory()), ptr, Memory(), moved, length - 8)
    {
      hide Inv, Represents, Memory, LiveKept, LiveBlocks, Copied, Freed;
      ghost var m, live, p, q := Memory(), LiveBlocks(heap), ptr - 8, moved - 8;
      FillFacts(heap, p, q);
      CopyPayload(ptr, moved, length - 8);
      ghost var filled := Memory();
      var aborted := Free(ptr);
      FilledKept(m, filled, Memory(), live, p, q, length);
    }

    lemma FillFacts(h: Heap, p: int, q: int)
      requires Inv(h) && Live(h, p) && Live(h, q)
      ensures h.tags[p].size >= MIN_BLOCK && (h.tags[p].size - 8) % 8 == 0 && q % 8 == 0
      ensures q in LiveBlocks(h) && LiveBlocks(h)[q] == h.tags[q].size
    {
      hide Inv, LiveBlocks;
      LiveShape(h, p);
      LiveShape(h, q);
      Eights(h.tags[p].size, -8);
      Eights(q + 8, -8);
    }

    lemma FilledKept(m: Mem, filled: Mem, n: Mem, live: map<int, int>, p: int, q: int, length: int)
      requires LiveKept(m, filled, live - {q}) && LiveKept(filled, n, live - {p})
      requires Copied(m, p + 8, filled, q + 8, length - 8)
      requires q in live && p != q && live[q] >= length && q % 8 == 0
      ensures LiveKept(m, n, live - {p, q}) && Copied(m, p + 8, n, q + 8, length - 8)
    {
      hide LiveKept, Copied;
      assert live - {p, q} == live - {q} - {p};
      KeptWithout(m, filled, live - {q}, p);
      LiveKeptTrans(m, filled, n, live - {p, q}, live - {p});
      CopiedThenKept(m, p + 8, filled, q + 8, length - 8, n, live - {p});
    }

    lemma InLive(h: Heap, p: int)
      requires Inv(h) && Live(h, p)
      ensures p in LiveBlocks(h) && LiveBlocks(h)[p] == h.tags[p].size && p % 8 == 0
    {
      LiveShape(h, p);
      Eights(p + 8, -8);
    }

    lemma KeptWithout(m: Mem, n: Mem, live: map<int, int>, p: int)
      requires LiveKept(m, n, live)
      ensures LiveKept(m, n, live - {p})
    {
    }

    lemma MovePlan(h: Heap, limit: int, p: int, size: int)
      requires Inv(h) && Live(h, p) && Request(size) && size > 0 && h.end <= limit && Adjusted(size) > h.tags[p].size
      ensures var r := HeapAllocation.Malloc(h, limit, size);
              && Inv(r.heap) && Live(r.heap, p) && r.heap.tags[p].size == h.tags[p].size && h.tags[p].size % 16 == 0 &&
                 p in LiveBlocks(h)
              && (r.ptr != 0 ==>
                    && Live(r.heap, r.ptr - 8) && r.ptr - 8 != p && r.ptr % 8 == 0 &&
                       r.heap.tags[r.ptr - 8].size >= h.tags[p].size
                    && LiveBlocks(r.heap) - {r.ptr - 8} == LiveBlocks(h))
      ensures var r := HeapAllocation.Malloc(h, limit, size);
              HeapOperations.Realloc(h, limit, p, size) == (if r.ptr == 0 then r else Outcome(Freed(r.heap, p), r.ptr))
    {
      hide Inv, HeapAllocation.Malloc, Freed, Adjusted;
      StillLive(h, limit, size, p);
      LiveShape(h, p);
      MallocCorrect(h, limit, size);
      hide MallocMeets;
      if HeapAllocation.Malloc(h, limit, size).ptr != 0 { FreshBlock(h, limit, size); }
    }

    lemma MovedKept(m: Mem, grown: Mem, n: Mem, live: map<int, int>, now: map<int, int>, p: int, q: int, length: int)
      requires p in live && length == live[p] && p != q && p % 8 == 0 && now - {q} == live
      requires LiveKept(m, grown, live) && LiveKept(grown, n, now - {p, q})
      requires Copied(grown, p + 8, n, q + 8, length - 8)
      ensures LiveKept(m, n, live - {p}) && Copied(m, p + 8, n, q + 8, length - 8)
    {
      hide LiveKept, Copied, PayloadKept;
      assert now - {p, q} == live - {p};
      KeptWithout(m, grown, live, p);
      LiveKeptTrans(m, grown, n, live - {p}, live - {p});
      CopiedFrom(m, grown, live, p, n, q + 8, length);
    }

    lemma CopiedFrom(m: Mem, grown: Mem, live: map<int, int>, p: int, n: Mem, to: int, length: int)
      requires LiveKept(m, grown, live) && p in live && live[p] == length && p % 8 == 0
      requires Copied(grown, p + 8, n, to, length - 8)
      ensures Copied(m, p + 8, n, to, length - 8)
    {
      assert PayloadKept(m, grown, p, length);
    }

    /**
     * sf_realloc. NULL and misaligned pointers are refused with EINVAL; for a live block none of the
     * checks fires. Whatever happens to the block, the first min(old payload, new size) bytes are
     * found at the returned address, and no other live payload changes. A request that fails leaves the
     * payload of the block itself as it was, too.
     */
    method Realloc(ptr: int, size: int) returns (moved: int)
      requires Valid() && Request(size)
      requires ptr != 0 && ptr % 16 == 0 ==> Running() && Live(heap, ptr - 8)
      modifies this`end, this`errno, this`heap, words
      ensures Valid()
      ensures ptr == 0 || ptr % 16 != 0 ==>
                moved == 0 && errno == EINVAL && heap == old(heap) && Memory() == old(Memory())
      ensures ptr != 0 && ptr % 16 == 0 ==>
                && Running() && Reallocated(old(heap), Limit(), ptr - 8, size, heap, moved)
                && errno == (if size > 0 && moved == 0 then ENOMEM else old(errno))
                && (size > 0 && moved == 0 ==> LiveKept(old(Memory()), Memory(), LiveBlocks(old(heap))))
                && LiveKept(old(Memory()), Memory(), LiveBlocks(old(heap)) - {ptr - 8})
                && Preserved(old(Memory()), old(heap), ptr, Memory(), moved, size)
    {
      if ptr == 0 || ptr % 16 != 0 {
        errno := EINVAL;
        return 0;
      }
      moved := ReallocLive(ptr, size);
    }

    method ReallocLive(ptr: int, size: int) returns (moved: int)
      requires Running() && Live(heap, ptr - 8) && ptr % 16 == 0 && Request(size)
      modifies this`end, this`errno, this`heap, words
      ensures Running() && Reallocated(old(heap), Limit(), ptr - 8, size, heap, moved)
      ensures errno == if size > 0 && moved == 0 then ENOMEM else old(errno)
      ensures size > 0 && moved == 0 ==> LiveKept(old(Memory()), Memory(), LiveBlocks(old(heap)))
      ensures LiveKept(old(Memory()), Memory(), LiveBlocks(old(heap)) - {ptr - 8})
      ensures Preserved(old(Memory()), old(heap), ptr, Memory(), moved, size)
    {
      hide Inv, Represents, Memory, LiveKept, LiveBlocks, Freed, Copied, HeapOperations.Realloc;
      ReallocByCase(heap, Limit(), ptr - 8, size);
      var ok := PassesChecks(ptr);
      errno := if ok then errno else EINVAL;
      if !ok {
        return 0;
      }
      if size == 0 {
        var aborted := Free(ptr);
        return 0;
      }
      moved := Resize(ptr, size);
    }

    /** The part of sf_realloc for a valid pointer and a size above 0. */
    method Resize(ptr: int, size: int) returns (moved: int)
      requires Running() && Live(heap, ptr - 8) && Request(size) && size > 0
      modifies this`end, this`errno, this`heap, words
      ensures Running() && Reallocated(old(heap), Limit(), ptr - 8, size, heap, moved)
      ensures errno == if moved == 0 then ENOMEM else old(errno)
      ensures moved == 0 ==> LiveKept(old(Memory()), Memory(), LiveBlocks(old(heap)))
      ensures LiveKept(old(Memory()), Memory(), LiveBlocks(old(heap)) - {ptr - 8})
      ensures Preserved(old(Memory()), old(heap), ptr, Memory(), moved, size)
    {
      hide Inv, Represents, Memory, Load, Accessible, LiveKept, PayloadKept, LiveBlocks, Freed, Copied,
        HeapOperations.Realloc, Trimmed, Adjusted;
      ghost var h, m := heap, Memory();
      var p := ptr - 8;
      LiveHeader(m, heap, p);
      ReallocByCase(heap, Limit(), p, size);
      KeptItself(m, LiveBlocks(heap) - {p});
      var length, pal := SizeOf(Load(p)), PrevBit(Load(p));
      ghost var kept := if length - 8 < size then length - 8 else size;
      var adjustedSize := AdjustSize(size);
      if adjustedSize > length {
        moved := Move(ptr, length, size);
        if moved != 0 { CopiedLess(m, ptr, Memory(), moved, length - 8, kept); }
      } else if length - adjustedSize < 32 {
        CopiedItself(m, ptr, kept);
        return ptr;
      } else {
        Trim(p, adjustedSize, pal);
        KeptIsCopied(m, Memory(), p, adjustedSize, kept);
        return ptr;
      }
    }

    lemma ReallocByCase(h: Heap, limit: int, p: int, size: int)
      requires Inv(h) && Live(h, p) && Request(size) && h.end <= limit
      ensures size == 0 ==> HeapOperations.Realloc(h, limit, p, size) == Outcome(Freed(h, p), 0)
      ensures var need, length := Adjusted(size), h.tags[p].size;
              size > 0 && need <= length ==>
                HeapOperations.Realloc(h, limit, p, size) ==
                  Outcome(if length - need < MIN_BLOCK then h else Trimmed(h, p, need), p + 8)
    {
      hide Inv, Freed, Trimmed;
    }

    lemma LiveHeader(m: Mem, h: Heap, p: int)
      requires Inv(h) && Represents(m, h) && Live(h, p)
      ensures Accessible(h, p) && Tells(Word(m, p), h.tags[p]) && p > 0 && p % 16 == 8
    {
      HeaderTells(m, h, p);
      KeyAccessible(h, p);
      LiveShape(h, p);
    }

    lemma CopiedLess(m: Mem, from: int, n: Mem, to: int, more: int, less: int)
      requires Copied(m, from, n, to, more) && less <= more
      ensures Copied(m, from, n, to, less)
    {
    }

    lemma CopiedItself(m: Mem, from: int, length: int)
      ensures Copied(m, from, m, from, length)
    {
    }

    // ---- sf_memalign ----

    /** The search for an aligned address, byte by byte; it always ends inside the block. */
    method FindAligned(ptr: int, align: int, blockLength: int) returns (moving: int)
      requires align > 0 && blockLength >= align + 40 && ptr % align != 0
      ensures moving == AlignedInside(ptr, align)
    {
      hide AlignedFrom;
      moving := ptr;
      ghost var found := AlignedInside(ptr, align);
      assert ptr + 24 <= found < ptr + 24 + align;
      for i := 0 to blockLength
        invariant moving == ptr + i && moving < found
      {
        moving := moving + 1;
        var diff := moving - (ptr - 8);
        if moving % align == 0 && diff >= 32 {
          return;
        }
      }
    }

    /** The aligned block reaches to the end of the large one: only the front is cut off and freed. */
    method CarveFront(p: int, q: int, ghost need: int)
      requires Running() && Live(heap, p) && Carvable(heap, p, q, need)
      requires heap.tags[p].size - (q - p) - need < MIN_BLOCK
      modifies this`heap, words
      ensures Running() && heap == Carved(old(heap), p, q, need)
      ensures LiveKept(old(Memory()), Memory(), LiveBlocks(old(heap)) - {p})
    {
      hide Inv, Represents, Memory, Load, Accessible, LiveKept, PayloadKept, LiveBlocks, Freed, Split, Cut,
        SplitTagWords;
      ghost var h, m := heap, Memory();
      LiveHeader(m, heap, p);
      LiveShape(heap, p);
      CutStep(m, h, p, q - p);
      CutWords(m, h.tags, p, q - p);
      var length, pal := SizeOf(Load(p)), PrevBit(Load(p));
      Store(p, q - p + pal);
      Store(p, SetAlloc(Load(p)));
      Store(q, length - (q - p) + 1);
      Store(q, SetPrev(Load(q)));
      heap := Cut(h, p, q - p);
      ghost var middle := Memory();
      var aborted := Free(p + 8);
      CutKept(m, middle, Memory(), h, p, q - p);
    }

    /** The aligned block is cut at both ends. */
    method CarveMiddle(p: int, q: int, need: int)
      requires Running() && Live(heap, p) && Carvable(heap, p, q, need)
      requires heap.tags[p].size - (q - p) - need >= MIN_BLOCK
      modifies this`heap, words
      ensures Running() && heap == Carved(old(heap), p, q, need)
      ensures LiveKept(old(Memory()), Memory(), LiveBlocks(old(heap)) - {p})
    {
      hide Inv, Represents, Memory, Load, Accessible, LiveKept, PayloadKept, LiveBlocks, Freed, Split, Cut,
        SplitTagWords;
      ghost var h, m := heap, Memory();
      LiveHeader(m, heap, p);
      LiveShape(heap, p);
      ghost var cut := Cut(h, p, q - p);
      CutTwice(m, SplitTagWords(m, h.tags, p, q - p, true), h, cut, p, q, need);
      CutBoth(h, p, q, need);
      WriteThree(p, q, need);
      var next := q + need;
      heap := Cut(cut, q, need);
      ghost var middle := Memory();
      var aborted := Free(p + 8);
      ghost var later := Memory();
      aborted := Free(next + 8);
      CutTwiceKept(m, middle, later, Memory(), h, p, q - p, need);
    }

    /** The three headers, in the order of the source. */
    method WriteThree(p: int, q: int, need: int)
      requires Running() && Live(heap, p) && Carvable(heap, p, q, need)
      requires heap.tags[p].size - (q - p) - need >= MIN_BLOCK
      requires Accessible(heap, q) && Accessible(heap, q + need)
      modifies words
      ensures q in Cut(heap, p, q - p).tags
      ensures Memory() == SplitTagWords(SplitTagWords(old(Memory()), heap.tags, p, q - p, true),
              Cut(heap, p, q - p).tags, q, need, true)
    {
      hide Inv, Represents, Memory, Load, Accessible, Cut, SplitTagWords;
      LiveHeader(Memory(), heap, p);
      LiveShape(heap, p);
      CutWordsTwice(Memory(), heap, p, q - p, need);
      var length, pal := SizeOf(Load(p)), PrevBit(Load(p));
      var next := q + need;
      Store(p, q - p + pal);
      Store(p, SetAlloc(Load(p)));
      Store(next, length - (q - p) - need + 1);
      Store(next, SetPrev(Load(next)));
      Store(q, need + 1);
      Store(q, SetPrev(Load(q)));
    }

    /** What remains of sf_memalign once a block with room for the alignment was found. */
    method Align(returned: int, size: int, align: int) returns (ptr: int)
      requires Running() && Live(heap, returned - 8) && returned % 16 == 0 && Request(size) && size >= 32
      requires align > 0 && IsPow2(align) && heap.tags[returned - 8].size % 16 == 0
      requires heap.tags[returned - 8].size >= size + align + 40
      modifies this`end, this`errno, this`heap, words
      ensures Running() && LiveKept(old(Memory()), Memory(), LiveBlocks(old(heap)) - {returned - 8})
      ensures returned % align == 0 ==>
              Reallocated(old(heap), Limit(), returned - 8, size, heap, ptr) && ptr == returned
      ensures returned % align != 0 ==>
                && ptr == AlignedInside(returned, align)
                && Carvable(old(heap), returned - 8, ptr - 8, Adjusted(size))
                && heap == Carved(old(heap), returned - 8, ptr - 8, Adjusted(size))
      ensures errno == old(errno)
    {
      hide Inv, Represents, Memory, Load, Accessible, LiveKept, LiveBlocks, AlignedInside, Adjusted, Carved, Preserved;
      var p := returned - 8;
      AlignedBlock(heap, returned, size, align);
      LiveHeader(Memory(), heap, p);
      if returned % align == 0 {
        StaysInPlace(heap, Limit(), p, size);
        ptr := Realloc(returned, size);
        return;
      }
      var blockLength := SizeOf(Load(p));
      ptr := FindAligned(returned, align, blockLength);
      LargeRequest(size);
      var actualSize := ComputeMemorySize(size + 8);
      if blockLength - (ptr - returned) - actualSize < 32 {
        CarveFront(p, ptr - 8, actualSize);
      } else {
        CarveMiddle(p, ptr - 8, actualSize);
      }
    }

    lemma LargeRequest(size: int)
      requires Request(size) && size >= 32
      ensures Roundable(size + 8) && Adjusted(size) == RoundUp(size + 8)
    {
    }

    lemma StaysInPlace(h: Heap, limit: int, p: int, size: int)
      requires Inv(h) && Live(h, p) && Request(size) && size > 0 && h.end <= limit && Adjusted(size) <= h.tags[p].size
      ensures HeapOperations.Realloc(h, limit, p, size).ptr == p + 8 && p + 8 != 0
    {
      LiveShape(h, p);
    }

    /**
     * sf_memalign. Bad arguments are refused with EINVAL; otherwise the new block is found, aligned
     * and trimmed as the heap value says, and no other live payload changes.
     */
    method Memalign(size: int, align: int) returns (ptr: int)
      requires Valid() && AlignRequest(size, align)
      modifies this`end, this`errno, this`heap, words
      ensures Valid()
      ensures size == 0 || BadArguments(size, align) ==>
                ptr == 0 && heap == old(heap) && Memory() == old(Memory()) &&
                  errno == (if size == 0 then old(errno) else EINVAL)
      ensures size != 0 && !BadArguments(size, align) ==>
                && Running() && MemAligned(Started(old(heap)), Limit(), size, align, heap, ptr)
                && errno == (if ptr == 0 then ENOMEM else old(errno))
                && LiveKept(old(Memory()), Memory(), LiveBlocks(old(heap)))
    {
      hide Inv, Represents, Memory, LiveKept, LiveBlocks, HeapAllocation.Malloc, Initial, Blank;
      if size == 0 {
        return 0;
      } else if size < 32 {
        errno := EINVAL;
        return 0;
      }
      var powerOf2 := PowerOf2(align);
      if !powerOf2 {
        errno := EINVAL;
        return 0;
      }
      ptr := AlignRunning(size, align);
    }

    method AlignRunning(size: int, align: int) returns (ptr: int)
      requires Valid() && AlignRequest(size, align) && size != 0 && !BadArguments(size, align)
      modifies this`end, this`errno, this`heap, words
      ensures Running() && MemAligned(Started(old(heap)), Limit(), size, align, heap, ptr)
      ensures errno == if ptr == 0 then ENOMEM else old(errno)
      ensures LiveKept(old(Memory()), Memory(), LiveBlocks(old(heap)))
    {
      hide Inv, Represents, Memory, LiveKept, LiveBlocks, HeapAllocation.Malloc, Initial, Blank, Carved, AlignedInside,
        Reallocated;
      StartedRunning();
      ghost var h, m, live := Started(heap), Memory(), LiveBlocks(heap);
      AlignPlan(h, Limit(), size, align);
      StartedLive(heap);
      var returned := Malloc(size + align + 32);
      if returned == 0 {
        errno := ENOMEM;
        return 0;
      }
      ghost var grown, large := Memory(), heap;
      ptr := Align(returned, size, align);
      AlignDone(h, Limit(), size, align, large, returned, heap, ptr);
      LiveKeptTrans(m, grown, Memory(), live, LiveBlocks(large) - {returned - 8});
    }

    lemma StartedLive(h: Heap)
      requires Inv(h) || (h == Blank(h.start) && h.start >= 0 && h.start % 16 == 0)
      ensures LiveBlocks(Started(h)) == LiveBlocks(h)
    {
      if h.end == h.start {
        InitialInv(h.start);
        if Inv(h) { KeyInHeap(h, h.First()); }
      }
    }

    lemma AlignPlan(h: Heap, limit: int, size: int, align: int)
      requires Inv(h) && AlignRequest(size, align) && h.end <= limit && size != 0 && !BadArguments(size, align)
      ensures align > 0
      ensures var r := HeapAllocation.Malloc(h, limit, size + align + 32);
              && (r.ptr == 0 ==> HeapAlignment.Memalign(h, limit, size, align) == r)
              && (r.ptr != 0 ==>
                    && Inv(r.heap) && Live(r.heap, r.ptr - 8) && r.heap.end <= limit && r.ptr % 16 == 0
                    && r.heap.tags[r.ptr - 8].size >= size + align + 40 && r.heap.tags[r.ptr - 8].size % 16 == 0
                    && LiveBlocks(r.heap) - {r.ptr - 8} == LiveBlocks(h))
    {
      hide Inv, HeapAllocation.Malloc, LiveBlocks;
      AlignPositive(align);
      if HeapAllocation.Malloc(h, limit, size + align + 32).ptr != 0 { FreshBlock(h, limit, size + align + 32); }
    }

    lemma AlignDone(h: Heap, limit: int, size: int, align: int, large: Heap, returned: int, g: Heap, ptr: int)
      requires Inv(h) && AlignRequest(size, align) && h.end <= limit && size != 0 && !BadArguments(size, align)
      requires align > 0
      requires Outcome(large, returned) == HeapAllocation.Malloc(h, limit, size + align + 32) && returned != 0
      requires returned % align == 0 ==> Reallocated(large, limit, returned - 8, size, g, ptr) && ptr == returned
      requires returned % align != 0 ==>
                 && Inv(large) && Live(large, returned - 8) && ptr == AlignedInside(returned, align)
                 && Carvable(large, returned - 8, ptr - 8, Adjusted(size)) &&
                    g == Carved(large, returned - 8, ptr - 8, Adjusted(size))
      ensures MemAligned(h, limit, size, align, g, ptr) && ptr != 0
    {
      hide Inv, HeapAllocation.Malloc, Carved, AlignedInside, HeapOperations.Realloc;
      MallocCorrect(h, limit, size + align + 32);
      FreshBlock(h, limit, size + align + 32);
      AlignedBlock(large, returned, size, align);
      AlignedAbove(returned, align);
    }

    lemma AlignedAbove(ptr: int, align: int)
      requires align > 0
      ensures AlignedInside(ptr, align) >= ptr + 24
    {
    }
  }
}
