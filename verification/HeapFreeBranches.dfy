/**
 * The branches of sf_free (hw3/src/sfmm.c): by the state of the two neighbours and by whether the
 * freed region reaches the epilogue, each writes the words that coalescing in general calls for.
 */
module HeapFreeBranches {
  import opened HeapTags
  import opened HeapModel
  import opened HeapAllocation
  import opened HeapOperations
  import opened HeapMemory
  import opened HeapRefinement
  import opened HeapGrowthWords

  /** Header of the block that freeing `p` leaves. */
  function NewHeader(h: Heap, p: int): int
    requires Inv(h) && Live(h, p)
  {
    Pack(Tag(High(h, p) - Low(h, p), h.tags[Low(h, p)].pal, false))
  }

  /** The list the merged block goes to. */
  function NewHome(h: Heap, p: int): nat
    requires Inv(h) && Live(h, p)
  {
    if High(h, p) == h.Epilogue() then WILDERNESS else ClassIndex(High(h, p) - Low(h, p))
  }

  lemma NewHomeIsListOf(h: Heap, p: int)
    requires Inv(h) && Live(h, p)
    ensures NewHome(h, p) == ListOf(Freed(h, p).tags, h.Epilogue(), Low(h, p))
  {
    FreedRegion(h, p);
  }

  /** Low and High from the bits the source looks at. */
  lemma RegionFromBits(h: Heap, p: int)
    requires Inv(h) && Live(h, p)
    ensures var n := Next(h.tags, p);
            && n in h.tags && n <= h.Epilogue() && (h.tags[n].size == 0 <==> n == h.Epilogue()) &&
               h.tags[n].size >= 0 && h.tags[n].size % 16 == 0
            && (h.tags[p].pal ==> Low(h, p) == p)
            && (!h.tags[p].pal ==> Low(h, p) < p && Next(h.tags, Low(h, p)) == p && !h.tags[Low(h, p)].alloc)
            && (h.tags[n].alloc ==> High(h, p) == n)
            && (!h.tags[n].alloc ==>
               n != h.Epilogue() && High(h, p) == Next(h.tags, n) && High(h, p) in h.tags && !h.tags[High(h, p)].pal)
            && h.tags[High(h, p)].alloc && (h.tags[High(h, p)].size == 0 <==> High(h, p) == h.Epilogue())
            && h.tags[High(h, p)].size % 16 == 0 && High(h, p) <= h.Epilogue()
  {
    FreedRegion(h, p);
    assert BlockShape(h.tags, h.First(), h.Epilogue(), p);
    assert BlockShape(h.tags, h.First(), h.Epilogue(), Next(h.tags, p));
    assert BlockShape(h.tags, h.First(), h.Epilogue(), High(h, p));
    var n := Next(h.tags, p);
    if !h.tags[n].alloc { assert Next(h.tags, n) == High(h, p); }
  }

  /** The general write sequence with the branch conditions resolved. */
  lemma WordsByBits(m: Mem, h: Heap, p: int)
    requires Inv(h) && Live(h, p)
    ensures var lo, hi, n, v := Low(h, p), High(h, p), Next(h.tags, p), NewHeader(h, p);
            && n in h.tags
            && FreedWords(m, h, p) ==
                 (var m1 := m[lo := v][hi - 8 := v];
                  var m2 := if h.tags[p].pal then m1 else Unlinked(m1, lo);
                  var m3 := if h.tags[n].alloc then m2 else Unlinked(m2, n);
                  PushedFront(m3, Head(NewHome(h, p)), lo)[hi := Pack(h.tags[hi].(pal := false))])
  {
    hide Inv, PushedFront, Unlinked, Low, High, NewHome;
    FreedRegion(h, p);
    RegionFromBits(h, p);
    NewHomeIsListOf(h, p);
  }

  /**
   * When the region reaches the epilogue, the source overwrites the wilderness list instead of
   * unlinking the old wilderness: the words come out the same.
   */
  lemma OverwritingUnlinks(m: Mem, n: int, d: int, p: int)
    requires NextOf(m, n) == d && PrevOf(m, n) == d && IsNode(d) && !IsBlock(d) && IsBlock(p)
    ensures PushedFront(Unlinked(m, n), d, p) == OnlyNode(m, d, p)
  {
    var u := Unlinked(m, n);
    assert u == m[d + 8 := d][d + 16 := d];
    assert NextOf(u, d) == d;
  }

  /** The wilderness is linked to its dummy only. */
  lemma WildernessLinks(m: Mem, h: Heap, n: int, lists: seq<seq<int>>)
    requires Inv(h) && Linked(m, lists) && n in h.tags && !h.tags[n].alloc && Next(h.tags, n) == h.Epilogue()
    requires lists[WILDERNESS] == h.lists[WILDERNESS]
    ensures NextOf(m, n) == Head(WILDERNESS) && PrevOf(m, n) == Head(WILDERNESS) && h.lists[WILDERNESS] == [n]
  {
    FreeIsListed(h, n);
    WildernessIsLast(h);
    assert h.lists[WILDERNESS] == [n];
    assert Ring(m, Head(WILDERNESS), lists[WILDERNESS]);
    assert lists[WILDERNESS][0] == n;
  }

  /** Freeing the last block while the block before it is free: the wilderness list was empty. */
  lemma LastWithPrevious(m: Mem, h: Heap, p: int)
    requires Inv(h) && Live(h, p) && Represents(m, h) && !h.tags[p].pal && Next(h.tags, p) == h.Epilogue()
    ensures var lo, epi, v := Low(h, p), h.Epilogue(), NewHeader(h, p);
            FreedWords(m, h, p) == OnlyNode(Unlinked(m[lo := v][epi - 8 := v], lo), Head(WILDERNESS), lo)[epi := 1]
  {
    hide Inv, Low, High, FreedWords, PushedFront, OnlyNode, Unlinked, Represents, Linked, TagsStored;
    RegionFromBits(h, p);
    WordsByBits(m, h, p);
    BelowStep(m, h, p);
    EpilogueTag(h);
    NoWilderness(h, p);
    var lo, epi, v := Low(h, p), h.Epilogue(), NewHeader(h, p);
    var lists := Removed(h.lists, ListOf(h.tags, epi, lo), lo);
    OnlyIsPushed(Unlinked(m[lo := v][epi - 8 := v], lo), lists, WILDERNESS, lo);
  }

  lemma NoWilderness(h: Heap, p: int)
    requires Inv(h) && Live(h, p) && Next(h.tags, p) == h.Epilogue()
    ensures |h.lists| == 8 && h.lists[WILDERNESS] == []
  {
    WildernessIsLast(h);
  }

  lemma EpilogueTag(h: Heap)
    requires Inv(h)
    ensures h.Epilogue() in h.tags && h.tags[h.Epilogue()].size == 0 && h.tags[h.Epilogue()].alloc && |h.lists| == 8
  {
    assert BlockShape(h.tags, h.First(), h.Epilogue(), h.Epilogue());
  }

  /** Freeing next to the wilderness: its old list entry is overwritten. */
  lemma MergingWilderness(m: Mem, h: Heap, p: int)
    requires Inv(h) && Live(h, p) && Represents(m, h) && High(h, p) == h.Epilogue() && Next(h.tags, p) != h.Epilogue()
    ensures var lo, epi, v := Low(h, p), h.Epilogue(), NewHeader(h, p);
            var m1 := m[lo := v][epi - 8 := v];
            FreedWords(m, h, p) == OnlyNode(if lo == p then m1 else Unlinked(m1, lo), Head(WILDERNESS), lo)
  {
    RegionFromBits(h, p);
    WordsByBits(m, h, p);
    FreedRegion(h, p);
    HeadIsNode(WILDERNESS);
    hide Inv, Detached, Low, High, FreedWords, PushedFront, OnlyNode, Unlinked, TagsStored, Linked, HalfMerged, Removed;
    var lo, epi, n, v := Low(h, p), h.Epilogue(), Next(h.tags, p), NewHeader(h, p);
    var m1 := m[lo := v][epi - 8 := v];
    var m2 := if lo == p then m1 else Unlinked(m1, lo);
    BelowStep(m, h, p);
    WildernessLinks(m2, h, n, if lo == p then h.lists else Removed(h.lists, ListOf(h.tags, epi, lo), lo));
    OverwritingUnlinks(m2, n, Head(WILDERNESS), lo);
    EpilogueUntouched(m, h, p, m2);
  }

  lemma LowIsBlock(h: Heap, p: int)
    requires Inv(h) && Live(h, p) && h.start >= HEADS_END
    ensures IsBlock(Low(h, p))
  {
    assert BlockShape(h.tags, h.First(), h.Epilogue(), Low(h, p));
  }

  /** After the first of the two unlinkings. */
  lemma BelowStep(m: Mem, h: Heap, p: int)
    requires Inv(h) && Live(h, p) && Represents(m, h) && High(h, p) == h.Epilogue()
    ensures var lo, epi, v := Low(h, p), h.Epilogue(), NewHeader(h, p);
            var m1 := m[lo := v][epi - 8 := v];
            var m2, lists := if lo == p then m1 else Unlinked(m1, lo), if lo == p then h.lists
              else Removed(h.lists, ListOf(h.tags, epi, lo), lo);
            && Linked(m2, lists) && lists[WILDERNESS] == h.lists[WILDERNESS]
            && TagsStored(m2, HalfMerged(h.tags, lo, epi)) && IsBlock(lo)
  {
    hide Inv, Low, High, Linked, TagsStored, HalfMerged, LinksSafe, Unlinked;
    var lo, hi, epi := Low(h, p), High(h, p), h.Epilogue();
    EpilogueTag(h);
    LowIsBlock(h, p);
    RegionFromBits(h, p);
    FreedRegion(h, p);
    MergedTagsLinked(m, h, p);
    HalfMergedStored(m, h, p);
    if lo != p {
      HalfMergedLinksSafe(h, lo, hi);
      FreeIsListed(h, lo);
      UnlinkStep(MergedTags(m, h, p), HalfMerged(h.tags, lo, hi), h.lists, ListOf(h.tags, epi, lo), lo);
    }
  }

  lemma EpilogueUntouched(m: Mem, h: Heap, p: int, m2: Mem)
    requires Inv(h) && Live(h, p) && Represents(m, h) && High(h, p) == h.Epilogue() && Next(h.tags, p) != h.Epilogue()
    requires TagsStored(m2, HalfMerged(h.tags, Low(h, p), h.Epilogue())) && forall x :: x in m ==> x in m2
    ensures var lo := Low(h, p);
            OnlyNode(m2, Head(WILDERNESS), lo)[h.Epilogue() := Pack(h.tags[h.Epilogue()].(pal := false))] ==
              OnlyNode(m2, Head(WILDERNESS), lo)
  {
    var epi, lo := h.Epilogue(), Low(h, p);
    RegionFromBits(h, p);
    FreedRegion(h, p);
    assert BlockShape(h.tags, h.First(), epi, epi) && BlockShape(h.tags, h.First(), epi, lo);
    assert epi in HalfMerged(h.tags, lo, epi) && HalfMerged(h.tags, lo, epi)[epi] == h.tags[epi].(pal := false);
    assert epi in m2;
    var k := OnlyNode(m2, Head(WILDERNESS), lo);
    assert epi in k && k[epi] == Pack(h.tags[epi].(pal := false));
  }

  // ---- which words the branches may touch ----

  /** A dummy head, or a block of the heap. */
  ghost predicate NodeOf(h: Heap, z: int) {
    (IsNode(z) && !IsBlock(z)) || (IsBlock(z) && z in h.tags && z != h.Epilogue())
  }

  ghost predicate ListsOf(h: Heap, lists: seq<seq<int>>) {
    Disjoint(lists) && forall i, y :: 0 <= i < 8 && y in lists[i] ==> NodeOf(h, y)
  }

  lemma OwnLists(h: Heap)
    requires Inv(h) && h.start >= HEADS_END
    ensures ListsOf(h, h.lists)
  {
    ListsDisjoint(h);
    EpilogueTag(h);
  }

  lemma NeighboursAreNodes(m: Mem, h: Heap, lists: seq<seq<int>>, i: nat, p: int)
    requires ListsOf(h, lists) && Linked(m, lists) && i < 8 && p in lists[i]
    ensures NodeOf(h, PrevOf(m, p)) && NodeOf(h, NextOf(m, p))
    ensures ListsOf(h, Removed(lists, i, p)) && Linked(Unlinked(m, p), Removed(lists, i, p))
  {
    LinkedUnlinked(m, lists, i, p);
    RemovedDisjoint(lists, i, p);
  }

  lemma FirstIsNode(m: Mem, h: Heap, lists: seq<seq<int>>, i: nat)
    requires ListsOf(h, lists) && Linked(m, lists) && i < 8
    ensures NodeOf(h, NextOf(m, Head(i)))
  {
    HeadIsNode(i);
    assert Ring(m, Head(i), lists[i]);
    if lists[i] != [] { assert lists[i][0] in lists[i]; }
  }

  /** At each stage the links lead to dummies and blocks of the heap only. */
  lemma StagesAreLinked(m: Mem, h: Heap, p: int)
    requires Inv(h) && Live(h, p) && Represents(m, h)
    ensures var lo, n, v := Low(h, p), Next(h.tags, p), NewHeader(h, p);
            var m1 := m[lo := v][High(h, p) - 8 := v];
            var m2 := if h.tags[p].pal then m1 else Unlinked(m1, lo);
            && n in h.tags
            && (!h.tags[p].pal ==> NodeOf(h, PrevOf(m1, lo)) && NodeOf(h, NextOf(m1, lo)))
            && (!h.tags[n].alloc ==> NodeOf(h, PrevOf(m2, n)) && NodeOf(h, NextOf(m2, n)))
            && (forall i :: 0 <= i < 8 ==> NodeOf(h, NextOf(if h.tags[n].alloc then m2 else Unlinked(m2, n), Head(i))))
  {
    hide Inv, Low, High, Linked, Unlinked, ListsOf, NodeOf, Disjoint, TagsStored;
    var lo, n, epi := Low(h, p), Next(h.tags, p), h.Epilogue();
    RegionFromBits(h, p);
    FreedRegion(h, p);
    MergedTagsLinked(m, h, p);
    OwnLists(h);
    EpilogueTag(h);
    var lists, m2 := h.lists, MergedTags(m, h, p);
    if lo != p {
      FreeIsListed(h, lo);
      NeighboursAreNodes(m2, h, lists, ListOf(h.tags, epi, lo), lo);
      lists, m2 := Removed(lists, ListOf(h.tags, epi, lo), lo), Unlinked(m2, lo);
    }
    if !h.tags[n].alloc {
      NextStillListed(h, p);
      NeighboursAreNodes(m2, h, lists, ListOf(h.tags, epi, n), n);
      lists, m2 := Removed(lists, ListOf(h.tags, epi, n), n), Unlinked(m2, n);
    }
    forall i | 0 <= i < 8
      ensures NodeOf(h, NextOf(m2, Head(i)))
    {
      FirstIsNode(m2, h, lists, i);
    }
  }

  lemma NextStillListed(h: Heap, p: int)
    requires Inv(h) && Live(h, p) && h.start >= HEADS_END && Next(h.tags, p) in h.tags && !h.tags[Next(h.tags, p)].alloc
    ensures var lo, n, epi := Low(h, p), Next(h.tags, p), h.Epilogue();
            && ListOf(h.tags, epi, n) < 8 == |h.lists| && n in h.lists[ListOf(h.tags, epi, n)]
            && (lo != p ==> n in Removed(h.lists, ListOf(h.tags, epi, lo), lo)[ListOf(h.tags, epi, n)])
  {
    var lo, n, epi := Low(h, p), Next(h.tags, p), h.Epilogue();
    FreedRegion(h, p);
    FreeIsListed(h, n);
    ListsDisjoint(h);
    if lo != p { RemovedDisjoint(h.lists, ListOf(h.tags, epi, lo), lo); }
  }

  /** Headers, links and the words before headers lie within the heap. */
  lemma KeyInHeap(h: Heap, a: int)
    requires Inv(h) && a in h.tags
    ensures h.start + 40 <= a <= h.end - 8 && a % 16 == 8
    ensures a != h.Epilogue() ==> a + MIN_BLOCK <= h.Epilogue() && a + h.tags[a].size <= h.Epilogue()
  {
    assert BlockShape(h.tags, h.First(), h.Epilogue(), a);
    if a != h.Epilogue() { assert BlockShape(h.tags, h.First(), h.Epilogue(), Next(h.tags, a)); }
  }

  /** The source may touch this word: a dummy head's, or one of the heap's. */
  ghost predicate Accessible(h: Heap, a: int) {
    a % 8 == 0 && (0 <= a < HEADS_END || h.start <= a < h.end)
  }

  lemma KeyAccessible(h: Heap, a: int)
    requires Inv(h) && a in h.tags
    ensures Accessible(h, a) && Accessible(h, a - 8)
    ensures a != h.Epilogue() ==> Accessible(h, a + 8) && Accessible(h, a + 16)
  {
    KeyInHeap(h, a);
    hide Inv;
    Eights(a, -8);
    Eights(a, 8);
    Eights(a, 16);
  }

  lemma NodeAccessible(h: Heap, z: int)
    requires Inv(h) && NodeOf(h, z)
    ensures Accessible(h, z + 8) && Accessible(h, z + 16) && IsNode(z)
  {
    hide Inv;
    if z in h.tags {
      KeyInHeap(h, z);
      Eights(z, 8);
      Eights(z, 16);
    }
  }

  /** What a header word tells. */
  ghost predicate Tells(word: int, t: Tag) {
    && word == Pack(t) && SizeOf(word) == t.size
    && AllocBit(word) == (if t.alloc then 1 else 0) && PrevBit(word) == (if t.pal then 2 else 0)
  }

  lemma HeaderTells(m: Mem, h: Heap, a: int)
    requires Inv(h) && TagsStored(m, h.tags) && a in h.tags
    ensures Tells(Word(m, a), h.tags[a])
    ensures !h.tags[a].alloc ==> Tells(Word(m, Next(h.tags, a) - 8), h.tags[a])
  {
    assert BlockShape(h.tags, h.First(), h.Epilogue(), a);
    PackUnpack(h.tags[a]);
  }

  /** What sf_free reads about the block before, and where it writes. */
  lemma PreviousReads(m: Mem, h: Heap, p: int)
    requires Inv(h) && Live(h, p) && Represents(m, h)
    ensures var lo := Low(h, p);
            && Accessible(h, lo) && Accessible(h, lo + 8) && Accessible(h, lo + 16) && IsBlock(lo) &&
               Accessible(h, High(h, p) - 8) && Accessible(h, High(h, p))
            && Accessible(h, p) && Accessible(h, p - 8) && Tells(Word(m, p), h.tags[p])
            && (!h.tags[p].pal ==>
               lo == p - SizeOf(Word(m, p - 8)) && AllocBit(Word(m, lo)) == 0 && Tells(Word(m, lo), h.tags[lo]))
            && (h.tags[p].pal ==> lo == p)
            && NewHeader(h, p) == High(h, p) - lo + PrevBit(Word(m, lo))
  {
    hide Inv, Low, High;
    var lo := Low(h, p);
    RegionFromBits(h, p);
    LowIsBlock(h, p);
    FreedRegion(h, p);
    EpilogueTag(h);
    KeyAccessible(h, lo);
    KeyAccessible(h, p);
    KeyAccessible(h, High(h, p));
    HeaderTells(m, h, p);
    HeaderTells(m, h, lo);
  }

  /** What it reads about the block after. */
  lemma NextReads(m: Mem, h: Heap, p: int)
    requires Inv(h) && Live(h, p) && Represents(m, h)
    ensures var n, hi := Next(h.tags, p), High(h, p);
            && n in h.tags && Accessible(h, n) && Tells(Word(m, n), h.tags[n]) && Tells(Word(m, hi), h.tags[hi])
            && (h.tags[n].alloc ==> hi == n)
            && (!h.tags[n].alloc ==>
               hi == n + h.tags[n].size && Accessible(h, n + 8) && Accessible(h, n + 16) && h.tags[n].size > 0)
            && (h.tags[n].size == 0 <==> n == h.Epilogue()) && (h.tags[hi].size == 0 <==> hi == h.Epilogue())
            && h.tags[hi].alloc && (!h.tags[n].alloc ==> !h.tags[hi].pal)
            && n <= h.Epilogue()
  {
    hide Inv, Low, High;
    RegionFromBits(h, p);
    EpilogueTag(h);
    KeyAccessible(h, Next(h.tags, p));
    HeaderTells(m, h, Next(h.tags, p));
    HeaderTells(m, h, High(h, p));
    if !h.tags[Next(h.tags, p)].alloc { FreeHasNext(h, Next(h.tags, p)); }
  }

  /** Before each surgery the words it writes are accessible. */
  lemma StagesAccessible(m: Mem, h: Heap, p: int)
    requires Inv(h) && Live(h, p) && Represents(m, h)
    ensures var lo, n, v := Low(h, p), Next(h.tags, p), NewHeader(h, p);
            var m1 := m[lo := v][High(h, p) - 8 := v];
            var m2 := if h.tags[p].pal then m1 else Unlinked(m1, lo);
            var m3 := if h.tags[n].alloc then m2 else Unlinked(m2, n);
            && (!h.tags[p].pal ==> Accessible(h, PrevOf(m1, lo) + 8) && Accessible(h, NextOf(m1, lo) + 16))
            && (!h.tags[n].alloc ==> Accessible(h, PrevOf(m2, n) + 8) && Accessible(h, NextOf(m2, n) + 16))
            && (var d := Head(NewHome(h, p)); Accessible(h, NextOf(m3, d) + 16) && IsNode(NextOf(m3, d)))
  {
    hide Inv, Low, High, Unlinked, NodeOf, Accessible;
    StagesAreLinked(m, h, p);
    forall z | NodeOf(h, z)
      ensures Accessible(h, z + 8) && Accessible(h, z + 16) && IsNode(z)
    {
      NodeAccessible(h, z);
    }
  }

  /** The payloads of the given blocks, with their block lengths, are the same in both memories. */
  ghost predicate LiveKept(m: Mem, n: Mem, live: map<int, int>) {
    forall b :: b in live ==> PayloadKept(m, n, b, live[b])
  }

  lemma LiveKeptTrans(m: Mem, n: Mem, k: Mem, first: map<int, int>, second: map<int, int>)
    requires LiveKept(m, n, first) && LiveKept(n, k, second)
    requires forall b :: b in first ==> b in second && second[b] >= first[b]
    ensures LiveKept(m, k, first)
  {
    forall b, x | b in first && b < x < b + first[b] && x % 8 == 0
      ensures Word(k, x) == Word(m, x)
    {
      assert PayloadKept(n, k, b, second[b]);
    }
  }

  /** The freeing step in full: the new heap value, and every other live payload untouched. */
  lemma FreedStep(m: Mem, h: Heap, p: int)
    requires Inv(h) && Live(h, p) && Represents(m, h)
    ensures Inv(Freed(h, p)) && Represents(FreedWords(m, h, p), Freed(h, p))
    ensures LiveKept(m, FreedWords(m, h, p), LiveBlocks(h) - {p})
    ensures Freed(h, p).start == h.start && Freed(h, p).end == h.end
    ensures LiveBlocks(Freed(h, p)) == LiveBlocks(h) - {p}
  {
    hide Inv, Represents, FreedWords;
    FreedCorrect(h, p);
    FreedRepresents(m, h, p);
    forall b | b in LiveBlocks(h) - {p}
      ensures PayloadKept(m, FreedWords(m, h, p), b, LiveBlocks(h)[b])
    {
      FreedSpares(m, h, p, b);
    }
  }

  /** The validity checks of sf_free and sf_realloc pass for every live block. */
  lemma LivePassesChecks(m: Mem, h: Heap, p: int)
    requires Inv(h) && Live(h, p) && Represents(m, h)
    ensures p + 8 > 0 && (p + 8) % 16 == 0 && h.tags[p].size % 16 == 0 && h.tags[p].size >= MIN_BLOCK
    ensures h.start + 40 <= p < h.end - 8 && h.start + 40 <= Next(h.tags, p) <= h.end - 8
  {
    KeyInHeap(h, p);
    LiveShape(h, p);
  }

  // ---- growth ----

  /** One page more in full, with what the code reads on the way. */
  lemma ExtendedStep(m: Mem, h: Heap)
    requires Inv(h) && Represents(m, h) && Mapped(m, h.end + PAGE_SIZE)
    ensures var g := Extended(h);
            Inv(g) && Represents(ExtendedWords(m, h), g) && g.start == h.start && g.end == h.end + PAGE_SIZE
    ensures LiveKept(m, ExtendedWords(m, h), LiveBlocks(h)) && LiveBlocks(Extended(h)) == LiveBlocks(h)
  {
    hide Inv, Represents, ExtendedWords;
    ExtendedCorrect(h);
    ExtendedSpan(h);
    ExtendedRepresents(m, h);
    forall b | b in LiveBlocks(h)
      ensures PayloadKept(m, ExtendedWords(m, h), b, LiveBlocks(h)[b])
    {
      ExtendedSpares(m, h, b);
    }
  }

  lemma ExtendedReads(m: Mem, h: Heap)
    requires Inv(h) && Represents(m, h)
    ensures |h.lists| == 8
    ensures var w, l := NextOf(m, Head(WILDERNESS)), h.lists[WILDERNESS];
            && h.start <= h.end - 8 && h.end % 8 == 0 && h.start >= HEADS_END && IsBlock(h.end - 8)
            && (l == [] ==>
               w == Head(WILDERNESS) &&
               ExtendedWords(m, h) == OnlyNode(LastBlock(m, h.end - 8, Tag(PAGE_SIZE, true, false)), Head(WILDERNESS),
               h.end - 8))
            && (l != [] ==>
                  && IsBlock(w) && w in h.tags && Accessible(h, w) && Tells(Word(m, w), h.tags[w]) &&
                     h.tags[w].size % 16 == 0 && h.tags[w].size >= MIN_BLOCK
                  && w + h.tags[w].size == h.end - 8 && !h.tags[w].alloc && WildernessSize(h) == h.tags[w].size
                  && ExtendedWords(m, h) == LastBlock(m, w, h.tags[w].(size := h.tags[w].size + PAGE_SIZE)))
  {
    hide Inv, LastBlock, OnlyNode;
    WildernessHead(m, h);
    WildernessIsLast(h);
    EpilogueTag(h);
    KeyInHeap(h, h.Epilogue());
    if h.lists[WILDERNESS] != [] {
      var w := h.lists[WILDERNESS][0];
      KeyInHeap(h, w);
      FreeHasNext(h, w);
      HeaderTells(m, h, w);
    }
  }

  lemma FirstPageAccessible(h: Heap)
    requires h.start % 16 == 0 && h.start >= 0 && h.end == h.start + PAGE_SIZE
    ensures Accessible(h, h.start + 8) && Accessible(h, h.start + 40) && Accessible(h, h.start + 48)
    ensures Accessible(h, h.start + 56)
    ensures Accessible(h, h.end - 8) && Accessible(h, h.end - 16)
  {
    Eights(h.start, 8);
    Eights(h.start, 40);
    Eights(h.start, 48);
    Eights(h.start, 56);
    Eights(h.start, PAGE_SIZE - 8);
    Eights(h.start, PAGE_SIZE - 16);
  }

  /** The end of the write sequence in one piece: lists, then the header of the block after. */
  ghost predicate PushPlan(m: Mem, h: Heap, lo: int, home: nat, hi: int, v: int, n: Mem) {
    && Accessible(h, NextOf(m, Head(home)) + 16) && IsNode(NextOf(m, Head(home)))
    && n == PushedFront(m, Head(home), lo)[hi := v]
  }

  ghost predicate UnlinkPlan(m: Mem, h: Heap, p: int) {
    Accessible(h, PrevOf(m, p) + 8) && Accessible(h, NextOf(m, p) + 16)
  }

  /** Only the block before is free. */
  lemma WithPreviousPlan(m: Mem, h: Heap, p: int)
    requires Inv(h) && Live(h, p) && Represents(m, h) && !h.tags[p].pal
    requires Next(h.tags, p) in h.tags && h.tags[Next(h.tags, p)].alloc && Next(h.tags, p) != h.Epilogue()
    ensures var lo, n, v := Low(h, p), Next(h.tags, p), NewHeader(h, p);
            var m1 := m[lo := v][n - 8 := v];
            && UnlinkPlan(m1, h, lo)
            && PushPlan(Unlinked(m1, lo), h, lo, ClassIndex(n - lo), n, h.tags[n].size + 1, FreedWords(m, h, p))
  {
    hide Inv, Represents, FreedWords, PushedFront, Unlinked, Low, High, NewHeader, Accessible;
    NextReads(m, h, p);
    StagesAccessible(m, h, p);
    WordsByBits(m, h, p);
  }

  /** The block after is free and not the wilderness; the one before may be free as well. */
  lemma WithNextPlan(m: Mem, h: Heap, p: int)
    requires Inv(h) && Live(h, p) && Represents(m, h) && High(h, p) != h.Epilogue()
    requires Next(h.tags, p) in h.tags && !h.tags[Next(h.tags, p)].alloc
    ensures var lo, n, hi, v := Low(h, p), Next(h.tags, p), High(h, p), NewHeader(h, p);
            var m1 := m[lo := v][hi - 8 := v];
            var m2 := if h.tags[p].pal then m1 else Unlinked(m1, lo);
            && (!h.tags[p].pal ==> UnlinkPlan(m1, h, lo)) && UnlinkPlan(m2, h, n)
            && PushPlan(Unlinked(m2, n), h, lo, ClassIndex(hi - lo), hi, h.tags[hi].size + 1, FreedWords(m, h, p))
  {
    hide Inv, Represents, FreedWords, PushedFront, Unlinked, Low, High, NewHeader, Accessible;
    NextReads(m, h, p);
    StagesAccessible(m, h, p);
    WordsByBits(m, h, p);
  }

  /** The block after is the wilderness. */
  lemma WithWildernessPlan(m: Mem, h: Heap, p: int)
    requires Inv(h) && Live(h, p) && Represents(m, h) && High(h, p) == h.Epilogue() && Next(h.tags, p) != h.Epilogue()
    ensures var lo, v := Low(h, p), NewHeader(h, p);
            var m1 := m[lo := v][High(h, p) - 8 := v];
            && (!h.tags[p].pal ==> UnlinkPlan(m1, h, lo))
            && FreedWords(m, h, p) == OnlyNode(if h.tags[p].pal then m1 else Unlinked(m1, lo), Head(WILDERNESS), lo)
  {
    hide Inv, Represents, FreedWords, OnlyNode, Unlinked, Low, High, NewHeader, Accessible;
    RegionFromBits(h, p);
    StagesAccessible(m, h, p);
    MergingWilderness(m, h, p);
  }
}
