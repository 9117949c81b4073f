/** What sf_malloc (hw3/src/sfmm.c) reads and writes while it searches the lists and places a block. */
module HeapMallocSteps {
  import opened HeapTags
  import opened HeapModel
  import opened HeapAllocation
  import opened HeapOperations
  import opened HeapAlignment
  import opened HeapMemory
  import opened HeapRefinement
  import opened HeapPlacementWords
  import opened HeapGrowthWords
  import opened HeapFreeBranches

  // ---- searching ----

  lemma {:induction false} FirstInIs(tags: Tags, s: seq<int>, need: int, k: nat)
    requires forall i :: 0 <= i < |s| ==> s[i] in tags
    requires k <= |s| && (forall i :: 0 <= i < k ==> tags[s[i]].size < need) && (k < |s| ==> tags[s[k]].size >= need)
    ensures FirstIn(tags, s, need) == k
  {
    if k > 0 {
      assert tags[s[0]].size < need;
      FirstInIs(tags, s[1..], need, k - 1);
    }
  }

  /** Position `k` of list `i`, as found in memory; position `|list|` is the dummy. */
  lemma ListReads(m: Mem, h: Heap, i: nat, k: nat)
    requires Inv(h) && Represents(m, h) && i < 8
    ensures |h.lists| == 8 && NextOf(m, Head(i)) == At(Head(i), h.lists[i], 0) && Accessible(h, Head(i) + 8)
    ensures k < |h.lists[i]| ==>
      var a := h.lists[i][k];
      && a in h.tags && a > HEADS_END && a != Head(i) && Accessible(h, a) && Accessible(h, a + 8)
      && Tells(Word(m, a), h.tags[a]) && NextOf(m, a) == At(Head(i), h.lists[i], k + 1)
  {
    assert Ring(m, Head(i), h.lists[i]);
    if k < |h.lists[i]| {
      var a := h.lists[i][k];
      ListedAreFree(h, i);
      FreeHasNext(h, a);
      KeyAccessible(h, a);
      HeaderTells(m, h, a);
      KeyInHeap(h, a);
      assert NextOf(m, a) == At(Head(i), h.lists[i], k + 1);
    }
  }

  lemma ListInTags(h: Heap, i: nat)
    requires Inv(h) && i < 8
    ensures |h.lists| == 8 && forall k :: 0 <= k < |h.lists[i]| ==> h.lists[i][k] in h.tags
  {
    ListedAreFree(h, i);
  }

  /** One list searched: the first fit, or on to the next list. */
  lemma FirstFitStep(h: Heap, need: int, i: nat)
    requires Inv(h) && i < 8
    ensures |h.lists| == 8 && forall k :: 0 <= k < |h.lists[i]| ==> h.lists[i][k] in h.tags
    ensures var k := FirstIn(h.tags, h.lists[i], need);
            FirstFit(h, need, i) == if k < |h.lists[i]| then Fit(h.lists[i][k]) else FirstFit(h, need, i + 1)
    ensures forall k :: 0 <= k < |h.lists[i]| ==> ListOf(h.tags, h.Epilogue(), h.lists[i][k]) == i && h.lists[i][k] > 0
    ensures FirstFit(h, need, 8) == NoFit
  {
    ListedAreFree(h, i);
    forall k | 0 <= k < |h.lists[i]|
      ensures h.lists[i][k] > 0
    {
      KeyInHeap(h, h.lists[i][k]);
    }
  }

  // ---- placing ----

  function PlacedWords(m: Mem, h: Heap, a: int, need: int): Mem
    requires a in h.tags && Next(h.tags, a) in h.tags
  {
    if LeavesSplinter(h.tags[a].size, need) then TakenWords(m, h, a) else SplitWords(m, h, a, need)
  }

  /** Placing in full: the new heap value, and every live payload untouched. */
  lemma PlacedStep(m: Mem, h: Heap, a: int, need: int)
    requires Inv(h) && Represents(m, h) && Fits(h.tags, a, need) && need >= MIN_BLOCK && need % 16 == 0
    ensures Next(h.tags, a) in h.tags
    ensures var g := Placed(h, a, need);
            && Inv(g) && Represents(PlacedWords(m, h, a, need), g) && g.start == h.start && g.end == h.end
            && LiveKept(m, PlacedWords(m, h, a, need), LiveBlocks(h))
  {
    hide Inv, Represents, TakenWords, SplitWords, NewBlock;
    FreeHasNext(h, a);
    PlacedCorrect(h, a, need);
    if LeavesSplinter(h.tags[a].size, need) {
      TakenRepresents(m, h, a, need);
      forall b | b in LiveBlocks(h)
        ensures PayloadKept(m, TakenWords(m, h, a), b, LiveBlocks(h)[b])
      {
        TakenSpares(m, h, a, b);
      }
    } else {
      SplitRepresents(m, h, a, need);
      forall b | b in LiveBlocks(h)
        ensures PayloadKept(m, SplitWords(m, h, a, need), b, LiveBlocks(h)[b])
      {
        SplitSpares(m, h, a, need, b);
      }
    }
  }

  /** The header of the chosen block, its neighbours in the list and the block after it. */
  lemma PlacedReads(m: Mem, h: Heap, a: int)
    requires Inv(h) && Represents(m, h) && a in h.tags && !h.tags[a].alloc
    ensures var n := Next(h.tags, a);
            && n in h.tags && h.tags[n].alloc && a != h.Epilogue() && h.tags[a].pal && h.tags[a].size % 16 == 0
            && Accessible(h, a) && Accessible(h, a + 8) && Accessible(h, a + 16) && Accessible(h, n) &&
               Accessible(h, n - 8)
            && Tells(Word(m, a), h.tags[a]) && Tells(Word(m, n), h.tags[n])
            && Accessible(h, PrevOf(m, a) + 8) && Accessible(h, NextOf(m, a) + 16)
            && IsNode(PrevOf(m, a)) && IsNode(NextOf(m, a)) && PrevOf(m, a) != a && NextOf(m, a) != a
            && IsBlock(a) && a % 16 == 8 && n <= h.Epilogue()
            && (PrevOf(m, a) != n - 8 && PrevOf(m, a) + 8 != n && NextOf(m, a) + 16 != n && PrevOf(m, a) + 8 != a &&
               NextOf(m, a) + 16 != a)
  {
    hide Inv;
    var n := Next(h.tags, a);
    FreeHasNext(h, a);
    KeyAccessible(h, a);
    KeyAccessible(h, n);
    KeyInHeap(h, a);
    KeyInHeap(h, n);
    HeaderTells(m, h, a);
    HeaderTells(m, h, n);
    FreeIsListed(h, a);
    OwnLists(h);
    NeighboursAreNodes(m, h, h.lists, ListOf(h.tags, h.Epilogue(), a), a);
    NodeAccessible(h, PrevOf(m, a));
    NodeAccessible(h, NextOf(m, a));
    NodesApart(h, PrevOf(m, a), a, n);
    NodesApart(h, NextOf(m, a), a, n);
    OwnNeighbours(m, h, a);
  }

  lemma NodesApart(h: Heap, z: int, a: int, n: int)
    requires Inv(h) && h.start >= HEADS_END && NodeOf(h, z) && a in h.tags && n in h.tags
    ensures z + 8 != a && z + 16 != a && z + 8 != n && z + 16 != n && z != n - 8
  {
    assert BlockShape(h.tags, h.First(), h.Epilogue(), a) && BlockShape(h.tags, h.First(), h.Epilogue(), n);
    if z in h.tags { assert BlockShape(h.tags, h.First(), h.Epilogue(), z); }
  }

  lemma OwnNeighbours(m: Mem, h: Heap, a: int)
    requires Inv(h) && Represents(m, h) && a in h.tags && !h.tags[a].alloc
    ensures PrevOf(m, a) != a && NextOf(m, a) != a
  {
    FreeIsListed(h, a);
    ListsDisjoint(h);
    LinkedUnlinked(m, h.lists, ListOf(h.tags, h.Epilogue(), a), a);
  }

  /** After the tags of both parts are written, the links around `a` are still the old ones. */
  lemma SplitAccess(m: Mem, h: Heap, a: int, need: int, home: nat)
    requires Inv(h) && Represents(m, h) && a in h.tags && !h.tags[a].alloc && home < 8
    requires need >= MIN_BLOCK && need % 16 == 0 && h.tags[a].size - need >= MIN_BLOCK
    ensures var m1 := SplitTagWords(m, h.tags, a, need, false);
            && PrevOf(m1, a) == PrevOf(m, a) && NextOf(m1, a) == NextOf(m, a)
            && (var s := NextOf(Unlinked(m1, a), Head(home)); Accessible(h, s + 16) && IsNode(s))
    ensures Accessible(h, a + need) && Accessible(h, a + need + 8) && Accessible(h, a + need + 16) && IsBlock(a + need)
  {
    hide Inv, Unlinked, Linked, TagsStored, LinksSafe, Removed, NoLink, SplitTagWords, Accessible, NodeOf, ListsOf;
    SplitStep(m, h, a, need);
    FreeHasNext(h, a);
    OwnLists(h);
    FreeIsListed(h, a);
    EpilogueTag(h);
    var m1, i := SplitTagWords(m, h.tags, a, need, false), ListOf(h.tags, h.Epilogue(), a);
    NeighboursAreNodes(m, h, h.lists, i, a);
    FirstIsNode(Unlinked(m1, a), h, Removed(h.lists, i, a), home);
    NodeAccessible(h, NextOf(Unlinked(m1, a), Head(home)));
    KeyInHeap(h, a);
    SplitTagWordsLinks(m, h.tags, a, need);
    RestAccessible(h, a, need);
  }

  lemma SplitTagWordsLinks(m: Mem, tags: Tags, a: int, need: int)
    requires a in tags && need >= MIN_BLOCK && tags[a].size - need >= MIN_BLOCK
    ensures var m1 := SplitTagWords(m, tags, a, need, false);
            PrevOf(m1, a) == PrevOf(m, a) && NextOf(m1, a) == NextOf(m, a)
  {
  }

  lemma RestAccessible(h: Heap, a: int, need: int)
    requires h.start >= HEADS_END && h.start + 40 <= a && a % 16 == 8 && a in h.tags
    requires a + h.tags[a].size <= h.Epilogue()
    requires need >= MIN_BLOCK && need % 16 == 0 && h.tags[a].size - need >= MIN_BLOCK
    ensures Accessible(h, a + need) && Accessible(h, a + need + 8) && Accessible(h, a + need + 16) && IsBlock(a + need)
  {
    Sixteens(a, need);
    Eights(a, need);
    Eights(a + need, 8);
    Eights(a + need, 16);
  }

  /** In the wilderness list the remainder takes the place of the old wilderness. */
  lemma WildernessReplaced(m: Mem, h: Heap, a: int, need: int)
    requires Inv(h) && Represents(m, h) && a in h.tags && !h.tags[a].alloc && Next(h.tags, a) == h.Epilogue()
    requires need >= MIN_BLOCK && need % 16 == 0 && h.tags[a].size - need >= MIN_BLOCK
    ensures PrevOf(m, a) == Head(WILDERNESS) && NextOf(m, a) == Head(WILDERNESS)
    ensures SplitWords(m, h, a, need) == OnlyNode(SplitTagWords(m, h.tags, a, need, false), Head(WILDERNESS), a + need)
  {
    hide Inv, SplitTagWords, OnlyNode, PushedFront, Unlinked, Linked, TagsStored;
    SplitAccess(m, h, a, need, WILDERNESS);
    WildernessLinks(m, h, a, h.lists);
    HeadIsNode(WILDERNESS);
    OverwritingUnlinks(SplitTagWords(m, h.tags, a, need, false), a, Head(WILDERNESS), a + need);
  }

  // ---- growing ----

  /** One turn of the growth loop. */
  lemma GrownStep(h: Heap, need: int, limit: int)
    requires Inv(h)
    ensures h.end + PAGE_SIZE > limit ==> Grown(h, need, limit) == (h, false)
    ensures Inv(Extended(h)) && WildernessSize(Extended(h)) == WildernessSize(h) + PAGE_SIZE
    ensures LiveBlocks(Extended(h)) == LiveBlocks(h)
    ensures h.end + PAGE_SIZE <= limit ==>
      Grown(h, need, limit) == if WildernessSize(Extended(h)) >= need then (Extended(h), true)
        else Grown(Extended(h), need, limit)
  {
    ExtendedCorrect(h);
  }

  lemma WildernessNotNegative(h: Heap)
    requires Inv(h)
    ensures WildernessSize(h) >= 0 && |h.lists| == 8 && (WildernessSize(h) > 0 ==> h.lists[WILDERNESS] != [])
  {
    WildernessIsLast(h);
    if h.lists[WILDERNESS] != [] { FreeHasNext(h, h.lists[WILDERNESS][0]); }
  }

  /** What is left to do when no block fits. */
  lemma MallocOutcome(h: Heap, limit: int, size: int)
    requires Inv(h) && Request(size) && size > 0
    ensures var need := Adjusted(size);
            match FirstFit(h, need, 0)
            case Fit(a) => a > 0 && Fits(h.tags, a, need) &&
              Malloc(h, limit, size) == Outcome(Placed(h, a, need), a + 8)
            case NoFit =>
              var (g, ok) := Grown(h, need, limit);
              && WildernessSize(h) < need
              && (ok ==>
                    && |g.lists| == 8 && g.lists[WILDERNESS] != [] && g.lists[WILDERNESS][0] > 0 &&
                       Fits(g.tags, g.lists[WILDERNESS][0], need)
                    && ListOf(g.tags, g.Epilogue(), g.lists[WILDERNESS][0]) == WILDERNESS
                    && Malloc(h, limit, size) ==
                       Outcome(Placed(g, g.lists[WILDERNESS][0], need), g.lists[WILDERNESS][0] + 8))
              && (!ok ==> Malloc(h, limit, size) == Outcome(g, 0))
  {
    hide Inv, Placed, Grown, FirstFit;
    var need := Adjusted(size);
    FirstFitMeaning(h, need, 0);
    if FirstFit(h, need, 0).Fit? {
      KeyInHeap(h, FirstFit(h, need, 0).addr);
      StartNotNegative(h);
    } else {
      NoFitWilderness(h, need);
      GrownIsLeast(h, need, limit);
      var (g, ok) := Grown(h, need, limit);
      if ok {
        WildernessFits(g, need);
        WildernessIsLast(g);
        KeyInHeap(g, g.lists[WILDERNESS][0]);
        StartNotNegative(g);
      }
    }
  }

  lemma StartNotNegative(h: Heap)
    requires Inv(h)
    ensures h.start >= 0
  {
  }

  // ---- contents ----

  /** `length` bytes of payload at `from` in the old memory are found at `to` in the new one. */
  ghost predicate Copied(m: Mem, from: int, n: Mem, to: int, length: int) {
    forall k :: 0 <= k < length && k % 8 == 0 ==> Word(n, to + k) == Word(m, from + k)
  }

  lemma CopiedThenKept(m: Mem, from: int, n: Mem, to: int, length: int, k: Mem, live: map<int, int>)
    requires Copied(m, from, n, to, length) && LiveKept(n, k, live) && to - 8 in live && length <= live[to - 8] - 8
    requires to % 8 == 0
    ensures Copied(m, from, k, to, length)
  {
    forall j | 0 <= j < length && j % 8 == 0
      ensures Word(k, to + j) == Word(m, from + j)
    {
      Eights(to, j);
      assert PayloadKept(n, k, to - 8, live[to - 8]);
      assert to - 8 < to + j < to - 8 + live[to - 8];
    }
  }

  lemma KeptIsCopied(m: Mem, n: Mem, b: int, size: int, length: int)
    requires PayloadKept(m, n, b, size) && length <= size - 8 && b % 8 == 0
    ensures Copied(m, b + 8, n, b + 8, length)
  {
  }

  /** A word of a live payload may be written: the heap stays as it is, and so do all other payloads. */
  lemma PayloadWrite(m: Mem, h: Heap, q: int, x: int, v: int)
    requires Inv(h) && Represents(m, h) && Live(h, q) && q < x < Next(h.tags, q) && x % 8 == 0
    ensures Represents(m[x := v], h) && Accessible(h, x)
    ensures LiveKept(m, m[x := v], LiveBlocks(h) - {q})
  {
    PayloadWriteRepresents(m, h, q, x, v);
    KeyInHeap(h, q);
    forall b | b in LiveBlocks(h) - {q}
      ensures PayloadKept(m, m[x := v], b, LiveBlocks(h)[b])
    {
      if b < x < Next(h.tags, b) { OutsideBlock(h, b, x, q); }
    }
  }

  lemma PayloadReadable(h: Heap, p: int, x: int)
    requires Inv(h) && h.start >= HEADS_END && Live(h, p) && p < x < Next(h.tags, p) && x % 8 == 0
    ensures Accessible(h, x)
  {
    KeyInHeap(h, p);
  }

  /** Cutting a live block in full. */
  lemma CutStep(m: Mem, h: Heap, p: int, need: int)
    requires Inv(h) && Represents(m, h) && Live(h, p)
    requires need >= MIN_BLOCK && need % 16 == 0 && h.tags[p].size - need >= MIN_BLOCK
    ensures var n, g := SplitTagWords(m, h.tags, p, need, true), Cut(h, p, need);
            && Inv(g) && Represents(n, g) && Live(g, p) && Live(g, p + need) &&
               g.tags[p + need].size == h.tags[p].size - need
            && g.start == h.start && g.end == h.end
            && LiveKept(m, n, LiveBlocks(h) - {p}) && PayloadKept(m, n, p, need)
            && LiveBlocks(g) == LiveBlocks(h)[p := need][p + need := h.tags[p].size - need] &&
               p + need !in LiveBlocks(h)
    ensures Accessible(h, p) && Accessible(h, p + need) && Tells(Word(m, p), h.tags[p])
  {
    hide Inv, Represents, SplitTagWords, Split, LiveKept, PayloadKept, Accessible, Tells, LiveBlocks;
    CutCorrect(h, p, need);
    CutSize(h.tags, p, need);
    CutRepresents(m, h, p, need);
    CutAccess(m, h, p, need);
    StoredHeader(m, h, p);
    CutSpared(m, h, p, need);
  }

  lemma CutAccess(m: Mem, h: Heap, p: int, need: int)
    requires Inv(h) && Represents(m, h) && Live(h, p)
    requires need >= MIN_BLOCK && need % 16 == 0 && h.tags[p].size - need >= MIN_BLOCK
    ensures Accessible(h, p) && Accessible(h, p + need)
    ensures p + need !in h.tags ==> p + need !in LiveBlocks(h)
  {
    hide Inv;
    KeyInHeap(h, p);
    LiveShape(h, p);
    Eights(p, need);
  }

  lemma CutSize(tags: Tags, p: int, need: int)
    requires p in tags && need != 0
    ensures var t := Split(tags, p, need, true); p + need in t && t[p + need].size == tags[p].size - need
  {
  }

  lemma StoredHeader(m: Mem, h: Heap, p: int)
    requires Inv(h) && Represents(m, h) && p in h.tags
    ensures Tells(Word(m, p), h.tags[p])
  {
    HeaderTells(m, h, p);
  }

  lemma CutSpared(m: Mem, h: Heap, p: int, need: int)
    requires Inv(h) && Represents(m, h) && Live(h, p)
    requires need >= MIN_BLOCK && need % 16 == 0 && h.tags[p].size - need >= MIN_BLOCK
    ensures LiveKept(m, SplitTagWords(m, h.tags, p, need, true), LiveBlocks(h) - {p})
  {
    hide Inv, Represents, SplitTagWords;
    CutRepresents(m, h, p, need);
  }

  /** One word copied from one payload to another. */
  lemma CopyStep(m: Mem, before: Mem, h: Heap, p: int, q: int, k: int, length: int)
    requires Inv(h) && Represents(before, h) && Live(h, p) && Live(h, q) && p != q && 0 <= k < length && k % 8 == 0
    requires length <= h.tags[p].size - 8 && length <= h.tags[q].size - 8
    requires LiveKept(m, before, LiveBlocks(h) - {q}) && Copied(m, p + 8, before, q + 8, k)
    ensures Accessible(h, p + 8 + k) && Accessible(h, q + 8 + k)
    ensures var n := before[q + 8 + k := Word(before, p + 8 + k)];
            Represents(n, h) && LiveKept(m, n, LiveBlocks(h) - {q}) && Copied(m, p + 8, n, q + 8, k + 8)
  {
    hide Inv, Represents, Accessible, LiveKept, PayloadKept, Copied;
    var live, x, y := LiveBlocks(h) - {q}, p + 8 + k, q + 8 + k;
    var n := before[y := Word(before, x)];
    CopyPlaces(h, p, q, k, length);
    RepresentedStart(before, h);
    PayloadReadable(h, p, x);
    PayloadWrite(before, h, q, y, Word(before, x));
    LiveKeptTrans(m, before, n, live, live);
    CopiedMore(m, before, live, p, q, k);
  }

  lemma CopyPlaces(h: Heap, p: int, q: int, k: int, length: int)
    requires Inv(h) && Live(h, p) && Live(h, q) && p != q && 0 <= k < length && k % 8 == 0
    requires length <= h.tags[p].size - 8 && length <= h.tags[q].size - 8
    ensures p < p + 8 + k < Next(h.tags, p) && (p + 8 + k) % 8 == 0 && q < q + 8 + k < Next(h.tags, q)
    ensures (q + 8 + k) % 8 == 0
    ensures q % 8 == 0 && p in LiveBlocks(h) - {q} && (LiveBlocks(h) - {q})[p] == h.tags[p].size
  {
    hide Inv, LiveBlocks;
    LiveShape(h, p);
    LiveShape(h, q);
    Eights(p + 8, k);
    Eights(q + 8, k);
    Eights(q + 8, -8);
  }

  lemma CopiedMore(m: Mem, before: Mem, live: map<int, int>, p: int, q: int, k: int)
    requires LiveKept(m, before, live) && p in live && p + 8 + k < p + live[p] && k >= 0 && k % 8 == 0
    requires (p + 8 + k) % 8 == 0 && q % 8 == 0 && Copied(m, p + 8, before, q + 8, k)
    ensures Copied(m, p + 8, before[q + 8 + k := Word(before, p + 8 + k)], q + 8, k + 8)
  {
    assert PayloadKept(m, before, p, live[p]);
  }

  lemma RepresentedStart(m: Mem, h: Heap)
    requires Represents(m, h)
    ensures h.start >= HEADS_END
  {
  }

  // ---- carving ----

  /** Header words of a cut, in the order and with the bit operations of the source. */
  lemma CutWords(m: Mem, tags: Tags, p: int, init: int)
    requires p in tags && tags[p].size % 16 == 0 && init % 16 == 0 && init >= MIN_BLOCK
    ensures var rest, head := tags[p].size - init, init + (if tags[p].pal then 2 else 0);
            && SetAlloc(head) == Pack(Tag(init, tags[p].pal, true)) && SetPrev(rest + 1) == Pack(Tag(rest, true, true))
            && m[p := head][p := SetAlloc(head)][p + init := rest + 1][p + init := SetPrev(rest + 1)] ==
               SplitTagWords(m, tags, p, init, true)
  {
    PackUnpack(Tag(init, tags[p].pal, false));
    PackUnpack(Tag(tags[p].size - init, false, true));
  }

  /** Both cuts in full. */
  lemma CutTwice(m: Mem, n: Mem, h: Heap, cut: Heap, p: int, q: int, need: int)
    requires Inv(h) && Represents(m, h) && Live(h, p) && Carvable(h, p, q, need)
    requires h.tags[p].size - (q - p) - need >= MIN_BLOCK
    requires cut == Cut(h, p, q - p) && n == SplitTagWords(m, h.tags, p, q - p, true)
    ensures q in cut.tags && cut.tags[q].size == h.tags[p].size - (q - p) && Accessible(h, q) && Accessible(h, q + need)
    ensures var c, k := Cut(cut, q, need), SplitTagWords(n, cut.tags, q, need, true);
            && Represents(k, c) && LiveKept(m, k, LiveBlocks(h) - {p}) && c.start == h.start && c.end == h.end
  {
    hide Inv, Represents, SplitTagWords, Accessible, LiveKept, PayloadKept, LiveBlocks, Split, Freed;
    CutStep(m, h, p, q - p);
    CutStep(n, cut, q, need);
    KeptThroughCuts(m, n, SplitTagWords(n, cut.tags, q, need, true), h, p, q - p);
    SameAccess(h, cut, q + need);
  }

  lemma SameAccess(h: Heap, g: Heap, x: int)
    requires Accessible(g, x) && g.start == h.start && g.end == h.end
    ensures Accessible(h, x)
  {
  }

  lemma KeptThroughCuts(m: Mem, n: Mem, k: Mem, h: Heap, p: int, init: int)
    requires Inv(h) && Live(h, p) && init >= MIN_BLOCK && init % 16 == 0 && h.tags[p].size - init >= MIN_BLOCK
    requires LiveKept(m, n, LiveBlocks(h) - {p}) && LiveKept(n, k, LiveBlocks(Cut(h, p, init)) - {p + init})
    ensures LiveKept(m, k, LiveBlocks(h) - {p})
  {
    hide Inv, LiveKept, Cut;
    CutCorrect(h, p, init);
    assert p + init !in LiveBlocks(h);
    LiveKeptTrans(m, n, k, LiveBlocks(h) - {p}, LiveBlocks(Cut(h, p, init)) - {p + init});
  }

  lemma CutWordsTwice(m: Mem, h: Heap, p: int, init: int, need: int)
    requires p in h.tags && h.tags[p].size % 16 == 0 && init % 16 == 0 && init >= MIN_BLOCK && need % 16 == 0
    requires need >= MIN_BLOCK
    ensures var cut, q := Cut(h, p, init), p + init;
            var head, rest, last := init + (if h.tags[p].pal then 2 else 0), need + 1, h.tags[p].size - init - need + 1;
            && q in cut.tags
            && m[p := head][p := SetAlloc(head)][q + need := last][q + need := SetPrev(last)]
                [q := rest][q := SetPrev(rest)]
                 == SplitTagWords(SplitTagWords(m, h.tags, p, init, true), cut.tags, q, need, true)
  {
    PackUnpack(Tag(init, h.tags[p].pal, false));
    PackUnpack(Tag(need, false, true));
    PackUnpack(Tag(h.tags[p].size - init - need, false, true));
    assert Cut(h, p, init).tags[p + init] == Tag(h.tags[p].size - init, true, true);
  }

  lemma CutKept(m: Mem, middle: Mem, n: Mem, h: Heap, p: int, init: int)
    requires Inv(h) && Live(h, p) && init >= MIN_BLOCK && init % 16 == 0 && h.tags[p].size - init >= MIN_BLOCK
    requires LiveKept(m, middle, LiveBlocks(h) - {p}) && LiveKept(middle, n, LiveBlocks(Cut(h, p, init)) - {p})
    ensures LiveKept(m, n, LiveBlocks(h) - {p})
  {
    hide Inv, LiveKept, Cut;
    CutCorrect(h, p, init);
    assert p + init !in LiveBlocks(h);
    LiveKeptTrans(m, middle, n, LiveBlocks(h) - {p}, LiveBlocks(Cut(h, p, init)) - {p});
  }

  lemma CutTwiceKept(m: Mem, middle: Mem, later: Mem, n: Mem, h: Heap, p: int, init: int, need: int)
    requires Inv(h) && Live(h, p) && Carvable(h, p, p + init, need) && h.tags[p].size - init - need >= MIN_BLOCK
    requires p + init in Cut(h, p, init).tags && Inv(Cut(Cut(h, p, init), p + init, need))
    requires Live(Cut(Cut(h, p, init), p + init, need), p)
    requires LiveKept(m, middle, LiveBlocks(h) - {p})
    requires LiveKept(middle, later, LiveBlocks(Cut(Cut(h, p, init), p + init, need)) - {p})
    requires LiveKept(later, n, LiveBlocks(Freed(Cut(Cut(h, p, init), p + init, need), p)) - {p + init + need})
    ensures LiveKept(m, n, LiveBlocks(h) - {p})
  {
    hide Inv, LiveKept, Cut, Freed;
    var c := Cut(Cut(h, p, init), p + init, need);
    CutBoth(h, p, p + init, need);
    CutFront(h, p, p + init, need);
    FreedCorrect(c, p);
    LiveKeptTrans(m, middle, later, LiveBlocks(h) - {p}, LiveBlocks(c) - {p});
    LiveKeptTrans(m, later, n, LiveBlocks(h) - {p}, LiveBlocks(Freed(c, p)) - {p + init + need});
  }
}
