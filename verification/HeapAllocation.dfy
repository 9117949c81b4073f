/** sf_malloc on heap values: choosing a block, cutting it, and growing the heap (hw3/src/sfmm.c). */
module HeapAllocation {
  import opened HeapTags
  import opened HeapModel

  datatype Choice = NoFit | Fit(addr: int)

  /** The blocks the user holds, with their block lengths: all that a caller can rely on. */
  function LiveBlocks(h: Heap): map<int, int> { LiveIn(h.tags, h.Epilogue()) }

  function LiveIn(tags: Tags, epi: int): map<int, int> {
    map a | a in tags && tags[a].alloc && a != epi :: tags[a].size
  }

  ghost predicate Fits(tags: Tags, a: int, need: int) { a in tags && !tags[a].alloc && tags[a].size >= need }

  // ---- first fit ----

  /** Position of the first block of at least `need` bytes in a list; the length of the list if there is none. */
  function FirstIn(tags: Tags, s: seq<int>, need: int): (k: nat)
    requires forall i :: 0 <= i < |s| ==> s[i] in tags
    ensures k <= |s| && (k < |s| ==> tags[s[k]].size >= need)
    ensures forall i :: 0 <= i < k ==> tags[s[i]].size < need
  {
    if s == [] || tags[s[0]].size >= need then 0 else 1 + FirstIn(tags, s[1..], need)
  }

  /** First fit from list `i` on. */
  function FirstFit(h: Heap, need: int, i: nat): (c: Choice)
    requires Inv(h) && i <= 8
    decreases 8 - i
  {
    if i == 8 then NoFit else
      ListedAreFree(h, i);
      var k := FirstIn(h.tags, h.lists[i], need);
      if k < |h.lists[i]| then Fit(h.lists[i][k]) else FirstFit(h, need, i + 1)
  }

  lemma ListedAreFree(h: Heap, i: nat)
    requires Inv(h) && i < 8
    ensures forall k :: 0 <= k < |h.lists[i]| ==>
      h.lists[i][k] in h.tags && !h.tags[h.lists[i][k]].alloc && ListOf(h.tags, h.Epilogue(), h.lists[i][k]) == i
  {
    forall k | 0 <= k < |h.lists[i]|
      ensures h.lists[i][k] in Homes(h.tags, h.Epilogue()) && Homes(h.tags, h.Epilogue())[h.lists[i][k]] == i
    {
      assert h.lists[i][k] in h.lists[i];
    }
  }

  /**
   * The search finds a block if there is one anywhere from list `i` on, and takes it from the
   * lowest such list; so the wilderness is used only when no other block fits.
   */
  lemma {:induction false} FirstFitMeaning(h: Heap, need: int, i: nat)
    requires Inv(h) && i <= 8
    ensures var c, epi := FirstFit(h, need, i), h.Epilogue();
            && (c.Fit? ==> Fits(h.tags, c.addr, need) && ListOf(h.tags, epi, c.addr) >= i)
            && (forall a :: Fits(h.tags, a, need) && ListOf(h.tags, epi, a) >= i ==>
                  c.Fit? && ListOf(h.tags, epi, c.addr) <= ListOf(h.tags, epi, a))
    decreases 8 - i
  {
    if i < 8 {
      ListedAreFree(h, i);
      FirstFitMeaning(h, need, i + 1);
      var k := FirstIn(h.tags, h.lists[i], need);
      forall a | Fits(h.tags, a, need) && ListOf(h.tags, h.Epilogue(), a) == i
        ensures k < |h.lists[i]|
      {
        assert a in Homes(h.tags, h.Epilogue());
        assert a in h.lists[i];
      }
    }
  }

  /** Starting at the request's size class skips only blocks that are too small. */
  lemma {:induction false} SkippingLosesNothing(h: Heap, need: int, i: nat)
    requires Inv(h) && i <= ClassIndex(need)
    ensures FirstFit(h, need, 0) == FirstFit(h, need, i)
  {
    if i > 0 {
      SkippingLosesNothing(h, need, i - 1);
      ListedAreFree(h, i - 1);
      var k := FirstIn(h.tags, h.lists[i - 1], need);
      if k < |h.lists[i - 1]| {
        LowerClassIsTooSmall(h.tags[h.lists[i - 1][k]].size, need);
      }
    }
  }

  // ---- taking a free block ----

  /** The chosen block is handed out whole, or cut if what remains is a block of its own. */
  function Placed(h: Heap, a: int, need: int): Heap
    requires Inv(h) && Fits(h.tags, a, need)
  {
    var epi := h.Epilogue();
    FreeHasNext(h, a);
    var without := Removed(h.lists, ListOf(h.tags, epi, a), a);
    if LeavesSplinter(h.tags[a].size, need) then
      h.(tags := Taken(h.tags, a), lists := without)
    else
      var tags := Split(h.tags, a, need, false);
      h.(tags := tags, lists := Pushed(without, ListOf(tags, epi, a + need), a + need))
  }

  lemma FreeHasNext(h: Heap, a: int)
    requires Inv(h) && a in h.tags && !h.tags[a].alloc
    ensures a != h.Epilogue() && Next(h.tags, a) in h.tags && h.tags[Next(h.tags, a)].alloc && Next(h.tags, a) > a
    ensures h.tags[a].pal
    ensures h.tags[a].size >= MIN_BLOCK && h.tags[a].size % 16 == 0
  {
    assert BlockShape(h.tags, h.First(), h.Epilogue(), a);
    if a != h.First() {
      var q := Pred(h.tags, h.First(), h.Epilogue(), a);
      assert Next(h.tags, q) == a;
    }
  }

  lemma TakenKeeps(h: Heap, a: int)
    requires Inv(h) && a in h.tags && !h.tags[a].alloc
    ensures var t, first, epi := Taken(h.tags, a), h.First(), h.Epilogue();
            Tiled(t, first, epi) && PalMatches(t, first, epi) && Coalesced(t, epi)
  {
    var t, first, epi := Taken(h.tags, a), h.First(), h.Epilogue();
    FreeHasNext(h, a);
    assert forall b :: b in t <==> b in h.tags;
    forall b | b in t
      ensures BlockShape(t, first, epi, b)
    {
      assert BlockShape(h.tags, first, epi, b);
    }
    forall b {:trigger Next(t, b)} | b in t && b != epi
      ensures Next(t, b) in t
      ensures t[Next(t, b)].pal == t[b].alloc
      ensures !t[b].alloc ==> t[Next(t, b)].alloc
    {
      assert Next(t, b) == Next(h.tags, b);
      if Next(t, b) == Next(h.tags, a) { PredUnique(h.tags, first, epi, a, b); }
    }
  }

  lemma SplitTiled(tags: Tags, first: int, epi: int, a: int, need: int, restAlloc: bool)
    requires Tiled(tags, first, epi) && a in tags && a != epi
    requires need >= MIN_BLOCK && need % 16 == 0 && tags[a].size - need >= MIN_BLOCK
    ensures Tiled(Split(tags, a, need, restAlloc), first, epi)
    ensures a + need !in tags
  {
    var t := Split(tags, a, need, restAlloc);
    SplitShapes(tags, first, epi, a, need, restAlloc);
    assert BlockShape(tags, first, epi, a);
    assert Next(tags, a) in tags && BlockShape(tags, first, epi, Next(tags, a));
    forall b {:trigger Next(t, b)} | b in t && b != epi
      ensures Next(t, b) in t
    {
      if b == a + need {
        assert Next(t, b) == Next(tags, a);
      } else if b != a {
        assert Next(t, b) == Next(tags, b);
      }
    }
  }

  lemma SplitShapes(tags: Tags, first: int, epi: int, a: int, need: int, restAlloc: bool)
    requires Tiled(tags, first, epi) && a in tags && a != epi
    requires need >= MIN_BLOCK && need % 16 == 0 && tags[a].size - need >= MIN_BLOCK
    ensures var t := Split(tags, a, need, restAlloc); forall b :: b in t ==> BlockShape(t, first, epi, b)
  {
    var t := Split(tags, a, need, restAlloc);
    assert BlockShape(tags, first, epi, a) && Next(tags, a) in tags && BlockShape(tags, first, epi, Next(tags, a));
    forall b | b in t
      ensures BlockShape(t, first, epi, b)
    {
      if b != a && b != a + need {
        assert BlockShape(tags, first, epi, b);
      } else {
        Sixteens(a, need);
        Sixteens(tags[a].size, need);
      }
    }
  }

  lemma SplitKeeps(h: Heap, a: int, need: int, restAlloc: bool)
    requires Inv(h) && a in h.tags && a != h.Epilogue() && restAlloc == h.tags[a].alloc
    requires need >= MIN_BLOCK && need % 16 == 0 && h.tags[a].size - need >= MIN_BLOCK
    ensures var t, first, epi := Split(h.tags, a, need, restAlloc), h.First(), h.Epilogue();
            Tiled(t, first, epi) && PalMatches(t, first, epi) && Coalesced(t, epi)
  {
    var t, first, epi := Split(h.tags, a, need, restAlloc), h.First(), h.Epilogue();
    SplitTiled(h.tags, first, epi, a, need, restAlloc);
    assert BlockShape(h.tags, first, epi, a);
    forall b {:trigger Next(t, b)} | b in t && b != epi
      ensures t[Next(t, b)].pal == t[b].alloc
      ensures !t[b].alloc ==> t[Next(t, b)].alloc
    {
      if b == a + need {
        assert Next(t, b) == Next(h.tags, a);
        assert Next(h.tags, a) > a + need;
      } else if b != a {
        assert Next(t, b) == Next(h.tags, b);
        assert Next(t, b) in h.tags;
      }
    }
  }

  /** What taking a whole free block does to the two views of the tags. */
  lemma TakenViews(tags: Tags, epi: int, a: int)
    requires a in tags && !tags[a].alloc && a != epi && Next(tags, a) in tags && tags[Next(tags, a)].alloc
    ensures Homes(Taken(tags, a), epi) == Homes(tags, epi) - {a}
    ensures LiveIn(Taken(tags, a), epi) == LiveIn(tags, epi)[a := tags[a].size]
    ensures a in Homes(tags, epi) && a !in LiveIn(tags, epi)
  {
    var t := Taken(tags, a);
    assert forall b :: b in t <==> b in tags;
    assert forall b :: b in t ==> t[b].size == tags[b].size && (b != a ==> t[b].alloc == tags[b].alloc);
  }

  /** What cutting a free block does to them. */
  lemma SplitViews(tags: Tags, epi: int, a: int, need: int)
    requires a in tags && !tags[a].alloc && a != epi && a + need !in tags && a + need != epi && need > 0
    ensures var t := Split(tags, a, need, false);
            && Homes(t, epi) == (Homes(tags, epi) - {a})[a + need := ListOf(t, epi, a + need)]
            && LiveIn(t, epi) == LiveIn(tags, epi)[a := need]
    ensures a in Homes(tags, epi) && a !in LiveIn(tags, epi) && a + need !in Homes(tags, epi)
  {
    var t := Split(tags, a, need, false);
    assert forall b :: b in t <==> b in tags || b == a + need;
    assert forall b :: b in tags && b != a ==> t[b] == tags[b];
  }

  lemma PlacedFiled(h: Heap, a: int, need: int)
    requires Inv(h) && Fits(h.tags, a, need) && need >= MIN_BLOCK && need % 16 == 0
    ensures Filed(Placed(h, a, need).tags, h.Epilogue(), Placed(h, a, need).lists)
  {
    var epi := h.Epilogue();
    var home := Homes(h.tags, epi);
    FreeHasNext(h, a);
    if LeavesSplinter(h.tags[a].size, need) {
      TakenViews(h.tags, epi, a);
      RemovedHolds(h.lists, home, a);
    } else {
      var t, rest := Split(h.tags, a, need, false), a + need;
      SplitTiled(h.tags, h.First(), epi, a, need, false);
      SplitViews(h.tags, epi, a, need);
      RemovedHolds(h.lists, home, a);
      PushedHolds(Removed(h.lists, home[a], a), home - {a}, ListOf(t, epi, rest), rest);
    }
  }

  /** Exactly the chosen block becomes live; every other live block stays as it was. */
  lemma PlacedLive(h: Heap, a: int, need: int)
    requires Inv(h) && Fits(h.tags, a, need) && need >= MIN_BLOCK && need % 16 == 0
    ensures a !in LiveBlocks(h)
    ensures var size := h.tags[a].size;
            LiveBlocks(Placed(h, a, need)) == LiveBlocks(h)[a := if size - need < MIN_BLOCK then size else need]
  {
    FreeHasNext(h, a);
    if LeavesSplinter(h.tags[a].size, need) {
      TakenViews(h.tags, h.Epilogue(), a);
    } else {
      SplitTiled(h.tags, h.First(), h.Epilogue(), a, need, false);
      SplitViews(h.tags, h.Epilogue(), a, need);
    }
  }

  /** Taking a free block keeps the invariant; exactly that block becomes live. */
  lemma PlacedInv(h: Heap, a: int, need: int)
    requires Inv(h) && Fits(h.tags, a, need) && need >= MIN_BLOCK && need % 16 == 0
    ensures Inv(Placed(h, a, need))
  {
    FreeHasNext(h, a);
    PlacedFiled(h, a, need);
    if LeavesSplinter(h.tags[a].size, need) {
      TakenKeeps(h, a);
    } else {
      SplitKeeps(h, a, need, false);
    }
  }

  // ---- growing the heap ----

  /** The heap after the first page has been turned into prologue, one free block and epilogue. */
  function Initial(start: int): Heap {
    var end := start + PAGE_SIZE;
    Heap(start, end,
         map[start + 40 := Tag(PAGE_SIZE - 48, true, false), end - 8 := Tag(0, false, true)],
         [[], [], [], [], [], [], [], [start + 40]])
  }

  lemma InitialInv(start: int)
    requires start >= 0 && start % 16 == 0
    ensures Inv(Initial(start)) && LiveBlocks(Initial(start)) == map[]
  {
    var h := Initial(start);
    var first, epi := h.First(), h.Epilogue();
    var home := Homes(h.tags, epi);
    assert forall a :: a in home <==> a == first;
    assert home[first] == 7;
    assert forall i :: 0 <= i < 7 ==> h.lists[i] == [];
    assert forall a :: a in h.tags <==> a == first || a == epi;
    assert Tiled(h.tags, first, epi);
    assert LiveBlocks(h) == map[];
  }

  /** One more page: the wilderness is extended, or the old epilogue becomes the header of a new one. */
  function Extended(h: Heap): Heap
    requires Inv(h)
  {
    var epi := h.Epilogue();
    var end := Tag(0, false, true);
    if h.lists[WILDERNESS] == [] then
      Heap(h.start, h.end + PAGE_SIZE,
           h.tags[epi := Tag(PAGE_SIZE, true, false)][epi + PAGE_SIZE := end],
           h.lists[WILDERNESS := [epi]])
    else
      WildernessIsLast(h);
      var w := h.lists[WILDERNESS][0];
      Heap(h.start, h.end + PAGE_SIZE,
           (h.tags - {epi})[w := h.tags[w].(size := h.tags[w].size + PAGE_SIZE)][epi + PAGE_SIZE := end],
           h.lists)
  }

  /** The wilderness list holds the last block if that is free, and nothing else. */
  lemma WildernessIsLast(h: Heap)
    requires Inv(h)
    ensures |h.lists[WILDERNESS]| <= 1
    ensures h.lists[WILDERNESS] != [] ==>
      var w := h.lists[WILDERNESS][0]; w in h.tags && !h.tags[w].alloc && w + h.tags[w].size == h.Epilogue()
    ensures h.lists[WILDERNESS] == [] <==> h.tags[h.Epilogue()].pal
  {
    var epi, l := h.Epilogue(), h.lists[WILDERNESS];
    ListedAreFree(h, WILDERNESS);
    assert forall c :: ClassIndex(c) != WILDERNESS;
    if |l| > 0 {
      FreeHasNext(h, l[0]);
      assert Next(h.tags, l[0]) == epi;
    }
    if |l| > 1 {
      FreeHasNext(h, l[1]);
      PredUnique(h.tags, h.First(), epi, l[0], l[1]);
    }
    var q := Pred(h.tags, h.First(), epi, epi);
    if !h.tags[q].alloc {
      assert q in Homes(h.tags, epi) && q in l;
    }
    if l != [] { PredUnique(h.tags, h.First(), epi, l[0], q); }
  }

  /** Size of the wilderness, 0 if the last block is allocated. */
  function WildernessSize(h: Heap): int
    requires Inv(h)
  {
    if h.lists[WILDERNESS] == [] then 0 else
      WildernessIsLast(h);
      h.tags[h.lists[WILDERNESS][0]].size
  }

  lemma ExtendedShapes(h: Heap)
    requires Inv(h)
    ensures var g := Extended(h); forall b :: b in g.tags ==> BlockShape(g.tags, g.First(), g.Epilogue(), b)
  {
    var g := Extended(h);
    WildernessIsLast(h);
    assert BlockShape(h.tags, h.First(), h.Epilogue(), h.Epilogue());
    forall b | b in g.tags
      ensures BlockShape(g.tags, g.First(), g.Epilogue(), b)
    {
      if b in h.tags { assert BlockShape(h.tags, h.First(), h.Epilogue(), b); }
    }
  }

  lemma ExtendedLinks(h: Heap, b: int)
    requires Inv(h)
    ensures var t, epi := Extended(h).tags, Extended(h).Epilogue();
            b in t && b != epi ==>
              && Next(t, b) in t && t[Next(t, b)].pal == t[b].alloc && (!t[b].alloc ==> t[Next(t, b)].alloc)
  {
    WildernessIsLast(h);
    var edge := h.Epilogue();
    if b in h.tags && b != edge {
      assert BlockShape(h.tags, h.First(), edge, b);
      assert Next(h.tags, b) in h.tags;
      if h.lists[WILDERNESS] != [] && Next(h.tags, b) == edge {
        PredUnique(h.tags, h.First(), edge, b, h.lists[WILDERNESS][0]);
      }
    }
  }

  lemma ExtendedTiled(h: Heap)
    requires Inv(h)
    ensures var g := Extended(h);
            && Tiled(g.tags, g.First(), g.Epilogue())
            && PalMatches(g.tags, g.First(), g.Epilogue())
            && Coalesced(g.tags, g.Epilogue())
  {
    var g := Extended(h);
    ExtendedShapes(h);
    forall b {:trigger Next(g.tags, b)} | b in g.tags && b != g.Epilogue()
      ensures Next(g.tags, b) in g.tags
      ensures g.tags[Next(g.tags, b)].pal == g.tags[b].alloc
      ensures !g.tags[b].alloc ==> g.tags[Next(g.tags, b)].alloc
    {
      ExtendedLinks(h, b);
    }
    ExtendedApart(h);
  }

  lemma ExtendedApart(h: Heap)
    requires Inv(h)
    ensures var t := Extended(h).tags; forall a, b :: a in t && b in t && a < b ==> a + t[a].size <= b
  {
    WildernessIsLast(h);
    assert forall b :: b in h.tags ==> BlockShape(h.tags, h.First(), h.Epilogue(), b);
  }

  lemma ExtendedViews(h: Heap)
    requires Inv(h)
    ensures var g := Extended(h);
            && Filed(g.tags, g.Epilogue(), g.lists)
            && LiveBlocks(g) == LiveBlocks(h)
  {
    WildernessIsLast(h);
    EdgeOnly(h);
    if h.lists[WILDERNESS] == [] {
      NewWildernessViews(h);
    } else {
      GrownWildernessViews(h);
    }
    hide Inv, Extended, Filed, LiveBlocks;
  }

  /** Blocks end at or before the epilogue, and a free block there is the wilderness. */
  lemma EdgeOnly(h: Heap)
    requires Inv(h)
    ensures var edge := h.Epilogue();
            forall a :: a in h.tags ==>
              && a + h.tags[a].size <= edge
              && (!h.tags[a].alloc && a + h.tags[a].size == edge ==> h.lists[WILDERNESS] == [a])
  {
    var edge := h.Epilogue();
    WildernessIsLast(h);
    forall a | a in h.tags
      ensures a + h.tags[a].size <= edge
      ensures !h.tags[a].alloc && a + h.tags[a].size == edge ==> h.lists[WILDERNESS] == [a]
    {
      FooterApart(h.tags, h.First(), edge, a, edge);
      if !h.tags[a].alloc && a + h.tags[a].size == edge {
        assert a in Homes(h.tags, edge);
        assert a in h.lists[WILDERNESS];
      }
    }
  }

  lemma NewWildernessViews(h: Heap)
    requires Inv(h) && h.lists[WILDERNESS] == []
    ensures var g := Extended(h); Filed(g.tags, g.Epilogue(), g.lists) && LiveBlocks(g) == LiveBlocks(h)
  {
    EdgeOnly(h);
    EpilogueIn(h);
    var g, edge := Extended(h), h.Epilogue();
    NewWildernessHomes(h.tags, edge, g.tags, g.Epilogue());
    PushedHolds(h.lists, Homes(h.tags, edge), WILDERNESS, edge);
    assert [edge] + h.lists[WILDERNESS] == [edge];
    hide Homes, LiveIn;
  }

  lemma GrownWildernessViews(h: Heap)
    requires Inv(h) && h.lists[WILDERNESS] != []
    ensures var g := Extended(h); Filed(g.tags, g.Epilogue(), g.lists) && LiveBlocks(g) == LiveBlocks(h)
  {
    WildernessIsLast(h);
    EdgeOnly(h);
    EpilogueIn(h);
    var g, edge := Extended(h), h.Epilogue();
    GrownWildernessHomes(h.tags, edge, g.tags, g.Epilogue(), h.lists[WILDERNESS][0]);
    hide Homes, LiveIn;
  }

  lemma EpilogueIn(h: Heap)
    requires Inv(h)
    ensures h.Epilogue() in h.tags && h.tags[h.Epilogue()].alloc && h.Epilogue() + PAGE_SIZE !in h.tags
  {
    var edge := h.Epilogue();
    FooterApart(h.tags, h.First(), edge, edge, edge);
    if edge + PAGE_SIZE in h.tags { FooterApart(h.tags, h.First(), edge, edge + PAGE_SIZE, edge); }
  }

  lemma NewWildernessHomes(tags: Tags, edge: int, t: Tags, epi: int)
    requires edge in tags && tags[edge].alloc && epi !in tags && epi == edge + PAGE_SIZE
    requires t == tags[edge := Tag(PAGE_SIZE, true, false)][epi := Tag(0, false, true)]
    requires forall a :: a in tags ==> a + tags[a].size <= edge
    requires forall a :: a in tags && !tags[a].alloc ==> a + tags[a].size != edge
    ensures Homes(t, epi) == Homes(tags, edge)[edge := WILDERNESS] && edge !in Homes(tags, edge)
    ensures LiveIn(t, epi) == LiveIn(tags, edge)
  {
    assert forall a :: a in t <==> a in tags || a == epi;
  }

  lemma GrownWildernessHomes(tags: Tags, edge: int, t: Tags, epi: int, w: int)
    requires edge in tags && tags[edge].alloc && epi !in tags && epi == edge + PAGE_SIZE
    requires w in tags && w != edge && !tags[w].alloc && w + tags[w].size == edge
    requires t == (tags - {edge})[w := tags[w].(size := tags[w].size + PAGE_SIZE)][epi := Tag(0, false, true)]
    requires forall a :: a in tags ==> a + tags[a].size <= edge
    requires forall a :: a in tags && !tags[a].alloc && a != w ==> a + tags[a].size != edge
    ensures Homes(t, epi) == Homes(tags, edge)
    ensures LiveIn(t, epi) == LiveIn(tags, edge)
  {
    assert forall a :: a in t <==> (a in tags && a != edge) || a == epi;
  }

  lemma ExtendedCorrect(h: Heap)
    requires Inv(h)
    ensures Inv(Extended(h)) && LiveBlocks(Extended(h)) == LiveBlocks(h)
    ensures WildernessSize(Extended(h)) == WildernessSize(h) + PAGE_SIZE
  {
    ExtendedTiled(h);
    ExtendedViews(h);
    WildernessIsLast(h);
  }

  lemma ExtendedSpan(h: Heap)
    requires Inv(h)
    ensures Extended(h).start == h.start && Extended(h).end == h.end + PAGE_SIZE
  {
  }

  /** The growth loop of sf_malloc: pages are added one by one until the wilderness holds `need` bytes. */
  function Grown(h: Heap, need: int, limit: int): (r: (Heap, bool))
    requires Inv(h)
    ensures Inv(r.0)
    decreases limit - h.end
  {
    if h.end + PAGE_SIZE > limit then (h, false) else
      ExtendedCorrect(h);
      var g := Extended(h);
      if WildernessSize(g) >= need then (g, true) else Grown(g, need, limit)
  }

  /**
   * Growth stops at the least number of pages that suffices; it fails exactly when all the
   * pages the limit still allows would not be enough, and then it has added all of them.
   */
  lemma {:induction false} GrownIsLeast(h: Heap, need: int, limit: int)
    requires Inv(h) && WildernessSize(h) < need
    ensures var (g, ok) := Grown(h, need, limit);
            && g.start == h.start && LiveBlocks(g) == LiveBlocks(h)
            && (g.end - h.end) % PAGE_SIZE == 0 && h.end <= g.end
            && WildernessSize(g) == WildernessSize(h) + (g.end - h.end)
            && (ok ==> WildernessSize(g) - PAGE_SIZE < need <= WildernessSize(g) && g.end <= limit)
            && (!ok ==> WildernessSize(g) < need && g.end + PAGE_SIZE > limit)
            && (g.end <= limit || g == h)
    decreases limit - h.end
  {
    hide Inv, LiveBlocks;
    if h.end + PAGE_SIZE <= limit {
      ExtendedCorrect(h);
      ExtendedSpan(h);
      if WildernessSize(Extended(h)) < need { GrownIsLeast(Extended(h), need, limit); }
    }
  }

  // ---- sf_malloc ----

  /** What a call leaves behind: the heap and the payload address handed out, 0 for NULL. */
  datatype Outcome = Outcome(heap: Heap, ptr: int)

  function Malloc(h: Heap, limit: int, size: int): Outcome
    requires Inv(h) && Request(size)
  {
    if size == 0 then Outcome(h, 0) else
      var need := Adjusted(size);
      FirstFitMeaning(h, need, 0);
      match FirstFit(h, need, 0)
      case Fit(a) => Outcome(Placed(h, a, need), a + 8)
      case NoFit =>
        var (g, ok) := Grown(h, need, limit);
        NoFitWilderness(h, need);
        GrownIsLeast(h, need, limit);
        if ok then WildernessFits(g, need);
          Outcome(Placed(g, g.lists[WILDERNESS][0], need), g.lists[WILDERNESS][0] + 8) else Outcome(g, 0)
  }

  lemma NoFitWilderness(h: Heap, need: int)
    requires Inv(h) && FirstFit(h, need, 0).NoFit? && need >= MIN_BLOCK
    ensures WildernessSize(h) < need
  {
    FirstFitMeaning(h, need, 0);
    WildernessIsLast(h);
    if h.lists[WILDERNESS] != [] {
      assert !Fits(h.tags, h.lists[WILDERNESS][0], need);
    }
  }

  lemma WildernessFits(h: Heap, need: int)
    requires Inv(h) && 0 < need <= WildernessSize(h)
    ensures |h.lists| == 8 && h.lists[WILDERNESS] != [] && Fits(h.tags, h.lists[WILDERNESS][0], need)
  {
    WildernessIsLast(h);
  }

  /** Neither a free block nor the wilderness with every page still allowed can hold the request. */
  ghost predicate Exhausted(h: Heap, limit: int, need: int)
    requires Inv(h)
  {
    && (forall a :: a in h.tags && !h.tags[a].alloc ==> h.tags[a].size < need)
    && (forall pages: nat :: h.end + pages * PAGE_SIZE <= limit ==> WildernessSize(h) + pages * PAGE_SIZE < need)
  }

  /** `a` heads the one block of `g` that is live there but not in `live`. */
  ghost predicate NewBlock(live: map<int, int>, g: Heap, a: int, need: int) {
    && a !in live && a in g.tags && LiveBlocks(g) == live[a := g.tags[a].size]
    && need <= g.tags[a].size < need + MIN_BLOCK
    && a > 0 && (a + 8) % 16 == 0
  }

  lemma PlacedCorrect(h: Heap, a: int, need: int)
    requires Inv(h) && Fits(h.tags, a, need) && need >= MIN_BLOCK && need % 16 == 0
    ensures Inv(Placed(h, a, need)) && NewBlock(LiveBlocks(h), Placed(h, a, need), a, need)
    ensures Placed(h, a, need).start == h.start && Placed(h, a, need).end == h.end
  {
    assert a > 0 && (a + 8) % 16 == 0 by { assert BlockShape(h.tags, h.First(), h.Epilogue(), a); }
    hide Inv;
    PlacedInv(h, a, need);
    PlacedLive(h, a, need);
    FreeHasNext(h, a);
  }

  lemma NoFitGrown(h: Heap, limit: int, need: int)
    requires Inv(h) && need >= MIN_BLOCK && FirstFit(h, need, 0).NoFit?
    ensures WildernessSize(h) < need
    ensures Grown(h, need, limit).1 <==> !Exhausted(h, limit, need)
  {
    hide Inv, LiveBlocks, WildernessSize, FirstFit, Grown, ListOf;
    NoFitWilderness(h, need);
    NoFitOrFit(h, need);
    GrownIsLeast(h, need, limit);
    var (g, ok) := Grown(h, need, limit);
    var pages := (g.end - h.end) / PAGE_SIZE;
    assert g.end == h.end + pages * PAGE_SIZE;
    assert forall a :: a in h.tags && !h.tags[a].alloc ==> !Fits(h.tags, a, need);
  }

  ghost predicate MallocMeets(h: Heap, limit: int, need: int, r: Outcome)
    requires Inv(h)
  {
    match r
    case Outcome(g, ptr) =>
      && Inv(g) && g.start == h.start && h.end <= g.end <= limit
      && (ptr == 0 <==> Exhausted(h, limit, need))
      && (if ptr == 0 then LiveBlocks(g) == LiveBlocks(h) else NewBlock(LiveBlocks(h), g, ptr - 8, need))
  }

  lemma MallocFits(h: Heap, limit: int, need: int, a: int)
    requires Inv(h) && h.end <= limit && need >= MIN_BLOCK && need % 16 == 0 && Fits(h.tags, a, need)
    ensures MallocMeets(h, limit, need, Outcome(Placed(h, a, need), a + 8))
  {
    hide Inv, Placed, LiveBlocks, NewBlock;
    PlacedCorrect(h, a, need);
    PlacedAbove(h, a);
    assert !Exhausted(h, limit, need);
  }

  lemma PlacedAbove(h: Heap, a: int)
    requires Inv(h) && a in h.tags
    ensures a + 8 != 0
  {
    assert BlockShape(h.tags, h.First(), h.Epilogue(), a);
  }

  lemma MallocGrows(h: Heap, limit: int, need: int)
    requires Inv(h) && h.end <= limit && need >= MIN_BLOCK && need % 16 == 0 && FirstFit(h, need, 0).NoFit?
    ensures var (g, ok) := Grown(h, need, limit);
            if ok then g.lists[WILDERNESS] != [] && Fits(g.tags, g.lists[WILDERNESS][0], need)
              && MallocMeets(h, limit, need,
                 Outcome(Placed(g, g.lists[WILDERNESS][0], need), g.lists[WILDERNESS][0] + 8))
            else MallocMeets(h, limit, need, Outcome(g, 0))
  {
    hide Inv, Exhausted, Placed, FirstFit;
    var (g, ok) := Grown(h, need, limit);
    NoFitGrown(h, limit, need);
    GrownIsLeast(h, need, limit);
    if ok {
      WildernessFits(g, need);
      PlacedCorrect(g, g.lists[WILDERNESS][0], need);
    }
  }

  /**
   * A request either yields one new live block, aligned, large enough and at most a splinter too
   * large, with every other live block as it was; or memory is exhausted and nothing live changed.
   */
  lemma MallocCorrect(h: Heap, limit: int, size: int)
    requires Inv(h) && Request(size) && size > 0 && h.end <= limit
    ensures MallocMeets(h, limit, Adjusted(size), Malloc(h, limit, size))
  {
    hide Inv, MallocMeets, Fits;
    var need := Adjusted(size);
    FirstFitMeaning(h, need, 0);
    match FirstFit(h, need, 0)
    case Fit(a) => MallocFits(h, limit, need, a);
    case NoFit => MallocGrows(h, limit, need);
  }

  /**
   * The heap grows only if no free block in any list is long enough, and then by the least number of
   * pages with which the wilderness is.
   */
  lemma GrowsAtLeast(h: Heap, limit: int, size: int)
    requires Inv(h) && Request(size) && size > 0 && h.end <= limit
    ensures var r, need := Malloc(h, limit, size), Adjusted(size);
            && (forall a :: Fits(h.tags, a, need) ==> r.heap.end == h.end)
            && ((forall a :: !Fits(h.tags, a, need)) && r.ptr != 0 ==>
                  && h.end < r.heap.end && (r.heap.end - h.end) % PAGE_SIZE == 0
                  && WildernessSize(h) + (r.heap.end - h.end) - PAGE_SIZE < need <=
                     WildernessSize(h) + (r.heap.end - h.end))
  {
    hide Inv, LiveBlocks, Fits, WildernessSize, Adjusted;
    var need := Adjusted(size);
    FirstFitMeaning(h, need, 0);
    NoFitOrFit(h, need);
    if FirstFit(h, need, 0).NoFit? {
      NoFitWilderness(h, need);
      GrownIsLeast(h, need, limit);
    }
  }

  lemma NoFitOrFit(h: Heap, need: int)
    requires Inv(h)
    ensures FirstFit(h, need, 0).NoFit? <==> forall a :: !Fits(h.tags, a, need)
  {
    FirstFitMeaning(h, need, 0);
    hide Inv;
    assert forall a :: Fits(h.tags, a, need) ==> ListOf(h.tags, h.Epilogue(), a) >= 0;
  }
}
