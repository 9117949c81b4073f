/** The words written when the heap is started or extended by a page, and the user's own writes. */
module HeapGrowthWords {
  import opened HeapTags
  import opened HeapModel
  import opened HeapAllocation
  import opened HeapMemory
  import opened HeapRefinement

  ghost predicate Mapped(m: Mem, end: int) { forall a :: 0 <= a < end && a % 8 == 0 ==> a in m }

  /** Header and footer of the last block, and the epilogue after it. */
  function LastBlock(m: Mem, a: int, t: Tag): Mem {
    m[a := Pack(t)][a + t.size - 8 := Pack(t)][a + t.size := Pack(Tag(0, false, true))]
  }

  function ExtendedWords(m: Mem, h: Heap): Mem
    requires Inv(h)
  {
    var epi := h.Epilogue();
    if h.lists[WILDERNESS] == [] then OnlyNode(LastBlock(m, epi, Tag(PAGE_SIZE, true, false)), Head(WILDERNESS), epi)
    else
      WildernessIsLast(h);
      var w := h.lists[WILDERNESS][0];
      LastBlock(m, w, h.tags[w].(size := h.tags[w].size + PAGE_SIZE))
  }

  /** Storing a last block on top of tags that all end at or before its header. */
  lemma LastBlockStored(m: Mem, before: Tags, a: int, t: Tag)
    requires TagsStored(m, before) && t.size >= MIN_BLOCK && t.size % 16 == 0 && a !in before
    requires forall b :: b in before ==> b + before[b].size <= a && before[b].size >= MIN_BLOCK
    ensures TagsStored(LastBlock(m, a, t), before[a := t][a + t.size := Tag(0, false, true)])
  {
    hide Pack;
    var n, after := LastBlock(m, a, t), before[a := t][a + t.size := Tag(0, false, true)];
    forall b | b in after
      ensures Word(n, b) == Pack(after[b]) && (!after[b].alloc ==> Word(n, b + after[b].size - 8) == Pack(after[b]))
    {
      if b in before {
        var f := b + after[b].size - 8;
        assert after[b] == before[b] && (!after[b].alloc ==> Word(n, f) == Word(m, f));
      }
    }
  }

  /** The heap without its epilogue, and without its wilderness if there is one. */
  function Front(h: Heap): Tags
    requires Inv(h)
  {
    if h.lists[WILDERNESS] == [] then h.tags - {h.Epilogue()} else h.tags - {h.Epilogue(), h.lists[WILDERNESS][0]}
  }

  lemma FrontEnds(h: Heap, a: int)
    requires Inv(h) && a == (if h.lists[WILDERNESS] == [] then h.Epilogue() else h.lists[WILDERNESS][0])
    ensures a !in Front(h) && forall b :: b in Front(h) ==> b + Front(h)[b].size <= a && Front(h)[b].size >= MIN_BLOCK
    ensures a in h.tags && a + h.tags[a].size <= h.Epilogue()
  {
    WildernessIsLast(h);
    assert BlockShape(h.tags, h.First(), h.Epilogue(), a);
    forall b | b in Front(h)
      ensures b + Front(h)[b].size <= a && Front(h)[b].size >= MIN_BLOCK
    {
      assert BlockShape(h.tags, h.First(), h.Epilogue(), b);
      assert b < a ==> b + h.tags[b].size <= a;
    }
  }

  lemma ExtendedStored(m: Mem, h: Heap)
    requires Inv(h) && TagsStored(m, h.tags)
    ensures h.lists[WILDERNESS] == [] ==>
      TagsStored(LastBlock(m, h.Epilogue(), Tag(PAGE_SIZE, true, false)), Extended(h).tags)
    ensures h.lists[WILDERNESS] != [] ==> TagsStored(ExtendedWords(m, h), Extended(h).tags)
  {
    hide Inv, TagsStored, Front, LastBlock, Extended;
    EightLists(h);
    WildernessIsLast(h);
    var epi, l := h.Epilogue(), h.lists[WILDERNESS];
    var a := if l == [] then epi else l[0];
    FrontEnds(h, a);
    var t := if l == [] then Tag(PAGE_SIZE, true, false) else h.tags[a].(size := h.tags[a].size + PAGE_SIZE);
    FrontExtended(h, a, t);
    FrontStored(m, h);
    if l != [] { FreeHasNext(h, a); }
    LastBlockStored(m, Front(h), a, t);
  }

  lemma EightLists(h: Heap)
    requires Inv(h)
    ensures |h.lists| == 8
  {
  }

  lemma FrontStored(m: Mem, h: Heap)
    requires Inv(h) && TagsStored(m, h.tags)
    ensures TagsStored(m, Front(h))
  {
    WildernessIsLast(h);
  }

  lemma FrontExtended(h: Heap, a: int, t: Tag)
    requires Inv(h)
    requires if h.lists[WILDERNESS] == [] then a == h.Epilogue() && t == Tag(PAGE_SIZE, true, false)
             else a == h.lists[WILDERNESS][0] && a in h.tags && t == h.tags[a].(size := h.tags[a].size + PAGE_SIZE)
    ensures Front(h)[a := t][a + t.size := Tag(0, false, true)] == Extended(h).tags
  {
    WildernessIsLast(h);
    hide Inv;
    var l, r := Front(h)[a := t][a + t.size := Tag(0, false, true)], Extended(h).tags;
    assert forall b :: b in l <==> b in r;
  }

  /** The new page lies beyond every link. */
  lemma BeyondNoLink(h: Heap, x: int)
    requires Inv(h) && h.start >= HEADS_END && x >= h.Epilogue()
    ensures NoLink(h.lists, x)
  {
    ListsDisjoint(h);
    assert BlockShape(h.tags, h.First(), h.Epilogue(), h.Epilogue());
    forall i, y | 0 <= i < 8 && y in h.lists[i]
      ensures y + 16 < x
    {
      FreeHasNext(h, y);
      assert BlockShape(h.tags, h.First(), h.Epilogue(), Next(h.tags, y));
    }
  }

  lemma LastBlockLinks(m: Mem, h: Heap, a: int, t: Tag)
    requires Inv(h) && h.start >= HEADS_END && Linked(m, h.lists) && a in h.tags && a + t.size - 8 >= h.Epilogue()
    ensures Linked(LastBlock(m, a, t), h.lists)
  {
    var f, e := a + t.size - 8, a + t.size;
    assert f >= HEADS_END && e >= HEADS_END by {
      assert BlockShape(h.tags, h.First(), h.Epilogue(), a);
      assert BlockShape(h.tags, h.First(), h.Epilogue(), h.First());
    }
    TagWriteKeepsLinks(m, h, a, a, Pack(t));
    BeyondNoLink(h, f);
    BeyondNoLink(h, e);
    hide Inv;
    LinkedFrame(m[a := Pack(t)], h.lists, f, Pack(t));
    LinkedFrame(m[a := Pack(t)][f := Pack(t)], h.lists, e, Pack(Tag(0, false, true)));
  }

  lemma OnlyIsPushed(m: Mem, lists: seq<seq<int>>, i: nat, p: int)
    requires Linked(m, lists) && i < 8 && lists[i] == []
    ensures OnlyNode(m, Head(i), p) == PushedFront(m, Head(i), p)
    ensures lists[i := [p]] == Pushed(lists, i, p)
  {
    assert Ring(m, Head(i), []);
    assert [p] + lists[i] == [p];
  }

  lemma ExtendedRepresents(m: Mem, h: Heap)
    requires Inv(h) && Represents(m, h) && Mapped(m, h.end + PAGE_SIZE)
    ensures Represents(ExtendedWords(m, h), Extended(h))
  {
    hide Inv, LastBlock, OnlyNode, PushedFront, TagsStored, Linked;
    EightLists(h);
    WildernessIsLast(h);
    ExtendedStored(m, h);
    EpilogueIsTag(h);
    ExtendedMapped(m, h);
    if h.lists[WILDERNESS] == [] {
      var epi, t := h.Epilogue(), Tag(PAGE_SIZE, true, false);
      LastBlockLinks(m, h, epi, t);
      OnlyIsPushed(LastBlock(m, epi, t), h.lists, WILDERNESS, epi);
      NewWildernessStep(LastBlock(m, epi, t), h);
    } else {
      var w := h.lists[WILDERNESS][0];
      LastBlockLinks(m, h, w, h.tags[w].(size := h.tags[w].size + PAGE_SIZE));
    }
  }

  lemma ExtendedMapped(m: Mem, h: Heap)
    requires Inv(h)
    ensures forall a :: a in m ==> a in ExtendedWords(m, h)
    ensures Extended(h).start == h.start && Extended(h).end == h.end + PAGE_SIZE
  {
  }

  lemma EpilogueIsTag(h: Heap)
    requires Inv(h)
    ensures h.Epilogue() in h.tags
  {
  }

  lemma NewWildernessStep(n: Mem, h: Heap)
    requires Inv(h) && h.start >= HEADS_END && h.lists[WILDERNESS] == []
    requires Linked(n, h.lists) && TagsStored(n, Extended(h).tags)
    ensures var k := PushedFront(n, Head(WILDERNESS), h.Epilogue());
            Linked(k, Pushed(h.lists, WILDERNESS, h.Epilogue())) && TagsStored(k, Extended(h).tags)
    ensures forall x :: NoLink(h.lists, x) && x < h.Epilogue() ==>
      Word(PushedFront(n, Head(WILDERNESS), h.Epilogue()), x) == Word(n, x)
  {
    var t, epi := Extended(h).tags, h.Epilogue();
    ListsDisjoint(h);
    ExtendedTiled(h);
    assert BlockShape(h.tags, h.First(), epi, epi);
    forall i, y | 0 <= i < 8 && y in h.lists[i]
      ensures LinksHarmless(t, y)
    {
      assert BlockShape(h.tags, h.First(), epi, y);
      BlockLinksHarmless(t, h.First(), Extended(h).Epilogue(), y);
    }
    HeadLinksHarmless(t, h.First(), Extended(h).Epilogue());
    BlockLinksHarmless(t, h.First(), Extended(h).Epilogue(), epi);
    hide Inv, LinksHarmless, TagsStored, Linked;
    PushStep(n, t, h.lists, WILDERNESS, epi);
  }

  lemma ExtendedSpares(m: Mem, h: Heap, b: int)
    requires Inv(h) && Represents(m, h) && Live(h, b)
    ensures PayloadKept(m, ExtendedWords(m, h), b, h.tags[b].size)
  {
    WildernessIsLast(h);
    ExtendedStored(m, h);
    assert Next(h.tags, b) <= h.Epilogue() by { assert BlockShape(h.tags, h.First(), h.Epilogue(), Next(h.tags, b)); }
    forall x | b < x < Next(h.tags, b)
      ensures Word(ExtendedWords(m, h), x) == Word(m, x)
    {
      PrivateWord(h, b, x);
      if h.lists[WILDERNESS] == [] {
        var n := LastBlock(m, h.Epilogue(), Tag(PAGE_SIZE, true, false));
        assert BlockShape(h.tags, h.First(), h.Epilogue(), h.Epilogue());
        LastBlockLinks(m, h, h.Epilogue(), Tag(PAGE_SIZE, true, false));
        OnlyIsPushed(n, h.lists, WILDERNESS, h.Epilogue());
        NewWildernessStep(n, h);
      }
    }
  }

  // ---- the first page ----

  /** Dummy head `i` linked to itself. */
  function SelfLinked(m: Mem, i: int): Mem { m[Head(i) + 8 := Head(i)][Head(i) + 16 := Head(i)] }

  /** The heads below `n` are empty lists. */
  ghost predicate HeadsEmpty(m: Mem, n: int) {
    forall i :: 0 <= i < n ==> NextOf(m, Head(i)) == Head(i) && PrevOf(m, Head(i)) == Head(i)
  }

  lemma NoHeads(m: Mem)
    ensures HeadsEmpty(m, 0)
  {
  }

  lemma SelfLinkedGrows(m: Mem, i: int)
    requires 0 <= i < 8 && HeadsEmpty(m, i)
    ensures HeadsEmpty(SelfLinked(m, i), i + 1)
  {
  }

  lemma InitialRepresents(m: Mem, start: int)
    requires start >= HEADS_END && start % 16 == 0 && HeadsEmpty(m, 8) && Mapped(m, start + PAGE_SIZE)
    ensures Represents(OnlyNode(LastBlock(m, start + 40, Tag(PAGE_SIZE - 48, true, false)), Head(WILDERNESS),
            start + 40), Initial(start))
  {
    var a, t := start + 40, Tag(PAGE_SIZE - 48, true, false);
    LastBlockStored(m, map[], a, t);
    InitialTags(LastBlock(m, a, t), start);
    InitialLinks(LastBlock(m, a, t), start);
  }

  lemma InitialTags(n: Mem, start: int)
    requires start >= HEADS_END && start % 16 == 0 && TagsStored(n, Initial(start).tags)
    ensures TagsStored(OnlyNode(n, Head(WILDERNESS), start + 40), Initial(start).tags)
  {
    var t, d, p := Initial(start).tags, Head(WILDERNESS), start + 40;
    InitialHarmless(start);
    hide Harmless, TagsStored, Initial, Head, OnlyNode;
    OnlyNodeTags(n, t, d, p);
  }

  lemma OnlyNodeTags(n: Mem, t: Tags, d: int, p: int)
    requires TagsStored(n, t) && Harmless(t, d + 8) && Harmless(t, d + 16) && Harmless(t, p + 8) && Harmless(t, p + 16)
    ensures TagsStored(OnlyNode(n, d, p), t)
  {
    hide Harmless, TagsStored;
    var m1 := n[d + 8 := p];
    var m2 := m1[d + 16 := p];
    TagsFrame(n, t, d + 8, p);
    TagsFrame(m1, t, d + 16, p);
    TagsFrame(m2, t, p + 16, d);
    TagsFrame(m2[p + 16 := d], t, p + 8, d);
  }

  lemma InitialHarmless(start: int)
    requires start >= HEADS_END && start % 16 == 0
    ensures var t, d, p := Initial(start).tags, Head(WILDERNESS), start + 40;
            Harmless(t, d + 8) && Harmless(t, d + 16) && Harmless(t, p + 8) && Harmless(t, p + 16)
  {
    var t := Initial(start).tags;
    assert forall a :: a in t <==> a == start + 40 || a == start + PAGE_SIZE - 8;
  }

  lemma InitialLinks(n: Mem, start: int)
    requires start >= HEADS_END && start % 16 == 0 && HeadsEmpty(n, 8)
    ensures Linked(OnlyNode(n, Head(WILDERNESS), start + 40), Initial(start).lists)
  {
    var a, lists := start + 40, Initial(start).lists;
    forall i | 0 <= i < 8
      ensures Ring(OnlyNode(n, Head(WILDERNESS), a), Head(i), lists[i])
    {
      HeadIsNode(i);
      if i == 7 {
        RingOnly(n, Head(7), a);
      } else {
        OnlyNodeElsewhere(n, Head(7), a, Head(i));
        hide OnlyNode, Head;
        assert lists[i] == [];
      }
    }
  }

  lemma OnlyNodeElsewhere(m: Mem, d: int, p: int, e: int)
    requires IsNode(d) && !IsBlock(d) && IsBlock(p) && IsNode(e) && !IsBlock(e) && e != d
    ensures NextOf(OnlyNode(m, d, p), e) == NextOf(m, e) && PrevOf(OnlyNode(m, d, p), e) == PrevOf(m, e)
  {
  }

  // ---- writes of the user ----

  /** Any word written into the payload of a live block leaves the heap as it is. */
  lemma PayloadWriteRepresents(m: Mem, h: Heap, b: int, x: int, v: int)
    requires Inv(h) && Represents(m, h) && Live(h, b) && b < x < Next(h.tags, b) && x % 8 == 0
    ensures Represents(m[x := v], h)
  {
    PrivateWord(h, b, x);
    ListsDisjoint(h);
    LinkedFrame(m, h.lists, x, v);
    forall a | a in h.tags
      ensures x != a && (!h.tags[a].alloc ==> x != a + h.tags[a].size - 8)
    {
      if !h.tags[a].alloc {
        FreeHasNext(h, a);
        OtherNext(h, a, b);
      }
    }
    TagsFrame(m, h.tags, x, v);
  }

  lemma OtherNext(h: Heap, a: int, b: int)
    requires Inv(h) && a in h.tags && !h.tags[a].alloc && Live(h, b)
    ensures Next(h.tags, a) != Next(h.tags, b)
  {
    FreeHasNext(h, a);
    if Next(h.tags, a) == Next(h.tags, b) { PredUnique(h.tags, h.First(), h.Epilogue(), a, b); }
  }

  lemma WildernessHead(m: Mem, h: Heap)
    requires Inv(h) && Represents(m, h)
    ensures |h.lists| == 8 && |h.lists[WILDERNESS]| <= 1
    ensures NextOf(m, Head(WILDERNESS)) == if h.lists[WILDERNESS] == [] then Head(WILDERNESS)
            else h.lists[WILDERNESS][0]
    ensures h.lists[WILDERNESS] != [] ==> h.lists[WILDERNESS][0] in h.tags && IsBlock(h.lists[WILDERNESS][0])
  {
    WildernessIsLast(h);
    ListsDisjoint(h);
    assert Ring(m, Head(WILDERNESS), h.lists[WILDERNESS]);
  }

  /** The first page: what the code writes, in its order, amounts to the initial heap. */
  lemma FirstPage(m: Mem, start: int)
    requires start >= HEADS_END && start % 16 == 0 && HeadsEmpty(m, 8) && Mapped(m, start + PAGE_SIZE)
    requires Word(m, start + PAGE_SIZE - 8) == 1
    ensures var a, v := start + 40, Pack(Tag(PAGE_SIZE - 48, true, false));
            Represents(OnlyNode(m[a := v][a + 8 := 0][a + 16 := 0][start + PAGE_SIZE - 16 := v], Head(WILDERNESS), a),
              Initial(start))
  {
    var a, t := start + 40, Tag(PAGE_SIZE - 48, true, false);
    var k := m[a + 8 := 0][a + 16 := 0];
    assert HeadsEmpty(k, 8) && Mapped(k, start + PAGE_SIZE);
    InitialRepresents(k, start);
    assert LastBlock(k, a, t) == m[a := Pack(t)][a + 8 := 0][a + 16 := 0][start + PAGE_SIZE - 16 := Pack(t)] by {
      assert start + PAGE_SIZE - 8 in m && m[start + PAGE_SIZE - 8] == 1;
    }
  }
}
