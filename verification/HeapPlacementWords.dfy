/** The words written when a block is handed out, cut, or the heap is started or extended. */
module HeapPlacementWords {
  import opened HeapTags
  import opened HeapModel
  import opened HeapAllocation
  import opened HeapOperations
  import opened HeapMemory
  import opened HeapRefinement

  // ---- handing out a whole free block ----

  function TakenWords(m: Mem, h: Heap, a: int): Mem
    requires a in h.tags && Next(h.tags, a) in h.tags
  {
    Unlinked(m, a)[a := Pack(h.tags[a].(alloc := true))][Next(h.tags, a) := Pack(h.tags[Next(h.tags, a)].(pal := true))]
  }

  lemma TakenStored(m: Mem, tags: Tags, first: int, epi: int, a: int)
    requires Tiled(tags, first, epi) && a in tags && a != epi && Next(tags, a) in tags && tags[Next(tags, a)].alloc
    requires TagsStored(m, tags)
    ensures var n := Next(tags, a);
            TagsStored(m[a := Pack(tags[a].(alloc := true))][n := Pack(tags[n].(pal := true))], Taken(tags, a))
  {
    var next, t := Next(tags, a), Taken(tags, a);
    var n := m[a := Pack(tags[a].(alloc := true))][next := Pack(tags[next].(pal := true))];
    forall b | b in t
      ensures Word(n, b) == Pack(t[b]) && (!t[b].alloc ==> Word(n, b + t[b].size - 8) == Pack(t[b]))
    {
      assert BlockShape(tags, first, epi, b) && BlockShape(tags, first, epi, a) && BlockShape(tags, first, epi, next);
      var f := b + t[b].size - 8;
      assert !t[b].alloc ==> t[b] == tags[b] && f != a && f != next && Word(n, f) == Word(m, f);
    }
  }

  lemma TakenLinks(m: Mem, h: Heap, a: int, i: nat, v: int, w: int)
    requires Inv(h) && h.start >= HEADS_END && i < 8 && a in h.tags && Next(h.tags, a) in h.tags
    requires Linked(m, Removed(h.lists, i, a))
    ensures Linked(m[a := v][Next(h.tags, a) := w], Removed(h.lists, i, a))
  {
    var next, lists := Next(h.tags, a), Removed(h.lists, i, a);
    ListsDisjoint(h);
    RemovedDisjoint(h.lists, i, a);
    assert BlockShape(h.tags, h.First(), h.Epilogue(), a) && BlockShape(h.tags, h.First(), h.Epilogue(), next);
    forall j, y | 0 <= j < 8 && y in lists[j]
      ensures y + 8 != a && y + 16 != a && y + 8 != next && y + 16 != next
    {
      TagIsNoLink(h.tags, h.First(), h.Epilogue(), a, y);
      TagIsNoLink(h.tags, h.First(), h.Epilogue(), next, y);
    }
    hide Inv, Removed;
    LinkedFrame(m, lists, a, v);
    LinkedFrame(m[a := v], lists, next, w);
  }

  lemma TakenStep(m: Mem, h: Heap, a: int)
    requires Inv(h) && Represents(m, h) && a in h.tags && !h.tags[a].alloc
    ensures var i := ListOf(h.tags, h.Epilogue(), a);
            && Linked(Unlinked(m, a), Removed(h.lists, i, a)) && TagsStored(Unlinked(m, a), h.tags)
    ensures forall x :: NoLink(h.lists, x) ==> Word(Unlinked(m, a), x) == Word(m, x)
  {
    FreeIsListed(h, a);
    OwnLinksSafe(h);
    UnlinkStep(m, h.tags, h.lists, ListOf(h.tags, h.Epilogue(), a), a);
  }

  lemma TakenRepresents(m: Mem, h: Heap, a: int, need: int)
    requires Inv(h) && Represents(m, h) && Fits(h.tags, a, need) && LeavesSplinter(h.tags[a].size, need)
    ensures Next(h.tags, a) in h.tags
    ensures Represents(TakenWords(m, h, a), Placed(h, a, need))
  {
    var next := Next(h.tags, a);
    FreeHasNext(h, a);
    TakenStep(m, h, a);
    TakenStored(Unlinked(m, a), h.tags, h.First(), h.Epilogue(), a);
    hide Inv;
    TakenLinks(Unlinked(m, a), h, a, ListOf(h.tags, h.Epilogue(), a),
               Pack(h.tags[a].(alloc := true)), Pack(h.tags[next].(pal := true)));
  }

  lemma TakenSpares(m: Mem, h: Heap, a: int, b: int)
    requires Inv(h) && Represents(m, h) && a in h.tags && !h.tags[a].alloc && Live(h, b)
    ensures Next(h.tags, a) in h.tags
    ensures PayloadKept(m, TakenWords(m, h, a), b, h.tags[b].size)
  {
    FreeHasNext(h, a);
    TakenStep(m, h, a);
    forall x | b < x < Next(h.tags, b)
      ensures Word(TakenWords(m, h, a), x) == Word(m, x)
    {
      PrivateWord(h, b, x);
    }
  }

  // ---- cutting a block ----

  /** Headers of both parts, and the footer of the second if it is free. */
  function SplitTagWords(m: Mem, tags: Tags, a: int, need: int, restAlloc: bool): Mem
    requires a in tags
  {
    var v := Pack(Tag(tags[a].size - need, true, restAlloc));
    var n := m[a := Pack(Tag(need, tags[a].pal, true))][a + need := v];
    if restAlloc then n else n[Next(tags, a) - 8 := v]
  }

  lemma SplitStored(m: Mem, tags: Tags, first: int, epi: int, a: int, need: int, restAlloc: bool)
    requires Tiled(tags, first, epi) && a in tags && a != epi && TagsStored(m, tags)
    requires need >= MIN_BLOCK && need % 16 == 0 && tags[a].size - need >= MIN_BLOCK
    ensures TagsStored(SplitTagWords(m, tags, a, need, restAlloc), Split(tags, a, need, restAlloc))
  {
    hide Pack, BlockShape;
    var t, n := Split(tags, a, need, restAlloc), SplitTagWords(m, tags, a, need, restAlloc);
    assert Next(tags, a) in tags;
    FooterApart(tags, first, epi, a, Next(tags, a));
    forall b | b in t
      ensures Word(n, b) == Pack(t[b]) && (!t[b].alloc ==> Word(n, b + t[b].size - 8) == Pack(t[b]))
    {
      var f := b + t[b].size - 8;
      if b != a && b != a + need {
        FooterApart(tags, first, epi, b, a);
        FooterApart(tags, first, epi, a, b);
        FooterApart(tags, first, epi, b, Next(tags, a));
        assert !t[b].alloc ==> f != a && f != a + need && f != Next(tags, a) - 8 && Word(n, f) == Word(m, f);
      }
    }
  }

  /** A word inside a block, past its link words, is no link. */
  lemma InsideNoLink(h: Heap, a: int, x: int)
    requires Inv(h) && h.start >= HEADS_END && a in h.tags && a + 24 <= x < a + h.tags[a].size
    ensures NoLink(h.lists, x)
  {
    ListsDisjoint(h);
    assert BlockShape(h.tags, h.First(), h.Epilogue(), a);
    forall i, y | 0 <= i < 8 && y in h.lists[i]
      ensures y + 8 != x && y + 16 != x
    {
      assert BlockShape(h.tags, h.First(), h.Epilogue(), y);
    }
  }

  lemma SplitLinks(m: Mem, h: Heap, a: int, need: int, restAlloc: bool)
    requires Inv(h) && h.start >= HEADS_END && a in h.tags && a != h.Epilogue() && Linked(m, h.lists)
    requires need >= MIN_BLOCK && need % 16 == 0 && h.tags[a].size - need >= MIN_BLOCK
    ensures Linked(SplitTagWords(m, h.tags, a, need, restAlloc), h.lists)
  {
    var v := Pack(Tag(h.tags[a].size - need, true, restAlloc));
    var m1 := m[a := Pack(Tag(need, h.tags[a].pal, true))];
    TagWriteKeepsLinks(m, h, a, a, Pack(Tag(need, h.tags[a].pal, true)));
    InsideWrite(m1, h, a, a + need, v);
    InsideWrite(m1[a + need := v], h, a, Next(h.tags, a) - 8, v);
  }

  lemma InsideWrite(m: Mem, h: Heap, a: int, x: int, v: int)
    requires Inv(h) && h.start >= HEADS_END && a in h.tags && a + 24 <= x < a + h.tags[a].size && Linked(m, h.lists)
    ensures Linked(m[x := v], h.lists)
  {
    InsideNoLink(h, a, x);
    hide Inv;
    LinkedFrame(m, h.lists, x, v);
  }

  /** Cutting a live block: two headers are written and nothing else. */
  lemma CutRepresents(m: Mem, h: Heap, p: int, need: int)
    requires Inv(h) && Represents(m, h) && Live(h, p)
    requires need >= MIN_BLOCK && need % 16 == 0 && h.tags[p].size - need >= MIN_BLOCK
    ensures Represents(SplitTagWords(m, h.tags, p, need, true), Cut(h, p, need))
    ensures forall b :: Live(h, b) && b != p ==>
            PayloadKept(m, SplitTagWords(m, h.tags, p, need, true), b, h.tags[b].size)
    ensures PayloadKept(m, SplitTagWords(m, h.tags, p, need, true), p, need)
  {
    SplitStored(m, h.tags, h.First(), h.Epilogue(), p, need, true);
    SplitLinks(m, h, p, need, true);
    var n := SplitTagWords(m, h.tags, p, need, true);
    assert BlockShape(h.tags, h.First(), h.Epilogue(), p);
    forall b, x | Live(h, b) && b != p && b < x < Next(h.tags, b)
      ensures Word(n, x) == Word(m, x)
    {
      OutsideBlock(h, b, x, p);
    }
  }

  lemma OutsideBlock(h: Heap, b: int, x: int, a: int)
    requires Inv(h) && b in h.tags && a in h.tags && b != a && b < x < Next(h.tags, b)
    ensures x < a || x >= Next(h.tags, a)
    ensures a != h.Epilogue() ==> x != a
  {
    assert BlockShape(h.tags, h.First(), h.Epilogue(), a) && BlockShape(h.tags, h.First(), h.Epilogue(), b);
  }

  /** Cutting a free block: both headers, the footer, and the lists. */
  function SplitWords(m: Mem, h: Heap, a: int, need: int): Mem
    requires a in h.tags
  {
    var t := Split(h.tags, a, need, false);
    SplitWordsAt(m, h.tags, a, need, ListOf(t, h.Epilogue(), a + need))
  }

  function SplitWordsAt(m: Mem, tags: Tags, a: int, need: int, home: nat): Mem
    requires a in tags
  {
    PushedFront(Unlinked(SplitTagWords(m, tags, a, need, false), a), Head(home), a + need)
  }

  lemma SplitLinksSafe(h: Heap, a: int, need: int)
    requires Inv(h) && h.start >= HEADS_END && a in h.tags && !h.tags[a].alloc
    requires need >= MIN_BLOCK && need % 16 == 0 && h.tags[a].size - need >= MIN_BLOCK
    ensures var t := Split(h.tags, a, need, false);
            LinksSafe(t, h.lists) && LinksHarmless(t, a + need) && IsBlock(a + need)
    ensures Disjoint(h.lists)
    ensures forall j :: 0 <= j < 8 ==> a + need !in h.lists[j]
  {
    var first, epi, t := h.First(), h.Epilogue(), Split(h.tags, a, need, false);
    ListsDisjoint(h);
    FreeHasNext(h, a);
    SplitTiled(h.tags, first, epi, a, need, false);
    forall i, y | 0 <= i < 8 && y in h.lists[i]
      ensures LinksHarmless(t, y)
    {
      BlockLinksHarmless(t, first, epi, y);
    }
    HeadLinksHarmless(t, first, epi);
    BlockLinksHarmless(t, first, epi, a + need);
    assert BlockShape(t, first, epi, a + need);
  }

  lemma SplitStep(m: Mem, h: Heap, a: int, need: int)
    requires Inv(h) && Represents(m, h) && a in h.tags && !h.tags[a].alloc
    requires need >= MIN_BLOCK && need % 16 == 0 && h.tags[a].size - need >= MIN_BLOCK
    ensures var i, m1 := ListOf(h.tags, h.Epilogue(), a), SplitTagWords(m, h.tags, a, need, false);
            && Linked(Unlinked(m1, a), Removed(h.lists, i, a)) &&
               TagsStored(Unlinked(m1, a), Split(h.tags, a, need, false))
            && LinksSafe(Split(h.tags, a, need, false), Removed(h.lists, i, a))
            && (forall x :: NoLink(h.lists, x) ==>
               Word(Unlinked(m1, a), x) == Word(m1, x) && NoLink(Removed(h.lists, i, a), x))
  {
    FreeHasNext(h, a);
    FreeIsListed(h, a);
    SplitStored(m, h.tags, h.First(), h.Epilogue(), a, need, false);
    SplitLinks(m, h, a, need, false);
    SplitLinksSafe(h, a, need);
    hide Inv, SplitTagWords, Split;
    UnlinkStep(SplitTagWords(m, h.tags, a, need, false), Split(h.tags, a, need, false), h.lists,
      ListOf(h.tags, h.Epilogue(), a), a);
  }

  lemma SplitDone(m: Mem, h: Heap, a: int, need: int, i: nat, home: nat)
    requires Inv(h) && Represents(m, h) && a in h.tags && !h.tags[a].alloc
    requires need >= MIN_BLOCK && need % 16 == 0 && h.tags[a].size - need >= MIN_BLOCK
    requires i == ListOf(h.tags, h.Epilogue(), a) && home < 8
    ensures var n := SplitWordsAt(m, h.tags, a, need, home);
            && TagsStored(n, Split(h.tags, a, need, false)) && Linked(n, Pushed(Removed(h.lists, i, a), home, a + need))
            && (forall x :: NoLink(h.lists, x) && x != a + need + 8 && x != a + need + 16 ==>
                  Word(n, x) == Word(SplitTagWords(m, h.tags, a, need, false), x))
  {
    hide Inv, SplitTagWords, Split, Linked, TagsStored, LinksSafe, NoLink, LinksHarmless, Disjoint, Removed, Pushed,
      Unlinked, PushedFront;
    SplitLinksSafe(h, a, need);
    SplitStep(m, h, a, need);
    SplitPush(SplitTagWords(m, h.tags, a, need, false), Split(h.tags, a, need, false), h.lists, i, a, home, a + need);
  }

  lemma SplitPush(m: Mem, t: Tags, lists: seq<seq<int>>, i: nat, a: int, home: nat, rest: int)
    requires Disjoint(lists) && i < 8 && home < 8 && IsBlock(rest) && LinksHarmless(t, rest)
    requires forall j :: 0 <= j < 8 ==> rest !in lists[j]
    requires Linked(Unlinked(m, a), Removed(lists, i, a)) && TagsStored(Unlinked(m, a), t)
    requires LinksSafe(t, Removed(lists, i, a))
    requires forall x :: NoLink(lists, x) ==> Word(Unlinked(m, a), x) == Word(m, x) && NoLink(Removed(lists, i, a), x)
    ensures var n := PushedFront(Unlinked(m, a), Head(home), rest);
            && TagsStored(n, t) && Linked(n, Pushed(Removed(lists, i, a), home, rest))
            && (forall x :: NoLink(lists, x) && x != rest + 8 && x != rest + 16 ==> Word(n, x) == Word(m, x))
  {
    RemovedDisjoint(lists, i, a);
    hide Removed, Unlinked, PushedFront, Linked, TagsStored, LinksSafe, NoLink, LinksHarmless, Disjoint;
    PushStep(Unlinked(m, a), t, Removed(lists, i, a), home, rest);
  }

  lemma SplitRepresents(m: Mem, h: Heap, a: int, need: int)
    requires Inv(h) && Represents(m, h) && Fits(h.tags, a, need) && !LeavesSplinter(h.tags[a].size, need)
    requires need >= MIN_BLOCK && need % 16 == 0
    ensures Represents(SplitWords(m, h, a, need), Placed(h, a, need))
  {
    SplitDone(m, h, a, need, ListOf(h.tags, h.Epilogue(), a),
      ListOf(Split(h.tags, a, need, false), h.Epilogue(), a + need));
  }

  lemma SplitTagWordsOutside(m: Mem, tags: Tags, a: int, need: int, restAlloc: bool, x: int)
    requires a in tags && 0 <= need < tags[a].size - 8 && (x < a || x >= Next(tags, a))
    ensures Word(SplitTagWords(m, tags, a, need, restAlloc), x) == Word(m, x)
  {
  }

  lemma SplitSparesWord(m: Mem, h: Heap, a: int, need: int, b: int, x: int)
    requires Inv(h) && Represents(m, h) && a in h.tags && !h.tags[a].alloc && Live(h, b) && b < x < Next(h.tags, b)
    requires need >= MIN_BLOCK && need % 16 == 0 && h.tags[a].size - need >= MIN_BLOCK
    ensures Word(SplitWords(m, h, a, need), x) == Word(m, x)
  {
    PrivateWord(h, b, x);
    OutsideBlock(h, b, x, a);
    SplitTagWordsOutside(m, h.tags, a, need, false, x);
    var i, home := ListOf(h.tags, h.Epilogue(), a), ListOf(Split(h.tags, a, need, false), h.Epilogue(), a + need);
    hide Inv, SplitTagWords, SplitWordsAt, Split, Linked, TagsStored, NoLink, Disjoint, Removed, Pushed, Represents;
    SplitDone(m, h, a, need, i, home);
  }

  lemma SplitSpares(m: Mem, h: Heap, a: int, need: int, b: int)
    requires Inv(h) && Represents(m, h) && a in h.tags && !h.tags[a].alloc && Live(h, b)
    requires need >= MIN_BLOCK && need % 16 == 0 && h.tags[a].size - need >= MIN_BLOCK
    ensures PayloadKept(m, SplitWords(m, h, a, need), b, h.tags[b].size)
  {
    hide Inv, SplitWords, Represents;
    forall x | b < x < Next(h.tags, b)
      ensures Word(SplitWords(m, h, a, need), x) == Word(m, x)
    {
      SplitSparesWord(m, h, a, need, b, x);
    }
  }
}
