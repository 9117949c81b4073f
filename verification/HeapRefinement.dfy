/** The words each operation of the allocator writes, and that memory keeps standing for the heap value. */
module HeapRefinement {
  import opened HeapTags
  import opened HeapModel
  import opened HeapMemory

  lemma ListsDisjoint(h: Heap)
    requires Inv(h) && h.start >= HEADS_END
    ensures Disjoint(h.lists)
    ensures forall i, y :: 0 <= i < 8 && y in h.lists[i] ==> y in h.tags && !h.tags[y].alloc && IsBlock(y)
  {
    var home := Homes(h.tags, h.Epilogue());
    forall i, y | 0 <= i < 8 && y in h.lists[i]
      ensures y in h.tags && !h.tags[y].alloc && IsBlock(y)
    {
      assert y in home;
      assert BlockShape(h.tags, h.First(), h.Epilogue(), y);
    }
    forall i | 0 <= i < 8
      ensures BlockList(h.lists[i])
    {
      forall k | 0 <= k < |h.lists[i]|
        ensures IsBlock(h.lists[i][k])
      {
        assert h.lists[i][k] in h.lists[i];
      }
    }
  }

  /** Headers and last words of blocks are no links of listed blocks. */
  lemma TagIsNoLink(tags: Tags, first: int, epi: int, a: int, y: int)
    requires Tiled(tags, first, epi) && a in tags && y in tags && !tags[y].alloc
    ensures y + 8 != a && y + 16 != a && y + 8 != a - 8 && y + 16 != a - 8
  {
    assert BlockShape(tags, first, epi, a) && BlockShape(tags, first, epi, y);
  }

  /** Writing a header, or the word before one, leaves all lists linked. */
  lemma TagWriteKeepsLinks(m: Mem, h: Heap, a: int, x: int, v: int)
    requires Inv(h) && h.start >= HEADS_END && Linked(m, h.lists)
    requires a in h.tags && (x == a || (x == a - 8 && a != h.First()))
    ensures Linked(m[x := v], h.lists)
  {
    ListsDisjoint(h);
    assert BlockShape(h.tags, h.First(), h.Epilogue(), a);
    forall i, y | 0 <= i < 8 && y in h.lists[i]
      ensures y + 8 != x && y + 16 != x
    {
      TagIsNoLink(h.tags, h.First(), h.Epilogue(), a, y);
    }
    LinkedFrame(m, h.lists, x, v);
  }

  // ---- sf_free ----

  /** Header and footer of the merged block. */
  function MergedTags(m: Mem, h: Heap, p: int): Mem
    requires Inv(h) && Live(h, p)
  {
    var lo, hi := Low(h, p), High(h, p);
    var v := Pack(Tag(hi - lo, h.tags[lo].pal, false));
    m[lo := v][hi - 8 := v]
  }

  /** The free neighbours leave their lists. */
  function DetachedWords(m: Mem, h: Heap, p: int): Mem
    requires Inv(h) && Live(h, p)
  {
    var below := if Low(h, p) == p then m else Unlinked(m, Low(h, p));
    if High(h, p) == Next(h.tags, p) then below else Unlinked(below, Next(h.tags, p))
  }

  /** The merged block enters its list; the block after it learns that its predecessor is free. */
  function FreedWords(m: Mem, h: Heap, p: int): Mem
    requires Inv(h) && Live(h, p)
  {
    var lo, hi := Low(h, p), High(h, p);
    var home := ListOf(Freed(h, p).tags, h.Epilogue(), lo);
    PushedFront(DetachedWords(MergedTags(m, h, p), h, p), Head(home), lo)[hi := Pack(h.tags[hi].(pal := false))]
  }

  /** The tags while the block after the merged one still has its old header. */
  function HalfMerged(tags: Tags, lo: int, hi: int): Tags
    requires lo in tags
  {
    (map a | a in tags && !(lo < a < hi) :: tags[a])[lo := Tag(hi - lo, tags[lo].pal, false)]
  }

  lemma FreedWidth(h: Heap, p: int)
    requires Inv(h) && Live(h, p)
    ensures Tiled(h.tags, h.First(), h.Epilogue()) && High(h, p) - Low(h, p) >= MIN_BLOCK
  {
    FreedRegion(h, p);
  }

  lemma HalfMergedStored(m: Mem, h: Heap, p: int)
    requires Inv(h) && Live(h, p) && TagsStored(m, h.tags)
    ensures TagsStored(MergedTags(m, h, p), HalfMerged(h.tags, Low(h, p), High(h, p)))
  {
    hide Inv, Low, High, TagsStored, HalfMerged, Tiled;
    FreedWidth(h, p);
    HalfStored(m, h.tags, h.First(), h.Epilogue(), Low(h, p), High(h, p));
  }

  lemma HalfStored(m: Mem, tags: Tags, first: int, epi: int, lo: int, hi: int)
    requires Tiled(tags, first, epi) && lo in tags && hi in tags && hi - lo >= MIN_BLOCK && TagsStored(m, tags)
    ensures var v := Pack(Tag(hi - lo, tags[lo].pal, false));
            TagsStored(m[lo := v][hi - 8 := v], HalfMerged(tags, lo, hi))
  {
    hide Pack, BlockShape;
    var v := Pack(Tag(hi - lo, tags[lo].pal, false));
    var n, t := m[lo := v][hi - 8 := v], HalfMerged(tags, lo, hi);
    forall a | a in t
      ensures Word(n, a) == Pack(t[a]) && (!t[a].alloc ==> Word(n, a + t[a].size - 8) == Pack(t[a]))
    {
      if a != lo {
        FooterApart(tags, first, epi, a, hi);
        FooterApart(tags, first, epi, a, lo);
        assert a != hi - 8;
        var f := a + t[a].size - 8;
        assert !t[a].alloc ==> f != lo && f != hi - 8 && Word(n, f) == Word(m, f);
      }
    }
  }

  /** Link words of nodes are no tags of the half-merged heap. */
  ghost predicate LinksHarmless(tags: Tags, z: int) { Harmless(tags, z + 8) && Harmless(tags, z + 16) }

  lemma BlockLinksHarmless(tags: Tags, first: int, epi: int, z: int)
    requires Tiled(tags, first, epi) && z in tags && z != epi
    ensures LinksHarmless(tags, z)
  {
    assert BlockShape(tags, first, epi, z);
    InsideHarmless(tags, first, epi, z, z + 8);
    InsideHarmless(tags, first, epi, z, z + 16);
  }

  lemma HalfMergedHarmless(tags: Tags, first: int, epi: int, lo: int, hi: int, z: int)
    requires Tiled(tags, first, epi) && lo in tags && hi in tags && lo < hi
    requires (z in tags && z != epi) || (IsNode(z) && !IsBlock(z))
    requires first >= HEADS_END + 40
    ensures LinksHarmless(HalfMerged(tags, lo, hi), z)
  {
    assert BlockShape(tags, first, epi, lo) && BlockShape(tags, first, epi, hi);
    if z in tags && z != epi {
      BlockLinksHarmless(tags, first, epi, z);
      assert BlockShape(tags, first, epi, z);
    } else {
      HeadHarmless(tags, first, epi, z + 8);
      HeadHarmless(tags, first, epi, z + 16);
    }
  }

  lemma UnlinkedKeepsTags(m: Mem, t: Tags, y: int)
    requires TagsStored(m, t) && LinksHarmless(t, PrevOf(m, y)) && LinksHarmless(t, NextOf(m, y))
    ensures TagsStored(Unlinked(m, y), t)
  {
    TagsFrame(m, t, PrevOf(m, y) + 8, NextOf(m, y));
    TagsFrame(m[PrevOf(m, y) + 8 := NextOf(m, y)], t, NextOf(m, y) + 16, PrevOf(m, y));
  }

  lemma PushedKeepsTags(m: Mem, t: Tags, d: int, p: int)
    requires TagsStored(m, t) && LinksHarmless(t, d) && LinksHarmless(t, NextOf(m, d)) && LinksHarmless(t, p)
    ensures TagsStored(PushedFront(m, d, p), t)
  {
    var s := NextOf(m, d);
    TagsFrame(m, t, d + 8, p);
    TagsFrame(m[d + 8 := p], t, s + 16, p);
    TagsFrame(m[d + 8 := p][s + 16 := p], t, p + 16, d);
    TagsFrame(m[d + 8 := p][s + 16 := p][p + 16 := d], t, p + 8, s);
  }

  lemma RemovedDisjoint(lists: seq<seq<int>>, i: nat, x: int)
    requires Disjoint(lists) && i < 8
    ensures Disjoint(Removed(lists, i, x))
    ensures forall j, y :: 0 <= j < 8 ==> (y in Removed(lists, i, x)[j] <==> y in lists[j] && !(j == i && y == x))
  {
    WithoutMembers(lists[i], x);
    var r := Removed(lists, i, x);
    forall k | 0 <= k < |r[i]|
      ensures IsBlock(r[i][k])
    {
      assert r[i][k] in r[i];
    }
  }

  /** Unlinking and pushing on these lists cannot hit a tag of `t`. */
  ghost predicate LinksSafe(t: Tags, lists: seq<seq<int>>) {
    && Disjoint(lists)
    && (forall z :: IsNode(z) && !IsBlock(z) ==> LinksHarmless(t, z))
    && (forall i, y :: 0 <= i < 8 && y in lists[i] ==> LinksHarmless(t, y))
  }

  /** `x` is no link word of a dummy or of a listed block. */
  ghost predicate NoLink(lists: seq<seq<int>>, x: int)
    requires |lists| == 8
  {
    x >= HEADS_END && forall i, y :: 0 <= i < 8 && y in lists[i] ==> y + 8 != x && y + 16 != x
  }

  /** One unlinking step: the list is linked without the block, tags and all other words stay. */
  lemma UnlinkStep(m: Mem, t: Tags, lists: seq<seq<int>>, i: nat, y: int)
    requires LinksSafe(t, lists) && i < 8 && y in lists[i] && Linked(m, lists) && TagsStored(m, t)
    ensures Linked(Unlinked(m, y), Removed(lists, i, y)) && TagsStored(Unlinked(m, y), t)
    ensures LinksSafe(t, Removed(lists, i, y))
    ensures forall x :: NoLink(lists, x) ==> Word(Unlinked(m, y), x) == Word(m, x) && NoLink(Removed(lists, i, y), x)
  {
    LinkedUnlinked(m, lists, i, y);
    RemovedDisjoint(lists, i, y);
    UnlinkedKeepsTags(m, t, y);
  }

  lemma PushStep(m: Mem, t: Tags, lists: seq<seq<int>>, i: nat, y: int)
    requires LinksSafe(t, lists) && i < 8 && IsBlock(y) && LinksHarmless(t, y) && Linked(m, lists) && TagsStored(m, t)
    requires forall j :: 0 <= j < 8 ==> y !in lists[j]
    ensures Linked(PushedFront(m, Head(i), y), Pushed(lists, i, y))
    ensures TagsStored(PushedFront(m, Head(i), y), t)
    ensures forall x :: NoLink(lists, x) && x != y + 8 && x != y + 16 ==>
            Word(PushedFront(m, Head(i), y), x) == Word(m, x)
  {
    HeadIsNode(i);
    LinkedPushed(m, lists, i, y);
    PushedKeepsTags(m, t, Head(i), y);
  }

  /** Every link of the heap's lists is safe for its own tags. */
  lemma OwnLinksSafe(h: Heap)
    requires Inv(h) && h.start >= HEADS_END
    ensures LinksSafe(h.tags, h.lists)
  {
    ListsDisjoint(h);
    forall i, y | 0 <= i < 8 && y in h.lists[i]
      ensures LinksHarmless(h.tags, y)
    {
      BlockLinksHarmless(h.tags, h.First(), h.Epilogue(), y);
    }
    HeadLinksHarmless(h.tags, h.First(), h.Epilogue());
  }

  lemma HeadLinksHarmless(tags: Tags, first: int, epi: int)
    requires Tiled(tags, first, epi) && first >= HEADS_END + 40
    ensures forall z :: IsNode(z) && !IsBlock(z) ==> LinksHarmless(tags, z)
  {
    forall z | IsNode(z) && !IsBlock(z)
      ensures LinksHarmless(tags, z)
    {
      HeadHarmless(tags, first, epi, z + 8);
      HeadHarmless(tags, first, epi, z + 16);
    }
  }

  /** They stay safe while neighbours of a freed block are being merged. */
  lemma HalfMergedLinksSafe(h: Heap, lo: int, hi: int)
    requires Inv(h) && h.start >= HEADS_END && lo in h.tags && hi in h.tags && lo < hi
    ensures LinksSafe(HalfMerged(h.tags, lo, hi), h.lists) && LinksHarmless(HalfMerged(h.tags, lo, hi), lo)
  {
    var first, epi := h.First(), h.Epilogue();
    ListsDisjoint(h);
    assert BlockShape(h.tags, first, epi, hi);
    forall z | (z in h.tags && z != epi) || (IsNode(z) && !IsBlock(z))
      ensures LinksHarmless(HalfMerged(h.tags, lo, hi), z)
    {
      HalfMergedHarmless(h.tags, first, epi, lo, hi, z);
    }
    assert BlockShape(h.tags, first, epi, epi);
  }

  lemma DetachedStep(m: Mem, h: Heap, p: int)
    requires Inv(h) && Live(h, p) && Represents(m, h)
    ensures var n, t := DetachedWords(MergedTags(m, h, p), h, p), HalfMerged(h.tags, Low(h, p), High(h, p));
            && Linked(n, Detached(h, p)) && TagsStored(n, t) && LinksSafe(t, Detached(h, p)) &&
               LinksHarmless(t, Low(h, p))
            && (forall x :: NoLink(h.lists, x) ==>
               Word(n, x) == Word(MergedTags(m, h, p), x) && NoLink(Detached(h, p), x))
  {
    var lo, hi, next, epi := Low(h, p), High(h, p), Next(h.tags, p), h.Epilogue();
    var m1, t := MergedTags(m, h, p), HalfMerged(h.tags, lo, hi);
    FreedRegion(h, p);
    HalfMergedLinksSafe(h, lo, hi);
    ListsDisjoint(h);
    MergedTagsLinked(m, h, p);
    HalfMergedStored(m, h, p);
    var lists, m2 := h.lists, m1;
    if lo != p {
      FreeIsListed(h, lo);
      UnlinkStep(m1, t, h.lists, ListOf(h.tags, epi, lo), lo);
      lists, m2 := Removed(h.lists, ListOf(h.tags, epi, lo), lo), Unlinked(m1, lo);
    }
    if hi != next {
      FreeIsListed(h, next);
      if lo != p { RemovedDisjoint(h.lists, ListOf(h.tags, epi, lo), lo); }
      UnlinkStep(m2, t, lists, ListOf(h.tags, epi, next), next);
    }
  }

  lemma FreeIsListed(h: Heap, a: int)
    requires Inv(h) && a in h.tags && !h.tags[a].alloc
    ensures var i := ListOf(h.tags, h.Epilogue(), a); i < 8 && a in h.lists[i]
  {
    assert a in Homes(h.tags, h.Epilogue());
  }

  lemma FreedSpan(h: Heap, p: int)
    requires Inv(h) && Live(h, p)
    ensures Low(h, p) < High(h, p) && High(h, p) != h.First()
  {
    FreedRegion(h, p);
    hide Low, High;
    assert BlockShape(h.tags, h.First(), h.Epilogue(), Low(h, p));
  }

  lemma MergedTagsLinked(m: Mem, h: Heap, p: int)
    requires Inv(h) && Live(h, p) && Represents(m, h)
    ensures Linked(MergedTags(m, h, p), h.lists)
  {
    FreedSpan(h, p);
    hide Inv, Low, High, Linked, Next;
    var lo, hi := Low(h, p), High(h, p);
    var v := Pack(Tag(hi - lo, h.tags[lo].pal, false));
    TagWriteKeepsLinks(m, h, lo, lo, v);
    TagWriteKeepsLinks(m[lo := v], h, hi, hi - 8, v);
  }

  lemma PushedStep(m: Mem, h: Heap, p: int, i: nat)
    requires Inv(h) && Live(h, p) && Represents(m, h) && i < 8
    ensures var n := PushedFront(DetachedWords(MergedTags(m, h, p), h, p), Head(i), Low(h, p));
            && Linked(n, Pushed(Detached(h, p), i, Low(h, p))) &&
               TagsStored(n, HalfMerged(h.tags, Low(h, p), High(h, p)))
            && (forall x :: NoLink(h.lists, x) && x != Low(h, p) + 8 && x != Low(h, p) + 16 ==>
               Word(n, x) == Word(MergedTags(m, h, p), x))
  {
    var lo := Low(h, p);
    assert IsBlock(lo) by { assert BlockShape(h.tags, h.First(), h.Epilogue(), lo); }
    LowIsUnlisted(h, p);
    DetachedStep(m, h, p);
    hide Inv, Detached, DetachedWords, MergedTags, Low, High;
    PushStep(DetachedWords(MergedTags(m, h, p), h, p), HalfMerged(h.tags, lo, High(h, p)), Detached(h, p), i, lo);
  }

  /** The write sequence of sf_free takes memory from the old heap value to the new one. */
  lemma FreedRepresents(m: Mem, h: Heap, p: int)
    requires Inv(h) && Live(h, p) && Represents(m, h)
    ensures Represents(FreedWords(m, h, p), Freed(h, p))
  {
    var i := ListOf(Freed(h, p).tags, h.Epilogue(), Low(h, p));
    PushedStep(m, h, p, i);
    HighWrite(PushedFront(DetachedWords(MergedTags(m, h, p), h, p), Head(i), Low(h, p)), h, p, i);
  }

  /** The words inside an allocated block are neither links nor tags of other blocks. */
  lemma PrivateWord(h: Heap, b: int, x: int)
    requires Inv(h) && h.start >= HEADS_END && Live(h, b) && b < x < Next(h.tags, b)
    ensures NoLink(h.lists, x) && x !in h.tags
    ensures forall a :: a in h.tags && a != Next(h.tags, b) ==> x != a - 8
    ensures forall a :: a in h.tags && a != b && a != h.Epilogue() ==> x != a + 8 && x != a + 16
  {
    var first, epi := h.First(), h.Epilogue();
    ListsDisjoint(h);
    assert BlockShape(h.tags, first, epi, b);
    forall a | a in h.tags
      ensures a != x && (a != Next(h.tags, b) ==> x != a - 8)
      ensures a != b && a != epi ==> x != a + 8 && x != a + 16
    {
      assert BlockShape(h.tags, first, epi, a);
      if a > b { assert Next(h.tags, b) <= a; }
    }
    forall i, y | 0 <= i < 8 && y in h.lists[i]
      ensures y + 8 != x && y + 16 != x
    {
      assert y in h.tags && y != b && y != epi by { assert BlockShape(h.tags, first, epi, epi); }
    }
  }

  lemma FreedSparesWord(m: Mem, h: Heap, p: int, b: int, x: int)
    requires Inv(h) && Live(h, p) && Represents(m, h) && Live(h, b) && b != p && b < x < Next(h.tags, b)
    ensures Word(FreedWords(m, h, p), x) == Word(m, x)
  {
    var i := ListOf(Freed(h, p).tags, h.Epilogue(), Low(h, p));
    FreedRegion(h, p);
    NotBefore(h, p, b);
    LowIsUnlisted(h, p);
    PrivateWord(h, b, x);
    PushedStep(m, h, p, i);
    hide Inv, Detached, DetachedWords, Low, High, PushedFront, Freed;
  }

  /** Freeing changes no payload word of another live block. */
  lemma FreedSpares(m: Mem, h: Heap, p: int, b: int)
    requires Inv(h) && Live(h, p) && Represents(m, h) && Live(h, b) && b != p
    ensures PayloadKept(m, FreedWords(m, h, p), b, h.tags[b].size)
  {
    hide Inv, FreedWords;
    forall x | b < x < Next(h.tags, b)
      ensures Word(FreedWords(m, h, p), x) == Word(m, x)
    {
      FreedSparesWord(m, h, p, b, x);
    }
  }

  lemma NotBefore(h: Heap, p: int, b: int)
    requires Inv(h) && Live(h, p) && Live(h, b) && b != p
    ensures High(h, p) != Next(h.tags, b) && b != Low(h, p)
  {
    FreedRegion(h, p);
    assert BlockShape(h.tags, h.First(), h.Epilogue(), b);
    assert b < Low(h, p) ==> Next(h.tags, b) <= Low(h, p);
  }

  lemma LowIsUnlisted(h: Heap, p: int)
    requires Inv(h) && Live(h, p)
    ensures Low(h, p) != h.Epilogue() && forall j :: 0 <= j < 8 ==> Low(h, p) !in Detached(h, p)[j]
  {
    DetachedHolds(h, p);
    FreedRegion(h, p);
  }

  /** The last write: the header of the block after the merged one. */
  lemma HighWrite(m: Mem, h: Heap, p: int, i: nat)
    requires Inv(h) && Live(h, p) && h.start >= HEADS_END && i == ListOf(Freed(h, p).tags, h.Epilogue(), Low(h, p))
    requires forall a :: 0 <= a < h.end && a % 8 == 0 ==> a in m
    requires Linked(m, Pushed(Detached(h, p), i, Low(h, p))) && TagsStored(m, HalfMerged(h.tags, Low(h, p), High(h, p)))
    ensures Represents(m[High(h, p) := Pack(h.tags[High(h, p)].(pal := false))], Freed(h, p))
  {
    var lo, hi := Low(h, p), High(h, p);
    var g, v := Freed(h, p), Pack(h.tags[hi].(pal := false));
    FreedRegion(h, p);
    FreedInv(h, p);
    assert hi in g.tags;
    TagWriteKeepsLinks(m, g, hi, hi, v);
    HighStored(m, h.tags, h.First(), h.Epilogue(), lo, hi);
  }

  lemma HighStored(m: Mem, tags: Tags, first: int, epi: int, lo: int, hi: int)
    requires Tiled(tags, first, epi) && lo in tags && hi in tags && lo < hi && tags[hi].alloc
    requires TagsStored(m, HalfMerged(tags, lo, hi))
    ensures TagsStored(m[hi := Pack(tags[hi].(pal := false))], Merged(tags, lo, hi))
  {
    hide Pack, BlockShape;
    var n, t := m[hi := Pack(tags[hi].(pal := false))], Merged(tags, lo, hi);
    forall a | a in t
      ensures Word(n, a) == Pack(t[a]) && (!t[a].alloc ==> Word(n, a + t[a].size - 8) == Pack(t[a]))
    {
      var f := a + t[a].size - 8;
      if a != hi {
        FooterApart(tags, first, epi, a, hi);
        assert a in HalfMerged(tags, lo, hi) && HalfMerged(tags, lo, hi)[a] == t[a];
        assert !t[a].alloc ==> f != hi && Word(n, f) == Word(m, f);
      }
    }
  }
}
