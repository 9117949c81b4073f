/**
 * The layout of the heap in memory as hw3/include/sfmm.h draws it, read off the words: a header is the block's
 * length plus 1 if the block is allocated and plus 2 if the one before it is.
 */
module HeapFormat {
  import opened Powers
  import opened HeapTags
  import opened HeapModel
  import opened HeapMemory

  lemma PalOf(h: Heap, a: int, b: int)
    requires Inv(h) && a in h.tags && b in h.tags && b + h.tags[b].size == a && a != b
    ensures h.tags[a].pal == h.tags[b].alloc
  {
    FooterApart(h.tags, h.First(), h.Epilogue(), a, b);
    assert Next(h.tags, b) == a;
  }

  lemma PackedWord(t: Tag)
    requires t.size % 16 == 0
    ensures var w := Pack(t);
            && w == t.size + (if t.alloc then 1 else 0) + (if t.pal then 2 else 0)
            && w - w % 16 == t.size && w % 2 == if t.alloc then 1 else 0
  {
    PackUnpack(t);
    var w, k := Pack(t), t.size / 16;
    assert w / 16 * 16 + w % 16 == w;
  }

  /**
   * Every header is the block's length plus the two bits. From it one gets to the next header; the last one, 8
   * bytes before the end, is that of an allocated block of length 0. A free block repeats the header in its last
   * word.
   */
  lemma HeaderWords(m: Mem, h: Heap, a: int)
    requires Inv(h) && Represents(m, h) && a in h.tags
    ensures var w, size := Word(m, a), h.tags[a].size;
            && w == size + (if h.tags[a].alloc then 1 else 0) + (if h.tags[a].pal then 2 else 0)
            && w - w % 16 == size && w % 2 == (if h.tags[a].alloc then 1 else 0)
            && (if a == h.end - 8 then w in {1, 3} else w >= 32 && a + (w - w % 16) in h.tags)
            && (w % 2 == 0 ==> Word(m, a + (w - w % 16) - 8) == w)
    ensures a % 16 == 8 && h.start + 40 <= a <= h.end - 8 && h.start + 40 in h.tags && h.end - 8 in h.tags
    ensures h.tags[h.start + 40].pal
    ensures forall b :: b in h.tags && b + h.tags[b].size == a && b != a ==> h.tags[a].pal == h.tags[b].alloc
  {
    assert BlockShape(h.tags, h.First(), h.Epilogue(), a);
    assert Word(m, a) == Pack(h.tags[a]);
    assert BlockShape(h.tags, h.First(), h.Epilogue(), h.First());
    PackedWord(h.tags[a]);
    if a != h.Epilogue() { assert Next(h.tags, a) in h.tags; }
    hide Pack, BlockShape, Coalesced, Filed, Linked;
    forall b | b in h.tags && b + h.tags[b].size == a && b != a
      ensures h.tags[a].pal == h.tags[b].alloc
    {
      PalOf(h, a, b);
    }
  }

  /**
   * The links of the lists: the dummy of list i lies at 16 + 24 * i. In each node the word at 8 is the address of
   * the next one and the word at 16 that of the one before, around the circle and over the dummy.
   */
  lemma LinkWords(m: Mem, h: Heap, i: nat, k: nat)
    requires Inv(h) && Represents(m, h) && i < 8 && k < |h.lists[i]|
    ensures var d, s := 16 + 24 * i, h.lists[i];
            && Word(m, d + 8) == s[0] && Word(m, d + 16) == s[|s| - 1]
            && Word(m, s[k] + 8) == (if k + 1 < |s| then s[k + 1] else d)
            && Word(m, s[k] + 16) == if k > 0 then s[k - 1] else d
  {
    var d, s := Head(i), h.lists[i];
    assert Ring(m, d, s);
    assert NextOf(m, s[k]) == At(d, s, k + 1) && PrevOf(m, s[k]) == At(d, s, k - 1);
  }

  /** In an empty list the dummy is linked to itself. */
  lemma EmptyListWords(m: Mem, h: Heap, i: nat)
    requires Inv(h) && Represents(m, h) && i < 8 && h.lists[i] == []
    ensures Word(m, 16 + 24 * i + 8) == 16 + 24 * i == Word(m, 16 + 24 * i + 16)
  {
    assert Ring(m, Head(i), h.lists[i]);
  }

  /** The free blocks of each list: the last block of the heap in list 7, all others by their lengths. */
  lemma ListedBySize(h: Heap, i: nat, k: nat)
    requires Inv(h) && i < 8 && k < |h.lists[i]|
    ensures var a := h.lists[i][k];
            && a in h.tags && !h.tags[a].alloc && (i == 7 <==> a + h.tags[a].size == h.end - 8)
            && var z := h.tags[a].size;
            && (i == 0 <==> a + z != h.end - 8 && z == 32) && (i == 1 <==> a + z != h.end - 8 && 32 < z <= 64)
            && (i == 2 <==> a + z != h.end - 8 && 64 < z <= 128) && (i == 3 <==> a + z != h.end - 8 && 128 < z <= 256)
            && (i == 4 <==> a + z != h.end - 8 && 256 < z <= 512)
            && (i == 5 <==> a + z != h.end - 8 && 512 < z <= 1024) && (i == 6 <==> a + z != h.end - 8 && 1024 < z)
  {
    var a := h.lists[i][k];
    assert a in h.lists[i] && a in Homes(h.tags, h.Epilogue());
    FooterApart(h.tags, h.First(), h.Epilogue(), a, a);
    ClassIndexBounds(h.tags[a].size);
    FirstPowers();
  }

  lemma FirstPowers()
    ensures Pow2(0) == 1 && Pow2(1) == 2 && Pow2(2) == 4 && Pow2(3) == 8 && Pow2(4) == 16 && Pow2(5) == 32
  {
  }

  /** The block for a request is the least that is long enough, aligned and has room for the header. */
  lemma AdjustedIsLeast(size: int, m: int)
    requires Request(size)
    ensures var r := Adjusted(size); r >= 32 && r >= size + 8 && r % 16 == 0
    ensures m >= 32 && m >= size + 8 && m % 16 == 0 ==> Adjusted(size) <= m
  {
  }
}
