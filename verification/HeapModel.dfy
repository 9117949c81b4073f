/**
 * The allocator's heap as a value: which tag stands at which address, and which blocks each
 * free list holds in which order. Every operation of hw3/src/sfmm.c is described here once,
 * without branches on neighbours; the words in memory come in HeapMemory.
 */
module HeapModel {
  import opened HeapTags

  /** Header address to tag. The epilogue is in the map as a block of size 0. */
  type Tags = map<int, Tag>

  datatype Heap = Heap(start: int, end: int, tags: Tags, lists: seq<seq<int>>) {
    /** Address of the first block: 8 unused bytes and a 32-byte prologue come before it. */
    function First(): int { start + 40 }
    function Epilogue(): int { end - 8 }
  }

  function Next(tags: Tags, a: int): int
    requires a in tags
  {
    a + tags[a].size
  }

  // ---- the invariant ----

  ghost predicate BlockShape(tags: Tags, first: int, epi: int, a: int)
    requires a in tags
  {
    && first <= a <= epi && a % 16 == 8
    && (if a == epi then tags[a].size == 0 && tags[a].alloc else tags[a].size >= MIN_BLOCK && tags[a].size % 16 == 0)
  }

  /** The blocks tile the heap from `first` to the epilogue: each ends where the next starts, and none overlap. */
  ghost predicate Tiled(tags: Tags, first: int, epi: int) {
    && first in tags && epi in tags && first < epi
    && (forall a :: a in tags ==> BlockShape(tags, first, epi, a))
    && (forall a {:trigger Next(tags, a)} :: a in tags && a != epi ==> Next(tags, a) in tags)
    && (forall a, b :: a in tags && b in tags && a < b ==> a + tags[a].size <= b)
  }

  /** No block but the epilogue is shorter than the least block, and its footer is not on the header of another. */
  lemma FooterApart(tags: Tags, first: int, epi: int, a: int, b: int)
    requires Tiled(tags, first, epi) && a in tags && b in tags
    ensures a < b ==> a + tags[a].size <= b
    ensures a == epi ==> tags[a].alloc && tags[a].size == 0
    ensures a != epi ==> tags[a].size >= MIN_BLOCK && a + tags[a].size - 8 != b
    ensures a % 16 == b % 16
  {
    assert BlockShape(tags, first, epi, a) && BlockShape(tags, first, epi, b);
  }

  /** Each prev-alloc bit is the alloc bit of the block before; the prologue counts as allocated. */
  ghost predicate PalMatches(tags: Tags, first: int, epi: int)
    requires first in tags
    requires forall a {:trigger Next(tags, a)} :: a in tags && a != epi ==> Next(tags, a) in tags
  {
    && tags[first].pal
    && (forall a {:trigger Next(tags, a)} :: a in tags && a != epi ==> tags[Next(tags, a)].pal == tags[a].alloc)
  }

  /** No two adjacent blocks are free. */
  ghost predicate Coalesced(tags: Tags, epi: int)
    requires forall a {:trigger Next(tags, a)} :: a in tags && a != epi ==> Next(tags, a) in tags
  {
    forall a {:trigger Next(tags, a)} :: a in tags && a != epi && !tags[a].alloc ==> tags[Next(tags, a)].alloc
  }

  /** The list a free block belongs to: the wilderness list for the last block, its size class otherwise. */
  function ListOf(tags: Tags, epi: int, a: int): nat
    requires a in tags
  {
    if a + tags[a].size == epi then WILDERNESS else ClassIndex(tags[a].size)
  }

  ghost predicate NoDup(s: seq<int>) { forall i, j :: 0 <= i < j < |s| ==> s[i] != s[j] }

  /** Where each free block has to be filed. */
  function Homes(tags: Tags, epi: int): map<int, nat> {
    map a | a in tags && !tags[a].alloc :: ListOf(tags, epi, a)
  }

  /** The eight lists hold exactly the blocks of `home`, each once and in the list `home` names. */
  ghost predicate Holds(lists: seq<seq<int>>, home: map<int, nat>) {
    && |lists| == 8
    && (forall i, a {:trigger a in lists[i]} :: 0 <= i < 8 ==> (a in lists[i] <==> a in home && home[a] == i))
    && (forall a :: a in home ==> home[a] < 8)
    && (forall i :: 0 <= i < 8 ==> NoDup(lists[i]))
  }

  /** The free lists hold exactly the free blocks, each once and in its own list. */
  ghost predicate Filed(tags: Tags, epi: int, lists: seq<seq<int>>) { Holds(lists, Homes(tags, epi)) }

  ghost predicate Inv(h: Heap) {
    && h.start >= 0 && h.start % 16 == 0 && (h.end - h.start) % PAGE_SIZE == 0
    && Tiled(h.tags, h.First(), h.Epilogue())
    && PalMatches(h.tags, h.First(), h.Epilogue())
    && Coalesced(h.tags, h.Epilogue())
    && Filed(h.tags, h.Epilogue(), h.lists)
  }

  /** `a` is the header address of a block the user holds. */
  ghost predicate Live(h: Heap, a: int) { a in h.tags && h.tags[a].alloc && a != h.Epilogue() }

  // ---- operations on tags ----

  /** The blocks from `lo` up to `hi` become one free block; `hi` learns that its predecessor is free. */
  function Merged(tags: Tags, lo: int, hi: int): Tags
    requires lo in tags && hi in tags
  {
    (map a | a in tags && !(lo < a < hi) :: tags[a])
      [lo := Tag(hi - lo, tags[lo].pal, false)][hi := tags[hi].(pal := false)]
  }

  /** The block at `a` becomes an allocated one of `need` bytes, followed by a block with the rest. */
  function Split(tags: Tags, a: int, need: int, restAlloc: bool): Tags
    requires a in tags
  {
    tags[a := Tag(need, tags[a].pal, true)][a + need := Tag(tags[a].size - need, true, restAlloc)]
  }

  /** The whole block at `a` becomes allocated. */
  function Taken(tags: Tags, a: int): Tags
    requires a in tags && Next(tags, a) in tags
  {
    tags[a := tags[a].(alloc := true)][Next(tags, a) := tags[Next(tags, a)].(pal := true)]
  }

  // ---- operations on lists ----

  function Without(s: seq<int>, x: int): seq<int> {
    if s == [] then [] else if s[0] == x then s[1..] else [s[0]] + Without(s[1..], x)
  }

  function Removed(lists: seq<seq<int>>, i: nat, x: int): seq<seq<int>>
    requires i < |lists|
  {
    lists[i := Without(lists[i], x)]
  }

  function Pushed(lists: seq<seq<int>>, i: nat, x: int): seq<seq<int>>
    requires i < |lists|
  {
    lists[i := [x] + lists[i]]
  }

  lemma {:induction false} WithoutMembers(s: seq<int>, x: int)
    requires NoDup(s)
    ensures NoDup(Without(s, x))
    ensures forall y :: y in Without(s, x) <==> y in s && y != x
  {
    if s != [] {
      assert s == [s[0]] + s[1..];
      assert NoDup(s[1..]);
      WithoutMembers(s[1..], x);
      assert s[0] !in s[1..];
      var w := Without(s, x);
      assert s[0] != x ==> w[1..] == Without(s[1..], x);
    }
  }

  /** Removing the element at position `k` is what unlinking a node does. */
  lemma {:induction false} WithoutAt(s: seq<int>, k: nat)
    requires k < |s| && NoDup(s)
    ensures Without(s, s[k]) == s[..k] + s[k + 1..]
  {
    if k > 0 {
      var tail := s[1..];
      TailNoDup(s);
      WithoutAt(tail, k - 1);
      hide NoDup;
      assert tail[..k - 1] == s[1..k] && tail[k..] == s[k + 1..];
      assert s[..k] == [s[0]] + s[1..k];
    }
  }

  lemma TailNoDup(s: seq<int>)
    requires NoDup(s) && s != []
    ensures NoDup(s[1..]) && forall k :: 0 < k < |s| ==> s[0] != s[k]
  {
  }

  // ---- preservation of the tiling ----

  lemma MergedTiled(tags: Tags, first: int, epi: int, lo: int, hi: int)
    requires Tiled(tags, first, epi) && lo in tags && hi in tags && lo < hi
    ensures Tiled(Merged(tags, lo, hi), first, epi)
  {
    var t := Merged(tags, lo, hi);
    MergedEnds(tags, first, epi, lo, hi);
    hide Merged, BlockShape;
    forall a | a in t
      ensures BlockShape(t, first, epi, a)
    {
      MergedShape(tags, first, epi, lo, hi, a);
    }
    forall a {:trigger Next(t, a)} | a in t && a != epi
      ensures Next(t, a) in t
    {
      MergedNext(tags, first, epi, lo, hi, a);
    }
    forall a, b | a in t && b in t && a < b
      ensures a + t[a].size <= b
    {
      MergedApart(tags, first, epi, lo, hi, a, b);
    }
  }

  lemma MergedEnds(tags: Tags, first: int, epi: int, lo: int, hi: int)
    requires Tiled(tags, first, epi) && lo in tags && hi in tags && lo < hi
    ensures first in Merged(tags, lo, hi) && epi in Merged(tags, lo, hi)
  {
    assert BlockShape(tags, first, epi, lo) && BlockShape(tags, first, epi, hi);
  }

  lemma MergedShape(tags: Tags, first: int, epi: int, lo: int, hi: int, a: int)
    requires Tiled(tags, first, epi) && lo in tags && hi in tags && lo < hi && a in Merged(tags, lo, hi)
    ensures BlockShape(Merged(tags, lo, hi), first, epi, a)
  {
    MergeIsWide(tags, first, epi, lo, hi);
    assert a in tags && BlockShape(tags, first, epi, a) && BlockShape(tags, first, epi, hi);
  }

  /** What becomes of one block: all but the first and the last stay as they are. */
  lemma MergedAt(tags: Tags, lo: int, hi: int, a: int)
    requires lo in tags && hi in tags && lo < hi
    ensures var t := Merged(tags, lo, hi);
            && (a in t <==> a in tags && !(lo < a < hi))
            && (a in t ==> t[a] == if a == lo then Tag(hi - lo, tags[lo].pal, false)
                                   else if a == hi then tags[hi].(pal := false) else tags[a])
  {
  }

  lemma MergedNext(tags: Tags, first: int, epi: int, lo: int, hi: int, a: int)
    requires Tiled(tags, first, epi) && lo in tags && hi in tags && lo < hi && a in Merged(tags, lo, hi) && a != epi
    ensures var t := Merged(tags, lo, hi); Next(t, a) in t && a in tags && (a == lo ==> Next(t, a) == hi)
    ensures var t := Merged(tags, lo, hi);
            a != lo ==> Next(t, a) == Next(tags, a) && Next(tags, a) in tags && Next(t, a) != hi
  {
    MergedAt(tags, lo, hi, a);
    MergedAt(tags, lo, hi, hi);
    hide Merged, BlockShape;
    assert Next(tags, a) in tags;
    MergedAt(tags, lo, hi, Next(tags, a));
    FooterApart(tags, first, epi, a, lo);
    FooterApart(tags, first, epi, a, hi);
  }

  lemma MergedApart(tags: Tags, first: int, epi: int, lo: int, hi: int, a: int, b: int)
    requires Tiled(tags, first, epi) && lo in tags && hi in tags && lo < hi
    requires a in Merged(tags, lo, hi) && b in Merged(tags, lo, hi) && a < b
    ensures a + Merged(tags, lo, hi)[a].size <= b
  {
    MergedAt(tags, lo, hi, a);
    MergedAt(tags, lo, hi, b);
    hide Merged, BlockShape;
    FooterApart(tags, first, epi, a, b);
    FooterApart(tags, first, epi, lo, b);
  }

  lemma MergeIsWide(tags: Tags, first: int, epi: int, lo: int, hi: int)
    requires Tiled(tags, first, epi) && lo in tags && hi in tags && lo < hi
    ensures hi - lo >= MIN_BLOCK && (hi - lo) % 16 == 0
  {
    assert BlockShape(tags, first, epi, lo) && BlockShape(tags, first, epi, hi);
    assert Next(tags, lo) <= hi;
  }

  // ---- walking the heap ----

  /** The block that ends at `p`, found by walking up from `a`. */
  function PredFrom(tags: Tags, first: int, epi: int, a: int, p: int): (q: int)
    requires Tiled(tags, first, epi) && a in tags && p in tags && a < p
    ensures q in tags && q != epi && a <= q < p && Next(tags, q) == p
    decreases p - a
  {
    assert BlockShape(tags, first, epi, a) && BlockShape(tags, first, epi, p);
    if Next(tags, a) == p then a else PredFrom(tags, first, epi, Next(tags, a), p)
  }

  function Pred(tags: Tags, first: int, epi: int, p: int): (q: int)
    requires Tiled(tags, first, epi) && p in tags && p != first
    ensures q in tags && q != epi && q < p && Next(tags, q) == p
  {
    assert BlockShape(tags, first, epi, p);
    PredFrom(tags, first, epi, first, p)
  }

  /** Exactly one block ends at a given address. */
  lemma PredUnique(tags: Tags, first: int, epi: int, a: int, b: int)
    requires Tiled(tags, first, epi) && a in tags && b in tags && a != epi && b != epi
    requires Next(tags, a) == Next(tags, b)
    ensures a == b
  {
    assert BlockShape(tags, first, epi, a) && BlockShape(tags, first, epi, b);
  }

  /** The headers met when walking from `a` to the epilogue. */
  function Walk(tags: Tags, first: int, epi: int, a: int): (w: seq<int>)
    requires Tiled(tags, first, epi) && a in tags
    decreases epi - a
  {
    assert BlockShape(tags, first, epi, a);
    if a == epi then [] else [a] + Walk(tags, first, epi, Next(tags, a))
  }

  function Total(tags: Tags, w: seq<int>): int
    requires forall i :: 0 <= i < |w| ==> w[i] in tags
  {
    if w == [] then 0 else tags[w[0]].size + Total(tags, w[1..])
  }

  /** The walk meets every block from `a` on, each exactly once and in address order, and accounts for every byte. */
  lemma {:induction false} WalkExact(tags: Tags, first: int, epi: int, a: int)
    requires Tiled(tags, first, epi) && a in tags
    ensures forall b :: b in Walk(tags, first, epi, a) <==> b in tags && a <= b && b != epi
    ensures forall i, j :: 0 <= i < j < |Walk(tags, first, epi, a)| ==>
            Walk(tags, first, epi, a)[i] < Walk(tags, first, epi, a)[j]
    ensures Total(tags, Walk(tags, first, epi, a)) == epi - a
    decreases epi - a
  {
    WalkParts(tags, first, epi, a);
    hide Walk, BlockShape;
    if a != epi {
      var n, w := Next(tags, a), Walk(tags, first, epi, a);
      WalkExact(tags, first, epi, n);
      hide Tiled;
      WalkOneMore(tags, epi, a, n, Walk(tags, first, epi, n), w);
    }
  }

  /** One step of the walk, and what lies before its next stop. */
  lemma WalkParts(tags: Tags, first: int, epi: int, a: int)
    requires Tiled(tags, first, epi) && a in tags
    ensures a == epi ==> Walk(tags, first, epi, a) == []
    ensures a != epi ==>
              var n := Next(tags, a);
              n in tags && a < n <= epi && Walk(tags, first, epi, a) == [a] + Walk(tags, first, epi, n)
    ensures forall b :: b in tags ==> b <= epi && (a < b && a != epi ==> Next(tags, a) <= b)
  {
    assert BlockShape(tags, first, epi, a);
    if a != epi { assert BlockShape(tags, first, epi, Next(tags, a)); }
    forall b | b in tags
      ensures b <= epi
    {
      assert BlockShape(tags, first, epi, b);
    }
    hide BlockShape;
  }

  lemma WalkOneMore(tags: Tags, epi: int, a: int, n: int, rest: seq<int>, w: seq<int>)
    requires a in tags && a != epi && a < n && n == a + tags[a].size && w == [a] + rest
    requires forall b :: b in rest <==> b in tags && n <= b && b != epi
    requires forall i, j :: 0 <= i < j < |rest| ==> rest[i] < rest[j]
    requires Total(tags, rest) == epi - n
    requires forall b :: b in tags && a < b ==> n <= b
    ensures forall b :: b in w <==> b in tags && a <= b && b != epi
    ensures forall i, j :: 0 <= i < j < |w| ==> w[i] < w[j]
    ensures Total(tags, w) == epi - a
  {
    assert w[1..] == rest;
    forall i, j | 0 <= i < j < |w|
      ensures w[i] < w[j]
    {
      assert w[j] == rest[j - 1] && rest[j - 1] in rest;
    }
  }

  // ---- sf_free ----

  /** Start of the free region that freeing `p` produces. */
  function Low(h: Heap, p: int): (lo: int)
    requires Inv(h) && Live(h, p)
    ensures lo in h.tags && lo <= p
  {
    if h.tags[p].pal then p else Pred(h.tags, h.First(), h.Epilogue(), p)
  }

  /** End of that region. */
  function High(h: Heap, p: int): (hi: int)
    requires Inv(h) && Live(h, p)
    ensures hi in h.tags && hi > p
  {
    assert BlockShape(h.tags, h.First(), h.Epilogue(), p);
    var n := Next(h.tags, p);
    assert BlockShape(h.tags, h.First(), h.Epilogue(), n);
    if h.tags[n].alloc then n else Next(h.tags, n)
  }

  /** The lists without the free neighbours of `p`. */
  function Detached(h: Heap, p: int): (l: seq<seq<int>>)
    requires Inv(h) && Live(h, p)
    ensures |l| == 8
  {
    var lo, n := Low(h, p), Next(h.tags, p);
    var below := if lo == p then h.lists else Removed(h.lists, ListOf(h.tags, h.Epilogue(), lo), lo);
    if h.tags[n].alloc then below else Removed(below, ListOf(h.tags, h.Epilogue(), n), n)
  }

  /**
   * Freeing: the block and its free neighbours become one free block, which goes to the
   * front of the list its new length (or its place at the end of the heap) calls for.
   */
  function Freed(h: Heap, p: int): Heap
    requires Inv(h) && Live(h, p)
  {
    var tags := Merged(h.tags, Low(h, p), High(h, p));
    h.(tags := tags, lists := Pushed(Detached(h, p), ListOf(tags, h.Epilogue(), Low(h, p)), Low(h, p)))
  }

  /** What Low and High bring together: nothing but `p` and its free neighbours. */
  lemma FreedRegion(h: Heap, p: int)
    requires Inv(h) && Live(h, p)
    ensures var lo, hi, n := Low(h, p), High(h, p), Next(h.tags, p);
            && Next(h.tags, lo) == (if lo == p then n else p)
            && (lo != p ==> !h.tags[lo].alloc && lo < p)
            && h.tags[hi].alloc && hi - lo >= MIN_BLOCK
            && n in h.tags && (n != hi ==> !h.tags[n].alloc && Next(h.tags, n) == hi && n < hi)
            && (forall a :: a in h.tags && lo < a < hi ==> (a == p || a == n) && (a == p ==> lo != p))
  {
    var lo, hi, n := Low(h, p), High(h, p), Next(h.tags, p);
    var first, epi := h.First(), h.Epilogue();
    assert BlockShape(h.tags, first, epi, p) && BlockShape(h.tags, first, epi, n) && BlockShape(h.tags, first, epi, lo);
    if lo != p { assert Next(h.tags, lo) == p; }
    if n != hi { assert Next(h.tags, n) == hi; }
    MergeIsWide(h.tags, first, epi, lo, hi);
  }

  lemma FreedPal(h: Heap, p: int)
    requires Inv(h) && Live(h, p)
    ensures var t := Freed(h, p).tags;
            && Tiled(t, h.First(), h.Epilogue())
            && PalMatches(t, h.First(), h.Epilogue())
  {
    FreedRegion(h, p);
    hide Low, High;
    MergedTiled(h.tags, h.First(), h.Epilogue(), Low(h, p), High(h, p));
    MergedPal(h.tags, h.First(), h.Epilogue(), Low(h, p), High(h, p));
  }

  lemma MergedPal(tags: Tags, first: int, epi: int, lo: int, hi: int)
    requires Tiled(tags, first, epi) && PalMatches(tags, first, epi)
    requires lo in tags && hi in tags && lo < hi && tags[hi].alloc && Tiled(Merged(tags, lo, hi), first, epi)
    ensures PalMatches(Merged(tags, lo, hi), first, epi)
  {
    var t := Merged(tags, lo, hi);
    FooterApart(tags, first, epi, first, lo);
    assert BlockShape(tags, first, epi, lo);
    MergedAt(tags, lo, hi, first);
    hide Merged, BlockShape;
    forall a {:trigger Next(t, a)} | a in t && a != epi
      ensures t[Next(t, a)].pal == t[a].alloc
    {
      MergedNext(tags, first, epi, lo, hi, a);
      MergedAt(tags, lo, hi, a);
      MergedAt(tags, lo, hi, Next(t, a));
      assert tags[Next(tags, a)].pal == tags[a].alloc;
    }
  }

  lemma FreedCoalesced(h: Heap, p: int)
    requires Inv(h) && Live(h, p)
    requires Tiled(Freed(h, p).tags, h.First(), h.Epilogue())
    ensures Coalesced(Freed(h, p).tags, h.Epilogue())
  {
    var lo, hi := Low(h, p), High(h, p);
    var t, first, epi := Merged(h.tags, lo, hi), h.First(), h.Epilogue();
    FreedRegion(h, p);
    hide Inv, BlockShape, Low, High, Merged, Tiled;
    forall a {:trigger Next(t, a)} | a in t && a != epi && !t[a].alloc
      ensures t[Next(t, a)].alloc
    {
      InvTiled(h);
      MergedAt(h.tags, lo, hi, a);
      MergedNext(h.tags, first, epi, lo, hi, a);
      MergedAt(h.tags, lo, hi, Next(t, a));
      if a != lo { NextOutside(h, p, a); }
    }
  }

  lemma InvTiled(h: Heap)
    requires Inv(h)
    ensures Tiled(h.tags, h.First(), h.Epilogue())
  {
  }

  /** What follows a free block that is not freed with `p` is not freed with it either. */
  lemma NextOutside(h: Heap, p: int, a: int)
    requires Inv(h) && Live(h, p) && a in h.tags && !h.tags[a].alloc && a != Low(h, p) && !(Low(h, p) < a < High(h, p))
    ensures var n := Next(h.tags, a); n in h.tags && h.tags[n].alloc && n != Low(h, p) && !(Low(h, p) < n < High(h, p))
  {
    var lo, hi, n := Low(h, p), High(h, p), Next(h.tags, a);
    FooterApart(h.tags, h.First(), h.Epilogue(), a, lo);
    assert n in h.tags && h.tags[n].alloc && h.tags[n].pal == h.tags[a].alloc;
    FreedRegion(h, p);
    hide BlockShape, High;
  }

  lemma RemovedHolds(lists: seq<seq<int>>, home: map<int, nat>, x: int)
    requires Holds(lists, home) && x in home
    ensures Holds(Removed(lists, home[x], x), home - {x})
  {
    WithoutMembers(lists[home[x]], x);
  }

  lemma PushedHolds(lists: seq<seq<int>>, home: map<int, nat>, i: nat, x: int)
    requires Holds(lists, home) && x !in home && i < 8
    ensures Holds(Pushed(lists, i, x), home[x := i])
  {
    assert x !in lists[i];
  }

  /** Detaching takes out the free neighbours and nothing else. */
  lemma DetachedHolds(h: Heap, p: int)
    requires Inv(h) && Live(h, p)
    ensures Holds(Detached(h, p), Homes(h.tags, h.Epilogue()) - {Low(h, p), Next(h.tags, p)})
  {
    var lo, n, epi := Low(h, p), Next(h.tags, p), h.Epilogue();
    var home := Homes(h.tags, epi);
    FreedRegion(h, p);
    var below := if lo == p then h.lists else Removed(h.lists, ListOf(h.tags, epi, lo), lo);
    if lo != p { RemovedHolds(h.lists, home, lo); }
    assert lo == p ==> home - {lo} == home;
    if !h.tags[n].alloc {
      RemovedHolds(below, home - {lo}, n);
      assert home - {lo} - {n} == home - {lo, n};
    } else {
      assert home - {lo} == home - {lo, n};
    }
  }

  lemma MergedHomes(tags: Tags, epi: int, lo: int, hi: int, gone: set<int>)
    requires lo in tags && hi in tags && tags[hi].alloc && lo < hi
    requires forall a :: a in tags && lo < a < hi && !tags[a].alloc ==> a in gone
    requires forall a :: a in gone ==> lo <= a < hi
    requires lo in gone
    ensures Homes(Merged(tags, lo, hi), epi) == (Homes(tags, epi) - gone)[lo := ListOf(Merged(tags, lo, hi), epi, lo)]
  {
    var t, home := Merged(tags, lo, hi), Homes(tags, epi);
    var l, r := Homes(t, epi), (home - gone)[lo := ListOf(t, epi, lo)];
    forall a
      ensures a in l <==> a in r
      ensures a in l ==> l[a] == r[a]
    {
      if a in t && a != lo && a != hi { assert t[a] == tags[a]; }
    }
  }

  lemma FreedFiled(h: Heap, p: int)
    requires Inv(h) && Live(h, p)
    ensures Filed(Freed(h, p).tags, h.Epilogue(), Freed(h, p).lists)
  {
    var lo, n, epi := Low(h, p), Next(h.tags, p), h.Epilogue();
    var gone := {lo, n};
    DetachedHolds(h, p);
    FreedRegion(h, p);
    hide Inv, Low, High, Merged, Homes, Holds, Detached, Pushed, ListOf;
    if n == High(h, p) {
      gone := {lo};
      AllocHasNoHome(h.tags, epi, n);
      assert Homes(h.tags, epi) - {lo} == Homes(h.tags, epi) - {lo, n};
    }
    MergedHomes(h.tags, epi, lo, High(h, p), gone);
    PushedHolds(Detached(h, p), Homes(h.tags, epi) - gone, ListOf(Freed(h, p).tags, epi, lo), lo);
  }

  lemma AllocHasNoHome(tags: Tags, epi: int, a: int)
    requires a in tags && tags[a].alloc
    ensures a !in Homes(tags, epi)
  {
  }

  lemma FreedInv(h: Heap, p: int)
    requires Inv(h) && Live(h, p)
    ensures Inv(Freed(h, p))
  {
    FreedPal(h, p);
    FreedCoalesced(h, p);
    FreedFiled(h, p);
  }
}
