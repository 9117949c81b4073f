/**
 * How words in memory stand for a heap value: headers, footers, and the links of the eight
 * circular lists whose dummy heads lie outside the heap (hw3/include/sfmm.h).
 */
module HeapMemory {
  import opened HeapTags
  import opened HeapModel

  /** Memory by byte address; only addresses that are multiples of 8 are used. */
  type Mem = map<int, int>

  /** End of the array of dummy heads; the heap starts at this address or above. */
  const HEADS_END := 208

  /** Address of `sf_free_list_heads[i]`: 24 bytes each. */
  function Head(i: int): int { 16 + 24 * i }

  function Word(m: Mem, a: int): int { if a in m then m[a] else 0 }

  /** `body.links.next` and `body.links.prev` of the node at `a`. */
  function NextOf(m: Mem, a: int): int { Word(m, a + 8) }
  function PrevOf(m: Mem, a: int): int { Word(m, a + 16) }

  /** Addresses a block can have; dummy heads lie below. */
  predicate IsBlock(a: int) { a >= HEADS_END && a % 16 == 8 }

  predicate IsNode(a: int) { IsBlock(a) || a in {16, 40, 64, 88, 112, 136, 160, 184} }

  /** Element `k` of a circular list with dummy `d`. */
  function At(d: int, s: seq<int>, k: int): int { if 0 <= k < |s| then s[k] else d }

  ghost predicate Ring(m: Mem, d: int, s: seq<int>) {
    && NextOf(m, d) == At(d, s, 0) && PrevOf(m, d) == At(d, s, |s| - 1)
    && (forall k {:trigger NextOf(m, s[k])} :: 0 <= k < |s| ==> NextOf(m, s[k]) == At(d, s, k + 1))
    && (forall k {:trigger PrevOf(m, s[k])} :: 0 <= k < |s| ==> PrevOf(m, s[k]) == At(d, s, k - 1))
  }

  ghost predicate BlockList(s: seq<int>) { NoDup(s) && forall k :: 0 <= k < |s| ==> IsBlock(s[k]) }

  // ---- link surgery ----

  /** `prev->next = next; next->prev = prev` for the neighbours of `p`. */
  function Unlinked(m: Mem, p: int): Mem {
    m[PrevOf(m, p) + 8 := NextOf(m, p)][NextOf(m, p) + 16 := PrevOf(m, p)]
  }

  /** `p` goes between the dummy `d` and its successor. */
  function PushedFront(m: Mem, d: int, p: int): Mem {
    m[d + 8 := p][NextOf(m, d) + 16 := p][p + 16 := d][p + 8 := NextOf(m, d)]
  }

  /** `p` becomes the only node of the list with dummy `d`. */
  function OnlyNode(m: Mem, d: int, p: int): Mem {
    m[d + 8 := p][d + 16 := p][p + 16 := d][p + 8 := d]
  }

  /** A write that hits no link of the list leaves it as it is. */
  lemma RingFrame(m: Mem, n: Mem, d: int, s: seq<int>)
    requires Ring(m, d, s)
    requires NextOf(n, d) == NextOf(m, d) && PrevOf(n, d) == PrevOf(m, d)
    requires forall k :: 0 <= k < |s| ==> NextOf(n, s[k]) == NextOf(m, s[k]) && PrevOf(n, s[k]) == PrevOf(m, s[k])
    ensures Ring(n, d, s)
  {
  }

  lemma UnlinkedLinks(m: Mem, p: int, x: int)
    requires IsNode(PrevOf(m, p)) && IsNode(NextOf(m, p)) && IsNode(x)
    ensures NextOf(Unlinked(m, p), x) == if x == PrevOf(m, p) then NextOf(m, p) else NextOf(m, x)
    ensures PrevOf(Unlinked(m, p), x) == if x == NextOf(m, p) then PrevOf(m, p) else PrevOf(m, x)
  {
  }

  lemma UnlinkedAt(m: Mem, d: int, s: seq<int>, k: nat, r: seq<int>, j: nat)
    requires IsNode(d) && !IsBlock(d) && BlockList(s) && k < |s| && Ring(m, d, s)
    requires r == s[..k] + s[k + 1..] && j < |r|
    ensures NextOf(Unlinked(m, s[k]), r[j]) == At(d, r, j + 1)
    ensures PrevOf(Unlinked(m, s[k]), r[j]) == At(d, r, j - 1)
  {
    hide Unlinked;
    var i := if j < k then j else j + 1;
    assert r[j] == s[i];
    assert NextOf(m, s[i]) == At(d, s, i + 1) && PrevOf(m, s[i]) == At(d, s, i - 1);
    assert NextOf(m, s[k]) == At(d, s, k + 1) && PrevOf(m, s[k]) == At(d, s, k - 1);
    UnlinkedLinks(m, s[k], s[i]);
  }

  lemma RingUnlinked(m: Mem, d: int, s: seq<int>, k: nat)
    requires IsNode(d) && !IsBlock(d) && BlockList(s) && k < |s| && Ring(m, d, s)
    ensures Ring(Unlinked(m, s[k]), d, s[..k] + s[k + 1..])
  {
    hide Unlinked;
    var n, r := Unlinked(m, s[k]), s[..k] + s[k + 1..];
    assert PrevOf(m, s[k]) == At(d, s, k - 1) && NextOf(m, s[k]) == At(d, s, k + 1);
    UnlinkedLinks(m, s[k], d);
    forall j: nat | j < |r|
      ensures NextOf(n, r[j]) == At(d, r, j + 1) && PrevOf(n, r[j]) == At(d, r, j - 1)
    {
      UnlinkedAt(m, d, s, k, r, j);
    }
  }

  /** No node's links lie on another's. */
  lemma NodesApart(x: int, y: int)
    requires IsNode(x) && IsNode(y)
    ensures x + 8 != y + 16
  {
    var i, j := x / 16, y / 16;
    assert x == 16 * i + x % 16 && y == 16 * j + y % 16;
  }

  lemma PushedLinks(m: Mem, d: int, p: int, x: int)
    requires IsNode(d) && IsNode(NextOf(m, d)) && IsNode(p) && p != d && p != NextOf(m, d) && IsNode(x)
    ensures NextOf(PushedFront(m, d, p), x) == if x == p then NextOf(m, d) else if x == d then p else NextOf(m, x)
    ensures PrevOf(PushedFront(m, d, p), x) == if x == p then d else if x == NextOf(m, d) then p else PrevOf(m, x)
  {
    var after := NextOf(m, d);
    NodesApart(x, after);
    NodesApart(x, p);
    NodesApart(d, x);
    NodesApart(p, x);
    hide IsNode;
  }

  lemma AtIsNode(d: int, s: seq<int>, k: int)
    requires IsNode(d) && BlockList(s)
    ensures IsNode(At(d, s, k)) && (At(d, s, k) == d || At(d, s, k) in s)
  {
  }

  lemma RingPushed(m: Mem, d: int, s: seq<int>, p: int)
    requires IsNode(d) && !IsBlock(d) && BlockList(s) && IsBlock(p) && p !in s && Ring(m, d, s)
    ensures Ring(PushedFront(m, d, p), d, [p] + s)
  {
    var n, r := PushedFront(m, d, p), [p] + s;
    AtIsNode(d, s, 0);
    BlockIsNode(p, d);
    PushedLinks(m, d, p, d);
    PushedLinks(m, d, p, p);
    assert s != [] ==> At(d, s, |s| - 1) == At(d, r, |s|) && At(d, s, 0) != d;
    hide PushedFront, IsNode, IsBlock, BlockList;
    forall k {:trigger NextOf(n, r[k])} | 0 <= k < |r|
      ensures NextOf(n, r[k]) == At(d, r, k + 1)
    {
      if k > 0 { PushedAt(m, d, s, p, k); }
    }
    forall k {:trigger PrevOf(n, r[k])} | 0 <= k < |r|
      ensures PrevOf(n, r[k]) == At(d, r, k - 1)
    {
      if k > 0 { PushedAt(m, d, s, p, k); }
    }
  }

  lemma BlockIsNode(p: int, d: int)
    requires IsBlock(p) && !IsBlock(d)
    ensures IsNode(p) && p != d
  {
  }

  lemma PushedAt(m: Mem, d: int, s: seq<int>, p: int, k: nat)
    requires IsNode(d) && !IsBlock(d) && BlockList(s) && IsBlock(p) && p !in s && Ring(m, d, s) && 0 < k <= |s|
    ensures var n, r := PushedFront(m, d, p), [p] + s;
            NextOf(n, r[k]) == At(d, r, k + 1) && PrevOf(n, r[k]) == At(d, r, k - 1)
  {
    var j := k - 1;
    AtIsNode(d, s, 0);
    AtIsNode(d, s, j);
    BlockIsNode(p, d);
    BlockIsNode(s[j], d);
    PushedLinks(m, d, p, s[j]);
    assert NextOf(m, s[j]) == At(d, s, j + 1) && PrevOf(m, s[j]) == At(d, s, j - 1);
    assert j > 0 ==> s[j] != s[0];
    hide PushedFront, IsNode, IsBlock, BlockList;
  }

  lemma RingOnly(m: Mem, d: int, p: int)
    requires IsNode(d) && !IsBlock(d) && IsBlock(p)
    ensures Ring(OnlyNode(m, d, p), d, [p])
  {
    assert d + 8 != p + 16 && d + 16 != p + 8;
  }

  // ---- the eight lists ----

  ghost predicate Linked(m: Mem, lists: seq<seq<int>>) {
    |lists| == 8 && forall i :: 0 <= i < 8 ==> Ring(m, Head(i), lists[i])
  }

  /** The lists are made of blocks, and no block is in two of them. */
  ghost predicate Disjoint(lists: seq<seq<int>>) {
    && |lists| == 8 && (forall i :: 0 <= i < 8 ==> BlockList(lists[i]))
    && (forall i, j, x :: 0 <= i < 8 && 0 <= j < 8 && x in lists[i] && x in lists[j] ==> i == j)
  }

  lemma HeadIsNode(i: int)
    requires 0 <= i < 8
    ensures IsNode(Head(i)) && !IsBlock(Head(i)) && forall j :: 0 <= j < 8 && j != i ==> Head(j) != Head(i)
  {
  }

  lemma LinkedUnlinked(m: Mem, lists: seq<seq<int>>, i: nat, p: int)
    requires Linked(m, lists) && Disjoint(lists) && i < 8 && p in lists[i]
    ensures Linked(Unlinked(m, p), Removed(lists, i, p))
    ensures IsNode(PrevOf(m, p)) && IsNode(NextOf(m, p)) && PrevOf(m, p) != p && NextOf(m, p) != p
    ensures IsBlock(PrevOf(m, p)) ==> PrevOf(m, p) in lists[i]
    ensures IsBlock(NextOf(m, p)) ==> NextOf(m, p) in lists[i]
  {
    var k :| 0 <= k < |lists[i]| && lists[i][k] == p;
    var n, r := Unlinked(m, p), Removed(lists, i, p);
    HeadIsNode(i);
    WithoutAt(lists[i], k);
    RingUnlinked(m, Head(i), lists[i], k);
    forall j | 0 <= j < 8 && j != i
      ensures Ring(n, Head(j), lists[j])
    {
      HeadIsNode(j);
      ForeignRing(m, lists, i, k, j);
    }
  }

  lemma ForeignRing(m: Mem, lists: seq<seq<int>>, i: nat, k: nat, j: nat)
    requires Linked(m, lists) && Disjoint(lists) && i < 8 && k < |lists[i]| && j < 8 && j != i
    ensures Ring(Unlinked(m, lists[i][k]), Head(j), lists[j])
  {
    var p := lists[i][k];
    NeighboursOf(m, lists, i, k);
    HeadIsNode(j);
    HeadIsNode(i);
    HeadElsewhere(lists, i, j);
    hide Unlinked, IsNode, IsBlock;
    UnlinkedLinks(m, p, Head(j));
    forall l | 0 <= l < |lists[j]|
      ensures NextOf(Unlinked(m, p), lists[j][l]) == NextOf(m, lists[j][l])
      ensures PrevOf(Unlinked(m, p), lists[j][l]) == PrevOf(m, lists[j][l])
    {
      Elsewhere(lists, i, j, l);
      UnlinkedLinks(m, p, lists[j][l]);
    }
    RingFrame(m, Unlinked(m, p), Head(j), lists[j]);
  }

  /** The neighbours of a block are the head of its list or in its list. */
  lemma NeighboursOf(m: Mem, lists: seq<seq<int>>, i: nat, k: nat)
    requires Linked(m, lists) && Disjoint(lists) && i < 8 && k < |lists[i]|
    ensures var before, after := PrevOf(m, lists[i][k]), NextOf(m, lists[i][k]);
            && IsNode(before) && (before == Head(i) || before in lists[i])
            && IsNode(after) && (after == Head(i) || after in lists[i])
  {
    HeadIsNode(i);
    AtIsNode(Head(i), lists[i], k - 1);
    AtIsNode(Head(i), lists[i], k + 1);
    assert PrevOf(m, lists[i][k]) == At(Head(i), lists[i], k - 1) &&
      NextOf(m, lists[i][k]) == At(Head(i), lists[i], k + 1);
    hide IsNode;
  }

  /** A block of another list is neither the head nor in the list. */
  lemma Elsewhere(lists: seq<seq<int>>, i: nat, j: nat, l: nat)
    requires Disjoint(lists) && i < 8 && j < 8 && j != i && l < |lists[j]|
    ensures IsNode(lists[j][l]) && lists[j][l] != Head(i) && lists[j][l] !in lists[i]
  {
    assert lists[j][l] in lists[j];
    assert IsBlock(lists[j][l]);
    HeadIsNode(i);
  }

  lemma HeadElsewhere(lists: seq<seq<int>>, i: nat, j: nat)
    requires Disjoint(lists) && i < 8 && j < 8
    ensures Head(j) !in lists[i]
  {
    HeadIsNode(j);
    AllBlocks(lists[i]);
    hide IsBlock, IsNode;
  }

  lemma AllBlocks(s: seq<int>)
    requires BlockList(s)
    ensures forall x :: x in s ==> IsBlock(x)
  {
    hide IsBlock;
  }

  lemma LinkedPushed(m: Mem, lists: seq<seq<int>>, i: nat, p: int)
    requires Linked(m, lists) && Disjoint(lists) && i < 8 && IsBlock(p) && forall j :: 0 <= j < 8 ==> p !in lists[j]
    ensures Linked(PushedFront(m, Head(i), p), Pushed(lists, i, p))
    ensures IsNode(NextOf(m, Head(i))) && (IsBlock(NextOf(m, Head(i))) ==> NextOf(m, Head(i)) in lists[i])
  {
    HeadIsNode(i);
    AtIsNode(Head(i), lists[i], 0);
    BlockIsNode(p, Head(i));
    RingPushed(m, Head(i), lists[i], p);
    assert NextOf(m, Head(i)) == At(Head(i), lists[i], 0);
    hide PushedFront, IsNode, IsBlock;
    forall j | 0 <= j < 8 && j != i
      ensures Ring(PushedFront(m, Head(i), p), Head(j), lists[j])
    {
      ForeignPushed(m, lists, i, p, j);
    }
  }

  lemma ForeignPushed(m: Mem, lists: seq<seq<int>>, i: nat, p: int, j: nat)
    requires Linked(m, lists) && Disjoint(lists) && i < 8 && IsBlock(p) && p !in lists[i]
    requires j < 8 && j != i && p !in lists[j] && IsNode(NextOf(m, Head(i)))
    requires NextOf(m, Head(i)) == At(Head(i), lists[i], 0)
    ensures Ring(PushedFront(m, Head(i), p), Head(j), lists[j])
  {
    HeadIsNode(i);
    HeadIsNode(j);
    BlockIsNode(p, Head(i));
    BlockIsNode(p, Head(j));
    HeadElsewhere(lists, i, j);
    var n := PushedFront(m, Head(i), p);
    hide PushedFront, IsNode, IsBlock;
    PushedLinks(m, Head(i), p, Head(j));
    forall l | 0 <= l < |lists[j]|
      ensures NextOf(n, lists[j][l]) == NextOf(m, lists[j][l]) && PrevOf(n, lists[j][l]) == PrevOf(m, lists[j][l])
    {
      Elsewhere(lists, i, j, l);
      assert lists[j][l] in lists[j];
      PushedLinks(m, Head(i), p, lists[j][l]);
    }
    RingFrame(m, n, Head(j), lists[j]);
  }

  /** A write that hits no link. */
  lemma LinkedFrame(m: Mem, lists: seq<seq<int>>, x: int, v: int)
    requires Linked(m, lists) && x >= HEADS_END
    requires forall i, y :: 0 <= i < 8 && y in lists[i] ==> y + 8 != x && y + 16 != x
    ensures Linked(m[x := v], lists)
  {
    forall i | 0 <= i < 8
      ensures Ring(m[x := v], Head(i), lists[i])
    {
      forall k | 0 <= k < |lists[i]|
        ensures lists[i][k] + 8 != x && lists[i][k] + 16 != x
      {
        assert lists[i][k] in lists[i];
      }
      RingFrame(m, m[x := v], Head(i), lists[i]);
    }
  }

  // ---- tags in memory ----

  /** Every header holds its block's tag, and every free block repeats it in its last word. */
  ghost predicate TagsStored(m: Mem, tags: Tags) {
    forall a :: a in tags ==>
      Word(m, a) == Pack(tags[a]) && (!tags[a].alloc ==> Word(m, a + tags[a].size - 8) == Pack(tags[a]))
  }

  /** `x` is neither a header nor the footer of a free block. */
  ghost predicate Harmless(tags: Tags, x: int) {
    forall a :: a in tags ==> x != a && (!tags[a].alloc ==> x != a + tags[a].size - 8)
  }

  lemma TagsFrame(m: Mem, tags: Tags, x: int, v: int)
    requires TagsStored(m, tags) && Harmless(tags, x)
    ensures TagsStored(m[x := v], tags)
  {
    var n := m[x := v];
    forall a | a in tags
      ensures Word(n, a) == Pack(tags[a]) && (!tags[a].alloc ==> Word(n, a + tags[a].size - 8) == Pack(tags[a]))
    {
      var f := a + tags[a].size - 8;
      assert !tags[a].alloc ==> f != x && Word(n, f) == Word(m, f);
    }
  }

  /** Inside a block, between header and last word. */
  lemma InsideHarmless(tags: Tags, first: int, epi: int, a: int, x: int)
    requires Tiled(tags, first, epi) && a in tags && a < x < a + tags[a].size - 8
    ensures Harmless(tags, x)
  {
    forall b | b in tags
      ensures x != b && (!tags[b].alloc ==> x != b + tags[b].size - 8)
    {
      assert BlockShape(tags, first, epi, b);
    }
  }

  /** Below the heap, where the dummy heads are. */
  lemma HeadHarmless(tags: Tags, first: int, epi: int, x: int)
    requires Tiled(tags, first, epi) && x < first
    ensures Harmless(tags, x)
  {
    forall b | b in tags
      ensures x != b && (!tags[b].alloc ==> x != b + tags[b].size - 8)
    {
      assert BlockShape(tags, first, epi, b);
    }
  }

  /** Memory stands for the heap value `h`. */
  ghost predicate Represents(m: Mem, h: Heap) {
    && h.start >= HEADS_END
    && (forall a :: 0 <= a < h.end && a % 8 == 0 ==> a in m)
    && TagsStored(m, h.tags)
    && Linked(m, h.lists)
  }

  /** The words of the block at `b` after its header, down to its end. */
  ghost predicate PayloadKept(m: Mem, n: Mem, b: int, size: int) {
    forall x :: b < x < b + size && x % 8 == 0 ==> Word(n, x) == Word(m, x)
  }
}
