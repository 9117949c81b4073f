/**
 * Which block a request gets, what becomes of the rest, and where freed blocks are listed
 * (hw3/src/sfmm.c, hw3/src/helpingFunction.c).
 */
module HeapPolicy {
  import opened HeapTags
  import opened HeapModel
  import opened HeapAllocation

  /** Block `k` of list `i` is long enough, and none listed before it is. */
  ghost predicate FirstLongEnough(h: Heap, need: int, i: nat, k: nat) {
    && i < |h.lists| == 8 && k < |h.lists[i]| && Fits(h.tags, h.lists[i][k], need)
    && (forall j, l :: 0 <= j < 8 && 0 <= l < |h.lists[j]| && Fits(h.tags, h.lists[j][l], need) ==>
          i < j || (i == j && k <= l))
  }

  /** The first block of a list that is long enough. */
  lemma InList(h: Heap, need: int, i: nat) returns (k: nat)
    requires Inv(h) && i < 8
    ensures i < |h.lists| == 8 && (forall l :: 0 <= l < |h.lists[i]| ==> h.lists[i][l] in h.tags)
    ensures k == FirstIn(h.tags, h.lists[i], need) <= |h.lists[i]|
    ensures k < |h.lists[i]| ==> Fits(h.tags, h.lists[i][k], need)
    ensures forall l :: 0 <= l < k ==> !Fits(h.tags, h.lists[i][l], need)
  {
    ListedAreFree(h, i);
    k := FirstIn(h.tags, h.lists[i], need);
  }

  /** Where the search from list `from` on stops. */
  lemma {:induction false} FirstFitAt(h: Heap, need: int, from: nat) returns (i: nat, k: nat)
    requires Inv(h) && from <= 8 && FirstFit(h, need, from).Fit?
    ensures from <= i < 8 && k < |h.lists[i]| && FirstFit(h, need, from) == Fit(h.lists[i][k])
    ensures Fits(h.tags, h.lists[i][k], need)
    ensures forall j, l :: from <= j < 8 && 0 <= l < |h.lists[j]| && Fits(h.tags, h.lists[j][l], need) ==>
              i < j || (i == j && k <= l)
    decreases 8 - from
  {
    hide Inv, Fits;
    k := InList(h, need, from);
    if k < |h.lists[from]| {
      i := from;
    } else {
      i, k := FirstFitAt(h, need, from + 1);
    }
  }

  /** The block at `a` is cut at its front; what remains is listed first in its list, if it is a block at all. */
  lemma PlacedInFront(h: Heap, a: int, need: int)
    requires Inv(h) && Fits(h.tags, a, need) && need >= 32
    ensures var g, size := Placed(h, a, need), h.tags[a].size;
            && a in g.tags && g.tags[a].alloc
            && (size - need < 32 ==> g.tags[a].size == size && g.tags.Keys == h.tags.Keys)
            && (size - need >= 32 ==>
                  && g.tags[a].size == need && g.tags.Keys == h.tags.Keys + {a + need}
                  && g.tags[a + need] == Tag(size - need, true, false)
                  && exists i :: 0 <= i < |g.lists| && g.lists[i] != [] && g.lists[i][0] == a + need)
  {
    FreeHasNext(h, a);
    FooterApart(h.tags, h.First(), h.Epilogue(), a, a);
    var g := Placed(h, a, need);
    if h.tags[a].size - need >= 32 {
      var i := ListOf(g.tags, h.Epilogue(), a + need);
      assert g.lists[i][0] == a + need;
    }
  }

  /**
   * If any free block is long enough, a request gets the front of the first such block, in the order of the
   * lists and of the blocks in a list, and the heap does not grow.
   */
  lemma TakesFirstFit(h: Heap, limit: int, size: int) returns (i: nat, k: nat)
    requires Inv(h) && Request(size) && size > 0 && h.end <= limit
    requires exists a :: Fits(h.tags, a, Adjusted(size))
    ensures FirstLongEnough(h, Adjusted(size), i, k)
    ensures Malloc(h, limit, size).ptr == h.lists[i][k] + 8
    ensures Malloc(h, limit, size).heap == Placed(h, h.lists[i][k], Adjusted(size))
  {
    NoFitOrFit(h, Adjusted(size));
    i, k := FirstFitAt(h, Adjusted(size), 0);
  }

  /** A freed block is listed first in its list, merged with its neighbours if they are free. */
  lemma FreedIsFirst(h: Heap, p: int)
    requires Inv(h) && Live(h, p)
    ensures var g := Freed(h, p);
            exists i :: 0 <= i < |g.lists| && g.lists[i] != [] && g.lists[i][0] in g.tags &&
              var lo := g.lists[i][0];
              lo <= p && p + h.tags[p].size <= lo + g.tags[lo].size && !g.tags[lo].alloc
  {
    var g, lo := Freed(h, p), Low(h, p);
    FreedRegion(h, p);
    var i := ListOf(g.tags, h.Epilogue(), lo);
    assert g.lists[i][0] == lo;
  }
}
