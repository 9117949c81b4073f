/**
 * How many nodes an operation adds at most: what a caller can check for, since the source never checks
 * for space itself (hw1/src/bdd.c).
 */
module BddGrowth {
  import opened Counting
  import opened Powers
  import opened BddTable
  import opened BddImage
  import opened BddTransforms
  import opened BddSerial

  // ---- squares built from nothing: fewer nodes than pixels ----

  lemma LookupGrows(t: Table, level: int, left: int, right: int)
    ensures var b := Lookup(t, level, left, right); t <= b.table && |b.table| <= |t| + 1
  {
  }

  lemma {:induction false} SquareGrowth(t: Table, ras: Raster, row: nat, col: nat, d: nat)
    requires Wf(t) && ras.Valid() && 2 * d <= LEVELS_MAX
    ensures |SquareOf(t, ras, row, col, d).table| < |t| + Pow2(2 * d)
    decreases d, 1
  {
    hide Wf, Lookup, FlatOf, Pow2;
    if d == 0 {
      Pow2Zero();
    } else {
      var top := FlatOf(t, ras, row, col, d);
      var bottom := FlatOf(top.table, ras, row + Pow2(d - 1), col, d);
      FlatGrowth(t, ras, row, col, d);
      FlatGrowth(top.table, ras, row + Pow2(d - 1), col, d);
      LookupGrows(bottom.table, 2 * d, top.index, bottom.index);
      Doubles(2 * d - 1);
    }
  }

  lemma {:induction false} FlatGrowth(t: Table, ras: Raster, row: nat, col: nat, d: nat)
    requires Wf(t) && ras.Valid() && 1 <= d && 2 * d <= LEVELS_MAX
    ensures |FlatOf(t, ras, row, col, d).table| < |t| + Pow2(2 * d - 1)
    decreases d, 0
  {
    hide Wf, Lookup, SquareOf, Pow2;
    var left := SquareOf(t, ras, row, col, d - 1);
    var right := SquareOf(left.table, ras, row, col + Pow2(d - 1), d - 1);
    SquareGrowth(t, ras, row, col, d - 1);
    SquareGrowth(left.table, ras, row, col + Pow2(d - 1), d - 1);
    LookupGrows(right.table, 2 * d - 1, left.index, right.index);
    Doubles(2 * d - 2);
  }

  /** A raster adds fewer nodes than its square has pixels. */
  lemma RasterGrowth(t: Table, ras: Raster)
    requires Wf(t) && ras.Valid() && MinLevel(ras.w, ras.h) <= LEVELS_MAX
    ensures |FromRaster(t, ras).table| < |t| + Pow2(MinLevel(ras.w, ras.h))
  {
    hide Wf;
    SquareGrowth(t, ras, 0, 0, MinLevel(ras.w, ras.h) / 2);
  }

  lemma QuarterTurnGrowth(topLeft: Built, topRight: Built, botLeft: Built, botRight: Built, d: nat)
    ensures |QuarterTurn(topLeft, topRight, botLeft, botRight, d).table| <= |botRight.table| + 3
  {
    hide Lookup;
    var top := Join(2 * d - 1, topRight, botRight);
    var bottom := Join(2 * d - 1, topLeft, Built(top.table, botLeft.index));
    LookupGrows(botRight.table, 2 * d - 1, topRight.index, botRight.index);
    LookupGrows(top.table, 2 * d - 1, topLeft.index, botLeft.index);
    LookupGrows(bottom.table, 2 * d, top.index, bottom.index);
  }

  lemma QuarterPower(d: nat)
    requires d >= 1
    ensures Pow2(2 * d) == 4 * Pow2(2 * (d - 1))
  {
    hide Pow2;
    FourTimes(2 * (d - 1));
    assert 2 * (d - 1) + 2 == 2 * d;
  }

  /** What a rotation adds, from what its quarters add. */
  lemma RotatedStep(t: Table, root: int, r: nat, c: nat, d: nat, h: nat, quarter: int)
    requires Wf(t) && IsIndex(t, root) && 1 <= d && 2 * d <= LEVELS_MAX && h == Pow2(d - 1)
    requires forall u, y: nat, x: nat {:trigger Rotated(u, root, y, x, d - 1)} :: Wf(u) && IsIndex(u, root) ==>
               |Rotated(u, root, y, x, d - 1).table| < |u| + quarter
    ensures |Rotated(t, root, r, c, d).table| < |t| + 4 * quarter
  {
    hide Wf, Lookup, Pow2, Pixel, Level, QuarterTurn, Chain, Extends, Sane, IsIndex;
    RotatedIs(t, root, r, c, d);
    hide Rotated;
    var topLeft := Rotated(t, root, r, c, d - 1);
    var topRight := Rotated(topLeft.table, root, r, c + h, d - 1);
    var botLeft := Rotated(topRight.table, root, r + h, c, d - 1);
    var botRight := Rotated(botLeft.table, root, r + h, c + h, d - 1);
    QuarterTurnGrowth(topLeft, topRight, botLeft, botRight, d);
    FourQuarters(|t|, |topLeft.table|, |topRight.table|, |botLeft.table|, |botRight.table|,
      |Rotated(t, root, r, c, d).table|, quarter);
  }

  lemma {:induction false} RotatedGrowth(t: Table, root: int, r: nat, c: nat, d: nat)
    requires Wf(t) && IsIndex(t, root) && 2 * d <= LEVELS_MAX
    ensures |Rotated(t, root, r, c, d).table| < |t| + Pow2(2 * d)
    decreases d
  {
    if d == 0 {
      Pow2Zero();
    } else {
      hide Wf, Pow2, Rotated, IsIndex;
      QuarterPower(d);
      forall u, y: nat, x: nat {:trigger Rotated(u, root, y, x, d - 1)} | Wf(u) && IsIndex(u, root)
        ensures |Rotated(u, root, y, x, d - 1).table| < |u| + Pow2(2 * (d - 1))
      {
        RotatedGrowth(u, root, y, x, d - 1);
      }
      RotatedStep(t, root, r, c, d, Pow2(d - 1), Pow2(2 * (d - 1)));
    }
  }

  lemma FourQuarters(n: int, first: int, second: int, third: int, fourth: int, all: int, quarter: int)
    requires first < n + quarter && second < first + quarter && third < second + quarter && fourth < third + quarter
    requires all <= fourth + 3
    ensures all < n + 4 * quarter
  {
  }

  /** A rotation adds fewer nodes than the square has pixels. */
  lemma RotateGrowth(t: Table, root: int, d: nat)
    requires Wf(t) && IsIndex(t, root) && 2 * d <= LEVELS_MAX
    ensures |Rotate(t, root, d).table| < |t| + Pow2(2 * d)
  {
    RotatedGrowth(t, root, 0, 0, d);
  }

  // ---- node by node: no more nodes than can be reached ----

  /**
   * The common shape of mapping and zooming, into table `u`: leaves go through a function, nodes up to level
   * `flat` become 255, and the others move by `shift` levels.
   */
  function Copied(t: Table, u: Table, i: int, leaf: int -> int, flat: int, shift: int): (b: Built)
    requires Wf(t) && IsIndex(t, i)
    ensures u <= b.table
    decreases i
  {
    if i < LEAVES then Built(u, leaf(i)) else
      NodeFacts(t, i);
      var n := t[i - LEAVES];
      if n.level <= flat then Built(u, 255) else
        var l := Copied(t, u, n.left, leaf, flat, shift);
        var r := Copied(t, l.table, n.right, leaf, flat, shift);
        Lookup(r.table, n.level + shift, l.index, r.index)
  }

  /** What was found once is found in every longer table. */
  lemma FoundLater(t: Table, u: Table, level: int, left: int, right: int)
    requires Lookup(t, level, left, right).table == t && t <= u
    ensures Lookup(u, level, left, right) == Built(u, Lookup(t, level, left, right).index)
  {
    var n := Node(level, left, right);
    if left != right {
      var k := Find(t, n);
      assert u[k] == n;
      assert Find(u, n) <= k;
      assert u[Find(u, n)] == t[Find(u, n)];
    }
  }

  lemma FoundAgain(t: Table, level: int, left: int, right: int)
    ensures var b := Lookup(t, level, left, right); Lookup(b.table, level, left, right) == b
  {
    var n, b := Node(level, left, right), Lookup(t, level, left, right);
    if left != right && Find(t, n) == |t| {
      assert b.table[|t|] == n;
      assert Find(b.table, n) <= |t|;
      assert forall j :: 0 <= j < |t| ==> b.table[j] == t[j];
    }
  }

  lemma CopiedParts(t: Table, u: Table, i: int, leaf: int -> int, flat: int, shift: int)
    requires Wf(t) && LEAVES <= i < LEAVES + |t|
    ensures var n := t[i - LEAVES];
            && IsIndex(t, n.left) && IsIndex(t, n.right) && n.left < i && n.right < i
            && (n.level <= flat ==> Copied(t, u, i, leaf, flat, shift) == Built(u, 255))
            && (n.level > flat ==>
                  var l := Copied(t, u, n.left, leaf, flat, shift);
                  var r := Copied(t, l.table, n.right, leaf, flat, shift);
                  Copied(t, u, i, leaf, flat, shift) == Lookup(r.table, n.level + shift, l.index, r.index)
                  && u <= l.table <= r.table <= Copied(t, u, i, leaf, flat, shift).table)
  {
    NodeFacts(t, i);
    hide Wf;
  }

  /** A copy that adds nothing adds nothing in any longer table either. */
  lemma {:induction false} CopiedLater(t: Table, u: Table, v: Table, i: int, leaf: int -> int, flat: int, shift: int)
    requires Wf(t) && IsIndex(t, i) && Copied(t, u, i, leaf, flat, shift).table == u && u <= v
    ensures Copied(t, v, i, leaf, flat, shift) == Built(v, Copied(t, u, i, leaf, flat, shift).index)
    decreases i
  {
    if i >= LEAVES {
      CopiedParts(t, u, i, leaf, flat, shift);
      CopiedParts(t, v, i, leaf, flat, shift);
      hide Wf, Copied, Lookup;
      var n := t[i - LEAVES];
      if n.level > flat {
        CopiedLater(t, u, v, n.left, leaf, flat, shift);
        CopiedLater(t, u, v, n.right, leaf, flat, shift);
        var l, r := Copied(t, u, n.left, leaf, flat, shift), Copied(t, u, n.right, leaf, flat, shift);
        FoundLater(u, v, n.level + shift, l.index, r.index);
      }
    }
  }

  /** Copying a node a second time, with its children found again, finds the node again. */
  lemma ParentAgain(t: Table, u: Table, i: int, leaf: int -> int, flat: int, shift: int)
    requires Wf(t) && LEAVES <= i < LEAVES + |t| && IsIndex(t, t[i - LEAVES].left) && IsIndex(t, t[i - LEAVES].right)
    requires t[i - LEAVES].level > flat
    requires var n, b := t[i - LEAVES], Copied(t, u, i, leaf, flat, shift);
             var l := Copied(t, u, n.left, leaf, flat, shift);
             && Copied(t, b.table, n.left, leaf, flat, shift) == Built(b.table, l.index)
             && Copied(t, b.table, n.right, leaf, flat, shift) ==
                Built(b.table, Copied(t, l.table, n.right, leaf, flat, shift).index)
    ensures var b := Copied(t, u, i, leaf, flat, shift); Copied(t, b.table, i, leaf, flat, shift) == b
  {
    hide Wf, Copied, Lookup;
    var n, b := t[i - LEAVES], Copied(t, u, i, leaf, flat, shift);
    var l := Copied(t, u, n.left, leaf, flat, shift);
    var r := Copied(t, l.table, n.right, leaf, flat, shift);
    CopiedParts(t, u, i, leaf, flat, shift);
    CopiedParts(t, b.table, i, leaf, flat, shift);
    FoundAgain(r.table, n.level + shift, l.index, r.index);
  }

  /** Copying a second time adds nothing. */
  lemma {:induction false} CopiedAgain(t: Table, u: Table, i: int, leaf: int -> int, flat: int, shift: int)
    requires Wf(t) && IsIndex(t, i)
    ensures var b := Copied(t, u, i, leaf, flat, shift); Copied(t, b.table, i, leaf, flat, shift) == b
    decreases i
  {
    if i < LEAVES {
    } else {
      hide Wf, Copied, Lookup;
      var n, b := t[i - LEAVES], Copied(t, u, i, leaf, flat, shift);
      CopiedParts(t, u, i, leaf, flat, shift);
      if n.level <= flat {
        CopiedParts(t, b.table, i, leaf, flat, shift);
      } else {
        var l := Copied(t, u, n.left, leaf, flat, shift);
        var r := Copied(t, l.table, n.right, leaf, flat, shift);
        CopiedAgain(t, u, n.left, leaf, flat, shift);
        CopiedLater(t, l.table, b.table, n.left, leaf, flat, shift);
        CopiedAgain(t, l.table, n.right, leaf, flat, shift);
        CopiedLater(t, r.table, b.table, n.right, leaf, flat, shift);
        ParentAgain(t, u, i, leaf, flat, shift);
      }
    }
  }

  /** The nodes, other than leaves, that can be reached. */
  function Inner(t: Table, i: int): set<int>
    requires Wf(t) && IsIndex(t, i)
  {
    set j | j in Reach(t, i) && j >= LEAVES
  }

  lemma InnerParts(t: Table, i: int)
    requires Wf(t) && IsIndex(t, i)
    ensures i < LEAVES ==> Inner(t, i) == {}
    ensures i >= LEAVES ==>
              var n := t[i - LEAVES];
              && IsIndex(t, n.left) && IsIndex(t, n.right) && n.left < i && n.right < i
              && Inner(t, i) == {i} + Inner(t, n.left) + Inner(t, n.right)
  {
    ReachParts(t, i);
    hide Wf, Reach;
  }

  lemma {:induction false} InnerBelow(t: Table, i: int)
    requires Wf(t) && IsIndex(t, i)
    ensures forall j :: j in Inner(t, i) ==> LEAVES <= j <= i
    decreases i
  {
    InnerParts(t, i);
    hide Wf, Inner;
    if i >= LEAVES {
      InnerBelow(t, t[i - LEAVES].left);
      InnerBelow(t, t[i - LEAVES].right);
    }
  }

  /** Copying any of the nodes `done` into `u` adds nothing. */
  ghost predicate AllDone(t: Table, u: Table, done: set<int>, leaf: int -> int, flat: int, shift: int)
    requires Wf(t)
  {
    forall j :: j in done ==> IsIndex(t, j) && Copied(t, u, j, leaf, flat, shift).table == u
  }

  lemma DoneLater(t: Table, u: Table, v: Table, done: set<int>, leaf: int -> int, flat: int, shift: int)
    requires Wf(t) && AllDone(t, u, done, leaf, flat, shift) && u <= v
    ensures AllDone(t, v, done, leaf, flat, shift)
  {
    hide Copied;
    forall j | j in done
      ensures IsIndex(t, j) && Copied(t, v, j, leaf, flat, shift).table == v
    {
      CopiedLater(t, u, v, j, leaf, flat, shift);
    }
  }

  /** The nodes a copied node passed on its way are done with it, down to the level where everything is 255. */
  lemma {:induction false} CopyGrowth(t: Table, u: Table, i: int, done: set<int>, leaf: int -> int, flat: int,
      shift: int)
    returns (after: set<int>)
    requires Wf(t) && IsIndex(t, i) && AllDone(t, u, done, leaf, flat, shift)
    ensures var v := Copied(t, u, i, leaf, flat, shift).table;
            && AllDone(t, v, after, leaf, flat, shift) && done <= after <= done + Inner(t, i)
            && |v| - |u| <= |after - done|
    decreases i
  {
    hide Wf, Copied, Lookup, Inner, AllDone, IsIndex;
    var b := Copied(t, u, i, leaf, flat, shift);
    if i < LEAVES || i in done {
      NothingToCopy(t, u, i, done, leaf, flat, shift);
      after := done;
    } else {
      InnerParts(t, i);
      IndexBelow(t, i);
      CopiedParts(t, u, i, leaf, flat, shift);
      var n := t[i - LEAVES];
      if n.level <= flat {
        after := done;
      } else {
        var l := Copied(t, u, n.left, leaf, flat, shift);
        var r := Copied(t, l.table, n.right, leaf, flat, shift);
        var first := CopyGrowth(t, u, n.left, done, leaf, flat, shift);
        var second := CopyGrowth(t, l.table, n.right, first, leaf, flat, shift);
        LookupGrows(r.table, n.level + shift, l.index, r.index);
        DoneLater(t, r.table, b.table, second, leaf, flat, shift);
        after := second + {i};
        NodeIsNew(t, i, done, second);
        OneMore(done, first, second, i);
        DoneWith(t, u, i, second, leaf, flat, shift);
      }
    }
  }

  lemma IndexBelow(t: Table, i: int)
    requires IsIndex(t, i)
    ensures 0 <= i < LEAVES + |t|
  {
  }

  lemma NothingToCopy(t: Table, u: Table, i: int, done: set<int>, leaf: int -> int, flat: int, shift: int)
    requires Wf(t) && IsIndex(t, i) && AllDone(t, u, done, leaf, flat, shift) && (i < LEAVES || i in done)
    ensures Copied(t, u, i, leaf, flat, shift).table == u
  {
  }

  /** A node is not below itself. */
  lemma NodeIsNew(t: Table, i: int, done: set<int>, second: set<int>)
    requires Wf(t) && LEAVES <= i < LEAVES + |t| && IsIndex(t, t[i - LEAVES].left) && IsIndex(t, t[i - LEAVES].right)
    requires i !in done
    requires second <= done + Inner(t, t[i - LEAVES].left) + Inner(t, t[i - LEAVES].right)
    ensures i !in second && second + {i} <= done + Inner(t, i)
  {
    InnerParts(t, i);
    InnerBelow(t, t[i - LEAVES].left);
    InnerBelow(t, t[i - LEAVES].right);
    hide Wf, Inner;
  }

  lemma OneMore(done: set<int>, first: set<int>, second: set<int>, i: int)
    requires done <= first <= second && i !in second
    ensures |second + {i} - done| == |first - done| + |second - first| + 1
  {
    assert second + {i} - done == (first - done) + (second - first) + {i};
  }

  lemma DoneWith(t: Table, u: Table, i: int, done: set<int>, leaf: int -> int, flat: int, shift: int)
    requires Wf(t) && IsIndex(t, i)
    requires AllDone(t, Copied(t, u, i, leaf, flat, shift).table, done, leaf, flat, shift)
    ensures AllDone(t, Copied(t, u, i, leaf, flat, shift).table, done + {i}, leaf, flat, shift)
  {
    CopiedAgain(t, u, i, leaf, flat, shift);
    hide Copied;
  }

  /** A copy adds at most one node for each node that can be reached. */
  lemma CopyBound(t: Table, i: int, leaf: int -> int, flat: int, shift: int)
    requires Wf(t) && IsIndex(t, i)
    ensures |Copied(t, t, i, leaf, flat, shift).table| <= |t| + |Inner(t, i)|
  {
    hide Wf, Copied, Inner;
    var after := CopyGrowth(t, t, i, {}, leaf, flat, shift);
    SubsetSize(after - {}, Inner(t, i));
  }

  /** The nodes and the levels of `t` are the same in a longer table. */
  lemma SameNodeIn(t: Table, u: Table, i: int)
    requires Extends(u, t) && LEAVES <= i < LEAVES + |t|
    ensures u[i - LEAVES] == t[i - LEAVES] && IsIndex(u, i) && Level(u, i) == t[i - LEAVES].level
    ensures var n := t[i - LEAVES];
            && 0 <= n.left < i && 0 <= n.right < i && 0 < n.level <= LEVELS_MAX && Level(u, n.left) < n.level &&
               Level(u, n.right) < n.level
  {
    NodeFacts(t, i);
    NodeFacts(u, i);
  }

  lemma {:induction false} MapIsCopied(t: Table, u: Table, i: int, f: int -> int)
    requires Extends(u, t) && IsIndex(t, i) && OnBytes(f)
    ensures Map(u, i, f) == Copied(t, u, i, f, 0, 0)
    decreases i
  {
    hide Wf, Lookup, Level;
    if i >= LEAVES {
      SameNodeIn(t, u, i);
      var n := t[i - LEAVES];
      var l := Map(u, n.left, f);
      MapIsCopied(t, u, n.left, f);
      ExtendsTrans(l.table, u, t);
      MapIsCopied(t, l.table, n.right, f);
    }
  }

  lemma {:induction false} ZoomInIsCopied(t: Table, u: Table, i: int, k: nat)
    requires Extends(u, t) && IsIndex(t, i) && Level(u, i) + 2 * k <= LEVELS_MAX
    ensures ZoomIn(u, i, k) == Copied(t, u, i, v => v, 0, 2 * k)
    decreases i
  {
    hide Wf, Lookup, Level;
    if i >= LEAVES {
      SameNodeIn(t, u, i);
      var n := t[i - LEAVES];
      var l := ZoomIn(u, n.left, k);
      ZoomInIsCopied(t, u, n.left, k);
      ExtendsTrans(l.table, u, t);
      SameNodeIn(t, l.table, i);
      ZoomInIsCopied(t, l.table, n.right, k);
    }
  }

  lemma {:induction false} ZoomOutIsCopied(t: Table, u: Table, i: int, k: nat)
    requires Extends(u, t) && IsIndex(t, i)
    ensures ZoomOut(u, i, k) == Copied(t, u, i, Lit, 2 * k, -2 * k)
    decreases i
  {
    hide Wf, Lookup, Level;
    if i >= LEAVES {
      SameNodeIn(t, u, i);
      var n := t[i - LEAVES];
      if n.level > 2 * k {
        var l := ZoomOut(u, n.left, k);
        ZoomOutIsCopied(t, u, n.left, k);
        ExtendsTrans(l.table, u, t);
        ZoomOutIsCopied(t, l.table, n.right, k);
      }
    }
  }

  /** Mapping adds at most one node for each node of the diagram, however often they are shared. */
  lemma MapGrowth(t: Table, i: int, f: int -> int)
    requires Wf(t) && IsIndex(t, i) && OnBytes(f)
    ensures |Map(t, i, f).table| <= |t| + |Inner(t, i)|
  {
    Itself(t);
    MapIsCopied(t, t, i, f);
    CopyBound(t, i, f, 0, 0);
    hide Wf, Map, Inner;
  }

  /** So does zooming, in either direction. */
  lemma ZoomGrowth(t: Table, i: int, k: nat)
    requires Wf(t) && IsIndex(t, i)
    ensures Level(t, i) + 2 * k <= LEVELS_MAX ==> |ZoomIn(t, i, k).table| <= |t| + |Inner(t, i)|
    ensures |ZoomOut(t, i, k).table| <= |t| + |Inner(t, i)|
  {
    Itself(t);
    hide Wf, ZoomIn, ZoomOut, Inner;
    if Level(t, i) + 2 * k <= LEVELS_MAX { ZoomInIsCopied(t, t, i, k); }
    ZoomOutIsCopied(t, t, i, k);
    CopyBound(t, i, v => v, 0, 2 * k);
    CopyBound(t, i, Lit, 2 * k, -2 * k);
  }

  /** Reading code adds at most one node for every nine bytes. */
  lemma {:induction false} ReplayGrowth(t: Table, ids: seq<int>, bytes: seq<int>)
    requires !Replay(t, ids, bytes).Undefined?
    ensures 9 * |Replay(t, ids, bytes).table| <= 9 * |t| + |bytes|
    decreases |bytes|
  {
    hide Lookup, HeadOf;
    if bytes != [] {
      match HeadOf(ids, bytes)
      case Bad =>
      case Leaf(v) => ReplayGrowth(t, ids + [v], if |bytes| == 1 then [] else bytes[2..]);
      case Inner(level, left, right) =>
        var b := Lookup(t, level, left, right);
        LookupGrows(t, level, left, right);
        ReplayGrowth(b.table, ids + [b.index], bytes[9..]);
    }
  }
}
