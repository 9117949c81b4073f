/** The transformations of diagrams: map, zoom in, zoom out and rotate (hw1/src/bdd.c). */
module BddTransforms {
  import opened Powers
  import opened BddTable
  import opened BddImage

  // ---- bdd_map ----

  ghost predicate OnBytes(f: int -> int) { forall v :: 0 <= v < LEAVES ==> 0 <= f(v) < LEAVES }

  /** Every leaf goes through `f`; nodes are looked up again, the left child's first. */
  function Map(t: Table, i: int, f: int -> int): (b: Built)
    requires Wf(t) && IsIndex(t, i) && OnBytes(f)
    ensures Sane(t, b, Level(t, i))
    decreases i
  {
    hide Wf, Join, Level, Sane;
    if i < LEAVES then LeafSane(t, i); LeafSane(t, f(i)); Built(t, f(i)) else
      NodeFacts(t, i);
      var n := t[i - LEAVES];
      var l := Map(t, n.left, f);
      StillThere(t, l, Level(t, n.left), n.right);
      var r := Map(l.table, n.right, f);
      JoinUpTo(t, n.level, l, Level(t, n.left), r, Level(t, n.right));
      Join(n.level, l, r)
  }

  /** Mapping commutes with reading a pixel. */
  lemma {:induction false} MapVal(t: Table, i: int, f: int -> int, p: nat)
    requires Wf(t) && IsIndex(t, i) && OnBytes(f)
    ensures var b := Map(t, i, f); Val(b.table, b.index, p) == f(Val(t, i, p))
    decreases i
  {
    hide Wf, Join, Bit;
    if i >= LEAVES {
      NodeFacts(t, i);
      var n := t[i - LEAVES];
      var l := Map(t, n.left, f);
      ExtendedLevel(l.table, t, n.right);
      var r := Map(l.table, n.right, f);
      JoinVal(t, n.level, l, r, p);
      MapVal(t, n.left, f, p);
      MapVal(l.table, n.right, f, p);
      ExtendedVal(l.table, t, n.right, p);
    }
  }

  /** Nodes with the same value everywhere are the same. */
  lemma SameValues(t: Table, i: int, j: int)
    requires Wf(t) && IsIndex(t, i) && IsIndex(t, j)
    requires forall p: nat :: Val(t, i, p) == Val(t, j, p)
    ensures i == j
  {
    LevelNotNegative(t, i);
    LevelNotNegative(t, j);
    if i != j {
      var p := Canonical(t, i, j, LEVELS_MAX);
    }
  }

  /** negateOperation of hw1/src/birp.c. */
  function Negate(v: int): int { 255 - v }

  /** thresholdOperation of hw1/src/birp.c, with the threshold of the options. */
  function Threshold(limit: int): int -> int { v => if v >= limit then 255 else 0 }

  /** Mapping twice is mapping with the composition: the very same node comes out. */
  lemma MapTwice(t: Table, i: int, f: int -> int, g: int -> int, k: int -> int)
    requires Wf(t) && IsIndex(t, i) && OnBytes(f) && OnBytes(g) && OnBytes(k)
    requires forall v :: 0 <= v < LEAVES ==> k(v) == g(f(v))
    ensures var once := Map(t, i, f);
            var twice := Map(once.table, once.index, g);
            && IsIndex(twice.table, i)
            && twice.index == Map(twice.table, i, k).index
  {
    hide Wf, Map;
    var once := Map(t, i, f);
    var twice := Map(once.table, once.index, g);
    ExtendsTrans(twice.table, once.table, t);
    ExtendedLevel(twice.table, t, i);
    var direct := Map(twice.table, i, k);
    ExtendedLevel(direct.table, twice.table, twice.index);
    forall p: nat
      ensures Val(direct.table, twice.index, p) == Val(direct.table, direct.index, p)
    {
      MapVal(t, i, f, p);
      MapVal(once.table, once.index, g, p);
      MapVal(twice.table, i, k, p);
      ExtendedVal(twice.table, t, i, p);
      ExtendedVal(direct.table, twice.table, twice.index, p);
    }
    SameValues(direct.table, twice.index, direct.index);
  }

  /** Every pixel of the mapped diagram is the image of the old one. */
  lemma MapPixels(t: Table, i: int, f: int -> int, r: nat, c: nat)
    requires Wf(t) && IsIndex(t, i) && OnBytes(f)
    ensures var b := Map(t, i, f); Pixel(b.table, b.index, r, c) == f(Pixel(t, i, r, c))
  {
    MapVal(t, i, f, Morton(r, c));
    hide Wf, Map;
  }

  /** Each pixel and its negative add up to white. */
  lemma NegatePixels(t: Table, i: int, r: nat, c: nat)
    requires Wf(t) && IsIndex(t, i)
    ensures OnBytes(Negate)
    ensures var b := Map(t, i, Negate); Pixel(b.table, b.index, r, c) + Pixel(t, i, r, c) == 255
  {
    MapPixels(t, i, Negate, r, c);
    hide Wf, Map;
  }

  /** White from the threshold on, the threshold included, and black below. */
  lemma ThresholdPixels(t: Table, i: int, limit: int, r: nat, c: nat)
    requires Wf(t) && IsIndex(t, i)
    ensures OnBytes(Threshold(limit))
    ensures var b := Map(t, i, Threshold(limit));
            && (Pixel(t, i, r, c) >= limit ==> Pixel(b.table, b.index, r, c) == 255)
            && (Pixel(t, i, r, c) < limit ==> Pixel(b.table, b.index, r, c) == 0)
  {
    MapPixels(t, i, Threshold(limit), r, c);
    hide Wf, Map;
  }

  /** Negating twice gives back the very same node. */
  lemma NegateTwice(t: Table, i: int)
    requires Wf(t) && IsIndex(t, i)
    ensures OnBytes(Negate)
    ensures var once := Map(t, i, Negate); Map(once.table, once.index, Negate).index == i
  {
    hide Wf, Map;
    var once := Map(t, i, Negate);
    var twice := Map(once.table, once.index, Negate);
    ExtendsTrans(twice.table, once.table, t);
    ExtendedLevel(twice.table, t, i);
    forall p: nat
      ensures Val(twice.table, twice.index, p) == Val(twice.table, i, p)
    {
      MapVal(t, i, Negate, p);
      MapVal(once.table, once.index, Negate, p);
      ExtendedVal(twice.table, t, i, p);
    }
    SameValues(twice.table, twice.index, i);
  }

  /** Mapping once more with a function that leaves the results of the first alone changes nothing. */
  lemma MapIdempotent(t: Table, i: int, f: int -> int, g: int -> int)
    requires Wf(t) && IsIndex(t, i) && OnBytes(f) && OnBytes(g)
    requires forall v :: 0 <= v < LEAVES ==> g(f(v)) == f(v)
    ensures var once := Map(t, i, f); Map(once.table, once.index, g).index == once.index
  {
    hide Wf, Map;
    var once := Map(t, i, f);
    var twice := Map(once.table, once.index, g);
    ExtendedLevel(twice.table, once.table, once.index);
    forall p: nat
      ensures Val(twice.table, twice.index, p) == Val(twice.table, once.index, p)
    {
      MapVal(t, i, f, p);
      MapVal(once.table, once.index, g, p);
      ExtendedVal(twice.table, once.table, once.index, p);
    }
    SameValues(twice.table, twice.index, once.index);
  }

  /** A picture that has been through the threshold does not change when it goes through again. */
  lemma ThresholdTwice(t: Table, i: int, limit: int)
    requires Wf(t) && IsIndex(t, i) && 0 <= limit < LEAVES
    ensures OnBytes(Threshold(limit))
    ensures var once := Map(t, i, Threshold(limit)); Map(once.table, once.index, Threshold(limit)).index == once.index
  {
    hide Wf, Map;
    MapIdempotent(t, i, Threshold(limit), Threshold(limit));
  }

  // ---- bdd_zoom, inwards ----

  /** Every level goes up by 2k. */
  function ZoomIn(t: Table, i: int, k: nat): (b: Built)
    requires Wf(t) && IsIndex(t, i) && Level(t, i) + 2 * k <= LEVELS_MAX
    ensures Sane(t, b, Raised(t, i, k))
    decreases i
  {
    hide Wf, Join, Level, Sane;
    if i < LEAVES then LeafSane(t, i); Built(t, i) else
      NodeFacts(t, i);
      var n := t[i - LEAVES];
      var l := ZoomIn(t, n.left, k);
      StillThere(t, l, Raised(t, n.left, k), n.right);
      var r := ZoomIn(l.table, n.right, k);
      var level := n.level + 2 * k;
      JoinUpTo(t, level, l, Raised(t, n.left, k), r, Raised(l.table, n.right, k));
      Join(level, l, r)
  }

  function Raised(t: Table, i: int, k: nat): int
    requires IsIndex(t, i)
  {
    if i < LEAVES then 0 else Level(t, i) + 2 * k
  }

  lemma {:induction false} ZoomInVal(t: Table, i: int, k: nat, p: nat)
    requires Wf(t) && IsIndex(t, i) && Level(t, i) + 2 * k <= LEVELS_MAX
    ensures var b := ZoomIn(t, i, k); Val(b.table, b.index, p) == Val(t, i, Shr(p, 2 * k))
    decreases i
  {
    hide Wf, Join, Bit, Shr;
    if i >= LEAVES {
      NodeFacts(t, i);
      var n := t[i - LEAVES];
      var l := ZoomIn(t, n.left, k);
      ExtendedLevel(l.table, t, n.right);
      var r := ZoomIn(l.table, n.right, k);
      JoinVal(t, n.level + 2 * k, l, r, p);
      ZoomInVal(t, n.left, k, p);
      ZoomInVal(l.table, n.right, k, p);
      ExtendedVal(l.table, t, n.right, Shr(p, 2 * k));
      ShrBit(p, 2 * k, n.level - 1);
      assert n.level + 2 * k - 1 == n.level - 1 + 2 * k;
    }
  }

  /** Zooming in by k repeats every pixel in a 2^k x 2^k block. */
  lemma ZoomInPixels(t: Table, i: int, k: nat, r: nat, c: nat)
    requires Wf(t) && IsIndex(t, i) && Level(t, i) + 2 * k <= LEVELS_MAX
    ensures var b := ZoomIn(t, i, k); Pixel(b.table, b.index, r, c) == Pixel(t, i, r / Pow2(k), c / Pow2(k))
  {
    hide Wf, ZoomIn;
    ZoomInVal(t, i, k, Morton(r, c));
    MortonShr(r, c, k);
    ShrIsDivision(r, k);
    ShrIsDivision(c, k);
  }

  // ---- bdd_zoom, outwards ----

  /** Every level goes down by 2k; a node that would fall below the ground is not all black. */
  function ZoomOut(t: Table, i: int, k: nat): (b: Built)
    requires Wf(t) && IsIndex(t, i)
    ensures Sane(t, b, Lowered(t, i, k))
    decreases i
  {
    hide Wf, Join, Level, Sane, Lowered;
    OnGround(t, i, k);
    if i < LEAVES then Built(t, if i == 0 then 0 else 255)
    else if Level(t, i) <= 2 * k then Built(t, 255) else
      NodeFacts(t, i);
      var n := t[i - LEAVES];
      var l := ZoomOut(t, n.left, k);
      StillThere(t, l, Lowered(t, n.left, k), n.right);
      var r := ZoomOut(l.table, n.right, k);
      BelowLowered(t, n.left, n.level, k);
      BelowLowered(l.table, n.right, n.level, k);
      var level := n.level - 2 * k;
      JoinUpTo(t, level, l, Lowered(t, n.left, k), r, Lowered(l.table, n.right, k));
      Join(level, l, r)
  }

  function Lowered(t: Table, i: int, k: nat): int
    requires IsIndex(t, i)
  {
    if Level(t, i) <= 2 * k then 0 else Level(t, i) - 2 * k
  }

  lemma OnGround(t: Table, i: int, k: nat)
    requires Wf(t) && IsIndex(t, i)
    ensures Level(t, i) <= 2 * k ==> Lowered(t, i, k) == 0
    ensures Level(t, i) > 2 * k ==> Lowered(t, i, k) == Level(t, i) - 2 * k
    ensures i < LEAVES ==> Level(t, i) == 0
    ensures Sane(t, Built(t, 0), 0) && Sane(t, Built(t, 255), 0)
  {
  }

  lemma BelowLowered(t: Table, i: int, level: int, k: nat)
    requires IsIndex(t, i) && Level(t, i) < level && level > 2 * k
    ensures Lowered(t, i, k) < level - 2 * k
  {
  }

  /** Some position of block `p` is not black. */
  ghost predicate AnyLit(t: Table, i: int, k: nat, p: nat)
    requires Wf(t) && IsIndex(t, i)
  {
    exists q: nat :: Shr(q, 2 * k) == p && Val(t, i, q) != 0
  }

  /** `p` followed by the `s` digits of `x`. */
  function Shl(p: nat, s: nat, x: nat): nat { if s == 0 then p else 2 * Shl(p, s - 1, x / 2) + x % 2 }

  lemma {:induction false} ShlBits(p: nat, s: nat, x: nat)
    ensures Shr(Shl(p, s, x), s) == p && AgreeBelow(Shl(p, s, x), x, s)
  {
    if s > 0 {
      ShlBits(p, s - 1, x / 2);
      var y := Shl(p, s, x);
      assert y / 2 == Shl(p, s - 1, x / 2);
      forall b: nat | b < s
        ensures Bit(y, b) == Bit(x, b)
      {
        if b > 0 { assert Bit(y / 2, b - 1) == Bit(x / 2, b - 1); }
      }
    }
  }

  /** A node of at most 2k levels lights up every block of that size. */
  lemma ShallowIsLit(t: Table, i: int, k: nat, p: nat)
    requires Wf(t) && LEAVES <= i < LEAVES + |t| && Level(t, i) <= 2 * k
    ensures AnyLit(t, i, k, p)
  {
    LevelNotNegative(t, i);
    var x := Canonical(t, i, 0, Level(t, i));
    var q := Shl(p, 2 * k, x);
    ShlBits(p, 2 * k, x);
    hide Wf, Bit, Shl, Shr;
    ValBits(t, i, q, x);
    assert Val(t, i, q) != 0 && Shr(q, 2 * k) == p;
  }

  lemma LeafLit(t: Table, i: int, k: nat, p: nat)
    requires Wf(t) && 0 <= i < LEAVES
    ensures AnyLit(t, i, k, p) <==> i != 0
  {
    hide Wf;
    ShlBits(p, 2 * k, 0);
    var q := Shl(p, 2 * k, 0);
    assert Shr(q, 2 * k) == p && Val(t, i, q) == i;
  }

  /** Above level 2k a block lies in one child. */
  lemma DeepLit(t: Table, i: int, k: nat, p: nat)
    requires Wf(t) && LEAVES <= i < LEAVES + |t| && Level(t, i) > 2 * k
    ensures var n := t[i - LEAVES];
            && IsIndex(t, n.left) && IsIndex(t, n.right)
            && (AnyLit(t, i, k, p) <==>
               if Bit(p, n.level - 2 * k - 1) then AnyLit(t, n.right, k, p) else AnyLit(t, n.left, k, p))
  {
    NodeFacts(t, i);
    var n := t[i - LEAVES];
    hide Wf, Bit, Shr;
    forall q: nat | Shr(q, 2 * k) == p
      ensures Bit(q, n.level - 1) == Bit(p, n.level - 2 * k - 1)
      ensures Val(t, i, q) == if Bit(p, n.level - 2 * k - 1) then Val(t, n.right, q) else Val(t, n.left, q)
    {
      ShrBit(q, 2 * k, n.level - 2 * k - 1);
    }
  }

  lemma ExtendedLit(u: Table, t: Table, i: int, k: nat, p: nat)
    requires Extends(u, t) && IsIndex(t, i)
    ensures IsIndex(u, i) && (AnyLit(u, i, k, p) <==> AnyLit(t, i, k, p))
  {
    ExtendedLevel(u, t, i);
    hide Wf, Shr;
    forall q: nat
      ensures Val(u, i, q) == Val(t, i, q)
    {
      ExtendedVal(u, t, i, q);
    }
  }

  lemma {:induction false} ZoomOutVal(t: Table, i: int, k: nat, p: nat)
    requires Wf(t) && IsIndex(t, i)
    ensures var b := ZoomOut(t, i, k); Val(b.table, b.index, p) == if AnyLit(t, i, k, p) then 255 else 0
    decreases i
  {
    hide Wf, Join, Bit, AnyLit;
    if i < LEAVES {
      LeafLit(t, i, k, p);
    } else if Level(t, i) <= 2 * k {
      ShallowIsLit(t, i, k, p);
    } else {
      NodeFacts(t, i);
      var n := t[i - LEAVES];
      var l := ZoomOut(t, n.left, k);
      ExtendedLevel(l.table, t, n.right);
      var r := ZoomOut(l.table, n.right, k);
      JoinVal(t, n.level - 2 * k, l, r, p);
      ZoomOutVal(t, n.left, k, p);
      ZoomOutVal(l.table, n.right, k, p);
      ExtendedLit(l.table, t, n.right, k, p);
      DeepLit(t, i, k, p);
    }
  }

  /** Zooming out by k: 255 for a 2^k x 2^k block with any pixel that is not black, 0 for a black one. */
  lemma ZoomOutPixels(t: Table, i: int, k: nat, r: nat, c: nat)
    requires Wf(t) && IsIndex(t, i)
    ensures var b := ZoomOut(t, i, k);
            Pixel(b.table, b.index, r, c) ==
              if exists y: nat, x: nat :: y / Pow2(k) == r && x / Pow2(k) == c && Pixel(t, i, y, x) != 0 then 255 else 0
  {
    hide Wf, ZoomOut, AnyLit;
    ZoomOutVal(t, i, k, Morton(r, c));
    LitPixels(t, i, k, r, c);
  }

  lemma LitPixels(t: Table, i: int, k: nat, r: nat, c: nat)
    requires Wf(t) && IsIndex(t, i)
    ensures AnyLit(t, i, k, Morton(r, c)) <==>
            exists y: nat, x: nat :: y / Pow2(k) == r && x / Pow2(k) == c && Pixel(t, i, y, x) != 0
  {
    hide Wf, Shr, Morton;
    if AnyLit(t, i, k, Morton(r, c)) {
      var q: nat :| Shr(q, 2 * k) == Morton(r, c) && Val(t, i, q) != 0;
      var y, x := BlockOf(q, k, r, c);
      assert Pixel(t, i, y, x) != 0;
    }
    if y: nat, x: nat :| y / Pow2(k) == r && x / Pow2(k) == c && Pixel(t, i, y, x) != 0 {
      MortonShr(y, x, k);
      ShrIsDivision(y, k);
      ShrIsDivision(x, k);
      assert Shr(Morton(y, x), 2 * k) == Morton(r, c) && Val(t, i, Morton(y, x)) != 0;
    }
  }

  /** The pixel at a position, and the block it lies in. */
  lemma BlockOf(q: nat, k: nat, r: nat, c: nat) returns (y: nat, x: nat)
    requires Shr(q, 2 * k) == Morton(r, c)
    ensures Morton(y, x) == q && y / Pow2(k) == r && x / Pow2(k) == c
  {
    var d := SquareFor(q);
    MortonSurjective(q, d);
    y, x := RowOf(q), ColOf(q);
    hide Shr, Morton, RowOf, ColOf;
    MortonShr(y, x, k);
    ShrIsDivision(y, k);
    ShrIsDivision(x, k);
    MortonInjective(Shr(y, k), Shr(x, k), r, c);
  }

  lemma SquareFor(q: nat) returns (d: nat)
    ensures q < Pow2(2 * d)
  {
    BelowPow2(q);
    Pow2Monotone(q, 2 * q);
    d := q;
  }

  lemma {:induction false} BelowPow2(q: nat)
    ensures q < Pow2(q)
  {
    if q > 0 { BelowPow2(q - 1); }
  }

  lemma {:induction false} MortonInjective(r: nat, c: nat, y: nat, x: nat)
    requires Morton(r, c) == Morton(y, x)
    ensures r == y && c == x
    decreases r + c + y + x
  {
    MortonHalves(r, c);
    MortonHalves(y, x);
    if r + c + y + x > 0 { MortonInjective(r / 2, c / 2, y / 2, x / 2); }
  }

  function Lit(v: int): int { if v == 0 then 0 else 255 }

  /** Zooming in and out again by k is mapping black to 0 and everything else to 255: the same node comes out. */
  lemma ZoomInOut(t: Table, i: int, k: nat)
    requires Wf(t) && IsIndex(t, i) && Level(t, i) + 2 * k <= LEVELS_MAX
    ensures OnBytes(Lit)
    ensures var large := ZoomIn(t, i, k);
            var small := ZoomOut(large.table, large.index, k);
            IsIndex(small.table, i) && small.index == Map(small.table, i, Lit).index
  {
    hide Wf, Map, ZoomIn, ZoomOut, AnyLit;
    var large := ZoomIn(t, i, k);
    var small := ZoomOut(large.table, large.index, k);
    ExtendsTrans(small.table, large.table, t);
    ExtendedLevel(small.table, t, i);
    var direct := Map(small.table, i, Lit);
    ExtendedLevel(direct.table, small.table, small.index);
    forall p: nat
      ensures Val(direct.table, small.index, p) == Val(direct.table, direct.index, p)
    {
      ZoomOutVal(large.table, large.index, k, p);
      ZoomedLit(t, i, k, p);
      MapVal(small.table, i, Lit, p);
      ExtendedVal(small.table, t, i, p);
      ExtendedVal(direct.table, small.table, small.index, p);
    }
    SameValues(direct.table, small.index, direct.index);
  }

  /** A block of the zoomed image is one pixel of the original. */
  lemma ZoomedLit(t: Table, i: int, k: nat, p: nat)
    requires Wf(t) && IsIndex(t, i) && Level(t, i) + 2 * k <= LEVELS_MAX
    ensures var large := ZoomIn(t, i, k); AnyLit(large.table, large.index, k, p) <==> Val(t, i, p) != 0
  {
    hide Wf, ZoomIn, Shr, Shl;
    var large := ZoomIn(t, i, k);
    forall q: nat | Shr(q, 2 * k) == p
      ensures Val(large.table, large.index, q) == Val(t, i, p)
    {
      ZoomInVal(t, i, k, q);
    }
    ShlBits(p, 2 * k, 0);
    assert Shr(Shl(p, 2 * k, 0), 2 * k) == p;
  }

  // ---- bdd_rotate ----

  /** The rotated image of the square of side 2^d at (r, c): the four quarters first, then three lookups. */
  function Rotated(t: Table, root: int, r: nat, c: nat, d: nat): (b: Built)
    requires Wf(t) && IsIndex(t, root) && 2 * d <= LEVELS_MAX
    ensures Sane(t, b, 2 * d)
    decreases d
  {
    if d == 0 then Built(t, Pixel(t, root, r, c)) else
      hide Wf, Join, Pixel;
      var h := Pow2(d - 1);
      var topLeft := Rotated(t, root, r, c, d - 1);
      ExtendedLevel(topLeft.table, t, root);
      var topRight := Rotated(topLeft.table, root, r, c + h, d - 1);
      ExtendedLevel(topRight.table, topLeft.table, root);
      var botLeft := Rotated(topRight.table, root, r + h, c, d - 1);
      ExtendedLevel(botLeft.table, topRight.table, root);
      var botRight := Rotated(botLeft.table, root, r + h, c + h, d - 1);
      QuarterTurnSane(t, topLeft, topRight, botLeft, botRight, d);
      QuarterTurn(topLeft, topRight, botLeft, botRight, d)
  }

  /** The top half is made of the right quarters, the bottom half of the left ones. */
  function QuarterTurn(topLeft: Built, topRight: Built, botLeft: Built, botRight: Built, d: nat): Built {
    var top := Join(2 * d - 1, topRight, botRight);
    var bottom := Join(2 * d - 1, topLeft, Built(top.table, botLeft.index));
    Join(2 * d, top, bottom)
  }

  /** Four results, each built after the one before. */
  ghost predicate Chain(t: Table, a: Built, b: Built, c: Built, e: Built, n: int) {
    Sane(t, a, n) && Sane(a.table, b, n) && Sane(b.table, c, n) && Sane(c.table, e, n)
  }

  /** A result stays good on an older base and with a newer table. */
  lemma SaneAcross(s: Table, t: Table, b: Built, u: Table, n: int)
    requires Extends(t, s) && Sane(t, b, n) && Extends(u, b.table)
    ensures Sane(s, Built(u, b.index), n) && Extends(u, s) && Sane(s, b, n)
  {
    ExtendsTrans(b.table, t, s);
    ExtendsTrans(u, b.table, s);
    ExtendedLevel(u, b.table, b.index);
  }

  /** The three joins of a quarter turn are on sound ground. */
  lemma QuarterTurnSteps(t: Table, topLeft: Built, topRight: Built, botLeft: Built, botRight: Built, d: nat)
    requires 1 <= d && 2 * d <= LEVELS_MAX && Chain(t, topLeft, topRight, botLeft, botRight, 2 * d - 2)
    ensures Sane(topLeft.table, topRight, 2 * d - 2) && Sane(topRight.table, botRight, 2 * d - 2)
    ensures var top := Join(2 * d - 1, topRight, botRight);
            && Sane(topLeft.table, top, 2 * d - 1) && Extends(top.table, botLeft.table)
            && Sane(topLeft.table, Built(top.table, botLeft.index), 2 * d - 2)
            && (var bottom := Join(2 * d - 1, topLeft, Built(top.table, botLeft.index));
                && Sane(t, top, 2 * d - 1) && Sane(top.table, bottom, 2 * d - 1))
  {
    hide Wf, Join;
    Itself(botRight.table);
    SaneAcross(topRight.table, botLeft.table, botRight, botRight.table, 2 * d - 2);
    JoinSane(topLeft.table, 2 * d - 1, topRight, botRight);
    var top := Join(2 * d - 1, topRight, botRight);
    ExtendsTrans(top.table, botRight.table, botLeft.table);
    SaneAcross(topLeft.table, topRight.table, botLeft, top.table, 2 * d - 2);
    JoinSane(t, 2 * d - 1, topLeft, Built(top.table, botLeft.index));
    Itself(top.table);
    SaneAcross(t, topLeft.table, top, top.table, 2 * d - 1);
  }

  lemma QuarterTurnSane(t: Table, topLeft: Built, topRight: Built, botLeft: Built, botRight: Built, d: nat)
    requires 1 <= d && 2 * d <= LEVELS_MAX && Chain(t, topLeft, topRight, botLeft, botRight, 2 * d - 2)
    ensures Sane(t, QuarterTurn(topLeft, topRight, botLeft, botRight, d), 2 * d)
  {
    hide Wf, Join;
    QuarterTurnSteps(t, topLeft, topRight, botLeft, botRight, d);
    var top := Join(2 * d - 1, topRight, botRight);
    JoinSane(t, 2 * d, top, Join(2 * d - 1, topLeft, Built(top.table, botLeft.index)));
  }

  /** Where the pixels of a quarter turn come from. */
  lemma QuarterTurnPixel(t: Table, topLeft: Built, topRight: Built, botLeft: Built, botRight: Built, d: nat, y: nat,
      x: nat)
    requires 1 <= d && 2 * d <= LEVELS_MAX && Chain(t, topLeft, topRight, botLeft, botRight, 2 * d - 2)
    requires y < Pow2(d) && x < Pow2(d)
    ensures var b, h := QuarterTurn(topLeft, topRight, botLeft, botRight, d), Pow2(d - 1);
            && Wf(b.table) && IsIndex(b.table, b.index)
            && Pixel(b.table, b.index, y, x) ==
               if y < h then (if x < h then Pixel(topRight.table, topRight.index, y, x)
                 else Pixel(botRight.table, botRight.index, y, x - h))
               else (if x < h then Pixel(topLeft.table, topLeft.index, y - h, x)
                 else Pixel(botLeft.table, botLeft.index, y - h, x - h))
  {
    hide Wf, Join, Pixel;
    var h := Pow2(d - 1);
    QuarterTurnSteps(t, topLeft, topRight, botLeft, botRight, d);
    var top := Join(2 * d - 1, topRight, botRight);
    var left := Built(top.table, botLeft.index);
    JoinRows(t, d, top, Join(2 * d - 1, topLeft, left), y, x);
    if y < h {
      JoinCols(topLeft.table, d, topRight, botRight, y, x);
    } else {
      JoinCols(t, d, topLeft, left, y - h, x);
      if x >= h { ExtendedPixel(top.table, botLeft.table, botLeft.index, y - h, x - h); }
    }
  }

  lemma ChainOf(t: Table, a: Built, b: Built, c: Built, e: Built, n: int)
    requires Sane(t, a, n) && Sane(a.table, b, n) && Sane(b.table, c, n) && Sane(c.table, e, n)
    ensures Chain(t, a, b, c, e, n)
    ensures Wf(a.table) && Wf(b.table) && Wf(c.table) && t <= a.table && t <= b.table && t <= c.table
  {
  }

  lemma RotatedIs(t: Table, root: int, r: nat, c: nat, d: nat)
    requires Wf(t) && IsIndex(t, root) && 1 <= d && 2 * d <= LEVELS_MAX
    ensures var h, topLeft := Pow2(d - 1), Rotated(t, root, r, c, d - 1);
            && Wf(topLeft.table) && IsIndex(topLeft.table, root)
            && (var topRight := Rotated(topLeft.table, root, r, c + h, d - 1);
            && Wf(topRight.table) && IsIndex(topRight.table, root)
            && (var botLeft := Rotated(topRight.table, root, r + h, c, d - 1);
            && Wf(botLeft.table) && IsIndex(botLeft.table, root)
            && Chain(t, topLeft, topRight, botLeft, Rotated(botLeft.table, root, r + h, c + h, d - 1), 2 * d - 2)
            && Extends(topLeft.table, t) && Extends(topRight.table, topLeft.table) &&
               Extends(botLeft.table, topRight.table)
            && Rotated(t, root, r, c, d) ==
               QuarterTurn(topLeft, topRight, botLeft, Rotated(botLeft.table, root, r + h, c + h, d - 1), d)))
  {
    hide Wf, QuarterTurn, Pixel;
  }

  lemma RotatedIsSane(t: Table, root: int, r: nat, c: nat, d: nat)
    requires Wf(t) && IsIndex(t, root) && 2 * d <= LEVELS_MAX
    ensures var b := Rotated(t, root, r, c, d); Wf(b.table) && IsIndex(b.table, b.index)
    ensures d == 0 ==> Rotated(t, root, r, c, d) == Built(t, Pixel(t, root, r, c))
  {
    hide Wf, QuarterTurn, Pixel;
  }

  lemma {:induction false} RotatedShows(t: Table, root: int, r: nat, c: nat, d: nat, y: nat, x: nat)
    requires Wf(t) && IsIndex(t, root) && 2 * d <= LEVELS_MAX && y < Pow2(d) && x < Pow2(d)
    ensures var b := Rotated(t, root, r, c, d);
            Pixel(b.table, b.index, y, x) == Pixel(t, root, r + x, c + Pow2(d) - 1 - y)
    decreases d
  {
    hide Wf, Join, QuarterTurn, Pixel, Pow2, Level, Rotated, Sane, Chain;
    RotatedIsSane(t, root, r, c, d);
    if d > 0 {
      var h := Pow2(d - 1);
      Doubles(d - 1);
      RotatedIs(t, root, r, c, d);
      var topLeft := Rotated(t, root, r, c, d - 1);
      var topRight := Rotated(topLeft.table, root, r, c + h, d - 1);
      var botLeft := Rotated(topRight.table, root, r + h, c, d - 1);
      var botRight := Rotated(botLeft.table, root, r + h, c + h, d - 1);
      QuarterTurnPixel(t, topLeft, topRight, botLeft, botRight, d, y, x);
      RootStays(t, root, topLeft.table, topRight.table, botLeft.table, r + x, c + Pow2(d) - 1 - y);
      if y < h {
        if x < h { RotatedShows(topLeft.table, root, r, c + h, d - 1, y, x); }
        else { RotatedShows(botLeft.table, root, r + h, c + h, d - 1, y, x - h); }
      } else {
        if x < h { RotatedShows(t, root, r, c, d - 1, y - h, x); }
        else { RotatedShows(topRight.table, root, r + h, c, d - 1, y - h, x - h); }
      }
    } else {
      Pow2Zero();
      LeafPixel(t, Pixel(t, root, r, c), y, x);
    }
  }

  lemma LeafPixel(t: Table, v: int, y: nat, x: nat)
    requires Wf(t) && 0 <= v < LEAVES
    ensures Pixel(t, v, y, x) == v
  {
    hide Wf;
  }

  lemma RootStays(t: Table, root: int, a: Table, b: Table, c: Table, y: nat, x: nat)
    requires IsIndex(t, root) && Extends(a, t) && Extends(b, a) && Extends(c, b)
    ensures IsIndex(a, root) && IsIndex(b, root) && IsIndex(c, root)
    ensures Pixel(a, root, y, x) == Pixel(t, root, y, x) && Pixel(b, root, y, x) == Pixel(t, root, y, x)
    ensures Pixel(c, root, y, x) == Pixel(t, root, y, x)
  {
    hide Wf, Pixel;
    ExtendedPixel(a, t, root, y, x);
    ExtendedPixel(b, a, root, y, x);
    ExtendedPixel(c, b, root, y, x);
  }

  /** bdd_rotate on tables, for a square of side 2^d. */
  function Rotate(t: Table, root: int, d: nat): (b: Built)
    requires Wf(t) && IsIndex(t, root) && 2 * d <= LEVELS_MAX
    ensures Sane(t, b, 2 * d)
  {
    Rotated(t, root, 0, 0, d)
  }

  /** Rotation by 90 degrees counterclockwise: the old columns, from the last to the first, are the new rows. */
  lemma RotatePixels(t: Table, root: int, d: nat, y: nat, x: nat)
    requires Wf(t) && IsIndex(t, root) && 2 * d <= LEVELS_MAX && y < Pow2(d) && x < Pow2(d)
    ensures var b := Rotate(t, root, d); Pixel(b.table, b.index, y, x) == Pixel(t, root, x, Pow2(d) - 1 - y)
  {
    hide Wf, Rotated, Pixel;
    RotatedShows(t, root, 0, 0, d, y, x);
  }

  /** Rotating a diagram that is not a leaf never gives a leaf. */
  lemma RotateKeepsNodes(t: Table, root: int, d: nat)
    requires Wf(t) && LEAVES <= root < LEAVES + |t| && Level(t, root) <= 2 * d <= LEVELS_MAX
    ensures Rotate(t, root, d).index >= LEAVES
  {
    var b := Rotate(t, root, d);
    if 0 <= b.index < LEAVES {
      var y, x := NeverConstant(t, root, d, b.index);
      hide Wf, Rotate, Pixel;
      LeafPixel(b.table, b.index, Pow2(d) - 1 - x, y);
      RotatePixels(t, root, d, Pow2(d) - 1 - x, y);
    }
  }

  /** Four rotations give back the very same node. */
  lemma RotateFourTimes(t: Table, root: int, d: nat)
    requires Wf(t) && IsIndex(t, root) && Level(t, root) <= 2 * d <= LEVELS_MAX
    ensures var a := Rotate(t, root, d);
            var b := Rotate(a.table, a.index, d);
            var c := Rotate(b.table, b.index, d);
            Rotate(c.table, c.index, d).index == root
  {
    hide Wf, Rotate, Pixel;
    var a := Rotate(t, root, d);
    var b := Rotate(a.table, a.index, d);
    var c := Rotate(b.table, b.index, d);
    var e := Rotate(c.table, c.index, d);
    ExtendsTrans(b.table, a.table, t);
    ExtendsTrans(c.table, b.table, t);
    ExtendsTrans(e.table, c.table, t);
    ExtendedLevel(e.table, t, root);
    forall y: nat, x: nat | y < Pow2(d) && x < Pow2(d)
      ensures Pixel(e.table, e.index, y, x) == Pixel(e.table, root, y, x)
    {
      var m := Pow2(d) - 1;
      RotatePixels(c.table, c.index, d, y, x);
      RotatePixels(b.table, b.index, d, x, m - y);
      RotatePixels(a.table, a.index, d, m - y, m - x);
      RotatePixels(t, root, d, m - x, y);
      ExtendedPixel(e.table, t, root, y, x);
    }
    ImageCanonical(e.table, e.index, root, d);
  }
}
