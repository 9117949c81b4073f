/**
 * Diagrams as square images: the pixel at a row and a column, canonicity over pixels, and how images
 * are put together from halves (hw1/src/bdd.c).
 */
module BddImage {
  import opened Powers
  import opened BddTable

  // ---- rows and columns ----

  /** Row and column digits interleaved: digit `2k` is the column's digit `k`, digit `2k + 1` the row's. */
  function Morton(r: nat, c: nat): nat
    decreases r + c
  {
    if r == 0 && c == 0 then 0 else 4 * Morton(r / 2, c / 2) + 2 * (r % 2) + c % 2
  }

  function RowOf(p: nat): nat { if p == 0 then 0 else 2 * RowOf(p / 4) + p / 2 % 2 }

  function ColOf(p: nat): nat { if p == 0 then 0 else 2 * ColOf(p / 4) + p % 2 }

  lemma {:induction false} MortonBits(r: nat, c: nat, b: nat)
    ensures Bit(Morton(r, c), b) == if b % 2 == 0 then Bit(c, b / 2) else Bit(r, b / 2)
    decreases b
  {
    MortonHalves(r, c);
    hide Morton;
    MortonLow(Morton(r, c), Morton(r / 2, c / 2), r % 2, c % 2);
    if b >= 2 {
      hide Bit;
      MortonBits(r / 2, c / 2, b - 2);
      TwoDown(Morton(r, c), b);
      OneDown(r, b / 2);
      OneDown(c, b / 2);
      assert (b - 2) % 2 == b % 2 && (b - 2) / 2 == b / 2 - 1;
    }
  }

  /** Halving a position twice drops its lowest row and column digit. */
  lemma MortonLow(p: nat, q: nat, y: nat, x: nat)
    requires p == 4 * q + 2 * y + x && y < 2 && x < 2
    ensures p % 2 == x && p / 2 == 2 * q + y && p / 2 % 2 == y && p / 2 / 2 == q
  {
  }

  lemma OneDown(x: nat, b: nat)
    requires b >= 1
    ensures Bit(x, b) == Bit(x / 2, b - 1)
  {
  }

  lemma TwoDown(x: nat, b: nat)
    requires b >= 2
    ensures Bit(x, b) == Bit(x / 2 / 2, b - 2)
  {
    OneDown(x, b);
    OneDown(x / 2, b - 1);
    hide Bit;
  }

  lemma MortonHalves(r: nat, c: nat)
    ensures Morton(r, c) == 4 * Morton(r / 2, c / 2) + 2 * (r % 2) + c % 2
  {
  }

  /** Every position is a pixel: interleaving undoes the split. */
  lemma {:induction false} MortonSurjective(p: nat, d: nat)
    requires p < Pow2(2 * d)
    ensures Morton(RowOf(p), ColOf(p)) == p && RowOf(p) < Pow2(d) && ColOf(p) < Pow2(d)
    decreases d
  {
    if d > 0 {
      Quarter(p, d);
      Doubles(d - 1);
      Digits(p);
      SplitHalves(p);
      MortonHalves(RowOf(p), ColOf(p));
      hide Morton, RowOf, ColOf, Pow2;
      MortonSurjective(p / 4, d - 1);
    }
  }

  lemma Quarter(p: nat, d: nat)
    requires d > 0 && p < Pow2(2 * d)
    ensures p / 4 < Pow2(2 * (d - 1))
  {
    hide Pow2;
    FourTimes(2 * (d - 1));
    assert 2 * (d - 1) + 2 == 2 * d;
    QuarterBelow(p, Pow2(2 * (d - 1)));
  }

  lemma Doubles(e: nat)
    ensures Pow2(e + 1) == 2 * Pow2(e)
  {
  }

  lemma QuarterBelow(p: nat, x: int)
    ensures p < 4 * x ==> p / 4 < x
  {
  }

  lemma FourTimes(e: nat)
    ensures Pow2(e + 2) == 4 * Pow2(e)
  {
    assert Pow2(e + 2) == 2 * Pow2(e + 1);
  }

  lemma Digits(p: nat)
    ensures p == 4 * (p / 4) + 2 * (p / 2 % 2) + p % 2
  {
    var q, r := p / 2, p / 4;
    assert q / 2 == r;
    assert q == 2 * r + q % 2 && p == 2 * q + p % 2;
  }

  lemma SplitHalves(p: nat)
    ensures RowOf(p) == 2 * RowOf(p / 4) + p / 2 % 2 && ColOf(p) == 2 * ColOf(p / 4) + p % 2
    ensures RowOf(p) / 2 == RowOf(p / 4) && RowOf(p) % 2 == p / 2 % 2 && ColOf(p) / 2 == ColOf(p / 4)
    ensures ColOf(p) % 2 == p % 2
  {
  }

  lemma {:induction false} MortonBelow(r: nat, c: nat, d: nat)
    requires r < Pow2(d) && c < Pow2(d)
    ensures Morton(r, c) < Pow2(2 * d)
    decreases d
  {
    if d > 0 { MortonBelow(r / 2, c / 2, d - 1); }
  }

  lemma {:induction false} MortonShr(r: nat, c: nat, k: nat)
    ensures Shr(Morton(r, c), 2 * k) == Morton(Shr(r, k), Shr(c, k))
    decreases k
  {
    if k > 0 {
      MortonHalves(r, c);
      MortonShr(r / 2, c / 2, k - 1);
      assert Shr(Morton(r, c), 2 * k) == Shr(Morton(r, c) / 2 / 2, 2 * k - 2);
    }
  }

  // ---- pixels ----

  /** The pixel of the diagram `i` at row `r` and column `c`. */
  function Pixel(t: Table, i: int, r: nat, c: nat): (v: int)
    requires Wf(t) && IsIndex(t, i)
    ensures 0 <= v < LEAVES
  {
    Val(t, i, Morton(r, c))
  }

  lemma ExtendedPixel(u: Table, t: Table, i: int, r: nat, c: nat)
    requires Extends(u, t) && IsIndex(t, i)
    ensures IsIndex(u, i) && Pixel(u, i, r, c) == Pixel(t, i, r, c)
  {
    ExtendedVal(u, t, i, Morton(r, c));
  }

  /** The digit that a node on level `l` tests: even levels test the row, odd ones the column. */
  function LevelBit(l: int, r: nat, c: nat): bool
    requires l >= 1
  {
    if l % 2 == 0 then Bit(r, l / 2 - 1) else Bit(c, l / 2)
  }

  lemma LevelBitIs(l: int, r: nat, c: nat)
    requires l >= 1
    ensures Bit(Morton(r, c), l - 1) == LevelBit(l, r, c)
  {
    MortonBits(r, c, l - 1);
  }

  /** Both diagrams show the same 2^d x 2^d image. */
  ghost predicate SameImage(t: Table, i: int, j: int, d: nat)
    requires Wf(t) && IsIndex(t, i) && IsIndex(t, j)
  {
    forall r: nat, c: nat :: r < Pow2(d) && c < Pow2(d) ==> Pixel(t, i, r, c) == Pixel(t, j, r, c)
  }

  /** Two diagrams show the same image if and only if they are the same node. */
  lemma ImageCanonical(t: Table, i: int, j: int, d: nat)
    requires Wf(t) && IsIndex(t, i) && IsIndex(t, j) && Level(t, i) <= 2 * d && Level(t, j) <= 2 * d
    ensures SameImage(t, i, j, d) <==> i == j
  {
    if i != j {
      var p := Canonical(t, i, j, 2 * d);
      hide Wf;
      MortonSurjective(p, d);
      assert Pixel(t, i, RowOf(p), ColOf(p)) != Pixel(t, j, RowOf(p), ColOf(p));
    }
  }

  /** A node with children never shows an image of one colour. */
  lemma NeverConstant(t: Table, i: int, d: nat, v: int) returns (r: nat, c: nat)
    requires Wf(t) && LEAVES <= i < LEAVES + |t| && Level(t, i) <= 2 * d && 0 <= v < LEAVES
    ensures r < Pow2(d) && c < Pow2(d) && Pixel(t, i, r, c) != v
  {
    var p := Canonical(t, i, v, 2 * d);
    hide Wf;
    MortonSurjective(p, d);
    r, c := RowOf(p), ColOf(p);
  }

  // ---- results of building ----

  /** Building on `t` gave a node on a level of at most `n`. */
  ghost predicate Sane(t: Table, b: Built, n: int) {
    Extends(b.table, t) && IsIndex(b.table, b.index) && Level(b.table, b.index) <= n
  }

  /** The node over two results, the second built after the first. */
  function Join(level: int, l: Built, r: Built): Built { Lookup(r.table, level, l.index, r.index) }

  lemma JoinSane(t: Table, level: int, l: Built, r: Built)
    requires Sane(t, l, level - 1) && Sane(l.table, r, level - 1) && 1 <= level <= LEVELS_MAX
    ensures Sane(t, Join(level, l, r), level) && Extends(Join(level, l, r).table, r.table)
    ensures IsIndex(r.table, l.index) && Level(r.table, l.index) <= level - 1
  {
    hide Wf;
    ExtendedLevel(r.table, l.table, l.index);
    ExtendsTrans(r.table, l.table, t);
    LookupWf(r.table, level, l.index, r.index);
    ExtendsTrans(Join(level, l, r).table, r.table, t);
  }

  /** The same with a bound for each side. */
  lemma JoinUpTo(t: Table, level: int, l: Built, m: int, r: Built, n: int)
    requires Sane(t, l, m) && Sane(l.table, r, n) && m < level && n < level && 1 <= level <= LEVELS_MAX
    ensures Sane(t, Join(level, l, r), level)
  {
    JoinSane(t, level, l, r);
  }

  /** A node of the old table, seen in the new one. */
  lemma StillThere(t: Table, b: Built, n: int, i: int)
    requires Sane(t, b, n) && IsIndex(t, i)
    ensures Wf(b.table) && IsIndex(b.table, i) && Level(b.table, i) == Level(t, i)
  {
    ExtendedLevel(b.table, t, i);
  }

  lemma Itself(t: Table)
    requires Wf(t)
    ensures Extends(t, t)
  {
  }

  lemma LeafSane(t: Table, v: int)
    requires Wf(t) && 0 <= v < LEAVES
    ensures Sane(t, Built(t, v), 0) && Level(t, v) == 0
  {
  }

  lemma JoinVal(t: Table, level: int, l: Built, r: Built, p: nat)
    requires Sane(t, l, level - 1) && Sane(l.table, r, level - 1) && 1 <= level <= LEVELS_MAX
    ensures var b := Join(level, l, r);
            && Wf(b.table) && IsIndex(b.table, b.index)
            && Val(b.table, b.index, p) == if Bit(p, level - 1) then Val(r.table, r.index, p)
               else Val(l.table, l.index, p)
  {
    hide Wf, Bit;
    JoinSane(t, level, l, r);
    LookupVal(r.table, level, l.index, r.index, p);
    ExtendedVal(r.table, l.table, l.index, p);
  }

  // ---- images from halves ----

  /** A node on level 2d puts one image above the other. */
  lemma JoinRows(t: Table, d: nat, l: Built, r: Built, y: nat, x: nat)
    requires 1 <= d && 2 * d <= LEVELS_MAX && Sane(t, l, 2 * d - 1) && Sane(l.table, r, 2 * d - 1) && y < Pow2(d)
    ensures var b, h := Join(2 * d, l, r), Pow2(d - 1);
            && Wf(b.table) && IsIndex(b.table, b.index)
            && Pixel(b.table, b.index, y, x) == if y < h then Pixel(l.table, l.index, y, x)
               else Pixel(r.table, r.index, y - h, x)
  {
    hide Wf, Join, Val, Morton, Level;
    var h := Pow2(d - 1);
    JoinVal(t, 2 * d, l, r, Morton(y, x));
    LevelBitIs(2 * d, y, x);
    if y < h {
      BitAbove(y, d - 1, d - 1);
    } else {
      BitOfSum(y - h, d - 1, d - 1);
      RowAgree(y - h, x, d - 1);
      ValBits(r.table, r.index, Morton(y, x), Morton(y - h, x));
    }
  }

  lemma RowAgree(y: nat, x: nat, e: nat)
    requires y < Pow2(e)
    ensures AgreeBelow(Morton(y + Pow2(e), x), Morton(y, x), 2 * e + 1)
  {
    forall b: nat | b < 2 * e + 1
      ensures Bit(Morton(y + Pow2(e), x), b) == Bit(Morton(y, x), b)
    {
      MortonBits(y + Pow2(e), x, b);
      MortonBits(y, x, b);
      BitOfSum(y, e, b / 2);
    }
  }

  /** A node on level 2d - 1 puts two images side by side. */
  lemma JoinCols(t: Table, d: nat, l: Built, r: Built, y: nat, x: nat)
    requires 1 <= d && 2 * d <= LEVELS_MAX && Sane(t, l, 2 * d - 2) && Sane(l.table, r, 2 * d - 2) && x < Pow2(d)
    ensures var b, h := Join(2 * d - 1, l, r), Pow2(d - 1);
            && Wf(b.table) && IsIndex(b.table, b.index)
            && Pixel(b.table, b.index, y, x) == if x < h then Pixel(l.table, l.index, y, x)
               else Pixel(r.table, r.index, y, x - h)
  {
    hide Wf, Join, Val, Morton, Level;
    var h := Pow2(d - 1);
    JoinVal(t, 2 * d - 1, l, r, Morton(y, x));
    LevelBitIs(2 * d - 1, y, x);
    if x < h {
      BitAbove(x, d - 1, d - 1);
    } else {
      BitOfSum(x - h, d - 1, d - 1);
      ColAgree(y, x - h, d - 1);
      ValBits(r.table, r.index, Morton(y, x), Morton(y, x - h));
    }
  }

  lemma ColAgree(y: nat, x: nat, e: nat)
    requires x < Pow2(e)
    ensures AgreeBelow(Morton(y, x + Pow2(e)), Morton(y, x), 2 * e)
  {
    forall b: nat | b < 2 * e
      ensures Bit(Morton(y, x + Pow2(e)), b) == Bit(Morton(y, x), b)
    {
      MortonBits(y, x + Pow2(e), b);
      MortonBits(y, x, b);
      BitOfSum(x, e, b / 2);
    }
  }

  // ---- rasters ----

  /** A raster in row-major order. */
  datatype Raster = Raster(w: nat, h: nat, data: seq<int>) {
    ghost predicate Valid() { |data| == w * h && forall k :: 0 <= k < |data| ==> 0 <= data[k] < LEAVES }

    /** The pixel, 0 outside. */
    function Cell(row: nat, col: nat): (v: int)
      requires Valid()
      ensures 0 <= v < LEAVES
    {
      if row < h && col < w then CellIndex(w, h, row, col); data[w * row + col] else 0
    }
  }

  lemma CellIndex(w: nat, h: nat, row: nat, col: nat)
    requires row < h && col < w
    ensures w * row + col < w * h
  {
    assert w * row + w == w * (row + 1);
    assert w * (row + 1) <= w * h;
  }

  /** The square of side 2^d at (row, col): first its top half, then its bottom half. */
  function SquareOf(t: Table, ras: Raster, row: nat, col: nat, d: nat): (b: Built)
    requires Wf(t) && ras.Valid() && 2 * d <= LEVELS_MAX
    ensures Sane(t, b, 2 * d)
    decreases d, 1
  {
    if d == 0 then Built(t, ras.Cell(row, col)) else
      hide Wf, Join, Level;
      var top := FlatOf(t, ras, row, col, d);
      var bottom := FlatOf(top.table, ras, row + Pow2(d - 1), col, d);
      JoinSane(t, 2 * d, top, bottom);
      Join(2 * d, top, bottom)
  }

  /** The upper half of such a square: first its left half, then its right half. */
  function FlatOf(t: Table, ras: Raster, row: nat, col: nat, d: nat): (b: Built)
    requires Wf(t) && ras.Valid() && 1 <= d && 2 * d <= LEVELS_MAX
    ensures Sane(t, b, 2 * d - 1)
    decreases d, 0
  {
    hide Wf, Join, Level;
    var left := SquareOf(t, ras, row, col, d - 1);
    var right := SquareOf(left.table, ras, row, col + Pow2(d - 1), d - 1);
    JoinSane(t, 2 * d - 1, left, right);
    Join(2 * d - 1, left, right)
  }

  lemma {:induction false} SquareShows(t: Table, ras: Raster, row: nat, col: nat, d: nat, y: nat, x: nat)
    requires Wf(t) && ras.Valid() && 2 * d <= LEVELS_MAX && y < Pow2(d) && x < Pow2(d)
    ensures var b := SquareOf(t, ras, row, col, d); Pixel(b.table, b.index, y, x) == ras.Cell(row + y, col + x)
    decreases d, 1
  {
    hide Wf, Join, Level;
    if d > 0 {
      hide Pixel;
      var h := Pow2(d - 1);
      var top := FlatOf(t, ras, row, col, d);
      var bottom := FlatOf(top.table, ras, row + h, col, d);
      JoinRows(t, d, top, bottom, y, x);
      if y < h { FlatShows(t, ras, row, col, d, y, x); } else { FlatShows(top.table, ras, row + h, col, d, y - h, x); }
    }
  }

  lemma {:induction false} FlatShows(t: Table, ras: Raster, row: nat, col: nat, d: nat, y: nat, x: nat)
    requires Wf(t) && ras.Valid() && 1 <= d && 2 * d <= LEVELS_MAX && y < Pow2(d - 1) && x < Pow2(d)
    ensures var b := FlatOf(t, ras, row, col, d); Pixel(b.table, b.index, y, x) == ras.Cell(row + y, col + x)
    decreases d, 0
  {
    hide Wf, Join, Pixel, Level;
    var h := Pow2(d - 1);
    var left := SquareOf(t, ras, row, col, d - 1);
    var right := SquareOf(left.table, ras, row, col + h, d - 1);
    JoinCols(t, d, left, right, y, x);
    if x < h {
      SquareShows(t, ras, row, col, d - 1, y, x);
    } else {
      SquareShows(left.table, ras, row, col + h, d - 1, y, x - h);
    }
  }

  // ---- bdd_min_level ----

  /** The least exponent of a power of two that is at least `n`. */
  function Exponent(n: int): (e: nat)
    ensures n <= Pow2(e)
    ensures forall k: nat :: n <= Pow2(k) ==> e <= k
    decreases n
  {
    if n <= 1 then 0 else
      HalfUp(n);
      Exponent((n + 1) / 2) + 1
  }

  lemma HalfUp(n: int)
    requires n > 1
    ensures forall k: nat :: n <= Pow2(k) ==> k >= 1 && (n + 1) / 2 <= Pow2(k - 1)
  {
  }

  /** The least even level whose square covers w x h. */
  function MinLevel(w: int, h: int): nat { 2 * Exponent(if w < h then h else w) }

  /** bdd_from_raster on tables. */
  function FromRaster(t: Table, ras: Raster): (b: Built)
    requires Wf(t) && ras.Valid() && MinLevel(ras.w, ras.h) <= LEVELS_MAX
    ensures Sane(t, b, MinLevel(ras.w, ras.h))
  {
    SquareOf(t, ras, 0, 0, MinLevel(ras.w, ras.h) / 2)
  }

  /** bdd_to_raster on tables: the top left w x h pixels. */
  function ToRaster(t: Table, i: int, w: nat, h: nat): seq<int>
    requires Wf(t) && IsIndex(t, i)
  {
    seq(w * h, k requires 0 <= k < w * h => PixelNumber(k, w, h); Pixel(t, i, k / w, k % w))
  }

  lemma PixelNumber(k: nat, w: nat, h: nat)
    requires k < w * h
    ensures w > 0 && 0 <= k / w < h && 0 <= k % w < w && k == w * (k / w) + k % w
  {
    if w > 0 {
      var q := k / w;
      assert k == w * q + k % w;
      assert w * q == w * h + w * (q - h);
      assert q >= h ==> w * (q - h) >= 0;
    }
  }

  /** Building a diagram from a raster and reading it back gives the raster; the rest of the square is 0. */
  lemma RasterRoundTrip(t: Table, ras: Raster)
    requires Wf(t) && ras.Valid() && MinLevel(ras.w, ras.h) <= LEVELS_MAX
    ensures var b := FromRaster(t, ras); ToRaster(b.table, b.index, ras.w, ras.h) == ras.data
    ensures var b, side := FromRaster(t, ras), Pow2(MinLevel(ras.w, ras.h) / 2);
            forall r: nat, c: nat :: r < side && c < side && (r >= ras.h || c >= ras.w) ==>
              Pixel(b.table, b.index, r, c) == 0
  {
    hide Wf, Morton, Pixel, SquareOf;
    var b, d := FromRaster(t, ras), MinLevel(ras.w, ras.h) / 2;
    forall r: nat, c: nat | r < Pow2(d) && c < Pow2(d)
      ensures Pixel(b.table, b.index, r, c) == ras.Cell(r, c)
    {
      SquareShows(t, ras, 0, 0, d, r, c);
    }
    SquareCovers(ras.w, ras.h);
    forall k | 0 <= k < ras.w * ras.h
      ensures ToRaster(b.table, b.index, ras.w, ras.h)[k] == ras.data[k]
    {
      PixelNumber(k, ras.w, ras.h);
    }
  }

  lemma SquareCovers(w: int, h: int)
    ensures w <= Pow2(MinLevel(w, h) / 2) && h <= Pow2(MinLevel(w, h) / 2)
  {
  }
}
