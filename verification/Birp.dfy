/** The transformations that the program applies to an image it has read (birp_to_birp in hw1/src/birp.c). */
module Birp {
  import opened Powers
  import opened BddTable
  import opened BddImage
  import opened BddTransforms
  import opened BddStore
  import opened BddHash

  datatype Transformation = Identity | Complement | Thresholding | Zoom | Rotation

  /** Zoom factors above 16 are bytes that stand for a negative factor. */
  predicate TooFar(parameter: int, level: int) {
    if parameter <= 16 then 2 * parameter + level > 32 else level - 2 * (256 - parameter) < 0
  }

  /** There is room in the table for what the transformation builds. */
  ghost predicate Affordable(t: Table, i: int, level: nat, how: Transformation, parameter: int)
    requires Wf(t) && IsIndex(t, i) && Level(t, i) <= level <= LEVELS_MAX && 0 <= parameter < 256
  {
    match how
    case Identity => true
    case Complement => OnBytes(Negate) && Room(Map(t, i, Negate))
    case Thresholding => OnBytes(Threshold(parameter)) && Room(Map(t, i, Threshold(parameter)))
    case Zoom =>
      TooFar(parameter, level) ||
      (if parameter <= 16 then Room(ZoomIn(t, i, parameter)) else Room(ZoomOut(t, i, 256 - parameter)))
    case Rotation => Room(Rotate(t, i, level / 2))
  }

  /** `width / divideIt`, one more unless it divides. */
  function Ceiling(n: nat, d: nat): nat
    requires d > 0
  {
    if n % d == 0 then n / d else n / d + 1
  }

  /** The side of the square that covers an image. */
  function Side(width: nat, height: nat): nat { Pow2(MinLevel(width, height) / 2) }

  function Scaled(n: nat, parameter: int): nat
    requires 0 <= parameter < 256
  {
    if parameter <= 16 then n * Pow2(parameter) else Ceiling(n, Pow2(256 - parameter))
  }

  // ---- what images show, pixel by pixel ----

  ghost predicate SameShown(t: Table, i: int, u: Table, j: int)
    requires Wf(t) && IsIndex(t, i) && Wf(u) && IsIndex(u, j)
  {
    hide Wf;
    forall r: nat, c: nat :: Pixel(u, j, r, c) == Pixel(t, i, r, c)
  }

  ghost predicate NegativeShown(t: Table, i: int, u: Table, j: int)
    requires Wf(t) && IsIndex(t, i) && Wf(u) && IsIndex(u, j)
  {
    hide Wf;
    forall r: nat, c: nat :: Pixel(u, j, r, c) + Pixel(t, i, r, c) == 255
  }

  ghost predicate ThresholdShown(t: Table, i: int, u: Table, j: int, limit: int)
    requires Wf(t) && IsIndex(t, i) && Wf(u) && IsIndex(u, j)
  {
    hide Wf;
    forall r: nat, c: nat :: Pixel(u, j, r, c) == if Pixel(t, i, r, c) >= limit then 255 else 0
  }

  /** Each pixel became a square of `side` x `side` pixels. */
  ghost predicate LargerShown(t: Table, i: int, u: Table, j: int, side: nat)
    requires Wf(t) && IsIndex(t, i) && Wf(u) && IsIndex(u, j) && side > 0
  {
    hide Wf;
    forall r: nat, c: nat :: Pixel(u, j, r, c) == Pixel(t, i, r / side, c / side)
  }

  /** Each square of `side` x `side` pixels became one, black if all of them were. */
  ghost predicate SmallerShown(t: Table, i: int, u: Table, j: int, side: nat)
    requires Wf(t) && IsIndex(t, i) && Wf(u) && IsIndex(u, j) && side > 0
  {
    hide Wf;
    forall r: nat, c: nat ::
      Pixel(u, j, r, c) ==
      if exists y: nat, x: nat :: y / side == r && x / side == c && Pixel(t, i, y, x) != 0 then 255 else 0
  }

  /** The square was turned by 90 degrees, counterclockwise. */
  ghost predicate TurnedShown(t: Table, i: int, u: Table, j: int, side: nat)
    requires Wf(t) && IsIndex(t, i) && Wf(u) && IsIndex(u, j)
  {
    hide Wf;
    forall r: nat, c: nat :: r < side && c < side ==> Pixel(u, j, r, c) == Pixel(t, i, c, side - 1 - r)
  }

  /** What zooming shows: a constant image is left as it is. */
  ghost predicate ZoomShown(t: Table, i: int, u: Table, j: int, parameter: int, constant: bool)
    requires Wf(t) && IsIndex(t, i) && Wf(u) && IsIndex(u, j) && 0 <= parameter < 256
  {
    if constant then SameShown(t, i, u, j)
    else if parameter <= 16 then LargerShown(t, i, u, j, Pow2(parameter))
    else SmallerShown(t, i, u, j, Pow2(256 - parameter))
  }

  ghost predicate Shows(t: Table, i: int, u: Table, j: int, side: nat, how: Transformation, parameter: int,
      constant: bool)
    requires Wf(t) && IsIndex(t, i) && Wf(u) && IsIndex(u, j) && 0 <= parameter < 256
  {
    match how
    case Identity => SameShown(t, i, u, j)
    case Complement => NegativeShown(t, i, u, j)
    case Thresholding => ThresholdShown(t, i, u, j, parameter)
    case Zoom => ZoomShown(t, i, u, j, parameter, constant)
    case Rotation => TurnedShown(t, i, u, j, side)
  }

  class Program {
    const bdd: Bdd

    constructor (store: Bdd)
      ensures bdd == store
    {
      bdd := store;
    }

    /** A root as it is. */
    method Same(root: int) returns (image: Node, ghost index: int)
      requires bdd.Valid() && bdd.IsDiagram(root)
      ensures Passed(bdd.Table(), image, index) && index == bdd.Diagram(root)
    {
      bdd.DiagramPassed(root);
      return bdd.nodes[root], bdd.Diagram(root);
    }

    method Negative(root: int) returns (image: Node, ghost index: int)
      requires bdd.Valid() && bdd.IsDiagram(root) && OnBytes(Negate)
      requires Room(Map(bdd.Table(), bdd.Diagram(root), Negate))
      modifies bdd, bdd.nodes, bdd.hashMap
      ensures bdd.Valid() && Passed(bdd.Table(), image, index)
      ensures NegativeShown(old(bdd.Table()), old(bdd.Diagram(root)), bdd.Table(), index)
    {
      hide Wf, Loose, Hashed, Map, Pixel, Passed, OnBytes;
      ghost var t, i := bdd.Table(), bdd.Diagram(root);
      if bdd.nodes[root].level == 69 {
        bdd.IsConstant(root);
        var left := bdd.nodes[root].left;
        image, index := Node(69, 255 - left, 255 - left), 255 - left;
        ConstantPassed(t, 255 - left);
        forall r: nat, c: nat
          ensures Pixel(t, index, r, c) + Pixel(t, i, r, c) == 255
        {
          LeafPixel(t, left, r, c);
          LeafPixel(t, 255 - left, r, c);
        }
      } else {
        var newRoot := bdd.BddMap(root, Negate);
        bdd.DiagramPassed(newRoot);
        image, index := bdd.nodes[newRoot], bdd.Diagram(newRoot);
        forall r: nat, c: nat
          ensures Pixel(bdd.Table(), index, r, c) + Pixel(t, i, r, c) == 255
        {
          NegatePixels(t, i, r, c);
        }
      }
    }

    method Thresholded(root: int, parameterByte: int) returns (image: Node, ghost index: int)
      requires bdd.Valid() && bdd.IsDiagram(root) && OnBytes(Threshold(parameterByte))
      requires Room(Map(bdd.Table(), bdd.Diagram(root), Threshold(parameterByte)))
      modifies bdd, bdd.nodes, bdd.hashMap
      ensures bdd.Valid() && Passed(bdd.Table(), image, index)
      ensures ThresholdShown(old(bdd.Table()), old(bdd.Diagram(root)), bdd.Table(), index, parameterByte)
    {
      hide Wf, Loose, Hashed, Map, Pixel, Passed, OnBytes;
      ghost var t, i := bdd.Table(), bdd.Diagram(root);
      if bdd.nodes[root].level == 69 {
        bdd.IsConstant(root);
        var left := bdd.nodes[root].left;
        if left >= parameterByte {
          image, index := Node(69, 255, 255), 255;
        } else {
          image, index := Node(69, 0, 0), 0;
        }
        ConstantPassed(t, index);
        forall r: nat, c: nat
          ensures Pixel(t, index, r, c) == if Pixel(t, i, r, c) >= parameterByte then 255 else 0
        {
          LeafPixel(t, left, r, c);
          LeafPixel(t, index, r, c);
        }
      } else {
        var newRoot := bdd.BddMap(root, Threshold(parameterByte));
        bdd.DiagramPassed(newRoot);
        image, index := bdd.nodes[newRoot], bdd.Diagram(newRoot);
        forall r: nat, c: nat
          ensures Pixel(bdd.Table(), index, r, c) == if Pixel(t, i, r, c) >= parameterByte then 255 else 0
        {
          ThresholdPixels(t, i, parameterByte, r, c);
        }
      }
    }

    /** A constant image is never zoomed, whatever its colour. */
    method ZoomRoot(root: int, minimalLevel: int, parameterByte: int) returns (image: Node, ghost index: int)
      requires bdd.Valid() && bdd.IsDiagram(root) && 0 <= parameterByte < 256 && minimalLevel >= 0
      requires Level(bdd.Table(), bdd.Diagram(root)) <= minimalLevel <= LEVELS_MAX
      requires !TooFar(parameterByte, minimalLevel)
      requires Affordable(bdd.Table(), bdd.Diagram(root), minimalLevel, Zoom, parameterByte)
      modifies bdd, bdd.nodes, bdd.hashMap
      ensures bdd.Valid() && Passed(bdd.Table(), image, index)
      ensures ZoomShown(old(bdd.Table()), old(bdd.Diagram(root)), bdd.Table(), index, parameterByte,
                        old(bdd.nodes[root]).level == 69)
    {
      hide Wf, Loose, Hashed, ZoomIn, ZoomOut, Pixel, Passed, Pow2;
      ghost var t, i := bdd.Table(), bdd.Diagram(root);
      if bdd.nodes[root].level != 69 {
        var newRoot := bdd.BddZoom(root, minimalLevel, parameterByte);
        image, index := Same(newRoot);
        ZoomShows(t, i, parameterByte, minimalLevel);
      } else {
        image, index := Same(root);
      }
    }

    /** A width or a height after zooming. */
    method ZoomSize(size: nat, parameterByte: int) returns (newSize: nat)
      requires 0 <= parameterByte < 256
      ensures newSize == Scaled(size, parameterByte)
    {
      hide Pow2;
      if parameterByte <= 16 {
        var scale := ComputePow2(parameterByte);
        Pow2Zero();
        newSize := size * scale;
      } else {
        var divideIt := ComputePow2(256 - parameterByte);
        newSize := size / divideIt;
        if size % divideIt != 0 {
          newSize := newSize + 1;
        }
      }
    }

    method Zoomed(root: int, width: nat, height: nat, parameterByte: int)
      returns (status: int, image: Node, newWidth: nat, newHeight: nat, ghost index: int)
      requires bdd.Valid() && bdd.IsDiagram(root) && 0 <= parameterByte < 256
      requires Level(bdd.Table(), bdd.Diagram(root)) <= MinLevel(width, height) <= LEVELS_MAX
      requires Affordable(bdd.Table(), bdd.Diagram(root), MinLevel(width, height), Zoom, parameterByte)
      modifies bdd, bdd.nodes, bdd.hashMap
      ensures bdd.Valid()
      ensures status == if TooFar(parameterByte, MinLevel(width, height)) then -1 else 0
      ensures status == 0 ==>
                && Passed(bdd.Table(), image, index)
                && ZoomShown(old(bdd.Table()), old(bdd.Diagram(root)), bdd.Table(), index, parameterByte,
                             old(bdd.nodes[root]).level == 69)
                && newWidth == Scaled(width, parameterByte) && newHeight == Scaled(height, parameterByte)
    {
      hide Wf, Loose, Hashed, ZoomIn, ZoomOut, Pixel, Passed, Pow2, ZoomShown, Affordable, Scaled, MinLevel;
      status, newWidth, newHeight, image, index := 0, 0, 0, Node(0, 0, 0), 0;
      bdd.SidesFit(width, height);
      var minimalLevel := bdd.BddMinLevel(width, height);
      assert TooFar(parameterByte, minimalLevel) <==> TooFar(parameterByte, MinLevel(width, height));
      if parameterByte <= 16 && 2 * parameterByte + minimalLevel > 32 {
        assert TooFar(parameterByte, minimalLevel);
        status := -1;
        return;
      } else if parameterByte > 16 && minimalLevel - 2 * (256 - parameterByte) < 0 {
        assert TooFar(parameterByte, minimalLevel);
        status := -1;
        return;
      }
      assert !TooFar(parameterByte, minimalLevel);
      hide TooFar;
      image, index := ZoomRoot(root, minimalLevel, parameterByte);
      newWidth := ZoomSize(width, parameterByte);
      newHeight := ZoomSize(height, parameterByte);
    }

    /** A constant image looks the same from all sides. */
    method TurnRoot(root: int, minimalLevel: int) returns (image: Node, ghost index: int)
      requires bdd.Valid() && bdd.IsDiagram(root) && 0 <= minimalLevel <= LEVELS_MAX && minimalLevel % 2 == 0
      requires Level(bdd.Table(), bdd.Diagram(root)) <= minimalLevel
      requires Room(Rotate(bdd.Table(), bdd.Diagram(root), minimalLevel / 2))
      modifies bdd, bdd.nodes, bdd.hashMap
      ensures bdd.Valid() && Passed(bdd.Table(), image, index)
      ensures TurnedShown(old(bdd.Table()), old(bdd.Diagram(root)), bdd.Table(), index, Pow2(minimalLevel / 2))
    {
      hide Wf, Loose, Hashed, Rotate, Pixel, Passed, Pow2, TurnedShown;
      ghost var t, i := bdd.Table(), bdd.Diagram(root);
      if bdd.nodes[root].level == 69 {
        bdd.IsConstant(root);
        image, index := Same(root);
        ConstantTurned(t, i, Pow2(minimalLevel / 2));
      } else {
        bdd.NotConstant(root);
        var newRoot := bdd.BddRotate(root, minimalLevel);
        image, index := Same(newRoot);
        RotateShows(t, i, minimalLevel / 2);
      }
    }

    method Turned(root: int, width: nat, height: nat) returns (image: Node, expandedWidth: nat, ghost index: int)
      requires bdd.Valid() && bdd.IsDiagram(root)
      requires Level(bdd.Table(), bdd.Diagram(root)) <= MinLevel(width, height) <= LEVELS_MAX
      requires Room(Rotate(bdd.Table(), bdd.Diagram(root), MinLevel(width, height) / 2))
      modifies bdd, bdd.nodes, bdd.hashMap
      ensures bdd.Valid() && Passed(bdd.Table(), image, index) && expandedWidth == Side(width, height)
      ensures TurnedShown(old(bdd.Table()), old(bdd.Diagram(root)), bdd.Table(), index, Side(width, height))
    {
      hide Wf, Loose, Hashed, Rotate, Passed, Pow2, TurnedShown, MinLevel;
      bdd.SidesFit(width, height);
      EvenLevel(width, height);
      var minimalLevel := bdd.BddMinLevel(width, height);
      expandedWidth := ComputePow2(minimalLevel / 2);
      Pow2Zero();
      image, index := TurnRoot(root, minimalLevel);
    }

    /**
     * The root to write out and its width and height; a status of -1 for zooms out of range. `image` is what
     * `index` stands for: the source makes constant images anew instead of asking for them.
     */
    method Transform(root: int, width: nat, height: nat, how: Transformation, parameter: int)
      returns (status: int, image: Node, newWidth: nat, newHeight: nat, ghost index: int)
      requires bdd.Valid() && bdd.IsDiagram(root) && 0 <= parameter < 256
      requires Level(bdd.Table(), bdd.Diagram(root)) <= MinLevel(width, height) <= LEVELS_MAX
      requires Affordable(bdd.Table(), bdd.Diagram(root), MinLevel(width, height), how, parameter)
      modifies bdd, bdd.nodes, bdd.hashMap
      ensures bdd.Valid()
      ensures status == if how == Zoom && TooFar(parameter, MinLevel(width, height)) then -1 else 0
      ensures status == 0 ==>
                && Passed(bdd.Table(), image, index)
                && Shows(old(bdd.Table()), old(bdd.Diagram(root)), bdd.Table(), index, Side(width, height), how,
                         parameter, old(bdd.nodes[root]).level == 69)
      ensures status == 0 ==>
                match how
                case Zoom => newWidth == Scaled(width, parameter) && newHeight == Scaled(height, parameter)
                case Rotation => newWidth == newHeight == Side(width, height)
                case _ => newWidth == width && newHeight == height
    {
      hide Wf, Loose, Hashed, Map, ZoomIn, ZoomOut, Rotate, Pixel, Passed, Side, TooFar, MinLevel, OnBytes, SameShown,
        NegativeShown, ThresholdShown, ZoomShown, TurnedShown, Scaled, Level, IsIndex;
      status, newWidth, newHeight := 0, width, height;
      if how == Zoom {
        status, image, newWidth, newHeight, index := Zoomed(root, width, height, parameter);
      } else if how == Rotation {
        image, newWidth, index := Turned(root, width, height);
        newHeight := newWidth;
      } else {
        image, index := Recoloured(root, width, height, how, parameter);
      }
    }

    /** The transformations that keep the size. */
    method Recoloured(root: int, width: nat, height: nat, how: Transformation, parameter: int)
      returns (image: Node, ghost index: int)
      requires bdd.Valid() && bdd.IsDiagram(root) && 0 <= parameter < 256 && how != Zoom && how != Rotation
      requires Level(bdd.Table(), bdd.Diagram(root)) <= MinLevel(width, height) <= LEVELS_MAX
      requires Affordable(bdd.Table(), bdd.Diagram(root), MinLevel(width, height), how, parameter)
      modifies bdd, bdd.nodes, bdd.hashMap
      ensures bdd.Valid() && Passed(bdd.Table(), image, index)
      ensures Shows(old(bdd.Table()), old(bdd.Diagram(root)), bdd.Table(), index, Side(width, height), how, parameter,
                    old(bdd.nodes[root]).level == 69)
    {
      hide Wf, Loose, Hashed, Map, Pixel, Passed, Side, MinLevel, OnBytes, NegativeShown, ThresholdShown, Level,
        IsIndex;
      match how
      case Complement =>
        image, index := Negative(root);
      case Thresholding =>
        image, index := Thresholded(root, parameter);
      case _ =>
        image, index := Same(root);
    }
  }

  lemma EvenLevel(w: int, h: int)
    ensures MinLevel(w, h) >= 0 && MinLevel(w, h) % 2 == 0
  {
  }

  lemma ConstantTurned(t: Table, v: int, side: nat)
    requires Wf(t) && 0 <= v < LEAVES
    ensures TurnedShown(t, v, t, v, side)
  {
    hide Wf, Pixel;
    forall r: nat, c: nat | r < side && c < side
      ensures Pixel(t, v, r, c) == Pixel(t, v, c, side - 1 - r)
    {
      LeafPixel(t, v, r, c);
      LeafPixel(t, v, c, side - 1 - r);
    }
  }

  lemma RotateShows(t: Table, i: int, d: nat)
    requires Wf(t) && IsIndex(t, i) && 2 * d <= LEVELS_MAX
    ensures var b := Rotate(t, i, d); TurnedShown(t, i, b.table, b.index, Pow2(d))
  {
    hide Wf, Pixel, Pow2, Rotate;
    var b := Rotate(t, i, d);
    forall r: nat, c: nat | r < Pow2(d) && c < Pow2(d)
      ensures Pixel(b.table, b.index, r, c) == Pixel(t, i, c, Pow2(d) - 1 - r)
    {
      RotatePixels(t, i, d, r, c);
    }
  }

  lemma ConstantPassed(t: Table, v: int)
    requires 0 <= v < 256
    ensures Passed(t, Node(69, v, v), v)
  {
  }

  lemma ZoomShows(t: Table, i: int, parameter: int, level: nat)
    requires Wf(t) && IsIndex(t, i) && 0 <= parameter < 256 && Level(t, i) <= level && !TooFar(parameter, level)
    ensures parameter <= 16 ==>
              Level(t, i) + 2 * parameter <= LEVELS_MAX &&
              var b := ZoomIn(t, i, parameter); LargerShown(t, i, b.table, b.index, Pow2(parameter))
    ensures parameter > 16 ==>
              var b := ZoomOut(t, i, 256 - parameter); SmallerShown(t, i, b.table, b.index, Pow2(256 - parameter))
  {
    hide Wf, ZoomIn, ZoomOut, Pixel, Pow2;
    if parameter <= 16 {
      forall r: nat, c: nat
        ensures var b := ZoomIn(t, i, parameter);
                Pixel(b.table, b.index, r, c) == Pixel(t, i, r / Pow2(parameter), c / Pow2(parameter))
      {
        ZoomInPixels(t, i, parameter, r, c);
      }
    } else {
      SmallerIsShown(t, i, 256 - parameter);
    }
  }

  lemma SmallerIsShown(t: Table, i: int, k: nat)
    requires Wf(t) && IsIndex(t, i)
    ensures var b := ZoomOut(t, i, k); SmallerShown(t, i, b.table, b.index, Pow2(k))
  {
    hide Wf, ZoomOut, Pixel, Pow2;
    forall r: nat, c: nat
      ensures var b := ZoomOut(t, i, k);
              Pixel(b.table, b.index, r, c) ==
              if exists y: nat, x: nat :: y / Pow2(k) == r && x / Pow2(k) == c && Pixel(t, i, y, x) != 0 then 255 else 0
    {
      ZoomOutPixels(t, i, k, r, c);
    }
  }

  /** Zooming a grey image out would make it white, as zooming a diagram does with every pixel that is not black. */
  lemma GreyStaysGrey(t: Table, v: int, k: nat)
    requires Wf(t) && 0 < v < 255
    ensures ZoomOut(t, v, k) == Built(t, 255) && forall r: nat, c: nat :: Pixel(t, v, r, c) == v
  {
    forall r: nat, c: nat
      ensures Pixel(t, v, r, c) == v
    {
      LeafPixel(t, v, r, c);
    }
  }
}
