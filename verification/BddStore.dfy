/**
 * The diagrams' tables in memory and the operations of hw1/src/bdd.c on them, each proved against its
 * description on table values. Pointers to nodes are indices into the node array; NULL is -1.
 */
module BddStore {
  import opened Powers
  import opened BddTable
  import opened BddImage
  import opened BddTransforms
  import opened BddSerial
  import opened BddHash

  /** The last slot of the node array is kept for images of one colour. */
  const CONSTANT_SLOT := NODES_MAX - 1
  const CONSTANT_LEVEL := 69
  const NULL := -1

  /** One more than the largest `int`, and the largest side that doubling covers below it. */
  const INT_LIMIT := 0x8000_0000
  const LARGEST_SIDE := 0x4000_0000

  /** The source never checks for space: building must stay below the constant slot. */
  predicate Room(b: Built) { LEAVES + |b.table| <= CONSTANT_SLOT }

  /** A node as the recursive functions pass it around: leaves and constant images carry their value twice. */
  ghost predicate Passed(t: Table, node: Node, i: int) {
    && IsIndex(t, i)
    && (if i < LEAVES then node == Node(0, i, i) || node == Node(CONSTANT_LEVEL, i, i) else node == t[i - LEAVES])
  }

  class Bdd {
    const nodes: array<Node>
    const hashMap: array<int>
    const indexMap: array<int>
    var freeNodeCounter: int
    ghost var steps: seq<int>

    ghost function Table(): Table
      reads this, nodes
    {
      if LEAVES <= freeNodeCounter <= nodes.Length then nodes[LEAVES..freeNodeCounter] else []
    }

    /** What holds whatever is read from a stream: the arrays agree, and children come before their parents. */
    ghost predicate InOrder()
      reads this, nodes, hashMap
    {
      && nodes.Length == NODES_MAX && hashMap.Length == HASH_SIZE && indexMap.Length == NODES_MAX && hashMap != indexMap
      && LEAVES <= freeNodeCounter <= CONSTANT_SLOT
      && Loose(Table()) && Hashed(Table(), hashMap[..], steps)
    }

    /** The arrays in order, holding diagrams. */
    ghost predicate Valid()
      reads this, nodes, hashMap
    {
      InOrder() && Wf(Table())
    }

    constructor ()
      ensures Valid() && Table() == [] && fresh(nodes) && fresh(hashMap) && fresh(indexMap)
    {
      nodes := new Node[NODES_MAX](_ => Node(0, 0, 0));
      hashMap := new int[HASH_SIZE](_ => 0);
      indexMap := new int[NODES_MAX](_ => 0);
      freeNodeCounter := LEAVES;
      steps := [];
      new;
      EmptyHashed(hashMap[..]);
    }

    // ---- bdd_lookup ----

    method HashFunction(left: int, right: int, level: int) returns (h: int)
      ensures h == Hash(Node(level, left, right))
    {
      var sum := left + right + level;
      return sum % HASH_SIZE;
    }

    /** The node goes to the end of the table and into the given empty slot, `o` steps from its hash. */
    method Insert(n: Node, slot: int, ghost o: int) returns (index: int)
      requires InOrder() && freeNodeCounter < CONSTANT_SLOT && Loose(Table() + [n])
      requires 0 <= o < HASH_SIZE && slot == Probe(Hash(n), o) && hashMap[slot] == 0
      requires Missed(Table(), hashMap[..], n, o)
      modifies this, nodes, hashMap
      ensures InOrder() && Table() == old(Table()) + [n] && index == LEAVES + |old(Table())|
      ensures nodes[CONSTANT_SLOT] == old(nodes[CONSTANT_SLOT])
    {
      hide Loose, Hashed, Missed;
      ghost var t, m := Table(), hashMap[..];
      Inserted(t, m, steps, n, o);
      nodes[freeNodeCounter] := n;
      index := freeNodeCounter;
      freeNodeCounter := freeNodeCounter + 1;
      assert Table() == t + [n];
      hashMap[slot] := index;
      assert hashMap[..] == m[slot := LEAVES + |t|];
      steps := steps + [o];
    }

    /** Linear probing from the hash: the slot of the node, or the empty slot that shows it is not there. */
    method FindSlot(level: int, left: int, right: int) returns (slot: int, ghost o: int)
      requires InOrder()
      ensures 0 <= o < HASH_SIZE && slot == Probe(Hash(Node(level, left, right)), o)
      ensures hashMap[slot] == 0 ==> Missed(Table(), hashMap[..], Node(level, left, right), o)
      ensures hashMap[slot] != 0 ==>
              LEAVES <= hashMap[slot] < freeNodeCounter && nodes[hashMap[slot]] == Node(level, left, right)
    {
      hide Loose, Hashed, FullPath, Missed, Hash;
      ghost var t, m, n := Table(), hashMap[..], Node(level, left, right);
      var hashedIndex := HashFunction(left, right, level);
      SomeSlotIsEmpty(t, m, steps, hashedIndex);
      NothingProbed(t, m, n);
      for i := 0 to HASH_SIZE
        invariant Missed(t, m, n, i) && FullPath(m, hashedIndex, i)
      {
        slot := (hashedIndex + i) % HASH_SIZE;
        o := i;
        var found := hashMap[slot];
        if found == 0 {
          return;
        }
        SlotHolds(t, m, steps, slot);
        if nodes[found] == Node(level, left, right) {
          return;
        }
        ProbeOn(t, m, n, i);
      }
      return 0, 0;
    }

    /**
     * Linear probing finds what a search of the whole table would find; otherwise exactly one node is
     * appended, so every older index keeps its meaning. The loop never runs out of slots. A table of
     * diagrams stays one if the children lie below the level; that is not checked.
     */
    method BddLookup(level: int, left: int, right: int) returns (index: int)
      requires InOrder() && Offered(Table(), level, left, right) && Room(Lookup(Table(), level, left, right))
      modifies this, nodes, hashMap
      ensures InOrder() && Built(Table(), index) == Lookup(old(Table()), level, left, right)
      ensures old(Wf(Table()) && Buildable(Table(), level, left, right)) ==> Valid()
      ensures nodes[CONSTANT_SLOT] == old(nodes[CONSTANT_SLOT])
    {
      hide Wf, Loose, Hashed, FullPath, Missed, Hash, Probe, Buildable, Lookup;
      ghost var t, n := Table(), Node(level, left, right);
      LookupCases(t, level, left, right);
      if left == right {
        return left;
      }
      var slot, o := FindSlot(level, left, right);
      if hashMap[slot] == 0 {
        NotThere(t, hashMap[..], steps, n, o);
        index := Insert(Node(level, left, right), slot, o);
      } else {
        Hit(t, hashMap[..], steps, n, slot);
        index := hashMap[slot];
      }
    }

    lemma LookupCases(t: Table, level: int, left: int, right: int)
      requires Loose(t) && Offered(t, level, left, right)
      ensures var b, n := Lookup(t, level, left, right), Node(level, left, right);
              && Loose(b.table) && (Wf(t) && Buildable(t, level, left, right) ==> Wf(b.table))
              && b == if left == right then Built(t, left) else if Find(t, n) < |t| then Built(t, LEAVES + Find(t, n))
                 else Built(t + [n], LEAVES + |t|)
    {
      LookupLoose(t, level, left, right);
      if Wf(t) && Buildable(t, level, left, right) { BuildableWf(t, level, left, right); }
      hide Wf, Loose, Buildable;
    }

    lemma NothingProbed(t: Table, m: seq<int>, n: Node)
      requires |m| == HASH_SIZE
      ensures Missed(t, m, n, 0) && FullPath(m, Hash(n), 0)
    {
    }

    lemma ProbeOn(t: Table, m: seq<int>, n: Node, o: nat)
      requires Missed(t, m, n, o) && FullPath(m, Hash(n), o)
      requires LEAVES <= m[Probe(Hash(n), o)] < LEAVES + |t| && t[m[Probe(Hash(n), o)] - LEAVES] != n
      ensures Missed(t, m, n, o + 1) && FullPath(m, Hash(n), o + 1)
    {
    }

    lemma SlotHolds(t: Table, m: seq<int>, steps: seq<int>, s: int)
      requires Hashed(t, m, steps) && 0 <= s < HASH_SIZE && m[s] != 0
      ensures LEAVES <= m[s] < LEAVES + |t|
    {
    }

    // ---- nodes handed to callers ----

    /** A pointer to a diagram: a node in use, or the slot of constant images. */
    ghost predicate IsDiagram(node: int)
      reads this, nodes
    {
      && nodes.Length == NODES_MAX
      && (LEAVES <= node < freeNodeCounter < NODES_MAX
          || (node == CONSTANT_SLOT && 0 <= nodes[node].left < LEAVES &&
             nodes[node] == Node(CONSTANT_LEVEL, nodes[node].left, nodes[node].left)))
    }

    /** The index that such a pointer denotes: constant images denote their leaf. */
    ghost function Diagram(node: int): int
      requires IsDiagram(node)
      reads this, nodes
    {
      if LEAVES <= node < freeNodeCounter then node else nodes[node].left
    }

    /** A leaf is handed out as the constant image in the last slot. */
    method Finish(result: int) returns (node: int)
      requires Valid() && IsIndex(Table(), result)
      modifies nodes
      ensures Valid() && Table() == old(Table()) && IsDiagram(node) && Diagram(node) == result
    {
      hide Wf, Loose, Hashed;
      if result < LEAVES {
        ghost var t := Table();
        nodes[CONSTANT_SLOT] := Node(CONSTANT_LEVEL, result, result);
        assert Table() == t;
        return CONSTANT_SLOT;
      }
      return result;
    }

    /** A child as the recursive functions pass it on. */
    method Child(child: int) returns (node: Node)
      requires Valid() && IsIndex(Table(), child)
      ensures Passed(Table(), node, child) && (child < LEAVES ==> node.level == 0)
      ensures child >= LEAVES ==> 0 < node.level <= LEVELS_MAX
    {
      hide Loose, Hashed;
      if child < LEAVES {
        return Node(0, child, child);
      }
      NodeFacts(Table(), child);
      return nodes[child];
    }

    // ---- bdd_from_raster ----

    /** Splitting a square into its top and its bottom half. */
    method SplitRow(raster: array<int>, row: int, col: int, width: int, height: int, level: int, wholeWidth: int,
                    originalWidth: int, originalHeight: int, ghost ras: Raster, ghost d: nat)
      returns (index: int)
      requires Valid() && raster != hashMap && ras.Valid() && raster[..] == ras.data
      requires wholeWidth == originalWidth == ras.w && originalHeight == ras.h && row >= 0 && col >= 0
      requires width == height == Pow2(d) && level == 2 * d <= LEVELS_MAX
      requires Room(SquareOf(Table(), ras, row, col, d))
      modifies this, nodes, hashMap
      ensures Valid() && Built(Table(), index) == SquareOf(old(Table()), ras, row, col, d)
      decreases d, 1
    {
      hide Wf, Loose, Hashed, Lookup, Pow2, SquareOf, FlatOf;
      ghost var t := Table();
      SquareParts(t, ras, row, col, d);
      if width == 1 && height == 1 {
        if row < originalHeight && col < originalWidth {
          CellIndex(ras.w, ras.h, row, col);
          return raster[wholeWidth * row + col];
        } else {
          return 0;
        }
      }
      var mid := height / 2;
      var left := SplitCol(raster, row, col, width, mid, level - 1, wholeWidth, originalWidth, originalHeight, ras, d);
      var right := SplitCol(raster, row + mid, col, width, mid, level - 1, wholeWidth, originalWidth, originalHeight,
        ras, d);
      index := BddLookup(level, left, right);
    }

    /** Splitting a half into its left and its right part; it is never a single pixel. */
    method SplitCol(raster: array<int>, row: int, col: int, width: int, height: int, level: int, wholeWidth: int,
                    originalWidth: int, originalHeight: int, ghost ras: Raster, ghost d: nat)
      returns (index: int)
      requires Valid() && raster != hashMap && ras.Valid() && raster[..] == ras.data
      requires wholeWidth == originalWidth == ras.w && originalHeight == ras.h && row >= 0 && col >= 0
      requires 1 <= d && width == Pow2(d) && height == Pow2(d - 1) && level == 2 * d - 1 && 2 * d <= LEVELS_MAX
      requires Room(FlatOf(Table(), ras, row, col, d))
      modifies this, nodes, hashMap
      ensures Valid() && Built(Table(), index) == FlatOf(old(Table()), ras, row, col, d)
      decreases d, 0
    {
      hide Wf, Loose, Hashed, Lookup, Pow2, SquareOf, FlatOf;
      ghost var t := Table();
      FlatParts(t, ras, row, col, d);
      var mid := width / 2;
      var left := SplitRow(raster, row, col, mid, height, level - 1, wholeWidth, originalWidth, originalHeight, ras,
        d - 1);
      var right := SplitRow(raster, row, col + mid, mid, height, level - 1, wholeWidth, originalWidth, originalHeight,
        ras, d - 1);
      index := BddLookup(level, left, right);
    }

    method BddMinLevel(w: int, h: int) returns (level: int)
      requires w <= LARGEST_SIDE && h <= LARGEST_SIDE
      ensures level == MinLevel(w, h)
    {
      hide Pow2;
      Pow2Zero();
      var count, workingProduct := 0, 1;
      var bound := if w < h then h else w;
      while workingProduct < bound
        invariant workingProduct == Pow2(count) < INT_LIMIT && 0 <= count <= Exponent(bound)
        decreases bound - workingProduct
      {
        Doubles(count);
        NotYet(bound, count);
        workingProduct := workingProduct * 2;
        count := count + 1;
      }
      return 2 * count;
    }

    /** What fits on 32 levels is far below the largest side. */
    lemma SidesFit(w: int, h: int)
      requires MinLevel(w, h) <= LEVELS_MAX
      ensures w <= LARGEST_SIDE && h <= LARGEST_SIDE
    {
      hide Pow2;
      SquareCovers(w, h);
      Pow2Monotone(MinLevel(w, h) / 2, 16);
      Sixteenth();
    }

    lemma Sixteenth()
      ensures Pow2(16) == 0x1_0000
    {
      assert Pow2(4) == 16 && Pow2(8) == 16 * Pow2(4) && Pow2(12) == 16 * Pow2(8);
    }

    lemma NotYet(bound: int, count: nat)
      requires Pow2(count) < bound
      ensures count < Exponent(bound)
    {
      if Exponent(bound) <= count { Pow2Monotone(Exponent(bound), count); }
    }

    /** Negative sizes are refused; otherwise the raster, padded with zeros to a square, becomes a diagram. */
    method BddFromRaster(w: int, h: int, raster: array<int>) returns (node: int)
      requires Valid() && raster != hashMap
      requires w >= 0 && h >= 0 ==>
                 var ras := Raster(w, h, raster[..]);
                 ras.Valid() && MinLevel(w, h) <= LEVELS_MAX && Room(FromRaster(Table(), ras))
      modifies this, nodes, hashMap
      ensures Valid()
      ensures w < 0 || h < 0 ==> node == NULL && Table() == old(Table())
      ensures w >= 0 && h >= 0 ==>
                && IsDiagram(node)
                && Built(Table(), Diagram(node)) == FromRaster(old(Table()), Raster(w, h, old(raster[..])))
    {
      hide Wf, Loose, Hashed, SquareOf;
      if w < 0 || h < 0 {
        return NULL;
      }
      SidesFit(w, h);
      var level := BddMinLevel(w, h);
      var dimension := ComputePow2(level / 2);
      ghost var ras := Raster(w, h, raster[..]);
      Pow2Zero();
      var index := SplitRow(raster, 0, 0, dimension, dimension, level, w, w, h, ras, level / 2);
      node := Finish(index);
    }

    // ---- bdd_apply and bdd_to_raster ----

    /** The alternating shifts over `diff` skipped levels, the row's mask first if `shiftR`. */
    method ShiftMasks(rowFirst: bool, diff: int, maskR: int, maskC: int, ghost level: int)
      returns (workingMaskR: int, workingMaskC: int)
      requires 0 <= diff <= level && Masks(level, maskR, maskC) && (rowFirst <==> level % 2 == 0)
      ensures Masks(level - diff, workingMaskR, workingMaskC)
    {
      hide MaskR, MaskC;
      var shiftR := rowFirst;
      workingMaskR, workingMaskC := maskR, maskC;
      for i := 0 to diff
        invariant Masks(level - i, workingMaskR, workingMaskC)
        invariant shiftR <==> (level - i) % 2 == 0
      {
        MaskStep(level - i);
        if shiftR {
          workingMaskR := workingMaskR / 2;
          shiftR := false;
        } else {
          workingMaskC := workingMaskC / 2;
          shiftR := true;
        }
      }
    }

    /** The path from a node to a leaf, with the masks that belong to the node's level. */
    method ApplyFrom(node: int, r: int, c: int, level: int, maskR: int, maskC: int) returns (v: int)
      requires Valid() && LEAVES <= node < freeNodeCounter && r >= 0 && c >= 0
      requires level == nodes[node].level && Masks(level, maskR, maskC)
      ensures v == Pixel(Table(), node, r, c)
      decreases node
    {
      hide Wf, Loose, Hashed, MaskR, MaskC, Pixel, LevelBit, And;
      NodeFacts(Table(), node);
      PixelStep(Table(), node, r, c);
      LevelZero(Table(), nodes[node].left);
      LevelZero(Table(), nodes[node].right);
      if level == 1 {
        var maskedResult := And(c, maskC);
        if maskedResult == 0 {
          return nodes[node].left;
        } else {
          return nodes[node].right;
        }
      }
      var rowFirst := level % 2 == 0;
      var maskedResult := if rowFirst then And(r, maskR) else And(c, maskC);
      var child := if maskedResult == 0 then nodes[node].left else nodes[node].right;
      if child < LEAVES {
        return child;
      }
      var levelDiff := nodes[node].level - nodes[child].level;
      MaskStep(level);
      if levelDiff == 1 {
        if rowFirst {
          v := ApplyFrom(child, r, c, nodes[child].level, maskR / 2, maskC);
        } else {
          v := ApplyFrom(child, r, c, nodes[child].level, maskR, maskC / 2);
        }
      } else {
        var workingMaskR, workingMaskC := ShiftMasks(rowFirst, levelDiff, maskR, maskC, level);
        v := ApplyFrom(child, r, c, nodes[child].level, workingMaskR, workingMaskC);
      }
    }

    /** The masks for the node's own level are built by shifting up, whatever levels the caller skips above it. */
    method BddApply(node: int, r: int, c: int) returns (v: int)
      requires Valid() && LEAVES <= node < freeNodeCounter && r >= 0 && c >= 0
      ensures v == Pixel(Table(), node, r, c)
    {
      hide Wf, Loose, Hashed, Pixel, MasksUp, Masks;
      NodeFacts(Table(), node);
      var maskR, maskC := 0, 0;
      var level := nodes[node].level;
      var shiftR := level % 2 == 0;
      MasksUpStart(level);
      for i := 0 to level
        invariant shiftR <==> (level + i) % 2 == 0
        invariant MasksUp(level, i, maskR, maskC)
      {
        MasksUpStep(level, i, maskR, maskC);
        if shiftR {
          maskR := if maskR == 0 then 1 else maskR * 2;
          shiftR := false;
        } else {
          maskC := if maskC == 0 then 1 else maskC * 2;
          shiftR := true;
        }
      }
      MasksUpEnd(level, maskR, maskC);
      v := ApplyFrom(node, r, c, level, maskR, maskC);
    }

    /** The top left w x h pixels in row-major order. */
    method BddToRaster(node: int, w: nat, h: nat, raster: array<int>)
      requires Valid() && IsDiagram(node) && raster != hashMap && raster != indexMap && raster.Length >= w * h
      modifies raster
      ensures raster[..w * h] == ToRaster(Table(), Diagram(node), w, h)
      ensures raster[w * h..] == old(raster[w * h..])
    {
      hide Wf, Loose, Hashed, Pixel, Lookup, ToRaster;
      var rasterCounter := 0;
      ghost var t, i := Table(), Diagram(node);
      ToRasterLength(t, i, w, h);
      var constant := nodes[node].level == CONSTANT_LEVEL;
      if !constant { NotConstant(node); } else { IsConstant(node); }
      for r := 0 to h
        invariant rasterCounter == w * r <= w * h
        invariant forall k :: 0 <= k < rasterCounter ==> raster[k] == ToRaster(t, i, w, h)[k]
        invariant raster[w * h..] == old(raster[w * h..])
      {
        RowFits(w, h, r);
        for c := 0 to w
          invariant rasterCounter == w * r + c
          invariant forall k :: 0 <= k < rasterCounter ==> raster[k] == ToRaster(t, i, w, h)[k]
          invariant raster[w * h..] == old(raster[w * h..])
        {
          var value;
          if constant {
            LeafPixel(t, i, r, c);
            value := nodes[node].left;
          } else {
            value := BddApply(node, r, c);
          }
          ToRasterAt(t, i, w, h, r, c);
          raster[rasterCounter] := value;
          rasterCounter := rasterCounter + 1;
        }
      }
    }

    /** The level tells the slot of constant images from the nodes in use. */
    lemma NotConstant(node: int)
      requires Valid() && IsDiagram(node) && nodes[node].level != CONSTANT_LEVEL
      ensures LEAVES <= node < freeNodeCounter && Diagram(node) == node
    {
    }

    lemma IsConstant(node: int)
      requires Valid() && IsDiagram(node) && nodes[node].level == CONSTANT_LEVEL
      ensures node == CONSTANT_SLOT && Diagram(node) == nodes[node].left < LEAVES
    {
      if LEAVES <= node < freeNodeCounter { NodeFacts(Table(), node); }
    }

    // ---- bdd_map ----

    method MapNode(node: Node, f: int -> int, ghost i: int) returns (index: int)
      requires Valid() && Passed(Table(), node, i) && OnBytes(f) && Room(Map(Table(), i, f))
      modifies this, nodes, hashMap
      ensures Valid() && Built(Table(), index) == Map(old(Table()), i, f)
      decreases i, node.level
    {
      hide Wf, Loose, Hashed, Map, Lookup;
      ghost var t := Table();
      PassedFacts(t, node, i);
      MapParts(t, i, f);
      if node.level == 0 {
        return f(node.left);
      }
      var leftChild := Child(node.left);
      var leftReturned := MapNode(leftChild, f, node.left);
      var rightChild := Child(node.right);
      var rightReturned := MapNode(rightChild, f, node.right);
      index := BddLookup(node.level, leftReturned, rightReturned);
    }

    /** Constant images are mapped like all others. */
    method BddMap(node: int, f: int -> int) returns (mapped: int)
      requires Valid() && IsDiagram(node) && OnBytes(f) && Room(Map(Table(), Diagram(node), f))
      modifies this, nodes, hashMap
      ensures Valid() && IsDiagram(mapped)
      ensures Built(Table(), Diagram(mapped)) == Map(old(Table()), old(Diagram(node)), f)
      ensures forall r: nat, c: nat ::
                Pixel(Table(), Diagram(mapped), r, c) == f(Pixel(old(Table()), old(Diagram(node)), r, c))
    {
      hide Wf, Loose, Hashed, Map, Pixel;
      ghost var t, i := Table(), Diagram(node);
      DiagramPassed(node);
      var result := MapNode(nodes[node], f, Diagram(node));
      mapped := Finish(result);
      forall r: nat, c: nat
        ensures Pixel(Table(), Diagram(mapped), r, c) == f(Pixel(t, i, r, c))
      {
        MapPixels(t, i, f, r, c);
      }
    }

    lemma DiagramPassed(node: int)
      requires Valid() && IsDiagram(node)
      ensures Passed(Table(), nodes[node], Diagram(node))
    {
      hide Wf, Loose, Hashed;
    }

    // ---- bdd_rotate ----

    method RotateAt(root: int, r: int, c: int, width: int, passedLevel: int, ghost d: nat) returns (index: int)
      requires Valid() && LEAVES <= root < freeNodeCounter && r >= 0 && c >= 0
      requires width == Pow2(d) && passedLevel == 2 * d <= LEVELS_MAX && Room(Rotated(Table(), root, r, c, d))
      modifies this, nodes, hashMap
      ensures Valid() && Built(Table(), index) == Rotated(old(Table()), root, r, c, d)
      decreases d
    {
      hide Wf, Loose, Hashed, Rotated, Lookup, Pow2, Pixel, Turnable, Turned, Level;
      RotatedParts(Table(), root, r, c, d);
      if width == 1 {
        index := BddApply(root, r, c);
        return;
      }
      var half := width / 2;
      var minusTwoLevel := passedLevel - 2;
      var topLeft := RotateAt(root, r, c, half, minusTwoLevel, d - 1);
      var topRight := RotateAt(root, r, c + half, half, minusTwoLevel, d - 1);
      var botLeft := RotateAt(root, r + half, c, half, minusTwoLevel, d - 1);
      var botRight := RotateAt(root, r + half, c + half, half, minusTwoLevel, d - 1);
      index := Turn(topLeft, topRight, botLeft, botRight, minusTwoLevel, passedLevel, d);
    }

    method Turn(topLeft: int, topRight: int, botLeft: int, botRight: int, minusTwoLevel: int, passedLevel: int,
                ghost d: nat)
      returns (index: int)
      requires Valid() && minusTwoLevel + 2 == passedLevel == 2 * d
      requires Turnable(Table(), topLeft, topRight, botLeft, botRight, d)
      modifies this, nodes, hashMap
      ensures Valid() && Built(Table(), index) == Turned(old(Table()), topLeft, topRight, botLeft, botRight, d)
    {
      hide Wf, Loose, Hashed, Lookup;
      var topNode := BddLookup(minusTwoLevel + 1, topRight, botRight);
      var botNode := BddLookup(minusTwoLevel + 1, topLeft, botLeft);
      index := BddLookup(passedLevel, topNode, botNode);
    }

    /** The result is handed out as a node without a check: for a diagram that is not constant it is one. */
    method BddRotate(node: int, level: int) returns (rotated: int)
      requires Valid() && LEAVES <= node < freeNodeCounter && 0 <= level <= LEVELS_MAX && level % 2 == 0
      requires nodes[node].level <= level
      requires Room(Rotate(Table(), node, level / 2))
      modifies this, nodes, hashMap
      ensures Valid() && LEAVES <= rotated < freeNodeCounter
      ensures Built(Table(), rotated) == Rotate(old(Table()), node, level / 2)
    {
      hide Wf, Loose, Hashed, Rotated;
      NodeFacts(Table(), node);
      RotateKeepsNodes(Table(), node, level / 2);
      var width := ComputePow2(level / 2);
      Pow2Zero();
      rotated := RotateAt(node, 0, 0, width, level, level / 2);
    }

    // ---- bdd_zoom ----

    method ZoomInNode(node: Node, factor: int, ghost i: int) returns (index: int)
      requires Valid() && Passed(Table(), node, i) && 0 <= factor && Level(Table(), i) + 2 * factor <= LEVELS_MAX
      requires Room(ZoomIn(Table(), i, factor))
      modifies this, nodes, hashMap
      ensures Valid() && Built(Table(), index) == ZoomIn(old(Table()), i, factor)
      decreases i, node.level
    {
      hide Wf, Loose, Hashed, ZoomIn, Lookup;
      ghost var t := Table();
      PassedFacts(t, node, i);
      ZoomInParts(t, i, factor);
      if node.level == 0 {
        return node.left;
      }
      var leftChild := Child(node.left);
      var leftReturned := ZoomInNode(leftChild, factor, node.left);
      var rightChild := Child(node.right);
      var rightReturned := ZoomInNode(rightChild, factor, node.right);
      index := BddLookup(node.level + 2 * factor, leftReturned, rightReturned);
    }

    /** `factor` is negative here: zooming out by `-factor`. */
    method ZoomOutNode(node: Node, factor: int, level: int, ghost i: int) returns (index: int)
      requires Valid() && Passed(Table(), node, i) && -LEVELS_MAX <= 2 * factor <= 0 && node.level > 0
      requires Room(ZoomOut(Table(), i, -factor))
      modifies this, nodes, hashMap
      ensures Valid() && Built(Table(), index) == ZoomOut(old(Table()), i, -factor)
      decreases i, node.level
    {
      hide Wf, Loose, Hashed, ZoomOut, Lookup;
      ghost var t := Table();
      PassedFacts(t, node, i);
      ZoomOutParts(t, i, -factor);
      if -(2 * factor) >= node.level {
        return 255;
      }
      var leftValue, rightValue := 0, 0;
      if node.left < LEAVES {
        ZoomOutParts(t, node.left, -factor);
        if node.left != 0 {
          leftValue := 255;
        }
      } else {
        var leftChild := Child(node.left);
        leftValue := ZoomOutNode(leftChild, factor, level, node.left);
      }
      ghost var u := Table();
      if node.right < LEAVES {
        ZoomOutParts(u, node.right, -factor);
        if node.right != 0 {
          rightValue := 255;
        }
      } else {
        var rightChild := Child(node.right);
        rightValue := ZoomOutNode(rightChild, factor, level, node.right);
      }
      index := BddLookup(node.level + 2 * factor, leftValue, rightValue);
    }

    /**
     * Factors up to 16 zoom in; larger ones are bytes that stand for `factor - 256`. The bounds are those
     * the program checks before it calls.
     */
    method BddZoom(node: int, level: int, factor: int) returns (zoomed: int)
      requires Valid() && IsDiagram(node) && 0 <= factor < 256 && Level(Table(), Diagram(node)) <= level <= LEVELS_MAX
      requires factor <= 16 ==> 2 * factor + level <= LEVELS_MAX && Room(ZoomIn(Table(), Diagram(node), factor))
      requires factor > 16 ==> level - 2 * (256 - factor) >= 0 && Room(ZoomOut(Table(), Diagram(node), 256 - factor))
      modifies this, nodes, hashMap
      ensures Valid() && IsDiagram(zoomed)
      ensures factor <= 16 ==> Built(Table(), Diagram(zoomed)) == ZoomIn(old(Table()), old(Diagram(node)), factor)
      ensures factor > 16 ==> Built(Table(), Diagram(zoomed)) == ZoomOut(old(Table()), old(Diagram(node)), 256 - factor)
    {
      hide Wf, Loose, Hashed, ZoomIn, ZoomOut;
      DiagramPassed(node);
      var returnedIndex;
      if factor >= 0 && factor <= 16 {
        returnedIndex := ZoomInNode(nodes[node], factor, Diagram(node));
      } else {
        var zoomOutFactor := 256 - factor;
        zoomOutFactor := -1 * zoomOutFactor;
        NodeLevel(node);
        returnedIndex := ZoomOutNode(nodes[node], zoomOutFactor, level, Diagram(node));
      }
      zoomed := Finish(returnedIndex);
    }

    lemma NodeLevel(node: int)
      requires Valid() && IsDiagram(node)
      ensures nodes[node].level > 0
    {
      if LEAVES <= node < freeNodeCounter { NodeFacts(Table(), node); }
    }

    // ---- bdd_serialize ----

    /** The index map holds the serial numbers given out, 0 for none. */
    ghost predicate Indexed(serials: map<int, int>)
      reads indexMap
    {
      indexMap.Length == NODES_MAX && forall k :: 0 <= k < NODES_MAX ==>
        indexMap[k] == if k in serials then serials[k] else 0
    }

    method InitializeIndexMap()
      requires indexMap.Length == NODES_MAX
      modifies indexMap
      ensures Indexed(map[])
    {
      for i := 0 to NODES_MAX
        invariant forall k :: 0 <= k < i ==> indexMap[k] == 0
      {
        indexMap[i] := 0;
      }
    }

    /** The serial number of a child; a node is looked up once more to find its index. */
    method SerialOf(child: int, ghost s: Writer) returns (serial: int)
      requires Valid() && Indexed(s.serials) && IsIndex(Table(), child) && child in s.serials
      modifies this, nodes, hashMap
      ensures Valid() && Table() == old(Table()) && serial == s.serials[child]
      ensures nodes[CONSTANT_SLOT] == old(nodes[CONSTANT_SLOT])
    {
      hide Wf, Loose, Hashed, Lookup;
      if child < LEAVES {
        return indexMap[child];
      }
      var index := LookupStored(nodes[child], child);
      return indexMap[index];
    }

    /** Looking a stored node up changes nothing and gives its index. */
    method LookupStored(node: Node, ghost i: int) returns (index: int)
      requires Valid() && LEAVES <= i < freeNodeCounter && nodes[i] == node
      modifies this, nodes, hashMap
      ensures Valid() && Table() == old(Table()) && index == i
      ensures nodes[CONSTANT_SLOT] == old(nodes[CONSTANT_SLOT])
    {
      hide Wf, Loose, Hashed, Lookup;
      LookupAgain(Table(), i);
      NodeFacts(Table(), i);
      index := BddLookup(node.level, node.left, node.right);
    }

    method SerializeNode(node: Node, serial: int, out: seq<int>, ghost i: int, ghost s: Writer)
      returns (available: int, written: seq<int>)
      requires Valid() && Passed(Table(), node, i) && node.level != CONSTANT_LEVEL
      requires WriterOk(Table(), s) && Indexed(s.serials) && serial == s.next && out == s.bytes
      modifies this, nodes, hashMap, indexMap
      ensures Valid() && Table() == old(Table())
      ensures var w := Emit(Table(), i, s); Indexed(w.serials) && available == w.next && written == w.bytes
      ensures nodes[CONSTANT_SLOT] == old(nodes[CONSTANT_SLOT])
      decreases i, 1
    {
      hide Wf, Loose, Hashed, WriterOk, Emit, Instruction, Lookup;
      ghost var t := Table();
      PassedFacts(t, node, i);
      EmitParts(t, i, s);
      NotZero(t, s, i);
      available, written := serial, out;
      if node.level == 0 {
        if indexMap[node.left] == 0 {
          FewSerials(t, s, i);
          indexMap[node.left] := available;
          available := available + 1;
          written := written + [AT_SIGN, node.left];
        }
        return;
      }
      var returnedIndex := LookupStored(node, i);
      if indexMap[returnedIndex] == 0 {
        available, written := SerializeWithChildren(node, returnedIndex, serial, out, s);
      }
    }

    /** A node met for the first time. */
    method SerializeWithChildren(node: Node, index: int, serial: int, out: seq<int>,
                ghost s: Writer)
      returns (available: int, written: seq<int>)
      requires Valid() && LEAVES <= index < freeNodeCounter && nodes[index] == node && index !in s.serials
      requires WriterOk(Table(), s) && Indexed(s.serials) && serial == s.next && out == s.bytes
      modifies this, nodes, hashMap, indexMap
      ensures Valid() && Table() == old(Table())
      ensures var w := Emit(Table(), index, s); Indexed(w.serials) && available == w.next && written == w.bytes
      ensures nodes[CONSTANT_SLOT] == old(nodes[CONSTANT_SLOT])
      decreases index, 0
    {
      hide Wf, Loose, Hashed, WriterOk, Emit, Instruction, Lookup, Indexed, Written;
      ghost var t := Table();
      NodeFacts(t, index);
      EmitParts(t, index, s);
      var leftChild := Child(node.left);
      available, written := SerializeNode(leftChild, serial, out, node.left, s);
      ghost var a := Emit(t, node.left, s);
      EmitWrites(t, node.left, s);
      var rightChild := Child(node.right);
      available, written := SerializeNode(rightChild, available, written, node.right, a);
      ghost var b := Emit(t, node.right, a);
      EmitWrites(t, node.right, a);
      available, written := WriteNode(node, index, available, written, b);
    }

    /** The node's own instruction, after its children's. */
    method WriteNode(node: Node, index: int, serial: int, out: seq<int>, ghost s: Writer)
      returns (available: int, written: seq<int>)
      requires Valid() && LEAVES <= index < freeNodeCounter && nodes[index] == node && index !in s.serials
      requires WriterOk(Table(), s) && Indexed(s.serials) && serial == s.next && out == s.bytes
      requires node.left in s.serials && node.right in s.serials
      modifies this, nodes, hashMap, indexMap
      ensures Valid() && Table() == old(Table())
      ensures var w := Written(index, node, s); Indexed(w.serials) && available == w.next && written == w.bytes
      ensures nodes[CONSTANT_SLOT] == old(nodes[CONSTANT_SLOT])
    {
      hide Wf, Loose, Hashed, Lookup, Emit;
      NodeFacts(Table(), index);
      FewSerials(Table(), s, index);
      SerialsInRange(Table(), s, node.left);
      SerialsInRange(Table(), s, node.right);
      hide WriterOk;
      indexMap[index] := serial;
      available := serial + 1;
      ghost var w := Writer(s.serials[index := serial], s.bytes, s.next + 1);
      var asciiLevel := AT_SIGN + node.level;
      written := out + [asciiLevel];
      var leftSerial := SerialOf(node.left, w);
      var rightSerial := SerialOf(node.right, w);
      var leftBytes := CountBytes(leftSerial);
      var rightBytes := CountBytes(rightSerial);
      written := written + leftBytes + rightBytes;
    }

    lemma SerialsInRange(t: Table, s: Writer, i: int)
      requires WriterOk(t, s) && i in s.serials
      ensures 1 <= s.serials[i] < s.next
    {
    }

    /** A constant image is one leaf; everything else is written children first. The table does not grow. */
    method BddSerialize(node: int) returns (status: int, out: seq<int>)
      requires Valid() && IsDiagram(node)
      modifies this, nodes, hashMap, indexMap
      ensures Valid() && Table() == old(Table()) && status == 0 && out == Code(Table(), old(Diagram(node)))
    {
      hide Wf, Loose, Hashed, WriterOk, Emit, Lookup;
      ghost var i := Diagram(node);
      if nodes[node].level == CONSTANT_LEVEL {
        IsConstant(node);
        EmitParts(Table(), i, START);
        assert [] + [AT_SIGN, i] == [AT_SIGN, i];
        return 0, [AT_SIGN, nodes[node].left];
      }
      NotConstant(node);
      InitializeIndexMap();
      StartToEnd(Table(), i);
      DiagramPassed(node);
      var result;
      result, out := SerializeNode(nodes[node], 1, [], i, START);
      status := if result == 1 then -1 else 0;
    }

    // ---- bdd_deserialize ----

    /** The index map holds what was recorded for each serial number, 0 elsewhere. */
    ghost predicate Recording(ids: seq<int>)
      reads indexMap
    {
      indexMap.Length == NODES_MAX && forall k :: 0 <= k < NODES_MAX ==> indexMap[k] == Recorded(ids, k)
    }

    /** One instruction of a node, its eight bytes starting at `pos`; false if the stream ends within. */
    method ReadNode(input: seq<int>, pos: nat, level: int, ghost ids: seq<int>) returns (ok: bool, index: int)
      requires InOrder() && Recording(ids) && AllIn(Table(), ids) && 1 <= pos <= |input|
      requires input[pos - 1] == AT_SIGN + level && 1 <= level <= LEVELS_MAX && Bytes(input)
      requires !HeadOf(ids, input[pos - 1..]).Wild?
      requires var h := HeadOf(ids, input[pos - 1..]); h.Inner? ==> Room(Lookup(Table(), h.level, h.left, h.right))
      modifies this, nodes, hashMap
      ensures InOrder() && nodes[CONSTANT_SLOT] == old(nodes[CONSTANT_SLOT])
      ensures var h := HeadOf(ids, input[pos - 1..]);
              if ok then h.Inner? && h.level == level &&
                Built(Table(), index) == Lookup(old(Table()), h.level, h.left, h.right)
              else h.Bad? && Table() == old(Table())
    {
      hide Loose, Hashed, Lookup, Buildable, Recorded, AllIn, Offered;
      ghost var rest := input[pos - 1..];
      HeadOffered(Table(), ids, rest);
      if ByteAt(input, pos) == -1 || ByteAt(input, pos + 1) == -1 || ByteAt(input, pos + 2) == -1 ||
        ByteAt(input, pos + 3) == -1 {
        return false, 0;
      }
      assert rest[1..5] == input[pos..pos + 4];
      var leftChildIndex := indexMap[FourBytes(input[pos..pos + 4])];
      if ByteAt(input, pos + 4) == -1 || ByteAt(input, pos + 5) == -1 || ByteAt(input, pos + 6) == -1 ||
        ByteAt(input, pos + 7) == -1 {
        return false, 0;
      }
      assert rest[5..9] == input[pos + 4..pos + 8];
      var rightChildIndex := indexMap[FourBytes(input[pos + 4..pos + 8])];
      index := BddLookup(level, leftChildIndex, rightChildIndex);
      ok := true;
    }

    /**
     * Replaying code. NULL for a stream that is empty, ends within a node's instruction or holds another
     * byte where an instruction should start; otherwise the node built last, a leaf as a constant image.
     * The table holds diagrams afterwards exactly if every node read stands above its children.
     */
    method BddDeserialize(input: seq<int>) returns (node: int)
      requires Valid() && Bytes(input) && Readable(Replay(Table(), [], input))
      modifies this, nodes, hashMap, indexMap
      ensures InOrder() && HandedOut(Replay(old(Table()), [], input), Table(), node, nodes[CONSTANT_SLOT])
      ensures node != NULL <==> input != [] && Tiles(input)
      ensures node != NULL && !EndsCutOff(input) ==> IsDiagram(node) && IsIndex(Table(), Diagram(node))
      ensures Valid() <==> Descends([], [], input)
    {
      hide Wf, Loose, Hashed, Replay, HeadOf, Recorded, Lookup, AllIn, Descends, Tiles, EndsCutOff, IsIndex, Offered,
        Buildable, Bytes, Rest, FourBytes;
      ghost var t, ids: seq<int> := Table(), [];
      ghost var whole := Replay(t, [], input);
      WholeStream(t, input);
      InitializeIndexMap();
      NothingRecorded();
      var serialCounter := 1;
      var pos := 1;
      var readingChar := ByteAt(input, 0);
      while readingChar != -1
        invariant InOrder() && Recording(ids) && serialCounter == |ids| + 1 <= NODES_MAX && pos >= 1
        invariant readingChar == ByteAt(input, pos - 1)
        invariant Replay(Table(), ids, Rest(input, pos - 1)) == whole && Readable(whole)
        invariant readingChar != -1 ==> AllIn(Table(), ids)
        invariant (ids == [] <==> pos == 1) && (pos > 1 ==> input != [])
        decreases |input| + 2 - pos
      {
        ghost var u := Table();
        NotAtEnd(input, pos - 1);
        AnyStep(u, ids, input, pos);
        if readingChar == AT_SIGN {
          var valueByte := ByteAt(input, pos);
          LeafStep(u, ids, input, pos);
          Record(serialCounter, valueByte, ids);
          serialCounter := serialCounter + 1;
          ids := ids + [valueByte];
          pos := pos + 1;
        } else if readingChar >= AT_SIGN + 1 && readingChar <= AT_SIGN + LEVELS_MAX {
          var ok, index := ReadNode(input, pos, readingChar - AT_SIGN, ids);
          if !ok {
            return NULL;
          }
          NodeStep(u, ids, input, pos);
          Record(serialCounter, index, ids);
          serialCounter := serialCounter + 1;
          ids := ids + [index];
          pos := pos + 8;
        } else {
          HeadIsBad(input, pos, ids);
          return NULL;
        }
        readingChar := ByteAt(input, pos);
        pos := pos + 1;
      }
      NotAtEnd(input, pos - 1);
      RestEnds(input, pos - 1);
      ReplayEnd(Table(), ids);
      node := HandOut(serialCounter, ids);
      if node != NULL && !EndsCutOff(input) { HandedOutExists(ids, node); }
    }

    lemma HandedOutExists(ids: seq<int>, node: int)
      requires InOrder() && AllIn(Table(), ids) && node != NULL
      requires HandedOut(Accepted(Table(), ids), Table(), node, nodes[CONSTANT_SLOT])
      ensures IsDiagram(node) && IsIndex(Table(), Diagram(node))
    {
      hide Loose, Hashed;
    }

    /** The node read last, or NULL if there was none. */
    method HandOut(serialCounter: int, ghost ids: seq<int>) returns (node: int)
      requires InOrder() && Recording(ids) && serialCounter == |ids| + 1 <= NODES_MAX
      modifies nodes
      ensures InOrder() && HandedOut(Accepted(old(Table()), ids), Table(), node, nodes[CONSTANT_SLOT])
    {
      hide Loose, Hashed, Recorded;
      if serialCounter == 1 {
        return NULL;
      }
      var lastIndex := indexMap[serialCounter - 1];
      LastRecorded(ids);
      if lastIndex < LEAVES {
        ghost var t := Table();
        nodes[CONSTANT_SLOT] := Node(CONSTANT_LEVEL, lastIndex, lastIndex);
        assert Table() == t;
        return CONSTANT_SLOT;
      }
      return lastIndex;
    }

    method Record(serial: int, v: int, ghost ids: seq<int>)
      requires Recording(ids) && serial == |ids| + 1 < NODES_MAX
      modifies indexMap
      ensures Recording(ids + [v])
    {
      indexMap[serial] := v;
    }

    lemma NothingRecorded()
      requires Indexed(map[])
      ensures Recording([])
    {
    }
  }

  // ---- reading and writing code ----

  lemma NotZero(t: Table, s: Writer, i: int)
    requires WriterOk(t, s)
    ensures i in s.serials ==> s.serials[i] != 0
  {
  }

  /** The serializer starts soundly, and a whole diagram uses at least one serial number. */
  lemma StartToEnd(t: Table, i: int)
    requires Wf(t) && IsIndex(t, i)
    ensures WriterOk(t, START) && Emit(t, i, START).next != 1
  {
    hide Wf, Emit;
    OneInstructionEach(t, i);
    var w := Emit(t, i, START);
    assert i in w.serials;
  }

  /** `fgetc`: the byte at a position, -1 at the end of the stream and after it. */
  function ByteAt(input: seq<int>, pos: nat): int { if pos < |input| then input[pos] else -1 }

  function Rest(input: seq<int>, pos: nat): seq<int> { if pos <= |input| then input[pos..] else [] }

  /** Streams on which the source stays within its tables. */
  ghost predicate Readable(r: Replayed) { !r.Undefined? && LEAVES + |r.table| <= CONSTANT_SLOT }

  /** What reading hands out: NULL, or the node read last. */
  ghost predicate HandedOut(r: Replayed, t: Table, node: int, constant: Node) {
    && !r.Undefined? && t == r.table
    && (if r.Rejected? || r.ids == [] then node == NULL else
          var last := r.ids[|r.ids| - 1];
          if last < LEAVES then node == CONSTANT_SLOT && constant == Node(CONSTANT_LEVEL, last, last) else node == last)
  }

  lemma LastRecorded(ids: seq<int>)
    ensures ids != [] ==> Recorded(ids, |ids|) == ids[|ids| - 1]
  {
  }

  lemma RestEnds(input: seq<int>, pos: nat)
    requires pos >= |input|
    ensures Rest(input, pos) == []
  {
  }

  lemma ReplayEnd(t: Table, ids: seq<int>)
    ensures Replay(t, ids, []) == Accepted(t, ids)
  {
  }

  lemma HeadIsLeaf(input: seq<int>, pos: nat, ids: seq<int>)
    requires 1 <= pos <= |input| && input[pos - 1] == AT_SIGN
    ensures var rest := Rest(input, pos - 1);
            && HeadOf(ids, rest) == Leaf(ByteAt(input, pos))
            && Rest(input, pos + 1) == if |rest| == 1 then [] else rest[2..]
  {
  }

  lemma HeadIsInner(input: seq<int>, pos: nat, ids: seq<int>)
    requires 1 <= pos <= |input| && HeadOf(ids, Rest(input, pos - 1)).Inner?
    ensures Rest(input, pos + 8) == Rest(input, pos - 1)[9..]
  {
  }

  lemma HeadIsBad(input: seq<int>, pos: nat, ids: seq<int>)
    requires 1 <= pos <= |input| && !(AT_SIGN <= input[pos - 1] <= AT_SIGN + LEVELS_MAX)
    ensures HeadOf(ids, Rest(input, pos - 1)).Bad?
  {
  }

  /** One step of reading, as the branches of the loop see it. */
  lemma ReplayStep(t: Table, ids: seq<int>, bytes: seq<int>)
    requires bytes != [] && Readable(Replay(t, ids, bytes))
    ensures |ids| + 1 < NODES_MAX && !HeadOf(ids, bytes).Wild?
    ensures HeadOf(ids, bytes).Bad? ==> Replay(t, ids, bytes) == Rejected(t)
    ensures var h := HeadOf(ids, bytes);
            h.Leaf? ==> Replay(t, ids, bytes) == Replay(t, ids + [h.value], if |bytes| == 1 then [] else bytes[2..])
    ensures var h := HeadOf(ids, bytes);
            h.Inner? ==>
              && |bytes| >= 9
              && (var b := Lookup(t, h.level, h.left, h.right);
                  Room(b) && Replay(t, ids, bytes) == Replay(b.table, ids + [b.index], bytes[9..]))
  {
    hide Lookup, HeadOf;
  }

  lemma NotAtEnd(input: seq<int>, pos: nat)
    requires Bytes(input)
    ensures ByteAt(input, pos) != -1 <==> pos < |input|
  {
  }

  /** What reading needs to know before it looks at the opcode at `pos - 1`. */
  lemma AnyStep(t: Table, ids: seq<int>, input: seq<int>, pos: nat)
    requires 1 <= pos <= |input| && Readable(Replay(t, ids, Rest(input, pos - 1)))
    ensures |ids| + 1 < NODES_MAX && input[pos - 1..] == Rest(input, pos - 1) && input != []
    ensures var h := HeadOf(ids, input[pos - 1..]);
            && !h.Wild? && (h.Bad? ==> Replay(t, ids, Rest(input, pos - 1)) == Rejected(t))
            && (h.Inner? ==> Room(Lookup(t, h.level, h.left, h.right)))
  {
    hide Replay, HeadOf, Lookup;
    ReplayStep(t, ids, Rest(input, pos - 1));
  }

  lemma LeafStep(t: Table, ids: seq<int>, input: seq<int>, pos: nat)
    requires 1 <= pos <= |input| && input[pos - 1] == AT_SIGN && Bytes(input) && AllIn(t, ids)
    requires Readable(Replay(t, ids, Rest(input, pos - 1)))
    ensures var v := ByteAt(input, pos);
            && Replay(t, ids + [v], Rest(input, pos + 1)) == Replay(t, ids, Rest(input, pos - 1))
            && (ByteAt(input, pos + 1) != -1 ==> AllIn(t, ids + [v]))
  {
    ReplayStep(t, ids, Rest(input, pos - 1));
    HeadIsLeaf(input, pos, ids);
    HeadOffered(t, ids, Rest(input, pos - 1));
    var v := ByteAt(input, pos);
    if pos < |input| { AllInLater(t, ids, t, v); }
    hide Replay, AllIn, HeadOf;
  }

  lemma NodeStep(t: Table, ids: seq<int>, input: seq<int>, pos: nat)
    requires Loose(t) && 1 <= pos <= |input| && Bytes(input) && AllIn(t, ids) && HeadOf(ids, input[pos - 1..]).Inner?
    requires Readable(Replay(t, ids, Rest(input, pos - 1)))
    ensures var h := HeadOf(ids, input[pos - 1..]);
            var b := Lookup(t, h.level, h.left, h.right);
            Replay(b.table, ids + [b.index], Rest(input, pos + 8)) == Replay(t, ids, Rest(input, pos - 1)) &&
              AllIn(b.table, ids + [b.index])
  {
    hide Loose, Lookup, AllIn, HeadOf, Replay;
    var bytes := input[pos - 1..];
    ReplayStep(t, ids, bytes);
    HeadIsInner(input, pos, ids);
    HeadOffered(t, ids, bytes);
    var h := HeadOf(ids, bytes);
    LookupLoose(t, h.level, h.left, h.right);
    var b := Lookup(t, h.level, h.left, h.right);
    AllInLater(t, ids, b.table, b.index);
  }

  lemma WholeStream(t: Table, input: seq<int>)
    requires Wf(t) && Bytes(input) && !Replay(t, [], input).Undefined?
    ensures Replay(t, [], input).Accepted? <==> Tiles(input)
    ensures Wf(Replay(t, [], input).table) <==> Descends([], [], input)
    ensures AllIn(t, []) && Rest(input, 0) == input
    ensures var r := Replay(t, [], input); r.Accepted? && !EndsCutOff(input) ==> AllIn(r.table, r.ids)
  {
    WfIsLoose(t);
    if Replay(t, [], input).Accepted? { ReadExist(t, [], input); }
    AcceptedIffTiles(t, [], input);
    DiagramsIffDescends(t, [], input);
    DescendsAnywhere(t, input);
  }

  /** What a passed node says about its children. */
  lemma PassedFacts(t: Table, node: Node, i: int)
    requires Wf(t) && Passed(t, node, i)
    ensures IsIndex(t, node.left) && IsIndex(t, node.right) && node.level >= 0
    ensures i < LEAVES ==> node.left == i == node.right && (node.level == 0 || node.level == CONSTANT_LEVEL)
    ensures i >= LEAVES ==> node == t[i - LEAVES] && 0 < node.level <= LEVELS_MAX && node.left < i && node.right < i
  {
    if i >= LEAVES { NodeFacts(t, i); }
  }

  lemma MapParts(t: Table, i: int, f: int -> int)
    requires Wf(t) && IsIndex(t, i) && OnBytes(f) && Room(Map(t, i, f))
    ensures i < LEAVES ==>
            Map(t, i, f) == Built(t, f(i)) && Lookup(t, CONSTANT_LEVEL, f(i), f(i)) == Built(t, f(i)) &&
            0 <= f(i) < LEAVES
    ensures i >= LEAVES ==>
              var n := t[i - LEAVES];
              && IsIndex(t, n.left)
              && (var l := Map(t, n.left, f);
                  && Wf(l.table) && IsIndex(l.table, n.right) && t <= l.table
                  && (var r := Map(l.table, n.right, f);
                      && Room(l) && Room(r) && Buildable(r.table, n.level, l.index, r.index)
                      && Map(t, i, f) == Lookup(r.table, n.level, l.index, r.index)))
  {
    hide Wf, Lookup;
    if i >= LEAVES {
      NodeFacts(t, i);
      var n := t[i - LEAVES];
      var l := Map(t, n.left, f);
      StillThere(t, l, Level(t, n.left), n.right);
      var r := Map(l.table, n.right, f);
      JoinParts(t, n.level, l, Level(t, n.left), r, Level(t, n.right));
    } else {
      SameChildren(t, CONSTANT_LEVEL, f(i));
    }
  }

  lemma SameChildren(t: Table, level: int, i: int)
    ensures Lookup(t, level, i, i) == Built(t, i)
  {
  }

  lemma ZoomInParts(t: Table, i: int, k: nat)
    requires Wf(t) && IsIndex(t, i) && Level(t, i) + 2 * k <= LEVELS_MAX && Room(ZoomIn(t, i, k))
    ensures i < LEAVES ==>
            ZoomIn(t, i, k) == Built(t, i) && Lookup(t, CONSTANT_LEVEL + 2 * k, i, i) == Built(t, i) &&
            2 * k <= LEVELS_MAX
    ensures i >= LEAVES ==>
              var n, level := t[i - LEAVES], Level(t, i) + 2 * k;
              && IsIndex(t, n.left) && Level(t, n.left) + 2 * k <= LEVELS_MAX
              && (var l := ZoomIn(t, n.left, k);
                  && Wf(l.table) && IsIndex(l.table, n.right) && t <= l.table &&
                     Level(l.table, n.right) + 2 * k <= LEVELS_MAX
                  && (var r := ZoomIn(l.table, n.right, k);
                      && Room(l) && Room(r) && Buildable(r.table, level, l.index, r.index)
                      && ZoomIn(t, i, k) == Lookup(r.table, level, l.index, r.index)))
  {
    hide Wf, Lookup;
    SameChildren(t, CONSTANT_LEVEL + 2 * k, i);
    LevelNotNegative(t, i);
    if i >= LEAVES {
      NodeFacts(t, i);
      var n := t[i - LEAVES];
      var l := ZoomIn(t, n.left, k);
      StillThere(t, l, Raised(t, n.left, k), n.right);
      var r := ZoomIn(l.table, n.right, k);
      var level := n.level + 2 * k;
      JoinParts(t, level, l, Raised(t, n.left, k), r, Raised(l.table, n.right, k));
    }
  }

  lemma ZoomOutParts(t: Table, i: int, k: nat)
    requires Wf(t) && IsIndex(t, i) && (i >= LEAVES ==> Room(ZoomOut(t, i, k)))
    ensures i < LEAVES ==> ZoomOut(t, i, k) == Built(t, if i == 0 then 0 else 255)
    ensures forall level, v :: Lookup(t, level, v, v) == Built(t, v)
    ensures i >= LEAVES && t[i - LEAVES].level <= 2 * k ==> ZoomOut(t, i, k) == Built(t, 255)
    ensures i >= LEAVES && t[i - LEAVES].level > 2 * k ==>
              var n, level := t[i - LEAVES], Level(t, i) - 2 * k;
              && IsIndex(t, n.left)
              && (var l := ZoomOut(t, n.left, k);
                  && Wf(l.table) && IsIndex(l.table, n.right) && t <= l.table
                  && (var r := ZoomOut(l.table, n.right, k);
                      && Room(l) && Room(r) && Buildable(r.table, level, l.index, r.index)
                      && ZoomOut(t, i, k) == Lookup(r.table, level, l.index, r.index)))
  {
    SameChildrenAlways(t);
    hide Wf, Lookup;
    if i >= LEAVES && t[i - LEAVES].level > 2 * k {
      NodeFacts(t, i);
      var n := t[i - LEAVES];
      var l := ZoomOut(t, n.left, k);
      StillThere(t, l, Lowered(t, n.left, k), n.right);
      var r := ZoomOut(l.table, n.right, k);
      var level := n.level - 2 * k;
      BelowLowered(t, n.left, n.level, k);
      BelowLowered(l.table, n.right, n.level, k);
      JoinParts(t, level, l, Lowered(t, n.left, k), r, Lowered(l.table, n.right, k));
    }
  }

  lemma SameChildrenAlways(t: Table)
    ensures forall level, v :: Lookup(t, level, v, v) == Built(t, v)
  {
  }

  /** A quarter turn by indices, in one table. */
  function Turned(t: Table, topLeft: int, topRight: int, botLeft: int, botRight: int, d: nat): Built {
    var top := Lookup(t, 2 * d - 1, topRight, botRight);
    var bottom := Lookup(top.table, 2 * d - 1, topLeft, botLeft);
    Lookup(bottom.table, 2 * d, top.index, bottom.index)
  }

  predicate Turnable(t: Table, topLeft: int, topRight: int, botLeft: int, botRight: int, d: nat) {
    var top := Lookup(t, 2 * d - 1, topRight, botRight);
    var bottom := Lookup(top.table, 2 * d - 1, topLeft, botLeft);
    && Buildable(t, 2 * d - 1, topRight, botRight) && Room(top)
    && Buildable(top.table, 2 * d - 1, topLeft, botLeft) && Room(bottom)
    && Buildable(bottom.table, 2 * d, top.index, bottom.index) &&
       Room(Turned(t, topLeft, topRight, botLeft, botRight, d))
  }

  lemma QuarterTurnParts(t: Table, topLeft: Built, topRight: Built, botLeft: Built, botRight: Built, d: nat)
    requires 1 <= d && 2 * d <= LEVELS_MAX && Chain(t, topLeft, topRight, botLeft, botRight, 2 * d - 2)
    requires Room(QuarterTurn(topLeft, topRight, botLeft, botRight, d))
    ensures Room(topLeft) && Room(topRight) && Room(botLeft) && Room(botRight)
    ensures Turnable(botRight.table, topLeft.index, topRight.index, botLeft.index, botRight.index, d)
    ensures QuarterTurn(topLeft, topRight, botLeft, botRight, d) ==
            Turned(botRight.table, topLeft.index, topRight.index, botLeft.index, botRight.index, d)
  {
    hide Wf, Lookup, Level;
    QuarterTurnSteps(t, topLeft, topRight, botLeft, botRight, d);
    var top := Join(2 * d - 1, topRight, botRight);
    var bottom := Join(2 * d - 1, topLeft, Built(top.table, botLeft.index));
    JoinParts(t, 2 * d, top, 2 * d - 1, bottom, 2 * d - 1);
    JoinParts(t, 2 * d - 1, topLeft, 2 * d - 2, Built(top.table, botLeft.index), 2 * d - 2);
    JoinParts(topLeft.table, 2 * d - 1, topRight, 2 * d - 2, botRight, 2 * d - 2);
  }

  lemma RotatedParts(t: Table, root: int, r: nat, c: nat, d: nat)
    requires Wf(t) && LEAVES <= root < LEAVES + |t| && 2 * d <= LEVELS_MAX && Room(Rotated(t, root, r, c, d))
    ensures d == 0 ==> Pow2(d) == 1 && Rotated(t, root, r, c, d) == Built(t, Pixel(t, root, r, c))
    ensures d > 0 ==> Pow2(d) == 2 * Pow2(d - 1) && Pow2(d - 1) >= 1
    ensures d > 0 ==>
              var h, topLeft := Pow2(d - 1), Rotated(t, root, r, c, d - 1);
              && Wf(topLeft.table) && t <= topLeft.table
              && (var topRight := Rotated(topLeft.table, root, r, c + h, d - 1);
              && Wf(topRight.table) && t <= topRight.table
              && (var botLeft := Rotated(topRight.table, root, r + h, c, d - 1);
              && Wf(botLeft.table) && t <= botLeft.table
              && (var botRight := Rotated(botLeft.table, root, r + h, c + h, d - 1);
                  && Room(topLeft) && Room(topRight) && Room(botLeft) && Room(botRight)
                  && Turnable(botRight.table, topLeft.index, topRight.index, botLeft.index, botRight.index, d)
                  && Rotated(t, root, r, c, d) ==
                     Turned(botRight.table, topLeft.index, topRight.index, botLeft.index, botRight.index, d))))
  {
    hide Wf, Lookup, Pixel, Level, Join, Turnable, Turned, QuarterTurn, Chain;
    if d > 0 {
      var h, topLeft := Pow2(d - 1), Rotated(t, root, r, c, d - 1);
      ExtendedLevel(topLeft.table, t, root);
      var topRight := Rotated(topLeft.table, root, r, c + h, d - 1);
      ExtendedLevel(topRight.table, topLeft.table, root);
      var botLeft := Rotated(topRight.table, root, r + h, c, d - 1);
      ExtendedLevel(botLeft.table, topRight.table, root);
      var botRight := Rotated(botLeft.table, root, r + h, c + h, d - 1);
      ChainOf(t, topLeft, topRight, botLeft, botRight, 2 * d - 2);
      hide Rotated, Sane;
      assert Rotated(t, root, r, c, d) == QuarterTurn(topLeft, topRight, botLeft, botRight, d) by {
        RotatedIs(t, root, r, c, d);
      }
      QuarterTurnParts(t, topLeft, topRight, botLeft, botRight, d);
    }
  }

  // ---- masks ----

  /** The mask after `n` shifts up from nothing: its only digit is digit `n - 1`. */
  function MaskOf(n: nat): nat { if n == 0 then 0 else Pow2(n - 1) }

  /** The masks that test the digit of level `l`: even levels use the row's, odd ones the column's. */
  function MaskR(l: nat): nat { MaskOf(l / 2) }

  function MaskC(l: nat): nat { MaskOf((l + 1) / 2) }

  ghost predicate Masks(level: int, maskR: int, maskC: int) {
    level >= 0 && maskR == MaskR(level) && maskC == MaskC(level)
  }

  /** The masks after `i` of the alternating shifts up that end on level `level`. */
  ghost predicate MasksUp(level: nat, i: nat, maskR: int, maskC: int) {
    maskR == MaskOf(if level % 2 == 0 then (i + 1) / 2 else i / 2) &&
      maskC == MaskOf(if level % 2 == 0 then i / 2 else (i + 1) / 2)
  }

  lemma MasksUpStart(level: nat)
    ensures MasksUp(level, 0, 0, 0)
  {
  }

  lemma MasksUpStep(level: nat, i: nat, maskR: int, maskC: int)
    requires MasksUp(level, i, maskR, maskC)
    ensures if (level + i) % 2 == 0 then MasksUp(level, i + 1, if maskR == 0 then 1 else maskR * 2, maskC)
            else MasksUp(level, i + 1, maskR, if maskC == 0 then 1 else maskC * 2)
  {
    MaskUp((i + 1) / 2);
    MaskUp(i / 2);
    assert (i + 1 + 1) / 2 == i / 2 + 1;
    assert if i % 2 == 0 then (i + 1) / 2 == i / 2 else (i + 1) / 2 == i / 2 + 1;
    hide MaskOf;
  }

  lemma MaskUp(n: nat)
    ensures MaskOf(n + 1) == if MaskOf(n) == 0 then 1 else MaskOf(n) * 2
  {
  }

  lemma MasksUpEnd(level: nat, maskR: int, maskC: int)
    requires MasksUp(level, level, maskR, maskC)
    ensures Masks(level, maskR, maskC)
  {
    hide MaskOf;
    assert if level % 2 == 0 then (level + 1) / 2 == level / 2 else true;
  }

  /** Going down one level shifts the mask just used. */
  lemma MaskStep(l: nat)
    requires l >= 1
    ensures if l % 2 == 0 then MaskR(l - 1) == MaskR(l) / 2 && MaskC(l - 1) == MaskC(l)
            else MaskC(l - 1) == MaskC(l) / 2 && MaskR(l - 1) == MaskR(l)
  {
    if l % 2 == 0 {
      assert (l - 1) / 2 == l / 2 - 1;
    } else {
      assert (l - 1 + 1) / 2 == (l + 1) / 2 - 1;
    }
  }

  /** One step of reading a pixel, by masking. */
  lemma PixelStep(t: Table, i: int, r: nat, c: nat)
    requires Wf(t) && LEAVES <= i < LEAVES + |t|
    ensures var n := t[i - LEAVES];
            && n.level >= 1 && IsIndex(t, n.left) && IsIndex(t, n.right)
            && (var masked := if n.level % 2 == 0 then And(r, MaskR(n.level)) else And(c, MaskC(n.level));
                Pixel(t, i, r, c) == if masked == 0 then Pixel(t, n.left, r, c) else Pixel(t, n.right, r, c))
    ensures forall v :: 0 <= v < LEAVES ==> Pixel(t, v, r, c) == v
  {
    hide Wf, MaskR, MaskC, And, LevelBit, Bit;
    NodeFacts(t, i);
    var n := t[i - LEAVES];
    LevelBitIs(n.level, r, c);
    MaskedBit(n.level, r, c);
  }

  /** The mask of a level picks out the digit the level tests. */
  lemma MaskedBit(l: int, r: nat, c: nat)
    requires l >= 1
    ensures (if l % 2 == 0 then And(r, MaskR(l)) else And(c, MaskC(l))) == 0 <==> !LevelBit(l, r, c)
  {
    if l % 2 == 0 {
      AndPow2(r, l / 2 - 1);
    } else {
      AndPow2(c, l / 2);
      assert (l + 1) / 2 - 1 == l / 2;
    }
  }

  lemma LevelZero(t: Table, i: int)
    requires Wf(t) && IsIndex(t, i)
    ensures Level(t, i) <= 0 ==> i < LEAVES
  {
    LevelNotNegative(t, i);
  }

  lemma RowFits(w: nat, h: nat, r: nat)
    requires r < h
    ensures w * r + w == w * (r + 1) <= w * h
  {
    assert w * (r + 1) <= w * h;
  }

  lemma ToRasterLength(t: Table, i: int, w: nat, h: nat)
    requires Wf(t) && IsIndex(t, i)
    ensures |ToRaster(t, i, w, h)| == w * h
  {
  }

  lemma ToRasterAt(t: Table, i: int, w: nat, h: nat, r: nat, c: nat)
    requires Wf(t) && IsIndex(t, i) && r < h && c < w
    ensures w * r + c < w * h && ToRaster(t, i, w, h)[w * r + c] == Pixel(t, i, r, c)
  {
    CellIndex(w, h, r, c);
    QuotientIs(w * r + c, w, r, c);
  }

  /** Both halves fit, and may be looked up together. */
  lemma JoinParts(t: Table, level: int, l: Built, m: int, r: Built, n: int)
    requires Sane(t, l, m) && Sane(l.table, r, n) && m < level && n < level && 1 <= level <= LEVELS_MAX
    requires Room(Join(level, l, r))
    ensures Room(l) && Room(r) && Buildable(r.table, level, l.index, r.index)
    ensures Join(level, l, r) == Lookup(r.table, level, l.index, r.index)
  {
    JoinSane(t, level, l, r);
  }

  lemma SquareParts(t: Table, ras: Raster, row: nat, col: nat, d: nat)
    requires Wf(t) && ras.Valid() && 2 * d <= LEVELS_MAX && Room(SquareOf(t, ras, row, col, d))
    ensures d == 0 ==> Pow2(d) == 1 && SquareOf(t, ras, row, col, d) == Built(t, ras.Cell(row, col))
    ensures d > 0 ==> Pow2(d) == 2 * Pow2(d - 1) && Pow2(d - 1) >= 1
    ensures d > 0 ==>
              var top := FlatOf(t, ras, row, col, d);
              && Wf(top.table)
              && (var bottom := FlatOf(top.table, ras, row + Pow2(d - 1), col, d);
                  && Room(top) && Room(bottom) && Buildable(bottom.table, 2 * d, top.index, bottom.index)
                  && SquareOf(t, ras, row, col, d) == Lookup(bottom.table, 2 * d, top.index, bottom.index))
  {
    hide Wf, Lookup;
    if d > 0 {
      var top := FlatOf(t, ras, row, col, d);
      var bottom := FlatOf(top.table, ras, row + Pow2(d - 1), col, d);
      JoinParts(t, 2 * d, top, 2 * d - 1, bottom, 2 * d - 1);
    }
  }

  lemma FlatParts(t: Table, ras: Raster, row: nat, col: nat, d: nat)
    requires Wf(t) && ras.Valid() && 1 <= d && 2 * d <= LEVELS_MAX && Room(FlatOf(t, ras, row, col, d))
    ensures Pow2(d) == 2 * Pow2(d - 1)
    ensures var left := SquareOf(t, ras, row, col, d - 1);
            && Wf(left.table)
            && (var right := SquareOf(left.table, ras, row, col + Pow2(d - 1), d - 1);
                && Room(left) && Room(right) && Buildable(right.table, 2 * d - 1, left.index, right.index)
                && FlatOf(t, ras, row, col, d) == Lookup(right.table, 2 * d - 1, left.index, right.index))
  {
    hide Wf, Lookup;
    var left := SquareOf(t, ras, row, col, d - 1);
    var right := SquareOf(left.table, ras, row, col + Pow2(d - 1), d - 1);
    JoinParts(t, 2 * d - 1, left, 2 * d - 2, right, 2 * d - 2);
  }
}
