/**
 * The bytes of serialized diagrams, as hw1/include/bdd.h describes them: what is written for each node, and
 * what is read from each instruction (hw1/src/bdd.c).
 */
module BddFormat {
  import opened Powers
  import opened BddTable
  import opened BddImage
  import opened BddSerial

  /** The four bytes from `o` on, lowest first, make up `n`. */
  predicate Holds4(bytes: seq<int>, o: nat, n: int) {
    && o + 4 <= |bytes| && (forall k :: o <= k < o + 4 ==> 0 <= bytes[k] <= 255)
    && n == bytes[o] + 256 * bytes[o + 1] + 65536 * bytes[o + 2] + 16777216 * bytes[o + 3]
  }

  // ---- writing ----

  /** The instruction of node `x` fills the bytes from `o` to `p`. */
  predicate Lies(t: Table, w: Writer, x: int, o: nat, p: nat) {
    && IsIndex(t, x) && p <= |w.bytes|
    && (if x < 256 then
          p == o + 2 && w.bytes[o] == 64 && w.bytes[o + 1] == x
        else
          var n := t[x - 256];
          && p == o + 9 && w.bytes[o] == 64 + n.level
          && n.left in w.serials && Holds4(w.bytes, o + 1, w.serials[n.left])
          && n.right in w.serials && Holds4(w.bytes, o + 5, w.serials[n.right]))
  }

  /** The instruction with serial number `k` starts at `starts[k - 1]` and ends where the next one starts. */
  ghost predicate Layout(t: Table, w: Writer, starts: seq<nat>) {
    && |starts| == w.next && w.next >= 1 && starts[0] == 0 && starts[w.next - 1] == |w.bytes|
    && (forall x :: x in w.serials ==>
       1 <= w.serials[x] < w.next && Lies(t, w, x, starts[w.serials[x] - 1], starts[w.serials[x]]))
  }

  lemma LiesLater(t: Table, w: Writer, v: Writer, x: int, o: nat, p: nat)
    requires Lies(t, w, x, o, p) && w.bytes <= v.bytes
    requires forall y :: y in w.serials ==> y in v.serials && v.serials[y] == w.serials[y]
    ensures Lies(t, v, x, o, p)
  {
  }

  /** One instruction more, after all others. */
  lemma LayoutGrows(t: Table, w: Writer, starts: seq<nat>, i: int, v: Writer)
    requires Layout(t, w, starts) && i !in w.serials && w.bytes <= v.bytes
    requires v.serials == w.serials[i := w.next] && v.next == w.next + 1
    requires Lies(t, v, i, |w.bytes|, |v.bytes|)
    ensures Layout(t, v, starts + [|v.bytes|])
  {
    hide Lies;
    var more := starts + [|v.bytes|];
    forall x | x in v.serials
      ensures 1 <= v.serials[x] < v.next && Lies(t, v, x, more[v.serials[x] - 1], more[v.serials[x]])
    {
      if x != i { LiesLater(t, w, v, x, starts[w.serials[x] - 1], starts[w.serials[x]]); }
    }
  }

  lemma Le32Holds(before: seq<int>, n: int, after: seq<int>)
    requires 0 <= n < 0x1_0000_0000
    ensures Holds4(before + Le32(n) + after, |before|, n)
  {
    FourBytesOfLe32(n);
    var b := before + Le32(n) + after;
    assert forall k :: 0 <= k < 4 ==> b[|before| + k] == Le32(n)[k];
    hide Le32;
  }

  lemma InstructionLies(t: Table, w: Writer, i: int)
    requires Wf(t) && 256 <= i < 256 + |t| && i !in w.serials
    requires t[i - 256].left in w.serials && 0 <= w.serials[t[i - 256].left] < 0x1_0000_0000 && t[i - 256].left != i
    requires t[i - 256].right in w.serials && 0 <= w.serials[t[i - 256].right] < 0x1_0000_0000 && t[i - 256].right != i
    ensures var v := Written(i, t[i - 256], w);
            Lies(t, v, i, |w.bytes|, |v.bytes|) && w.bytes <= v.bytes && v.serials == w.serials[i := w.next] &&
              v.next == w.next + 1
  {
    hide Wf, Holds4, Le32;
    var n, v := t[i - 256], Written(i, t[i - 256], w);
    var left, right := w.serials[n.left], w.serials[n.right];
    var first := w.bytes + [AT_SIGN + n.level];
    assert v.bytes == first + Le32(left) + Le32(right);
    Le32Holds(first, left, Le32(right));
    assert v.bytes == (first + Le32(left)) + Le32(right) + [];
    Le32Holds(first + Le32(left), right, []);
  }

  /** Serializing keeps the layout. */
  lemma {:induction false} EmitLayout(t: Table, i: int, w: Writer, starts: seq<nat>) returns (after: seq<nat>)
    requires Wf(t) && IsIndex(t, i) && LEAVES + |t| <= NODES_MAX && WriterOk(t, w) && Layout(t, w, starts)
    ensures Layout(t, Emit(t, i, w), after)
    decreases i
  {
    hide Wf, WriterOk, Layout, Lies, Written;
    EmitParts(t, i, w);
    if i in w.serials {
      after := starts;
    } else if i < LEAVES {
      var v := Emit(t, i, w);
      LeafLies(t, w, i);
      LayoutGrows(t, w, starts, i, v);
      after := starts + [|v.bytes|];
    } else {
      NodeFacts(t, i);
      var n := t[i - LEAVES];
      var a := Emit(t, n.left, w);
      EmitWrites(t, n.left, w);
      EmitWrites(t, n.right, a);
      var first := EmitLayout(t, n.left, w, starts);
      var second := EmitLayout(t, n.right, a, first);
      var b := Emit(t, n.right, a);
      SerialsSmall(t, b, i, n.left);
      SerialsSmall(t, b, i, n.right);
      InstructionLies(t, b, i);
      LayoutGrows(t, b, second, i, Written(i, n, b));
      after := second + [|Written(i, n, b).bytes|];
    }
  }

  lemma LeafLies(t: Table, w: Writer, i: int)
    requires Wf(t) && 0 <= i < LEAVES && i !in w.serials
    ensures var v := Emit(t, i, w);
            Lies(t, v, i, |w.bytes|, |v.bytes|) && w.bytes <= v.bytes && v.serials == w.serials[i := w.next] &&
              v.next == w.next + 1
  {
    hide Wf;
  }

  lemma SerialsSmall(t: Table, w: Writer, i: int, x: int)
    requires WriterOk(t, w) && IsIndex(t, i) && i !in w.serials && x in w.serials && LEAVES + |t| <= NODES_MAX
    ensures 1 <= w.serials[x] < 0x1_0000_0000
  {
    FewSerials(t, w, i);
  }

  /**
   * The code of a diagram consists of one instruction for every node that can be reached, one after the other by
   * serial number, the root's last. For a leaf these are the bytes 64 and the leaf's value, for a node of level l
   * the byte 64 + l, four bytes with the serial number of its left child and four with that of its right child.
   */
  lemma CodeLayout(t: Table, i: int) returns (starts: seq<nat>)
    requires Wf(t) && IsIndex(t, i) && LEAVES + |t| <= NODES_MAX
    ensures var w := Emit(t, i, START);
            && w.bytes == Code(t, i) && w.serials.Keys == Reach(t, i) && Layout(t, w, starts)
            && i in w.serials && w.serials[i] == w.next - 1 == |Reach(t, i)|
  {
    hide Wf, Layout, Emit;
    NothingLaidOut(t);
    OneInstructionEach(t, i);
    RootIsLast(t, i);
    starts := EmitLayout(t, i, START, [0]);
  }

  lemma NothingLaidOut(t: Table)
    ensures WriterOk(t, START) && Layout(t, START, [0])
  {
  }

  // ---- reading ----

  /** The first instruction of a leaf gives that leaf. */
  lemma ReadLeaf(t: Table, ids: seq<int>, bytes: seq<int>)
    requires |bytes| >= 2 && bytes[0] == 64 && |ids| + 1 < NODES_MAX
    ensures Replay(t, ids, bytes) == Replay(t, ids + [bytes[1]], bytes[2..])
  {
  }

  /**
   * An instruction of a node on level l that names serial numbers a and c already given out, of nodes below that
   * level: reading goes on with a node that shows what node a shows wherever digit l - 1 of the position is 0, and
   * what node c shows elsewhere. So row digits on even levels and column digits on odd ones choose the child.
   */
  lemma ReadNodeShows(t: Table, ids: seq<int>, bytes: seq<int>, level: int, a: int, c: int) returns (u: Table, x: int)
    requires Wf(t) && |bytes| >= 9 && 1 <= level <= 32 && bytes[0] == 64 + level && |ids| + 1 < NODES_MAX
    requires Holds4(bytes, 1, a) && Holds4(bytes, 5, c) && 1 <= a <= |ids| && 1 <= c <= |ids|
    requires IsIndex(t, ids[a - 1]) && IsIndex(t, ids[c - 1]) && Level(t, ids[a - 1]) < level
    requires Level(t, ids[c - 1]) < level
    ensures Replay(t, ids, bytes) == Replay(u, ids + [x], bytes[9..]) && Extends(u, t) && IsIndex(u, x)
    ensures forall p: nat :: Val(u, x, p) == if Bit(p, level - 1) then Val(t, ids[c - 1], p) else Val(t, ids[a - 1], p)
  {
    hide Wf, Bit, Lookup;
    assert FourBytes(bytes[1..5]) == a && FourBytes(bytes[5..9]) == c;
    assert HeadOf(ids, bytes) == Inner(level, ids[a - 1], ids[c - 1]);
    hide HeadOf;
    var b := Lookup(t, level, ids[a - 1], ids[c - 1]);
    u, x := b.table, b.index;
    LookupWf(t, level, ids[a - 1], ids[c - 1]);
    forall p: nat
      ensures Val(u, x, p) == if Bit(p, level - 1) then Val(t, ids[c - 1], p) else Val(t, ids[a - 1], p)
    {
      LookupVal(t, level, ids[a - 1], ids[c - 1], p);
    }
  }

  /** Leaves 0 and 255, and a node of level 1 with 0 on its left and 255 on its right. */
  lemma SmallStream()
    ensures Replay([], [], [64, 0, 64, 255, 65, 1, 0, 0, 0, 2, 0, 0, 0]) == Accepted([Node(1, 0, 255)], [0, 255, 256])
    ensures Wf([Node(1, 0, 255)]) && Code([Node(1, 0, 255)], 256) == [64, 0, 64, 255, 65, 1, 0, 0, 0, 2, 0, 0, 0]
  {
    SmallRead();
    OneNodeWf();
    SmallWritten();
    hide Replay, Wf, Code;
  }

  lemma SmallRead()
    ensures Replay([], [], [64, 0, 64, 255, 65, 1, 0, 0, 0, 2, 0, 0, 0]) == Accepted([Node(1, 0, 255)], [0, 255, 256])
  {
    var last := [65, 1, 0, 0, 0, 2, 0, 0, 0];
    var bytes := [64, 0, 64, 255, 65, 1, 0, 0, 0, 2, 0, 0, 0];
    LastRead();
    hide Replay;
    ReadLeaf([], [], bytes);
    assert bytes[2..] == [64, 255] + last && [] + [0] == [0];
    ReadLeaf([], [0], [64, 255] + last);
    assert ([64, 255] + last)[2..] == last && [0] + [255] == [0, 255];
  }

  lemma LastRead()
    ensures Replay([], [0, 255], [65, 1, 0, 0, 0, 2, 0, 0, 0]) == Accepted([Node(1, 0, 255)], [0, 255, 256])
  {
    var last := [65, 1, 0, 0, 0, 2, 0, 0, 0];
    var left, right := last[1..5], last[5..9];
    assert left == [1, 0, 0, 0] && right == [2, 0, 0, 0];
    assert HeadOf([0, 255], last) == Inner(1, 0, 255);
    hide HeadOf;
    assert [] + [Node(1, 0, 255)] == [Node(1, 0, 255)] && [0, 255] + [256] == [0, 255, 256] && last[9..] == [];
    assert Lookup([], 1, 0, 255) == Built([Node(1, 0, 255)], 256);
    assert Replay([Node(1, 0, 255)], [0, 255, 256], []) == Accepted([Node(1, 0, 255)], [0, 255, 256]);
  }

  lemma OneNodeWf()
    ensures Wf([Node(1, 0, 255)])
  {
  }

  lemma SmallWritten()
    requires Wf([Node(1, 0, 255)])
    ensures Code([Node(1, 0, 255)], 256) == [64, 0, 64, 255, 65, 1, 0, 0, 0, 2, 0, 0, 0]
  {
    var t := [Node(1, 0, 255)];
    hide Wf, Emit;
    EmitParts(t, 256, START);
    EmitParts(t, 0, START);
    var a := Emit(t, 0, START);
    assert a == Writer(map[0 := 1], [64, 0], 2);
    EmitParts(t, 255, a);
    var b := Emit(t, 255, a);
    assert b == Writer(map[0 := 1, 255 := 2], [64, 0, 64, 255], 3);
    hide Code;
    assert Emit(t, 256, START) == Written(256, t[0], b);
  }
}
