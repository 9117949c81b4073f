/**
 * The byte code of a diagram: one instruction for every node that can be reached, children first, and
 * replaying such code in any table (hw1/src/bdd.c, hw1/src/helpingFunctions.c).
 */
module BddSerial {
  import opened Counting
  import opened Powers
  import opened BddTable
  import opened BddImage
  import opened BddTransforms

  const AT_SIGN := 64

  // ---- serial numbers as bytes ----

  /** The four bytes of a number, lowest first. */
  function Le32(n: int): (b: seq<int>)
    ensures |b| == 4
  {
    [n % 256, n / 256 % 256, n / 0x1_0000 % 256, n / 0x100_0000 % 256]
  }

  /** fourByteIntoInteger */
  function FourBytes(b: seq<int>): int
    requires |b| >= 4
  {
    b[0] + 256 * b[1] + 0x1_0000 * b[2] + 0x100_0000 * b[3]
  }

  /** Reading four bytes undoes writing them. */
  lemma FourBytesOfLe32(n: int)
    requires 0 <= n < 0x1_0000_0000
    ensures FourBytes(Le32(n)) == n
    ensures forall k :: 0 <= k < 4 ==> 0 <= Le32(n)[k] < 256
  {
    var a, b, c := n / 256, n / 0x1_0000, n / 0x100_0000;
    assert n == 256 * a + n % 256;
    assert a / 256 == b && a == 256 * b + a % 256;
    assert b / 256 == c && b == 256 * c + b % 256;
    assert c % 256 == c;
  }

  lemma {:induction false} DigitsAre(n: int, b0: int, b1: int, b2: int, b3: int)
    requires 0 <= b0 < 256 && 0 <= b1 < 256 && 0 <= b2 < 256 && 0 <= b3 < 256
    requires n == b0 + 256 * b1 + 0x1_0000 * b2 + 0x100_0000 * b3
    ensures Le32(n) == [b0, b1, b2, b3]
  {
    var a, b := b1 + 256 * b2 + 0x1_0000 * b3, b2 + 256 * b3;
    QuotientIs(n, 256, a, b0);
    QuotientIs(n, 0x1_0000, b, b0 + 256 * b1);
    QuotientIs(n, 0x100_0000, b3, b0 + 256 * b1 + 0x1_0000 * b2);
    QuotientIs(a, 256, b, b1);
    QuotientIs(b, 256, b3, b2);
    QuotientIs(b3, 256, 0, b3);
  }

  /** printSerialNumberChild: the bytes are counted up from zero. */
  method CountBytes(serial: int) returns (bytes: seq<int>)
    requires 0 <= serial < 0x1_0000_0000
    ensures bytes == Le32(serial)
  {
    var first, second, third, fourth := 0, 0, 0, 0;
    for i := 0 to serial
      invariant 0 <= first < 256 && 0 <= second < 256 && 0 <= third < 256 && 0 <= fourth
      invariant i == first + 256 * second + 0x1_0000 * third + 0x100_0000 * fourth
    {
      first := first + 1;
      if first > 255 {
        second := second + 1;
        first := 0;
      }
      if second > 255 {
        third := third + 1;
        second := 0;
      }
      if third > 255 {
        fourth := fourth + 1;
        third := 0;
      }
    }
    DigitsAre(serial, first, second, third, fourth);
    return [first, second, third, fourth];
  }

  // ---- bdd_serialize ----

  /** Serial numbers given out so far, the bytes written, and the next serial number. */
  datatype Writer = Writer(serials: map<int, int>, bytes: seq<int>, next: int)

  const START := Writer(map[], [], 1)

  /** The post-order traversal: nothing for a node that has its serial, else its children, then its instruction. */
  function Emit(t: Table, i: int, s: Writer): (r: Writer)
    requires Wf(t) && IsIndex(t, i)
    ensures i in r.serials && forall j :: j in s.serials ==> j in r.serials && r.serials[j] == s.serials[j]
    ensures forall j :: j in r.serials ==> j in s.serials || j <= i
    decreases i
  {
    if i in s.serials then s
    else if i < LEAVES then Writer(s.serials[i := s.next], s.bytes + [AT_SIGN, i], s.next + 1)
    else
      NodeFacts(t, i);
      var n := t[i - LEAVES];
      var a := Emit(t, n.left, s);
      var b := Emit(t, n.right, a);
      Written(i, n, b)
  }

  /** The instruction of a node whose children have been written. */
  function Written(i: int, n: Node, s: Writer): Writer
    requires n.left in s.serials && n.right in s.serials
  {
    Writer(s.serials[i := s.next], s.bytes + Instruction(n.level, s.serials[n.left], s.serials[n.right]), s.next + 1)
  }

  function Instruction(level: int, left: int, right: int): seq<int> { [AT_SIGN + level] + Le32(left) + Le32(right) }

  /** The nodes that can be reached from `i`. */
  function Reach(t: Table, i: int): set<int>
    requires Wf(t) && IsIndex(t, i)
    decreases i
  {
    if i < LEAVES then {i} else
      NodeFacts(t, i);
      {i} + Reach(t, t[i - LEAVES].left) + Reach(t, t[i - LEAVES].right)
  }

  ghost predicate ChildrenFirst(t: Table, serials: map<int, int>, i: int)
    requires i in serials
  {
    IsIndex(t, i) && (i >= LEAVES ==>
      var n := t[i - LEAVES];
      n.left in serials && serials[n.left] < serials[i] && n.right in serials && serials[n.right] < serials[i])
  }

  /** Serial numbers are given out once, in order from 1, and children have smaller ones than their parents. */
  ghost predicate WriterOk(t: Table, s: Writer) {
    && s.next == |s.serials| + 1
    && (forall i :: i in s.serials ==> 1 <= s.serials[i] < s.next && ChildrenFirst(t, s.serials, i))
    && (forall i, j :: i in s.serials && j in s.serials && i != j ==> s.serials[i] != s.serials[j])
  }

  /** What has its serial has been written with everything below it. */
  lemma {:induction false} WrittenBelow(t: Table, s: Writer, i: int)
    requires Wf(t) && WriterOk(t, s) && i in s.serials && IsIndex(t, i)
    ensures Reach(t, i) <= s.serials.Keys
    decreases i
  {
    hide Wf;
    assert ChildrenFirst(t, s.serials, i);
    if i >= LEAVES {
      NodeFacts(t, i);
      WrittenBelow(t, s, t[i - LEAVES].left);
      WrittenBelow(t, s, t[i - LEAVES].right);
    }
  }

  /** Giving the next serial to a node whose children have theirs. */
  lemma WriterGrows(t: Table, s: Writer, i: int, bytes: seq<int>)
    requires WriterOk(t, s) && i !in s.serials && IsIndex(t, i)
    requires i >= LEAVES ==> t[i - LEAVES].left in s.serials && t[i - LEAVES].right in s.serials
    requires i >= LEAVES ==> t[i - LEAVES].left != i && t[i - LEAVES].right != i
    ensures WriterOk(t, Writer(s.serials[i := s.next], bytes, s.next + 1))
  {
    var r := s.serials[i := s.next];
    assert r.Keys == s.serials.Keys + {i};
    forall j | j in r
      ensures 1 <= r[j] < s.next + 1 && ChildrenFirst(t, r, j)
    {
      if j != i { assert ChildrenFirst(t, s.serials, j); }
    }
  }

  /** One step of the serializer, as its branches see it. */
  lemma EmitParts(t: Table, i: int, s: Writer)
    requires Wf(t) && IsIndex(t, i)
    ensures i in s.serials ==> Emit(t, i, s) == s
    ensures i !in s.serials && i < LEAVES ==>
            Emit(t, i, s) == Writer(s.serials[i := s.next], s.bytes + [AT_SIGN, i], s.next + 1)
    ensures i !in s.serials && i >= LEAVES ==>
              var n := t[i - LEAVES];
              && IsIndex(t, n.left) && IsIndex(t, n.right)
              && (var b := Emit(t, n.right, Emit(t, n.left, s));
                  n.left in b.serials && n.right in b.serials && i !in b.serials && Emit(t, i, s) == Written(i, n, b))
  {
    hide Wf, Written;
    if i >= LEAVES { NodeFacts(t, i); }
  }

  lemma ReachParts(t: Table, i: int)
    requires Wf(t) && IsIndex(t, i)
    ensures i < LEAVES ==> Reach(t, i) == {i}
    ensures i >= LEAVES ==>
              var n := t[i - LEAVES];
              IsIndex(t, n.left) && IsIndex(t, n.right) && n.left < i && n.right < i &&
                Reach(t, i) == {i} + Reach(t, n.left) + Reach(t, n.right)
  {
    hide Wf;
    if i >= LEAVES { NodeFacts(t, i); }
  }

  /** Serializing writes every node that can be reached exactly once, and nothing else. */
  lemma {:induction false} EmitWrites(t: Table, i: int, s: Writer)
    requires Wf(t) && IsIndex(t, i) && WriterOk(t, s)
    ensures var r := Emit(t, i, s); WriterOk(t, r) && r.serials.Keys == s.serials.Keys + Reach(t, i)
    decreases i
  {
    hide Wf, WriterOk, Emit, Reach, Instruction, Fits;
    EmitParts(t, i, s);
    ReachParts(t, i);
    if i in s.serials {
      WrittenBelow(t, s, i);
    } else if i < LEAVES {
      WriterGrows(t, s, i, s.bytes + [AT_SIGN, i]);
    } else {
      var n := t[i - LEAVES];
      var b := Emit(t, n.right, Emit(t, n.left, s));
      EmitWrites(t, n.left, s);
      EmitWrites(t, n.right, Emit(t, n.left, s));
      WriterGrows(t, b, i, b.bytes + Instruction(n.level, b.serials[n.left], b.serials[n.right]));
      assert Written(i, n, b).serials.Keys == b.serials.Keys + {i};
    }
  }

  /** The code of a diagram; a leaf stands for a constant image. */
  function Code(t: Table, i: int): seq<int>
    requires Wf(t) && IsIndex(t, i)
  {
    Emit(t, i, START).bytes
  }

  // ---- bdd_deserialize ----

  /**
   * What reading a stream comes to. Undefined marks streams that make the source leave its index map: a
   * serial number beyond it, or more instructions than it holds.
   */
  datatype Replayed = Accepted(table: Table, ids: seq<int>) | Rejected(table: Table) | Undefined

  /** The index recorded for a serial number; numbers not given out yet read as 0. */
  function Recorded(ids: seq<int>, serial: int): int { if 1 <= serial <= |ids| then ids[serial - 1] else 0 }

  /** An instruction at the head of a stream, with the children's serial numbers resolved. */
  datatype Head = Leaf(value: int) | Inner(level: int, left: int, right: int) | Bad | Wild

  /** The end of the stream reads as -1, and the source takes that for the value of a leaf. */
  function HeadOf(ids: seq<int>, bytes: seq<int>): (h: Head)
    requires bytes != []
    ensures h.Inner? ==> |bytes| >= 9 && bytes[0] != AT_SIGN
  {
    if bytes[0] == AT_SIGN then Leaf(if |bytes| == 1 then -1 else bytes[1])
    else if AT_SIGN < bytes[0] <= AT_SIGN + LEVELS_MAX then
      if |bytes| < 5 then Bad
      else if !(0 <= FourBytes(bytes[1..5]) < NODES_MAX) then Wild
      else if |bytes| < 9 then Bad
      else if !(0 <= FourBytes(bytes[5..9]) < NODES_MAX) then Wild
      else Inner(bytes[0] - AT_SIGN, Recorded(ids, FourBytes(bytes[1..5])), Recorded(ids, FourBytes(bytes[5..9])))
    else Bad
  }

  /** Reading goes on with the nodes built so far, the index of the node with serial `k` at `k - 1`. */
  function Replay(t: Table, ids: seq<int>, bytes: seq<int>): (r: Replayed)
    ensures !r.Undefined? ==> t <= r.table
    decreases |bytes|
  {
    if bytes == [] then Accepted(t, ids)
    else if |ids| + 1 >= NODES_MAX then Undefined
    else match HeadOf(ids, bytes)
      case Bad => Rejected(t)
      case Wild => Undefined
      case Leaf(v) => Replay(t, ids + [v], if |bytes| == 1 then [] else bytes[2..])
      case Inner(level, left, right) =>
        var b := Lookup(t, level, left, right);
        Replay(b.table, ids + [b.index], bytes[9..])
  }

  /** No leaf was cut off by the end of the stream. */
  ghost predicate AllGiven(ids: seq<int>) { forall k :: 0 <= k < |ids| ==> ids[k] >= 0 }

  lemma CutOff(ids: seq<int>)
    ensures !AllGiven(ids + [-1])
  {
    assert (ids + [-1])[|ids|] == -1;
  }

  lemma HeadAppend(ids: seq<int>, a: seq<int>, b: seq<int>)
    requires a != [] && !HeadOf(ids, a).Bad? && !HeadOf(ids, a).Wild? && (a[0] == AT_SIGN ==> |a| > 1)
    ensures HeadOf(ids, a + b) == HeadOf(ids, a)
  {
    hide FourBytes, Recorded;
    if a[0] != AT_SIGN { assert (a + b)[1..5] == a[1..5] && (a + b)[5..9] == a[5..9]; }
  }

  /** Code can be read piece by piece. */
  lemma {:induction false} ReplayAppend(t: Table, ids: seq<int>, a: seq<int>, b: seq<int>)
    requires Replay(t, ids, a).Accepted? && AllGiven(Replay(t, ids, a).ids)
    ensures Replay(t, ids, a + b) == Replay(Replay(t, ids, a).table, Replay(t, ids, a).ids, b)
    decreases |a|
  {
    hide Lookup, AllGiven;
    if a == [] {
      assert a + b == b;
    } else {
      CutOff(ids);
      HeadAppend(ids, a, b);
      var h := HeadOf(ids, a);
      hide HeadOf;
      if h.Leaf? {
        assert (a + b)[2..] == a[2..] + b;
        ReplayAppend(t, ids + [h.value], a[2..], b);
      } else {
        assert (a + b)[9..] == a[9..] + b;
        var n := Lookup(t, h.level, h.left, h.right);
        ReplayAppend(n.table, ids + [n.index], a[9..], b);
      }
    }
  }

  // ---- the round trip ----

  /** Node `j` of `u` denotes what node `i` of `t` denotes, on the same level. */
  ghost predicate SameNode(t: Table, i: int, u: Table, j: int)
    requires Wf(t) && Wf(u)
  {
    && IsIndex(t, i) && IsIndex(u, j) && Level(u, j) == Level(t, i)
    && (forall p: nat :: Val(u, j, p) == Val(t, i, p))
  }

  /** Reading what has been written so far into the table `base` rebuilt every node written. */
  ghost predicate Mirror(t: Table, s: Writer, base: Table, r: Replayed)
    requires Wf(t)
  {
    && r.Accepted? && Extends(r.table, base) && |r.ids| == s.next - 1 && AllGiven(r.ids)
    && (forall i :: i in s.serials ==> 1 <= s.serials[i] < s.next && SameNode(t, i, r.table, r.ids[s.serials[i] - 1]))
    && (Extends(base, t) ==> r.table == base)
  }

  lemma SameNodeLater(t: Table, i: int, u: Table, j: int, v: Table)
    requires Wf(t) && Wf(u) && SameNode(t, i, u, j) && Extends(v, u)
    ensures SameNode(t, i, v, j)
  {
    ExtendedLevel(v, u, j);
    hide Wf;
    forall p: nat
      ensures Val(v, j, p) == Val(t, i, p)
    {
      ExtendedVal(v, u, j, p);
    }
  }

  /** In a table that holds all of `t`, what denotes the same is the same. */
  lemma SameNodeSame(t: Table, i: int, u: Table, j: int)
    requires Wf(t) && Wf(u) && SameNode(t, i, u, j) && Extends(u, t)
    ensures i == j
  {
    ExtendedLevel(u, t, i);
    hide Wf;
    forall p: nat
      ensures Val(u, j, p) == Val(u, i, p)
    {
      ExtendedVal(u, t, i, p);
    }
    SameValues(u, i, j);
  }

  /** Different nodes are rebuilt as different nodes. */
  lemma SameNodeApart(t: Table, i: int, j: int, u: Table, x: int)
    requires Wf(t) && Wf(u) && SameNode(t, i, u, x) && SameNode(t, j, u, x)
    ensures i == j
  {
    hide Wf;
    forall p: nat
      ensures Val(t, i, p) == Val(t, j, p)
    {
      assert Val(u, x, p) == Val(t, i, p);
    }
    SameValues(t, i, j);
  }

  /** Looking up the rebuilt children of a node rebuilds the node. */
  lemma Rebuilt(t: Table, i: int, u: Table, l: int, r: int)
    requires Wf(t) && Wf(u) && LEAVES <= i < LEAVES + |t|
    requires SameNode(t, t[i - LEAVES].left, u, l) && SameNode(t, t[i - LEAVES].right, u, r)
    ensures var n := t[i - LEAVES];
            var b := Lookup(u, n.level, l, r);
            && Buildable(u, n.level, l, r) && Extends(b.table, u) && SameNode(t, i, b.table, b.index)
            && (Extends(u, t) ==> b == Built(u, i))
  {
    var n := t[i - LEAVES];
    NodeFacts(t, i);
    if l == r { SameNodeApart(t, n.left, n.right, u, l); }
    LookupWf(u, n.level, l, r);
    var b := Lookup(u, n.level, l, r);
    forall p: nat
      ensures Val(b.table, b.index, p) == Val(t, i, p)
    {
      LookupVal(u, n.level, l, r, p);
    }
    if Extends(u, t) {
      SameNodeSame(t, n.left, u, l);
      SameNodeSame(t, n.right, u, r);
      LookupAgain(u, i);
    }
  }

  /** One more instruction, read in the table where the code so far has been read. */
  lemma MirrorGrows(t: Table, s: Writer, base: Table, r: Replayed, i: int, u: Table, j: int, bytes: seq<int>)
    requires Wf(t) && Mirror(t, s, base, r) && Extends(u, r.table) && SameNode(t, i, u, j)
    requires Extends(base, t) ==> u == base
    requires i !in s.serials
    ensures Mirror(t, Writer(s.serials[i := s.next], bytes, s.next + 1), base, Accepted(u, r.ids + [j]))
  {
    ExtendsTrans(u, r.table, base);
    hide Wf, SameNode;
    var w := Writer(s.serials[i := s.next], bytes, s.next + 1);
    forall x | x in w.serials
      ensures 1 <= w.serials[x] < w.next && SameNode(t, x, u, (r.ids + [j])[w.serials[x] - 1])
    {
      if x != i { SameNodeLater(t, x, r.table, r.ids[s.serials[x] - 1], u); }
    }
    NotNegative(t, i, u, j);
  }

  lemma NotNegative(t: Table, i: int, u: Table, j: int)
    requires Wf(t) && Wf(u) && SameNode(t, i, u, j)
    ensures j >= 0
  {
  }

  /** Reading one instruction of a node in full. */
  lemma InstructionRead(u: Table, ids: seq<int>, level: int, left: int, right: int)
    requires 1 <= level <= LEVELS_MAX && 0 <= left < NODES_MAX && 0 <= right < NODES_MAX && |ids| + 1 < NODES_MAX
    ensures var b := Lookup(u, level, Recorded(ids, left), Recorded(ids, right));
            Replay(u, ids, Instruction(level, left, right)) == Accepted(b.table, ids + [b.index])
  {
    hide Instruction, HeadOf, Recorded, Lookup;
    InstructionHead(ids, level, left, right);
    var code := Instruction(level, left, right);
    assert code[9..] == [];
    var b := Lookup(u, level, Recorded(ids, left), Recorded(ids, right));
    assert Replay(b.table, ids + [b.index], []) == Accepted(b.table, ids + [b.index]);
  }

  lemma InstructionHead(ids: seq<int>, level: int, left: int, right: int)
    requires 1 <= level <= LEVELS_MAX && 0 <= left < NODES_MAX && 0 <= right < NODES_MAX
    ensures var code := Instruction(level, left, right);
            |code| == 9 && HeadOf(ids, code) == Inner(level, Recorded(ids, left), Recorded(ids, right))
  {
    FourBytesOfLe32(left);
    FourBytesOfLe32(right);
    hide FourBytes, Le32, Recorded;
    var code := Instruction(level, left, right);
    assert code[1..5] == Le32(left) && code[5..9] == Le32(right);
  }

  lemma LeafRead(u: Table, ids: seq<int>, v: int)
    requires |ids| + 1 < NODES_MAX
    ensures Replay(u, ids, [AT_SIGN, v]) == Accepted(u, ids + [v])
  {
    assert [AT_SIGN, v][2..] == [];
  }

  /** A node without a serial leaves room for one more in the index map. */
  lemma FewSerials(t: Table, s: Writer, i: int)
    requires WriterOk(t, s) && IsIndex(t, i) && i !in s.serials
    ensures 1 <= s.next <= LEAVES + |t|
  {
    var all := Below(LEAVES + |t|);
    BelowHas(LEAVES + |t|);
    forall j | j in s.serials
      ensures j in all
    {
      assert ChildrenFirst(t, s.serials, j);
    }
    SubsetSize(s.serials.Keys, all - {i});
    assert |s.serials| == |s.serials.Keys|;
  }

  /** Reading the code of a diagram after that of others rebuilds it. */
  lemma {:induction false} EmitReplayed(t: Table, i: int, s: Writer, base: Table)
    requires Wf(t) && IsIndex(t, i) && LEAVES + |t| < NODES_MAX && Wf(base)
    requires WriterOk(t, s) && Mirror(t, s, base, Replay(base, [], s.bytes))
    ensures var w := Emit(t, i, s); Mirror(t, w, base, Replay(base, [], w.bytes))
    decreases i
  {
    hide Wf, WriterOk, Mirror, Replay, SameNode, Written;
    if i in s.serials {
    } else if i < LEAVES {
      EmitLeafReplayed(t, i, s, base);
    } else {
      NodeFacts(t, i);
      var n := t[i - LEAVES];
      var a := Emit(t, n.left, s);
      EmitWrites(t, n.left, s);
      EmitReplayed(t, n.left, s, base);
      EmitWrites(t, n.right, a);
      EmitReplayed(t, n.right, a, base);
      EmitNodeReplayed(t, i, Emit(t, n.right, a), base);
    }
  }

  lemma EmitLeafReplayed(t: Table, i: int, s: Writer, base: Table)
    requires Wf(t) && 0 <= i < LEAVES && LEAVES + |t| < NODES_MAX && Wf(base) && i !in s.serials
    requires WriterOk(t, s) && Mirror(t, s, base, Replay(base, [], s.bytes))
    ensures var bytes := s.bytes + [AT_SIGN, i];
            Mirror(t, Writer(s.serials[i := s.next], bytes, s.next + 1), base, Replay(base, [], bytes))
  {
    hide Wf, WriterOk, Replay, AllGiven;
    var r := Replay(base, [], s.bytes);
    FewSerials(t, s, i);
    ReplayAppend(base, [], s.bytes, [AT_SIGN, i]);
    LeafRead(r.table, r.ids, i);
    Itself(r.table);
    MirrorGrows(t, s, base, r, i, r.table, i, s.bytes + [AT_SIGN, i]);
  }

  lemma EmitNodeReplayed(t: Table, i: int, s: Writer, base: Table)
    requires Wf(t) && LEAVES <= i < LEAVES + |t| && LEAVES + |t| < NODES_MAX && Wf(base) && i !in s.serials
    requires WriterOk(t, s) && Mirror(t, s, base, Replay(base, [], s.bytes))
    requires t[i - LEAVES].left in s.serials && t[i - LEAVES].right in s.serials
    ensures var w := Written(i, t[i - LEAVES], s); Mirror(t, w, base, Replay(base, [], w.bytes))
  {
    hide Wf, WriterOk, Replay, AllGiven, Instruction, SameNode, Buildable, Lookup;
    var n, r := t[i - LEAVES], Replay(base, [], s.bytes);
    var left, right := s.serials[n.left], s.serials[n.right];
    FewSerials(t, s, i);
    NodeFacts(t, i);
    Rebuilt(t, i, r.table, r.ids[left - 1], r.ids[right - 1]);
    ReplayAppend(base, [], s.bytes, Instruction(n.level, left, right));
    InstructionRead(r.table, r.ids, n.level, left, right);
    var b := Lookup(r.table, n.level, r.ids[left - 1], r.ids[right - 1]);
    MirrorGrows(t, s, base, r, i, b.table, b.index, s.bytes + Instruction(n.level, left, right));
  }

  /**
   * Serializing and reading back is the identity: in a table that holds the diagram's nodes the last
   * node read is the very same one and nothing is added; in any other table it denotes the same image.
   */
  lemma SerializeRoundTrip(t: Table, i: int, base: Table)
    requires Wf(t) && IsIndex(t, i) && LEAVES + |t| < NODES_MAX && Wf(base)
    ensures var r := Replay(base, [], Code(t, i));
            && r.Accepted? && Extends(r.table, base) && r.ids != []
            && SameNode(t, i, r.table, r.ids[|r.ids| - 1])
            && (Extends(base, t) ==> r.table == base && r.ids[|r.ids| - 1] == i)
  {
    hide Wf, SameNode;
    hide Emit, Replay;
    NothingRead(t, base);
    EmitReplayed(t, i, START, base);
    RootIsLast(t, i);
    var r := Replay(base, [], Code(t, i));
    if Extends(base, t) { SameNodeSame(t, i, r.table, r.ids[|r.ids| - 1]); }
  }

  lemma NothingRead(t: Table, base: Table)
    requires Wf(t) && Wf(base)
    ensures Mirror(t, START, base, Replay(base, [], START.bytes)) && WriterOk(t, START)
  {
  }

  lemma RootIsLast(t: Table, i: int)
    requires Wf(t) && IsIndex(t, i)
    ensures var w := Emit(t, i, START); i in w.serials && w.serials[i] == w.next - 1
  {
    hide Wf;
    if i >= LEAVES { NodeFacts(t, i); }
  }

  /** Every node that can be reached is written exactly once, so there are as many instructions as nodes. */
  lemma OneInstructionEach(t: Table, i: int)
    requires Wf(t) && IsIndex(t, i)
    ensures var w := Emit(t, i, START); WriterOk(t, w) && w.serials.Keys == Reach(t, i) && w.next - 1 == |Reach(t, i)|
  {
    hide Wf, Emit;
    EmitWrites(t, i, START);
    var w := Emit(t, i, START);
    assert |w.serials| == |w.serials.Keys|;
  }

  // ---- which streams are accepted ----

  /** Bytes that start an instruction of a node, all nine of them. */
  predicate WholeNode(bytes: seq<int>) { |bytes| >= 9 && AT_SIGN < bytes[0] <= AT_SIGN + LEVELS_MAX }

  function LeftSerial(bytes: seq<int>): int
    requires WholeNode(bytes)
  {
    FourBytes(bytes[1..5])
  }

  function RightSerial(bytes: seq<int>): int
    requires WholeNode(bytes)
  {
    FourBytes(bytes[5..9])
  }

  /** Both children of the instruction have serial numbers from 1 to the last one given out. */
  predicate GivenOut(bytes: seq<int>, given: nat)
    requires WholeNode(bytes)
  {
    1 <= LeftSerial(bytes) <= given && 1 <= RightSerial(bytes) <= given
  }

  /**
   * The format that hw1/include/bdd.h gives, after `given` instructions: whole instructions, and children
   * with serial numbers from 1 up to the last one given out.
   */
  predicate WellFormed(bytes: seq<int>, given: nat)
    decreases |bytes|
  {
    if bytes == [] then true
    else if bytes[0] == AT_SIGN then |bytes| >= 2 && WellFormed(bytes[2..], given + 1)
    else if !WholeNode(bytes) then false
    else GivenOut(bytes, given) && WellFormed(bytes[9..], given + 1)
  }

  /** Whole instructions, but for an at-sign that may stand alone at the end. */
  predicate Tiles(bytes: seq<int>)
    decreases |bytes|
  {
    if bytes == [] then true
    else if bytes[0] == AT_SIGN then |bytes| == 1 || Tiles(bytes[2..])
    else WholeNode(bytes) && Tiles(bytes[9..])
  }

  /** After whole instructions the stream ends with a leaf's opcode. */
  predicate EndsCutOff(bytes: seq<int>)
    decreases |bytes|
  {
    if bytes == [] then false
    else if bytes[0] == AT_SIGN then |bytes| == 1 || EndsCutOff(bytes[2..])
    else WholeNode(bytes) && EndsCutOff(bytes[9..])
  }

  /** After whole instructions one names a child by 0, or by a serial number not given out yet. */
  predicate NamesMissing(bytes: seq<int>, given: nat)
    decreases |bytes|
  {
    if bytes == [] then false
    else if bytes[0] == AT_SIGN then |bytes| >= 2 && NamesMissing(bytes[2..], given + 1)
    else if !WholeNode(bytes) then false
    else !GivenOut(bytes, given) || NamesMissing(bytes[9..], given + 1)
  }

  /** The streams accepted are those made of whole instructions, the last of which may be a lone at-sign. */
  lemma {:induction false} AcceptedIffTiles(t: Table, ids: seq<int>, bytes: seq<int>)
    requires !Replay(t, ids, bytes).Undefined?
    ensures Replay(t, ids, bytes).Accepted? <==> Tiles(bytes)
    decreases |bytes|
  {
    hide Lookup, Recorded, FourBytes;
    if bytes != [] {
      match HeadOf(ids, bytes)
      case Bad =>
      case Leaf(v) => if |bytes| > 1 { AcceptedIffTiles(t, ids + [v], bytes[2..]); }
      case Inner(level, left, right) =>
        var b := Lookup(t, level, left, right);
        AcceptedIffTiles(b.table, ids + [b.index], bytes[9..]);
    }
  }

  /** Of those, the ones not in the documented format end with a lone at-sign or name a serial number not given out. */
  lemma {:induction false} TilesFormat(bytes: seq<int>, given: nat)
    ensures WellFormed(bytes, given) <==> Tiles(bytes) && !EndsCutOff(bytes) && !NamesMissing(bytes, given)
    decreases |bytes|
  {
    hide FourBytes;
    if bytes == [] {
    } else if bytes[0] == AT_SIGN {
      if |bytes| >= 2 { TilesFormat(bytes[2..], given + 1); }
    } else if WholeNode(bytes) {
      TilesFormat(bytes[9..], given + 1);
    }
  }

  /**
   * No stream in the documented format is rejected. One outside it is accepted exactly if it still is made
   * of whole instructions, and ends with a lone at-sign or names a child that is not there.
   */
  lemma AcceptedIllFormed(t: Table, ids: seq<int>, bytes: seq<int>)
    requires !Replay(t, ids, bytes).Undefined?
    ensures WellFormed(bytes, |ids|) ==> Replay(t, ids, bytes).Accepted?
    ensures Replay(t, ids, bytes).Accepted? && !WellFormed(bytes, |ids|) <==>
            Tiles(bytes) && (EndsCutOff(bytes) || NamesMissing(bytes, |ids|))
  {
    AcceptedIffTiles(t, ids, bytes);
    TilesFormat(bytes, |ids|);
  }

  /** Such streams exist: a lone at-sign reads as a leaf of value -1. */
  lemma CutOffLeafIsAccepted(t: Table)
    ensures Replay(t, [], [AT_SIGN]) == Accepted(t, [-1]) && EndsCutOff([AT_SIGN])
  {
    assert Replay(t, [-1], []) == Accepted(t, [-1]);
  }

  /** And a serial number that was never given out reads as leaf 0: here 9 in the second instruction. */
  lemma MissingChildIsAccepted(t: Table)
    ensures var bytes := [AT_SIGN, 7] + Instruction(1, 1, 9);
            && NamesMissing(bytes, 0)
            && (var b := Lookup(t, 1, 7, 0); Replay(t, [], bytes) == Accepted(b.table, [7, b.index]))
  {
    hide Lookup;
    LeafRead(t, [], 7);
    InstructionRead(t, [7], 1, 1, 9);
    ReplayAppend(t, [], [AT_SIGN, 7], Instruction(1, 1, 9));
    var bytes := [AT_SIGN, 7] + Instruction(1, 1, 9);
    assert bytes[2..] == Instruction(1, 1, 9);
    assert [] + [7] == [7];
    FourBytesOfLe32(9);
    assert bytes[2..][5..9] == Le32(9);
  }

  // ---- what a stream builds ----

  /** All recorded nodes exist. */
  ghost predicate AllIn(t: Table, ids: seq<int>) { forall k :: 0 <= k < |ids| ==> IsIndex(t, ids[k]) }

  ghost predicate Bytes(bytes: seq<int>) { forall k :: 0 <= k < |bytes| ==> 0 <= bytes[k] < 256 }

  /** Every node is built over children on lower levels. */
  predicate Descends(t: Table, ids: seq<int>, bytes: seq<int>)
    decreases |bytes|
  {
    if bytes == [] then true
    else match HeadOf(ids, bytes)
      case Leaf(v) => Descends(t, ids + [v], if |bytes| == 1 then [] else bytes[2..])
      case Inner(level, left, right) =>
        var b := Lookup(t, level, left, right);
        Buildable(t, level, left, right) && Descends(b.table, ids + [b.index], bytes[9..])
      case _ => true
  }

  lemma HeadOffered(t: Table, ids: seq<int>, bytes: seq<int>)
    requires AllIn(t, ids) && Bytes(bytes) && bytes != []
    ensures var h := HeadOf(ids, bytes);
            && (h.Inner? ==> Offered(t, h.level, h.left, h.right) && 1 <= h.level <= LEVELS_MAX)
            && (h.Leaf? && |bytes| > 1 ==> IsIndex(t, h.value))
  {
  }

  lemma AllInLater(t: Table, ids: seq<int>, u: Table, i: int)
    requires AllIn(t, ids) && t <= u && IsIndex(u, i)
    ensures AllIn(u, ids + [i])
  {
  }

  /** Reading keeps a table of diagrams one exactly if every node read stands above its children. */
  lemma {:induction false} DiagramsIffDescends(t: Table, ids: seq<int>, bytes: seq<int>)
    requires Wf(t) && AllIn(t, ids) && Bytes(bytes) && !Replay(t, ids, bytes).Undefined?
    ensures Wf(Replay(t, ids, bytes).table) <==> Descends(t, ids, bytes)
    decreases |bytes|
  {
    hide Wf, AllIn, Lookup, HeadOf, Buildable, Offered, IsIndex;
    if bytes != [] {
      HeadOffered(t, ids, bytes);
      var h := HeadOf(ids, bytes);
      if h.Leaf? {
        if |bytes| > 1 {
          AllInLater(t, ids, t, h.value);
          DiagramsIffDescends(t, ids + [h.value], bytes[2..]);
        }
      } else if h.Inner? {
        var b := Lookup(t, h.level, h.left, h.right);
        LookupWfOnly(t, h.level, h.left, h.right);
        if Buildable(t, h.level, h.left, h.right) {
          WfIsLoose(t);
          LookupLoose(t, h.level, h.left, h.right);
          AllInLater(t, ids, b.table, b.index);
          DiagramsIffDescends(b.table, ids + [b.index], bytes[9..]);
        } else if Wf(Replay(t, ids, bytes).table) {
          WfPrefix(Replay(t, ids, bytes).table, b.table);
        }
      }
    }
  }

  // ---- whether levels descend is a matter of the stream alone ----

  /** Two readings of one stream recorded nodes that denote the same. */
  ghost predicate Alike(t: Table, ids: seq<int>, u: Table, others: seq<int>)
    requires Wf(t) && Wf(u)
  {
    |ids| == |others| && forall k :: 0 <= k < |ids| ==> SameNode(t, ids[k], u, others[k])
  }

  lemma LeafAlike(t: Table, u: Table, v: int)
    requires Wf(t) && Wf(u) && 0 <= v < LEAVES
    ensures SameNode(t, v, u, v)
  {
  }

  /** What serial numbers stand for is alike: numbers not given out are leaf 0 in both. */
  lemma RecordedAlike(t: Table, ids: seq<int>, u: Table, others: seq<int>, serial: int)
    requires Wf(t) && Wf(u) && Alike(t, ids, u, others)
    ensures SameNode(t, Recorded(ids, serial), u, Recorded(others, serial))
  {
    LeafAlike(t, u, 0);
    hide Wf, SameNode;
  }

  lemma HeadsAlike(t: Table, ids: seq<int>, u: Table, others: seq<int>, bytes: seq<int>)
    requires Wf(t) && Wf(u) && Alike(t, ids, u, others) && bytes != []
    ensures var h, g := HeadOf(ids, bytes), HeadOf(others, bytes);
            && (h.Inner? <==> g.Inner?) && (h.Leaf? <==> g.Leaf?) && (h.Leaf? ==> h == g)
            && (h.Inner? ==>
               h.level == g.level >= 1 && SameNode(t, h.left, u, g.left) && SameNode(t, h.right, u, g.right))
  {
    hide Wf, SameNode, Alike, FourBytes, Recorded;
    if HeadOf(ids, bytes).Inner? {
      RecordedAlike(t, ids, u, others, FourBytes(bytes[1..5]));
      RecordedAlike(t, ids, u, others, FourBytes(bytes[5..9]));
    }
  }

  lemma AlikeLater(t: Table, ids: seq<int>, u: Table, others: seq<int>, v: Table, i: int, w: Table, j: int)
    requires Wf(t) && Wf(u) && Alike(t, ids, u, others) && Extends(v, t) && Extends(w, u) && SameNode(v, i, w, j)
    ensures Alike(v, ids + [i], w, others + [j])
  {
    hide Wf, SameNode, Extends;
    assert Wf(v) && Wf(w) by { ExtendsWf(v, t); ExtendsWf(w, u); }
    forall k | 0 <= k < |ids|
      ensures SameNode(v, ids[k], w, others[k])
    {
      SameNodeInBoth(t, ids[k], u, others[k], v, w);
    }
  }

  lemma ExtendsWf(u: Table, t: Table)
    requires Extends(u, t)
    ensures Wf(u) && Wf(t)
  {
  }

  lemma SameNodeInBoth(t: Table, i: int, u: Table, j: int, v: Table, w: Table)
    requires Wf(t) && Wf(u) && SameNode(t, i, u, j) && Extends(v, t) && Extends(w, u)
    ensures SameNode(v, i, w, j)
  {
    SameNodeLater(t, i, u, j, w);
    ExtendedLevel(v, t, i);
    hide Wf;
    forall p: nat
      ensures Val(w, j, p) == Val(v, i, p)
    {
      ExtendedVal(v, t, i, p);
    }
  }

  lemma SameNodeBack(t: Table, i: int, u: Table, j: int)
    requires Wf(t) && Wf(u) && SameNode(t, i, u, j)
    ensures SameNode(u, j, t, i)
  {
  }

  /** Children that denote the same are in order together, and their parents denote the same. */
  lemma ParentsAlike(t: Table, l: int, r: int, u: Table, m: int, n: int, level: int)
    requires Wf(t) && Wf(u) && SameNode(t, l, u, m) && SameNode(t, r, u, n) && 1 <= level <= LEVELS_MAX
    ensures Buildable(t, level, l, r) <==> Buildable(u, level, m, n)
    ensures Buildable(t, level, l, r) ==>
              var b, c := Lookup(t, level, l, r), Lookup(u, level, m, n);
              Extends(b.table, t) && Extends(c.table, u) && SameNode(b.table, b.index, c.table, c.index)
  {
    if m == n { SameNodeApart(t, l, r, u, m); }
    if l == r {
      SameNodeBack(t, l, u, m);
      SameNodeBack(t, r, u, n);
      SameNodeApart(u, m, n, t, l);
    }
    if Buildable(t, level, l, r) { BuiltAlike(t, l, r, u, m, n, level); }
    hide Wf;
  }

  lemma BuiltAlike(t: Table, l: int, r: int, u: Table, m: int, n: int, level: int)
    requires Wf(t) && Wf(u) && SameNode(t, l, u, m) && SameNode(t, r, u, n) && 1 <= level <= LEVELS_MAX
    requires Buildable(t, level, l, r) && (l == r <==> m == n)
    ensures var b, c := Lookup(t, level, l, r), Lookup(u, level, m, n);
            Extends(b.table, t) && Extends(c.table, u) && SameNode(b.table, b.index, c.table, c.index)
  {
    if l == r {
      Itself(t);
      Itself(u);
    } else {
      hide Wf, Lookup;
      LookupWf(t, level, l, r);
      LookupWf(u, level, m, n);
      var b, c := Lookup(t, level, l, r), Lookup(u, level, m, n);
      forall p: nat
        ensures Val(c.table, c.index, p) == Val(b.table, b.index, p)
      {
        LookupVal(t, level, l, r, p);
        LookupVal(u, level, m, n, p);
      }
    }
  }

  lemma {:induction false} DescendsAlike(t: Table, ids: seq<int>, u: Table, others: seq<int>, bytes: seq<int>)
    requires Wf(t) && Wf(u) && Alike(t, ids, u, others) && Bytes(bytes)
    ensures Descends(t, ids, bytes) <==> Descends(u, others, bytes)
    decreases |bytes|
  {
    hide Wf, Alike, SameNode, HeadOf, Lookup, Buildable, Extends;
    if bytes != [] {
      HeadsAlike(t, ids, u, others, bytes);
      var h, g := HeadOf(ids, bytes), HeadOf(others, bytes);
      if h.Leaf? && |bytes| > 1 {
        Itself(t);
        Itself(u);
        LeafIsByte(ids, bytes);
        LeafAlike(t, u, h.value);
        AlikeLater(t, ids, u, others, t, h.value, u, h.value);
        DescendsAlike(t, ids + [h.value], u, others + [h.value], bytes[2..]);
      } else if h.Inner? {
        InnerLevel(ids, bytes);
        ParentsAlike(t, h.left, h.right, u, g.left, g.right, h.level);
        if Buildable(t, h.level, h.left, h.right) {
          var b, c := Lookup(t, h.level, h.left, h.right), Lookup(u, g.level, g.left, g.right);
          ExtendsWf(b.table, t);
          ExtendsWf(c.table, u);
          AlikeLater(t, ids, u, others, b.table, b.index, c.table, c.index);
          DescendsAlike(b.table, ids + [b.index], c.table, others + [c.index], bytes[9..]);
        }
      }
    }
  }

  lemma InnerLevel(ids: seq<int>, bytes: seq<int>)
    requires bytes != [] && HeadOf(ids, bytes).Inner?
    ensures 1 <= HeadOf(ids, bytes).level <= LEVELS_MAX && |bytes| >= 9
  {
  }

  lemma LeafIsByte(ids: seq<int>, bytes: seq<int>)
    requires Bytes(bytes) && |bytes| > 1 && HeadOf(ids, bytes).Leaf?
    ensures 0 <= HeadOf(ids, bytes).value < LEAVES
  {
  }

  /** Whether all nodes of a stream stand above their children does not depend on the table it is read in. */
  lemma DescendsAnywhere(t: Table, bytes: seq<int>)
    requires Wf(t) && Bytes(bytes)
    ensures Descends(t, [], bytes) <==> Descends([], [], bytes)
  {
    hide Descends;
    DescendsAlike(t, [], [], [], bytes);
  }

  lemma LeafFirst(t: Table, ids: seq<int>, v: int, rest: seq<int>)
    requires |ids| + 1 < NODES_MAX
    ensures var bytes := [AT_SIGN, v] + rest;
            && Replay(t, ids, bytes) == Replay(t, ids + [v], rest)
            && (Descends(t, ids, bytes) <==> Descends(t, ids + [v], rest))
            && (WellFormed(bytes, |ids|) <==> WellFormed(rest, |ids| + 1))
  {
    assert ([AT_SIGN, v] + rest)[2..] == rest;
  }

  lemma InstructionFirst(t: Table, ids: seq<int>, level: int, left: int, right: int, rest: seq<int>)
    requires 1 <= level <= LEVELS_MAX && 0 <= left < NODES_MAX && 0 <= right < NODES_MAX && |ids| + 1 < NODES_MAX
    ensures var bytes, l, r := Instruction(level, left, right) + rest, Recorded(ids, left), Recorded(ids, right);
            var b := Lookup(t, level, l, r);
            && Replay(t, ids, bytes) == Replay(b.table, ids + [b.index], rest)
            && (Descends(t, ids, bytes) <==> Buildable(t, level, l, r) && Descends(b.table, ids + [b.index], rest))
            && (WellFormed(bytes, |ids|) <==> 1 <= left <= |ids| && 1 <= right <= |ids| && WellFormed(rest, |ids| + 1))
  {
    hide Recorded, Lookup, Buildable, Le32, FourBytes, HeadOf;
    var code := Instruction(level, left, right);
    InstructionHead(ids, level, left, right);
    HeadAppend(ids, code, rest);
    FourBytesOfLe32(left);
    FourBytesOfLe32(right);
    assert (code + rest)[9..] == rest && (code + rest)[1..5] == Le32(left) && (code + rest)[5..9] == Le32(right);
  }

  /** A stream in the documented format that puts a node of level 1 above one of level 2. */
  function Upside(): seq<int> { [AT_SIGN, 7] + ([AT_SIGN, 8] + (Instruction(2, 1, 2) + (Instruction(1, 3, 1) + []))) }

  /** Such a stream is accepted, and leaves a table behind that does not hold diagrams. */
  lemma UpsideIsAccepted()
    ensures WellFormed(Upside(), 0) && Replay([], [], Upside()).Accepted? && !Descends([], [], Upside())
    ensures !Wf(Replay([], [], Upside()).table)
  {
    hide Instruction, WellFormed, Replay, Descends, Lookup, Buildable, Wf;
    var last := Instruction(1, 3, 1) + [];
    LeafFirst([], [], 7, [AT_SIGN, 8] + (Instruction(2, 1, 2) + last));
    assert [] + [7] == [7] && [7] + [8] == [7, 8];
    LeafFirst([], [7], 8, Instruction(2, 1, 2) + last);
    UpsideNodes();
    UpsideBytes();
    EmptyTable();
    DiagramsIffDescends([], [], Upside());
  }

  lemma EmptyTable()
    ensures Wf([])
  {
  }

  lemma UpsideNodes()
    ensures var bytes := Instruction(2, 1, 2) + (Instruction(1, 3, 1) + []);
            WellFormed(bytes, 2) && Replay([], [7, 8], bytes).Accepted? && !Descends([], [7, 8], bytes)
  {
    hide Instruction, WellFormed, Replay, Descends, Lookup, Buildable;
    var t := [Node(2, 7, 8)];
    InstructionFirst([], [7, 8], 2, 1, 2, Instruction(1, 3, 1) + []);
    FirstNode();
    assert [7, 8] + [256] == [7, 8, 256];
    InstructionFirst(t, [7, 8, 256], 1, 3, 1, []);
    var b := Lookup(t, 1, 256, 7);
    NothingLeft(b.table, [7, 8, 256] + [b.index]);
  }

  lemma FirstNode()
    ensures Lookup([], 2, 7, 8) == Built([Node(2, 7, 8)], 256) && !Buildable([Node(2, 7, 8)], 1, 256, 7)
  {
    assert [] + [Node(2, 7, 8)] == [Node(2, 7, 8)];
  }

  lemma UpsideBytes()
    ensures Bytes(Upside())
  {
    InstructionBytes(2, 1, 2);
    InstructionBytes(1, 3, 1);
    hide Instruction;
  }

  lemma InstructionBytes(level: int, left: int, right: int)
    requires 1 <= level <= LEVELS_MAX && 0 <= left < NODES_MAX && 0 <= right < NODES_MAX
    ensures Bytes(Instruction(level, left, right))
  {
    FourBytesOfLe32(left);
    FourBytesOfLe32(right);
    hide Le32;
  }

  lemma NothingLeft(t: Table, ids: seq<int>)
    ensures Replay(t, ids, []) == Accepted(t, ids) && WellFormed([], |ids|)
  {
  }

  /** Unless the stream was cut off, all nodes read exist. */
  lemma {:induction false} ReadExist(t: Table, ids: seq<int>, bytes: seq<int>)
    requires Loose(t) && AllIn(t, ids) && Bytes(bytes) && Replay(t, ids, bytes).Accepted?
    ensures EndsCutOff(bytes) || AllIn(Replay(t, ids, bytes).table, Replay(t, ids, bytes).ids)
    decreases |bytes|
  {
    hide Loose, AllIn, Lookup, Offered, IsIndex, Recorded, FourBytes;
    if bytes != [] {
      HeadOffered(t, ids, bytes);
      var h := HeadOf(ids, bytes);
      if h.Leaf? {
        if |bytes| > 1 {
          AllInLater(t, ids, t, h.value);
          ReadExist(t, ids + [h.value], bytes[2..]);
        }
      } else {
        var b := Lookup(t, h.level, h.left, h.right);
        LookupLoose(t, h.level, h.left, h.right);
        AllInLater(t, ids, b.table, b.index);
        ReadExist(b.table, ids + [b.index], bytes[9..]);
      }
    }
  }
}
