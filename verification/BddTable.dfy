/**
 * The node table of the hash-consed decision diagrams as a value: looking nodes up, what a node
 * denotes, and canonicity (hw1/src/bdd.c, hw1/include/bdd.h).
 */
module BddTable {
  import opened Powers

  const LEAVES := 256
  const LEVELS_MAX := 32
  const NODES_MAX := 0x10_0000

  datatype Node = Node(level: int, left: int, right: int)

  /** The non-leaf nodes in the order of their creation; the node with index `LEAVES + k` is at `k`. */
  type Table = seq<Node>

  predicate IsIndex(t: Table, i: int) { 0 <= i < LEAVES + |t| }

  function Level(t: Table, i: int): int
    requires IsIndex(t, i)
  {
    if i < LEAVES then 0 else t[i - LEAVES].level
  }

  /** A node that may stand after the nodes of `t`: its children exist, lie lower and differ. */
  predicate Fits(t: Table, n: Node) {
    && IsIndex(t, n.left) && IsIndex(t, n.right) && n.left != n.right
    && Level(t, n.left) < n.level <= LEVELS_MAX && Level(t, n.right) < n.level
  }

  /** Children come before parents and lie on lower levels, and no node is there twice. */
  ghost predicate Wf(t: Table) {
    && (forall k :: 0 <= k < |t| ==> Fits(t[..k], t[k]))
    && (forall j, k :: 0 <= j < k < |t| ==> t[j] != t[k])
  }

  /**
   * What every lookup keeps, whatever the levels of the children: they come before their parents, and
   * no node is there twice.
   */
  ghost predicate Loose(t: Table) {
    && (forall k :: 0 <= k < |t| ==> Stands(k, t[k]))
    && (forall j, k :: 0 <= j < k < |t| ==> t[j] != t[k])
  }

  /** A node that may stand at position `k`, but for the levels of its children. */
  predicate Stands(k: nat, n: Node) {
    0 <= n.left < LEAVES + k && 0 <= n.right < LEAVES + k && n.left != n.right && 1 <= n.level <= LEVELS_MAX
  }

  lemma WfIsLoose(t: Table)
    requires Wf(t)
    ensures Loose(t)
  {
    forall k | 0 <= k < |t|
      ensures Stands(k, t[k])
    {
      FitsHere(t, k);
      NodeFacts(t, LEAVES + k);
    }
  }

  lemma WfPrefix(u: Table, t: Table)
    requires Wf(u) && t <= u
    ensures Wf(t)
  {
    forall k | 0 <= k < |t|
      ensures Fits(t[..k], t[k])
    {
      FitsHere(u, k);
      assert u[..k] == t[..k];
    }
  }

  /** What Wf says of one node, without the prefix. */
  lemma NodeFacts(t: Table, i: int)
    requires Wf(t) && LEAVES <= i < LEAVES + |t|
    ensures var n := t[i - LEAVES];
            && 0 <= n.left < i && 0 <= n.right < i && n.left != n.right
            && 0 <= Level(t, n.left) < n.level <= LEVELS_MAX && 0 <= Level(t, n.right) < n.level
            && Level(t, i) == n.level
  {
    var k := i - LEAVES;
    FitsHere(t, k);
    hide Wf, Level;
    LevelOfPrefix(t, k, t[k].left);
    LevelOfPrefix(t, k, t[k].right);
    LevelHere(t, i);
  }

  lemma LevelHere(t: Table, i: int)
    requires LEAVES <= i < LEAVES + |t|
    ensures Level(t, i) == t[i - LEAVES].level
  {
  }

  lemma FitsHere(t: Table, k: nat)
    requires Wf(t) && k < |t|
    ensures Fits(t[..k], t[k])
  {
  }

  lemma LevelNotNegative(t: Table, i: int)
    requires Wf(t) && IsIndex(t, i)
    ensures 0 <= Level(t, i) <= LEVELS_MAX
    ensures Level(t, i) == 0 <==> i < LEAVES
  {
    if i >= LEAVES {
      var k := i - LEAVES;
      assert Fits(t[..k], t[k]);
      LevelOfPrefix(t, k, t[k].left);
    }
  }

  lemma LevelOfPrefix(t: Table, k: nat, i: int)
    requires k <= |t| && Wf(t) && 0 <= i < LEAVES + k
    ensures Level(t[..k], i) == Level(t, i) && Level(t, i) >= 0
    decreases i
  {
    if i >= LEAVES {
      var j := i - LEAVES;
      assert Fits(t[..j], t[j]);
      LevelOfPrefix(t, j, t[j].left);
    }
  }

  // ---- lookup ----

  /** Position of a node in the table, the table's length if it is not there: the search without hashing. */
  function Find(t: Table, n: Node): (k: nat)
    ensures k <= |t| && (k < |t| ==> t[k] == n)
    ensures forall j :: 0 <= j < k ==> t[j] != n
  {
    if t == [] || t[0] == n then 0 else 1 + Find(t[1..], n)
  }

  datatype Built = Built(table: Table, index: int)

  /** bdd_lookup: equal children need no node; an existing node is found again; otherwise one is appended. */
  function Lookup(t: Table, level: int, left: int, right: int): Built {
    var n := Node(level, left, right);
    if left == right then Built(t, left)
    else if Find(t, n) < |t| then Built(t, LEAVES + Find(t, n))
    else Built(t + [n], LEAVES + |t|)
  }

  /** What the source asks of the callers of bdd_lookup. */
  predicate Sound(t: Table, level: int, left: int, right: int) {
    && IsIndex(t, left) && IsIndex(t, right)
    && Level(t, left) < level <= LEVELS_MAX && Level(t, right) < level
  }

  /** Arguments within bounds: bdd_lookup does not look at the children's levels. */
  predicate Offered(t: Table, level: int, left: int, right: int) {
    IsIndex(t, left) && IsIndex(t, right) && (left == right || 1 <= level <= LEVELS_MAX)
  }

  /** Arguments that make a node of a diagram, or need none. */
  predicate Buildable(t: Table, level: int, left: int, right: int) {
    Offered(t, level, left, right) && (left == right || (Level(t, left) < level && Level(t, right) < level))
  }

  /** The table `u` holds all nodes of `t` under the same indices. */
  ghost predicate Extends(u: Table, t: Table) { Wf(t) && Wf(u) && t <= u }

  lemma ExtendsTrans(u: Table, t: Table, s: Table)
    requires Extends(u, t) && Extends(t, s)
    ensures Extends(u, s)
  {
  }

  lemma ExtendedLevel(u: Table, t: Table, i: int)
    requires Extends(u, t) && IsIndex(t, i)
    ensures IsIndex(u, i) && Level(u, i) == Level(t, i)
  {
  }

  lemma LookupWf(t: Table, level: int, left: int, right: int)
    requires Wf(t) && Sound(t, level, left, right)
    ensures var b := Lookup(t, level, left, right);
            && Extends(b.table, t) && IsIndex(b.table, b.index)
            && Level(b.table, b.index) == if left == right then Level(t, left) else level
  {
    var n := Node(level, left, right);
    if left != right && Find(t, n) == |t| {
      var u := t + [n];
      forall k | 0 <= k < |u|
        ensures Fits(u[..k], u[k])
      {
        assert u[..k] == t[..k];
        if k == |t| { assert t[..k] == t; }
      }
    }
  }

  lemma BuildableWf(t: Table, level: int, left: int, right: int)
    requires Wf(t) && Buildable(t, level, left, right)
    ensures Extends(Lookup(t, level, left, right).table, t)
  {
    if left != right { LookupWf(t, level, left, right); }
  }

  /** Any lookup within bounds keeps the order of the table and every old index in place. */
  lemma LookupLoose(t: Table, level: int, left: int, right: int)
    requires Loose(t) && Offered(t, level, left, right)
    ensures var b := Lookup(t, level, left, right); Loose(b.table) && t <= b.table && IsIndex(b.table, b.index)
  {
  }

  /** A lookup yields a table of diagrams exactly if the children lie below the new level. */
  lemma LookupWfOnly(t: Table, level: int, left: int, right: int)
    requires Wf(t) && Offered(t, level, left, right)
    ensures Wf(Lookup(t, level, left, right).table) <==> Buildable(t, level, left, right)
  {
    var n := Node(level, left, right);
    var k := Find(t, n);
    if k < |t| {
      NodeFacts(t, LEAVES + k);
    } else if left != right {
      var u := t + [n];
      assert u[..|t|] == t;
      if Wf(u) { FitsHere(u, |t|); }
      if Buildable(t, level, left, right) { BuildableWf(t, level, left, right); }
    }
  }

  /** The index of a stored node is found again, and the table stays as it is. */
  lemma LookupAgain(t: Table, i: int)
    requires Wf(t) && LEAVES <= i < LEAVES + |t|
    ensures var n := t[i - LEAVES]; Lookup(t, n.level, n.left, n.right) == Built(t, i)
  {
    NodeFacts(t, i);
    var k := Find(t, t[i - LEAVES]);
    assert k == i - LEAVES;
  }

  // ---- what a node denotes ----

  /** The value at position `p`: on level `l` digit `l - 1` of `p` chooses the child. */
  function Val(t: Table, i: int, p: nat): (v: int)
    requires Wf(t) && IsIndex(t, i)
    ensures 0 <= v < LEAVES
    decreases i
  {
    if i < LEAVES then i else
      NodeFacts(t, i);
      var n := t[i - LEAVES];
      if Bit(p, n.level - 1) then Val(t, n.right, p) else Val(t, n.left, p)
  }

  /** Only the digits below its level matter to a node. */
  lemma {:induction false} ValBits(t: Table, i: int, p: nat, q: nat)
    requires Wf(t) && IsIndex(t, i) && AgreeBelow(p, q, Level(t, i))
    ensures Val(t, i, p) == Val(t, i, q)
    decreases i
  {
    hide Wf, Bit;
    if i >= LEAVES {
      NodeFacts(t, i);
      var n := t[i - LEAVES];
      ValBits(t, n.left, p, q);
      ValBits(t, n.right, p, q);
      assert Bit(p, n.level - 1) == Bit(q, n.level - 1);
    }
  }

  /** Adding nodes changes nothing about the old ones. */
  lemma {:induction false} ExtendedVal(u: Table, t: Table, i: int, p: nat)
    requires Extends(u, t) && IsIndex(t, i)
    ensures Val(u, i, p) == Val(t, i, p)
    decreases i
  {
    hide Wf, Bit;
    if i >= LEAVES {
      NodeFacts(t, i);
      ExtendedVal(u, t, t[i - LEAVES].left, p);
      ExtendedVal(u, t, t[i - LEAVES].right, p);
    }
  }

  /** A looked-up node chooses between its children, also when no node was made because they are equal. */
  lemma LookupVal(t: Table, level: int, left: int, right: int, p: nat)
    requires Wf(t) && Sound(t, level, left, right) && level >= 1
    ensures var b := Lookup(t, level, left, right);
            && Extends(b.table, t) && IsIndex(b.table, b.index)
            && Val(b.table, b.index, p) == if Bit(p, level - 1) then Val(t, right, p) else Val(t, left, p)
  {
    LookupWf(t, level, left, right);
    hide Wf, Bit;
    var b := Lookup(t, level, left, right);
    ExtendedVal(b.table, t, left, p);
    ExtendedVal(b.table, t, right, p);
  }

  // ---- canonicity ----

  /** Position `p` tells `i` and `j` apart. */
  ghost predicate Differ(t: Table, i: int, j: int, p: nat, n: nat) {
    Wf(t) && IsIndex(t, i) && IsIndex(t, j) && p < Pow2(n) && Val(t, i, p) != Val(t, j, p)
  }

  /** A difference between children on levels up to `n` shows in the parent, on either side. */
  lemma ChildValues(t: Table, i: int, n: nat, p: nat)
    requires Wf(t) && LEAVES <= i < LEAVES + |t| && Level(t, i) == n + 1 && p < Pow2(n)
    ensures Val(t, i, p) == Val(t, t[i - LEAVES].left, p)
    ensures Val(t, i, p + Pow2(n)) == Val(t, t[i - LEAVES].right, p)
    ensures p < Pow2(n + 1) && p + Pow2(n) < Pow2(n + 1)
  {
    hide Wf;
    NodeFacts(t, i);
    BitAbove(p, n, n);
    BitOfSum(p, n, n);
    LowerAgree(t, t[i - LEAVES].right, n, p);
  }

  lemma LowerAgree(t: Table, i: int, n: nat, p: nat)
    requires Wf(t) && IsIndex(t, i) && Level(t, i) <= n && p < Pow2(n)
    ensures Val(t, i, p + Pow2(n)) == Val(t, i, p)
  {
    hide Wf, Bit;
    forall b: nat | b < Level(t, i)
      ensures Bit(p + Pow2(n), b) == Bit(p, b)
    {
      BitOfSum(p, n, b);
    }
    ValBits(t, i, p + Pow2(n), p);
  }

  /** Different indices differ at some position of the square their levels span. */
  lemma {:induction false} Canonical(t: Table, i: int, j: int, n: nat) returns (p: nat)
    requires Wf(t) && IsIndex(t, i) && IsIndex(t, j) && i != j && Level(t, i) <= n && Level(t, j) <= n
    ensures Differ(t, i, j, p, n)
    decreases n
  {
    hide Wf, Bit;
    LevelNotNegative(t, i);
    LevelNotNegative(t, j);
    if Level(t, i) < n && Level(t, j) < n {
      p := Canonical(t, i, j, n - 1);
      Pow2Monotone(n - 1, n);
    } else if n == 0 {
      p := 0;
    } else if Level(t, j) < n {
      p := Taller(t, i, j, n);
    } else if Level(t, i) < n {
      p := Taller(t, j, i, n);
    } else {
      p := SameLevel(t, i, j, n);
    }
  }

  /** A node differs from everything below its level, because its children differ. */
  lemma {:induction false} Taller(t: Table, i: int, j: int, n: nat) returns (p: nat)
    requires Wf(t) && IsIndex(t, i) && IsIndex(t, j) && n > 0 && Level(t, i) == n && Level(t, j) < n
    ensures Differ(t, i, j, p, n)
    decreases n, 0
  {
    hide Wf, Bit;
    LevelNotNegative(t, i);
    NodeFacts(t, i);
    var q := Canonical(t, t[i - LEAVES].left, t[i - LEAVES].right, n - 1);
    ChildValues(t, i, n - 1, q);
    LowerAgree(t, j, n - 1, q);
    p := if Val(t, i, q) != Val(t, j, q) then q else q + Pow2(n - 1);
  }

  /** Different nodes of one level differ in a child. */
  lemma {:induction false} SameLevel(t: Table, i: int, j: int, n: nat) returns (p: nat)
    requires Wf(t) && IsIndex(t, i) && IsIndex(t, j) && i != j && n > 0 && Level(t, i) == n && Level(t, j) == n
    ensures Differ(t, i, j, p, n)
    decreases n, 0
  {
    LevelNotNegative(t, i);
    LevelNotNegative(t, j);
    NodesDiffer(t, i, j);
    hide Wf, Bit;
    NodeFacts(t, i);
    NodeFacts(t, j);
    var a, b := t[i - LEAVES], t[j - LEAVES];
    if a.left != b.left {
      p := Canonical(t, a.left, b.left, n - 1);
      ChildValues(t, i, n - 1, p);
      ChildValues(t, j, n - 1, p);
    } else {
      var q := Canonical(t, a.right, b.right, n - 1);
      ChildValues(t, i, n - 1, q);
      ChildValues(t, j, n - 1, q);
      p := q + Pow2(n - 1);
    }
  }

  lemma NodesDiffer(t: Table, i: int, j: int)
    requires Wf(t) && LEAVES <= i < LEAVES + |t| && LEAVES <= j < LEAVES + |t| && i != j
    ensures t[i - LEAVES] != t[j - LEAVES]
  {
  }
}
