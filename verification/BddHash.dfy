/** The open-addressed unique table as a value: it finds what a search of the node table finds (hw1/src/bdd.c). */
module BddHash {
  import opened Counting
  import opened BddTable

  const HASH_SIZE := 2097169

  /** hashFunction */
  function Hash(n: Node): (h: int)
    ensures 0 <= h < HASH_SIZE
  {
    (n.left + n.right + n.level) % HASH_SIZE
  }

  /** The slot `o` steps after `h`, around the end. */
  function Probe(h: int, o: int): (s: int)
    ensures 0 <= s < HASH_SIZE
  {
    (h + o) % HASH_SIZE
  }

  /** No empty slot on the first `n` steps from `h`. */
  ghost predicate FullPath(slots: seq<int>, h: int, n: int)
    requires |slots| == HASH_SIZE
  {
    forall o :: 0 <= o < n ==> slots[Probe(h, o)] != 0
  }

  /**
   * Node `k` stands `steps[k]` slots after its hash with no gap before it, and nothing else is in the
   * map; 0 is an empty slot.
   */
  ghost predicate Hashed(t: Table, slots: seq<int>, steps: seq<int>) {
    |slots| == HASH_SIZE && |steps| == |t| && AllPlaced(t, slots, steps) && NothingElse(t, slots, steps)
  }

  ghost predicate AllPlaced(t: Table, slots: seq<int>, steps: seq<int>)
    requires |slots| == HASH_SIZE && |steps| == |t|
  {
    forall k :: 0 <= k < |t| ==>
      && 0 <= steps[k] < HASH_SIZE && slots[Probe(Hash(t[k]), steps[k])] == LEAVES + k
      && FullPath(slots, Hash(t[k]), steps[k])
  }

  ghost predicate NothingElse(t: Table, slots: seq<int>, steps: seq<int>)
    requires |slots| == HASH_SIZE && |steps| == |t|
  {
    forall s :: 0 <= s < HASH_SIZE && slots[s] != 0 ==>
      LEAVES <= slots[s] < LEAVES + |t| && Probe(Hash(t[slots[s] - LEAVES]), steps[slots[s] - LEAVES]) == s
  }

  /** The slots probed so far hold other nodes. */
  ghost predicate Missed(t: Table, slots: seq<int>, n: Node, o: int) {
    && |slots| == HASH_SIZE
    && (forall j :: 0 <= j < o ==>
          LEAVES <= slots[Probe(Hash(n), j)] < LEAVES + |t| && t[slots[Probe(Hash(n), j)] - LEAVES] != n)
  }

  lemma EmptyHashed(slots: seq<int>)
    requires |slots| == HASH_SIZE && forall s :: 0 <= s < HASH_SIZE ==> slots[s] == 0
    ensures Hashed([], slots, [])
  {
  }

  /** A match is the node that the search of the table finds. */
  lemma Hit(t: Table, slots: seq<int>, steps: seq<int>, n: Node, s: int)
    requires Loose(t) && Hashed(t, slots, steps) && 0 <= s < HASH_SIZE && slots[s] != 0 && t[slots[s] - LEAVES] == n
    ensures LEAVES + Find(t, n) == slots[s] && Find(t, n) < |t|
  {
    var k := slots[s] - LEAVES;
    assert t[k] == n;
    assert Find(t, n) <= k;
  }

  /** An empty slot ends the probing: the node is not in the table. */
  lemma NotThere(t: Table, slots: seq<int>, steps: seq<int>, n: Node, o: int)
    requires Hashed(t, slots, steps) && Missed(t, slots, n, o) && 0 <= o < HASH_SIZE && slots[Probe(Hash(n), o)] == 0
    ensures Find(t, n) == |t|
  {
    var k := Find(t, n);
    assert k < |t| ==> t[k] == n;
  }

  /** The new node goes into the empty slot that ended the probing. */
  lemma Inserted(t: Table, slots: seq<int>, steps: seq<int>, n: Node, o: int)
    requires Hashed(t, slots, steps) && Missed(t, slots, n, o) && 0 <= o < HASH_SIZE && slots[Probe(Hash(n), o)] == 0
    ensures Hashed(t + [n], slots[Probe(Hash(n), o) := LEAVES + |t|], steps + [o])
  {
    hide AllPlaced, NothingElse, Missed, Probe, Hash;
    var s := Probe(Hash(n), o);
    AllStillPlaced(t, slots, steps, n, o, s);
    StillNothingElse(t, slots, steps, n, o, s);
  }

  lemma AllStillPlaced(t: Table, slots: seq<int>, steps: seq<int>, n: Node, o: int, s: int)
    requires |slots| == HASH_SIZE && |steps| == |t| && AllPlaced(t, slots, steps) && Missed(t, slots, n, o)
    requires 0 <= o < HASH_SIZE && s == Probe(Hash(n), o) && slots[s] == 0
    ensures AllPlaced(t + [n], slots[s := LEAVES + |t|], steps + [o])
  {
    hide Missed, FullPath, Probe, Hash;
    var u, after, further := t + [n], slots[s := LEAVES + |t|], steps + [o];
    forall k | 0 <= k < |u|
      ensures 0 <= further[k] < HASH_SIZE && after[Probe(Hash(u[k]), further[k])] == LEAVES + k
      ensures FullPath(after, Hash(u[k]), further[k])
    {
      if k < |t| {
        assert slots[Probe(Hash(t[k]), steps[k])] == LEAVES + k;
        PathKept(slots, Hash(t[k]), steps[k], s, LEAVES + |t|);
      } else {
        MissedIsFull(t, slots, n, o, s, LEAVES + |t|);
      }
    }
  }

  lemma StillNothingElse(t: Table, slots: seq<int>, steps: seq<int>, n: Node, o: int, s: int)
    requires |slots| == HASH_SIZE && |steps| == |t| && NothingElse(t, slots, steps) && s == Probe(Hash(n), o)
    ensures NothingElse(t + [n], slots[s := LEAVES + |t|], steps + [o])
  {
    hide Probe, Hash;
    var u, after, further := t + [n], slots[s := LEAVES + |t|], steps + [o];
    forall x | 0 <= x < HASH_SIZE && after[x] != 0
      ensures LEAVES <= after[x] < LEAVES + |u| && Probe(Hash(u[after[x] - LEAVES]), further[after[x] - LEAVES]) == x
    {
      if x != s { assert slots[x] != 0; }
    }
  }

  /** Filling a slot leaves no gap on a path without one. */
  lemma PathKept(slots: seq<int>, h: int, n: int, s: int, v: int)
    requires |slots| == HASH_SIZE && 0 <= s < HASH_SIZE && v != 0 && FullPath(slots, h, n)
    ensures FullPath(slots[s := v], h, n)
  {
  }

  lemma MissedIsFull(t: Table, slots: seq<int>, n: Node, o: int, s: int, v: int)
    requires Missed(t, slots, n, o) && 0 <= s < HASH_SIZE && v != 0
    ensures FullPath(slots[s := v], Hash(n), o)
  {
  }

  lemma ProbeReaches(h: int, s: int)
    requires 0 <= h < HASH_SIZE && 0 <= s < HASH_SIZE
    ensures var o := if s >= h then s - h else s - h + HASH_SIZE; 0 <= o < HASH_SIZE && Probe(h, o) == s
  {
  }

  /** The map never fills up, so probing ends at a match or at an empty slot. */
  lemma SomeSlotIsEmpty(t: Table, slots: seq<int>, steps: seq<int>, h: int)
    requires Hashed(t, slots, steps) && |t| < HASH_SIZE && 0 <= h < HASH_SIZE
    ensures !FullPath(slots, h, HASH_SIZE)
  {
    if FullPath(slots, h, HASH_SIZE) {
      var f := seq(|slots|, s requires 0 <= s < |slots| => slots[s] - LEAVES);
      forall s | 0 <= s < |slots|
        ensures 0 <= f[s] < |t|
      {
        ProbeReaches(h, s);
      }
      Pigeonhole(f, |t|);
    }
  }
}
