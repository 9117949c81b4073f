/**
 * Whole runs of sf_malloc, sf_free, sf_realloc and sf_memalign: what holds of the heap, and of the
 * memory a program was handed, after any sequence of calls that only passes on pointers the program holds.
 */
module HeapRuns {
  import opened Powers
  import opened HeapTags
  import opened HeapModel
  import opened HeapAllocation
  import opened HeapOperations
  import opened HeapAlignment

  /** The heap before the first call: no page has been requested yet. */
  function Blank(start: int): Heap { Heap(start, start, map[], [[], [], [], [], [], [], [], []]) }

  ghost predicate Usable(h: Heap) { Inv(h) || (h == Blank(h.start) && h.start >= 0 && h.start % 16 == 0) }

  /** The heap value a call of sf_malloc works on: the first call sets the heap up. */
  function Started(h: Heap): (g: Heap)
    requires Usable(h)
    ensures Inv(g) && g.start == h.start && LiveBlocks(g) == LiveBlocks(h)
  {
    if h.end == h.start then InitialInv(h.start); BlankHoldsNothing(h); Initial(h.start) else h
  }

  lemma BlankHoldsNothing(h: Heap)
    requires Usable(h) && h.end == h.start
    ensures h == Blank(h.start) && LiveBlocks(h) == map[]
  {
    assert h.start + 40 < h.end - 8 || !Inv(h);
  }

  datatype Call =
    | MallocCall(size: int)
    | FreeCall(ptr: int)
    | ReallocCall(ptr: int, size: int)
    | MemalignCall(size: int, align: int)

  /** What the program holds: payload addresses it was handed and has not given back, with the sizes last asked for. */
  type Ledger = map<int, int>

  datatype State = State(heap: Heap, ledger: Ledger)

  /** A program may give back only what it holds, and asks for sizes the source can compute with. */
  predicate Allowed(ledger: Ledger, c: Call) {
    match c
    case MallocCall(size) => Request(size)
    case FreeCall(ptr) => ptr in ledger
    case ReallocCall(ptr, size) => ptr in ledger && Request(size)
    case MemalignCall(size, align) => AlignRequest(size, align)
  }

  /** The block at `a` suits what was last asked for: long enough, and at most a splinter too long. */
  predicate Suits(length: int, size: int) {
    Request(size) && Adjusted(size) <= length < Adjusted(size) + MIN_BLOCK
  }

  ghost predicate Covers(live: map<int, int>, ledger: Ledger) {
    && (forall a :: a in live ==> a + 8 in ledger && Suits(live[a], ledger[a + 8]))
    && (forall p :: p in ledger ==> p - 8 in live)
  }

  /** The blocks in use are those the program holds. */
  ghost predicate Agrees(h: Heap, ledger: Ledger) { Covers(LiveBlocks(h), ledger) }

  ghost predicate Good(s: State, limit: int) {
    Usable(s.heap) && s.heap.start + PAGE_SIZE <= limit && s.heap.end <= limit && Agrees(s.heap, s.ledger)
  }

  /** The ledger after a call that handed out `ptr`, or 0. */
  function Entered(ledger: Ledger, c: Call, ptr: int): Ledger {
    match c
    case MallocCall(size) => if ptr == 0 then ledger else ledger[ptr := size]
    case FreeCall(given) => ledger - {given}
    case ReallocCall(given, size) =>
      if size == 0 then ledger - {given} else if ptr == 0 then ledger else (ledger - {given})[ptr := size]
    case MemalignCall(size, align) => if ptr == 0 then ledger else ledger[ptr := size]
  }

  lemma HeldIsLive(h: Heap, ledger: Ledger, ptr: int)
    requires Usable(h) && Agrees(h, ledger) && ptr in ledger
    ensures Inv(h) && Live(h, ptr - 8)
  {
    assert ptr - 8 in LiveBlocks(h);
  }

  /** One call. */
  ghost function Called(s: State, limit: int, c: Call): Outcome
    requires Good(s, limit) && Allowed(s.ledger, c)
  {
    hide Inv, Malloc, Memalign, Realloc, Freed;
    match c
    case MallocCall(size) => Malloc(Started(s.heap), limit, size)
    case FreeCall(ptr) => HeldIsLive(s.heap, s.ledger, ptr); Outcome(Freed(s.heap, ptr - 8), 0)
    case ReallocCall(ptr, size) => HeldIsLive(s.heap, s.ledger, ptr); Realloc(s.heap, limit, ptr - 8, size)
    case MemalignCall(size, align) =>
      if size == 0 || BadArguments(size, align) then Outcome(s.heap, 0) else
        StartedFits(s, limit); Memalign(Started(s.heap), limit, size, align)
  }

  lemma StartedFits(s: State, limit: int)
    requires Good(s, limit)
    ensures Started(s.heap).end <= limit
  {
  }

  ghost function After(s: State, limit: int, c: Call): (t: State)
    requires Good(s, limit) && Allowed(s.ledger, c)
    ensures Good(t, limit)
  {
    CallKeepsGood(s, limit, c);
    var r := Called(s, limit, c);
    State(r.heap, Entered(s.ledger, c, r.ptr))
  }

  lemma NewCovers(live: map<int, int>, held: Ledger, g: Heap, ptr: int, size: int)
    requires Covers(live, held) && Request(size) && NewBlock(live, g, ptr - 8, Adjusted(size))
    ensures Agrees(g, held[ptr := size])
  {
    hide LiveBlocks, Adjusted, Request;
    var length := g.tags[ptr - 8].size;
    assert Suits(length, size);
    assert LiveBlocks(g) == live[ptr - 8 := length];
  }

  lemma WithoutCovers(live: map<int, int>, ledger: Ledger, ptr: int)
    requires Covers(live, ledger)
    ensures Covers(live - {ptr - 8}, ledger - {ptr})
  {
    hide Suits;
  }

  lemma MallocKeepsGood(s: State, limit: int, size: int)
    requires Good(s, limit) && Request(size)
    ensures var r := Malloc(Started(s.heap), limit, size);
            Good(State(r.heap, Entered(s.ledger, MallocCall(size), r.ptr)), limit)
  {
    hide Inv, Malloc, LiveBlocks, Exhausted, Adjusted, Request, Covers, NewBlock;
    var h, r := s.heap, Malloc(Started(s.heap), limit, size);
    StartedFits(s, limit);
    if size == 0 {
      MallocZero(Started(h), limit);
    } else {
      NotNegative(size);
      MallocCorrect(Started(h), limit, size);
      if r.ptr != 0 { NewCovers(LiveBlocks(h), s.ledger, r.heap, r.ptr, size); }
    }
  }

  lemma NotNegative(size: int)
    requires Request(size)
    ensures size >= 0
  {
  }

  lemma CallKeepsGood(s: State, limit: int, c: Call)
    requires Good(s, limit) && Allowed(s.ledger, c)
    ensures var r := Called(s, limit, c); Good(State(r.heap, Entered(s.ledger, c, r.ptr)), limit)
  {
    hide Inv, Malloc, Memalign, Realloc, Freed, LiveBlocks, Exhausted, Adjusted, Request, Covers, NewBlock;
    var r, h := Called(s, limit, c), s.heap;
    StartedFits(s, limit);
    match c
    case MallocCall(size) =>
      MallocKeepsGood(s, limit, size);
    case FreeCall(ptr) =>
      HeldIsLive(h, s.ledger, ptr);
      FreedCorrect(h, ptr - 8);
      WithoutCovers(LiveBlocks(h), s.ledger, ptr);
    case ReallocCall(ptr, size) =>
      HeldIsLive(h, s.ledger, ptr);
      ReallocCorrect(h, limit, ptr - 8, size);
      WithoutCovers(LiveBlocks(h), s.ledger, ptr);
      if r.ptr != 0 { NewCovers(LiveBlocks(h) - {ptr - 8}, s.ledger - {ptr}, r.heap, r.ptr, size); }
    case MemalignCall(size, align) =>
      if !(size == 0 || BadArguments(size, align)) {
        MemalignCorrect(Started(h), limit, size, align);
        if r.ptr != 0 { NewCovers(LiveBlocks(h), s.ledger, r.heap, r.ptr, size); }
      }
  }

  lemma MallocZero(h: Heap, limit: int)
    requires Inv(h)
    ensures Request(0) && Malloc(h, limit, 0) == Outcome(h, 0)
  {
  }

  // ---- runs ----

  datatype Result = Broken | Reached(state: State)

  /** A run of calls; Broken if the program passes on a pointer it does not hold or a size out of range. */
  ghost function Run(s: State, limit: int, calls: seq<Call>): (r: Result)
    requires Good(s, limit)
    ensures r.Reached? ==> Good(r.state, limit)
    decreases |calls|
  {
    if calls == [] then Reached(s)
    else if !Allowed(s.ledger, calls[0]) then Broken
    else Run(After(s, limit, calls[0]), limit, calls[1..])
  }

  ghost predicate Reachable(start: int, limit: int, s: State)
    requires start >= 0 && start % 16 == 0 && start + PAGE_SIZE <= limit
  {
    BlankIsGood(start, limit);
    exists calls :: Run(State(Blank(start), map[]), limit, calls) == Reached(s)
  }

  lemma BlankIsGood(start: int, limit: int)
    requires start >= 0 && start % 16 == 0 && start + PAGE_SIZE <= limit
    ensures Good(State(Blank(start), map[]), limit)
  {
  }

  /** The sizes of all blocks, met by walking from the first block to the epilogue. */
  function BlockBytes(h: Heap): int
    requires Inv(h)
  {
    WalkExact(h.tags, h.First(), h.Epilogue(), h.First());
    Total(h.tags, Walk(h.tags, h.First(), h.Epilogue(), h.First()))
  }

  /**
   * Every reachable heap in use has the whole invariant, and its blocks account for every byte but the 48 of
   * prologue and epilogue.
   */
  lemma ReachableHeap(start: int, limit: int, s: State)
    requires start >= 0 && start % 16 == 0 && start + PAGE_SIZE <= limit && Reachable(start, limit, s)
    ensures Good(s, limit)
    ensures s.heap.end != s.heap.start ==> Inv(s.heap)
    ensures Inv(s.heap) ==> BlockBytes(s.heap) == s.heap.end - s.heap.start - 48
  {
    var calls :| Run(State(Blank(start), map[]), limit, calls) == Reached(s);
    hide Inv;
    if s.heap.end == s.heap.start { BlankHoldsNothing(s.heap); }
    SizesAddUp(s.heap);
  }

  lemma SizesAddUp(h: Heap)
    ensures Inv(h) ==> BlockBytes(h) == h.end - h.start - 48
  {
    if Inv(h) { WalkExact(h.tags, h.First(), h.Epilogue(), h.First()); }
  }

  /**
   * What a program holds is 16-byte aligned, inside the heap, and no two payloads overlap, not even with the
   * headers between them.
   */
  lemma PayloadsApart(s: State, limit: int, p: int, q: int)
    requires Good(s, limit) && p in s.ledger && q in s.ledger && p != q
    ensures p % 16 == 0 && s.heap.start + 48 <= p && p + s.ledger[p] <= s.heap.end - 8
    ensures p + s.ledger[p] <= q - 8 || q + s.ledger[q] <= p - 8
  {
    hide Inv, Covers, LiveBlocks;
    HeldBlock(s.heap, s.ledger, p);
    HeldBlock(s.heap, s.ledger, q);
    LiveApart(s.heap, p - 8, q - 8);
  }

  lemma HeldBlock(h: Heap, ledger: Ledger, p: int)
    requires Usable(h) && Agrees(h, ledger) && p in ledger
    ensures Inv(h) && Live(h, p - 8) && h.tags[p - 8].size >= ledger[p] + 8
  {
    hide Inv;
    HeldIsLive(h, ledger, p);
    assert Suits(LiveBlocks(h)[p - 8], ledger[p]);
  }

  lemma LiveApart(h: Heap, a: int, b: int)
    requires Inv(h) && Live(h, a) && Live(h, b) && a != b
    ensures a % 16 == 8 && h.First() <= a && a + h.tags[a].size <= h.Epilogue()
    ensures a + h.tags[a].size <= b || b + h.tags[b].size <= a
  {
    assert BlockShape(h.tags, h.First(), h.Epilogue(), a);
  }

  /** When everything has been given back, one free block covers the whole heap, and it is the wilderness. */
  lemma AllGivenBack(s: State, limit: int)
    requires Good(s, limit) && s.ledger == map[] && s.heap.end != s.heap.start
    ensures var h, first := s.heap, s.heap.First();
            && h.tags == map[first := Tag(h.end - h.start - 48, true, false), h.Epilogue() := Tag(0, false, true)]
            && h.lists == [[], [], [], [], [], [], [], [first]]
  {
    var h := s.heap;
    forall a
      ensures !Live(h, a)
    {
      assert a !in LiveBlocks(h);
    }
    OnlyFree(h);
    OneFreeBlock(h);
  }

  lemma OnlyFree(h: Heap)
    requires Inv(h) && forall a :: !Live(h, a)
    ensures var first, epi := h.First(), h.Epilogue();
            h.tags == map[first := Tag(epi - first, true, false), epi := Tag(0, false, true)]
  {
    var first, epi := h.First(), h.Epilogue();
    assert !Live(h, first);
    FreeHasNext(h, first);
    assert !Live(h, Next(h.tags, first));
    forall a | a in h.tags
      ensures a == first || a == epi
    {
      assert BlockShape(h.tags, first, epi, a);
    }
    assert BlockShape(h.tags, first, epi, epi);
  }

  lemma OneFreeBlock(h: Heap)
    requires Inv(h)
    requires h.tags == map[h.First() := Tag(h.Epilogue() - h.First(), true, false), h.Epilogue() := Tag(0, false, true)]
    ensures h.lists == [[], [], [], [], [], [], [], [h.First()]]
  {
    assert Homes(h.tags, h.Epilogue()) == map[h.First() := WILDERNESS];
    OneHome(h.lists, h.First());
  }

  lemma OneHome(lists: seq<seq<int>>, a: int)
    requires Holds(lists, map[a := WILDERNESS])
    ensures lists == [[], [], [], [], [], [], [], [a]]
  {
    forall i | 0 <= i < 8
      ensures lists[i] == if i == WILDERNESS then [a] else []
    {
      assert a in lists[i] <==> i == WILDERNESS;
      Single(lists[i], a);
    }
  }

  lemma Single(l: seq<int>, a: int)
    requires NoDup(l) && forall x :: x in l ==> x == a
    ensures l == if a in l then [a] else []
  {
    assert forall k :: 0 <= k < |l| ==> l[k] in l;
    if l != [] {
      var last := |l| - 1;
      assert l[0] == a && l[last] == a;
    }
  }

  /**
   * A free block is in exactly one list, once: the wilderness list if it is the last block, its size class
   * otherwise.
   */
  lemma FiledOnce(h: Heap, a: int)
    requires Inv(h) && a in h.tags && !h.tags[a].alloc
    ensures var home := if a + h.tags[a].size == h.end - 8 then WILDERNESS else ClassIndex(h.tags[a].size);
            && (forall i :: 0 <= i < 8 ==> (a in h.lists[i] <==> i == home))
            && multiset(h.lists[home])[a] == 1
    ensures |h.lists[WILDERNESS]| <= 1
  {
    WildernessIsLast(h);
    var home := Homes(h.tags, h.Epilogue());
    assert a in home;
    OnceInSeq(h.lists[home[a]], a);
  }

  lemma {:induction false} OnceInSeq(l: seq<int>, a: int)
    requires NoDup(l) && a in l
    ensures multiset(l)[a] == 1
  {
    assert l == [l[0]] + l[1..];
    if l[0] == a {
      assert a !in l[1..];
    } else {
      OnceInSeq(l[1..], a);
    }
  }
}
