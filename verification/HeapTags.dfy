/** Boundary tags and request arithmetic of the allocator (hw3/src/helpingFunction.c, hw3/include/sfmm.h). */
module HeapTags {
  import opened Powers

  const PAGE_SIZE := 8192
  const MIN_BLOCK := 32
  const SIZE_MAX := 0x1_0000_0000_0000_0000
  const WILDERNESS := 7

  /** The three facts a header (or footer) word holds: block length, "previous block is allocated", "allocated". */
  datatype Tag = Tag(size: int, pal: bool, alloc: bool)

  // ---- the word operations of the source, on words as natural numbers ----

  /** `(word >> 4) << 4` */
  function SizeOf(word: int): int { word / 16 * 16 }

  /** `word & THIS_BLOCK_ALLOCATED` */
  function AllocBit(word: int): int { word % 2 }

  /** `word & PREV_BLOCK_ALLOCATED` */
  function PrevBit(word: int): int { word / 2 % 2 * 2 }

  /** `word | THIS_BLOCK_ALLOCATED` */
  function SetAlloc(word: int): int { if word % 2 == 1 then word else word + 1 }

  /** `word | PREV_BLOCK_ALLOCATED` */
  function SetPrev(word: int): int { if word / 2 % 2 == 1 then word else word + 2 }

  function Pack(t: Tag): int { t.size + (if t.pal then 2 else 0) + (if t.alloc then 1 else 0) }

  function Unpack(word: int): Tag { Tag(SizeOf(word), PrevBit(word) == 2, AllocBit(word) == 1) }

  /** Header words and tags determine each other: reading a packed tag gives the tag back. */
  lemma PackUnpack(t: Tag)
    requires t.size % 16 == 0
    ensures Unpack(Pack(t)) == t
    ensures SizeOf(Pack(t)) == t.size
    ensures AllocBit(Pack(t)) == if t.alloc then 1 else 0
    ensures PrevBit(Pack(t)) == if t.pal then 2 else 0
    ensures SetAlloc(Pack(t)) == Pack(t.(alloc := true))
    ensures SetPrev(Pack(t)) == Pack(t.(pal := true))
  {
    var k := t.size / 16;
    var low := (if t.pal then 2 else 0) + (if t.alloc then 1 else 0);
    assert Pack(t) == 16 * k + low;
    assert Pack(t) / 16 == k;
    assert Pack(t) / 2 == 8 * k + low / 2;
  }

  // ---- multiples of 8 and 16 ----

  /** Sums of multiples of 8, which headers and lengths may be known to be by their remainder modulo 16. */
  lemma Eights(x: int, y: int)
    requires (x % 8 == 0 || x % 16 == 8 || x % 16 == 0) && (y % 8 == 0 || y % 16 == 8 || y % 16 == 0)
    ensures (x + y) % 8 == 0 && x % 8 == 0 && y % 8 == 0
  {
    EightOf(x);
    EightOf(y);
    SumOfEights(x, y);
  }

  lemma EightOf(x: int)
    requires x % 8 == 0 || x % 16 == 8 || x % 16 == 0
    ensures x % 8 == 0
  {
    var k, d := x / 16, x / 8;
    assert x == 16 * k + x % 16 && x == 8 * d + x % 8;
  }

  lemma SumOfEights(x: int, y: int)
    requires x % 8 == 0 && y % 8 == 0
    ensures (x + y) % 8 == 0
  {
    var a, b := x / 8, y / 8;
    assert x + y == 8 * (a + b);
  }

  lemma Sixteens(x: int, y: int)
    requires y % 16 == 0
    ensures (x + y) % 16 == x % 16 && (x - y) % 16 == x % 16
  {
    var a, b := x / 16, y / 16;
    assert x == 16 * a + x % 16 && y == 16 * b;
    assert x + y == 16 * (a + b) + x % 16 && x - y == 16 * (a - b) + x % 16;
  }

  // ---- powerOf2: the test that sf_memalign applies to its alignment ----

  /** Conversion of a `size_t` to `int` on a two's complement machine. */
  function ToInt32(n: int): int {
    var low := n % 0x1_0000_0000;
    if low >= 0x8000_0000 then low - 0x1_0000_0000 else low
  }

  /** The number of halvings until at most 1 is left. */
  function Halvings(n: int): nat
    decreases n
  {
    if n <= 1 then 0 else 1 + Halvings(n / 2)
  }

  lemma {:induction false} HalvingsBracket(n: int)
    requires n >= 1
    ensures Pow2(Halvings(n)) <= n < 2 * Pow2(Halvings(n))
    decreases n
  {
    if n > 1 { HalvingsBracket(n / 2); }
  }

  lemma BracketUnique(n: int, k: nat)
    requires n == Pow2(k)
    ensures Halvings(n) == k
  {
    HalvingsBracket(n);
    var h := Halvings(n);
    if h < k {
      Pow2Monotone(h + 1, k);
    } else if k < h {
      Pow2Strict(k, h);
    }
  }

  /**
   * The test accepts exactly the powers of two below 2^31: the working copy is an `int`,
   * so larger powers of two are rejected.
   */
  method PowerOf2(size: int) returns (ok: bool)
    requires 0 <= size < SIZE_MAX
    ensures ok <==> IsPow2(size) && size < 0x8000_0000
  {
    var counter := 0;
    var working := ToInt32(size);
    ghost var w0 := working;
    while working > 1
      invariant counter + Halvings(working) == Halvings(w0)
    {
      working := working / 2;
      counter := counter + 1;
    }
    var checking := 1;
    for i := 0 to counter
      invariant checking == Pow2(i)
    {
      checking := checking * 2;
    }
    ok := checking == size;
    PowerOf2Correct(size, counter);
  }

  lemma PowerOf2Correct(size: int, counter: nat)
    requires 0 <= size < SIZE_MAX && counter == Halvings(ToInt32(size))
    ensures Pow2(counter) == size <==> IsPow2(size) && size < 0x8000_0000
  {
    var w := ToInt32(size);
    if size < 0x8000_0000 {
      assert w == size;
      if IsPow2(size) {
        var k: nat :| size == Pow2(k);
        BracketUnique(size, k);
      }
    } else if w > 1 {
      HalvingsBracket(w);
    }
  }

  // ---- computeMemorySize: rounding up to a multiple of 16 ----

  /**
   * The source's arithmetic is defined: `multiple * 16` is computed in `int`, so rounding up
   * must stay below 2^31; a length that already is a multiple of 16 is returned untouched.
   */
  predicate Roundable(size: int) {
    0 <= size < SIZE_MAX && (size % 16 == 0 || (size / 16 + 1) * 16 < 0x8000_0000)
  }

  function RoundUp(size: int): (r: int)
    requires Roundable(size)
    ensures r % 16 == 0 && size <= r < size + 16
  {
    if size % 16 == 0 then size else (size / 16 + 1) * 16
  }

  lemma RoundUpIsLeast(size: int, m: int)
    requires Roundable(size) && m % 16 == 0 && size <= m
    ensures RoundUp(size) <= m
  {
  }

  method ComputeMemorySize(size: int) returns (r: int)
    requires Roundable(size)
    ensures r == RoundUp(size)
  {
    if size % 16 == 0 {
      return size;
    } else {
      var multiple := size / 16 + 1;
      return multiple * 16;
    }
  }

  /** A request whose adjusted size the source can compute. */
  predicate Request(size: int) {
    0 <= size && (size <= 24 || Roundable(size + 8))
  }

  /** The block length used for a request of `size` payload bytes. */
  function Adjusted(size: int): (r: int)
    requires Request(size)
    ensures r % 16 == 0 && r >= MIN_BLOCK && r >= size + 8
    ensures r == MIN_BLOCK || r < size + 24
  {
    if size <= 24 then MIN_BLOCK else RoundUp(size + 8)
  }

  // ---- computeMemoryIndex: size classes ----

  /** The least class whose upper bound admits `size`; class 6 has no bound. */
  function ClassFrom(size: int, i: nat): (c: nat)
    requires i <= 6
    ensures i <= c <= 6
    decreases 6 - i
  {
    if i == 6 || size <= MIN_BLOCK * Pow2(i) then i else ClassFrom(size, i + 1)
  }

  function ClassIndex(size: int): (c: nat)
    ensures c <= 6
  {
    ClassFrom(size, 0)
  }

  lemma {:induction false} ClassFromBounds(size: int, i: nat)
    requires i <= 6
    requires i == 0 || size > MIN_BLOCK * Pow2(i - 1)
    ensures var c := ClassFrom(size, i);
            && (c < 6 ==> size <= MIN_BLOCK * Pow2(c))
            && (c > 0 ==> size > MIN_BLOCK * Pow2(c - 1))
    decreases 6 - i
  {
    if i < 6 && size > MIN_BLOCK * Pow2(i) {
      ClassFromBounds(size, i + 1);
    }
  }

  /** Class 0 is (.., 32], class i is (32*2^(i-1), 32*2^i], class 6 is everything above 1024. */
  lemma ClassIndexBounds(size: int)
    ensures var c := ClassIndex(size);
            && (c < 6 ==> size <= MIN_BLOCK * Pow2(c))
            && (c > 0 ==> size > MIN_BLOCK * Pow2(c - 1))
  {
    ClassFromBounds(size, 0);
  }

  /** A smaller class only holds smaller blocks, so a search may skip the classes below the request's. */
  lemma LowerClassIsTooSmall(size: int, need: int)
    requires ClassIndex(size) < ClassIndex(need)
    ensures size < need
  {
    ClassIndexBounds(size);
    ClassIndexBounds(need);
    Pow2Monotone(ClassIndex(size), ClassIndex(need) - 1);
  }

  method ComputeMemoryIndex(size: int) returns (index: nat)
    ensures index == ClassIndex(size)
  {
    ClassIndexBounds(size);
    index := 6;
    for i := 0 to 7
      invariant i <= ClassIndex(size) && index == 6
    {
      if i == 6 {
        return i;
      }
      var below := ComputePow2(i - 1);
      var bound := ComputePow2(i);
      if i == 0 && size <= 32 {
        return i;
      } else if size > 32 * below && size <= 32 * bound {
        ClassReached(size, i);
        return i;
      }
    }
  }

  lemma ClassReached(size: int, i: nat)
    requires i <= ClassIndex(size) && size <= MIN_BLOCK * Pow2(i)
    ensures i == ClassIndex(size)
  {
    ClassIndexBounds(size);
    if i < ClassIndex(size) { Pow2Monotone(i, ClassIndex(size) - 1); }
  }

  /** leaveSplinter: what would be left after cutting `wanted` bytes is no block of its own. */
  predicate LeavesSplinter(blockLength: int, wanted: int) { blockLength - wanted < MIN_BLOCK }
}
