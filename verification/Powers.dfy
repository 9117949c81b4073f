/** Powers of two, and the binary digits of natural numbers. */
module Powers {
  function Pow2(k: nat): (p: int)
    ensures p >= 1
  {
    if k == 0 then 1 else 2 * Pow2(k - 1)
  }

  /** pow2 of hw1/src/helpingFunctions.c and of hw3/src/helpingFunction.c. */
  method ComputePow2(exp: int) returns (sum: int)
    ensures sum == if exp <= 0 then 1 else Pow2(exp)
  {
    sum := 1;
    for i := 0 to if exp < 0 then 0 else exp
      invariant sum == Pow2(i)
    {
      sum := sum * 2;
    }
  }

  lemma Pow2Zero()
    ensures Pow2(0) == 1
  {
  }

  lemma {:induction false} Pow2Monotone(a: nat, b: nat)
    requires a <= b
    ensures Pow2(a) <= Pow2(b)
    decreases b
  {
    if a < b { Pow2Monotone(a, b - 1); }
  }

  lemma Pow2Strict(a: nat, b: nat)
    requires a < b
    ensures Pow2(a) < Pow2(b)
  {
    Pow2Monotone(a, b - 1);
  }

  lemma {:induction false} Pow2Add(a: nat, b: nat)
    ensures Pow2(a + b) == Pow2(a) * Pow2(b)
  {
    if b > 0 {
      Pow2Add(a, b - 1);
      assert a + b - 1 == a + (b - 1);
    }
  }

  ghost predicate IsPow2(n: int) { exists k: nat :: n == Pow2(k) }

  // ---- binary digits ----

  /** Digit `b` of `x`. */
  predicate Bit(x: nat, b: nat)
    decreases b
  {
    if b == 0 then x % 2 == 1 else Bit(x / 2, b - 1)
  }

  /** `x` without its lowest `s` digits. */
  function Shr(x: nat, s: nat): nat
    decreases s
  {
    if s == 0 then x else Shr(x / 2, s - 1)
  }

  lemma {:induction false} ShrIsDivision(x: nat, s: nat)
    ensures Shr(x, s) == x / Pow2(s)
  {
    if s > 0 {
      ShrIsDivision(x / 2, s - 1);
      HalfThenDivide(x, Pow2(s - 1));
    }
  }

  lemma HalfThenDivide(x: nat, m: int)
    requires m >= 1
    ensures x / 2 / m == x / (2 * m)
  {
    var q := x / (2 * m);
    var rest := x % (2 * m);
    assert x == 2 * (m * q) + rest;
    assert x / 2 == m * q + rest / 2;
    QuotientIs(x / 2, m, q, rest / 2);
  }

  lemma QuotientIs(x: int, m: int, q: int, rest: int)
    requires m >= 1 && x == m * q + rest && 0 <= rest < m
    ensures x / m == q && x % m == rest
  {
    var k, r := x / m, x % m;
    assert x == m * k + r;
    if k > q {
      Apart(m, k, q);
    } else if k < q {
      Apart(m, q, k);
    }
  }

  lemma {:induction false} Apart(m: int, k: int, q: int)
    requires m >= 1 && k > q
    ensures m * k >= m * q + m
    decreases k - q
  {
    TimesOneMore(m, k - 1);
    if k > q + 1 { Apart(m, k - 1, q); }
  }

  lemma TimesOneMore(m: int, k: int)
    ensures m * (k + 1) == m * k + m
  {
  }

  lemma {:induction false} ShrBit(x: nat, s: nat, b: nat)
    ensures Bit(Shr(x, s), b) == Bit(x, b + s)
  {
    if s > 0 { ShrBit(x / 2, s - 1, b); }
  }

  lemma {:induction false} ShrAdd(x: nat, s: nat, u: nat)
    ensures Shr(Shr(x, s), u) == Shr(x, s + u)
  {
    if s > 0 { ShrAdd(x / 2, s - 1, u); }
  }

  /** Numbers below 2^e have no digit from `e` on. */
  lemma {:induction false} BitAbove(x: nat, e: nat, b: nat)
    requires x < Pow2(e) && e <= b
    ensures !Bit(x, b)
  {
    if b > 0 { BitAbove(x / 2, if e == 0 then 0 else e - 1, b - 1); }
  }

  /** Adding 2^e to a smaller number sets digit `e` and no other. */
  lemma {:induction false} BitOfSum(x: nat, e: nat, b: nat)
    requires x < Pow2(e)
    ensures Bit(x + Pow2(e), b) == (b == e || Bit(x, b))
  {
    if b == 0 {
    } else if e == 0 {
      BitAbove(0, 0, b - 1);
      BitAbove(0, 0, b);
    } else {
      BitOfSum(x / 2, e - 1, b - 1);
      assert (x + Pow2(e)) / 2 == x / 2 + Pow2(e - 1);
    }
  }

  ghost predicate AgreeBelow(x: nat, y: nat, n: int) {
    forall b: nat :: b < n ==> Bit(x, b) == Bit(y, b)
  }

  /** Equal digits, equal numbers. */
  lemma {:induction false} SameBits(x: nat, y: nat, n: nat)
    requires x < Pow2(n) && y < Pow2(n) && AgreeBelow(x, y, n)
    ensures x == y
  {
    if n > 0 {
      assert Bit(x, 0) == Bit(y, 0);
      forall b: nat | b < n - 1
        ensures Bit(x / 2, b) == Bit(y / 2, b)
      {
        assert Bit(x, b + 1) == Bit(y, b + 1);
      }
      SameBits(x / 2, y / 2, n - 1);
    }
  }

  // ---- masks ----

  /** Bitwise and. */
  function And(x: nat, y: nat): nat
    decreases y
  {
    if y == 0 then 0 else 2 * And(x / 2, y / 2) + (if x % 2 == 1 && y % 2 == 1 then 1 else 0)
  }

  /** Masking with a power of two tests one digit. */
  lemma {:induction false} AndPow2(x: nat, b: nat)
    ensures And(x, Pow2(b)) == if Bit(x, b) then Pow2(b) else 0
  {
    if b == 0 {
      assert And(x / 2, 0) == 0;
    } else {
      AndPow2(x / 2, b - 1);
    }
  }
}
