/** Python's unbounded integers under the bitwise `&` operator, and the power-of-two test
    `n & (n - 1) == 0` that both stats cogs build on. */
module PyInt {

  function Abs(x: int): nat {
    if x < 0 then -x else x
  }

  /** Python's `a & b`: integers behave as infinite two's-complement bit strings.
      Division by 2 floors and `% 2` is the lowest bit, also for negative numbers. */
  function BitAnd(a: int, b: int): int
    decreases Abs(a) + Abs(b)
  {
    if a == 0 || b == 0 then 0
    else if a == -1 then b
    else if b == -1 then a
    else
      HalvingShrinks(a);
      HalvingShrinks(b);
      2 * BitAnd(a / 2, b / 2) + (a % 2) * (b % 2)
  }

  lemma HalvingShrinks(x: int)
    requires x != 0 && x != -1
    ensures Abs(x / 2) < Abs(x)
  {
  }

  function Pow2(k: nat): (p: nat)
    ensures p >= 1
  {
    if k == 0 then 1 else 2 * Pow2(k - 1)
  }

  ghost predicate IsPowerOfTwo(n: int) {
    exists k: nat :: n == Pow2(k)
  }

  lemma {:induction false} BitAndSelf(m: int)
    ensures BitAnd(m, m) == m
    decreases Abs(m)
  {
    if m != 0 && m != -1 {
      HalvingShrinks(m);
      BitAndSelf(m / 2);
      assert (m % 2) * (m % 2) == m % 2;
    }
  }

  lemma {:induction false} BitAndOfNegatives(a: int, b: int)
    requires a < 0 && b < 0
    ensures BitAnd(a, b) < 0
    decreases Abs(a) + Abs(b)
  {
    if a != -1 && b != -1 {
      HalvingShrinks(a);
      HalvingShrinks(b);
      BitAndOfNegatives(a / 2, b / 2);
    }
  }

  lemma PowerOfTwoHalf(m: nat)
    requires m >= 1
    ensures IsPowerOfTwo(2 * m) <==> IsPowerOfTwo(m)
  {
    if IsPowerOfTwo(m) {
      var k: nat :| m == Pow2(k);
      assert 2 * m == Pow2(k + 1);
    }
    if IsPowerOfTwo(2 * m) {
      var k: nat :| 2 * m == Pow2(k);
      assert k != 0;
      assert m == Pow2(k - 1);
    }
  }

  lemma OddPowerOfTwo(n: int)
    requires n > 1 && n % 2 == 1
    ensures !IsPowerOfTwo(n)
  {
    forall k: nat
      ensures n != Pow2(k)
    {
      if k > 0 {
        assert Pow2(k) % 2 == 0;
      }
    }
  }

  lemma NegativeNotPowerOfTwo(n: int)
    requires n <= 0
    ensures !IsPowerOfTwo(n)
  {
  }

  /** `n & (n - 1) == 0` holds exactly for zero and the powers of two, on every integer. */
  lemma {:induction false} BitTrickIsPowerOfTwo(n: int)
    ensures BitAnd(n, n - 1) == 0 <==> n == 0 || IsPowerOfTwo(n)
    decreases Abs(n)
  {
    if n < 0 {
      BitAndOfNegatives(n, n - 1);
      NegativeNotPowerOfTwo(n);
    } else if n == 0 {
    } else if n == 1 {
      assert 1 == Pow2(0);
    } else if n % 2 == 0 {
      var m := n / 2;
      assert (n - 1) / 2 == m - 1 && (n - 1) % 2 == 1;
      assert BitAnd(n, n - 1) == 2 * BitAnd(m, m - 1);
      BitTrickIsPowerOfTwo(m);
      NegativeNotPowerOfTwo(0);
      PowerOfTwoHalf(m);
    } else {
      var m := n / 2;
      assert (n - 1) / 2 == m && (n - 1) % 2 == 0;
      assert BitAnd(n, n - 1) == 2 * BitAnd(m, m);
      BitAndSelf(m);
      OddPowerOfTwo(n);
    }
  }
}
