// 32-bit machine words, as the drivers' rt_uint32_t arithmetic uses them.
module Words {
  type Word = w: int | 0 <= w < 0x1_0000_0000

  /** Unsigned 32-bit result of an operation whose exact result is x. */
  function Wrap(x: int): Word {
    x % 0x1_0000_0000
  }

  function Pow2(k: nat): (p: nat)
    ensures p > 0
  {
    if k == 0 then 1 else 2 * Pow2(k - 1)
  }

  /** Bitwise or, bit by bit. */
  function Or(a: nat, b: nat): nat
    decreases a + b
  {
    if a == 0 && b == 0 then 0
    else (if a % 2 == 1 || b % 2 == 1 then 1 else 0) + 2 * Or(a / 2, b / 2)
  }

  /** `|` on machine words. */
  function OrWord(a: Word, b: Word): Word {
    Wrap(Or(a, b))
  }

  lemma {:induction false} OrZero(a: nat)
    ensures Or(a, 0) == a && Or(0, a) == a
    decreases a
  {
    if a > 0 {
      OrZero(a / 2);
    }
  }

  /** Or-ing a field into clear low bits is addition. */
  lemma {:induction false} OrFields(hi: nat, lo: nat, k: nat)
    requires lo < Pow2(k)
    ensures Or(hi * Pow2(k), lo) == Or(lo, hi * Pow2(k)) == hi * Pow2(k) + lo
    decreases k
  {
    if k == 0 {
      OrZero(hi);
    } else {
      var half := hi * Pow2(k - 1);
      assert hi * Pow2(k) == 2 * half;
      OrFields(hi, lo / 2, k - 1);
    }
  }

  lemma {:induction false} OrIdempotent(a: nat, b: nat)
    ensures Or(Or(a, b), b) == Or(a, b)
    decreases a + b
  {
    if a == 0 && b == 0 {
    } else {
      OrIdempotent(a / 2, b / 2);
      var r := Or(a, b);
      assert r / 2 == Or(a / 2, b / 2);
    }
  }

  /** Quotient and remainder are determined by their equation. */
  lemma DivUnique(n: int, u: int, q: int, r: int)
    requires u > 0 && 0 <= r < u && n == q * u + r
    ensures n / u == q && n % u == r
  {
    var d := n / u - q;
    assert n == n / u * u + n % u;
    assert d * u == r - n % u by {
      assert (n / u - q) * u == n / u * u - q * u;
    }
    assert d < 1 by {
      if d >= 1 { MulAtLeast(d, u); }
    }
    assert d > -1 by {
      if d <= -1 { MulAtLeast(-d, u); }
    }
  }

  lemma MulAtLeast(d: int, u: int)
    requires d >= 1 && u > 0
    ensures d * u >= u && (-d) * u <= -u
  {
    assert (d - 1) * u >= 0;
  }

  /** Remainders of two numbers less than `n` apart differ. */
  lemma RemaindersDiffer(a: nat, b: nat, n: nat)
    requires n > 0 && a < b < a + n
    ensures a % n != b % n
  {
    var q, r, d := a / n, a % n, b - a;
    assert a == q * n + r;
    if r + d < n {
      DivUnique(b, n, q, r + d);
    } else {
      assert b == (q + 1) * n + (r + d - n);
      DivUnique(b, n, q + 1, r + d - n);
    }
  }

  lemma NextRemainder(a: nat, n: nat)
    requires n > 0
    ensures (a + 1) % n == if a % n == n - 1 then 0 else a % n + 1
  {
    var q, r := a / n, a % n;
    assert a == q * n + r;
    if r == n - 1 {
      assert a + 1 == (q + 1) * n;
      DivUnique(a + 1, n, q + 1, 0);
    } else {
      DivUnique(a + 1, n, q, r + 1);
    }
  }
}
