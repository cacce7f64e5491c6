/** Division and remainder by a variable, from the uniqueness of quotients. */
module Arithmetic {

  const U64: nat := 0x1_0000_0000_0000_0000

  /** A larger multiple of `n` is larger by `n` at least. */
  lemma Ahead(q: nat, p: nat, n: nat)
    requires q < p
    ensures q * n + n <= p * n
  {
    assert (p - q) * n == (p - q - 1) * n + n;
    assert p * n == q * n + (p - q) * n;
  }

  lemma Quotient(a: nat, n: nat, b: nat)
    requires b < n
    ensures (a * n + b) / n == a && (a * n + b) % n == b
  {
    var q := (a * n + b) / n;
    assert a * n + b == q * n + (a * n + b) % n;
    if q < a { Ahead(q, a, n); } else if a < q { Ahead(a, q, n); }
  }

  /** The remainder is never negative. */
  lemma NegativeMod(d: int, n: nat)
    requires 0 < d < n
    ensures (-d) % n == n - d
  {
    assert -d == (-1) * n + (n - d);
  }

  /** Stepping round a ring: add one, wrapping at `n`. */
  lemma RingStep(k: nat, n: nat)
    requires n > 0
    ensures (k + 1) % n == if k % n + 1 == n then 0 else k % n + 1
  {
    var q, r := k / n, k % n;
    assert k == q * n + r;
    if r + 1 == n {
      assert k + 1 == (q + 1) * n + 0;
      Quotient(q + 1, n, 0);
    } else {
      Quotient(q, n, r + 1);
    }
  }

  /** Two positions less than one lap apart, or exactly one lap, meet only when equal or a lap apart. */
  lemma RingMeets(a: nat, b: nat, n: nat)
    requires n > 0 && b <= a <= b + n
    ensures a % n == b % n <==> a == b || a == b + n
  {
    var q, r, d := b / n, b % n, a - b;
    assert b == q * n + r;
    if r + d < n {
      Quotient(q, n, r + d);
    } else {
      assert (q + 1) * n == q * n + n;
      Quotient(q + 1, n, r + d - n);
    }
  }

  function Pow2(b: nat): (p: nat)
    ensures p >= 1
  {
    if b == 0 then 1 else 2 * Pow2(b - 1)
  }

  /** The least b with n <= 2^b. */
  function CeilLog2(n: nat): (b: nat)
    requires n >= 1
    ensures n <= Pow2(b)
    ensures b > 0 ==> Pow2(b - 1) < n
  {
    if n == 1 then 0 else 1 + CeilLog2((n + 1) / 2)
  }

  lemma {:induction false} Pow2Adds(a: nat, b: nat)
    ensures Pow2(a + b) == Pow2(a) * Pow2(b)
  {
    if b == 0 {
    } else {
      Pow2Adds(a, b - 1);
      assert Pow2(a + b) == 2 * Pow2(a + (b - 1));
    }
  }

  lemma Parts(x: nat, m: nat)
    requires m > 0
    ensures x == (x / m) * m + x % m && x % m < m
  {
  }

  /** Two digits of a number written with the bases n and m. */
  lemma TwoDigits(q: nat, r: nat, s: nat, m: nat, n: nat)
    requires r < n && s < m
    ensures (q * n + r) * m + s == q * (m * n) + (r * m + s) && r * m + s < m * n
  {
    Ahead(r, n, m);
    assert (q * n) * m == q * (m * n);
  }

  /** Dividing twice is dividing by the product. */
  lemma DivideTwice(x: nat, m: nat, n: nat)
    requires m > 0 && n > 0
    ensures m * n > 0 && (x / m) / n == x / (m * n)
  {
    var y, s := x / m, x % m;
    var q, r := y / n, y % n;
    Parts(x, m);
    Parts(y, n);
    TwoDigits(q, r, s, m, n);
    Quotient(q, m * n, r * m + s);
  }
}
