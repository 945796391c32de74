/** Powers of two, quotients and remainders. */
module Numbers {

  /** One more than the largest unsigned long. */
  const WORD: nat := 0x1_0000_0000_0000_0000

  /** The C operator `>>` on an unsigned long. */
  function Shr(i: nat, s: nat): nat
  {
    if s == 0 then i else Shr(i, s - 1) / 2
  }

  function Min(a: nat, b: nat): nat { if a < b then a else b }

  function Max(a: nat, b: nat): nat { if a < b then b else a }

  function Pow2(n: nat): (p: nat)
    ensures p > 0
  {
    if n == 0 then 1 else 2 * Pow2(n - 1)
  }

  lemma HalfMod(x: nat, b: nat, p: nat)
    requires p > 0 && b < 2
    ensures (2 * x + b) % (2 * p) == 2 * (x % p) + b
  {
    var d, m := x / p, x % p;
    assert x == d * p + m;
    assert 2 * x + b == d * (2 * p) + (2 * m + b);
    ModUnique(2 * x + b, 2 * p, d, 2 * m + b);
  }

  lemma HalfDiv(x: nat, b: nat, p: nat)
    requires p > 0 && b < 2
    ensures (2 * x + b) / (2 * p) == x / p
  {
    var d, m := x / p, x % p;
    assert x == d * p + m;
    assert 2 * x + b == d * (2 * p) + (2 * m + b);
    DivUnique(2 * x + b, 2 * p, d, 2 * m + b);
  }

  lemma AtLeast(z: int, n: int)
    requires n > 0
    ensures z >= 1 ==> z * n >= n
    ensures z <= -1 ==> z * n <= -n
  {
  }

  lemma ModUnique(x: nat, n: nat, d: nat, m: nat)
    requires n > 0 && x == d * n + m && m < n
    ensures x % n == m
  {
    var k, r := x / n, x % n;
    assert x == k * n + r && 0 <= r < n;
    assert (k - d) * n == k * n - d * n;
    AtLeast(k - d, n);
  }

  lemma {:induction false} PowSum(m: nat, n: nat)
    ensures Pow2(m + n) == Pow2(m) * Pow2(n)
  {
    if m != 0 {
      PowSum(m - 1, n);
      assert 2 * (Pow2(m - 1) * Pow2(n)) == (2 * Pow2(m - 1)) * Pow2(n);
    }
  }

  lemma {:induction false} PowMonotone(m: nat, n: nat)
    requires m <= n
    ensures Pow2(m) <= Pow2(n)
    decreases n - m
  {
    if m < n {
      PowMonotone(m + 1, n);
    }
  }

  lemma Pow64()
    ensures Pow2(32) == 0x1_0000_0000 && Pow2(63) == 0x8000_0000_0000_0000 && Pow2(64) == 0x1_0000_0000_0000_0000
  {
    assert Pow2(8) == 0x100;
    PowSum(8, 8);
    PowSum(16, 16);
    PowSum(32, 32);
  }

  /** Quotient and remainder are unique. */
  lemma DivUnique(x: nat, n: nat, d: nat, m: nat)
    requires n > 0 && x == d * n + m && m < n
    ensures x / n == d && x % n == m
  {
    ModUnique(x, n, d, m);
    assert (x / n) * n + m == d * n + m;
    AtLeast(x / n - d, n);
  }

  lemma Distribute(a: int, b: int, n: int)
    ensures (a + b) * n == a * n + b * n && (a - b) * n == a * n - b * n
  {
  }

  lemma Twice(base: int, d: int)
    ensures base * (2 * d) == 2 * (base * d)
  {
  }

  /** Shifting to the right is a division. */
  lemma {:induction false} ShrDivides(x: nat, s: nat)
    ensures Shr(x, s) == x / Pow2(s)
  {
    if s > 0 {
      ShrDivides(x, s - 1);
      TwiceDivides(x, Pow2(s - 1));
    }
  }

  lemma TwiceDivides(x: nat, p: nat)
    requires p > 0
    ensures x / p / 2 == x / (2 * p)
  {
    var y, m := x / p, x % p;
    assert x == y * p + m;
    HalfSum(y / 2, y % 2, p, m);
    DivUnique(x, 2 * p, y / 2, (y % 2) * p + m);
  }

  lemma HalfSum(d: nat, e: nat, p: nat, m: nat)
    requires e < 2 && m < p
    ensures (2 * d + e) * p + m == d * (2 * p) + (e * p + m) && e * p + m < 2 * p
  {
  }
}
