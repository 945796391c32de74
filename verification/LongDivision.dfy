/**
 64-bit division by a 32-bit number and multiply-then-divide, as built from shorter operations.
 */
module LongDivision {
  import opened Numbers

  newtype u32 = x: int | 0 <= x < 0x1_0000_0000
  newtype u64 = x: int | 0 <= x < 0x1_0000_0000_0000_0000

  /** The high half is divided first; what is left is less than `base` shifted by 32. */
  lemma ReduceHigh(n: nat, base: nat)
    requires n < WORD && 0 < base < 0x1_0000_0000
    ensures var h := (n / 0x1_0000_0000) / base;
      && h * base <= n / 0x1_0000_0000 && h * 0x1_0000_0000 < WORD
      && (h * base) * 0x1_0000_0000 <= n && n - (h * base) * 0x1_0000_0000 < base * 0x1_0000_0000
  {
    var high := n / 0x1_0000_0000;
    var h := high / base;
    assert high == h * base + high % base;
    assert h <= high by {
      Distribute(h, 0, base);
      AtLeast(h, base);
      if h > 0 {
        MulGrows(h, base);
      }
    }
  }

  lemma MulGrows(a: int, b: int)
    requires a >= 0 && b >= 1
    ensures a * b >= a
  {
  }

  /** Doubling: `b` is `base` times `d`, a power of two. */
  ghost predicate Doubled(b: u64, d: u64, base: u32, k: nat)
  {
    d as int == Pow2(k) && b as int == base as int * d as int && k < 64
  }

  /** _kc__div64_32(): no intermediate result leaves its type, although the doubling stops at the sign bit only. */
  method Div6432(n: u64, base: u32) returns (quotient: u64, remainder: u32)
    requires base > 0
    ensures quotient as int == n as int / base as int && remainder as int == n as int % base as int
  {
    hide Pow2, Doubled;
    var rem := n;
    var res: u64 := 0;
    var b: u64 := base as u64;
    var d: u64 := 1;
    var high: u32 := (rem / 0x1_0000_0000) as u32;
    ReduceHigh(n as int, base as int);
    if high >= base {
      high := high / base;
      res := high as u64 * 0x1_0000_0000;
      rem := rem - (high * base) as u64 * 0x1_0000_0000;
    }
    Assembled(n as int, base as int, high as int, res as int, rem as int);
    b, d := Climb(rem, base);
    res, rem := Subtract(rem, res, b, d, n, base);
    DivUnique(n as int, base as int, res as int, rem as int);
    return res, rem as u32;
  }

  lemma Assembled(n: nat, base: nat, high: nat, res: nat, rem: nat)
    requires n < WORD && 0 < base < 0x1_0000_0000
    requires (res == high * 0x1_0000_0000 && rem == n - (high * base) * 0x1_0000_0000) || (res == 0 && rem == n)
    ensures n == res * base + rem
  {
    assert (high * base) * 0x1_0000_0000 == (high * 0x1_0000_0000) * base;
  }

  /** The doubling loop. */
  method Climb(rem: u64, base: u32) returns (b: u64, d: u64)
    requires base > 0
    ensures exists k: nat :: Doubled(b, d, base, k)
    ensures rem as int < 2 * b as int
  {
    hide Pow2;
    b, d := base as u64, 1;
    ghost var k: nat := 0;
    PowZero();
    while 0 < b < 0x8000_0000_0000_0000 && b < rem
      invariant Doubled(b, d, base, k) && b > 0
      decreases 0x1_0000_0000_0000_0000 - b as int
    {
      Twice(base as int, d as int);
      PowNext(k);
      DoubledBound(b, d, base, k);
      b := b + b;
      d := d + d;
      k := k + 1;
    }
  }

  lemma PowZero()
    ensures Pow2(0) == 1
  {
  }

  lemma PowNext(k: nat)
    ensures Pow2(k + 1) == 2 * Pow2(k)
  {
  }

  lemma DoubledBound(b: u64, d: u64, base: u32, k: nat)
    requires Doubled(b, d, base, k) && b < 0x8000_0000_0000_0000 && base > 0
    ensures d as int < 0x8000_0000_0000_0000 && k < 63
  {
    MulGrows(d as int, base as int);
    if k >= 63 {
      Pow64();
      PowMonotone(63, k);
    }
  }

  /** The subtracting loop. */
  method Subtract(rem0: u64, res0: u64, b0: u64, d0: u64, ghost n: u64, base: u32) returns (res: u64, rem: u64)
    requires base > 0 && n as int == res0 as int * base as int + rem0 as int
    requires rem0 as int < 2 * b0 as int
    requires exists k: nat :: Doubled(b0, d0, base, k)
    ensures n as int == res as int * base as int + rem as int && rem as int < base as int
  {
    hide Pow2;
    ghost var k: nat :| Doubled(b0, d0, base, k);
    res, rem := res0, rem0;
    var b, d := b0, d0;
    while true
      invariant n as int == res as int * base as int + rem as int
      invariant Doubled(b, d, base, k) && (rem as int) < 2 * b as int
      decreases d
    {
      if rem >= b {
        Distribute(res as int, d as int, base as int);
        Swap(base as int, d as int);
        MulGrows(res as int + d as int, base as int);
        rem := rem - b;
        res := res + d;
      }
      HalfDoubled(b, d, base, k);
      b := b / 2;
      d := d / 2;
      if d == 0 {
        break;
      }
      k := k - 1;
    }
  }

  lemma Swap(a: int, b: int)
    ensures a * b == b * a
  {
  }

  /** Halving undoes doubling, down to `base` itself. */
  lemma HalfDoubled(b: u64, d: u64, base: u32, k: nat)
    requires Doubled(b, d, base, k)
    ensures d / 2 < d
    ensures d / 2 == 0 ==> b as int == base as int
    ensures d / 2 != 0 ==> k > 0 && Doubled(b / 2, d / 2, base, k - 1) && b as int == 2 * (b / 2) as int
  {
    if k == 0 {
      assert d == 1;
    } else {
      var half := Pow2(k - 1);
      assert d as int == 2 * half;
      Twice(base as int, half);
    }
  }

  // Multiply, then divide

  /** ilog2(), -1 for 0 */
  function ILog2(n: nat): (l: int)
    ensures l >= -1 && (n > 0 ==> l >= 0)
  {
    if n == 0 then -1 else ILog2(n / 2) + 1
  }

  lemma {:induction false} ILog2Bounds(n: nat)
    requires n > 0
    ensures Pow2(ILog2(n)) <= n < Pow2(ILog2(n) + 1)
  {
    if n > 1 {
      ILog2Bounds(n / 2);
    }
  }

  function Times(a: nat, b: nat): nat { a * b }

  function Over(x: nat, c: nat): nat
    requires c > 0
  {
    x / c
  }

  function Modulo(x: nat, c: nat): nat
    requires c > 0
  {
    x % c
  }

  /** The sum of a product and of another one divided by `c`, on 64 bits. */
  function Combine(x: nat, y: nat, c: nat): nat
    requires c > 0
  {
    (x % WORD + (y % WORD) / c) % WORD
  }

  /** What mul_u64_u64_div_u64() returns. */
  function Quotient(a: nat, b: nat, c: nat): nat
    requires c > 0
  {
    if ILog2(a) + ILog2(b) > 62 then
      var rem := Modulo(b, c);
      var shift := ILog2(a) + ILog2(rem) - 62;
      if shift > 0 then
        if Shr(c, shift) == 0 then Times(Over(b, c), a) % WORD
        else Combine(Times(Over(b, c), a), Times(a, Shr(rem, shift)), Shr(c, shift))
      else Combine(Times(Over(b, c), a), Times(a, rem), c)
    else Combine(0, Times(a, b), c)
  }

  /** mul_u64_u64_div_u64(): the quotient, as long as no set bit is shifted out. */
  method MulDiv(a: nat, b: nat, c: nat) returns (r: nat)
    requires a < WORD && b < WORD && 0 < c < WORD
    ensures r == Quotient(a, b, c)
    ensures Precise(a, b, c) ==> r == (a * b / c) % 0x1_0000_0000_0000_0000
  {
    hide Quotient, Precise;
    if Precise(a, b, c) {
      QuotientExact(a, b, c);
    }
    r := MulThenDiv(a, b, c);
  }

  /** Nothing is lost exactly if the bits shifted out are clear; with smaller logarithms none are shifted out. */
  lemma PreciseMeans(a: nat, b: nat, c: nat, la: nat, lr: nat)
    requires a < WORD && b < WORD && 0 < c < WORD
    requires Pow2(la) <= a < Pow2(la + 1) && Pow2(lr) <= b % c < Pow2(lr + 1)
    ensures la + lr <= 62 ==> Precise(a, b, c)
    ensures la + lr > 62 ==>
      (Precise(a, b, c) <==> (b % c) % Pow2(la + lr - 62) == 0 && c % Pow2(la + lr - 62) == 0)
  {
    hide ILog2, Pow2, Shr, Kept;
    LogOf(a, la);
    LogOf(b % c, lr);
    LogGrows(b % c, b);
    if la + lr > 62 {
      KeptMeans(b % c, la + lr - 62);
      KeptMeans(c, la + lr - 62);
    }
  }

  /** Nor are any if one of the two is zero. */
  lemma PreciseZero(a: nat, b: nat, c: nat)
    requires a < WORD && b < WORD && 0 < c < WORD && (a == 0 || b % c == 0)
    ensures Precise(a, b, c)
  {
    hide ILog2, Pow2, Shr, Kept;
    LogBound(a);
    LogBound(b % c);
  }

  lemma KeptMeans(x: nat, shift: nat)
    ensures Kept(x, shift) <==> x % Pow2(shift) == 0
  {
    hide Pow2, Shr;
    ShrDivides(x, shift);
    assert x == (x / Pow2(shift)) * Pow2(shift) + x % Pow2(shift);
  }

  /** The assignments of mul_u64_u64_div_u64() */
  method MulThenDiv(a: nat, b0: nat, c0: nat) returns (r: nat)
    requires a < WORD && b0 < WORD && 0 < c0 < WORD
    ensures r == Quotient(a, b0, c0)
  {
    hide ILog2, Pow2, Shr;
    var b, c, res := b0, c0, 0;
    if ILog2(a) + ILog2(b) > 62 {
      res := Times(Over(b, c), a) % WORD;
      b := b % c;
      var shift := ILog2(a) + ILog2(b) - 62;
      if shift > 0 {
        b := Shr(b, shift);
        c := Shr(c, shift);
        if c == 0 {
          return res;
        }
      }
    }
    return (res + (Times(a, b) % WORD) / c) % WORD;
  }

  /** Numbers whose logarithms add up to at most 62 have a product that fits a word. */
  lemma ProductFits(a: nat, b: nat)
    requires ILog2(a) + ILog2(b) <= 62
    ensures Times(a, b) < WORD
  {
    hide ILog2, Pow2;
    if a == 0 || b == 0 {
      assert a * b == 0;
    } else {
      ILog2Bounds(a);
      ILog2Bounds(b);
      var m, n := ILog2(a) + 1, ILog2(b) + 1;
      MulLess(a, Pow2(m), b, Pow2(n));
      PowSum(m, n);
      PowMonotone(m + n, 64);
      Pow64();
    }
  }

  lemma MulLess(a: nat, x: nat, b: nat, y: nat)
    requires a < x && b < y
    ensures a * b < x * y
  {
    MulMono(a, x, b);
    MulMono(b, y, x);
  }

  lemma MulMono(a: nat, x: nat, b: nat)
    requires a <= x
    ensures a * b <= x * b && (a < x && b > 0 ==> a * b < x * b)
  {
    Distribute(x - a, a, b);
    if a < x {
      if b > 0 {
        AtLeast(x - a, b);
      }
    }
  }

  /** The split: (b / c) * a + (b % c) * a / c is a * b / c. */
  lemma Split(a: nat, b: nat, c: nat)
    requires c > 0
    ensures Over(Times(a, b), c) == Times(Over(b, c), a) + Over(Times(a, Modulo(b, c)), c)
  {
    var d, m := b / c, b % c;
    assert b == d * c + m;
    Rearrange(a, d, c, m);
    SplitParts(d * a, a * m, c);
  }

  lemma Rearrange(a: nat, d: nat, c: nat, m: nat)
    ensures a * (d * c + m) == (d * a) * c + a * m
  {
    assert a * (d * c) == (d * a) * c;
  }

  lemma SplitParts(k: nat, x: nat, c: nat)
    requires c > 0
    ensures (k * c + x) / c == k + x / c
  {
    Distribute(k, x / c, c);
    DivUnique(k * c + x, c, k + x / c, x % c);
  }

  /** Shifting a number to the right and back again gives the number: no bit is lost. */
  predicate Kept(x: nat, shift: nat)
  {
    Times(Shr(x, shift), Pow2(shift)) == x
  }

  /** No set bit of the remainder or the divisor is shifted out. */
  predicate Precise(a: nat, b: nat, c: nat)
    requires c > 0
  {
    var shift := ILog2(a) + ILog2(Modulo(b, c)) - 62;
    ILog2(a) + ILog2(b) > 62 && shift > 0 ==> Kept(Modulo(b, c), shift) && Kept(c, shift)
  }

  lemma TimesOne(x: nat)
    ensures Times(x, 1) == x
  {
  }

  lemma TimesTwice(x: nat, p: nat)
    requires Times(x, p) > 0
    ensures Times(x, 2 * p) == 2 * Times(x, p) && ILog2(Times(x, 2 * p)) == ILog2(Times(x, p)) + 1
  {
    assert x * (2 * p) == 2 * (x * p);
  }

  lemma {:induction false} LogShift(x: nat, shift: nat)
    requires x > 0
    ensures Times(x, Pow2(shift)) > 0 && ILog2(Times(x, Pow2(shift))) == ILog2(x) + shift
  {
    hide ILog2, Times;
    if shift == 0 {
      TimesOne(x);
    } else {
      LogShift(x, shift - 1);
      TimesTwice(x, Pow2(shift - 1));
    }
  }

  /** A common factor cancels. */
  lemma Cancel(x: nat, c: nat, p: nat)
    requires c > 0 && p > 0 && Times(c, p) > 0
    ensures Over(Times(x, p), Times(c, p)) == Over(x, c)
  {
    var d, m := x / c, x % c;
    assert x == d * c + m;
    Distribute(d * c, m, p);
    assert (d * c) * p == d * (c * p);
    MulMono(m, c, p);
    DivUnique(x * p, c * p, d, m * p);
  }

  lemma TimesZero(p: nat)
    ensures Times(0, p) == 0
  {
  }

  lemma TimesAssoc(a: nat, r: nat, p: nat)
    ensures Times(a, Times(r, p)) == Times(Times(a, r), p)
  {
  }

  /** Dropping bits that are clear changes nothing. */
  lemma ShiftExact(a: nat, rem: nat, c: nat, shift: nat)
    requires c > 0 && shift > 0 && shift == ILog2(a) + ILog2(rem) - 62 && Kept(rem, shift) && Kept(c, shift) && a < WORD
    ensures Shr(c, shift) > 0 && Times(a, Shr(rem, shift)) < WORD
    ensures Over(Times(a, Shr(rem, shift)), Shr(c, shift)) == Over(Times(a, rem), c)
  {
    hide ILog2, Shr, Pow2, Over, Times;
    var r, d, p := Shr(rem, shift), Shr(c, shift), Pow2(shift);
    TimesZero(p);
    if rem == 0 {
      LogBound(a);
    } else {
      LogShift(r, shift);
      ProductFits(a, r);
      TimesAssoc(a, r, p);
      Cancel(Times(a, r), d, p);
    }
  }

  lemma LogBound(a: nat)
    requires a < WORD
    ensures ILog2(a) <= 63 && ILog2(0) == -1
  {
    if a > 0 {
      ILog2Bounds(a);
      Pow64();
      if ILog2(a) > 63 {
        PowMonotone(64, ILog2(a));
      }
    }
  }

  lemma SplitExact(x: nat, y: nat, c: nat)
    requires c > 0 && y < WORD
    ensures Combine(x, y, c) == (x + Over(y, c)) % WORD
  {
    assert y % WORD == y;
    WordsAdd(x, Over(y, c));
  }

  lemma WordsAdd(x: nat, z: nat)
    ensures (x % WORD + z) % WORD == (x + z) % WORD
  {
    assert x == (x / WORD) * WORD + x % WORD;
    WholeWords(x / WORD, x % WORD + z);
  }

  lemma WholeWords(k: nat, z: nat)
    ensures (k * WORD + z) % WORD == z % WORD
  {
    assert k * WORD + z == (k + z / WORD) * WORD + z % WORD;
    ModUnique(k * WORD + z, WORD, k + z / WORD, z % WORD);
  }

  /** Without a loss of precision the result is the exact quotient, cut to 64 bits. */
  lemma QuotientExact(a: nat, b: nat, c: nat)
    requires a < WORD && b < WORD && 0 < c < WORD && Precise(a, b, c)
    ensures Quotient(a, b, c) == (a * b / c) % WORD
  {
    hide ILog2, Shr, Pow2, Combine, Modulo, Kept;
    if ILog2(a) + ILog2(b) > 62 {
      var rem := Modulo(b, c);
      var shift := ILog2(a) + ILog2(rem) - 62;
      Split(a, b, c);
      if shift > 0 {
        ShiftExact(a, rem, c, shift);
        SplitExact(Times(Over(b, c), a), Times(a, Shr(rem, shift)), Shr(c, shift));
      } else {
        ProductFits(a, rem);
        SplitExact(Times(Over(b, c), a), Times(a, rem), c);
      }
    } else {
      ProductFits(a, b);
      SplitExact(0, Times(a, b), c);
    }
  }

  /** The logarithm of a number is that of no smaller one. */
  lemma LogGrows(x: nat, y: nat)
    requires 0 < x <= y
    ensures ILog2(x) <= ILog2(y)
  {
    hide ILog2, Pow2;
    ILog2Bounds(x);
    ILog2Bounds(y);
    if ILog2(y) < ILog2(x) {
      PowMonotone(ILog2(y) + 1, ILog2(x));
    }
  }

  /** What is left of the product fits a word. */
  lemma ShiftedFits(a: nat, rem: nat, la: nat, lr: nat, s: nat)
    requires a < Pow2(la + 1) && rem < Pow2(lr + 1) && s == la + lr - 62 && la <= 63
    ensures Times(a, rem / Pow2(s)) < WORD
  {
    hide Pow2;
    var q := rem / Pow2(s);
    PowSum(63 - la, s);
    if q >= Pow2(63 - la) {
      MulMono(Pow2(63 - la), q, Pow2(s));
    }
    MulLess(a, Pow2(la + 1), q, Pow2(63 - la));
    PowSum(la + 1, 63 - la);
    Pow64();
  }

  /** With the logarithms of the factor and of the remainder adding up to more than 62, what exceeds 62 is shifted out
      of the remainder and the divisor; nothing else is lost.  If nothing is left of the divisor, the second part of the
      quotient is dropped. */
  lemma QuotientLossy(a: nat, b: nat, c: nat, la: nat, lr: nat)
    requires a < WORD && b < WORD && 0 < c < WORD && la + lr > 62
    requires Pow2(la) <= a < Pow2(la + 1) && Pow2(lr) <= b % c < Pow2(lr + 1)
    ensures var p := Pow2(la + lr - 62);
      Quotient(a, b, c) ==
        if c / p == 0 then (b / c * a) % 0x1_0000_0000_0000_0000
        else (b / c * a + a * (b % c / p) / (c / p)) % 0x1_0000_0000_0000_0000
  {
    hide ILog2, Pow2, Shr, Combine;
    var rem, s := b % c, la + lr - 62;
    LogOf(a, la);
    LogOf(rem, lr);
    LogBound(a);
    LogGrows(rem, b);
    ShrDivides(c, s);
    ShrDivides(rem, s);
    if c / Pow2(s) > 0 {
      ShiftedFits(a, rem, la, lr, s);
      SplitExact(Times(Over(b, c), a), Times(a, Shr(rem, s)), Shr(c, s));
    }
  }

  /** With a loss of precision it need not be: here every bit of the true quotient is lost. */
  lemma PrecisionLost()
    ensures var a := 0x8000_0000_0000_0000;
      !Precise(a, 3, 4) && (a * 3) / 4 == 0x6000_0000_0000_0000 && Quotient(a, 3, 4) == 0
  {
    var a: nat := 0x8000_0000_0000_0000;
    Pow64();
    LogOf(a, 63);
    assert ILog2(3) == 1;
    assert Shr(3, 2) == 0 && Shr(4, 2) == 1;
  }

  lemma LogOf(n: nat, l: nat)
    requires Pow2(l) <= n < Pow2(l + 1)
    ensures ILog2(n) == l
  {
    hide ILog2, Pow2;
    ILog2Bounds(n);
    if ILog2(n) < l {
      PowMonotone(ILog2(n) + 1, l);
    } else if ILog2(n) > l {
      PowMonotone(l + 1, ILog2(n));
    }
  }
}
