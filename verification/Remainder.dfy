// The IEEE 754 remainder (section 5.3.1 of IEEE 754-2008) and the digit loops
// of f128_rem and extF80_rem that compute it on significands.
module Remainder {
  import opened Arith
  import opened Words
  import opened Recurrence

  // The integer nearest to x / y, ties to the even one.
  function NearestEven(x: int, y: int): (n: int)
    requires y > 0
  {
    var f := x / y;
    var r := x - f * y;
    if 2 * r < y || (2 * r == y && f % 2 == 0) then f else f + 1
  }

  function IeeeRem(x: int, y: int): (r: int)
    requires y > 0
  {
    x - NearestEven(x, y) * y
  }

  // r is what is left of x after n times y, with n nearest and even on a tie.
  ghost predicate RemainderBy(x: int, y: int, n: int, r: int)
  {
    && r == Left(x, n, y)
    && -y <= 2 * r <= y
    && (2 * r == y || 2 * r == -y ==> n % 2 == 0)
  }

  lemma IeeeRemMeets(x: int, y: int)
    requires y > 0
    ensures RemainderBy(x, y, NearestEven(x, y), IeeeRem(x, y))
  {
    DivMod(x, y);
    assert (x / y + 1) * y == x / y * y + y;
  }

  // The definition of the standard has exactly one solution.
  lemma RemainderUnique(x: int, y: int, n: int, r: int)
    requires y > 0 && RemainderBy(x, y, n, r)
    ensures n == NearestEven(x, y) && r == IeeeRem(x, y)
  {
    hide NearestEven;
    hide IeeeRem;
    IeeeRemMeets(x, y);
    OneRemainderBy(x, y, n, r, NearestEven(x, y), IeeeRem(x, y));
  }

  lemma OneRemainderBy(x: int, y: int, n: int, r: int, m: int, s: int)
    requires y > 0 && RemainderBy(x, y, n, r) && RemainderBy(x, y, m, s)
    ensures n == m && r == s
  {
    Distribute(n, -m, y);
    assert (-m) * y == -(m * y);
    NearestClose(n - m, y, s - r);
  }

  lemma NearestClose(d: int, y: int, gap: int)
    requires y > 0 && d * y == gap && -y <= gap <= y
    ensures d == -1 || d == 0 || d == 1
  {
    if d >= 2 {
      MulMono(2, d, y);
    } else if d <= -2 {
      MulMono(d, -2, y);
    }
  }

  lemma IeeeRemScale(x: int, y: int, k: int)
    requires y > 0 && k > 0
    ensures y * k > 0 && IeeeRem(x * k, y * k) == IeeeRem(x, y) * k
  {
    IeeeRemMeets(x, y);
    var n, r := NearestEven(x, y), IeeeRem(x, y);
    MulMono(1, k, y);
    assert x * k - n * (y * k) == r * k by {
      assert (x - n * y) * k == x * k - n * (y * k);
    }
    MulMono(-y, 2 * r, k);
    MulMono(2 * r, y, k);
    assert 2 * (r * k) == (2 * r) * k;
    assert (-y) * k == -(y * k);
    if (2 * r) * k == y * k {
      MulEqCancel(2 * r, y, k);
    }
    if (2 * r) * k == -(y * k) {
      MulEqCancel(2 * r, -y, k);
    }
    RemainderUnique(x * k, y * k, n, r * k);
  }

  lemma MulEqCancel(x: int, y: int, z: int)
    requires z > 0 && x * z == y * z
    ensures x == y
  {
    if x < y {
      MulMonoStrict(x, y, z);
    } else if y < x {
      MulMonoStrict(y, x, z);
    }
  }

  lemma IeeeRemNeg(x: int, y: int)
    requires y > 0
    ensures IeeeRem(-x, y) == -IeeeRem(x, y)
  {
    IeeeRemMeets(x, y);
    var n := NearestEven(x, y);
    assert -x - (-n) * y == -(x - n * y);
    RemainderUnique(-x, y, -n, -IeeeRem(x, y));
  }

  lemma IeeeRemSmall(x: int, y: int)
    requires y > 0 && -y < 2 * x < y
    ensures IeeeRem(x, y) == x
  {
    RemainderUnique(x, y, 0, x);
  }

  // One reduction step on 128-bit words gives the integer difference when
  // that difference fits in 127 bits and a sign, although both operands wrap.
  lemma StepExact(rem: U128, dist: nat, term: U128, t: int)
    requires 1 <= dist <= 63 && term.V() == t % W128
    requires -TOP128 <= rem.V() * Pow2(dist) - t < TOP128
    ensures Sub128(ShortShiftLeft128(rem, dist), term).Signed() == rem.V() * Pow2(dist) - t
  {
    hide Pow2;
    hide Sub128;
    hide ShortShiftLeft128;
    var x := rem.V() * Pow2(dist);
    ModSub(x, t, W128);
    SignedExact(Sub128(ShortShiftLeft128(rem, dist), term), x - t);
  }

  lemma ModSub(x: int, y: int, m: int)
    requires m > 0
    ensures (x % m - y % m) % m == (x - y) % m
  {
    DivMod(x, m);
    DivMod(y, m);
    var d := x % m - y % m;
    DivMod(d, m);
    assert x - y == (x / m - y / m + d / m) * m + d % m by {
      assert (x / m - y / m + d / m) * m == x / m * m - y / m * m + d / m * m;
    }
    DivModUnique(x - y, m, x / m - y / m + d / m, d % m);
  }

  lemma SubExact(a: U128, b: U128)
    requires -TOP128 <= a.Signed() - b.V() < TOP128
    ensures Sub128(a, b).Signed() == a.Signed() - b.V()
  {
    ModShift(a.Signed() - b.V(), if a.SignBit() then 1 else 0);
    SignedExact(Sub128(a, b), a.Signed() - b.V());
  }

  lemma AddExact(a: U128, b: U128)
    requires -TOP128 <= a.Signed() + b.Signed() < TOP128
    ensures Add128(a, b).Signed() == a.Signed() + b.Signed()
  {
    ModShift(a.Signed() + b.Signed(), (if a.SignBit() then 1 else 0) + (if b.SignBit() then 1 else 0));
    SignedExact(Add128(a, b), a.Signed() + b.Signed());
  }

  lemma ModShift(x: int, k: int)
    ensures (x + k * W128) % W128 == x % W128
  {
    DivModUnique(x + k * W128, W128, x / W128 + k, x % W128);
  }

  // What is left of x after n times b.
  function Left(x: int, n: int, b: int): int {
    x - n * b
  }

  lemma LeftNone(a: int, b: int)
    ensures Left(a, 0, b) == a && Left(a, 1, b) == a - b
  {
  }

  lemma LeftNext(x: int, n: int, b: int)
    ensures Left(x, n + 1, b) == Left(x, n, b) - b
  {
    assert (n + 1) * b == n * b + b;
  }

  // The loop that subtracts the divisor until the remainder is negative, and
  // the choice between the last two candidates.
  method SelectRem(rem0: U128, q0: U32, sigB: U128, ghost x: int, ghost m: int) returns (rem: U128)
    requires 0 < sigB.V() < 0x1000_0000_0000_0000_0000_0000_0000_0000
    requires 0 <= rem0.Signed() < 3 * sigB.V()
    requires q0 < 0x8000_0000 && m % 2 == 0
    requires rem0.Signed() == Left(x, m + q0, sigB.V())
    ensures rem.Signed() == IeeeRem(x, sigB.V())
  {
    hide Sub128;
    hide IeeeRem;
    hide Left;
    rem := rem0;
    var q: U32 := q0;
    var altRem := rem;
    ghost var b := sigB.V();
    while true
      invariant q0 <= q <= q0 + 2
      invariant 0 <= rem.Signed() == Left(x, m + q, b)
      invariant rem.Signed() < if q == q0 then 3 * b else if q == q0 + 1 then 2 * b else b
      decreases q0 + 2 - q
    {
      altRem := rem;
      SubExact(rem, sigB);
      LeftNext(x, m + q, b);
      assert m + q + 1 == m + (q + 1);
      rem, q := Sub128(rem, sigB), q + 1;
      if rem.SignBit() {
        break;
      }
    }
    rem := ChooseRem(rem, altRem, q, b, x, m + q);
  }

  method ChooseRem(rem0: U128, altRem: U128, q: U32, ghost b: int, ghost x: int, ghost n: int) returns (rem: U128)
    requires 0 < b < 0x1000_0000_0000_0000_0000_0000_0000_0000
    requires rem0.Signed() == Left(x, n, b) && altRem.Signed() == rem0.Signed() + b
    requires -b <= rem0.Signed() < 0
    requires n % 2 == q % 2 || 2 * rem0.Signed() > -b
    ensures rem.Signed() == IeeeRem(x, b)
  {
    hide Add128;
    hide IeeeRem;
    hide Left;
    rem := rem0;
    AddExact(rem, altRem);
    var meanRem := Add128(rem, altRem);
    LeftNext(x, n - 1, b);
    if meanRem.SignBit() || (meanRem.v64 == 0 && meanRem.v0 == 0 && q % 2 == 1) {
      rem := altRem;
      RemainderUnique(x, b, n - 1, altRem.Signed());
    } else {
      RemainderUnique(x, b, n, rem.Signed());
    }
  }

  const UNIT128: nat := 0x2_0000_0000_0000_0000_0000
  const ONE128: nat := 0x1_0000_0000_0000_0000_0000_0000_0000

  predicate Normalized128(sig: U128) {
    ONE128 <= sig.V() < 2 * ONE128
  }

  // The digit loop of f128_rem on normalised significands.
  method F128RemSig(sigA: U128, sigB0: U128, expDiff0: int) returns (rem: U128)
    requires Normalized128(sigA) && Normalized128(sigB0) && expDiff0 >= -1
    ensures expDiff0 >= 0 ==> rem.Signed() == IeeeRem(sigA.V() * Pow2(expDiff0), sigB0.V())
    ensures expDiff0 == -1 ==> rem.Signed() == IeeeRem(sigA.V(), 2 * sigB0.V())
  {
    hide IeeeRem;
    rem := sigA;
    var sigB, expDiff := sigB0, expDiff0;
    var q: U32;
    ghost var x := if expDiff0 >= 0 then sigA.V() * Pow2(expDiff0) else sigA.V();
    if expDiff < 1 {
      assert expDiff0 == 0 ==> x == sigA.V() * 1 == sigA.V();
      if expDiff != 0 {
        sigB := Add128(sigB, sigB);
        q := 0;
      } else {
        q := if Le128(sigB, rem) then 1 else 0;
        if q != 0 {
          SubExact(rem, sigB);
          rem := Sub128(rem, sigB);
        }
      }
      rem := SelectRem(rem, q, sigB, x, 0);
    } else {
      rem := F128RemDigits(sigA, sigB, expDiff0);
    }
  }

  // The leading words the estimate reads are the leading bits it needs.
  lemma F128Bits(rem: U128, sigB: U128)
    requires Normalized128(sigB) && rem.V() < 2 * sigB.V()
    ensures 0x8000_0000 <= sigB.v64 / 0x2_0000 < W32
    ensures Estimated(rem.V(), sigB.V(), UNIT128,
              (rem.v64 / 0x8_0000) % W32 * ApproxRecip32(sigB.v64 / 0x2_0000))
    ensures (rem.v64 / 0x8_0000) % W32 * ApproxRecip32(sigB.v64 / 0x2_0000) < 0x8000_0000_0000_0000
  {
    hide ApproxRecip32;
    hide Estimated;
    TopBits(sigB, 0x2_0000);
    TopBits(rem, 0x8_0000);
    EstimateFrom(rem.V(), sigB.V(), UNIT128, rem.v64 / 0x8_0000, sigB.v64 / 0x2_0000);
  }

  lemma TopBits(x: U128, d: nat)
    requires d > 0
    ensures x.v64 / d == x.V() / (d * W64)
  {
    DivMod(x.v64, d);
    var q, r := x.v64 / d, x.v64 % d;
    assert x.V() == q * (d * W64) + (r * W64 + x.v0) by {
      assert (q * d) * W64 == q * (d * W64);
    }
    MulMono(r, d - 1, W64);
    DivModUnique(x.V(), d * W64, q, r * W64 + x.v0);
  }

  // Bringing in `dist` more quotient bits.
  lemma Advance(a: int, k: nat, n: int, b: int, rem: int, dist: nat, q: int, rem': int)
    requires a * Pow2(k) == n * b + rem
    requires rem' == rem * Pow2(dist) - q * b
    ensures a * Pow2(k + dist) == (n * Pow2(dist) + q) * b + rem'
  {
    Pow2Add(k, dist);
    DistributeStep(a, Pow2(k), Pow2(dist), n, b, rem, q);
  }

  lemma DistributeStep(a: int, pk: int, p: int, n: int, b: int, rem: int, q: int)
    requires a * pk == n * b + rem
    ensures a * (pk * p) == (n * p + q) * b + (rem * p - q * b)
  {
    assert a * (pk * p) == (a * pk) * p;
    assert (n * b + rem) * p == (n * p) * b + rem * p;
    assert (n * p + q) * b == (n * p) * b + q * b;
  }

  method F128RemDigits(sigA: U128, sigB: U128, expDiff0: int) returns (rem: U128)
    requires Normalized128(sigA) && Normalized128(sigB) && expDiff0 >= 1
    ensures rem.Signed() == IeeeRem(sigA.V() * Pow2(expDiff0), sigB.V())
  {
    hide ApproxRecip32;
    hide Estimated;
    hide IeeeRem;
    hide Pow2;
    Pow2Small();
    rem := sigA;
    ghost var b := sigB.V();
    ghost var n := 0;
    F128Bits(rem, sigB);
    var recip32 := ApproxRecip32(sigB.v64 / 0x2_0000);
    var expDiff := expDiff0 - 30;
    var q64: U64;
    while true
      invariant -29 <= expDiff <= expDiff0 - 30
      invariant rem.V() < 2 * b
      invariant sigA.V() * Pow2(expDiff0 - 30 - expDiff) == n * b + rem.V()
      decreases expDiff + 30
    {
      F128Bits(rem, sigB);
      q64 := (rem.v64 / 0x8_0000) % W32 * recip32;
      if expDiff < 0 {
        break;
      }
      ghost var before := rem;
      ghost var d;
      rem, d := F128RemStep(rem, sigB, q64);
      Advance(sigA.V(), expDiff0 - 30 - expDiff, n, b, before.V(), 29, d, rem.V());
      n := n * Pow2(29) + d;
      expDiff := expDiff - 29;
    }
    rem := F128RemLast(rem, sigB, q64, expDiff, sigA.V(), n, expDiff0 - 30 - expDiff);
  }

  // One round of the loop: a rounded digit, then at most one correction.
  method F128RemStep(rem0: U128, sigB: U128, q64: U64) returns (rem: U128, ghost d: int)
    requires Normalized128(sigB) && Estimated(rem0.V(), sigB.V(), UNIT128, q64)
    requires q64 < 0x8000_0000_0000_0000
    ensures rem.V() < 2 * sigB.V()
    ensures rem.V() == rem0.V() * 0x2000_0000 - d * sigB.V()
  {
    RoundedDigit(rem0.V(), sigB.V(), UNIT128, q64);
    var q: U32 := (q64 + 0x8000_0000) / W32;
    var term := Mul128By32(sigB, q);
    assert Pow2(29) == 0x2000_0000 by { Pow2Small(); }
    assert sigB.V() * q == q * sigB.V();
    StepExact(rem0, 29, term, q * sigB.V());
    rem := Sub128(ShortShiftLeft128(rem0, 29), term);
    d := q;
    if rem.SignBit() {
      rem, d := AddBack(rem, sigB, rem0.V() * 0x2000_0000, d);
    }
  }

  // The correction of a digit that was one too large.
  method AddBack(rem0: U128, sigB: U128, ghost x: int, ghost d0: int) returns (rem: U128, ghost d: int)
    requires sigB.V() < TOP128 && 0 <= sigB.V() + rem0.Signed() < sigB.V()
    requires rem0.Signed() == x - d0 * sigB.V()
    ensures rem.V() < sigB.V() && d == d0 - 1 && rem.V() == x - d * sigB.V()
  {
    AddExact(rem0, sigB);
    rem := Add128(rem0, sigB);
    d := d0 - 1;
    assert (d0 - 1) * sigB.V() == d0 * sigB.V() - sigB.V();
  }

  // The last, shorter digit, and the selection of the nearest remainder.
  method F128RemLast(rem0: U128, sigB: U128, q64: U64, expDiff: int, ghost a: int, ghost n: int, ghost k: nat)
    returns (rem: U128)
    requires Normalized128(sigB) && Estimated(rem0.V(), sigB.V(), UNIT128, q64)
    requires -29 <= expDiff < 0
    requires a * Pow2(k) == n * sigB.V() + rem0.V()
    ensures rem.Signed() == IeeeRem(a * Pow2(k + expDiff + 30), sigB.V())
  {
    hide Sub128;
    hide IeeeRem;
    hide Mul128By32;
    hide ShortShiftLeft128;
    hide Estimated;
    hide Pow2;
    hide LastBits;
    ghost var s := expDiff + 30;
    ghost var x, m := a * Pow2(k + s), n * Pow2(s);
    var t: nat := -expDiff - 1;
    LastDigit(rem0, sigB, q64, t);
    var q := LastBits(q64, t);
    rem := Sub128(ShortShiftLeft128(rem0, expDiff + 30), Mul128By32(sigB, q));
    Advance(a, k, n, sigB.V(), rem0.V(), s, q, rem.Signed());
    EvenScale(n, s);
    rem := FinishRem(rem, sigB, q, x, m);
  }

  function LastBits(q64: U64, t: nat): (q: U32)
    ensures q == q64 / W32 / Pow2(t)
    ensures q <= q64 / W32
  {
    DivShrinks(q64 / W32, Pow2(t));
    q64 / W32 / Pow2(t)
  }

  lemma DivShrinks(x: nat, p: nat)
    requires p > 0
    ensures 0 <= x / p <= x
  {
    DivMod(x, p);
    if x / p > x {
      MulMono(1, p, x / p);
    }
  }

  lemma LastDigit(rem0: U128, sigB: U128, q64: U64, t: nat)
    requires Normalized128(sigB) && Estimated(rem0.V(), sigB.V(), UNIT128, q64)
    requires t <= 28
    ensures var q := LastBits(q64, t);
            && q < 0x8000_0000
            && var rem := Sub128(ShortShiftLeft128(rem0, 29 - t), Mul128By32(sigB, q));
            && rem.Signed() == rem0.V() * Pow2(29 - t) - q * sigB.V()
            && 0 < sigB.V() + 2 * rem.Signed() < 6 * sigB.V()
  {
    hide Sub128;
    hide Mul128By32;
    hide ShortShiftLeft128;
    hide Pow2;
    hide LastBits;
    TruncatedDigit(rem0.V(), sigB.V(), UNIT128, q64, t);
    Q64Small(rem0.V(), sigB.V(), UNIT128, q64);
    var q := LastBits(q64, t);
    assert sigB.V() * q == q * sigB.V();
    StepExact(rem0, 29 - t, Mul128By32(sigB, q), q * sigB.V());
  }

  lemma EvenScale(n: int, s: nat)
    requires s >= 1
    ensures (n * Pow2(s)) % 2 == 0
  {
    hide Pow2;
    assert Pow2(s) == Pow2(s - 1) * 2 by {
      Pow2Sum(s - 1, 1, s);
      Pow2Small();
    }
    Associate(n, Pow2(s - 1), 2);
    DivModUnique(n * Pow2(s), 2, n * Pow2(s - 1), 0);
  }

  method FinishRem(rem0: U128, sigB: U128, q: U32, ghost x: int, ghost m: int) returns (rem: U128)
    requires 0 < sigB.V() < 0x1000_0000_0000_0000_0000_0000_0000_0000
    requires q < 0x8000_0000 && m % 2 == 0
    requires 0 < sigB.V() + 2 * rem0.Signed() < 6 * sigB.V()
    requires rem0.Signed() == Left(x, m + q, sigB.V())
    ensures rem.Signed() == IeeeRem(x, sigB.V())
  {
    if rem0.SignBit() {
      AddExact(rem0, sigB);
      var altRem := Add128(rem0, sigB);
      rem := ChooseRem(rem0, altRem, q, sigB.V(), x, m + q);
    } else {
      rem := SelectRem(rem0, q, sigB, x, m);
    }
  }
}
