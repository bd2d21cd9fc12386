// The quotient-digit estimate shared by the SoftFloat remainders and
// divisions.  A divisor b of k+1 bits is seen through its 32 leading bits a,
// the partial remainder through the bits r two places lower, and the digit
// is r times an approximate reciprocal of a.  Everything is stated in the
// unit u = 2^(k-31) that separates a from b.
module Recurrence {
  import opened Arith
  import opened Words

  // softfloat_approxRecip32_1 in its SOFTFLOAT_FAST_DIV64TO32 form.
  function ApproxRecip32(a: nat): (recip: nat)
    requires 0x8000_0000 <= a < W32
    ensures recip < W32
    ensures recip * a <= 0x7FFF_FFFF_FFFF_FFFF < recip * a + a
  {
    var recip := 0x7FFF_FFFF_FFFF_FFFF / a;
    RecipRange(a);
    recip
  }

  lemma RecipRange(a: nat)
    requires 0x8000_0000 <= a
    ensures var recip := 0x7FFF_FFFF_FFFF_FFFF / a;
            recip < W32 && recip * a <= 0x7FFF_FFFF_FFFF_FFFF < recip * a + a
  {
    var recip := 0x7FFF_FFFF_FFFF_FFFF / a;
    DivMod(0x7FFF_FFFF_FFFF_FFFF, a);
    if recip >= W32 {
      MulMono(W32, recip, a);
    }
  }

  // What the estimate is computed from.
  ghost predicate Estimated(rem: nat, b: nat, u: nat, q64: nat)
  {
    && 0 < u
    && 0x8000_0000 * u <= b < W32 * u
    && rem < 2 * b
    && q64 == (rem / (4 * u)) * ApproxRecip32(LeadingBits(b, u))
  }

  function LeadingBits(b: nat, u: nat): (a: nat)
    requires 0 < u && 0x8000_0000 * u <= b < W32 * u
    ensures 0x8000_0000 <= a < W32
    ensures a * u <= b < a * u + u
  {
    LeadingRange(b, u);
    b / u
  }

  lemma LeadingRange(b: nat, u: nat)
    requires 0 < u && 0x8000_0000 * u <= b < W32 * u
    ensures 0x8000_0000 <= b / u < W32
    ensures b / u * u <= b < b / u * u + u
  {
    DivMod(b, u);
    if b / u < 0x8000_0000 {
      MulMono(b / u, 0x7FFF_FFFF, u);
    } else if b / u >= W32 {
      MulMono(W32, b / u, u);
    }
  }

  lemma RemBits(rem: nat, b: nat, u: nat, a: nat)
    requires 0 < u && rem < 2 * b && b < a * u + u
    ensures rem / (4 * u) * (4 * u) <= rem < rem / (4 * u) * (4 * u) + 4 * u
    ensures 2 * (rem / (4 * u)) <= a
  {
    var r := rem / (4 * u);
    DivMod(rem, 4 * u);
    assert (a + 1) * (2 * u) == 2 * (a * u + u);
    assert (2 * r) * (2 * u) == r * (4 * u);
    if 2 * r >= a + 1 {
      MulMono(a + 1, 2 * r, 2 * u);
    }
  }

  // The estimate exceeds the true digit rem * 2^29 / b by less than one half...
  lemma EstimateHigh(rem: nat, b: nat, u: nat, q64: nat)
    requires Estimated(rem, b, u, q64)
    ensures q64 * b < rem * 0x2000_0000_0000_0000 + 0x8000_0000 * b
  {
    var a := LeadingBits(b, u);
    var recip := ApproxRecip32(a);
    var r := rem / (4 * u);
    RemBits(rem, b, u, a);
    HighSteps(r, a, u, b, rem, recip);
  }

  lemma HighSteps(r: nat, a: nat, u: nat, b: nat, rem: nat, recip: nat)
    requires 0x8000_0000 <= a < W32 && 0 < u && a * u <= b < a * u + u
    requires recip * a <= 0x7FFF_FFFF_FFFF_FFFF
    requires r * (4 * u) <= rem && 2 * r <= a
    ensures (r * recip) * b < rem * 0x2000_0000_0000_0000 + 0x8000_0000 * b
  {
    var ru := r * u;
    var rhs := rem * 0x2000_0000_0000_0000 + 0x8000_0000 * b;
    HighProduct(r, a, b, recip);
    HighSplit(r, a, u, b);
    HighTail(r, a, u, b);
    HighRight(r, a, u, b, rem);
    assert a * u > 0 by { MulMono(1, a, u); }
    if r == 0 {
      assert (r * recip) * b == 0 by { assert r * recip == 0; }
    } else {
      MulCancel((r * recip) * b, rhs, a);
    }
  }

  lemma HighProduct(r: nat, a: nat, b: nat, recip: nat)
    requires recip * a <= 0x7FFF_FFFF_FFFF_FFFF
    ensures ((r * recip) * b) * a <= (r * b) * 0x8000_0000_0000_0000
  {
    assert ((r * recip) * b) * a == (recip * a) * (r * b);
    MulMono(recip * a, 0x8000_0000_0000_0000, r * b);
  }

  lemma HighSplit(r: nat, a: nat, u: nat, b: nat)
    requires b < a * u + u
    ensures r * b <= (r * u) * a + r * u
    ensures r > 0 ==> r * b < (r * u) * a + r * u
  {
    MulMono(b, a * u + u, r);
    if r > 0 {
      MulMonoStrict(b, a * u + u, r);
    }
    assert r * (a * u + u) == (r * u) * a + r * u;
  }

  lemma HighRight(r: nat, a: nat, u: nat, b: nat, rem: nat)
    requires r * (4 * u) <= rem
    ensures (rem * 0x2000_0000_0000_0000 + 0x8000_0000 * b) * a
         >= ((r * u) * a) * 0x8000_0000_0000_0000 + (0x8000_0000 * b) * a
  {
    assert r * (4 * u) == 4 * (r * u);
    MulMono((r * u) * 0x8000_0000_0000_0000, rem * 0x2000_0000_0000_0000, a);
    assert ((r * u) * 0x8000_0000_0000_0000) * a == ((r * u) * a) * 0x8000_0000_0000_0000;
  }

  lemma HighTail(r: nat, a: nat, u: nat, b: nat)
    requires 0x8000_0000 <= a && 0 < u && a * u <= b && 2 * r <= a
    ensures (r * u) * 0x8000_0000_0000_0000 <= (0x8000_0000 * b) * a
  {
    MulMono(2 * r, a, u);
    MulMono(a * u, b, 0x8000_0000 * a);
    MulMono(0x8000_0000, a, a * u);
    assert (a * u) * (0x8000_0000 * a) == 0x8000_0000 * (a * (a * u));
  }

  // ... and falls short of it by at most one and a half.
  lemma EstimateLow(rem: nat, b: nat, u: nat, q64: nat)
    requires Estimated(rem, b, u, q64)
    ensures rem * 0x2000_0000_0000_0000 < (q64 + 0x1_8000_0000) * b
  {
    var a := LeadingBits(b, u);
    var recip := ApproxRecip32(a);
    var r := rem / (4 * u);
    RemBits(rem, b, u, a);
    LowSteps(r, a, u, b, rem, recip);
  }

  lemma LowSteps(r: nat, a: nat, u: nat, b: nat, rem: nat, recip: nat)
    requires 0x8000_0000 <= a < W32 && 0 < u && a * u <= b
    requires 0x7FFF_FFFF_FFFF_FFFF < recip * a + a
    requires rem < r * (4 * u) + 4 * u && 2 * r <= a
    ensures rem * 0x2000_0000_0000_0000 < (r * recip + 0x1_8000_0000) * b
  {
    var K := 0x8000_0000_0000_0000;
    var c := r * recip + 0x1_8000_0000;
    LowProduct(r, a, recip);
    MulMono(a * u, b, c);
    assert c * (a * u) == (c * a) * u;
    MulMono(r * K + K, c * a, u);
    assert (r * K + K) * u == (r * (4 * u) + 4 * u) * 0x2000_0000_0000_0000;
  }

  lemma LowProduct(r: nat, a: nat, recip: nat)
    requires 0x8000_0000 <= a < W32 && 2 * r <= a
    requires 0x7FFF_FFFF_FFFF_FFFF < recip * a + a
    ensures (r * recip + 0x1_8000_0000) * a >= r * 0x8000_0000_0000_0000 + 0x8000_0000_0000_0000
  {
    var K := 0x8000_0000_0000_0000;
    assert (r * recip + 0x1_8000_0000) * a == r * (recip * a) + 0x1_8000_0000 * a;
    MulMono(K - a, recip * a, r);
    assert r * (K - a) == r * K - r * a;
    MulMono(r, 0x8000_0000, a);
  }

  // The two leading words the code reads make a valid estimate.
  lemma EstimateFrom(rem: nat, b: nat, u: nat, r: nat, a: nat)
    requires 0 < u && 0x8000_0000 * u <= b < W32 * u && rem < 2 * b
    requires r == rem / (4 * u) && a == b / u
    ensures 0x8000_0000 <= a < W32 && r < W32
    ensures Estimated(rem, b, u, r * ApproxRecip32(a))
    ensures r * ApproxRecip32(a) < 0x8000_0000_0000_0000
  {
    hide ApproxRecip32;
    LeadingRange(b, u);
    Q64Small(rem, b, u, r * ApproxRecip32(a));
  }

  lemma Q64Small(rem: nat, b: nat, u: nat, q64: nat)
    requires Estimated(rem, b, u, q64)
    ensures rem / (4 * u) <= 0x7FFF_FFFF
    ensures q64 < 0x8000_0000_0000_0000
  {
    var a := LeadingBits(b, u);
    var recip := ApproxRecip32(a);
    RemBits(rem, b, u, a);
    MulMono(rem / (4 * u), 0x7FFF_FFFF, recip);
  }

  // A rounded 29-bit digit keeps the partial remainder in (-b, 2b).
  lemma RoundedDigit(rem: nat, b: nat, u: nat, q64: nat)
    requires Estimated(rem, b, u, q64)
    ensures var q := (q64 + 0x8000_0000) / W32;
            q < W32 && q * b < rem * 0x2000_0000 + b && rem * 0x2000_0000 < q * b + 2 * b
  {
    EstimateHigh(rem, b, u, q64);
    EstimateLow(rem, b, u, q64);
    Q64Small(rem, b, u, q64);
    RoundedSteps(rem, b, q64);
  }

  lemma RoundedSteps(rem: nat, b: nat, q64: nat)
    requires q64 * b < rem * 0x2000_0000_0000_0000 + 0x8000_0000 * b
    requires rem * 0x2000_0000_0000_0000 < (q64 + 0x1_8000_0000) * b
    ensures var q := (q64 + 0x8000_0000) / W32;
            q * b < rem * 0x2000_0000 + b && rem * 0x2000_0000 < q * b + 2 * b
  {
    var q := (q64 + 0x8000_0000) / W32;
    Distribute(q64, 0x1_8000_0000, b);
    Distribute(q64, 0x8000_0000, b);
    Distribute(q * W32, 0x7FFF_FFFF, b);
    Associate(W32, q, b);
    MulMono(q * W32, q64 + 0x8000_0000, b);
    MulMono(q64, q * W32 + 0x7FFF_FFFF, b);
    RoundedSum(rem, b, q * b, q64 * b);
  }

  lemma RoundedSum(rem: nat, b: nat, qb: int, eb: int)
    requires eb < rem * 0x2000_0000_0000_0000 + 0x8000_0000 * b && rem * 0x2000_0000_0000_0000 < eb + 0x1_8000_0000 * b
    requires W32 * qb <= eb + 0x8000_0000 * b && eb <= W32 * qb + 0x7FFF_FFFF * b
    ensures qb < rem * 0x2000_0000 + b && rem * 0x2000_0000 < qb + 2 * b
  {
  }

  // The truncated last digit of a remainder, t bits short of 29: the partial
  // remainder ends in (-b/2, 5b/2).
  lemma TruncatedDigit(rem: nat, b: nat, u: nat, q64: nat, t: nat)
    requires Estimated(rem, b, u, q64)
    requires t <= 28
    ensures var q, x := (q64 / W32) / Pow2(t), rem * Pow2(29 - t);
            q < W32 && 2 * (q * b) < 2 * x + b && 2 * x < 2 * (q * b) + 5 * b
  {
    assert Pow2(t) * Pow2(29 - t) == 0x2000_0000 by {
      Pow2Add(t, 29 - t);
      Pow2Small();
    }
    EstimateHigh(rem, b, u, q64);
    EstimateLow(rem, b, u, q64);
    Q64Small(rem, b, u, q64);
    TruncatedAt(rem, b, q64, Pow2(t), Pow2(29 - t));
  }

  lemma TruncatedAt(rem: nat, b: nat, q64: nat, p: nat, s: nat)
    requires p > 0 && p * s == 0x2000_0000 && q64 < W64
    requires q64 * b < rem * 0x2000_0000_0000_0000 + 0x8000_0000 * b
    requires rem * 0x2000_0000_0000_0000 < (q64 + 0x1_8000_0000) * b
    ensures var q, x := (q64 / W32) / p, rem * s;
            q < W32 && 2 * (q * b) < 2 * x + b && 2 * x < 2 * (q * b) + 5 * b
  {
    var q, m := (q64 / W32) / p, p * W32;
    TruncatedFloor(q64, p);
    TruncatedSteps(rem, b, q64, q, m);
    ScaleRem(rem, p, s);
    CompareScaled(q * b, rem * s, b, m);
  }

  lemma TruncatedFloor(q64: nat, p: nat)
    requires p > 0 && q64 < W64
    ensures var q, m := (q64 / W32) / p, p * W32;
            q < W32 && q * m <= q64 < q * m + m
  {
    var d := q64 / W32;
    var q := d / p;
    DivMod(d, p);
    MulMono(1, p, q);
    assert q * p == p * q;
    assert q * (p * W32) == (q * p) * W32;
  }

  lemma ScaleRem(rem: nat, p: nat, s: nat)
    requires p * s == 0x2000_0000
    ensures rem * 0x2000_0000_0000_0000 == (rem * s) * (p * W32)
  {
    assert (rem * s) * (p * W32) == (rem * (p * s)) * W32;
  }

  lemma TruncatedSteps(rem: nat, b: nat, q64: nat, q: nat, m: nat)
    requires q * m <= q64 < q * m + m && W32 <= m
    requires q64 * b < rem * 0x2000_0000_0000_0000 + 0x8000_0000 * b
    requires rem * 0x2000_0000_0000_0000 < (q64 + 0x1_8000_0000) * b
    ensures (q * b) * m < rem * 0x2000_0000_0000_0000 + 0x8000_0000 * b
    ensures rem * 0x2000_0000_0000_0000 < (q * b) * m + b * m + 0x1_8000_0000 * b
    ensures W32 * b <= b * m
  {
    MulMono(W32, m, b);
    MulMono(q * m, q64, b);
    assert (q * m) * b == (q * b) * m;
    MulMono(q64 + 0x1_8000_0000, q * m + m + 0x1_8000_0000, b);
    assert (q * m + m + 0x1_8000_0000) * b == (q * m) * b + m * b + 0x1_8000_0000 * b;
  }

  lemma CompareScaled(qb: nat, x: nat, b: nat, m: nat)
    requires 0 < m
    requires qb * m < x * m + 0x8000_0000 * b
    requires x * m < qb * m + b * m + 0x1_8000_0000 * b
    requires 0x1_0000_0000 * b <= b * m
    ensures 2 * qb < 2 * x + b && 2 * x < 2 * qb + 5 * b
  {
    assert (2 * x + b) * m == 2 * (x * m) + b * m;
    assert (2 * qb) * m == 2 * (qb * m);
    assert (2 * qb + 5 * b) * m == 2 * (qb * m) + 5 * (b * m);
    assert (2 * x) * m == 2 * (x * m);
    MulCancel(2 * qb, 2 * x + b, m);
    MulCancel(2 * x, 2 * qb + 5 * b, m);
  }
}
