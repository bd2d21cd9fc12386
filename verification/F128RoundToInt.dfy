// f128_roundToInt: the form on two 64-bit words.
module F128RoundToInt {
  import opened Arith
  import opened Words
  import opened Rounding
  import opened Binary128
  import opened RoundPack
  import opened RoundToInt
  import opened F128Rem

  // The result and flag for a finite operand.
  ghost predicate RoundedTo(mode: Mode, exact: bool, a: U128, z: U128, inexact: bool) {
    && z.V() == SignBits(SignOf(a)) + RoundedMagnitude(mode, SignOf(a), Magnitude(a))
    && inexact == (exact && MagnitudeValue(Magnitude(a)) % Pow2(UNIT_EXP) != 0)
  }

  // In terms of values: z is the integer the mode selects, with the sign of a.
  lemma RoundedToMeans(mode: Mode, exact: bool, a: U128, z: U128, inexact: bool)
    requires Finite(a) && RoundedTo(mode, exact, a, z, inexact)
    ensures Finite(z) && SignOf(z) == SignOf(a)
    ensures var v, unit := MagnitudeValue(Magnitude(a)), Pow2(UNIT_EXP);
            && MagnitudeValue(Magnitude(z)) == RoundInt(mode, SignOf(a), v, unit) * unit
            && Rounds(mode, SignOf(a), v, unit, RoundInt(mode, SignOf(a), v, unit))
            && (inexact <==> exact && Value(z) != Value(a))
  {
    hide Pow2;
    hide RoundInt;
    hide Rounds;
    hide MagnitudeValue;
    hide RoundedMagnitude;
    var m, sign, unit := Magnitude(a), SignOf(a), Pow2(UNIT_EXP);
    FiniteBound(a);
    RoundedMeans(mode, sign, m);
    SplitSign(z, sign, RoundedMagnitude(mode, sign, m));
    RoundFixed(mode, sign, MagnitudeValue(m), unit);
  }

  lemma FiniteBound(a: U128)
    requires Finite(a)
    ensures Magnitude(a) < INF && Magnitude(a) / P112 == ExpOf(a)
  {
    DivModUnique(Magnitude(a), P112, ExpOf(a), FracOf(a).V());
  }

  // ---- magnitudes below one ----

  method RoundSmall(a: U128, exp: nat, mode: Mode, exact: bool) returns (z: U128, inexact: bool)
    requires exp == ExpOf(a) < 0x3FFF
    ensures RoundedTo(mode, exact, a, z, inexact)
  {
    hide RoundedTo;
    hide SmallPlace;
    hide ExpOf;
    hide SignOf;
    SmallWords(a);
    if a.v64 % 0x8000_0000_0000_0000 == 0 && a.v0 == 0 {
      SmallRounded(mode, exact, a, a, false);
      return a, false;
    }
    inexact := exact;
    var v64: U64 := if SignOf(a) then 0x8000_0000_0000_0000 else 0;
    match mode {
      case NearEven =>
        if !(FracOf(a).v64 == 0 && a.v0 == 0) && exp == 0x3FFE {
          v64 := v64 + 0x3FFF_0000_0000_0000;
        }
      case NearMaxMag =>
        if exp == 0x3FFE {
          v64 := v64 + 0x3FFF_0000_0000_0000;
        }
      case Min =>
        if v64 != 0 {
          v64 := 0xBFFF_0000_0000_0000;
        }
      case Max =>
        if v64 == 0 {
          v64 := 0x3FFF_0000_0000_0000;
        }
      case MinMag =>
    }
    z := U128(v64, 0);
    SmallRounded(mode, exact, a, z, inexact);
  }

  // The position of a magnitude below one, read off the words.
  lemma SmallWords(a: U128)
    requires ExpOf(a) < 0x3FFF
    ensures SmallPlace(Magnitude(a)).Exact? <==> a.v64 % 0x8000_0000_0000_0000 == 0 && a.v0 == 0
    ensures a.v64 % 0x8000_0000_0000_0000 == 0 && a.v0 == 0 ==> a == SmallResult(SignOf(a), false)
    ensures !SmallPlace(Magnitude(a)).Exact? ==>
              && (SmallPlace(Magnitude(a)).Below? <==> ExpOf(a) != 0x3FFE)
              && (ExpOf(a) == 0x3FFE ==> (SmallPlace(Magnitude(a)).Half? <==> FracOf(a).v64 == 0 && a.v0 == 0))
  {
    FiniteBound(a);
    DivModUnique(Magnitude(a), P112, ExpOf(a), FracOf(a).V());
  }

  // Zero or one, with the sign of the operand.
  function SmallResult(sign: bool, up: bool): U128 {
    U128((if sign then 0x8000_0000_0000_0000 else 0) + (if up then 0x3FFF_0000_0000_0000 else 0), 0)
  }

  lemma SmallRounded(mode: Mode, exact: bool, a: U128, z: U128, inexact: bool)
    requires ExpOf(a) < 0x3FFF
    requires z == SmallResult(SignOf(a), Increments(mode, SignOf(a), 0, SmallPlace(Magnitude(a))))
    requires inexact == (exact && !SmallPlace(Magnitude(a)).Exact?)
    ensures RoundedTo(mode, exact, a, z, inexact)
  {
    hide Pow2;
    hide RoundInt;
    hide MagnitudeValue;
    FiniteBound(a);
    SmallIs(mode, SignOf(a), Magnitude(a));
    SmallUnit(a);
  }

  lemma SmallUnit(a: U128)
    requires ExpOf(a) < 0x3FFF
    ensures MagnitudeValue(Magnitude(a)) % Pow2(UNIT_EXP) == 0 <==> Magnitude(a) == 0
    ensures Magnitude(a) % P112 == FracOf(a).V()
  {
    hide Pow2;
    hide RoundInt;
    hide MagnitudeValue;
    FiniteBound(a);
    SmallIs(MinMag, false, Magnitude(a));
    DivModUnique(MagnitudeValue(Magnitude(a)), Pow2(UNIT_EXP), 0, MagnitudeValue(Magnitude(a)));
    DivModUnique(Magnitude(a), P112, ExpOf(a), FracOf(a).V());
  }

  // ---- the whole pattern rounded to a multiple of 2^k ----

  // The sign bit is an even number of steps, so it may be rounded along.
  lemma WholePattern(mode: Mode, sign: bool, m: nat, k: nat)
    requires 0x3FFF <= m / P112 && m / P112 + k == ALL_INTEGRAL && k > 0
    ensures RoundInt(mode, sign, SignBits(sign) + m, Pow2(k)) * Pow2(k)
            == SignBits(sign) + RoundedMagnitude(mode, sign, m)
  {
    hide Pow2;
    hide RoundInt;
    hide MagnitudeValue;
    var c := SignSteps(sign, k);
    RoundIntShift(mode, sign, m, Pow2(k), c);
    Distribute(RoundInt(mode, sign, m, Pow2(k)), c, Pow2(k));
  }

  lemma WithSign(mode: Mode, a: U128, z: U128, exact: bool, k: nat)
    requires 0x3FFF <= ExpOf(a) && ExpOf(a) + k == ALL_INTEGRAL && k > 0
    requires z.V() == RoundInt(mode, SignOf(a), a.V(), Pow2(k)) * Pow2(k)
    ensures RoundedTo(mode, exact, a, z, exact && z != a)
  {
    hide Pow2;
    hide RoundInt;
    hide RoundedMagnitude;
    hide MagnitudeValue;
    hide Rounds;
    FiniteBound(a);
    WholePattern(mode, SignOf(a), Magnitude(a), k);
    RoundedMeans(mode, SignOf(a), Magnitude(a));
    if z.V() == a.V() {
      VInjective(z, a);
    }
  }

  lemma SignSteps(sign: bool, k: nat) returns (c: nat)
    requires k <= 112
    ensures c % 2 == 0 && SignBits(sign) == c * Pow2(k)
  {
    hide Pow2;
    c := if sign then Pow2(127 - k) else 0;
    Pow2Sum(127 - k, k, 127);
    Pow2Sum(112, 15, 127);
    Pow2Sum(8, 4, 12);
    Pow2Sum(12, 3, 15);
    Pow2Small();
    Pow2Wide();
    Pow2Even(127 - k);
  }

  // Masking the low word masks the pair.
  lemma MaskLow(z: U128, p: nat, s: nat)
    requires p > 0 && p * s == W64
    ensures z.V() % p == z.v0 % p
    ensures ClearLow(z.V(), p) == z.V() - z.v0 % p
    ensures s % 2 == 0 ==> z.V() / p % 2 == z.v0 / p % 2
  {
    var q, r := SplitBy(z.v0, p);
    WordParts(z.V(), z.v64, z.v0, W64, p, s, q, r);
    if s % 2 == 0 {
      EvenTimes(z.v64, s);
    }
  }

  lemma WordParts(v: nat, hi: nat, lo: nat, base: nat, p: nat, s: nat, q: nat, r: nat)
    requires p > 0 && p * s == base && v == hi * base + lo && lo == q * p + r && r < p
    ensures v % p == r && v / p == hi * s + q
  {
    Commute(s, p);
    Associate(hi, s, p);
    Distribute(hi * s, q, p);
    DivModUnique(v, p, hi * s + q, r);
  }

  // Rounding up: p - 1 is added and the low bits cleared.
  lemma UpByMask(u: nat, p: nat)
    requires p > 0
    ensures UpMasked(u, 0, p) == ClearLow(u + p - 1, p)
  {
    var q, r := SplitBy(u, p);
    if r == 0 {
      NearParts(u + p - 1, p, q, q * p, p - 1);
    } else {
      assert (q + 1) * p == q * p + p;
      NearParts(u + p - 1, p, q + 1, (q + 1) * p, r - 1);
    }
  }

  lemma UpByOr(u: nat, low: nat, p: nat)
    requires p > 0 && p % 2 == 0
    ensures UpMasked(u, low, p) == ClearLow(OrLow(u, low != 0) + p - 1, p)
  {
    var q, r := SplitBy(u, p);
    if low != 0 && u % 2 == 0 {
      EvenRest(u, q, r, p);
      NearParts(u + 1, p, q, q * p, r + 1);
      UpByMask(u + 1, p);
    } else {
      if low != 0 && r == 0 {
        EvenTimes(q, p);
        assert false;
      }
      UpByMask(u, p);
    }
  }

  lemma EvenRest(u: nat, q: nat, r: nat, p: nat)
    requires p > 0 && p % 2 == 0 && u == q * p + r && r < p && u % 2 == 0
    ensures r + 1 < p
  {
    EvenTimes(q, p);
  }

  // x | b
  lemma StepBelow(a: U128, p: nat)
    requires ExpOf(a) < ALL_INTEGRAL && p <= W64
    ensures a.V() + p < W128 && a.v64 < W64 - 0x2_0000_0000_0000
    ensures (a.V() + p) % W128 == a.V() + p
  {
  }

  lemma LowStep(k: nat) returns (s: nat)
    requires 1 <= k <= 64
    ensures Pow2(k) * s == W64 && 2 <= Pow2(k) <= W64 && Pow2(k) % 2 == 0 && Pow2(k) / 2 * 2 == Pow2(k)
    ensures k < 64 ==> s % 2 == 0 && Pow2(k) < W64
    ensures k == 64 ==> Pow2(k) == W64
  {
    hide Pow2;
    Pow2Sum(k, 64 - k, 64);
    Pow2Wide();
    Pow2Small();
    Pow2Mono(1, k);
    Pow2Even(k);
    Pow2Mono(k, 64);
    s := Pow2(64 - k);
    if k < 64 {
      Pow2Even(64 - k);
    }
  }

  // The point just above the low word: `++v64` and `v64 &= ~1`.
  method RoundWord(a: U128, even: bool) returns (z: U128)
    requires ExpOf(a) < ALL_INTEGRAL
    ensures ClearLow(z.V(), W64) == NearMasked(even, a.V(), 0, W64 / 2)
  {
    StepBelow(a, W64);
    z := a;
    if 0x8000_0000_0000_0000 <= a.v0 {
      z := U128(a.v64 + 1, a.v0);
      if even && a.v0 == 0x8000_0000_0000_0000 {
        z := U128(ClearLow(z.v64, 2), z.v0);
      }
    }
    NearWord(a, even, z.v64);
    NearParts(z.V(), W64, z.v64, z.v64 * W64, z.v0);
  }

  lemma NearWord(a: U128, even: bool, hi: nat)
    requires hi == if a.v0 < W64 / 2 then a.v64 else if even && a.v0 == W64 / 2 then ClearLow(a.v64 + 1, 2)
             else a.v64 + 1
    ensures NearMasked(even, a.V(), 0, W64 / 2) == hi * W64
  {
    NearAt(even, a.v64, a.v64 * W64, a.v0, 0, W64);
  }

  // The point inside the low word.
  method RoundBit(a: U128, even: bool, k: nat) returns (z: U128)
    requires ExpOf(a) < ALL_INTEGRAL && 1 <= k < 64 && Pow2(k) < W64
    ensures ClearLow(z.V(), Pow2(k)) == NearMasked(even, a.V(), 0, Pow2(k) / 2)
  {
    hide Pow2;
    hide Add128;
    hide ClearLow;
    hide ClearBit;
    var lastBitMask0: U64 := Pow2(k);
    ghost var s := LowStep(k);
    StepBelow(a, lastBitMask0 / 2);
    z := Add128(a, U128(0, lastBitMask0 / 2));
    MaskLow(z, lastBitMask0, s);
    if even && z.v0 % lastBitMask0 == 0 {
      ghost var z0 := z;
      ClearWord(z, lastBitMask0, s);
      z := U128(z.v64, ClearBit(z.v0, lastBitMask0));
    }
  }

  lemma ClearWord(z: U128, p: nat, s: nat)
    requires p > 0 && p * s == W64 && s % 2 == 0
    ensures ClearBit(z.v0, p) < W64 && U128(z.v64, ClearBit(z.v0, p)).V() == ClearBit(z.V(), p)
  {
    MaskLow(z, p, s);
  }

  // Exponents 0x402F and up: the point is in the low word, or just above it.
  method RoundLow(a: U128, exp: nat, mode: Mode) returns (z: U128)
    requires exp == ExpOf(a) && 0x402F <= exp < ALL_INTEGRAL
    ensures z.V() == RoundInt(mode, SignOf(a), a.V(), Pow2(ALL_INTEGRAL - exp)) * Pow2(ALL_INTEGRAL - exp)
  {
    hide Pow2;
    hide RoundInt;
    hide ClearLow;
    hide Masked;
    hide ExpOf;
    hide SignOf;
    var k := ALL_INTEGRAL - exp;
    ghost var p := Pow2(k);
    ghost var s := LowStep(k);
    // 2 << (0x406E - exp), which shifts out to 0 when exp is 0x402F
    var lastBitMask0: U64 := if exp == 0x402F then 0 else Pow2(k);
    var roundBitsMask: U64 := (lastBitMask0 - 1) % W64;
    MaskBelow(p, lastBitMask0);
    z := AddLow(a, exp, mode, roundBitsMask);
    MaskLow(z, p, s);
    LowClear(z, p);
    z := U128(z.v64, ClearLow(z.v0, roundBitsMask + 1));
    MaskedWhole(mode, SignOf(a), a.V(), p);
  }

  method AddLow(a: U128, exp: nat, mode: Mode, roundBitsMask: U64) returns (z: U128)
    requires exp == ExpOf(a) && 0x402F <= exp < ALL_INTEGRAL && roundBitsMask == Pow2(ALL_INTEGRAL - exp) - 1
    ensures Pow2(ALL_INTEGRAL - exp) % 2 == 0
    ensures ClearLow(z.V(), Pow2(ALL_INTEGRAL - exp)) == Masked(mode, SignOf(a), a.V(), 0, Pow2(ALL_INTEGRAL - exp))
  {
    hide Pow2;
    hide Add128;
    hide ClearLow;
    hide NearMasked;
    hide UpMasked;
    hide ExpOf;
    hide SignOf;
    var k := ALL_INTEGRAL - exp;
    ghost var s := LowStep(k);
    StepBelow(a, roundBitsMask);
    z := a;
    if mode == NearEven || mode == NearMaxMag {
      if exp == 0x402F {
        z := RoundWord(a, mode == NearEven);
      } else {
        z := RoundBit(a, mode == NearEven, k);
      }
    } else if mode == (if SignOf(a) then Min else Max) {
      z := Add128(z, U128(0, roundBitsMask));
      UpByMask(a.V(), Pow2(k));
    }
  }

  lemma MaskedWhole(mode: Mode, sign: bool, u: nat, p: nat)
    requires p > 0 && p % 2 == 0
    ensures Masked(mode, sign, u, 0, p) == RoundInt(mode, sign, u, p) * p
  {
    hide Masked;
    hide RoundInt;
    MaskedIs(mode, sign, u, 0, 1, p);
    assert u * 1 + 0 == u && p * 1 == p;
  }

  lemma MaskBelow(p: nat, mask: U64)
    requires 0 < p <= W64 && mask == p % W64
    ensures (mask - 1) % W64 == p - 1
  {
  }

  lemma LowClear(z: U128, p: nat)
    requires p > 0
    ensures 0 <= ClearLow(z.v0, p) < W64 && U128(z.v64, ClearLow(z.v0, p)).V() == z.V() - z.v0 % p
  {
    DivMod(z.v0, p);
    MulMono(0, z.v0 / p, p);
  }

  // ---- exponents below 0x402F: the point is in the high word ----

  lemma HighStep(k: nat)
    requires 65 <= k <= 112
    ensures Pow2(k) == Pow2(k - 64) * W64 && 2 <= Pow2(k - 64) <= 0x1_0000_0000_0000
    ensures Pow2(k - 64) % 2 == 0
  {
    hide Pow2;
    Pow2Sum(k - 64, 64, k);
    Pow2Wide();
    Pow2Small();
    Pow2Mono(1, k - 64);
    Pow2Even(k - 64);
    Pow2Mono(k - 64, 48);
  }

  method RoundHigh(a: U128, exp: nat, mode: Mode) returns (z: U128)
    requires exp == ExpOf(a) && 0x3FFF <= exp < 0x402F
    ensures z.V() == RoundInt(mode, SignOf(a), a.V(), Pow2(ALL_INTEGRAL - exp)) * Pow2(ALL_INTEGRAL - exp)
  {
    hide Pow2;
    hide RoundInt;
    hide ExpOf;
    hide SignOf;
    hide Masked;
    HighStep(ALL_INTEGRAL - exp);
    var lastBitMask64: U64 := Pow2(0x402F - exp);
    var v64 := AddHigh(a, mode, lastBitMask64);
    HighClear(v64, lastBitMask64);
    z := U128(ClearLow(v64, lastBitMask64), 0);
    MaskedIs(mode, SignOf(a), a.v64, a.v0, W64, lastBitMask64);
  }

  lemma HighClear(x: U64, p: nat)
    requires p > 0
    ensures 0 <= ClearLow(x, p) < W64
  {
    DivMod(x, p);
    MulMono(0, x / p, p);
  }

  method AddHigh(a: U128, mode: Mode, lastBitMask64: U64) returns (v64: U64)
    requires ExpOf(a) < ALL_INTEGRAL && 2 <= lastBitMask64 <= 0x1_0000_0000_0000 && lastBitMask64 % 2 == 0
    ensures ClearLow(v64, lastBitMask64) == Masked(mode, SignOf(a), a.v64, a.v0, lastBitMask64)
  {
    hide ClearLow;
    hide ExpOf;
    hide SignOf;
    hide UpMasked;
    StepBelow(a, 0);
    v64 := a.v64;
    if mode == NearMaxMag {
      v64 := v64 + lastBitMask64 / 2;
    } else if mode == NearEven {
      v64 := v64 + lastBitMask64 / 2;
      if v64 % lastBitMask64 == 0 && a.v0 == 0 {
        v64 := ClearBit(v64, lastBitMask64);
      }
    } else if mode == (if SignOf(a) then Min else Max) {
      v64 := OrLow(v64, a.v0 != 0) + (lastBitMask64 - 1);
      UpByOr(a.v64, a.v0, lastBitMask64);
    }
  }

  method F128RoundToInt(a: U128, mode: Mode, exact: bool) returns (z: U128, inexact: bool, invalid: bool)
    ensures IsNaN(a) ==> z == DEFAULT_NAN && !inexact && invalid == IsSigNaN(a)
    ensures IsInf(a) ==> z == a && !inexact && !invalid
    ensures Finite(a) ==> RoundedTo(mode, exact, a, z, inexact) && !invalid
  {
    hide RoundedTo;
    hide RoundInt;
    hide Pow2;
    var exp := ExpOf(a);
    if 0x402F <= exp {
      if 0x406F <= exp {
        if exp == 0x7FFF && FracOf(a).V() != 0 {
          return DEFAULT_NAN, false, IsSigNaN(a);
        }
        if exp != 0x7FFF {
          LargeRounded(mode, exact, a);
        }
        return a, false, false;
      }
      z := RoundLow(a, exp, mode);
    } else {
      if exp < 0x3FFF {
        z, inexact := RoundSmall(a, exp, mode, exact);
        return z, inexact, false;
      }
      z := RoundHigh(a, exp, mode);
    }
    WithSign(mode, a, z, exact, ALL_INTEGRAL - exp);
    return z, exact && z != a, false;
  }

  lemma LargeRounded(mode: Mode, exact: bool, a: U128)
    requires Finite(a) && ExpOf(a) >= ALL_INTEGRAL
    ensures RoundedTo(mode, exact, a, a, false)
  {
    hide RoundInt;
    hide Pow2;
    hide MagnitudeValue;
    FiniteBound(a);
    LargeMeans(mode, SignOf(a), Magnitude(a), ExpOf(a));
  }
}
