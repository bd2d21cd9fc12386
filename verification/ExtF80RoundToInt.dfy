// extF80_roundToInt: an explicit integer bit, unnormalised encodings, and a
// significand that can overflow its 64 bits when rounded up.
module ExtF80RoundToInt {
  import opened Arith
  import opened Words
  import opened Rounding
  import opened RoundPack
  import opened Normalize
  import opened RoundToInt
  import opened F128RoundToInt
  import opened Extended80

  // The integer the mode selects, with the sign of the operand; inexact is
  // raised when asked for and the operand was not an integer.
  ghost predicate RoundedTo80(mode: Mode, exact: bool, a: ExtF80, z: ExtF80, inexact: bool) {
    && Finite80(z) && Sign80(z) == Sign80(a)
    && Value80(z) == RoundInt(mode, Sign80(a), Value80(a), Pow2(UNIT80_EXP)) * Pow2(UNIT80_EXP)
    && inexact == (exact && Value80(a) % Pow2(UNIT80_EXP) != 0)
  }

  // A nonzero finite operand with its significand normalised.  Subnormals get
  // an exponent of zero or less, one below their true one.
  ghost predicate Normal80(a: ExtF80, exp: int, sig: U64) {
    && INT_BIT <= sig && exp < 0x7FFF
    && (exp > 0 ==> Value80(a) == sig * Pow2(exp - 1))
    && (exp <= 0 ==> 0 < Value80(a) < W64)
  }

  lemma ShiftedSig(a: ExtF80, c: nat)
    requires 0 < a.signif && c == CountLeadingZeros64(a.signif)
    ensures c <= 63 && INT_BIT <= a.signif * Pow2(c) < W64
    ensures Normal80(a, Exp80(a) as int - c, a.signif * Pow2(c)) || Exp80(a) == 0x7FFF
  {
    hide Pow2;
    hide CountLeadingZeros64;
    var e := Exp80(a) as int;
    if e > c {
      ScalePow(a.signif, c, e - c - 1, e - 1);
    } else {
      SmallValue(a, c);
    }
  }

  lemma SmallValue(a: ExtF80, c: nat)
    requires 0 < a.signif && Exp80(a) <= c && a.signif * Pow2(c) < W64
    ensures 0 < Value80(a) < W64
  {
    hide Pow2;
    var e := if Exp80(a) == 0 then 0 else Exp80(a) - 1;
    Pow2Mono(e, c);
    MulMono(Pow2(e), Pow2(c), a.signif);
    MulMono(1, a.signif, Pow2(e));
    Commute(Pow2(e), a.signif);
    Commute(Pow2(c), a.signif);
  }

  // ---- below one ----

  function Place80(exp: int, sig: U64): Position {
    if exp < 0x3FFE then Below else if sig % INT_BIT == 0 then Half else Above
  }

  lemma Small80(mode: Mode, sign: bool, a: ExtF80, exp: int, sig: U64)
    requires Normal80(a, exp, sig) && exp <= 0x3FFE
    ensures 0 < Value80(a) < Pow2(UNIT80_EXP) && Value80(a) % Pow2(UNIT80_EXP) != 0
    ensures RoundInt(mode, sign, Value80(a), Pow2(UNIT80_EXP)) == RoundAt(mode, sign, 0, Place80(exp, sig))
  {
    hide Pow2;
    hide Value80;
    var v, d := Value80(a), Pow2(UNIT80_EXP);
    Halves80();
    if exp <= 0 {
      Pow2Mono(64, UNIT80_EXP - 1);
      Pow2Wide();
    } else if exp < 0x3FFE {
      var p, q := Pow2(exp - 1), Pow2(0x3FFD);
      Pow2Mono(exp - 1, 0x3FFD);
      Below80(sig, p, q, d);
    } else {
      var p := Pow2(0x3FFD);
      Half80(sig, p, d);
    }
    DivModUnique(v, d, 0, v);
  }

  lemma Halves80()
    ensures Pow2(UNIT80_EXP) == 2 * (INT_BIT * Pow2(0x3FFD)) == 2 * Pow2(UNIT80_EXP - 1)
  {
    DoubleAt(UNIT80_EXP);
    DoubleAt(64);
    Pow2Wide();
    Pow2Sum(63, 0x3FFD, UNIT80_EXP - 1);
  }

  lemma Below80(sig: U64, p: nat, q: nat, d: nat)
    requires INT_BIT <= sig && 2 * p <= q && d == 2 * (INT_BIT * q) && p > 0
    ensures 0 < sig * p && 2 * (sig * p) < d
  {
    MulMonoStrict(sig, 2 * INT_BIT, p);
    MulMono(1, sig, p);
    MulMono(2 * p, q, INT_BIT);
    assert (2 * INT_BIT) * p == (2 * p) * INT_BIT;
  }

  lemma Half80(sig: U64, p: nat, d: nat)
    requires INT_BIT <= sig && d == 2 * (INT_BIT * p) && p > 0
    ensures 0 < sig * p < d && 2 * (sig * p) >= d && (2 * (sig * p) == d <==> sig % INT_BIT == 0)
  {
    MulMonoStrict(sig, 2 * INT_BIT, p);
    assert (2 * INT_BIT) * p == 2 * (INT_BIT * p);
    if sig > INT_BIT {
      MulMonoStrict(INT_BIT, sig, p);
    }
    MulMono(1, INT_BIT, p);
  }

  lemma Unit80(sign: bool)
    ensures Value80(ExtF80(Pack80(sign, 0x3FFF), INT_BIT)) == Pow2(UNIT80_EXP)
    ensures forall e :: 0 <= e < 0x7FFF ==> Value80(ExtF80(Pack80(sign, e), 0)) == 0
  {
    hide Pow2;
    Pow2Sum(63, 0x3FFE, UNIT80_EXP);
    DoubleAt(64);
    Pow2Wide();
  }

  method RoundSmall80(a: ExtF80, exp: int, sigA: U64, mode: Mode, exact: bool) returns (z: ExtF80, inexact: bool)
    requires Finite80(a) && Normal80(a, exp, sigA) && exp <= 0x3FFE
    ensures RoundedTo80(mode, exact, a, z, inexact)
  {
    hide Pow2;
    hide RoundInt;
    hide Value80;
    Small80(mode, Sign80(a), a, exp, sigA);
    Unit80(Sign80(a));
    inexact := exact;
    var mag1 :=
      match mode
      case NearEven => sigA % INT_BIT != 0 && exp == 0x3FFE
      case NearMaxMag => exp == 0x3FFE
      case Min => Sign80(a)
      case Max => !Sign80(a)
      case MinMag => false;
    z := if mag1 then ExtF80(Pack80(Sign80(a), 0x3FFF), INT_BIT) else ExtF80(Pack80(Sign80(a), 0), 0);
  }

  // ---- in between ----

  // lastBitMask = 1 << k divides 2^63.
  lemma Step80(k: nat) returns (s: nat)
    requires 1 <= k <= 63
    ensures Pow2(k) * s == INT_BIT && 2 <= Pow2(k) <= INT_BIT && Pow2(k) % 2 == 0
  {
    hide Pow2;
    Pow2Sum(k, 63 - k, 63);
    DoubleAt(64);
    Pow2Wide();
    Pow2Small();
    Pow2Mono(1, k);
    Pow2Mono(k, 63);
    Pow2Even(k);
    s := Pow2(63 - k);
  }

  // Masking commutes with the wrap at 2^64.
  lemma WrapMask(x: nat, p: nat, s: nat)
    requires p > 0 && p * s == INT_BIT && x < 2 * W64
    ensures ClearLow(x % W64, p) == ClearLow(x, p) % W64
    ensures x % W64 % p == x % p
  {
    var y := if x >= W64 then x - W64 else x;
    assert y == x % W64;
    if x >= W64 {
      WrappedParity(y, x, p, s);
    }
    var q, r := SplitBy(y, p);
    SmallClear(y, p, q, r);
  }

  lemma SmallClear(x: nat, p: nat, q: nat, r: nat)
    requires p > 0 && x == q * p + r && r < p && r == x % p && x < W64
    ensures 0 <= ClearLow(x, p) < W64
  {
    MulMono(0, q, p);
  }

  lemma WrapBit(x: nat, p: nat, s: nat)
    requires p > 0 && p * s == INT_BIT && x < 2 * W64
    ensures ClearBit(x % W64, p) == ClearBit(x, p) % W64 && ClearBit(x, p) < 2 * W64
  {
    hide ClearBit;
    if x >= W64 {
      WrappedParity(x - W64, x, p, s);
      BitWrap(x, p);
    } else {
      BitLess(x, p);
    }
  }

  lemma WrappedParity(y: nat, x: nat, p: nat, s: nat)
    requires p > 0 && p * s == INT_BIT && x == y + W64
    ensures x / p % 2 == y / p % 2 && x % p == y % p
  {
    var q, r := SplitBy(y, p);
    assert (2 * s) * p == W64;
    Distribute(q, 2 * s, p);
    DivModUnique(x, p, q + 2 * s, r);
  }

  lemma BitWrap(x: nat, p: nat)
    requires p > 0 && W64 <= x < 2 * W64 && x / p % 2 == (x - W64) / p % 2
    ensures ClearBit(x % W64, p) == ClearBit(x, p) % W64 && ClearBit(x, p) < 2 * W64
  {
    hide ClearBit;
    BitLess(x, p);
    BitLess(x - W64, p);
    var c := ClearBit(x, p);
    assert c - W64 == ClearBit(x - W64, p) by {
      BitSame(x, p);
    }
    DivModUnique(c, W64, 1, c - W64);
  }

  lemma BitSame(x: nat, p: nat)
    requires p > 0 && W64 <= x && x / p % 2 == (x - W64) / p % 2
    ensures ClearBit(x, p) == ClearBit(x - W64, p) + W64
  {
    hide *;
    BitIs(x, p);
    BitIs(x - W64, p);
  }

  lemma BitIs(x: nat, p: nat)
    requires p > 0
    ensures ClearBit(x, p) == if x / p % 2 == 1 then x - p else x
  {
  }

  lemma BitLess(x: nat, p: nat)
    requires p > 0
    ensures 0 <= ClearBit(x, p) <= x
  {
  }

  // The step of each mode.
  lemma MaskedIn(mode: Mode, sign: bool, x: U64, p: nat)
    requires p > 0 && p % 2 == 0
    ensures var z := x + p / 2;
            Masked(mode, sign, x, 0, p) ==
            if mode == NearMaxMag then ClearLow(z, p)
            else if mode == NearEven then ClearLow(if z % p == 0 then ClearBit(z, p) else z, p)
            else if mode == (if sign then Min else Max) then UpMasked(x, 0, p)
            else ClearLow(x, p)
  {
    hide ClearLow;
    hide ClearBit;
    hide UpMasked;
  }

  method AddStep80(sigA: U64, mode: Mode, sign: bool, lastBitMask: U64, ghost s: nat) returns (sigZ: U64)
    requires 2 <= lastBitMask && lastBitMask % 2 == 0 && lastBitMask * s == INT_BIT && lastBitMask <= INT_BIT
    ensures ClearLow(sigZ, lastBitMask) == Masked(mode, sign, sigA, 0, lastBitMask) % W64
  {
    hide ClearLow;
    hide ClearBit;
    hide UpMasked;
    hide Masked;
    MaskedIn(mode, sign, sigA, lastBitMask);
    sigZ := sigA;
    ghost var z := sigA + lastBitMask / 2;
    if mode == NearMaxMag {
      WrapMask(z, lastBitMask, s);
      sigZ := (sigZ + lastBitMask / 2) % W64;
    } else if mode == NearEven {
      WrapMask(z, lastBitMask, s);
      sigZ := (sigZ + lastBitMask / 2) % W64;
      if sigZ % lastBitMask == 0 {
        WrapBit(z, lastBitMask, s);
        WrapMask(ClearBit(z, lastBitMask), lastBitMask, s);
        sigZ := ClearBit(sigZ, lastBitMask);
      }
    } else if mode == (if sign then Min else Max) {
      UpByMask(sigA, lastBitMask);
      WrapMask(sigA + lastBitMask - 1, lastBitMask, s);
      sigZ := (sigZ + (lastBitMask - 1)) % W64;
    } else {
      WrapMask(sigA, lastBitMask, s);
    }
  }

  // The rounded significand of 64 bits is at most 2^64, and its value at
  // exponent exp is the rounded value.
  lemma Middle80(mode: Mode, a: ExtF80, exp: int, sig: U64, k: nat)
    requires Normal80(a, exp, sig) && 0x3FFF <= exp && exp + k == 0x403E && k > 0
    ensures INT_BIT <= RoundInt(mode, Sign80(a), sig, Pow2(k)) * Pow2(k) <= W64
    ensures RoundInt(mode, Sign80(a), Value80(a), Pow2(UNIT80_EXP)) * Pow2(UNIT80_EXP)
         == (RoundInt(mode, Sign80(a), sig, Pow2(k)) * Pow2(k)) * Pow2(exp - 1)
    ensures Value80(a) % Pow2(UNIT80_EXP) == 0 <==> RoundInt(mode, Sign80(a), sig, Pow2(k)) * Pow2(k) == sig
  {
    hide Pow2;
    hide RoundInt;
    hide Value80;
    var p, w := Pow2(k), Pow2(exp - 1);
    var s := Step80(k);
    Pow2Sum(k, exp - 1, UNIT80_EXP);
    RoundIntScale(mode, Sign80(a), sig, p, w);
    var r := RoundInt(mode, Sign80(a), sig, p);
    Associate(r, p, w);
    Range80(mode, Sign80(a), sig, p, s);
    RoundFixed(mode, Sign80(a), sig, p);
  }

  lemma Range80(mode: Mode, sign: bool, sig: U64, p: nat, s: nat)
    requires INT_BIT <= sig && p > 0 && p * s == INT_BIT
    ensures INT_BIT <= RoundInt(mode, sign, sig, p) * p <= W64
  {
    hide RoundInt;
    assert p * (2 * s) == W64;
    QuotientBounds(mode, sign, sig, p, 2 * s, s);
    var r := RoundInt(mode, sign, sig, p);
    MulMono(s, r, p);
    MulMono(r, 2 * s, p);
    Commute(p, s);
    Commute(p, 2 * s);
  }

  lemma QuotientBounds(mode: Mode, sign: bool, num: nat, den: nat, hi: nat, lo: nat)
    requires den > 0 && den * lo <= num < den * hi
    ensures lo <= RoundInt(mode, sign, num, den) <= hi
  {
    Binary128.RoundIntRange(mode, sign, num, den, hi, lo);
  }

  method RoundMiddle80(a: ExtF80, exp: int, sigA: U64, mode: Mode, exact: bool) returns (z: ExtF80, inexact: bool)
    requires Finite80(a) && Normal80(a, exp, sigA) && 0x3FFF <= exp < 0x403E
    ensures RoundedTo80(mode, exact, a, z, inexact)
  {
    hide Pow2;
    hide RoundInt;
    hide Value80;
    hide Masked;
    hide ClearLow;
    ghost var k := 0x403E - exp;
    ghost var s := Step80(k);
    Middle80(mode, a, exp, sigA, k);
    MaskedWhole(mode, Sign80(a), sigA, Pow2(k));
    var lastBitMask: U64 := Pow2(0x403E - exp);
    ghost var total := Masked(mode, Sign80(a), sigA, 0, lastBitMask);
    var uiZ64 := Pack80(Sign80(a), exp);
    var sigZ := AddStep80(sigA, mode, Sign80(a), lastBitMask, s);
    sigZ := ClearLow(sigZ, lastBitMask);
    if sigZ == 0 {
      uiZ64 := uiZ64 + 1;
      sigZ := INT_BIT;
      CarryNotSame(mode, Sign80(a), sigA, Pow2(k), s);
    }
    inexact := sigZ != sigA && exact;
    z := ExtF80(uiZ64, sigZ);
    PackedValue(Sign80(a), exp, total, z);
  }

  // A carry out of the significand never leaves it as it was.
  lemma CarryNotSame(mode: Mode, sign: bool, sig: U64, p: nat, s: nat)
    requires p > 0 && p * s == INT_BIT && RoundInt(mode, sign, sig, p) * p == W64
    ensures sig != INT_BIT
  {
    hide RoundInt;
    if sig == INT_BIT {
      Commute(p, s);
      RoundIntExact(mode, sign, s, p);
    }
  }

  lemma PackedValue(sign: bool, exp: nat, total: nat, z: ExtF80)
    requires 0x3FFF <= exp < 0x403E && INT_BIT <= total <= W64
    requires z == if total == W64 then ExtF80(Pack80(sign, exp) + 1, INT_BIT) else ExtF80(Pack80(sign, exp), total)
    ensures Finite80(z) && Sign80(z) == sign && Value80(z) == total * Pow2(exp - 1)
  {
    DoubleAt(exp);
  }

  method ExtF80RoundToInt(a: ExtF80, mode: Mode, exact: bool) returns (z: ExtF80, inexact: bool, invalid: bool)
    ensures IsNaN80(a) ==> z == DEFAULT_NAN80 && !inexact && invalid == IsSigNaN80(a)
    ensures !Finite80(a) && !IsNaN80(a) ==> z == ExtF80(a.signExp, INT_BIT) && !inexact && !invalid
    ensures Finite80(a) ==> RoundedTo80(mode, exact, a, z, inexact) && !invalid
  {
    hide RoundInt;
    hide Pow2;
    hide Value80;
    invalid := false;
    inexact := false;
    var exp: int, sigA := Exp80(a), a.signif;
    if sigA < INT_BIT && exp != 0x7FFF {
      if sigA == 0 {
        z := ExtF80(Pack80(Sign80(a), 0), 0);
        ZeroRounded(mode, exact, a, z);
        return;
      }
      var c := CountLeadingZeros64(sigA);
      ShiftedSig(a, c);
      exp := exp - c;
      sigA := sigA * Pow2(c);
    } else if exp != 0x7FFF {
      NormalAlready(a);
    }
    if 0x403E <= exp {
      if exp == 0x7FFF {
        if sigA % INT_BIT != 0 {
          return DEFAULT_NAN80, false, IsSigNaN80(a);
        }
        return ExtF80(Pack80(Sign80(a), exp), INT_BIT), false, false;
      }
      z := ExtF80(Pack80(Sign80(a), exp), sigA);
      LargeRounded80(mode, exact, a, exp, sigA, z);
      return;
    }
    if exp <= 0x3FFE {
      z, inexact := RoundSmall80(a, exp, sigA, mode, exact);
    } else {
      z, inexact := RoundMiddle80(a, exp, sigA, mode, exact);
    }
  }

  lemma NormalAlready(a: ExtF80)
    requires INT_BIT <= a.signif && Finite80(a)
    ensures Normal80(a, Exp80(a), a.signif)
  {
    assert Pow2(0) == 1;
  }

  lemma ZeroRounded(mode: Mode, exact: bool, a: ExtF80, z: ExtF80)
    requires Finite80(a) && a.signif == 0 && z == ExtF80(Pack80(Sign80(a), 0), 0)
    ensures RoundedTo80(mode, exact, a, z, false)
  {
    hide Pow2;
    DivModUnique(0, Pow2(UNIT80_EXP), 0, 0);
  }

  lemma LargeRounded80(mode: Mode, exact: bool, a: ExtF80, exp: int, sig: U64, z: ExtF80)
    requires Normal80(a, exp, sig) && 0x403E <= exp && z == ExtF80(Pack80(Sign80(a), exp), sig)
    ensures RoundedTo80(mode, exact, a, z, false)
  {
    hide Pow2;
    hide RoundInt;
    var t, d := sig * Pow2(exp - 1 - UNIT80_EXP), Pow2(UNIT80_EXP);
    Pow2Sum(exp - 1 - UNIT80_EXP, UNIT80_EXP, exp - 1);
    Associate(sig, Pow2(exp - 1 - UNIT80_EXP), d);
    RoundIntExact(mode, Sign80(a), t, d);
    DivModUnique(t * d, d, t, 0);
  }
}
