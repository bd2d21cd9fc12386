// extF80_rem and extF80_div on operands: special values, unnormalised
// encodings, the digit loops and the packed result.
module ExtF80Full {
  import opened Arith
  import opened Words
  import opened Rounding
  import opened Binary128
  import opened RoundPack
  import opened Normalize
  import opened Remainder
  import opened F128Rem
  import opened Extended80
  import opened ExtF80Rem
  import opened ExtF80Div

  predicate IsInf80(a: ExtF80) { Exp80(a) == 0x7FFF && a.signif % INT_BIT == 0 }

  function Signed80(a: ExtF80): (v: int) { if Sign80(a) then 0 - Value80(a) else Value80(a) }

  function Invalid80(b: bool): (ExtF80, Flags) { (DEFAULT_NAN80, Invalid(b)) }

  // A nonzero finite operand, in any encoding, with a normalised significand.
  ghost predicate Operand80(a: ExtF80, exp: int, sig: U64) {
    && -62 <= exp <= 0x7FFE && INT_BIT <= sig
    && Value80(a) * Pow2(63) == sig * Pow2(exp + 62)
  }

  method NormalOperand80(a: ExtF80) returns (exp: int, sig: U64)
    requires Finite80(a) && a.signif != 0
    ensures Operand80(a, exp, sig)
  {
    hide Pow2;
    hide CountLeadingZeros64;
    exp, sig := Exp80(a), a.signif;
    if exp == 0 {
      exp := 1;
    }
    if sig < INT_BIT {
      var c := CountLeadingZeros64(sig);
      ScalePow(sig, c, exp - c + 62, exp + 62);
      exp, sig := exp - c, sig * Pow2(c);
    }
    ScalePow(a.signif, (if Exp80(a) == 0 then 1 else Exp80(a)) - 1, 63, (if Exp80(a) == 0 then 1 else Exp80(a)) + 62);
  }

  // The operand itself, in its canonical encoding.
  method Canonical80(a: ExtF80) returns (z: ExtF80)
    requires Finite80(a)
    ensures Finite80(z) && Sign80(z) == Sign80(a) && Value80(z) == Value80(a)
    ensures Exp80(z) == 0 <==> z.signif < INT_BIT
  {
    hide Pow2;
    hide Value80;
    hide Sign80;
    hide Exp80;
    hide Pack80;
    if a.signif == 0 {
      ZeroValue80(a);
      PackedValue(a, Sign80(a), 0, 0);
      return ExtF80(Pack80(Sign80(a), 0), 0);
    }
    var exp, sig := NormalOperand80(a);
    if exp < 1 {
      CanonicalShift(a, exp, sig);
      sig, exp := sig / Pow2(1 - exp), 0;
      UnitScale(sig);
    } else {
      CanonicalKept(a, exp, sig);
    }
    PackedValue(a, Sign80(a), exp, sig);
    z := ExtF80(Pack80(Sign80(a), exp), sig);
  }

  // What an exponent field and a significand in canonical form pack to.
  lemma PackedValue(a: ExtF80, sign: bool, exp: nat, sig: U64)
    requires exp < 0x7FFF && (exp == 0 <==> sig < INT_BIT) && Sign80(a) == sign
    requires Value80(a) == sig * Pow2(if exp == 0 then 0 else exp - 1)
    ensures var z := ExtF80(Pack80(sign, exp), sig);
            Finite80(z) && Sign80(z) == Sign80(a) && Value80(z) == Value80(a) && (Exp80(z) == 0 <==> z.signif < INT_BIT)
  {
    hide Pow2;
    assert Exp80(ExtF80(Pack80(sign, exp), sig)) == exp;
  }

  lemma CanonicalShift(a: ExtF80, exp: int, sig: U64)
    requires Operand80(a, exp, sig) && exp < 1
    ensures 0 <= sig / Pow2(1 - exp) == Value80(a) < INT_BIT
  {
    hide Pow2;
    hide Value80;
    var v, p := Value80(a), Pow2(1 - exp);
    ScalePow(v, 1 - exp, exp + 62, 63);
    MulEqCancel(v * p, sig, Pow2(exp + 62));
    DivModUnique(sig, p, v, 0);
    Pow2Even(1 - exp);
    if v >= INT_BIT {
      MulMono(2, p, v);
    }
  }

  lemma UnitScale(sig: nat)
    ensures sig * Pow2(0) == sig
  {
  }

  lemma CanonicalKept(a: ExtF80, exp: int, sig: U64)
    requires Operand80(a, exp, sig) && 1 <= exp
    ensures Value80(a) == sig * Pow2(exp - 1)
  {
    hide Pow2;
    hide Value80;
    ScalePow(sig, exp - 1, 63, exp + 62);
    MulEqCancel(Value80(a), sig * Pow2(exp - 1), Pow2(63));
  }

  // ---- exact results ----

  lemma RoundF80Exact(mode: Mode, sign: bool, r: nat, t: nat)
    requires 0 < r <= W64 && t + 1 < 0x7FFF && (r <= INT_BIT || t + 2 < 0x7FFF)
    ensures var x := RoundF80(mode, sign, r * Pow2(t), 1);
            x.bits < INF80 && Value80(Encode80(sign, x.bits)) == r * Pow2(t) && !x.inexact && !x.overflow
            && !x.underflow
  {
    hide RoundInt;
    hide Pow2;
    hide Scale;
    hide Value80;
    hide RoundF80;
    var x := r * Pow2(t);
    var e := Scale80(x, 1);
    ScaleIs(x * P49, 1);
    assert 1 * Pow2(e) == Pow2(e);
    assert x * P49 == (r * P49) * Pow2(t);
    ExactGrid(r * P49, t, x * P49, e);
    if e <= t {
      var m := ExactFactor(r, t, e);
      ExactAt80(mode, sign, x, e, m);
    } else {
      ExactAt80(mode, sign, x, e, INT_BIT);
    }
  }

  lemma ExactAt80(mode: Mode, sign: bool, x: nat, e: nat, m: nat)
    requires x == m * Pow2(e) && e == Scale80(x, 1) && e + 1 < 0x7FFF
    requires x < Pow2(e) * W64 && (e > 0 ==> Pow2(e) * INT_BIT <= x)
    ensures var y := RoundF80(mode, sign, x, 1);
            y.bits < INF80 && Value80(Encode80(sign, y.bits)) == x && !y.inexact && !y.overflow && !y.underflow
  {
    hide Scale80;
    hide Tiny80;
    hide Value80;
    hide Encode80;
    hide Pow2;
    assert 1 * Pow2(e) == Pow2(e);
    RoundIntExact(mode, sign, m, Pow2(e));
    DivModUnique(x, Pow2(e), m, 0);
    MulCancel(m, W64, Pow2(e));
    if e > 0 && m < INT_BIT {
      MulMonoStrict(m, INT_BIT, Pow2(e));
    }
    Encode80Value(sign, e, m);
  }

  // Packing |r| * 2^t is exact: it is an integer with at most 64 bits.
  lemma ExactBits80(mode: Mode, sign: bool, m: nat, r: nat, t: int)
    requires -63 <= t && t + 1 < 0x7FFF && m * Pow2(63) == r * Pow2(t + 63)
    requires r <= INT_BIT || (r <= W64 && t + 2 < 0x7FFF)
    ensures var x := RoundScaled80(mode, sign, r, 1, t);
            x.bits < INF80 && Value80(Encode80(sign, x.bits)) == m && !x.inexact && !x.overflow && !x.underflow
  {
    hide Pow2;
    hide RoundF80;
    hide Num;
    hide Den;
    hide Value80;
    hide Encode80;
    ScaledParts(r, 1, t);
    if t >= 0 {
      ScalePow(r, t, 63, t + 63);
      MulEqCancel(m, r * Pow2(t), Pow2(63));
      ExactNonneg80(mode, sign, r, t);
    } else {
      ScalePow(m, -t, t + 63, 63);
      MulEqCancel(m * Pow2(-t), r, Pow2(t + 63));
      RoundF80Scaled(mode, sign, m, 1, Pow2(-t));
      MulMono(1, Pow2(-t), m);
      assert Pow2(0) == 1 by { Pow2Small(); }
      assert m * Pow2(0) == m;
      ExactNonneg80(mode, sign, m, 0);
    }
  }

  lemma ExactNonneg80(mode: Mode, sign: bool, r: nat, t: nat)
    requires t + 1 < 0x7FFF && (r <= INT_BIT || (r <= W64 && t + 2 < 0x7FFF))
    ensures var x := RoundF80(mode, sign, r * Pow2(t), 1);
            x.bits < INF80 && Value80(Encode80(sign, x.bits)) == r * Pow2(t) && !x.inexact && !x.overflow
            && !x.underflow
  {
    hide RoundF80;
    hide Value80;
    hide Encode80;
    hide Pow2;
    if r > 0 {
      RoundF80Exact(mode, sign, r, t);
    } else {
      assert 0 * Pow2(t) == 0;
      ZeroRounds80(mode, sign, 1);
    }
  }

  lemma ZeroRounds80(mode: Mode, sign: bool, den: nat)
    requires den > 0
    ensures RoundF80(mode, sign, 0, den) == Rounded(0, false, false, false) && Value80(Encode80(sign, 0)) == 0
  {
    assert Scale80(0, den) == 0;
    assert den * Pow2(0) == den;
  }

  // ---- remainder ----

  // z is the IEEE remainder of the finite a by the finite nonzero b; a zero
  // result keeps the sign of a.
  ghost predicate IsRemainder80(a: ExtF80, b: ExtF80, z: ExtF80)
  {
    && Finite80(z) && Value80(b) > 0
    && Signed80(z) == IeeeRem(Signed80(a), Value80(b))
    && (Value80(z) == 0 ==> Sign80(z) == Sign80(a))
  }

  lemma Nonzero80(b: ExtF80)
    requires b.signif != 0
    ensures Value80(b) > 0
  {
    hide Pow2;
    var k := if Exp80(b) == 0 then 0 else Exp80(b) - 1;
    MulMonoStrict(0, Pow2(k), b.signif);
    Commute(Pow2(k), b.signif);
  }

  // extF80_rem.  An infinite divisor without its integer bit counts as zero.
  method F80Rem(a: ExtF80, b: ExtF80, mode: Mode) returns (z: ExtF80, flags: Flags)
    ensures IsNaN80(a) || IsNaN80(b) ==> (z, flags) == Invalid80(IsSigNaN80(a) || IsSigNaN80(b))
    ensures !IsNaN80(a) && !IsNaN80(b) && (IsInf80(a) || b.signif == 0) ==> (z, flags) == Invalid80(true)
    ensures Finite80(a) && IsInf80(b) && b.signif != 0 ==>
              Finite80(z) && Sign80(z) == Sign80(a) && Value80(z) == Value80(a) && flags == NO_FLAGS
    ensures Finite80(a) && Finite80(b) && b.signif != 0 ==> IsRemainder80(a, b, z) && flags == NO_FLAGS
  {
    hide Value80;
    if Exp80(a) == 0x7FFF {
      if a.signif % INT_BIT != 0 || (Exp80(b) == 0x7FFF && b.signif % INT_BIT != 0) {
        return DEFAULT_NAN80, Invalid(IsSigNaN80(a) || IsSigNaN80(b));
      }
      return DEFAULT_NAN80, Invalid(true);
    }
    if Exp80(b) == 0x7FFF && b.signif % INT_BIT != 0 {
      return DEFAULT_NAN80, Invalid(IsSigNaN80(a) || IsSigNaN80(b));
    }
    if b.signif == 0 {
      return DEFAULT_NAN80, Invalid(true);
    }
    Nonzero80(b);
    if a.signif == 0 || Exp80(b) == 0x7FFF {
      z := Canonical80(a);
      ZeroValue80(a);
      IeeeRemSmall(0, Value80(b));
      return z, NO_FLAGS;
    }
    z, flags := F80RemFinite(a, b, mode);
  }

  lemma ZeroValue80(a: ExtF80)
    ensures a.signif == 0 ==> Value80(a) == 0
  {
  }

  method F80RemFinite(a: ExtF80, b: ExtF80, mode: Mode) returns (z: ExtF80, flags: Flags)
    requires Finite80(a) && Finite80(b) && a.signif != 0 && b.signif != 0
    ensures IsRemainder80(a, b, z) && flags == NO_FLAGS
  {
    hide Pow2;
    hide IeeeRem;
    hide Value80;
    Nonzero80(b);
    var expB, sigB := NormalOperand80(b);
    var expA, sigA := NormalOperand80(a);
    var expDiff := expA - expB;
    ghost var ma, mb := Value80(a), Value80(b);
    IeeeRemNeg(ma, mb);
    if expDiff < -1 {
      SmallOperand(ma, mb, sigA, sigB, expA, expB, 63, INT_BIT);
      z := Canonical80(a);
      return z, NO_FLAGS;
    }
    var rem := F80RemSig(sigA, sigB, expDiff);
    ghost var sb: nat := sigB;
    ghost var r := if expDiff >= 0 then IeeeRem(sigA * Pow2(expDiff), sb) else IeeeRem(sigA, 2 * sb);
    SignificandRem(ma, mb, sigA, sigB, expA, expB, r, 63);
    if expDiff == -1 {
      expB := expB - 1;
    }
    AbsProduct(IeeeRem(ma, mb), Pow2(63), r, Pow2(expB + 62));
    z, flags := PackRemainder80(Sign80(a), rem, expB, mode, r, Abs(IeeeRem(ma, mb)));
  }

  // The sign flips when the remainder is negative, and its magnitude, which
  // lies 32 bits up, is packed.
  method PackRemainder80(signA: bool, rem0: U128, expB: int, mode: Mode, ghost r: int, ghost m: nat)
    returns (z: ExtF80, flags: Flags)
    requires rem0.Signed() == r * W32 && Abs(r) < W64
    requires -63 <= expB - 1 && expB < 0x7FFF && (Abs(r) <= INT_BIT || expB + 1 < 0x7FFF)
    requires m * Pow2(63) == Abs(r) * Pow2(expB + 62)
    ensures Finite80(z) && Value80(z) == m && Sign80(z) == (signA != (r < 0)) && flags == NO_FLAGS
  {
    hide Pow2;
    hide Sub128;
    hide RoundScaled80;
    hide Value80;
    hide Encode80;
    var rem, signRem := rem0, signA;
    if rem.SignBit() {
      signRem := !signRem;
      NegateIs(rem);
      rem := Sub128(U128(0, 0), rem);
    }
    assert rem.V() == Abs(r) * W32;
    var exp := if rem.v64 != 0 || rem.v0 != 0 then expB + 32 else 0;
    ExactBits80(mode, signRem, m, Abs(r), expB - 1);
    RemainderScaled(mode, signRem, Abs(r), expB);
    ZeroScaled(mode, signRem, W64, -1);
    ZeroScaled(mode, signRem, 1, expB - 1);
    assert rem.v64 * W64 + rem.v0 == rem.V();
    z, flags := NormRoundPack80(signRem, exp, rem.v64, rem.v0, mode);
  }

  lemma RemainderScaled(mode: Mode, sign: bool, r: nat, expB: int)
    ensures RoundScaled80(mode, sign, r * W32, W64, expB + 31) == RoundScaled80(mode, sign, r, 1, expB - 1)
  {
    hide Pow2;
    hide RoundScaled80;
    Pow2Small();
    Pow2Wide();
    assert 1 * Pow2(64) == W64;
    RoundScaled80Den(mode, sign, r, 1, expB - 1, 64);
    RoundScaled80Shift(mode, sign, r, W64, expB + 63, 32);
  }

  lemma ZeroScaled(mode: Mode, sign: bool, d: nat, exp: int)
    requires d > 0
    ensures RoundScaled80(mode, sign, 0, d, exp) == Rounded(0, false, false, false)
  {
    hide RoundF80;
    hide Pow2;
    assert 0 * Pow2(Pos(exp)) == 0;
    ZeroRounds80(mode, sign, Den(d, exp));
  }

  // ---- division ----

  function Infinity80(sign: bool): ExtF80 { ExtF80(Pack80(sign, 0x7FFF), INT_BIT) }
  function Zero80(sign: bool): ExtF80 { ExtF80(Pack80(sign, 0), 0) }

  // The exact quotient of the finite a and the finite nonzero b, rounded.
  ghost function Quotient80(mode: Mode, a: ExtF80, b: ExtF80): (r: Rounded)
    requires Value80(b) > 0
    ensures r.bits <= INF80
  {
    RoundF80(mode, Sign80(a) != Sign80(b), Value80(a) * Pow2(UNIT80_EXP), Value80(b))
  }

  // extF80_div with full rounding precision.
  method F80Div(a: ExtF80, b: ExtF80, mode: Mode) returns (z: ExtF80, flags: Flags)
    ensures IsNaN80(a) || IsNaN80(b) ==> (z, flags) == Invalid80(IsSigNaN80(a) || IsSigNaN80(b))
    ensures IsInf80(a) && IsInf80(b) ==> (z, flags) == Invalid80(true)
    ensures Finite80(a) && Finite80(b) && a.signif == 0 == b.signif ==> (z, flags) == Invalid80(true)
    ensures IsInf80(a) && Finite80(b) ==> z == Infinity80(Sign80(a) != Sign80(b)) && flags == NO_FLAGS
    ensures Finite80(a) && IsInf80(b) ==> z == Zero80(Sign80(a) != Sign80(b)) && flags == NO_FLAGS
    ensures Finite80(a) && Finite80(b) && a.signif != 0 && b.signif == 0 ==>
              z == Infinity80(Sign80(a) != Sign80(b)) && flags == NO_FLAGS.(infinite := true)
    ensures Finite80(a) && Finite80(b) && b.signif != 0 ==>
              Value80(b) > 0 && Packed80(Sign80(a) != Sign80(b), Quotient80(mode, a, b), z, flags)
  {
    hide Value80;
    hide RoundF80;
    var signZ := Sign80(a) != Sign80(b);
    if Exp80(a) == 0x7FFF {
      if a.signif % INT_BIT != 0 || (Exp80(b) == 0x7FFF && b.signif % INT_BIT != 0) {
        return DEFAULT_NAN80, Invalid(IsSigNaN80(a) || IsSigNaN80(b));
      }
      if Exp80(b) == 0x7FFF {
        return DEFAULT_NAN80, Invalid(true);
      }
      return Infinity80(signZ), NO_FLAGS;
    }
    if Exp80(b) == 0x7FFF {
      if b.signif % INT_BIT != 0 {
        return DEFAULT_NAN80, Invalid(IsSigNaN80(a) || IsSigNaN80(b));
      }
      return Zero80(signZ), NO_FLAGS;
    }
    if b.signif == 0 {
      if a.signif == 0 {
        return DEFAULT_NAN80, Invalid(true);
      }
      return Infinity80(signZ), NO_FLAGS.(infinite := true);
    }
    Nonzero80(b);
    if a.signif == 0 {
      ZeroValue80(a);
      assert 0 * Pow2(UNIT80_EXP) == 0;
      ZeroRounds80(mode, signZ, Value80(b));
      return Zero80(signZ), NO_FLAGS;
    }
    z, flags := F80DivFinite(a, b, mode);
  }

  method F80DivFinite(a: ExtF80, b: ExtF80, mode: Mode) returns (z: ExtF80, flags: Flags)
    requires Finite80(a) && Finite80(b) && a.signif != 0 && b.signif != 0
    ensures Value80(b) > 0 && Packed80(Sign80(a) != Sign80(b), Quotient80(mode, a, b), z, flags)
  {
    hide Pow2;
    hide RoundScaled80;
    hide Represents;
    hide RoundF80;
    hide Value80;
    Nonzero80(b);
    var signZ := Sign80(a) != Sign80(b);
    var expB, sigB := NormalOperand80(b);
    var expA, sigA := NormalOperand80(a);
    var expZ := expA - expB + 0x3FFF;
    if sigA < sigB {
      expZ := expZ - 1;
    }
    var sigZ, sigZExtra := F80DivSig(sigA, sigB);
    z, flags := RoundPack80(signZ, expZ, sigZ, sigZExtra, mode, Dividend(sigA, sigB), sigB);
    QuotientScaled80(mode, signZ, Value80(a), Value80(b), sigA, sigB, expA + 62, expB + 62);
    DividendScaled(mode, signZ, sigA, sigB, expA - expB + UNIT80_EXP);
  }

  lemma QuotientScaled80(mode: Mode, sign: bool, ma: nat, mb: nat, sA: nat, sB: nat, kA: nat, kB: nat)
    requires mb > 0 && sB > 0 && ma * Pow2(63) == sA * Pow2(kA) && mb * Pow2(63) == sB * Pow2(kB)
    ensures RoundF80(mode, sign, ma * Pow2(UNIT80_EXP), mb) == RoundScaled80(mode, sign, sA, sB, kA - kB + UNIT80_EXP)
  {
    hide Pow2;
    hide RoundF80;
    hide Num;
    hide Den;
    RoundF80Scaled(mode, sign, ma * Pow2(UNIT80_EXP), mb, Pow2(63));
    SwapFactors(ma, Pow2(UNIT80_EXP), Pow2(63));
    ScalePow(sA, kA, UNIT80_EXP, kA + UNIT80_EXP);
    RoundScaled80Den(mode, sign, sA, sB, kA - kB + UNIT80_EXP, kB);
    ScaledParts(sA, sB * Pow2(kB), kA + UNIT80_EXP);
  }

  lemma DividendScaled(mode: Mode, sign: bool, sA: U64, sB: U64, exp: int)
    requires sB > 0
    ensures RoundScaled80(mode, sign, Dividend(sA, sB), sB, exp - if sA < sB then 64 else 63)
         == RoundScaled80(mode, sign, sA, sB, exp)
  {
    hide RoundScaled80;
    hide Pow2;
    Pow2Wide();
    Pow2Halve(63);
    RoundScaled80Shift(mode, sign, sA, sB, exp, if sA < sB then 64 else 63);
  }
}
