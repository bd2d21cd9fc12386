// f128_rem on bit patterns: special operands, normalisation, the digit loop
// and the exact packing of the result.
module F128Rem {
  import opened Arith
  import opened Words
  import opened Rounding
  import opened Binary128
  import opened RoundPack
  import opened Normalize
  import opened Remainder

  const DEFAULT_NAN: U128 := U128(0x7FFF_8000_0000_0000, 0)

  predicate IsNaN(a: U128) { ExpOf(a) == 0x7FFF && FracOf(a).V() != 0 }
  predicate IsInf(a: U128) { ExpOf(a) == 0x7FFF && FracOf(a).V() == 0 }
  predicate IsSigNaN(a: U128) { IsNaN(a) && a.v64 / 0x8000_0000_0000 % 2 == 0 }
  predicate IsZero(a: U128) { ExpOf(a) == 0 && FracOf(a).V() == 0 }

  // A nonzero finite operand as a normalised significand and an exponent,
  // which is zero or negative for subnormals.
  ghost predicate Operand(a: U128, exp: int, sig: U128)
  {
    && -111 <= exp <= 0x7FFE
    && P112 <= sig.V() < P113
    && MagnitudeValue(Magnitude(a)) * Pow2(112) == sig.V() * Pow2(exp + 111)
  }

  method NormalizedOperand(a: U128) returns (exp: int, sig: U128)
    requires Finite(a) && !IsZero(a)
    ensures Operand(a, exp, sig)
  {
    hide Pow2;
    exp, sig := ExpOf(a), FracOf(a);
    if exp == 0 {
      var normExpSig := NormSubnormalF128Sig(sig);
      exp := normExpSig.exp;
      ScalePow(sig.V(), 1 - exp, exp + 111, 112);
      MagnitudeSubnormal(Magnitude(a));
      sig := normExpSig.sig;
    } else {
      MagnitudeSplit(Magnitude(a), exp, sig.V());
      ScalePow(P112 + sig.V(), exp - 1, 112, exp + 111);
      sig := U128(sig.v64 + 0x1_0000_0000_0000, sig.v0);
    }
  }

  // The remainder of the operands, from the remainder of their significands
  // brought to the smaller of the two exponents.
  lemma OperandRem(ma: nat, mb: nat, sA: nat, sB: nat, i: nat, j: nat, k: nat, w: nat)
    requires sB > 0
    requires ma * Pow2(w) == sA * Pow2(i + k) && mb * Pow2(w) == sB * Pow2(j + k)
    ensures mb > 0 && sB * Pow2(j) > 0
    ensures IeeeRem(ma, mb) * Pow2(w) == IeeeRem(sA * Pow2(i), sB * Pow2(j)) * Pow2(k)
  {
    hide Pow2;
    hide IeeeRem;
    ScalePow(sA, i, k, i + k);
    ScalePow(sB, j, k, j + k);
    MulMono(1, Pow2(j), sB);
    MulMono(1, Pow2(j + k), sB);
    PositiveFactor(mb, Pow2(w));
    IeeeRemScale(ma, mb, Pow2(w));
    IeeeRemScale(sA * Pow2(i), sB * Pow2(j), Pow2(k));
  }

  // An operand two exponents below the other is its own remainder.  The
  // significands have w + 1 bits, the leading one being lo.
  lemma SmallOperand(ma: nat, mb: nat, sA: nat, sB: nat, eA: int, eB: int, w: nat, lo: nat)
    requires 0 < lo && sA < 2 * lo && lo <= sB && 1 - w <= eA < eB - 1
    requires ma * Pow2(w) == sA * Pow2(eA + w - 1) && mb * Pow2(w) == sB * Pow2(eB + w - 1)
    ensures mb > 0 && IeeeRem(ma, mb) == ma
  {
    hide Pow2;
    hide IeeeRem;
    var p, q, s := Pow2(eA + w - 1), Pow2(eB + w - 1), Pow2(w);
    Pow2Halve(eA + w - 1);
    Pow2Halve(eA + w);
    Pow2Mono(eA + w + 1, eB + w - 1);
    SmallSteps(ma, mb, sA, sB, p, q, s, lo);
    IeeeRemSmall(ma, mb);
  }

  lemma SmallSteps(ma: nat, mb: nat, sA: nat, sB: nat, p: nat, q: nat, s: nat, lo: nat)
    requires sA < 2 * lo && 0 < lo <= sB && 4 * p <= q && p > 0 && s > 0
    requires ma * s == sA * p && mb * s == sB * q
    ensures mb > 0 && 2 * ma < mb
  {
    MulMonoStrict(sA, 2 * lo, p);
    MulMono(lo, sB, q);
    MulMono(4 * p, q, lo);
    assert (2 * lo) * p == 2 * (lo * p) && (4 * p) * lo == 4 * (lo * p);
    MulCancel(2 * ma, mb, s) by {
      assert (2 * ma) * s == 2 * (ma * s);
    }
  }

  lemma PositiveFactor(x: nat, p: nat)
    requires x * p > 0
    ensures x > 0
  {
  }

  // Packing |r| * 2^t is exact: the magnitude is an integer with at most 113
  // significant bits.
  lemma ExactBits(mode: Mode, sign: bool, m: nat, r: nat, t: int)
    requires -112 <= t && t + 1 < 0x7FFF
    requires m * Pow2(112) == r * Pow2(t + 112)
    requires r <= P112 || (r <= P113 && t + 2 < 0x7FFF)
    ensures var x := RoundScaled(mode, sign, r, 1, t);
            x.bits < INF && MagnitudeValue(x.bits) == m && !x.inexact && !x.overflow && !x.underflow
  {
    hide Pow2;
    hide RoundF128;
    hide Num;
    hide Den;
    hide MagnitudeValue;
    ScaledParts(r, 1, t);
    if t >= 0 {
      ScalePow(r, t, 112, t + 112);
      MulEqCancel(m, r * Pow2(t), Pow2(112));
      ExactNonneg(mode, sign, r, t);
    } else {
      ScalePow(m, -t, t + 112, 112);
      MulEqCancel(m * Pow2(-t), r, Pow2(t + 112));
      RoundF128Scaled(mode, sign, m, 1, Pow2(-t));
      MulMono(1, Pow2(-t), m);
      assert Pow2(0) == 1 by { Pow2Small(); }
      assert m * Pow2(0) == m;
      ExactNonneg(mode, sign, m, 0);
    }
  }

  lemma ExactNonneg(mode: Mode, sign: bool, r: nat, t: nat)
    requires t + 1 < 0x7FFF && (r <= P112 || (r <= P113 && t + 2 < 0x7FFF))
    ensures var x := RoundF128(mode, sign, r * Pow2(t), 1);
            x.bits < INF && MagnitudeValue(x.bits) == r * Pow2(t) && !x.inexact && !x.overflow && !x.underflow
  {
    if r > 0 {
      RoundF128Exact(mode, sign, r, t);
    } else {
      assert Scale(0, 1) == 0;
      assert 1 * Pow2(0) == 1;
    }
  }

  lemma SplitSign(z: U128, sign: bool, bits: nat)
    requires z.V() == SignBits(sign) + bits && bits < INF
    ensures SignOf(z) == sign && Magnitude(z) == bits && Finite(z)
  {
  }

  // After selection: the sign flips when the significand remainder is
  // negative, and its magnitude is packed.
  method PackRemainder(signA: bool, rem0: U128, exp: int, mode: Mode, ghost m: nat) returns (z: U128, flags: Flags)
    requires -112 <= exp && exp + 1 < 0x7FFF
    requires var r := Abs(rem0.Signed()); r <= P112 || (r <= P113 && exp + 2 < 0x7FFF)
    requires m * Pow2(112) == Abs(rem0.Signed()) * Pow2(exp + 112)
    ensures Finite(z) && MagnitudeValue(Magnitude(z)) == m
    ensures SignOf(z) == (signA != (rem0.Signed() < 0)) && flags == NO_FLAGS
  {
    hide Pow2;
    hide Sub128;
    hide RoundScaled;
    hide MagnitudeValue;
    var rem, signRem := rem0, signA;
    if rem.SignBit() {
      signRem := !signRem;
      NegateIs(rem);
      rem := Sub128(U128(0, 0), rem);
    }
    ExactBits(mode, signRem, m, rem.V(), exp);
    var inexact, overflow, underflow;
    z, inexact, overflow, underflow := NormRoundPackToF128(signRem, exp, rem, mode);
    SplitSign(z, signRem, RoundScaled(mode, signRem, rem.V(), 1, exp).bits);
    flags := Flags(false, false, inexact, overflow, underflow);
  }

  lemma NegateIs(rem: U128)
    requires rem.SignBit()
    ensures Sub128(U128(0, 0), rem).V() == -rem.Signed()
  {
    hide Sub128;
    DivModUnique(0 - rem.V(), W128, -1, W128 - rem.V());
  }

  lemma SignificandRem(ma: nat, mb: nat, sA: nat, sB: nat, eA: int, eB: int, r: int, w: nat)
    requires eA >= 1 - w && eB >= 1 - w && eA - eB >= -1 && 0 < sB
    requires ma * Pow2(w) == sA * Pow2(eA + w - 1) && mb * Pow2(w) == sB * Pow2(eB + w - 1)
    requires eA >= eB ==> r == IeeeRem(sA * Pow2(eA - eB), sB)
    requires eA < eB ==> r == IeeeRem(sA, 2 * sB)
    ensures var e := if eA < eB then eB - 1 else eB;
            mb > 0 && IeeeRem(ma, mb) * Pow2(w) == r * Pow2(e + w - 1)
    ensures 2 * Abs(r) <= if eA < eB then 2 * sB else sB
  {
    hide Pow2;
    hide IeeeRem;
    assert Pow2(0) == 1 && Pow2(1) == 2 by { Pow2Small(); }
    if eA >= eB {
      assert sB * Pow2(0) == sB;
      OperandRem(ma, mb, sA, sB, eA - eB, 0, eB + w - 1, w);
      IeeeRemMeets(sA * Pow2(eA - eB), sB);
    } else {
      assert sA * Pow2(0) == sA && sB * Pow2(1) == 2 * sB;
      OperandRem(ma, mb, sA, sB, 0, 1, eA + w - 1, w);
      IeeeRemMeets(sA, 2 * sB);
    }
  }

  method F128Rem(a: U128, b: U128, mode: Mode) returns (z: U128, flags: Flags)
    ensures IsNaN(a) || IsNaN(b) ==> z == DEFAULT_NAN && flags == Invalid(IsSigNaN(a) || IsSigNaN(b))
    ensures !IsNaN(a) && !IsNaN(b) && (IsInf(a) || IsZero(b)) ==> z == DEFAULT_NAN && flags == Invalid(true)
    ensures Finite(a) && IsInf(b) ==> z == a && flags == NO_FLAGS
    ensures Finite(a) && Finite(b) && !IsZero(b) ==>
              flags == NO_FLAGS && IsRemainder(a, b, z)
  {
    var expA, expB := ExpOf(a), ExpOf(b);
    if expA == 0x7FFF {
      if FracOf(a).V() != 0 || (expB == 0x7FFF && FracOf(b).V() != 0) {
        return DEFAULT_NAN, Invalid(IsSigNaN(a) || IsSigNaN(b));
      }
      return DEFAULT_NAN, Invalid(true);
    }
    if expB == 0x7FFF {
      if FracOf(b).V() != 0 {
        return DEFAULT_NAN, Invalid(IsSigNaN(a) || IsSigNaN(b));
      }
      return a, NO_FLAGS;
    }
    if expB == 0 && FracOf(b).V() == 0 {
      return DEFAULT_NAN, Invalid(true);
    }
    NonzeroValue(b);
    if expA == 0 && FracOf(a).V() == 0 {
      ZeroRem(a, b);
      return a, NO_FLAGS;
    }
    z, flags := F128RemFinite(a, b, mode);
  }

  // z is the IEEE remainder of the finite a by the finite nonzero b; a zero
  // result keeps the sign of a.
  ghost predicate IsRemainder(a: U128, b: U128, z: U128)
  {
    && Finite(z)
    && MagnitudeValue(Magnitude(b)) > 0
    && Value(z) == IeeeRem(Value(a), MagnitudeValue(Magnitude(b)))
    && (Value(z) == 0 ==> SignOf(z) == SignOf(a))
  }

  lemma NonzeroValue(b: U128)
    requires Finite(b) && !IsZero(b)
    ensures MagnitudeValue(Magnitude(b)) > 0
  {
    var m := Magnitude(b);
    if m >= P112 {
      MulMono(1, Pow2(m / P112 - 1), P112 + m % P112);
    }
  }

  lemma ZeroRem(a: U128, b: U128)
    requires IsZero(a) && MagnitudeValue(Magnitude(b)) > 0
    ensures IsRemainder(a, b, a)
  {
    IeeeRemSmall(0, MagnitudeValue(Magnitude(b)));
  }

  method F128RemFinite(a: U128, b: U128, mode: Mode) returns (z: U128, flags: Flags)
    requires Finite(a) && Finite(b) && !IsZero(a) && !IsZero(b)
    ensures IsRemainder(a, b, z) && flags == NO_FLAGS
  {
    hide Pow2;
    hide IeeeRem;
    hide MagnitudeValue;
    NonzeroValue(b);
    var expB, sigB := NormalizedOperand(b);
    var expA, sigA := NormalizedOperand(a);
    var expDiff := expA - expB;
    ghost var ma, mb := MagnitudeValue(Magnitude(a)), MagnitudeValue(Magnitude(b));
    if expDiff < -1 {
      SmallOperand(ma, mb, sigA.V(), sigB.V(), expA, expB, 112, P112);
      IeeeRemNeg(ma, mb);
      return a, NO_FLAGS;
    }
    var rem := F128RemSig(sigA, sigB, expDiff);
    SignificandRem(ma, mb, sigA.V(), sigB.V(), expA, expB, rem.Signed(), 112);
    if expDiff == -1 {
      expB := expB - 1;
    }
    ghost var r := IeeeRem(ma, mb);
    AbsProduct(r, Pow2(112), rem.Signed(), Pow2(expB + 111));
    z, flags := PackRemainder(SignOf(a), rem, expB - 1, mode, Abs(r));
    IeeeRemNeg(ma, mb);
  }

  lemma AbsProduct(x: int, p: nat, y: int, q: nat)
    requires x * p == y * q && p > 0 && q > 0
    ensures Abs(x) * p == Abs(y) * q
    ensures x < 0 <==> y < 0
    ensures x == 0 <==> y == 0
  {
    assert (-x) * p == -(x * p) && (-y) * q == -(y * q);
    SignOfProduct(x, p);
    SignOfProduct(y, q);
  }

  lemma SignOfProduct(x: int, p: int)
    requires p > 0
    ensures x * p < 0 <==> x < 0
    ensures x * p == 0 <==> x == 0
  {
    if x > 0 {
      MulMono(1, x, p);
    } else if x < 0 {
      MulMono(x, -1, p);
    }
  }
}
