// f128_div on bit patterns: special operands, normalisation, the quotient
// digits and correct rounding of the exact quotient.
module F128Div {
  import opened Arith
  import opened Words
  import opened Rounding
  import opened Binary128
  import opened RoundPack
  import opened Normalize
  import opened Remainder
  import opened Division
  import opened F128Rem

  // Values are in units of 2^-16494, so a quotient of values is in units
  // after multiplication by 2^16494.

  function Infinity(sign: bool): U128 { Pack(sign, 0x7FFF, U128(0, 0)) }
  function Zero(sign: bool): U128 { Pack(sign, 0, U128(0, 0)) }

  // The exact quotient of the finite a and the finite nonzero b, rounded.
  ghost function Quotient(mode: Mode, a: U128, b: U128): Rounded
    requires MagnitudeValue(Magnitude(b)) > 0
  {
    RoundF128(mode, SignOf(a) != SignOf(b),
      MagnitudeValue(Magnitude(a)) * Pow2(UNIT_EXP), MagnitudeValue(Magnitude(b)))
  }

  method F128Div(a: U128, b: U128, mode: Mode) returns (z: U128, flags: Flags)
    ensures IsNaN(a) || IsNaN(b) ==>
              z == DEFAULT_NAN && flags == Invalid(IsSigNaN(a) || IsSigNaN(b))
    ensures (IsInf(a) && IsInf(b)) || (IsZero(a) && IsZero(b)) ==>
              z == DEFAULT_NAN && flags == Invalid(true)
    ensures IsInf(a) && Finite(b) ==> z == Infinity(SignOf(a) != SignOf(b)) && flags == NO_FLAGS
    ensures Finite(a) && IsInf(b) ==> z == Zero(SignOf(a) != SignOf(b)) && flags == NO_FLAGS
    ensures Finite(a) && !IsZero(a) && IsZero(b) ==>
              z == Infinity(SignOf(a) != SignOf(b)) && flags == NO_FLAGS.(infinite := true)
    ensures Finite(a) && Finite(b) && !IsZero(b) ==>
              && MagnitudeValue(Magnitude(b)) > 0
              && Packed(SignOf(a) != SignOf(b), Quotient(mode, a, b), z, flags.inexact, flags.overflow, flags.underflow)
              && !flags.invalid && !flags.infinite
  {
    hide Pow2;
    var signZ := SignOf(a) != SignOf(b);
    var expA, expB := ExpOf(a), ExpOf(b);
    if expA == 0x7FFF {
      if FracOf(a).V() != 0 || (expB == 0x7FFF && FracOf(b).V() != 0) {
        return DEFAULT_NAN, Invalid(IsSigNaN(a) || IsSigNaN(b));
      }
      if expB == 0x7FFF {
        return DEFAULT_NAN, Invalid(true);
      }
      return Infinity(signZ), NO_FLAGS;
    }
    if expB == 0x7FFF {
      if FracOf(b).V() != 0 {
        return DEFAULT_NAN, Invalid(IsSigNaN(a) || IsSigNaN(b));
      }
      return Zero(signZ), NO_FLAGS;
    }
    if expB == 0 && FracOf(b).V() == 0 {
      if expA == 0 && FracOf(a).V() == 0 {
        return DEFAULT_NAN, Invalid(true);
      }
      return Infinity(signZ), NO_FLAGS.(infinite := true);
    }
    NonzeroValue(b);
    if expA == 0 && FracOf(a).V() == 0 {
      ZeroQuotient(mode, a, b);
      return Zero(signZ), NO_FLAGS;
    }
    var inexact, overflow, underflow;
    z, inexact, overflow, underflow := F128DivFinite(a, b, mode);
    flags := Flags(false, false, inexact, overflow, underflow);
  }

  lemma ZeroQuotient(mode: Mode, a: U128, b: U128)
    requires IsZero(a) && MagnitudeValue(Magnitude(b)) > 0
    ensures Packed(SignOf(a) != SignOf(b), Quotient(mode, a, b), Zero(SignOf(a) != SignOf(b)), false, false, false)
  {
    hide Pow2;
    ZeroRounded(mode, SignOf(a) != SignOf(b), MagnitudeValue(Magnitude(b)));
    assert MagnitudeValue(Magnitude(a)) == 0;
    assert 0 * Pow2(UNIT_EXP) == 0;
  }

  lemma ZeroRounded(mode: Mode, sign: bool, den: nat)
    requires den > 0
    ensures RoundF128(mode, sign, 0, den) == Rounded(0, false, false, false)
  {
    assert Scale(0, den) == 0;
    assert den * Pow2(0) == den;
  }

  method F128DivFinite(a: U128, b: U128, mode: Mode) returns (z: U128, inexact: bool, overflow: bool, underflow: bool)
    requires Finite(a) && Finite(b) && !IsZero(a) && !IsZero(b)
    ensures MagnitudeValue(Magnitude(b)) > 0
    ensures Packed(SignOf(a) != SignOf(b), Quotient(mode, a, b), z, inexact, overflow, underflow)
  {
    hide Pow2;
    hide RoundScaled;
    hide Represents;
    hide RoundF128;
    hide MagnitudeValue;
    hide Add128;
    hide Lt128;
    NonzeroValue(b);
    var signZ := SignOf(a) != SignOf(b);
    var expB, sigB := NormalizedOperand(b);
    var expA, sigA := NormalizedOperand(a);
    var expZ := expA - expB + 0x3FFE;
    var rem := sigA;
    if Lt128(sigA, sigB) {
      expZ := expZ - 1;
      rem := Add128(sigA, sigA);
    }
    var sigZ, sigZExtra := F128DivSig(rem, sigB);
    z, inexact, overflow, underflow := RoundPackToF128(signZ, expZ, sigZ, sigZExtra, mode, rem.V() * P112, sigB.V());
    QuotientScaled(mode, signZ, MagnitudeValue(Magnitude(a)), MagnitudeValue(Magnitude(b)),
      sigA.V(), sigB.V(), expA, expB);
    QuotientStart(mode, signZ, sigA.V(), sigB.V(), rem.V(), expA - expB + UNIT_EXP, if Lt128(sigA, sigB) then 1 else 0);
  }

  // The quotient of the significands at its exponent is the quotient of the
  // operands.
  lemma QuotientScaled(mode: Mode, sign: bool, ma: nat, mb: nat, sA: nat, sB: nat, eA: int, eB: int)
    requires mb > 0 && sB > 0 && -111 <= eA && -111 <= eB
    requires ma * Pow2(112) == sA * Pow2(eA + 111) && mb * Pow2(112) == sB * Pow2(eB + 111)
    ensures RoundF128(mode, sign, ma * Pow2(UNIT_EXP), mb) == RoundScaled(mode, sign, sA, sB, eA - eB + UNIT_EXP)
  {
    hide Pow2;
    hide RoundF128;
    hide Num;
    hide Den;
    RoundF128Scaled(mode, sign, ma * Pow2(UNIT_EXP), mb, Pow2(112));
    assert (ma * Pow2(UNIT_EXP)) * Pow2(112) == (ma * Pow2(112)) * Pow2(UNIT_EXP);
    ScalePow(sA, eA + 111, UNIT_EXP, eA + 111 + UNIT_EXP);
    RoundScaledDen(mode, sign, sA, sB, eA - eB + UNIT_EXP, eB + 111);
    ScaledParts(sA, sB * Pow2(eB + 111), eA + 111 + UNIT_EXP);
  }

  lemma QuotientStart(mode: Mode, sign: bool, sA: nat, sB: nat, rem: nat, exp: int, k: nat)
    requires sB > 0 && k <= 1 && rem == (if k == 1 then 2 * sA else sA)
    ensures RoundScaled(mode, sign, rem * P112, sB, exp - 112 - k) == RoundScaled(mode, sign, sA, sB, exp)
  {
    hide RoundScaled;
    Pow2Wide();
    RoundScaledShift(mode, sign, sA, sB, exp, 112 + k);
  }
}
