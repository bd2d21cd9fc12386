// Normalising subnormal inputs (softfloat_normSubnormalF128Sig) and results
// (softfloat_normRoundPackToF128).
module Normalize {
  import opened Arith
  import opened Words
  import opened Rounding
  import opened Jamming
  import opened Binary128
  import opened RoundPack

  // Leading zeros of a 64-bit word; 64 for zero.
  function CountLeadingZeros64(a: U64): (c: nat)
    ensures a == 0 ==> c == 64
    ensures a > 0 ==> c <= 63 && HALF64 <= a * Pow2(c) < W64
    decreases W64 - a
  {
    if a == 0 then 64
    else if a >= HALF64 then assert Pow2(0) == 1; 0
    else ClzStep(a, CountLeadingZeros64(2 * a)); CountLeadingZeros64(2 * a) + 1
  }

  lemma ClzStep(a: U64, c: nat)
    requires 0 < a < HALF64 && HALF64 <= (2 * a) * Pow2(c) < W64
    ensures c < 63 && HALF64 <= a * Pow2(c + 1) < W64
  {
    assert (2 * a) * Pow2(c) == a * Pow2(c + 1);
    Pow2Wide();
    assert Pow2(64) == 2 * Pow2(63);
    if c >= 63 {
      Pow2Mono(63, c);
      MulMono(2, 2 * a, Pow2(c));
    }
  }

  // Bounds on the leading zeros of a word from bounds on the word.
  lemma ClzRange(a: U64, k: nat)
    requires a > 0 && k <= 63
    ensures a < Pow2(k) ==> CountLeadingZeros64(a) >= 64 - k
    ensures a >= Pow2(k) ==> CountLeadingZeros64(a) <= 63 - k
  {
    hide Pow2;
    var c := CountLeadingZeros64(a);
    assert Pow2(63) == HALF64 && Pow2(64) == W64 by {
      Pow2Wide();
      Pow2Halve(63);
    }
    Pow2Add(k, c);
    if a < Pow2(k) {
      MulMonoStrict(a, Pow2(k), Pow2(c));
      if k + c <= 63 {
        Pow2Mono(k + c, 63);
      }
    } else {
      MulMono(Pow2(k), a, Pow2(c));
      if k + c >= 64 {
        Pow2Mono(64, k + c);
      }
    }
  }

  lemma Pow2Halve(k: nat)
    ensures Pow2(k + 1) == 2 * Pow2(k)
  {
  }

  // A shift that loses nothing.
  lemma ShiftLeftExact(sig: U128, k: nat)
    requires 0 < k < 64 && sig.V() * Pow2(k) < W128
    ensures ShortShiftLeft128(sig, k).V() == sig.V() * Pow2(k)
  {
    hide ShortShiftLeft128;
    hide Pow2;
    MulMono(0, sig.V(), Pow2(k));
    DivModUnique(sig.V() * Pow2(k), W128, 0, sig.V() * Pow2(k));
  }

  // A significand whose upper word has c leading zeros has its leading bit
  // at 112 after a shift left by c - 15.
  lemma LeadingAt112(sig: U128, c: nat)
    requires 15 <= c <= 63 && HALF64 <= sig.v64 * Pow2(c) < W64
    ensures P112 <= sig.V() * Pow2(c - 15) < P113
  {
    hide Pow2;
    Pow2Sum(c - 15, 15, c);
    Pow2Sum(c - 15, 64 - c, 49);
    assert Pow2(15) == 0x8000 && Pow2(49) == 0x2_0000_0000_0000 by {
      Pow2Small();
      Pow2Wide();
      Pow2Halve(15);
      Pow2Halve(48);
    }
    LeadingSteps(sig.v64, sig.v0, Pow2(c - 15), Pow2(64 - c));
  }

  lemma LeadingSteps(x1: U64, x0: U64, p: nat, t: nat)
    requires HALF64 <= x1 * (p * 0x8000) < W64
    requires p > 0 && p * t == 0x2_0000_0000_0000
    ensures P112 <= (x1 * W64 + x0) * p < P113
  {
    var y := x1 * p;
    assert x1 * (p * 0x8000) == y * 0x8000;
    assert x1 < t by {
      if x1 >= t {
        MulMono(t, x1, p);
      }
    }
    MulMono(x1 + 1, t, p);
    assert (x1 + 1) * p == y + p;
    assert (x1 * W64 + x0) * p == y * W64 + x0 * p;
    MulMono(x0, W64 - 1, p);
  }

  // The significand and exponent softfloat_normSubnormalF128Sig hands back.
  datatype ExpSig = ExpSig(exp: int, sig: U128)

  method NormSubnormalF128Sig(sig: U128) returns (z: ExpSig)
    requires 0 < sig.V() < P112
    ensures P112 <= z.sig.V() < P113
    ensures -111 <= z.exp <= 0 && z.sig.V() == sig.V() * Pow2(1 - z.exp)
  {
    hide ShortShiftLeft128;
    hide Pow2;
    if sig.v64 == 0 {
      var c := CountLeadingZeros64(sig.v0);
      z := NormLowWord(sig, c, c as int - 15);
    } else {
      var c := CountLeadingZeros64(sig.v64);
      var shiftDist := c as int - 15;
      HighZeros(sig, c);
      LeadingAt112(sig, c);
      ShiftLeftExact(sig, shiftDist);
      z := ExpSig(1 - shiftDist, ShortShiftLeft128(sig, shiftDist));
      assert 1 - z.exp == shiftDist;
    }
  }

  lemma HighZeros(sig: U128, c: nat)
    requires sig.v64 != 0 && sig.V() < P112 && c == CountLeadingZeros64(sig.v64)
    ensures c >= 16
  {
    Pow2Wide();
    ClzRange(sig.v64, 48);
  }

  // Only the lower word is nonzero: shift left by 64 plus shiftDist.
  method NormLowWord(sig: U128, c: nat, shiftDist: int) returns (z: ExpSig)
    requires sig.v64 == 0 && sig.v0 > 0 && c <= 63 && HALF64 <= sig.v0 * Pow2(c) < W64
    requires shiftDist == c - 15
    ensures P112 <= z.sig.V() < P113
    ensures z.exp == -63 - shiftDist && z.sig.V() == sig.V() * Pow2(1 - z.exp)
  {
    hide Pow2;
    LowLeading(sig.v0, c);
    assert 1 - (-63 - shiftDist) == c + 49;
    if shiftDist < 0 {
      LowRight(sig.v0, -shiftDist, c + 49);
      z := ExpSig(-63 - shiftDist,
        U128(sig.v0 / Pow2(-shiftDist), (sig.v0 * Pow2(64 + shiftDist)) % W64));
    } else {
      LowLeft(sig.v0, c, shiftDist);
      z := ExpSig(-63 - shiftDist, U128(sig.v0 * Pow2(shiftDist), 0));
    }
  }

  lemma LowLeading(x: U64, c: nat)
    requires HALF64 <= x * Pow2(c) < W64
    ensures P112 <= x * Pow2(c + 49) < P113
  {
    hide Pow2;
    ScalePow(x, c, 49, c + 49);
    assert Pow2(49) == 0x2_0000_0000_0000 by {
      Pow2Wide();
      Pow2Halve(48);
    }
  }

  lemma LowRight(x: U64, r: nat, k: nat)
    requires 0 < r < 64 && k == 64 - r
    ensures 0 <= x / Pow2(r) < W64
    ensures x / Pow2(r) * W64 + (x * Pow2(k)) % W64 == x * Pow2(k)
  {
    hide Pow2;
    Pow2Sum(k, r, 64);
    Pow2Wide();
    DivSmall(x, Pow2(r));
    ShiftLeftWord(x, Pow2(k), Pow2(r));
  }

  lemma LowLeft(x: U64, c: nat, k: nat)
    requires k + 15 == c && x * Pow2(c) < W64
    ensures 0 <= x * Pow2(k) < W64
    ensures x * Pow2(k) * W64 == x * Pow2(c + 49)
  {
    hide Pow2;
    Pow2Mono(k, c);
    MulMono(Pow2(k), Pow2(c), x);
    MulMono(0, x, Pow2(k));
    Pow2Wide();
    ScalePow(x, k, 64, c + 49);
  }

  method NormRoundPackToF128(sign: bool, exp0: int, sig0: U128, mode: Mode)
    returns (z: U128, inexact: bool, overflow: bool, underflow: bool)
    requires sig0.V() == 0 ==> exp0 <= 0x7FFD
    ensures Packed(sign, RoundScaled(mode, sign, sig0.V(), 1, exp0), z, inexact, overflow, underflow)
  {
    hide Pow2;
    hide RoundScaled;
    var exp, sig := exp0, sig0;
    if sig.v64 == 0 {
      exp := exp - 64;
      sig := U128(sig.v0, 0);
      Pow2Wide();
      RoundScaledShift(mode, sign, sig0.V(), 1, exp0, 64);
    }
    z, inexact, overflow, underflow := NormRoundPackHigh(sign, exp, sig, mode);
  }

  // After a zero upper word has been shifted out.
  method NormRoundPackHigh(sign: bool, exp0: int, sig0: U128, mode: Mode)
    returns (z: U128, inexact: bool, overflow: bool, underflow: bool)
    requires sig0.v64 == 0 ==> sig0.v0 == 0 && exp0 <= 0x7FFD
    ensures Packed(sign, RoundScaled(mode, sign, sig0.V(), 1, exp0), z, inexact, overflow, underflow)
  {
    hide Pow2;
    hide RoundScaled;
    hide CountLeadingZeros64;
    var c := CountLeadingZeros64(sig0.v64);
    var shiftDist := c as int - 15;
    var exp := exp0 - shiftDist;
    if 0 <= shiftDist {
      var sig := NormLeft(sig0, c);
      RoundScaledShift(mode, sign, sig0.V(), 1, exp0, shiftDist);
      if 0 <= exp < 0x7FFD {
        z := Pack(sign, if sig.v64 != 0 || sig.v0 != 0 then exp else 0, sig);
        inexact, overflow, underflow := false, false, false;
        ExactPack(mode, sign, exp, sig);
      } else {
        ExactRepresents(sig.V());
        z, inexact, overflow, underflow := RoundPackToF128(sign, exp, sig, 0, mode, sig.V(), 1);
      }
    } else {
      z, inexact, overflow, underflow := NormRight(sign, exp, sig0, c, mode);
    }
  }

  method NormLeft(sig0: U128, c: nat) returns (sig: U128)
    requires c == CountLeadingZeros64(sig0.v64) && c >= 15
    requires sig0.v64 == 0 ==> sig0.v0 == 0
    ensures sig.V() == sig0.V() * Pow2(c - 15)
    ensures sig0.v64 == 0 ==> sig.V() == 0
    ensures sig0.v64 != 0 ==> P112 <= sig.V() < P113
  {
    hide ShortShiftLeft128;
    if sig0.v64 != 0 {
      LeadingAt112(sig0, c);
    }
    if c > 15 {
      ShiftLeftExact(sig0, c - 15);
      sig := ShortShiftLeft128(sig0, c - 15);
    } else {
      sig := sig0;
      assert Pow2(0) == 1;
    }
  }

  lemma ExactRepresents(n: nat)
    ensures Represents(n, 1, n, 0)
  {
  }

  // Packing without rounding, for a normalised or zero significand.
  lemma ExactPack(mode: Mode, sign: bool, exp: nat, sig: U128)
    requires exp < 0x7FFD && (P112 <= sig.V() < P113 || sig.V() == 0)
    ensures Packed(sign, RoundScaled(mode, sign, sig.V(), 1, exp),
              Pack(sign, if sig.v64 != 0 || sig.v0 != 0 then exp else 0, sig), false, false, false)
  {
    hide OnGrid;
    hide Pow2;
    hide Unbounded;
    hide Num;
    hide Den;
    ExactRepresents(sig.V());
    ScaledRounds(mode, sign, sig.V(), 1, exp, sig, 0);
    PlaceExact(0, W64);
    ScaledParts(sig.V(), 1, exp);
    PackIs(sign, if sig.v64 != 0 || sig.v0 != 0 then exp else 0, sig);
  }

  // A significand above bit 112 is shifted right with a sticky bit.
  method NormRight(sign: bool, exp: int, sig0: U128, c: nat, mode: Mode)
    returns (z: U128, inexact: bool, overflow: bool, underflow: bool)
    requires sig0.v64 != 0 && c == CountLeadingZeros64(sig0.v64) && c < 15
    ensures Packed(sign, RoundScaled(mode, sign, sig0.V(), 1, exp - (15 - c)), z, inexact, overflow, underflow)
  {
    hide Pow2;
    hide ShiftRightJam128Extra;
    hide RoundScaled;
    var shifted := ShiftRightJam128Extra(sig0, 0, 15 - c);
    ShiftRightJamIs(sig0, 0, 15 - c);
    RightRepresents(sig0, c, shifted);
    RoundScaledDen(mode, sign, sig0.V(), 1, exp - (15 - c), 15 - c);
    z, inexact, overflow, underflow :=
      RoundPackToF128(sign, exp, shifted.v, shifted.extra, mode, sig0.V(), 1 * Pow2(15 - c));
  }

  lemma RightRepresents(sig: U128, c: nat, z: U128Extra)
    requires sig.v64 != 0 && c < 15 && HALF64 <= sig.v64 * Pow2(c) < W64
    requires Jammed(sig, 0, Pow2(15 - c), z)
    ensures Represents(sig.V(), 1 * Pow2(15 - c), z.v.V(), z.extra)
    ensures P112 <= z.v.V() < P113
  {
    hide Pow2;
    var p := Pow2(15 - c);
    Pow2Sum(c, 15 - c, 15);
    assert Pow2(15) == 0x8000 by {
      Pow2Small();
      Pow2Halve(15);
    }
    PlaceScale(sig.V() - z.v.V() * p, p, 2);
    RightRange(sig.v64, sig.v0, z.v.V(), Pow2(c), p);
  }

  lemma RightRange(x1: U64, x0: U64, v: nat, q: nat, p: nat)
    requires HALF64 <= x1 * q < W64 && q * p == 0x8000 && p > 0 && q > 0
    requires v * p <= x1 * W64 + x0 < v * p + p
    ensures P112 <= v < P113
  {
    RightScaled(x1 * W64 + x0, v, q, p);
    assert (x1 * W64 + x0) * q == (x1 * q) * W64 + x0 * q;
    MulMono(x0, W64 - 1, q);
    RightTop(x1, q, p);
    RightBounds(v, x1 * q, x0 * q, q);
  }

  lemma RightBounds(v: nat, a: nat, b: nat, q: nat)
    requires HALF64 <= a && a + q <= W64 && b <= (W64 - 1) * q && q > 0
    requires v * 0x8000 <= a * W64 + b < v * 0x8000 + 0x8000
    ensures P112 <= v < P113
  {
  }

  lemma RightScaled(x: nat, v: nat, q: nat, p: nat)
    requires q * p == 0x8000 && q > 0 && v * p <= x < v * p + p
    ensures v * 0x8000 <= x * q < v * 0x8000 + 0x8000
  {
    assert (v * p) * q == v * 0x8000;
    assert (v * p + p) * q == v * 0x8000 + 0x8000;
    MulMono(v * p, x, q);
    MulMonoStrict(x, v * p + p, q);
  }

  lemma RightTop(x1: U64, q: nat, p: nat)
    requires x1 * q < W64 && q * p == 0x8000 && q > 0
    ensures x1 * q + q <= W64
  {
    var t := p * 0x2_0000_0000_0000;
    assert q * t == W64;
    if x1 >= t {
      MulMono(t, x1, q);
    }
    MulMono(x1 + 1, t, q);
  }
}
