// What an overflowing result is and when a result overflows or is inexact,
// in binary128 and in the 80-bit format, and the classes of special values.
// Nothing here speaks of the functions that choose the overflowing result.
module Overflow {
  import opened Arith
  import opened Words
  import opened Rounding
  import opened Binary128
  import opened F128Rem
  import opened F128Div
  import opened Extended80
  import opened ExtF80Full

  // The exponent field of the largest finite numbers, less one.
  const TOP_EXP: nat := 0x7FFD

  // ---- when rounding reaches an even integer q ----

  // With d one unit, num / den rounds to q or more.  Nearest modes round up
  // from half a unit below, a tie going to the even q or away from zero; a
  // directed mode away from zero from just above q - 1; the others from q.
  ghost predicate Reaches(mode: Mode, sign: bool, num: nat, d: nat, q: nat) {
    match mode
    case NearEven => 2 * num >= d * (2 * q - 1)
    case NearMaxMag => 2 * num >= d * (2 * q - 1)
    case MinMag => num >= d * q
    case Min => if sign then num > d * (q - 1) else num >= d * q
    case Max => if sign then num >= d * q else num > d * (q - 1)
  }

  lemma ReachesIs(mode: Mode, sign: bool, num: nat, d: nat, q: nat)
    requires d > 0 && q > 0 && q % 2 == 0
    ensures RoundInt(mode, sign, num, d) >= q <==> Reaches(mode, sign, num, d, q)
  {
    hide RoundInt;
    hide Reaches;
    var f, r := num / d, num % d;
    DivMod(num, d);
    RoundIntAt(mode, sign, num, d, f, r);
    Commute(d, q);
    Commute(d, q - 1);
    Distribute(q, -1, d);
    Distribute(f, 1, d);
    assert d * (2 * q - 1) == 2 * (q * d) - d by {
      Commute(d, 2 * q - 1);
      Distribute(2 * q, -1, d);
      Associate(2, q, d);
    }
    if f >= q {
      MulMono(q, f, d);
      ReachesFrom(mode, sign, num, d, q);
    } else if f < q - 1 {
      MulMono(f + 1, q - 1, d);
      ReachesNot(mode, sign, num, d, q);
    } else {
      ReachesLast(mode, sign, num, d, q, r);
    }
  }

  lemma RoundIntAt(mode: Mode, sign: bool, num: nat, d: nat, f: nat, r: nat)
    requires d > 0 && f == num / d && r == num % d
    ensures RoundInt(mode, sign, num, d) == if Increments(mode, sign, f, Place(r, d)) then f + 1 else f
  {
  }

  lemma ReachesFrom(mode: Mode, sign: bool, num: nat, d: nat, q: nat)
    requires d > 0 && q > 0 && d * q <= num && d * (q - 1) == d * q - d && d * (2 * q - 1) == 2 * (d * q) - d
    ensures Reaches(mode, sign, num, d, q)
  {
  }

  lemma ReachesNot(mode: Mode, sign: bool, num: nat, d: nat, q: nat)
    requires d > 0 && q > 0 && num < d * (q - 1) && d * (q - 1) == d * q - d && d * (2 * q - 1) == 2 * (d * q) - d
    ensures !Reaches(mode, sign, num, d, q)
  {
  }

  lemma ReachesLast(mode: Mode, sign: bool, num: nat, d: nat, q: nat, r: nat)
    requires d > 0 && q > 0 && q % 2 == 0 && r < d && num == d * (q - 1) + r
    requires d * (q - 1) == d * q - d && d * (2 * q - 1) == 2 * (d * q) - d
    ensures Reaches(mode, sign, num, d, q) <==> Increments(mode, sign, q - 1, Place(r, d))
  {
  }

  // ---- when the magnitude bits reach those of infinity ----

  // With h the least significand of a normal number: the bits reach infinity
  // exactly when the value does, rounded to the unit of the largest numbers.
  lemma TopReached(mode: Mode, sign: bool, num: nat, den: nat, e: nat, h: nat)
    requires den > 0 && h > 1 && num < den * Pow2(e) * (2 * h) && (e > 0 ==> den * Pow2(e) * h <= num)
    ensures den * Pow2(e) > 0 && den * Pow2(TOP_EXP) > 0
    ensures e * h + RoundInt(mode, sign, num, den * Pow2(e)) >= 0x7FFF * h
       <==> RoundInt(mode, sign, num, den * Pow2(TOP_EXP)) >= 2 * h
  {
    hide RoundInt;
    hide Pow2;
    MulMono(1, Pow2(e), den);
    MulMono(1, Pow2(TOP_EXP), den);
    var d, t := den * Pow2(e), den * Pow2(TOP_EXP);
    RoundIntRange(mode, sign, num, d, 2 * h, if e > 0 then h else 0);
    var m := RoundInt(mode, sign, num, d);
    if e < TOP_EXP {
      Doubled(den, e, TOP_EXP);
      BelowTop(mode, sign, num, d, t, h);
      FieldBelow(e, m, h);
    } else if e > TOP_EXP {
      Doubled(den, TOP_EXP, e);
      AboveTop(mode, sign, num, d, t, h);
      FieldAbove(e, m, h);
    } else {
      Distribute(TOP_EXP, 2, h);
    }
  }

  lemma Doubled(den: nat, a: nat, b: nat)
    requires a < b
    ensures 2 * (den * Pow2(a)) <= den * Pow2(b)
  {
    hide Pow2;
    Pow2Mono(a, b);
    Commute(den, Pow2(a));
    Commute(den, Pow2(b));
    Associate(2, Pow2(a), den);
    MulMono(2 * Pow2(a), Pow2(b), den);
  }

  lemma BelowTop(mode: Mode, sign: bool, num: nat, d: nat, t: nat, h: nat)
    requires d > 0 && h > 1 && num < d * (2 * h) && 2 * d <= t
    ensures RoundInt(mode, sign, num, t) < 2 * h
  {
    hide RoundInt;
    MulMono(2 * d, t, h);
    Associate(d, 2, h);
    Commute(d, 2);
    RoundIntRange(mode, sign, num, t, h, 0);
  }

  lemma AboveTop(mode: Mode, sign: bool, num: nat, d: nat, t: nat, h: nat)
    requires t > 0 && d * h <= num && 2 * t <= d
    ensures RoundInt(mode, sign, num, t) >= 2 * h
  {
    hide RoundInt;
    MulMono(2 * t, d, h);
    Associate(t, 2, h);
    Commute(t, 2);
    ReachesFloor(mode, sign, num, t, 2 * h);
  }

  lemma FieldBelow(e: nat, m: nat, h: nat)
    requires e < TOP_EXP && m <= 2 * h && h > 0
    ensures e * h + m < 0x7FFF * h
  {
    MulMono(e, TOP_EXP - 1, h);
  }

  lemma FieldAbove(e: nat, m: nat, h: nat)
    requires e > TOP_EXP && h <= m
    ensures e * h + m >= 0x7FFF * h
  {
    MulMono(TOP_EXP + 1, e, h);
  }

  lemma ReachesFloor(mode: Mode, sign: bool, num: nat, d: nat, q: nat)
    requires d > 0 && d * q <= num
    ensures RoundInt(mode, sign, num, d) >= q
  {
    hide RoundAt;
    DivMod(num, d);
    var f := num / d;
    if f < q {
      MulMono(f + 1, q, d);
      Distribute(f, 1, d);
      Commute(d, q);
    }
  }

  // ---- binary128 ----

  // Section 7.4 of IEEE 754-2008.  With d the unit of the largest numbers,
  // the result overflows when num / den, rounded as though exponents had no
  // upper limit, is 2^16384 or more; it is then infinity, or the largest
  // finite number, as the mode says.
  lemma OverflowMeets(mode: Mode, sign: bool, num: nat, den: nat)
    requires den > 0
    ensures var r, d := RoundF128(mode, sign, num, den), den * Pow2(TOP_EXP);
            && (r.overflow <==> Reaches(mode, sign, num, d, P113))
            && (r.bits == INF <==>
                  match mode
                  case NearEven => 2 * num >= d * (2 * P113 - 1)
                  case NearMaxMag => 2 * num >= d * (2 * P113 - 1)
                  case MinMag => false
                  case Min => sign && num > d * (P113 - 1)
                  case Max => !sign && num > d * (P113 - 1))
            && (r.overflow && r.bits != INF ==> MagnitudeValue(r.bits) == (P113 - 1) * Pow2(TOP_EXP))
            && (r.overflow ==> r.inexact && !r.underflow && r.bits <= INF)
            && (!r.overflow ==> r.bits < INF)
  {
    hide RoundInt;
    hide Pow2;
    hide Scale;
    hide OnGrid;
    hide Tiny;
    hide MagnitudeValue;
    var e := Scale(num, den);
    ScaleIs(num, den);
    TopReached(mode, sign, num, den, e, P112);
    ReachesIs(mode, sign, num, den * Pow2(TOP_EXP), P113);
    LargestFinite(INF - 1);
  }

  // The largest finite magnitude.
  lemma LargestFinite(m: nat)
    requires m < INF
    ensures MagnitudeValue(m) <= (P113 - 1) * Pow2(TOP_EXP) == MagnitudeValue(INF - 1)
  {
    hide Pow2;
    hide MagnitudeValue;
    TopMagnitude();
    if m < P112 {
      MagnitudeSubnormal(m);
      MulMono(1, Pow2(TOP_EXP), P113 - 1);
    } else {
      var field, frac := m / P112, m % P112;
      MagnitudeSplit(m, field, frac);
      Pow2Mono(field - 1, TOP_EXP);
      MulMono(P112 + frac, P113 - 1, Pow2(field - 1));
      MulMono(Pow2(field - 1), Pow2(TOP_EXP), P113 - 1);
      Commute(P113 - 1, Pow2(field - 1));
      Commute(P113 - 1, Pow2(TOP_EXP));
    }
  }

  lemma TopMagnitude()
    ensures MagnitudeValue(INF - 1) == (P113 - 1) * Pow2(TOP_EXP)
  {
    hide Pow2;
    hide MagnitudeValue;
    MagnitudeSplit(INF - 1, 0x7FFE, P112 - 1);
  }

  // Without overflow a result is inexact exactly when its value is not
  // num / den, and underflow is raised exactly for inexact tiny results.
  lemma InexactMeets(mode: Mode, sign: bool, num: nat, den: nat)
    requires den > 0 && !RoundF128(mode, sign, num, den).overflow
    ensures var r := RoundF128(mode, sign, num, den);
            && (r.inexact <==> MagnitudeValue(r.bits) * den != num)
            && (r.underflow <==> r.inexact && Tiny(mode, sign, num, den))
  {
    hide RoundInt;
    hide Pow2;
    hide Scale;
    hide MagnitudeValue;
    hide Rounds;
    RoundF128Meets(mode, sign, num, den);
    var p := Pow2(Scale(num, den));
    MulMono(1, p, den);
    var m := RoundInt(mode, sign, num, den * p);
    ExactIff(mode, sign, num, den * p, m);
    Associate(m, p, den);
    Commute(p, den);
  }

  lemma ExactIff(mode: Mode, sign: bool, num: nat, d: nat, m: nat)
    requires d > 0 && m == RoundInt(mode, sign, num, d)
    ensures num % d == 0 <==> m * d == num
  {
    hide Increments;
    DivMod(num, d);
    if m * d == num {
      DivModUnique(num, d, m, 0);
    }
  }

  // ---- the 80-bit format ----

  lemma OverflowMeets80(mode: Mode, sign: bool, num: nat, den: nat)
    requires den > 0
    ensures var r, d := RoundF80(mode, sign, num, den), den * Pow2(TOP_EXP);
            && (r.overflow <==> Reaches(mode, sign, num, d, W64))
            && (r.bits == INF80 <==>
                  match mode
                  case NearEven => 2 * num >= d * (2 * W64 - 1)
                  case NearMaxMag => 2 * num >= d * (2 * W64 - 1)
                  case MinMag => false
                  case Min => sign && num > d * (W64 - 1)
                  case Max => !sign && num > d * (W64 - 1))
            && (r.overflow && r.bits != INF80 ==> Value80(Encode80(sign, r.bits)) == (W64 - 1) * Pow2(TOP_EXP))
            && (r.overflow ==> r.inexact && !r.underflow)
  {
    hide RoundInt;
    hide Pow2;
    hide Scale;
    hide OnGrid80;
    hide Tiny80;
    hide Value80;
    hide Encode80;
    var e := Scale80(num, den);
    ScaleIs(num * P49, den);
    TopReached(mode, sign, num, den, e, INT_BIT);
    ReachesIs(mode, sign, num, den * Pow2(TOP_EXP), W64);
    Encode80Value(sign, TOP_EXP, W64 - 1);
  }

  lemma InexactMeets80(mode: Mode, sign: bool, num: nat, den: nat)
    requires den > 0 && !RoundF80(mode, sign, num, den).overflow
    ensures var r := RoundF80(mode, sign, num, den);
            && (r.inexact <==> Value80(Encode80(sign, r.bits)) * den != num)
            && (r.underflow <==> r.inexact && Tiny80(mode, sign, num, den))
  {
    hide RoundInt;
    hide Pow2;
    hide Scale80;
    hide Value80;
    hide Encode80;
    hide Rounds;
    RoundF80Meets(mode, sign, num, den);
    var p := Pow2(Scale80(num, den));
    MulMono(1, p, den);
    var m := RoundInt(mode, sign, num, den * p);
    ExactIff(mode, sign, num, den * p, m);
    Associate(m, p, den);
    Commute(p, den);
  }

  // Tininess after rounding, as for binary128: below 2^63 units once rounded
  // to 64 bits as though exponents had no lower limit.
  lemma TinyMeets80(mode: Mode, sign: bool, num: nat, den: nat, k: nat)
    requires den > 0 && den * INT_BIT <= num * Pow2(k) < den * W64
    ensures Tiny80(mode, sign, num, den) <==> RoundInt(mode, sign, num * Pow2(k), den) < INT_BIT * Pow2(k)
  {
    hide RoundInt;
    if k == 0 {
      RoundIntRange(mode, sign, num, den, W64, INT_BIT);
      RoundIntRange(mode, sign, 2 * num, den, 2 * W64, W64);
    } else if k > 1 {
      assert Pow2(k) == 4 * Pow2(k - 2);
      MulMono(1, Pow2(k - 2), 4 * num);
      assert 4 * num * Pow2(k - 2) == num * Pow2(k);
      RoundIntRange(mode, sign, num * Pow2(k), den, W64, 0);
      RoundIntRange(mode, sign, 2 * num, den, INT_BIT, 0);
    }
  }

  // ---- special values ----

  // The classes by magnitude: above infinity are the NaNs, the quiet ones in
  // the upper half, and zeros are the operands of value 0.
  lemma Classes(a: U128)
    ensures IsInf(a) <==> Magnitude(a) == INF
    ensures IsNaN(a) <==> Magnitude(a) > INF
    ensures IsSigNaN(a) <==> INF < Magnitude(a) < INF + P112 / 2
    ensures Finite(a) <==> Magnitude(a) < INF
    ensures IsZero(a) <==> MagnitudeValue(Magnitude(a)) == 0
  {
    hide Pow2;
    var m := Magnitude(a);
    FieldsOf(a);
    if m < P112 {
      MagnitudeSubnormal(m);
    } else {
      MagnitudeSplit(m, m / P112, m % P112);
      MulMono(1, Pow2(m / P112 - 1), P112 + m % P112);
    }
  }

  lemma FieldsOf(a: U128)
    ensures ExpOf(a) == Magnitude(a) / P112 && FracOf(a).V() == Magnitude(a) % P112
    ensures a.v64 / 0x8000_0000_0000 % 2 == 0 <==> FracOf(a).V() < P112 / 2
  {
    hide ExpOf;
    DivModUnique(Magnitude(a), P112, ExpOf(a), FracOf(a).V());
    QuietBit(a.v64);
  }

  lemma QuietBit(x: U64)
    ensures x / 0x8000_0000_0000 % 2 == 0 <==> x % 0x1_0000_0000_0000 < 0x8000_0000_0000
  {
    var q := x / 0x8000_0000_0000;
    DivMod(x, 0x8000_0000_0000);
    DivModUnique(x, 0x1_0000_0000_0000, q / 2, q % 2 * 0x8000_0000_0000 + x % 0x8000_0000_0000);
  }

  // What the operations return in special cases is what it is called.
  lemma Specials(sign: bool, b: bool)
    ensures IsInf(Infinity(sign)) && SignOf(Infinity(sign)) == sign
    ensures IsZero(Zero(sign)) && SignOf(Zero(sign)) == sign
    ensures IsNaN(DEFAULT_NAN) && !IsSigNaN(DEFAULT_NAN)
    ensures Infinity(sign).V() == (if sign then P127 else 0) + INF
    ensures Invalid(b).invalid == b && Invalid(b).(invalid := false) == NO_FLAGS
    ensures !NO_FLAGS.invalid && !NO_FLAGS.infinite && !NO_FLAGS.inexact && !NO_FLAGS.overflow && !NO_FLAGS.underflow
  {
    PackIs(sign, 0x7FFF, U128(0, 0));
    PackIs(sign, 0, U128(0, 0));
    Classes(Infinity(sign));
  }

  // In the 80-bit format the integer bit does not matter to the class.
  lemma Classes80(a: ExtF80)
    ensures IsInf80(a) <==> Exp80(a) == 0x7FFF && (a.signif == 0 || a.signif == INT_BIT)
    ensures IsNaN80(a) <==> Exp80(a) == 0x7FFF && !IsInf80(a)
    ensures IsSigNaN80(a) <==> IsNaN80(a) && a.signif % INT_BIT < INT_BIT / 2
    ensures a.signif == 0 <==> Value80(a) == 0
  {
    hide Pow2;
    hide Exp80;
    hide Value80;
    QuietBit80(a.signif);
    TopOrNone(a.signif);
    if a.signif != 0 {
      Nonzero80(a);
    } else {
      ZeroValue80(a);
    }
  }

  lemma QuietBit80(x: U64)
    ensures x / 0x4000_0000_0000_0000 % 2 == 0 && x % 0x4000_0000_0000_0000 != 0
       <==> x % INT_BIT != 0 && x % INT_BIT < INT_BIT / 2
  {
    var q, r := x / 0x4000_0000_0000_0000, x % 0x4000_0000_0000_0000;
    DivMod(x, 0x4000_0000_0000_0000);
    DivMod(q, 2);
    DivModUnique(x, INT_BIT, q / 2, q % 2 * 0x4000_0000_0000_0000 + r);
  }

  lemma TopOrNone(x: U64)
    ensures x % INT_BIT == 0 <==> x == 0 || x == INT_BIT
  {
  }

  lemma Specials80(sign: bool)
    ensures IsInf80(Infinity80(sign)) && Sign80(Infinity80(sign)) == sign && Infinity80(sign) == Encode80(sign, INF80)
    ensures Value80(Zero80(sign)) == 0 && Finite80(Zero80(sign)) && Sign80(Zero80(sign)) == sign
    ensures IsNaN80(DEFAULT_NAN80) && !IsSigNaN80(DEFAULT_NAN80)
  {
  }
}
