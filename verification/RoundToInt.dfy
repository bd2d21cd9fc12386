// Rounding a binary128 value to an integral value, as an operation on its
// magnitude bits, and the integer facts both implementations rest on.
module RoundToInt {
  import opened Arith
  import opened Words
  import opened Rounding
  import opened Binary128

  // From this exponent field on every value is integral.
  const ALL_INTEGRAL: nat := 0x406F

  // The magnitude bits of the rounded value.  Where the exponent is in
  // between, the whole bit pattern is rounded to a multiple of 2^k, exponent
  // field included.
  function RoundedMagnitude(mode: Mode, sign: bool, m: nat): (r: nat)
  {
    var e := m / P112;
    if e < 0x3FFF then RoundInt(mode, sign, MagnitudeValue(m), Pow2(UNIT_EXP)) * (0x3FFF * P112)
    else if e < ALL_INTEGRAL then RoundInt(mode, sign, m, Pow2(ALL_INTEGRAL - e)) * Pow2(ALL_INTEGRAL - e)
    else m
  }

  // What RoundedMagnitude means (section 5.9 of IEEE 754-2008): the value
  // becomes the integer the mode selects, and the bits change exactly when
  // the value was not an integer.
  lemma RoundedMeans(mode: Mode, sign: bool, m: nat)
    requires m < INF
    ensures RoundedMagnitude(mode, sign, m) < INF
    ensures MagnitudeValue(RoundedMagnitude(mode, sign, m))
         == RoundInt(mode, sign, MagnitudeValue(m), Pow2(UNIT_EXP)) * Pow2(UNIT_EXP)
    ensures Rounds(mode, sign, MagnitudeValue(m), Pow2(UNIT_EXP),
                   RoundInt(mode, sign, MagnitudeValue(m), Pow2(UNIT_EXP)))
    ensures RoundedMagnitude(mode, sign, m) == m <==> MagnitudeValue(m) % Pow2(UNIT_EXP) == 0
  {
    hide Pow2;
    hide RoundInt;
    hide Rounds;
    hide MagnitudeValue;
    RoundIntMeets(mode, sign, MagnitudeValue(m), Pow2(UNIT_EXP));
    var e := m / P112;
    if e < 0x3FFF {
      SmallMeans(mode, sign, m);
    } else if e < ALL_INTEGRAL {
      MiddleMeans(mode, sign, m, e);
    } else {
      LargeMeans(mode, sign, m, e);
    }
  }

  // ---- below one ----

  // Where a magnitude below 1 lies relative to 1/2.
  function SmallPlace(m: nat): Position {
    if m == 0 then Exact
    else if m / P112 < 0x3FFE then Below
    else if m % P112 == 0 then Half
    else Above
  }

  lemma SmallIs(mode: Mode, sign: bool, m: nat)
    requires m / P112 < 0x3FFF
    ensures MagnitudeValue(m) < Pow2(UNIT_EXP) && (MagnitudeValue(m) == 0 <==> m == 0)
    ensures RoundInt(mode, sign, MagnitudeValue(m), Pow2(UNIT_EXP)) == RoundAt(mode, sign, 0, SmallPlace(m))
  {
    hide Pow2;
    hide MagnitudeValue;
    var e, f := m / P112, m % P112;
    var v, d := MagnitudeValue(m), Pow2(UNIT_EXP);
    UnitHalves();
    if e == 0 {
      MagnitudeSubnormal(m);
      Pow2Mono(112, UNIT_EXP - 1);
      Pow2Wide();
    } else {
      MagnitudeSplit(m, e, f);
      var p := Pow2(e - 1);
      MulMono(1, P112 + f, p);
      if e < 0x3FFE {
        Pow2Mono(e, 0x3FFD);
        assert Pow2(e) == 2 * p by { DoubleAt(e); }
        assert Pow2(0x3FFE) == 2 * Pow2(0x3FFD) by { DoubleAt(0x3FFE); }
        SmallBound(f, p, Pow2(0x3FFD), d);
      } else {
        SmallHalf(f, p, d);
      }
    }
    DivModUnique(v, d, 0, v);
  }

  lemma DoubleAt(e: nat)
    requires e > 0
    ensures Pow2(e) == 2 * Pow2(e - 1)
  {
  }

  lemma UnitHalves()
    ensures Pow2(UNIT_EXP) == 2 * Pow2(UNIT_EXP - 1)
    ensures Pow2(UNIT_EXP - 1) == P112 * Pow2(0x3FFD)
    ensures Pow2(UNIT_EXP) == P112 * Pow2(0x3FFE)
  {
    DoubleAt(UNIT_EXP);
    Pow2Sum(112, 0x3FFD, UNIT_EXP - 1);
    Pow2Sum(112, 0x3FFE, UNIT_EXP);
    Pow2Wide();
  }

  lemma SmallBound(f: nat, p: nat, q: nat, d: nat)
    requires f < P112 && 2 * p <= q && d == 2 * (P112 * q) && p > 0
    ensures 2 * ((P112 + f) * p) < d
  {
    MulMonoStrict(P112 + f, 2 * P112, p);
    MulMono(2 * p, q, P112);
    assert (2 * P112) * p == (2 * p) * P112;
  }

  lemma SmallHalf(f: nat, p: nat, d: nat)
    requires f < P112 && d == 2 * (P112 * p) && p > 0
    ensures (P112 + f) * p < d && (2 * ((P112 + f) * p) == d <==> f == 0) && 2 * ((P112 + f) * p) >= d
  {
    MulMonoStrict(P112 + f, 2 * P112, p);
    assert (P112 + f) * p == P112 * p + f * p;
    assert (2 * P112) * p == 2 * (P112 * p);
    if f > 0 {
      MulMono(1, f, p);
    }
  }

  lemma SmallMeans(mode: Mode, sign: bool, m: nat)
    requires m / P112 < 0x3FFF
    ensures RoundedMagnitude(mode, sign, m) < INF
    ensures MagnitudeValue(RoundedMagnitude(mode, sign, m))
         == RoundInt(mode, sign, MagnitudeValue(m), Pow2(UNIT_EXP)) * Pow2(UNIT_EXP)
    ensures RoundedMagnitude(mode, sign, m) == m <==> MagnitudeValue(m) % Pow2(UNIT_EXP) == 0
  {
    hide Pow2;
    hide MagnitudeValue;
    hide RoundInt;
    SmallIs(mode, sign, m);
    UnitHalves();
    MagnitudeValueOf(0x3FFE, P112);
    MagnitudeSubnormal(0);
    DivModUnique(MagnitudeValue(m), Pow2(UNIT_EXP), 0, MagnitudeValue(m));
  }

  // ---- in between ----

  // Adding an even multiple of the denominator moves the rounding by it.
  lemma RoundIntShift(mode: Mode, sign: bool, num: nat, den: nat, c: nat)
    requires den > 0 && c % 2 == 0
    ensures RoundInt(mode, sign, num + c * den, den) == RoundInt(mode, sign, num, den) + c
    ensures (num + c * den) % den == num % den
  {
    DivMod(num, den);
    assert num + c * den == (num / den + c) * den + num % den;
    DivModUnique(num + c * den, den, num / den + c, num % den);
  }

  lemma EvenTimes(a: nat, b: nat)
    requires a % 2 == 0 || b % 2 == 0
    ensures a * b % 2 == 0
  {
    if a % 2 == 0 {
      assert a * b == 2 * (a / 2 * b);
    } else {
      assert a * b == 2 * (b / 2 * a);
    }
  }

  // The bits above the significand are an even number of steps 2^k.
  lemma MiddleShift(e: nat, k: nat) returns (c: nat)
    requires 0x3FFF <= e && e + k == ALL_INTEGRAL && 1 <= k
    ensures c % 2 == 0 && (e - 1) * P112 == c * Pow2(k) && Pow2(112 - k) * Pow2(k) == P112
  {
    hide Pow2;
    Pow2Sum(112 - k, k, 112);
    Pow2Wide();
    c := (e - 1) * Pow2(112 - k);
    assert (e - 1) * (Pow2(112 - k) * Pow2(k)) == c * Pow2(k);
    if k < 112 {
      Pow2Even(112 - k);
    }
    EvenTimes(e - 1, Pow2(112 - k));
  }

  lemma MiddleMeans(mode: Mode, sign: bool, m: nat, e: nat)
    requires e == m / P112 && 0x3FFF <= e < ALL_INTEGRAL
    ensures RoundedMagnitude(mode, sign, m) < INF
    ensures MagnitudeValue(RoundedMagnitude(mode, sign, m))
         == RoundInt(mode, sign, MagnitudeValue(m), Pow2(UNIT_EXP)) * Pow2(UNIT_EXP)
    ensures RoundedMagnitude(mode, sign, m) == m <==> MagnitudeValue(m) % Pow2(UNIT_EXP) == 0
  {
    hide Pow2;
    hide MagnitudeValue;
    hide RoundInt;
    hide RoundedMagnitude;
    var k, sig := ALL_INTEGRAL - e, P112 + m % P112;
    var p, w := Pow2(k), Pow2(e - 1);
    DivMod(m, P112);
    MagnitudeSplit(m, e, m % P112);
    Pow2Sum(k, e - 1, UNIT_EXP);
    RoundIntScale(mode, sign, sig, p, w);
    var r := RoundInt(mode, sign, sig, p);
    MiddleBits(mode, sign, m, e, sig, k);
    MiddleRange(mode, sign, sig, k);
    MagnitudeValueOf(e - 1, r * p);
    Associate(r, p, w);
    RoundFixed(mode, sign, sig, p);
  }

  lemma MiddleBits(mode: Mode, sign: bool, m: nat, e: nat, sig: nat, k: nat)
    requires e == m / P112 && 0x3FFF <= e && e + k == ALL_INTEGRAL && 1 <= k
    requires m == (e - 1) * P112 + sig
    ensures RoundedMagnitude(mode, sign, m) == (e - 1) * P112 + RoundInt(mode, sign, sig, Pow2(k)) * Pow2(k)
  {
    hide Pow2;
    hide RoundInt;
    var c := MiddleShift(e, k);
    RoundIntShift(mode, sign, sig, Pow2(k), c);
    var r, p := RoundInt(mode, sign, sig, Pow2(k)), Pow2(k);
    assert (r + c) * p == r * p + c * p;
  }

  lemma MiddleRange(mode: Mode, sign: bool, sig: nat, k: nat)
    requires P112 <= sig < P113 && 1 <= k <= 112
    ensures P112 <= RoundInt(mode, sign, sig, Pow2(k)) * Pow2(k) <= P113
  {
    hide Pow2;
    Pow2Sum(112 - k, k, 112);
    Pow2Wide();
    RoundedRange(mode, sign, sig, Pow2(k), Pow2(112 - k));
  }

  // A significand of 113 bits rounds to at most 2^113.
  lemma RoundedRange(mode: Mode, sign: bool, sig: nat, p: nat, q: nat)
    requires P112 <= sig < P113 && p > 0 && q * p == P112
    ensures P112 <= RoundInt(mode, sign, sig, p) * p <= P113
  {
    assert p * q == P112 && p * (2 * q) == P113;
    RoundIntRange(mode, sign, sig, p, 2 * q, q);
    var r := RoundInt(mode, sign, sig, p);
    MulMono(q, r, p);
    MulMono(r, 2 * q, p);
  }

  // Rounding fixes exactly the multiples.
  lemma RoundFixed(mode: Mode, sign: bool, num: nat, den: nat)
    requires den > 0
    ensures RoundInt(mode, sign, num, den) * den == num <==> num % den == 0
  {
    hide Increments;
    DivMod(num, den);
    var q := num / den;
    assert (q + 1) * den == q * den + den;
  }

  lemma LargeMeans(mode: Mode, sign: bool, m: nat, e: nat)
    requires e == m / P112 && ALL_INTEGRAL <= e && m < INF
    ensures MagnitudeValue(m) == RoundInt(mode, sign, MagnitudeValue(m), Pow2(UNIT_EXP)) * Pow2(UNIT_EXP)
    ensures MagnitudeValue(m) % Pow2(UNIT_EXP) == 0
  {
    hide Pow2;
    hide MagnitudeValue;
    hide RoundInt;
    DivMod(m, P112);
    MagnitudeSplit(m, e, m % P112);
    Pow2Sum(e - 1 - UNIT_EXP, UNIT_EXP, e - 1);
    var t, d := (P112 + m % P112) * Pow2(e - 1 - UNIT_EXP), Pow2(UNIT_EXP);
    assert (P112 + m % P112) * (Pow2(e - 1 - UNIT_EXP) * d) == t * d;
    RoundIntExact(mode, sign, t, d);
    DivModUnique(t * d, d, t, 0);
  }

  // ---- rounding with masks ----

  // x & ~(p - 1) and x & ~p for a power of two p.
  function ClearLow(x: nat, p: nat): nat
    requires p > 0
  {
    x - x % p
  }

  function ClearBit(x: nat, p: nat): nat
    requires p > 0
  {
    if x / p % 2 == 1 then BitSet(x, p); x - p else x
  }

  lemma BitSet(x: nat, p: nat)
    requires p > 0 && x / p % 2 == 1
    ensures x >= p
  {
    if x < p {
      DivModUnique(x, p, 0, x);
    }
  }

  // Half a step is added, and to even a tie gives the step back.
  function NearMasked(even: bool, u: nat, low: nat, h: nat): nat
    requires h > 0
  {
    var z := u + h;
    ClearLow(if even && z % (2 * h) == 0 && low == 0 then ClearBit(z, 2 * h) else z, 2 * h)
  }

  // A step is added unless nothing is discarded.
  function UpMasked(u: nat, low: nat, p: nat): nat
    requires p > 0
  {
    ClearLow(u, p) + (if u % p != 0 || low != 0 then p else 0)
  }

  // The result on the upper part u of a pattern u * w + low: every mode only
  // asks of the lower part whether it is zero.
  function Masked(mode: Mode, sign: bool, u: nat, low: nat, p: nat): nat
    requires p > 0 && p % 2 == 0
  {
    match mode
    case NearEven => NearMasked(true, u, low, p / 2)
    case NearMaxMag => NearMasked(false, u, low, p / 2)
    case _ => if mode == (if sign then Min else Max) then UpMasked(u, low, p) else ClearLow(u, p)
  }

  lemma MaskedIs(mode: Mode, sign: bool, u: nat, low: nat, w: nat, p: nat)
    requires low < w && p > 0 && p % 2 == 0
    ensures p * w > 0 && Masked(mode, sign, u, low, p) * w == RoundInt(mode, sign, u * w + low, p * w) * (p * w)
    ensures (u * w + low) % (p * w) == 0 <==> u % p == 0 && low == 0
  {
    hide Masked;
    hide RoundInt;
    var q, r := SplitBy(u, p);
    MaskedFrom(mode, sign, u, q, r, low, w, p);
    JamZero(u, low, w, q, r, p);
  }

  lemma SplitBy(u: nat, p: nat) returns (q: nat, r: nat)
    requires p > 0
    ensures q == u / p && r == u % p && r < p && u == q * p + r
  {
    q, r := u / p, u % p;
    DivMod(u, p);
  }

  lemma MaskedFrom(mode: Mode, sign: bool, u: nat, q: nat, r: nat, low: nat, w: nat, p: nat)
    requires low < w && p > 0 && p % 2 == 0 && r < p && u == q * p + r
    ensures p * w > 0
    ensures Masked(mode, sign, u, low, p) * w == RoundInt(mode, sign, u * w + low, p * w) * (p * w)
  {
    hide Masked;
    hide RoundInt;
    hide RoundAt;
    hide Jam;
    RoundIntJam(mode, sign, u, q, r, low, w, p);
    MaskedAt(mode, sign, u, q, r, low, p);
    Associate(RoundAt(mode, sign, q, Jam(r, p, low != 0)), p, w);
  }

  lemma RoundIntJam(mode: Mode, sign: bool, u: nat, q: nat, r: nat, low: nat, w: nat, p: nat)
    requires low < w && p > 0 && p % 2 == 0 && r < p && u == q * p + r
    ensures p * w > 0
    ensures RoundInt(mode, sign, u * w + low, p * w) == RoundAt(mode, sign, q, Jam(r, p, low != 0))
  {
    hide Jam;
    hide RoundAt;
    hide Place;
    MulMono(1, p, w);
    Commute(w, p);
    assert 2 * (p / 2) == p;
    JamIs(u * w + low, w, u, low, q, r, p / 2);
  }

  lemma JamZero(u: nat, low: nat, w: nat, q: nat, r: nat, p: nat)
    requires low < w && p > 0 && r < p && u == q * p + r
    ensures p * w > 0 && ((u * w + low) % (p * w) == 0 <==> r == 0 && low == 0)
  {
    MulMono(1, p, w);
    MulMono(r, p - 1, w);
    MulMono(0, r, w);
    assert (p - 1) * w == p * w - w;
    assert (q * p + r) * w == q * (p * w) + r * w;
    DivModUnique(u * w + low, p * w, q, r * w + low);
    if r > 0 {
      MulMono(1, r, w);
    }
  }

  // On a pattern q * p + r the masks keep q or q + 1 steps as RoundAt does.
  lemma MaskedAt(mode: Mode, sign: bool, u: nat, q: nat, r: nat, low: nat, p: nat)
    requires p > 0 && p % 2 == 0 && r < p && u == q * p + r
    ensures Masked(mode, sign, u, low, p) == RoundAt(mode, sign, q, Jam(r, p, low != 0)) * p
  {
    var h := p / 2;
    DivModUnique(u, p, q, r);
    assert (q + 1) * p == q * p + p;
    match mode
    case NearEven => NearAt(true, q, q * p, r, low, p);
    case NearMaxMag => NearAt(false, q, q * p, r, low, p);
    case _ =>
  }

  lemma NearAt(even: bool, q: nat, c: nat, r: nat, low: nat, p: nat)
    requires p > 0 && p % 2 == 0 && r < p && c == q * p
    ensures NearMasked(even, c + r, low, p / 2)
         == if r > p / 2 || (r == p / 2 && (low != 0 || !even || q % 2 == 1)) then c + p else c
  {
    var h := p / 2;
    var z := c + r + h;
    assert 2 * h == p;
    if r < h {
      NearParts(z, p, q, c, r + h);
    } else {
      assert (q + 1) * p == c + p;
      NearParts(z, p, q + 1, c + p, r - h);
      NearParts(c, p, q, c, 0);
    }
  }

  lemma NearParts(z: nat, p: nat, q: nat, c: nat, r: nat)
    requires r < p && c == q * p && z == c + r
    ensures z % p == r && z / p == q
  {
    DivModUnique(z, p, q, r);
  }
}
