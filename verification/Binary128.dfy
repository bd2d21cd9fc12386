// The binary128 format.  Finite magnitudes are integers in units of 2^-16494,
// the smallest subnormal, so every statement about values is about integers.
module Binary128 {
  import opened Arith
  import opened Words
  import opened Rounding
  import opened Jamming

  const P112: nat := 0x1_0000_0000_0000_0000_0000_0000_0000
  const P113: nat := 0x2_0000_0000_0000_0000_0000_0000_0000
  const P127: nat := 0x8000_0000_0000_0000_0000_0000_0000_0000
  // The magnitude bits of infinity: exponent 0x7FFF, fraction 0.
  const INF: nat := 0x7FFF_0000_0000_0000_0000_0000_0000_0000

  // 1.0 is 2^UNIT_EXP units.
  const UNIT_EXP: nat := 16494

  // The macros signF128UI64, expF128UI64 and fracF128UI64.
  predicate SignOf(a: U128) { a.v64 >= 0x8000_0000_0000_0000 }
  function ExpOf(a: U128): (e: nat) ensures e < 0x8000 { a.v64 / 0x1_0000_0000_0000 % 0x8000 }
  function FracOf(a: U128): (f: U128) ensures f.V() < P112 { U128(a.v64 % 0x1_0000_0000_0000, a.v0) }

  // The bits below the sign.
  function Magnitude(a: U128): (m: nat)
    ensures m < P127
    ensures m == ExpOf(a) * P112 + FracOf(a).V()
    ensures a.V() == (if SignOf(a) then P127 else 0) + m
  {
    a.V() - (if SignOf(a) then P127 else 0)
  }

  predicate Finite(a: U128) { ExpOf(a) != 0x7FFF }

  // The value of finite magnitude bits.
  function MagnitudeValue(m: nat): nat {
    if m < P112 then m else (P112 + m % P112) * Pow2(m / P112 - 1)
  }

  function Value(a: U128): (v: int) {
    if SignOf(a) then 0 - MagnitudeValue(Magnitude(a)) else MagnitudeValue(Magnitude(a))
  }

  // packToF128UI64, with the sums of the macro.
  function Pack(sign: bool, exp: int, sig: U128): U128 {
    U128(((if sign then 0x8000_0000_0000_0000 else 0) + exp * 0x1_0000_0000_0000 + sig.v64) % W64, sig.v0)
  }

  // Packing adds the significand to the exponent field, so a significand
  // with its leading bit carries into the exponent.
  lemma PackIs(sign: bool, exp: int, sig: U128)
    requires 0 <= exp && exp * P112 + sig.V() < P127
    ensures Pack(sign, exp, sig).V() == (if sign then P127 else 0) + exp * P112 + sig.V()
    ensures SignOf(Pack(sign, exp, sig)) == sign
    ensures Magnitude(Pack(sign, exp, sig)) == exp * P112 + sig.V()
  {
  }

  // A significand of 113 bits at exponent field e has the value m * 2^e, the
  // carry into the next exponent included.
  lemma MagnitudeValueOf(e: nat, m: nat)
    requires m <= P113 && (e > 0 ==> P112 <= m)
    ensures MagnitudeValue(e * P112 + m) == m * Pow2(e)
  {
    hide MagnitudeValue;
    if m < P112 {
      MagnitudeSubnormal(m);
      assert m * Pow2(0) == m;
    } else if m < P113 {
      MagnitudeSplit(e * P112 + m, e + 1, m - P112);
    } else {
      MagnitudeSplit(e * P112 + m, e + 2, 0);
      assert P112 * Pow2(e + 1) == P113 * Pow2(e);
    }
  }

  lemma MagnitudeSubnormal(m: nat)
    requires m < P112
    ensures MagnitudeValue(m) == m
  {
  }

  lemma MagnitudeSplit(x: nat, field: nat, frac: nat)
    requires x == field * P112 + frac && field > 0 && frac < P112
    ensures MagnitudeValue(x) == (P112 + frac) * Pow2(field - 1)
  {
    hide Pow2;
    DivModUnique(x, P112, field, frac);
  }

  // The number of times the grid spacing 1 must double before num / den has
  // at most 113 bits: the exponent field of the rounded result.
  function Scale(num: nat, den: nat): (e: nat)
    requires den > 0
    decreases if num > den then num - den else 0
  {
    if num < den * P113 then 0 else 1 + Scale(num, 2 * den)
  }

  lemma {:induction false} ScaleIs(num: nat, den: nat)
    requires den > 0
    ensures num < den * Pow2(Scale(num, den)) * P113
    ensures Scale(num, den) > 0 ==> den * Pow2(Scale(num, den)) * P112 <= num
    decreases if num > den then num - den else 0
  {
    var e := Scale(num, den);
    if e > 0 {
      ScaleIs(num, 2 * den);
      assert den * Pow2(e) == 2 * den * Pow2(e - 1);
    }
  }

  lemma {:induction false} ScaleUnique(num: nat, den: nat, e: nat)
    requires den > 0
    requires num < den * Pow2(e) * P113
    requires e > 0 ==> den * Pow2(e) * P112 <= num
    ensures Scale(num, den) == e
    decreases e
  {
    if e > 0 {
      assert den * Pow2(e) == 2 * den * Pow2(e - 1);
      MulMono(1, Pow2(e - 1), den);
      ScaleUnique(num, 2 * den, e - 1);
    }
  }

  // Where overflow goes in each mode (section 7.4 of IEEE 754-2008).
  function OverflowTo(mode: Mode, sign: bool): nat {
    if mode.NearEven? || mode.NearMaxMag? || mode == (if sign then Min else Max) then INF else INF - 1
  }

  function Unbounded(mode: Mode, sign: bool, num: nat, den: nat): nat
    requires den > 0
  {
    var e := Scale(num, den);
    e * P112 + RoundInt(mode, sign, num, den * Pow2(e))
  }

  // The magnitude bits, and the inexact, overflow and underflow flags.
  datatype Rounded = Rounded(bits: nat, inexact: bool, overflow: bool, underflow: bool)

  // The exceptions an operation raises.
  datatype Flags = Flags(invalid: bool, infinite: bool, inexact: bool, overflow: bool, underflow: bool)
  const NO_FLAGS: Flags := Flags(false, false, false, false, false)

  function Invalid(b: bool): Flags { NO_FLAGS.(invalid := b) }

  // Tininess is detected after rounding: rounded to one bit more than the
  // subnormal grid, num / den stays below the least normal magnitude.
  predicate Tiny(mode: Mode, sign: bool, num: nat, den: nat)
    requires den > 0
  {
    RoundInt(mode, sign, 2 * num, den) < P113
  }

  // num / den correctly rounded to binary128.
  function RoundF128(mode: Mode, sign: bool, num: nat, den: nat): (r: Rounded)
    requires den > 0
  {
    var m := Unbounded(mode, sign, num, den);
    if m < INF then Rounded(m, !OnGrid(num, den), false, !OnGrid(num, den) && Tiny(mode, sign, num, den))
    else Rounded(OverflowTo(mode, sign), true, true, false)
  }

  // Is num / den on the grid it is rounded to?
  predicate OnGrid(num: nat, den: nat)
    requires den > 0
  {
    num % (den * Pow2(Scale(num, den))) == 0
  }

  // What RoundF128 means: when it does not overflow, the value of the bits is
  // the integer multiple of the grid spacing 2^e that the mode selects, and
  // the grid is the finest one on which num / den has at most 113 bits.
  lemma RoundF128Meets(mode: Mode, sign: bool, num: nat, den: nat)
    requires den > 0 && !RoundF128(mode, sign, num, den).overflow
    ensures var e := Scale(num, den);
            var m := RoundInt(mode, sign, num, den * Pow2(e));
            && MagnitudeValue(RoundF128(mode, sign, num, den).bits) == m * Pow2(e)
            && Rounds(mode, sign, num, den * Pow2(e), m)
            && num < den * Pow2(e) * P113
            && (e > 0 ==> den * Pow2(e) * P112 <= num)
  {
    var e := Scale(num, den);
    var d := den * Pow2(e);
    MulMono(1, Pow2(e), den);
    ScaleIs(num, den);
    RoundIntMeets(mode, sign, num, d);
    RoundIntRange(mode, sign, num, d, P113, if e > 0 then P112 else 0);
    MagnitudeValueOf(e, RoundInt(mode, sign, num, d));
  }

  lemma RoundIntRange(mode: Mode, sign: bool, num: nat, den: nat, hi: nat, lo: nat)
    requires den > 0 && den * lo <= num < den * hi
    ensures lo <= RoundInt(mode, sign, num, den) <= hi
  {
    hide Place;
    hide RoundAt;
    QuotientRange(num, den, hi, lo, num / den);
  }

  lemma QuotientRange(num: nat, den: nat, hi: nat, lo: nat, q: nat)
    requires den > 0 && den * lo <= num < den * hi && q == num / den
    ensures lo <= q < hi
  {
    DivMod(num, den);
    assert (q + 1) * den == q * den + den;
    if q >= hi {
      MulMono(hi, q, den);
    }
    if q < lo {
      MulMono(q + 1, lo, den);
    }
  }

  // Rounding depends on the ratio alone.
  lemma RoundF128Scaled(mode: Mode, sign: bool, num: nat, den: nat, k: nat)
    requires den > 0 && k > 0
    ensures den * k > 0 && RoundF128(mode, sign, num * k, den * k) == RoundF128(mode, sign, num, den)
  {
    hide Unbounded;
    hide OnGrid;
    hide Tiny;
    UnboundedScaled(mode, sign, num, den, k);
    TinyScaled(mode, sign, num, den, k);
  }

  lemma SwapFactors(a: int, b: int, c: int)
    ensures (a * b) * c == (a * c) * b
  {
    Associate(a, b, c);
    Commute(b, c);
    Associate(a, c, b);
  }

  lemma TinyScaled(mode: Mode, sign: bool, num: nat, den: nat, k: nat)
    requires den > 0 && k > 0
    ensures den * k > 0 && Tiny(mode, sign, num * k, den * k) == Tiny(mode, sign, num, den)
  {
    hide RoundInt;
    RoundIntScale(mode, sign, 2 * num, den, k);
    assert 2 * num * k == 2 * (num * k);
  }

  lemma UnboundedScaled(mode: Mode, sign: bool, num: nat, den: nat, k: nat)
    requires den > 0 && k > 0
    ensures den * k > 0 && Unbounded(mode, sign, num * k, den * k) == Unbounded(mode, sign, num, den)
    ensures OnGrid(num * k, den * k) == OnGrid(num, den)
  {
    hide RoundInt;
    hide Pow2;
    hide Scale;
    MulMono(1, k, den);
    ScaleScaled(num, den, k);
    var e := Scale(num, den);
    MulMono(1, Pow2(e), den);
    RoundIntScale(mode, sign, num, den * Pow2(e), k);
    SwapFactors(den, Pow2(e), k);
  }

  // What Tiny means (section 7.5 of IEEE 754-2008): with the k that brings
  // num / den to 113 bits, as though exponents had no lower limit, the rounded
  // value is below 2^112 units.
  lemma TinyMeets(mode: Mode, sign: bool, num: nat, den: nat, k: nat)
    requires den > 0 && den * P112 <= num * Pow2(k) < den * P113
    ensures Tiny(mode, sign, num, den) <==> RoundInt(mode, sign, num * Pow2(k), den) < P112 * Pow2(k)
  {
    hide RoundInt;
    if k == 0 {
      RoundIntRange(mode, sign, num, den, P113, P112);
      RoundIntRange(mode, sign, 2 * num, den, 2 * P113, P113);
    } else if k > 1 {
      assert Pow2(k) == 4 * Pow2(k - 2);
      MulMono(1, Pow2(k - 2), 4 * num);
      assert 4 * num * Pow2(k - 2) == num * Pow2(k);
      RoundIntRange(mode, sign, num * Pow2(k), den, P113, 0);
      RoundIntRange(mode, sign, 2 * num, den, P112, 0);
    }
  }

  lemma ScaleScaled(num: nat, den: nat, k: nat)
    requires den > 0 && k > 0 && den * k > 0
    ensures Scale(num * k, den * k) == Scale(num, den)
  {
    hide Pow2;
    var e := Scale(num, den);
    var d := den * Pow2(e);
    ScaleIs(num, den);
    assert (den * k) * Pow2(e) == d * k;
    ScaleProducts(num, d, k, P113);
    ScaleProducts(num, d, k, P112);
    ScaleUnique(num * k, den * k, e);
  }

  lemma ScaleProducts(num: nat, d: nat, k: nat, p: nat)
    requires k > 0
    ensures num < d * p ==> num * k < (d * k) * p
    ensures d * p <= num ==> (d * k) * p <= num * k
  {
    assert (d * p) * k == (d * k) * p;
    if num < d * p {
      MulMonoStrict(num, d * p, k);
    } else {
      MulMono(d * p, num, k);
    }
  }

  // A value with at most 113 significant bits that is in range is not
  // changed by rounding.
  lemma RoundF128Exact(mode: Mode, sign: bool, r: nat, t: nat)
    requires 0 < r <= P113 && t + 1 < 0x7FFF && (r <= P112 || t + 2 < 0x7FFF)
    ensures var x := RoundF128(mode, sign, r * Pow2(t), 1);
            x.bits < INF && MagnitudeValue(x.bits) == r * Pow2(t) && !x.inexact && !x.overflow && !x.underflow
  {
    hide RoundInt;
    hide Pow2;
    hide Scale;
    var x := r * Pow2(t);
    var e := Scale(x, 1);
    ScaleIs(x, 1);
    assert 1 * Pow2(e) == Pow2(e);
    hide MagnitudeValue;
    hide RoundF128;
    ExactGrid(r, t, x, e);
    if e <= t {
      var m := ExactFactor(r, t, e);
      ExactAt(mode, sign, x, e, m);
    } else {
      ExactAt(mode, sign, x, e, P112);
    }
  }

  lemma ExactFactor(r: nat, t: nat, e: nat) returns (m: nat)
    requires e <= t
    ensures r * Pow2(t) == m * Pow2(e)
  {
    m := r * Pow2(t - e);
    Pow2Add(t - e, e);
  }

  lemma ExactGrid(r: nat, t: nat, x: nat, e: nat)
    requires 0 < r <= P113 && x == r * Pow2(t)
    requires e > 0 ==> Pow2(e) * P112 <= x
    ensures e <= t || (e == t + 1 && r == P113 && x == P112 * Pow2(e))
  {
    if e > t {
      MulMono(r, P113, Pow2(t));
      if r < P113 {
        MulMonoStrict(r, P113, Pow2(t));
      }
      assert Pow2(t + 1) == 2 * Pow2(t);
      Pow2Mono(t + 1, e);
    }
  }

  lemma ExactAt(mode: Mode, sign: bool, x: nat, e: nat, m: nat)
    requires x == m * Pow2(e) && e == Scale(x, 1) && e + 1 < 0x7FFF
    requires x < Pow2(e) * P113 && (e > 0 ==> Pow2(e) * P112 <= x)
    ensures RoundF128(mode, sign, x, 1) == Rounded(e * P112 + m, false, false, false)
    ensures e * P112 + m < INF && MagnitudeValue(e * P112 + m) == x
  {
    hide Tiny;
    hide Pow2;
    hide RoundInt;
    hide Scale;
    hide MagnitudeValue;
    var p := Pow2(e);
    RoundIntExact(mode, sign, m, p);
    DivModUnique(x, p, m, 0);
    MulCancel(m, P113, p);
    if e > 0 && m < P112 {
      MulMonoStrict(m, P112, p);
    }
    MagnitudeValueOf(e, m);
    assert 1 * p == p;
  }
}
