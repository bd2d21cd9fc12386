// Rounding a nonnegative rational num / den to an integer, in the five
// rounding modes SoftFloat is built with.
module Rounding {
  import opened Arith

  datatype Mode = NearEven | MinMag | Min | Max | NearMaxMag

  // Where a fraction r / d in [0, 1) lies relative to 0 and 1/2.  Every
  // rounding decision depends on the discarded fraction only through this.
  datatype Position = Exact | Below | Half | Above

  function Place(r: nat, d: nat): Position
    requires r < d
  {
    if r == 0 then Exact else if 2 * r < d then Below else if 2 * r == d then Half else Above
  }

  predicate Increments(mode: Mode, sign: bool, q: nat, p: Position) {
    match mode
    case NearEven => p.Above? || (p.Half? && q % 2 == 1)
    case NearMaxMag => p.Above? || p.Half?
    case MinMag => false
    case Min => sign && !p.Exact?
    case Max => !sign && !p.Exact?
  }

  function RoundAt(mode: Mode, sign: bool, q: nat, p: Position): (m: nat)
    ensures q <= m <= q + 1
    ensures p.Exact? ==> m == q
  {
    if Increments(mode, sign, q, p) then q + 1 else q
  }

  function RoundInt(mode: Mode, sign: bool, num: nat, den: nat): (m: nat)
    requires den > 0
  {
    RoundAt(mode, sign, num / den, Place(num % den, den))
  }

  // What the standard asks of each mode (sections 4.3.1 and 4.3.2 of
  // IEEE 754-2008), for the value (-1)^sign * num / den and the integer
  // (-1)^sign * m.
  ghost predicate Rounds(mode: Mode, sign: bool, num: nat, den: nat, m: nat)
  {
    var s := if sign then -1 else 1;
    var gap, ulp: int := m * den - num, den;
    match mode
    case NearEven => -ulp <= 2 * gap <= ulp && (2 * gap == ulp || 2 * gap == -ulp ==> m % 2 == 0)
    case NearMaxMag => -ulp < 2 * gap <= ulp
    case MinMag => m * den <= num < m * den + den
    case Min => s * m * den <= s * num < s * m * den + den
    case Max => s * m * den - den < s * num <= s * m * den
  }

  lemma RoundIntMeets(mode: Mode, sign: bool, num: nat, den: nat)
    requires den > 0
    ensures Rounds(mode, sign, num, den, RoundInt(mode, sign, num, den))
  {
    DivMod(num, den);
    var q := num / den;
    assert (q + 1) * den == q * den + den;
    var m := RoundInt(mode, sign, num, den);
    assert (-1) * m * den == -(m * den);
    assert 1 * m * den == m * den;
  }

  // An exact quotient is its own rounding.
  lemma RoundIntExact(mode: Mode, sign: bool, m: nat, den: nat)
    requires den > 0
    ensures RoundInt(mode, sign, m * den, den) == m
  {
    DivModUnique(m * den, den, m, 0);
  }

  lemma RoundIntScale(mode: Mode, sign: bool, num: nat, den: nat, k: nat)
    requires den > 0 && k > 0
    ensures den * k > 0 && RoundInt(mode, sign, num * k, den * k) == RoundInt(mode, sign, num, den)
    ensures (num * k) % (den * k) == 0 <==> num % den == 0
  {
    var q, r := num / den, num % den;
    DivMod(num, den);
    MulMono(1, k, den);
    MulMono(0, r, k);
    assert num * k == q * (den * k) + r * k by {
      assert (q * den + r) * k == q * (den * k) + r * k;
    }
    MulMonoStrict(r, den, k);
    DivModUnique(num * k, den * k, q, r * k);
    PlaceScale(r, den, k);
    if r > 0 {
      MulMono(1, r, k);
    }
  }

  lemma PlaceScale(r: nat, d: nat, k: nat)
    requires r < d && k > 0
    ensures 0 <= r * k < d * k && Place(r * k, d * k) == Place(r, d)
  {
    MulMonoStrict(r, d, k);
    MulMono(0, r, k);
    if r > 0 {
      MulMono(1, r, k);
    }
    assert (2 * r) * k == 2 * (r * k);
    if 2 * r < d {
      MulMonoStrict(2 * r, d, k);
    } else if d < 2 * r {
      MulMonoStrict(d, 2 * r, k);
    }
  }

  // Discarding k more bits of a value whose integer part is v and whose
  // fraction was already reduced to a sticky bit: the new position is that
  // of the discarded bits with the sticky bit half a unit below them.
  function Jam(low: nat, p: nat, sticky: bool): Position
    requires low < p
  {
    Place(2 * low + (if sticky then 1 else 0), 2 * p)
  }

  lemma JamIs(num: nat, den: nat, v: nat, f: nat, hi: nat, low: nat, h: nat)
    requires h > 0 && num == v * den + f && f < den
    requires v == hi * (2 * h) + low && low < 2 * h
    ensures den * (2 * h) > 0
    ensures num / (den * (2 * h)) == hi
    ensures Place(num % (den * (2 * h)), den * (2 * h)) == Jam(low, 2 * h, f != 0)
  {
    var d := den * (2 * h);
    JamRange(den, h, low, f);
    assert num == hi * d + (low * den + f) by {
      JamSplit(den, hi, 2 * h, low);
    }
    DivModUnique(num, d, hi, low * den + f);
    JamPlace(low, f, den, h);
  }

  lemma JamSplit(den: nat, hi: nat, p: nat, low: nat)
    ensures (hi * p + low) * den == hi * (den * p) + low * den
  {
  }

  lemma JamRange(den: nat, h: nat, low: nat, f: nat)
    requires f < den && low < 2 * h
    ensures 0 <= low * den + f < den * (2 * h)
  {
    MulMono(0, low, den);
    MulMono(low, 2 * h - 1, den);
    assert (2 * h - 1) * den == den * (2 * h) - den;
  }

  lemma JamPlace(low: nat, f: nat, den: nat, h: nat)
    requires f < den && low < 2 * h
    requires 0 <= low * den + f < den * (2 * h)
    ensures Place(low * den + f, den * (2 * h)) == Jam(low, 2 * h, f != 0)
  {
    assert den * (2 * h) == 2 * (h * den);
    if low > 0 {
      MulMono(1, low, den);
    }
    if low < h {
      MulMono(low, h - 1, den);
      assert (h - 1) * den == h * den - den;
    } else {
      MulMono(h, low, den);
      if low > h {
        MulMono(h + 1, low, den);
        assert (h + 1) * den == h * den + den;
      }
    }
  }
}
