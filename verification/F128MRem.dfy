// The digit loop of f128M_rem on arrays of words: the same remainder, with
// significands 13 bits further up, so close to the sign bit that the last
// digit needs a sharper bound.
module F128MRem {
  import opened Arith
  import opened Words
  import opened Recurrence
  import opened Remainder
  import opened WordArray

  const P125: nat := 0x2000_0000_0000_0000_0000_0000_0000_0000
  // 2^94: the divisor's leading 32 bits are those above it
  const UNIT94: nat := 0x4000_0000_0000_0000_0000_0000

  predicate Normalized126(v: nat) { P125 <= v < 2 * P125 }

  // ---- the last digit ----

  // Both truncations of the estimate together, in the unit u.
  lemma SharpEstimate(rem: nat, b: nat, u: nat, q64: nat)
    requires Estimated(rem, b, u, q64)
    ensures rem * 0x2000_0000_0000_0000 + 0xFFFF_FFFF * b < q64 * b + 0x2_0000_0000_0000_0000 * u
  {
    var a := LeadingBits(b, u);
    var recip := ApproxRecip32(a);
    var r := rem / (4 * u);
    RemBits(rem, b, u, a);
    var ru, aru, au, prod := SharpSteps(r, a, u, b, rem, recip);
    SharpSum(rem, ru, aru, au, u, b, prod);
  }

  // The steps, with the products named.
  lemma SharpSteps(r: nat, a: nat, u: nat, b: nat, rem: nat, recip: nat) returns (ru: int, aru: int, au: int, prod: int)
    requires a < W32 && 0 < u && a * u <= b < a * u + u && 2 * r <= a
    requires 0x7FFF_FFFF_FFFF_FFFF < recip * a + a
    requires rem < r * (4 * u) + 4 * u
    ensures rem < 4 * ru + 4 * u && b < au + u && prod == (r * recip) * b
    ensures prod >= 0x8000_0000_0000_0000 * ru - aru
    ensures 0x8000_0000_0000_0000 * u + aru + 0xFFFF_FFFF * (au + u) <= 0x2_0000_0000_0000_0000 * u
  {
    ru, aru, au, prod := r * u, (a * r) * u, a * u, (r * recip) * b;
    SharpLow(r, a, u, b, recip);
    SharpHigh(r, a, u);
    Quadruple(r, u);
  }

  lemma SharpLow(r: nat, a: nat, u: nat, b: nat, recip: nat)
    requires a * u <= b && 0x7FFF_FFFF_FFFF_FFFF < recip * a + a
    ensures (r * recip) * b >= 0x8000_0000_0000_0000 * (r * u) - (a * r) * u
  {
    SharpProduct(r, a, u, recip);
    ScaleUp(r * recip, a * u, b);
  }

  lemma SharpHigh(r: nat, a: nat, u: nat)
    requires a < W32 && 2 * r <= a
    ensures 0x8000_0000_0000_0000 * u + (a * r) * u + 0xFFFF_FFFF * (a * u + u) <= 0x2_0000_0000_0000_0000 * u
  {
    SharpCoefficient(r, a);
    SharpScaled(r, a, u);
  }

  lemma Quadruple(r: nat, u: nat)
    ensures r * (4 * u) == 4 * (r * u)
  {
  }

  lemma ScaleUp(c: nat, x: int, y: int)
    requires x <= y
    ensures c * x <= c * y
  {
  }

  lemma SharpScaled(r: nat, a: nat, u: nat)
    requires 0x8000_0000_0000_0000 + a * r + 0xFFFF_FFFF * (a + 1) <= 0x2_0000_0000_0000_0000
    ensures 0x8000_0000_0000_0000 * u + (a * r) * u + 0xFFFF_FFFF * (a * u + u) <= 0x2_0000_0000_0000_0000 * u
  {
    var c := a * r;
    MulMono(0x8000_0000_0000_0000 + c + 0xFFFF_FFFF * (a + 1), 0x2_0000_0000_0000_0000, u);
    Distribute(0x8000_0000_0000_0000 + c, 0xFFFF_FFFF * (a + 1), u);
    Distribute(0x8000_0000_0000_0000, c, u);
    Associate(0xFFFF_FFFF, a + 1, u);
    Distribute(a, 1, u);
  }

  lemma SharpSum(rem: nat, ru: int, aru: int, au: int, u: nat, b: nat, prod: int)
    requires rem < 4 * ru + 4 * u && b < au + u
    requires prod >= 0x8000_0000_0000_0000 * ru - aru
    requires 0x8000_0000_0000_0000 * u + aru + 0xFFFF_FFFF * (au + u) <= 0x2_0000_0000_0000_0000 * u
    ensures rem * 0x2000_0000_0000_0000 + 0xFFFF_FFFF * b < prod + 0x2_0000_0000_0000_0000 * u
  {
  }

  lemma SharpProduct(r: nat, a: nat, u: nat, recip: nat)
    requires 0x7FFF_FFFF_FFFF_FFFF < recip * a + a
    ensures (r * recip) * (a * u) >= 0x8000_0000_0000_0000 * (r * u) - (a * r) * u
  {
    assert (r * recip) * (a * u) == (recip * a) * (r * u);
    MulMono(0x8000_0000_0000_0000 - a, recip * a, r * u);
    assert (0x8000_0000_0000_0000 - a) * (r * u) == 0x8000_0000_0000_0000 * (r * u) - a * (r * u);
    assert a * (r * u) == (a * r) * u;
  }

  lemma SharpCoefficient(r: nat, a: nat)
    requires a < W32 && 2 * r <= a
    ensures 0x8000_0000_0000_0000 + a * r + 0xFFFF_FFFF * (a + 1) <= 0x2_0000_0000_0000_0000
  {
    MulMono(2 * r, 0xFFFF_FFFF, a);
    MulMono(a, 0xFFFF_FFFF, 0xFFFF_FFFF);
    assert (2 * r) * a == 2 * (a * r);
  }

  // The last partial remainder stays below 2^127 although it may exceed twice
  // the divisor.
  lemma LastSharp(rem: nat, b: nat, u: nat, q64: nat, t: nat)
    requires Estimated(rem, b, u, q64) && t <= 28
    ensures rem * Pow2(29 - t) < (q64 / W32) / Pow2(t) * b + 2 * (W32 * u)
  {
    assert Pow2(t) * Pow2(29 - t) == 0x2000_0000 by {
      Pow2Add(t, 29 - t);
      Pow2Small();
    }
    SharpEstimate(rem, b, u, q64);
    Q64Small(rem, b, u, q64);
    SharpAt(rem, b, u, q64, Pow2(t), Pow2(29 - t));
  }

  lemma SharpAt(rem: nat, b: nat, u: nat, q64: nat, p: nat, s: nat)
    requires p > 0 && p * s == 0x2000_0000 && q64 < W64 && b < W32 * u
    requires rem * 0x2000_0000_0000_0000 + 0xFFFF_FFFF * b < q64 * b + 0x2_0000_0000_0000_0000 * u
    ensures rem * s < (q64 / W32) / p * b + 2 * (W32 * u)
  {
    var q, m := (q64 / W32) / p, p * W32;
    TruncatedFloor(q64, p);
    ScaleRem(rem, p, s);
    SharpFloor(q64, q, m, b);
    SharpCompare(rem * s, q * b, b, u, p, m, rem * 0x2000_0000_0000_0000, q64 * b);
  }

  lemma SharpFloor(q64: nat, q: nat, m: nat, b: nat)
    requires q64 < q * m + m
    ensures q64 * b <= (q * b) * m + (m - 1) * b
  {
    MulMono(q64, q * m + m - 1, b);
    assert (q * m + (m - 1)) * b == (q * b) * m + (m - 1) * b;
  }

  lemma SharpCompare(x: nat, qb: nat, b: nat, u: nat, p: nat, m: nat, r61: nat, q64b: nat)
    requires p > 0 && m == p * W32 && b < W32 * u && r61 == x * m
    requires r61 + 0xFFFF_FFFF * b < q64b + 0x2_0000_0000_0000_0000 * u
    requires q64b <= qb * m + (m - 1) * b
    ensures x < qb + 2 * (W32 * u)
  {
    var c := W32 * u;
    MulMono(b, c, m - W32);
    assert (m - 1) * b == (m - W32) * b + 0xFFFF_FFFF * b;
    assert (m - W32) * c == m * c - W32 * c;
    assert W32 * c == W64 * u;
    MulMono(1, p, W32 * c);
    assert p * (W32 * c) == m * c;
    assert (qb + 2 * c) * m == qb * m + 2 * (m * c);
    MulCancel(x, qb + 2 * c, m);
  }

  // ---- words ----

  lemma TopWord(s: seq<U32>)
    requires |s| == 4
    ensures Joined(s).SignBit() <==> s[3] >= 0x8000_0000
    ensures s[3] == Joined(s).v64 / W32
  {
    DivModUnique(Joined(s).v64, W32, s[3], s[2]);
  }

  // What the estimate reads: the top word of the remainder, and 32 bits of the
  // divisor's upper half from bit 30 on.
  lemma WordBits(rem: U128, x: U128)
    requires Normalized126(x.V()) && rem.V() < 2 * x.V()
    ensures 0x8000_0000 <= x.v64 / 0x4000_0000 < W32 && rem.v64 / W32 < W32
    ensures Estimated(rem.V(), x.V(), UNIT94, rem.v64 / W32 * ApproxRecip32(x.v64 / 0x4000_0000))
    ensures rem.v64 / W32 * ApproxRecip32(x.v64 / 0x4000_0000) < 0x8000_0000_0000_0000
  {
    hide ApproxRecip32;
    hide Estimated;
    TopBits(x, 0x4000_0000);
    TopBits(rem, W32);
    EstimateFrom(rem.V(), x.V(), UNIT94, rem.v64 / W32, x.v64 / 0x4000_0000);
  }

  // A word result that is right modulo 2^128 is right as a signed integer in
  // range.
  lemma Exactly(z: U128, x: int)
    requires z.V() == x % W128 && -TOP128 <= x < TOP128
    ensures z.Signed() == x
  {
    SignedExact(z, x);
  }

  // ---- subtracting until negative, with the two buffers changing places ----

  method SelectRemM(x: array<U32>, rem0: array<U32>, alt0: array<U32>, q0: U32, ghost b: int, ghost a: int,
                    ghost m: int)
    returns (rem: array<U32>, altRem: array<U32>, q: U32)
    requires x.Length == 4 && rem0.Length == 4 && alt0.Length == 4 && rem0 != alt0 && x != rem0 && x != alt0
    requires b == Joined(x[..]).V() && 0 < b < 4 * P125 && 0 <= Joined(rem0[..]).Signed() < 3 * b
    requires q0 < 0x8000_0000 && Joined(rem0[..]).Signed() == Left(a, m + q0, b)
    modifies rem0, alt0
    ensures {rem, altRem} == {rem0, alt0} && rem != altRem
    ensures Joined(rem[..]).Signed() == Left(a, m + q, b) && -b <= Joined(rem[..]).Signed() < 0
    ensures Joined(altRem[..]).Signed() == Joined(rem[..]).Signed() + b && q <= q0 + 3
  {
    hide Left;
    hide Joined;
    rem, altRem, q := rem0, alt0, q0;
    while true
      invariant {rem, altRem} == {rem0, alt0} && rem != altRem && q0 <= q <= q0 + 2
      invariant 0 <= Joined(rem[..]).Signed() == Left(a, m + q, b)
      invariant Joined(rem[..]).Signed() < if q == q0 then 3 * b else if q == q0 + 1 then 2 * b else b
      invariant b == Joined(x[..]).V()
      decreases q0 + 2 - q
    {
      ghost var r := Joined(rem[..]).Signed();
      LeftNext(a, m + q, b);
      assert m + q + 1 == m + (q + 1);
      q := q + 1;
      var newRem := altRem;
      SubM(rem, x, newRem);
      Exactly(Joined(newRem[..]), r - b);
      altRem, rem := rem, newRem;
      TopWord(rem[..]);
      if rem[3] >= 0x8000_0000 {
        break;
      }
    }
  }

  // The choice between the last two candidates; their sum goes where the
  // divisor was.
  method ChooseRemM(x: array<U32>, rem0: array<U32>, altRem: array<U32>, q: U32, ghost b: int, ghost a: int,
                    ghost n: int)
    returns (rem: array<U32>, negate: bool)
    requires x.Length == 4 && rem0.Length == 4 && altRem.Length == 4 && x != rem0 && x != altRem && rem0 != altRem
    requires 0 < b < 4 * P125 && Joined(rem0[..]).Signed() == Left(a, n, b)
             && Joined(altRem[..]).Signed() == Joined(rem0[..]).Signed() + b
    requires -b <= Joined(rem0[..]).Signed() < 0
    requires n % 2 == q % 2 || 2 * Joined(rem0[..]).Signed() > -b
    modifies x, rem0, altRem
    ensures rem == rem0 || rem == altRem
    ensures Joined(rem[..]).V() == Abs(IeeeRem(a, b)) && negate == (IeeeRem(a, b) < 0)
  {
    hide IeeeRem;
    hide Left;
    hide Joined;
    ghost var r := Joined(rem0[..]).Signed();
    rem := rem0;
    AddM(rem, altRem, x);
    SignedSum(Joined(rem0[..]), Joined(altRem[..]), Joined(x[..]));
    TopWord(x[..]);
    WordsZero(x[..]);
    LeftNext(a, n - 1, b);
    var wordMeanRem := x[3];
    if wordMeanRem >= 0x8000_0000 || (wordMeanRem == 0 && q % 2 == 1 && x[0] == 0 && x[2] == 0 && x[1] == 0) {
      rem := altRem;
      RemainderUnique(a, b, n - 1, r + b);
    } else {
      RemainderUnique(a, b, n, r);
    }
    TopWord(rem[..]);
    negate := rem[3] >= 0x8000_0000;
    ghost var before := Joined(rem[..]);
    if negate {
      NegXM(rem);
      Negated(before, Joined(rem[..]));
    }
  }

  lemma WordsZero(s: seq<U32>)
    requires |s| == 4
    ensures s[0] == 0 && s[1] == 0 && s[2] == 0 && s[3] == 0 <==> Joined(s).V() == 0
  {
  }

  lemma SignedSum(x: U128, y: U128, z: U128)
    requires z.V() == (x.V() + y.V()) % W128 && -TOP128 <= x.Signed() + y.Signed() < TOP128
    ensures z.Signed() == x.Signed() + y.Signed() && (z.Signed() == 0 <==> z.V() == 0)
  {
    ModShift(x.Signed() + y.Signed(), (if x.SignBit() then 1 else 0) + (if y.SignBit() then 1 else 0));
    SignedExact(z, x.Signed() + y.Signed());
  }

  lemma Negated(x: U128, z: U128)
    requires x.SignBit() && z.V() == (W128 - x.V()) % W128
    ensures z.V() == -x.Signed()
  {
    DivModUnique(W128 - x.V(), W128, 0, W128 - x.V());
  }

  // ---- the digits ----

  method RemDigitM(x: array<U32>, rem: array<U32>, q64: U64, ghost b: nat) returns (ghost d: int)
    requires x.Length == 4 && rem.Length == 4 && x != rem && b == Joined(x[..]).V() && Normalized126(b)
    requires Estimated(Joined(rem[..]).V(), b, UNIT94, q64) && q64 < 0x8000_0000_0000_0000
    modifies rem
    ensures Joined(rem[..]).V() < 2 * b
    ensures Joined(rem[..]).V() == old(Joined(rem[..]).V()) * 0x2000_0000 - d * b
  {
    hide Joined;
    hide Estimated;
    ghost var r := Joined(rem[..]).V();
    RoundedDigit(r, b, UNIT94, q64);
    var q: U32 := (q64 + 0x8000_0000) / W32;
    assert Pow2(29) == 0x2000_0000 by { Pow2Small(); }
    Commute(b, q);
    RemStepMBy32(rem, 29, x, q, rem);
    Exactly(Joined(rem[..]), r * 0x2000_0000 - q * b);
    TopWord(rem[..]);
    d := q;
    if rem[3] >= 0x8000_0000 {
      ghost var z := Joined(rem[..]);
      AddM(rem, x, rem);
      AddedBack(z, b, Joined(rem[..]));
      d := q as int - 1;
      Distribute(q, -1, b);
    }
  }

  lemma AddedBack(z: U128, b: nat, z': U128)
    requires z.SignBit() && 0 <= z.Signed() + b < W128 && z'.V() == (z.V() + b) % W128
    ensures z'.V() == z.Signed() + b
  {
    DivModUnique(z.V() + b, W128, 1, z.Signed() + b);
  }

  // (uint64_t) rem[hi] * recip32
  method EstimateM(x: array<U32>, rem: array<U32>, recip32: U32) returns (q64: U64)
    requires x.Length == 4 && rem.Length == 4
    requires Normalized126(Joined(x[..]).V()) && Joined(rem[..]).V() < 2 * Joined(x[..]).V()
    requires 0x8000_0000 <= Joined(x[..]).v64 / 0x4000_0000 < W32
             && recip32 == ApproxRecip32(Joined(x[..]).v64 / 0x4000_0000)
    ensures Estimated(Joined(rem[..]).V(), Joined(x[..]).V(), UNIT94, q64) && q64 < 0x8000_0000_0000_0000
  {
    hide Joined;
    hide Estimated;
    hide ApproxRecip32;
    WordBits(Joined(rem[..]), Joined(x[..]));
    TopWord(rem[..]);
    var wordRem := rem[3];
    assert wordRem * recip32 == Joined(rem[..]).v64 / W32 * ApproxRecip32(Joined(x[..]).v64 / 0x4000_0000);
    q64 := wordRem * recip32;
  }

  method RemDigitsM(x: array<U32>, rem1: array<U32>, rem2: array<U32>, expDiff0: int)
    returns (rem: array<U32>, negate: bool)
    requires x.Length == 4 && rem1.Length == 4 && rem2.Length == 4 && x != rem1 && x != rem2 && rem1 != rem2
    requires Normalized126(Joined(x[..]).V()) && Normalized126(Joined(rem1[..]).V()) && expDiff0 >= 1
    modifies x, rem1, rem2
    ensures rem == rem1 || rem == rem2
    ensures var e := IeeeRem(old(Joined(rem1[..]).V()) * Pow2(expDiff0), old(Joined(x[..]).V()));
            Joined(rem[..]).V() == Abs(e) && negate == (e < 0)
  {
    hide IeeeRem;
    hide Estimated;
    hide Joined;
    hide Pow2;
    hide ApproxRecip32;
    ghost var a, b := Joined(rem1[..]).V(), Joined(x[..]).V();
    ghost var n := 0;
    DivisorWords(x[..]);
    WordBits(Joined(rem1[..]), Joined(x[..]));
    var recip32 := ApproxRecip32((x[3] * W32 + x[2]) / 0x4000_0000);
    var expDiff := expDiff0 - 30;
    var q64: U64;
    assert Pow2(0) == 1 && Pow2(29) == 0x2000_0000 by { Pow2Small(); }
    while true
      invariant -29 <= expDiff <= expDiff0 - 30
      invariant Joined(x[..]).V() == b && Joined(rem1[..]).V() < 2 * b
      invariant a * Pow2(expDiff0 - 30 - expDiff) == n * b + Joined(rem1[..]).V()
      decreases expDiff + 30
    {
      ghost var r := Joined(rem1[..]).V();
      q64 := EstimateM(x, rem1, recip32);
      if expDiff < 0 {
        break;
      }
      ghost var d := RemDigitM(x, rem1, q64, b);
      Advance(a, expDiff0 - 30 - expDiff, n, b, r, 29, d, Joined(rem1[..]).V());
      n := n * Pow2(29) + d;
      expDiff := expDiff - 29;
    }
    rem, negate := RemLastM(x, rem1, rem2, q64, expDiff, a, b, n, expDiff0 - 30 - expDiff);
  }

  lemma DivisorWords(s: seq<U32>)
    requires |s| == 4
    ensures s[3] * W32 + s[2] == Joined(s).v64
  {
  }

  method RemLastM(x: array<U32>, rem1: array<U32>, rem2: array<U32>, q64: U64, expDiff: int,
                  ghost a: nat, ghost b: nat, ghost n: int, ghost k: nat) returns (rem: array<U32>, negate: bool)
    requires x.Length == 4 && rem1.Length == 4 && rem2.Length == 4 && x != rem1 && x != rem2 && rem1 != rem2
    requires b == Joined(x[..]).V() && Normalized126(b) && -29 <= expDiff < 0
    requires Estimated(Joined(rem1[..]).V(), b, UNIT94, q64) && a * Pow2(k) == n * b + Joined(rem1[..]).V()
    modifies x, rem1, rem2
    ensures rem == rem1 || rem == rem2
    ensures var e := IeeeRem(a * Pow2(k + expDiff + 30), b); Joined(rem[..]).V() == Abs(e) && negate == (e < 0)
  {
    hide IeeeRem;
    hide Estimated;
    hide Joined;
    hide Pow2;
    hide Left;
    ghost var y, m := a * Pow2(k + expDiff + 30), n * Pow2(expDiff + 30);
    var q := LastDigitM(x, rem1, q64, expDiff, a, b, n, k, y, m);
    TopWord(rem1[..]);
    if rem1[3] >= 0x8000_0000 {
      AddM(rem1, x, rem2);
      AddedBack(Joined(rem1[..]), b, Joined(rem2[..]));
      Positive(Joined(rem2[..]));
      EvenPlus(m, q);
      rem, negate := ChooseRemM(x, rem1, rem2, q, b, y, m + q);
    } else {
      var altRem;
      rem, altRem, q := SelectRemM(x, rem1, rem2, q, b, y, m);
      EvenPlus(m, q);
      rem, negate := ChooseRemM(x, rem, altRem, q, b, y, m + q);
    }
  }

  lemma EvenPlus(m: int, q: int)
    requires m % 2 == 0
    ensures (m + q) % 2 == q % 2
  {
  }

  // The last, shorter digit.
  method LastDigitM(x: array<U32>, rem1: array<U32>, q64: U64, expDiff: int,
                    ghost a: nat, ghost b: nat, ghost n: int, ghost k: nat, ghost y: nat, ghost m: int) returns (q: U32)
    requires x.Length == 4 && rem1.Length == 4 && x != rem1
    requires b == Joined(x[..]).V() && Normalized126(b) && -29 <= expDiff < 0
    requires Estimated(Joined(rem1[..]).V(), b, UNIT94, q64) && a * Pow2(k) == n * b + Joined(rem1[..]).V()
    requires y == a * Pow2(k + expDiff + 30) && m == n * Pow2(expDiff + 30)
    modifies rem1
    ensures q < 0x8000_0000 && m % 2 == 0 && Joined(rem1[..]).Signed() == Left(y, m + q, b)
    ensures 0 < b + 2 * Joined(rem1[..]).Signed() < 6 * b
  {
    hide Estimated;
    hide Joined;
    hide Pow2;
    hide LastBits;
    ghost var s, r := expDiff + 30, Joined(rem1[..]).V();
    var t: nat := -expDiff - 1;
    LastRange(r, b, q64, t);
    q := LastBits(q64, t);
    Commute(b, q);
    RemStepMBy32(rem1, expDiff + 30, x, q, rem1);
    ghost var r1 := r * Pow2(s) - q * b;
    Exactly(Joined(rem1[..]), r1);
    Advance(a, k, n, b, r, s, q, r1);
    EvenScale(n, s);
  }

  // The last digit leaves a remainder in (-b/2, 5b/2) that also fits a signed
  // 128-bit integer.
  lemma LastRange(r: nat, b: nat, q64: U64, t: nat)
    requires Normalized126(b) && Estimated(r, b, UNIT94, q64) && t <= 28
    ensures var q := LastBits(q64, t);
            && q < 0x8000_0000
            && 2 * (q * b) < 2 * (r * Pow2(29 - t)) + b && 2 * (r * Pow2(29 - t)) < 2 * (q * b) + 5 * b
            && r * Pow2(29 - t) < q * b + TOP128
  {
    hide Pow2;
    TruncatedDigit(r, b, UNIT94, q64, t);
    LastSharp(r, b, UNIT94, q64, t);
    Q64Small(r, b, UNIT94, q64);
    DivShrinks(q64 / W32, Pow2(t));
  }

  // f128M_rem on significands: the magnitude of the remainder in one of the
  // two buffers, and whether the sign of the dividend is to be flipped.
  method F128MRemSig(x: array<U32>, rem1: array<U32>, rem2: array<U32>, expDiff: int)
    returns (rem: array<U32>, negate: bool)
    requires x.Length == 4 && rem1.Length == 4 && rem2.Length == 4 && x != rem1 && x != rem2 && rem1 != rem2
    requires Normalized126(Joined(x[..]).V()) && Normalized126(Joined(rem1[..]).V()) && expDiff >= -1
    modifies x, rem1, rem2
    ensures rem == rem1 || rem == rem2
    ensures var a, b := old(Joined(rem1[..]).V()), old(Joined(x[..]).V());
            var e := if expDiff >= 0 then IeeeRem(a * Pow2(expDiff), b) else IeeeRem(a, 2 * b);
            Joined(rem[..]).V() == Abs(e) && negate == (e < 0)
  {
    hide IeeeRem;
    hide Joined;
    hide Pow2;
    if expDiff >= 1 {
      rem, negate := RemDigitsM(x, rem1, rem2, expDiff);
    } else {
      rem, negate := RemShortM(x, rem1, rem2, expDiff);
    }
  }

  // Exponents that are equal, or one apart.
  method RemShortM(x: array<U32>, rem1: array<U32>, rem2: array<U32>, expDiff: int)
    returns (rem: array<U32>, negate: bool)
    requires x.Length == 4 && rem1.Length == 4 && rem2.Length == 4 && x != rem1 && x != rem2 && rem1 != rem2
    requires Normalized126(Joined(x[..]).V()) && Normalized126(Joined(rem1[..]).V()) && -1 <= expDiff <= 0
    modifies x, rem1, rem2
    ensures rem == rem1 || rem == rem2
    ensures var a, b := old(Joined(rem1[..]).V()), old(Joined(x[..]).V());
            var e := if expDiff == 0 then IeeeRem(a * Pow2(0), b) else IeeeRem(a, 2 * b);
            Joined(rem[..]).V() == Abs(e) && negate == (e < 0)
  {
    hide IeeeRem;
    hide Joined;
    hide Pow2;
    hide Left;
    ghost var a, b := Joined(rem1[..]).V(), Joined(x[..]).V();
    assert Pow2(0) == 1 by { Pow2Small(); }
    var q: U32 := 0;
    ghost var c := b;
    LeftNone(a, b);
    if expDiff != 0 {
      c := 2 * b;
      AddM(x, x, x);
      Small(2 * b);
      LeftNone(a, c);
    } else {
      var le := LessEqual(x, rem1);
      if le {
        q := 1;
        SubM(rem1, x, rem1);
        Small(a - b);
      }
    }
    Positive(Joined(rem1[..]));
    var altRem;
    rem, altRem, q := SelectRemM(x, rem1, rem2, q, c, a, 0);
    rem, negate := ChooseRemM(x, rem, altRem, q, c, a, q);
  }

  lemma Small(v: int)
    requires 0 <= v < W128
    ensures v % W128 == v
  {
  }

  lemma Positive(u: U128)
    ensures u.V() < TOP128 ==> u.Signed() == u.V()
  {
  }

  // softfloat_compare128M( a, b ) <= 0
  method LessEqual(a: array<U32>, b: array<U32>) returns (le: bool)
    requires a.Length == 4 && b.Length == 4
    ensures le == (Joined(a[..]).V() <= Joined(b[..]).V())
  {
    var index := 3;
    while true
      invariant 0 <= index <= 3 && forall j | index < j <= 3 :: a[j] == b[j]
      decreases index
    {
      if a[index] != b[index] {
        return a[index] < b[index];
      }
      if index == 0 {
        return true;
      }
      index := index - 1;
    }
  }

  // With the significands 13 bits further up than in f128_rem, the remainder
  // is 13 bits further up and otherwise the same.
  lemma FormsScale(a: nat, b: nat, expDiff: int)
    requires b > 0 && expDiff >= -1
    ensures expDiff >= 0 ==> IeeeRem((a * 0x2000) * Pow2(expDiff), b * 0x2000) == IeeeRem(a * Pow2(expDiff), b) * 0x2000
    ensures expDiff == -1 ==> IeeeRem(a * 0x2000, 2 * (b * 0x2000)) == IeeeRem(a, 2 * b) * 0x2000
  {
    hide IeeeRem;
    hide Pow2;
    if expDiff >= 0 {
      assert (a * 0x2000) * Pow2(expDiff) == (a * Pow2(expDiff)) * 0x2000;
      IeeeRemScale(a * Pow2(expDiff), b, 0x2000);
    } else {
      IeeeRemScale(a, 2 * b, 0x2000);
    }
  }
}
