// softfloat_roundPackToF128 and softfloat_normRoundPackToF128: the packed
// result is the exact value correctly rounded, subnormals and overflow
// included.
module RoundPack {
  import opened Arith
  import opened Words
  import opened Rounding
  import opened Jamming
  import opened Binary128

  // n / d has integer part sig, and its fraction lies where extra / 2^64 does.
  ghost predicate Represents(n: nat, d: nat, sig: nat, extra: U64)
  {
    d > 0 && sig * d <= n < sig * d + d && Place(n - sig * d, d) == Place(extra, W64)
  }

  function Pos(exp: int): nat { if exp >= 0 then exp else 0 }
  function Neg(exp: int): nat { if exp >= 0 then 0 else -exp }

  ghost function Num(n: nat, exp: int): nat {
    n * Pow2(Pos(exp))
  }

  ghost function Den(d: nat, exp: int): (r: nat)
    requires d > 0
    ensures r > 0
  {
    MulMono(1, Pow2(Neg(exp)), d);
    d * Pow2(Neg(exp))
  }

  function SignBits(sign: bool): nat {
    if sign then P127 else 0
  }

  // n / d * 2^exp rounded to binary128.
  ghost function RoundScaled(mode: Mode, sign: bool, n: nat, d: nat, exp: int): Rounded
    requires d > 0
  {
    RoundF128(mode, sign, Num(n, exp), Den(d, exp))
  }

  // The packed word and the flags are those of the rounded value.
  predicate Packed(sign: bool, r: Rounded, z: U128, inexact: bool, overflow: bool, underflow: bool) {
    z.V() == SignBits(sign) + r.bits && inexact == r.inexact && overflow == r.overflow && underflow == r.underflow
  }

  // Moving k bits from the exponent to the significand keeps the ratio.
  lemma ShiftRatio(n: nat, d: nat, exp: int, k: nat) returns (j: nat)
    requires d > 0
    ensures j > 0 && Num(n * Pow2(k), exp - k) == Num(n, exp) * j && Den(d, exp - k) == Den(d, exp) * j
  {
    hide Pow2;
    hide Num;
    hide Den;
    ScaledParts(n, d, exp);
    ScaledParts(n * Pow2(k), d, exp - k);
    if exp >= k {
      ScalePow(n, k, exp - k, exp);
      return 1;
    } else if exp >= 0 {
      ScalePow(n, exp, k - exp, k);
      return Pow2(k - exp);
    } else {
      ScalePow(d, -exp, k, k - exp);
      return Pow2(k);
    }
  }

  // Moving k bits from the exponent to the denominator keeps it too.
  lemma DenRatio(n: nat, d: nat, exp: int, k: nat) returns (j: nat)
    requires d > 0
    ensures d * Pow2(k) > 0
    ensures j > 0 && Num(n, exp + k) == Num(n, exp) * j && Den(d * Pow2(k), exp + k) == Den(d, exp) * j
  {
    hide Pow2;
    hide Num;
    hide Den;
    MulMono(1, Pow2(k), d);
    ScaledParts(n, d, exp);
    ScaledParts(n, d * Pow2(k), exp + k);
    if exp >= 0 {
      ScalePow(n, exp, k, exp + k);
      return Pow2(k);
    } else if exp + k >= 0 {
      ScalePow(d, -exp, exp + k, k);
      return Pow2(exp + k);
    } else {
      ScalePow(d, k, -exp - k, -exp);
      return 1;
    }
  }

  lemma RoundScaledShift(mode: Mode, sign: bool, n: nat, d: nat, exp: int, k: nat)
    requires d > 0
    ensures RoundScaled(mode, sign, n * Pow2(k), d, exp - k) == RoundScaled(mode, sign, n, d, exp)
  {
    hide RoundF128;
    hide Num;
    hide Den;
    var j := ShiftRatio(n, d, exp, k);
    RoundF128Scaled(mode, sign, Num(n, exp), Den(d, exp), j);
  }

  lemma RoundScaledDen(mode: Mode, sign: bool, n: nat, d: nat, exp: int, k: nat)
    requires d > 0
    ensures d * Pow2(k) > 0
    ensures RoundScaled(mode, sign, n, d * Pow2(k), exp + k) == RoundScaled(mode, sign, n, d, exp)
  {
    hide RoundF128;
    hide Num;
    hide Den;
    var j := DenRatio(n, d, exp, k);
    RoundF128Scaled(mode, sign, Num(n, exp), Den(d, exp), j);
  }

  lemma ScalePow(n: int, a: nat, b: nat, c: nat)
    requires c == a + b
    ensures (n * Pow2(a)) * Pow2(b) == n * Pow2(c)
  {
    hide Pow2;
    Pow2Sum(a, b, c);
    AssociateNamed(n, Pow2(a), Pow2(b), Pow2(c));
  }

  lemma AssociateNamed(x: int, y: int, z: int, yz: int)
    requires yz == y * z
    ensures (x * y) * z == x * yz
  {
  }

  lemma ScaledParts(n: nat, d: nat, exp: int)
    requires d > 0
    ensures exp >= 0 ==> Num(n, exp) == n * Pow2(exp) && Den(d, exp) == d
    ensures exp < 0 ==> Num(n, exp) == n && Den(d, exp) == d * Pow2(-exp)
  {
    assert Pow2(0) == 1;
  }

  // Before overflow is considered, num / den rounds to exponent field e and
  // the significand sig, incremented or not according to p.
  ghost predicate RoundsTo(mode: Mode, sign: bool, num: nat, den: nat, e: nat, sig: nat, p: Position)
  {
    && den > 0
    && Unbounded(mode, sign, num, den) == e * P112 + RoundAt(mode, sign, sig, p)
    && (OnGrid(num, den) <==> p == Exact)
  }

  lemma PlaceOf(mode: Mode, sign: bool, n: nat, d: nat, sig: nat, f: nat)
    requires n == sig * d + f && f < d
    ensures RoundInt(mode, sign, n, d) == RoundAt(mode, sign, sig, Place(f, d))
    ensures n % d == 0 <==> Place(f, d) == Exact
  {
    DivModUnique(n, d, sig, f);
  }

  lemma NormalRounds(mode: Mode, sign: bool, n: nat, d: nat, exp: nat, sig: nat, extra: U64)
    requires Represents(n, d, sig, extra) && P112 <= sig < P113
    ensures RoundsTo(mode, sign, n * Pow2(exp), d, exp, sig, Place(extra, W64))
  {
    NormalScale(n, d, exp, sig);
    NormalParts(mode, sign, n, d, Pow2(exp), sig, n - sig * d);
    PlaceExact(n - sig * d, d);
  }

  lemma NormalParts(mode: Mode, sign: bool, n: nat, d: nat, p: nat, sig: nat, f: nat)
    requires n == sig * d + f && f < d && p > 0
    ensures d * p > 0
    ensures RoundInt(mode, sign, n * p, d * p) == RoundAt(mode, sign, sig, Place(f, d))
    ensures (n * p) % (d * p) == 0 <==> f == 0
  {
    MulMono(0, f, p);
    MulMonoStrict(f, d, p);
    assert n * p == sig * (d * p) + f * p by {
      assert (sig * d + f) * p == sig * (d * p) + f * p;
    }
    PlaceScale(f, d, p);
    PlaceOf(mode, sign, n * p, d * p, sig, f * p);
    if f > 0 {
      MulMono(1, f, p);
    }
  }

  lemma NormalScale(n: nat, d: nat, exp: nat, sig: nat)
    requires d > 0 && sig * d <= n < sig * d + d && P112 <= sig < P113
    ensures Scale(n * Pow2(exp), d) == exp
  {
    var p := Pow2(exp);
    MulMono(P112, sig, d);
    MulMono(sig + 1, P113, d);
    MulMonoStrict(n, P113 * d, p);
    MulMono(P112 * d, n, p);
    assert (P113 * d) * p == d * p * P113;
    assert (P112 * d) * p == d * p * P112;
    ScaleUnique(n * p, d, exp);
  }

  lemma ShiftedRounds(mode: Mode, sign: bool, n: nat, d: nat, k: nat, sig: U128, extra: U64)
    requires Represents(n, d, sig.V(), extra) && sig.V() < P113 && k > 0
    ensures var z := ShiftRightJam128Extra(sig, extra, k);
            RoundsTo(mode, sign, n, d * Pow2(k), 0, z.v.V(), Place(z.extra, W64)) && z.v.V() < P112
  {
    hide ShiftRightJam128Extra;
    var z := ShiftRightJam128Extra(sig, extra, k);
    ShiftRightJamIs(sig, extra, k);
    ShiftedParts(mode, sign, n, d, k, sig.V(), extra, z.v.V(), z.extra);
  }

  lemma ShiftedParts(mode: Mode, sign: bool, n: nat, d: nat, k: nat, sig: nat, extra: U64, hi: nat, extra': U64)
    requires Represents(n, d, sig, extra) && sig < P113 && k > 0
    requires 0 <= sig - hi * Pow2(k) < Pow2(k)
    requires Place(extra', W64) == Jam(sig - hi * Pow2(k), Pow2(k), extra != 0)
    ensures RoundsTo(mode, sign, n, d * Pow2(k), 0, hi, Place(extra', W64)) && hi < P112
  {
    var h, f := Pow2(k - 1), n - sig * d;
    var low := sig - hi * Pow2(k);
    assert Pow2(k) == 2 * h;
    StickyIs(f, d, extra);
    HalvedSmall(hi, h, sig);
    ShiftedScale(n, d, k, sig);
    var den := d * Pow2(k);
    assert den * Pow2(0) == den;
    hide Place;
    hide Jam;
    JamIs(n, d, sig, f, hi, low, h);
    PlaceExact(n % den, den);
  }

  lemma PlaceExact(r: nat, d: nat)
    requires r < d
    ensures Place(r, d) == Exact <==> r == 0
  {
  }

  lemma StickyIs(f: nat, d: nat, extra: U64)
    requires f < d && Place(f, d) == Place(extra, W64)
    ensures f != 0 <==> extra != 0
  {
  }

  lemma HalvedSmall(hi: nat, h: nat, sig: nat)
    requires h > 0 && hi * (2 * h) <= sig < P113
    ensures hi < P112
  {
    MulMono(1, h, 2 * hi);
    assert hi * (2 * h) == (2 * hi) * h;
  }

  lemma ShiftedScale(n: nat, d: nat, k: nat, sig: nat)
    requires d > 0 && n < sig * d + d && sig < P113
    ensures d * Pow2(k) > 0 && Scale(n, d * Pow2(k)) == 0
  {
    MulMono(1, Pow2(k), d);
    MulMono(sig + 1, P113, d);
    assert (sig + 1) * d == sig * d + d;
  }

  // The increment of the rounded significand, with the low bit cleared on a
  // tie in round-to-nearest-even.
  function DoIncrement(mode: Mode, sign: bool, extra: U64): bool {
    if mode.NearEven? || mode.NearMaxMag? then extra >= HALF64
    else mode == (if sign then Min else Max) && extra != 0
  }

  function Incremented(mode: Mode, sig: U128, extra: U64): U128 {
    var z := Add128(sig, U128(0, 1));
    U128(z.v64, if extra % HALF64 == 0 && mode.NearEven? && z.v0 % 2 == 1 then z.v0 - 1 else z.v0)
  }

  lemma IncrementIs(mode: Mode, sign: bool, sig: U128, extra: U64)
    requires sig.V() < P127
    ensures RoundAt(mode, sign, sig.V(), Place(extra, W64))
         == (if DoIncrement(mode, sign, extra) then Incremented(mode, sig, extra) else sig).V()
  {
    hide Add128;
    LowBit(sig);
    LowBit(Add128(sig, U128(0, 1)));
    assert Add128(sig, U128(0, 1)).V() == sig.V() + 1;
  }

  lemma LowBit(x: U128)
    ensures x.V() % 2 == x.v0 % 2
  {
  }

  method RoundPackToF128(sign: bool, exp: int, sig: U128, sigExtra: U64, mode: Mode, ghost n: nat, ghost d: nat)
    returns (z: U128, inexact: bool, overflow: bool, underflow: bool)
    requires Represents(n, d, sig.V(), sigExtra)
    requires P112 <= sig.V() < P113 || (n == 0 && exp <= 0x7FFD)
    ensures Packed(sign, RoundScaled(mode, sign, n, d, exp), z, inexact, overflow, underflow)
  {
    hide OnGrid;
    hide Pow2;
    hide Place;
    hide Scale;
    hide Num;
    hide Den;
    ScaledParts(n, d, exp);
    overflow, underflow := false, false;
    if exp < 0 {
      z, inexact, underflow := PackSubnormal(sign, exp, sig, sigExtra, mode, n, d);
    } else {
      ghost var e := if n == 0 then 0 else exp;
      ScaledRounds(mode, sign, n, d, exp, sig, sigExtra);
      if 0x7FFD < exp || (exp == 0x7FFD && sig.V() == P113 - 1 && DoIncrement(mode, sign, sigExtra)) {
        overflow, inexact := true, true;
        z := OverflowPacked(mode, sign);
      } else {
        z, inexact := FinishPack(sign, exp, sig, sigExtra, mode, n * Pow2(exp), d, e);
        if n != 0 {
          NormalNotTiny(mode, sign, n, d, exp, sig.V());
        }
      }
    }
  }

  lemma ScaledRounds(mode: Mode, sign: bool, n: nat, d: nat, exp: nat, sig: U128, sigExtra: U64)
    requires Represents(n, d, sig.V(), sigExtra)
    requires P112 <= sig.V() < P113 || (n == 0 && exp <= 0x7FFD)
    ensures RoundsTo(mode, sign, n * Pow2(exp), d, if n == 0 then 0 else exp, sig.V(), Place(sigExtra, W64))
    ensures n == 0 ==> sig.V() == 0 && sigExtra == 0
    ensures n != 0 ==> P112 <= sig.V() < P113
    ensures 0x7FFD < exp || (exp == 0x7FFD && sig.V() == P113 - 1 && DoIncrement(mode, sign, sigExtra))
         <==> Unbounded(mode, sign, n * Pow2(exp), d) >= INF
  {
    hide OnGrid;
    hide Scale;
    if n == 0 {
      ZeroRounds(mode, sign, d, sig, sigExtra, d);
    } else {
      NormalRounds(mode, sign, n, d, exp, sig.V(), sigExtra);
      IncrementIs(mode, sign, sig, sigExtra);
      OverflowIff(mode, sign, exp, sig, sigExtra);
    }
  }

  lemma OverflowIff(mode: Mode, sign: bool, exp: nat, sig: U128, extra: U64)
    requires P112 <= sig.V() < P113
    ensures 0x7FFD < exp || (exp == 0x7FFD && sig.V() == P113 - 1 && DoIncrement(mode, sign, extra))
         <==> exp * P112 + RoundAt(mode, sign, sig.V(), Place(extra, W64)) >= INF
  {
    if sig.V() == P113 - 1 {
      assert sig.V() % 2 == 1;
    }
  }

  // The branch for exponents below zero: shift, then round at exponent 0.
  method PackSubnormal(sign: bool, exp: int, sig: U128, sigExtra: U64, mode: Mode, ghost n: nat, ghost d: nat)
    returns (z: U128, inexact: bool, underflow: bool)
    requires Represents(n, d, sig.V(), sigExtra) && sig.V() < P113 && exp < 0
    ensures Packed(sign, RoundScaled(mode, sign, n, d, exp), z, inexact, false, underflow)
  {
    hide ShiftRightJam128Extra;
    hide OnGrid;
    hide Pow2;
    hide Place;
    hide Scale;
    hide Num;
    hide Den;
    ScaledParts(n, d, exp);
    ShiftedRounds(mode, sign, n, d, -exp, sig, sigExtra);
    var isTiny := exp < -1 || !DoIncrement(mode, sign, sigExtra)
                  || Lt128(sig, U128(0x1_FFFF_FFFF_FFFF, 0xFFFF_FFFF_FFFF_FFFF));
    TinyIff(mode, sign, n, d, -exp, sig, sigExtra);
    var shifted := ShiftRightJam128Extra(sig, sigExtra, -exp);
    underflow := isTiny && shifted.extra != 0;
    PlaceExact(shifted.extra, W64);
    z, inexact := FinishPack(sign, 0, shifted.v, shifted.extra, mode, n, d * Pow2(-exp), 0);
  }

  // The test of the code, made on the significand before it is shifted.
  lemma TinyIff(mode: Mode, sign: bool, n: nat, d: nat, k: nat, sig: U128, extra: U64)
    requires Represents(n, d, sig.V(), extra) && sig.V() < P113 && k > 0
    ensures d * Pow2(k) > 0
    ensures Tiny(mode, sign, n, d * Pow2(k)) <==> k > 1 || !DoIncrement(mode, sign, extra) || sig.V() < P113 - 1
  {
    hide Place;
    hide RoundInt;
    var h := Pow2(k - 1);
    MulMono(1, h, d);
    MulMono(1, Pow2(k), d);
    HalfDen(d, h);
    RoundIntScale(mode, sign, n, d * h, 2);
    if k == 1 {
      PlaceOf(mode, sign, n, d, sig.V(), n - sig.V() * d);
      IncrementIs(mode, sign, sig, extra);
      TopIncrement(mode, sign, sig, extra);
      assert d * 1 == d;
    } else {
      FarBelow(mode, sign, n, d, h, Pow2(k - 2), sig.V());
    }
  }

  lemma HalfDen(d: nat, h: nat)
    ensures (d * h) * 2 == d * (2 * h)
  {
  }

  lemma FarBelow(mode: Mode, sign: bool, n: nat, d: nat, h: nat, g: nat, sig: nat)
    requires n < sig * d + d && sig < P113 && h == 2 * g && g > 0 && d > 0
    ensures d * h > 0 && RoundInt(mode, sign, n, d * h) <= P112
  {
    hide RoundInt;
    MulMono(1, g, 2 * d);
    assert d * h == g * (2 * d);
    MulMono(sig + 1, P113, d);
    assert (sig + 1) * d == sig * d + d;
    RoundIntRange(mode, sign, n, d * h, P112, 0);
  }

  lemma TopIncrement(mode: Mode, sign: bool, sig: U128, extra: U64)
    requires sig.V() < P113
    ensures (if DoIncrement(mode, sign, extra) then Incremented(mode, sig, extra) else sig).V() < P113
       <==> !DoIncrement(mode, sign, extra) || sig.V() < P113 - 1
  {
    hide Add128;
    assert Add128(sig, U128(0, 1)).V() == sig.V() + 1;
    LowBit(Add128(sig, U128(0, 1)));
  }

  lemma NormalNotTiny(mode: Mode, sign: bool, n: nat, d: nat, exp: nat, sig: nat)
    requires d > 0 && sig * d <= n && P112 <= sig
    ensures !Tiny(mode, sign, n * Pow2(exp), d)
  {
    var x := n * Pow2(exp);
    MulMono(P112, sig, d);
    MulMono(1, Pow2(exp), n);
    assert 2 * x < d * (2 * x + 1) by {
      MulMono(1, d, 2 * x + 1);
    }
    RoundIntRange(mode, sign, 2 * x, d, 2 * x + 1, P113);
  }

  lemma ZeroRounds(mode: Mode, sign: bool, d: nat, sig: U128, extra: U64, den: nat)
    requires Represents(0, d, sig.V(), extra) && den > 0
    ensures sig.V() == 0 && extra == 0
    ensures RoundsTo(mode, sign, 0, den, 0, 0, Exact)
  {
    if sig.V() > 0 {
      MulMono(1, sig.V(), d);
    }
    assert Scale(0, den) == 0;
    assert den * Pow2(0) == den;
    PlaceOf(mode, sign, 0, den, 0, 0);
  }

  method OverflowPacked(mode: Mode, sign: bool) returns (z: U128)
    ensures z.V() == SignBits(sign) + OverflowTo(mode, sign)
  {
    if mode.NearEven? || mode.NearMaxMag? || mode == (if sign then Min else Max) {
      z := Pack(sign, 0x7FFF, U128(0, 0));
    } else {
      z := Pack(sign, 0x7FFE, U128(0xFFFF_FFFF_FFFF, 0xFFFF_FFFF_FFFF_FFFF));
    }
  }

  method FinishPack(sign: bool, exp0: nat, sig0: U128, sigExtra: U64, mode: Mode,
                    ghost num: nat, ghost den: nat, ghost e: nat)
    returns (z: U128, inexact: bool)
    requires RoundsTo(mode, sign, num, den, e, sig0.V(), Place(sigExtra, W64))
    requires e == exp0 || (e == 0 && sig0.V() == 0 && sigExtra == 0)
    requires e > 0 ==> sig0.V() > 0
    requires sig0.V() < P113 && Unbounded(mode, sign, num, den) < INF
    ensures var r := RoundF128(mode, sign, num, den); Packed(sign, r, z, inexact, false, r.underflow)
    ensures inexact == (sigExtra != 0)
  {
    hide Place;
    hide Add128;
    hide OnGrid;
    hide Scale;
    hide Pow2;
    var exp, sig := exp0, sig0;
    inexact := sigExtra != 0;
    PlaceExact(sigExtra, W64);
    IncrementIs(mode, sign, sig, sigExtra);
    if DoIncrement(mode, sign, sigExtra) {
      sig := Incremented(mode, sig, sigExtra);
    } else if sig.v64 == 0 && sig.v0 == 0 {
      exp := 0;
    }
    PackIs(sign, exp, sig);
    z := Pack(sign, exp, sig);
  }
}
