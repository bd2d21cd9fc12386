// The x87 extended format, with an explicit integer bit, and rounding to its
// 64-bit significands: softfloat_roundPackToExtF80 and
// softfloat_normRoundPackToExtF80 at full precision.  Finite magnitudes are
// integers in units of 2^-16445.
module Extended80 {
  import opened Arith
  import opened Words
  import opened Rounding
  import opened Jamming
  import opened Binary128
  import opened RoundPack
  import opened Normalize

  type U16 = x: nat | x < 0x1_0000

  // sign and exponent field, and the significand with its integer bit
  datatype ExtF80 = ExtF80(signExp: U16, signif: U64)

  const INT_BIT: nat := 0x8000_0000_0000_0000
  const DEFAULT_NAN80: ExtF80 := ExtF80(0x7FFF, 0xC000_0000_0000_0000)
  // 1.0 in units of 2^-16445, the smallest subnormal
  const UNIT80_EXP: nat := 16445

  predicate Sign80(a: ExtF80) { a.signExp >= 0x8000 }
  function Exp80(a: ExtF80): (e: nat) ensures e < 0x8000 { a.signExp % 0x8000 }
  predicate Finite80(a: ExtF80) { Exp80(a) != 0x7FFF }
  predicate IsNaN80(a: ExtF80) { Exp80(a) == 0x7FFF && a.signif % INT_BIT != 0 }
  // softfloat_isSigNaNExtF80UI
  predicate IsSigNaN80(a: ExtF80) {
    Exp80(a) == 0x7FFF && a.signif / 0x4000_0000_0000_0000 % 2 == 0 && a.signif % 0x4000_0000_0000_0000 != 0
  }

  // The magnitude of any finite encoding, normalised or not.
  function Value80(a: ExtF80): nat {
    a.signif * Pow2(if Exp80(a) == 0 then 0 else Exp80(a) - 1)
  }

  function Pack80(sign: bool, exp: nat): U16
    requires exp <= 0x7FFF
  {
    (if sign then 0x8000 else 0) + exp
  }

  // ---- rounding ----

  // The magnitude of infinity, as the exponent field above 63 bits.
  const INF80: nat := 0x7FFF * 0x8000_0000_0000_0000
  // One unit here is 2^49 units of binary128, which has the same exponents.
  const P49: nat := 0x2_0000_0000_0000

  // The exponent field of the rounded result is that of binary128.
  function Scale80(num: nat, den: nat): nat
    requires den > 0
  {
    Scale(num * P49, den)
  }

  function Unbounded80(mode: Mode, sign: bool, num: nat, den: nat): nat
    requires den > 0
  {
    var e := Scale80(num, den);
    e * INT_BIT + RoundInt(mode, sign, num, den * Pow2(e))
  }

  predicate OnGrid80(num: nat, den: nat)
    requires den > 0
  {
    num % (den * Pow2(Scale80(num, den))) == 0
  }

  predicate Tiny80(mode: Mode, sign: bool, num: nat, den: nat)
    requires den > 0
  {
    RoundInt(mode, sign, 2 * num, den) < W64
  }

  function OverflowTo80(mode: Mode, sign: bool): nat {
    if mode.NearEven? || mode.NearMaxMag? || mode == (if sign then Min else Max) then INF80 else INF80 - 1
  }

  // num / den correctly rounded to 64 bits, and the flags.
  function RoundF80(mode: Mode, sign: bool, num: nat, den: nat): (r: Rounded)
    requires den > 0
    ensures r.bits <= INF80
  {
    var m := Unbounded80(mode, sign, num, den);
    if m < INF80 then Rounded(m, !OnGrid80(num, den), false, !OnGrid80(num, den) && Tiny80(mode, sign, num, den))
    else Rounded(OverflowTo80(mode, sign), true, true, false)
  }

  // A magnitude as exponent field and significand.
  function Encode80(sign: bool, bits: nat): (z: ExtF80)
    requires bits <= INF80
    ensures Sign80(z) == sign && (Finite80(z) <==> bits < INF80)
  {
    ExtF80(Pack80(sign, bits / INT_BIT), if bits < INT_BIT then bits else INT_BIT + bits % INT_BIT)
  }

  // A significand at spacing 2^e, the carry into the next exponent included.
  lemma Encode80Value(sign: bool, e: nat, m: nat)
    requires m <= W64 && (e > 0 ==> INT_BIT <= m) && e * INT_BIT + m < INF80
    ensures Value80(Encode80(sign, e * INT_BIT + m)) == m * Pow2(e)
  {
    hide Pow2;
    hide Encode80;
    hide Exp80;
    var bits := e * INT_BIT + m;
    Encode80Fields(sign, bits);
    if m < INT_BIT {
      assert bits == m && bits / INT_BIT == 0;
      assert Pow2(0) == 1 by { Pow2Small(); }
    } else if m < W64 {
      DivModUnique(bits, INT_BIT, e + 1, m - INT_BIT);
    } else {
      DivModUnique(bits, INT_BIT, e + 2, 0);
      Pow2Halve(e);
      assert INT_BIT * (2 * Pow2(e)) == W64 * Pow2(e);
    }
  }

  lemma Encode80Fields(sign: bool, bits: nat)
    requires bits < INF80
    ensures Exp80(Encode80(sign, bits)) == bits / INT_BIT
    ensures Encode80(sign, bits).signif == if bits < INT_BIT then bits else INT_BIT + bits % INT_BIT
  {
  }

  // What RoundF80 means, on the finest grid with at most 64 bits.
  lemma RoundF80Meets(mode: Mode, sign: bool, num: nat, den: nat)
    requires den > 0 && !RoundF80(mode, sign, num, den).overflow
    ensures var e := Scale80(num, den);
            var m := RoundInt(mode, sign, num, den * Pow2(e));
            && Value80(Encode80(sign, RoundF80(mode, sign, num, den).bits)) == m * Pow2(e)
            && Rounds(mode, sign, num, den * Pow2(e), m)
            && num < den * Pow2(e) * W64
            && (e > 0 ==> den * Pow2(e) * INT_BIT <= num)
  {
    hide Scale;
    var e := Scale80(num, den);
    var d := den * Pow2(e);
    MulMono(1, Pow2(e), den);
    ScaleIs(num * P49, den);
    RoundIntMeets(mode, sign, num, d);
    RoundIntRange(mode, sign, num, d, W64, if e > 0 then INT_BIT else 0);
    Encode80Value(sign, e, RoundInt(mode, sign, num, d));
  }

  lemma Scale80Is(num: nat, den: nat, e: nat)
    requires den > 0 && num < den * Pow2(e) * W64 && (e > 0 ==> den * Pow2(e) * INT_BIT <= num)
    ensures Scale80(num, den) == e
  {
    ScaleUnique(num * P49, den, e);
  }

  // Rounding depends on the ratio alone.
  lemma RoundF80Scaled(mode: Mode, sign: bool, num: nat, den: nat, k: nat)
    requires den > 0 && k > 0
    ensures den * k > 0 && RoundF80(mode, sign, num * k, den * k) == RoundF80(mode, sign, num, den)
  {
    hide Unbounded80;
    hide OnGrid80;
    hide Tiny80;
    UnboundedScaled80(mode, sign, num, den, k);
    TinyScaled80(mode, sign, num, den, k);
  }

  lemma TinyScaled80(mode: Mode, sign: bool, num: nat, den: nat, k: nat)
    requires den > 0 && k > 0
    ensures den * k > 0 && Tiny80(mode, sign, num * k, den * k) == Tiny80(mode, sign, num, den)
  {
    hide RoundInt;
    RoundIntScale(mode, sign, 2 * num, den, k);
    assert 2 * num * k == 2 * (num * k);
  }

  lemma UnboundedScaled80(mode: Mode, sign: bool, num: nat, den: nat, k: nat)
    requires den > 0 && k > 0
    ensures den * k > 0 && Unbounded80(mode, sign, num * k, den * k) == Unbounded80(mode, sign, num, den)
    ensures OnGrid80(num * k, den * k) == OnGrid80(num, den)
  {
    hide RoundInt;
    hide Pow2;
    hide Scale;
    MulMono(1, k, den);
    ScaleScaled(num * P49, den, k);
    assert num * P49 * k == num * k * P49;
    var e := Scale80(num, den);
    MulMono(1, Pow2(e), den);
    RoundIntScale(mode, sign, num, den * Pow2(e), k);
    SwapFactors(den, Pow2(e), k);
  }

  // n / d * 2^exp rounded.
  ghost function RoundScaled80(mode: Mode, sign: bool, n: nat, d: nat, exp: int): Rounded
    requires d > 0
  {
    RoundF80(mode, sign, Num(n, exp), Den(d, exp))
  }

  predicate Packed80(sign: bool, r: Rounded, z: ExtF80, flags: Flags)
    requires r.bits <= INF80
  {
    z == Encode80(sign, r.bits) && flags == Flags(false, false, r.inexact, r.overflow, r.underflow)
  }

  lemma RoundScaled80Shift(mode: Mode, sign: bool, n: nat, d: nat, exp: int, k: nat)
    requires d > 0
    ensures RoundScaled80(mode, sign, n * Pow2(k), d, exp - k) == RoundScaled80(mode, sign, n, d, exp)
  {
    hide RoundF80;
    hide Num;
    hide Den;
    var j := ShiftRatio(n, d, exp, k);
    RoundF80Scaled(mode, sign, Num(n, exp), Den(d, exp), j);
  }

  lemma RoundScaled80Den(mode: Mode, sign: bool, n: nat, d: nat, exp: int, k: nat)
    requires d > 0
    ensures d * Pow2(k) > 0
    ensures RoundScaled80(mode, sign, n, d * Pow2(k), exp + k) == RoundScaled80(mode, sign, n, d, exp)
  {
    hide RoundF80;
    hide Num;
    hide Den;
    var j := DenRatio(n, d, exp, k);
    RoundF80Scaled(mode, sign, Num(n, exp), Den(d, exp), j);
  }

  // Before overflow is considered, num / den rounds at spacing 2^e to the
  // significand sig, incremented or not according to p.
  ghost predicate RoundsTo80(mode: Mode, sign: bool, num: nat, den: nat, e: nat, sig: nat, p: Position)
  {
    && den > 0
    && Unbounded80(mode, sign, num, den) == e * INT_BIT + RoundAt(mode, sign, sig, p)
    && (OnGrid80(num, den) <==> p == Exact)
  }

  lemma NormalRounds80(mode: Mode, sign: bool, n: nat, d: nat, e: nat, sig: U64, extra: U64)
    requires Represents(n, d, sig, extra) && INT_BIT <= sig
    ensures RoundsTo80(mode, sign, n * Pow2(e), d, e, sig, Place(extra, W64)) && !Tiny80(mode, sign, n * Pow2(e), d)
  {
    hide Place;
    hide Pow2;
    hide RoundInt;
    Scale80Normal(n, d, e, sig);
    NormalParts(mode, sign, n, d, Pow2(e), sig, n - sig * d);
    PlaceExact(n - sig * d, d);
    PlaceExact(extra, W64);
    NotTiny80(mode, sign, n, d, Pow2(e), sig);
  }

  lemma Scale80Normal(n: nat, d: nat, e: nat, sig: U64)
    requires d > 0 && sig * d <= n < sig * d + d && INT_BIT <= sig
    ensures Scale80(n * Pow2(e), d) == e
  {
    hide Pow2;
    var p := Pow2(e);
    MulMono(INT_BIT, sig, d);
    MulMono(sig + 1, W64, d);
    assert (sig + 1) * d == sig * d + d;
    MulMonoStrict(n, W64 * d, p);
    MulMono(INT_BIT * d, n, p);
    assert (W64 * d) * p == d * p * W64;
    assert (INT_BIT * d) * p == d * p * INT_BIT;
    Scale80Is(n * p, d, e);
  }

  lemma NotTiny80(mode: Mode, sign: bool, n: nat, d: nat, p: nat, sig: U64)
    requires d > 0 && p > 0 && sig * d <= n && INT_BIT <= sig
    ensures !Tiny80(mode, sign, n * p, d)
  {
    hide RoundInt;
    var x := n * p;
    MulMono(INT_BIT, sig, d);
    MulMono(1, p, n);
    assert 2 * x < d * (2 * x + 1) by {
      MulMono(1, d, 2 * x + 1);
    }
    RoundIntRange(mode, sign, 2 * x, d, 2 * x + 1, W64);
  }

  // ---- subnormal results ----

  datatype U64Extra = U64Extra(v: U64, extra: U64)

  function ShiftRightJam64Extra(a: U64, extra: U64, dist: nat): U64Extra
    requires dist > 0
  {
    if dist < 64 then
      JamFits(a, dist);
      U64Extra(a / Pow2(dist), OrLow(a * Pow2(64 - dist) % W64, extra != 0))
    else U64Extra(0, OrLow(if dist == 64 then a else if a != 0 then 1 else 0, extra != 0))
  }

  lemma JamFits(a: U64, dist: nat)
    requires 0 < dist < 64
    ensures 0 <= a / Pow2(dist) < W64
  {
    DivSmall(a, Pow2(dist));
  }

  // The 128-bit shift of the same value does the same.
  lemma Jam64As128(a: U64, extra: U64, dist: nat)
    requires dist > 0
    ensures var z, w := ShiftRightJam64Extra(a, extra, dist), ShiftRightJam128Extra(U128(0, a), extra, dist);
            w.v == U128(0, z.v) && w.extra == z.extra
  {
    hide Pow2;
    if dist < 64 {
      assert 0 * Pow2(64 - dist) == 0 && 0 / Pow2(dist) == 0;
    } else if 64 < dist < 128 {
      assert 0 * Pow2(128 - dist) == 0 && 0 / Pow2(dist - 64) == 0;
    }
  }

  lemma ShiftedRounds80(mode: Mode, sign: bool, n: nat, d: nat, k: nat, sig: U64, extra: U64)
    requires Represents(n, d, sig, extra) && k > 0
    ensures var z := ShiftRightJam64Extra(sig, extra, k);
            RoundsTo80(mode, sign, n, d * Pow2(k), 0, z.v, Place(z.extra, W64)) && z.v < INT_BIT
  {
    hide ShiftRightJam64Extra;
    hide ShiftRightJam128Extra;
    var z := ShiftRightJam64Extra(sig, extra, k);
    Jam64As128(sig, extra, k);
    ShiftRightJamIs(U128(0, sig), extra, k);
    ShiftedParts80(mode, sign, n, d, k, sig, extra, z.v, z.extra);
  }

  lemma ShiftedParts80(mode: Mode, sign: bool, n: nat, d: nat, k: nat, sig: U64, extra: U64, hi: nat, extra': U64)
    requires Represents(n, d, sig, extra) && k > 0
    requires 0 <= sig - hi * Pow2(k) < Pow2(k)
    requires Place(extra', W64) == Jam(sig - hi * Pow2(k), Pow2(k), extra != 0)
    ensures RoundsTo80(mode, sign, n, d * Pow2(k), 0, hi, Place(extra', W64)) && hi < INT_BIT
  {
    var h, f := Pow2(k - 1), n - sig * d;
    var low := sig - hi * Pow2(k);
    assert Pow2(k) == 2 * h;
    StickyIs(f, d, extra);
    HalvedSmall80(hi, h, sig);
    ShiftedScale80(n, d, k, sig);
    var den := d * Pow2(k);
    assert den * Pow2(0) == den;
    hide Place;
    hide Jam;
    JamIs(n, d, sig, f, hi, low, h);
    PlaceExact(n % den, den);
  }

  lemma HalvedSmall80(hi: nat, h: nat, sig: U64)
    requires h > 0 && hi * (2 * h) <= sig
    ensures hi < INT_BIT
  {
    MulMono(1, h, 2 * hi);
    assert hi * (2 * h) == (2 * hi) * h;
  }

  lemma ShiftedScale80(n: nat, d: nat, k: nat, sig: U64)
    requires d > 0 && n < sig * d + d
    ensures d * Pow2(k) > 0 && Scale80(n, d * Pow2(k)) == 0
  {
    MulMono(1, Pow2(k), d);
    MulMono(sig + 1, W64, d);
    assert (sig + 1) * d == sig * d + d;
    assert d * Pow2(k) * Pow2(0) == d * Pow2(k);
    Scale80Is(n, d * Pow2(k), 0);
  }

  // ++sig, with the low bit cleared on a tie in round-to-nearest-even.
  function Incremented80(mode: Mode, sig: U64, extra: U64): nat {
    if extra % HALF64 == 0 && mode.NearEven? && sig % 2 == 0 then sig else sig + 1
  }

  lemma IncrementIs80(mode: Mode, sign: bool, sig: U64, extra: U64)
    ensures RoundAt(mode, sign, sig, Place(extra, W64))
         == if DoIncrement(mode, sign, extra) then Incremented80(mode, sig, extra) else sig
    ensures RoundAt(mode, sign, sig, Place(extra, W64)) == W64 <==> DoIncrement(mode, sign, extra) && sig == W64 - 1
  {
  }

  lemma TinyIff80(mode: Mode, sign: bool, n: nat, d: nat, k: nat, sig: U64, extra: U64)
    requires Represents(n, d, sig, extra) && k > 0
    ensures d * Pow2(k) > 0
    ensures Tiny80(mode, sign, n, d * Pow2(k)) <==> k > 1 || !DoIncrement(mode, sign, extra) || sig < W64 - 1
  {
    hide Place;
    hide RoundInt;
    var h := Pow2(k - 1);
    MulMono(1, h, d);
    MulMono(1, Pow2(k), d);
    HalfDen(d, h);
    RoundIntScale(mode, sign, n, d * h, 2);
    if k == 1 {
      PlaceOf(mode, sign, n, d, sig, n - sig * d);
      IncrementIs80(mode, sign, sig, extra);
      assert d * 1 == d;
    } else {
      FarBelow80(mode, sign, n, d, h, Pow2(k - 2), sig);
    }
  }

  lemma FarBelow80(mode: Mode, sign: bool, n: nat, d: nat, h: nat, g: nat, sig: U64)
    requires n < sig * d + d && h == 2 * g && g > 0 && d > 0
    ensures d * h > 0 && RoundInt(mode, sign, n, d * h) <= INT_BIT
  {
    hide RoundInt;
    MulMono(1, g, 2 * d);
    assert d * h == g * (2 * d);
    MulMono(sig + 1, W64, d);
    assert (sig + 1) * d == sig * d + d;
    RoundIntRange(mode, sign, n, d * h, INT_BIT, 0);
  }

  // ---- packing ----

  // softfloat_roundPackToExtF80 at full precision.
  method RoundPack80(sign: bool, exp: int, sig: U64, sigExtra: U64, mode: Mode, ghost n: nat, ghost d: nat)
    returns (z: ExtF80, flags: Flags)
    requires Represents(n, d, sig, sigExtra)
    requires INT_BIT <= sig || (n == 0 && exp <= 0)
    ensures Packed80(sign, RoundScaled80(mode, sign, n, d, exp - 1), z, flags)
  {
    hide Represents;
    hide RoundScaled80;
    hide RoundAt;
    hide Place;
    hide Encode80;
    if exp <= 0 {
      z, flags := PackSubnormal80(sign, exp, sig, sigExtra, mode, n, d);
      return;
    }
    NormalResult80(mode, sign, n, d, exp, sig, sigExtra);
    if 0x7FFE < exp || (exp == 0x7FFE && sig == W64 - 1 && DoIncrement(mode, sign, sigExtra)) {
      z := OverflowPacked80(mode, sign);
      return z, Flags(false, false, true, true, false);
    }
    z := FinishPack80(sign, exp, sig, sigExtra, mode);
    flags := NO_FLAGS.(inexact := sigExtra != 0);
  }

  // The overflow test decides whether rounding reaches infinity; a normal
  // result that does not is inexact when the extra word is not zero.
  lemma NormalResult80(mode: Mode, sign: bool, n: nat, d: nat, exp: nat, sig: U64, extra: U64)
    requires Represents(n, d, sig, extra) && INT_BIT <= sig && exp > 0
    ensures d > 0
    ensures RoundScaled80(mode, sign, n, d, exp - 1)
         == if 0x7FFE < exp || (exp == 0x7FFE && sig == W64 - 1 && DoIncrement(mode, sign, extra))
            then Rounded(OverflowTo80(mode, sign), true, true, false)
            else Rounded((exp - 1) * INT_BIT + RoundAt(mode, sign, sig, Place(extra, W64)), extra != 0, false, false)
  {
    hide Represents;
    hide OnGrid80;
    hide Unbounded80;
    hide Tiny80;
    hide Pow2;
    hide Place;
    hide Num;
    hide Den;
    hide RoundAt;
    hide Incremented80;
    hide DoIncrement;
    Divisor(n, d, sig, extra);
    ScaledParts(n, d, exp - 1);
    NormalRounds80(mode, sign, n, d, exp - 1, sig, extra);
    PlaceExact(extra, W64);
    InfinityIff(mode, sign, exp, sig, extra);
  }

  lemma InfinityIff(mode: Mode, sign: bool, exp: nat, sig: U64, extra: U64)
    requires INT_BIT <= sig && exp > 0
    ensures (exp - 1) * INT_BIT + RoundAt(mode, sign, sig, Place(extra, W64)) >= INF80
       <==> 0x7FFE < exp || (exp == 0x7FFE && sig == W64 - 1 && DoIncrement(mode, sign, extra))
  {
    hide Place;
    IncrementIs80(mode, sign, sig, extra);
  }

  lemma Divisor(n: nat, d: nat, sig: U64, extra: U64)
    requires Represents(n, d, sig, extra)
    ensures d > 0
  {
  }

  method OverflowPacked80(mode: Mode, sign: bool) returns (z: ExtF80)
    ensures z == Encode80(sign, OverflowTo80(mode, sign))
  {
    if mode.NearEven? || mode.NearMaxMag? || mode == (if sign then Min else Max) {
      z := ExtF80(Pack80(sign, 0x7FFF), INT_BIT);
    } else {
      z := ExtF80(Pack80(sign, 0x7FFE), W64 - 1);
    }
  }

  method FinishPack80(sign: bool, exp0: int, sig0: U64, sigExtra: U64, mode: Mode) returns (z: ExtF80)
    requires 0 < exp0 <= 0x7FFE && INT_BIT <= sig0
    requires exp0 == 0x7FFE ==> sig0 < W64 - 1 || !DoIncrement(mode, sign, sigExtra)
    ensures var bits := (exp0 - 1) * INT_BIT + RoundAt(mode, sign, sig0, Place(sigExtra, W64));
            0 <= bits < INF80 && z == Encode80(sign, bits)
  {
    hide Place;
    IncrementIs80(mode, sign, sig0, sigExtra);
    var exp, sig: nat := exp0, sig0;
    if DoIncrement(mode, sign, sigExtra) {
      sig := Incremented80(mode, sig0, sigExtra);
      if sig == W64 {
        exp, sig := exp + 1, INT_BIT;
      }
    }
    EncodeNormal(sign, exp, sig);
    z := ExtF80(Pack80(sign, exp), sig);
  }

  lemma EncodeNormal(sign: bool, exp: nat, sig: nat)
    requires 0 < exp < 0x7FFF && INT_BIT <= sig < W64
    ensures Encode80(sign, (exp - 1) * INT_BIT + sig) == ExtF80(Pack80(sign, exp), sig)
  {
    DivModUnique((exp - 1) * INT_BIT + sig, INT_BIT, exp, sig - INT_BIT);
  }

  // The branch for exponents of zero and below.
  method PackSubnormal80(sign: bool, exp: int, sig: U64, sigExtra: U64, mode: Mode, ghost n: nat, ghost d: nat)
    returns (z: ExtF80, flags: Flags)
    requires Represents(n, d, sig, sigExtra) && exp <= 0
    ensures Packed80(sign, RoundScaled80(mode, sign, n, d, exp - 1), z, flags)
  {
    hide Represents;
    hide ShiftRightJam64Extra;
    hide OnGrid80;
    hide Unbounded80;
    hide Tiny80;
    hide Pow2;
    hide Place;
    hide Num;
    hide Den;
    Divisor(n, d, sig, sigExtra);
    ScaledParts(n, d, exp - 1);
    TinyIff80(mode, sign, n, d, 1 - exp, sig, sigExtra);
    ShiftedRounds80(mode, sign, n, d, 1 - exp, sig, sigExtra);
    var isTiny := exp < 0 || !DoIncrement(mode, sign, sigExtra) || sig < W64 - 1;
    var shifted := ShiftRightJam64Extra(sig, sigExtra, 1 - exp);
    PlaceExact(shifted.extra, W64);
    IncrementIs80(mode, sign, shifted.v, shifted.extra);
    flags := Flags(false, false, shifted.extra != 0, false, isTiny && shifted.extra != 0);
    var e, s: nat := 0, shifted.v;
    if DoIncrement(mode, sign, shifted.extra) {
      s := Incremented80(mode, shifted.v, shifted.extra);
      e := if s >= INT_BIT then 1 else 0;
    }
    z := ExtF80(Pack80(sign, e), s);
  }

  // softfloat_normRoundPackToExtF80.  A zero significand is not shifted.
  method NormRoundPack80(sign: bool, exp0: int, sig0: U64, sigExtra0: U64, mode: Mode) returns (z: ExtF80, flags: Flags)
    requires sig0 == 0 && sigExtra0 == 0 ==> exp0 <= 0
    ensures Packed80(sign, RoundScaled80(mode, sign, sig0 * W64 + sigExtra0, W64, exp0 - 1), z, flags)
  {
    hide Pow2;
    hide RoundScaled80;
    hide ShortShiftLeft128;
    hide CountLeadingZeros64;
    var exp, sig, sigExtra := exp0, sig0, sigExtra0;
    if sig == 0 {
      exp, sig, sigExtra := exp - 64, sigExtra, 0;
      Pow2Wide();
      RoundScaled80Shift(mode, sign, sigExtra0, W64, exp0 - 1, 64);
    }
    ghost var v := U128(sig, sigExtra);
    var shiftDist := CountLeadingZeros64(sig);
    exp := exp - shiftDist;
    RoundScaled80Shift(mode, sign, v.V(), W64, exp + shiftDist - 1, shiftDist);
    if 0 < shiftDist < 64 {
      TopFits(v, shiftDist);
      ShiftLeftExact(v, shiftDist);
      var w := ShortShiftLeft128(U128(sig, sigExtra), shiftDist);
      sig, sigExtra := w.v64, w.v0;
    } else if shiftDist == 0 {
      assert Pow2(0) == 1 by { Pow2Small(); }
      TopFits(v, 0);
    } else {
      assert 0 * Pow2(64) == 0;
    }
    WordPlace(sig, sigExtra);
    z, flags := RoundPack80(sign, exp, sig, sigExtra, mode, U128(sig, sigExtra).V(), W64);
  }

  lemma WordPlace(sig: U64, extra: U64)
    ensures Represents(sig * W64 + extra, W64, sig, extra)
  {
  }

  // The leading bit comes to the top and nothing is lost.
  lemma TopFits(v: U128, c: nat)
    requires v.v64 > 0 && c <= 63 && HALF64 <= v.v64 * Pow2(c) < W64
    ensures v.V() * Pow2(c) < W128
    ensures v.V() * Pow2(c) >= HALF64 * W64
  {
    hide Pow2;
    var p := Pow2(c);
    Pow2Sum(c, 64 - c, 64);
    Pow2Wide();
    RoomAbove(v.v64, p, Pow2(64 - c));
    Distribute(v.v64 * W64, v.v0, p);
    SwapFactors(v.v64, W64, p);
    PlacedBetween(v.v64 * p, v.v0, p);
  }

  lemma PlacedBetween(high: nat, low: U64, p: nat)
    requires HALF64 <= high && high + p <= W64 && p > 0
    ensures HALF64 * W64 <= high * W64 + low * p < W128
  {
    MulMonoStrict(low, W64, p);
    MulMono(0, low, p);
    Commute(p, W64);
    MulMono(HALF64, high, W64);
    MulMono(high + p, W64, W64);
    Distribute(high, p, W64);
  }

  lemma RoomAbove(x: nat, p: nat, q: nat)
    requires p > 0 && p * q == W64 && x * p < W64
    ensures x * p + p <= W64
  {
    if x >= q {
      MulMono(q, x, p);
    }
    MulMono(x + 1, q, p);
    Distribute(x, 1, p);
  }
}
