// The digit loop of extF80_rem: 64-bit significands held 32 bits up in a
// 128-bit remainder.
module ExtF80Rem {
  import opened Arith
  import opened Words
  import opened Recurrence
  import opened Remainder

  predicate Normalized64(sig: U64) {
    0x8000_0000_0000_0000 <= sig
  }

  // (sig << 32) as the pair sig >> 32, sig << 32.
  function Shifted32(sig: U64): (z: U128)
    ensures z.V() == sig * W32
  {
    U128(sig / W32, sig * W32 % W64)
  }

  // The leading words the estimate reads are the leading bits it needs.
  lemma F80Bits(rem: U128, sigB: U64)
    requires Normalized64(sigB) && rem.V() < 2 * (sigB * W32)
    ensures 0x8000_0000 <= sigB / W32 < W32
    ensures Estimated(rem.V(), sigB * W32, W64,
              (rem.v64 / 4) % W32 * ApproxRecip32(sigB / W32))
    ensures (rem.v64 / 4) % W32 * ApproxRecip32(sigB / W32) < 0x8000_0000_0000_0000
  {
    hide ApproxRecip32;
    hide Estimated;
    var r, a := rem.v64 / 4, sigB / W32;
    TopBits(rem, 4);
    DivModUnique(sigB * W32, W64, a, sigB % W32 * W32);
    EstimateFrom(rem.V(), sigB * W32, W64, r, a);
    assert r % W32 == r;
  }

  lemma TermIs(sigB: U64, q: U32)
    ensures Mul64ByShifted32To128(sigB, q).V() == (q * (sigB * W32)) % W128
  {
    hide Mul64ByShifted32To128;
    Commute(sigB, q);
    Associate(q, sigB, W32);
    var z := Mul64ByShifted32To128(sigB, q);
    DivModUnique(z.V(), W128, 0, z.V());
  }

  // One round of the loop: a rounded digit, then at most one correction.
  method F80RemStep(rem0: U128, sigB: U64, q64: U64) returns (rem: U128, ghost d: int)
    requires Normalized64(sigB) && Estimated(rem0.V(), sigB * W32, W64, q64)
    requires q64 < 0x8000_0000_0000_0000
    ensures rem.V() < 2 * (sigB * W32)
    ensures rem.V() == rem0.V() * 0x2000_0000 - d * (sigB * W32)
  {
    hide Sub128;
    hide ShortShiftLeft128;
    hide Mul64ByShifted32To128;
    RoundedDigit(rem0.V(), sigB * W32, W64, q64);
    var q: U32 := (q64 + 0x8000_0000) / W32;
    var term := Mul64ByShifted32To128(sigB, q);
    TermIs(sigB, q);
    assert Pow2(29) == 0x2000_0000 by { Pow2Small(); }
    StepExact(rem0, 29, term, q * (sigB * W32));
    rem := Sub128(ShortShiftLeft128(rem0, 29), term);
    d := q;
    if rem.SignBit() {
      rem, d := AddBack(rem, Shifted32(sigB), rem0.V() * 0x2000_0000, d);
    }
  }

  lemma LastDigit80(rem0: U128, sigB: U64, q64: U64, t: nat)
    requires Normalized64(sigB) && Estimated(rem0.V(), sigB * W32, W64, q64)
    requires t <= 28
    ensures var q := LastBits(q64, t);
            && q < 0x8000_0000
            && var rem := Sub128(ShortShiftLeft128(rem0, 29 - t), Mul64ByShifted32To128(sigB, q));
            && rem.Signed() == rem0.V() * Pow2(29 - t) - q * (sigB * W32)
            && 0 < sigB * W32 + 2 * rem.Signed() < 6 * (sigB * W32)
  {
    hide Sub128;
    hide Mul64ByShifted32To128;
    hide ShortShiftLeft128;
    hide Pow2;
    hide LastBits;
    TruncatedDigit(rem0.V(), sigB * W32, W64, q64, t);
    Q64Small(rem0.V(), sigB * W32, W64, q64);
    var q := LastBits(q64, t);
    TermIs(sigB, q);
    StepExact(rem0, 29 - t, Mul64ByShifted32To128(sigB, q), q * (sigB * W32));
  }

  // The last, shorter digit, and the selection of the nearest remainder.
  method F80RemLast(rem0: U128, sigB: U64, q64: U64, expDiff: int, ghost a: int, ghost n: int, ghost k: nat)
    returns (rem: U128)
    requires Normalized64(sigB) && Estimated(rem0.V(), sigB * W32, W64, q64)
    requires -29 <= expDiff < 0
    requires a * Pow2(k) == n * (sigB * W32) + rem0.V()
    ensures rem.Signed() == IeeeRem(a * Pow2(k + expDiff + 30), sigB * W32)
  {
    hide Sub128;
    hide IeeeRem;
    hide Mul64ByShifted32To128;
    hide ShortShiftLeft128;
    hide Estimated;
    hide Pow2;
    hide LastBits;
    ghost var s := expDiff + 30;
    ghost var x, m := a * Pow2(k + s), n * Pow2(s);
    var t: nat := -expDiff - 1;
    LastDigit80(rem0, sigB, q64, t);
    var q := LastBits(q64, t);
    rem := Sub128(ShortShiftLeft128(rem0, expDiff + 30), Mul64ByShifted32To128(sigB, q));
    Advance(a, k, n, sigB * W32, rem0.V(), s, q, rem.Signed());
    EvenScale(n, s);
    rem := FinishRem(rem, Shifted32(sigB), q, x, m);
  }

  method F80RemDigits(sigA: U64, sigB: U64, expDiff0: int) returns (rem: U128)
    requires Normalized64(sigA) && Normalized64(sigB) && expDiff0 >= 1
    ensures rem.Signed() == IeeeRem(sigA * W32 * Pow2(expDiff0), sigB * W32)
  {
    hide ApproxRecip32;
    hide Estimated;
    hide IeeeRem;
    hide Pow2;
    Pow2Small();
    rem := Shifted32(sigA);
    ghost var a, b := sigA * W32, sigB * W32;
    ghost var n := 0;
    F80Bits(rem, sigB);
    var recip32 := ApproxRecip32(sigB / W32);
    var expDiff := expDiff0 - 30;
    var q64: U64;
    while true
      invariant -29 <= expDiff <= expDiff0 - 30
      invariant rem.V() < 2 * b
      invariant a * Pow2(expDiff0 - 30 - expDiff) == n * b + rem.V()
      decreases expDiff + 30
    {
      F80Bits(rem, sigB);
      q64 := (rem.v64 / 4) % W32 * recip32;
      if expDiff < 0 {
        break;
      }
      ghost var before := rem;
      ghost var d;
      rem, d := F80RemStep(rem, sigB, q64);
      Advance(a, expDiff0 - 30 - expDiff, n, b, before.V(), 29, d, rem.V());
      n := n * Pow2(29) + d;
      expDiff := expDiff - 29;
    }
    rem := F80RemLast(rem, sigB, q64, expDiff, a, n, expDiff0 - 30 - expDiff);
  }

  // extF80_rem on normalised significands; the remainder comes out with the
  // 32 extra low bits the significands were given.
  method F80RemSig(sigA: U64, sigB: U64, expDiff: int) returns (rem: U128)
    requires Normalized64(sigA) && Normalized64(sigB) && expDiff >= -1
    ensures expDiff >= 0 ==> rem.Signed() == IeeeRem(sigA * Pow2(expDiff), sigB) * W32
    ensures expDiff == -1 ==> rem.Signed() == IeeeRem(sigA, 2 * sigB) * W32
  {
    hide IeeeRem;
    hide Pow2;
    if expDiff < 1 {
      assert Pow2(0) == 1 by { Pow2Small(); }
      assert sigA * Pow2(0) == sigA;
      rem := F80RemShort(sigA, sigB, expDiff);
    } else {
      rem := F80RemDigits(sigA, sigB, expDiff);
      IeeeRemScale(sigA * Pow2(expDiff), sigB, W32);
      assert sigA * W32 * Pow2(expDiff) == sigA * Pow2(expDiff) * W32;
    }
  }

  // Exponents no more than one below: no digits to produce.
  method F80RemShort(sigA: U64, sigB: U64, expDiff: int) returns (rem: U128)
    requires Normalized64(sigA) && Normalized64(sigB) && -1 <= expDiff <= 0
    ensures rem.Signed() == IeeeRem(sigA, if expDiff == 0 then sigB else 2 * sigB) * W32
  {
    hide IeeeRem;
    hide Sub128;
    hide ShortShiftLeft128;
    rem := Shifted32(sigA);
    var shiftedSigB := Shifted32(sigB);
    var q: U32 := 0;
    if expDiff != 0 {
      assert Pow2(33) == 2 * W32 by { Pow2Small(); Pow2Sum(32, 1, 33); }
      shiftedSigB := ShortShiftLeft128(U128(0, sigB), 33);
      IeeeRemScale(sigA, 2 * sigB, W32);
      LeftNone(sigA * W32, shiftedSigB.V());
      hide Left;
      rem := SelectRem(rem, q, shiftedSigB, sigA * W32, 0);
    } else {
      IeeeRemScale(sigA, sigB, W32);
      q := if sigB <= sigA then 1 else 0;
      if q != 0 {
        SubExact(rem, shiftedSigB);
        rem := Sub128(rem, shiftedSigB);
      }
      LeftNone(sigA * W32, shiftedSigB.V());
      hide Left;
      rem := SelectRem(rem, q, shiftedSigB, sigA * W32, 0);
    }
  }
}
