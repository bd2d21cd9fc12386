// The quotient digits of extF80_div: two corrected 29-bit digits, an estimated
// third, and the 64-bit significand with the extra word for rounding.
module ExtF80Div {
  import opened Arith
  import opened Words
  import opened Rounding
  import opened RoundPack
  import opened Recurrence
  import opened Remainder
  import opened Division
  import opened ExtF80Rem

  const HALF_ULP: nat := 0x40_0000

  method NextEstimate80(rem: U128, sigB: U64, recip32: U32) returns (q: U32)
    requires Normalized64(sigB) && rem.V() < 2 * (sigB * W32)
    requires 0x8000_0000 <= sigB / W32 < W32 && recip32 == ApproxRecip32(sigB / W32)
    ensures Near(rem.V() * 0x2000_0000, sigB * W32, q) && q <= 0x4000_0000
  {
    hide ApproxRecip32;
    hide Estimated;
    hide Near;
    F80Bits(rem, sigB);
    var q64: U64 := (rem.v64 / 4) % W32 * recip32;
    q := RoundedEstimate(rem.V(), sigB * W32, W64, q64);
  }

  method ReduceBy80(rem0: U128, sigB: U64, q: U32) returns (rem: U128)
    requires Normalized64(sigB) && Near(rem0.V() * 0x2000_0000, sigB * W32, q)
    ensures rem.Signed() == rem0.V() * 0x2000_0000 - q * (sigB * W32)
  {
    hide Mul64ByShifted32To128;
    hide Sub128;
    hide ShortShiftLeft128;
    var term := Mul64ByShifted32To128(sigB, q);
    TermIs(sigB, q);
    assert Pow2(29) == 0x2000_0000 by { Pow2Small(); }
    StepExact(rem0, 29, term, q * (sigB * W32));
    rem := Sub128(ShortShiftLeft128(rem0, 29), term);
  }

  // One round of the loop: only the downward correction.
  method DivStep80(rem0: U128, sigB: U64, q0: U32) returns (rem: U128, q: U32)
    requires Normalized64(sigB) && rem0.V() < 2 * (sigB * W32)
    requires Near(rem0.V() * 0x2000_0000, sigB * W32, q0)
    ensures rem.V() < 2 * (sigB * W32) && q < 0x4000_0000
    ensures rem.V() == rem0.V() * 0x2000_0000 - q * (sigB * W32)
  {
    ghost var b := sigB * W32;
    q := q0;
    rem := ReduceBy80(rem0, sigB, q);
    NearBounds(rem0.V() * 0x2000_0000, b, q);
    if rem.SignBit() {
      ghost var d;
      DigitPositive(rem0.V() * 0x2000_0000, b, q, rem.Signed());
      rem, d := AddBack(rem, Shifted32(sigB), rem0.V() * 0x2000_0000, q);
      q := q - 1;
    }
    DigitSmall(rem0.V(), b, q, rem.V());
  }

  // The last digit, made exact when it is next to a half-ulp boundary.
  method LastDigitOf80(rem0: U128, sigB: U64, q0: U32) returns (q: U32)
    requires Normalized64(sigB) && q0 <= 0x4000_0000
    requires Near(rem0.V() * 0x2000_0000, sigB * W32, q0)
    ensures Sticky(rem0.V() * 0x2000_0000, sigB * W32, q, q / HALF_ULP * HALF_ULP, HALF_ULP)
    ensures q < 0x8000_0000
  {
    hide Near;
    hide Sticky;
    ghost var x, b := rem0.V() * 0x2000_0000, sigB * W32;
    if (q0 + 1) % HALF_ULP < 2 {
      var rem := ReduceBy80(rem0, sigB, q0);
      rem, q := CorrectDigit(rem, Shifted32(sigB), q0, x);
      q := SetSticky80(rem, q, x, b);
    } else {
      OutsideWindow(x, b, q0, q0 / HALF_ULP * HALF_ULP, HALF_ULP);
      q := q0;
    }
  }

  method SetSticky80(rem: U128, q0: U32, ghost x: int, ghost b: nat) returns (q: U32)
    requires q0 <= 0x4000_0001 && rem.V() < b && q0 * b + rem.V() == x
    ensures Sticky(x, b, q, q / HALF_ULP * HALF_ULP, HALF_ULP) && q < 0x8000_0000
  {
    hide Sticky;
    SetInside(x, b, q0, HALF_ULP, q0 / HALF_ULP, q0 / HALF_ULP * HALF_ULP);
    q := q0;
    if rem.v64 != 0 || rem.v0 != 0 {
      q := if q % 2 == 1 then q else q + 1;
    }
  }

  // The dividend, brought below the divisor and to at least half of it.
  function Dividend(sigA: U64, sigB: U64): nat {
    if sigA < sigB then sigA * W64 else sigA * (W64 / 2)
  }

  method F80Start(sigA: U64, sigB: U64) returns (rem: U128)
    requires Normalized64(sigA) && Normalized64(sigB)
    ensures rem.V() * W32 == Dividend(sigA, sigB)
    ensures rem.V() < sigB * W32 <= 2 * rem.V()
  {
    hide ShortShiftLeft128;
    hide Pow2;
    Pow2Small();
    if sigA < sigB {
      rem := ShortShiftLeft128(U128(0, sigA), 32);
    } else {
      rem := ShortShiftLeft128(U128(0, sigA), 31);
    }
  }

  // The quotient of the significands as the 64-bit significand and the extra
  // word handed to rounding.
  method F80DivSig(sigA: U64, sigB: U64) returns (sigZ: U64, sigZExtra: U64)
    requires Normalized64(sigA) && Normalized64(sigB)
    ensures Represents(Dividend(sigA, sigB), sigB, sigZ, sigZExtra)
    ensures Normalized64(sigZ)
  {
    hide Shifted;
    hide Represents;
    hide Sticky;
    hide Near;
    hide ApproxRecip32;
    hide Dividend;
    var rem := F80Start(sigA, sigB);
    ghost var a := rem.V();
    LeadingWord80(sigB);
    var recip32 := ApproxRecip32(sigB / W32);
    var q;
    sigZ, rem, q := F80Digits(rem, sigB, recip32);
    q := LastDigitOf80(rem, sigB, q);
    AllDigits80(a, sigZ, sigB, rem.V(), q);
    ExtraBits80(q, sigZ);
    JoinBits80(sigZ, q);
    sigZ, sigZExtra := sigZ * 0x40 + q / 0x80_0000, (q * 0x200_0000_0000) % W64;
    assert a * W64 == Dividend(sigA, sigB) * W32;
    RepresentsScaled(Dividend(sigA, sigB), sigB, W32, sigZ, sigZExtra);
  }

  lemma LeadingWord80(sigB: U64)
    requires Normalized64(sigB)
    ensures 0x8000_0000 <= sigB / W32 < W32
  {
  }

  // The loop, accumulating sigZ.
  method F80Digits(rem0: U128, sigB: U64, recip32: U32) returns (sigZ: U64, rem: U128, q: U32)
    requires Normalized64(sigB) && rem0.V() < sigB * W32
    requires 0x8000_0000 <= sigB / W32 < W32 && recip32 == ApproxRecip32(sigB / W32)
    ensures rem.V() < 2 * (sigB * W32) && sigZ < 0x1000_0000_0000_0000
    ensures rem0.V() * Shifted(2) == sigZ * (sigB * W32) + rem.V()
    ensures Near(rem.V() * 0x2000_0000, sigB * W32, q) && q <= 0x4000_0000
  {
    hide Shifted;
    hide Near;
    hide ApproxRecip32;
    ghost var b := sigB * W32;
    rem, sigZ := rem0, 0;
    var ix := 2;
    StartDigits(rem0.V());
    while true
      invariant 0 <= ix <= 2 && rem.V() < 2 * b
      invariant sigZ < (if ix == 2 then 1 else if ix == 1 then 0x4000_0000 else 0x1000_0000_0000_0000)
      invariant rem0.V() * Shifted(2 - ix) == sigZ * b + rem.V()
      decreases ix
    {
      q := NextEstimate80(rem, sigB, recip32);
      ix := ix - 1;
      if ix < 0 {
        break;
      }
      ghost var before := rem.V();
      rem, q := DivStep80(rem, sigB, q);
      NextDigit(rem0.V(), 1 - ix, sigZ, b, before, q, rem.V());
      sigZ := sigZ * 0x2000_0000 + q;
    }
  }

  lemma AllDigits80(a: nat, total: nat, sigB: U64, rem: nat, q: nat)
    requires Normalized64(sigB) && sigB * (W32 / 2) <= a < sigB * W32
    requires a * Shifted(2) == total * (sigB * W32) + rem
    requires Sticky(rem * 0x2000_0000, sigB * W32, q, q / HALF_ULP * HALF_ULP, HALF_ULP)
    ensures var t := total * 0x2000_0000 + q;
            Represents(a * W64, sigB * W32, t / 0x80_0000, t % 0x80_0000 * 0x200_0000_0000)
            && 0x8000_0000_0000_0000 <= t / 0x80_0000 < W64
  {
    hide Sticky;
    hide Represents;
    hide Shifted;
    TwoDigits(a, total, sigB * W32, rem);
    DigitsTogether80(a, sigB * W32, total * 0x40, q, rem * 0x2000_0000);
  }

  lemma TwoDigits(a: nat, total: nat, b: nat, rem: nat)
    requires a * Shifted(2) == total * b + rem
    ensures 0x80_0000 * (a * W64) == (0x80_0000 * (total * 0x40)) * b + rem * 0x2000_0000
  {
    assert Shifted(1) == 0x2000_0000;
    assert (0x80_0000 * (total * 0x40)) * b == (total * b) * 0x2000_0000;
  }

  lemma DigitsTogether80(a: nat, b: nat, c: nat, q: nat, y: nat)
    requires b > 0 && b <= 2 * a && a < b
    requires 0x80_0000 * (a * W64) == (0x80_0000 * c) * b + y
    requires Sticky(y, b, q, q / HALF_ULP * HALF_ULP, HALF_ULP)
    ensures var t := 0x80_0000 * c + q;
            Represents(a * W64, b, t / 0x80_0000, t % 0x80_0000 * 0x200_0000_0000)
            && 0x8000_0000_0000_0000 <= t / 0x80_0000 < W64
  {
    hide Sticky;
    hide Represents;
    var t := 0x80_0000 * c + q;
    var e := t / HALF_ULP * HALF_ULP;
    CellMoved80(c, q);
    StickyShift(y, b, q, q / HALF_ULP * HALF_ULP, HALF_ULP, 0x80_0000 * c);
    StickyRepresents(a * W64, b, t / 0x80_0000, t % 0x80_0000, HALF_ULP, 0x200_0000_0000);
    var p := 0x80_0000 * 0x8000_0000_0000_0000;
    assert p * b <= 0x80_0000 * (a * W64) < 2 * p * b;
    StickyRange(0x80_0000 * (a * W64), b, t, e, HALF_ULP, p);
  }

  lemma CellMoved80(c: nat, q: nat)
    ensures var t := 0x80_0000 * c + q;
            && t / HALF_ULP * HALF_ULP == 0x80_0000 * c + q / HALF_ULP * HALF_ULP
            && t / HALF_ULP * HALF_ULP
               == 0x80_0000 * (t / 0x80_0000) + (if t % 0x80_0000 < HALF_ULP then 0 else HALF_ULP)
            && t == 0x80_0000 * (t / 0x80_0000) + t % 0x80_0000
  {
    var t := 0x80_0000 * c + q;
    var i, r := q / HALF_ULP, q % HALF_ULP;
    DivModUnique(t, HALF_ULP, 2 * c + i, r);
    DivModUnique(t, 0x80_0000, c + i / 2, (i % 2) * HALF_ULP + r);
  }

  lemma ExtraBits80(q: U32, total: nat)
    ensures (q * 0x200_0000_0000) % W64 == (total * 0x2000_0000 + q) % 0x80_0000 * 0x200_0000_0000
  {
    var i, r := q / 0x80_0000, q % 0x80_0000;
    DivModUnique(q * 0x200_0000_0000, W64, i, r * 0x200_0000_0000);
    DivModUnique(total * 0x2000_0000 + q, 0x80_0000, total * 0x40 + i, r);
  }

  lemma JoinBits80(total: nat, q: nat)
    ensures (total * 0x2000_0000 + q) / 0x80_0000 == total * 0x40 + q / 0x80_0000
  {
    DivModUnique(total * 0x2000_0000 + q, 0x80_0000, total * 0x40 + q / 0x80_0000, q % 0x80_0000);
  }

  lemma RepresentsScaled(n: nat, d: nat, k: nat, sig: nat, extra: U64)
    requires d > 0 && k > 0 && Represents(n * k, d * k, sig, extra)
    ensures Represents(n, d, sig, extra)
  {
    assert sig * (d * k) == (sig * d) * k;
    assert (n - sig * d) * k == n * k - (sig * d) * k;
    var f := n - sig * d;
    if f < 0 {
      MulMono(f, -1, k);
    }
    if f >= d {
      MulMono(d, f, k);
    }
    PlaceScale(f, d, k);
  }
}
