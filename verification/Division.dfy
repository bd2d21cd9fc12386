// The digit loop of f128_div: three corrected 29-bit quotient digits and an
// estimated fourth, whose exact remainder is computed only when the estimate
// is next to a rounding boundary.
module Division {
  import opened Arith
  import opened Words
  import opened Rounding
  import opened Jamming
  import opened Binary128
  import opened RoundPack
  import opened Recurrence
  import opened Remainder

  // q estimates x / b with error below 1 above and 2 below.
  ghost predicate Near(x: int, b: int, q: int)
  {
    q * b < x + b && x < q * b + 2 * b
  }

  // q stands for x / b in the cell [e, e + h) between two rounding
  // boundaries: it is exact, or off the boundary in the open cell that holds
  // x / b.
  ghost predicate Sticky(x: int, b: int, q: int, e: int, h: int)
  {
    e <= q < e + h && (q * b == x || (q != e && e * b < x < (e + h) * b))
  }

  // Away from the boundaries the estimate is already good enough.
  lemma OutsideWindow(x: int, b: int, q: int, e: int, h: int)
    requires b > 0 && Near(x, b, q) && e + 1 <= q <= e + h - 2
    ensures Sticky(x, b, q, e, h)
  {
    MulMono(e, q - 1, b);
    MulMono(q + 2, e + h, b);
    assert (q - 1) * b == q * b - b;
    assert (q + 2) * b == q * b + 2 * b;
  }

  // Next to a boundary the quotient is the floor, with the low bit set when
  // there is a remainder.
  lemma InsideWindow(x: int, b: int, q: int, e: int, h: int)
    requires b > 0 && q * b <= x < q * b + b
    requires e <= q < e + h && e % 2 == 0 && h % 2 == 0
    ensures Sticky(x, b, if q * b == x || q % 2 == 1 then q else q + 1, e, h)
  {
    MulMono(e, q, b);
    MulMono(q + 1, e + h, b);
    assert (q + 1) * b == q * b + b;
  }

  // Setting the low bit stays in the cell.
  lemma SetInside(x: int, b: int, q: nat, h: nat, k: nat, e: nat)
    requires b > 0 && q * b <= x < q * b + b
    requires h > 0 && h % 2 == 0 && e == k * h && e <= q < e + h
    ensures q % 2 == 0 ==> q + 1 < e + h
    ensures Sticky(x, b, if q * b == x || q % 2 == 1 then q else q + 1, e, h)
  {
    hide Sticky;
    EvenMultiple(k, h);
    InsideWindow(x, b, q, e, h);
  }

  lemma EvenMultiple(k: nat, h: nat)
    requires h % 2 == 0
    ensures k * h % 2 == 0
  {
    Associate(k, h / 2, 2);
    DivModUnique(k * h, 2, k * (h / 2), 0);
  }

  lemma StickyShift(x: int, b: int, q: int, e: int, h: int, k: int)
    requires Sticky(x, b, q, e, h)
    ensures Sticky(k * b + x, b, k + q, k + e, h)
  {
    assert (k + q) * b == k * b + q * b;
    assert (k + e) * b == k * b + e * b;
    assert (k + e + h) * b == k * b + (e + h) * b;
  }

  // With 2h the unit in the last place, the cells are the halves of a unit,
  // and the quotient splits into the significand and the extra word.
  lemma StickyRepresents(x: nat, b: nat, v: nat, l: nat, h: nat, w: nat)
    requires b > 0 && h > 0 && l < 2 * h && 2 * h * w == W64
    requires Sticky(2 * h * x, b, 2 * h * v + l, 2 * h * v + (if l < h then 0 else h), h)
    ensures l * w < W64 && Represents(x, b, v, l * w)
  {
    var m := 2 * h;
    var r := x - v * b;
    assert w > 0;
    PlaceScale(l, m, w);
    assert m * r == m * x - (m * v) * b by {
      assert m * (v * b) == (m * v) * b;
    }
    if (m * v + l) * b == m * x {
      assert (m * v + l) * b == (m * v) * b + l * b;
      ExactPlace(r, b, l, m);
    } else {
      HalfPlace(x, b, v, l, h, r);
    }
  }

  lemma ExactPlace(r: int, b: nat, l: nat, m: nat)
    requires b > 0 && l < m && m * r == l * b
    ensures 0 <= r < b && Place(r, b) == Place(l, m)
  {
    PlaceScale(l, m, b);
    MulCancel(r, b, m) by {
      MulMonoStrict(l, m, b);
      assert r * m == m * r;
    }
    if r < 0 {
      MulMono(r, -1, m);
    }
    PlaceScale(r, b, m);
    assert r * m == l * b && b * m == m * b;
  }

  lemma HalfPlace(x: nat, b: nat, v: nat, l: nat, h: nat, r: int)
    requires b > 0 && h > 0 && l < 2 * h && 2 * h * r == 2 * h * x - (2 * h * v) * b
    requires var e := 2 * h * v + (if l < h then 0 else h);
             2 * h * v + l != e && e * b < 2 * h * x < (e + h) * b
    ensures 0 <= r < b && Place(r, b) == Place(l, 2 * h)
  {
    var e := 2 * h * v + (if l < h then 0 else h);
    var hb := h * b;
    assert (2 * h * v + h) * b == (2 * h * v) * b + hb;
    assert (2 * h * v + 2 * h) * b == (2 * h * v) * b + 2 * hb;
    HalfCompare(r, b, h);
  }

  // Comparing r with 0, b / 2 and b after scaling by 2h.
  lemma HalfCompare(r: int, b: nat, h: nat)
    requires h > 0
    ensures 0 < 2 * h * r < h * b ==> 0 < r && 2 * r < b
    ensures h * b < 2 * h * r < 2 * (h * b) ==> b < 2 * r && r < b
  {
    assert 2 * h * r == (2 * r) * h && h * b == b * h && 2 * (h * b) == (2 * b) * h;
    if 0 < 2 * h * r < h * b {
      MulCancel(2 * r, b, h);
      MulCancel(0, 2 * r, h);
    }
    if h * b < 2 * h * r < 2 * (h * b) {
      MulCancel(b, 2 * r, h);
      MulCancel(2 * r, 2 * b, h);
    }
  }

  // The quotient of a value in [p, 2p) is in [p, 2p) when both ends are cell
  // boundaries.
  lemma StickyRange(x: int, b: int, q: int, e: int, h: int, p: int)
    requires b > 0 && Sticky(x, b, q, e, h) && p * b <= x < 2 * p * b
    requires (e + h <= p || p <= e) && (e + h <= 2 * p || 2 * p <= e)
    ensures p <= q < 2 * p
  {
    StickyBelow(x, b, q, e, h, 2 * p);
    StickyAbove(x, b, q, e, h, p);
  }

  lemma StickyBelow(x: int, b: int, q: int, e: int, h: int, t: int)
    requires b > 0 && Sticky(x, b, q, e, h) && x < t * b && (e + h <= t || t <= e)
    ensures q < t
  {
    if t <= e {
      MulMono(t, e, b);
      MulMono(t, q, b);
    }
  }

  lemma StickyAbove(x: int, b: int, q: int, e: int, h: int, t: int)
    requires b > 0 && Sticky(x, b, q, e, h) && t * b <= x && (e + h <= t || t <= e)
    ensures t <= q
  {
    if e + h <= t {
      MulMono(e + h, t, b);
      MulMonoStrict(q, t, b);
    }
  }

  // One round of the division loop: the digit itself is corrected too.
  method DivStep(rem0: U128, sigB: U128, q0: U32) returns (rem: U128, q: U32)
    requires Normalized128(sigB) && rem0.V() < 2 * sigB.V()
    requires Near(rem0.V() * 0x2000_0000, sigB.V(), q0)
    ensures rem.V() < 2 * sigB.V() && q < 0x4000_0000
    ensures rem.V() == rem0.V() * 0x2000_0000 - q * sigB.V()
  {
    hide Sub128;
    hide ShortShiftLeft128;
    hide Mul128By32;
    ghost var b := sigB.V();
    q := q0;
    rem := ReduceBy(rem0, sigB, q);
    NearBounds(rem0.V() * 0x2000_0000, b, q);
    if rem.SignBit() {
      ghost var d;
      DigitPositive(rem0.V() * 0x2000_0000, b, q, rem.Signed());
      rem, d := AddBack(rem, sigB, rem0.V() * 0x2000_0000, q);
      q := q - 1;
    }
    DigitSmall(rem0.V(), b, q, rem.V());
  }

  method RoundedEstimate(ghost rem: nat, ghost b: nat, ghost u: nat, q64: U64) returns (q: U32)
    requires Estimated(rem, b, u, q64) && q64 < 0x8000_0000_0000_0000
    ensures q == (q64 + 0x8000_0000) / W32
    ensures Near(rem * 0x2000_0000, b, q)
    ensures q <= 0x4000_0000
  {
    RoundedDigit(rem, b, u, q64);
    q := (q64 + 0x8000_0000) / W32;
    if q >= 0x4000_0001 {
      MulMono(0x4000_0001, q, b);
    }
  }

  // rem * 2^29 - q * sigB, exactly.
  method ReduceBy(rem0: U128, sigB: U128, q: U32) returns (rem: U128)
    requires Normalized128(sigB) && Near(rem0.V() * 0x2000_0000, sigB.V(), q)
    ensures rem.Signed() == rem0.V() * 0x2000_0000 - q * sigB.V()
  {
    hide Mul128By32;
    hide Sub128;
    hide ShortShiftLeft128;
    var term := Mul128By32(sigB, q);
    assert Pow2(29) == 0x2000_0000 by { Pow2Small(); }
    assert sigB.V() * q == q * sigB.V();
    StepExact(rem0, 29, term, q * sigB.V());
    rem := Sub128(ShortShiftLeft128(rem0, 29), term);
  }

  lemma DigitPositive(x: nat, b: nat, q: nat, r: int)
    requires r == x - q * b && r < 0
    ensures q > 0
  {
  }

  lemma DigitSmall(rem: nat, b: nat, q: nat, r: nat)
    requires rem < 2 * b && r == rem * 0x2000_0000 - q * b
    ensures q < 0x4000_0000
  {
    if q >= 0x4000_0000 {
      MulMono(0x4000_0000, q, b);
    }
  }

  // The last digit: q64 is only an estimate, made exact inside the window.
  method LastDigitOf(rem0: U128, sigB: U128, q0: U32) returns (q: U32)
    requires Normalized128(sigB) && rem0.V() < 2 * sigB.V() && q0 <= 0x4000_0000
    requires Near(rem0.V() * 0x2000_0000, sigB.V(), q0)
    ensures Sticky(rem0.V() * 0x2000_0000, sigB.V(), q, q / 8 * 8, 8) && q < 0x8000_0000
  {
    hide Near;
    hide Sticky;
    ghost var x, b := rem0.V() * 0x2000_0000, sigB.V();
    if (q0 + 1) % 8 < 2 {
      var rem;
      rem, q := ExactDigit(rem0, sigB, q0);
      q := SetSticky(rem, q, x, b);
    } else {
      OutsideWindow(x, b, q0, q0 / 8 * 8, 8);
      q := q0;
    }
  }

  method SetSticky(rem: U128, q0: U32, ghost x: int, ghost b: nat) returns (q: U32)
    requires q0 <= 0x4000_0001 && rem.V() < b && q0 * b + rem.V() == x
    ensures Sticky(x, b, q, q / 8 * 8, 8) && q < 0x8000_0000
  {
    hide Sticky;
    SetInside(x, b, q0, 8, q0 / 8, q0 / 8 * 8);
    q := q0;
    if rem.v64 != 0 || rem.v0 != 0 {
      q := if q % 2 == 1 then q else q + 1;
    }
  }

  method ExactDigit(rem0: U128, sigB: U128, q0: U32) returns (rem: U128, q: U32)
    requires Normalized128(sigB) && q0 <= 0x4000_0000
    requires Near(rem0.V() * 0x2000_0000, sigB.V(), q0)
    ensures q <= 0x4000_0001 && rem.V() < sigB.V() && q * sigB.V() + rem.V() == rem0.V() * 0x2000_0000
  {
    hide Near;
    var reduced := ReduceBy(rem0, sigB, q0);
    rem, q := CorrectDigit(reduced, sigB, q0, rem0.V() * 0x2000_0000);
  }

  // One correction in either direction brings the remainder into [0, sigB).
  method CorrectDigit(rem0: U128, sigB: U128, q0: U32, ghost x: nat) returns (rem: U128, q: U32)
    requires 0 < sigB.V() < 0x1000_0000_0000_0000_0000_0000_0000_0000 && q0 <= 0x4000_0000
    requires Near(x, sigB.V(), q0) && rem0.Signed() == x - q0 * sigB.V()
    ensures q <= 0x4000_0001 && rem.V() < sigB.V() && q * sigB.V() + rem.V() == x
  {
    hide Sub128;
    hide Add128;
    rem, q := rem0, q0;
    if rem.SignBit() {
      ghost var d;
      DigitPositive(x, sigB.V(), q, rem.Signed());
      rem, d := AddBack(rem, sigB, x, q);
      q := q - 1;
    } else if Le128(sigB, rem) {
      SubExact(rem, sigB);
      assert (q + 1) * sigB.V() == q * sigB.V() + sigB.V();
      rem, q := Sub128(rem, sigB), q + 1;
    }
  }

  lemma NearBounds(x: int, b: int, q: int)
    requires Near(x, b, q)
    ensures 0 < x - q * b + b < 3 * b
  {
  }

  // 2^29 to the number of digits produced.
  function Shifted(k: nat): nat {
    if k == 0 then 1 else 0x2000_0000 * Shifted(k - 1)
  }

  lemma NextDigit(a: int, k: nat, total: int, b: int, before: int, q: int, rem: int)
    requires a * Shifted(k) == total * b + before
    requires rem == before * 0x2000_0000 - q * b
    ensures a * Shifted(k + 1) == (total * 0x2000_0000 + q) * b + rem
  {
    assert a * Shifted(k + 1) == (a * Shifted(k)) * 0x2000_0000;
    assert (total * 0x2000_0000 + q) * b == (total * b) * 0x2000_0000 + q * b;
  }

  // The digits stored so far, most significant first.
  ghost predicate Partial(qs: seq<U32>, ix: int, total: int)
    requires |qs| == 3
  {
    && (forall i :: 0 <= i < 3 && ix <= i ==> qs[i] < 0x4000_0000)
    && total == (if ix >= 3 then 0 else if ix == 2 then Join(0, 0, qs[2])
                 else if ix == 1 then Join(0, qs[2], qs[1]) else Join(qs[2], qs[1], qs[0]))
  }

  function Join(q2: nat, q1: nat, q0: nat): nat {
    (q2 * 0x2000_0000 + q1) * 0x2000_0000 + q0
  }

  // The quotient of the significands, rem0 being sigA or its double, as the
  // 128-bit significand and the extra word handed to rounding.
  method F128DivSig(rem0: U128, sigB: U128) returns (sigZ: U128, sigZExtra: U64)
    requires Normalized128(sigB) && sigB.V() <= rem0.V() < 2 * sigB.V()
    ensures Represents(rem0.V() * P112, sigB.V(), sigZ.V(), sigZExtra)
    ensures P112 <= sigZ.V() < P113
  {
    hide Near;
    hide Sticky;
    hide Shifted;
    hide ApproxRecip32;
    hide Estimated;
    ghost var b := sigB.V();
    var rem := rem0;
    LeadingWord(sigB);
    var recip32 := ApproxRecip32(sigB.v64 / 0x2_0000);
    var qs := new U32[3];
    var q: U32;
    ghost var total := 0;
    var ix := 3;
    StartDigits(rem0.V());
    while true
      invariant 0 <= ix <= 3
      invariant rem.V() < 2 * b
      invariant Partial(qs[..], ix, total)
      invariant rem0.V() * Shifted(3 - ix) == total * b + rem.V()
      decreases ix
    {
      q := NextEstimate(rem, sigB, recip32);
      ix := ix - 1;
      if ix < 0 {
        break;
      }
      ghost var before := rem.V();
      rem, q := DivStep(rem, sigB, q);
      NextDigit(rem0.V(), 2 - ix, total, b, before, q, rem.V());
      total := total * 0x2000_0000 + q;
      qs[ix] := q;
    }
    q := LastDigitOf(rem, sigB, q);
    AllDigits(rem0.V(), total, b, rem.V(), q);
    sigZ, sigZExtra := AssembleQuotient(qs[2], qs[1], qs[0], q, total);
  }

  lemma LeadingWord(sigB: U128)
    requires Normalized128(sigB)
    ensures 0x8000_0000 <= sigB.v64 / 0x2_0000 < W32
  {
  }

  method NextEstimate(rem: U128, sigB: U128, recip32: U32) returns (q: U32)
    requires Normalized128(sigB) && rem.V() < 2 * sigB.V()
    requires 0x8000_0000 <= sigB.v64 / 0x2_0000 < W32 && recip32 == ApproxRecip32(sigB.v64 / 0x2_0000)
    ensures Near(rem.V() * 0x2000_0000, sigB.V(), q) && q <= 0x4000_0000
  {
    hide ApproxRecip32;
    hide Estimated;
    hide Near;
    F128Bits(rem, sigB);
    var q64: U64 := (rem.v64 / 0x8_0000) % W32 * recip32;
    q := RoundedEstimate(rem.V(), sigB.V(), UNIT128, q64);
  }

  lemma StartDigits(a: int)
    ensures a * Shifted(0) == a
  {
  }

  lemma AllDigits(a: nat, total: nat, b: nat, rem: nat, q: nat)
    requires b > 0 && b <= a < 2 * b
    requires a * Shifted(3) == total * b + rem && Sticky(rem * 0x2000_0000, b, q, q / 8 * 8, 8)
    ensures var t := total * 0x2000_0000 + q;
            Represents(a * P112, b, t / 16, t % 16 * 0x1000_0000_0000_0000) && P112 <= t / 16 < P113
  {
    hide Sticky;
    hide Represents;
    hide Shifted;
    ThreeDigits(a, total, b, rem);
    DigitsTogether(a, b, total * 0x200_0000, q, rem * 0x2000_0000);
  }

  // Putting 16c in front of the last digit moves its cell by 16c.
  lemma DigitsTogether(a: nat, b: nat, c: nat, q: nat, y: nat)
    requires b > 0 && b <= a < 2 * b
    requires 16 * (a * P112) == (16 * c) * b + y && Sticky(y, b, q, q / 8 * 8, 8)
    ensures var t := 16 * c + q;
            Represents(a * P112, b, t / 16, t % 16 * 0x1000_0000_0000_0000) && P112 <= t / 16 < P113
  {
    hide Sticky;
    hide Represents;
    var t := 16 * c + q;
    var e := t / 8 * 8;
    CellMoved(c, q);
    StickyShift(y, b, q, q / 8 * 8, 8, 16 * c);
    StickyRepresents(a * P112, b, t / 16, t % 16, 8, 0x1000_0000_0000_0000);
    assert (16 * P112) * b <= 16 * (a * P112) < 2 * (16 * P112) * b;
    StickyRange(16 * (a * P112), b, t, e, 8, 16 * P112);
  }

  lemma CellMoved(c: nat, q: nat)
    ensures var t := 16 * c + q;
            && t / 8 * 8 == 16 * c + q / 8 * 8
            && t / 8 * 8 == 16 * (t / 16) + (if t % 16 < 8 then 0 else 8)
            && t == 16 * (t / 16) + t % 16
  {
    var t := 16 * c + q;
    var d := q / 8;
    DivModUnique(t, 8, 2 * c + d, q % 8);
    DivModUnique(t, 16, c + d / 2, d % 2 * 8 + q % 8);
  }

  lemma ThreeDigits(a: nat, total: nat, b: nat, rem: nat)
    requires a * Shifted(3) == total * b + rem
    ensures 16 * (a * P112) == (16 * (total * 0x200_0000)) * b + rem * 0x2000_0000
  {
    assert Shifted(1) == 0x2000_0000;
    assert Shifted(2) == 0x2000_0000 * 0x2000_0000;
    assert (16 * (total * 0x200_0000)) * b == (total * b) * 0x2000_0000;
  }

  // The digits shifted into place; the last four bits go to the extra word.
  method AssembleQuotient(q2: U32, q1: U32, q0: U32, q: U32, ghost total: nat)
    returns (sigZ: U128, sigZExtra: U64)
    requires q2 < 0x4000_0000 && q1 < 0x4000_0000 && q0 < 0x4000_0000 && q < 0x8000_0000
    requires total == Join(q2, q1, q0)
    requires (total * 0x2000_0000 + q) / 16 < P113
    ensures sigZ.V() == (total * 0x2000_0000 + q) / 16
    ensures sigZExtra == (total * 0x2000_0000 + q) % 16 * 0x1000_0000_0000_0000
  {
    ExtraBits(q, total);
    sigZExtra := (q * 0x1000_0000_0000_0000) % W64;
    sigZ := AddShifted(U128(q2 * 0x8_0000, q0 * 0x200_0000 + q / 16), q1);
    JoinedBits(q2, q1, q0, q);
  }

  method AddShifted(high: U128, q1: U32) returns (z: U128)
    requires q1 < 0x4000_0000 && high.V() < TOP128
    ensures z.V() == high.V() + q1 * 0x40_0000_0000_0000
  {
    hide Add128;
    hide ShortShiftLeft128;
    Pow2At54();
    var term := ShortShiftLeft128(U128(0, q1), 54);
    assert term.V() == q1 * 0x40_0000_0000_0000;
    z := Add128(high, term);
  }

  lemma Pow2At54()
    ensures Pow2(54) == 0x40_0000_0000_0000
  {
    Pow2Small();
    Pow2Sum(32, 16, 48);
    Pow2Sum(4, 2, 6);
    Pow2Sum(48, 6, 54);
  }

  lemma JoinedBits(q2: nat, q1: nat, q0: nat, q: nat)
    ensures (Join(q2, q1, q0) * 0x2000_0000 + q) / 16
         == (q2 * 0x8_0000) * W64 + q1 * 0x40_0000_0000_0000 + (q0 * 0x200_0000 + q / 16)
  {
  }

  lemma ExtraBits(q: U32, total: nat)
    ensures (q * 0x1000_0000_0000_0000) % W64 == (total * 0x2000_0000 + q) % 16 * 0x1000_0000_0000_0000
  {
    DivModUnique(q * 0x1000_0000_0000_0000, W64, q / 16, q % 16 * 0x1000_0000_0000_0000);
  }
}
