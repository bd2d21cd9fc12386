// softfloat_shiftRightJam128Extra: shifting a 128-bit significand with its
// extra word right while remembering only which side of one half the
// discarded bits lie on.
module Jamming {
  import opened Arith
  import opened Words
  import opened Rounding

  datatype U128Extra = U128Extra(v: U128, extra: U64)

  const HALF64: nat := 0x8000_0000_0000_0000

  function ShiftRightJam128Extra(sig: U128, extra: U64, dist: nat): U128Extra
    requires dist > 0
  {
    if dist < 64 then
      ShiftFactors(dist);
      U128Extra(
        ShiftPair(sig.v64, sig.v0, Pow2(dist), Pow2(64 - dist)),
        OrLow((sig.v0 * Pow2(64 - dist)) % W64, extra != 0))
    else if dist == 64 then
      U128Extra(U128(0, sig.v64), OrLow(sig.v0, extra != 0))
    else if dist < 128 then
      ShiftFactors(dist - 64);
      U128Extra(
        ShiftPair(0, sig.v64, Pow2(dist - 64), Pow2(128 - dist)),
        OrLow((sig.v64 * Pow2(128 - dist)) % W64, extra != 0 || sig.v0 != 0))
    else if dist == 128 then
      U128Extra(U128(0, 0), OrLow(sig.v64, extra != 0 || sig.v0 != 0))
    else
      U128Extra(U128(0, 0), OrLow(if sig.v64 != 0 then 1 else 0, extra != 0 || sig.v0 != 0))
  }

  lemma ShiftFactors(dist: nat)
    requires 0 < dist < 64
    ensures Pow2(dist) >= 2 && Pow2(64 - dist) > 0 && Pow2(64 - dist) * Pow2(dist) == W64
  {
    Pow2Add(64 - dist, dist);
    Pow2Wide();
  }

  // The two words of a right shift by fewer than 64 bits, p = 2^dist.
  lemma ShiftRightPair(x1: U64, x0: U64, p: nat, s: nat)
    requires p > 0 && s > 0 && s * p == W64
    ensures 0 <= x1 / p < W64 && 0 <= x0 / p < W64
    ensures (x1 * s) % W64 + x0 / p < W64
    ensures (x0 * s) % W64 == x0 % p * s
    ensures (x1 / p * W64 + ((x1 * s) % W64 + x0 / p)) * p == x1 * W64 + x0 - x0 % p
  {
    ShiftLeftWord(x1, s, p);
    ShiftLeftWord(x0, s, p);
    DivMod(x1, p);
    DivMod(x0, p);
    DivSmall(x1, p);
    DivSmall(x0, p);
    RejoinShifted(x1 / p, x1 % p, x0 / p, p, s);
  }

  lemma DivSmall(x: U64, p: nat)
    requires p > 0
    ensures 0 <= x / p < W64
  {
    DivMod(x, p);
    var q := x / p;
    if q >= W64 {
      MulMono(1, p, q);
    }
  }

  lemma RejoinShifted(h1: nat, l1: nat, h0: nat, p: nat, s: nat)
    requires s * p == W64
    ensures (h1 * W64 + (l1 * s + h0)) * p == (h1 * p + l1) * W64 + h0 * p
  {
    assert (l1 * s) * p == l1 * (s * p);
  }

  // Scaling the discarded bits up to a full word keeps their position.
  lemma JamWord(low: nat, p: nat, s: nat, x: U64, sticky: bool)
    requires p >= 2 && p % 2 == 0 && s >= 2 && s % 2 == 0 && p * s == W64
    requires low < p && x == low * s
    ensures Place(OrLow(x, sticky), W64) == Jam(low, p, sticky)
  {
    var h := p / 2;
    assert (2 * h) * s == 2 * (h * s);
    assert x % 2 == 0 by {
      assert low * s == 2 * (low * (s / 2));
    }
    if low > 0 {
      MulMono(1, low, s);
    }
    if low < h {
      MulMono(low, h - 1, s);
      assert (h - 1) * s == h * s - s;
    } else if low > h {
      MulMono(h + 1, low, s);
      assert (h + 1) * s == h * s + s;
    }
  }

  ghost predicate Jammed(sig: U128, extra: U64, p: nat, z: U128Extra)
  {
    var low := sig.V() - z.v.V() * p;
    0 <= low < p && Place(z.extra, W64) == Jam(low, p, extra != 0)
  }

  function ShiftPair(x1: U64, x0: U64, p: nat, s: nat): (v: U128)
    requires p >= 2 && s > 0 && s * p == W64
    ensures 0 <= x1 * W64 + x0 - v.V() * p < p
    ensures (x0 * s) % W64 == (x1 * W64 + x0 - v.V() * p) * s
  {
    ShiftRightPair(x1, x0, p, s);
    DivMod(x0, p);
    U128(x1 / p, (x1 * s) % W64 + x0 / p)
  }

  lemma JamPair(sig: U128, extra: U64, p: nat, s: nat)
    requires p >= 2 && p % 2 == 0 && s >= 2 && s % 2 == 0 && s * p == W64
    ensures Jammed(sig, extra, p,
              U128Extra(ShiftPair(sig.v64, sig.v0, p, s), OrLow((sig.v0 * s) % W64, extra != 0)))
  {
    hide ShiftPair;
    hide OrLow;
    hide Jam;
    hide Place;
    assert p * s == s * p;
    var v := ShiftPair(sig.v64, sig.v0, p, s);
    JamWord(sig.V() - v.V() * p, p, s, (sig.v0 * s) % W64, extra != 0);
  }

  lemma JamBelow64(sig: U128, extra: U64, dist: nat)
    requires 0 < dist < 64
    ensures Jammed(sig, extra, Pow2(dist), ShiftRightJam128Extra(sig, extra, dist))
  {
    hide Jammed;
    hide OrLow;
    Pow2Even(dist);
    Pow2Even(64 - dist);
    ShiftFactors(dist);
    JamPair(sig, extra, Pow2(dist), Pow2(64 - dist));
  }

  lemma JamHigh(sig: U128, extra: U64, p: nat, s: nat)
    requires p >= 2 && p % 2 == 0 && s >= 2 && s % 2 == 0 && s * p == W64
    ensures Jammed(sig, extra, p * W64,
              U128Extra(ShiftPair(0, sig.v64, p, s), OrLow((sig.v64 * s) % W64, extra != 0 || sig.v0 != 0)))
  {
    hide ShiftPair;
    hide OrLow;
    hide Jam;
    hide Place;
    assert p * s == s * p;
    var v := ShiftPair(0, sig.v64, p, s);
    var low := sig.v64 - v.V() * p;
    JamWord(low, p, s, (sig.v64 * s) % W64, extra != 0 || sig.v0 != 0);
    JamDeeper(v.V(), low, sig.v0, p / 2, extra != 0);
  }

  // A whole further word below the sticky bit only feeds the sticky bit.
  lemma JamDeeper(hi: nat, low: nat, x0: U64, h: nat, sticky: bool)
    requires low < 2 * h
    ensures 0 <= low * W64 + x0 < 2 * h * W64
    ensures Jam(low * W64 + x0, 2 * h * W64, sticky) == Jam(low, 2 * h, sticky || x0 != 0)
    ensures (hi * (2 * h) + low) * W64 + x0 - hi * (2 * h * W64) == low * W64 + x0
  {
    assert (hi * (2 * h)) * W64 == hi * (2 * h * W64);
  }

  lemma JamAbove64(sig: U128, extra: U64, dist: nat)
    requires 64 < dist < 128
    ensures Jammed(sig, extra, Pow2(dist), ShiftRightJam128Extra(sig, extra, dist))
  {
    hide Jammed;
    hide OrLow;
    Pow2Even(dist - 64);
    Pow2Even(128 - dist);
    ShiftFactors(dist - 64);
    assert Pow2(dist) == Pow2(dist - 64) * W64 by {
      Pow2Add(dist - 64, 64);
      Pow2Wide();
    }
    JamHigh(sig, extra, Pow2(dist - 64), Pow2(128 - dist));
  }

  lemma JamWord64(sig: U128, extra: U64)
    ensures Jammed(sig, extra, W64, U128Extra(U128(0, sig.v64), OrLow(sig.v0, extra != 0)))
  {
  }

  lemma JamWord128(sig: U128, extra: U64)
    ensures Jammed(sig, extra, W128, U128Extra(U128(0, 0), OrLow(sig.v64, extra != 0 || sig.v0 != 0)))
  {
  }

  lemma JamBeyond(sig: U128, extra: U64, p: nat)
    requires p >= 2 * W128
    ensures Jammed(sig, extra, p,
              U128Extra(U128(0, 0), OrLow(if sig.v64 != 0 then 1 else 0, extra != 0 || sig.v0 != 0)))
  {
  }

  lemma JamWhole(sig: U128, extra: U64, dist: nat)
    requires dist == 64 || dist >= 128
    ensures Jammed(sig, extra, Pow2(dist), ShiftRightJam128Extra(sig, extra, dist))
  {
    hide Jammed;
    hide OrLow;
    Pow2Wide();
    if dist == 64 {
      JamWord64(sig, extra);
    } else if dist == 128 {
      JamWord128(sig, extra);
    } else {
      Pow2Mono(128, dist);
      JamBeyond(sig, extra, Pow2(dist));
    }
  }

  // The shifted value is the floor, and the extra word has the position of
  // everything discarded.
  lemma ShiftRightJamIs(sig: U128, extra: U64, dist: nat)
    requires dist > 0
    ensures Jammed(sig, extra, Pow2(dist), ShiftRightJam128Extra(sig, extra, dist))
  {
    if dist < 64 {
      JamBelow64(sig, extra, dist);
    } else if dist == 64 || dist >= 128 {
      JamWhole(sig, extra, dist);
    } else {
      JamAbove64(sig, extra, dist);
    }
  }
}
