// The 128-bit helpers of SoftFloat, written on pairs of 64-bit words exactly
// as the inline definitions do, each proved to be one integer operation
// modulo 2^128.
module Words {
  import opened Arith

  const W32: int := 0x1_0000_0000
  const W64: int := 0x1_0000_0000_0000_0000
  const W128: int := 0x1_0000_0000_0000_0000_0000_0000_0000_0000
  const TOP128: int := 0x8000_0000_0000_0000_0000_0000_0000_0000

  type U32 = x: nat | x < W32
  type U64 = x: nat | x < W64

  datatype U128 = U128(v64: U64, v0: U64) {
    function V(): (r: nat)
      ensures r < W128
    {
      v64 * W64 + v0
    }

    // The test `v64 & 0x8000000000000000`.
    predicate SignBit() {
      v64 >= 0x8000_0000_0000_0000
    }

    // The value as a two's complement integer.
    function Signed(): (r: int)
      ensures -TOP128 <= r < TOP128
      ensures SignBit() <==> r < 0
      ensures r == V() || r == V() - W128
    {
      if SignBit() then V() - W128 else V()
    }
  }

  // x | b
  function OrLow(x: nat, b: bool): (r: nat)
    ensures x < W64 ==> r < W64
  {
    if b && x % 2 == 0 then x + 1 else x
  }

  lemma VInjective(a: U128, b: U128)
    requires a.V() == b.V()
    ensures a == b
  {
    DivModUnique(a.V(), W64, a.v64, a.v0);
    DivModUnique(b.V(), W64, b.v64, b.v0);
  }

  // A result known modulo 2^128 and known to be small is known exactly.
  lemma SignedExact(u: U128, x: int)
    requires u.V() == x % W128
    requires -TOP128 <= x < TOP128
    ensures u.Signed() == x
  {
  }

  function Add128(a: U128, b: U128): (z: U128)
    ensures z.V() == (a.V() + b.V()) % W128
  {
    var z0 := (a.v0 + b.v0) % W64;
    var carry := if z0 < a.v0 then 1 else 0;
    assert a.v0 + b.v0 == carry * W64 + z0;
    JoinWords(a.v64 + b.v64 + carry, z0);
    U128((a.v64 + b.v64 + carry) % W64, z0)
  }

  // Reducing the upper word reduces the pair modulo 2^128.
  lemma JoinWords(hi: int, lo: U64)
    ensures (hi % W64) * W64 + lo == (hi * W64 + lo) % W128
  {
    DivModUnique(hi * W64 + lo, W128, hi / W64, (hi % W64) * W64 + lo);
  }

  function Sub128(a: U128, b: U128): (z: U128)
    ensures z.V() == (a.V() - b.V()) % W128
  {
    var borrow := if a.v0 < b.v0 then 1 else 0;
    var z0 := (a.v0 - b.v0) % W64;
    assert a.v0 - b.v0 == z0 - borrow * W64;
    var d := a.v64 - b.v64;
    BorrowMod(d, borrow);
    JoinWords(d - borrow, z0);
    U128((d % W64 - borrow) % W64, z0)
  }

  lemma BorrowMod(d: int, borrow: int)
    ensures (d % W64 - borrow) % W64 == (d - borrow) % W64
  {
    var r := d % W64 - borrow;
    DivModUnique(d - borrow, W64, d / W64 + r / W64, r % W64);
  }

  predicate Le128(a: U128, b: U128)
    ensures Le128(a, b) <==> a.V() <= b.V()
  {
    a.v64 < b.v64 || (a.v64 == b.v64 && a.v0 <= b.v0)
  }

  predicate Lt128(a: U128, b: U128)
    ensures Lt128(a, b) <==> a.V() < b.V()
  {
    a.v64 < b.v64 || (a.v64 == b.v64 && a.v0 < b.v0)
  }

  // `|` of the two halves is written `+`: their bits are disjoint.
  function ShortShiftLeft128(a: U128, dist: nat): (z: U128)
    requires 1 <= dist <= 63
    ensures z.V() == (a.V() * Pow2(dist)) % W128
  {
    ShiftLeftWords(a, dist);
    U128((a.v64 * Pow2(dist)) % W64 + a.v0 / Pow2(64 - dist), (a.v0 * Pow2(dist)) % W64)
  }

  // x * 2^dist, split at 2^64: the quotient is the bits shifted out.
  lemma ShiftLeftWord(x: U64, p: nat, s: nat)
    requires p > 0 && s > 0 && p * s == W64
    ensures x * p == (x / s) * W64 + (x % s) * p
    ensures x / s == (x * p) / W64 && (x % s) * p == (x * p) % W64
    ensures x / s < p && (x % s) * p <= W64 - p
  {
    var h, l := x / s, x % s;
    DivMod(x, s);
    assert (h * s + l) * p == h * (p * s) + l * p;
    MulMono(l, s - 1, p);
    assert (s - 1) * p == W64 - p;
    MulMono(0, l, p);
    DivModUnique(x * p, W64, h, l * p);
    if h >= p {
      MulMono(p, h, s);
    }
  }

  lemma ShiftedParts(x: U64, p: nat, s: nat) returns (q: nat, r: U64)
    requires p > 0 && s > 0 && p * s == W64
    ensures q == x / s && r == (x * p) % W64 && x * p == q * W64 + r && q < p && r <= W64 - p
  {
    ShiftLeftWord(x, p, s);
    q, r := x / s, (x * p) % W64;
  }

  lemma ShiftLeftWords(a: U128, dist: nat)
    requires 1 <= dist <= 63
    ensures (a.v64 * Pow2(dist)) % W64 + a.v0 / Pow2(64 - dist) < W64
    ensures ((a.v64 * Pow2(dist)) % W64 + a.v0 / Pow2(64 - dist)) * W64 + (a.v0 * Pow2(dist)) % W64
         == (a.V() * Pow2(dist)) % W128
  {
    Pow2Add(dist, 64 - dist);
    Pow2Wide();
    ShiftLeftPair(a.v64, a.v0, Pow2(dist), Pow2(64 - dist));
  }

  lemma ShiftLeftPair(x1: U64, x0: U64, p: nat, s: nat)
    requires p > 0 && s > 0 && p * s == W64
    ensures (x1 * p) % W64 + x0 / s < W64
    ensures ((x1 * p) % W64 + x0 / s) * W64 + (x0 * p) % W64 == ((x1 * W64 + x0) * p) % W128
  {
    var q1, r1 := ShiftedParts(x1, p, s);
    var q0, r0 := ShiftedParts(x0, p, s);
    ShiftedSum(x1, x0, p);
    JoinShifted((x1 * W64 + x0) * p, q1, r1, q0, r0, p, x1 * p, x0 * p);
  }

  lemma ShiftedSum(x1: nat, x0: nat, p: nat)
    ensures (x1 * W64 + x0) * p == (x1 * p) * W64 + x0 * p
  {
    Distribute(x1 * W64, x0, p);
    Associate(x1, W64, p);
    Commute(W64, p);
    Associate(x1, p, W64);
  }

  lemma JoinShifted(x: nat, q1: nat, r1: nat, q0: nat, r0: U64, p: nat, x1: nat, x0: nat)
    requires x == x1 * W64 + x0 && x1 == q1 * W64 + r1 && x0 == q0 * W64 + r0
    requires q0 < p && r1 <= W64 - p
    ensures r1 + q0 < W64
    ensures (r1 + q0) * W64 + r0 == x % W128
  {
    DivModUnique(x, W128, q1, (r1 + q0) * W64 + r0);
  }

  function Mul128By32(a: U128, b: U32): (z: U128)
    ensures z.V() == (a.V() * b) % W128
  {
    var z0 := (a.v0 * b) % W64;
    var mid := (a.v0 / W32) * b;
    var carry := (z0 / W32 - mid) % W32;
    Mul128Carry(a.v0, b);
    Mul128Words(a, b);
    U128((a.v64 * b + (mid + carry) / W32) % W64, z0)
  }

  // The carry trick: the middle product and the low word determine the high
  // half of a 64x32 product.
  lemma Mul128Carry(a0: U64, b: U32)
    ensures var mid := (a0 / W32) * b;
            (mid + ((a0 * b) % W64 / W32 - mid) % W32) / W32 == a0 * b / W64
  {
    var h, l := a0 / W32, a0 % W32;
    var mid := h * b;
    Distribute(h * W32, l, b);
    Associate(W32, h, b);
    MulMono(l, W32 - 1, b);
    HighHalf(a0 * b, mid, l * b);
  }

  lemma HighHalf(p: nat, mid: nat, low: nat)
    requires p == mid * W32 + low && low < W64
    ensures (mid + (p % W64 / W32 - mid) % W32) / W32 == p / W64
  {
    var c := low / W32;
    var t := mid + c;
    DivModUnique(p, W32, t, low % W32);
    DivModUnique(p, W64, t / W32, t % W32 * W32 + low % W32);
    DivModUnique(p % W64, W32, t % W32, low % W32);
    DivModUnique(t % W32 - mid, W32, -(t / W32) , c);
  }

  lemma Mul128Words(a: U128, b: U32)
    ensures ((a.v64 * b + a.v0 * b / W64) % W64) * W64 + (a.v0 * b) % W64 == (a.V() * b) % W128
  {
    var hi, lo := a.v0 * b / W64, (a.v0 * b) % W64;
    var t := a.v64 * b + hi;
    assert a.V() * b == (a.v64 * b) * W64 + a.v0 * b;
    assert a.V() * b == (t / W64) * W128 + ((t % W64) * W64 + lo);
    DivModUnique(a.V() * b, W128, t / W64, (t % W64) * W64 + lo);
  }

  function Mul64ByShifted32To128(a: U64, b: U32): (z: U128)
    ensures z.V() == a * b * W32
  {
    var mid := (a % W32) * b;
    var v0 := (mid * W32) % W64;
    Mul64Words(a, b);
    U128((a / W32) * b + mid / W32, v0)
  }

  lemma Mul64Words(a: U64, b: U32)
    ensures (a / W32) * b + (a % W32) * b / W32 < W64
    ensures ((a / W32) * b + (a % W32) * b / W32) * W64 + ((a % W32) * b * W32) % W64 == a * b * W32
  {
    var h, l := a / W32, a % W32;
    MulMono(h, W32 - 1, b);
    MulMono(l, W32 - 1, b);
    assert a * b == (h * b) * W32 + l * b by {
      assert (h * W32 + l) * b == (h * b) * W32 + l * b;
    }
    JoinShifted32(a * b, h * b, l * b);
  }

  lemma JoinShifted32(x: nat, hi: nat, mid: nat)
    requires x == hi * W32 + mid
    requires hi <= (W32 - 1) * (W32 - 1) && mid <= (W32 - 1) * (W32 - 1)
    ensures hi + mid / W32 < W64
    ensures (hi + mid / W32) * W64 + (mid * W32) % W64 == x * W32
  {
    DivModUnique(mid * W32, W64, mid / W32, mid % W32 * W32);
  }
}
