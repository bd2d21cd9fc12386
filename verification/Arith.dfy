// Integer arithmetic shared by the models: powers of two and the few
// nonlinear facts the digit recurrences and the rounding proofs rely on.
module Arith {
  function Abs(x: int): nat { if x < 0 then -x else x }

  function Pow2(n: nat): (r: nat)
    ensures r >= 1
  {
    if n == 0 then 1 else 2 * Pow2(n - 1)
  }

  lemma {:induction false} Pow2Add(a: nat, b: nat)
    ensures Pow2(a + b) == Pow2(a) * Pow2(b)
    decreases a
  {
    if a != 0 {
      Pow2Add(a - 1, b);
      assert a + b - 1 == (a - 1) + b;
      assert Pow2(a) * Pow2(b) == 2 * (Pow2(a - 1) * Pow2(b));
    }
  }

  // The same with the sum named, which spares the solver an equality of sums.
  lemma Pow2Sum(a: nat, b: nat, c: nat)
    requires c == a + b
    ensures Pow2(c) == Pow2(a) * Pow2(b)
  {
    Pow2Add(a, b);
  }

  lemma {:induction false} Pow2Mono(a: nat, b: nat)
    requires a <= b
    ensures Pow2(a) <= Pow2(b)
    ensures a < b ==> 2 * Pow2(a) <= Pow2(b)
    decreases b
  {
    if a < b {
      Pow2Mono(a, b - 1);
    }
  }

  lemma Pow2Even(k: nat)
    requires k > 0
    ensures Pow2(k) >= 2 && Pow2(k) % 2 == 0
  {
  }

  lemma Pow2Small()
    ensures Pow2(0) == 1 && Pow2(1) == 2 && Pow2(2) == 4 && Pow2(3) == 8 && Pow2(4) == 0x10
    ensures Pow2(8) == 0x100 && Pow2(16) == 0x1_0000
    ensures Pow2(29) == 0x2000_0000 && Pow2(31) == 0x8000_0000 && Pow2(32) == 0x1_0000_0000
  {
    assert Pow2(4) == 2 * Pow2(3) == 4 * Pow2(2) == 8 * Pow2(1) == 0x10;
    Pow2Add(4, 4);
    Pow2Add(8, 8);
    Pow2Add(16, 8);
    Pow2Add(24, 4);
    Pow2Add(28, 1);
    Pow2Add(28, 3);
    Pow2Add(16, 16);
  }

  lemma Pow2Wide()
    ensures Pow2(48) == 0x1_0000_0000_0000
    ensures Pow2(64) == 0x1_0000_0000_0000_0000
    ensures Pow2(112) == 0x1_0000_0000_0000_0000_0000_0000_0000
    ensures Pow2(113) == 0x2_0000_0000_0000_0000_0000_0000_0000
    ensures Pow2(128) == 0x1_0000_0000_0000_0000_0000_0000_0000_0000
  {
    Pow2Small();
    Pow2Add(32, 16);
    Pow2Add(32, 32);
    Pow2Add(64, 48);
    Pow2Add(112, 16);
    assert Pow2(113) == 2 * Pow2(112);
  }

  lemma MulMono(x: int, y: int, z: int)
    requires x <= y && 0 <= z
    ensures x * z <= y * z
  {
  }

  lemma MulMonoStrict(x: int, y: int, z: int)
    requires x < y && 0 < z
    ensures x * z < y * z
  {
  }

  lemma Commute(a: int, b: int)
    ensures a * b == b * a
  {
  }

  lemma Associate(a: int, b: int, c: int)
    ensures (a * b) * c == a * (b * c)
  {
  }

  lemma Distribute(a: int, b: int, c: int)
    ensures (a + b) * c == a * c + b * c
  {
  }

  // Cancelling a positive factor.
  lemma MulCancel(x: int, y: int, z: int)
    requires 0 < z && x * z < y * z
    ensures x < y
  {
    if x >= y {
      MulMono(y, x, z);
    }
  }

  lemma DivMod(x: int, d: int)
    requires d > 0
    ensures x == (x / d) * d + x % d && 0 <= x % d < d
  {
  }

  // Quotient and remainder are the only pair of that shape.
  lemma DivModUnique(x: int, d: int, q: int, r: int)
    requires d > 0 && x == q * d + r && 0 <= r < d
    ensures q == x / d && r == x % d
  {
    var k := x / d;
    DivMod(x, d);
    assert (q - k) * d == x % d - r;
    if q - k >= 1 {
      MulMono(1, q - k, d);
    } else if q - k <= -1 {
      MulMono(q - k, -1, d);
    }
  }
}
