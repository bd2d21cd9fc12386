// 128-bit integers in arrays of four 32-bit words, low word first, and the
// loops of SoftFloat that add, subtract, negate and reduce them in place.
module WordArray {
  import opened Arith
  import opened Words

  const P96: int := 0x1_0000_0000_0000_0000_0000_0000

  // The same 128 bits as two 64-bit words.
  function Joined(s: seq<U32>): U128
    requires |s| == 4
  {
    U128(s[3] * W32 + s[2], s[1] * W32 + s[0])
  }

  function Weight(i: nat): (w: nat)
    requires i <= 4
    ensures w > 0
  {
    if i == 0 then 1 else if i == 1 then W32 else if i == 2 then W64 else if i == 3 then P96 else W128
  }

  // The words below i, and those from i on, as integers.
  function Low(s: seq<U32>, i: nat): (v: nat)
    requires |s| == 4 && i <= 4
  {
    (if i > 0 then s[0] else 0) + (if i > 1 then s[1] * W32 else 0) + (if i > 2 then s[2] * W64 else 0)
    + (if i > 3 then s[3] * P96 else 0)
  }

  function High(s: seq<U32>, i: nat): (v: nat)
    requires |s| == 4 && i <= 4
  {
    if i == 4 then 0
    else if i == 3 then s[3]
    else if i == 2 then s[2] + s[3] * W32
    else if i == 1 then s[1] + s[2] * W32 + s[3] * W64
    else s[0] + s[1] * W32 + s[2] * W64 + s[3] * P96
  }

  lemma SplitAt(s: seq<U32>, i: nat)
    requires |s| == 4 && i <= 4
    ensures Joined(s).V() == High(s, i) * Weight(i) + Low(s, i)
    ensures Low(s, i) < Weight(i)
    ensures i < 4 ==> High(s, i) == High(s, i + 1) * W32 + s[i] && Weight(i + 1) == W32 * Weight(i)
    ensures i < 4 ==> Low(s, i + 1) == Low(s, i) + s[i] * Weight(i)
  {
  }

  // Low reads the words below i only.
  lemma LowPrefix(s: seq<U32>, t: seq<U32>, i: nat)
    requires |s| == 4 && |t| == 4 && i <= 4 && s[..i] == t[..i]
    ensures Low(s, i) == Low(t, i)
  {
    assert forall j | 0 <= j < i :: s[j] == s[..i][j] == t[..i][j] == t[j];
  }

  lemma WeightPow(i: nat)
    requires i <= 3
    ensures Weight(i) == Pow2(32 * i)
  {
    hide Pow2;
    Pow2Small();
    Pow2Wide();
    Pow2Sum(32, 64, 96);
  }

  // ---- the loops ----

  // One word of a sum at weight w.
  lemma AddWord(x: nat, y: nat, carry: nat, z: nat, carry': nat, lx: int, ly: int, lz: int, w: nat)
    requires z + carry' * W32 == x + y + carry && lz + carry * w == lx + ly
    ensures (lz + z * w) + carry' * (W32 * w) == (lx + x * w) + (ly + y * w)
  {
    assert (z + carry' * W32) * w == z * w + carry' * (W32 * w);
    assert (x + y + carry) * w == x * w + y * w + carry * w;
  }

  lemma CarryOf(x: U32, y: U32, carry: nat, z: U32, carry': nat)
    requires carry <= 1 && z == (x + y + carry) % W32 && carry' == (if z != x then (if z < x then 1 else 0) else carry)
    ensures z + carry' * W32 == x + y + carry
  {
  }

  // softfloat_addM; the result may be either operand.
  method AddM(a: array<U32>, b: array<U32>, z: array<U32>)
    requires a.Length == 4 && b.Length == 4 && z.Length == 4
    modifies z
    ensures Joined(z[..]).V() == (old(Joined(a[..]).V()) + old(Joined(b[..]).V())) % W128
  {
    hide Low;
    hide High;
    hide Joined;
    hide Weight;
    ghost var sa, sb := a[..], b[..];
    var index: nat, carry: nat := 0, 0;
    LowNone(sa);
    LowNone(sb);
    LowNone(z[..]);
    while true
      invariant index <= 3 && carry <= 1
      invariant forall j | index <= j < 4 :: a[j] == sa[j] && b[j] == sb[j]
      invariant Low(z[..], index) + carry * Weight(index) == Low(sa, index) + Low(sb, index)
      decreases 3 - index
    {
      var wordA, wordB := a[index], b[index];
      var wordZ: U32 := (wordA + wordB + carry) % W32;
      ghost var z0 := z[..];
      z[index] := wordZ;
      ghost var carry' := if wordZ != wordA then (if wordZ < wordA then 1 else 0) else carry;
      CarryOf(wordA, wordB, carry, wordZ, carry');
      LowPrefix(z0, z[..], index);
      SplitAt(sa, index);
      SplitAt(sb, index);
      SplitAt(z[..], index);
      AddWord(wordA, wordB, carry, wordZ, carry', Low(sa, index), Low(sb, index), Low(z0, index), Weight(index));
      if index == 3 {
        WholeSum(sa, sb, z[..], carry');
        return;
      }
      if wordZ != wordA {
        carry := if wordZ < wordA then 1 else 0;
      }
      index := index + 1;
    }
  }

  lemma LowNone(s: seq<U32>)
    requires |s| == 4
    ensures Low(s, 0) == 0
  {
  }

  lemma WholeSum(sa: seq<U32>, sb: seq<U32>, z: seq<U32>, carry: int)
    requires |sa| == 4 && |sb| == 4 && |z| == 4 && Low(z, 4) + carry * Weight(4) == Low(sa, 4) + Low(sb, 4)
    ensures Joined(z).V() == (Joined(sa).V() + Joined(sb).V()) % W128
  {
    DivModUnique(Joined(sa).V() + Joined(sb).V(), W128, carry, Joined(z).V());
  }

  lemma SubWord(x: nat, y: nat, borrow: nat, z: nat, borrow': nat, lx: int, ly: int, lz: int, w: nat)
    requires z - borrow' * W32 == x - y - borrow && lz - borrow * w == lx - ly
    ensures (lz + z * w) - borrow' * (W32 * w) == (lx + x * w) - (ly + y * w)
  {
    assert (z - borrow' * W32) * w == z * w - borrow' * (W32 * w);
    assert (x - y - borrow) * w == x * w - y * w - borrow * w;
  }

  lemma BorrowOf(x: nat, y: nat, borrow: nat, z: nat, borrow': nat)
    requires x < W32 && y < W32 && borrow <= 1 && z == (x - y - borrow) % W32
    requires borrow' == if (if borrow == 1 then x <= y else x < y) then 1 else 0
    ensures z - borrow' * W32 == x - y - borrow
  {
  }

  // softfloat_subM; the result may be the minuend.
  method SubM(a: array<U32>, b: array<U32>, z: array<U32>)
    requires a.Length == 4 && b.Length == 4 && z.Length == 4
    modifies z
    ensures Joined(z[..]).V() == (old(Joined(a[..]).V()) - old(Joined(b[..]).V())) % W128
  {
    hide Low;
    hide High;
    hide Joined;
    hide Weight;
    ghost var sa, sb := a[..], b[..];
    var index: nat, borrow: nat := 0, 0;
    LowNone(sa);
    LowNone(sb);
    LowNone(z[..]);
    while true
      invariant index <= 3 && borrow <= 1
      invariant forall j | index <= j < 4 :: a[j] == sa[j] && b[j] == sb[j]
      invariant Low(z[..], index) - borrow * Weight(index) == Low(sa, index) - Low(sb, index)
      decreases 3 - index
    {
      var wordA, wordB := a[index], b[index];
      var wordZ: U32 := (wordA - wordB - borrow) % W32;
      ghost var z0 := z[..];
      z[index] := wordZ;
      ghost var borrow' := if (if borrow == 1 then wordA <= wordB else wordA < wordB) then 1 else 0;
      BorrowOf(wordA, wordB, borrow, wordZ, borrow');
      LowPrefix(z0, z[..], index);
      SplitAt(sa, index);
      SplitAt(sb, index);
      SplitAt(z[..], index);
      SubWord(wordA, wordB, borrow, wordZ, borrow', Low(sa, index), Low(sb, index), Low(z0, index), Weight(index));
      if index == 3 {
        WholeDifference(sa, sb, z[..], borrow');
        return;
      }
      borrow := if (if borrow == 1 then wordA <= wordB else wordA < wordB) then 1 else 0;
      index := index + 1;
    }
  }

  lemma WholeDifference(sa: seq<U32>, sb: seq<U32>, z: seq<U32>, borrow: int)
    requires |sa| == 4 && |sb| == 4 && |z| == 4 && Low(z, 4) - borrow * Weight(4) == Low(sa, 4) - Low(sb, 4)
    ensures Joined(z).V() == (Joined(sa).V() - Joined(sb).V()) % W128
  {
    hide Low;
    hide Joined;
    LowAll(sa);
    LowAll(sb);
    LowAll(z);
    DivModUnique(Joined(sa).V() - Joined(sb).V(), W128, -borrow, Joined(z).V());
  }

  lemma NegWord(x: nat, carry: nat, z: nat, carry': nat, lx: int, lz: int, w: nat)
    requires z + carry' * W32 == W32 - 1 - x + carry && lz + carry * w == w - lx
    ensures (lz + z * w) + carry' * (W32 * w) == W32 * w - (lx + x * w)
  {
    assert (z + carry' * W32) * w == z * w + carry' * (W32 * w);
    assert (W32 - 1 - x + carry) * w == W32 * w - w - x * w + carry * w;
  }

  lemma NegOf(x: U32, carry: nat, z: U32, carry': nat)
    requires carry <= 1 && z == (W32 - 1 - x + carry) % W32 && carry' == if z != 0 then 0 else carry
    ensures z + carry' * W32 == W32 - 1 - x + carry
  {
  }

  // softfloat_negXM
  method NegXM(z: array<U32>)
    requires z.Length == 4
    modifies z
    ensures Joined(z[..]).V() == (W128 - old(Joined(z[..]).V())) % W128
  {
    hide Low;
    hide High;
    hide Joined;
    hide Weight;
    ghost var s := z[..];
    var index: nat, carry: nat := 0, 1;
    LowNone(s);
    assert Weight(0) == 1 by { WeightZero(); }
    while true
      invariant index <= 3 && carry <= 1
      invariant forall j | index <= j < 4 :: z[j] == s[j]
      invariant Low(z[..], index) + carry * Weight(index) == Weight(index) - Low(s, index)
      decreases 3 - index
    {
      ghost var z0 := z[..];
      var word: U32 := (W32 - 1 - z[index] + carry) % W32;
      z[index] := word;
      ghost var carry': nat := if word != 0 then 0 else carry;
      NegOf(s[index], carry, word, carry');
      LowPrefix(z0, z[..], index);
      SplitAt(s, index);
      SplitAt(z[..], index);
      NegWord(s[index], carry, word, carry', Low(s, index), Low(z0, index), Weight(index));
      if index == 3 {
        WholeNegation(s, z[..], carry');
        return;
      }
      index := index + 1;
      if word != 0 {
        carry := 0;
      }
    }
  }

  lemma WeightZero()
    ensures Weight(0) == 1
  {
  }

  lemma WholeNegation(s: seq<U32>, z: seq<U32>, carry: int)
    requires |s| == 4 && |z| == 4 && Low(z, 4) + carry * Weight(4) == Weight(4) - Low(s, 4)
    ensures Joined(z).V() == (W128 - Joined(s).V()) % W128
  {
    LowAll(s);
    LowAll(z);
    DivModUnique(W128 - Joined(s).V(), W128, carry, Joined(z).V());
  }

  // ---- rem * 2^dist - b * q ----

  // The words of the shifted remainder: `high` is what the word below pushes
  // up.
  lemma ShiftWord(x: U32, dist: nat)
    requires 1 <= dist <= 31
    ensures x * Pow2(dist) == x / Pow2(32 - dist) * W32 + x * Pow2(dist) % W32
    ensures x / Pow2(32 - dist) < Pow2(dist) && x * Pow2(dist) % W32 + Pow2(dist) <= W32
  {
    hide Pow2;
    Pow2Sum(dist, 32 - dist, 32);
    Pow2Small();
    ShiftParts(x, Pow2(dist), Pow2(32 - dist));
  }

  lemma ShiftParts(x: U32, p: nat, s: nat)
    requires p > 0 && s > 0 && p * s == W32
    ensures x * p == x / s * W32 + x * p % W32
    ensures x / s < p && x * p % W32 + p <= W32
  {
    DivMod(x, s);
    var h, l := x / s, x % s;
    assert (h * s + l) * p == h * (p * s) + l * p;
    MulMono(l, s - 1, p);
    assert (s - 1) * p == W32 - p;
    MulMono(0, l, p);
    DivModUnique(x * p, W32, h, l * p);
    if h >= p {
      MulMono(p, h, s);
    }
  }

  lemma ProductWord(x: U32, q: U32, high: nat)
    requires high < W32
    ensures x * q + high < W64 && (x * q + high) / W32 < W32
    ensures x * q + high == (x * q + high) / W32 * W32 + (x * q + high) % W32
  {
    MulMono(x, W32 - 1, q);
    MulMono(q, W32 - 1, W32 - 1);
    DivMod(x * q + high, W32);
  }

  // One word of the difference of a shifted word and a product word: hs and
  // hp are what the words below push up.
  method StepWordOf(wordRem: U32, wordB: U32, q: U32, dist: nat, hs: nat, hp: nat, borrow: nat)
    returns (wordZ: U32, hs': nat, hp': nat, borrow': nat)
    requires 1 <= dist <= 31 && hs < Pow2(dist) && hp < W32 && borrow <= 1
    ensures hs' < Pow2(dist) && hp' < W32 && borrow' <= 1
    ensures wordZ + hs' * W32 - hp' * W32 - borrow' * W32 == wordRem * Pow2(dist) + hs - wordB * q - hp - borrow
  {
    hide Pow2;
    ShiftWord(wordRem, dist);
    ProductWord(wordB, q, hp);
    var dwordProd: U64 := wordB * q + hp;
    var wordShiftedRem: U32 := hs + wordRem * Pow2(dist) % W32;
    var wordProd: U32 := dwordProd % W32;
    wordZ := (wordShiftedRem - wordProd - borrow) % W32;
    borrow' := if (if borrow == 1 then wordShiftedRem <= wordProd else wordShiftedRem < wordProd) then 1 else 0;
    BorrowOf(wordShiftedRem, wordProd, borrow, wordZ, borrow');
    hs', hp' := wordRem / Pow2(32 - dist), dwordProd / W32;
  }

  lemma StepWord(r: nat, b: nat, q: nat, d: nat, k: int, z: nat, k': int, lr: int, lb: int, lz: int, w: nat)
    requires z + k' * W32 == r * d - b * q + k && lz + k * w == lr * d - lb * q
    ensures (lz + z * w) + k' * (W32 * w) == (lr + r * w) * d - (lb + b * w) * q
  {
    assert (lr + r * w) * d == lr * d + (r * d) * w;
    assert (lb + b * w) * q == lb * q + (b * q) * w;
    StepScaled(r * d, b * q, k, z, k', w);
  }

  lemma StepScaled(rd: nat, bq: nat, k: int, z: nat, k': int, w: nat)
    requires z + k' * W32 == rd - bq + k
    ensures z * w + k' * (W32 * w) == rd * w - bq * w + k * w
  {
    assert (z + k' * W32) * w == z * w + k' * (W32 * w);
    assert (rd - bq + k) * w == rd * w - bq * w + k * w;
  }

  // softfloat_remStepMBy32; the result may be the remainder.
  method RemStepMBy32(rem: array<U32>, dist: nat, b: array<U32>, q: U32, z: array<U32>)
    requires rem.Length == 4 && b.Length == 4 && z.Length == 4 && z != b && 1 <= dist <= 31
    modifies z
    ensures Joined(z[..]).V() == (old(Joined(rem[..]).V()) * Pow2(dist) - old(Joined(b[..]).V()) * q) % W128
  {
    hide Low;
    hide High;
    hide Joined;
    hide Weight;
    hide Pow2;
    ghost var sr, sb, d := rem[..], b[..], Pow2(dist);
    LowNone(sr);
    LowNone(sb);
    LowNone(z[..]);
    var index: nat, borrow: nat, hs: nat, hp: nat := 0, 0, 0, 0;
    ghost var k: int := 0;
    while index < 4
      invariant index <= 4 && borrow <= 1 && hs < d && hp < W32 && k == hs - hp - borrow
      invariant forall j | index <= j < 4 :: rem[j] == sr[j]
      invariant b[..] == sb
      invariant Low(z[..], index) + k * Weight(index) == Low(sr, index) * d - Low(sb, index) * q
    {
      ghost var z0, k0 := z[..], k;
      var wordZ: U32;
      wordZ, hs, hp, borrow := StepWordOf(rem[index], b[index], q, dist, hs, hp, borrow);
      z[index] := wordZ;
      k := hs as int - hp as int - borrow as int;
      LowPrefix(z0, z[..], index);
      SplitAt(sr, index);
      SplitAt(sb, index);
      SplitAt(z[..], index);
      StepWord(sr[index], sb[index], q, d, k0, wordZ, k, Low(sr, index), Low(sb, index), Low(z0, index), Weight(index));
      index := index + 1;
    }
    WholeStep(sr, sb, z[..], d, q, k);
  }

  lemma WholeStep(sr: seq<U32>, sb: seq<U32>, z: seq<U32>, d: nat, q: nat, k: int)
    requires |sr| == 4 && |sb| == 4 && |z| == 4 && Low(z, 4) + k * Weight(4) == Low(sr, 4) * d - Low(sb, 4) * q
    ensures Joined(z).V() == (Joined(sr).V() * d - Joined(sb).V() * q) % W128
  {
    LowAll(sr);
    LowAll(sb);
    LowAll(z);
    DivModUnique(Joined(sr).V() * d - Joined(sb).V() * q, W128, k, Joined(z).V());
  }

  lemma LowAll(s: seq<U32>)
    requires |s| == 4
    ensures Low(s, 4) == Joined(s).V()
  {
  }
}
