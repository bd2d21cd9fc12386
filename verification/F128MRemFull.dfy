// f128M_rem on operands: unpacking into words, the digit loop and the packed
// remainder, the same for every bit pattern as f128_rem.
module F128MRemFull {
  import opened Arith
  import opened Words
  import opened Rounding
  import opened Binary128
  import opened RoundPack
  import opened Normalize
  import opened Remainder
  import opened F128Rem
  import opened WordArray
  import opened F128MRem
  import Fields = F128MRoundToInt

  // ---- shifts of word arrays ----

  // softfloat_shortShiftLeftM of the low n words of a into the high ones of z
  method ShortShiftLeftM(a: array<U32>, n: nat, dist: nat, z: array<U32>)
    requires a.Length == 4 && z.Length == 4 && a != z && 1 <= n <= 4 && 1 <= dist <= 31
    modifies z
    ensures forall j | 0 <= j < 4 - n :: z[j] == old(z[j])
    ensures forall j | 0 <= j < n :: z[4 - n + j] == ShiftedWord(a[..], j, dist)
  {
    hide LowPart;
    hide HighPart;
    var index := n - 1;
    var partWordZ := LowPart(a[index], dist);
    while index != 0
      invariant 0 <= index < n && partWordZ == LowPart(a[index], dist)
      invariant forall j | 0 <= j <= 4 - n + index :: z[j] == old(z[j])
      invariant forall j | index < j < n :: z[4 - n + j] == ShiftedWord(a[..], j, dist)
    {
      var wordA := a[index - 1];
      PartsFit(a[index], wordA, dist);
      z[4 - n + index] := partWordZ + HighPart(wordA, dist);
      index := index - 1;
      partWordZ := LowPart(wordA, dist);
    }
    z[4 - n] := partWordZ;
  }

  // What stays in a word shifted left, and what leaves it.
  function LowPart(x: U32, dist: nat): U32 { x * Pow2(dist) % W32 }

  function HighPart(x: U32, dist: nat): int
    requires dist <= 31
  {
    x / Pow2(32 - dist)
  }

  lemma PartsFit(x: U32, y: U32, dist: nat)
    requires 1 <= dist <= 31
    ensures 0 <= LowPart(x, dist) + HighPart(y, dist) < W32
  {
    hide Pow2;
    ShiftWord(x, dist);
    ShiftWord(y, dist);
  }

  // Word j of s shifted left: its own low bits, and the bits that leave the
  // word below.
  function ShiftedWord(s: seq<U32>, j: nat, dist: nat): int
    requires j < |s| && dist <= 31
  {
    LowPart(s[j], dist) + if j > 0 then HighPart(s[j - 1], dist) else 0
  }

  // softfloat_shiftLeftM for four words and distances from 1 to 127
  method ShiftLeftM(a: array<U32>, dist: nat, z: array<U32>)
    requires a.Length == 4 && z.Length == 4 && a != z && 1 <= dist < 128
    modifies z
    ensures Joined(z[..]).V() == Joined(a[..]).V() * Pow2(dist) % W128
  {
    hide Pow2;
    hide Joined;
    var wordDist, innerDist := dist / 32, dist % 32;
    if innerDist != 0 {
      ShortShiftLeftM(a, 4 - wordDist, innerDist, z);
    } else {
      var i := 4 - wordDist;
      while i > 0
        invariant 0 <= i <= 4 - wordDist
        invariant forall j | i <= j < 4 - wordDist :: z[wordDist + j] == a[j]
      {
        i := i - 1;
        z[wordDist + i] := a[i];
      }
    }
    ghost var mid := z[..];
    var k := 0;
    while k < wordDist
      invariant 0 <= k <= wordDist && forall j | 0 <= j < k :: z[j] == 0
      invariant forall j | wordDist <= j < 4 :: z[j] == mid[j]
    {
      z[k] := 0;
      k := k + 1;
    }
    if innerDist != 0 {
      WordsShifted(a[..], z[..], wordDist, innerDist);
    } else {
      WordsMoved(a[..], z[..], wordDist);
    }
  }

  lemma WordsMoved(s: seq<U32>, z: seq<U32>, w: nat)
    requires |s| == 4 && |z| == 4 && w < 4 && forall j | 0 <= j < 4 :: z[j] == if j < w then 0 else s[j - w]
    ensures Joined(z).V() == Joined(s).V() * Pow2(32 * w) % W128
  {
    hide Pow2;
    WeightPow(w);
    MovedUp(s, z, w);
  }

  // The words that stay are those below 4 - w.
  lemma MovedUp(s: seq<U32>, z: seq<U32>, w: nat)
    requires |s| == 4 && |z| == 4 && w < 4 && forall j | 0 <= j < 4 :: z[j] == if j < w then 0 else s[j - w]
    ensures Joined(z).V() == Joined(s).V() * Weight(w) % W128
  {
    DivModUnique(Joined(s).V() * Weight(w), W128, High(s, 4 - w), Joined(z).V());
  }

  lemma WordsShifted(s: seq<U32>, z: seq<U32>, w: nat, d: nat)
    requires |s| == 4 && |z| == 4 && w < 4 && 1 <= d <= 31
    requires forall j | 0 <= j < 4 :: z[j] == if j < w then 0 else ShiftedWord(s, j - w, d)
    ensures Joined(z).V() == Joined(s).V() * Pow2(32 * w + d) % W128
  {
    hide Pow2;
    hide Joined;
    hide ShiftedWord;
    var m: seq<U32> := seq(4, j requires 0 <= j < 4 => if j < w then 0 else s[j - w]);
    WordsMoved(s, m, w);
    forall j | 0 <= j < 4 ensures z[j] == ShiftedWord(m, j, d) {
      MovedWord(s, m, w, d, j);
    }
    ShiftedWhole(m, z, d);
    Pow2Sum(32 * w, d, 32 * w + d);
    ModTwice(Joined(s).V(), Pow2(32 * w), Pow2(d), W128);
  }

  lemma MovedWord(s: seq<U32>, m: seq<U32>, w: nat, d: nat, j: nat)
    requires |s| == 4 && |m| == 4 && w < 4 && 1 <= d <= 31 && j < 4
    requires forall j | 0 <= j < 4 :: m[j] == if j < w then 0 else s[j - w]
    ensures ShiftedWord(m, j, d) == if j < w then 0 else ShiftedWord(s, j - w, d)
  {
    hide Pow2;
    ZeroShifted(Pow2(d), Pow2(32 - d));
  }

  lemma ZeroShifted(p: nat, s: nat)
    requires s > 0
    ensures 0 * p % W32 == 0 && 0 / s == 0
  {
  }

  // Shifting by less than a word, all four words at once.
  lemma ShiftedWhole(m: seq<U32>, z: seq<U32>, d: nat)
    requires |m| == 4 && |z| == 4 && 1 <= d <= 31 && forall j | 0 <= j < 4 :: z[j] == ShiftedWord(m, j, d)
    ensures Joined(z).V() == Joined(m).V() * Pow2(d) % W128
  {
    hide Pow2;
    var p := Pow2(d);
    var y0, h0 := WordParts(m, z, 0, d);
    var y1, h1 := WordParts(m, z, 1, d);
    var y2, h2 := WordParts(m, z, 2, d);
    var y3, h3 := WordParts(m, z, 3, d);
    ScaledWords(m[0], m[1], m[2], m[3], p);
    ShiftedSum(z, y0, y1, y2, y3, h0, h1, h2, h3, Joined(m).V() * p);
  }

  // The product of a word, and what leaves it.
  lemma WordParts(m: seq<U32>, z: seq<U32>, j: nat, d: nat) returns (y: nat, h: nat)
    requires |m| == 4 && |z| == 4 && j < 4 && 1 <= d <= 31 && z[j] == ShiftedWord(m, j, d)
    ensures y == m[j] * Pow2(d) && h == m[j] / Pow2(32 - d)
    ensures y == h * W32 + (z[j] - if j > 0 then m[j - 1] / Pow2(32 - d) else 0)
  {
    hide Pow2;
    ShiftWord(m[j], d);
    y, h := m[j] * Pow2(d), m[j] / Pow2(32 - d);
  }

  lemma ScaledWords(x0: nat, x1: nat, x2: nat, x3: nat, p: nat)
    ensures ((x3 * W32 + x2) * W64 + (x1 * W32 + x0)) * p
         == (x3 * p) * P96 + (x2 * p) * W64 + (x1 * p) * W32 + x0 * p
  {
  }

  lemma ShiftedSum(z: seq<U32>, y0: nat, y1: nat, y2: nat, y3: nat, h0: nat, h1: nat, h2: nat, h3: nat, v: nat)
    requires |z| == 4 && v == y3 * P96 + y2 * W64 + y1 * W32 + y0
    requires y0 == h0 * W32 + z[0] && y1 == h1 * W32 + (z[1] - h0) && y2 == h2 * W32 + (z[2] - h1)
             && y3 == h3 * W32 + (z[3] - h2)
    ensures Joined(z).V() == v % W128
  {
    DivModUnique(v, W128, h3, Joined(z).V());
  }

  lemma ModTwice(x: nat, p: nat, q: nat, m: nat)
    requires m > 0
    ensures (x * p % m) * q % m == x * (p * q) % m
  {
    var k, r := x * p / m, x * p % m;
    DivMod(x * p, m);
    assert x * (p * q) == (x * p) * q;
    assert (k * m + r) * q == (k * q) * m + r * q;
    DivMod(r * q, m);
    DivModUnique(x * (p * q), m, k * q + r * q / m, r * q % m);
  }

  // ---- unpacking ----

  const P31: nat := 0x8000_0000
  const P81: nat := 0x2_0000_0000_0000_0000_0000

  function CountLeadingZeros32(a: U32): (c: nat)
    ensures a == 0 ==> c == 32
    ensures a > 0 ==> c <= 31 && P31 <= a * Pow2(c) < W32
  {
    if a == 0 then 32
    else
      ClzLow(a, CountLeadingZeros64(a));
      CountLeadingZeros64(a) - 32
  }

  lemma ClzLow(a: U32, c: nat)
    requires a > 0 && c == CountLeadingZeros64(a)
    ensures 32 <= c <= 63 && P31 <= a * Pow2(c - 32) < W32
  {
    hide Pow2;
    Pow2Small();
    ClzRange(a, 32);
    Pow2Sum(c - 32, 32, c);
    Associate(a, Pow2(c - 32), W32);
  }

  // softfloat_shiftNormSigF128M with a distance of 13: -128 stands for zero,
  // and otherwise the significand comes out 13 bits up.
  method ShiftNormSig(w: array<U32>, sig: array<U32>) returns (exp: int, ghost m: U128)
    requires w.Length == 4 && sig.Length == 4 && w != sig && Finite(Joined(w[..]))
    modifies sig
    ensures exp == -128 <==> IsZero(Joined(w[..]))
    ensures exp != -128 ==> Operand(Joined(w[..]), exp, m) && Joined(sig[..]).V() == m.V() * 0x2000
  {
    hide Pow2;
    hide Joined;
    hide ExpOf;
    hide FracOf;
    hide ShiftedWord;
    hide Operand;
    ghost var s := w[..];
    Fields.Fields96(s);
    m := U128(0, 0);
    var wordSig := w[3];
    exp := Fields.Exp96(wordSig);
    if exp != 0 {
      ShortShiftLeftM(w, 4, 13, sig);
      assert w[..] == s;
      assert forall j | 0 <= j < 4 :: sig[4 - 4 + j] == ShiftedWord(s, j, 13);
      ShiftedWhole(s, sig[..], 13);
      ghost var t := sig[..];
      sig[3] := sig[3] % 0x2000_0000 + 0x2000_0000;
      assert sig[..] == t[3 := t[3] % 0x2000_0000 + 0x2000_0000];
      m := NormalSig(s, t, exp);
    } else {
      exp, wordSig := 16, wordSig % 0x8000_0000;
      ghost var i := 3;
      if wordSig == 0 {
        exp, wordSig, i := -16, w[2], 2;
        if wordSig == 0 {
          exp, wordSig, i := -48, w[1], 1;
          if wordSig == 0 {
            wordSig, i := w[0], 0;
            if wordSig == 0 {
              ZeroSig(s);
              return -128, m;
            }
            exp := -80;
          }
        }
      }
      exp := exp - CountLeadingZeros32(wordSig);
      m := SubnormalSig(s, i, wordSig, CountLeadingZeros32(wordSig), exp);
      ShiftLeftM(w, 1 - exp + 13, sig);
    }
  }

  // The fraction of a number with exponent field 0 is all but its sign.
  lemma SubnormalFrac(s: seq<U32>)
    requires |s| == 4 && ExpOf(Joined(s)) == 0
    ensures FracOf(Joined(s)).V() == Magnitude(Joined(s)) == Joined(s).V() % P127 < P112
    ensures Joined(s).V() % P127 == s[3] % P31 * P96 + s[2] * W64 + s[1] * W32 + s[0]
  {
    var top := s[3];
    DivModUnique(top * W32 + s[2], 0x1_0000_0000_0000, top / 0x1_0000, top % 0x1_0000 * W32 + s[2]);
    DivModUnique(Joined(s).V(), P127, top / P31, top % P31 * P96 + s[2] * W64 + s[1] * W32 + s[0]);
    assert top % P31 < 0x1_0000 && top % P31 == top % 0x1_0000;
  }

  lemma ZeroSig(s: seq<U32>)
    requires |s| == 4 && ExpOf(Joined(s)) == 0 && s[3] % P31 == 0 && s[2] == 0 && s[1] == 0 && s[0] == 0
    ensures IsZero(Joined(s))
  {
    SubnormalFrac(s);
  }

  lemma SubnormalSig(s: seq<U32>, i: nat, word: U32, c: nat, exp: int) returns (m: U128)
    requires |s| == 4 && i <= 3 && ExpOf(Joined(s)) == 0
    requires word > 0 && word == (if i == 3 then s[3] % P31 else s[i])
    requires (i < 3 ==> s[3] % P31 == 0) && forall j | i < j < 3 :: s[j] == 0
    requires c <= 31 && P31 <= word * Pow2(c) < W32 && exp == 32 * i - 80 - c
    ensures !IsZero(Joined(s)) && -111 <= exp <= 0 && Operand(Joined(s), exp, m)
    ensures Joined(s).V() * Pow2(14 - exp) % W128 == m.V() * 0x2000
  {
    hide Pow2;
    hide Joined;
    hide IsZero;
    hide Operand;
    hide Weight;
    var v := Joined(s).V() % P127;
    var low := LeadingPlace(s, i, word);
    TopClear(word, c, i);
    WordFits(word, c);
    WeightAt(i, c, 1 - exp);
    LeadingBits(v, word, low, Weight(i), Pow2(c), Pow2(1 - exp));
    var n := v * Pow2(1 - exp);
    m := U128(n / W64, n % W64);
    SubnormalOperand(Joined(s), v, exp, m);
    SubnormalShifted(Joined(s).V(), v, exp);
  }

  // The leading word, and what is below it.
  lemma LeadingPlace(s: seq<U32>, i: nat, word: U32) returns (low: nat)
    requires |s| == 4 && i <= 3 && ExpOf(Joined(s)) == 0
    requires word == (if i == 3 then s[3] % P31 else s[i])
    requires (i < 3 ==> s[3] % P31 == 0) && forall j | i < j < 3 :: s[j] == 0
    ensures var v := Joined(s).V() % P127;
            v == word * Weight(i) + low && low < Weight(i)
            && v == FracOf(Joined(s)).V() == Magnitude(Joined(s))
    ensures i == 3 ==> word < 0x1_0000
  {
    SubnormalFrac(s);
    low := (if i > 0 then s[0] else 0) + (if i > 1 then s[1] * W32 else 0) + (if i > 2 then s[2] * W64 else 0);
  }

  lemma SubnormalOperand(a: U128, v: nat, exp: int, m: U128)
    requires ExpOf(a) == 0 && v == FracOf(a).V() == Magnitude(a) && -111 <= exp <= 0
    requires m.V() == v * Pow2(1 - exp) && P112 <= m.V() < P113
    ensures !IsZero(a) && Operand(a, exp, m)
  {
    hide Pow2;
    ScalePow(v, 1 - exp, exp + 111, 112);
    MagnitudeSubnormal(v);
  }

  lemma SubnormalShifted(x: nat, v: nat, exp: int)
    requires v == x % P127 && exp <= 0 && v * Pow2(1 - exp) < P113
    ensures x * Pow2(14 - exp) % W128 == v * Pow2(1 - exp) * 0x2000
  {
    hide Pow2;
    var n := v * Pow2(1 - exp);
    Pow2Sum(1 - exp, 13, 14 - exp);
    Pow2At13();
    Pow2Halve(13 - exp);
    SignOut(x, v, Pow2(14 - exp), 13 - exp);
    Associate(v, Pow2(1 - exp), 0x2000);
    DivModUnique(n * 0x2000, W128, 0, n * 0x2000);
  }

  lemma Pow2At13()
    ensures Pow2(13) == 0x2000
  {
    Pow2Sum(13, 3, 16);
    Pow2Small();
  }

  lemma WeightAt(i: nat, c: nat, t: nat)
    requires i <= 3 && 32 * i + t == 81 + c
    ensures Weight(i) * Pow2(t) == P81 * Pow2(c)
  {
    hide Pow2;
    WeightPow(i);
    Pow2Sum(32 * i, t, 81 + c);
    Pow2Sum(81, c, 81 + c);
    Pow2Sum(64, 17, 81);
    Pow2Wide();
    Pow2Small();
    Pow2Halve(16);
  }

  // The leading word of a subnormal has at most 16 bits at the top.
  lemma TopClear(word: U32, c: nat, i: nat)
    requires P31 <= word * Pow2(c) && (i == 3 ==> word < 0x1_0000)
    ensures i == 3 ==> c >= 16
  {
    if i == 3 && c <= 15 {
      Pow2Mono(c, 15);
      assert Pow2(15) == 0x8000 by {
        Pow2Small();
        Pow2Halve(15);
      }
      MulMono(word, 0xFFFF, Pow2(c));
    }
  }

  // Shifting a word up leaves room for one more.
  lemma WordFits(word: U32, c: nat)
    requires c <= 31 && word * Pow2(c) < W32
    ensures word * Pow2(c) + Pow2(c) <= W32
  {
    hide Pow2;
    Pow2Sum(c, 32 - c, 32);
    Pow2Small();
    var p, q := Pow2(c), Pow2(32 - c);
    if word >= q {
      MulMono(q, word, p);
    }
    MulMono(word + 1, q, p);
    Distribute(word, 1, p);
  }

  lemma LeadingBits(v: nat, word: nat, low: nat, w: nat, pc: nat, p: nat)
    requires v == word * w + low && low < w && w * p == P81 * pc && p > 0
    requires P31 <= word * pc && word * pc + pc <= W32
    ensures P112 <= v * p < P113
  {
    MulMonoStrict(low, w, p);
    assert v * p == word * (w * p) + low * p;
    assert word * (P81 * pc) == (word * pc) * P81;
  }

  // A sign bit leaves the 128 bits.
  lemma SignOut(x: nat, v: nat, p: nat, k: nat)
    requires v == x % P127 && p == 2 * Pow2(k)
    ensures x * p % W128 == v * p % W128
  {
    var g := x / P127;
    DivMod(x, P127);
    var h := Pow2(k);
    assert x * p == (g * h) * W128 + v * p;
    DivMod(v * p, W128);
    DivModUnique(x * p, W128, g * h + v * p / W128, v * p % W128);
  }

  // The shifted words of a normal number, with everything above the leading
  // bit replaced by it.
  lemma NormalSig(s: seq<U32>, t: seq<U32>, exp: nat) returns (m: U128)
    requires |s| == 4 && |t| == 4 && exp == ExpOf(Joined(s)) && 0 < exp < 0x7FFF
    requires Joined(t).V() == Joined(s).V() * Pow2(13) % W128
    ensures !IsZero(Joined(s)) && Operand(Joined(s), exp, m)
    ensures Joined(t[3 := t[3] % 0x2000_0000 + 0x2000_0000]).V() == m.V() * 0x2000
  {
    hide Pow2;
    hide MagnitudeValue;
    var a := Joined(s);
    m := U128(FracOf(a).v64 + 0x1_0000_0000_0000, FracOf(a).v0);
    MagnitudeSplit(Magnitude(a), exp, FracOf(a).V());
    ScalePow(m.V(), exp - 1, 112, exp + 111);
    Pow2At13();
    var top := (if SignOf(a) then 0x8000 else 0) + exp;
    assert a.V() == top * P112 + FracOf(a).V();
    LowShifted(a.V(), top, FracOf(a).V(), Joined(t).V());
    TopMasked(t, FracOf(a).V() * 0x2000);
  }

  lemma LowShifted(x: nat, top: nat, f: nat, y: nat)
    requires x == top * P112 + f && f < P112 && y == x * 0x2000 % W128
    ensures y % P125 == f * 0x2000
  {
    var k := x * 0x2000 / W128;
    DivMod(x * 0x2000, W128);
    DivModUnique(y, P125, top - 8 * k, f * 0x2000);
  }

  lemma TopMasked(t: seq<U32>, g: nat)
    requires |t| == 4 && Joined(t).V() % P125 == g
    ensures Joined(t[3 := t[3] % 0x2000_0000 + 0x2000_0000]).V() == P125 + g
  {
    DivModUnique(Joined(t).V(), P125, t[3] / 0x2000_0000, t[3] % 0x2000_0000 * P96 + t[2] * W64 + t[1] * W32 + t[0]);
  }

  // ---- the operation ----

  // What f128_rem promises of its result, flags included.
  ghost predicate RemainderOf(a: U128, b: U128, z: U128, flags: Flags) {
    && (IsNaN(a) || IsNaN(b) ==> z == DEFAULT_NAN && flags == Invalid(IsSigNaN(a) || IsSigNaN(b)))
    && (!IsNaN(a) && !IsNaN(b) && (IsInf(a) || IsZero(b)) ==> z == DEFAULT_NAN && flags == Invalid(true))
    && (Finite(a) && IsInf(b) ==> z == a && flags == NO_FLAGS)
    && (Finite(a) && Finite(b) && !IsZero(b) ==> IsRemainder(a, b, z) && flags == NO_FLAGS)
  }

  // f128M_rem; the result may be either operand.
  method Remainder128M(a: array<U32>, b: array<U32>, z: array<U32>, mode: Mode) returns (flags: Flags)
    requires a.Length == 4 && b.Length == 4 && z.Length == 4
    modifies z
    ensures RemainderOf(old(Joined(a[..])), old(Joined(b[..])), Joined(z[..]), flags)
  {
    hide Joined;
    hide IsRemainder;
    hide ExpOf;
    hide FracOf;
    ghost var va, vb := Joined(a[..]), Joined(b[..]);
    Fields.Fields96(a[..]);
    Fields.Fields96(b[..]);
    Topmost(va);
    Topmost(vb);
    var expA: int, expB: int := Fields.Exp96(a[3]), Fields.Exp96(b[3]);
    if expA == 0x7FFF || expB == 0x7FFF {
      var nanA, sigA := IsNaNM(a);
      var nanB, sigB := IsNaNM(b);
      if nanA || nanB {
        StoreNaN(z);
        return Invalid(sigA || sigB);
      }
      if expA == 0x7FFF {
        StoreNaN(z);
        return Invalid(true);
      }
      CopyM(a, z);
      return NO_FLAGS;
    }
    if expA < expB - 1 {
      FarBelowIs(va, vb);
      CopyM(a, z);
      return NO_FLAGS;
    }
    flags := Remainder128MFinite(a, b, z, mode);
  }

  // An operand with exponent field below 0x7FFF is finite.
  lemma Topmost(a: U128)
    ensures !Finite(a) <==> IsNaN(a) || IsInf(a)
    ensures IsNaN(a) || IsInf(a) ==> ExpOf(a) == 0x7FFF
    ensures IsZero(a) ==> Finite(a)
  {
  }

  method IsNaNM(a: array<U32>) returns (nan: bool, sig: bool)
    requires a.Length == 4
    ensures nan == IsNaN(Joined(a[..])) && sig == IsSigNaN(Joined(a[..]))
  {
    Fields.Fields96(a[..]);
    nan := Fields.Exp96(a[3]) == 0x7FFF && (Fields.Frac96(a[3]) != 0 || a[2] != 0 || a[1] != 0 || a[0] != 0);
    sig := false;
    if nan {
      sig := Fields.SigNaNWords(a);
    }
  }

  method StoreNaN(z: array<U32>)
    requires z.Length == 4
    modifies z
    ensures Joined(z[..]) == DEFAULT_NAN
  {
    z[3], z[2], z[1], z[0] := 0x7FFF_8000, 0, 0, 0;
  }

  method CopyM(a: array<U32>, z: array<U32>)
    requires a.Length == 4 && z.Length == 4
    modifies z
    ensures z[..] == old(a[..])
  {
    z[3] := a[3];
    z[2], z[1], z[0] := a[2], a[1], a[0];
  }

  method StoreM(v: U128, z: array<U32>)
    requires z.Length == 4
    modifies z
    ensures Joined(z[..]) == v
  {
    z[3], z[2], z[1], z[0] := v.v64 / W32, v.v64 % W32, v.v0 / W32, v.v0 % W32;
  }

  // The exponent fields alone decide this early return.
  lemma FarBelowIs(a: U128, b: U128)
    requires Finite(a) && Finite(b) && ExpOf(a) < ExpOf(b) - 1
    ensures !IsZero(b) && IsRemainder(a, b, a)
  {
    hide Pow2;
    hide IsRemainder;
    hide MagnitudeValue;
    hide IsZero;
    SizeFrom(b);
    var eA, eB := ExpOf(a), ExpOf(b);
    var ma, mb := MagnitudeValue(Magnitude(a)), MagnitudeValue(Magnitude(b));
    hide ExpOf;
    var q := Pow2(eB - 1);
    assert P112 * q <= mb by { SizeFrom(b); }
    assert 2 * ma < P112 * q by {
      if eA == 0 {
        SizeBelow(a);
        Pow2Mono(1, eB - 1);
        Pow2Small();
        MulMono(2, q, P112);
        Commute(P112, q);
      } else {
        SizeBelow(a);
        FourTimes(eA - 1, eB - 1);
        BelowHalf(ma, Pow2(eA - 1), q);
      }
    }
    FarBelowRem(a, b, ma, mb);
  }

  lemma SizeFrom(b: U128)
    requires ExpOf(b) > 0
    ensures P112 * Pow2(ExpOf(b) - 1) <= MagnitudeValue(Magnitude(b)) && !IsZero(b)
  {
    hide Pow2;
    hide MagnitudeValue;
    MagnitudeSplit(Magnitude(b), ExpOf(b), FracOf(b).V());
    MulMono(P112, P112 + FracOf(b).V(), Pow2(ExpOf(b) - 1));
  }

  lemma SizeBelow(a: U128)
    ensures ExpOf(a) == 0 ==> MagnitudeValue(Magnitude(a)) < P112
    ensures ExpOf(a) > 0 ==> MagnitudeValue(Magnitude(a)) < P113 * Pow2(ExpOf(a) - 1)
  {
    hide Pow2;
    hide MagnitudeValue;
    if ExpOf(a) == 0 {
      MagnitudeSubnormal(Magnitude(a));
    } else {
      MagnitudeSplit(Magnitude(a), ExpOf(a), FracOf(a).V());
      MulMonoStrict(P112 + FracOf(a).V(), P113, Pow2(ExpOf(a) - 1));
    }
  }

  lemma FourTimes(k: nat, j: nat)
    requires k + 2 <= j
    ensures 4 * Pow2(k) <= Pow2(j)
  {
    Pow2Mono(k + 2, j);
    assert Pow2(k + 2) == 2 * Pow2(k + 1) == 4 * Pow2(k);
  }

  lemma BelowHalf(m: nat, p: nat, q: nat)
    requires m < P113 * p && 4 * p <= q
    ensures 2 * m < P112 * q
  {
    MulMono(4 * p, q, P112);
  }

  lemma FarBelowRem(a: U128, b: U128, ma: nat, mb: nat)
    requires Finite(a) && 2 * ma < mb && ma == MagnitudeValue(Magnitude(a)) && mb == MagnitudeValue(Magnitude(b))
    ensures IsRemainder(a, b, a)
  {
    hide IeeeRem;
    hide MagnitudeValue;
    IeeeRemSmall(ma, mb);
    IeeeRemNeg(ma, mb);
  }

  // The two operands unpacked, and the result packed.  The packing goes
  // through two 64-bit words.
  method Remainder128MFinite(a: array<U32>, b: array<U32>, z: array<U32>, mode: Mode) returns (flags: Flags)
    requires a.Length == 4 && b.Length == 4 && z.Length == 4
    requires Finite(Joined(a[..])) && Finite(Joined(b[..]))
    modifies z
    ensures var u, v, w := old(Joined(a[..])), old(Joined(b[..])), Joined(z[..]);
            if IsZero(v) then w == DEFAULT_NAN && flags == Invalid(true)
            else IsRemainder(u, v, w) && flags == NO_FLAGS
  {
    hide Pow2;
    hide IeeeRem;
    hide MagnitudeValue;
    hide Joined;
    hide ExpOf;
    hide FracOf;
    ghost var u, v := Joined(a[..]), Joined(b[..]);
    ghost var ma, mb := MagnitudeValue(Magnitude(u)), MagnitudeValue(Magnitude(v));
    Fields.Fields96(a[..]);
    var x, rem1, rem2 := new U32[4], new U32[4], new U32[4];
    var expB, mB := ShiftNormSig(b, x);
    if expB == -128 {
      StoreNaN(z);
      return Invalid(true);
    }
    NonzeroValue(v);
    var expA, mA := ShiftNormSig(a, rem1);
    if expA == -128 {
      ZeroRem(u, v);
      CopyM(a, z);
      return NO_FLAGS;
    }
    var signRem := Fields.Sign96(a[3]);
    var expDiff := expA - expB;
    if expDiff < -1 {
      SmallOperand(ma, mb, mA.V(), mB.V(), expA, expB, 112, P112);
      IeeeRemNeg(ma, mb);
      CopyM(a, z);
      return NO_FLAGS;
    }
    var rem, negate := F128MRemSig(x, rem1, rem2, expDiff);
    ghost var r := if expDiff >= 0 then IeeeRem(mA.V() * Pow2(expDiff), mB.V()) else IeeeRem(mA.V(), 2 * mB.V());
    FormsScale(mA.V(), mB.V(), expDiff);
    SignificandRem(ma, mb, mA.V(), mB.V(), expA, expB, r, 112);
    if expDiff == -1 {
      expB := expB - 1;
    }
    AbsProduct(IeeeRem(ma, mb), Pow2(112), r, Pow2(expB + 111));
    if negate {
      signRem := !signRem;
    }
    var w;
    w, flags := PackM(signRem, expB - 1, Joined(rem[..]), mode, Abs(r), Abs(IeeeRem(ma, mb)));
    IeeeRemNeg(ma, mb);
    StoreM(w, z);
  }

  // A magnitude r that is 13 bits up packs exactly.
  method PackM(sign: bool, exp: int, rem: U128, mode: Mode, ghost r: nat, ghost m: nat) returns (z: U128, flags: Flags)
    requires rem.V() == r * 0x2000 && -112 <= exp && exp + 1 < 0x7FFF
    requires r <= P112 || (r <= P113 && exp + 2 < 0x7FFF)
    requires m * Pow2(112) == r * Pow2(exp + 112)
    ensures Finite(z) && MagnitudeValue(Magnitude(z)) == m && SignOf(z) == sign && flags == NO_FLAGS
  {
    hide Pow2;
    hide RoundScaled;
    hide MagnitudeValue;
    Pow2At13();
    RoundScaledShift(mode, sign, r, 1, exp, 13);
    ExactBits(mode, sign, m, r, exp);
    var inexact, overflow, underflow;
    z, inexact, overflow, underflow := NormRoundPackToF128(sign, exp - 13, rem, mode);
    SplitSign(z, sign, RoundScaled(mode, sign, r, 1, exp).bits);
    flags := Flags(false, false, inexact, overflow, underflow);
  }

  // ---- the two forms ----

  // Bigger magnitude bits, bigger value.
  lemma MagnitudeGrows(m: nat, n: nat)
    requires m < n
    ensures MagnitudeValue(m) < MagnitudeValue(n)
  {
    hide Pow2;
    var e, k := m / P112, n / P112;
    if n < P112 {
      MagnitudeSubnormal(m);
      MagnitudeSubnormal(n);
    } else {
      MagnitudeSplit(n, k, n % P112);
      if m < P112 {
        MagnitudeSubnormal(m);
        MulMono(1, Pow2(k - 1), P112 + n % P112);
      } else if e == k {
        MagnitudeSplit(m, e, m % P112);
        MulMonoStrict(P112 + m % P112, P112 + n % P112, Pow2(e - 1));
      } else {
        MagnitudeSplit(m, e, m % P112);
        MulMonoStrict(P112 + m % P112, P113, Pow2(e - 1));
        Pow2Halve(e - 1);
        Pow2Mono(e, k - 1);
        MulMono(Pow2(e), Pow2(k - 1), P112);
        MulMono(P112, P112 + n % P112, Pow2(k - 1));
      }
    }
  }

  // There is one remainder, sign of zero included.
  lemma OneRemainder(a: U128, b: U128, z: U128, w: U128)
    requires IsRemainder(a, b, z) && IsRemainder(a, b, w)
    ensures z == w
  {
    hide MagnitudeValue;
    hide IeeeRem;
    var m, n := Magnitude(z), Magnitude(w);
    if m < n {
      MagnitudeGrows(m, n);
    } else if n < m {
      MagnitudeGrows(n, m);
    }
    ZeroMagnitude(m);
    ZeroMagnitude(n);
    assert m == n && SignOf(z) == SignOf(w);
    VInjective(z, w);
  }

  lemma ZeroMagnitude(m: nat)
    ensures MagnitudeValue(m) == 0 <==> m == 0
  {
    MagnitudeSubnormal(0);
    if m > 0 {
      MagnitudeGrows(0, m);
    }
  }

  // The 64-bit form and the word form give the same bits and flags on every
  // pair of operands, in place or not.
  method RemFormsAgree(a: array<U32>, b: array<U32>, z: array<U32>, mode: Mode)
    returns (u: U128, flags: Flags, flagsM: Flags)
    requires a.Length == 4 && b.Length == 4 && z.Length == 4
    modifies z
    ensures Joined(z[..]) == u && flagsM == flags && RemainderOf(old(Joined(a[..])), old(Joined(b[..])), u, flags)
  {
    hide Joined;
    hide IsRemainder;
    ghost var va, vb := Joined(a[..]), Joined(b[..]);
    Topmost(va);
    Topmost(vb);
    u, flags := F128Rem.F128Rem(Joined(a[..]), Joined(b[..]), mode);
    flagsM := Remainder128M(a, b, z, mode);
    if Finite(va) && Finite(vb) && !IsZero(vb) {
      OneRemainder(va, vb, u, Joined(z[..]));
    }
  }
}
