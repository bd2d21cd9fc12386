// f128M_roundToInt: the form that walks four 32-bit words, low word first,
// and carries upwards.
module F128MRoundToInt {
  import opened Arith
  import opened Words
  import opened Rounding
  import opened Binary128
  import opened RoundPack
  import opened RoundToInt
  import opened F128Rem
  import opened F128RoundToInt
  import opened WordArray

  // One word with a carry in.
  lemma CarryStep(x: U32, carry: nat, z: U32, carry': nat)
    requires carry <= 1 && z == (x + carry) % W32 && carry' == (if carry == 1 && z == 0 then 1 else 0)
    ensures x + carry == z + carry' * W32
  {
  }

  lemma CarryUp(h: nat, h1: nat, carry: nat, x: U32, z: U32, carry': nat, low: nat, w: nat, w1: nat)
    requires h == h1 * W32 + x && x + carry == z + carry' * W32 && w1 == W32 * w
    ensures low + (h + carry) * w == (low + z * w) + (h1 + carry') * w1
  {
    assert h + carry == (h1 + carry') * W32 + z;
    Distribute((h1 + carry') * W32, z, w);
    Associate(h1 + carry', W32, w);
  }

  // The propagateCarry loop: the words above `index` are copied with the
  // carry added.
  method PropagateCarry(a: array<U32>, z: array<U32>, index0: nat, carry0: nat, ghost s: seq<U32>, ghost total: nat)
    requires a.Length == 4 && z.Length == 4 && |s| == 4 && index0 <= 3 && carry0 <= 1
    requires forall j | index0 < j < 4 :: a[j] == s[j]
    requires total == Low(z[..], index0 + 1) + (High(s, index0 + 1) + carry0) * Weight(index0 + 1) < W128
    modifies z
    ensures Joined(z[..]).V() == total
  {
    hide Weight;
    hide Low;
    hide High;
    var index: nat, carry: nat := index0, carry0;
    while index != 3
      invariant index <= 3 && carry <= 1
      invariant forall j | index < j < 4 :: a[j] == s[j]
      invariant total == Low(z[..], index + 1) + (High(s, index + 1) + carry) * Weight(index + 1)
    {
      ghost var z0 := z[..];
      index := index + 1;
      var wordZ: U32 := (a[index] + carry) % W32;
      ghost var x, c := a[index], carry;
      z[index] := wordZ;
      carry := if carry == 1 && wordZ == 0 then 1 else 0;
      CarryStep(x, c, wordZ, carry);
      SplitAt(s, index);
      SplitAt(z[..], index);
      LowPrefix(z0, z[..], index);
      CarryUp(High(s, index), High(s, index + 1), c, x, wordZ, carry, Low(z0, index), Weight(index), Weight(index + 1));
    }
    TopCarry(s, z[..], carry, total);
  }

  lemma TopCarry(s: seq<U32>, z: seq<U32>, carry: nat, total: nat)
    requires |s| == 4 && |z| == 4 && carry <= 1
    requires total == Low(z, 4) + (High(s, 4) + carry) * Weight(4) < W128
    ensures Joined(z).V() == total
  {
  }

  // ---- the search for the word with the rounding position ----

  method SkipWords(a: array<U32>, z: array<U32>, bitPos0: nat, ghost s: seq<U32>)
    returns (index: nat, bitPos: nat, extra: bool)
    requires a.Length == 4 && z.Length == 4 && |s| == 4 && a[..] == s && bitPos0 <= 112
    modifies z
    ensures index <= 3 && bitPos < 32 && bitPos + 32 * index == bitPos0
    ensures extra == (Low(s, index) != 0) && Low(z[..], index) == 0
    ensures forall j | index <= j < 4 :: a[j] == s[j]
  {
    index, bitPos, extra := 0, bitPos0, false;
    while bitPos >= 32
      invariant index <= 3 && bitPos + 32 * index == bitPos0
      invariant extra == (Low(s, index) != 0) && forall j | 0 <= j < index :: z[j] == 0
      invariant forall j | index <= j < 4 :: a[j] == s[j]
    {
      var wordA := a[index];
      if wordA != 0 {
        extra := true;
      }
      z[index] := 0;
      index := index + 1;
      bitPos := bitPos - 32;
    }
  }

  // ---- round to nearest ----

  // A pair hi * W32 + lo masked below W32.
  lemma MaskPair(v: nat, hi: nat, lo: U32, p: nat, s: nat)
    requires p > 0 && p * s == W32 && v == hi * W32 + lo
    ensures v % p == lo % p && lo % p <= lo
    ensures ClearLow(v, p) == hi * W32 + ClearLow(lo, p)
    ensures s % 2 == 0 ==> v / p % 2 == lo / p % 2
  {
    var q, r := SplitBy(lo, p);
    MulMono(0, q, p);
    WordParts(v, hi, lo, W32, p, s, q, r);
    if s % 2 == 0 {
      EvenTimes(hi, s);
    }
  }

  lemma ClearPair(v: nat, hi: nat, lo: U32, p: nat, s: nat)
    requires p > 0 && p * s == W32 && v == hi * W32 + lo && s % 2 == 0
    ensures ClearBit(v, p) == hi * W32 + ClearBit(lo, p) && 0 <= ClearBit(lo, p) < W32
    ensures ClearLow(ClearBit(v, p), p) == hi * W32 + ClearLow(ClearBit(lo, p), p)
  {
    hide ClearLow;
    MaskPair(v, hi, lo, p, s);
    MaskPair(hi * W32 + ClearBit(lo, p), hi, ClearBit(lo, p), p, s);
  }

  lemma BitStep(b: nat) returns (s: nat)
    requires b <= 32
    ensures Pow2(b) * s == W32 && 1 <= Pow2(b) <= W32
    ensures b < 32 ==> s % 2 == 0 && Pow2(b) <= 0x8000_0000
    ensures b == 32 ==> Pow2(b) == W32 && s == 1
    ensures b > 0 ==> Pow2(b) == 2 * Pow2(b - 1)
  {
    Step(b);
    hide Pow2;
    Pow2Sum(b, 32 - b, 32);
    Pow2Small();
    s := Pow2(32 - b);
    if b < 32 {
      Pow2Even(32 - b);
      Pow2Mono(b, 31);
    }
  }

  lemma Step(b: nat)
    ensures b > 0 ==> Pow2(b) == 2 * Pow2(b - 1)
  {
  }

  // A value hi * W32 + word at weight w, as the carry loop takes it up.
  lemma Assembled(hi: nat, word: nat, w: nat, w1: nat)
    requires w1 == W32 * w
    ensures (hi * W32 + word) * w == word * w + hi * w1
  {
    Distribute(hi * W32, word, w);
    Associate(hi, W32, w);
  }

  // Everything below the rounding position, as the loop leaves it.
  ghost predicate AtWord(a: array<U32>, z: array<U32>, index: nat, s: seq<U32>)
    reads a, z
  {
    && a.Length == 4 && z.Length == 4 && |s| == 4 && index <= 3
    && Low(z[..], index) == 0 && forall j | index <= j < 4 :: a[j] == s[j]
  }

  // Storing the masked word and handing the carry on.
  method StoreAndCarry(a: array<U32>, z: array<U32>, index: nat, word: U32, carry: nat, ghost s: seq<U32>, ghost r: nat)
    requires AtWord(a, z, index, s) && carry <= 1
    requires r == (High(s, index + 1) + carry) * W32 + word && r * Weight(index) < W128
    modifies z
    ensures Joined(z[..]).V() == r * Weight(index)
  {
    hide Weight;
    hide Low;
    hide High;
    ghost var z0 := z[..];
    z[index] := word;
    LowPrefix(z0, z[..], index);
    SplitAt(z[..], index);
    Assembled(High(s, index + 1) + carry, word, Weight(index), Weight(index + 1));
    PropagateCarry(a, z, index, carry, s, r * Weight(index));
  }

  // x & ~1
  function EvenWord(x: U32): U32 { x - x % 2 }

  // The tie at the top of a word, where `bit` has been shifted out: the
  // parity that decides is that of the next word.
  method StoreTie(a: array<U32>, z: array<U32>, index: nat, carry0: nat, ghost s: seq<U32>, ghost r: nat)
    requires AtWord(a, z, index, s) && carry0 <= 1 && index < 3
    requires r == ClearLow(High(s, index + 1) + carry0, 2) && r * Weight(index + 1) < W128
    modifies z
    ensures Joined(z[..]).V() == r * Weight(index + 1)
  {
    hide Weight;
    hide Low;
    hide High;
    hide ClearLow;
    hide EvenWord;
    ghost var z0 := z[..];
    z[index] := 0;
    LowPrefix(z0, z[..], index);
    SplitAt(z[..], index);
    var next := index + 1;
    var wordZ: U32 := (a[next] + carry0) % W32;
    var carry: nat := if carry0 == 1 && wordZ == 0 then 1 else 0;
    CarryStep(a[next], carry0, wordZ, carry);
    var word: U32 := EvenWord(wordZ);
    SplitAt(s, next);
    TieParity(High(s, next) + carry0, High(s, next + 1) + carry, wordZ);
    StoreAndCarry(a, z, next, word, carry, s, r);
  }

  lemma TieParity(h: nat, h1: nat, y: U32)
    requires h == h1 * W32 + y
    ensures ClearLow(h, 2) == h1 * W32 + EvenWord(y)
  {
  }

  // The half step added to a word, and the mask of the bits up to it; `bit`
  // is 0 when the step itself is the next word's lowest bit.
  method AddHalf(wordA: U32, bitPos: nat) returns (wordZ: U32, carry: nat, bit: nat, extrasMask: nat, ghost s: nat)
    requires bitPos < 32
    ensures carry <= 1 && wordA + Pow2(bitPos) == carry * W32 + wordZ
    ensures extrasMask + 1 == 2 * Pow2(bitPos) && (extrasMask + 1) * s == W32
    ensures if s % 2 == 0 then bit == extrasMask + 1 else bit == 0 && extrasMask + 1 == W32 && bitPos == 31
  {
    hide Pow2;
    ghost var top := BitStep(bitPos);
    s := BitStep(bitPos + 1);
    bit := Pow2(bitPos);
    wordZ := (wordA + bit) % W32;
    carry := if wordZ < wordA then 1 else 0;
    ghost var half: nat := bit;
    bit := (2 * bit) % W32;
    extrasMask := (bit - 1) % W32;
    MaskWord(2 * half, bit);
  }

  lemma CarryOut(u: nat, h: nat, x: nat, half: nat, carry: nat, z: nat)
    requires u == h * W32 + x && x + half == carry * W32 + z
    ensures u + half == (h + carry) * W32 + z
  {
  }

  method RoundNearWord(a: array<U32>, z: array<U32>, index: nat, bitPos: nat, extra: bool, mode: Mode, exact: bool,
                       ghost s: seq<U32>)
    returns (inexact: bool)
    requires AtWord(a, z, index, s) && bitPos < 32 && extra == (Low(s, index) != 0)
    requires mode == NearEven || mode == NearMaxMag
    requires bitPos == 31 ==> index < 3
    requires NearMasked(mode == NearEven, High(s, index), Low(s, index), Pow2(bitPos)) * Weight(index) < W128
    modifies z
    ensures Joined(z[..]).V()
            == NearMasked(mode == NearEven, High(s, index), Low(s, index), Pow2(bitPos)) * Weight(index)
    ensures inexact == (exact && (!Clear(High(s, index), 2 * Pow2(bitPos) - 1) || Low(s, index) != 0))
  {
    hide Pow2;
    hide Weight;
    hide Low;
    hide High;
    hide ClearLow;
    hide ClearBit;
    hide Clear;
    hide NearMasked;
    hide Joined;
    var wordA := a[index];
    var wordZ, carry, bit, extrasMask, sp := AddHalf(wordA, bitPos);
    ghost var half := Pow2(bitPos);
    SplitAt(s, index);
    ghost var h, u := High(s, index + 1), High(s, index);
    ghost var r := NearMasked(mode == NearEven, u, Low(s, index), half);
    LowWordOf(u, h, wordA, extrasMask, sp);
    CarryOut(u, h, wordA, half, carry, wordZ);
    NearResult(mode == NearEven, u, Low(s, index), h, wordZ, carry, half, bit, extrasMask, sp);
    inexact := exact && (extra || !Clear(wordA, extrasMask));
    if mode == NearEven && !extra && Clear(wordZ, extrasMask) {
      if bit == 0 {
        TieWeight(r, ClearLow(h + carry, 2), Weight(index), Weight(index + 1));
        StoreTie(a, z, index, carry, s, ClearLow(h + carry, 2));
        return;
      }
      BitKept(wordZ, bit);
      wordZ := ClearBit(wordZ, bit);
    }
    LowKept(wordZ, extrasMask + 1);
    wordZ := ClearLow(wordZ, extrasMask + 1);
    StoreAndCarry(a, z, index, wordZ, carry, s, r);
  }

  // !(x & mask) for a mask of low bits
  predicate Clear(x: nat, mask: nat) { x % (mask + 1) == 0 }

  lemma LowWordOf(u: nat, h: nat, x: U32, mask: U32, s: nat)
    requires u == h * W32 + x && (mask + 1) * s == W32
    ensures Clear(u, mask) == Clear(x, mask)
  {
    MaskPair(u, h, x, mask + 1, s);
  }

  // The rounded upper part, once the half step has been added to its lowest
  // word.
  lemma NearResult(even: bool, u: nat, low: nat, h: nat, wordZ: U32, carry: nat, half: nat, bit: nat, mask: nat, s: nat)
    requires half > 0 && mask + 1 == 2 * half && (mask + 1) * s == W32
    requires if s % 2 == 0 then bit == mask + 1 else bit == 0 && mask + 1 == W32
    requires u + half == (h + carry) * W32 + wordZ
    ensures var tie := even && low == 0 && Clear(wordZ, mask);
            if tie && bit == 0 then NearMasked(even, u, low, half) == ClearLow(h + carry, 2) * W32
            else NearMasked(even, u, low, half) ==
                 (h + carry) * W32 + ClearLow(if tie then ClearBit(wordZ, bit) else wordZ, mask + 1)
  {
    hide ClearLow;
    hide ClearBit;
    var p := mask + 1;
    MaskPair(u + half, h + carry, wordZ, p, s);
    if even && low == 0 && Clear(wordZ, mask) {
      if bit == 0 {
        TieTop(u + half, h + carry, wordZ);
      } else {
        ClearPair(u + half, h + carry, wordZ, p, s);
      }
    }
  }

  lemma TieWeight(r: nat, x: nat, w: nat, w1: nat)
    requires r == x * W32 && w1 == W32 * w
    ensures r * w == x * w1
  {
    Associate(x, W32, w);
  }

  lemma MaskWord(p: nat, bit: U32)
    requires 0 < p <= W32 && bit == p % W32
    ensures (bit - 1) % W32 == p - 1 && (bit == 0 <==> p == W32) && (bit != 0 ==> bit == p)
  {
  }

  lemma BitKept(x: U32, p: nat)
    requires p > 0
    ensures 0 <= ClearBit(x, p) < W32
  {
  }

  lemma LowKept(x: U32, p: nat)
    requires p > 0
    ensures 0 <= ClearLow(x, p) < W32
  {
    DivMod(x, p);
    MulMono(0, x / p, p);
  }

  // With a whole word to discard, a tie leaves that word zero.
  lemma TieTop(zz: nat, h: nat, wordZ: U32)
    requires zz == h * W32 + wordZ && wordZ % W32 == 0
    ensures ClearLow(ClearBit(zz, W32), W32) == ClearLow(h, 2) * W32
  {
    NearParts(zz, W32, h, h * W32, 0);
    if h % 2 == 1 {
      NearParts((h - 1) * W32, W32, h - 1, (h - 1) * W32, 0);
    }
  }

  // ---- directed rounding ----

  method RoundDirectedWord(a: array<U32>, z: array<U32>, index: nat, bitPos: nat, extra: bool, up: bool, exact: bool,
                           ghost s: seq<U32>)
    returns (inexact: bool)
    requires AtWord(a, z, index, s) && bitPos < 32 && extra == (Low(s, index) != 0)
    requires DirectedMasked(up, High(s, index), Low(s, index), Pow2(bitPos)) * Weight(index) < W128
    modifies z
    ensures Joined(z[..]).V() == DirectedMasked(up, High(s, index), Low(s, index), Pow2(bitPos)) * Weight(index)
    ensures inexact == (exact && (!Clear(High(s, index), Pow2(bitPos) - 1) || Low(s, index) != 0))
  {
    hide Pow2;
    hide Weight;
    hide Low;
    hide High;
    hide ClearLow;
    hide DirectedMasked;
    hide Clear;
    hide Joined;
    ghost var sp := BitStep(bitPos);
    var wordA := a[index];
    var bit: U32 := Pow2(bitPos);
    var wordZ, carry: nat := wordA, 0;
    var extrasMask: U32 := bit - 1;
    SplitAt(s, index);
    ghost var h, u := High(s, index + 1), High(s, index);
    ghost var r := DirectedMasked(up, u, Low(s, index), bit);
    LowWordOf(u, h, wordA, extrasMask, sp);
    inexact := false;
    if extra || !Clear(wordA, extrasMask) {
      inexact := exact;
      if up {
        wordZ := (wordZ + bit) % W32;
        carry := if wordZ < wordA then 1 else 0;
      }
    }
    DirectedResult(up, u, Low(s, index), h, wordA, wordZ, carry, bit, extrasMask, sp);
    LowKept(wordZ, extrasMask + 1);
    wordZ := ClearLow(wordZ, extrasMask + 1);
    StoreAndCarry(a, z, index, wordZ, carry, s, r);
  }

  function DirectedMasked(up: bool, u: nat, low: nat, p: nat): nat
    requires p > 0
  {
    if up then UpMasked(u, low, p) else ClearLow(u, p)
  }

  lemma DirectedResult(up: bool, u: nat, low: nat, h: nat, wordA: U32, wordZ: U32, carry: nat, bit: nat, mask: nat,
                       s: nat)
    requires bit > 0 && mask + 1 == bit && bit * s == W32 && u == h * W32 + wordA
    requires if up && (low != 0 || !Clear(wordA, mask)) then carry * W32 + wordZ == wordA + bit
             else wordZ == wordA && carry == 0
    ensures DirectedMasked(up, u, low, bit) == (h + carry) * W32 + ClearLow(wordZ, mask + 1)
  {
    MaskPair(u, h, wordA, bit, s);
    if up && (low != 0 || !Clear(wordA, mask)) {
      MaskPair(u + bit, h + carry, wordZ, bit, s);
      NextStep(u, bit);
    }
  }

  lemma NextStep(u: nat, p: nat)
    requires p > 0
    ensures ClearLow(u + p, p) == ClearLow(u, p) + p
  {
    var q, r := SplitBy(u, p);
    Distribute(q, 1, p);
    NearParts(u + p, p, q + 1, (q + 1) * p, r);
  }

  // A directed mode asks only whether anything is discarded, so the step may
  // be a single unit of the upper part.
  lemma DirectedIs(mode: Mode, sign: bool, u: nat, low: nat, w: nat, p: nat)
    requires low < w && p > 0 && (mode == MinMag || mode == Min || mode == Max)
    ensures p * w > 0
    ensures DirectedMasked(mode == (if sign then Min else Max), u, low, p) * w
         == RoundInt(mode, sign, u * w + low, p * w) * (p * w)
  {
    hide DirectedMasked;
    hide RoundInt;
    var q, r := SplitBy(u, p);
    MulMono(1, p, w);
    DirectedParts(mode, sign, u, q, r, low, w, p, p * w);
    DirectedKeeps(mode == (if sign then Min else Max), u, q, r, low, p);
    var m := if mode == (if sign then Min else Max) && (r != 0 || low != 0) then q + 1 else q;
    Associate(m, p, w);
  }

  lemma DirectedKeeps(up: bool, u: nat, q: nat, r: nat, low: nat, p: nat)
    requires p > 0 && r < p && u == q * p + r
    ensures DirectedMasked(up, u, low, p) == (if up && (r != 0 || low != 0) then q + 1 else q) * p
  {
    NearParts(u, p, q, q * p, r);
    Distribute(q, 1, p);
  }

  lemma DirectedParts(mode: Mode, sign: bool, u: nat, q: nat, r: nat, low: nat, w: nat, p: nat, d: nat)
    requires low < w && p > 0 && (mode == MinMag || mode == Min || mode == Max)
    requires r < p && u == q * p + r && d == p * w > 0
    ensures RoundInt(mode, sign, u * w + low, d)
            == if mode == (if sign then Min else Max) && (r != 0 || low != 0) then q + 1 else q
  {
    MulMono(r, p - 1, w);
    MulMono(0, r, w);
    Distribute(p, -1, w);
    Distribute(q * p, r, w);
    Associate(q, p, w);
    DivModUnique(u * w + low, d, q, r * w + low);
    if r > 0 {
      MulMono(1, r, w);
    }
  }

  // ---- the whole ----

  // 2^k as a step of 2^bitPos at the weight of a word.
  lemma StepAt(k: nat, index: nat, b: nat)
    requires index <= 3 && b + 32 * index == k
    ensures Pow2(b) * Weight(index) == Pow2(k)
  {
    hide Pow2;
    hide Weight;
    WeightPow(index);
    Pow2Sum(b, 32 * index, k);
  }

  method RoundWords(a: array<U32>, z: array<U32>, k: nat, mode: Mode, sign: bool, exact: bool, ghost s: seq<U32>)
    returns (inexact: bool)
    requires a.Length == 4 && z.Length == 4 && |s| == 4 && a[..] == s && 1 <= k <= 112
    requires RoundInt(mode, sign, Joined(s).V(), Pow2(k)) * Pow2(k) < W128
    modifies z
    ensures Joined(z[..]).V() == RoundInt(mode, sign, Joined(s).V(), Pow2(k)) * Pow2(k)
    ensures inexact == (exact && Joined(s).V() % Pow2(k) != 0)
  {
    hide Pow2;
    hide RoundInt;
    hide Weight;
    hide Low;
    hide High;
    hide Masked;
    hide DirectedMasked;
    hide Clear;
    var roundNear := mode == NearMaxMag || mode == NearEven;
    var index, bitPos, extra := SkipWords(a, z, if roundNear then k - 1 else k, s);
    SplitAt(s, index);
    ghost var u, low, w := High(s, index), Low(s, index), Weight(index);
    if roundNear {
      StepAt(k, index, bitPos + 1);
      NearWeights(mode, sign, u, low, w, bitPos);
      inexact := RoundNearWord(a, z, index, bitPos, extra, mode, exact, s);
    } else {
      StepAt(k, index, bitPos);
      DirectedIs(mode, sign, u, low, w, Pow2(bitPos));
      DiscardedAt(u, low, w, Pow2(bitPos));
      inexact := RoundDirectedWord(a, z, index, bitPos, extra, mode == (if sign then Min else Max), exact, s);
    }
  }

  lemma DiscardedAt(u: nat, low: nat, w: nat, p: nat)
    requires low < w && p > 0
    ensures p * w > 0 && ((u * w + low) % (p * w) == 0 <==> Clear(u, p - 1) && low == 0)
  {
    var q, r := SplitBy(u, p);
    JamZero(u, low, w, q, r, p);
  }

  lemma NearWeights(mode: Mode, sign: bool, u: nat, low: nat, w: nat, b: nat)
    requires low < w && (mode == NearMaxMag || mode == NearEven)
    ensures Pow2(b + 1) == 2 * Pow2(b) && Pow2(b + 1) * w > 0
    ensures NearMasked(mode == NearEven, u, low, Pow2(b)) * w
         == RoundInt(mode, sign, u * w + low, Pow2(b + 1) * w) * (Pow2(b + 1) * w)
    ensures (u * w + low) % (Pow2(b + 1) * w) == 0 <==> Clear(u, 2 * Pow2(b) - 1) && low == 0
  {
    Step(b + 1);
    hide Pow2;
    hide RoundInt;
    hide NearMasked;
    var p := Pow2(b + 1);
    MaskedIs(mode, sign, u, low, w, p);
    DiscardedAt(u, low, w, p);
  }

  // signF128UI96, expF128UI96 and fracF128UI96
  predicate Sign96(x: U32) { x >= 0x8000_0000 }
  function Exp96(x: U32): nat { x / 0x1_0000 % 0x8000 }
  function Frac96(x: U32): nat { x % 0x1_0000 }

  lemma Fields96(s: seq<U32>)
    requires |s| == 4
    ensures Exp96(s[3]) == ExpOf(Joined(s)) && Sign96(s[3]) == SignOf(Joined(s))
    ensures Joined(s).v64 == s[3] * W32 + s[2] && Joined(s).v0 == s[1] * W32 + s[0]
    ensures FracOf(Joined(s)).v64 == Frac96(s[3]) * W32 + s[2]
    ensures Joined(s).v64 % 0x8000_0000_0000_0000 == s[3] % 0x8000_0000 * W32 + s[2]
  {
    var x, y := s[3], s[2];
    DivModUnique(x * W32 + y, 0x1_0000_0000_0000, x / 0x1_0000, x % 0x1_0000 * W32 + y);
    DivModUnique(x * W32 + y, 0x8000_0000_0000_0000, x / 0x8000_0000, x % 0x8000_0000 * W32 + y);
  }

  // The operand as a magnitude below one is read: the low words of the result
  // are cleared first, and so are those of the operand when it is the same
  // array.
  function AsRead(same: bool, s: seq<U32>): U128
    requires |s| == 4
  {
    if same && Exp96(s[3]) < 0x3FFF then Joined([0, 0, 0, s[3]]) else Joined(s)
  }

  // In place, exactly these operands below one are still rounded right.
  predicate InPlaceSafe(mode: Mode, exact: bool, s: seq<U32>)
    requires |s| == 4
  {
    var top := s[3] % 0x8000_0000;
    || (s[0] == 0 && s[1] == 0 && s[2] == 0)
    || (if top == 0 then !exact && mode != (if Sign96(s[3]) then Min else Max)
        else !(mode == NearEven && top == 0x3FFE_0000))
  }

  lemma InPlaceExact(mode: Mode, exact: bool, s: seq<U32>, z: U128, inexact: bool)
    requires |s| == 4 && Exp96(s[3]) < 0x3FFF && RoundedTo(mode, exact, AsRead(true, s), z, inexact)
    ensures RoundedTo(mode, exact, Joined(s), z, inexact) <==> InPlaceSafe(mode, exact, s)
  {
    hide SmallPlace;
    hide ExpOf;
    hide SignOf;
    hide Magnitude;
    hide RoundedTo;
    hide Joined;
    hide TopPlace;
    hide Exp96;
    hide Frac96;
    hide Sign96;
    var t := [0, 0, 0, s[3]];
    Fields96(s);
    Fields96(t);
    SmallFromTop(s);
    SmallFromTop(t);
    SmallExact(mode, exact, Joined(s), z, inexact);
    SmallExact(mode, exact, Joined(t), z, inexact);
    TopAgree(mode, exact, Sign96(s[3]), s[3], Extra(s));
  }

  // When the lower words change the outcome.
  lemma TopAgree(mode: Mode, exact: bool, sign: bool, x: U32, extra: bool)
    requires Exp96(x) < 0x3FFF
    ensures var p, q, top := TopPlace(x, extra), TopPlace(x, false), x % 0x8000_0000;
            (Increments(mode, sign, 0, p) == Increments(mode, sign, 0, q) && (exact ==> p.Exact? == q.Exact?)) <==>
            !extra || (if top == 0 then !exact && mode != (if sign then Min else Max)
                       else !(mode == NearEven && top == 0x3FFE_0000))
  {
    hide Exp96;
    hide Frac96;
    TopFields(x);
  }

  // The position of a magnitude below one, from its top word and whether the
  // others hold anything.
  function TopPlace(x: U32, extra: bool): Position {
    if x % 0x8000_0000 == 0 && !extra then Exact
    else if Exp96(x) != 0x3FFE then Below
    else if Frac96(x) == 0 && !extra then Half
    else Above
  }

  predicate Extra(s: seq<U32>)
    requires |s| == 4
  {
    s[2] != 0 || s[1] != 0 || s[0] != 0
  }

  lemma SmallFromTop(s: seq<U32>)
    requires |s| == 4 && Exp96(s[3]) < 0x3FFF
    ensures SmallPlace(Magnitude(Joined(s))) == TopPlace(s[3], Extra(s))
  {
    hide SmallPlace;
    hide ExpOf;
    hide Magnitude;
    Fields96(s);
    SmallWords(Joined(s));
  }

  lemma TopFields(x: U32)
    ensures x % 0x8000_0000 == Exp96(x) * 0x1_0000 + Frac96(x) && Frac96(x) < 0x1_0000
  {
  }

  // RoundedTo below one, as an equivalence.
  lemma SmallExact(mode: Mode, exact: bool, a: U128, z: U128, inexact: bool)
    requires ExpOf(a) < 0x3FFF
    ensures RoundedTo(mode, exact, a, z, inexact) <==>
              && z == SmallResult(SignOf(a), Increments(mode, SignOf(a), 0, SmallPlace(Magnitude(a))))
              && inexact == (exact && !SmallPlace(Magnitude(a)).Exact?)
  {
    hide RoundedTo;
    var r := SmallResult(SignOf(a), Increments(mode, SignOf(a), 0, SmallPlace(Magnitude(a))));
    var i := exact && !SmallPlace(Magnitude(a)).Exact?;
    SmallRounded(mode, exact, a, r, i);
    if RoundedTo(mode, exact, a, z, inexact) {
      OneRounding(mode, exact, a, z, inexact, r, i);
    }
  }

  // Magnitudes below one.
  method RoundSmallWords(a: array<U32>, z: array<U32>, mode: Mode, exact: bool, ghost s: seq<U32>)
    returns (inexact: bool)
    requires a.Length == 4 && z.Length == 4 && Exp96(a[3]) < 0x3FFF
    requires s == if a == z then [0, 0, 0, a[3]] else a[..]
    modifies z
    ensures RoundedTo(mode, exact, Joined(s), Joined(z[..]), inexact)
  {
    hide RoundedTo;
    hide SmallPlace;
    hide ExpOf;
    hide SignOf;
    hide Magnitude;
    hide Exp96;
    hide Frac96;
    hide Sign96;
    Fields96(s);
    SmallFromTop(s);
    var ui96 := a[3];
    var exp := Exp96(ui96);
    z[2], z[1], z[0] := 0, 0, 0;
    assert a[2] == s[2] && a[1] == s[1] && a[0] == s[0];
    var sigExtra := a[2] != 0;
    if !sigExtra {
      sigExtra := a[1] != 0 || a[0] != 0;
    }
    if !sigExtra && ui96 % 0x8000_0000 == 0 {
      z[3] := ui96;
      ZeroWords(mode, exact, s, z[..]);
      return false;
    }
    inexact := exact;
    var sign := Sign96(ui96);
    var mag1 :=
      match mode
      case NearEven => !(Frac96(ui96) == 0 && !sigExtra) && exp == 0x3FFE
      case NearMaxMag => exp == 0x3FFE
      case Min => sign
      case Max => !sign
      case MinMag => false;
    z[3] := (if sign then 0x8000_0000 else 0) + (if mag1 then 0x3FFF_0000 else 0);
    SmallRounded(mode, exact, Joined(s), Joined(z[..]), inexact);
  }

  lemma ZeroWords(mode: Mode, exact: bool, s: seq<U32>, z: seq<U32>)
    requires |s| == 4 && |z| == 4 && !Extra(s) && s[3] % 0x8000_0000 == 0 && z == [0, 0, 0, s[3]]
    ensures RoundedTo(mode, exact, Joined(s), Joined(z), false)
  {
    hide RoundedTo;
    hide SmallPlace;
    hide Magnitude;
    Fields96(s);
    SmallFromTop(s);
    assert z == s;
    SmallWords(Joined(s));
    SmallRounded(mode, exact, Joined(s), Joined(s), false);
  }

  method F128MRoundToInt(a: array<U32>, mode: Mode, exact: bool, z: array<U32>) returns (inexact: bool, invalid: bool)
    requires a.Length == 4 && z.Length == 4
    modifies z
    ensures var w := old(Joined(a[..])); IsNaN(w) ==> Joined(z[..]) == DEFAULT_NAN && !inexact && invalid == IsSigNaN(w)
    ensures var w := old(Joined(a[..])); IsInf(w) ==> Joined(z[..]) == w && !inexact && !invalid
    ensures Finite(old(Joined(a[..]))) ==>
              RoundedTo(mode, exact, AsRead(a == z, old(a[..])), Joined(z[..]), inexact) && !invalid
  {
    hide RoundedTo;
    hide RoundInt;
    hide Pow2;
    hide SignOf;
    hide Magnitude;
    ghost var s, w := a[..], Joined(a[..]);
    Fields96(s);
    var exp := Exp96(a[3]);
    if exp < 0x3FFF {
      inexact := RoundSmallWords(a, z, mode, exact, if a == z then [0, 0, 0, a[3]] else s);
      return inexact, false;
    }
    if 0x406F <= exp {
      if exp == 0x7FFF && (Frac96(a[3]) != 0 || a[2] != 0 || a[1] != 0 || a[0] != 0) {
        invalid := SigNaNWords(a);
        z[3], z[2], z[1], z[0] := 0x7FFF_8000, 0, 0, 0;
        return false, invalid;
      }
      z[2], z[1], z[0] := a[2], a[1], a[0];
      z[3] := a[3];
      assert z[..] == s;
      if exp != 0x7FFF {
        LargeRounded(mode, exact, w);
      }
      return false, false;
    }
    MiddleBound(mode, w, 0x406F - exp);
    inexact := RoundWords(a, z, 0x406F - exp, mode, Sign96(a[3]), exact, s);
    WithSign(mode, w, Joined(z[..]), exact, 0x406F - exp);
    FixedWords(mode, SignOf(w), w, Joined(z[..]), Pow2(0x406F - exp));
    return inexact, false;
  }

  // f128M_isSignalingNaN for a NaN: the quiet bit is clear.
  method SigNaNWords(a: array<U32>) returns (b: bool)
    requires a.Length == 4 && IsNaN(Joined(a[..]))
    ensures b == IsSigNaN(Joined(a[..]))
  {
    QuietBit(a[..]);
    b := a[3] / 0x8000 % 2 == 0;
  }

  lemma QuietBit(s: seq<U32>)
    requires |s| == 4
    ensures Joined(s).v64 / 0x8000_0000_0000 == s[3] / 0x8000
  {
    DivModUnique(s[3] * W32 + s[2], 0x8000_0000_0000, s[3] / 0x8000, s[3] % 0x8000 * W32 + s[2]);
  }

  lemma MiddleBound(mode: Mode, w: U128, k: nat)
    requires 0x3FFF <= ExpOf(w) && ExpOf(w) + k == ALL_INTEGRAL && k > 0
    ensures RoundInt(mode, SignOf(w), w.V(), Pow2(k)) * Pow2(k) < W128
  {
    hide RoundInt;
    hide Pow2;
    hide RoundedMagnitude;
    hide MagnitudeValue;
    hide Rounds;
    FiniteBound(w);
    WholePattern(mode, SignOf(w), Magnitude(w), k);
    RoundedMeans(mode, SignOf(w), Magnitude(w));
  }

  lemma FixedWords(mode: Mode, sign: bool, w: U128, z: U128, p: nat)
    requires p > 0 && z.V() == RoundInt(mode, sign, w.V(), p) * p
    ensures z == w <==> w.V() % p == 0
  {
    hide RoundInt;
    RoundFixed(mode, sign, w.V(), p);
    if z.V() == w.V() {
      VInjective(z, w);
    }
  }

  // There is one correct rounding, bits and inexact flag.
  lemma OneRounding(mode: Mode, exact: bool, a: U128, z1: U128, inexact1: bool, z2: U128, inexact2: bool)
    requires Finite(a) && RoundedTo(mode, exact, a, z1, inexact1) && RoundedTo(mode, exact, a, z2, inexact2)
    ensures z1 == z2 && inexact1 == inexact2
  {
    VInjective(z1, z2);
  }

  // Both forms on one operand.  They agree, bits and flags, on every bit
  // pattern, except in place below one, where they do exactly when the word
  // form is safe.
  method FormsAgree(a: array<U32>, mode: Mode, exact: bool, z: array<U32>)
    returns (u: U128, inexact: bool, invalid: bool, inexactM: bool, invalidM: bool)
    requires a.Length == 4 && z.Length == 4
    modifies z
    ensures var s := old(a[..]);
            (Joined(z[..]) == u && inexactM == inexact && invalidM == invalid) <==>
            a != z || Exp96(s[3]) >= 0x3FFF || InPlaceSafe(mode, exact, s)
  {
    hide RoundedTo;
    hide InPlaceSafe;
    hide ExpOf;
    ghost var s, w := a[..], Joined(a[..]);
    Fields96(s);
    u, inexact, invalid := F128RoundToInt.F128RoundToInt(Joined(a[..]), mode, exact);
    inexactM, invalidM := F128MRoundToInt(a, mode, exact, z);
    if Finite(w) {
      var zw := Joined(z[..]);
      if a == z && Exp96(s[3]) < 0x3FFF {
        InPlaceExact(mode, exact, s, zw, inexactM);
      }
      if RoundedTo(mode, exact, w, zw, inexactM) {
        OneRounding(mode, exact, w, u, inexact, zw, inexactM);
      }
    }
  }
}
