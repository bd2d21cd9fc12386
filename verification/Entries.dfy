// What a leaf word says, and how many pages of a flat map wait for each lazy
// region.
module Entries {
  import opened Arith
  import opened PageTable
  import opened FlatVm

  const VMR_SIZE: nat := 40

  // Bit positions of a page table entry
  const BIT_V: nat := 0
  const BIT_R: nat := 1
  const BIT_W: nat := 2
  const BIT_X: nat := 3
  const BIT_U: nat := 4
  const BIT_A: nat := 6
  const BIT_D: nat := 7

  predicate Bit(w: nat, i: nat) {
    if i == 0 then w % 2 == 1 else Bit(w / 2, i - 1)
  }

  function Flag(b: bool, n: nat): nat { if b then n else 0 }

  function TypeBits(p: Perm): (t: nat)
    ensures t < 0x3FF
  {
    Flag(p.r, 0x02) + Flag(p.w, 0x04) + Flag(p.x, 0x08) + Flag(p.u, 0x10) + Flag(p.a, 0x40) + Flag(p.d, 0x80)
  }

  // A lazy page holds the address of its region's record, which has bit 0
  // clear; any other nonzero leaf is a page table entry.
  function Encode(l: Leaf, vmrs: nat): nat {
    match l
    case Lazy(v) => vmrs + v * VMR_SIZE
    case Mapped(ppn, perm) => PteCreate(ppn, TypeBits(perm))
  }

  lemma Halve(n: nat, b: bool, rest: nat)
    requires n == Flag(b, 1) + 2 * rest
    ensures n % 2 == Flag(b, 1) && n / 2 == rest
  {
  }

  ghost predicate Decodes(w: nat, ppn: nat, p: Perm) {
    && Bit(w, BIT_V) && Bit(w, BIT_R) == p.r && Bit(w, BIT_W) == p.w && Bit(w, BIT_X) == p.x
    && Bit(w, BIT_U) == p.u && Bit(w, BIT_A) == p.a && Bit(w, BIT_D) == p.d
    && PtePpn(w) == ppn
  }

  // A valid entry is read back field by field.
  lemma EntryBits(ppn: nat, p: Perm)
    ensures Decodes(PteCreate(ppn, TypeBits(p)), ppn, p)
  {
    hide Bit;
    hide Flag;
    var w := PteCreate(ppn, TypeBits(p));
    var w7 := Flag(p.d, 1) + 2 * (4 * ppn);
    var w6 := Flag(p.a, 1) + 2 * w7;
    var w5 := 2 * w6;
    var w4 := Flag(p.u, 1) + 2 * w5;
    var w3 := Flag(p.x, 1) + 2 * w4;
    var w2 := Flag(p.w, 1) + 2 * w3;
    var w1 := Flag(p.r, 1) + 2 * w2;
    FlagTimes(p);
    assert w == 1 + 2 * w1;
    DivModUnique(w, 1024, ppn, TypeBits(p) + 1);
    Halve(w, true, w1);
    Halve(w1, p.r, w2);
    Halve(w2, p.w, w3);
    Halve(w3, p.x, w4);
    Halve(w4, p.u, w5);
    Halve(w5, false, w6);
    Halve(w6, p.a, w7);
    Halve(w7, p.d, 4 * ppn);
    BitsOf(w, w1, w2, w3, w4, w5, w6, w7);
  }

  lemma FlagTimes(p: Perm)
    ensures Flag(true, 1) == 1 && Flag(false, 1) == 0
    ensures Flag(p.r, 0x02) == 2 * Flag(p.r, 1) && Flag(p.w, 0x04) == 4 * Flag(p.w, 1)
    ensures Flag(p.x, 0x08) == 8 * Flag(p.x, 1) && Flag(p.u, 0x10) == 16 * Flag(p.u, 1)
    ensures Flag(p.a, 0x40) == 64 * Flag(p.a, 1) && Flag(p.d, 0x80) == 128 * Flag(p.d, 1)
    ensures forall b :: Flag(b, 1) == 1 <==> b
  {
  }

  lemma BitZero(w: nat)
    ensures Bit(w, 0) == (w % 2 == 1)
  {
  }

  lemma BitDown(w: nat, i: nat)
    requires i > 0
    ensures Bit(w, i) == Bit(w / 2, i - 1)
  {
  }

  // Bit i of w is the lowest bit after i halvings.
  lemma BitsOf(w: nat, w1: nat, w2: nat, w3: nat, w4: nat, w5: nat, w6: nat, w7: nat)
    requires w1 == w / 2 && w2 == w1 / 2 && w3 == w2 / 2 && w4 == w3 / 2 && w5 == w4 / 2 && w6 == w5 / 2 && w7 == w6 / 2
    ensures Bit(w, 0) == (w % 2 == 1) && Bit(w, 1) == (w1 % 2 == 1) && Bit(w, 2) == (w2 % 2 == 1)
    ensures Bit(w, 3) == (w3 % 2 == 1) && Bit(w, 4) == (w4 % 2 == 1)
    ensures Bit(w, 6) == (w6 % 2 == 1) && Bit(w, 7) == (w7 % 2 == 1)
  {
    var ws := [w, w1, w2, w3, w4, w5, w6, w7];
    hide Bit;
    BitZero(w);
    BitAt(ws, 1);
    BitAt(ws, 2);
    BitAt(ws, 3);
    BitAt(ws, 4);
    BitAt(ws, 6);
    BitAt(ws, 7);
  }

  lemma {:induction false} BitAt(ws: seq<nat>, i: nat)
    requires i < |ws| && forall k | 0 < k < |ws| :: ws[k] == ws[k - 1] / 2
    ensures Bit(ws[0], i) == (ws[i] % 2 == 1)
    decreases i
  {
    hide Bit;
    if i == 0 {
      BitZero(ws[0]);
    } else {
      BitDown(ws[0], i);
      BitAt(ws[1..], i - 1);
    }
  }

  // Both kinds of leaf are told apart by the valid bit, and the region is
  // read back from its address.
  lemma EncodeKinds(l: Leaf, vmrs: nat)
    requires vmrs > 0 && vmrs % 2 == 0
    ensures Encode(l, vmrs) != 0 && (PteValid(Encode(l, vmrs)) <==> l.Mapped?)
    ensures l.Lazy? ==> Encode(l, vmrs) >= vmrs && (Encode(l, vmrs) - vmrs) / VMR_SIZE == l.vmr
  {
    match l
    case Lazy(v) => EvenSum(vmrs, v);
    case Mapped(ppn, perm) => EntryBits(ppn, perm);
  }

  lemma EvenSum(vmrs: nat, v: nat)
    requires vmrs % 2 == 0
    ensures (vmrs + v * 40) % 2 == 0
  {
    DivModUnique(vmrs + v * 40, 2, vmrs / 2 + v * 20, 0);
  }

  // ---- pages waiting for a region ----

  function LazyPages(leaf: map<nat, Leaf>, v: nat): set<nat> {
    set p | p in leaf && leaf[p] == Lazy(v)
  }

  // The reference counts agree with the map, except that `slot` is still
  // owed that many pages.
  ghost predicate Counted(leaf: map<nat, Leaf>, refs: seq<nat>, slot: nat, owed: nat) {
    |refs| == MAX_VMR &&
    forall v | 0 <= v < MAX_VMR :: refs[v] == |LazyPages(leaf, v)| + (if v == slot then owed else 0)
  }

  function One(b: bool): nat { if b then 1 else 0 }

  lemma CountSet(leaf: map<nat, Leaf>, p: nat, l: Leaf, v: nat)
    ensures |LazyPages(leaf[p := l], v)| + One(p in leaf && leaf[p] == Lazy(v))
            == |LazyPages(leaf, v)| + One(l == Lazy(v))
  {
    hide LazyPages;
    SetPages(leaf, p, l, v);
    Without(LazyPages(leaf, v), p);
    Without(LazyPages(leaf[p := l], v), p);
  }

  lemma SetPages(leaf: map<nat, Leaf>, p: nat, l: Leaf, v: nat)
    ensures LazyPages(leaf[p := l], v) - {p} == LazyPages(leaf, v) - {p}
    ensures p in LazyPages(leaf, v) <==> p in leaf && leaf[p] == Lazy(v)
    ensures p in LazyPages(leaf[p := l], v) <==> l == Lazy(v)
  {
  }

  lemma Without(a: set<nat>, p: nat)
    ensures |a - {p}| + One(p in a) == |a|
  {
    if p !in a {
      assert a - {p} == a;
    }
  }

  lemma CountDrop(leaf: map<nat, Leaf>, p: nat, v: nat)
    ensures |LazyPages(leaf - {p}, v)| + One(p in leaf && leaf[p] == Lazy(v)) == |LazyPages(leaf, v)|
  {
    assert LazyPages(leaf, v) - {p} == LazyPages(leaf - {p}, v);
  }

  lemma CountUsed(leaf: map<nat, Leaf>, v: nat)
    ensures |LazyPages(leaf, v)| > 0 <==> Used(leaf, v)
  {
    if Used(leaf, v) {
      var p :| p in leaf && leaf[p] == Lazy(v);
      assert p in LazyPages(leaf, v);
    } else {
      assert LazyPages(leaf, v) == {};
    }
  }
}
