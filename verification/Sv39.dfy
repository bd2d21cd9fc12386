// The page tables as the processor walks them: the Sv39 translation of the
// RISC-V privileged architecture, section 4.4, over the words in memory.
module Sv39 {
  import opened Arith
  import opened PageTable
  import opened FlatVm
  import opened Entries
  import opened Access
  import opened Vm

  datatype Walked = Refused | Outside | Found(pte: nat, level: nat)

  // One level: an entry that is not valid, or writable but not readable, is
  // refused; one that is readable or executable is a leaf; any other points
  // at the next table.
  ghost function Walk(mem: array2<nat>, base: nat, page: nat, va: nat, level: nat): Walked
    requires mem.Length1 == 512 && page < mem.Length0
    reads mem
    decreases level
  {
    var pte := mem[page, Index(va, level)];
    if !On(pte, 1) || (!On(pte, 2) && On(pte, 4)) then Refused
    else if On(pte, 2) || On(pte, 8) then Found(pte, level)
    else if level == 0 then Refused
    else if base <= pte / 1024 < base + mem.Length0 then Walk(mem, base, pte / 1024 - base, va, level - 1)
    else Outside
  }

  // Is the bit of weight m set?
  predicate On(pte: nat, m: nat)
    requires m > 0
  {
    pte / m % 2 == 1
  }

  // The 9 bits of the address that index the table of a level.
  function Index(va: nat, level: nat): (i: nat)
    ensures i < 512
  {
    if level == 0 then va / 0x1000 % 512
    else if level == 1 then va / 0x20_0000 % 512
    else va / 0x4000_0000 % 512
  }

  // What the processor then asks of the leaf for a user access.
  predicate Allows(w: Walked, kind: Prot) {
    && w.Found? && On(w.pte, 0x10) && On(w.pte, 0x40)
    && if kind == READ then On(w.pte, 2)
       else if kind == WRITE then On(w.pte, 4) && On(w.pte, 0x80)
       else On(w.pte, 8)
  }

  // ---- the words ----

  lemma DirectoryWord(page: nat)
    ensures var w := PtdCreate(page); On(w, 1) && !On(w, 2) && !On(w, 4) && !On(w, 8) && w / 1024 == page
  {
    hide On;
    var w := page * 1024 + 1;
    BitAt(w, 1, page * 512, 1, 0);
    BitAt(w, 2, page * 256, 0, 1);
    BitAt(w, 4, page * 128, 0, 1);
    BitAt(w, 8, page * 64, 0, 1);
    DivModUnique(w, 1024, page, 1);
  }

  lemma LeafWord(ppn: nat, p: Perm)
    ensures var w := Encode(Mapped(ppn, p), 0);
            && On(w, 1) && w / 1024 == ppn
            && (On(w, 2) <==> p.r) && (On(w, 4) <==> p.w) && (On(w, 8) <==> p.x)
            && (On(w, 0x10) <==> p.u) && (On(w, 0x40) <==> p.a) && (On(w, 0x80) <==> p.d)
  {
    hide On;
    var r, w, x, u, a, d := Flag(p.r, 1), Flag(p.w, 1), Flag(p.x, 1), Flag(p.u, 1), Flag(p.a, 1), Flag(p.d, 1);
    WordBits(Encode(Mapped(ppn, p), 0), ppn, r, w, x, u, a, d);
  }

  lemma WordBits(v: nat, ppn: nat, r: nat, w: nat, x: nat, u: nat, a: nat, d: nat)
    requires r <= 1 && w <= 1 && x <= 1 && u <= 1 && a <= 1 && d <= 1
    requires v == ppn * 1024 + 1 + 2 * r + 4 * w + 8 * x + 0x10 * u + 0x40 * a + 0x80 * d
    ensures On(v, 1) && v / 1024 == ppn && (On(v, 2) <==> r == 1) && (On(v, 4) <==> w == 1) && (On(v, 8) <==> x == 1)
    ensures (On(v, 0x10) <==> u == 1) && (On(v, 0x40) <==> a == 1) && (On(v, 0x80) <==> d == 1)
  {
    hide On;
    BitAt(v, 0x80, ppn * 4, d, 1 + 2 * r + 4 * w + 8 * x + 0x10 * u + 0x40 * a);
    BitAt(v, 0x40, ppn * 8 + d, a, 1 + 2 * r + 4 * w + 8 * x + 0x10 * u);
    BitAt(v, 0x10, ppn * 32 + 4 * d + 2 * a, u, 1 + 2 * r + 4 * w + 8 * x);
    BitAt(v, 8, ppn * 64 + 8 * d + 4 * a + u, x, 1 + 2 * r + 4 * w);
    BitAt(v, 4, ppn * 128 + 0x10 * d + 8 * a + 2 * u + x, w, 1 + 2 * r);
    BitAt(v, 2, ppn * 256 + 0x20 * d + 0x10 * a + 4 * u + 2 * x + w, r, 1);
    BitAt(v, 1, ppn * 512 + 0x40 * d + 0x20 * a + 8 * u + 4 * x + 2 * w + r, 1, 0);
    DivModUnique(v, 1024, ppn, v - ppn * 1024);
  }

  lemma BitAt(v: nat, m: nat, h: nat, bit: nat, low: nat)
    requires m > 0 && bit <= 1 && low < m && v == (2 * h + bit) * m + low
    ensures On(v, m) <==> bit == 1
  {
    DivModUnique(v, m, 2 * h + bit, low);
    DivModUnique(2 * h + bit, 2, h, bit);
  }

  lemma LazyWord(v: nat, page: nat)
    ensures !On(Encode(Lazy(v), page * PGSIZE), 1)
  {
    hide On;
    BitAt(Encode(Lazy(v), page * PGSIZE), 1, page * 2048 + v * 20, 0, 0);
  }

  // ---- the walk ----

  // From the root the processor comes to the leaf word of the page, and finds
  // nothing for a page without one.
  lemma WalkIs(t: Table, va: nat)
    requires t.Valid() && va < 0x80_0000_0000
    ensures t.mem.Length1 == 512 && 0 < t.mem.Length0
    ensures var p := va / PGSIZE;
            && (p !in t.leaf ==> Walk(t.mem, t.base, 0, va, 2) == Refused)
            && (p in t.leaf ==> Upper(p) in t.low && t.low[Upper(p)] < t.mem.Length0
                                && t.mem[t.low[Upper(p)], Index(va, 0)] == t.leaf[p]
                                && Walk(t.mem, t.base, 0, va, 2) == Walk(t.mem, t.base, t.low[Upper(p)], va, 0))
  {
    hide Walk;
    hide PtdCreate;
    hide Index;
    hide Upper;
    hide Lower;
    hide Table.Valid;
    var p := va / PGSIZE;
    Digits(va);
    var i := Upper(Upper(p));
    RootWord(t, i);
    MidWord(t, Upper(p));
    BottomWord(t, p);
    if i !in t.mid {
      NoEntry(t.mem, t.base, 0, va, 2);
    } else {
      Descends(t.mem, t.base, 0, va, 2, t.mid[i]);
      if Upper(p) !in t.low {
        NoEntry(t.mem, t.base, t.mid[i], va, 1);
      } else {
        Descends(t.mem, t.base, t.mid[i], va, 1, t.low[Upper(p)]);
        if p !in t.leaf {
          NoEntry(t.mem, t.base, t.low[Upper(p)], va, 0);
        }
      }
    }
  }

  lemma RootWord(t: Table, i: nat)
    requires t.Valid() && i < 512
    ensures t.mem.Length1 == 512 && 0 < t.mem.Length0
    ensures t.mem[0, i] == if i in t.mid then PtdCreate(t.base + t.mid[i]) else 0
    ensures i in t.mid ==> t.mid[i] < t.mem.Length0
  {
    hide PtdCreate;
    hide Table.MidEntries;
    hide Table.Leaves;
  }

  lemma MidWord(t: Table, k: nat)
    requires t.Valid() && k < 0x4_0000
    ensures t.mem.Length1 == 512 && 0 < t.mem.Length0
    ensures Upper(k) in t.mid ==>
              && t.mid[Upper(k)] < t.mem.Length0
              && t.mem[t.mid[Upper(k)], Lower(k)] == if k in t.low then PtdCreate(t.base + t.low[k]) else 0
    ensures k in t.low ==> Upper(k) in t.mid && t.low[k] < t.mem.Length0
  {
    hide PtdCreate;
    hide Upper;
    hide Table.RootEntries;
    hide Table.Leaves;
  }

  lemma BottomWord(t: Table, p: nat)
    requires t.Valid() && p < VPNS
    ensures t.mem.Length1 == 512 && 0 < t.mem.Length0
    ensures p in t.leaf ==> Upper(p) in t.low
    ensures Upper(p) in t.low ==>
              && t.low[Upper(p)] < t.mem.Length0
              && t.mem[t.low[Upper(p)], Lower(p)] == if p in t.leaf then t.leaf[p] else 0
  {
    hide Upper;
    hide Table.RootEntries;
    hide Table.MidEntries;
  }

  lemma NoEntry(mem: array2<nat>, base: nat, page: nat, va: nat, level: nat)
    requires mem.Length1 == 512 && page < mem.Length0 && mem[page, Index(va, level)] == 0
    ensures Walk(mem, base, page, va, level) == Refused
  {
    hide Index;
    assert !On(0, 1);
  }

  lemma Descends(mem: array2<nat>, base: nat, page: nat, va: nat, level: nat, next: nat)
    requires mem.Length1 == 512 && page < mem.Length0 && next < mem.Length0 && level > 0
    requires mem[page, Index(va, level)] == PtdCreate(base + next)
    ensures Walk(mem, base, page, va, level) == Walk(mem, base, next, va, level - 1)
  {
    hide On;
    hide PtdCreate;
    hide Index;
    DirectoryWord(base + next);
  }

  lemma Digits(va: nat)
    requires va < 0x80_0000_0000
    ensures var p := va / PGSIZE;
            && p < VPNS && Upper(p) < 0x4_0000 && Upper(Upper(p)) < 512
            && Index(va, 2) == Upper(Upper(p)) && Index(va, 1) == Lower(Upper(p)) && Index(va, 0) == Lower(p)
  {
  }

  // What the processor makes of every address: it comes to the frame and the
  // permissions of a resident page, unless these are to write without
  // reading, and refuses free and lazy pages, which then fault.
  lemma HardwareWalk(vm: VirtualMemory, va: nat)
    requires vm.Core() && va < 0x80_0000_0000
    ensures vm.pt.mem.Length1 == 512 && 0 < vm.pt.mem.Length0
    ensures var w, p := Walk(vm.pt.mem, vm.pt.base, 0, va, 2), va / 0x1000;
            if p in vm.leaf && vm.leaf[p].Mapped? && (vm.leaf[p].perm.r || (vm.leaf[p].perm.x && !vm.leaf[p].perm.w))
            then
              var perm := vm.leaf[p].perm;
              && w.Found? && w.level == 0 && w.pte / 1024 == vm.leaf[p].ppn
              && (Allows(w, READ) <==> perm.u && perm.a && perm.r)
              && (Allows(w, WRITE) <==> perm.u && perm.a && perm.w && perm.d)
              && (Allows(w, EXEC) <==> perm.u && perm.a && perm.x)
            else w == Refused
  {
    hide Table.Valid;
    hide Counted;
    hide Encode;
    hide On;
    hide Index;
    WalkIs(vm.pt, va);
    var p := va / PGSIZE;
    if p in vm.leaf {
      match vm.leaf[p]
      case Lazy(v) => LazyWord(v, vm.pt.base + vm.vmrsPage);
      case Mapped(ppn, perm) =>
        LeafWord(ppn, perm);
        EncodeMapped(ppn, perm, vm.VmrsAddr());
    }
  }

  lemma EncodeMapped(ppn: nat, perm: Perm, a: nat)
    ensures Encode(Mapped(ppn, perm), a) == Encode(Mapped(ppn, perm), 0)
  {
  }

  // For a resident page under protection prot the processor allows what the
  // fault handler grants, except that it allows nothing on a page that may be
  // written but not read.
  lemma HardwareAgrees(vm: VirtualMemory, va: nat, prot: Prot, kind: Prot)
    requires vm.Core() && va < 0x80_0000_0000 && Kind(kind)
    requires va / PGSIZE in vm.leaf && vm.leaf[va / PGSIZE].Mapped?
    requires vm.leaf[va / PGSIZE].perm == ProtToType(prot, true)
    ensures vm.pt.mem.Length1 == 512 && 0 < vm.pt.mem.Length0
    ensures Allows(Walk(vm.pt.mem, vm.pt.base, 0, va, 2), kind) <==>
              Has(prot, kind) && (Has(prot, WRITE) ==> Has(prot, READ))
  {
    hide Walk;
    hide Allows;
    hide Has;
    hide VirtualMemory.Core;
    HardwareWalk(vm, va);
    NotFound(kind);
  }

  lemma NotFound(kind: Prot)
    ensures !Allows(Refused, kind)
  {
  }
}
