// Properties of every run of the virtual memory manager, stated on its flat
// meaning.
module VmRuns {
  import opened PageTable
  import opened FlatVm

  datatype Op =
    | OpMmap(addr: nat, len: nat, prot: Prot, priv: bool, fixed: bool, populate: bool, offset: nat)
    | OpMunmap(addr: nat, len: nat)
    | OpBrk(addr: nat)
    | OpMprotect(addr: nat, len: nat, prot: Prot)
    | OpLoad(vaddr: nat, kind: Prot)
    | OpStore(vaddr: nat, byte: bv8)

  // What the caller sees of a step: a result, a byte, a fault, or nothing
  // because the kernel asserted.  Lost is a search that would come round the
  // end of the 39-bit address space, which is not followed.
  datatype Outcome = Code(value: int) | Byte(byte: bv8) | Segfault | Panic | Lost

  predicate Stops(o: Outcome) { o.Panic? || o.Lost? }

  // An mmap that passes the first checks.
  predicate Asks(op: Op) { op.OpMmap? && op.priv && op.len > 0 && op.offset % PGSIZE == 0 }

  ghost predicate Followed(s: Flat, op: Op) { Asks(op) && !op.fixed ==> InSpace(s, Pages(op.len)) }

  ghost function Step(s: Flat, op: Op): (Flat, Outcome)
    requires Inv(s)
  {
    match op
    case OpMmap(addr, len, prot, priv, fixed, populate, offset) =>
      if !Followed(s, op) then (s, Lost)
      else if Asks(op) && MmapPanics(s, addr, len, fixed, populate) then (s, Panic)
      else
        var (s', r) := DoMmap(s, addr, len, prot, priv, fixed, populate, offset);
        (s', Code(r))
    case OpMunmap(addr, len) =>
      var (s', r) := DoMunmap(s, addr, len);
      (s', Code(r))
    case OpBrk(addr) =>
      var r := Brk(s, addr);
      if r.None? then (s, Panic) else (r.value.0, Code(r.value.1))
    case OpMprotect(addr, len, prot) =>
      var (s', r) := DoMprotect(s, addr, len, prot);
      (s', Code(r))
    case OpLoad(vaddr, kind) =>
      var (s', r) := Fault(s, vaddr, kind);
      if r != 0 then (s', Segfault)
      else (FaultInBounds(s, vaddr, kind); (s', Byte(s'.frames[vaddr / PGSIZE][vaddr % PGSIZE])))
    case OpStore(vaddr, byte) =>
      var (s', r) := Fault(s, vaddr, WRITE);
      if r != 0 then (s', Segfault) else (FaultInBounds(s, vaddr, WRITE); (Poke(s', vaddr, byte), Code(0)))
  }

  function Poke(s: Flat, vaddr: nat, byte: bv8): Flat
    requires vaddr / PGSIZE < |s.frames| && |s.frames[vaddr / PGSIZE]| == PGSIZE
  {
    var p := vaddr / PGSIZE;
    s.(frames := s.frames[p := s.frames[p][vaddr % PGSIZE := byte]])
  }

  // A completed access is to a user frame.
  lemma FaultInBounds(s: Flat, vaddr: nat, prot: Prot)
    requires Inv(s) && Fault(s, vaddr, prot).1 == 0
    ensures var (s', r) := Fault(s, vaddr, prot);
            var p := vaddr / PGSIZE;
            && Inv(s') && p < |s'.frames| && |s'.frames[p]| == PGSIZE
            && p in s'.leaf && s'.leaf[p].Mapped? && Covers(s'.leaf[p].perm, ProtToType(prot, true))
  {
    FaultInv(s, vaddr, prot);
  }

  lemma FaultInv(s: Flat, vaddr: nat, prot: Prot)
    requires Inv(s)
    ensures Inv(Fault(s, vaddr, prot).0)
  {
  }

  // Every operation keeps the invariant.
  lemma MappingInv(s: Flat, p: nat, n: nat, v: nat, prot: Prot, eager: bool)
    requires Inv(s) && v < MAX_VMR && Mappable(s, p, n) && (eager ==> p + n <= |s.frames|)
    ensures Inv(Mapping(s, p, n, v, prot, eager))
  {
    hide Inv;
    FramesBound(s);
    ProtsSize(s);
    ProtInv(s, v, prot);
    FillingEnds(s.(prots := s.prots[v := prot]), p, n, v, prot);
    FillingInv(s.(prots := s.prots[v := prot]), p, n, if eager then n else 0, v, prot);
  }

  lemma ProtInv(s: Flat, v: nat, prot: Prot)
    requires Inv(s) && v < MAX_VMR
    ensures |s.prots| == MAX_VMR && Inv(s.(prots := s.prots[v := prot]))
  {
  }

  lemma PagesOf(addr: nat, len: nat, top: nat)
    requires addr % PGSIZE == 0 && addr + len <= top
    ensures addr / PGSIZE + Pages(len) <= Pages(top)
  {
  }

  // Where a mapping goes, and that it is not filled outside user memory.
  lemma MmapRange(s: Flat, addr: nat, len: nat, prot: Prot, fixed: bool, populate: bool)
    requires Inv(s) && (fixed || (0 < len && InSpace(s, Pages(len))))
    requires Mmap(s, addr, len, prot, fixed, populate).addr.Some?
    ensures var p := Mmap(s, addr, len, prot, fixed, populate).addr.value / PGSIZE;
            && Mappable(s, p, Pages(len))
            && (populate || !s.demand || !Overlong(s, len, fixed) ==> p + Pages(len) <= |s.frames|)
  {
    hide Window;
    hide Mapping;
    hide SearchFrom;
    FramesBound(s);
    var a := Mmap(s, addr, len, prot, fixed, populate).addr.value;
    if fixed {
      PagesOf(a, len, s.mmapMax);
    } else {
      Searched(s, Pages(len));
      if !Overlong(s, len, fixed) {
        PagesOf(a, Pages(len) * PGSIZE, s.mmapMax);
        WholePages(Pages(len));
      }
    }
  }

  lemma WholePages(n: nat)
    ensures Pages(n * PGSIZE) == n
  {
  }

  lemma MmapInv(s: Flat, addr: nat, len: nat, prot: Prot, fixed: bool, populate: bool)
    requires Inv(s) && (fixed || (0 < len && InSpace(s, Pages(len))))
    ensures Inv(Mmap(s, addr, len, prot, fixed, populate).s)
  {
    hide Inv;
    hide Mappable;
    hide InSpace;
    hide Placed;
    hide Mapping;
    ProtsSize(s);
    var r := Mmap(s, addr, len, prot, fixed, populate);
    if r.addr.Some? {
      MmapRange(s, addr, len, prot, fixed, populate);
      MappingInv(s, r.addr.value / PGSIZE, Pages(len), FirstUnused(s.leaf, 0), prot, populate || !s.demand);
    }
  }

  lemma ProtectInv(s: Flat, p: nat, prot: Prot)
    requires Inv(s) && p in s.leaf
    ensures ProtectPage(s, p, prot).Some? ==> Inv(ProtectPage(s, p, prot).value)
  {
  }

  lemma {:induction false} MprotectInv(s: Flat, a: nat, end: nat, prot: Prot)
    requires Inv(s)
    ensures Inv(MprotectFrom(s, a, end, prot).0)
    decreases end - a
  {
    if a < end && Vpn(a) in s.leaf {
      var next := ProtectPage(s, Vpn(a), prot);
      ProtectInv(s, Vpn(a), prot);
      if next.Some? {
        MprotectInv(next.value, a + PGSIZE, end, prot);
      }
    }
  }

  lemma MunmapInv(s: Flat, p: nat, n: nat)
    requires Inv(s) && p + n <= DRAM_PAGE
    ensures Inv(s.(leaf := Munmapped(s.leaf, p, n)))
  {
  }

  lemma SetBrkInv(s: Flat, brk: nat)
    requires Inv(s) && brk % PGSIZE == 0 && brk <= DRAM_PAGE * PGSIZE
    ensures Inv(s.(brk := brk))
  {
  }

  lemma SetBrkMaxInv(s: Flat, brkMax: nat)
    requires Inv(s)
    ensures Inv(s.(brkMax := brkMax))
  {
  }

  lemma BrkInv(s: Flat, addr: nat)
    requires Inv(s) && Brk(s, addr).Some?
    ensures Inv(Brk(s, addr).value.0)
  {
    var brk, top := StartBrk(s), RoundUp(NewBrk(s, addr));
    StartBrkBound(s);
    RoundUpPages(NewBrk(s, addr));
    hide Inv;
    hide StartBrk;
    hide RoundUp;
    hide Munmapped;
    if brk > top {
      PagesOf(top, brk - top, DRAM_PAGE * PGSIZE);
      MunmapInv(s, top / PGSIZE, Pages(brk - top));
      SetBrkInv(s.(leaf := Munmapped(s.leaf, top / PGSIZE, Pages(brk - top))), top);
    } else if brk < top {
      MmapInv(s, brk, top - brk, ALL, true, false);
      MmapTop(s, brk, top - brk, ALL, true, false);
      SetBrkInv(Mmap(s, brk, top - brk, ALL, true, false).s, top);
    } else {
      SetBrkInv(s, top);
    }
  }

  lemma StartBrkBound(s: Flat)
    requires Inv(s)
    ensures StartBrk(s) % PGSIZE == 0 && StartBrk(s) <= DRAM_PAGE * PGSIZE
  {
  }

  lemma RoundUpPages(a: nat)
    ensures RoundUp(a) % PGSIZE == 0 && a <= RoundUp(a) < a + PGSIZE
  {
  }

  lemma MmapTop(s: Flat, addr: nat, len: nat, prot: Prot, fixed: bool, populate: bool)
    requires Inv(s) && fixed && Mmap(s, addr, len, prot, fixed, populate).addr.Some?
    ensures addr + len <= DRAM_PAGE * PGSIZE
  {
    hide Mapping;
  }

  lemma StepInv(s: Flat, op: Op)
    requires Inv(s)
    ensures Inv(Step(s, op).0)
  {
    hide Inv;
    hide InSpace;
    hide MmapPanics;
    hide Mmap;
    hide Brk;
    hide MprotectFrom;
    hide Munmapped;
    match op
    case OpMmap(addr, len, prot, priv, fixed, populate, offset) =>
      if Asks(op) && Followed(s, op) {
        MmapInv(s, addr, len, prot, fixed, populate);
        var r := Mmap(s, addr, len, prot, fixed, populate);
        SetBrkMaxInv(r.s, if r.addr.Some? then r.addr.value else 0);
      }
    case OpMunmap(addr, len) =>
      if addr % PGSIZE == 0 && ValidUserRange(s, addr, len) {
        MmapMaxBound(s);
        PagesOf(addr, len, DRAM_PAGE * PGSIZE);
        MunmapInv(s, addr / PGSIZE, Pages(len));
      }
    case OpBrk(addr) =>
      if Brk(s, addr).Some? {
        BrkInv(s, addr);
      }
    case OpMprotect(addr, len, prot) =>
      ProtsSize(s);
      MprotectInv(s, addr, (addr + len) % WORD, prot);
    case OpLoad(vaddr, kind) => FaultInv(s, vaddr, kind);
    case OpStore(vaddr, byte) =>
      FaultInv(s, vaddr, WRITE);
      if Fault(s, vaddr, WRITE).1 == 0 {
        FaultInBounds(s, vaddr, WRITE);
        PokeInv(Fault(s, vaddr, WRITE).0, vaddr, byte);
      }
  }

  lemma ProtsSize(s: Flat)
    requires Inv(s)
    ensures |s.prots| == MAX_VMR
  {
  }

  lemma PokeInv(s: Flat, vaddr: nat, byte: bv8)
    requires Inv(s) && vaddr / PGSIZE < |s.frames|
    ensures |s.frames[vaddr / PGSIZE]| == PGSIZE && Inv(Poke(s, vaddr, byte))
  {
  }

  // The state after a run, or where it stops.
  ghost function Run(s: Flat, ops: seq<Op>): (s': Flat)
    requires Inv(s)
    ensures Inv(s')
    decreases |ops|
  {
    if ops == [] || Stops(Step(s, ops[0]).1) then s else (StepInv(s, ops[0]); Run(Step(s, ops[0]).0, ops[1..]))
  }

  // ---- translation ----

  // Wherever a run leads, a valid user page translates to the physical
  // address va2pa names, frames of different pages are different, they lie
  // above the kernel's pages and below the end of memory, and the kernel
  // range is still mapped to itself.
  ghost predicate Translates(s: Flat, memEnd: nat)
  {
    && (forall p | p in s.leaf && p < DRAM_PAGE && s.leaf[p].Mapped? ::
          s.leaf[p].ppn * PGSIZE == p * PGSIZE + s.off * PGSIZE && s.off * PGSIZE <= s.leaf[p].ppn * PGSIZE < memEnd)
    && (forall p, q | p in s.leaf && q in s.leaf && s.leaf[p].Mapped? && s.leaf[q].Mapped?
            && s.leaf[p].ppn == s.leaf[q].ppn :: p == q)
    && (forall p | DRAM_PAGE <= p < s.off :: p in s.leaf && s.leaf[p] == Mapped(p, KernelPerm()))
  }

  lemma {:induction false} TranslationAgrees(s: Flat, ops: seq<Op>, memEnd: nat)
    requires Inv(s) && s.mmapMax + s.off * PGSIZE <= memEnd
    ensures Translates(Run(s, ops), memEnd)
    decreases |ops|
  {
    if ops != [] && !Stops(Step(s, ops[0]).1) {
      StepInv(s, ops[0]);
      StepConstants(s, ops[0]);
      TranslationAgrees(Step(s, ops[0]).0, ops[1..], memEnd);
    }
  }

  lemma StepConstants(s: Flat, op: Op)
    requires Inv(s)
    ensures var s' := Step(s, op).0;
            s'.off == s.off && s'.mmapMax == s.mmapMax && s'.demand == s.demand && s'.brkMin == s.brkMin
  {
    if op.OpMprotect? {
      MprotectConstants(s, op.addr, (op.addr + op.len) % WORD, op.prot);
    }
  }

  lemma {:induction false} MprotectConstants(s: Flat, a: nat, end: nat, prot: Prot)
    requires |s.prots| == MAX_VMR
    ensures var s' := MprotectFrom(s, a, end, prot).0;
            && s' == s.(leaf := s'.leaf, prots := s'.prots)
            && s'.leaf.Keys == s.leaf.Keys
    decreases end - a
  {
    if a < end && Vpn(a) in s.leaf && ProtectPage(s, Vpn(a), prot).Some? {
      MprotectConstants(ProtectPage(s, Vpn(a), prot).value, a + PGSIZE, end, prot);
    }
  }
}
