// What a process gets from its mappings, in addresses and bytes: which
// accesses go through, what they read, and what each request leaves alone.
module Access {
  import opened PageTable
  import opened FlatVm
  import opened VmRuns
  import opened DemandPaging
  import opened Mprotect

  // ---- protections ----

  // PROT_READ, PROT_WRITE and PROT_EXEC are the three low bits.
  lemma ProtBits(prot: Prot)
    ensures Has(prot, READ) <==> prot % 2 == 1
    ensures Has(prot, WRITE) <==> prot / 2 % 2 == 1
    ensures Has(prot, EXEC) <==> prot / 4 % 2 == 1
  {
  }

  predicate Kind(kind: Prot) { kind == READ || kind == WRITE || kind == EXEC }

  // What an entry must hold for an access of one kind.
  predicate Permits(p: Perm, kind: Prot) {
    p.u && if kind == READ then p.r && p.a else if kind == WRITE then p.w && p.d else p.x && p.a
  }

  lemma CoversOne(have: Perm, kind: Prot)
    requires Kind(kind)
    ensures Covers(have, ProtToType(kind, true)) <==> Permits(have, kind)
  {
    assert !Has(READ, WRITE) && !Has(READ, EXEC) && Has(READ, READ);
    assert !Has(WRITE, READ) && !Has(WRITE, EXEC) && Has(WRITE, WRITE);
    assert !Has(EXEC, READ) && !Has(EXEC, WRITE) && Has(EXEC, EXEC);
  }

  // The verdict of a fault, field by field.
  lemma FaultExact(s: Flat, vaddr: nat, kind: Prot)
    requires Inv(s) && Kind(kind)
    ensures var p := vaddr / PGSIZE;
            Fault(s, vaddr, kind).1 == 0 <==>
              && p in s.leaf && p * PGSIZE < s.mmapMax && SeenAt(s, p).leaf.Mapped?
              && var perm := SeenAt(s, p).leaf.perm;
                 perm.u && if kind == READ then perm.r && perm.a
                           else if kind == WRITE then perm.w && perm.d
                           else perm.x && perm.a
    ensures Fault(s, vaddr, kind).1 == 0 || Fault(s, vaddr, kind).1 == -1
  {
    hide Covers;
    hide ProtToType;
    hide Inv;
    hide SeenAt;
    hide FaultIn;
    var p := vaddr / PGSIZE;
    if p in s.leaf && p * PGSIZE < s.mmapMax {
      FaultSees(s, vaddr, kind);
      CoversOne(SeenAt(s, p).leaf.perm, kind);
    }
  }

  // A page mapped with prot permits exactly the kinds of access in prot.
  lemma GrantExact(prot: Prot, kind: Prot)
    requires Kind(kind)
    ensures Permits(ProtToType(prot, true), kind) <==> Has(prot, kind)
  {
    hide Has;
  }

  // ---- loads and stores ----

  lemma LoadSees(s: Flat, vaddr: nat, kind: Prot)
    requires Inv(s)
    ensures var p := vaddr / PGSIZE;
            if Fault(s, vaddr, kind).1 == 0
            then p in s.leaf && |SeenAt(s, p).page| == PGSIZE
                 && Step(s, OpLoad(vaddr, kind)).1 == Byte(SeenAt(s, p).page[vaddr % PGSIZE])
            else Step(s, OpLoad(vaddr, kind)).1 == Segfault
  {
    hide Inv;
    hide Fault;
    FaultAlike(s, vaddr, kind);
    if Fault(s, vaddr, kind).1 == 0 {
      FaultInBounds(s, vaddr, kind);
      var t := Fault(s, vaddr, kind).0;
      assert vaddr / PGSIZE in s.leaf.Keys;
      assert SeenAt(t, vaddr / PGSIZE) == SeenAt(s, vaddr / PGSIZE);
    }
  }

  // A store that goes through changes one byte of what is seen.
  lemma StoreSees(s: Flat, vaddr: nat, byte: bv8, q: nat)
    requires Inv(s) && Fault(s, vaddr, WRITE).1 == 0
    ensures var p, t := vaddr / PGSIZE, Step(s, OpStore(vaddr, byte)).0;
            && (q in t.leaf <==> q in s.leaf) && t.mmapMax == s.mmapMax && Inv(t)
            && p in s.leaf && |SeenAt(s, p).page| == PGSIZE
            && (q in s.leaf ==> SeenAt(t, q).leaf == SeenAt(s, q).leaf)
            && (q in s.leaf && q == p ==> SeenAt(t, q).page == SeenAt(s, p).page[vaddr % PGSIZE := byte])
            && (q in s.leaf && q != p ==> SeenAt(t, q).page == SeenAt(s, q).page)
  {
    hide Inv;
    hide Fault;
    hide ProtToType;
    var p, f := vaddr / PGSIZE, Fault(s, vaddr, WRITE).0;
    StepInv(s, OpStore(vaddr, byte));
    StepConstants(s, OpStore(vaddr, byte));
    FaultAlike(s, vaddr, WRITE);
    FaultInBounds(s, vaddr, WRITE);
    assert f.leaf.Keys == s.leaf.Keys;
    assert p in f.leaf.Keys && (q in f.leaf.Keys <==> q in s.leaf.Keys);
    assert SeenAt(f, p) == SeenAt(s, p);
    if q in s.leaf {
      assert SeenAt(f, q) == SeenAt(s, q);
    }
  }

  // What is read back: the byte stored, there and nowhere else, and no access
  // is gained or lost.
  lemma StoreLoad(s: Flat, vaddr: nat, byte: bv8, at: nat, kind: Prot)
    requires Inv(s) && Kind(kind) && Step(s, OpStore(vaddr, byte)).1 == Code(0)
    ensures var before := Step(s, OpLoad(at, kind)).1;
            var t := Step(s, OpStore(vaddr, byte)).0;
            && Inv(t)
            && Step(t, OpLoad(at, kind)).1 == if before.Byte? && at == vaddr then Byte(byte) else before
  {
    hide Inv;
    hide Fault;
    hide SeenAt;
    StoredIf(s, vaddr, byte);
    var t := Step(s, OpStore(vaddr, byte)).0;
    StoreSees(s, vaddr, byte, at / PGSIZE);
    hide Step;
    LoadSees(s, at, kind);
    LoadSees(t, at, kind);
    FaultExact(s, at, kind);
    FaultExact(t, at, kind);
    if at / PGSIZE == vaddr / PGSIZE && at % PGSIZE == vaddr % PGSIZE {
      assert at == vaddr;
    }
  }

  lemma StoredIf(s: Flat, vaddr: nat, byte: bv8)
    requires Inv(s)
    ensures Step(s, OpStore(vaddr, byte)).1 == if Fault(s, vaddr, WRITE).1 == 0 then Code(0) else Segfault
  {
    hide Inv;
    hide Fault;
  }

  // ---- mmap ----

  // Does the page lie in the range of bytes?
  predicate Meets(q: nat, addr: nat, len: nat) { q * PGSIZE < addr + len && addr < (q + 1) * PGSIZE }

  lemma MeetsPages(q: nat, addr: nat, len: nat)
    requires addr % PGSIZE == 0
    ensures Meets(q, addr, len) <==> Within(q, addr / PGSIZE, Pages(len))
  {
  }

  // What an mmap that returned an address did: fresh pages over its range,
  // every other page as before.
  lemma MapSees(s: Flat, op: Op, q: nat)
    requires Inv(s) && op.OpMmap? && Step(s, op).1.Code? && Step(s, op).1.value >= 0
    ensures var t, a := Step(s, op).0, Step(s, op).1.value;
            && Inv(t) && a % PGSIZE == 0 && t.mmapMax == s.mmapMax && t.brk == s.brk
            && (q in t.leaf <==> Meets(q, a, op.len) || q in s.leaf)
            && (q in t.leaf ==> SeenAt(t, q) == if Meets(q, a, op.len) then Fresh(s.off, q, op.prot) else SeenAt(s, q))
  {
    hide Inv;
    hide Mapping;
    hide MmapPanics;
    hide InSpace;
    hide SearchFrom;
    hide Pages;
    hide ProtToType;
    StepInv(s, op);
    StepConstants(s, op);
    var m := Mmap(s, op.addr, op.len, op.prot, op.fixed, op.populate);
    var a := Step(s, op).1.value;
    assert m.addr == Some(a);
    MmapRange(s, op.addr, op.len, op.prot, op.fixed, op.populate);
    ProtsSize(s);
    PlacedAligned(s, op.addr, op.len, op.fixed);
    var v := FirstUnused(s.leaf, 0);
    var eager := op.populate || !s.demand;
    MappingSees(s, a / PGSIZE, Pages(op.len), v, op.prot, eager, q);
    MappingRest(s, a / PGSIZE, Pages(op.len), v, op.prot, eager);
    MeetsPages(q, a, op.len);
    LowerBrk(m.s, a, q);
  }

  lemma PlacedAligned(s: Flat, addr: nat, len: nat, fixed: bool)
    requires Inv(s) && Placeable(s, addr, len, fixed) && (fixed || (0 < len && InSpace(s, Pages(len))))
    ensures Placed(s, addr, len, fixed) % PGSIZE == 0
  {
    hide Inv;
    hide Pages;
    hide InSpace;
    hide SearchFrom;
    if !fixed {
      assert 0 < Pages(len) by { SomePages(len); }
      Searched(s, Pages(len));
    }
  }

  lemma SomePages(len: nat)
    requires 0 < len
    ensures 0 < Pages(len)
  {
  }

  lemma LowerBrk(s: Flat, a: nat, q: nat)
    ensures var t := if a < s.brkMax then s.(brkMax := a) else s;
            t.leaf == s.leaf && t.brk == s.brk && (q in s.leaf ==> SeenAt(t, q) == SeenAt(s, q))
  {
    hide ProtToType;
  }

  // So afterwards the whole range reads as zeros, and accesses go through
  // exactly as prot says, whether or not the pages were filled at once.
  lemma MapAccess(s: Flat, op: Op, vaddr: nat, byte: bv8)
    requires Inv(s) && op.OpMmap? && Step(s, op).1.Code?
    requires 0 <= Step(s, op).1.value <= vaddr < Step(s, op).1.value + op.len
    requires vaddr / PGSIZE * PGSIZE < s.mmapMax
    ensures var t := Step(s, op).0;
            && Inv(t)
            && Step(t, OpLoad(vaddr, READ)).1 == (if Has(op.prot, READ) then Byte(0) else Segfault)
            && Step(t, OpLoad(vaddr, EXEC)).1 == (if Has(op.prot, EXEC) then Byte(0) else Segfault)
            && Step(t, OpStore(vaddr, byte)).1 == (if Has(op.prot, WRITE) then Code(0) else Segfault)
  {
    hide Inv;
    var t, q := Step(s, op).0, vaddr / PGSIZE;
    MapSees(s, op, q);
    assert Meets(q, Step(s, op).1.value, op.len);
    hide Step;
    FreshAccess(t, vaddr, s.off, op.prot, READ);
    FreshAccess(t, vaddr, s.off, op.prot, EXEC);
    FreshAccess(t, vaddr, s.off, op.prot, WRITE);
    StoredIf(t, vaddr, byte);
  }

  lemma FreshAccess(t: Flat, vaddr: nat, off: nat, prot: Prot, kind: Prot)
    requires Inv(t) && Kind(kind) && vaddr / PGSIZE in t.leaf && vaddr / PGSIZE * PGSIZE < t.mmapMax
    requires SeenAt(t, vaddr / PGSIZE) == Fresh(off, vaddr / PGSIZE, prot)
    ensures Fault(t, vaddr, kind).1 == 0 <==> Has(prot, kind)
    ensures Step(t, OpLoad(vaddr, kind)).1 == if Has(prot, kind) then Byte(0) else Segfault
  {
    hide Inv;
    hide Has;
    hide ProtToType;
    hide Fault;
    hide SeenAt;
    hide Step;
    FaultExact(t, vaddr, kind);
    GrantExact(prot, kind);
    LoadSees(t, vaddr, kind);
  }

  // Some region record has no page that refers to it.
  ghost predicate RegionFree(s: Flat) { exists v: nat :: v < MAX_VMR && !Used(s.leaf, v) }

  // A fixed mapping in whole is refused exactly when its address is not a
  // page's, its end is above mmap_max, or no region is free.
  lemma FixedExact(s: Flat, op: Op)
    requires Inv(s) && op.OpMmap? && Asks(op) && op.fixed
    ensures Step(s, op).1 ==
            Code(if op.addr % PGSIZE == 0 && op.addr + op.len <= s.mmapMax && RegionFree(s) then op.addr else -1)
  {
    hide Inv;
    hide Mapping;
    MmapAddr(s, op.addr, op.len, op.prot, op.populate);
    RegionFreeIs(s);
  }

  lemma RegionFreeIs(s: Flat)
    ensures RegionFree(s) <==> FirstUnused(s.leaf, 0) < MAX_VMR
  {
    var v := FirstUnused(s.leaf, 0);
    if v < MAX_VMR {
      assert !Used(s.leaf, v);
    }
  }

  // A searched mapping that fits in user memory goes to the least address
  // from the break up that has its pages free.
  lemma SearchedPlace(s: Flat, op: Op, b: nat)
    requires Inv(s) && op.OpMmap? && Asks(op) && !op.fixed && Pages(op.len) * PGSIZE <= s.mmapMax
    requires Step(s, op).1.Code? && Step(s, op).1.value >= 0
    ensures var a := Step(s, op).1.value;
            && s.brk <= a && a % PGSIZE == 0 && a + Pages(op.len) * PGSIZE <= s.mmapMax
            && (forall q: nat | Meets(q, a, op.len) :: q !in s.leaf)
            && (s.brk <= b < a && b % PGSIZE == 0 ==> exists q: nat :: Meets(q, b, op.len) && q in s.leaf)
  {
    hide Inv;
    hide Mapping;
    hide MmapPanics;
    hide InSpace;
    hide SearchFrom;
    hide FitFrom;
    hide Pages;
    var n, a := Pages(op.len), Step(s, op).1.value;
    SomePages(op.len);
    BrkAligned(s);
    SearchFits(s, n, s.brk);
    FirstFit(s, n, s.brk);
    assert a == SearchFrom(s, n, s.brk) != 0;
    forall q: nat | Meets(q, a, op.len) ensures q !in s.leaf {
      MeetsPages(q, a, op.len);
    }
    if s.brk <= b < a && b % PGSIZE == 0 {
      assert !Fits(s, n, b);
      var q :| b / PGSIZE <= q < b / PGSIZE + n && q in s.leaf;
      MeetsPages(q, b, op.len);
    }
  }

  // It is refused exactly when no such address below mmap_max has its pages
  // free, or no region is.
  lemma SearchedExact(s: Flat, op: Op)
    requires Inv(s) && op.OpMmap? && Asks(op) && !op.fixed && Pages(op.len) * PGSIZE <= s.mmapMax && 0 < s.brk
    ensures Step(s, op).1.Code? && (Step(s, op).1.value == -1 || s.brk <= Step(s, op).1.value)
    ensures Step(s, op).1 == Code(-1) <==>
              !RegionFree(s) || forall b | s.brk <= b && FitsBelow(s, op.len, b) :: Blocked(s, op.len, b)
  {
    hide Inv;
    hide Mapping;
    hide SearchFrom;
    hide FitFrom;
    hide Pages;
    var n := Pages(op.len);
    SomePages(op.len);
    BrkAligned(s);
    SearchFits(s, n, s.brk);
    FirstFit(s, n, s.brk);
    RegionFreeIs(s);
    forall b ensures Fits(s, n, b) <==> FitsBelow(s, op.len, b) && !Blocked(s, op.len, b) {
      FitsIs(s, op.len, b);
    }
  }

  // A page start with the pages asked for below mmap_max, and one of them in
  // use.
  predicate FitsBelow(s: Flat, len: nat, b: nat) { b % PGSIZE == 0 && b + Pages(len) * PGSIZE <= s.mmapMax }

  ghost predicate Blocked(s: Flat, len: nat, b: nat) { exists q: nat :: Meets(q, b, len) && q in s.leaf }

  lemma FitsIs(s: Flat, len: nat, b: nat)
    ensures Fits(s, Pages(len), b) <==> FitsBelow(s, len, b) && !Blocked(s, len, b)
  {
    hide Pages;
    if FitsBelow(s, len, b) {
      forall q: nat ensures Meets(q, b, len) <==> Within(q, b / PGSIZE, Pages(len)) {
        MeetsPages(q, b, len);
      }
      if !Fits(s, Pages(len), b) {
        var q :| b / PGSIZE <= q < b / PGSIZE + Pages(len) && q in s.leaf;
        assert Meets(q, b, len);
      }
    }
  }

  // What is no request for private memory in whole pages is refused as such.
  lemma InvalidExact(s: Flat, op: Op)
    requires Inv(s) && op.OpMmap?
    ensures Step(s, op).1 == Code(-22) <==> !op.priv || op.len == 0 || op.offset % PGSIZE != 0
    ensures Step(s, op).1.Code? && Step(s, op).1.value < 0 ==> Step(s, op).0 == s
  {
    hide Inv;
    hide Mapping;
    hide InSpace;
    hide SearchFrom;
    hide Pages;
  }

  lemma BrkAligned(s: Flat)
    requires Inv(s)
    ensures s.brk % PGSIZE == 0 && s.mmapMax < WORD
  {
  }

  // ---- munmap ----

  // munmap refuses exactly the bad ranges; otherwise the pages that meet the
  // range lose their entries and all others are seen as before.
  lemma MunmapExact(s: Flat, addr: nat, len: nat, q: nat)
    requires Inv(s)
    ensures var (t, o) := Step(s, OpMunmap(addr, len));
            if addr % PGSIZE == 0 && addr + len <= s.mmapMax
            then o == Code(0) && t == s.(leaf := t.leaf)
                 && (q in t.leaf <==> q in s.leaf && !Meets(q, addr, len))
                 && (q in t.leaf ==> SeenAt(t, q) == SeenAt(s, q))
            else o == Code(-22) && t == s
  {
    hide Inv;
    hide ProtToType;
    hide Pages;
    if addr % PGSIZE == 0 {
      MeetsPages(q, addr, len);
    }
  }

  // So an access to the range faults until it is mapped again.
  lemma MunmapAccess(s: Flat, addr: nat, len: nat, vaddr: nat, kind: Prot)
    requires Inv(s) && Step(s, OpMunmap(addr, len)).1 == Code(0) && addr <= vaddr < addr + len
    ensures var t := Step(s, OpMunmap(addr, len)).0;
            Inv(t) && Step(t, OpLoad(vaddr, kind)).1 == Segfault
  {
    hide Inv;
    hide SeenAt;
    StepInv(s, OpMunmap(addr, len));
    MunmapExact(s, addr, len, vaddr / PGSIZE);
    assert Meets(vaddr / PGSIZE, addr, len);
  }

  // ---- mprotect ----

  // After a successful mprotect accesses to its range go through exactly as
  // the new protection says.
  lemma ProtectAccess(s: Flat, p: nat, len: nat, prot: Prot, vaddr: nat, kind: Prot)
    requires Inv(s) && Kind(kind) && p * PGSIZE + len <= VPNS * PGSIZE
    requires Step(s, OpMprotect(p * PGSIZE, len, prot)).1 == Code(0)
    requires p * PGSIZE <= vaddr < p * PGSIZE + len && vaddr / PGSIZE * PGSIZE < s.mmapMax
    ensures var t := Step(s, OpMprotect(p * PGSIZE, len, prot)).0;
            Inv(t) && (Fault(t, vaddr, kind).1 == 0 <==> Has(prot, kind))
  {
    hide Inv;
    hide Has;
    hide ProtToType;
    hide Fault;
    hide DoMprotect;
    var q := vaddr / PGSIZE;
    ProtsSize(s);
    StepInv(s, OpMprotect(p * PGSIZE, len, prot));
    StepConstants(s, OpMprotect(p * PGSIZE, len, prot));
    MprotectAs(s, p, len, prot);
    MeetsPages(q, p * PGSIZE, len);
    assert Within(q, p, Pages(len)) && q in s.leaf;
    MprotectSees(s, p, len, prot, q);
    FaultExact(DoMprotect(s, p * PGSIZE, len, prot).0, vaddr, kind);
    GrantExact(prot, kind);
  }

  // A failing mprotect names what the first bad page of its range is: without
  // entry or not allowed.  The pages before it keep the new protection.
  lemma ProtectFails(s: Flat, p: nat, len: nat, prot: Prot, k: nat)
    requires Inv(s) && |s.prots| == MAX_VMR && p * PGSIZE + len <= VPNS * PGSIZE && k < Pages(len)
    requires AllAllowed(s, p, k, prot) && (p + k in s.leaf ==> !Allowed(s, p + k, prot))
    ensures var (t, o) := Step(s, OpMprotect(p * PGSIZE, len, prot));
            o == Code(if p + k in s.leaf then -13 else -12) && Protects(s, t, p, k, prot)
  {
    hide Inv;
    hide MprotectFrom;
    hide AllAllowed;
    hide Allowed;
    hide Protects;
    RangePages(len, p);
    FailsAt(s, p, Pages(len), p * PGSIZE + len, prot, k);
  }

  lemma {:induction false} FailsAt(s: Flat, p: nat, n: nat, end: nat, prot: Prot, k: nat)
    requires |s.prots| == MAX_VMR && p + n <= VPNS && EndsIn(p, n, end) && k < n
    requires AllAllowed(s, p, k, prot) && (p + k in s.leaf ==> !Allowed(s, p + k, prot))
    ensures var (t, r) := MprotectFrom(s, p * PGSIZE, end, prot);
            r == (if p + k in s.leaf then -13 else -12) && Protects(s, t, p, k, prot)
    decreases k
  {
    hide ProtectPage;
    hide Protects;
    hide AllAllowed;
    hide Allowed;
    hide Vpn;
    PageNumber(p);
    if k == 0 {
      ProtectsNone(s, p, prot);
      if p in s.leaf {
        FirstAllowed(s, p, n, prot);
      }
    } else {
      FirstPage(s, p, k, prot);
      FirstAllowed(s, p, k, prot);
      var next := ProtectPage(s, p, prot).value;
      OthersAllowed(s, p, prot, p + k);
      FailsAt(next, p + 1, n - 1, end, prot, k - 1);
      FirstProtects(s, MprotectFrom(s, p * PGSIZE, end, prot).0, p, k, prot);
    }
  }

  lemma OthersAllowed(s: Flat, p: nat, prot: Prot, q: nat)
    requires |s.prots| == MAX_VMR && p in s.leaf && ProtectPage(s, p, prot).Some? && q != p
    ensures var t := ProtectPage(s, p, prot).value;
            (q in t.leaf <==> q in s.leaf) && (q in s.leaf ==> (Allowed(t, q, prot) <==> Allowed(s, q, prot)))
  {
    hide Gains;
    hide ProtToType;
    KeepsProt(prot);
  }

  // No bit outside those it has.
  lemma GainsExact(have: Prot, want: Prot)
    ensures Gains(have, want) <==> have | want != have
  {
    hide Gains;
    GainsIs(have, want);
    ExtraBits(have, want);
  }

  lemma GainsIs(have: Prot, want: Prot)
    ensures Gains(have, want) <==> want & !have != 0
  {
    assert (have ^ want) & !have == want & !have;
  }

  lemma ExtraBits(have: bv32, want: bv32)
    ensures have | want == have <==> want & !have == 0
  {
    OnlyExtra(have, want);
    if have | want == have {
      NoneLeft(have);
    } else if want & !have == 0 {
      NothingAdded(have, want);
    }
  }

  lemma OnlyExtra(have: bv32, want: bv32)
    ensures want & !have == (have | want) & !have
  {
  }

  lemma NoneLeft(have: bv32)
    ensures have & !have == 0
  {
  }

  lemma NothingAdded(have: bv32, want: bv32)
    requires want & !have == 0
    ensures have | want == have
  {
  }

  // Of lazy pages a part of their protection, bit for bit; of filled ones
  // the kinds of access in it, and to read also when it allows neither
  // writing nor execution.
  predicate MayAsk(grant: Prot, filled: bool, prot: Prot) {
    if filled
    then (Has(prot, READ) ==> Has(grant, READ) || (!Has(grant, WRITE) && !Has(grant, EXEC)))
         && (Has(prot, WRITE) ==> Has(grant, WRITE)) && (Has(prot, EXEC) ==> Has(grant, EXEC))
    else grant | prot == grant
  }

  // That is what mprotect may ask of pages freshly mapped.
  lemma ProtectFresh(s: Flat, op: Op, prot: Prot)
    requires Inv(s) && op.OpMmap? && op.len > 0 && Step(s, op).1.Code? && Step(s, op).1.value >= 0
    requires Step(s, op).1.value + op.len <= s.mmapMax
    ensures var t, a := Step(s, op).0, Step(s, op).1.value;
            && Inv(t)
            && (Step(t, OpMprotect(a, op.len, prot)).1 == Code(0) <==>
                  MayAsk(op.prot, op.populate || !s.demand, prot))
  {
    hide Inv;
    hide Mapping;
    hide MmapPanics;
    hide InSpace;
    hide SearchFrom;
    hide Pages;
    hide Step;
    hide AllAllowed;
    hide Mmap;
    hide SeenAt;
    hide Fresh;
    hide Meets;
    hide MayAsk;
    var t, a := Step(s, op).0, Step(s, op).1.value;
    var n, v, eager := Pages(op.len), FirstUnused(s.leaf, 0), op.populate || !s.demand;
    StepInv(s, op);
    MapSees(s, op, a / PGSIZE);
    SomePages(op.len);
    MmapMaxBound(s);
    ProtsSize(t);
    ProtectStep(t, a, op.len, prot);
    MapStep(s, op);
    FreshAllowed(s, Mapping(s, a / PGSIZE, n, v, op.prot, eager), t, a / PGSIZE, n, v, op.prot, eager, prot);
  }

  lemma MapStep(s: Flat, op: Op)
    requires Inv(s) && op.OpMmap? && Step(s, op).1.Code? && Step(s, op).1.value >= 0
    ensures var t, v := Step(s, op).0, FirstUnused(s.leaf, 0);
            && |s.prots| == MAX_VMR && v < MAX_VMR
            && var m := Mapping(s, Step(s, op).1.value / PGSIZE, Pages(op.len), v, op.prot, op.populate || !s.demand);
               t.leaf == m.leaf && t.prots == m.prots
  {
    hide Inv;
    hide Mapping;
    hide MmapPanics;
    hide InSpace;
    hide SearchFrom;
    hide Pages;
    ProtsSize(s);
  }

  lemma ProtectStep(t: Flat, a: nat, len: nat, prot: Prot)
    requires Inv(t) && |t.prots| == MAX_VMR && a % PGSIZE == 0 && a + len <= VPNS * PGSIZE
    ensures Step(t, OpMprotect(a, len, prot)).1 == Code(0) <==> AllAllowed(t, a / PGSIZE, Pages(len), prot)
  {
    hide Inv;
    hide DoMprotect;
    hide AllAllowed;
    hide Pages;
    MprotectAs(t, a / PGSIZE, len, prot);
  }

  lemma FreshAllowed(s: Flat, m: Flat, t: Flat, p: nat, n: nat, v: nat, grant: Prot, eager: bool, prot: Prot)
    requires |s.prots| == MAX_VMR && v < MAX_VMR && n > 0 && m == Mapping(s, p, n, v, grant, eager)
    requires t.leaf == m.leaf && t.prots == m.prots
    ensures |t.prots| == MAX_VMR
    ensures AllAllowed(t, p, n, prot) <==> MayAsk(grant, eager, prot)
  {
    hide Has;
    hide Gains;
    GainsExact(grant, prot);
    assert Within(p, p, n);
    forall q: nat | Within(q, p, n)
      ensures q in t.leaf && t.leaf[q] == if eager then Mapped(q + s.off, ProtToType(grant, true)) else Lazy(v)
    {
    }
  }
}
