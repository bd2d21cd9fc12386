// What runs from start-up: whether it succeeds, and the results about whole
// runs from the state it leaves, before and after a program is loaded.
module StartUp {
  import opened PageTable
  import opened FlatVm
  import opened VmRuns
  import opened DemandPaging
  import opened Access
  import opened Permissions
  import opened ElfImage
  import opened ElfFits
  import opened Vm

  // Memory, kernel image and user frames that start-up can work with.
  ghost predicate Machine(memSize: nat, end: nat, ram: seq<Page>) {
    Room(memSize, end) && Ram(memSize, end, ram) && Bootable(memSize, end)
  }

  // ---- the page tables ----

  lemma WithinRange(a: set<nat>, p: nat, n: nat, t: set<nat>)
    requires forall q <- a :: p <= q < p + n
    ensures |a - t| <= n
  {
    hide Range;
    assert a - t <= a <= Range(p, n);
    SubsetSize(a - t, a);
    SubsetSize(a, Range(p, n));
    RangeSize(p, n);
  }

  // Tables that n pages in a row can lack.
  function LowMost(p: nat, n: nat): nat { if p % 512 == 0 then (n + 511) / 512 else (n + 510) / 512 + 1 }

  function MidMost(p: nat, n: nat): nat
    requires n > 0
  {
    (p + n - 1) / 0x4_0000 - p / 0x4_0000 + 1
  }

  lemma GrowRange(t: Tables, p: nat, n: nat)
    requires n > 0
    ensures Grow(t, Range(p, n)).next <= t.next + LowMost(p, n) + MidMost(p, n)
  {
    hide Range;
    hide LowMost;
    hide MidMost;
    forall q <- LowOf(Range(p, n)) ensures q < p / 512 + LowMost(p, n) && p / 512 <= q {
      var r :| r in Range(p, n) && q == Upper(r);
      Digits(p, n, r);
    }
    forall q <- MidOf(Range(p, n)) ensures q < p / 0x4_0000 + MidMost(p, n) && p / 0x4_0000 <= q {
      var r :| r in Range(p, n) && q == Upper(Upper(r));
      Digits(p, n, r);
    }
    WithinRange(LowOf(Range(p, n)), p / 512, LowMost(p, n), t.low);
    WithinRange(MidOf(Range(p, n)), p / 0x4_0000, MidMost(p, n), t.mid);
  }

  lemma Digits(p: nat, n: nat, r: nat)
    requires p <= r < p + n
    ensures p / 512 <= Upper(r) < p / 512 + LowMost(p, n)
    ensures p / 0x4_0000 <= Upper(Upper(r)) < p / 0x4_0000 + MidMost(p, n)
  {
    assert Upper(Upper(r)) == r / 0x4_0000;
  }

  // With a kernel image of at most 504 pages start-up never lacks a table
  // page, whatever the memory size.
  lemma StartUpFits(memSize: nat, end: nat)
    requires Room(memSize, end) && Bootable(memSize, end) && RoundUp(end) / PGSIZE <= DRAM_PAGE + 504
    ensures StartUpPages(memSize, end) <= FreePages(MemSize(memSize))
  {
    hide Grow;
    hide Range;
    hide MmapMax;
    hide RoundUp;
    hide Pages;
    var k, s := FirstFree(memSize, end) - DRAM_PAGE, Pages(StackSize(MemSize(memSize)));
    StackRoom(memSize, end);
    KernelRoom(memSize, end);
    var bottom := (MmapMax(memSize, end) - StackSize(MemSize(memSize))) / PGSIZE;
    var t := Tables(2, {}, {});
    GrowTwice(t, KernelPages(memSize, end), StackPages(memSize, end));
    GrowRange(t, DRAM_PAGE, k);
    GrowStack(Grow(t, Range(DRAM_PAGE, k)), bottom, s);
    Sizes(MemSize(memSize) / PGSIZE, k, bottom, s);
  }

  lemma GrowStack(t: Tables, p: nat, n: nat)
    ensures Grow(t, Range(p, n)).next <= t.next + if n > 0 then LowMost(p, n) + MidMost(p, n) else 0
  {
    if n > 0 {
      GrowRange(t, p, n);
    } else {
      GrowNone(t);
    }
  }

  lemma KernelRoom(memSize: nat, end: nat)
    requires Room(memSize, end) && RoundUp(end) / PGSIZE <= DRAM_PAGE + 504
    ensures 0 < FirstFree(memSize, end) - DRAM_PAGE <= 504 + FreePages(MemSize(memSize))
  {
  }

  lemma StackRoom(memSize: nat, end: nat)
    requires Room(memSize, end) && Bootable(memSize, end)
    ensures var mp, size := MemSize(memSize) / PGSIZE, StackSize(MemSize(memSize));
            && mp <= 0x8_0000 && Pages(size) == Min(mp / 32, 2048)
            && (MmapMax(memSize, end) - size) / PGSIZE + Pages(size) <= mp
  {
  }

  // mp pages of memory, k of them the kernel's, s the stack's.
  lemma Sizes(mp: nat, k: nat, p: nat, s: nat)
    requires mp <= 0x8_0000 && 0 < k <= 504 + Max(8, mp / 256) && s == Min(mp / 32, 2048) && p + s <= mp
    ensures 2 + LowMost(DRAM_PAGE, k) + MidMost(DRAM_PAGE, k) + (if s > 0 then LowMost(p, s) + MidMost(p, s) else 0) + 1
         <= Max(8, mp / 256)
  {
    assert MidMost(DRAM_PAGE, k) == 1;
  }

  // ---- the layout of memory ----

  // What start-up sets aside, declaratively, for memory of memSize bytes.  At
  // most 2 GiB count.  The allocator gets a 256th of them in pages, no less
  // than 8, after the kernel image; user memory is as large as leaves a frame
  // above those for every byte of it; the stack gets a 32nd, up to 8 MiB.
  lemma Layout(memSize: nat, end: nat, n: nat)
    requires Room(memSize, end)
    ensures var ram := MemSize(memSize);
            && ram <= 0x8000_0000 && ram <= memSize && (n <= memSize && n <= 0x8000_0000 ==> n <= ram)
            && 8 <= FreePages(ram) && ram < (FreePages(ram) + 1) * 0x10_0000
            && (8 <= n && ram < (n + 1) * 0x10_0000 ==> FreePages(ram) <= n)
    ensures var off, taken := FirstFree(memSize, end), end + FreePages(MemSize(memSize)) * PGSIZE;
            taken <= off * PGSIZE && (taken <= n * PGSIZE ==> off <= n)
    ensures var top, rest := MmapMax(memSize, end), DRAM_BASE + MemSize(memSize) - FirstFree(memSize, end) * PGSIZE;
            top <= DRAM_BASE && top <= rest && (n <= DRAM_BASE && n <= rest ==> n <= top)
    ensures var stack, ram := StackSize(MemSize(memSize)), MemSize(memSize);
            && stack % PGSIZE == 0 && stack <= 0x80_0000 && 32 * stack <= ram
            && (n * PGSIZE <= 0x80_0000 && 32 * (n * PGSIZE) <= ram ==> n * PGSIZE <= stack)
  {
    LayoutPages(memSize, end, n);
    LayoutStack(MemSize(memSize), n);
  }

  lemma LayoutPages(memSize: nat, end: nat, n: nat)
    requires Room(memSize, end)
    ensures var ram, off := MemSize(memSize), FirstFree(memSize, end);
            && ram < (FreePages(ram) + 1) * 0x10_0000
            && (8 <= n && ram < (n + 1) * 0x10_0000 ==> FreePages(ram) <= n)
            && end + FreePages(ram) * PGSIZE <= off * PGSIZE
            && (end + FreePages(ram) * PGSIZE <= n * PGSIZE ==> off <= n)
  {
  }

  lemma LayoutStack(ram: nat, n: nat)
    ensures var stack := StackSize(ram);
            && stack % PGSIZE == 0 && stack <= 0x80_0000 && 32 * stack <= ram
            && (n * PGSIZE <= 0x80_0000 && 32 * (n * PGSIZE) <= ram ==> n * PGSIZE <= stack)
  {
  }

  // ---- runs from start-up ----

  // Only the stack is mapped, for every access.
  function StackGrant(memSize: nat, end: nat): Grants
    requires Room(memSize, end) && Bootable(memSize, end)
  {
    var size := StackSize(MemSize(memSize));
    Grant(map[], (MmapMax(memSize, end) - size) / PGSIZE, Pages(size), READ | WRITE | EXEC)
  }

  lemma BareSame(memSize: nat, end: nat, ram: seq<Page>, demand: bool)
    requires Machine(memSize, end, ram)
    ensures var s := Bare(memSize, end, ram, demand);
            && Inv(s) && Low(s) && s.demand == demand && Bounded(s, map[]) && UsedSlots(s.leaf) == {}
            && FirstUnused(s.leaf, 0) == 0
  {
    var s := Bare(memSize, end, ram, demand);
    assert forall v :: !Used(s.leaf, v);
  }

  // The started kernel.  Start-up itself is always lazy; the option that
  // makes mappings eager is read after it.
  ghost function Kernel(memSize: nat, end: nat, ram: seq<Page>, demand: bool): (s: Flat)
    requires Machine(memSize, end, ram)
    ensures Inv(s) && s.demand == demand
  {
    Booted(memSize, end, ram, true).(demand := demand)
  }

  lemma BootedFacts(memSize: nat, end: nat, ram: seq<Page>)
    requires Machine(memSize, end, ram)
    ensures var s := Booted(memSize, end, ram, true);
            && Low(s) && Bounded(s, StackGrant(memSize, end)) && |UsedSlots(s.leaf)| <= 1
            && s.mmapMax == MmapMax(memSize, end) && s.off == FirstFree(memSize, end) && s.brk == 0
  {
    hide Inv;
    hide Low;
    hide Bounded;
    hide Bare;
    hide FlatVm.Mmap;
    hide MmapMax;
    hide UsedSlots;
    hide Used;
    var size := StackSize(MemSize(memSize));
    var s, bottom := Bare(memSize, end, ram, true), MmapMax(memSize, end) - size;
    BareSame(memSize, end, ram, true);
    StackMaps(memSize, end, ram, true);
    MmapBounded(s, map[], bottom, size, READ | WRITE | EXEC, true, false);
    MmapSlots(s, bottom, size, READ | WRITE | EXEC, true, false);
    MmapKeeps(s, bottom, size, READ | WRITE | EXEC, true, false);
    BareConstants(memSize, end, ram);
    FixedLow(s, bottom, size, READ | WRITE | EXEC);
  }

  lemma BareConstants(memSize: nat, end: nat, ram: seq<Page>)
    requires Machine(memSize, end, ram)
    ensures var s := Bare(memSize, end, ram, true);
            s.mmapMax == MmapMax(memSize, end) && s.off == FirstFree(memSize, end) && s.brk == 0
  {
  }

  lemma MmapKeeps(s: Flat, addr: nat, len: nat, prot: Prot, fixed: bool, populate: bool)
    requires Inv(s)
    ensures var t := FlatVm.Mmap(s, addr, len, prot, fixed, populate).s;
            t == s.(leaf := t.leaf, prots := t.prots, frames := t.frames) && |t.frames| == |s.frames|
  {
    hide FirstUnused;
    hide Placed;
    hide Placeable;
    hide MmapPanics;
  }

  lemma FixedLow(s: Flat, addr: nat, len: nat, prot: Prot)
    requires Inv(s) && Low(s)
    ensures Low(FlatVm.Mmap(s, addr, len, prot, true, false).s)
  {
    hide ProtToType;
    hide Pages;
    FramesBound(s);
    if FlatVm.Mmap(s, addr, len, prot, true, false).addr.Some? {
      MmapRange(s, addr, len, prot, true, false);
    }
  }

  lemma DemandOnly(s: Flat, demand: bool)
    requires Inv(s)
    ensures var t := s.(demand := demand);
            Inv(t) && Alike(s, t) && (Low(s) ==> Low(t)) && forall g :: Bounded(s, g) ==> Bounded(t, g)
  {
    hide ProtToType;
    var t := s.(demand := demand);
    forall q <- s.leaf ensures SeenAt(s, q) == SeenAt(t, q) {
    }
  }

  // The lazy and the eager kernel look the same once started; the eager one
  // has a region to spare; either grants its stack and nothing else.
  lemma Started(memSize: nat, end: nat, ram: seq<Page>, demand: bool)
    requires Machine(memSize, end, ram)
    ensures var s, t := Kernel(memSize, end, ram, true), Kernel(memSize, end, ram, false);
            Alike(s, t) && Eager(t) && Low(t)
    ensures Bounded(Kernel(memSize, end, ram, demand), StackGrant(memSize, end))
  {
    hide Inv;
    hide Alike;
    hide Low;
    hide Bounded;
    hide Booted;
    hide UsedSlots;
    BootedFacts(memSize, end, ram);
    DemandOnly(Booted(memSize, end, ram, true), demand);
    DemandOnly(Booted(memSize, end, ram, true), false);
    BootedDemand(memSize, end, ram);
  }

  lemma BootedDemand(memSize: nat, end: nat, ram: seq<Page>)
    requires Machine(memSize, end, ram)
    ensures Booted(memSize, end, ram, true).demand && Kernel(memSize, end, ram, true) == Booted(memSize, end, ram, true)
  {
    hide Bare;
    hide FlatVm.Mmap;
    hide MmapMax;
    hide Inv;
    var size := StackSize(MemSize(memSize));
    BareSame(memSize, end, ram, true);
    MmapKeeps(Bare(memSize, end, ram, true), MmapMax(memSize, end) - size, size, READ | WRITE | EXEC, true, false);
  }

  // What start-up leaves mapped, page by page: the kernel's range to itself,
  // without user access, and the stack below mmap_max, fresh, for every kind
  // of access.
  lemma StartedSees(memSize: nat, end: nat, ram: seq<Page>, demand: bool, q: nat)
    requires Machine(memSize, end, ram)
    ensures var s := Kernel(memSize, end, ram, demand);
            var top, size := MmapMax(memSize, end), StackSize(MemSize(memSize));
            && s.mmapMax == top && s.off == FirstFree(memSize, end)
            && (q in s.leaf <==> DRAM_PAGE <= q < FirstFree(memSize, end) || top - size <= q * PGSIZE < top)
    ensures var s := Kernel(memSize, end, ram, demand);
            DRAM_PAGE <= q < FirstFree(memSize, end) ==>
              q in s.leaf && s.leaf[q] == Mapped(q, Perm(true, true, true, false, true, true))
    ensures var s, top := Kernel(memSize, end, ram, demand), MmapMax(memSize, end);
            top - StackSize(MemSize(memSize)) <= q * PGSIZE < top ==>
              q in s.leaf && SeenAt(s, q) == Fresh(s.off, q, READ | WRITE | EXEC)
  {
    hide Inv;
    hide Bare;
    hide MmapMax;
    hide Mapping;
    hide ProtToType;
    hide SeenAt;
    hide Used;
    hide Fresh;
    hide Kernel;
    hide Meets;
    hide Pages;
    hide FirstFree;
    var top, size := MmapMax(memSize, end), StackSize(MemSize(memSize));
    var s, p := Bare(memSize, end, ram, true), (top - size) / PGSIZE;
    BareSame(memSize, end, ram, true);
    BareLeaf(memSize, end, ram, q);
    BareFree(memSize, end, ram, true);
    StackMaps(memSize, end, ram, true);
    ProtsSize(s);
    assert size % PGSIZE == 0;
    MappingSees(s, p, Pages(size), 0, READ | WRITE | EXEC, false, q);
    MappingRest(s, p, Pages(size), 0, READ | WRITE | EXEC, false);
    MeetsPages(q, top - size, size);
    StackMeets(q, top, size);
    if DRAM_PAGE <= q < FirstFree(memSize, end) {
      MappingKernel(s, p, Pages(size), q);
    }
    StackSees(memSize, end, ram, demand, q);
  }

  lemma MappingKernel(s: Flat, p: nat, n: nat, q: nat)
    requires |s.prots| == MAX_VMR && !Within(q, p, n)
    ensures var m := Mapping(s, p, n, 0, READ | WRITE | EXEC, false); q in s.leaf ==>
              q in m.leaf && m.leaf[q] == s.leaf[q]
  {
  }

  lemma StackMeets(q: nat, top: nat, size: nat)
    requires top % PGSIZE == 0 && size % PGSIZE == 0 && size <= top
    ensures Meets(q, top - size, size) <==> top - size <= q * PGSIZE < top
  {
  }

  lemma BareLeaf(memSize: nat, end: nat, ram: seq<Page>, q: nat)
    requires Machine(memSize, end, ram)
    ensures var s := Bare(memSize, end, ram, true);
            && (q in s.leaf <==> DRAM_PAGE <= q < FirstFree(memSize, end)) && s.off == FirstFree(memSize, end)
            && MmapMax(memSize, end) <= DRAM_BASE && FirstFree(memSize, end) < VPNS && !Used(s.leaf, 0)
            && (q in s.leaf ==> s.leaf[q] == Mapped(q, Perm(true, true, true, false, true, true)))
  {
    RoomBounds(memSize, end);
  }

  lemma StackSees(memSize: nat, end: nat, ram: seq<Page>, demand: bool, q: nat)
    requires Machine(memSize, end, ram)
    ensures var s, m := Kernel(memSize, end, ram, demand), StackMapped(memSize, end, ram, true).s;
            s == m.(demand := demand) && (q in m.leaf ==> SeenAt(s, q) == SeenAt(m, q))
  {
    hide Inv;
    hide StackMapped;
    hide ProtToType;
  }

  // So the stack can be used from the start.
  lemma StackAccess(memSize: nat, end: nat, ram: seq<Page>, demand: bool, vaddr: nat, byte: bv8)
    requires Machine(memSize, end, ram)
    requires MmapMax(memSize, end) - StackSize(MemSize(memSize)) <= vaddr < MmapMax(memSize, end)
    ensures var s := Kernel(memSize, end, ram, demand);
            && Step(s, OpLoad(vaddr, READ)).1 == Step(s, OpLoad(vaddr, EXEC)).1 == Byte(0)
            && Step(s, OpStore(vaddr, byte)).1 == Code(0)
  {
    hide Inv;
    hide Kernel;
    hide MmapMax;
    hide SeenAt;
    hide Fresh;
    hide Step;
    var s, q := Kernel(memSize, end, ram, demand), vaddr / PGSIZE;
    StartedSees(memSize, end, ram, demand, q);
    StackPage(memSize, end, vaddr);
    assert Has(READ | WRITE | EXEC, READ) && Has(READ | WRITE | EXEC, WRITE) && Has(READ | WRITE | EXEC, EXEC);
    FreshAccess(s, vaddr, s.off, READ | WRITE | EXEC, READ);
    FreshAccess(s, vaddr, s.off, READ | WRITE | EXEC, EXEC);
    FreshAccess(s, vaddr, s.off, READ | WRITE | EXEC, WRITE);
    StoredIf(s, vaddr, byte);
  }

  lemma StackPage(memSize: nat, end: nat, vaddr: nat)
    requires Room(memSize, end) && Bootable(memSize, end)
    requires MmapMax(memSize, end) - StackSize(MemSize(memSize)) <= vaddr < MmapMax(memSize, end)
    ensures MmapMax(memSize, end) - StackSize(MemSize(memSize)) <= vaddr / PGSIZE * PGSIZE < MmapMax(memSize, end)
  {
    hide MmapMax;
  }

  // Requests that leave the search room below the end of the address space.
  predicate Searchable(ops: seq<Op>, off: nat) {
    forall op <- ops :: Asks(op) && !op.fixed ==> off + Pages(op.len) < VPNS
  }

  // From start-up, demand paging is invisible to a run exactly when every
  // mapping it makes finds a region free and, if not filled at once, fits in
  // user memory.
  lemma StartedTransparent(memSize: nat, end: nat, ram: seq<Page>, ops: seq<Op>)
    requires Machine(memSize, end, ram) && NoMprotect(ops) && Searchable(ops, FirstFree(memSize, end))
    ensures Outcomes(Kernel(memSize, end, ram, true), ops) == Outcomes(Kernel(memSize, end, ram, false), ops)
       <==> PlainRun(Kernel(memSize, end, ram, true), ops)
  {
    hide Booted;
    Started(memSize, end, ram, true);
    BootedFacts(memSize, end, ram);
    EagerFollowed(Kernel(memSize, end, ram, false), ops);
    TransparentExact(Kernel(memSize, end, ram, true), Kernel(memSize, end, ram, false), ops);
  }

  // In particular to every run of at most 101 requests, none of them larger
  // than user memory.
  lemma StartedSized(memSize: nat, end: nat, ram: seq<Page>, ops: seq<Op>)
    requires Machine(memSize, end, ram) && NoMprotect(ops)
    requires AllSized(ops, MmapMax(memSize, end)) && Requests(ops) <= 101
    ensures Outcomes(Kernel(memSize, end, ram, true), ops) == Outcomes(Kernel(memSize, end, ram, false), ops)
  {
    hide Booted;
    hide MmapMax;
    BootedFacts(memSize, end, ram);
    Started(memSize, end, ram, true);
    FewRequests(Kernel(memSize, end, ram, true), ops);
    FewRequests(Kernel(memSize, end, ram, false), ops);
    Transparent(Kernel(memSize, end, ram, true), Kernel(memSize, end, ram, false), ops);
  }

  // And not to this one, which asks for a page more than user memory: the
  // lazy kernel returns an address, the eager one stops.
  lemma StartedOverlong(memSize: nat, end: nat, ram: seq<Page>)
    requires Machine(memSize, end, ram) && 0 < StackSize(MemSize(memSize))
    ensures var op := OpMmap(0, MmapMax(memSize, end) + PGSIZE, READ, true, false, false, 0);
            var s, t := Kernel(memSize, end, ram, true), Kernel(memSize, end, ram, false);
            Step(s, op).1.Code? && Step(s, op).1.value > 0 && Step(t, op).1 == Panic
  {
    hide Booted;
    hide Inv;
    hide Alike;
    hide Eager;
    hide Low;
    hide InSpace;
    hide MmapMax;
    hide Spare;
    var top := MmapMax(memSize, end);
    var op := OpMmap(0, top + PGSIZE, READ, true, false, false, 0);
    var s, t := Kernel(memSize, end, ram, true), Kernel(memSize, end, ram, false);
    Started(memSize, end, ram, true);
    BootedFacts(memSize, end, ram);
    RoomBounds(memSize, end);
    TopPages(memSize, end);
    LowInSpace(t, Pages(top + PGSIZE));
    AskSame(s, t, op);
    StackBlocks(memSize, end, ram);
    OneSlotSpare(s);
    StepDiffers(s, t, op);
  }

  lemma OneSlotSpare(s: Flat)
    requires |UsedSlots(s.leaf)| <= 1
    ensures Spare(s)
  {
    SpareSlots(s);
  }

  lemma TopPages(memSize: nat, end: nat)
    requires Room(memSize, end)
    ensures MmapMax(memSize, end) <= DRAM_BASE && Pages(MmapMax(memSize, end) + PGSIZE) <= DRAM_PAGE + 1
    ensures MmapMax(memSize, end) < Pages(MmapMax(memSize, end) + PGSIZE) * PGSIZE
  {
  }

  // The stack keeps the search from ending at address 0.
  lemma StackBlocks(memSize: nat, end: nat, ram: seq<Page>)
    requires Machine(memSize, end, ram) && 0 < StackSize(MemSize(memSize))
    ensures var top := MmapMax(memSize, end);
            SearchFrom(Kernel(memSize, end, ram, true), Pages(top + PGSIZE), 0) != 0
  {
    hide Booted;
    hide Bare;
    hide Inv;
    hide MmapMax;
    hide UsedSlots;
    hide StackGrant;
    hide Bounded;
    hide SearchFrom;
    var top, size := MmapMax(memSize, end), StackSize(MemSize(memSize));
    var s, n := Kernel(memSize, end, ram, true), Pages(top + PGSIZE);
    StackThere(memSize, end, ram);
    BootedFacts(memSize, end, ram);
    RoomBounds(memSize, end);
    TopPages(memSize, end);
    PastTheStack(s, n, top, (top - size) / PGSIZE);
  }

  lemma PastTheStack(s: Flat, n: nat, top: nat, q: nat)
    requires Low(s) && top == s.mmapMax <= DRAM_PAGE * PGSIZE && top < n * PGSIZE && s.off + n <= VPNS
    requires q in s.leaf && q <= top / PGSIZE
    ensures SearchFrom(s, n, 0) != 0
  {
    assert q < n;
    assert !Window(s.leaf, 0, n);
    assert Window(s.leaf, s.off, n);
    SearchPast(s, n, 0, s.off);
  }

  lemma StackThere(memSize: nat, end: nat, ram: seq<Page>)
    requires Machine(memSize, end, ram) && 0 < StackSize(MemSize(memSize))
    ensures (MmapMax(memSize, end) - StackSize(MemSize(memSize))) / PGSIZE in Booted(memSize, end, ram, true).leaf
  {
    hide Bare;
    hide Inv;
    hide MmapMax;
    hide Used;
    var size := StackSize(MemSize(memSize));
    var s, p := Bare(memSize, end, ram, true), (MmapMax(memSize, end) - size) / PGSIZE;
    BareSame(memSize, end, ram, true);
    StackMaps(memSize, end, ram, true);
    ProtsSize(s);
    ReserveAt(s.leaf, p, Pages(size), 0, p);
  }

  // From start-up, every store or fetch that goes through was granted by the
  // stack mapping or by a later mmap or brk.
  lemma StartedGranted(memSize: nat, end: nat, ram: seq<Page>, demand: bool, ops: seq<Op>, vaddr: nat, kind: Prot)
    requires Machine(memSize, end, ram) && (kind == WRITE || kind == EXEC)
    requires Fault(Run(Kernel(memSize, end, ram, demand), ops), vaddr, kind).1 == 0
    ensures var h := GrantRun(Kernel(memSize, end, ram, demand), StackGrant(memSize, end), ops);
            vaddr / PGSIZE in h && Has(h[vaddr / PGSIZE], kind)
  {
    hide Booted;
    Started(memSize, end, ram, demand);
    AccessWasGranted(Kernel(memSize, end, ram, demand), StackGrant(memSize, end), ops, vaddr, kind);
  }

  // From start-up, translation is the fixed offset and frames stay inside
  // memory.
  lemma StartedTranslates(memSize: nat, end: nat, ram: seq<Page>, demand: bool, ops: seq<Op>)
    requires Machine(memSize, end, ram)
    ensures Translates(Run(Kernel(memSize, end, ram, demand), ops), DRAM_BASE + MemSize(memSize))
  {
    hide Booted;
    BootedFacts(memSize, end, ram);
    TranslationAgrees(Kernel(memSize, end, ram, demand), ops, DRAM_BASE + MemSize(memSize));
  }

  // ---- runs of a program ----

  ghost predicate Program(ph: seq<Phdr>, file: seq<bv8>) {
    |ph| <= 100 && forall i | 0 <= i < |ph| :: Loads(ph[i]) ==> InFile(ph[i], file)
  }

  // A program of at most 100 headers loads if and only if its segments end
  // below mmap_max, in the lazy kernel as in the eager one, and then looks
  // the same in both.
  lemma ProgramLoads(memSize: nat, end: nat, ram: seq<Page>, ph: seq<Phdr>, bias: nat, file: seq<bv8>)
    requires Machine(memSize, end, ram) && Program(ph, file)
    ensures var s := LoadAll(Kernel(memSize, end, ram, true), ph, |ph|, bias, file);
            var t := LoadAll(Kernel(memSize, end, ram, false), ph, |ph|, bias, file);
            && (s.Some? <==> AllFit(ph, |ph|, bias, MmapMax(memSize, end))) && (t.Some? <==> s.Some?)
            && (s.Some? ==> Inv(s.value) && Inv(t.value) && Alike(s.value, t.value) && Eager(t.value) && Low(t.value))
            && (s.Some? ==>
                  s.value.demand && |UsedSlots(s.value.leaf)| <= 1 + |ph| && s.value.mmapMax == MmapMax(memSize, end)
                            && t.value.off == FirstFree(memSize, end) && t.value.mmapMax == s.value.mmapMax)
  {
    hide Inv;
    hide Booted;
    hide LoadAll;
    hide UsedSlots;
    hide Alike;
    hide Low;
    hide Bounded;
    var s, t := Kernel(memSize, end, ram, true), Kernel(memSize, end, ram, false);
    BootedFacts(memSize, end, ram);
    Started(memSize, end, ram, true);
    LoadAlike(s, t, ph, bias, file);
    LoadFits(s, ph, |ph|, bias, file);
    LoadFits(t, ph, |ph|, bias, file);
    if LoadAll(t, ph, |ph|, bias, file).Some? {
      LoadLow(t, ph, bias, file);
    }
  }

  // The loaded program with its break where its image ends.
  ghost function Process(memSize: nat, end: nat, ram: seq<Page>, demand: bool, ph: seq<Phdr>, bias: nat, file: seq<bv8>,
                         brkMin: nat)
    : (s: Flat)
    requires Machine(memSize, end, ram) && Program(ph, file) && AllFit(ph, |ph|, bias, MmapMax(memSize, end))
    requires brkMin <= DRAM_BASE
    ensures Inv(s)
  {
    ProgramLoads(memSize, end, ram, ph, bias, file);
    LoadAll(Kernel(memSize, end, ram, demand), ph, |ph|, bias, file).value.(brkMin := brkMin)
  }

  // The two kernels' processes to start with.
  lemma ProcessPair(memSize: nat, end: nat, ram: seq<Page>, ph: seq<Phdr>, bias: nat, file: seq<bv8>, brkMin: nat)
    requires Machine(memSize, end, ram) && Program(ph, file) && AllFit(ph, |ph|, bias, MmapMax(memSize, end))
    requires brkMin <= DRAM_BASE
    ensures var s := Process(memSize, end, ram, true, ph, bias, file, brkMin);
            var t := Process(memSize, end, ram, false, ph, bias, file, brkMin);
            && Alike(s, t) && s.demand && Eager(t) && Low(t) && t.off == FirstFree(memSize, end)
            && s.mmapMax == t.mmapMax == MmapMax(memSize, end) && |UsedSlots(s.leaf)| <= 1 + |ph|
  {
    hide LoadAll;
    hide UsedSlots;
    hide Kernel;
    hide Inv;
    hide MmapMax;
    ProgramLoads(memSize, end, ram, ph, bias, file);
    KernelDemand(memSize, end, ram);
  }

  lemma KernelDemand(memSize: nat, end: nat, ram: seq<Page>)
    requires Machine(memSize, end, ram)
    ensures Kernel(memSize, end, ram, true).demand && !Kernel(memSize, end, ram, false).demand
  {
    hide Booted;
  }

  // The process cannot tell the lazy kernel from the eager one, from start-up
  // through loading to any run, exactly when the run is plain.
  lemma ProcessTransparent(memSize: nat, end: nat, ram: seq<Page>, ph: seq<Phdr>, bias: nat, file: seq<bv8>,
                           brkMin: nat, ops: seq<Op>)
    requires Machine(memSize, end, ram) && Program(ph, file) && AllFit(ph, |ph|, bias, MmapMax(memSize, end))
    requires brkMin <= DRAM_BASE && NoMprotect(ops) && Searchable(ops, FirstFree(memSize, end))
    ensures Outcomes(Process(memSize, end, ram, true, ph, bias, file, brkMin), ops)
         == Outcomes(Process(memSize, end, ram, false, ph, bias, file, brkMin), ops)
       <==> PlainRun(Process(memSize, end, ram, true, ph, bias, file, brkMin), ops)
  {
    hide Process;
    hide Inv;
    hide Alike;
    hide Low;
    hide UsedSlots;
    hide MmapMax;
    hide Outcomes;
    hide PlainRun;
    ProcessPair(memSize, end, ram, ph, bias, file, brkMin);
    var s := Process(memSize, end, ram, true, ph, bias, file, brkMin);
    var t := Process(memSize, end, ram, false, ph, bias, file, brkMin);
    EagerFollowed(t, ops);
    TransparentExact(s, t, ops);
  }

  // In particular with one region for each header and request, and no request
  // larger than user memory.
  lemma ProcessSized(memSize: nat, end: nat, ram: seq<Page>, ph: seq<Phdr>, bias: nat, file: seq<bv8>, brkMin: nat,
                     ops: seq<Op>)
    requires Machine(memSize, end, ram) && Program(ph, file) && AllFit(ph, |ph|, bias, MmapMax(memSize, end))
    requires brkMin <= DRAM_BASE && NoMprotect(ops)
    requires AllSized(ops, MmapMax(memSize, end)) && |ph| + Requests(ops) <= 101
    ensures Outcomes(Process(memSize, end, ram, true, ph, bias, file, brkMin), ops)
         == Outcomes(Process(memSize, end, ram, false, ph, bias, file, brkMin), ops)
  {
    hide Process;
    hide Inv;
    hide Alike;
    hide Low;
    hide UsedSlots;
    hide MmapMax;
    hide Outcomes;
    hide PlainRun;
    ProcessPair(memSize, end, ram, ph, bias, file, brkMin);
    var s := Process(memSize, end, ram, true, ph, bias, file, brkMin);
    var t := Process(memSize, end, ram, false, ph, bias, file, brkMin);
    EagerSized(t, ops);
    FewRequests(s, ops);
    Transparent(s, t, ops);
  }
}
