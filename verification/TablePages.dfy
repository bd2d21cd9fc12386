// With enough memory the page tables never run out: no operation of a run
// without oversized requests is refused a table page.
module TablePages {
  import opened PageTable
  import opened FlatVm
  import opened VmRuns
  import opened DemandPaging
  import opened ElfImage
  import opened ElfFits
  import opened Vm
  import opened Elf
  import opened StartUp

  // The pages whose walks an operation completes, as the methods of the
  // memory manager state them.
  ghost function Walks(s: Flat, op: Op): set<nat>
    requires Inv(s)
  {
    match op
    case OpMmap(addr, len, prot, _, fixed, populate, _) =>
      var r := FlatVm.Mmap(s, addr, len, prot, fixed, populate).addr;
      if Asks(op) && Followed(s, op) && r.Some? then Range(r.value / PGSIZE, Pages(len)) else {}
    case OpBrk(addr) => if FlatVm.Brk(s, addr).Some? then BrkPages(s, addr) else {}
    case _ => {}
  }

  // The tables after a run.
  ghost function RunTables(t: Tables, s: Flat, ops: seq<Op>): Tables
    requires Inv(s)
    decreases |ops|
  {
    if ops == [] || Stops(Step(s, ops[0]).1) then t
    else (StepInv(s, ops[0]); RunTables(Grow(t, Walks(s, ops[0])), Step(s, ops[0]).0, ops[1..]))
  }

  function UserPages(mmapMax: nat): set<nat> { Range(0, Pages(mmapMax)) }

  // A request that is not oversized stays within user memory.
  lemma WalksUser(s: Flat, op: Op)
    requires Inv(s) && (Asks(op) && !op.fixed ==> Pages(op.len) * PGSIZE <= s.mmapMax)
    ensures Walks(s, op) <= UserPages(s.mmapMax)
  {
    hide Inv;
    hide FlatVm.Mmap;
    hide InSpace;
    hide Pages;
    hide Mappable;
    hide RoundUp;
    FramesBound(s);
    match op
    case OpMmap(addr, len, prot, _, fixed, populate, _) =>
      if Asks(op) && Followed(s, op) && FlatVm.Mmap(s, addr, len, prot, fixed, populate).addr.Some? {
        MmapRange(s, addr, len, prot, fixed, populate);
      }
    case OpBrk(addr) =>
      var brk, top := StartBrk(s), RoundUp(NewBrk(s, addr));
      if brk < top && FlatVm.Brk(s, addr).Some? {
        MmapRange(s, brk, top - brk, ALL, true, false);
        MmapAddr(s, brk, top - brk, ALL, false);
      }
    case _ =>
  }

  // However long the run, its tables are among those of all user pages.
  lemma {:induction false} RunWithin(t: Tables, s: Flat, ops: seq<Op>)
    requires Inv(s) && AllSized(ops, s.mmapMax)
    ensures RunTables(t, s, ops).next <= Grow(t, UserPages(s.mmapMax)).next
    decreases |ops|
  {
    hide Inv;
    hide Step;
    hide Grow;
    hide Walks;
    var u := UserPages(s.mmapMax);
    if ops == [] || Stops(Step(s, ops[0]).1) {
      GrowMore(t, {}, u);
      GrowNone(t);
    } else {
      assert ops[0] in ops && forall op <- ops[1..] :: op in ops;
      var w := Walks(s, ops[0]);
      StepInv(s, ops[0]);
      StepConstants(s, ops[0]);
      WalksUser(s, ops[0]);
      GrowMore(t, w, u);
      RunWithin(Grow(t, w), Step(s, ops[0]).0, ops[1..]);
    }
  }

  // Walks among pages that are walked later anyway cost nothing more.
  lemma GrowMore(t: Tables, w: set<nat>, u: set<nat>)
    requires w <= u
    ensures Grow(Grow(t, w), u) == Grow(t, u) && Grow(t, w).next <= Grow(t, u).next
  {
    hide Grow;
    GrowTwice(t, w, u);
    assert w + u == u;
  }

  lemma LoadWithin(ph: seq<Phdr>, n: nat, bias: nat, top: nat)
    requires n <= |ph| && AllFit(ph, n, bias, top)
    ensures ImagePages(ph, n, bias) <= UserPages(top)
  {
    hide Range;
    hide Pages;
    if n > 0 {
      LoadWithin(ph, n - 1, bias, top);
      if Loads(ph[n - 1]) {
        ReachPages(ph[n - 1], bias, top);
      }
    }
  }

  // With at least 16 MiB and a kernel image of at most 504 pages there are
  // table pages for all of user memory.
  lemma AllUserPages(memSize: nat, end: nat)
    requires Room(memSize, end) && Bootable(memSize, end) && RoundUp(end) / PGSIZE <= DRAM_PAGE + 504
    requires 0x100_0000 <= MemSize(memSize)
    ensures Grow(StartTables(memSize, end), UserPages(MmapMax(memSize, end))).next <= FreePages(MemSize(memSize))
  {
    hide Grow;
    hide Range;
    hide MmapMax;
    hide RoundUp;
    hide Pages;
    var k, n := FirstFree(memSize, end) - DRAM_PAGE, Pages(MmapMax(memSize, end));
    var kp, sp, u := KernelPages(memSize, end), StackPages(memSize, end), UserPages(MmapMax(memSize, end));
    var t := Tables(2, {}, {});
    StackRoom(memSize, end);
    KernelRoom(memSize, end);
    StackWithin(memSize, end);
    UserRoom(memSize, end);
    GrowLater(t, kp + sp, u);
    assert kp + sp + u == kp + u;
    GrowTwice(Tables(3, {}, {}), kp, u);
    GrowRange(Tables(3, {}, {}), DRAM_PAGE, k);
    GrowStack(Grow(Tables(3, {}, {}), kp), 0, n);
    UserSizes(MemSize(memSize) / PGSIZE, k, n);
  }

  lemma StackWithin(memSize: nat, end: nat)
    requires Room(memSize, end) && Bootable(memSize, end)
    ensures StackPages(memSize, end) <= UserPages(MmapMax(memSize, end))
  {
    hide Range;
    PagesOf(MmapMax(memSize, end) - StackSize(MemSize(memSize)), StackSize(MemSize(memSize)), MmapMax(memSize, end));
  }

  lemma UserRoom(memSize: nat, end: nat)
    requires Room(memSize, end) && Bootable(memSize, end)
    ensures Pages(MmapMax(memSize, end)) <= MemSize(memSize) / PGSIZE
  {
  }

  lemma UserSizes(mp: nat, k: nat, n: nat)
    requires 0x1000 <= mp <= 0x8_0000 && 0 < k <= 504 + Max(8, mp / 256) && n <= mp
    ensures 3 + LowMost(DRAM_PAGE, k) + MidMost(DRAM_PAGE, k) + (if n > 0 then LowMost(0, n) + MidMost(0, n) else 0)
         <= Max(8, mp / 256)
  {
    assert MidMost(DRAM_PAGE, k) == 1;
  }

  // So from start-up, through loading a program that fits, no run without
  // oversized requests is ever refused a table page.
  lemma NeverExhausted(memSize: nat, end: nat, ram: seq<Page>, demand: bool,
                       ph: seq<Phdr>, bias: nat, file: seq<bv8>, brkMin: nat, ops: seq<Op>)
    requires Machine(memSize, end, ram) && Program(ph, file) && AllFit(ph, |ph|, bias, MmapMax(memSize, end))
    requires RoundUp(end) / PGSIZE <= DRAM_PAGE + 504 && 0x100_0000 <= MemSize(memSize)
    requires brkMin <= DRAM_BASE && AllSized(ops, MmapMax(memSize, end))
    ensures var t := Grow(StartTables(memSize, end), ImagePages(ph, |ph|, bias));
            && t.next <= FreePages(MemSize(memSize))
            && RunTables(t, Process(memSize, end, ram, demand, ph, bias, file, brkMin), ops).next
               <= FreePages(MemSize(memSize))
  {
    hide Grow;
    hide LoadAll;
    hide MmapMax;
    hide Alike;
    hide UsedSlots;
    var u := UserPages(MmapMax(memSize, end));
    var w, t := ImagePages(ph, |ph|, bias), StartTables(memSize, end);
    LoadWithin(ph, |ph|, bias, MmapMax(memSize, end));
    GrowMore(t, w, u);
    AllUserPages(memSize, end);
    ProgramLoads(memSize, end, ram, ph, bias, file);
    RunWithin(Grow(t, w), Process(memSize, end, ram, demand, ph, bias, file, brkMin), ops);
  }
}
