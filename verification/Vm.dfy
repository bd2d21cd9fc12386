// The virtual memory manager itself: the page table, the table of lazy
// regions with its reference counts, the user frames and the break, changed
// in place, with every operation proved to do what its flat meaning says.
module Vm {
  import opened Arith
  import opened PageTable
  import opened FlatVm
  import opened Entries
  import VmRuns

  datatype Vmr = Vmr(addr: nat, length: nat, offset: nat, refcnt: nat, prot: Prot)

  function Prots(vs: seq<Vmr>): (r: seq<Prot>)
    ensures |r| == |vs| && forall i | 0 <= i < |vs| :: r[i] == vs[i].prot
  {
    seq(|vs|, i requires 0 <= i < |vs| => vs[i].prot)
  }

  function Refs(vs: seq<Vmr>): (r: seq<nat>)
    ensures |r| == |vs| && forall i | 0 <= i < |vs| :: r[i] == vs[i].refcnt
  {
    seq(|vs|, i requires 0 <= i < |vs| => vs[i].refcnt)
  }

  // Taking a lazy page away matches one decrement.
  lemma Released(leaf: map<nat, Leaf>, refs: seq<nat>, slot: nat, owed: nat, p: nat, v: nat, l: Leaf)
    requires Counted(leaf, refs, slot, owed)
    requires p in leaf && leaf[p] == Lazy(v) && v < MAX_VMR && l.Mapped?
    ensures refs[v] > 0
    ensures Counted(leaf[p := l], refs[v := refs[v] - 1], slot, owed)
    ensures Counted(leaf - {p}, refs[v := refs[v] - 1], slot, owed)
  {
    forall i | 0 <= i < MAX_VMR
      ensures |LazyPages(leaf[p := l], i)| + One(i == v) == |LazyPages(leaf, i)|
      ensures |LazyPages(leaf - {p}, i)| + One(i == v) == |LazyPages(leaf, i)|
    {
      CountSet(leaf, p, l, i);
      CountDrop(leaf, p, i);
    }
  }

  // Replacing or removing a valid page leaves the counts alone.
  lemma Unreleased(leaf: map<nat, Leaf>, refs: seq<nat>, slot: nat, owed: nat, p: nat, l: Leaf)
    requires Counted(leaf, refs, slot, owed) && l.Mapped?
    requires p in leaf ==> leaf[p].Mapped?
    ensures Counted(leaf[p := l], refs, slot, owed)
    ensures Counted(leaf - {p}, refs, slot, owed)
  {
    forall i | 0 <= i < MAX_VMR
      ensures |LazyPages(leaf[p := l], i)| == |LazyPages(leaf, i)|
      ensures |LazyPages(leaf - {p}, i)| == |LazyPages(leaf, i)|
    {
      CountSet(leaf, p, l, i);
      CountDrop(leaf, p, i);
    }
  }

  // Handing a free page to the region that is owed pages.
  lemma Granted(leaf: map<nat, Leaf>, refs: seq<nat>, slot: nat, owed: nat, p: nat)
    requires Counted(leaf, refs, slot, owed) && owed > 0 && p !in leaf
    ensures Counted(leaf[p := Lazy(slot)], refs, slot, owed - 1)
  {
    forall i | 0 <= i < MAX_VMR
      ensures |LazyPages(leaf[p := Lazy(slot)], i)| == |LazyPages(leaf, i)| + One(i == slot)
    {
      CountSet(leaf, p, Lazy(slot), i);
    }
  }

  lemma Claimed(leaf: map<nat, Leaf>, refs: seq<nat>, slot: nat, owed: nat, v: nat, n: nat)
    requires Counted(leaf, refs, slot, owed) && owed == 0 && v < MAX_VMR && refs[v] == 0
    ensures Counted(leaf, refs[v := n], v, n)
  {
  }

  // Below 2^39 a page number is the address without its offset.
  lemma VpnOf(addr: nat)
    requires addr < VPNS * PGSIZE
    ensures Vpn(addr) == addr / PGSIZE
  {
  }

  // A range of len bytes has Pages(len) pages.
  lemma PageCount(len: nat, k: nat)
    ensures k * PGSIZE < len <==> k < Pages(len)
  {
  }

  lemma MunmapNone(leaf: map<nat, Leaf>, p: nat)
    ensures Munmapped(leaf, p, 0) == leaf
  {
  }

  lemma MunmapNext(leaf: map<nat, Leaf>, p: nat, k: nat)
    ensures Munmapped(leaf, p, k) - {p + k} == Munmapped(leaf, p, k + 1)
  {
  }

  lemma FoundHere(s: Flat, n: nat, a: nat)
    requires a <= SearchEnd(s.mmapMax, n) && a % PGSIZE == 0 && a / PGSIZE !in s.leaf
    requires forall q | a / PGSIZE < q <= (a + (n - 1) * PGSIZE) / PGSIZE :: q !in s.leaf
    ensures SearchFrom(s, n, a) == a
  {
  }

  lemma FoundNone(s: Flat, n: nat, a: nat)
    requires a > SearchEnd(s.mmapMax, n)
    ensures SearchFrom(s, n, a) == 0
  {
  }

  lemma ReserveNone(leaf: map<nat, Leaf>, p: nat, v: nat)
    ensures Reserve(leaf, p, 0, v) == leaf
  {
  }

  lemma ReserveNext(leaf: map<nat, Leaf>, p: nat, k: nat, v: nat)
    ensures Reserve(leaf, p, k, v)[p + k := Lazy(v)] == Reserve(leaf, p, k + 1, v)
  {
    hide Reserve;
    ReserveAt(leaf, p, k + 1, v, p + k);
    var g, h := Reserve(leaf, p, k, v)[p + k := Lazy(v)], Reserve(leaf, p, k + 1, v);
    forall q: nat
      ensures q in g <==> q in h
      ensures q in g ==> g[q] == h[q]
    {
      ReserveAt(leaf, p, k, v, q);
      ReserveAt(leaf, p, k + 1, v, q);
    }
  }

  lemma FrameCount(s: Flat)
    requires Inv(s)
    ensures |s.frames| == Pages(s.mmapMax) && |s.prots| == MAX_VMR
  {
  }

  // refcnt is an unsigned int
  const REFCNT_WRAP: nat := 0x1_0000_0000

  // The C page count is Pages(length), and modulo 2^32 it is too for a range
  // in the address space, even for length 0.
  lemma PageTotal(length: nat)
    requires length < WORD
    ensures 0 < length ==> NPage(length) == Pages(length) > 0
    ensures length <= VPNS * PGSIZE ==> NPage(length) % REFCNT_WRAP == Pages(length)
  {
    if length == 0 {
      assert NPage(0) == 0x10_0000_0000_0000;
    } else {
      assert NPage(length) == Pages(length);
    }
  }

  // (length - 1) / PGSIZE + 1
  function NPage(length: nat): nat {
    (if length == 0 then WORD - 1 else length - 1) / PGSIZE + 1
  }

  lemma PageStart(addr: nat)
    requires addr % PGSIZE == 0
    ensures addr == addr / PGSIZE * PGSIZE
  {
  }

  lemma BreakAligned(s: Flat)
    requires Inv(s)
    ensures s.brk % PGSIZE == 0 && s.mmapMax <= DRAM_PAGE * PGSIZE < WORD
  {
  }

  // The search from start has come as far as a, without passing the free
  // window at p when the pages do not fit below mmap_max.
  ghost predicate Reached(s: Flat, n: nat, start: nat, p: nat, a: nat) {
    && a % PGSIZE == 0 && SearchFrom(s, n, start) == SearchFrom(s, n, a)
    && (s.mmapMax < n * PGSIZE ==> a <= p * PGSIZE && p + n < VPNS && Window(s.leaf, p, n))
  }

  lemma SearchStart(s: Flat, n: nat) returns (p: nat)
    requires Inv(s) && InSpace(s, n)
    ensures Reached(s, n, s.brk, p, s.brk)
  {
    p := 0;
    if s.mmapMax < n * PGSIZE {
      p :| s.brk / PGSIZE <= p && p + n < VPNS && Window(s.leaf, p, n);
      assert s.brk == s.brk / PGSIZE * PGSIZE;
    }
  }

  // A page in use that blocks a window lies before any free window above.
  lemma ReachedNext(s: Flat, n: nat, start: nat, p: nat, a: nat, b: nat)
    requires Reached(s, n, start, p, a)
    requires b % PGSIZE == 0 && a <= b < a + n * PGSIZE && b / PGSIZE in s.leaf
    ensures Reached(s, n, start, p, b + PGSIZE)
  {
    hide SearchFrom;
    SkipBlocked(s, n, a, b);
    if s.mmapMax < n * PGSIZE {
      assert b / PGSIZE < p + n;
      assert !(p <= b / PGSIZE);
    }
  }

  lemma ReachedInSpace(s: Flat, n: nat, start: nat, p: nat, a: nat)
    requires Inv(s) && 0 < n && Reached(s, n, start, p, a)
    ensures a % PGSIZE == 0 && (a <= SearchEnd(s.mmapMax, n) ==> a + n * PGSIZE < VPNS * PGSIZE)
    ensures SearchEnd(s.mmapMax, n) < WORD
    ensures s.mmapMax < n * PGSIZE ==> a <= SearchEnd(s.mmapMax, n)
  {
    hide SearchFrom;
    if s.mmapMax < n * PGSIZE {
      WrappedBound(s.mmapMax, n, p);
    }
  }

  lemma ReachedEnd(s: Flat, n: nat, start: nat, p: nat, a: nat, r: nat)
    requires Reached(s, n, start, p, a) && SearchFrom(s, n, a) == r
    ensures SearchFrom(s, n, start) == r
  {
    hide SearchFrom;
  }

  // The two outcomes of mapping a good range at page p.
  ghost predicate Mapped1(s: Flat, s': Flat, r: Option<nat>, addr: nat, p: nat, n: nat, prot: Prot, populate: bool)
    requires Inv(s)
  {
    var v := FirstUnused(s.leaf, 0);
    if v == MAX_VMR then r == None && s' == s
    else r == Some(addr) && s' == Mapping(s, p, n, v, prot, populate || !s.demand)
  }

  lemma SameMapping(s: Flat, p: nat, n: nat, v: nat, prot: Prot, eager: bool)
    requires |s.prots| == MAX_VMR && v < MAX_VMR
    ensures Mapping(s.(prots := s.prots[v := prot]), p, n, v, prot, eager) == Mapping(s, p, n, v, prot, eager)
  {
    assert s.prots[v := prot][v := prot] == s.prots[v := prot];
  }

  lemma FixedRange(s: Flat, addr: nat, length: nat)
    requires Inv(s) && addr % PGSIZE == 0 && addr + length <= s.mmapMax
    ensures Mappable(s, addr / PGSIZE, Pages(length))
  {
    hide Window;
    VmRuns.PagesOf(addr, length, s.mmapMax);
  }

  // Where the search leads, in bytes.
  lemma FoundRange(s: Flat, length: nat)
    requires Inv(s) && 0 < length && InSpace(s, Pages(length)) && SearchFrom(s, Pages(length), s.brk) != 0
    ensures var n, a := Pages(length), SearchFrom(s, Pages(length), s.brk);
            && a % PGSIZE == 0 && Mappable(s, a / PGSIZE, n) && a + length <= VPNS * PGSIZE
            && (if n * PGSIZE <= s.mmapMax then a + length <= s.mmapMax
                else s.mmapMax < a + length && s.mmapMax <= (a / PGSIZE + n - 1) * PGSIZE)
  {
    hide Window;
    hide InSpace;
    hide SearchFrom;
    Searched(s, Pages(length));
  }

  lemma SameRange(s: Flat, t: Flat, p: nat, n: nat)
    requires t == s.(prots := t.prots) && Mappable(s, p, n)
    ensures Mappable(t, p, n)
  {
  }

  lemma PagesDram()
    ensures Pages(DRAM_PAGE * PGSIZE) == DRAM_PAGE
  {
  }

  // The page before the top of the address space is never mapped.
  lemma NoWrap(s: Flat, a: nat)
    requires Inv(s) && a < WORD && Vpn(a) in s.leaf
    ensures a + PGSIZE < WORD
  {
    var p := Vpn(a);
    assert p + 1 < VPNS;
    if a + PGSIZE >= WORD {
      DivModUnique(a / PGSIZE, VPNS, 0x1FF_FFFF, 0x7FF_FFFF);
      assert false;
    }
  }

  // The pages a growing break maps.
  function BrkPages(s: Flat, addr: nat): set<nat> {
    var brk, top := StartBrk(s), RoundUp(NewBrk(s, addr));
    if brk < top then Range(brk / PGSIZE, Pages(top - brk)) else {}
  }

  // A page changed as the flat meaning says, or EACCES.
  ghost predicate Protected(want: Option<Flat>, s: Flat, res: int) {
    if want.Some? then res == 0 && s == want.value else res == EACCES
  }

  lemma RoundUpCount(len: nat)
    ensures RoundUp(len) / PGSIZE == Pages(len)
  {
  }

  lemma PopulateNext(leaf: map<nat, Leaf>, p: nat, k: nat, off: nat, perm: Perm)
    ensures Populate(leaf, p, k, off, perm)[p + k := Mapped(p + k + off, perm)] == Populate(leaf, p, k + 1, off, perm)
  {
    hide Populate;
    PopulateAt(leaf, p, k + 1, off, perm, p + k);
    var g := Populate(leaf, p, k, off, perm)[p + k := Mapped(p + k + off, perm)];
    var h := Populate(leaf, p, k + 1, off, perm);
    forall q: nat
      ensures q in g <==> q in h
      ensures q in g ==> g[q] == h[q]
    {
      PopulateAt(leaf, p, k, off, perm, q);
      PopulateAt(leaf, p, k + 1, off, perm, q);
    }
  }

  lemma UserPage(s: Flat, p: nat)
    requires Inv(s) && p in s.leaf && p < |s.frames| && s.leaf[p].Mapped?
    ensures s.leaf[p].ppn == p + s.off && p < DRAM_PAGE
  {
  }

  class VirtualMemory {
    const pt: Table
    const vmrs: array<Vmr>
    // first_free_paddr in pages: user page p lives in frame p + off
    const off: nat
    // page of the region table, 0 while the pointer is null
    var vmrsPage: nat
    var frames: seq<Page>
    var brkMin: nat
    var brk: nat
    var brkMax: nat
    var mmapMax: nat
    var demand: bool
    var locked: bool
    ghost var leaf: map<nat, Leaf>
    // While a mapping is under way, the region it fills and the pages its
    // count already includes.
    ghost var slot: nat
    ghost var owed: nat

    // The zeroed state the kernel starts from, with the root table allocated;
    // `ram` is what the pages above first_free_paddr happen to hold.
    constructor (firstFreePage: nat, freePages: nat, ram: seq<Page>, demandPaging: bool)
      requires firstFreePage > 0 && freePages > 0
      ensures Core() && owed == 0 && vmrsPage == 0 && !locked && leaf == map[]
      ensures fresh(pt) && fresh(pt.mem) && fresh(vmrs)
      ensures pt.base == firstFreePage && pt.Now() == Tables(1, {}, {}) && pt.mem.Length0 == freePages
              && off == firstFreePage + freePages
      ensures frames == ram && demand == demandPaging && brkMin == 0 && brk == 0
      ensures Prots(vmrs[..]) == seq(MAX_VMR, _ => 0)
    {
      pt := new Table(firstFreePage, freePages);
      vmrs := new Vmr[MAX_VMR](_ => Vmr(0, 0, 0, 0, 0));
      off := firstFreePage + freePages;
      vmrsPage, frames, demand, locked := 0, ram, demandPaging, false;
      brkMin, brk, brkMax, mmapMax := 0, 0, 0, 0;
      leaf, slot, owed := map[], 0, 0;
    }

    ghost function Abs(): Flat
      reads this, vmrs
    {
      Flat(leaf, Prots(vmrs[..]), frames, brkMin, brk, brkMax, mmapMax, off, demand)
    }

    function VmrsAddr(): nat
      reads `vmrsPage
    {
      (pt.base + vmrsPage) * PGSIZE
    }

    ghost predicate Coded()
      reads `leaf, `vmrsPage, pt
    {
      pt.leaf.Keys == leaf.Keys && forall p <- leaf :: pt.leaf[p] == Encode(leaf[p], VmrsAddr())
    }

    ghost predicate LazyOk()
      reads `leaf, `vmrsPage
    {
      forall p <- leaf :: p < VPNS && (leaf[p].Lazy? ==> vmrsPage != 0 && leaf[p].vmr < MAX_VMR)
    }

    // The page tables once the region table has its page, which is taken from
    // the same allocator.
    ghost function Start(): Tables
      reads `vmrsPage, pt
    {
      var t := pt.Now();
      if vmrsPage == 0 then t.(next := t.next + 1) else t
    }

    ghost predicate Enough(t: Tables) { t.next <= pt.mem.Length0 }

    // An operation that needs the walks to these pages: it goes through
    // exactly when the allocator has the table pages they lack.
    ghost predicate Took(done: bool, t: Tables, pages: set<nat>)
      reads pt
    {
      && (done <==> Enough(Grow(t, pages)))
      && (done ==> pt.Now() == Grow(t, pages))
    }

    // Leaf words encode the map and the reference counts agree with it.
    ghost predicate Core()
      reads `leaf, `vmrsPage, `slot, `owed, pt, pt.mem, vmrs
    {
      && pt.Valid() && pt.base > 0 && vmrs.Length == MAX_VMR
      && Coded() && LazyOk() && Counted(leaf, Refs(vmrs[..]), slot, owed)
    }

    // Between operations.
    ghost predicate Valid()
      reads this, pt, pt.mem, vmrs
    {
      Core() && owed == 0 && vmrsPage != 0 && !locked && Inv(Abs())
    }

    lemma VmrsEven()
      ensures VmrsAddr() % 2 == 0 && (pt.base > 0 ==> VmrsAddr() > 0)
    {
      DivModUnique(VmrsAddr(), 2, (pt.base + vmrsPage) * 2048, 0);
    }

    // *__walk(addr), 0 when there is no entry.
    method LeafWord(addr: nat) returns (s: Slot, w: nat)
      requires Core()
      ensures w == 0 <==> Vpn(addr) !in leaf
      ensures w != 0 ==> w == Encode(leaf[Vpn(addr)], VmrsAddr()) && pt.SlotOf(Vpn(addr), s)
      ensures w != 0 ==> (PteValid(w) <==> leaf[Vpn(addr)].Mapped?)
    {
      hide Vpn;
      hide Table.Valid;
      hide Table.SlotOf;
      hide Counted;
      hide Encode;
      hide PteValid;
      hide Upper;
      hide Lower;
      ghost var p := Vpn(addr);
      var found;
      found, s := pt.Walk(addr);
      w := 0;
      if found {
        w := pt.Load(s, p);
      }
      WordKinds(p);
    }

    // The leaf word of a page is zero, even or odd as the page is free, lazy
    // or mapped.
    lemma WordKinds(p: nat)
      requires pt.base > 0 && Coded()
      ensures pt.WordOf(p) == 0 <==> p !in leaf
      ensures p in leaf ==> (PteValid(pt.WordOf(p)) <==> leaf[p].Mapped?)
    {
      hide Encode;
      hide PteValid;
      if p in leaf {
        EncodeKinds(leaf[p], VmrsAddr()) by { VmrsEven(); }
      }
    }

    method SetLeaf(s: Slot, w: nat, ghost p: nat, ghost l: Leaf)
      requires pt.Valid() && pt.base > 0 && Coded() && p < VPNS && pt.SlotOf(p, s)
      requires w == Encode(l, VmrsAddr())
      modifies this`leaf, pt`leaf, pt.mem
      ensures pt.Valid() && Coded() && leaf == old(leaf)[p := l]
    {
      hide Table.Valid;
      hide Table.SlotOf;
      hide Encode;
      EncodeKinds(l, VmrsAddr()) by { VmrsEven(); }
      pt.Store(s, w, p);
      leaf := leaf[p := l];
    }

    method DropLeaf(s: Slot, ghost p: nat)
      requires pt.Valid() && Coded() && p < VPNS && pt.SlotOf(p, s)
      modifies this`leaf, pt`leaf, pt.mem
      ensures pt.Valid() && Coded() && leaf == old(leaf) - {p}
    {
      hide Table.Valid;
      hide Table.SlotOf;
      hide Encode;
      pt.Store(s, 0, p);
      leaf := leaf - {p};
    }

    // __vmr_decref
    method VmrDecref(v: nat, dec: nat)
      requires v < vmrs.Length && dec <= vmrs[v].refcnt
      modifies vmrs
      ensures vmrs[..] == old(vmrs[..])[v := old(vmrs[v]).(refcnt := old(vmrs[v]).refcnt - dec)]
    {
      vmrs[v] := vmrs[v].(refcnt := vmrs[v].refcnt - dec);
    }

    // The region a lazy leaf word points at.
    method VmrOf(w: nat, ghost l: Leaf) returns (v: nat)
      requires pt.base > 0 && l.Lazy? && w == Encode(l, VmrsAddr())
      ensures v == l.vmr
    {
      EncodeKinds(l, VmrsAddr()) by { VmrsEven(); }
      v := (w - VmrsAddr()) / VMR_SIZE;
    }

    // memset of a page: the frame its entry translates to.
    method ZeroPage(s: Slot, ghost vpn: nat)
      requires pt.Valid() && vpn < VPNS && pt.SlotOf(vpn, s) && vpn < |frames|
      requires PtePpn(pt.WordOf(vpn)) == vpn + off
      modifies this`frames
      ensures frames == Clear(old(frames), vpn, 1)
    {
      var pte := pt.Load(s, vpn);
      frames := frames[PtePpn(pte) - off := Zeros()];
    }

    // The lazy branch of __handle_page_fault: the page is cleared through a
    // temporary kernel mapping before the user gets it.
    method FaultIn(s: Slot, vpn: nat)
      requires Core() && vpn < VPNS && vpn in leaf && leaf[vpn].Lazy? && pt.SlotOf(vpn, s)
      requires vpn < |frames|
      modifies this`leaf, this`frames, pt`leaf, pt.mem, vmrs
      ensures Core()
      ensures leaf == old(leaf)[vpn := Mapped(vpn + off, ProtToType(old(vmrs[leaf[vpn].vmr].prot), true))]
      ensures frames == Clear(old(frames), vpn, 1)
      ensures Prots(vmrs[..]) == old(Prots(vmrs[..]))
    {
      hide Table.Valid;
      hide Table.SlotOf;
      hide Counted;
      hide Encode;
      hide ProtToType;
      hide Clear;
      hide PteCreate;
      hide PtePpn;
      var w := pt.Load(s, vpn);
      var v := VmrOf(w, leaf[vpn]);
      var ppn := vpn + off;
      ghost var kernel := Mapped(ppn, ProtToType(READ | WRITE, false));
      ghost var refs := Refs(vmrs[..]);
      Released(leaf, refs, slot, owed, vpn, v, kernel);
      EncodeMapped(ppn, ProtToType(READ | WRITE, false));
      SetLeaf(s, PteCreate(ppn, TypeBits(ProtToType(READ | WRITE, false))), vpn, kernel);
      ZeroPage(s, vpn);
      VmrDecref(v, 1);
      assert Refs(vmrs[..]) == refs[v := refs[v] - 1];
      var perm := ProtToType(vmrs[v].prot, true);
      Unreleased(leaf, Refs(vmrs[..]), slot, owed, vpn, Mapped(ppn, perm));
      EncodeMapped(ppn, perm);
      SetLeaf(s, PteCreate(ppn, TypeBits(perm)), vpn, Mapped(ppn, perm));
      assert leaf == old(leaf)[vpn := Mapped(ppn, perm)];
    }

    // (pte & perms) == perms for the entry and type of two permissions.
    predicate Grants(pte: nat, need: Perm) {
      Bit(pte, BIT_V) && (need.r ==> Bit(pte, BIT_R)) && (need.w ==> Bit(pte, BIT_W)) && (need.x ==> Bit(pte, BIT_X)) &&
      (need.u ==> Bit(pte, BIT_U)) && (need.a ==> Bit(pte, BIT_A)) && (need.d ==> Bit(pte, BIT_D))
    }

    // __handle_page_fault
    method PageFault(vaddr: nat, prot: Prot) returns (r: int)
      requires Core() && Inv(Abs())
      modifies this`leaf, this`frames, pt`leaf, pt.mem, vmrs
      ensures Core() && (Abs(), r) == Fault(old(Abs()), vaddr, prot)
    {
      hide Table.Valid;
      hide Table.SlotOf;
      hide Counted;
      hide ProtToType;
      hide Clear;
      hide Encode;
      hide PteValid;
      hide Vpn;
      var vpn := vaddr / PGSIZE;
      var va := vpn * PGSIZE;
      var s, w := LeafWord(va);
      if w == 0 || va + 1 > mmapMax {
        if va < VPNS * PGSIZE {
          VpnOf(va);
        }
        return -1;
      }
      VpnOf(va);
      if !PteValid(w) {
        FaultIn(s, vpn);
      }
      var ok := Permitted(s, vpn, prot);
      return if ok then 0 else -1;
    }

    // The final permission check.
    method Permitted(s: Slot, ghost vpn: nat, prot: Prot) returns (ok: bool)
      requires pt.Valid() && Coded() && vpn < VPNS && vpn in leaf && leaf[vpn].Mapped? && pt.SlotOf(vpn, s)
      ensures ok == Covers(leaf[vpn].perm, ProtToType(prot, true))
    {
      hide Table.Valid;
      hide Table.SlotOf;
      hide Encode;
      hide ProtToType;
      hide Bit;
      var pte := pt.Load(s, vpn);
      ghost var l := leaf[vpn];
      MappedWord(l);
      EntryBits(l.ppn, l.perm);
      ok := Grants(pte, ProtToType(prot, true));
    }

    lemma MappedWord(l: Leaf)
      requires l.Mapped?
      ensures Encode(l, VmrsAddr()) == PteCreate(l.ppn, TypeBits(l.perm))
    {
    }

    // __do_munmap
    method Unmap(addr: nat, len: nat)
      requires Core() && addr % PGSIZE == 0 && addr + len <= VPNS * PGSIZE
      modifies this`leaf, pt`leaf, pt.mem, vmrs
      ensures Core() && leaf == Munmapped(old(leaf), addr / PGSIZE, Pages(len))
      ensures Prots(vmrs[..]) == old(Prots(vmrs[..]))
    {
      hide Core;
      hide Munmapped;
      hide Pages;
      var a := addr;
      ghost var k, p, n := 0, addr / PGSIZE, Pages(len);
      MunmapNone(leaf, p);
      PageCount(len, 0);
      while a < addr + len
        invariant a == addr + k * PGSIZE && k <= n && (a < addr + len <==> k < n)
        invariant Core() && leaf == Munmapped(old(leaf), p, k)
        invariant Prots(vmrs[..]) == old(Prots(vmrs[..]))
      {
        UnmapPage(a);
        MunmapNext(old(leaf), p, k);
        PageCount(len, k + 1);
        a := a + PGSIZE;
        k := k + 1;
      }
    }

    // One round of its loop.
    method UnmapPage(a: nat)
      requires Core() && a < VPNS * PGSIZE
      modifies this`leaf, pt`leaf, pt.mem, vmrs
      ensures Core() && leaf == old(leaf) - {a / PGSIZE}
      ensures Prots(vmrs[..]) == old(Prots(vmrs[..]))
    {
      hide Table.Valid;
      hide Table.SlotOf;
      hide Counted;
      hide Encode;
      hide PteValid;
      hide Vpn;
      VpnOf(a);
      ghost var p := a / PGSIZE;
      var s, w := LeafWord(a);
      if w == 0 {
        assert leaf - {p} == leaf;
        return;
      }
      ghost var refs := Refs(vmrs[..]);
      ghost var some := Mapped(0, KernelPerm());
      if !PteValid(w) {
        var v := VmrOf(w, leaf[p]);
        Released(leaf, refs, slot, owed, p, v, some);
        VmrDecref(v, 1);
        assert Refs(vmrs[..]) == refs[v := refs[v] - 1];
      } else {
        Unreleased(leaf, refs, slot, owed, p, some);
      }
      DropLeaf(s, p);
    }

    // __va_avail
    method VaAvail(vaddr: nat) returns (avail: bool)
      requires Core()
      ensures avail == (Vpn(vaddr) !in leaf)
    {
      var s, w := LeafWord(vaddr);
      avail := w == 0;
    }

    // __vm_alloc: a window is tested from its last page down, and the search
    // resumes after the page that blocked it.
    method VmAlloc(npage: nat) returns (addr: nat)
      requires Core() && Inv(Abs()) && 0 < npage && InSpace(Abs(), npage)
      ensures addr == SearchFrom(Abs(), npage, brk)
      ensures npage * PGSIZE <= mmapMax ==> addr == FitFrom(Abs(), npage, brk)
    {
      hide Core;
      hide FitFrom;
      hide SearchFrom;
      hide SearchEnd;
      hide Inv;
      hide Vpn;
      hide Upper;
      hide Lower;
      hide Reached;
      ghost var flat := Abs();
      ghost var p := SearchStart(flat, npage);
      if npage * PGSIZE <= mmapMax {
        BreakAligned(flat);
        SearchFits(flat, npage, brk);
      }
      ReachedInSpace(flat, npage, brk, p, brk);
      var start, end := brk, SearchEnd(mmapMax, npage);
      var a := start;
      while a <= end
        invariant a % PGSIZE == 0 && Reached(flat, npage, start, p, a)
        decreases end + PGSIZE - a
      {
        ReachedInSpace(flat, npage, start, p, a);
        VpnOf(a);
        var avail := VaAvail(a);
        if !avail {
          ReachedNext(flat, npage, start, p, a, a);
          a := a + PGSIZE;
          continue;
        }
        var first, last := a, a + (npage - 1) * PGSIZE;
        a := last;
        while a > first
          invariant first <= a <= last && a % PGSIZE == 0
          invariant forall q | a / PGSIZE < q <= last / PGSIZE :: q !in leaf
        {
          VpnOf(a);
          avail := VaAvail(a);
          if !avail {
            break;
          }
          a := a - PGSIZE;
        }
        if a > first {
          ReachedNext(flat, npage, start, p, first, a);
          a := a + PGSIZE;
          continue;
        }
        FoundHere(flat, npage, a);
        ReachedEnd(flat, npage, start, p, a, a);
        return a;
      }
      FoundNone(flat, npage, a);
      ReachedEnd(flat, npage, start, p, a, 0);
      return 0;
    }

    method Lock()
      requires !locked
      modifies this`locked
      ensures locked
    {
      locked := true;
    }

    method Unlock()
      requires locked
      modifies this`locked
      ensures !locked
    {
      locked := false;
    }

    // The null test of __vmr_alloc, made again under the lock.  A holder of
    // the lock may only come here once the table exists.
    method EnsureVmrs() returns (ok: bool)
      requires Core() && owed == 0 && (vmrsPage == 0 ==> !locked)
      modifies this`vmrsPage, this`locked, pt`next, pt.mem
      ensures ok ==>
                Core() && vmrsPage != 0 && locked == old(locked) && (old(vmrsPage) != 0 ==> vmrsPage == old(vmrsPage))
      ensures Took(ok, old(Start()), {})
    {
      hide Table.Valid;
      hide Counted;
      hide Grow;
      GrowNone(Start());
      pt.MarkInRange();
      if vmrsPage == 0 {
        Lock();
        if vmrsPage == 0 {
          var page := pt.PageAlloc();
          if page.Halted? {
            return false;
          }
          vmrsPage := page.value;
          assert forall p <- leaf :: Encode(leaf[p], VmrsAddr()) == Encode(leaf[p], old(VmrsAddr()));
        }
        Unlock();
      }
      return true;
    }

    method ClaimSlot(v: nat, record: Vmr)
      requires Core() && owed == 0 && v < MAX_VMR && vmrs[v].refcnt == 0
      modifies this`slot, this`owed, vmrs
      ensures Core() && slot == v && owed == record.refcnt
      ensures Prots(vmrs[..]) == old(Prots(vmrs[..]))[v := record.prot]
    {
      hide Table.Valid;
      hide Counted;
      hide Encode;
      ghost var refs := Refs(vmrs[..]);
      Claimed(leaf, refs, slot, owed, v, record.refcnt);
      vmrs[v] := record;
      assert Refs(vmrs[..]) == refs[v := record.refcnt];
      slot, owed := v, record.refcnt;
    }

    // The search for a slot with count zero.
    method FindSlot() returns (v: nat)
      requires Core() && owed == 0
      ensures v == FirstUnused(leaf, 0) && v <= MAX_VMR == vmrs.Length && (v < MAX_VMR ==> vmrs[v].refcnt == 0)
    {
      hide Core;
      hide Used;
      SlotCount();
      v := 0;
      while v < MAX_VMR && vmrs[v].refcnt != 0
        invariant v <= MAX_VMR && FirstUnused(leaf, 0) == FirstUnused(leaf, v)
      {
        SlotFree(v);
        v := v + 1;
      }
      if v < MAX_VMR {
        SlotFree(v);
      }
    }

    // __vmr_alloc; MAX_VMR stands for the null pointer.
    method VmrAlloc(addr: nat, length: nat, offset: nat, refcnt: nat, prot: Prot) returns (ok: bool, v: nat)
      requires Core() && owed == 0 && (vmrsPage == 0 ==> !locked)
      modifies this`vmrsPage, this`locked, this`slot, this`owed, pt`next, pt.mem, vmrs
      ensures ok ==> Core() && vmrsPage != 0 && locked == old(locked) && v == FirstUnused(leaf, 0) && v <= MAX_VMR
      ensures Took(ok, old(Start()), {})
      ensures ok && v == MAX_VMR ==> owed == 0 && Abs() == old(Abs())
      ensures ok && v < MAX_VMR ==>
                slot == v && owed == refcnt && Abs() == old(Abs()).(prots := old(Prots(vmrs[..]))[v := prot])
    {
      hide Core;
      hide FirstUnused;
      hide Prots;
      hide Grow;
      v := 0;
      ok := EnsureVmrs();
      if ok {
        v := FindSlot();
        if v < MAX_VMR {
          ClaimSlot(v, Vmr(addr, length, offset, refcnt, prot));
        }
      }
    }

    lemma SlotCount()
      requires Core()
      ensures vmrs.Length == MAX_VMR
    {
    }

    // A slot with count zero is one that no page refers to.
    lemma SlotFree(v: nat)
      requires Core() && owed == 0 && v < MAX_VMR
      ensures vmrs.Length == MAX_VMR && (vmrs[v].refcnt == 0 <==> !Used(leaf, v))
    {
      hide Table.Valid;
      hide Coded;
      hide Used;
      hide LazyPages;
      CountUsed(leaf, v);
    }

    // __walk_create, which leaves the mapping as it is.
    method WalkCreate(a: nat) returns (r: Result<Slot>)
      requires Core()
      modifies pt`next, pt`mid, pt`low, pt.mem
      ensures Core() && (r.Done? ==> pt.SlotOf(Vpn(a), r.value))
      ensures Took(r.Done?, old(pt.Now()), {Vpn(a)})
    {
      hide Table.Valid;
      hide Table.SlotOf;
      hide Grow;
      hide Counted;
      hide Encode;
      r := pt.WalkCreate(a);
    }

    // A loop over pages takes the table pages of all of them, one by one.
    lemma NoneTaken(p: nat)
      requires Core()
      ensures Grow(pt.Now(), Range(p, 0)) == pt.Now() && Enough(pt.Now())
    {
      pt.MarkInRange();
      GrowNone(pt.Now());
    }

    lemma PageTaken(t: Tables, p: nat, k: nat, n: nat)
      requires k < n
      ensures Grow(Grow(t, Range(p, k)), {p + k}) == Grow(t, Range(p, k + 1))
      ensures Grow(t, Range(p, k + 1)).next <= Grow(t, Range(p, n)).next
    {
      hide Grow;
      assert Range(p, k) + {p + k} == Range(p, k + 1);
      assert Range(p, k + 1) + Range(p, n) == Range(p, n);
      GrowTwice(t, Range(p, k), {p + k});
      GrowTwice(t, Range(p, k + 1), Range(p, n));
    }

    // *pte = v for a page that was free.
    method PointAt(s: Slot, ghost p: nat, v: nat)
      requires Core() && p < VPNS && pt.SlotOf(p, s) && p !in leaf
      requires slot == v < MAX_VMR && owed > 0 && vmrsPage != 0
      modifies this`leaf, this`owed, pt`leaf, pt.mem
      ensures Core() && leaf == old(leaf)[p := Lazy(v)] && owed == old(owed) - 1
    {
      hide Table.Valid;
      hide Table.SlotOf;
      hide Counted;
      Granted(leaf, Refs(vmrs[..]), slot, owed, p);
      SetLeaf(s, VmrsAddr() + v * VMR_SIZE, p, Lazy(v));
      owed := owed - 1;
    }

    // One round of the loop of __do_mmap.
    method ReservePage(a: nat, v: nat) returns (ok: bool)
      requires Core() && a % PGSIZE == 0 && a < VPNS * PGSIZE && slot == v < MAX_VMR && owed > 0 && vmrsPage != 0
      modifies this`leaf, this`owed, pt, pt.mem, vmrs
      ensures ok ==> Core() && leaf == old(leaf)[a / PGSIZE := Lazy(v)] && owed == old(owed) - 1
      ensures ok ==> Prots(vmrs[..]) == old(Prots(vmrs[..]))
      ensures Took(ok, old(pt.Now()), {a / PGSIZE})
    {
      hide Grow;
      hide Table.Valid;
      hide Table.SlotOf;
      hide Counted;
      hide Encode;
      hide Munmapped;
      hide Vpn;
      VpnOf(a);
      ghost var p := a / PGSIZE;
      var e := WalkCreate(a);
      if e.Halted? {
        return false;
      }
      var w := pt.Load(e.value, p);
      WordKinds(p);
      if w != 0 {
        Unmap(a, PGSIZE);
        MunmapNext(old(leaf), p, 0);
        MunmapNone(old(leaf), p);
      }
      assert p !in leaf && leaf[p := Lazy(v)] == old(leaf)[p := Lazy(v)];
      PointAt(e.value, p, v);
      return true;
    }

    method ReservePages(addr: nat, length: nat, v: nat) returns (ok: bool)
      requires Core() && addr % PGSIZE == 0 && addr + length <= VPNS * PGSIZE
      requires slot == v < MAX_VMR && owed == Pages(length) && vmrsPage != 0
      modifies this`leaf, this`owed, pt, pt.mem, vmrs
      ensures ok ==> Core() && leaf == Reserve(old(leaf), addr / PGSIZE, Pages(length), v) && owed == 0
      ensures ok ==> Prots(vmrs[..]) == old(Prots(vmrs[..]))
      ensures Took(ok, old(pt.Now()), Range(addr / PGSIZE, Pages(length)))
    {
      hide Grow;
      hide Range;
      hide Core;
      hide Reserve;
      hide Pages;
      var a := addr;
      ghost var k, p, n := 0, addr / PGSIZE, Pages(length);
      ReserveNone(leaf, p, v);
      PageCount(length, 0);
      NoneTaken(p);
      ghost var t0 := pt.Now();
      while a < addr + length
        invariant a == addr + k * PGSIZE && k <= n && (a < addr + length <==> k < n)
        invariant Core() && leaf == Reserve(old(leaf), p, k, v) && owed == n - k
        invariant Prots(vmrs[..]) == old(Prots(vmrs[..]))
        invariant pt.Now() == Grow(t0, Range(p, k)) && Enough(pt.Now())
      {
        PageTaken(t0, p, k, n);
        ok := ReservePage(a, v);
        if !ok {
          return;
        }
        ReserveNext(old(leaf), p, k, v);
        PageCount(length, k + 1);
        a := a + PGSIZE;
        k := k + 1;
      }
      return true;
    }

    // MAP_POPULATE, or demand paging switched off: its kassert holds for every
    // page of user memory, and fails on the first one past it.
    method PopulatePages(addr: nat, length: nat, prot: Prot, ghost p: nat, ghost n: nat, ghost v: nat, ghost base: Flat)
      returns (ok: bool)
      requires Core() && Inv(base) && v < MAX_VMR && |base.prots| == MAX_VMR && base.prots[v] == prot
      requires addr == p * PGSIZE && n == Pages(length) && Mappable(base, p, n)
      requires addr + length <= base.mmapMax || (0 < n && base.mmapMax <= (p + n - 1) * PGSIZE)
      requires Abs() == Filling(base, p, n, 0, v, prot)
      modifies this`leaf, this`frames, pt`leaf, pt.mem, vmrs
      ensures ok == (addr + length <= base.mmapMax)
      ensures ok ==> Core() && Abs() == Filling(base, p, n, n, v, prot)
    {
      hide Core;
      hide Filling;
      hide Pages;
      hide Inv;
      hide Mappable;
      hide Abs;
      var a := addr;
      ghost var k := 0;
      PageCount(length, 0);
      while a < addr + length
        invariant a == addr + k * PGSIZE && k <= n && (a < addr + length <==> k < n)
        invariant Core() && Abs() == Filling(base, p, n, k, v, prot)
        invariant 0 < k ==> (p + k - 1) * PGSIZE < base.mmapMax
      {
        ok := PopulatePage(a, prot, p, n, k, v, base);
        if !ok {
          return;
        }
        k := k + 1;
        PageCount(length, k);
        a := a + PGSIZE;
      }
      return true;
    }

    method PopulatePage(a: nat, prot: Prot, ghost p: nat, ghost n: nat, ghost k: nat, ghost v: nat, ghost base: Flat)
      returns (ok: bool)
      requires Core() && Inv(base) && k < n && v < MAX_VMR && Mappable(base, p, n)
      requires |base.prots| == MAX_VMR && base.prots[v] == prot && (0 < k ==> (p + k - 1) * PGSIZE < base.mmapMax)
      requires a == (p + k) * PGSIZE && Abs() == Filling(base, p, n, k, v, prot)
      modifies this`leaf, this`frames, pt`leaf, pt.mem, vmrs
      ensures ok == (a < base.mmapMax)
      ensures ok ==> Core() && Abs() == Filling(base, p, n, k + 1, v, prot)
    {
      hide Core;
      hide Filling;
      hide Mappable;
      hide Inv;
      hide Fault;
      hide Abs;
      if a < base.mmapMax {
        FillingNext(base, p, n, k, v, prot);
      } else {
        FillingPast(base, p, n, k, v, prot);
      }
      var r := PageFault(a, prot);
      return r == 0;
    }

    // The two loops of __do_mmap.
    method FillRegion(addr: nat, length: nat, prot: Prot, populate: bool, v: nat, ghost p: nat, ghost base: Flat)
      returns (ok: bool)
      requires Core() && slot == v < MAX_VMR && owed == Pages(length) && vmrsPage != 0
      requires Inv(base) && |base.prots| == MAX_VMR && base.prots[v] == prot && Abs() == base
      requires addr == p * PGSIZE && Mappable(base, p, Pages(length)) && addr + length <= VPNS * PGSIZE
      requires addr + length <= base.mmapMax || (0 < length && base.mmapMax <= (p + Pages(length) - 1) * PGSIZE)
      modifies this`leaf, this`frames, this`owed, pt, pt.mem, vmrs
      ensures ok ==> Core() && owed == 0 && Abs() == Mapping(base, p, Pages(length), v, prot, populate || !base.demand)
      ensures if base.mmapMax < addr + length && (populate || !base.demand) then !ok
              else Took(ok, old(pt.Now()), Range(p, Pages(length)))
    {
      hide Grow;
      hide Range;
      hide Core;
      hide Filling;
      hide Mappable;
      hide Pages;
      hide Inv;
      hide Reserve;
      hide Populate;
      hide Clear;
      ghost var n := Pages(length);
      PageCount(length, 0);
      ok := ReservePages(addr, length, v);
      FillingEnds(base, p, n, v, prot);
      assert base.prots[v := prot] == base.prots;
      if ok && (!demand || populate) {
        ok := PopulatePages(addr, length, prot, p, n, v, base);
      }
    }

    // __do_mmap from the region on, for a range in user memory or a free one
    // that ends past it.
    method MapRegion(addr: nat, length: nat, refcnt: nat, prot: Prot, populate: bool, offset: nat, ghost p: nat)
      returns (r: Result<Option<nat>>)
      requires Core() && owed == 0 && Inv(Abs()) && (vmrsPage == 0 ==> !locked)
      requires addr == p * PGSIZE && refcnt == Pages(length) && Mappable(Abs(), p, refcnt)
               && addr + length <= VPNS * PGSIZE
      requires addr + length <= mmapMax || (0 < length && mmapMax <= (p + refcnt - 1) * PGSIZE)
      modifies this`leaf, this`frames, this`vmrsPage, this`slot, this`owed, this`locked, pt, pt.mem, vmrs
      ensures r.Done? ==> Core() && owed == 0 && locked == old(locked) && vmrsPage != 0
      ensures r.Done? ==> Mapped1(old(Abs()), Abs(), r.value, addr, p, refcnt, prot, populate)
      ensures if FirstUnused(old(leaf), 0) < MAX_VMR && mmapMax < addr + length && (populate || !demand) then r.Halted?
              else Took(r.Done?, old(Start()), if FirstUnused(old(leaf), 0) < MAX_VMR then Range(p, refcnt) else {})
    {
      hide Grow;
      hide Range;
      hide Core;
      hide Mappable;
      hide Pages;
      hide Inv;
      hide Mapping;
      hide FirstUnused;
      hide Prots;
      ghost var s0 := Abs();
      VmRuns.ProtsSize(s0);
      GrowNone(Start());
      GrowTwice(Start(), {}, Range(p, refcnt));
      assert {} + Range(p, refcnt) == Range(p, refcnt);
      var ok, v := VmrAlloc(addr, length, offset, refcnt, prot);
      if !ok {
        return Halted;
      }
      if v == MAX_VMR {
        return Done(None);
      }
      ghost var base := s0.(prots := s0.prots[v := prot]);
      VmRuns.ProtInv(s0, v, prot);
      SameRange(s0, base, p, refcnt);
      ok := FillRegion(addr, length, prot, populate, v, p, base);
      SameMapping(s0, p, refcnt, v, prot, populate || !s0.demand);
      return if ok then Done(Some(addr)) else Halted;
    }

    // __do_mmap of anonymous memory, where both arithmetic steps on the page
    // count wrap as in C.
    method Mmap(addr0: nat, length: nat, prot: Prot, fixed: bool, populate: bool, offset: nat)
      returns (r: Result<Option<nat>>)
      requires Core() && owed == 0 && Inv(Abs()) && (vmrsPage == 0 ==> !locked)
      requires !fixed ==> 0 < length < WORD && InSpace(Abs(), Pages(length))
      modifies this`leaf, this`frames, this`vmrsPage, this`slot, this`owed, this`locked, pt, pt.mem, vmrs
      ensures r.Done? ==>
                Core() && owed == 0 && locked == old(locked) && (old(vmrsPage) != 0 || r.value.Some? ==> vmrsPage != 0)
      ensures r.Done? ==> MmapResult(Abs(), r.value) == FlatVm.Mmap(old(Abs()), addr0, length, prot, fixed, populate)
      ensures var m := FlatVm.Mmap(old(Abs()), addr0, length, prot, fixed, populate).addr;
              if MmapPanics(old(Abs()), addr0, length, fixed, populate) then r.Halted?
              else if m.Some? then Took(r.Done?, old(Start()), Range(m.value / PGSIZE, Pages(length)))
              else Took(r.Done?, old(pt.Now()), {})
    {
      hide Grow;
      hide Range;
      hide Core;
      hide Inv;
      hide InSpace;
      hide Mappable;
      hide Pages;
      hide NPage;
      hide SearchFrom;
      hide FitFrom;
      hide FirstUnused;
      hide Mapping;
      ghost var s0 := Abs();
      FirstRegion();
      BreakAligned(s0);
      var npage := NPage(length);
      if fixed {
        if addr0 % PGSIZE != 0 || addr0 + length > mmapMax {
          return Done(None);
        }
        PageTotal(length);
        PageStart(addr0);
        FixedRange(s0, addr0, length);
        r := MapRegion(addr0, length, npage % REFCNT_WRAP, prot, populate, offset, addr0 / PGSIZE);
      } else {
        PageTotal(length);
        var addr := VmAlloc(npage);
        if addr == 0 {
          return Done(None);
        }
        FoundRange(s0, length);
        PageStart(addr);
        r := MapRegion(addr, length, npage % REFCNT_WRAP, prot, populate, offset, addr / PGSIZE);
      }
    }

    // While there is no region table there are no regions.
    lemma FirstRegion()
      requires Core()
      ensures vmrsPage == 0 ==> FirstUnused(leaf, 0) < MAX_VMR
      ensures Enough(pt.Now()) && Grow(pt.Now(), {}) == pt.Now() && (vmrsPage != 0 ==> Start() == pt.Now())
    {
      pt.MarkInRange();
      GrowNone(pt.Now());
      if vmrsPage == 0 {
        assert !Used(leaf, 0);
      }
    }

    // handle_page_fault
    method HandlePageFault(vaddr: nat, prot: Prot) returns (r: int)
      requires Valid()
      modifies this`leaf, this`frames, this`locked, pt`leaf, pt.mem, vmrs
      ensures Valid() && (Abs(), r) == Fault(old(Abs()), vaddr, prot)
    {
      hide Core;
      hide Inv;
      hide Fault;
      VmRuns.FaultInv(Abs(), vaddr, prot);
      Lock();
      r := PageFault(vaddr, prot);
      Unlock();
    }

    // do_munmap
    method DoMunmap(addr: nat, length: nat) returns (r: int)
      requires Valid()
      modifies this`leaf, this`locked, pt`leaf, pt.mem, vmrs
      ensures Valid() && (Abs(), r) == FlatVm.DoMunmap(old(Abs()), addr, length)
    {
      hide Core;
      hide Inv;
      hide Munmapped;
      hide Pages;
      if addr % PGSIZE != 0 || addr + length > mmapMax {
        return EINVAL;
      }
      ghost var s0 := Abs();
      MmapMaxBound(s0);
      VmRuns.PagesOf(addr, length, DRAM_PAGE * PGSIZE);
      PagesDram();
      VmRuns.MunmapInv(s0, addr / PGSIZE, Pages(length));
      Lock();
      Unmap(addr, length);
      Unlock();
      return 0;
    }

    // do_mmap of anonymous memory.  Halted when the allocator runs out of
    // table pages.
    method DoMmap(addr: nat, length: nat, prot: Prot, priv: bool, fixed: bool, populate: bool, offset: nat)
      returns (r: Result<int>)
      requires Valid()
      requires !fixed && 0 < length ==> length < WORD && InSpace(Abs(), Pages(length))
      modifies this`leaf, this`frames, this`vmrsPage, this`slot, this`owed, this`locked, this`brkMax, pt, pt.mem, vmrs
      ensures r.Done? ==>
                && Valid()
                && (Abs(), r.value) == FlatVm.DoMmap(old(Abs()), addr, length, prot, priv, fixed, populate, offset)
      ensures var d := FlatVm.DoMmap(old(Abs()), addr, length, prot, priv, fixed, populate, offset).1;
              if priv && length > 0 && offset % PGSIZE == 0 && MmapPanics(old(Abs()), addr, length, fixed, populate)
              then r.Halted?
              else Took(r.Done?, old(pt.Now()), if d >= 0 then Range(d / PGSIZE, Pages(length)) else {})
    {
      hide Grow;
      hide Range;
      hide Core;
      hide Inv;
      hide FlatVm.Mmap;
      hide Pages;
      FirstRegion();
      if !priv || length == 0 || offset % PGSIZE != 0 {
        return Done(EINVAL);
      }
      ghost var s0 := Abs();
      VmRuns.MmapInv(s0, addr, length, prot, fixed, populate);
      Lock();
      var m := Mmap(addr, length, prot, fixed, populate, offset);
      if m.Halted? {
        return Halted;
      }
      ghost var s1 := Abs();
      if m.value.Some? && m.value.value < brkMax {
        VmRuns.SetBrkMaxInv(s1, m.value.value);
        brkMax := m.value.value;
      }
      Unlock();
      return Done(if m.value.Some? then m.value.value else -1);
    }

    // The unmapping or mapping that moves the break; false when its kassert
    // fails or the allocator runs out of table pages.
    method MoveBreak(cur: nat, top: nat) returns (ok: bool)
      requires Core() && owed == 0 && vmrsPage != 0 && Inv(Abs())
      requires cur % PGSIZE == 0 == top % PGSIZE && cur <= DRAM_PAGE * PGSIZE
      modifies this`leaf, this`frames, this`vmrsPage, this`slot, this`owed, this`locked, pt, pt.mem, vmrs
      ensures ok ==> Core() && owed == 0 && vmrsPage != 0 && locked == old(locked)
      ensures ok && cur > top ==> Abs() == old(Abs()).(leaf := Munmapped(old(leaf), top / PGSIZE, Pages(cur - top)))
      ensures ok && cur < top ==>
                MmapResult(Abs(), Some(cur)) == FlatVm.Mmap(old(Abs()), cur, top - cur, ALL, true, false)
      ensures ok && cur == top ==> Abs() == old(Abs())
      ensures if cur < top && FlatVm.Mmap(old(Abs()), cur, top - cur, ALL, true, false).addr.None? then !ok
              else Took(ok, old(pt.Now()), if cur < top then Range(cur / PGSIZE, Pages(top - cur)) else {})
    {
      hide Core;
      hide Inv;
      hide Grow;
      hide Range;
      hide Munmapped;
      hide FlatVm.Mmap;
      hide Pages;
      FirstRegion();
      if cur > top {
        Unmap(top, cur - top);
      } else if cur < top {
        MmapAddr(Abs(), cur, top - cur, ALL, false);
        var m := Mmap(cur, top - cur, ALL, true, false, 0);
        return m.Done? && m.value.Some?;
      }
      return true;
    }

    // do_brk.  Halted also when the kassert on the new mapping fails.
    method Brk(addr: nat) returns (r: Result<nat>)
      requires Valid()
      modifies this`leaf, this`frames, this`vmrsPage, this`slot, this`owed, this`locked, this`brk, pt, pt.mem, vmrs
      ensures FlatVm.Brk(old(Abs()), addr) == None ==> r.Halted?
      ensures r.Done? ==> Valid() && FlatVm.Brk(old(Abs()), addr) == Some((Abs(), r.value))
      ensures FlatVm.Brk(old(Abs()), addr).Some? ==> Took(r.Done?, old(pt.Now()), BrkPages(old(Abs()), addr))
    {
      hide Core;
      hide Inv;
      hide Grow;
      hide Range;
      hide Munmapped;
      hide FlatVm.Mmap;
      hide Pages;
      hide RoundUp;
      ghost var s0 := Abs();
      if FlatVm.Brk(s0, addr).Some? {
        VmRuns.BrkInv(s0, addr);
      }
      var newbrk := if addr < brkMin then brkMin else if addr > brkMax then brkMax else addr;
      Lock();
      VmRuns.StartBrkBound(s0);
      var cur := if brk == 0 then RoundUp(brkMin) else brk;
      var top := RoundUp(newbrk);
      VmRuns.RoundUpPages(newbrk);
      var ok := MoveBreak(cur, top);
      if !ok {
        return Halted;
      }
      brk := top;
      Unlock();
      return Done(newbrk);
    }

    // One round of the loop of do_mprotect.
    method ProtectPage(a: nat, prot: Prot) returns (res: int)
      requires Core() && |Prots(vmrs[..])| == MAX_VMR
      modifies this`leaf, pt`leaf, pt.mem, vmrs
      ensures Core() && (res == ENOMEM <==> Vpn(a) !in old(leaf)) && (res != 0 ==> Abs() == old(Abs()))
      ensures Vpn(a) in old(leaf) ==> Protected(FlatVm.ProtectPage(old(Abs()), Vpn(a), prot), Abs(), res)
    {
      hide Core;
      hide Encode;
      hide Vpn;
      hide FlatVm.ProtectPage;
      hide PteValid;
      hide Table.SlotOf;
      var s, w := LeafWord(a);
      if w == 0 {
        return ENOMEM;
      }
      if !PteValid(w) {
        res := ProtectLazy(w, prot, Vpn(a));
      } else {
        res := ProtectMapped(s, w, prot, Vpn(a));
      }
    }

    method ProtectLazy(w: nat, prot: Prot, ghost p: nat) returns (res: int)
      requires Core() && |Prots(vmrs[..])| == MAX_VMR && p in leaf && leaf[p].Lazy? && w == Encode(leaf[p], VmrsAddr())
      modifies vmrs
      ensures Core() && Protected(FlatVm.ProtectPage(old(Abs()), p, prot), Abs(), res)
              && (res != 0 ==> Abs() == old(Abs()))
    {
      hide Core;
      hide Encode;
      hide Gains;
      CoreBase();
      LazySlot(p);
      var v := VmrOf(w, leaf[p]);
      if Gains(vmrs[v].prot, prot) {
        return EACCES;
      }
      SetProt(v, prot);
      return 0;
    }

    method ProtectMapped(s: Slot, w: nat, prot: Prot, ghost p: nat) returns (res: int)
      requires Core() && |Prots(vmrs[..])| == MAX_VMR && p < VPNS && p in leaf && leaf[p].Mapped?
      requires w == Encode(leaf[p], VmrsAddr()) && pt.SlotOf(p, s)
      modifies this`leaf, pt`leaf, pt.mem
      ensures Core() && Protected(FlatVm.ProtectPage(old(Abs()), p, prot), Abs(), res)
              && (res != 0 ==> Abs() == old(Abs()))
    {
      hide Core;
      hide ProtToType;
      hide Bit;
      hide PtePpn;
      hide Table.SlotOf;
      ghost var l := leaf[p];
      MappedWord(l);
      EntryBits(l.ppn, l.perm);
      if !Bit(w, BIT_U) || (Has(prot, READ) && !Bit(w, BIT_R)) || (Has(prot, WRITE) && !Bit(w, BIT_W))
         || (Has(prot, EXEC) && !Bit(w, BIT_X)) {
        return EACCES;
      }
      SetPerm(s, PtePpn(w), ProtToType(prot, true), p);
      return 0;
    }

    lemma CoreBase()
      requires Core()
      ensures pt.base > 0
    {
    }

    lemma LazySlot(p: nat)
      requires Core() && p in leaf && leaf[p].Lazy?
      ensures leaf[p].vmr < MAX_VMR == vmrs.Length
    {
    }

    method SetProt(v: nat, prot: Prot)
      requires Core() && v < MAX_VMR
      modifies vmrs
      ensures Core() && Prots(vmrs[..]) == old(Prots(vmrs[..]))[v := prot]
    {
      hide Counted;
      ghost var refs := Refs(vmrs[..]);
      vmrs[v] := vmrs[v].(prot := prot);
      assert Refs(vmrs[..]) == refs;
    }

    // A new permission for a page that is mapped already.
    method SetPerm(s: Slot, ppn: nat, perm: Perm, ghost p: nat)
      requires Core() && p < VPNS && p in leaf && leaf[p].Mapped? && pt.SlotOf(p, s)
      modifies this`leaf, pt`leaf, pt.mem
      ensures Core() && leaf == old(leaf)[p := Mapped(ppn, perm)]
    {
      hide Table.Valid;
      hide Table.SlotOf;
      hide Counted;
      hide Encode;
      Unreleased(leaf, Refs(vmrs[..]), slot, owed, p, Mapped(ppn, perm));
      EncodeMapped(ppn, perm);
      SetLeaf(s, PteCreate(ppn, TypeBits(perm)), p, Mapped(ppn, perm));
    }

    // do_mprotect.  Neither the range nor the running address wraps past a
    // mapped page.
    method Mprotect(addr: nat, length: nat, prot: Prot) returns (res: int)
      requires Valid() && addr < WORD
      modifies this`leaf, this`locked, pt`leaf, pt.mem, vmrs
      ensures Valid() && (Abs(), res) == DoMprotect(old(Abs()), addr, length, prot)
    {
      hide Core;
      hide Inv;
      hide Vpn;
      hide FlatVm.ProtectPage;
      if addr % PGSIZE != 0 {
        return EINVAL;
      }
      ghost var s0 := Abs();
      VmRuns.ProtsSize(s0);
      VmRuns.MprotectInv(s0, addr, (addr + length) % WORD, prot);
      Lock();
      var a, end := addr, (addr + length) % WORD;
      res := 0;
      while a < end
        invariant Core() && Inv(Abs()) && |Prots(vmrs[..])| == MAX_VMR && a < WORD && res == 0 && locked
        invariant MprotectFrom(s0, addr, end, prot) == MprotectFrom(Abs(), a, end, prot)
        decreases end - a
      {
        ghost var s1 := Abs();
        res := ProtectPage(a, prot);
        if res != 0 {
          break;
        }
        VmRuns.ProtectInv(s1, Vpn(a), prot);
        VmRuns.ProtsSize(Abs());
        NoWrap(s1, a);
        a := (a + PGSIZE) % WORD;
      }
      Unlock();
    }

    // One round of the loop of __map_kernel_range.
    method MapKernelPage(a: nat, offset: nat, perm: Perm) returns (ok: bool)
      requires Core() && a % PGSIZE == 0 && a < VPNS * PGSIZE && offset % PGSIZE == 0
      requires a / PGSIZE in leaf ==> leaf[a / PGSIZE].Mapped?
      modifies this`leaf, pt, pt.mem
      ensures ok ==> Core() && leaf == old(leaf)[a / PGSIZE := Mapped(a / PGSIZE + offset / PGSIZE, perm)]
      ensures Took(ok, old(pt.Now()), {a / PGSIZE})
    {
      hide Grow;
      hide Table.Valid;
      hide Table.SlotOf;
      hide Counted;
      hide Encode;
      hide Vpn;
      VpnOf(a);
      ghost var p := a / PGSIZE;
      var e := WalkCreate(a);
      if e.Halted? {
        return false;
      }
      var ppn := (a + offset) / PGSIZE;
      Unreleased(leaf, Refs(vmrs[..]), slot, owed, p, Mapped(ppn, perm));
      EncodeMapped(ppn, perm);
      SetLeaf(e.value, PteCreate(ppn, TypeBits(perm)), p, Mapped(ppn, perm));
      return true;
    }

    // __map_kernel_range
    method MapKernelRange(vaddr: nat, paddr: nat, len: nat, prot: Prot) returns (ok: bool)
      requires Core() && vaddr % PGSIZE == 0 && paddr % PGSIZE == 0 && vaddr <= paddr && vaddr + len <= VPNS * PGSIZE
      requires forall p <- leaf :: leaf[p].Mapped?
      modifies this`leaf, pt, pt.mem
      ensures ok ==>
                && Core()
                && leaf == Populate(old(leaf), vaddr / PGSIZE, Pages(len), (paddr - vaddr) / PGSIZE,
                                    ProtToType(prot, false))
      ensures Took(ok, old(pt.Now()), Range(vaddr / PGSIZE, Pages(len)))
    {
      hide Grow;
      hide Range;
      hide Core;
      hide Populate;
      hide Pages;
      hide ProtToType;
      var n, offset := RoundUp(len) / PGSIZE, paddr - vaddr;
      RoundUpCount(len);
      ghost var p, d, perm := vaddr / PGSIZE, offset / PGSIZE, ProtToType(prot, false);
      var a, i := vaddr, 0;
      PopulateNone(leaf, p, d, perm);
      NoneTaken(p);
      ghost var t0 := pt.Now();
      while i < n
        invariant i <= n && a == vaddr + i * PGSIZE && Core()
        invariant leaf == Populate(old(leaf), p, i, d, perm) && forall p <- leaf :: leaf[p].Mapped?
        invariant pt.Now() == Grow(t0, Range(p, i)) && Enough(pt.Now())
      {
        PageTaken(t0, p, i, n);
        PageCount(len, i);
        ok := MapKernelPage(a, offset, ProtToType(prot, false));
        if !ok {
          return;
        }
        PopulateNext(old(leaf), p, i, d, perm);
        i, a := i + 1, a + PGSIZE;
      }
      return true;
    }

    // __page_alloc for the kernel stack.
    method PageAlloc() returns (r: Result<nat>)
      requires Core()
      modifies pt`next, pt.mem
      ensures Core() && (r.Done? ==> 0 < r.value && pt.Now() == old(pt.Now()).(next := old(pt.next) + 1))
      ensures r.Done? <==> old(pt.next) < pt.mem.Length0
    {
      hide Table.Valid;
      hide Counted;
      r := pt.PageAlloc();
    }

    // A user access: it traps unless the entry already permits it, and a
    // trap that is handled lets it through to the frame.
    method LoadByte(vaddr: nat, kind: Prot) returns (o: VmRuns.Outcome)
      requires Valid()
      modifies this`leaf, this`frames, this`locked, pt`leaf, pt.mem, vmrs
      ensures Valid() && (Abs(), o) == VmRuns.Step(old(Abs()), VmRuns.OpLoad(vaddr, kind))
    {
      hide Core;
      hide Inv;
      hide Fault;
      var r := HandlePageFault(vaddr, kind);
      if r != 0 {
        return VmRuns.Segfault;
      }
      VmRuns.FaultInBounds(old(Abs()), vaddr, kind);
      var frame := FrameOf(vaddr);
      return VmRuns.Byte(frames[frame][vaddr % PGSIZE]);
    }

    method StoreByte(vaddr: nat, byte: bv8) returns (o: VmRuns.Outcome)
      requires Valid()
      modifies this`leaf, this`frames, this`locked, pt`leaf, pt.mem, vmrs
      ensures Valid() && (Abs(), o) == VmRuns.Step(old(Abs()), VmRuns.OpStore(vaddr, byte))
    {
      hide Core;
      hide Inv;
      hide Fault;
      var r := HandlePageFault(vaddr, WRITE);
      if r != 0 {
        return VmRuns.Segfault;
      }
      VmRuns.FaultInBounds(old(Abs()), vaddr, WRITE);
      WriteByte(vaddr, byte);
      return VmRuns.Code(0);
    }

    // A store to a page that is mapped already.
    method WriteByte(vaddr: nat, byte: bv8)
      requires Core() && Inv(Abs()) && vaddr / PGSIZE < |frames| && vaddr / PGSIZE in leaf
               && leaf[vaddr / PGSIZE].Mapped?
      modifies this`frames
      ensures Core() && |old(frames)[vaddr / PGSIZE]| == PGSIZE && Abs() == VmRuns.Poke(old(Abs()), vaddr, byte)
              && Inv(Abs())
    {
      hide Core;
      hide Inv;
      VmRuns.PokeInv(Abs(), vaddr, byte);
      var frame := FrameOf(vaddr);
      frames := frames[frame := frames[frame][vaddr % PGSIZE := byte]];
    }

    // The frame a mapped user address translates to.
    method FrameOf(vaddr: nat) returns (frame: nat)
      requires Core() && Inv(Abs()) && vaddr / PGSIZE < |frames| && vaddr / PGSIZE in leaf
               && leaf[vaddr / PGSIZE].Mapped?
      ensures frame == vaddr / PGSIZE
    {
      hide Core;
      hide Bit;
      hide PtePpn;
      FrameCount(Abs());
      MmapMaxBound(Abs());
      UserPage(Abs(), vaddr / PGSIZE);
      VpnOf(vaddr);
      var s, w := LeafWord(vaddr);
      ghost var l := leaf[vaddr / PGSIZE];
      MappedWord(l);
      EntryBits(l.ppn, l.perm);
      frame := PtePpn(w) - off;
    }

    // Between operations the count of a region is the number of page table
    // entries that hold its address, so a slot handed out again is one that
    // no entry refers to.
    lemma RefcountConserved(v: nat)
      requires Valid() && v < MAX_VMR
      ensures vmrs.Length == MAX_VMR && vmrs[v].refcnt == |Referring(v)|
      ensures forall p <- Referring(v) :: !PteValid(pt.leaf[p])
    {
      hide Table.Valid;
      hide Encode;
      hide Inv;
      hide PteValid;
      forall p | p in leaf
        ensures pt.leaf[p] == VmrsAddr() + v * VMR_SIZE <==> leaf[p] == Lazy(v)
        ensures leaf[p].Lazy? ==> !PteValid(pt.leaf[p])
      {
        EncodeKinds(leaf[p], VmrsAddr()) by { VmrsEven(); }
        EncodeKinds(Lazy(v), VmrsAddr()) by { VmrsEven(); }
        EncodeLazy(v);
      }
      assert Referring(v) == LazyPages(leaf, v);
    }

    ghost function Referring(v: nat): set<nat>
      reads `vmrsPage, pt
    {
      set p | p in pt.leaf && pt.leaf[p] == VmrsAddr() + v * VMR_SIZE
    }

    lemma EncodeLazy(v: nat)
      ensures Encode(Lazy(v), VmrsAddr()) == VmrsAddr() + v * VMR_SIZE
    {
    }

    lemma EncodeMapped(ppn: nat, perm: Perm)
      ensures PteCreate(ppn, TypeBits(perm)) == Encode(Mapped(ppn, perm), VmrsAddr())
      ensures PtePpn(PteCreate(ppn, TypeBits(perm))) == ppn
    {
      EntryBits(ppn, perm);
    }
  }

  // ---- start-up ----

  const DRAM_BASE: nat := DRAM_PAGE * PGSIZE

  function Min(a: nat, b: nat): nat { if a < b then a else b }
  function Max(a: nat, b: nat): nat { if a < b then b else a }
  function MemSize(memSize: nat): nat { Min(memSize, 0x8000_0000) }
  function FreePages(memSize: nat): nat { Max(8, memSize / PGSIZE / 256) }
  function StackSize(memSize: nat): nat { Min(memSize / PGSIZE / 32, 2048) * PGSIZE }

  // first_free_paddr in pages, for the kernel image ending at `end`.
  function FirstFree(memSize: nat, end: nat): nat { RoundUp(end) / PGSIZE + FreePages(MemSize(memSize)) }

  // The kernel is linked into DRAM, and memory holds it and the free pages.
  ghost predicate Room(memSize: nat, end: nat) {
    DRAM_BASE <= end && FirstFree(memSize, end) * PGSIZE <= DRAM_BASE + MemSize(memSize)
  }

  function MmapMax(memSize: nat, end: nat): (m: nat)
    requires Room(memSize, end)
    ensures m <= DRAM_BASE && m + FirstFree(memSize, end) * PGSIZE <= DRAM_BASE + MemSize(memSize)
  {
    var left := MemSize(memSize) - (FirstFree(memSize, end) * PGSIZE - DRAM_BASE);
    Min(DRAM_BASE, left)
  }

  lemma RoomBounds(memSize: nat, end: nat)
    requires Room(memSize, end)
    ensures DRAM_PAGE <= FirstFree(memSize, end) <= 0x10_0000
    ensures RoundUp(end) / PGSIZE > 0 && (RoundUp(end) / PGSIZE) * PGSIZE == RoundUp(end)
    ensures Pages(FirstFree(memSize, end) * PGSIZE - DRAM_BASE) == FirstFree(memSize, end) - DRAM_PAGE
  {
  }

  // The tables after start-up.  The pages taken are the root, the region
  // table, those of the kernel range and of the stack, and the kernel's stack.
  function StartTables(memSize: nat, end: nat): Tables
    requires Room(memSize, end) && StackSize(MemSize(memSize)) <= MmapMax(memSize, end)
  {
    var t := Grow(Tables(2, {}, {}), KernelPages(memSize, end) + StackPages(memSize, end));
    t.(next := t.next + 1)
  }

  function StartUpPages(memSize: nat, end: nat): nat
    requires Room(memSize, end) && StackSize(MemSize(memSize)) <= MmapMax(memSize, end)
  {
    StartTables(memSize, end).next
  }

  function KernelPages(memSize: nat, end: nat): set<nat>
    requires Room(memSize, end)
  {
    RoomBounds(memSize, end);
    Range(DRAM_PAGE, FirstFree(memSize, end) - DRAM_PAGE)
  }

  function StackPages(memSize: nat, end: nat): set<nat>
    requires Room(memSize, end) && StackSize(MemSize(memSize)) <= MmapMax(memSize, end)
  {
    var size := StackSize(MemSize(memSize));
    Range((MmapMax(memSize, end) - size) / PGSIZE, Pages(size))
  }

  lemma GrowShift(t: Tables, a: set<nat>)
    ensures Grow(t.(next := t.next + 1), a) == Grow(t, a).(next := Grow(t, a).next + 1)
  {
  }

  lemma GrowLater(t: Tables, a: set<nat>, b: set<nat>)
    ensures Grow(Grow(t, a).(next := Grow(t, a).next + 1), b) == Grow(t.(next := t.next + 1), a + b)
  {
    GrowTwice(t, a, b);
    GrowShift(t, a + b);
    GrowShift(Grow(t, a), b);
  }

  // Before the stack is mapped: the kernel range and nothing else.
  ghost function Bare(memSize: nat, end: nat, ram: seq<Page>, demand: bool): (s: Flat)
    requires Room(memSize, end) && Ram(memSize, end, ram)
    ensures Inv(s)
  {
    RoomBounds(memSize, end);
    var off := FirstFree(memSize, end);
    var top := MmapMax(memSize, end);
    Flat(Populate(map[], DRAM_PAGE, off - DRAM_PAGE, 0, KernelPerm()), seq(MAX_VMR, _ => 0), ram, 0, 0, top, top, off,
         demand)
  }

  // The pages above first_free_paddr that mmap_max leaves to the user.
  ghost predicate Ram(memSize: nat, end: nat, ram: seq<Page>)
    requires Room(memSize, end)
  {
    |ram| == Pages(MmapMax(memSize, end)) && forall i | 0 <= i < |ram| :: |ram[i]| == PGSIZE
  }

  // A stack can be mapped at the top of user memory: it is not larger, and the
  // top is the end of a page.
  predicate Bootable(memSize: nat, end: nat)
    requires Room(memSize, end)
  {
    StackSize(MemSize(memSize)) <= MmapMax(memSize, end) && MmapMax(memSize, end) % PGSIZE == 0
  }

  // The state start-up ends in: the kernel range and the stack.
  ghost function Booted(memSize: nat, end: nat, ram: seq<Page>, demand: bool): (s: Flat)
    requires Room(memSize, end) && Ram(memSize, end, ram) && Bootable(memSize, end)
    ensures Inv(s)
  {
    hide *;
    BootedInv(memSize, end, ram, demand);
    StackMapped(memSize, end, ram, demand).s
  }

  ghost function StackMapped(memSize: nat, end: nat, ram: seq<Page>, demand: bool): MmapResult
    requires Room(memSize, end) && Ram(memSize, end, ram) && Bootable(memSize, end)
  {
    var size := StackSize(MemSize(memSize));
    FlatVm.Mmap(Bare(memSize, end, ram, demand), MmapMax(memSize, end) - size, size, READ | WRITE | EXEC, true, false)
  }

  lemma BootedInv(memSize: nat, end: nat, ram: seq<Page>, demand: bool)
    requires Room(memSize, end) && Ram(memSize, end, ram) && Bootable(memSize, end)
    ensures Inv(StackMapped(memSize, end, ram, demand).s)
  {
    hide Inv;
    hide FlatVm.Mmap;
    hide Bare;
    hide MmapMax;
    var size := StackSize(MemSize(memSize));
    VmRuns.MmapInv(Bare(memSize, end, ram, demand), MmapMax(memSize, end) - size, size, READ | WRITE | EXEC, true,
                   false);
  }

  lemma StackMaps(memSize: nat, end: nat, ram: seq<Page>, demand: bool)
    requires Room(memSize, end) && Ram(memSize, end, ram) && StackSize(MemSize(memSize)) <= MmapMax(memSize, end)
    ensures var size := StackSize(MemSize(memSize));
            var bottom := MmapMax(memSize, end) - size;
            FlatVm.Mmap(Bare(memSize, end, ram, demand), bottom, size, READ | WRITE | EXEC, true, false).addr ==
            if Bootable(memSize, end) then Some(bottom) else None
  {
    hide Bare;
    hide Inv;
    hide MmapMax;
    hide Used;
    hide FlatVm.Mmap;
    var size := StackSize(MemSize(memSize));
    assert size % PGSIZE == 0;
    BareFree(memSize, end, ram, demand);
    MmapAddr(Bare(memSize, end, ram, demand), MmapMax(memSize, end) - size, size, READ | WRITE | EXEC, false);
  }

  lemma BareFree(memSize: nat, end: nat, ram: seq<Page>, demand: bool)
    requires Room(memSize, end) && Ram(memSize, end, ram)
    ensures FirstUnused(Bare(memSize, end, ram, demand).leaf, 0) == 0
    ensures Bare(memSize, end, ram, demand).mmapMax == MmapMax(memSize, end)
  {
    assert !Used(Bare(memSize, end, ram, demand).leaf, 0);
  }

  // pk_vm_init: `ram` is what memory above first_free_paddr holds.  Halted
  // when a page table page is missing or the stack cannot be mapped.
  method PkVmInit(memSize0: nat, end: nat, ram: seq<Page>, demandPaging: bool)
    returns (vm: VirtualMemory, r: Result<nat>, stackTop: nat)
    requires Room(memSize0, end) && Ram(memSize0, end, ram)
    ensures fresh(vm) && fresh(vm.pt) && fresh(vm.pt.mem) && fresh(vm.vmrs)
    ensures r.Done? <==> Bootable(memSize0, end) && StartUpPages(memSize0, end) <= FreePages(MemSize(memSize0))
    ensures r.Done? ==>
              && vm.Valid() && vm.Abs() == Booted(memSize0, end, ram, demandPaging) && vm.mmapMax == stackTop
              && vm.mmapMax + vm.off * PGSIZE <= DRAM_BASE + MemSize(memSize0)
              && vm.pt.mem.Length0 == FreePages(MemSize(memSize0)) && vm.pt.Now() == StartTables(memSize0, end)
  {
    hide Inv;
    hide FlatVm.Mmap;
    hide Pages;
    hide Range;
    hide Grow;
    hide StackSize;
    hide FreePages;
    hide MmapMax;
    hide Bare;
    hide VirtualMemory.Core;
    var ok;
    vm, ok := MapKernel(memSize0, end, ram, demandPaging);
    ghost var s0, t := Bare(memSize0, end, ram, demandPaging), vm.pt.Now();
    var stackSize := StackSize(MemSize(memSize0));
    r, stackTop := Halted, vm.mmapMax;
    if stackSize > vm.mmapMax {
      return;
    }
    if !ok {
      NoStart(memSize0, end);
      return;
    }
    StackMaps(memSize0, end, ram, demandPaging);
    VmRuns.MmapInv(s0, vm.mmapMax - stackSize, stackSize, READ | WRITE | EXEC, true, false);
    GrowLater(Tables(1, {}, {}), KernelPages(memSize0, end), StackPages(memSize0, end));
    var m := vm.Mmap(vm.mmapMax - stackSize, stackSize, READ | WRITE | EXEC, true, false, 0);
    if m.Halted? || m.value.None? {
      return;
    }
    var page := vm.PageAlloc();
    if page.Done? {
      r := Done((vm.pt.base + page.value) * PGSIZE + PGSIZE);
    }
  }

  // The first half: the root table, the kernel range, and mmap_max.
  method MapKernel(memSize0: nat, end: nat, ram: seq<Page>, demandPaging: bool) returns (vm: VirtualMemory, ok: bool)
    requires Room(memSize0, end) && Ram(memSize0, end, ram)
    ensures fresh(vm) && fresh(vm.pt) && fresh(vm.pt.mem) && fresh(vm.vmrs)
    ensures vm.pt.mem.Length0 == FreePages(MemSize(memSize0)) && vm.off == FirstFree(memSize0, end)
    ensures vm.Took(ok, Tables(1, {}, {}), KernelPages(memSize0, end)) && vm.mmapMax == MmapMax(memSize0, end)
    ensures ok ==>
              vm.Core() && vm.owed == 0 && vm.vmrsPage == 0 && !vm.locked
              && vm.Abs() == Bare(memSize0, end, ram, demandPaging)
  {
    hide Inv;
    hide Populate;
    hide Pages;
    hide Range;
    hide Grow;
    hide VirtualMemory.Core;
    RoomBounds(memSize0, end);
    var memSize := MemSize(memSize0);
    var freePages := FreePages(memSize);
    var firstFreePage := RoundUp(end) / PGSIZE;
    vm := new VirtualMemory(firstFreePage, freePages, ram, demandPaging);
    ok := vm.MapKernelRange(DRAM_BASE, DRAM_BASE, (firstFreePage + freePages) * PGSIZE - DRAM_BASE,
                            READ | WRITE | EXEC);
    var left := memSize - ((firstFreePage + freePages) * PGSIZE - DRAM_BASE);
    vm.mmapMax := Min(DRAM_BASE, left);
    vm.brkMax := vm.mmapMax;
  }

  // A start-up that cannot even map the kernel range lacks pages.
  lemma NoStart(memSize: nat, end: nat)
    requires Room(memSize, end) && StackSize(MemSize(memSize)) <= MmapMax(memSize, end)
    ensures Grow(Tables(1, {}, {}), KernelPages(memSize, end)).next + 2 <= StartUpPages(memSize, end)
  {
    hide Grow;
    hide Range;
    GrowTwice(Tables(2, {}, {}), KernelPages(memSize, end), StackPages(memSize, end));
    GrowShift(Tables(1, {}, {}), KernelPages(memSize, end));
  }
}
