// The meaning of the proxy kernel's virtual memory manager: a flat map from
// page numbers to leaf entries, the protections of the lazy regions, the user
// frames and the break.  Every operation of the manager is a function here.
module FlatVm {
  import opened PageTable

  // Protection bits as mmap receives them; all 32 bits matter to mprotect.
  type Prot = bv32
  type Page = seq<bv8>

  const DRAM_PAGE: nat := 0x8_0000
  // records of 40 bytes in a page
  const MAX_VMR: nat := 102
  // addresses are 64 bits
  const WORD: nat := 0x1_0000_0000_0000_0000
  const ENOMEM: int := -12
  const EACCES: int := -13
  const EINVAL: int := -22
  // PROT_READ, PROT_WRITE, PROT_EXEC and the -1 that brk passes
  const READ: Prot := 1
  const WRITE: Prot := 2
  const EXEC: Prot := 4
  const ALL: Prot := 0xFFFF_FFFF

  predicate Has(prot: Prot, bit: Prot) { prot & bit != 0 }

  datatype Perm = Perm(r: bool, w: bool, x: bool, u: bool, a: bool, d: bool)

  // prot_to_type: no access at all becomes read permission.
  function ProtToType(prot: Prot, user: bool): Perm {
    var r, w, x := Has(prot, READ), Has(prot, WRITE), Has(prot, EXEC);
    Perm(r || !(w || x), w, x, user, r || x, w)
  }

  // (have & need) == need
  predicate Covers(have: Perm, need: Perm) {
    (need.r ==> have.r) && (need.w ==> have.w) && (need.x ==> have.x) &&
    (need.u ==> have.u) && (need.a ==> have.a) && (need.d ==> have.d)
  }

  // A nonzero leaf entry: a page still to be faulted in from a lazy region,
  // or a valid translation.
  datatype Leaf = Lazy(vmr: nat) | Mapped(ppn: nat, perm: Perm)

  datatype Flat = Flat(
    leaf: map<nat, Leaf>,
    prots: seq<Prot>,
    frames: seq<Page>,
    brkMin: nat, brk: nat, brkMax: nat, mmapMax: nat,
    off: nat,
    demand: bool)

  function Zeros(): (z: Page)
    ensures |z| == PGSIZE
  {
    seq(PGSIZE, _ => 0)
  }

  function Pages(len: nat): nat { (len + PGSIZE - 1) / PGSIZE }
  function RoundUp(a: nat): nat { (a + PGSIZE - 1) / PGSIZE * PGSIZE }

  function KernelPerm(): Perm { ProtToType(READ | WRITE | EXEC, false) }

  // What holds between operations: valid user pages have user frames at their
  // fixed offset, and the kernel range is identity mapped.  A lazy page may
  // lie anywhere else below the last page of the 39-bit address space.
  ghost predicate Inv(s: Flat)
  {
    && |s.prots| == MAX_VMR
    && DRAM_PAGE <= s.off <= 0x10_0000
    && s.mmapMax <= DRAM_PAGE * PGSIZE
    && |s.frames| == Pages(s.mmapMax) && (forall i | 0 <= i < |s.frames| :: |s.frames[i]| == PGSIZE)
    && s.brk % PGSIZE == 0 && s.brk <= DRAM_PAGE * PGSIZE && s.brkMin <= DRAM_PAGE * PGSIZE
    && (forall p <- s.leaf :: p + 1 < VPNS && UserLeaf(s, p, s.leaf[p]))
    && (forall p | DRAM_PAGE <= p < s.off :: p in s.leaf && s.leaf[p] == Mapped(p, KernelPerm()))
  }

  ghost predicate UserLeaf(s: Flat, p: nat, l: Leaf) {
    match l
    case Lazy(v) => v < MAX_VMR
    case Mapped(ppn, perm) => if p < DRAM_PAGE then p < |s.frames| && ppn == p + s.off && perm.u else p < s.off
  }

  lemma MmapMaxBound(s: Flat)
    requires Inv(s)
    ensures s.mmapMax <= DRAM_PAGE * PGSIZE
  {
  }

  // ---- the address search ----

  predicate Window(leaf: map<nat, Leaf>, p: nat, n: nat) {
    forall q | p <= q < p + n :: q !in leaf
  }

  // Start address a of n free pages below mmap_max.
  predicate Fits(s: Flat, n: nat, a: nat) {
    a % PGSIZE == 0 && a + n * PGSIZE <= s.mmapMax && Window(s.leaf, a / PGSIZE, n)
  }

  // The least fit from a upwards, 0 if there is none; a fit at address 0 also
  // reads as failure.
  function FitFrom(s: Flat, n: nat, a: nat): nat
    decreases s.mmapMax + PGSIZE - a
  {
    if a + n * PGSIZE > s.mmapMax then 0
    else if Window(s.leaf, a / PGSIZE, n) then a
    else FitFrom(s, n, a + PGSIZE)
  }

  lemma {:induction false} FirstFit(s: Flat, n: nat, a: nat)
    requires a % PGSIZE == 0 && n > 0
    ensures var r := FitFrom(s, n, a);
            && (r != 0 ==> a <= r && Fits(s, n, r) && forall b | a <= b < r :: !Fits(s, n, b))
            && (r == 0 <==> (a == 0 && Fits(s, n, 0)) || forall b | a <= b :: !Fits(s, n, b))
    decreases s.mmapMax + PGSIZE - a
  {
    if a + n * PGSIZE <= s.mmapMax && Window(s.leaf, a / PGSIZE, n) {
      assert Fits(s, n, a);
    } else if a + n * PGSIZE <= s.mmapMax && !Window(s.leaf, a / PGSIZE, n) {
      FirstFit(s, n, a + PGSIZE);
      forall b | a <= b < a + PGSIZE ensures !Fits(s, n, b) {
        if b % PGSIZE == 0 {
          assert b == a;
        }
      }
    }
  }

  // The bound the code compares with is a 64-bit difference.
  function SearchEnd(mmapMax: nat, n: nat): nat { (mmapMax - n * PGSIZE) % WORD }

  // What __vm_alloc looks for: a free window that starts at or below the
  // bound.
  function SearchFrom(s: Flat, n: nat, a: nat): nat
    decreases SearchEnd(s.mmapMax, n) + PGSIZE - a
  {
    if a > SearchEnd(s.mmapMax, n) then 0
    else if Window(s.leaf, a / PGSIZE, n) then a
    else SearchFrom(s, n, a + PGSIZE)
  }

  // A page in use rules out every start whose window covers it, so a search
  // may jump past it.
  lemma {:induction false} SkipBlocked(s: Flat, n: nat, a: nat, b: nat)
    requires a % PGSIZE == 0 && b % PGSIZE == 0 && a <= b < a + n * PGSIZE && b / PGSIZE in s.leaf
    ensures SearchFrom(s, n, a) == SearchFrom(s, n, b + PGSIZE)
    decreases b - a
  {
    hide SearchEnd;
    if a <= SearchEnd(s.mmapMax, n) {
      assert a / PGSIZE <= b / PGSIZE < a / PGSIZE + n;
      assert !Window(s.leaf, a / PGSIZE, n);
      if a < b {
        SkipBlocked(s, n, a + PGSIZE, b);
      }
    }
  }

  // With room for n pages below mmap_max the search is the first fit ...
  lemma {:induction false} SearchFits(s: Flat, n: nat, a: nat)
    requires s.mmapMax < WORD && n * PGSIZE <= s.mmapMax
    ensures SearchFrom(s, n, a) == FitFrom(s, n, a)
    decreases s.mmapMax + PGSIZE - a
  {
    assert SearchEnd(s.mmapMax, n) == s.mmapMax - n * PGSIZE;
    if a + n * PGSIZE <= s.mmapMax && !Window(s.leaf, a / PGSIZE, n) {
      SearchFits(s, n, a + PGSIZE);
    }
  }

  // ... and without it the bound has wrapped: nothing fits, but the search
  // finds the first free window all the same.
  lemma {:induction false} SearchPast(s: Flat, n: nat, a: nat, p: nat)
    requires s.mmapMax < n * PGSIZE && s.mmapMax <= DRAM_PAGE * PGSIZE
    requires a % PGSIZE == 0 && a / PGSIZE <= p && p + n <= VPNS && Window(s.leaf, p, n)
    ensures FitFrom(s, n, a) == 0
    ensures var r := SearchFrom(s, n, a);
            && a <= r <= p * PGSIZE && r % PGSIZE == 0 && Window(s.leaf, r / PGSIZE, n)
            && (forall b | a <= b < r && b % PGSIZE == 0 :: !Window(s.leaf, b / PGSIZE, n))
            && !ValidUserRange(s, r, n * PGSIZE)
    decreases p * PGSIZE - a
  {
    assert a <= SearchEnd(s.mmapMax, n) by {
      WrappedBound(s.mmapMax, n, p);
    }
    if !Window(s.leaf, a / PGSIZE, n) {
      assert a / PGSIZE < p;
      SearchPast(s, n, a + PGSIZE, p);
      forall b | a <= b < a + PGSIZE && b % PGSIZE == 0 ensures !Window(s.leaf, b / PGSIZE, n) {
        assert b == a;
      }
    }
  }

  lemma WrappedBound(mmapMax: nat, n: nat, p: nat)
    requires mmapMax < n * PGSIZE && mmapMax <= DRAM_PAGE * PGSIZE && p + n <= VPNS
    ensures p * PGSIZE <= SearchEnd(mmapMax, n)
  {
  }

  // The search ends without coming to the last page of the 39-bit address
  // space: there is room below mmap_max, or some window is free.
  ghost predicate InSpace(s: Flat, n: nat) {
    n * PGSIZE <= s.mmapMax || exists p: nat :: s.brk / PGSIZE <= p && p + n < VPNS && Window(s.leaf, p, n)
  }

  // No page in use lies above the kernel.
  predicate Low(s: Flat) { forall p <- s.leaf :: p < s.off }

  // Then any request that fits between the kernel and the end of the space
  // is answered.
  lemma LowInSpace(s: Flat, n: nat)
    requires Inv(s) && Low(s) && s.off + n < VPNS
    ensures InSpace(s, n)
  {
    assert Window(s.leaf, s.off, n);
  }

  // What the search returns.
  lemma Searched(s: Flat, n: nat)
    requires Inv(s) && InSpace(s, n) && 0 < n
    ensures var r := SearchFrom(s, n, s.brk);
            r != 0 ==>
              && r % PGSIZE == 0 && r / PGSIZE + n < VPNS && Window(s.leaf, r / PGSIZE, n)
              && (if n * PGSIZE <= s.mmapMax then r + n * PGSIZE <= s.mmapMax else s.mmapMax <= r + (n - 1) * PGSIZE)
  {
    MmapMaxBound(s);
    var r := SearchFrom(s, n, s.brk);
    if n * PGSIZE <= s.mmapMax {
      SearchFits(s, n, s.brk);
      FirstFit(s, n, s.brk);
    } else {
      var p: nat :| s.brk / PGSIZE <= p && p + n < VPNS && Window(s.leaf, p, n);
      SearchPast(s, n, s.brk, p);
    }
  }

  // So the search is the first fit exactly when the pages asked for fit below
  // mmap_max, but for a break at address 0.
  lemma SearchExact(s: Flat, n: nat)
    requires Inv(s) && 0 < s.brk && InSpace(s, n)
    ensures SearchFrom(s, n, s.brk) == FitFrom(s, n, s.brk) <==> n * PGSIZE <= s.mmapMax
  {
    MmapMaxBound(s);
    if n * PGSIZE <= s.mmapMax {
      SearchFits(s, n, s.brk);
    } else {
      var p: nat :| s.brk / PGSIZE <= p && p + n < VPNS && Window(s.leaf, p, n);
      SearchPast(s, n, s.brk, p);
    }
  }

  // ---- lazy region slots ----

  ghost predicate Used(leaf: map<nat, Leaf>, v: nat) {
    exists p :: p in leaf && leaf[p] == Lazy(v)
  }

  // The first slot from v on that no page refers to; MAX_VMR if none.
  ghost function FirstUnused(leaf: map<nat, Leaf>, v: nat): (r: nat)
    requires v <= MAX_VMR
    ensures v <= r <= MAX_VMR
    ensures r < MAX_VMR ==> !Used(leaf, r)
    ensures forall i | v <= i < r :: Used(leaf, i)
    decreases MAX_VMR - v
  {
    if v == MAX_VMR || !Used(leaf, v) then v else FirstUnused(leaf, v + 1)
  }

  // ---- operations ----

  predicate Within(q: nat, p: nat, n: nat) { p <= q < p + n }

  function Reserve(leaf: map<nat, Leaf>, p: nat, n: nat, v: nat): map<nat, Leaf> {
    leaf + map q | p <= q < p + n && Within(q, p, n) :: Lazy(v)
  }

  function Populate(leaf: map<nat, Leaf>, p: nat, n: nat, off: nat, perm: Perm): map<nat, Leaf> {
    leaf + map q | p <= q < p + n && Within(q, p, n) :: Mapped(q + off, perm)
  }

  function Clear(frames: seq<Page>, p: nat, n: nat): (r: seq<Page>)
    ensures |r| == |frames|
    ensures forall q | 0 <= q < |frames| :: r[q] == if p <= q < p + n then Zeros() else frames[q]
  {
    seq(|frames|, q requires 0 <= q < |frames| => if p <= q < p + n then Zeros() else frames[q])
  }

  function Munmapped(leaf: map<nat, Leaf>, p: nat, n: nat): map<nat, Leaf> {
    map q | q in leaf && !(p <= q < p + n) :: leaf[q]
  }

  // __handle_page_fault
  function Fault(s: Flat, vaddr: nat, prot: Prot): (r: (Flat, int))
    requires Inv(s)
  {
    var p := vaddr / PGSIZE;
    if p !in s.leaf || p * PGSIZE + 1 > s.mmapMax then (s, -1)
    else
      var s' := if s.leaf[p].Lazy? then FaultIn(s, p) else s;
      (s', if Covers(s'.leaf[p].perm, ProtToType(prot, true)) then 0 else -1)
  }

  function FaultIn(s: Flat, p: nat): (r: Flat)
    requires Inv(s) && p in s.leaf && s.leaf[p].Lazy? && p < DRAM_PAGE
  {
    s.(leaf := s.leaf[p := Mapped(p + s.off, ProtToType(s.prots[s.leaf[p].vmr], true))],
       frames := Clear(s.frames, p, 1))
  }

  predicate ValidUserRange(s: Flat, vaddr: nat, len: nat) { vaddr + len <= s.mmapMax }

  // __do_mmap of anonymous memory.  None stands for (uintptr_t)-1.
  datatype MmapResult = MmapResult(s: Flat, addr: Option<nat>)
  datatype Option<T> = None | Some(value: T)

  // The address a request is mapped at, 0 when the search fails.
  function Placed(s: Flat, addr0: nat, len: nat, fixed: bool): nat {
    if fixed then addr0 else SearchFrom(s, Pages(len), s.brk)
  }

  // Is there an address to map at?
  predicate Placeable(s: Flat, addr0: nat, len: nat, fixed: bool) {
    if fixed then addr0 % PGSIZE == 0 && ValidUserRange(s, addr0, len) else Placed(s, addr0, len, fixed) != 0
  }

  // A search for more pages than fit below mmap_max ends above it, where
  // faulting the pages in fails its kassert.
  ghost predicate Overlong(s: Flat, len: nat, fixed: bool) { !fixed && s.mmapMax < Pages(len) * PGSIZE }

  ghost predicate MmapPanics(s: Flat, addr0: nat, len: nat, fixed: bool, populate: bool) {
    && Placeable(s, addr0, len, fixed) && FirstUnused(s.leaf, 0) < MAX_VMR
    && Overlong(s, len, fixed) && (populate || !s.demand)
  }

  ghost function Mmap(s: Flat, addr0: nat, len: nat, prot: Prot, fixed: bool, populate: bool): MmapResult
    requires Inv(s)
  {
    var addr, v := Placed(s, addr0, len, fixed), FirstUnused(s.leaf, 0);
    if !Placeable(s, addr0, len, fixed) || v == MAX_VMR || MmapPanics(s, addr0, len, fixed, populate) then
      MmapResult(s, None)
    else MmapResult(Mapping(s, addr / PGSIZE, Pages(len), v, prot, populate || !s.demand), Some(addr))
  }

  function Mapping(s: Flat, p: nat, n: nat, v: nat, prot: Prot, eager: bool): Flat
    requires |s.prots| == MAX_VMR && v < MAX_VMR
  {
    var s' := s.(prots := s.prots[v := prot]);
    if eager then
      s'.(leaf := Populate(s.leaf, p, n, s.off, ProtToType(prot, true)), frames := Clear(s.frames, p, n))
    else s'.(leaf := Reserve(s.leaf, p, n, v))
  }

  // A reserved mapping whose first k pages have been faulted in.
  function Filling(s: Flat, p: nat, n: nat, k: nat, v: nat, prot: Prot): Flat
    requires k <= n
  {
    s.(leaf := Reserve(Populate(s.leaf, p, k, s.off, ProtToType(prot, true)), p + k, n - k, v),
       frames := Clear(s.frames, p, k))
  }

  lemma FillingEnds(s: Flat, p: nat, n: nat, v: nat, prot: Prot)
    ensures Filling(s, p, n, 0, v, prot) == s.(leaf := Reserve(s.leaf, p, n, v))
    ensures Filling(s, p, n, n, v, prot)
         == s.(leaf := Populate(s.leaf, p, n, s.off, ProtToType(prot, true)), frames := Clear(s.frames, p, n))
  {
    hide ProtToType;
    var perm := ProtToType(prot, true);
    assert Populate(s.leaf, p, 0, s.off, perm) == s.leaf;
    assert Clear(s.frames, p, 0) == s.frames;
    assert Reserve(Populate(s.leaf, p, n, s.off, perm), p + n, 0, v) == Populate(s.leaf, p, n, s.off, perm);
  }

  // The range is in user memory, or free up to the end of the space.
  ghost predicate Mappable(s: Flat, p: nat, n: nat) {
    p + n <= |s.frames| || (p + n < VPNS && Window(s.leaf, p, n))
  }

  lemma FillingInv(s: Flat, p: nat, n: nat, k: nat, v: nat, prot: Prot)
    requires Inv(s) && k <= n && v < MAX_VMR && Mappable(s, p, n) && (0 < k ==> p + k <= |s.frames|)
    ensures Inv(Filling(s, p, n, k, v, prot))
  {
    hide ProtToType;
    var f := Filling(s, p, n, k, v, prot);
    FramesBound(s);
    UserPerm(prot);
    forall q: nat ensures q in f.leaf ==> q + 1 < VPNS && UserLeaf(f, q, f.leaf[q])
                  ensures DRAM_PAGE <= q < s.off ==> q in f.leaf && f.leaf[q] == Mapped(q, KernelPerm())
    {
      PopulateAt(s.leaf, p, k, s.off, ProtToType(prot, true), q);
      ReserveAt(Populate(s.leaf, p, k, s.off, ProtToType(prot, true)), p + k, n - k, v, q);
    }
  }

  lemma UserPerm(prot: Prot)
    ensures ProtToType(prot, true).u
  {
  }

  lemma FramesBound(s: Flat)
    requires Inv(s)
    ensures |s.frames| == Pages(s.mmapMax) <= DRAM_PAGE
  {
  }

  // A fixed mapping fails on a bad range or when every region is in use.
  lemma MmapAddr(s: Flat, addr: nat, len: nat, prot: Prot, populate: bool)
    requires Inv(s)
    ensures Mmap(s, addr, len, prot, true, populate).addr ==
            if addr % PGSIZE == 0 && ValidUserRange(s, addr, len) && FirstUnused(s.leaf, 0) < MAX_VMR then Some(addr)
            else None
  {
    hide Mapping;
  }

  // Faulting in the next page of the mapping cannot fail.
  lemma FillingNext(s: Flat, p: nat, n: nat, k: nat, v: nat, prot: Prot)
    requires Inv(s) && k < n && v < MAX_VMR && Mappable(s, p, n) && s.prots[v] == prot
    requires (p + k) * PGSIZE < s.mmapMax
    ensures Inv(Filling(s, p, n, k, v, prot))
    ensures Fault(Filling(s, p, n, k, v, prot), (p + k) * PGSIZE, prot) == (Filling(s, p, n, k + 1, v, prot), 0)
  {
    hide ProtToType;
    hide Inv;
    hide Clear;
    hide Filling;
    FramesBound(s);
    FillingInv(s, p, n, k, v, prot);
    FillingPage(s, p, n, k, v, prot);
    MmapMaxBound(s);
    var f := Filling(s, p, n, k, v, prot);
    FillingRest(s, p, n, k, v, prot);
    assert FaultIn(f, p + k) == Filling(s, p, n, k + 1, v, prot);
  }

  // Past user memory it does fail.
  lemma FillingPast(s: Flat, p: nat, n: nat, k: nat, v: nat, prot: Prot)
    requires Inv(s) && k < n && v < MAX_VMR && Mappable(s, p, n)
    requires s.mmapMax <= (p + k) * PGSIZE && (0 < k ==> (p + k - 1) * PGSIZE < s.mmapMax)
    ensures Inv(Filling(s, p, n, k, v, prot))
    ensures Fault(Filling(s, p, n, k, v, prot), (p + k) * PGSIZE, prot).1 == -1
  {
    hide Mappable;
    FramesBound(s);
    FillingInv(s, p, n, k, v, prot);
    FillingRest(s, p, n, k, v, prot);
    hide Inv;
    hide Filling;
  }

  lemma FillingRest(s: Flat, p: nat, n: nat, k: nat, v: nat, prot: Prot)
    requires k < n
    ensures var f, f1 := Filling(s, p, n, k, v, prot), Filling(s, p, n, k + 1, v, prot);
            && f.mmapMax == s.mmapMax && f.off == s.off && f.prots == s.prots
            && f1 == f.(leaf := f1.leaf, frames := f1.frames)
  {
  }

  lemma FillingPage(s: Flat, p: nat, n: nat, k: nat, v: nat, prot: Prot)
    requires k < n
    ensures var f, f1 := Filling(s, p, n, k, v, prot), Filling(s, p, n, k + 1, v, prot);
            && p + k in f.leaf && f.leaf[p + k] == Lazy(v)
            && f.leaf[p + k := Mapped(p + k + s.off, ProtToType(prot, true))] == f1.leaf
            && Clear(f.frames, p + k, 1) == f1.frames
  {
    hide ProtToType;
    FillOne(s.leaf, p, n, k, v, s.off, ProtToType(prot, true));
    ClearNext(s.frames, p, k);
  }

  lemma ClearNext(frames: seq<Page>, p: nat, k: nat)
    ensures Clear(Clear(frames, p, k), p + k, 1) == Clear(frames, p, k + 1)
  {
  }

  lemma FillOne(leaf: map<nat, Leaf>, p: nat, n: nat, k: nat, v: nat, off: nat, perm: Perm)
    requires k < n
    ensures var f := Reserve(Populate(leaf, p, k, off, perm), p + k, n - k, v);
            && p + k in f && f[p + k] == Lazy(v)
            && f[p + k := Mapped(p + k + off, perm)]
               == Reserve(Populate(leaf, p, k + 1, off, perm), p + k + 1, n - k - 1, v)
  {
    hide Reserve;
    hide Populate;
    hide Within;
    var f := Reserve(Populate(leaf, p, k, off, perm), p + k, n - k, v);
    var g := f[p + k := Mapped(p + k + off, perm)];
    var h := Reserve(Populate(leaf, p, k + 1, off, perm), p + k + 1, n - k - 1, v);
    FillAt(leaf, p, n, k, v, off, perm, p + k);
    forall q: nat
      ensures q in g <==> q in h
      ensures q in g ==> g[q] == h[q]
    {
      FillAt(leaf, p, n, k, v, off, perm, q);
    }
    assert g == h;
  }

  lemma FillAt(leaf: map<nat, Leaf>, p: nat, n: nat, k: nat, v: nat, off: nat, perm: Perm, q: nat)
    requires k < n
    ensures var f := Reserve(Populate(leaf, p, k, off, perm), p + k, n - k, v);
            var h := Reserve(Populate(leaf, p, k + 1, off, perm), p + k + 1, n - k - 1, v);
            && (q in f <==> q in h) && (q != p + k && q in f ==> f[q] == h[q])
            && (q == p + k ==> q in f && f[q] == Lazy(v) && h[q] == Mapped(q + off, perm))
  {
    hide Reserve;
    hide Populate;
    PopulateAt(leaf, p, k, off, perm, q);
    ReserveAt(Populate(leaf, p, k, off, perm), p + k, n - k, v, q);
    PopulateAt(leaf, p, k + 1, off, perm, q);
    ReserveAt(Populate(leaf, p, k + 1, off, perm), p + k + 1, n - k - 1, v, q);
  }

  lemma ReserveAt(leaf: map<nat, Leaf>, p: nat, n: nat, v: nat, q: nat)
    ensures var r := Reserve(leaf, p, n, v);
            (q in r <==> Within(q, p, n) || q in leaf)
            && (q in r ==> r[q] == if Within(q, p, n) then Lazy(v) else leaf[q])
  {
  }

  lemma PopulateNone(leaf: map<nat, Leaf>, p: nat, off: nat, perm: Perm)
    ensures Populate(leaf, p, 0, off, perm) == leaf
  {
  }

  lemma PopulateAt(leaf: map<nat, Leaf>, p: nat, n: nat, off: nat, perm: Perm, q: nat)
    ensures var r := Populate(leaf, p, n, off, perm);
            (q in r <==> Within(q, p, n) || q in leaf)
            && (q in r ==> r[q] == if Within(q, p, n) then Mapped(q + off, perm) else leaf[q])
  {
  }

  // do_mmap: the checks, and the ceiling the break may grow to.
  ghost function DoMmap(s: Flat, addr: nat, len: nat, prot: Prot, priv: bool, fixed: bool, populate: bool,
                        offset: nat): (Flat, int)
    requires Inv(s)
  {
    if !priv || len == 0 || offset % PGSIZE != 0 then (s, EINVAL)
    else
      var r := Mmap(s, addr, len, prot, fixed, populate);
      if r.addr.None? then (r.s, -1)
      else (if r.addr.value < r.s.brkMax then r.s.(brkMax := r.addr.value) else r.s, r.addr.value)
  }

  function DoMunmap(s: Flat, addr: nat, len: nat): (Flat, int) {
    if addr % PGSIZE != 0 || !ValidUserRange(s, addr, len) then (s, EINVAL)
    else (s.(leaf := Munmapped(s.leaf, addr / PGSIZE, Pages(len))), 0)
  }

  // The break, and the page it is rounded up to.
  function NewBrk(s: Flat, addr: nat): nat {
    if addr < s.brkMin then s.brkMin else if addr > s.brkMax then s.brkMax else addr
  }

  function StartBrk(s: Flat): nat {
    if s.brk == 0 then RoundUp(s.brkMin) else s.brk
  }

  // __do_brk; None when the kassert on the mapping fails.
  ghost function Brk(s: Flat, addr: nat): Option<(Flat, nat)>
    requires Inv(s)
  {
    var newbrk := NewBrk(s, addr);
    var brk, top := StartBrk(s), RoundUp(newbrk);
    if brk > top then
      Some((s.(leaf := Munmapped(s.leaf, top / PGSIZE, Pages(brk - top)), brk := top), newbrk))
    else if brk < top then
      var r := Mmap(s, brk, top - brk, ALL, true, false);
      if r.addr.None? then None else Some((r.s.(brk := top), newbrk))
    else Some((s.(brk := top), newbrk))
  }

  // The loop of do_mprotect from address a to end.
  function MprotectFrom(s: Flat, a: nat, end: nat, prot: Prot): (r: (Flat, int))
    requires |s.prots| == MAX_VMR
    ensures |r.0.prots| == MAX_VMR
    decreases end - a
  {
    if a >= end then (s, 0)
    else
      var p := Vpn(a);
      if p !in s.leaf then (s, ENOMEM)
      else
        var next := ProtectPage(s, p, prot);
        if next.None? then (s, EACCES) else MprotectFrom(next.value, a + PGSIZE, end, prot)
  }

  // A lazy region may only lose protection bits.
  predicate Gains(have: Prot, want: Prot) { (have ^ want) & !have != 0 }

  // One page: a lazy page changes its whole region, and neither kind may gain
  // a permission.
  function ProtectPage(s: Flat, p: nat, prot: Prot): (r: Option<Flat>)
    requires |s.prots| == MAX_VMR && p in s.leaf
    ensures r.Some? ==> |r.value.prots| == MAX_VMR
  {
    match s.leaf[p]
    case Lazy(v) =>
      if v >= MAX_VMR || Gains(s.prots[v], prot) then None
      else Some(s.(prots := s.prots[v := prot]))
    case Mapped(ppn, perm) =>
      if !perm.u || (Has(prot, READ) && !perm.r) || (Has(prot, WRITE) && !perm.w) || (Has(prot, EXEC) && !perm.x) then
        None
      else Some(s.(leaf := s.leaf[p := Mapped(ppn, ProtToType(prot, true))]))
  }

  // Addresses are 64 bits: a range that wraps is empty.
  function DoMprotect(s: Flat, addr: nat, len: nat, prot: Prot): (Flat, int)
    requires |s.prots| == MAX_VMR
  {
    if addr % PGSIZE != 0 then (s, EINVAL)
    else MprotectFrom(s, addr, (addr + len) % WORD, prot)
  }
}
