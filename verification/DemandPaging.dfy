// Demand paging is invisible: what a process can see does not depend on
// which of its pages have been faulted in, nor on whether mappings are
// filled at once.
module DemandPaging {
  import opened PageTable
  import opened FlatVm
  import opened VmRuns

  // What a page holds for the process: its translation and bytes, or those it
  // will get on the first access.
  datatype Seen = Seen(leaf: Leaf, page: Page)

  function SeenAt(s: Flat, p: nat): Seen
    requires p in s.leaf
  {
    match s.leaf[p]
    case Lazy(v) => Fresh(s.off, p, if v < |s.prots| then s.prots[v] else 0)
    case Mapped(_, _) => Seen(s.leaf[p], if p < |s.frames| then s.frames[p] else [])
  }

  function Fresh(off: nat, p: nat, prot: Prot): Seen {
    Seen(Mapped(p + off, ProtToType(prot, true)), Zeros())
  }

  ghost predicate Alike(s: Flat, t: Flat) {
    && s.brkMin == t.brkMin && s.brk == t.brk && s.brkMax == t.brkMax && s.mmapMax == t.mmapMax && s.off == t.off
    && |s.frames| == |t.frames| && s.leaf.Keys == t.leaf.Keys
    && (forall p <- s.leaf :: SeenAt(s, p) == SeenAt(t, p))
  }

  // ---- page faults ----

  lemma FaultInAlike(s: Flat, p: nat)
    requires Inv(s) && p in s.leaf && s.leaf[p].Lazy? && p < DRAM_PAGE && p < |s.frames|
    ensures Alike(FaultIn(s, p), s)
  {
    hide ProtToType;
    var f := FaultIn(s, p);
    forall q <- s.leaf ensures SeenAt(f, q) == SeenAt(s, q) {
      if q == p {
        assert f.frames[p] == Zeros();
      }
    }
  }

  lemma FaultAlike(s: Flat, vaddr: nat, prot: Prot)
    requires Inv(s)
    ensures Alike(Fault(s, vaddr, prot).0, s)
  {
    hide ProtToType;
    var p := vaddr / PGSIZE;
    if p in s.leaf && p * PGSIZE + 1 <= s.mmapMax && s.leaf[p].Lazy? {
      FramesBound(s);
      FaultInAlike(s, p);
    }
  }

  lemma FaultSame(s: Flat, t: Flat, vaddr: nat, prot: Prot)
    requires Inv(s) && Inv(t) && Alike(s, t)
    ensures Fault(s, vaddr, prot).1 == Fault(t, vaddr, prot).1
    ensures Alike(Fault(s, vaddr, prot).0, Fault(t, vaddr, prot).0)
  {
    hide ProtToType;
    hide Inv;
    FaultAlike(s, vaddr, prot);
    FaultAlike(t, vaddr, prot);
    var p := vaddr / PGSIZE;
    if p in s.leaf && p * PGSIZE + 1 <= s.mmapMax {
      FaultSees(s, vaddr, prot);
      FaultSees(t, vaddr, prot);
    }
  }

  // The verdict of a fault depends on what is seen only.
  lemma FaultSees(s: Flat, vaddr: nat, prot: Prot)
    requires Inv(s) && vaddr / PGSIZE in s.leaf && vaddr / PGSIZE * PGSIZE + 1 <= s.mmapMax
    ensures SeenAt(s, vaddr / PGSIZE).leaf.Mapped?
    ensures Fault(s, vaddr, prot).1
         == if Covers(SeenAt(s, vaddr / PGSIZE).leaf.perm, ProtToType(prot, true)) then 0 else -1
  {
    hide ProtToType;
  }

  lemma PokeSame(s: Flat, t: Flat, vaddr: nat, byte: bv8)
    requires Inv(s) && Inv(t) && Alike(s, t)
    requires vaddr / PGSIZE < |s.frames| && vaddr / PGSIZE in s.leaf && s.leaf[vaddr / PGSIZE].Mapped?
             && t.leaf[vaddr / PGSIZE].Mapped?
    ensures |s.frames[vaddr / PGSIZE]| == PGSIZE == |t.frames[vaddr / PGSIZE]|
    ensures Alike(Poke(s, vaddr, byte), Poke(t, vaddr, byte))
  {
    hide ProtToType;
    var p := vaddr / PGSIZE;
    assert SeenAt(s, p) == SeenAt(t, p);
    var s', t' := Poke(s, vaddr, byte), Poke(t, vaddr, byte);
    forall q <- s.leaf ensures SeenAt(s', q) == SeenAt(t', q) {
      assert SeenAt(s, q) == SeenAt(t, q);
    }
  }

  // ---- mapping and unmapping ----

  // Either way of mapping shows zeros under the new protection, and nothing
  // else changes.
  lemma MappingSees(s: Flat, p: nat, n: nat, v: nat, prot: Prot, eager: bool, q: nat)
    requires Inv(s) && v < MAX_VMR && !Used(s.leaf, v) && (eager ==> p + n <= |s.frames|)
    ensures var m := Mapping(s, p, n, v, prot, eager);
            && (q in m.leaf <==> Within(q, p, n) || q in s.leaf)
            && (q in m.leaf ==> SeenAt(m, q) == if Within(q, p, n) then Fresh(s.off, q, prot) else SeenAt(s, q))
  {
    hide ProtToType;
    hide Reserve;
    hide Populate;
    ReserveAt(s.leaf, p, n, v, q);
    PopulateAt(s.leaf, p, n, s.off, ProtToType(prot, true), q);
    var m := Mapping(s, p, n, v, prot, eager);
    if q in m.leaf && !Within(q, p, n) {
      assert s.leaf[q] != Lazy(v);
    }
  }

  lemma MappingSame(s: Flat, t: Flat, p: nat, n: nat, v: nat, w: nat, prot: Prot, sEager: bool, tEager: bool)
    requires Inv(s) && Inv(t) && Alike(s, t) && (sEager || tEager ==> p + n <= |s.frames|)
    requires v < MAX_VMR && w < MAX_VMR && !Used(s.leaf, v) && !Used(t.leaf, w)
    ensures Alike(Mapping(s, p, n, v, prot, sEager), Mapping(t, p, n, w, prot, tEager))
  {
    var ms, mt := Mapping(s, p, n, v, prot, sEager), Mapping(t, p, n, w, prot, tEager);
    MappingRest(s, p, n, v, prot, sEager);
    MappingRest(t, p, n, w, prot, tEager);
    hide Inv;
    hide Mapping;
    hide Fresh;
    hide SeenAt;
    hide Used;
    forall q: nat
      ensures q in ms.leaf <==> q in mt.leaf
      ensures q in ms.leaf ==> SeenAt(ms, q) == SeenAt(mt, q)
    {
      MappingSees(s, p, n, v, prot, sEager, q);
      MappingSees(t, p, n, w, prot, tEager, q);
    }
    assert ms.leaf.Keys == mt.leaf.Keys;
  }

  lemma MappingRest(s: Flat, p: nat, n: nat, v: nat, prot: Prot, eager: bool)
    requires |s.prots| == MAX_VMR && v < MAX_VMR
    ensures var m := Mapping(s, p, n, v, prot, eager);
            m == s.(leaf := m.leaf, prots := m.prots, frames := m.frames) && |m.frames| == |s.frames|
  {
  }

  // The address search looks at which pages are in use only.
  lemma {:induction false} SearchSame(s: Flat, t: Flat, n: nat, a: nat)
    requires s.leaf.Keys == t.leaf.Keys && s.mmapMax == t.mmapMax
    ensures SearchFrom(s, n, a) == SearchFrom(t, n, a)
    decreases SearchEnd(s.mmapMax, n) + PGSIZE - a
  {
    WindowSame(s, t, a / PGSIZE, n);
    if a <= SearchEnd(s.mmapMax, n) && !Window(s.leaf, a / PGSIZE, n) {
      SearchSame(s, t, n, a + PGSIZE);
    }
  }

  lemma WindowSame(s: Flat, t: Flat, p: nat, n: nat)
    requires s.leaf.Keys == t.leaf.Keys
    ensures Window(s.leaf, p, n) == Window(t.leaf, p, n)
  {
    assert forall q :: q in s.leaf <==> q in s.leaf.Keys;
    assert forall q :: q in t.leaf <==> q in t.leaf.Keys;
  }

  // So do the questions asked before a mapping is made.
  lemma PlaceSame(s: Flat, t: Flat, addr: nat, len: nat, fixed: bool)
    requires Alike(s, t)
    ensures Placed(s, addr, len, fixed) == Placed(t, addr, len, fixed)
    ensures Placeable(s, addr, len, fixed) == Placeable(t, addr, len, fixed)
    ensures Overlong(s, len, fixed) == Overlong(t, len, fixed)
    ensures InSpace(s, Pages(len)) == InSpace(t, Pages(len))
  {
    hide SearchFrom;
    hide SeenAt;
    hide Window;
    SearchSame(s, t, Pages(len), s.brk);
    forall p: nat ensures Window(s.leaf, p, Pages(len)) == Window(t.leaf, p, Pages(len)) {
      WindowSame(s, t, p, Pages(len));
    }
  }

  // ---- regions ----

  ghost predicate Spare(s: Flat) { FirstUnused(s.leaf, 0) < MAX_VMR }

  // Regions that some page refers to.
  ghost function UsedSlots(leaf: map<nat, Leaf>): set<nat> { set v | 0 <= v < MAX_VMR && Used(leaf, v) }

  lemma SpareSlots(s: Flat)
    requires |UsedSlots(s.leaf)| < MAX_VMR
    ensures Spare(s)
  {
    if !Spare(s) {
      assert forall v | 0 <= v < MAX_VMR :: Used(s.leaf, v);
      assert UsedSlots(s.leaf) == Range(0, MAX_VMR);
      RangeSize(0, MAX_VMR);
    }
  }

  // Regions are released but none is taken.
  ghost predicate NoNewLazy(s: Flat, t: Flat) {
    forall q <- t.leaf :: t.leaf[q].Lazy? ==> q in s.leaf && s.leaf[q] == t.leaf[q]
  }

  lemma SlotsFall(s: Flat, t: Flat)
    requires NoNewLazy(s, t)
    ensures |UsedSlots(t.leaf)| <= |UsedSlots(s.leaf)|
  {
    forall v | v in UsedSlots(t.leaf) ensures v in UsedSlots(s.leaf) {
      var q :| q in t.leaf && t.leaf[q] == Lazy(v);
      assert s.leaf[q] == Lazy(v);
    }
    SubsetSize(UsedSlots(t.leaf), UsedSlots(s.leaf));
  }

  // A mapping takes one region, unless it is filled at once.
  lemma MapSlots(s: Flat, p: nat, n: nat, v: nat, prot: Prot, eager: bool)
    requires |s.prots| == MAX_VMR && v < MAX_VMR
    ensures |UsedSlots(Mapping(s, p, n, v, prot, eager).leaf)| <= |UsedSlots(s.leaf)| + if eager then 0 else 1
  {
    hide ProtToType;
    var m := Mapping(s, p, n, v, prot, eager);
    var extra := if eager then {} else {v};
    forall x | x in UsedSlots(m.leaf) ensures x in UsedSlots(s.leaf) + extra {
      var q :| q in m.leaf && m.leaf[q] == Lazy(x);
      ReserveAt(s.leaf, p, n, v, q);
      PopulateAt(s.leaf, p, n, s.off, ProtToType(prot, true), q);
      assert x != v || eager ==> q in s.leaf && s.leaf[q] == Lazy(x);
    }
    SubsetSize(UsedSlots(m.leaf), UsedSlots(s.leaf) + extra);
  }

  lemma MmapSlots(s: Flat, addr: nat, len: nat, prot: Prot, fixed: bool, populate: bool)
    requires Inv(s)
    ensures |UsedSlots(Mmap(s, addr, len, prot, fixed, populate).s.leaf)|
         <= |UsedSlots(s.leaf)| + if s.demand then 1 else 0
  {
    hide Inv;
    hide Mapping;
    hide UsedSlots;
    hide Placeable;
    hide MmapPanics;
    ProtsSize(s);
    var r := Mmap(s, addr, len, prot, fixed, populate);
    if r.addr.Some? {
      MapSlots(s, r.addr.value / PGSIZE, Pages(len), FirstUnused(s.leaf, 0), prot, populate || !s.demand);
    }
  }

  // How many regions a step takes.
  lemma StepSlots(s: Flat, op: Op)
    requires Inv(s)
    ensures |UsedSlots(Step(s, op).0.leaf)|
         <= |UsedSlots(s.leaf)| + if s.demand && (op.OpMmap? || op.OpBrk?) then 1 else 0
  {
    hide Inv;
    hide UsedSlots;
    hide Mmap;
    hide MprotectFrom;
    hide ProtToType;
    hide Covers;
    match op
    case OpMmap(addr, len, prot, _, fixed, populate, _) => MmapSlots(s, addr, len, prot, fixed, populate);
    case OpMunmap(addr, len) => SlotsFall(s, Step(s, op).0);
    case OpBrk(addr) =>
      var brk, top := StartBrk(s), RoundUp(NewBrk(s, addr));
      if brk < top {
        MmapSlots(s, brk, top - brk, ALL, true, false);
      } else {
        SlotsFall(s, Step(s, op).0);
      }
    case OpMprotect(addr, len, prot) =>
      ProtsSize(s);
      MprotectNoNew(s, addr, (addr + len) % WORD, prot);
      SlotsFall(s, Step(s, op).0);
    case OpLoad(_, _) => SlotsFall(s, Step(s, op).0);
    case OpStore(_, _) => SlotsFall(s, Step(s, op).0);
  }

  lemma {:induction false} MprotectNoNew(s: Flat, a: nat, end: nat, prot: Prot)
    requires |s.prots| == MAX_VMR
    ensures NoNewLazy(s, MprotectFrom(s, a, end, prot).0)
    decreases end - a
  {
    hide Gains;
    hide ProtToType;
    if a < end && Vpn(a) in s.leaf && ProtectPage(s, Vpn(a), prot).Some? {
      MprotectNoNew(ProtectPage(s, Vpn(a), prot).value, a + PGSIZE, end, prot);
    }
  }

  lemma MmapSame(s: Flat, t: Flat, addr: nat, len: nat, prot: Prot, fixed: bool, populate: bool)
    requires Inv(s) && Inv(t) && Alike(s, t) && (Placeable(s, addr, len, fixed) ==> Spare(s) && Spare(t))
    requires fixed || (0 < len && InSpace(s, Pages(len)))
    requires Placeable(s, addr, len, fixed) && Overlong(s, len, fixed) ==> populate || s.demand == t.demand
    ensures Mmap(s, addr, len, prot, fixed, populate).addr == Mmap(t, addr, len, prot, fixed, populate).addr
    ensures Alike(Mmap(s, addr, len, prot, fixed, populate).s, Mmap(t, addr, len, prot, fixed, populate).s)
    ensures MmapPanics(s, addr, len, fixed, populate) == MmapPanics(t, addr, len, fixed, populate)
  {
    hide Inv;
    hide Placed;
    hide Placeable;
    hide InSpace;
    hide Mapping;
    hide Pages;
    hide Alike;
    hide Mappable;
    PlaceSame(s, t, addr, len, fixed);
    ProtsSize(s);
    ProtsSize(t);
    AlikeTop(s, t);
    var a := Placed(s, addr, len, fixed);
    if Mmap(s, addr, len, prot, fixed, populate).addr.Some? {
      MmapRange(s, addr, len, prot, fixed, populate);
      MmapRange(t, addr, len, prot, fixed, populate);
      MappingSame(s, t, a / PGSIZE, Pages(len), FirstUnused(s.leaf, 0), FirstUnused(t.leaf, 0), prot,
                  populate || !s.demand, populate || !t.demand);
    }
  }

  lemma MunmapSame(s: Flat, t: Flat, p: nat, n: nat)
    requires Alike(s, t)
    ensures Alike(s.(leaf := Munmapped(s.leaf, p, n)), t.(leaf := Munmapped(t.leaf, p, n)))
  {
    hide ProtToType;
    hide Fresh;
    var s', t' := s.(leaf := Munmapped(s.leaf, p, n)), t.(leaf := Munmapped(t.leaf, p, n));
    forall q: nat
      ensures q in s'.leaf <==> q in t'.leaf
      ensures q in s'.leaf ==> SeenAt(s', q) == SeenAt(t', q)
    {
      assert q in s.leaf.Keys <==> q in t.leaf.Keys;
      if q in s'.leaf {
        assert SeenAt(s, q) == SeenAt(t, q);
      }
    }
    assert s'.leaf.Keys == t'.leaf.Keys;
  }

  lemma SetBrkSame(s: Flat, t: Flat, brk: nat)
    requires Alike(s, t)
    ensures Alike(s.(brk := brk), t.(brk := brk)) && Alike(s.(brkMax := brk), t.(brkMax := brk))
  {
    forall q <- s.leaf
      ensures SeenAt(s.(brk := brk), q) == SeenAt(t.(brk := brk), q)
      ensures SeenAt(s.(brkMax := brk), q) == SeenAt(t.(brkMax := brk), q)
    {
      assert SeenAt(s, q) == SeenAt(t, q);
    }
  }

  // Does growing the break make a mapping?
  predicate BrkMaps(s: Flat, addr: nat) {
    var brk, top := StartBrk(s), RoundUp(NewBrk(s, addr));
    brk < top && ValidUserRange(s, brk, top - brk)
  }

  lemma BrkSame(s: Flat, t: Flat, addr: nat)
    requires Inv(s) && Inv(t) && Alike(s, t) && (BrkMaps(s, addr) ==> Spare(s) && Spare(t))
    ensures match (Brk(s, addr), Brk(t, addr)) {
              case (Some(x), Some(y)) => Alike(x.0, y.0) && x.1 == y.1
              case (None, None) => true
              case _ => false
            }
  {
    hide Inv;
    hide Mmap;
    hide Munmapped;
    hide Pages;
    hide RoundUp;
    hide SeenAt;
    var brk, top := StartBrk(s), RoundUp(NewBrk(s, addr));
    if brk > top {
      MunmapSame(s, t, top / PGSIZE, Pages(brk - top));
      var m, n := Munmapped(s.leaf, top / PGSIZE, Pages(brk - top)), Munmapped(t.leaf, top / PGSIZE, Pages(brk - top));
      SetBrkSame(s.(leaf := m), t.(leaf := n), top);
    } else if brk < top {
      MmapSame(s, t, brk, top - brk, ALL, true, false);
      SetBrkSame(Mmap(s, brk, top - brk, ALL, true, false).s, Mmap(t, brk, top - brk, ALL, true, false).s, top);
    } else {
      SetBrkSame(s, t, top);
    }
  }

  // ---- one operation ----

  // Does the operation make a mapping?
  ghost predicate Maps(s: Flat, op: Op) {
    match op
    case OpMmap(addr, len, _, _, fixed, _, _) => Asks(op) && Placeable(s, addr, len, fixed)
    case OpBrk(addr) => BrkMaps(s, addr)
    case _ => false
  }

  // A mapping that is not filled at once fits in user memory.
  ghost predicate Sized(s: Flat, op: Op) { op.OpMmap? && !op.populate ==> !Overlong(s, op.len, op.fixed) }

  // What makes an operation the same in a lazy and an eager kernel: if it
  // maps, a region is free and the pages fit.
  ghost predicate Plain(s: Flat, op: Op) { Maps(s, op) ==> Spare(s) && Sized(s, op) }

  lemma AskSame(s: Flat, t: Flat, op: Op)
    requires Alike(s, t)
    ensures Maps(s, op) == Maps(t, op) && Sized(s, op) == Sized(t, op) && Followed(s, op) == Followed(t, op)
  {
    hide Placeable;
    hide InSpace;
    hide Pages;
    hide SeenAt;
    if op.OpMmap? {
      PlaceSame(s, t, op.addr, op.len, op.fixed);
    }
  }

  lemma DoMmapSame(s: Flat, t: Flat, op: Op)
    requires Inv(s) && Inv(t) && Alike(s, t) && op.OpMmap? && Plain(s, op) && Plain(t, op)
    ensures Step(s, op).1 == Step(t, op).1 && Alike(Step(s, op).0, Step(t, op).0)
  {
    hide Inv;
    hide Mmap;
    hide MmapPanics;
    hide Placeable;
    hide InSpace;
    hide Pages;
    hide SeenAt;
    AskSame(s, t, op);
    if Asks(op) && Followed(s, op) {
      PlaceSame(s, t, op.addr, op.len, op.fixed);
      MmapSame(s, t, op.addr, op.len, op.prot, op.fixed, op.populate);
      var x := Mmap(s, op.addr, op.len, op.prot, op.fixed, op.populate);
      var y := Mmap(t, op.addr, op.len, op.prot, op.fixed, op.populate);
      SetBrkSame(x.s, y.s, if x.addr.Some? then x.addr.value else 0);
    }
  }

  lemma AccessSame(s: Flat, t: Flat, op: Op)
    requires Inv(s) && Inv(t) && Alike(s, t) && (op.OpLoad? || op.OpStore?)
    ensures Step(s, op).1 == Step(t, op).1 && Alike(Step(s, op).0, Step(t, op).0)
  {
    hide Inv;
    hide Fault;
    hide ProtToType;
    hide Covers;
    var kind := if op.OpLoad? then op.kind else WRITE;
    FaultSame(s, t, op.vaddr, kind);
    var x, y := Fault(s, op.vaddr, kind), Fault(t, op.vaddr, kind);
    if x.1 == 0 {
      var p := op.vaddr / PGSIZE;
      FaultInBounds(s, op.vaddr, kind);
      FaultInBounds(t, op.vaddr, kind);
      assert SeenAt(x.0, p) == SeenAt(y.0, p);
      if op.OpStore? {
        PokeSame(x.0, y.0, op.vaddr, op.byte);
      }
    }
  }

  // One operation other than mprotect: same outcome, still alike.
  lemma StepSame(s: Flat, t: Flat, op: Op)
    requires Inv(s) && Inv(t) && Alike(s, t) && !op.OpMprotect? && Plain(s, op) && Plain(t, op)
    ensures Step(s, op).1 == Step(t, op).1 && Alike(Step(s, op).0, Step(t, op).0)
  {
    hide Inv;
    hide Alike;
    hide Spare;
    hide BrkMaps;
    hide Placeable;
    match op
    case OpMmap(_, _, _, _, _, _, _) => DoMmapSame(s, t, op);
    case OpMunmap(addr, len) =>
      AlikeTop(s, t);
      MunmapSame(s, t, addr / PGSIZE, Pages(len));
    case OpBrk(addr) =>
      AskSame(s, t, op);
      BrkSame(s, t, addr);
    case OpLoad(_, _) => AccessSame(s, t, op);
    case OpStore(_, _) => AccessSame(s, t, op);
  }

  lemma AlikeTop(s: Flat, t: Flat)
    requires Alike(s, t)
    ensures s.mmapMax == t.mmapMax && |s.frames| == |t.frames|
  {
  }

  // The eager kernel: mappings are filled at once, and what is still lazy
  // from before does not use up the regions.
  ghost predicate Eager(t: Flat) { !t.demand && |UsedSlots(t.leaf)| < MAX_VMR }

  // Otherwise the outcomes differ.  With no region free the lazy kernel is
  // refused a mapping that the eager one gets; a mapping past user memory is
  // made by the lazy kernel, and fails a kassert in the eager one.
  lemma StepDiffers(s: Flat, t: Flat, op: Op)
    requires Inv(s) && Inv(t) && Alike(s, t) && s.demand && Eager(t) && Followed(s, op) && !Plain(s, op)
    ensures Step(s, op).1 != Step(t, op).1
    ensures Spare(s) ==> Step(s, op).1 == Code(SearchFrom(s, Pages(op.len), s.brk)) && Step(t, op).1 == Panic
  {
    hide Inv;
    hide Alike;
    hide InSpace;
    hide SearchFrom;
    hide Mapping;
    hide UsedSlots;
    hide RoundUp;
    AskSame(s, t, op);
    SpareSlots(t);
    match op
    case OpMmap(addr, len, _, _, fixed, _, _) => PlaceSame(s, t, addr, len, fixed);
    case OpBrk(addr) =>
      AlikeBrk(s, t);
      StartBrkBound(s);
  }

  lemma AlikeBrk(s: Flat, t: Flat)
    requires Alike(s, t)
    ensures s.brk == t.brk && s.brkMin == t.brkMin && s.brkMax == t.brkMax && s.mmapMax == t.mmapMax
  {
  }

  // So an operation other than mprotect is transparent exactly when it is
  // plain.
  lemma StepExact(s: Flat, t: Flat, op: Op)
    requires Inv(s) && Inv(t) && Alike(s, t) && s.demand && Eager(t) && Followed(s, op) && !op.OpMprotect?
    ensures Step(s, op).1 == Step(t, op).1 <==> Plain(s, op)
    ensures Plain(s, op) ==> Alike(Step(s, op).0, Step(t, op).0)
  {
    hide Step;
    hide Inv;
    hide Alike;
    hide Maps;
    hide Spare;
    if Plain(s, op) {
      AskSame(s, t, op);
      SpareSlots(t);
      StepSame(s, t, op);
    } else {
      StepDiffers(s, t, op);
    }
  }

  // ---- runs ----

  // What the process sees of a run, up to where the kernel stops.
  ghost function Outcomes(s: Flat, ops: seq<Op>): seq<Outcome>
    requires Inv(s)
    decreases |ops|
  {
    if ops == [] then []
    else
      StepInv(s, ops[0]);
      var (s', o) := Step(s, ops[0]);
      [o] + if Stops(o) then [] else Outcomes(s', ops[1..])
  }

  // Every operation of the run is plain where it comes.
  ghost predicate PlainRun(s: Flat, ops: seq<Op>)
    requires Inv(s)
    decreases |ops|
  {
    ops == [] ||
    (&& Plain(s, ops[0])
     && (Stops(Step(s, ops[0]).1) || (StepInv(s, ops[0]); PlainRun(Step(s, ops[0]).0, ops[1..]))))
  }

  predicate NoMprotect(ops: seq<Op>) { forall op <- ops :: !op.OpMprotect? }

  // Whatever the two states have faulted in already, and whether or not they
  // fill mappings at once, a run gives the same results, bytes and faults.
  lemma {:induction false} Transparent(s: Flat, t: Flat, ops: seq<Op>)
    requires Inv(s) && Inv(t) && Alike(s, t) && NoMprotect(ops) && PlainRun(s, ops) && PlainRun(t, ops)
    ensures Outcomes(s, ops) == Outcomes(t, ops) && Alike(Run(s, ops), Run(t, ops))
    decreases |ops|
  {
    hide Inv;
    hide Alike;
    hide Step;
    hide Plain;
    if ops != [] {
      assert ops[0] in ops && forall op <- ops[1..] :: op in ops;
      StepInv(s, ops[0]);
      StepInv(t, ops[0]);
      StepSame(s, t, ops[0]);
      if !Stops(Step(s, ops[0]).1) {
        Transparent(Step(s, ops[0]).0, Step(t, ops[0]).0, ops[1..]);
      }
    }
  }

  lemma EagerStep(t: Flat, op: Op)
    requires Inv(t) && Eager(t)
    ensures Eager(Step(t, op).0)
  {
    hide Step;
    hide Inv;
    hide UsedSlots;
    StepSlots(t, op);
    StepConstants(t, op);
  }

  // The exact condition: a lazy run shows the same outcomes as an eager one
  // from a state that looks the same if and only if it is plain.
  lemma {:induction false} TransparentExact(s: Flat, t: Flat, ops: seq<Op>)
    requires Inv(s) && Inv(t) && Alike(s, t) && s.demand && Eager(t) && NoMprotect(ops)
    requires Lost !in Outcomes(t, ops)
    ensures Outcomes(s, ops) == Outcomes(t, ops) <==> PlainRun(s, ops)
    ensures PlainRun(s, ops) ==> Alike(Run(s, ops), Run(t, ops))
    decreases |ops|
  {
    hide Inv;
    hide Alike;
    hide Step;
    hide Plain;
    hide Eager;
    if ops != [] {
      assert ops[0] in ops && forall op <- ops[1..] :: op in ops;
      var (s', o) := Step(s, ops[0]);
      var (t', q) := Step(t, ops[0]);
      StepInv(s, ops[0]);
      StepInv(t, ops[0]);
      EagerStep(t, ops[0]);
      StepConstants(s, ops[0]);
      assert Outcomes(t, ops)[0] == q && Outcomes(s, ops)[0] == o;
      LostStep(t, ops[0]);
      AskSame(s, t, ops[0]);
      StepExact(s, t, ops[0]);
      if o == q && !Stops(o) {
        assert Outcomes(t, ops)[1..] == Outcomes(t', ops[1..]) && Outcomes(s, ops)[1..] == Outcomes(s', ops[1..]);
        TransparentExact(s', t', ops[1..]);
        assert Outcomes(s, ops) == [o] + Outcomes(s', ops[1..]);
      }
    }
  }

  lemma LostStep(t: Flat, op: Op)
    requires Inv(t)
    ensures Step(t, op).1 == Lost <==> !Followed(t, op)
  {
    hide Inv;
    hide InSpace;
    hide MmapPanics;
    hide Fault;
    hide DoMmap;
    hide Brk;
    hide DoMprotect;
  }

  // ---- conditions a caller can see ----

  // Mappings and growths of the break that a run asks for.
  function Requests(ops: seq<Op>): nat {
    if ops == [] then 0 else Requests(ops[1..]) + if ops[0].OpMmap? || ops[0].OpBrk? then 1 else 0
  }

  // No request is larger than user memory.
  predicate AllSized(ops: seq<Op>, mmapMax: nat) {
    forall op <- ops :: Asks(op) && !op.fixed ==> Pages(op.len) * PGSIZE <= mmapMax
  }

  // A run with a region for each request, none of them larger than user
  // memory, is plain, and never leaves what the model follows.
  lemma {:induction false} FewRequests(s: Flat, ops: seq<Op>)
    requires Inv(s) && AllSized(ops, s.mmapMax) && |UsedSlots(s.leaf)| + Requests(ops) <= MAX_VMR
    ensures PlainRun(s, ops) && Lost !in Outcomes(s, ops)
    decreases |ops|
  {
    hide Inv;
    hide Step;
    hide UsedSlots;
    hide Spare;
    hide BrkMaps;
    hide Placeable;
    if ops != [] {
      assert ops[0] in ops && forall op <- ops[1..] :: op in ops;
      LostStep(s, ops[0]);
      if ops[0].OpMmap? || ops[0].OpBrk? {
        SpareSlots(s);
      }
      if !Stops(Step(s, ops[0]).1) {
        StepInv(s, ops[0]);
        StepSlots(s, ops[0]);
        StepConstants(s, ops[0]);
        FewRequests(Step(s, ops[0]).0, ops[1..]);
      }
    }
  }

  // An eager run from states without pages above the kernel stays within
  // what the model follows, whatever it asks for below the rest of the space.
  lemma {:induction false} EagerFollowed(t: Flat, ops: seq<Op>)
    requires Inv(t) && Low(t) && !t.demand && forall op <- ops :: Asks(op) && !op.fixed ==> t.off + Pages(op.len) < VPNS
    ensures Lost !in Outcomes(t, ops)
    decreases |ops|
  {
    hide Inv;
    hide Step;
    hide Low;
    hide InSpace;
    if ops != [] {
      assert ops[0] in ops && forall op <- ops[1..] :: op in ops;
      LostStep(t, ops[0]);
      if Asks(ops[0]) && !ops[0].fixed {
        LowInSpace(t, Pages(ops[0].len));
      }
      if !Stops(Step(t, ops[0]).1) {
        StepInv(t, ops[0]);
        StepConstants(t, ops[0]);
        LowStep(t, ops[0]);
        EagerFollowed(Step(t, ops[0]).0, ops[1..]);
      }
    }
  }

  // An eager run needs no region for its requests.
  lemma {:induction false} EagerSized(t: Flat, ops: seq<Op>)
    requires Inv(t) && Eager(t) && AllSized(ops, t.mmapMax)
    ensures PlainRun(t, ops) && Lost !in Outcomes(t, ops)
    decreases |ops|
  {
    hide Inv;
    hide Step;
    hide UsedSlots;
    hide Spare;
    hide BrkMaps;
    hide Placeable;
    if ops != [] {
      assert ops[0] in ops && forall op <- ops[1..] :: op in ops;
      LostStep(t, ops[0]);
      SpareSlots(t);
      if !Stops(Step(t, ops[0]).1) {
        StepInv(t, ops[0]);
        EagerStep(t, ops[0]);
        StepConstants(t, ops[0]);
        EagerSized(Step(t, ops[0]).0, ops[1..]);
      }
    }
  }

  lemma LowStep(t: Flat, op: Op)
    requires Inv(t) && Low(t) && !t.demand
    ensures Low(Step(t, op).0)
  {
    hide Inv;
    hide ProtToType;
    hide MprotectFrom;
    hide Mmap;
    hide InSpace;
    match op
    case OpMmap(addr, len, prot, _, fixed, populate, _) =>
      if Asks(op) && Followed(t, op) {
        LowMmap(t, addr, len, prot, fixed, populate);
      }
    case OpBrk(addr) =>
      var brk, top := StartBrk(t), RoundUp(NewBrk(t, addr));
      if brk < top {
        LowMmap(t, brk, top - brk, ALL, true, false);
      }
    case OpMprotect(addr, len, prot) =>
      ProtsSize(t);
      MprotectConstants(t, addr, (addr + len) % WORD, prot);
      assert forall p :: p in t.leaf <==> p in t.leaf.Keys;
    case _ =>
  }

  lemma LowMmap(t: Flat, addr: nat, len: nat, prot: Prot, fixed: bool, populate: bool)
    requires Inv(t) && Low(t) && !t.demand && (fixed || (0 < len && InSpace(t, Pages(len))))
    ensures Low(Mmap(t, addr, len, prot, fixed, populate).s) && Mmap(t, addr, len, prot, fixed, populate).s.off == t.off
  {
    hide ProtToType;
    hide InSpace;
    hide Placed;
    hide Pages;
    FramesBound(t);
    var r := Mmap(t, addr, len, prot, fixed, populate);
    if r.addr.Some? {
      MmapRange(t, addr, len, prot, fixed, populate);
    }
  }
}
