// The program break: where brk puts it, what the pages between the old and
// the new one hold, and that it stays off the mappings above it.
module Break {
  import opened PageTable
  import opened FlatVm
  import opened VmRuns
  import opened DemandPaging
  import opened Access

  function Distance(x: nat, y: nat): nat { if x < y then y - x else x - y }

  // No address between brk_min and brk_max is nearer to what was asked for.
  ghost predicate Nearest(s: Flat, addr: nat, r: nat) {
    s.brkMin <= r <= s.brkMax && forall x | s.brkMin <= x <= s.brkMax :: Distance(addr, r) <= Distance(addr, x)
  }

  // The least page end from a up.
  predicate PageEnd(a: nat, top: nat) { top % PGSIZE == 0 && a <= top < a + PGSIZE }

  // The page end the break is at: before the first brk, that of the image.
  predicate BreakAt(s: Flat, b: nat) { if s.brk == 0 then PageEnd(s.brkMin, b) else b == s.brk }

  lemma NearestIs(s: Flat, addr: nat, r: nat)
    requires Nearest(s, addr, r)
    ensures NewBrk(s, addr) == r
    ensures s.brkMin <= addr <= s.brkMax ==> r == addr
  {
    var x := NewBrk(s, addr);
    assert Distance(addr, r) <= Distance(addr, x);
  }

  lemma NewBrkNearest(s: Flat, addr: nat)
    requires s.brkMin <= s.brkMax
    ensures Nearest(s, addr, NewBrk(s, addr))
  {
  }

  lemma PageEndIs(a: nat, top: nat)
    ensures PageEnd(a, top) <==> top == RoundUp(a)
  {
  }

  lemma BreakIs(s: Flat, b: nat)
    requires Inv(s) && BreakAt(s, b)
    ensures b == StartBrk(s) && b % PGSIZE == 0
  {
    PageEndIs(s.brkMin, b);
  }

  // ---- what brk does ----

  predicate Between(q: nat, a: nat, b: nat) { a <= q * PGSIZE < b }

  // The break moves to the nearest address that is allowed, and to that asked
  // for if it is.  The kernel asserts exactly when the growth does not fit
  // below mmap_max or no region is free.
  lemma BrkExact(s: Flat, addr: nat, b: nat, r: nat, top: nat)
    requires Inv(s) && Nearest(s, addr, r) && BreakAt(s, b) && PageEnd(r, top)
    ensures s.brkMin <= addr <= s.brkMax ==> r == addr
    ensures Step(s, OpBrk(addr)).1 ==
            if b < top && !(top <= s.mmapMax && RegionFree(s)) then Panic else Code(r)
    ensures Step(s, OpBrk(addr)).1.Code? ==>
              var t := Step(s, OpBrk(addr)).0;
              t.brk == top && t == s.(leaf := t.leaf, prots := t.prots, frames := t.frames, brk := t.brk)
  {
    hide Inv;
    hide Mapping;
    hide Munmapped;
    NearestIs(s, addr, r);
    BreakIs(s, b);
    PageEndIs(r, top);
    hide RoundUp;
    hide Nearest;
    if b < top {
      FixedExact(s, Growth(b, top));
      GrowthRest(s, b, top, 0);
    }
  }

  // Growing the break is this mapping, for all accesses.
  function Growth(b: nat, top: nat): Op
    requires b <= top
  {
    OpMmap(b, top - b, ALL, true, true, false, 0)
  }

  lemma GrowthRest(s: Flat, b: nat, top: nat, q: nat)
    requires Inv(s) && b < top
    ensures var m := Mmap(s, b, top - b, ALL, true, false);
            && (m.addr.Some? <==> Step(s, Growth(b, top)).1 == Code(b))
            && (m.addr.None? <==> Step(s, Growth(b, top)).1 == Code(-1))
            && m.s == s.(leaf := m.s.leaf, prots := m.s.prots, frames := m.s.frames)
            && (m.addr.Some? ==>
                  var t := Step(s, Growth(b, top)).0;
                  t.leaf == m.s.leaf && (q in m.s.leaf ==> SeenAt(t, q) == SeenAt(m.s, q)))
  {
    hide Inv;
    hide Mapping;
    hide SeenAt;
    ProtsSize(s);
    var m := Mmap(s, b, top - b, ALL, true, false);
    LowerBrk(m.s, b, q);
    if m.addr.Some? {
      MappingRest(s, b / PGSIZE, Pages(top - b), FirstUnused(s.leaf, 0), ALL, !s.demand);
    }
  }

  // Growing, the new pages are fresh, for all accesses; shrinking, the pages
  // given up have no entry; every other page is seen as before.
  lemma BrkSees(s: Flat, addr: nat, b: nat, r: nat, top: nat, q: nat)
    requires Inv(s) && Nearest(s, addr, r) && BreakAt(s, b) && PageEnd(r, top)
    requires Step(s, OpBrk(addr)).1 == Code(r)
    ensures var t := Step(s, OpBrk(addr)).0;
            && Inv(t)
            && (Between(q, b, top) ==> q in t.leaf && SeenAt(t, q) == Fresh(s.off, q, ALL))
            && (Between(q, top, b) ==> q !in t.leaf)
            && (!Between(q, b, top) && !Between(q, top, b) ==>
                  (q in t.leaf <==> q in s.leaf) && (q in t.leaf ==> SeenAt(t, q) == SeenAt(s, q)))
  {
    hide Inv;
    hide Mapping;
    hide Fresh;
    StepInv(s, OpBrk(addr));
    NearestIs(s, addr, r);
    BreakIs(s, b);
    PageEndIs(r, top);
    BrkExact(s, addr, b, r, top);
    hide RoundUp;
    hide Nearest;
    if b < top {
      GrowthRest(s, b, top, q);
      FixedExact(s, Growth(b, top));
      MapSees(s, Growth(b, top), q);
      MeetsBetween(q, b, top);
      GrownIs(s, addr, b, top, q);
    } else if top < b {
      MeetsBetween(q, top, b);
      ShrunkSees(s, addr, b, top, q);
    } else {
      SetBrkSees(s, top, q);
    }
  }

  lemma MeetsBetween(q: nat, a: nat, b: nat)
    requires a % PGSIZE == 0 && b % PGSIZE == 0 && a <= b
    ensures Meets(q, a, b - a) <==> Between(q, a, b)
  {
  }

  lemma GrownIs(s: Flat, addr: nat, b: nat, top: nat, q: nat)
    requires Inv(s) && b == StartBrk(s) && top == RoundUp(NewBrk(s, addr)) && b < top
    requires Step(s, OpBrk(addr)).1.Code?
    ensures var t, m := Step(s, OpBrk(addr)).0, Mmap(s, b, top - b, ALL, true, false).s;
            t.leaf == m.leaf && (q in m.leaf ==> SeenAt(t, q) == SeenAt(m, q))
    ensures Mmap(s, b, top - b, ALL, true, false).addr.Some?
  {
    hide Inv;
    hide Mmap;
    hide ProtToType;
  }

  lemma ShrunkSees(s: Flat, addr: nat, b: nat, top: nat, q: nat)
    requires Inv(s) && b == StartBrk(s) && top == RoundUp(NewBrk(s, addr)) && top < b && top % PGSIZE == 0
    ensures var t := Step(s, OpBrk(addr)).0;
            && (q in t.leaf <==> q in s.leaf && !Meets(q, top, b - top))
            && (q in t.leaf ==> SeenAt(t, q) == SeenAt(s, q))
  {
    hide Inv;
    hide ProtToType;
    hide RoundUp;
    hide StartBrk;
    hide NewBrk;
    hide Pages;
    MeetsPages(q, top, b - top);
  }

  lemma SetBrkSees(s: Flat, brk: nat, q: nat)
    ensures q in s.leaf ==> SeenAt(s.(brk := brk), q) == SeenAt(s, q)
  {
    hide ProtToType;
  }

  // So the new part of the heap reads as zeros and can be written and run.
  lemma HeapAccess(s: Flat, addr: nat, b: nat, r: nat, top: nat, vaddr: nat, byte: bv8)
    requires Inv(s) && Nearest(s, addr, r) && BreakAt(s, b) && PageEnd(r, top)
    requires Step(s, OpBrk(addr)).1 == Code(r) && b <= vaddr < top
    ensures var t := Step(s, OpBrk(addr)).0;
            && Inv(t)
            && Step(t, OpLoad(vaddr, READ)).1 == Step(t, OpLoad(vaddr, EXEC)).1 == Byte(0)
            && Step(t, OpStore(vaddr, byte)).1 == Code(0)
  {
    hide Inv;
    hide Step;
    hide SeenAt;
    hide Fresh;
    hide Nearest;
    var t, q := Step(s, OpBrk(addr)).0, vaddr / PGSIZE;
    BreakIs(s, b);
    BrkExact(s, addr, b, r, top);
    BrkSees(s, addr, b, r, top, q);
    assert Between(q, b, top);
    AllKinds();
    FreshAccess(t, vaddr, s.off, ALL, READ);
    FreshAccess(t, vaddr, s.off, ALL, EXEC);
    FreshAccess(t, vaddr, s.off, ALL, WRITE);
    StoredIf(t, vaddr, byte);
  }

  lemma AllKinds()
    ensures Has(ALL, READ) && Has(ALL, WRITE) && Has(ALL, EXEC)
  {
  }

  // ---- what brk_max is for ----

  // The break can never pass a.
  predicate Ceiling(s: Flat, a: nat) {
    a % PGSIZE == 0 && s.brkMin <= a && s.brkMax <= a && StartBrk(s) <= a
  }

  lemma CeilingBrk(s: Flat, a: nat, addr: nat)
    requires Ceiling(s, a)
    ensures NewBrk(s, addr) <= a && RoundUp(NewBrk(s, addr)) <= a
  {
    RoundUpBelow(NewBrk(s, addr), a);
  }

  lemma RoundUpBelow(x: nat, a: nat)
    requires a % PGSIZE == 0 && x <= a
    ensures RoundUp(x) <= a
  {
  }

  // An mmap above the break is such a ceiling from then on.
  lemma MapCeiling(s: Flat, op: Op)
    requires Inv(s) && op.OpMmap? && Step(s, op).1.Code? && Step(s, op).1.value >= 0
    requires s.brkMin <= Step(s, op).1.value && StartBrk(s) <= Step(s, op).1.value
    ensures Inv(Step(s, op).0) && Ceiling(Step(s, op).0, Step(s, op).1.value)
  {
    hide Inv;
    MapSees(s, op, 0);
    hide RoundUp;
    StepConstants(s, op);
    hide Mmap;
    hide MmapPanics;
    hide InSpace;
  }

  lemma CeilingStep(s: Flat, a: nat, op: Op)
    requires Inv(s) && Ceiling(s, a)
    ensures Ceiling(Step(s, op).0, a)
  {
    hide Inv;
    hide RoundUp;
    hide MprotectFrom;
    hide Fault;
    hide MmapPanics;
    hide InSpace;
    StepConstants(s, op);
    RoundUpBelow(s.brkMin, a);
    match op
    case OpBrk(addr) => CeilingBrk(s, a, addr);
    case OpMprotect(addr, len, prot) =>
      ProtsSize(s);
      ProtectKeepsBrk(s, addr, (addr + len) % WORD, prot);
    case OpLoad(vaddr, kind) => FaultKeepsBrk(s, vaddr, kind);
    case OpStore(vaddr, byte) =>
      FaultKeepsBrk(s, vaddr, WRITE);
    case _ =>
  }

  lemma FaultKeepsBrk(s: Flat, vaddr: nat, kind: Prot)
    requires Inv(s)
    ensures var t := Fault(s, vaddr, kind).0; t.brk == s.brk && t.brkMin == s.brkMin && t.brkMax == s.brkMax
  {
    hide ProtToType;
  }

  lemma {:induction false} ProtectKeepsBrk(s: Flat, a: nat, end: nat, prot: Prot)
    requires |s.prots| == MAX_VMR
    ensures var t := MprotectFrom(s, a, end, prot).0; t.brk == s.brk && t.brkMin == s.brkMin && t.brkMax == s.brkMax
    decreases end - a
  {
    hide ProtToType;
    hide Gains;
    if a < end && Vpn(a) in s.leaf {
      var next := ProtectPage(s, Vpn(a), prot);
      if next.Some? {
        ProtectKeepsBrk(next.value, a + PGSIZE, end, prot);
      }
    }
  }

  lemma {:induction false} CeilingRun(s: Flat, a: nat, ops: seq<Op>)
    requires Inv(s) && Ceiling(s, a)
    ensures Ceiling(Run(s, ops), a)
    decreases |ops|
  {
    hide Inv;
    hide Step;
    hide Ceiling;
    if ops != [] && !Stops(Step(s, ops[0]).1) {
      StepInv(s, ops[0]);
      CeilingStep(s, a, ops[0]);
      CeilingRun(Step(s, ops[0]).0, a, ops[1..]);
    }
  }

  lemma BelowCeiling(s: Flat, a: nat, addr: nat, q: nat)
    requires Inv(s) && Ceiling(s, a) && a <= q * PGSIZE && Step(s, OpBrk(addr)).1.Code?
    ensures var t := Step(s, OpBrk(addr)).0;
            (q in t.leaf <==> q in s.leaf) && (q in t.leaf ==> SeenAt(t, q) == SeenAt(s, q))
  {
    hide Inv;
    hide Mapping;
    var b, top := StartBrk(s), RoundUp(NewBrk(s, addr));
    CeilingBrk(s, a, addr);
    StartBrkBound(s);
    RoundUpPages(NewBrk(s, addr));
    hide RoundUp;
    hide StartBrk;
    hide NewBrk;
    if b < top {
      GrownIs(s, addr, b, top, q);
      GrowthRest(s, b, top, q);
      MapSees(s, Growth(b, top), q);
      MeetsBetween(q, b, top);
    } else if top < b {
      ShrunkSees(s, addr, b, top, q);
      MeetsBetween(q, top, b);
    } else {
      SetBrkSees(s, top, q);
    }
  }

  // A mapping made above the break is never replaced, nor anything else above
  // it, by a later move of the break, whatever happens in between.
  lemma MappingKept(s: Flat, op: Op, ops: seq<Op>, addr: nat, q: nat)
    requires Inv(s) && op.OpMmap? && Step(s, op).1.Code? && Step(s, op).1.value >= 0
    requires s.brkMin <= Step(s, op).1.value && StartBrk(s) <= Step(s, op).1.value <= q * PGSIZE
    ensures Inv(Step(s, op).0)
    ensures var u := Run(Step(s, op).0, ops);
            var t := Step(u, OpBrk(addr)).0;
            Step(u, OpBrk(addr)).1.Code? ==>
              (q in t.leaf <==> q in u.leaf) && (q in t.leaf ==> SeenAt(t, q) == SeenAt(u, q))
  {
    hide Inv;
    hide Step;
    hide Ceiling;
    hide SeenAt;
    MapCeiling(s, op);
    var a := Step(s, op).1.value;
    var u := Run(Step(s, op).0, ops);
    CeilingRun(Step(s, op).0, a, ops);
    if Step(u, OpBrk(addr)).1.Code? {
      BelowCeiling(u, a, addr, q);
    }
  }
}
