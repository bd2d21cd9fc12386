// mprotect never adds write or execute: over any run a page is writable or
// executable only if the mmap or brk that created its current mapping said so.
module Permissions {
  import opened PageTable
  import opened FlatVm
  import opened VmRuns

  // What each page's current mapping was created with.
  type Grants = map<nat, Prot>

  // No write or execute bit beyond those of b.
  predicate AtMost(a: Prot, b: Prot) {
    (Has(a, WRITE) ==> Has(b, WRITE)) && (Has(a, EXEC) ==> Has(b, EXEC))
  }

  predicate LeafAtMost(l: Leaf, prots: seq<Prot>, grant: Prot) {
    match l
    case Lazy(v) => v < |prots| && AtMost(prots[v], grant)
    case Mapped(_, perm) => (perm.w ==> Has(grant, WRITE)) && (perm.x ==> Has(grant, EXEC))
  }

  ghost predicate Bounded(s: Flat, g: Grants) {
    forall p <- s.leaf :: p < DRAM_PAGE ==> p in g && LeafAtMost(s.leaf[p], s.prots, g[p])
  }

  function Grant(g: Grants, p: nat, n: nat, prot: Prot): Grants {
    g + map q | p <= q < p + n && Within(q, p, n) :: prot
  }

  function Revoke(g: Grants, p: nat, n: nat): Grants {
    map q | q in g && !(p <= q < p + n) :: g[q]
  }

  // How an operation changes the record.  mprotect and faults do not.
  ghost function GrantStep(s: Flat, g: Grants, op: Op): Grants
    requires Inv(s)
  {
    match op
    case OpMmap(addr, len, prot, priv, fixed, populate, offset) =>
      var r := Mmap(s, addr, len, prot, fixed, populate).addr;
      if !Asks(op) || !Followed(s, op) || r.None? then g else Grant(g, r.value / PGSIZE, Pages(len), prot)
    case OpMunmap(addr, len) =>
      if DoMunmap(s, addr, len).1 != 0 then g else Revoke(g, addr / PGSIZE, Pages(len))
    case OpBrk(addr) =>
      var brk, top := StartBrk(s), RoundUp(NewBrk(s, addr));
      if Brk(s, addr).None? || brk == top then g
      else if brk > top then Revoke(g, top / PGSIZE, Pages(brk - top))
      else Grant(g, brk / PGSIZE, Pages(top - brk), ALL)
    case _ => g
  }

  ghost function GrantRun(s: Flat, g: Grants, ops: seq<Op>): Grants
    requires Inv(s)
    decreases |ops|
  {
    if ops == [] || Stops(Step(s, ops[0]).1) then g
    else (StepInv(s, ops[0]); GrantRun(Step(s, ops[0]).0, GrantStep(s, g, ops[0]), ops[1..]))
  }

  lemma MapBounded(s: Flat, g: Grants, p: nat, n: nat, v: nat, prot: Prot, eager: bool)
    requires Inv(s) && Bounded(s, g) && v < MAX_VMR && !Used(s.leaf, v)
    ensures Bounded(Mapping(s, p, n, v, prot, eager), Grant(g, p, n, prot))
  {
    hide Has;
    hide Reserve;
    hide Populate;
    var m, h := Mapping(s, p, n, v, prot, eager), Grant(g, p, n, prot);
    forall q <- m.leaf | q < DRAM_PAGE ensures q in h && LeafAtMost(m.leaf[q], m.prots, h[q]) {
      ReserveAt(s.leaf, p, n, v, q);
      PopulateAt(s.leaf, p, n, s.off, ProtToType(prot, true), q);
      if !Within(q, p, n) {
        assert s.leaf[q] != Lazy(v);
      }
    }
  }

  lemma MmapBounded(s: Flat, g: Grants, addr: nat, len: nat, prot: Prot, fixed: bool, populate: bool)
    requires Inv(s) && Bounded(s, g)
    ensures var r := Mmap(s, addr, len, prot, fixed, populate);
            if r.addr.None? then r.s == s else Bounded(r.s, Grant(g, r.addr.value / PGSIZE, Pages(len), prot))
  {
    hide Inv;
    hide Bounded;
    hide Placed;
    hide Mapping;
    hide Pages;
    var r := Mmap(s, addr, len, prot, fixed, populate);
    if r.addr.Some? {
      ProtsSize(s);
      MapBounded(s, g, r.addr.value / PGSIZE, Pages(len), FirstUnused(s.leaf, 0), prot, populate || !s.demand);
    }
  }

  lemma UnmapBounded(s: Flat, g: Grants, p: nat, n: nat)
    requires Bounded(s, g)
    ensures Bounded(s.(leaf := Munmapped(s.leaf, p, n)), Revoke(g, p, n))
  {
    hide Has;
  }

  lemma FaultBounded(s: Flat, g: Grants, vaddr: nat, prot: Prot)
    requires Inv(s) && Bounded(s, g)
    ensures Bounded(Fault(s, vaddr, prot).0, g)
  {
    hide Has;
  }

  // Losing bits keeps the bound.
  lemma NoGain(have: Prot, want: Prot, grant: Prot)
    requires !Gains(have, want) && AtMost(have, grant)
    ensures AtMost(want, grant)
  {
    assert want & !have == 0;
  }

  lemma ProtectBounded(s: Flat, g: Grants, p: nat, prot: Prot)
    requires Inv(s) && Bounded(s, g) && p in s.leaf && ProtectPage(s, p, prot).Some?
    ensures Bounded(ProtectPage(s, p, prot).value, g)
  {
    hide Has;
    hide Gains;
    hide AtMost;
    var t := ProtectPage(s, p, prot).value;
    forall q <- t.leaf | q < DRAM_PAGE ensures q in g && LeafAtMost(t.leaf[q], t.prots, g[q]) {
      assert LeafAtMost(s.leaf[q], s.prots, g[q]);
      if s.leaf[q].Lazy? && s.leaf[q] == s.leaf[p] {
        NoGain(s.prots[s.leaf[p].vmr], prot, g[q]);
      }
    }
  }

  lemma {:induction false} MprotectBounded(s: Flat, g: Grants, a: nat, end: nat, prot: Prot)
    requires Inv(s) && Bounded(s, g)
    ensures |s.prots| == MAX_VMR && Bounded(MprotectFrom(s, a, end, prot).0, g)
    decreases end - a
  {
    ProtsSize(s);
    hide Inv;
    hide Bounded;
    hide ProtectPage;
    if a < end && Vpn(a) in s.leaf {
      var next := ProtectPage(s, Vpn(a), prot);
      ProtectInv(s, Vpn(a), prot);
      if next.Some? {
        ProtectBounded(s, g, Vpn(a), prot);
        MprotectBounded(next.value, g, a + PGSIZE, end, prot);
      }
    }
  }

  lemma StepBounded(s: Flat, g: Grants, op: Op)
    requires Inv(s) && Bounded(s, g)
    ensures Bounded(Step(s, op).0, GrantStep(s, g, op))
  {
    hide Inv;
    hide InSpace;
    hide MmapPanics;
    hide Mmap;
    hide Munmapped;
    hide MprotectFrom;
    hide Fault;
    hide Pages;
    hide Grant;
    hide Revoke;
    hide LeafAtMost;
    hide RoundUp;
    match op
    case OpMmap(addr, len, prot, _, fixed, populate, _) =>
      PanicGrants(s, addr, len, prot, fixed, populate);
      MmapBounded(s, g, addr, len, prot, fixed, populate);
    case OpMunmap(addr, len) => UnmapBounded(s, g, addr / PGSIZE, Pages(len));
    case OpBrk(addr) =>
      var brk, top := StartBrk(s), RoundUp(NewBrk(s, addr));
      if brk > top {
        UnmapBounded(s, g, top / PGSIZE, Pages(brk - top));
      } else if brk < top {
        MmapBounded(s, g, brk, top - brk, ALL, true, false);
        BrkMmap(s, brk, top - brk);
      }
    case OpMprotect(addr, len, prot) => MprotectBounded(s, g, addr, (addr + len) % WORD, prot);
    case OpLoad(vaddr, kind) => FaultBounded(s, g, vaddr, kind);
    case OpStore(vaddr, _) => FaultBounded(s, g, vaddr, WRITE);
  }

  lemma PanicGrants(s: Flat, addr: nat, len: nat, prot: Prot, fixed: bool, populate: bool)
    requires Inv(s)
    ensures MmapPanics(s, addr, len, fixed, populate) ==> Mmap(s, addr, len, prot, fixed, populate).addr.None?
  {
    hide MmapPanics;
  }

  lemma BrkMmap(s: Flat, addr: nat, len: nat)
    requires Inv(s)
    ensures Mmap(s, addr, len, ALL, true, false).addr.Some? ==> Mmap(s, addr, len, ALL, true, false).addr.value == addr
  {
  }

  lemma {:induction false} RunBounded(s: Flat, g: Grants, ops: seq<Op>)
    requires Inv(s) && Bounded(s, g)
    ensures Bounded(Run(s, ops), GrantRun(s, g, ops))
    decreases |ops|
  {
    hide Inv;
    hide Bounded;
    hide Step;
    hide GrantStep;
    if ops != [] && !Stops(Step(s, ops[0]).1) {
      StepInv(s, ops[0]);
      StepBounded(s, g, ops[0]);
      RunBounded(Step(s, ops[0]).0, GrantStep(s, g, ops[0]), ops[1..]);
    }
  }

  // In particular, wherever a run leads, a store that goes through or an
  // instruction that is fetched is one its mapping allowed.
  lemma AccessWasGranted(s: Flat, g: Grants, ops: seq<Op>, vaddr: nat, kind: Prot)
    requires Inv(s) && Bounded(s, g) && (kind == WRITE || kind == EXEC)
    requires Fault(Run(s, ops), vaddr, kind).1 == 0
    ensures var h := GrantRun(s, g, ops); vaddr / PGSIZE in h && Has(h[vaddr / PGSIZE], kind)
  {
    RunBounded(s, g, ops);
    var t, h := Run(s, ops), GrantRun(s, g, ops);
    FaultBounded(t, h, vaddr, kind);
    FaultInBounds(t, vaddr, kind);
    MmapMaxBound(t);
    KindType(kind);
  }

  lemma KindType(kind: Prot)
    requires kind == WRITE || kind == EXEC
    ensures kind == WRITE ==> ProtToType(kind, true).w
    ensures kind == EXEC ==> ProtToType(kind, true).x
  {
  }
}
