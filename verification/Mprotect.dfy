// What mprotect does to the pages a process sees, inside its range and, since
// a lazy page keeps its protection in the record of its region, outside it.
module Mprotect {
  import opened PageTable
  import opened FlatVm
  import opened VmRuns
  import opened DemandPaging

  // end is on the last of n pages from p.
  predicate EndsIn(p: nat, n: nat, end: nat) {
    end <= (p + n) * PGSIZE && (n > 0 ==> (p + n) * PGSIZE < end + PGSIZE)
  }

  lemma PageNumber(p: nat)
    requires p < VPNS
    ensures Vpn(p * PGSIZE) == p && p * PGSIZE + PGSIZE == (p + 1) * PGSIZE
  {
  }

  lemma RangePages(len: nat, p: nat)
    ensures EndsIn(p, Pages(len), p * PGSIZE + len)
  {
  }

  // A page that may be given the protection: a mapped one by the permissions
  // of its entry, a lazy one by the protection of its region, bit for bit.
  predicate Allowed(s: Flat, q: nat, prot: Prot)
    requires |s.prots| == MAX_VMR && q in s.leaf
  {
    match s.leaf[q]
    case Lazy(v) => v < MAX_VMR && !Gains(s.prots[v], prot)
    case Mapped(_, perm) =>
      perm.u && (Has(prot, READ) ==> perm.r) && (Has(prot, WRITE) ==> perm.w) && (Has(prot, EXEC) ==> perm.x)
  }

  ghost predicate AllAllowed(s: Flat, p: nat, n: nat, prot: Prot)
    requires |s.prots| == MAX_VMR
  {
    forall q: nat | Within(q, p, n) :: q in s.leaf && Allowed(s, q, prot)
  }

  // Does region v have a lazy page in the range?
  ghost predicate Touches(leaf: map<nat, Leaf>, p: nat, n: nat, v: nat) {
    exists q: nat :: Within(q, p, n) && q in leaf && leaf[q] == Lazy(v)
  }

  function Reprotected(l: Leaf, prot: Prot): Leaf {
    if l.Mapped? then Mapped(l.ppn, ProtToType(prot, true)) else l
  }

  // t is s with the n pages from p under the protection prot.
  ghost predicate Protects(s: Flat, t: Flat, p: nat, n: nat, prot: Prot) {
    && |s.prots| == |t.prots| == MAX_VMR && t == s.(leaf := t.leaf, prots := t.prots) && t.leaf.Keys == s.leaf.Keys
    && (forall q <- s.leaf :: t.leaf[q] == if Within(q, p, n) then Reprotected(s.leaf[q], prot) else s.leaf[q])
    && (forall v | 0 <= v < MAX_VMR :: t.prots[v] == if Touches(s.leaf, p, n, v) then prot else s.prots[v])
  }

  lemma KeepsProt(prot: Prot)
    ensures !Gains(prot, prot)
  {
    assert prot ^ prot == 0;
  }

  // Protecting the first page does not change what the others allow.
  lemma FirstAllowed(s: Flat, p: nat, n: nat, prot: Prot)
    requires |s.prots| == MAX_VMR && n > 0 && p in s.leaf
    ensures Allowed(s, p, prot) <==> ProtectPage(s, p, prot).Some?
    ensures Allowed(s, p, prot) ==>
              (AllAllowed(s, p, n, prot) <==> AllAllowed(ProtectPage(s, p, prot).value, p + 1, n - 1, prot))
  {
    hide Gains;
    hide ProtToType;
    KeepsProt(prot);
    if Allowed(s, p, prot) {
      var t := ProtectPage(s, p, prot).value;
      forall q: nat | q != p ensures q in s.leaf <==> q in t.leaf
                             ensures q in s.leaf ==> (Allowed(s, q, prot) <==> Allowed(t, q, prot)) {
      }
      forall q: nat ensures Within(q, p, n) <==> q == p || Within(q, p + 1, n - 1) {
      }
    }
  }

  lemma FirstProtects(s: Flat, t: Flat, p: nat, n: nat, prot: Prot)
    requires |s.prots| == MAX_VMR && n > 0 && p in s.leaf && ProtectPage(s, p, prot).Some?
    requires Protects(ProtectPage(s, p, prot).value, t, p + 1, n - 1, prot)
    ensures Protects(s, t, p, n, prot)
  {
    hide Gains;
    hide ProtToType;
    var m := ProtectPage(s, p, prot).value;
    forall v: nat ensures Touches(s.leaf, p, n, v) <==> s.leaf[p] == Lazy(v) || Touches(m.leaf, p + 1, n - 1, v) {
      TouchesFirst(s.leaf, m.leaf, p, n, v);
    }
    forall q <- s.leaf ensures t.leaf[q] == if Within(q, p, n) then Reprotected(s.leaf[q], prot) else s.leaf[q] {
      assert q in m.leaf;
    }
  }

  lemma TouchesFirst(leaf: map<nat, Leaf>, next: map<nat, Leaf>, p: nat, n: nat, v: nat)
    requires n > 0 && p in leaf && next.Keys == leaf.Keys && forall q <- leaf | q != p :: next[q] == leaf[q]
    ensures Touches(leaf, p, n, v) <==> leaf[p] == Lazy(v) || Touches(next, p + 1, n - 1, v)
  {
    if leaf[p] == Lazy(v) {
      assert Within(p, p, n);
    } else if Touches(leaf, p, n, v) {
      var q: nat :| Within(q, p, n) && q in leaf && leaf[q] == Lazy(v);
      assert Within(q, p + 1, n - 1) && next[q] == Lazy(v);
    }
  }

  // The loop succeeds exactly when every page of the range is mapped or lazy
  // and allows the protection, which need only be asked of the first state.
  lemma {:induction false} ProtectsRange(s: Flat, p: nat, n: nat, end: nat, prot: Prot)
    requires |s.prots| == MAX_VMR && p + n <= VPNS && EndsIn(p, n, end)
    ensures MprotectFrom(s, p * PGSIZE, end, prot).1 == 0 <==> AllAllowed(s, p, n, prot)
    ensures AllAllowed(s, p, n, prot) ==> Protects(s, MprotectFrom(s, p * PGSIZE, end, prot).0, p, n, prot)
    decreases n
  {
    hide ProtectPage;
    hide Protects;
    hide AllAllowed;
    hide Allowed;
    hide Vpn;
    if n == 0 {
      ProtectsNone(s, p, prot);
    } else {
      PageNumber(p);
      FirstPage(s, p, n, prot);
      if p in s.leaf {
        FirstAllowed(s, p, n, prot);
        var next := ProtectPage(s, p, prot);
        if next.Some? {
          ProtectsRange(next.value, p + 1, n - 1, end, prot);
          if AllAllowed(s, p, n, prot) {
            FirstProtects(s, MprotectFrom(s, p * PGSIZE, end, prot).0, p, n, prot);
          }
        }
      }
    }
  }

  lemma ProtectsNone(s: Flat, p: nat, prot: Prot)
    requires |s.prots| == MAX_VMR
    ensures AllAllowed(s, p, 0, prot) && Protects(s, s, p, 0, prot)
  {
  }

  lemma FirstPage(s: Flat, p: nat, n: nat, prot: Prot)
    requires |s.prots| == MAX_VMR && n > 0
    ensures AllAllowed(s, p, n, prot) ==> p in s.leaf && Allowed(s, p, prot)
  {
    assert Within(p, p, n);
  }

  // ---- what the process sees ----

  // A page of the range, or a lazy page of a region with a lazy page there.
  ghost predicate Reached(s: Flat, p: nat, n: nat, q: nat)
    requires q in s.leaf
  {
    Within(q, p, n) || (s.leaf[q].Lazy? && Touches(s.leaf, p, n, s.leaf[q].vmr))
  }

  // Under the new protection, at the same address and with the same bytes.
  function With(x: Seen, prot: Prot): Seen { x.(leaf := Reprotected(x.leaf, prot)) }

  // A successful mprotect changes the protection of the pages it reaches, and
  // nothing else.
  lemma MprotectSees(s: Flat, p: nat, len: nat, prot: Prot, q: nat)
    requires Inv(s) && p * PGSIZE + len <= VPNS * PGSIZE && |s.prots| == MAX_VMR && q in s.leaf
    ensures DoMprotect(s, p * PGSIZE, len, prot).1 == 0 <==> AllAllowed(s, p, Pages(len), prot)
    ensures AllAllowed(s, p, Pages(len), prot) ==>
              var t := DoMprotect(s, p * PGSIZE, len, prot).0;
              q in t.leaf
              && SeenAt(t, q) == if Reached(s, p, Pages(len), q) then With(SeenAt(s, q), prot) else SeenAt(s, q)
  {
    hide MprotectFrom;
    hide AllAllowed;
    hide ProtToType;
    MprotectAs(s, p, len, prot);
    if AllAllowed(s, p, Pages(len), prot) {
      assert s.leaf[q].Lazy? ==> Within(q, p, Pages(len)) ==> Touches(s.leaf, p, Pages(len), s.leaf[q].vmr);
    }
  }

  lemma MprotectAs(s: Flat, p: nat, len: nat, prot: Prot)
    requires p * PGSIZE + len <= VPNS * PGSIZE && |s.prots| == MAX_VMR
    ensures DoMprotect(s, p * PGSIZE, len, prot).1 == 0 <==> AllAllowed(s, p, Pages(len), prot)
    ensures AllAllowed(s, p, Pages(len), prot) ==>
              Protects(s, DoMprotect(s, p * PGSIZE, len, prot).0, p, Pages(len), prot)
  {
    hide MprotectFrom;
    hide AllAllowed;
    hide Protects;
    RangePages(len, p);
    ProtectsRange(s, p, Pages(len), p * PGSIZE + len, prot);
  }

  // So a successful mprotect is confined to its range exactly when no lazy
  // page outside belongs to a region it touches, unless the new protection
  // means the same for that page.
  lemma MprotectLocal(s: Flat, p: nat, len: nat, prot: Prot)
    requires Inv(s) && p * PGSIZE + len <= VPNS * PGSIZE && |s.prots| == MAX_VMR
    requires AllAllowed(s, p, Pages(len), prot)
    ensures var t := DoMprotect(s, p * PGSIZE, len, prot).0;
            && t.leaf.Keys == s.leaf.Keys
            && ((forall q <- s.leaf | !Within(q, p, Pages(len)) :: SeenAt(t, q) == SeenAt(s, q)) <==>
                (forall q <- s.leaf | !Within(q, p, Pages(len)) && s.leaf[q].Lazy?
                 && Touches(s.leaf, p, Pages(len), s.leaf[q].vmr) ::
                   ProtToType(s.prots[s.leaf[q].vmr], true) == ProtToType(prot, true)))
  {
    hide DoMprotect;
    hide AllAllowed;
    hide ProtToType;
    MprotectAs(s, p, len, prot);
    forall q <- s.leaf ensures
        SeenAt(DoMprotect(s, p * PGSIZE, len, prot).0, q) ==
        if Reached(s, p, Pages(len), q) then With(SeenAt(s, q), prot) else SeenAt(s, q)
    {
      MprotectSees(s, p, len, prot, q);
    }
  }

  // It is also where demand paging shows: after the same mprotect of one lazy
  // page, another page of its region differs from what it is when the region
  // was filled at once.
  lemma MprotectShows(s: Flat, t: Flat, p: nat, q: nat, prot: Prot)
    requires Inv(s) && Inv(t) && Alike(s, t) && |s.prots| == |t.prots| == MAX_VMR && p != q
    requires p in s.leaf && q in s.leaf && s.leaf[p].Lazy? && s.leaf[q] == s.leaf[p] && t.leaf[q].Mapped?
    requires ProtToType(s.prots[s.leaf[p].vmr], true) != ProtToType(prot, true)
    requires DoMprotect(s, p * PGSIZE, PGSIZE, prot).1 == 0 == DoMprotect(t, p * PGSIZE, PGSIZE, prot).1
    ensures !Alike(DoMprotect(s, p * PGSIZE, PGSIZE, prot).0, DoMprotect(t, p * PGSIZE, PGSIZE, prot).0)
  {
    hide DoMprotect;
    hide ProtToType;
    hide AllAllowed;
    assert Pages(PGSIZE) == 1 && p < VPNS;
    MprotectSees(s, p, PGSIZE, prot, q);
    MprotectSees(t, p, PGSIZE, prot, q);
    assert Within(p, p, 1);
    assert Reached(s, p, 1, q) && !Reached(t, p, 1, q);
  }
}
