// The three-level Sv39 page table of the proxy kernel, in the pages its bump
// allocator hands out, as a map from page numbers to nonzero leaf words.
module PageTable {
  import opened Arith

  const PGSIZE: nat := 4096
  const PT_ENTRIES: nat := 512
  // Addresses are looked up by 27 bits of page number.
  const VPNS: nat := 0x800_0000

  // A kassert or panic does not return.
  datatype Result<T> = Done(value: T) | Halted

  // Bits 12 and up that the walk looks at.
  function Vpn(addr: nat): (p: nat)
    ensures p < VPNS
    ensures Upper(p) < 0x4_0000 && Upper(Upper(p)) < PT_ENTRIES
  {
    addr / PGSIZE % VPNS
  }

  // pt_idx: the index into the table at `level`.
  function PtIdx(addr: nat, level: nat): (i: nat)
    requires level <= 2
    ensures i < PT_ENTRIES
    ensures level == 2 ==> i == Upper(Upper(Vpn(addr)))
    ensures level == 1 ==> i == Lower(Upper(Vpn(addr)))
    ensures level == 0 ==> i == Lower(Vpn(addr))
  {
    PtIdxFields(addr);
    if level == 0 then addr / 0x1000 % PT_ENTRIES
    else if level == 1 then addr / 0x20_0000 % PT_ENTRIES
    else addr / 0x4000_0000 % PT_ENTRIES
  }

  lemma PtIdxFields(addr: nat)
    ensures addr / 0x4000_0000 % 512 == Vpn(addr) / 0x4_0000
    ensures addr / 0x20_0000 % 512 == Vpn(addr) / 512 % 512
    ensures addr / 0x1000 % 512 == Vpn(addr) % 512
  {
    PageFields(addr, addr / PGSIZE);
    NumberFields(addr / PGSIZE);
  }

  lemma PageFields(addr: nat, n: nat)
    requires n == addr / PGSIZE
    ensures addr / 0x20_0000 == n / 512 && addr / 0x4000_0000 == n / 0x4_0000
  {
    DivModUnique(addr, 0x20_0000, n / 512, n % 512 * 4096 + addr % 4096);
    DivModUnique(addr, 0x4000_0000, n / 0x4_0000, n % 0x4_0000 * 4096 + addr % 4096);
  }

  lemma NumberFields(n: nat)
    ensures n / 0x4_0000 % 512 == n % VPNS / 0x4_0000
    ensures n / 512 % 512 == n % VPNS / 512 % 512
    ensures n % 512 == n % VPNS % 512
  {
    var i0, i1, m := n % 512, n / 512 % 512, n / 0x4_0000;
    DivModUnique(n / 512, 512, m, i1) by {
      DivModUnique(n, 0x4_0000, n / 512 / 512, i1 * 512 + i0);
    }
    DivModUnique(n, VPNS, m / 512, m % 512 * 0x4_0000 + i1 * 512 + i0);
    assert n % VPNS == m % 512 * 0x4_0000 + i1 * 512 + i0;
  }

  // A number split into a table number and an index into that table; applied
  // twice it takes a page number to its root index.
  function Upper(n: nat): nat { n / 512 }
  function Lower(n: nat): (i: nat) ensures i < PT_ENTRIES { n % 512 }

  lemma UpperLower(m: nat, n: nat)
    requires Upper(m) == Upper(n) && Lower(m) == Lower(n)
    ensures m == n
  {
  }

  predicate PteValid(w: nat) { w % 2 == 1 }
  function PtePpn(w: nat): nat { w / 1024 }
  // pte_create for a type below 2^10 without the valid bit.
  function PteCreate(ppn: nat, typ: nat): nat { ppn * 1024 + typ + 1 }
  function PtdCreate(ppn: nat): nat { PteCreate(ppn, 0) }

  // A directory entry points back at its page, and the zero word is invalid.
  lemma PtdRoundTrip(ppn: nat)
    ensures PteValid(PtdCreate(ppn)) && PtePpn(PtdCreate(ppn)) == ppn
    ensures !PteValid(0)
  {
    DivModUnique(ppn * 1024 + 1, 1024, ppn, 1);
    DivModUnique(ppn * 1024 + 1, 2, ppn * 512, 0 + 1);
  }

  // Where an entry lives: the page of its table and its index there.
  datatype Slot = Slot(page: nat, idx: nat)

  // ---- how many table pages a walk takes ----

  // The allocation mark, and the tables below the root that exist.
  datatype Tables = Tables(next: nat, low: set<nat>, mid: set<nat>)

  function Range(p: nat, n: nat): (r: set<nat>)
    ensures forall q: nat :: q in r <==> p <= q < p + n
  {
    if n == 0 then {} else Range(p, n - 1) + {p + n - 1}
  }

  lemma {:induction false} RangeSize(p: nat, n: nat)
    ensures |Range(p, n)| == n
  {
    if n > 0 {
      RangeSize(p, n - 1);
    }
  }

  lemma SubsetSize(a: set<nat>, b: set<nat>)
    requires a <= b
    ensures |a| <= |b|
  {
    assert b == a + (b - a);
  }

  function LowOf(pages: set<nat>): set<nat> { set p <- pages :: Upper(p) }
  function MidOf(pages: set<nat>): set<nat> { set p <- pages :: Upper(Upper(p)) }

  // Once the walks to all of the pages are complete: a page is taken for each
  // table that was missing.
  function Grow(t: Tables, pages: set<nat>): Tables {
    Tables(t.next + |LowOf(pages) - t.low| + |MidOf(pages) - t.mid|, t.low + LowOf(pages), t.mid + MidOf(pages))
  }

  lemma GrowNone(t: Tables)
    ensures Grow(t, {}) == t
  {
    assert LowOf({}) == {} && MidOf({}) == {};
  }

  lemma GrowPage(t: Tables, p: nat)
    ensures Grow(t, {p}) ==
            Tables(t.next + (if Upper(p) in t.low then 0 else 1) + (if Upper(Upper(p)) in t.mid then 0 else 1),
                   t.low + {Upper(p)}, t.mid + {Upper(Upper(p))})
  {
    hide Upper;
    assert LowOf({p}) == {Upper(p)} && MidOf({p}) == {Upper(Upper(p))};
    assert LowOf({p}) - t.low == (if Upper(p) in t.low then {} else {Upper(p)});
    assert MidOf({p}) - t.mid == (if Upper(Upper(p)) in t.mid then {} else {Upper(Upper(p))});
  }

  // Walks add up, whatever tables they share, and more pages never take less.
  lemma GrowTwice(t: Tables, a: set<nat>, b: set<nat>)
    ensures Grow(Grow(t, a), b) == Grow(t, a + b)
    ensures Grow(t, a).next <= Grow(t, a + b).next
  {
    hide Upper;
    assert LowOf(a + b) == LowOf(a) + LowOf(b) && MidOf(a + b) == MidOf(a) + MidOf(b);
    AddedUp(LowOf(a), LowOf(b), t.low);
    AddedUp(MidOf(a), MidOf(b), t.mid);
  }

  lemma AddedUp(a: set<nat>, b: set<nat>, t: set<nat>)
    ensures |a - t| + |b - (t + a)| == |a + b - t|
    ensures t + a + b == t + (a + b)
  {
    assert a + b - t == (a - t) + (b - (t + a));
  }

  // Page `page` becomes the table missing at entry s on the way to page p.
  datatype Link = Link(p: nat, s: Slot, page: nat)

  datatype Stored = Stored(p: nat, s: Slot, w: nat)

  class Table {
    // free_pages pages of 512 words, the first at physical page `base`.
    const mem: array2<nat>
    const base: nat
    var next: nat
    // The tree: second-level table of each root index, and leaf table of
    // each upper 18-bit page number.
    ghost var mid: map<nat, nat>
    ghost var low: map<nat, nat>
    // What the table means.
    ghost var leaf: map<nat, nat>

    ghost predicate Valid()
      reads this, mem
    {
      && mem.Length1 == PT_ENTRIES && 0 < next <= mem.Length0
      && Tree() && RootEntries() && MidEntries() && Leaves()
    }

    // The tables other than the root are distinct pages the allocator has
    // handed out, and leaf tables hang below second-level tables.
    ghost predicate Tree()
      reads `next, `mid, `low
    {
      && (forall i <- mid :: i < PT_ENTRIES && 0 < mid[i] < next)
      && (forall k <- low :: k < 0x4_0000 && Upper(k) in mid && 0 < low[k] < next)
      && (forall i, j | i in mid && j in mid && mid[i] == mid[j] :: i == j)
      && (forall k, l | k in low && l in low && low[k] == low[l] :: k == l)
      && (forall i, k | i in mid && k in low :: mid[i] != low[k])
    }

    // Every entry above the leaves is zero or points at its table.
    ghost predicate RootEntries()
      requires mem.Length1 == PT_ENTRIES && 0 < next <= mem.Length0 && Tree()
      reads this, mem
    {
      forall i | 0 <= i < PT_ENTRIES :: mem[0, i] == if i in mid then PtdCreate(base + mid[i]) else 0
    }

    ghost predicate MidEntries()
      requires mem.Length1 == PT_ENTRIES && 0 < next <= mem.Length0 && Tree()
      reads this, mem
    {
      forall k | 0 <= k < 0x4_0000 && Upper(k) in mid ::
        mem[mid[Upper(k)], Lower(k)] == if k in low then PtdCreate(base + low[k]) else 0
    }

    ghost predicate Leaves()
      requires mem.Length1 == PT_ENTRIES && 0 < next <= mem.Length0 && Tree()
      reads this, mem
    {
      LeafKeys() && LeafWords()
    }

    ghost predicate LeafKeys()
      reads this
    {
      forall p <- leaf :: p < VPNS && Upper(p) in low && leaf[p] != 0
    }

    ghost predicate LeafWords()
      requires mem.Length1 == PT_ENTRIES && 0 < next <= mem.Length0 && Tree()
      reads this, mem
    {
      forall p | 0 <= p < VPNS && Upper(p) in low :: mem[low[Upper(p)], Lower(p)] == WordOf(p)
    }

    ghost function WordOf(p: nat): nat
      reads `leaf
    {
      if p in leaf then leaf[p] else 0
    }

    ghost predicate SlotOf(p: nat, s: Slot)
      reads `low
    {
      Upper(p) in low && s == Slot(low[Upper(p)], Lower(p))
    }

    // Tables the walk to page p still lacks.
    ghost function Missing(p: nat): nat
      reads `mid, `low
    {
      (if Upper(Upper(p)) in mid then 0 else 1) + (if Upper(p) in low then 0 else 1)
    }

    // The entry where the missing table belongs.
    ghost function Gap(p: nat): Slot
      reads `mid
    {
      var i := Upper(Upper(p));
      if i in mid then Slot(mid[i], Lower(Upper(p))) else Slot(0, i)
    }

    ghost function Now(): Tables
      reads `next, `low, `mid
    {
      Tables(next, low.Keys, mid.Keys)
    }

    // One zeroed root page.
    constructor (basePpn: nat, freePages: nat)
      requires freePages > 0
      ensures Valid() && fresh(mem) && base == basePpn && Now() == Tables(1, {}, {}) && leaf == map[]
      ensures mem.Length0 == freePages
    {
      mem := new nat[freePages, PT_ENTRIES]((_, _) => 0);
      base, next := basePpn, 1;
      mid, low, leaf := map[], map[], map[];
    }

    // Pages below the old allocation mark are as they were.
    twostate predicate Kept()
      requires mem.Length1 == PT_ENTRIES && old(next) <= mem.Length0
      reads this, mem
    {
      && mid == old(mid) && low == old(low) && leaf == old(leaf) && old(next) <= next <= mem.Length0
      && (forall i, j | 0 <= i < old(next) && 0 <= j < PT_ENTRIES :: mem[i, j] == old(mem[i, j]))
    }

    twostate lemma KeepTree()
      requires old(Valid()) && mem.Length1 == PT_ENTRIES && old(next) <= next <= mem.Length0
      requires mid == old(mid) && low == old(low)
      ensures Tree()
    {
    }

    twostate lemma KeepEntries()
      requires old(Valid()) && mem.Length1 == PT_ENTRIES && old(next) <= mem.Length0
      requires Kept() && Tree()
      ensures RootEntries() && MidEntries()
    {
      hide Upper;
      hide Lower;
    }

    twostate lemma KeepLeaves()
      requires old(Valid()) && mem.Length1 == PT_ENTRIES && old(next) <= mem.Length0
      requires Kept() && Tree()
      ensures Leaves()
    {
      hide Upper;
      hide Lower;
    }

    // __page_alloc
    method PageAlloc() returns (r: Result<nat>)
      requires Valid()
      modifies this`next, mem
      ensures Valid()
      ensures r.Halted? <==> old(next) == mem.Length0
      ensures r.Done? ==> 0 < r.value == old(next) && next == old(next) + 1
      ensures r.Done? ==> r.value !in mid.Values && r.value !in low.Values
      ensures r.Done? ==> forall j | 0 <= j < PT_ENTRIES :: mem[r.value, j] == 0
      ensures forall i, j | 0 <= i < old(next) && 0 <= j < PT_ENTRIES :: mem[i, j] == old(mem[i, j])
    {
      if next == mem.Length0 {
        return Halted;
      }
      var page := next;
      forall j | 0 <= j < PT_ENTRIES {
        mem[page, j] := 0;
      }
      next := next + 1;
      KeepTree();
      KeepEntries();
      KeepLeaves();
      r := Done(page);
    }

    // The read-only part of __walk_internal: either the leaf entry, or the
    // first invalid entry on the way to it.
    method Descend(addr: nat) returns (found: bool, s: Slot)
      requires Valid()
      ensures found <==> Upper(Vpn(addr)) in low
      ensures found ==> SlotOf(Vpn(addr), s)
      ensures !found ==> Missing(Vpn(addr)) > 0 && s == Gap(Vpn(addr))
    {
      hide Upper;
      hide Lower;
      hide Vpn;
      hide PtIdx;
      hide Leaves;
      hide PteValid;
      hide PtePpn;
      hide PtdCreate;
      ghost var p := Vpn(addr);
      var t := 0;
      var i := 2;
      while i > 0
        invariant 0 <= i <= 2
        invariant i == 2 ==> t == 0
        invariant i == 1 ==> Upper(Upper(p)) in mid && t == mid[Upper(Upper(p))]
        invariant i == 0 ==> Upper(p) in low && t == low[Upper(p)]
      {
        var idx := PtIdx(addr, i);
        ghost var page := if i == 2 then (if Upper(Upper(p)) in mid then mid[Upper(Upper(p))] else 0)
                          else if Upper(p) in low then low[Upper(p)] else 0;
        PtdRoundTrip(base + page);
        if !PteValid(mem[t, idx]) {
          return false, Slot(t, idx);
        }
        t := PtePpn(mem[t, idx]) - base;
        i := i - 1;
      }
      return true, Slot(t, PtIdx(addr, 0));
    }

    // __walk: a page without a leaf table has no entry.
    method Walk(addr: nat) returns (found: bool, s: Slot)
      requires Valid()
      ensures found ==> SlotOf(Vpn(addr), s)
      ensures !found ==> Vpn(addr) !in leaf
    {
      found, s := Descend(addr);
    }

    // *pte
    method Load(s: Slot, ghost p: nat) returns (w: nat)
      requires Valid() && p < VPNS && SlotOf(p, s)
      ensures w == WordOf(p)
    {
      w := mem[s.page, s.idx];
    }

    // A leaf table hangs below a second-level table.
    lemma MarkInRange()
      requires Valid()
      ensures mem.Length1 == PT_ENTRIES && next <= mem.Length0 && forall k <- low :: Upper(k) in mid
    {
    }

    // __walk_create, recursing through __continue_walk_create until no table
    // is missing.
    method WalkCreate(addr: nat) returns (r: Result<Slot>)
      requires Valid()
      modifies this`next, this`mid, this`low, mem
      ensures Valid()
      ensures r.Done? ==> SlotOf(Vpn(addr), r.value) && Now() == Grow(old(Now()), {Vpn(addr)})
      ensures r.Halted? <==> Grow(old(Now()), {Vpn(addr)}).next > mem.Length0
      decreases Missing(Vpn(addr)), 1
    {
      hide Valid;
      hide Upper;
      hide Vpn;
      hide Grow;
      hide SlotOf;
      GrowPage(Now(), Vpn(addr));
      MarkInRange();
      var found, s := Descend(addr);
      if found {
        r := Done(s);
      } else {
        r := ContinueWalkCreate(addr, s);
      }
    }

    method ContinueWalkCreate(addr: nat, s: Slot) returns (r: Result<Slot>)
      requires Valid()
      requires Missing(Vpn(addr)) > 0 && s == Gap(Vpn(addr)) && Upper(Vpn(addr)) !in low
      modifies this`next, this`mid, this`low, mem
      ensures Valid()
      ensures r.Done? ==> SlotOf(Vpn(addr), r.value) && Now() == Grow(old(Now()), {Vpn(addr)})
      ensures r.Halted? <==> Grow(old(Now()), {Vpn(addr)}).next > mem.Length0
      decreases Missing(Vpn(addr)), 0
    {
      hide Valid;
      hide Linkable;
      hide Upper;
      hide Vpn;
      hide Grow;
      hide Gap;
      hide SlotOf;
      GrowPage(Now(), Vpn(addr));
      MarkInRange();
      var page := PageAlloc();
      if page.Halted? {
        return Halted;
      }
      MarkInRange();
      Ready(Vpn(addr), s, page.value);
      LinkTable(Vpn(addr), s, page.value);
      GrowPage(Now(), Vpn(addr));
      r := WalkCreate(addr);
    }

    // The store of a directory entry for a fresh zeroed page.
    method LinkTable(ghost p: nat, s: Slot, page: nat)
      requires Valid()
      requires Linkable(p, s, page)
      modifies this`mid, this`low, mem
      ensures Valid() && Missing(p) == old(Missing(p)) - 1
      ensures var i := Upper(Upper(p));
              Now() == if i in old(mid) then Tables(next, old(low.Keys) + {Upper(p)}, old(mid.Keys))
                       else Tables(next, old(low.Keys), old(mid.Keys) + {i})
    {
      hide Upper;
      hide Lower;
      hide RootEntries;
      hide MidEntries;
      hide Leaves;
      mem[s.page, s.idx] := PtdCreate(base + page);
      if Upper(Upper(p)) in mid {
        low := low[Upper(p) := page];
      } else {
        mid := mid[Upper(Upper(p)) := page];
      }
      ghost var l := Link(p, s, page);
      LinkedTree(l);
      LinkedRoot(l);
      LinkedMid(l);
      LinkedLeaves(l);
    }

    ghost predicate Linkable(p: nat, s: Slot, page: nat)
      requires mem.Length1 == PT_ENTRIES && next <= mem.Length0
      reads this, mem
    {
      && p < VPNS && Upper(Upper(p)) < PT_ENTRIES && Upper(p) < 0x4_0000
      && Upper(p) !in low && s == Gap(p) && s.page < next && s.idx < PT_ENTRIES
      && 0 < page < next && page !in mid.Values && page !in low.Values
      && (forall j | 0 <= j < PT_ENTRIES :: mem[page, j] == 0)
    }

    lemma Ready(p: nat, s: Slot, page: nat)
      requires Valid() && p < VPNS && Upper(Upper(p)) < PT_ENTRIES && Upper(p) < 0x4_0000
      requires Upper(p) !in low && s == Gap(p)
      requires 0 < page < next && page !in mid.Values && page !in low.Values
      requires forall j | 0 <= j < PT_ENTRIES :: mem[page, j] == 0
      ensures Linkable(p, s, page)
    {
    }

    twostate predicate Linked(l: Link)
      requires mem.Length1 == PT_ENTRIES && old(next) <= mem.Length0
      reads this, mem
    {
      && next == old(next) && leaf == old(leaf)
      && mid == (if Upper(Upper(l.p)) in old(mid) then old(mid) else old(mid)[Upper(Upper(l.p)) := l.page])
      && low == (if Upper(Upper(l.p)) in old(mid) then old(low)[Upper(l.p) := l.page] else old(low))
      && (forall i, j | 0 <= i < next && 0 <= j < PT_ENTRIES ::
            mem[i, j] == if Slot(i, j) == l.s then PtdCreate(base + l.page) else old(mem[i, j]))
    }

    twostate lemma LinkedTree(l: Link)
      requires old(Valid()) && old(Linkable(l.p, l.s, l.page))
      requires mem.Length1 == PT_ENTRIES && next <= mem.Length0 && old(next) <= mem.Length0
      requires Linked(l)
      ensures Tree()
    {
      hide Upper;
      hide Lower;
    }

    twostate lemma LinkedRoot(l: Link)
      requires old(Valid()) && old(Linkable(l.p, l.s, l.page))
      requires mem.Length1 == PT_ENTRIES && next <= mem.Length0 && old(next) <= mem.Length0
      requires Linked(l)
      requires Tree()
      ensures RootEntries()
    {
      hide Upper;
      hide Lower;
    }

    twostate lemma LinkedMid(l: Link)
      requires old(Valid()) && old(Linkable(l.p, l.s, l.page))
      requires mem.Length1 == PT_ENTRIES && next <= mem.Length0 && old(next) <= mem.Length0
      requires Linked(l)
      requires Tree()
      ensures MidEntries()
    {
      hide Upper;
      hide Lower;
      forall k | 0 <= k < 0x4_0000 && Upper(k) in mid
        ensures mem[mid[Upper(k)], Lower(k)] == if k in low then PtdCreate(base + low[k]) else 0
      {
        var i, j := Upper(k), Lower(k);
        if i in old(mid) {
          assert old(mem[mid[i], j]) == if k in old(low) then PtdCreate(base + old(low)[k]) else 0;
          if Slot(mid[i], j) == l.s {
            UpperLower(k, Upper(l.p));
          }
        }
      }
    }

    twostate lemma LinkedLeaves(l: Link)
      requires old(Valid()) && old(Linkable(l.p, l.s, l.page))
      requires mem.Length1 == PT_ENTRIES && next <= mem.Length0 && old(next) <= mem.Length0
      requires Linked(l)
      requires Tree()
      ensures Leaves()
    {
      hide Upper;
      hide Lower;
    }

    // Two pages never share a leaf entry.
    lemma SlotsDistinct(p: nat, q: nat, s: Slot)
      requires Valid() && SlotOf(p, s) && SlotOf(q, s)
      ensures p == q
    {
      hide Upper;
      hide Lower;
      UpperLower(p, q);
    }

    // *pte = w: the entry of page p changes and no other page's does.
    method Store(s: Slot, w: nat, ghost p: nat)
      requires Valid() && p < VPNS && SlotOf(p, s)
      modifies this`leaf, mem
      ensures Valid()
      ensures leaf == if w == 0 then old(leaf) - {p} else old(leaf)[p := w]
    {
      hide Upper;
      hide Lower;
      hide RootEntries;
      hide MidEntries;
      hide LeafKeys;
      hide LeafWords;
      mem[s.page, s.idx] := w;
      leaf := if w == 0 then leaf - {p} else leaf[p := w];
      assert Tree();
      StoredRoot(Stored(p, s, w));
      StoredMid(Stored(p, s, w));
      StoredLeaves(Stored(p, s, w));
    }

    twostate predicate StoredAt(e: Stored)
      requires mem.Length1 == PT_ENTRIES && old(next) <= mem.Length0
      reads this, mem
    {
      && next == old(next) && mid == old(mid) && low == old(low)
      && leaf == (if e.w == 0 then old(leaf) - {e.p} else old(leaf)[e.p := e.w])
      && (forall i, j | 0 <= i < next && 0 <= j < PT_ENTRIES ::
            mem[i, j] == if Slot(i, j) == e.s then e.w else old(mem[i, j]))
    }

    twostate lemma StoredRoot(e: Stored)
      requires old(Valid()) && e.p < VPNS && old(SlotOf(e.p, e.s))
      requires mem.Length1 == PT_ENTRIES && old(next) <= mem.Length0 && StoredAt(e)
      requires Tree()
      ensures RootEntries()
    {
      hide Upper;
      hide Lower;
    }

    twostate lemma StoredMid(e: Stored)
      requires old(Valid()) && e.p < VPNS && old(SlotOf(e.p, e.s))
      requires mem.Length1 == PT_ENTRIES && old(next) <= mem.Length0 && StoredAt(e)
      requires Tree()
      ensures MidEntries()
    {
      hide Upper;
      hide Lower;
      forall k | 0 <= k < 0x4_0000 && Upper(k) in mid
        ensures mem[mid[Upper(k)], Lower(k)] == if k in low then PtdCreate(base + low[k]) else 0
      {
        assert mid[Upper(k)] != e.s.page;
        assert mem[mid[Upper(k)], Lower(k)] == old(mem[mid[Upper(k)], Lower(k)]);
      }
    }

    twostate lemma StoredLeaves(e: Stored)
      requires old(Valid()) && e.p < VPNS && old(SlotOf(e.p, e.s))
      requires mem.Length1 == PT_ENTRIES && old(next) <= mem.Length0 && StoredAt(e)
      requires Tree()
      ensures Leaves()
    {
      hide Upper;
      hide Lower;
      assert LeafKeys();
      forall q | 0 <= q < VPNS && Upper(q) in low
        ensures mem[low[Upper(q)], Lower(q)] == WordOf(q)
      {
        var i, j := low[Upper(q)], Lower(q);
        assert old(mem[low[Upper(q)], Lower(q)]) == old(WordOf(q));
        if Slot(i, j) == e.s {
          UpperLower(q, e.p);
        } else {
          assert q != e.p;
        }
      }
    }
  }
}
