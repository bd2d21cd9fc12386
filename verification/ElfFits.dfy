// When a program loads, and that the load does not show how pages are
// faulted in.
module ElfFits {
  import opened PageTable
  import opened FlatVm
  import opened VmRuns
  import opened DemandPaging
  import opened Mprotect
  import opened ElfImage

  // How far the mappings of a segment go.
  function Reach(h: Phdr): nat {
    if Prepad(h) + h.memsz > RoundUp(TextLen(h)) then Prepad(h) + h.memsz else TextLen(h)
  }

  // Every segment ends below the top of user memory, and there is no request
  // for a dynamic linker.
  predicate AllFit(ph: seq<Phdr>, n: nat, bias: nat, top: nat)
    requires n <= |ph|
  {
    forall i | 0 <= i < n :: ph[i].typ != PT_INTERP && (Loads(ph[i]) ==> Start(ph[i], bias) + Reach(ph[i]) <= top)
  }

  // What a mapping keeps.
  ghost predicate Keeps(s: Flat, t: Flat) {
    t == s.(leaf := t.leaf, prots := t.prots, frames := t.frames) && |t.frames| == |s.frames|
  }

  // The text: it is always populated, so it takes no region for good, and
  // taking back its write permission cannot fail.
  lemma TextFits(s: Flat, h: Phdr, bias: nat, file: seq<bv8>)
    requires Inv(s) && InFile(h, file)
    ensures LoadText(s, h, bias, file).Some? <==> Start(h, bias) + TextLen(h) <= s.mmapMax && Spare(s)
    ensures LoadText(s, h, bias, file).Some? ==>
              Keeps(s, LoadText(s, h, bias, file).value) && NoNewLazy(s, LoadText(s, h, bias, file).value)
  {
    hide Inv;
    hide Mmap;
    hide Mapping;
    hide Overlay;
    hide DoMprotect;
    hide ProtToType;
    hide Populate;
    hide Has;
    var p, n, prot := StartPage(h, bias), Pages(TextLen(h)), GetProt(h.flags);
    MmapAddr(s, Start(h, bias), TextLen(h), prot | WRITE, true);
    PageStartOf(p);
    if Start(h, bias) + TextLen(h) <= s.mmapMax && Spare(s) {
      TextMapped(s, h, bias);
      TextCopied(s, h, bias, file);
    }
  }

  lemma TextCopied(s: Flat, h: Phdr, bias: nat, file: seq<bv8>)
    requires Inv(s) && InFile(h, file)
    requires Mmap(s, Start(h, bias), TextLen(h), GetProt(h.flags) | WRITE, true, true).addr.Some?
    ensures LoadText(s, h, bias, file).Some?
    ensures Keeps(s, LoadText(s, h, bias, file).value) && NoNewLazy(s, LoadText(s, h, bias, file).value)
  {
    hide Inv;
    hide Mmap;
    hide Mapping;
    hide CopyIn;
    hide DoMprotect;
    hide ProtToType;
    hide FirstUnused;
    hide Has;
    var p, n, prot := StartPage(h, bias), Pages(TextLen(h)), GetProt(h.flags);
    TextMapped(s, h, bias);
    var v := FirstUnused(s.leaf, 0);
    FirstUnusedFree(s.leaf);
    var m := Mapping(s, p, n, v, prot | WRITE, true);
    MapKeeps(s, p, n, v, prot | WRITE, true);
    MappingFrames(s, p, n, v, prot | WRITE, p);
    var c := CopyIn(m, h, bias, file);
    CopyRest(m, h, bias, file);
    forall x: nat
      ensures x in c.leaf ==>
                c.leaf[x] == if Within(x, p, n) then Mapped(x + s.off, ProtToType(prot | WRITE, true)) else s.leaf[x]
                  ensures x in c.leaf <==> Within(x, p, n) || x in s.leaf {
      PopulateAt(s.leaf, p, n, s.off, ProtToType(prot | WRITE, true), x);
    }
    WriteAdds(prot);
    if !Has(prot, WRITE) {
      MmapMaxBound(s);
      TextProtected(s, h, bias, c);
      forall x: nat ensures var t := Populate(c.leaf, p, n, c.off, ProtToType(prot, true));
                            x in t && t[x].Lazy? ==> x in s.leaf && s.leaf[x] == t[x] {
        PopulateAt(c.leaf, p, n, c.off, ProtToType(prot, true), x);
      }
    }
  }

  lemma MapKeeps(s: Flat, p: nat, n: nat, v: nat, prot: Prot, eager: bool)
    requires |s.prots| == MAX_VMR && v < MAX_VMR
    ensures Keeps(s, Mapping(s, p, n, v, prot, eager))
  {
  }

  // One segment, and the region its pages without file bytes may keep.
  lemma SegmentFits(s: Flat, h: Phdr, bias: nat, file: seq<bv8>)
    requires Inv(s) && InFile(h, file) && |UsedSlots(s.leaf)| + (if s.demand then 1 else 0) < MAX_VMR
    ensures LoadSegment(s, h, bias, file).Some? <==> Start(h, bias) + Reach(h) <= s.mmapMax
    ensures LoadSegment(s, h, bias, file).Some? ==>
              var t := LoadSegment(s, h, bias, file).value;
              Keeps(s, t) && |UsedSlots(t.leaf)| <= |UsedSlots(s.leaf)| + if s.demand then 1 else 0
  {
    hide Inv;
    hide LoadText;
    hide Mmap;
    hide UsedSlots;
    hide RoundUp;
    hide NoNewLazy;
    hide Spare;
    SpareSlots(s);
    TextFits(s, h, bias, file);
    SegmentPages(h, bias);
    var mapped := RoundUp(TextLen(h));
    TextCovers(h);
    if LoadText(s, h, bias, file).Some? {
      var t := LoadText(s, h, bias, file).value;
      LoadTextInv(s, h, bias, file);
      SlotsFall(s, t);
      SpareSlots(t);
      if Prepad(h) + h.memsz > mapped {
        BssFits(t, StartPage(h, bias) + Pages(TextLen(h)), Prepad(h) + h.memsz - mapped, GetProt(h.flags));
      }
    }
  }

  lemma TextCovers(h: Phdr)
    ensures TextLen(h) <= Reach(h) && TextLen(h) <= RoundUp(TextLen(h))
  {
  }

  lemma BssFits(s: Flat, p: nat, len: nat, prot: Prot)
    requires Inv(s) && Spare(s)
    ensures Mmap(s, p * PGSIZE, len, prot, true, false).addr.Some? <==> p * PGSIZE + len <= s.mmapMax
    ensures Mmap(s, p * PGSIZE, len, prot, true, false).addr.Some? ==>
              var t := Mmap(s, p * PGSIZE, len, prot, true, false).s;
              Keeps(s, t) && |UsedSlots(t.leaf)| <= |UsedSlots(s.leaf)| + if s.demand then 1 else 0
  {
    hide Inv;
    hide Mapping;
    hide Mmap;
    hide UsedSlots;
    MmapAddr(s, p * PGSIZE, len, prot, false);
    if p * PGSIZE + len <= s.mmapMax {
      BssMapped(s, p * PGSIZE, p, len, prot);
      MapKeeps(s, p, Pages(len), FirstUnused(s.leaf, 0), prot, !s.demand);
      MapSlots(s, p, Pages(len), FirstUnused(s.leaf, 0), prot, !s.demand);
    }
  }

  // The whole program, with a region to spare for each header when mappings
  // are lazy: it loads if and only if it fits.
  lemma {:induction false} LoadFits(s: Flat, ph: seq<Phdr>, n: nat, bias: nat, file: seq<bv8>)
    requires Inv(s) && n <= |ph| && forall i | 0 <= i < n :: Loads(ph[i]) ==> InFile(ph[i], file)
    requires |UsedSlots(s.leaf)| + (if s.demand then n else 0) < MAX_VMR
    ensures LoadAll(s, ph, n, bias, file).Some? <==> AllFit(ph, n, bias, s.mmapMax)
    ensures LoadAll(s, ph, n, bias, file).Some? ==>
              var t := LoadAll(s, ph, n, bias, file).value;
              Inv(t) && Keeps(s, t) && |UsedSlots(t.leaf)| <= |UsedSlots(s.leaf)| + if s.demand then n else 0
    decreases n
  {
    hide Inv;
    hide LoadSegment;
    hide UsedSlots;
    if n > 0 {
      var h := ph[n - 1];
      if h.typ != PT_INTERP {
        if Loads(h) {
          SegmentFits(s, h, bias, file);
          if LoadSegment(s, h, bias, file).Some? {
            SegmentSees(s, h, bias, file, 0);
            LoadFits(LoadSegment(s, h, bias, file).value, ph, n - 1, bias, file);
          }
        } else {
          LoadFits(s, ph, n - 1, bias, file);
        }
      }
    }
  }

  // Loading the same program into states that look alike gives states that
  // look alike.
  lemma LoadAlike(s: Flat, t: Flat, ph: seq<Phdr>, bias: nat, file: seq<bv8>)
    requires Inv(s) && Inv(t) && Alike(s, t) && forall i | 0 <= i < |ph| :: Loads(ph[i]) ==> InFile(ph[i], file)
    requires |UsedSlots(s.leaf)| + (if s.demand then |ph| else 0) < MAX_VMR
    requires |UsedSlots(t.leaf)| + (if t.demand then |ph| else 0) < MAX_VMR
    ensures var s', t' := LoadAll(s, ph, |ph|, bias, file), LoadAll(t, ph, |ph|, bias, file);
            (s'.Some? <==> t'.Some?) && (s'.Some? ==> Alike(s'.value, t'.value))
  {
    hide Inv;
    hide LoadAll;
    hide UsedSlots;
    hide SeenAt;
    LoadFits(s, ph, |ph|, bias, file);
    LoadFits(t, ph, |ph|, bias, file);
    if LoadAll(s, ph, |ph|, bias, file).Some? {
      var s', t' := LoadAll(s, ph, |ph|, bias, file).value, LoadAll(t, ph, |ph|, bias, file).value;
      forall q: nat ensures q in s'.leaf <==> q in t'.leaf
                    ensures q in s'.leaf ==> SeenAt(s', q) == SeenAt(t', q) {
        LoadedPage(s, ph, |ph|, bias, file, q);
        LoadedPage(t, ph, |ph|, bias, file, q);
      }
    }
  }

  // No page of a program that fits lies above the kernel.
  lemma LoadLow(s: Flat, ph: seq<Phdr>, bias: nat, file: seq<bv8>)
    requires Inv(s) && Low(s) && forall i | 0 <= i < |ph| :: Loads(ph[i]) ==> InFile(ph[i], file)
    requires AllFit(ph, |ph|, bias, s.mmapMax) && LoadAll(s, ph, |ph|, bias, file).Some?
    ensures Low(LoadAll(s, ph, |ph|, bias, file).value)
  {
    hide LoadAll;
    hide SegPage;
    FramesBound(s);
    var t := LoadAll(s, ph, |ph|, bias, file).value;
    forall q <- t.leaf ensures q < t.off {
      LoadedPage(s, ph, |ph|, bias, file, q);
      var i := FirstCover(ph, |ph|, bias, q);
      if i < |ph| {
        ReachPages(ph[i], bias, s.mmapMax);
      }
    }
  }

  lemma ReachPages(h: Phdr, bias: nat, top: nat)
    requires Start(h, bias) + Reach(h) <= top
    ensures StartPage(h, bias) + Pages(Extent(h)) <= Pages(top)
  {
    SegmentPages(h, bias);
  }
}
