// What load_elf leaves in memory, on the flat meaning of the memory manager.
module ElfImage {
  import opened PageTable
  import opened FlatVm
  import opened VmRuns
  import opened DemandPaging
  import opened Mprotect

  const PT_LOAD: nat := 1
  const PT_INTERP: nat := 3
  const PF_X: bv32 := 1
  const PF_W: bv32 := 2
  const PF_R: bv32 := 4

  // The fields of a program header that the loader reads.
  datatype Phdr = Phdr(typ: nat, flags: bv32, offset: nat, vaddr: nat, filesz: nat, memsz: nat)

  // get_prot: the bits of p_flags in mmap's order.
  function GetProt(flags: bv32): Prot {
    (if flags & PF_X != 0 then EXEC else 0) | (if flags & PF_W != 0 then WRITE else 0)
    | (if flags & PF_R != 0 then READ else 0)
  }

  lemma GetProtBits(flags: bv32)
    ensures Has(GetProt(flags), READ) == (flags & PF_R != 0)
    ensures Has(GetProt(flags), WRITE) == (flags & PF_W != 0)
    ensures Has(GetProt(flags), EXEC) == (flags & PF_X != 0)
  {
  }

  function Prepad(h: Phdr): (n: nat) ensures n < PGSIZE { h.vaddr % PGSIZE }

  // The page the segment starts on, `bias` being a number of pages.
  function StartPage(h: Phdr, bias: nat): nat { h.vaddr / PGSIZE + bias }
  function Start(h: Phdr, bias: nat): nat { StartPage(h, bias) * PGSIZE }
  function TextLen(h: Phdr): nat { h.filesz + Prepad(h) }
  function Extent(h: Phdr): nat { Prepad(h) + if h.filesz < h.memsz then h.memsz else h.filesz }
  predicate Loads(h: Phdr) { h.typ == PT_LOAD && h.memsz > 0 }
  predicate Covers1(h: Phdr, bias: nat, q: nat) { Loads(h) && Within(q, StartPage(h, bias), Pages(Extent(h))) }

  predicate InFile(h: Phdr, file: seq<bv8>) { h.offset + h.filesz <= |file| }

  // Byte k of the segment's pages: padding, file, and zeros to the end.
  function Content(h: Phdr, file: seq<bv8>, k: nat): bv8
    requires InFile(h, file)
  {
    if Prepad(h) <= k < TextLen(h) then file[h.offset + k - Prepad(h)] else 0
  }

  function ContentPage(h: Phdr, file: seq<bv8>, j: nat): (p: Page)
    requires InFile(h, file)
    ensures |p| == PGSIZE && forall o | 0 <= o < PGSIZE :: p[o] == Content(h, file, j * PGSIZE + o)
  {
    seq(PGSIZE, o requires 0 <= o => Content(h, file, j * PGSIZE + o))
  }

  // Page q as the process sees it once the segment is loaded.
  function SegPage(h: Phdr, bias: nat, file: seq<bv8>, off: nat, q: nat): Seen
    requires InFile(h, file) && StartPage(h, bias) <= q
  {
    Seen(Mapped(q + off, ProtToType(GetProt(h.flags), true)), ContentPage(h, file, q - StartPage(h, bias)))
  }

  // ---- copying ----

  predicate FullPages(frames: seq<Page>) { forall i | 0 <= i < |frames| :: |frames[i]| == PGSIZE }

  lemma FramesFull(s: Flat)
    requires Inv(s)
    ensures FullPages(s.frames)
  {
  }

  // The frames with bytes written from user address a on.
  function Overlay(frames: seq<Page>, a: nat, bytes: seq<bv8>): (r: seq<Page>)
    requires FullPages(frames)
    ensures |r| == |frames| && FullPages(r)
    ensures forall p, o | 0 <= p < |frames| && 0 <= o < PGSIZE ::
              r[p][o] == if a <= p * PGSIZE + o < a + |bytes| then bytes[p * PGSIZE + o - a] else frames[p][o]
  {
    seq(|frames|, p requires 0 <= p < |frames| =>
      seq(PGSIZE, o requires 0 <= o < PGSIZE =>
        if a <= p * PGSIZE + o < a + |bytes| then bytes[p * PGSIZE + o - a] else frames[p][o]))
  }

  lemma OverlayNone(frames: seq<Page>, a: nat)
    requires FullPages(frames)
    ensures Overlay(frames, a, []) == frames
  {
    forall p | 0 <= p < |frames| ensures Overlay(frames, a, [])[p] == frames[p] {
    }
  }

  lemma OverlayNext(frames: seq<Page>, a: nat, bytes: seq<bv8>, k: nat)
    requires FullPages(frames) && k < |bytes| && (a + k) / PGSIZE < |frames|
    ensures var f, p := Overlay(frames, a, bytes[..k]), (a + k) / PGSIZE;
            f[p := f[p][(a + k) % PGSIZE := bytes[k]]] == Overlay(frames, a, bytes[..k + 1])
  {
    var f, g, p, o :=
          Overlay(frames, a, bytes[..k]), Overlay(frames, a, bytes[..k + 1]), (a + k) / PGSIZE, (a + k) % PGSIZE;
    var h := f[p := f[p][o := bytes[k]]];
    forall i | 0 <= i < |frames| ensures h[i] == g[i] {
      forall j | 0 <= j < PGSIZE ensures h[i][j] == g[i][j] {
        if i * PGSIZE + j == a + k {
          assert i == p && j == o;
        }
      }
    }
  }

  // ---- one segment ----

  function FileBytes(h: Phdr, file: seq<bv8>): seq<bv8>
    requires InFile(h, file)
  {
    file[h.offset..h.offset + h.filesz]
  }

  // The file bytes first, then the padding in front of them.
  function CopyIn(s: Flat, h: Phdr, bias: nat, file: seq<bv8>): Flat
    requires FullPages(s.frames) && InFile(h, file)
  {
    var f := Overlay(s.frames, Start(h, bias) + Prepad(h), FileBytes(h, file));
    s.(frames := Overlay(f, Start(h, bias), seq(Prepad(h), _ => 0)))
  }

  // The part of a segment that has file bytes on its pages; None is a panic.
  ghost function LoadText(s: Flat, h: Phdr, bias: nat, file: seq<bv8>): Option<Flat>
    requires Inv(s) && InFile(h, file)
  {
    var prot := GetProt(h.flags);
    var m := Mmap(s, Start(h, bias), TextLen(h), prot | WRITE, true, true);
    if m.addr.None? then None
    else
      MmapInv(s, Start(h, bias), TextLen(h), prot | WRITE, true, true);
      var c := CopyIn(m.s, h, bias, file);
      if Has(prot, WRITE) then Some(c)
      else
        var (t, r) := DoMprotect(c, Start(h, bias), TextLen(h), prot);
        if r != 0 then None else Some(t)
  }

  // The rest of the segment, on pages of its own.
  ghost function LoadSegment(s: Flat, h: Phdr, bias: nat, file: seq<bv8>): Option<Flat>
    requires Inv(s) && InFile(h, file)
  {
    var t := LoadText(s, h, bias, file);
    var mapped := RoundUp(TextLen(h));
    if t.None? || Prepad(h) + h.memsz <= mapped then t
    else
      LoadTextInv(s, h, bias, file);
      var m := Mmap(t.value, Start(h, bias) + mapped, Prepad(h) + h.memsz - mapped, GetProt(h.flags), true, false);
      if m.addr.None? then None else Some(m.s)
  }

  lemma CopyInv(s: Flat, h: Phdr, bias: nat, file: seq<bv8>)
    requires Inv(s) && InFile(h, file)
    ensures Inv(CopyIn(s, h, bias, file))
  {
  }

  lemma LoadTextInv(s: Flat, h: Phdr, bias: nat, file: seq<bv8>)
    requires Inv(s) && InFile(h, file) && LoadText(s, h, bias, file).Some?
    ensures Inv(LoadText(s, h, bias, file).value)
  {
    hide Mmap;
    hide CopyIn;
    hide MprotectFrom;
    var prot := GetProt(h.flags);
    MmapInv(s, Start(h, bias), TextLen(h), prot | WRITE, true, true);
    var m := Mmap(s, Start(h, bias), TextLen(h), prot | WRITE, true, true);
    if m.addr.Some? {
      CopyInv(m.s, h, bias, file);
      var c := CopyIn(m.s, h, bias, file);
      MprotectInv(c, Start(h, bias), (Start(h, bias) + TextLen(h)) % WORD, prot);
    }
  }

  // ---- the protection of the pages with file bytes ----

  lemma WriteAdds(prot: Prot)
    ensures Has(prot, READ) ==> ProtToType(prot | WRITE, true).r
    ensures ProtToType(prot | WRITE, true).w && ProtToType(prot | WRITE, true).u
    ensures Has(prot, EXEC) ==> ProtToType(prot | WRITE, true).x
    ensures Has(prot, WRITE) ==> prot | WRITE == prot
  {
    assert (prot | WRITE) & READ == prot & READ;
    assert (prot | WRITE) & EXEC == prot & EXEC;
    assert (prot | WRITE) & WRITE == WRITE;
    if Has(prot, WRITE) {
      assert prot & 2 == 2;
    }
  }

  // Dropping the write permission that the copy needed always succeeds, page
  // after page.
  lemma {:induction false} ProtectFrom(s: Flat, p: nat, n: nat, end: nat, prot: Prot)
    requires |s.prots| == MAX_VMR && p + n <= VPNS && EndsIn(p, n, end)
    requires forall q: nat | Within(q, p, n) ::
               q in s.leaf && s.leaf[q] == Mapped(q + s.off, ProtToType(prot | WRITE, true))
    ensures MprotectFrom(s, p * PGSIZE, end, prot)
         == (s.(leaf := Populate(s.leaf, p, n, s.off, ProtToType(prot, true))), 0)
    decreases n
  {
    hide ProtectPage;
    hide ProtToType;
    hide Populate;
    hide Vpn;
    if n == 0 {
      PopulateNone(s.leaf, p, s.off, ProtToType(prot, true));
    } else {
      PageNumber(p);
      assert Within(p, p, n);
      ProtectOne(s, p, prot);
      var t := s.(leaf := s.leaf[p := Mapped(p + s.off, ProtToType(prot, true))]);
      forall q: nat | Within(q, p + 1, n - 1)
        ensures q in t.leaf && t.leaf[q] == Mapped(q + s.off, ProtToType(prot | WRITE, true))
      {
        assert Within(q, p, n);
      }
      ProtectFrom(t, p + 1, n - 1, end, prot);
      PopulateFirst(s.leaf, p, n, s.off, ProtToType(prot, true));
    }
  }

  lemma ProtectOne(s: Flat, p: nat, prot: Prot)
    requires |s.prots| == MAX_VMR && p in s.leaf && s.leaf[p] == Mapped(p + s.off, ProtToType(prot | WRITE, true))
    ensures ProtectPage(s, p, prot) == Some(s.(leaf := s.leaf[p := Mapped(p + s.off, ProtToType(prot, true))]))
  {
    hide ProtToType;
    WriteAdds(prot);
  }

  lemma PopulateFirst(leaf: map<nat, Leaf>, p: nat, n: nat, off: nat, perm: Perm)
    requires n > 0
    ensures Populate(leaf[p := Mapped(p + off, perm)], p + 1, n - 1, off, perm) == Populate(leaf, p, n, off, perm)
  {
    hide Populate;
    var g, h := Populate(leaf[p := Mapped(p + off, perm)], p + 1, n - 1, off, perm), Populate(leaf, p, n, off, perm);
    PopulateAt(leaf, p, n, off, perm, p);
    PopulateAt(leaf[p := Mapped(p + off, perm)], p + 1, n - 1, off, perm, p);
    forall q: nat
      ensures q in g <==> q in h
      ensures q in g ==> g[q] == h[q]
    {
      PopulateAt(leaf, p, n, off, perm, q);
      PopulateAt(leaf[p := Mapped(p + off, perm)], p + 1, n - 1, off, perm, q);
    }
    assert g == h;
  }

  // ---- what each page shows ----

  // The mapping for the text, when it succeeds.
  lemma TextMapped(s: Flat, h: Phdr, bias: nat)
    requires Inv(s) && Mmap(s, Start(h, bias), TextLen(h), GetProt(h.flags) | WRITE, true, true).addr.Some?
    ensures var v, prot := FirstUnused(s.leaf, 0), GetProt(h.flags) | WRITE;
            && v < MAX_VMR && |s.prots| == MAX_VMR
            && Mmap(s, Start(h, bias), TextLen(h), prot, true, true).s ==
               Mapping(s, StartPage(h, bias), Pages(TextLen(h)), v, prot, true)
            && StartPage(h, bias) + Pages(TextLen(h)) <= |s.frames| <= DRAM_PAGE
            && Start(h, bias) + TextLen(h) <= s.mmapMax < WORD
  {
    PagesOf(Start(h, bias), TextLen(h), s.mmapMax);
    PageStartOf(StartPage(h, bias));
  }

  lemma PageStartOf(p: nat)
    ensures p * PGSIZE / PGSIZE == p && p * PGSIZE % PGSIZE == 0
  {
  }

  lemma CopySees(s: Flat, h: Phdr, bias: nat, file: seq<bv8>, q: nat)
    requires FullPages(s.frames) && InFile(h, file) && q < |s.frames|
    requires Within(q, StartPage(h, bias), Pages(TextLen(h))) ==> s.frames[q] == Zeros()
    ensures CopyIn(s, h, bias, file).frames[q] ==
            if Within(q, StartPage(h, bias), Pages(TextLen(h))) then ContentPage(h, file, q - StartPage(h, bias))
            else s.frames[q]
  {
    var c := CopyIn(s, h, bias, file).frames[q];
    var want :=
      if Within(q, StartPage(h, bias), Pages(TextLen(h))) then ContentPage(h, file, q - StartPage(h, bias))
      else s.frames[q];
    forall o | 0 <= o < PGSIZE ensures c[o] == want[o] {
      CopyByte(h, bias, file, q, o);
    }
  }

  // Which byte of the segment an address is.
  lemma CopyByte(h: Phdr, bias: nat, file: seq<bv8>, q: nat, o: nat)
    requires InFile(h, file) && o < PGSIZE
    ensures var a := q * PGSIZE + o;
            && (Start(h, bias) <= a < Start(h, bias) + TextLen(h) ==> Within(q, StartPage(h, bias), Pages(TextLen(h))))
            && (StartPage(h, bias) <= q ==> (q - StartPage(h, bias)) * PGSIZE + o == a - Start(h, bias))
            && (q < StartPage(h, bias) ==> a < Start(h, bias))
  {
  }

  // After the mapping and the copy.
  lemma CopiedSees(s: Flat, h: Phdr, bias: nat, file: seq<bv8>, v: nat, q: nat)
    requires Inv(s) && InFile(h, file) && v < MAX_VMR && !Used(s.leaf, v) && |s.prots| == MAX_VMR
    requires StartPage(h, bias) + Pages(TextLen(h)) <= |s.frames|
    ensures var p, n, prot := StartPage(h, bias), Pages(TextLen(h)), GetProt(h.flags) | WRITE;
            var m := Mapping(s, p, n, v, prot, true);
            FullPages(m.frames) &&
            var c := CopyIn(m, h, bias, file);
            && c == m.(frames := c.frames) && c.off == s.off && |c.prots| == MAX_VMR
            && (q in c.leaf <==> Within(q, p, n) || q in s.leaf)
            && (q in c.leaf && !Within(q, p, n) ==> SeenAt(c, q) == SeenAt(s, q))
            && (Within(q, p, n) ==> c.leaf[q] == Mapped(q + s.off, ProtToType(prot, true)) && q < |c.frames|
                                    && c.frames[q] == ContentPage(h, file, q - p))
  {
    hide ProtToType;
    hide CopyIn;
    hide Used;
    var p, n, prot := StartPage(h, bias), Pages(TextLen(h)), GetProt(h.flags) | WRITE;
    var m := Mapping(s, p, n, v, prot, true);
    MappingInv(s, p, n, v, prot, true);
    MappingFrames(s, p, n, v, prot, q);
    MappingSees(s, p, n, v, prot, true, q);
    PopulateAt(s.leaf, p, n, s.off, ProtToType(prot, true), q);
    CopyRest(m, h, bias, file);
    if q < |m.frames| {
      CopySees(m, h, bias, file, q);
    }
    SameSeen(m, CopyIn(m, h, bias, file), q);
  }

  lemma MappingFrames(s: Flat, p: nat, n: nat, v: nat, prot: Prot, q: nat)
    requires Inv(s) && v < MAX_VMR && |s.prots| == MAX_VMR
    ensures var m := Mapping(s, p, n, v, prot, true);
            && |m.frames| == |s.frames| && FullPages(m.frames) && m.off == s.off && |m.prots| == MAX_VMR
            && m.leaf == Populate(s.leaf, p, n, s.off, ProtToType(prot, true))
            && (q < |m.frames| && Within(q, p, n) ==> m.frames[q] == Zeros())
  {
  }

  lemma CopyRest(m: Flat, h: Phdr, bias: nat, file: seq<bv8>)
    requires FullPages(m.frames) && InFile(h, file)
    ensures var c := CopyIn(m, h, bias, file); c == m.(frames := c.frames) && |c.frames| == |m.frames|
  {
  }

  lemma SameSeen(s: Flat, t: Flat, q: nat)
    requires t == s.(frames := t.frames) && |t.frames| == |s.frames|
    ensures q in s.leaf && (q < |s.frames| ==> s.frames[q] == t.frames[q]) ==> SeenAt(s, q) == SeenAt(t, q)
  {
  }

  // What mprotect of the text leaves: the pages with file bytes are the
  // segment's, with its own protection, and no other page is touched.
  lemma TextSees(s: Flat, h: Phdr, bias: nat, file: seq<bv8>, q: nat)
    requires Inv(s) && InFile(h, file) && LoadText(s, h, bias, file).Some?
    ensures var t, p, n := LoadText(s, h, bias, file).value, StartPage(h, bias), Pages(TextLen(h));
            && t.off == s.off && (q in t.leaf <==> Within(q, p, n) || q in s.leaf)
            && (q in t.leaf ==>
                  SeenAt(t, q) == if Within(q, p, n) then SegPage(h, bias, file, s.off, q) else SeenAt(s, q))
  {
    hide ProtToType;
    hide Inv;
    hide Mapping;
    hide CopyIn;
    hide MprotectFrom;
    hide ContentPage;
    hide FirstUnused;
    hide Mmap;
    var p, n, prot := StartPage(h, bias), Pages(TextLen(h)), GetProt(h.flags);
    TextMapped(s, h, bias);
    var v := FirstUnused(s.leaf, 0);
    FirstUnusedFree(s.leaf);
    CopiedSees(s, h, bias, file, v, q);
    var c := CopyIn(Mapping(s, p, n, v, prot | WRITE, true), h, bias, file);
    WriteAdds(prot);
    if !Has(prot, WRITE) {
      forall x: nat | Within(x, p, n)
        ensures x in c.leaf && c.leaf[x] == Mapped(x + c.off, ProtToType(prot | WRITE, true)) {
        CopiedSees(s, h, bias, file, v, x);
      }
      TextProtected(s, h, bias, c);
      PopulateAt(c.leaf, p, n, c.off, ProtToType(prot, true), q);
    }
  }

  lemma FirstUnusedFree(leaf: map<nat, Leaf>)
    ensures FirstUnused(leaf, 0) < MAX_VMR ==> !Used(leaf, FirstUnused(leaf, 0))
  {
  }

  lemma TextProtected(s: Flat, h: Phdr, bias: nat, c: Flat)
    requires Inv(s) && StartPage(h, bias) + Pages(TextLen(h)) <= DRAM_PAGE && Start(h, bias) + TextLen(h) < WORD
             && |c.prots| == MAX_VMR
    requires forall x: nat | Within(x, StartPage(h, bias), Pages(TextLen(h))) ::
               x in c.leaf && c.leaf[x] == Mapped(x + c.off, ProtToType(GetProt(h.flags) | WRITE, true))
    ensures DoMprotect(c, Start(h, bias), TextLen(h), GetProt(h.flags))
         == (c.(leaf := Populate(c.leaf, StartPage(h, bias), Pages(TextLen(h)), c.off,
                                 ProtToType(GetProt(h.flags), true))), 0)
  {
    hide ProtToType;
    hide MprotectFrom;
    hide Populate;
    PageStartOf(StartPage(h, bias));
    RangePages(TextLen(h), StartPage(h, bias));
    ProtectFrom(c, StartPage(h, bias), Pages(TextLen(h)), Start(h, bias) + TextLen(h), GetProt(h.flags));
  }

  // The remaining pages are all zeros, which is what Content says of them.
  lemma BssPage(h: Phdr, bias: nat, file: seq<bv8>, off: nat, q: nat)
    requires InFile(h, file) && StartPage(h, bias) + Pages(TextLen(h)) <= q
    ensures SegPage(h, bias, file, off, q) == Fresh(off, q, GetProt(h.flags))
  {
    var j := q - StartPage(h, bias);
    forall o | 0 <= o < PGSIZE ensures ContentPage(h, file, j)[o] == Zeros()[o] {
      assert j * PGSIZE + o >= TextLen(h);
    }
    assert ContentPage(h, file, j) == Zeros();
  }

  // The text pages and the rest make up the segment's pages.
  lemma SegmentPages(h: Phdr, bias: nat)
    ensures var n, mapped := Pages(TextLen(h)), RoundUp(TextLen(h));
            && mapped == n * PGSIZE
            && (Prepad(h) + h.memsz <= mapped ==> Pages(Extent(h)) == n)
            && (Prepad(h) + h.memsz > mapped ==> Pages(Extent(h)) == n + Pages(Prepad(h) + h.memsz - mapped))
            && Start(h, bias) + mapped == (StartPage(h, bias) + n) * PGSIZE
  {
    var n := Pages(TextLen(h));
    if Prepad(h) + h.memsz > n * PGSIZE {
      MorePages(Prepad(h) + h.memsz, n);
    }
  }

  lemma MorePages(len: nat, n: nat)
    requires len > n * PGSIZE
    ensures Pages(len) == n + Pages(len - n * PGSIZE)
  {
  }

  lemma BssMapped(s: Flat, a: nat, p: nat, len: nat, prot: Prot)
    requires Inv(s) && a == p * PGSIZE && Mmap(s, a, len, prot, true, false).addr.Some?
    ensures var v := FirstUnused(s.leaf, 0);
            && v < MAX_VMR && |s.prots| == MAX_VMR && p + Pages(len) <= |s.frames|
            && Mmap(s, a, len, prot, true, false).s == Mapping(s, p, Pages(len), v, prot, !s.demand)
            && Mmap(s, a, len, prot, true, false).s.off == s.off
  {
    PagesOf(a, len, s.mmapMax);
    PageStartOf(p);
  }

  // One segment: its pages, whole, read as Content says under its own
  // protection, and every other page is as it was.
  lemma SegmentSees(s: Flat, h: Phdr, bias: nat, file: seq<bv8>, q: nat)
    requires Inv(s) && InFile(h, file) && LoadSegment(s, h, bias, file).Some?
    ensures var t, p, n := LoadSegment(s, h, bias, file).value, StartPage(h, bias), Pages(Extent(h));
            && Inv(t) && t.off == s.off && (q in t.leaf <==> Within(q, p, n) || q in s.leaf)
            && (q in t.leaf ==>
                  SeenAt(t, q) == if Within(q, p, n) then SegPage(h, bias, file, s.off, q) else SeenAt(s, q))
  {
    hide ProtToType;
    hide Inv;
    hide Mapping;
    hide LoadText;
    hide ContentPage;
    hide FirstUnused;
    hide Mmap;
    hide RoundUp;
    hide Pages;
    hide SegPage;
    hide Fresh;
    hide SeenAt;
    var t := LoadText(s, h, bias, file).value;
    LoadTextInv(s, h, bias, file);
    TextSees(s, h, bias, file, q);
    SegmentPages(h, bias);
    var p, n, mapped, prot := StartPage(h, bias), Pages(TextLen(h)), RoundUp(TextLen(h)), GetProt(h.flags);
    if Prepad(h) + h.memsz > mapped {
      var len := Prepad(h) + h.memsz - mapped;
      MmapInv(t, Start(h, bias) + mapped, len, prot, true, false);
      BssMapped(t, Start(h, bias) + mapped, p + n, len, prot);
      FirstUnusedFree(t.leaf);
      MappingSees(t, p + n, Pages(len), FirstUnused(t.leaf, 0), prot, !t.demand, q);
      if q >= p + n {
        BssPage(h, bias, file, s.off, q);
      }
    }
  }

  // ---- the whole program ----

  // load_elf goes through the headers from the last to the first.
  ghost function LoadAll(s: Flat, ph: seq<Phdr>, n: nat, bias: nat, file: seq<bv8>): Option<Flat>
    requires Inv(s) && n <= |ph| && forall i | 0 <= i < n :: Loads(ph[i]) ==> InFile(ph[i], file)
    decreases n
  {
    if n == 0 then Some(s)
    else
      var h := ph[n - 1];
      if h.typ == PT_INTERP then None
      else if !Loads(h) then LoadAll(s, ph, n - 1, bias, file)
      else
        var t := LoadSegment(s, h, bias, file);
        if t.None? then None else (SegmentSees(s, h, bias, file, 0); LoadAll(t.value, ph, n - 1, bias, file))
  }

  // The first of the headers that covers page q; n when none does.
  function FirstCover(ph: seq<Phdr>, n: nat, bias: nat, q: nat): (i: nat)
    requires n <= |ph|
    ensures i <= n && (i < n ==> Covers1(ph[i], bias, q)) && forall j | 0 <= j < i :: !Covers1(ph[j], bias, q)
  {
    if n == 0 then 0
    else
      var i := FirstCover(ph, n - 1, bias, q);
      if i < n - 1 || Covers1(ph[n - 1], bias, q) then i else n
  }

  // For any program: a page belongs to the first segment in the table that
  // covers it, which is loaded last; pages of no segment are untouched.
  lemma {:induction false} LoadedPage(s: Flat, ph: seq<Phdr>, n: nat, bias: nat, file: seq<bv8>, q: nat)
    requires Inv(s) && n <= |ph| && forall i | 0 <= i < n :: Loads(ph[i]) ==> InFile(ph[i], file)
    requires LoadAll(s, ph, n, bias, file).Some?
    ensures var t, i := LoadAll(s, ph, n, bias, file).value, FirstCover(ph, n, bias, q);
            && Inv(t) && t.off == s.off && (q in t.leaf <==> i < n || q in s.leaf)
            && (i < n ==> SeenAt(t, q) == SegPage(ph[i], bias, file, s.off, q))
            && (i == n && q in s.leaf ==> SeenAt(t, q) == SeenAt(s, q))
    decreases n
  {
    hide Inv;
    hide LoadSegment;
    hide SegPage;
    hide SeenAt;
    hide Pages;
    if n > 0 {
      var h := ph[n - 1];
      if Loads(h) {
        SegmentSees(s, h, bias, file, q);
        SegmentSees(s, h, bias, file, 0);
        LoadedPage(LoadSegment(s, h, bias, file).value, ph, n - 1, bias, file, q);
      } else {
        LoadedPage(s, ph, n - 1, bias, file, q);
      }
    }
  }

  ghost predicate Disjoint(ph: seq<Phdr>, bias: nat) {
    forall i, j, q: nat | 0 <= i < j < |ph| && Covers1(ph[i], bias, q) :: !Covers1(ph[j], bias, q)
  }

  // When the segments' pages are disjoint, every segment is in memory: its
  // padding zero, then its file bytes, then zeros, under its own protection.
  lemma LoadedImage(s: Flat, ph: seq<Phdr>, bias: nat, file: seq<bv8>, i: nat, q: nat)
    requires Inv(s) && i < |ph| && (forall i | 0 <= i < |ph| :: Loads(ph[i]) ==> InFile(ph[i], file))
    requires LoadAll(s, ph, |ph|, bias, file).Some? && Disjoint(ph, bias) && Covers1(ph[i], bias, q)
    ensures var t := LoadAll(s, ph, |ph|, bias, file).value;
            q in t.leaf && SeenAt(t, q) == SegPage(ph[i], bias, file, s.off, q)
  {
    hide Inv;
    hide SegPage;
    hide SeenAt;
    LoadedPage(s, ph, |ph|, bias, file, q);
    var j := FirstCover(ph, |ph|, bias, q);
    assert j <= i;
    assert Covers1(ph[j], bias, q);
  }

  // In addresses: the byte of a segment at its virtual address plus k.
  lemma LoadedByte(s: Flat, ph: seq<Phdr>, bias: nat, file: seq<bv8>, i: nat, k: nat)
    requires Inv(s) && i < |ph| && (forall i | 0 <= i < |ph| :: Loads(ph[i]) ==> InFile(ph[i], file))
    requires LoadAll(s, ph, |ph|, bias, file).Some? && Disjoint(ph, bias)
    requires Loads(ph[i]) && k < ph[i].memsz
    ensures var t, a := LoadAll(s, ph, |ph|, bias, file).value, ph[i].vaddr + bias * PGSIZE + k;
            && a / PGSIZE in t.leaf && |SeenAt(t, a / PGSIZE).page| == PGSIZE
            && SeenAt(t, a / PGSIZE).page[a % PGSIZE] == if k < ph[i].filesz then file[ph[i].offset + k] else 0
  {
    hide Inv;
    hide SeenAt;
    hide LoadAll;
    hide Disjoint;
    var h := ph[i];
    var a := h.vaddr + bias * PGSIZE + k;
    AddressPage(h, bias, k);
    LoadedImage(s, ph, bias, file, i, a / PGSIZE);
  }

  lemma AddressPage(h: Phdr, bias: nat, k: nat)
    requires k < Extent(h) - Prepad(h)
    ensures var a := h.vaddr + bias * PGSIZE + k;
            && Within(a / PGSIZE, StartPage(h, bias), Pages(Extent(h)))
            && (a / PGSIZE - StartPage(h, bias)) * PGSIZE + a % PGSIZE == Prepad(h) + k
  {
  }
}
