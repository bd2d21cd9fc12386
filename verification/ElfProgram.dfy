// A loaded program as the process finds it: each byte of each segment at its
// address, under the access its header allows.
module ElfProgram {
  import opened PageTable
  import opened FlatVm
  import opened VmRuns
  import opened DemandPaging
  import opened Access
  import opened ElfImage

  function Larger(a: nat, b: nat): nat { if a < b then b else a }

  // A page of the file that the header's segment has bytes on.
  predicate Spans(h: Phdr, q: nat) {
    h.typ == 1 && h.memsz > 0 && Meets(q, h.vaddr, Larger(h.filesz, h.memsz))
  }

  // No two segments share a page.
  ghost predicate Apart(ph: seq<Phdr>) {
    forall i, j, q: nat | 0 <= i < j < |ph| && Spans(ph[i], q) :: !Spans(ph[j], q)
  }

  // Byte k of the segment, as an access finds it that many pages above the
  // address in its header.
  ghost predicate FoundAt(t: Flat, h: Phdr, file: seq<bv8>, bias: nat, k: nat)
    requires Inv(t) && InFile(h, file)
  {
    var a := h.vaddr + bias * PGSIZE + k;
    var b := if k < h.filesz then file[h.offset + k] else 0;
    && Step(t, OpLoad(a, READ)).1 == (if h.flags & 4 != 0 then Byte(b) else Segfault)
    && Step(t, OpLoad(a, EXEC)).1 == (if h.flags & 1 != 0 then Byte(b) else Segfault)
    && Step(t, OpStore(a, 0)).1 == (if h.flags & 2 != 0 then Code(0) else Segfault)
  }

  // What loading at a distance of `bias` pages from the addresses of the
  // headers makes of s.
  ghost predicate Image(s: Flat, t: Flat, ph: seq<Phdr>, file: seq<bv8>, bias: nat)
    requires Inv(t) && forall i | 0 <= i < |ph| :: Loads(ph[i]) ==> InFile(ph[i], file)
  {
    && (Apart(ph) ==>
          forall i, k: nat | 0 <= i < |ph| && Loads(ph[i]) && k < ph[i].memsz ::
            FoundAt(t, ph[i], file, bias, k))
    && (forall q: nat | forall i | 0 <= i < |ph| :: q < bias || !Spans(ph[i], q - bias) ::
          (q in t.leaf <==> q in s.leaf) && (q in s.leaf ==> SeenAt(t, q) == SeenAt(s, q)))
  }

  function EndOf(h: Phdr, at: nat): nat { h.vaddr + at + h.memsz }

  // brk_min is raised to the greatest end of a loaded segment.
  ghost predicate BreakMoved(ph: seq<Phdr>, at: nat, before: nat, after: nat) {
    && before <= after
    && (forall i | 0 <= i < |ph| && ph[i].typ == 1 && ph[i].memsz > 0 :: EndOf(ph[i], at) <= after)
    && (after == before
        || exists i :: 0 <= i < |ph| && ph[i].typ == 1 && ph[i].memsz > 0 && EndOf(ph[i], at) == after)
  }

  // A program moved up one page leaves page 0 alone.
  lemma PageZero(s: Flat, t: Flat, ph: seq<Phdr>, bias: nat, file: seq<bv8>)
    requires Inv(t) && (forall i | 0 <= i < |ph| :: Loads(ph[i]) ==> InFile(ph[i], file)) && Image(s, t, ph, file, bias)
    ensures bias > 0 ==> (0 in t.leaf <==> 0 in s.leaf)
  {
    hide Inv;
    hide FoundAt;
    hide SeenAt;
  }

  lemma SpansIs(h: Phdr, bias: nat, q: nat)
    ensures Covers1(h, bias, q) <==> q >= bias && Spans(h, q - bias)
  {
  }

  lemma ApartIs(ph: seq<Phdr>, bias: nat)
    requires Apart(ph)
    ensures Disjoint(ph, bias)
  {
    forall i, j, q: nat | 0 <= i < j < |ph| && Covers1(ph[i], bias, q) ensures !Covers1(ph[j], bias, q) {
      SpansIs(ph[i], bias, q);
      SpansIs(ph[j], bias, q);
    }
  }

  // ---- the pages of a segment are in user memory ----

  lemma SegmentFrames(s: Flat, h: Phdr, bias: nat, file: seq<bv8>)
    requires Inv(s) && InFile(h, file) && LoadSegment(s, h, bias, file).Some?
    ensures var t := LoadSegment(s, h, bias, file).value;
            && StartPage(h, bias) + Pages(Extent(h)) <= |s.frames| == |t.frames| && t.mmapMax == s.mmapMax
  {
    hide Inv;
    hide Mapping;
    hide Mmap;
    hide RoundUp;
    hide Pages;
    TextFrames(s, h, bias, file);
    LoadTextInv(s, h, bias, file);
    SegmentPages(h, bias);
    var t, mapped := LoadText(s, h, bias, file).value, RoundUp(TextLen(h));
    hide LoadText;
    if Prepad(h) + h.memsz > mapped {
      var len, p := Prepad(h) + h.memsz - mapped, StartPage(h, bias) + Pages(TextLen(h));
      BssMapped(t, Start(h, bias) + mapped, p, len, GetProt(h.flags));
      MappingRest(t, p, Pages(len), FirstUnused(t.leaf, 0), GetProt(h.flags), !t.demand);
    }
  }

  lemma TextFrames(s: Flat, h: Phdr, bias: nat, file: seq<bv8>)
    requires Inv(s) && InFile(h, file) && LoadText(s, h, bias, file).Some?
    ensures var t := LoadText(s, h, bias, file).value;
            && StartPage(h, bias) + Pages(TextLen(h)) <= |s.frames| == |t.frames| && t.mmapMax == s.mmapMax
  {
    hide Inv;
    hide Mapping;
    hide Pages;
    hide MprotectFrom;
    TextMapped(s, h, bias);
    FramesBound(s);
    var prot := GetProt(h.flags);
    var m := Mmap(s, Start(h, bias), TextLen(h), prot | WRITE, true, true).s;
    MappingRest(s, StartPage(h, bias), Pages(TextLen(h)), FirstUnused(s.leaf, 0), prot | WRITE, true);
    MmapInv(s, Start(h, bias), TextLen(h), prot | WRITE, true, true);
    FramesFull(m);
    var c := CopyIn(m, h, bias, file);
    ProtsSize(m);
    MprotectConstants(c, Start(h, bias), (Start(h, bias) + TextLen(h)) % WORD, prot);
  }

  // The last header first.
  lemma LoadNext(s: Flat, ph: seq<Phdr>, n: nat, bias: nat, file: seq<bv8>)
    requires Inv(s) && 0 < n <= |ph| && forall i | 0 <= i < n :: Loads(ph[i]) ==> InFile(ph[i], file)
    requires LoadAll(s, ph, n, bias, file).Some?
    ensures var h := ph[n - 1];
            if Loads(h)
            then
              && LoadSegment(s, h, bias, file).Some? && Inv(LoadSegment(s, h, bias, file).value)
              && LoadAll(s, ph, n, bias, file) == LoadAll(LoadSegment(s, h, bias, file).value, ph, n - 1, bias, file)
            else LoadAll(s, ph, n, bias, file) == LoadAll(s, ph, n - 1, bias, file)
  {
    hide Inv;
    hide LoadSegment;
    hide Pages;
    hide SeenAt;
    if Loads(ph[n - 1]) {
      SegmentSees(s, ph[n - 1], bias, file, 0);
    }
  }

  lemma {:induction false} LoadedFrames(s: Flat, ph: seq<Phdr>, n: nat, bias: nat, file: seq<bv8>, i: nat)
    requires Inv(s) && i < n <= |ph| && forall i | 0 <= i < n :: Loads(ph[i]) ==> InFile(ph[i], file)
    requires LoadAll(s, ph, n, bias, file).Some? && Loads(ph[i])
    ensures StartPage(ph[i], bias) + Pages(Extent(ph[i])) <= |s.frames|
    ensures LoadAll(s, ph, n, bias, file).value.mmapMax == s.mmapMax
    decreases n
  {
    hide Inv;
    hide LoadAll;
    hide LoadSegment;
    hide Pages;
    var h := ph[n - 1];
    LoadNext(s, ph, n, bias, file);
    if Loads(h) {
      SegmentFrames(s, h, bias, file);
      var t := LoadSegment(s, h, bias, file).value;
      if i < n - 1 {
        LoadedFrames(t, ph, n - 1, bias, file, i);
      } else {
        LoadedTop(t, ph, n - 1, bias, file);
      }
    } else {
      LoadedFrames(s, ph, n - 1, bias, file, i);
    }
  }

  lemma {:induction false} LoadedTop(s: Flat, ph: seq<Phdr>, n: nat, bias: nat, file: seq<bv8>)
    requires Inv(s) && n <= |ph| && forall i | 0 <= i < n :: Loads(ph[i]) ==> InFile(ph[i], file)
    requires LoadAll(s, ph, n, bias, file).Some?
    ensures LoadAll(s, ph, n, bias, file).value.mmapMax == s.mmapMax
    decreases n
  {
    hide Inv;
    hide LoadSegment;
    hide Pages;
    if n > 0 {
      hide LoadAll;
      LoadNext(s, ph, n, bias, file);
      if Loads(ph[n - 1]) {
        SegmentFrames(s, ph[n - 1], bias, file);
        LoadedTop(LoadSegment(s, ph[n - 1], bias, file).value, ph, n - 1, bias, file);
      } else {
        LoadedTop(s, ph, n - 1, bias, file);
      }
    }
  }

  // ---- each byte ----

  // An access to a page of a segment.
  lemma SegmentAccess(t: Flat, h: Phdr, bias: nat, file: seq<bv8>, k: nat, kind: Prot)
    requires Inv(t) && InFile(h, file) && Kind(kind) && k < h.memsz
    requires var a := h.vaddr + bias * PGSIZE + k;
             && StartPage(h, bias) <= a / PGSIZE && a / PGSIZE in t.leaf && a / PGSIZE * PGSIZE < t.mmapMax
             && SeenAt(t, a / PGSIZE) == SegPage(h, bias, file, t.off, a / PGSIZE)
    ensures var a := h.vaddr + bias * PGSIZE + k;
            && (Fault(t, a, kind).1 == 0 <==> Has(GetProt(h.flags), kind))
            && Step(t, OpLoad(a, kind)).1 ==
               if Has(GetProt(h.flags), kind) then Byte(if k < h.filesz then file[h.offset + k] else 0) else Segfault
  {
    hide Inv;
    hide Has;
    hide ProtToType;
    hide GetProt;
    hide Fault;
    hide SeenAt;
    hide Step;
    hide ContentPage;
    var a := h.vaddr + bias * PGSIZE + k;
    FaultExact(t, a, kind);
    GrantExact(GetProt(h.flags), kind);
    LoadSees(t, a, kind);
    AddressPage(h, bias, k);
  }

  lemma ProgramByte(s: Flat, t: Flat, ph: seq<Phdr>, bias: nat, file: seq<bv8>, brkMin: nat, i: nat, k: nat)
    requires Inv(s) && Inv(t) && i < |ph| && (forall i | 0 <= i < |ph| :: Loads(ph[i]) ==> InFile(ph[i], file))
    requires LoadAll(s, ph, |ph|, bias, file).Some? && t == LoadAll(s, ph, |ph|, bias, file).value.(brkMin := brkMin)
    requires Apart(ph) && Loads(ph[i]) && k < ph[i].memsz
    ensures FoundAt(t, ph[i], file, bias, k)
  {
    hide Inv;
    hide Apart;
    hide Disjoint;
    hide LoadAll;
    hide SegPage;
    hide SeenAt;
    hide Fault;
    hide Step;
    hide Has;
    hide GetProt;
    var h, u := ph[i], LoadAll(s, ph, |ph|, bias, file).value;
    var a := h.vaddr + bias * PGSIZE + k;
    ApartIs(ph, bias);
    AddressPage(h, bias, k);
    LoadedImage(s, ph, bias, file, i, a / PGSIZE);
    LoadedPage(s, ph, |ph|, bias, file, 0);
    LoadedFrames(s, ph, |ph|, bias, file, i);
    PageBelowTop(s, a / PGSIZE);
    SetBrkMinSees(u, brkMin, a / PGSIZE);
    SegmentAccess(t, h, bias, file, k, READ);
    SegmentAccess(t, h, bias, file, k, WRITE);
    SegmentAccess(t, h, bias, file, k, EXEC);
    StoredIf(t, a, 0);
    FlagBits(h.flags);
  }

  lemma PageBelowTop(s: Flat, q: nat)
    requires Inv(s) && q < |s.frames|
    ensures q * PGSIZE < s.mmapMax
  {
  }

  lemma SetBrkMinSees(u: Flat, brkMin: nat, q: nat)
    ensures q in u.leaf ==> SeenAt(u.(brkMin := brkMin), q) == SeenAt(u, q)
  {
    hide ProtToType;
  }

  lemma FlagBits(flags: bv32)
    ensures Has(GetProt(flags), READ) <==> flags & 4 != 0
    ensures Has(GetProt(flags), WRITE) <==> flags & 2 != 0
    ensures Has(GetProt(flags), EXEC) <==> flags & 1 != 0
  {
    GetProtBits(flags);
  }

  lemma ProgramRest(s: Flat, t: Flat, ph: seq<Phdr>, bias: nat, file: seq<bv8>, brkMin: nat, q: nat)
    requires Inv(s) && Inv(t) && (forall i | 0 <= i < |ph| :: Loads(ph[i]) ==> InFile(ph[i], file))
    requires LoadAll(s, ph, |ph|, bias, file).Some? && t == LoadAll(s, ph, |ph|, bias, file).value.(brkMin := brkMin)
    requires forall i | 0 <= i < |ph| :: q < bias || !Spans(ph[i], q - bias)
    ensures (q in t.leaf <==> q in s.leaf) && (q in s.leaf ==> SeenAt(t, q) == SeenAt(s, q))
  {
    hide Inv;
    hide LoadAll;
    hide SeenAt;
    hide Spans;
    hide Covers1;
    LoadedPage(s, ph, |ph|, bias, file, q);
    var i := FirstCover(ph, |ph|, bias, q);
    if i < |ph| {
      SpansIs(ph[i], bias, q);
    }
    SetBrkMinSees(LoadAll(s, ph, |ph|, bias, file).value, brkMin, q);
  }

  lemma ProgramImage(s: Flat, t: Flat, ph: seq<Phdr>, bias: nat, file: seq<bv8>, brkMin: nat)
    requires Inv(s) && Inv(t) && (forall i | 0 <= i < |ph| :: Loads(ph[i]) ==> InFile(ph[i], file))
    requires LoadAll(s, ph, |ph|, bias, file).Some? && t == LoadAll(s, ph, |ph|, bias, file).value.(brkMin := brkMin)
    ensures Image(s, t, ph, file, bias)
  {
    hide Inv;
    hide LoadAll;
    hide SeenAt;
    hide Spans;
    hide FoundAt;
    hide Apart;
    if Apart(ph) {
      forall i, k: nat | 0 <= i < |ph| && Loads(ph[i]) && k < ph[i].memsz
        ensures FoundAt(t, ph[i], file, bias, k)
      {
        ProgramByte(s, t, ph, bias, file, brkMin, i, k);
      }
    }
    forall q: nat | forall i | 0 <= i < |ph| :: q < bias || !Spans(ph[i], q - bias)
      ensures (q in t.leaf <==> q in s.leaf) && (q in s.leaf ==> SeenAt(t, q) == SeenAt(s, q))
    {
      ProgramRest(s, t, ph, bias, file, brkMin, q);
    }
  }
}
