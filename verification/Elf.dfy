// load_elf as a client of the memory manager.
module Elf {
  import opened PageTable
  import opened FlatVm
  import opened VmRuns
  import opened DemandPaging
  import opened ElfImage
  import opened ElfProgram
  import opened Vm

  const ET_DYN: nat := 3
  const PHDR_BYTES: nat := 56

  datatype Ehdr = Ehdr(magic: seq<bv8>, typ: nat, entry: nat, phnum: nat)

  // What the loader records beside the image.
  datatype Info = Info(phnum: nat, phent: nat, entry: nat)

  predicate IsElf(eh: Ehdr) { eh.magic == [0x7F, 0x45, 0x4C, 0x46] }

  // A position-independent program is moved up one page, to keep page 0 free.
  function Bias(eh: Ehdr): nat { if eh.typ == ET_DYN then 1 else 0 }

  function SegmentEnd(h: Phdr, bias: nat): nat { h.vaddr + bias * PGSIZE + h.memsz }

  // brk_min after the last n headers down to the first.
  function BrkAfter(ph: seq<Phdr>, n: nat, bias: nat, brkMin: nat): nat
    requires n <= |ph|
  {
    if n == 0 then brkMin
    else
      var h := ph[n - 1];
      BrkAfter(ph, n - 1, bias, if Loads(h) && SegmentEnd(h, bias) > brkMin then SegmentEnd(h, bias) else brkMin)
  }

  // It is the greatest end of a loaded segment, or what it was before.
  lemma {:induction false} BrkIsMaximum(ph: seq<Phdr>, n: nat, bias: nat, brkMin: nat)
    requires n <= |ph|
    ensures var b := BrkAfter(ph, n, bias, brkMin);
            && b >= brkMin && (forall i | 0 <= i < n && Loads(ph[i]) :: SegmentEnd(ph[i], bias) <= b)
            && (b == brkMin || exists i | 0 <= i < n :: Loads(ph[i]) && SegmentEnd(ph[i], bias) == b)
  {
    if n > 0 {
      var h := ph[n - 1];
      BrkIsMaximum(ph, n - 1, bias, if Loads(h) && SegmentEnd(h, bias) > brkMin then SegmentEnd(h, bias) else brkMin);
    }
  }

  lemma BrkMoves(ph: seq<Phdr>, bias: nat, before: nat, after: nat)
    requires after == BrkAfter(ph, |ph|, bias, before)
    ensures BreakMoved(ph, bias * PGSIZE, before, after)
  {
    BrkIsMaximum(ph, |ph|, bias, before);
    assert forall i | 0 <= i < |ph| && Loads(ph[i]) :: EndOf(ph[i], bias * PGSIZE) == SegmentEnd(ph[i], bias);
    if after != before {
      var i :| 0 <= i < |ph| && Loads(ph[i]) && SegmentEnd(ph[i], bias) == after;
      assert EndOf(ph[i], bias * PGSIZE) == after;
    }
  }

  // memcpy and memset to user pages that are mapped.
  method CopyOut(vm: VirtualMemory, a: nat, bytes: seq<bv8>)
    requires vm.Core() && Inv(vm.Abs())
    requires forall v: nat | a <= v < a + |bytes| :: Resident(vm.Abs(), v)
    modifies vm`frames
    ensures vm.Core() && Inv(vm.Abs()) && FullPages(old(vm.frames))
    ensures vm.Abs() == old(vm.Abs()).(frames := Overlay(old(vm.frames), a, bytes))
  {
    hide VirtualMemory.Core;
    hide Inv;
    hide Overlay;
    ghost var f0 := vm.frames;
    FramesFull(vm.Abs());
    OverlayNone(f0, a);
    assert bytes[..0] == [];
    var k := 0;
    while k < |bytes|
      invariant k <= |bytes| && vm.Core() && Inv(vm.Abs()) && |vm.frames| == |f0|
      invariant vm.frames == Overlay(f0, a, bytes[..k])
    {
      assert Resident(old(vm.Abs()), a + k);
      OverlayNext(f0, a, bytes, k);
      vm.WriteByte(a + k, bytes[k]);
      k := k + 1;
    }
    assert bytes[..k] == bytes;
  }

  predicate Resident(s: Flat, v: nat) {
    v / PGSIZE < |s.frames| && v / PGSIZE in s.leaf && s.leaf[v / PGSIZE].Mapped?
  }

  // After the populated mapping the whole text range is resident.
  lemma TextResident(s: Flat, h: Phdr, bias: nat, v: nat)
    requires Inv(s) && Mmap(s, Start(h, bias), TextLen(h), GetProt(h.flags) | WRITE, true, true).addr.Some?
    requires Start(h, bias) <= v < Start(h, bias) + TextLen(h)
    ensures Resident(Mmap(s, Start(h, bias), TextLen(h), GetProt(h.flags) | WRITE, true, true).s, v)
  {
    hide ProtToType;
    hide Mmap;
    TextMapped(s, h, bias);
    var p, n := StartPage(h, bias), Pages(TextLen(h));
    InPages(p, TextLen(h), v);
    MappingFrames(s, p, n, FirstUnused(s.leaf, 0), GetProt(h.flags) | WRITE, v / PGSIZE);
    PopulateAt(s.leaf, p, n, s.off, ProtToType(GetProt(h.flags) | WRITE, true), v / PGSIZE);
  }

  lemma InPages(p: nat, len: nat, v: nat)
    requires p * PGSIZE <= v < p * PGSIZE + len
    ensures Within(v / PGSIZE, p, Pages(len))
  {
  }

  lemma OverlayResident(s: Flat, t: Flat)
    requires |t.frames| == |s.frames| && t == s.(frames := t.frames)
    ensures forall v: nat :: Resident(s, v) <==> Resident(t, v)
  {
  }

  // The mapping and copying of the text of one segment.
  method LoadText(vm: VirtualMemory, h: Phdr, bias: nat, file: seq<bv8>) returns (ok: bool)
    requires vm.Valid() && InFile(h, file)
    modifies vm, vm.pt, vm.pt.mem, vm.vmrs
    ensures ok ==> vm.Valid() && ElfImage.LoadText(old(vm.Abs()), h, bias, file) == Some(vm.Abs())
    ensures if ElfImage.LoadText(old(vm.Abs()), h, bias, file).None? then !ok
            else vm.Took(ok, old(vm.pt.Now()), Range(StartPage(h, bias), Pages(TextLen(h))))
  {
    hide Grow;
    hide Range;
    hide VirtualMemory.Core;
    hide Inv;
    hide Mmap;
    hide Overlay;
    hide MprotectFrom;
    ghost var s0 := vm.Abs();
    var start, len, prot := Start(h, bias), TextLen(h), GetProt(h.flags);
    PageStartOf(StartPage(h, bias));
    NoWalks(vm);
    MmapAddr(s0, start, len, prot | WRITE, true);
    MmapInv(s0, start, len, prot | WRITE, true, true);
    var m := vm.Mmap(start, len, prot | WRITE, true, true, 0);
    if m.Halted? || m.value.None? {
      return false;
    }
    ghost var s1 := vm.Abs();
    forall v: nat | start <= v < start + len ensures Resident(s1, v) {
      TextResident(s0, h, bias, v);
    }
    FramesFull(s1);
    CopyOut(vm, start + Prepad(h), FileBytes(h, file));
    OverlayResident(s1, vm.Abs());
    CopyOut(vm, start, seq(Prepad(h), _ => 0));
    TextMapped(s0, h, bias);
    if !Has(prot, WRITE) {
      var r := vm.Mprotect(start, len, prot);
      return r == 0;
    }
    return true;
  }

  method LoadSegment(vm: VirtualMemory, h: Phdr, bias: nat, file: seq<bv8>) returns (ok: bool)
    requires vm.Valid() && InFile(h, file)
    modifies vm, vm.pt, vm.pt.mem, vm.vmrs
    ensures ok ==> vm.Valid() && ElfImage.LoadSegment(old(vm.Abs()), h, bias, file) == Some(vm.Abs())
    ensures if ElfImage.LoadSegment(old(vm.Abs()), h, bias, file).None? then !ok
            else vm.Took(ok, old(vm.pt.Now()), Range(StartPage(h, bias), Pages(Extent(h))))
  {
    hide Grow;
    hide Range;
    hide VirtualMemory.Core;
    hide Inv;
    hide Mmap;
    hide ElfImage.LoadText;
    hide Pages;
    hide RoundUp;
    hide Start;
    SegmentWalks(vm.pt.Now(), h, bias);
    ok := LoadText(vm, h, bias, file);
    if !ok {
      return;
    }
    var mapped := RoundUp(TextLen(h));
    if Prepad(h) + h.memsz > mapped {
      ok := MapRest(vm, StartPage(h, bias) + Pages(TextLen(h)), Prepad(h) + h.memsz - mapped, GetProt(h.flags));
    }
  }

  // The zero pages after the text.
  method MapRest(vm: VirtualMemory, p: nat, len: nat, prot: Prot) returns (ok: bool)
    requires vm.Valid()
    modifies vm, vm.pt, vm.pt.mem, vm.vmrs
    ensures ok ==>
              vm.Valid()
              && MmapResult(vm.Abs(), Some(p * PGSIZE)) == Mmap(old(vm.Abs()), p * PGSIZE, len, prot, true, false)
    ensures if Mmap(old(vm.Abs()), p * PGSIZE, len, prot, true, false).addr.None? then !ok
            else vm.Took(ok, old(vm.pt.Now()), Range(p, Pages(len)))
  {
    hide VirtualMemory.Core;
    hide Inv;
    hide Mmap;
    hide Grow;
    hide Range;
    hide Pages;
    NoWalks(vm);
    PageStartOf(p);
    MmapAddr(vm.Abs(), p * PGSIZE, len, prot, false);
    MmapInv(vm.Abs(), p * PGSIZE, len, prot, true, false);
    var m := vm.Mmap(p * PGSIZE, len, prot, true, false, 0);
    return m.Done? && m.value.Some?;
  }

  // load_elf: Halted stands for its panics and for a memory manager that has
  // run out of table pages.  brk_min, which no mapping looks at, is kept
  // aside until the end.
  method LoadElf(vm: VirtualMemory, eh: Ehdr, ph: seq<Phdr>, phdrSize: nat, file: seq<bv8>) returns (r: Result<Info>)
    requires vm.Valid() && eh.phnum == |ph| && forall i | 0 <= i < |ph| :: Loads(ph[i]) ==> InFile(ph[i], file)
    modifies vm, vm.pt, vm.pt.mem, vm.vmrs
    ensures !IsElf(eh) || eh.phnum * PHDR_BYTES > phdrSize ==> r.Halted?
    ensures LoadAll(old(vm.Abs()), ph, |ph|, Bias(eh), file).None? ==> r.Halted?
    ensures r.Done? <==>
              && eh.magic == [0x7F, 0x45, 0x4C, 0x46] && eh.phnum * 56 <= phdrSize
              && LoadAll(old(vm.Abs()), ph, |ph|, Bias(eh), file).Some?
              && vm.Enough(Grow(old(vm.pt.Now()), ImagePages(ph, |ph|, Bias(eh))))
    ensures r.Done? ==>
              && r.value == Info(|ph|, PHDR_BYTES, eh.entry + Bias(eh) * PGSIZE) && vm.Valid()
              && Some(vm.Abs()) ==
                 WithBrk(LoadAll(old(vm.Abs()), ph, |ph|, Bias(eh), file), BrkAfter(ph, |ph|, Bias(eh), old(vm.brkMin)))
    ensures r.Done? && eh.typ != 3 ==>
              && vm.Valid() && r.value.entry == eh.entry && Image(old(vm.Abs()), vm.Abs(), ph, file, 0)
              && BreakMoved(ph, 0, old(vm.brkMin), vm.brkMin)
    ensures r.Done? && eh.typ == 3 ==>
              && vm.Valid() && r.value.entry == eh.entry + 4096 && Image(old(vm.Abs()), vm.Abs(), ph, file, 1)
              && BreakMoved(ph, 4096, old(vm.brkMin), vm.brkMin) && (0 in vm.leaf <==> 0 in old(vm.leaf))
  {
    hide Image;
    hide BreakMoved;
    hide VirtualMemory.Core;
    hide Inv;
    hide Grow;
    hide Range;
    hide ElfImage.LoadSegment;
    if !IsElf(eh) || eh.phnum * PHDR_BYTES > phdrSize {
      return Halted;
    }
    var bias: nat, brkMin: nat := Bias(eh), vm.brkMin;
    ghost var s0, t0, done := vm.Abs(), vm.pt.Now(), {};
    var i: nat := eh.phnum;
    EndsInRange(s0);
    NoWalks(vm);
    while i > 0
      invariant i <= |ph| && vm.Valid() && brkMin <= DRAM_PAGE * PGSIZE
      invariant LoadAll(s0, ph, |ph|, bias, file) == LoadAll(vm.Abs(), ph, i, bias, file)
      invariant BrkAfter(ph, |ph|, bias, s0.brkMin) == BrkAfter(ph, i, bias, brkMin)
      invariant vm.pt.Now() == Grow(t0, done) && done + ImagePages(ph, i, bias) == ImagePages(ph, |ph|, bias)
                && vm.Enough(Grow(t0, done))
    {
      i := i - 1;
      var h := ph[i];
      if h.typ == PT_INTERP {
        return Halted;
      }
      if Loads(h) {
        if SegmentEnd(h, bias) > brkMin {
          brkMin := SegmentEnd(h, bias);
        }
        ghost var s, pages := vm.Abs(), Range(StartPage(h, bias), Pages(Extent(h)));
        GrowTwice(t0, done, pages);
        GrowTwice(t0, done + pages, ImagePages(ph, i, bias));
        assert done + pages + ImagePages(ph, i, bias) == ImagePages(ph, |ph|, bias);
        done := done + pages;
        var ok := LoadSegment(vm, h, bias, file);
        if !ok {
          return Halted;
        }
        SegmentInRange(s, h, bias, file);
      }
    }
    SetBrkMinInv(vm.Abs(), brkMin);
    vm.brkMin := brkMin;
    ProgramImage(s0, vm.Abs(), ph, bias, file, brkMin);
    PageZero(s0, vm.Abs(), ph, bias, file);
    BrkMoves(ph, bias, s0.brkMin, brkMin);
    return Done(Info(eh.phnum, PHDR_BYTES, eh.entry + bias * PGSIZE));
  }

  // The pages of the first n headers' segments.
  function ImagePages(ph: seq<Phdr>, n: nat, bias: nat): set<nat>
    requires n <= |ph|
  {
    if n == 0 then {}
    else (if Loads(ph[n - 1]) then Range(StartPage(ph[n - 1], bias), Pages(Extent(ph[n - 1]))) else {})
         + ImagePages(ph, n - 1, bias)
  }

  // The walks of a segment are those of its text and of the rest.
  lemma SegmentWalks(t: Tables, h: Phdr, bias: nat)
    ensures var p, n, k, rest :=
              StartPage(h, bias), Pages(TextLen(h)), Pages(Extent(h)), Prepad(h) + h.memsz - RoundUp(TextLen(h));
            && (rest <= 0 ==> k == n)
            && (rest > 0 ==> Start(h, bias) + RoundUp(TextLen(h)) == (p + n) * PGSIZE
                             && Grow(Grow(t, Range(p, n)), Range(p + n, Pages(rest))) == Grow(t, Range(p, k)))
            && Grow(t, Range(p, n)).next <= Grow(t, Range(p, k)).next
  {
    hide Grow;
    hide Range;
    hide Pages;
    hide RoundUp;
    SegmentPages(h, bias);
    var p, n, k, rest :=
          StartPage(h, bias), Pages(TextLen(h)), Pages(Extent(h)), Prepad(h) + h.memsz - RoundUp(TextLen(h));
    if rest > 0 {
      assert Range(p, n) + Range(p + n, Pages(rest)) == Range(p, k);
      GrowTwice(t, Range(p, n), Range(p + n, Pages(rest)));
    }
  }

  lemma NoWalks(vm: VirtualMemory)
    requires vm.Valid()
    ensures Grow(vm.pt.Now(), {}) == vm.pt.Now() == vm.Start() && vm.Enough(vm.pt.Now())
  {
    vm.FirstRegion();
  }

  function WithBrk(s: Option<Flat>, brkMin: nat): Option<Flat> {
    if s.None? then None else Some(s.value.(brkMin := brkMin))
  }

  lemma EndsInRange(s: Flat)
    requires Inv(s)
    ensures s.brkMin <= DRAM_PAGE * PGSIZE
  {
  }

  lemma SetBrkMinInv(s: Flat, brkMin: nat)
    requires Inv(s) && brkMin <= DRAM_PAGE * PGSIZE
    ensures Inv(s.(brkMin := brkMin))
  {
  }

  // A segment that has been loaded ends below the kernel.
  lemma SegmentInRange(s: Flat, h: Phdr, bias: nat, file: seq<bv8>)
    requires Inv(s) && InFile(h, file) && ElfImage.LoadSegment(s, h, bias, file).Some?
    ensures SegmentEnd(h, bias) <= DRAM_PAGE * PGSIZE
  {
    hide Inv;
    TextEnd(s, h, bias, file);
    SegmentPages(h, bias);
    var t, mapped := ElfImage.LoadText(s, h, bias, file).value, RoundUp(TextLen(h));
    LoadTextInv(s, h, bias, file);
    if Prepad(h) + h.memsz > mapped {
      BssEnd(t, Start(h, bias) + mapped, Prepad(h) + h.memsz - mapped, GetProt(h.flags));
    }
  }

  lemma TextEnd(s: Flat, h: Phdr, bias: nat, file: seq<bv8>)
    requires Inv(s) && InFile(h, file) && ElfImage.LoadText(s, h, bias, file).Some?
    ensures Start(h, bias) + RoundUp(TextLen(h)) <= DRAM_PAGE * PGSIZE
    ensures Start(h, bias) + Prepad(h) == h.vaddr + bias * PGSIZE
  {
    TextMapped(s, h, bias);
  }

  lemma BssEnd(s: Flat, a: nat, len: nat, prot: Prot)
    requires Inv(s) && Mmap(s, a, len, prot, true, false).addr.Some?
    ensures a + len <= DRAM_PAGE * PGSIZE
  {
  }
}
