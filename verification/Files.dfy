// The kernel's file table: host descriptors shared by reference counts
// between file descriptor slots and handles in use.  Sequential runs only.
module Files {
  const MAX_FDS: nat := 128
  const MAX_FILES: nat := 128

  // A slot of the descriptor table: empty, or the index of a file.
  datatype Slot = Empty | To(file: nat)

  datatype File = File(kfd: int, refcnt: nat)

  function Pointing(fds: seq<Slot>, f: nat): set<nat> {
    set i | 0 <= i < |fds| && fds[i] == To(f)
  }

  // References to file f: descriptor slots and handles not yet released.
  ghost function References(fds: seq<Slot>, held: multiset<nat>, f: nat): nat {
    |Pointing(fds, f)| + held[f]
  }

  // A file is free with nothing referring to it, or its count is one more
  // than the references, of which there is at least one.
  ghost predicate Conserved(files: seq<File>, fds: seq<Slot>, held: multiset<nat>) {
    && |files| == MAX_FILES && |fds| == MAX_FDS
    && (forall i | 0 <= i < |fds| && fds[i].To? :: fds[i].file < MAX_FILES)
    && (forall f | f in held :: f < MAX_FILES)
    && (forall f | 0 <= f < |files| ::
          if files[f].refcnt == 0 then References(fds, held, f) == 0
          else files[f].refcnt == 1 + References(fds, held, f) && References(fds, held, f) > 0)
  }

  // The first file with count 0; Empty when every file is in use.
  function FirstFree(files: seq<File>): (r: Slot)
    ensures r.To? ==> r.file < |files| && files[r.file].refcnt == 0 && forall g | 0 <= g < r.file :: files[g].refcnt > 0
    ensures r.Empty? ==> forall g | 0 <= g < |files| :: files[g].refcnt > 0
  {
    FirstFreeFrom(files, 0)
  }

  function FirstFreeFrom(files: seq<File>, f: nat): (r: Slot)
    requires f <= |files|
    ensures r.To? ==> f <= r.file < |files| && files[r.file].refcnt == 0
    ensures r.To? ==> forall g | f <= g < r.file :: files[g].refcnt > 0
    ensures r.Empty? ==> forall g | f <= g < |files| :: files[g].refcnt > 0
    decreases |files| - f
  {
    if f == |files| then Empty else if files[f].refcnt == 0 then To(f) else FirstFreeFrom(files, f + 1)
  }

  lemma FirstFreeIs(files: seq<File>, f: nat)
    requires f <= |files| && (forall g | 0 <= g < f :: files[g].refcnt > 0) && (f < |files| ==> files[f].refcnt == 0)
    ensures FirstFree(files) == if f < |files| then To(f) else Empty
  {
  }

  lemma PointingSet(fds: seq<Slot>, i: nat, s: Slot, f: nat)
    requires i < |fds|
    ensures |Pointing(fds[i := s], f)| + (if fds[i] == To(f) then 1 else 0)
            == |Pointing(fds, f)| + (if s == To(f) then 1 else 0)
  {
    var a, b := Pointing(fds, f), Pointing(fds[i := s], f);
    assert a - {i} == b - {i};
    assert |a - {i}| + (if i in a then 1 else 0) == |a|;
    assert |b - {i}| + (if i in b then 1 else 0) == |b|;
  }

  // Whatever a slot or a handle names is live.
  lemma ReferredIsLive(files: seq<File>, fds: seq<Slot>, held: multiset<nat>, f: nat)
    requires Conserved(files, fds, held) && f < MAX_FILES
    ensures f in held ==> files[f].refcnt >= 2
    ensures (exists i :: 0 <= i < |fds| && fds[i] == To(f)) ==> files[f].refcnt >= 2
  {
    if i :| 0 <= i < |fds| && fds[i] == To(f) {
      assert i in Pointing(fds, f);
    }
  }

  class FileTable {
    const files: array<File>
    const fds: array<Slot>
    // handles that some caller holds, and host descriptors closed so far
    ghost var held: multiset<nat>
    var closed: seq<int>

    ghost predicate Valid()
      reads this, files, fds
    {
      files.Length == MAX_FILES && fds.Length == MAX_FDS && Conserved(files[..], fds[..], held)
    }

    constructor ()
      ensures Valid() && fresh(files) && fresh(fds) && held == multiset{} && closed == []
      ensures forall i | 0 <= i < fds.Length :: fds[i] == Empty
    {
      files := new File[MAX_FILES](_ => File(-1, 0));
      fds := new Slot[MAX_FDS](_ => Empty);
      held, closed := multiset{}, [];
      new;
      forall f | 0 <= f < MAX_FILES ensures Pointing(fds[..], f) == {} {
      }
    }

    // file_get_free: the first free file, which keeps the host descriptor it
    // last had.  A file still in the descriptor table is never handed out.
    method GetFree() returns (r: Slot)
      requires Valid()
      modifies this`held, files
      ensures Valid() && r == FirstFree(old(files[..]))
      ensures r.Empty? ==> held == old(held) && files[..] == old(files[..])
      ensures r.To? ==> held == old(held) + multiset{r.file} && forall i | 0 <= i < fds.Length :: fds[i] != r
      ensures r.To? ==> files[..] == old(files[..])[r.file := old(files[r.file]).(refcnt := 2)]
    {
      ghost var was := files[..];
      var f := 0;
      while f < MAX_FILES
        modifies {}
        invariant 0 <= f <= MAX_FILES && forall g | 0 <= g < f :: files[g].refcnt > 0
      {
        if files[f].refcnt == 0 {
          break;
        }
        f := f + 1;
      }
      FirstFreeIs(was, f);
      if f == MAX_FILES {
        return Empty;
      }
      NotPointed(files[..], fds[..], held, f);
      files[f] := files[f].(refcnt := 2);
      held := held + multiset{f};
      assert files[..] == was[f := was[f].(refcnt := 2)];
      return To(f);
    }

    // file_openat, given what the host answers.  A failed open changes no
    // file but closes the descriptor number the free file last had.
    method OpenAt(ret: int) returns (r: Slot)
      requires Valid()
      modifies this`held, this`closed, files
      ensures Valid() && fds[..] == old(fds[..])
      ensures var f := FirstFree(old(files[..]));
              if f.To? && ret >= 0 then
                && r == f && held == old(held) + multiset{f.file} && closed == old(closed)
                && files[..] == old(files[..])[f.file := File(ret, 2)]
              else
                && r == Empty && held == old(held) && files[..] == old(files[..])
                && closed == if f.To? then old(closed) + [old(files[f.file]).kfd] else old(closed)
    {
      ghost var was := files[..];
      var f := GetFree();
      if f.Empty? {
        return Empty;
      }
      if ret >= 0 {
        SetKfd(f.file, ret);
        return f;
      }
      NotPointed(was, fds[..], old(held), f.file);
      assert Pointing(fds[..], f.file) == {};
      Decref(f.file);
      assert held == old(held);
      assert files[..] == was;
      return Empty;
    }

    // f->kfd = kfd
    method SetKfd(f: nat, kfd: int)
      requires Valid() && f < MAX_FILES
      modifies files
      ensures Valid() && files[..] == old(files[..])[f := old(files[f]).(kfd := kfd)]
    {
      ghost var was := files[..];
      files[f] := files[f].(kfd := kfd);
      assert files[..] == was[f := was[f].(kfd := kfd)];
    }

    // The first i standard files are in place, and nothing else.
    ghost predicate Standard(i: nat)
      reads this, files, fds
    {
      && Valid() && held == Handles(i) && i <= 3
      && (forall k | 0 <= k < MAX_FDS :: fds[k] == if k < i then To(k) else Empty)
      && (forall k | 0 <= k < i :: files[k] == File(k, 3))
      && (forall k | i <= k < MAX_FILES :: files[k].refcnt == 0)
    }

    // file_init: standard input, output and error, whose handles are kept.
    method Init()
      requires Valid() && held == multiset{}
      requires forall i | 0 <= i < MAX_FDS :: fds[i] == Empty
      modifies this`held, files, fds
      ensures Standard(3)
    {
      AllFree(files[..], fds[..]);
      var i := 0;
      while i < 3
        invariant 0 <= i <= 3 && Standard(i)
      {
        InitOne(i);
        i := i + 1;
      }
    }

    method InitOne(i: nat)
      requires Standard(i) && i < 3
      modifies this`held, files, fds
      ensures Standard(i + 1)
    {
      hide Conserved;
      hide FirstFree;
      ghost var fs, ds := files[..], fds[..];
      FirstFreeIs(fs, i);
      var f := GetFree();
      SetKfd(i, i);
      var fd := Dup(i);
      assert fd == i;
      assert fds[..] == ds[i := To(i)];
      assert files[..] == fs[i := File(i, 3)];
    }

    function Handles(n: nat): multiset<nat> {
      if n == 0 then multiset{} else Handles(n - 1) + multiset{n - 1}
    }

    lemma AllFree(fs: seq<File>, ds: seq<Slot>)
      requires Conserved(fs, ds, multiset{}) && forall i | 0 <= i < |ds| :: ds[i] == Empty
      ensures forall f | 0 <= f < |fs| :: fs[f].refcnt == 0
    {
      forall f | 0 <= f < |fs| ensures fs[f].refcnt == 0 {
        assert Pointing(ds, f) == {};
      }
    }

    lemma NotPointed(fs: seq<File>, ds: seq<Slot>, h: multiset<nat>, f: nat)
      requires Conserved(fs, ds, h) && f < MAX_FILES && fs[f].refcnt == 0
      ensures forall i | 0 <= i < |ds| :: ds[i] != To(f)
    {
      assert Pointing(ds, f) == {};
      forall i | 0 <= i < |ds| ensures ds[i] != To(f) {
        assert i !in Pointing(ds, f);
      }
    }

    // file_incref: its kassert holds for every file that is referred to.
    method Incref(f: nat)
      requires f < files.Length && files[f].refcnt > 0
      modifies files
      ensures files[..] == old(files[..])[f := old(files[f]).(refcnt := old(files[f]).refcnt + 1)]
    {
      files[f] := files[f].(refcnt := files[f].refcnt + 1);
    }

    // file_dup: the first empty slot.
    method Dup(f: nat) returns (fd: int)
      requires Valid() && f in held
      modifies files, fds
      ensures Valid()
      ensures fd == -1 ==>
                (forall i | 0 <= i < MAX_FDS :: old(fds[i]) != Empty) && fds[..] == old(fds[..])
                && files[..] == old(files[..])
      ensures fd != -1 ==> 0 <= fd < MAX_FDS && old(fds[fd]) == Empty && fds[..] == old(fds[..])[fd := To(f)]
      ensures fd != -1 ==> forall i | 0 <= i < fd :: old(fds[i]) != Empty
      ensures fd != -1 ==> files[..] == old(files[..])[f := old(files[f]).(refcnt := old(files[f]).refcnt + 1)]
    {
      var i := 0;
      while i < MAX_FDS
        modifies {}
        invariant 0 <= i <= MAX_FDS && forall j | 0 <= j < i :: fds[j] != Empty
      {
        if fds[i] == Empty {
          break;
        }
        i := i + 1;
      }
      if i == MAX_FDS {
        return -1;
      }
      Point(f, i);
      return i;
    }

    // file_dup3: a given slot, if it is empty.
    method Dup3(f: nat, newfd: int) returns (fd: int)
      requires Valid() && f in held
      modifies files, fds
      ensures Valid()
      ensures 0 <= newfd < MAX_FDS && old(fds[newfd]) == Empty ==>
                && fd == newfd && fds[..] == old(fds[..])[newfd := To(f)]
                && files[..] == old(files[..])[f := old(files[f]).(refcnt := old(files[f]).refcnt + 1)]
      ensures !(0 <= newfd < MAX_FDS && old(fds[newfd]) == Empty) ==>
                fd == -1 && fds[..] == old(fds[..]) && files[..] == old(files[..])
    {
      if newfd < 0 || newfd >= MAX_FDS {
        return -1;
      }
      if fds[newfd] == Empty {
        Point(f, newfd);
        return newfd;
      }
      return -1;
    }

    // The successful compare-and-swap of an empty slot, and its reference.
    method Point(f: nat, i: nat)
      requires Valid() && f in held && i < MAX_FDS && fds[i] == Empty
      modifies files, fds
      ensures Valid() && fds[..] == old(fds[..])[i := To(f)]
      ensures files[..] == old(files[..])[f := old(files[f]).(refcnt := old(files[f]).refcnt + 1)]
    {
      ghost var ds := fds[..];
      ReferredIsLive(files[..], fds[..], held, f);
      forall g | 0 <= g < MAX_FILES
        ensures |Pointing(ds[i := To(f)], g)| == |Pointing(ds, g)| + (if g == f then 1 else 0) {
        PointingSet(ds, i, To(f), g);
      }
      fds[i] := To(f);
      assert fds[..] == ds[i := To(f)];
      Incref(f);
    }

    // file_get: a handle on the file of a slot.  Sequentially the retry loop
    // succeeds at once, and the file found is live.
    method Get(fd: int) returns (r: Slot)
      requires Valid()
      modifies this`held, files
      ensures Valid() && fds[..] == old(fds[..])
      ensures r == (if 0 <= fd < MAX_FDS then old(fds[fd]) else Empty)
      ensures held == (if r.To? then old(held) + multiset{r.file} else old(held)) && (r.To? ==> r.file < MAX_FILES)
      ensures forall g | 0 <= g < MAX_FILES :: files[g].kfd == old(files[g].kfd)
    {
      if fd < 0 || fd >= MAX_FDS || fds[fd] == Empty {
        return Empty;
      }
      var f := fds[fd].file;
      ReferredIsLive(files[..], fds[..], held, f);
      var oldCnt := files[f].refcnt;
      if oldCnt == 0 {
        return Empty;
      }
      Incref(f);
      held := held + multiset{f};
      return To(f);
    }

    // file_decref of a held handle: the last reference closes the host
    // descriptor and frees the file.
    method Decref(f: nat)
      requires Valid() && f in held
      modifies this`held, this`closed, files
      ensures Valid() && held == old(held) - multiset{f} && fds[..] == old(fds[..])
      ensures var last := References(fds[..], held, f) == 0;
              && (files[f].refcnt == 0 <==> last)
              && closed == if last then old(closed) + [old(files[f]).kfd] else old(closed)
      ensures forall g | 0 <= g < MAX_FILES :: files[g].kfd == old(files[g].kfd)
      ensures forall g | 0 <= g < MAX_FILES && g != f :: files[g] == old(files[g])
    {
      ReferredIsLive(files[..], fds[..], held, f);
      ghost var was := files[..];
      var prev := files[f].refcnt;
      files[f] := files[f].(refcnt := prev - 1);
      held := held - multiset{f};
      if prev == 2 {
        var kfd := files[f].kfd;
        files[f] := files[f].(refcnt := 0);
        closed := closed + [kfd];
      }
      assert forall g | 0 <= g < MAX_FILES && g != f :: files[g] == was[g];
    }

    // fd_close: the handle taken for the test, then the slot's own reference.
    method Close(fd: int) returns (r: int)
      requires Valid()
      modifies this`held, this`closed, files, fds
      ensures Valid() && held == old(held)
      ensures r == if 0 <= fd < MAX_FDS && old(fds[fd]).To? then 0 else -1
      ensures fds[..] == if r == 0 then old(fds[..])[fd := Empty] else old(fds[..])
      ensures forall g | 0 <= g < MAX_FILES :: files[g].kfd == old(files[g].kfd)
      ensures r == -1 ==> closed == old(closed)
      ensures r == 0 ==>
                var f := old(fds[fd]).file;
                && f < MAX_FILES
                && closed == if References(fds[..], held, f) == 0 then old(closed) + [old(files[f]).kfd]
                   else old(closed)
    {
      hide Conserved;
      hide References;
      var h := Get(fd);
      if h.Empty? {
        return -1;
      }
      var f := h.file;
      Clear(fd, f);
      Decref(f);
      HeldCounts(fds[..], held, f);
      Decref(f);
      assert held == old(held);
      return 0;
    }

    lemma HeldCounts(ds: seq<Slot>, h: multiset<nat>, f: nat)
      requires f in h
      ensures References(ds, h, f) > 0
    {
    }

    // The successful compare-and-swap of a slot with null: its reference is
    // the caller's now.
    method Clear(fd: nat, f: nat)
      requires Valid() && fd < MAX_FDS && fds[fd] == To(f)
      modifies this`held, fds
      ensures Valid() && held == old(held) + multiset{f} && fds[..] == old(fds[..])[fd := Empty]
    {
      ghost var ds := fds[..];
      forall g | 0 <= g < MAX_FILES
        ensures |Pointing(ds[fd := Empty], g)| + (if g == f then 1 else 0) == |Pointing(ds, g)| {
        PointingSet(ds, fd, Empty, g);
      }
      fds[fd] := Empty;
      assert fds[..] == ds[fd := Empty];
      held := held + multiset{f};
    }
  }
}
