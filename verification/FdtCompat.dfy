// The test that filter_compat applies to a property: its name is "compatible"
// and the wanted string is in its list.
module FdtCompat {
  import opened Arith
  import opened FdtTree
  import opened FdtScan
  import opened FdtTrace
  import opened FdtFilter

  // "compatible"
  const COMPATIBLE: seq<Byte> := [99, 111, 109, 112, 97, 116, 105, 98, 108, 101]

  // The bytes of big-endian words.
  function Bytes(value: seq<Word>): (b: seq<Byte>)
    ensures |b| == 4 * |value|
  {
    seq(4 * |value|, k requires 0 <= k < 4 * |value| => ByteOf(value[k / 4], k % 4))
  }

  function ByteOf(w: Word, k: nat): Byte
    requires k < 4
  {
    if k == 0 then w / 0x100_0000
    else if k == 1 then w / 0x1_0000 % 0x100
    else if k == 2 then w / 0x100 % 0x100
    else w % 0x100
  }

  // The string at the front of the data, and all of its strings.
  function First(data: seq<Byte>): (s: seq<Byte>)
    ensures |s| <= |data| && 0 !in s
  {
    if data == [] || data[0] == 0 then [] else [data[0]] + First(data[1..])
  }

  function Unpack(data: seq<Byte>): seq<seq<Byte>>
    decreases |data|
  {
    var s := First(data);
    if data == [] then []
    else if |s| == |data| then [s]
    else [s] + Unpack(data[|s| + 1..])
  }

  predicate Terminated(data: seq<Byte>) { data != [] ==> data[|data| - 1] == 0 }

  lemma {:induction false} FirstEnds(data: seq<Byte>)
    ensures var s := First(data); data[..|s|] == s && (|s| < |data| ==> data[|s|] == 0)
    ensures Terminated(data) && data != [] ==> |First(data)| < |data|
    decreases |data|
  {
    if data != [] && data[0] != 0 {
      FirstEnds(data[1..]);
    }
  }

  // A value whose last byte is NUL is its strings packed, whatever its length.
  lemma {:induction false} Unpacked(data: seq<Byte>)
    requires Terminated(data)
    ensures Strings(Unpack(data)) && Packed(Unpack(data)) == data
    decreases |data|
  {
    if data != [] {
      FirstEnds(data);
      var s := First(data);
      var rest := data[|s| + 1..];
      assert Terminated(rest) by {
        assert rest != [] ==> rest[|rest| - 1] == data[|data| - 1];
      }
      Unpacked(rest);
      UnpackNext(data, s, rest);
    }
  }

  lemma UnpackNext(data: seq<Byte>, s: seq<Byte>, rest: seq<Byte>)
    requires data != [] && s == First(data) && |s| < |data| && rest == data[|s| + 1..]
    requires data[..|s|] == s && data[|s|] == 0
    requires Strings(Unpack(rest)) && Packed(Unpack(rest)) == rest
    ensures Strings(Unpack(data)) && Packed(Unpack(data)) == data
  {
    hide First;
    hide Unpack;
    var u := Unpack(rest);
    assert Unpack(data) == [s] + u by {
      UnpackIs(data);
    }
    assert ([s] + u)[1..] == u;
    assert data == s + [0] + rest;
  }

  lemma UnpackIs(data: seq<Byte>)
    requires data != [] && |First(data)| < |data|
    ensures Unpack(data) == [First(data)] + Unpack(data[|First(data)| + 1..])
  {
  }

  // The first len bytes of a padded value.
  function ValueBytes(len: Word, value: seq<Word>): seq<Byte> {
    if len <= 4 * |value| then Bytes(value)[..len] else Bytes(value)
  }

  function StringAt(strings: seq<Byte>, at: nat): seq<Byte> {
    if at <= |strings| then First(strings[at..]) else []
  }

  // The test of compat_prop, for a block of property names and the string
  // that filter_compat is called with.
  function Compatible(strings: seq<Byte>, compat: seq<Byte>): Test {
    (len: Word, nameoff: Word, value: seq<Word>) =>
      StringAt(strings, nameoff) == COMPATIBLE && compat in Unpack(ValueBytes(len, value))
  }

  // ---- what the test means in memory ----

  // The bytes of a value as they lie in memory: the first of a word is its
  // most significant.
  lemma BytesAre(value: seq<Word>, j: nat)
    requires j < |value|
    ensures var b := Bytes(value);
            value[j] as int ==
            b[4 * j] as int * 0x100_0000 + b[4 * j + 1] as int * 0x1_0000 + b[4 * j + 2] as int * 0x100
            + b[4 * j + 3] as int
  {
    hide ByteOf;
    var w, b := value[j], Bytes(value);
    assert 4 * j / 4 == (4 * j + 1) / 4 == (4 * j + 2) / 4 == (4 * j + 3) / 4 == j;
    ByteSum(w);
  }

  lemma ByteSum(w: Word)
    ensures w as int == ByteOf(w, 0) as int * 0x100_0000 + ByteOf(w, 1) as int * 0x1_0000 + ByteOf(w, 2) as int * 0x100
                        + ByteOf(w, 3) as int
  {
  }

  // Words that hold the data, zero padded.
  ghost predicate Holds(value: seq<Word>, data: seq<Byte>) {
    && |value| == (|data| + 3) / 4
    && forall j | 0 <= j < |value| ::
         value[j] as int == Padded(data, 4 * j) as int * 0x100_0000 + Padded(data, 4 * j + 1) as int * 0x1_0000
                            + Padded(data, 4 * j + 2) as int * 0x100 + Padded(data, 4 * j + 3) as int
  }

  function Padded(data: seq<Byte>, k: nat): Byte { if k < |data| then data[k] else 0 }

  lemma HoldsBytes(value: seq<Word>, data: seq<Byte>)
    requires Holds(value, data) && |data| < 0x1_0000_0000
    ensures ValueBytes(|data|, value) == data
  {
    hide Holds;
    hide Bytes;
    var b := Bytes(value);
    assert |b| == 4 * |value| && |value| == (|data| + 3) / 4 by { HoldsSize(value, data); }
    forall k | 0 <= k < |data| ensures b[k] == data[k] {
      HoldsByte(value, data, k);
    }
    assert b[..|data|] == data;
  }

  lemma HoldsSize(value: seq<Word>, data: seq<Byte>)
    requires Holds(value, data)
    ensures |value| == (|data| + 3) / 4
  {
  }

  lemma HoldsByte(value: seq<Word>, data: seq<Byte>, k: nat)
    requires Holds(value, data) && k < |data| <= 4 * |value|
    ensures Bytes(value)[k] == data[k]
  {
    hide ByteOf;
    var j := k / 4;
    ByteSplit(value[j], Padded(data, 4 * j), Padded(data, 4 * j + 1), Padded(data, 4 * j + 2), Padded(data, 4 * j + 3));
    assert k == 4 * j + k % 4;
  }

  lemma ByteSplit(w: Word, b0: Byte, b1: Byte, b2: Byte, b3: Byte)
    requires w as int == b0 as int * 0x100_0000 + b1 as int * 0x1_0000 + b2 as int * 0x100 + b3 as int
    ensures ByteOf(w, 0) == b0 && ByteOf(w, 1) == b1 && ByteOf(w, 2) == b2 && ByteOf(w, 3) == b3
  {
    hide ByteOf;
    ByteIs(w, 0x100_0000, 0, b0, b1 as int * 0x1_0000 + b2 as int * 0x100 + b3 as int);
    ByteIs(w, 0x1_0000, b0, b1, b2 as int * 0x100 + b3 as int);
    ByteIs(w, 0x100, b0 as int * 0x100 + b1 as int, b2, b3);
    ByteIs(w, 1, b0 as int * 0x1_0000 + b1 as int * 0x100 + b2 as int, b3, 0);
    BytesOf(w);
  }

  lemma ByteIs(w: nat, m: nat, q: nat, b: nat, low: nat)
    requires m > 0 && b < 0x100 && low < m && w == (q * 0x100 + b) * m + low
    ensures w / m % 0x100 == b
  {
    DivModUnique(w, m, q * 0x100 + b, low);
    DivModUnique(q * 0x100 + b, 0x100, q, b);
  }

  lemma BytesOf(w: Word)
    ensures ByteOf(w, 0) == w / 0x100_0000 % 0x100 && ByteOf(w, 1) == w / 0x1_0000 % 0x100
    ensures ByteOf(w, 2) == w / 0x100 % 0x100 && ByteOf(w, 3) == w / 1 % 0x100
  {
  }

  // So the words of a node's name are those of a string with its NUL: they
  // end with the first that has a NUL byte, after strlen / 4 others.
  lemma NameHolds(name: seq<Word>, str: seq<Byte>)
    requires 0 !in str && Holds(name, str + [0])
    ensures NameOk(name) && |name| == |str| / 4 + 1
  {
    var data := str + [0];
    forall j | 0 <= j < |name| ensures HasNul(name[j]) <==> j == |name| - 1 {
      var b0, b1 := Padded(data, 4 * j), Padded(data, 4 * j + 1);
      var b2, b3 := Padded(data, 4 * j + 2), Padded(data, 4 * j + 3);
      NulAmong(name[j], b0, b1, b2, b3);
      PaddedNul(str, 4 * j);
      PaddedNul(str, 4 * j + 1);
      PaddedNul(str, 4 * j + 2);
      PaddedNul(str, 4 * j + 3);
    }
  }

  lemma PaddedNul(str: seq<Byte>, k: nat)
    requires 0 !in str
    ensures Padded(str + [0], k) == 0 <==> k >= |str|
  {
    if k < |str| {
      assert (str + [0])[k] == str[k] && str[k] in str;
    }
  }

  lemma NulAmong(w: Word, b0: Byte, b1: Byte, b2: Byte, b3: Byte)
    requires w as int == b0 as int * 0x100_0000 + b1 as int * 0x1_0000 + b2 as int * 0x100 + b3 as int
    ensures HasNul(w) <==> b0 == 0 || b1 == 0 || b2 == 0 || b3 == 0
  {
    ByteSplit(w, b0, b1, b2, b3);
  }

  // Strings packed are read back.
  lemma {:induction false} PackedBack(list: seq<seq<Byte>>)
    requires Strings(list)
    ensures Unpack(Packed(list)) == list
  {
    if list != [] {
      var s, rest := list[0], Packed(list[1..]);
      var data := s + [0] + rest;
      FirstIs(data, s);
      assert data[|s| + 1..] == rest;
      PackedBack(list[1..]);
      assert list == [s] + list[1..];
    }
  }

  // The string at the front of the data is the one that ends at the first
  // NUL.
  lemma {:induction false} FirstIs(data: seq<Byte>, s: seq<Byte>)
    requires |s| < |data| && data[..|s|] == s && data[|s|] == 0 && 0 !in s
    ensures First(data) == s
    decreases |s|
  {
    if s != [] {
      assert data[0] == s[0] != 0;
      assert data[1..][..|s| - 1] == s[1..];
      FirstIs(data[1..], s[1..]);
      assert s == [s[0]] + s[1..];
    }
  }

  // The name at an offset is "compatible" when it reads so, NUL included.
  predicate Named(strings: seq<Byte>, at: nat) {
    && at + 10 < |strings| && strings[at + 10] == 0
    && forall k | 0 <= k < 10 :: strings[at + k] == "compatible"[k] as int
  }

  lemma NameIs(strings: seq<Byte>, at: nat)
    requires at < |strings| && Terminated(strings)
    ensures StringAt(strings, at) == COMPATIBLE <==> Named(strings, at)
  {
    var data := strings[at..];
    assert forall k | 0 <= k < |data| :: data[k] == strings[at + k];
    assert COMPATIBLE == seq(10, k requires 0 <= k < 10 => "compatible"[k] as int);
    FirstEnds(data);
    if First(data) == COMPATIBLE {
      assert forall k | 0 <= k < 10 :: data[k] == data[..10][k];
    }
    if Named(strings, at) {
      assert data[..10] == COMPATIBLE;
      FirstIs(data, COMPATIBLE);
    }
  }

  // A property whose words hold the strings of a list, each with its NUL,
  // passes if and only if it is named "compatible" and lists the string.
  lemma CompatibleExact(strings: seq<Byte>, compat: seq<Byte>, nameoff: Word, value: seq<Word>, list: seq<seq<Byte>>)
    requires nameoff < |strings| && Terminated(strings)
    requires Strings(list) && Holds(value, Packed(list)) && |Packed(list)| < 0x1_0000_0000
    ensures Compatible(strings, compat)(|Packed(list)|, nameoff, value) <==> Named(strings, nameoff) && compat in list
  {
    hide Holds;
    hide Unpack;
    hide Packed;
    hide Named;
    hide StringAt;
    hide ValueBytes;
    HoldsBytes(value, Packed(list));
    PackedBack(list);
    NameIs(strings, nameoff);
  }

  // compat_prop: strcmp and fdt_string_list_index compute it.
  method CompatProperty(strings: seq<Byte>, compat: seq<Byte>, len: Word, nameoff: Word, value: seq<Word>)
    returns (hit: bool)
    requires |value| == (len + 3) / 4 && Terminated(ValueBytes(len, value))
    requires nameoff < |strings| && Terminated(strings)
    ensures hit == Compatible(strings, compat)(len, nameoff, value)
  {
    hide First;
    hide Unpack;
    hide ValueBytes;
    ghost var name := NameEnds(strings, nameoff);
    var n := StrLen(strings, nameoff, name);
    if strings[nameoff..nameoff + n] != COMPATIBLE {
      return false;
    }
    Unpacked(ValueBytes(len, value));
    var index := StringListIndex(ValueBytes(len, value), compat, Unpack(ValueBytes(len, value)));
    return index >= 0;
  }

  lemma NameEnds(strings: seq<Byte>, at: nat) returns (name: seq<Byte>)
    requires at < |strings| && Terminated(strings)
    ensures name == StringAt(strings, at) && at + |name| < |strings| && 0 !in name
    ensures strings[at..at + |name|] == name && strings[at + |name|] == 0
  {
    var data := strings[at..];
    name := First(data);
    FirstEnds(data);
    assert data[..|name|] == strings[at..at + |name|];
    assert data[|data| - 1] == strings[|strings| - 1];
  }

  // A node is compatible when one of its own properties is.
  predicate Passes(e: Event, test: Test) { e.PropSeen? && test(e.len, e.nameoff, e.value) }

  lemma {:induction false} HitMeans(f: Items, test: Test, last: bool)
    requires WellFormed(f, last)
    ensures Hit(f, test) <==> exists e <- Props(f) :: Passes(e, test)
    decreases f
  {
    match f
    case Nil =>
    case Nop(rest) => HitMeans(rest, test, last);
    case Prop(len, nameoff, value, rest) =>
      HitMeans(rest, test, last);
      assert Props(f)[0] == PropSeen(len, nameoff, value);
      assert forall e :: e in Props(f) <==> e == PropSeen(len, nameoff, value) || e in Props(rest);
      assert Passes(PropSeen(len, nameoff, value), test) == test(len, nameoff, value);
    case Node(_, _, rest) =>
      NoLateHit(rest, test);
      NoProps(rest);
  }

  // Words that lie at the same place are read back as one tree.
  lemma ReadBack(w: seq<Word>, i: nat, f: Items, g: Items)
    requires WellFormed(f, false) && WellFormed(g, false)
    requires At(w, i, Encode(f) + [END]) && At(w, i, Encode(g) + [END])
    ensures f == g
  {
    hide Encode;
    hide At;
    var x := Onward(w, i, Encode(f));
    var y := Onward(w, i, Encode(g));
    Decodes(f, g, false, END, END, x, y);
  }

  // What follows an block and its END.
  lemma Onward(w: seq<Word>, i: nat, e: seq<Word>) returns (x: seq<Word>)
    requires At(w, i, e + [END])
    ensures i <= |w| && w[i..] == e + ([END] + x)
  {
    var n := i + |e| + 1;
    x := w[n..];
    assert w[i..] == w[i..n] + w[n..];
    assert (e + [END]) + x == e + ([END] + x);
  }

  // filter_compat for a string: whatever tree the block is read back as is
  // the original minus the maximal subtrees whose root lists the string, if
  // and only if the depth mark is not met.
  method FilterCompatible(magic: Word, lastCompVersion: Word, lex: array<Word>, i: nat, strings: seq<Byte>,
                          compat: seq<Byte>, ghost f: Items)
    requires magic == 0xd00d_feed && lastCompVersion <= 17
    requires WellFormed(f, false) && At(lex[..], i, Encode(f) + [END])
    requires !Hit(f, Compatible(strings, compat))
    modifies lex
    ensures Same(old(lex[..]), lex[..], i, i + |Encode(f)|)
    ensures forall g: Items | WellFormed(g, false) && At(lex[..], i, Encode(g) + [END]) ::
              (Strip(g) == Minus(Strip(f), Compatible(strings, compat)) <==> Shallow(f, 0, Compatible(strings, compat)))
  {
    hide At;
    hide Compatible;
    ghost var test := Compatible(strings, compat);
    FilterCompat(magic, lastCompVersion, lex, i, Compatible(strings, compat), f);
    FilteredShape(f, 0, false, test);
    forall g: Items | WellFormed(g, false) && At(lex[..], i, Encode(g) + [END])
      ensures Strip(g) == Minus(Strip(f), test) <==> Shallow(f, 0, test)
    {
      ReadBack(lex[..], i, g, Filtered(f, 0, test));
      PruneExact(f, 0, test);
    }
  }
}
