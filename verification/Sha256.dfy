// Feeding a string to the SHA-256 engine: blocks, padding and the order of
// words, against section 5 of FIPS 180-4.
module Sha256 {
  import opened Arith

  type Byte = x: nat | x < 0x100
  type Word = x: nat | x < 0x1_0000_0000

  const BLOCK: nat := 64
  const WORDS: nat := 16

  // ---- FIPS 180-4 ----

  // The bit length of the message as eight bytes, most significant first.
  function Length64(bytes: nat): (s: seq<Byte>)
    ensures |s| == 8
  {
    seq(8, i requires 0 <= i < 8 => 8 * bytes / Pow256(7 - i) % 0x100)
  }

  function Pow256(k: nat): (p: nat)
    ensures p > 0
  {
    if k == 0 then 1 else 0x100 * Pow256(k - 1)
  }

  function Zeros(n: nat): (s: seq<Byte>)
    ensures |s| == n && forall i | 0 <= i < n :: s[i] == 0
  {
    seq(n, _ => 0)
  }

  // Section 5.1.1: a one bit, the fewest zeros that reach 448 modulo 512, and
  // the length.
  function Padding(bytes: nat): (s: seq<Byte>)
    ensures (bytes + |s|) % BLOCK == 0
  {
    var k := (55 - bytes as int) % BLOCK;
    PaddingLength(bytes);
    [0x80] + Zeros(k) + Length64(bytes)
  }

  lemma PaddingLength(bytes: nat)
    ensures var k := (55 - bytes as int) % BLOCK; (bytes + 9 + k) % BLOCK == 0
  {
  }

  // Eight bytes, most significant first.
  function BigEndian(b: seq<Byte>): nat
    requires |b| == 8
  {
    b[0] as int * 0x100_0000_0000_0000 + b[1] as int * 0x1_0000_0000_0000 + b[2] as int * 0x100_0000_0000
    + b[3] as int * 0x1_0000_0000 + b[4] as int * 0x100_0000 + b[5] as int * 0x1_0000 + b[6] as int * 0x100
    + b[7] as int
  }

  // The padding brings the message to whole blocks, with a first byte of a
  // one bit and zeros, fewer zero bytes than a block, and the length in bits.
  lemma PaddingMeans(bytes: nat)
    ensures var p := Padding(bytes);
            && 9 <= |p| < 9 + BLOCK && (bytes + |p|) % BLOCK == 0
            && p[0] == 0x80 && (forall i | 1 <= i < |p| - 8 :: p[i] == 0)
            && BigEndian(p[|p| - 8..]) == 8 * bytes % 0x1_0000_0000_0000_0000
  {
    var p := Padding(bytes);
    assert p[|p| - 8..] == Length64(bytes);
    LengthMeans(bytes);
  }

  lemma LengthMeans(bytes: nat)
    ensures BigEndian(Length64(bytes)) == 8 * bytes % 0x1_0000_0000_0000_0000
  {
    hide Pow256;
    var x, b := 8 * bytes, Length64(bytes);
    Powers256();
    assert x / 1 == x;
    TopByte(x, 0x100);
    TopByte(x, 0x1_0000);
    TopByte(x, 0x100_0000);
    TopByte(x, 0x1_0000_0000);
    TopByte(x, 0x100_0000_0000);
    TopByte(x, 0x1_0000_0000_0000);
    TopByte(x, 0x100_0000_0000_0000);
  }

  lemma Powers256()
    ensures Pow256(0) == 1 && Pow256(1) == 0x100 && Pow256(2) == 0x1_0000 && Pow256(3) == 0x100_0000
    ensures Pow256(4) == 0x1_0000_0000 && Pow256(5) == 0x100_0000_0000 && Pow256(6) == 0x1_0000_0000_0000
    ensures Pow256(7) == 0x100_0000_0000_0000
  {
    assert Pow256(4) == 0x100 * Pow256(3);
  }

  lemma TopByte(x: nat, m: nat)
    requires m > 0
    ensures m * 0x100 > 0 && x % (m * 0x100) == (x / m % 0x100) * m + x % m
  {
    var q, r := x / m, x % m;
    DivMod(x, m);
    DivMod(q, 0x100);
    var h, d := q / 0x100, q % 0x100;
    assert x == h * (m * 0x100) + (d * m + r) by {
      Distribute(h * 0x100, d, m);
      Associate(h, 0x100, m);
      Commute(0x100, m);
    }
    MulMono(d, 0xFF, m);
    MulMono(0, d, m);
    DivModUnique(x, m * 0x100, h, d * m + r);
  }

  function Packed(b: seq<Byte>, i: nat): Word
    requires i + 4 <= |b|
  {
    b[i] as int * 0x100_0000 + b[i + 1] as int * 0x1_0000 + b[i + 2] as int * 0x100 + b[i + 3] as int
  }

  // Section 5.2.1: sixteen words, each of four bytes most significant first.
  function Parse(b: seq<Byte>): (w: seq<Word>)
    requires |b| == BLOCK
    ensures |w| == WORDS && forall i | 0 <= i < WORDS :: w[i] == Packed(b, 4 * i)
  {
    seq(WORDS, i requires 0 <= i < WORDS => Packed(b, 4 * i))
  }

  // Two words of a block make the big-endian number of its eight bytes.
  lemma ParseMeans(b: seq<Byte>, i: nat)
    requires |b| == BLOCK && i < 8
    ensures Parse(b)[2 * i] as int * 0x1_0000_0000 + Parse(b)[2 * i + 1] == BigEndian(b[8 * i..8 * i + 8])
  {
    var c := b[8 * i..8 * i + 8];
    assert forall k | 0 <= k < 8 :: c[k] == b[8 * i + k];
    assert 4 * (2 * i) == 8 * i && 4 * (2 * i + 1) == 8 * i + 4;
    assert Parse(b)[2 * i] == Packed(b, 8 * i) && Parse(b)[2 * i + 1] == Packed(b, 8 * i + 4);
  }

  // A block as the engine takes it: started afresh or continuing.
  datatype Fed = Fed(init: bool, words: seq<Word>)

  function FipsBlocks(b: seq<Byte>, first: bool): seq<Fed>
    requires |b| % BLOCK == 0
  {
    if |b| == 0 then [] else [Fed(first, Parse(b[..BLOCK]))] + FipsBlocks(b[BLOCK..], false)
  }

  function Fips(msg: seq<Byte>): seq<Fed> { FipsBlocks(msg + Padding(|msg|), true) }

  // ---- the driver's blocks ----

  // What sha256_addPadding writes: with exactly 56 bytes in the last block the
  // marker lands on the first byte of the length.
  function Written(bytes: nat): seq<Byte> {
    if bytes % BLOCK == 56 then [0x80] + Length64(bytes)[1..] else Padding(bytes)
  }

  function Added(bytes: nat): (n: nat)
    ensures n == |Written(bytes)| && (bytes % BLOCK + n == BLOCK || bytes % BLOCK + n == 2 * BLOCK)
    ensures bytes % BLOCK + n == 2 * BLOCK <==> bytes % BLOCK > 56
  {
    if bytes % BLOCK > 56 then 2 * BLOCK - bytes % BLOCK else BLOCK - bytes % BLOCK
  }

  lemma PaddingExact(bytes: nat)
    ensures Written(bytes) == Padding(bytes) <==> bytes % BLOCK != 56
  {
  }

  // A word as the processor loads it: least significant byte first.
  function Loaded(b: seq<Byte>, i: nat): Word
    requires i + 4 <= |b|
  {
    b[i] as int + b[i + 1] as int * 0x100 + b[i + 2] as int * 0x1_0000 + b[i + 3] as int * 0x100_0000
  }

  function Native(b: seq<Byte>): (w: seq<Word>)
    requires |b| == BLOCK
    ensures |w| == WORDS && forall i | 0 <= i < WORDS :: w[i] == Loaded(b, 4 * i)
  {
    seq(WORDS, i requires 0 <= i < WORDS => Loaded(b, 4 * i))
  }

  // The blocks fed for the rest of a message of `total` bytes.
  function Blocks(rest: seq<Byte>, total: nat, first: bool): seq<Fed>
    requires |rest| % BLOCK == total % BLOCK
  {
    if |rest| >= BLOCK then [Fed(first, Parse(rest[..BLOCK]))] + Blocks(rest[BLOCK..], total, false)
    else LastBlocks(rest, total, first)
  }

  function LastBlocks(rest: seq<Byte>, total: nat, first: bool): seq<Fed>
    requires |rest| < BLOCK && |rest| == total % BLOCK
  {
    var n, b := Added(total), rest + Written(total);
    [Fed(first, Parse(b[..BLOCK]))] + (if n > BLOCK then [Fed(false, Native(b[BLOCK..]))] else [])
  }

  function Driven(msg: seq<Byte>): seq<Fed> { Blocks(msg, |msg|, true) }

  // The engine is fed as the standard asks if and only if the last block has
  // room for the padding.
  lemma FedRight(msg: seq<Byte>)
    requires 8 * |msg| < 0x8000_0000
    ensures Driven(msg) == Fips(msg) <==> |msg| % BLOCK <= 55
  {
    BlocksRight(msg, |msg|, true);
  }

  lemma {:induction false} BlocksRight(rest: seq<Byte>, total: nat, first: bool)
    requires |rest| % BLOCK == total % BLOCK && 8 * total < 0x8000_0000
    ensures (|rest| + |Padding(total)|) % BLOCK == 0
    ensures Blocks(rest, total, first) == FipsBlocks(rest + Padding(total), first) <==> total % BLOCK <= 55
    decreases |rest|
  {
    hide Padding;
    hide Parse;
    hide LastBlocks;
    PaddedWhole(|rest|, total);
    var b := rest + Padding(total);
    if |rest| >= BLOCK {
      BlocksRight(rest[BLOCK..], total, false);
      assert b[..BLOCK] == rest[..BLOCK] && b[BLOCK..] == rest[BLOCK..] + Padding(total);
      var x, y := Blocks(rest[BLOCK..], total, false), FipsBlocks(rest[BLOCK..] + Padding(total), false);
      HeadsApart(Fed(first, Parse(rest[..BLOCK])), x, y);
    } else {
      LastRight(rest, total, first);
    }
  }

  lemma PaddedWhole(n: nat, total: nat)
    requires n % BLOCK == total % BLOCK
    ensures (n + |Padding(total)|) % BLOCK == 0
  {
    hide Padding;
    SameRest(n, total, |Padding(total)|);
  }

  lemma SameRest(n: nat, m: nat, k: nat)
    requires n % BLOCK == m % BLOCK && (m + k) % BLOCK == 0
    ensures (n + k) % BLOCK == 0
  {
  }

  lemma HeadsApart(h: Fed, x: seq<Fed>, y: seq<Fed>)
    ensures [h] + x == [h] + y <==> x == y
  {
    assert ([h] + x)[1..] == x && ([h] + y)[1..] == y;
  }

  lemma LastRight(rest: seq<Byte>, total: nat, first: bool)
    requires |rest| < BLOCK && |rest| == total % BLOCK && 8 * total < 0x8000_0000
    ensures (|rest| + |Padding(total)|) % BLOCK == 0
    ensures LastBlocks(rest, total, first) == FipsBlocks(rest + Padding(total), first) <==> total % BLOCK <= 55
  {
    hide Padding;
    hide Parse;
    hide Native;
    hide LastBlocks;
    hide FipsBlocks;
    PaddedWhole(|rest|, total);
    PaddingSize(total);
    var b := rest + Padding(total);
    LastAre(rest, total, first);
    if total % BLOCK <= 55 {
      OneBlock(b, first);
    } else {
      TwoBlocks(b, first);
      if total % BLOCK > 56 {
        LastWord(rest, total);
      }
    }
  }

  // The blocks the driver sends at the end, in terms of the padding proper.
  lemma LastAre(rest: seq<Byte>, total: nat, first: bool)
    requires |rest| < BLOCK && |rest| == total % BLOCK
    ensures total % BLOCK == 56 ==> |LastBlocks(rest, total, first)| == 1
    ensures total % BLOCK <= 55 ==>
              |rest + Padding(total)| == BLOCK
              && LastBlocks(rest, total, first) == [Fed(first, Parse((rest + Padding(total))[..BLOCK]))]
    ensures total % BLOCK > 56 ==>
              && |rest + Padding(total)| == 2 * BLOCK
              && LastBlocks(rest, total, first)
              == [Fed(first, Parse((rest + Padding(total))[..BLOCK])),
                  Fed(false, Native((rest + Padding(total))[BLOCK..]))]
  {
    hide Padding;
    hide Parse;
    hide Native;
    PaddingSize(total);
  }

  lemma PaddingSize(total: nat)
    ensures total % BLOCK <= 55 ==> total % BLOCK + |Padding(total)| == BLOCK
    ensures total % BLOCK > 55 ==> total % BLOCK + |Padding(total)| == 2 * BLOCK
  {
  }

  lemma OneBlock(b: seq<Byte>, first: bool)
    requires |b| == BLOCK
    ensures FipsBlocks(b, first) == [Fed(first, Parse(b[..BLOCK]))]
  {
    assert FipsBlocks(b[BLOCK..], false) == [];
  }

  lemma TwoBlocks(b: seq<Byte>, first: bool)
    requires |b| == 2 * BLOCK
    ensures FipsBlocks(b, first) == [Fed(first, Parse(b[..BLOCK])), Fed(false, Parse(b[BLOCK..]))]
  {
    OneBlock(b[BLOCK..], false);
    assert b[BLOCK..][..BLOCK] == b[BLOCK..];
  }

  // The last word of a second block is the low half of the length, whose
  // outer bytes differ: loaded in the processor's order it comes out wrong.
  lemma LastWord(rest: seq<Byte>, total: nat)
    requires |rest| == total % BLOCK > 56 && 8 * total < 0x8000_0000
    ensures |rest + Padding(total)| == 2 * BLOCK
    ensures Native((rest + Padding(total))[BLOCK..]) != Parse((rest + Padding(total))[BLOCK..])
  {
    PaddingSize(total);
    var b := (rest + Padding(total))[BLOCK..];
    LengthBytes(rest, total, b);
    if Native(b) == Parse(b) {
      assert Loaded(b, 60) == Native(b)[15] == Parse(b)[15] == Packed(b, 60);
      Palindrome(b[60], b[61], b[62], b[63]);
      assert false;
    }
  }

  lemma Palindrome(x: Byte, y: Byte, z: Byte, t: Byte)
    requires x as int + y as int * 0x100 + z as int * 0x1_0000 + t as int * 0x100_0000
          == x as int * 0x100_0000 + y as int * 0x1_0000 + z as int * 0x100 + t as int
    ensures x == t
  {
  }

  lemma LengthBytes(rest: seq<Byte>, total: nat, b: seq<Byte>)
    requires |rest| == total % BLOCK > 56 && 8 * total < 0x8000_0000
    requires |rest + Padding(total)| == 2 * BLOCK && b == (rest + Padding(total))[BLOCK..]
    ensures b[60] != b[63]
  {
    var l := Length64(total);
    assert b[56..] == l;
    assert b[60] == l[4] && b[63] == l[7];
    assert Pow256(0) == 1 && Pow256(3) == 0x100_0000;
    assert l[4] == 8 * total / 0x100_0000 % 0x100 && l[7] == 8 * total % 0x100;
    OuterBytes(total);
  }

  lemma OuterBytes(total: nat)
    requires total % BLOCK > 56 && 8 * total < 0x8000_0000
    ensures 8 * total / 0x100_0000 % 0x100 < 0x80 <= 8 * total % 0x100
  {
    DivModUnique(8 * total, 0x200, total / 64, 8 * (total % 64));
    var m := 8 * (total % 64);
    DivModUnique(8 * total, 0x100, total / 64 * 2 + m / 0x100, m % 0x100);
  }

  // ---- the driver ----

  // sha256_addPadding on a block buffer of twice the block size.
  method AddPadding(bits: nat, buffer: array<Byte>) returns (added: nat)
    requires bits % 8 == 0 && bits < 0x8000_0000 && buffer.Length == 2 * BLOCK
    modifies buffer
    ensures added == Added(bits / 8)
    ensures var e := bits / 8 % BLOCK;
            buffer[..e] == old(buffer[..e]) && buffer[e..e + added] == Written(bits / 8)
            && buffer[e + added..] == old(buffer[e + added..])
  {
    hide Written;
    hide Pow256;
    hide Added;
    var extraBits := bits % 512;
    var paddingBits := if extraBits > 448 then 1024 - extraBits else 512 - extraBits;
    var startByte := extraBits / 8;
    var sizeStartByte := startByte + (paddingBits / 8 - 8);
    ghost var total, e, w, was := bits / 8, bits / 8 % BLOCK, Written(bits / 8), buffer[..];
    PadPlaces(bits);
    assert startByte == e && paddingBits / 8 == |w|;
    var i := startByte;
    while i < sizeStartByte + 8
      invariant e <= i <= e + |w| <= buffer.Length
      invariant forall k | 0 <= k < |w| && k < i - e :: buffer[e + k] == w[k]
      invariant buffer[..e] == was[..e] && buffer[e + |w|..] == was[e + |w|..]
    {
      PadByte(total, i - e);
      if i == startByte {
        buffer[i] := 0x80;
      } else if i >= sizeStartByte {
        var offset := i - sizeStartByte;
        buffer[i] := bits / Pow256(7 - offset) % 0x100;
      } else {
        buffer[i] := 0;
      }
      i := i + 1;
    }
    assert buffer[e..e + |w|] == w;
    added := paddingBits / 8;
  }

  lemma PadPlaces(bits: nat)
    requires bits % 8 == 0
    ensures var x := bits % 512;
            && x / 8 == bits / 8 % BLOCK && x == 8 * (x / 8)
            && (if x > 448 then 1024 - x else 512 - x) / 8 == |Written(bits / 8)| >= 8
  {
    hide Written;
    hide Added;
    var n := bits / 8;
    DivModUnique(bits, 512, n / 64, 8 * (n % 64));
    assert Added(n) == |Written(n)|;
    PadCount(n);
  }

  lemma PadCount(n: nat)
    ensures var x := 8 * (n % 64); (if x > 448 then 1024 - x else 512 - x) / 8 == Added(n) >= 8
  {
    hide Written;
  }

  // Byte k of what is written.
  lemma PadByte(total: nat, k: nat)
    requires k < |Written(total)|
    ensures var w := Written(total);
            && |w| >= 8
            && w[k] == if k == 0 then 0x80 else if k >= |w| - 8 then 8 * total / Pow256(7 - (k - (|w| - 8))) % 0x100
               else 0
  {
    hide Length64;
    if k > 0 && k >= |Written(total)| - 8 {
      LengthByte(total, k - (|Written(total)| - 8));
    }
  }

  lemma LengthByte(total: nat, i: nat)
    requires i < 8
    ensures Length64(total)[i] == 8 * total / Pow256(7 - i) % 0x100
  {
    hide Pow256;
  }

  // The engine's text registers, and the blocks it has been told to hash.
  class Engine {
    const text: array<Word>
    var fed: seq<Fed>

    constructor ()
      ensures fresh(text) && text.Length == WORDS && fed == []
    {
      text := new Word[WORDS](_ => 0);
      fed := [];
    }

    // The block in the registers, whose first word is in the last one.
    function Registers(): (w: seq<Word>)
      requires text.Length == WORDS
      reads text
      ensures |w| == WORDS && forall i | 0 <= i < WORDS :: w[i] == text[WORDS - 1 - i]
    {
      seq(WORDS, i requires 0 <= i < WORDS reads text requires text.Length == WORDS => text[WORDS - 1 - i])
    }

    // The two writes to the control register.
    method Strobe(init: bool)
      requires text.Length == WORDS
      modifies this`fed
      ensures fed == old(fed) + [Fed(init, Registers())]
    {
      fed := fed + [Fed(init, Registers())];
    }

    // writeMulticharToAddress: bytes shifted into a word, four at a time.
    method WriteMultichar(data: array<Byte>)
      requires text.Length == WORDS && data.Length >= BLOCK
      modifies text
      ensures Registers() == Parse(data[..BLOCK])
    {
      ghost var b := data[..BLOCK];
      var wdata: Word := 0;
      var blockPtr, ptr := 0, 0;
      var i := BLOCK as int - 1;
      while i >= 0
        invariant -1 <= i < BLOCK && ptr == BLOCK - 1 - i && blockPtr == ptr / 4
        invariant forall k | 0 <= k < blockPtr :: text[WORDS - 1 - k] == Packed(b, 4 * k)
        invariant Partial(wdata, b, ptr)
      {
        ghost var before := wdata;
        wdata := (wdata as int * 0x100 + data[ptr] as int) % 0x1_0000_0000;
        ptr := ptr + 1;
        NextByte(before, wdata, b, ptr - 1);
        if i % 4 == 0 {
          text[WORDS - 1 - blockPtr] := wdata;
          blockPtr := blockPtr + 1;
        }
        i := i - 1;
      }
      assert Registers() == Parse(b);
    }

    // writeMultiToAddress of the second half of the buffer.
    method WriteMulti(data: array<Byte>)
      requires text.Length == WORDS && data.Length == 2 * BLOCK
      modifies text
      ensures Registers() == Native(data[BLOCK..])
    {
      ghost var b := data[BLOCK..];
      var i := 0;
      while i < WORDS
        invariant 0 <= i <= WORDS && forall k | 0 <= k < i :: text[WORDS - 1 - k] == Loaded(b, 4 * k)
      {
        text[WORDS - 1 - i] := Loaded(data[..], BLOCK + 4 * i);
        i := i + 1;
      }
      assert Registers() == Native(b);
    }

    // One block out of the buffer, and the second one when padding needs it.
    method FeedBlock(message: array<Byte>, firstTime: bool, addedBytes: nat)
      requires text.Length == WORDS && message.Length == 2 * BLOCK
      modifies this`fed, text
      ensures fed == old(fed) + Sent(message[..], firstTime, addedBytes)
    {
      WriteMultichar(message);
      Strobe(firstTime);
      assert message[..BLOCK] == message[..][..BLOCK];
      if addedBytes > BLOCK {
        WriteMulti(message);
        Strobe(false);
        assert message[BLOCK..] == message[..][BLOCK..];
      }
    }

    // sha256_hashString without the polling: str is the text before the NUL.
    method HashString(str: seq<Byte>)
      requires text.Length == WORDS && 8 * |str| < 0x8000_0000
      modifies this`fed, text
      ensures fed == old(fed) + Driven(str)
    {
      hide Blocks;
      hide Sent;
      hide Written;
      var pos: nat, done, firstTime := 0, false, true;
      assert str[0..] == str;
      while !done
        invariant pos <= |str| && (!done ==> pos % BLOCK == 0)
        invariant !done ==> old(fed) + Driven(str) == fed + Blocks(str[pos..], |str|, firstTime)
        invariant done ==> fed == old(fed) + Driven(str)
        decreases |str| - pos, !done
      {
        pos, done := FeedNext(str, pos, firstTime);
        firstTime := false;
      }
    }

    // One round of the loop.
    method FeedNext(str: seq<Byte>, pos0: nat, firstTime: bool) returns (pos: nat, done: bool)
      requires text.Length == WORDS && 8 * |str| < 0x8000_0000 && pos0 <= |str| && pos0 % BLOCK == 0
      modifies this`fed, text
      ensures pos0 <= pos <= |str| && (!done ==> pos0 < pos && pos % BLOCK == 0)
      ensures done ==> fed == old(fed) + Blocks(str[pos0..], |str|, firstTime)
      ensures !done ==> old(fed) + Blocks(str[pos0..], |str|, firstTime) == fed + Blocks(str[pos..], |str|, false)
    {
      hide Blocks;
      hide Sent;
      hide Written;
      ghost var rest := str[pos0..];
      var message, length;
      message, length, done := CopyNext(str, pos0);
      pos := pos0 + length;
      var addedBytes := 0;
      if done {
        RestLength(pos0, |str|);
        assert message[..length] == rest;
        addedBytes := AddPadding(pos * 8, message);
        assert message[..][..length] == message[..length] == rest;
        assert message[..][length..length + addedBytes] == message[length..length + addedBytes];
        FinalBlocks(message[..], rest, |str|, firstTime);
      } else {
        NextBlock(message[..], rest, |str|, firstTime);
        assert str[pos..] == rest[BLOCK..];
        Appended(fed, Sent(message[..], firstTime, 0), Blocks(str[pos..], |str|, false));
      }
      FeedBlock(message, firstTime, addedBytes);
    }
  }

  // The blocks one pass of the loop sends from its buffer.
  function Sent(message: seq<Byte>, first: bool, added: nat): seq<Fed>
    requires |message| == 2 * BLOCK
  {
    [Fed(first, Parse(message[..BLOCK]))] + (if added > BLOCK then [Fed(false, Native(message[BLOCK..]))] else [])
  }

  lemma Appended(a: seq<Fed>, b: seq<Fed>, c: seq<Fed>)
    ensures a + (b + c) == (a + b) + c
  {
  }

  // Up to a block of the string into a cleared buffer; done when the end of
  // the string was met.
  method CopyNext(str: seq<Byte>, pos: nat) returns (message: array<Byte>, length: nat, done: bool)
    requires pos <= |str|
    ensures fresh(message) && message.Length == 2 * BLOCK && length <= BLOCK && pos + length <= |str|
    ensures done == (length < BLOCK) && (done ==> pos + length == |str|)
    ensures message[..] == str[pos..pos + length] + Zeros(2 * BLOCK - length)
  {
    message := new Byte[2 * BLOCK](_ => 0);
    length, done := 0, false;
    while length < BLOCK && !done
      invariant length <= BLOCK && pos + length <= |str| && (done ==> length < BLOCK && pos + length == |str|)
      invariant forall k | 0 <= k < length :: message[k] == str[pos + k]
      invariant forall k | length <= k < 2 * BLOCK :: message[k] == 0
      decreases BLOCK - length, !done
    {
      if pos + length == |str| {
        done := true;
      } else {
        message[length] := str[pos + length];
        length := length + 1;
      }
    }
  }

  lemma RestLength(pos: nat, total: nat)
    requires pos % BLOCK == 0 && pos <= total < pos + BLOCK
    ensures total * 8 / 8 == total && total % BLOCK == total - pos
  {
  }

  // The buffer after padding holds the last blocks.
  lemma FinalBlocks(m: seq<Byte>, rest: seq<Byte>, total: nat, first: bool)
    requires |m| == 2 * BLOCK && |rest| == total % BLOCK && m[..|rest|] == rest
    requires m[|rest|..|rest| + Added(total)] == Written(total)
    ensures Blocks(rest, total, first) == Sent(m, first, Added(total))
  {
    hide Written;
    var b := rest + Written(total);
    assert m[..|b|] == b;
    assert m[..BLOCK] == b[..BLOCK];
    if Added(total) > BLOCK {
      assert m[BLOCK..] == b[BLOCK..];
    }
  }

  lemma NextBlock(m: seq<Byte>, rest: seq<Byte>, total: nat, first: bool)
    requires |m| == 2 * BLOCK && |rest| >= BLOCK && |rest| % BLOCK == total % BLOCK && m[..BLOCK] == rest[..BLOCK]
    ensures Blocks(rest, total, first) == Sent(m, first, 0) + Blocks(rest[BLOCK..], total, false)
  {
  }

  // After r bytes of a word its low bytes are those, shifted in order.
  ghost predicate Partial(w: Word, b: seq<Byte>, ptr: nat)
    requires ptr <= |b|
  {
    PartialAt(w, b, ptr, ptr % 4)
  }

  ghost predicate PartialAt(w: Word, b: seq<Byte>, ptr: nat, r: nat)
    requires r <= ptr <= |b|
  {
    match r
    case 0 => true
    case 1 => w % 0x100 == b[ptr - 1]
    case 2 => w % 0x1_0000 == b[ptr - 2] as int * 0x100 + b[ptr - 1] as int
    case _ => r == 3 && w % 0x100_0000 == b[ptr - 3] as int * 0x1_0000 + b[ptr - 2] as int * 0x100 + b[ptr - 1] as int
  }

  lemma NextByte(w: Word, w': Word, b: seq<Byte>, ptr: nat)
    requires ptr < |b| && Partial(w, b, ptr) && w' == (w as int * 0x100 + b[ptr] as int) % 0x1_0000_0000
    ensures Partial(w', b, ptr + 1) && (ptr % 4 == 3 ==> w' == Packed(b, ptr - 3))
  {
    hide PartialAt;
    hide Packed;
    NextByteAt(w, w', b, ptr, ptr % 4);
    NextPlace(ptr);
    NoBytes(w', b, ptr + 1);
  }

  lemma NextPlace(ptr: nat)
    ensures (ptr + 1) % 4 == if ptr % 4 == 3 then 0 else ptr % 4 + 1
  {
  }

  lemma NoBytes(w: Word, b: seq<Byte>, ptr: nat)
    requires ptr <= |b|
    ensures PartialAt(w, b, ptr, 0)
  {
  }

  lemma NextByteAt(w: Word, w': Word, b: seq<Byte>, ptr: nat, r: nat)
    requires r < 4 && r <= ptr < |b| && PartialAt(w, b, ptr, r)
             && w' == (w as int * 0x100 + b[ptr] as int) % 0x1_0000_0000
    ensures if r == 3 then w' == Packed(b, ptr - 3) else PartialAt(w', b, ptr + 1, r + 1)
  {
    match r
    case 0 => ShiftIn(w, b[ptr], w', 1, 0x100_0000, 0);
    case 1 => ShiftIn(w, b[ptr], w', 0x100, 0x1_0000, b[ptr - 1]);
    case 2 => ShiftIn(w, b[ptr], w', 0x1_0000, 0x100, b[ptr - 2] as int * 0x100 + b[ptr - 1] as int);
    case _ => ShiftIn(w, b[ptr], w', 0x100_0000, 1, b[ptr - 3] as int * 0x1_0000 + b[ptr - 2] as int * 0x100
                      + b[ptr - 1] as int);
  }

  lemma ShiftIn(w: nat, x: nat, w': nat, m: nat, s: nat, p: nat)
    requires m > 0 && (0x100 * m) * s == 0x1_0000_0000 && w % m == p && x < 0x100
             && w' == (w * 0x100 + x) % 0x1_0000_0000
    ensures w' % (0x100 * m) == p * 0x100 + x
  {
    var q, k := w / m, (w * 0x100 + x) / 0x1_0000_0000;
    DivMod(w, m);
    DivMod(w * 0x100 + x, 0x1_0000_0000);
    assert (q - k * s) * (0x100 * m) == 0x100 * (q * m) - k * 0x1_0000_0000 by {
      assert (k * s) * (0x100 * m) == k * ((0x100 * m) * s);
      assert q * (0x100 * m) == 0x100 * (q * m);
    }
    DivModUnique(w', 0x100 * m, q - k * s, p * 0x100 + x);
  }
}
