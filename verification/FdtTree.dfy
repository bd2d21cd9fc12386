// The structure block of a flattened device tree: trees, the words that
// encode them, and why the words determine the tree (section 5.4 of the
// Devicetree Specification).  Words are as the scanner reads them, that is
// after bswap.
module FdtTree {
  type Word = x: nat | x < 0x1_0000_0000

  const BEGIN_NODE: Word := 1
  const END_NODE: Word := 2
  const PROP: Word := 3
  const NOP: Word := 4
  const END: Word := 9

  // The contents of one node, in order.
  datatype Items =
    | Nil
    | Nop(rest: Items)
    | Prop(len: Word, nameoff: Word, value: seq<Word>, rest: Items)
    | Node(name: seq<Word>, kids: Items, rest: Items)

  function Encode(f: Items): (e: seq<Word>)
  {
    match f
    case Nil => []
    case Nop(rest) => [NOP] + Encode(rest)
    case Prop(len, nameoff, value, rest) => [PROP, len, nameoff] + value + Encode(rest)
    case Node(name, kids, rest) => [BEGIN_NODE] + name + Encode(kids) + [END_NODE] + Encode(rest)
  }

  // One of the four bytes is 0.
  predicate HasNul(w: Word) {
    w % 0x100 == 0 || w / 0x100 % 0x100 == 0 || w / 0x1_0000 % 0x100 == 0 || w / 0x100_0000 == 0
  }

  // The words of a NUL-terminated, padded name: strlen(name) / 4 + 1 of them.
  ghost predicate NameOk(name: seq<Word>) {
    0 < |name| && HasNul(name[|name| - 1]) && forall k | 0 <= k < |name| - 1 :: !HasNul(name[k])
  }

  // Padded values, terminated names, and no property after a subnode.
  ghost predicate WellFormed(f: Items, last: bool) {
    match f
    case Nil => true
    case Nop(rest) => WellFormed(rest, last)
    case Prop(len, _, value, rest) => !last && |value| == (len + 3) / 4 && WellFormed(rest, last)
    case Node(name, kids, rest) => NameOk(name) && WellFormed(kids, false) && WellFormed(rest, true)
  }

  // Any token that is not one of the first four ends a scan.
  predicate Terminator(w: Word) { w != BEGIN_NODE && w != PROP && w != NOP }

  // ---- the words determine the tree ----

  // A block followed by its terminator and anything else.
  function Tail(f: Items, t: Word, x: seq<Word>): seq<Word> { Encode(f) + ([t] + x) }

  lemma {:induction false} Decodes(f: Items, g: Items, last: bool, t: Word, u: Word, x: seq<Word>, y: seq<Word>)
    requires WellFormed(f, last) && WellFormed(g, last) && Terminator(t) && Terminator(u)
    requires Tail(f, t, x) == Tail(g, u, y)
    ensures f == g && t == u && x == y
    decreases f
  {
    hide Tail;
    hide Encode;
    FirstToken(f, t, x);
    FirstToken(g, u, y);
    match f {
      case Nil => NilTail(t, x, u, y);
      case Nop(rest) =>
        NopTail(rest, g.rest, t, u, x, y);
        Decodes(rest, g.rest, last, t, u, x, y);
      case Prop(_, _, _, rest) =>
        PropTail(f, g, last, t, u, x, y);
        Decodes(rest, g.rest, last, t, u, x, y);
      case Node(_, kids, rest) =>
        NodeTail(f, g, last, t, u, x, y);
        Decodes(kids, g.kids, false, END_NODE, END_NODE, Tail(rest, t, x), Tail(g.rest, u, y));
        Decodes(rest, g.rest, true, t, u, x, y);
    }
  }

  lemma NilTail(t: Word, x: seq<Word>, u: Word, y: seq<Word>)
    requires Tail(Nil, t, x) == Tail(Nil, u, y)
    ensures t == u && x == y
  {
    assert Tail(Nil, t, x) == [t] + x && Tail(Nil, u, y) == [u] + y;
    Split([t], x, [u], y);
  }

  lemma NopTail(f: Items, g: Items, t: Word, u: Word, x: seq<Word>, y: seq<Word>)
    requires Tail(Nop(f), t, x) == Tail(Nop(g), u, y)
    ensures Tail(f, t, x) == Tail(g, u, y)
  {
    assert Tail(Nop(f), t, x) == [NOP] + Tail(f, t, x);
    assert Tail(Nop(g), u, y) == [NOP] + Tail(g, u, y);
    Split([NOP], Tail(f, t, x), [NOP], Tail(g, u, y));
  }

  lemma PropTail(f: Items, g: Items, last: bool, t: Word, u: Word, x: seq<Word>, y: seq<Word>)
    requires f.Prop? && g.Prop? && WellFormed(f, last) && WellFormed(g, last)
    requires Tail(f, t, x) == Tail(g, u, y)
    ensures f.len == g.len && f.nameoff == g.nameoff && f.value == g.value && Tail(f.rest, t, x) == Tail(g.rest, u, y)
  {
    var ft, gt := Tail(f.rest, t, x), Tail(g.rest, u, y);
    PropWords(f, t, x);
    PropWords(g, u, y);
    hide Tail;
    Split([PROP, f.len, f.nameoff], f.value + ft, [PROP, g.len, g.nameoff], g.value + gt);
    assert [PROP, f.len, f.nameoff][1] == [PROP, g.len, g.nameoff][1];
    assert [PROP, f.len, f.nameoff][2] == [PROP, g.len, g.nameoff][2];
    Split(f.value, ft, g.value, gt);
  }

  lemma PropWords(f: Items, t: Word, x: seq<Word>)
    requires f.Prop?
    ensures Tail(f, t, x) == [PROP, f.len, f.nameoff] + (f.value + Tail(f.rest, t, x))
  {
  }

  lemma NodeTail(f: Items, g: Items, last: bool, t: Word, u: Word, x: seq<Word>, y: seq<Word>)
    requires f.Node? && g.Node? && WellFormed(f, last) && WellFormed(g, last)
    requires Tail(f, t, x) == Tail(g, u, y)
    ensures f.name == g.name
    ensures Tail(f.kids, END_NODE, Tail(f.rest, t, x)) == Tail(g.kids, END_NODE, Tail(g.rest, u, y))
  {
    var ft, gt := Tail(f.kids, END_NODE, Tail(f.rest, t, x)), Tail(g.kids, END_NODE, Tail(g.rest, u, y));
    NodeSplit(f, t, x);
    NodeSplit(g, u, y);
    Split([BEGIN_NODE], f.name + ft, [BEGIN_NODE], g.name + gt);
    FirstNul(f.name, ft);
    FirstNul(g.name, gt);
    Split(f.name, ft, g.name, gt);
  }

  lemma NodeSplit(f: Items, t: Word, x: seq<Word>)
    requires f.Node?
    ensures Tail(f, t, x) == [BEGIN_NODE] + (f.name + Tail(f.kids, END_NODE, Tail(f.rest, t, x)))
  {
  }

  // A name ends at the first word with a NUL.
  lemma FirstNul(name: seq<Word>, tail: seq<Word>)
    requires NameOk(name)
    ensures var s := name + tail;
            HasNul(s[|name| - 1]) && forall k | 0 <= k < |name| - 1 :: !HasNul(s[k])
  {
  }

  lemma Split(a: seq<Word>, x: seq<Word>, b: seq<Word>, y: seq<Word>)
    requires |a| == |b| && a + x == b + y
    ensures a == b && x == y
  {
    assert a == (a + x)[..|a|] && x == (a + x)[|a|..];
    assert b == (b + y)[..|b|] && y == (b + y)[|b|..];
  }

  lemma FirstToken(f: Items, t: Word, x: seq<Word>)
    ensures |Tail(f, t, x)| > 0
    ensures var w := Tail(f, t, x)[0];
            match f {
              case Nil => w == t
              case Nop(_) => w == NOP
              case Prop(_, _, _, _) => w == PROP
              case Node(_, _, _) => w == BEGIN_NODE
            }
  {
  }

  // Reading the block again gives back the tree.
  lemma Reparse(f: Items, g: Items, t: Word)
    requires WellFormed(f, false) && WellFormed(g, false) && Terminator(t) && Encode(f) + [t] == Encode(g) + [t]
    ensures f == g
  {
    assert Tail(f, t, []) == Encode(f) + [t] && Tail(g, t, []) == Encode(g) + [t];
    Decodes(f, g, false, t, t, [], []);
  }

  // ---- trees without NOPs ----

  function Strip(f: Items): Items {
    match f
    case Nil => Nil
    case Nop(rest) => Strip(rest)
    case Prop(len, nameoff, value, rest) => Prop(len, nameoff, value, Strip(rest))
    case Node(name, kids, rest) => Node(name, Strip(kids), Strip(rest))
  }

  function Nops(n: nat, rest: Items): Items {
    if n == 0 then rest else Nop(Nops(n - 1, rest))
  }

  function Fill(n: nat): (s: seq<Word>)
    ensures |s| == n && forall k | 0 <= k < n :: s[k] == NOP
  {
    seq(n, _ => NOP)
  }

  lemma {:induction false} NopsWords(n: nat, rest: Items, last: bool)
    ensures Encode(Nops(n, rest)) == Fill(n) + Encode(rest)
    ensures Strip(Nops(n, rest)) == Strip(rest)
    ensures WellFormed(Nops(n, rest), last) == WellFormed(rest, last)
  {
    hide Strip;
    hide WellFormed;
    hide Encode;
    if n > 0 {
      NopsWords(n - 1, rest, last);
      NopNext(Nops(n - 1, rest), last);
      FillNext(n, Encode(rest));
    } else {
      assert Fill(0) + Encode(rest) == Encode(rest);
    }
  }

  lemma FillNext(n: nat, x: seq<Word>)
    requires n > 0
    ensures [NOP] + (Fill(n - 1) + x) == Fill(n) + x
  {
    assert [NOP] + Fill(n - 1) == Fill(n);
  }

  lemma NopNext(f: Items, last: bool)
    ensures Encode(Nop(f)) == [NOP] + Encode(f) && Strip(Nop(f)) == Strip(f)
            && WellFormed(Nop(f), last) == WellFormed(f, last)
  {
  }
}
