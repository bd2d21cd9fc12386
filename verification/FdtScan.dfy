// The recursive scanner of the flattened device tree, with its callbacks as
// functions on their private state, and the in-place deletion of nodes.
module FdtScan {
  import opened FdtTree

  // struct fdt_cb: `close` says whether to delete the node.  A callback that
  // is null leaves the state alone.
  datatype Callbacks<!S> = Callbacks(
    open: (S, seq<Word>) -> S,
    prop: (S, Word, Word, seq<Word>) -> S,
    done: S -> S,
    close: S -> (S, bool))

  // The callbacks' state after a scan, and the block it leaves behind.
  datatype Scanned<S> = Scanned(state: S, items: Items)

  function Scan<S>(cb: Callbacks<S>, f: Items, s: S, top: bool, last: bool): (r: Scanned<S>)
    ensures |Encode(r.items)| == |Encode(f)|
    decreases f
  {
    match f
    case Nil => Scanned(Finish(cb, s, top, last), Nil)
    case Nop(rest) =>
      var r := Scan(cb, rest, s, top, last);
      Scanned(r.state, Nop(r.items))
    case Prop(len, nameoff, value, rest) =>
      var r := Scan(cb, rest, cb.prop(s, len, nameoff, value), top, last);
      Scanned(r.state, Prop(len, nameoff, value, r.items))
    case Node(name, kids, rest) =>
      var k := Scan(cb, kids, cb.open(Finish(cb, s, top, last), name), false, false);
      var c := cb.close(k.state);
      var r := Scan(cb, rest, c.0, top, true);
      var n := NodeLength(name, k.items);
      NopsWords(n, r.items, last);
      Scanned(r.state, if c.1 then Nops(n, r.items) else Node(name, k.items, r.items))
  }

  // `done` is called once, and not outside any node.
  function Finish<S>(cb: Callbacks<S>, s: S, top: bool, last: bool): S {
    if !last && !top then cb.done(s) else s
  }

  function NodeLength(name: seq<Word>, kids: Items): nat { 2 + |name| + |Encode(kids)| }

  // strlen(name) / 4 + 1: the words of the name that starts at i.
  method NameWords(lex: array<Word>, i: nat, ghost name: seq<Word>) returns (k: nat)
    requires At(lex[..], i, name) && NameOk(name)
    ensures k == |name|
  {
    k := 1;
    assert lex[i] == name[0];
    while !HasNul(lex[i + k - 1])
      invariant 1 <= k <= |name| && lex[i + k - 1] == name[k - 1]
      invariant forall j | 0 <= j < k - 1 :: !HasNul(name[j])
      decreases |name| - k
    {
      assert k != |name|;
      assert lex[i + k] == name[k];
      k := k + 1;
    }
  }

  // ---- words in place ----

  // The words e lie at i.
  ghost predicate At(s: seq<Word>, i: nat, e: seq<Word>) {
    i + |e| <= |s| && s[i..i + |e|] == e
  }

  // Only the words from i to j may differ.
  ghost predicate Same(s: seq<Word>, t: seq<Word>, i: nat, j: nat) {
    |s| == |t| && i <= j <= |s| && s[..i] == t[..i] && s[j..] == t[j..]
  }

  lemma AtPair(s: seq<Word>, i: nat, a: seq<Word>, b: seq<Word>)
    ensures At(s, i, a + b) <==> At(s, i, a) && At(s, i + |a|, b)
  {
    if At(s, i, a + b) {
      assert s[i..i + |a|] == s[i..i + |a + b|][..|a|];
      assert s[i + |a|..i + |a| + |b|] == s[i..i + |a + b|][|a|..];
    }
    if At(s, i, a) && At(s, i + |a|, b) {
      assert s[i..i + |a + b|] == s[i..i + |a|] + s[i + |a|..i + |a| + |b|];
    }
  }

  lemma AtKept(s: seq<Word>, t: seq<Word>, i: nat, j: nat, k: nat, e: seq<Word>)
    requires Same(s, t, i, j) && At(s, k, e) && (k + |e| <= i || j <= k)
    ensures At(t, k, e)
  {
    if k + |e| <= i {
      assert s[k..k + |e|] == s[..i][k..k + |e|];
      assert t[k..k + |e|] == t[..i][k..k + |e|];
    } else {
      Later(s, j, k, |e|);
      Later(t, j, k, |e|);
    }
  }

  lemma Later(s: seq<Word>, j: nat, k: nat, n: nat)
    requires j <= k && k + n <= |s|
    ensures s[k..k + n] == s[j..][k - j..k - j + n]
  {
  }

  lemma SameWider(s: seq<Word>, t: seq<Word>, i: nat, j: nat, i': nat, j': nat)
    requires Same(s, t, i, j) && i' <= i && j <= j' <= |s|
    ensures Same(s, t, i', j')
  {
    assert s[..i'] == s[..i][..i'] && t[..i'] == t[..i][..i'];
    assert s[j'..] == s[j..][j' - j..] && t[j'..] == t[j..][j' - j..];
  }

  lemma SameTwice(s: seq<Word>, t: seq<Word>, u: seq<Word>, i: nat, j: nat)
    requires Same(s, t, i, j) && Same(t, u, i, j)
    ensures Same(s, u, i, j)
  {
  }

  // A deleted node is overwritten from its BEGIN_NODE up to the next token.
  method Erase(lex: array<Word>, i: nat, next: nat)
    requires i <= next <= lex.Length
    modifies lex
    ensures At(lex[..], i, Fill(next - i)) && Same(old(lex[..]), lex[..], i, next)
  {
    var j: nat := i;
    while j != next
      invariant i <= j <= next
      invariant forall k | i <= k < j :: lex[k] == NOP
      invariant Same(old(lex[..]), lex[..], i, next)
    {
      lex[j] := NOP;
      j := j + 1;
    }
  }

  function Size(f: Items): nat {
    match f
    case Nil => 0
    case Nop(rest) => 1 + Size(rest)
    case Prop(_, _, _, rest) => 1 + Size(rest)
    case Node(_, kids, rest) => 1 + Size(kids) + Size(rest)
  }

  function NodeWords(name: seq<Word>, kids: Items): seq<Word> {
    [BEGIN_NODE] + (name + (Encode(kids) + [END_NODE]))
  }

  // What scanning a node leaves in its place.
  function AfterNode(name: seq<Word>, kids: Items, kill: bool): seq<Word> {
    if kill then Fill(NodeLength(name, kids)) else NodeWords(name, kids)
  }

  function ScanKids<S>(cb: Callbacks<S>, name: seq<Word>, kids: Items, s: S, top: bool, last: bool): Scanned<S> {
    Scan(cb, kids, cb.open(Finish(cb, s, top, last), name), false, false)
  }

  lemma NodeAt(s: seq<Word>, i: nat, name: seq<Word>, kids: Items)
    ensures At(s, i, NodeWords(name, kids)) <==>
              && At(s, i, [BEGIN_NODE]) && At(s, i + 1, name) && At(s, i + 1 + |name|, Encode(kids))
              && At(s, i + 1 + |name| + |Encode(kids)|, [END_NODE])
  {
    AtPair(s, i, [BEGIN_NODE], name + (Encode(kids) + [END_NODE]));
    AtPair(s, i + 1, name, Encode(kids) + [END_NODE]);
    AtPair(s, i + 1 + |name|, Encode(kids), [END_NODE]);
  }

  // The BEGIN_NODE case.
  method ScanNode<S>(lex: array<Word>, i: nat, cb: Callbacks<S>, s0: S, top: bool, last: bool, ghost name: seq<Word>,
                     ghost kids: Items)
    returns (next: nat, s: S)
    requires At(lex[..], i, NodeWords(name, kids)) && NameOk(name) && WellFormed(kids, false)
    modifies lex
    ensures next == i + NodeLength(name, kids) <= lex.Length && Same(old(lex[..]), lex[..], i, next)
    ensures var k := ScanKids(cb, name, kids, s0, top, last);
            s == cb.close(k.state).0 && At(lex[..], i, AfterNode(name, k.items, cb.close(k.state).1))
    decreases Size(kids), 1
  {
    hide At;
    hide Same;
    hide NodeWords;
    hide Encode;
    hide Scan;
    hide WellFormed;
    hide Nops;
    hide Finish;
    ghost var w0 := lex[..];
    NodeAt(w0, i, name, kids);
    Bounds(w0, i, name, kids);
    WordAt(w0, i + 1 + |name| + |Encode(kids)|, END_NODE);
    var n := NameWords(lex, i + 1, name);
    s := cb.open(Finish(cb, s0, top, last), NameAt(lex, i + 1, n, name));
    next, s := ScanHelper(lex, i + 1 + n, cb, s, false, kids);
    ghost var k := ScanKids(cb, name, kids, s0, top, last);
    ghost var end := i + 1 + n + |Encode(kids)|;
    ghost var w1 := lex[..];
    AtKept(w0, w1, i + 1 + n, end, i, [BEGIN_NODE]);
    AtKept(w0, w1, i + 1 + n, end, i + 1, name);
    AtKept(w0, w1, i + 1 + n, end, end, [END_NODE]);
    NodeAt(w1, i, name, k.items);
    SameWider(w0, w1, i + 1 + n, end, i, next);
    var c := cb.close(s);
    s := c.0;
    if c.1 {
      Erase(lex, i, next);
      SameTwice(w0, w1, lex[..], i, next);
    }
  }

  function NameAt(lex: array<Word>, i: nat, n: nat, ghost name: seq<Word>): (r: seq<Word>)
    requires At(lex[..], i, name) && n == |name|
    reads lex
    ensures r == name
  {
    lex[i..i + n]
  }

  lemma Bounds(s: seq<Word>, i: nat, name: seq<Word>, kids: Items)
    requires At(s, i, NodeWords(name, kids))
    ensures i + NodeLength(name, kids) <= |s|
    ensures NodeLength(name, kids) == 2 + |name| + |Encode(kids)| == |NodeWords(name, kids)|
  {
  }

  // ---- one item at a time ----

  // Up to j the block has been scanned and holds `done`; `rest` is unread.
  ghost predicate Scanning(w0: seq<Word>, w: seq<Word>, i: nat, j: nat, end: nat, rest: Items, done: seq<Word>,
                           last: bool) {
    && i <= j <= end < |w| && j + |Encode(rest)| == end && WellFormed(rest, last)
    && At(w, j, Encode(rest)) && At(w, i, done) && i + |done| == j
    && Same(w0, w, i, end) && w[end] == w0[end] && Terminator(w[end])
  }

  // The scan from here gives what is left of the result r.
  ghost predicate Owes<S>(cb: Callbacks<S>, r: Scanned<S>, rest: Items, s: S, top: bool, last: bool, done: seq<Word>) {
    var q := Scan(cb, rest, s, top, last);
    r.state == q.state && Encode(r.items) == done + Encode(q.items)
  }

  lemma StartScan<S>(cb: Callbacks<S>, w: seq<Word>, i: nat, f: Items, s: S, top: bool)
    requires At(w, i, Encode(f)) && WellFormed(f, false) && i + |Encode(f)| < |w| && Terminator(w[i + |Encode(f)|])
    ensures Scanning(w, w, i, i, i + |Encode(f)|, f, [], false)
    ensures Owes(cb, Scan(cb, f, s, top, false), f, s, top, false, [])
  {
  }

  lemma FirstWord(w0: seq<Word>, w: seq<Word>, i: nat, j: nat, end: nat, f: Items, done: seq<Word>, last: bool)
    requires Scanning(w0, w, i, j, end, f, done, last)
    ensures j < |w|
    ensures (w[j] == NOP <==> f.Nop?) && (w[j] == PROP <==> f.Prop?) && (w[j] == BEGIN_NODE <==> f.Node?)
    ensures f.Prop? ==> !last
    ensures w[j] != NOP && w[j] != PROP && w[j] != BEGIN_NODE ==> f == Nil && j == end
  {
    if f != Nil {
      assert w[j] == w[j..j + |Encode(f)|][0];
    }
  }

  lemma NopStep<S>(cb: Callbacks<S>, r: Scanned<S>, w0: seq<Word>, w: seq<Word>, i: nat, j: nat, end: nat, f: Items,
                   done: seq<Word>, s: S, top: bool, last: bool)
    requires f.Nop? && Scanning(w0, w, i, j, end, f, done, last) && Owes(cb, r, f, s, top, last, done)
    ensures Scanning(w0, w, i, j + 1, end, f.rest, done + [NOP], last)
    ensures Owes(cb, r, f.rest, s, top, last, done + [NOP])
  {
    hide At;
    hide Same;
    AtPair(w, j, [NOP], Encode(f.rest));
    AtPair(w, i, done, [NOP]);
    Append(done, [NOP], Encode(Scan(cb, f.rest, s, top, last).items));
  }

  lemma PropStep<S>(cb: Callbacks<S>, r: Scanned<S>, w0: seq<Word>, w: seq<Word>, i: nat, j: nat, end: nat, f: Items,
                    done: seq<Word>, s: S, top: bool, last: bool)
    requires f.Prop? && Scanning(w0, w, i, j, end, f, done, last) && Owes(cb, r, f, s, top, last, done)
    ensures j + 3 + |f.value| <= |w| && |f.value| == (f.len + 3) / 4
    ensures w[j + 1] == f.len && w[j + 2] == f.nameoff && w[j + 3..j + 3 + |f.value|] == f.value
    ensures Scanning(w0, w, i, j + 3 + |f.value|, end, f.rest, done + ([PROP, f.len, f.nameoff] + f.value), last)
    ensures Owes(cb, r, f.rest, cb.prop(s, f.len, f.nameoff, f.value), top, last,
                 done + ([PROP, f.len, f.nameoff] + f.value))
  {
    hide Same;
    var head := [PROP, f.len, f.nameoff];
    PropAt(w, j, f);
    AtPair(w, i, done, head + f.value);
    Append(done, head + f.value, Encode(Scan(cb, f.rest, cb.prop(s, f.len, f.nameoff, f.value), top, last).items));
  }

  lemma PropAt(w: seq<Word>, j: nat, f: Items)
    requires f.Prop? && At(w, j, Encode(f))
    ensures |Encode(f)| == 3 + |f.value| + |Encode(f.rest)| && j + |Encode(f)| <= |w|
    ensures w[j + 1] == f.len && w[j + 2] == f.nameoff && w[j + 3..j + 3 + |f.value|] == f.value
    ensures At(w, j, [PROP, f.len, f.nameoff] + f.value) && At(w, j + 3 + |f.value|, Encode(f.rest))
  {
    var head := [PROP, f.len, f.nameoff];
    AtPair(w, j, head + f.value, Encode(f.rest));
    AtPair(w, j, head, f.value);
    assert w[j..j + 3][1] == head[1] && w[j..j + 3][2] == head[2];
  }

  lemma NodeReady(w0: seq<Word>, w: seq<Word>, i: nat, j: nat, end: nat, f: Items, done: seq<Word>, last: bool)
    requires f.Node? && Scanning(w0, w, i, j, end, f, done, last)
    ensures At(w, j, NodeWords(f.name, f.kids)) && NameOk(f.name) && WellFormed(f.kids, false)
    ensures At(w, j + NodeLength(f.name, f.kids), Encode(f.rest)) && WellFormed(f.rest, true)
    ensures j + NodeLength(f.name, f.kids) + |Encode(f.rest)| == end
  {
    hide At;
    hide Same;
    assert Encode(f) == NodeWords(f.name, f.kids) + Encode(f.rest);
    AtPair(w, j, NodeWords(f.name, f.kids), Encode(f.rest));
  }

  lemma NodeStep<S>(cb: Callbacks<S>, r: Scanned<S>, w0: seq<Word>, w: seq<Word>, w': seq<Word>, i: nat, j: nat,
                    end: nat, f: Items, done: seq<Word>, s: S, top: bool, last: bool, after: seq<Word>)
    requires f.Node? && Scanning(w0, w, i, j, end, f, done, last) && Owes(cb, r, f, s, top, last, done)
    requires Same(w, w', j, j + NodeLength(f.name, f.kids)) && At(w', j, after)
    requires var k := ScanKids(cb, f.name, f.kids, s, top, last);
             after == AfterNode(f.name, k.items, cb.close(k.state).1)
    ensures Scanning(w0, w', i, j + NodeLength(f.name, f.kids), end, f.rest, done + after, true)
    ensures Owes(cb, r, f.rest, cb.close(ScanKids(cb, f.name, f.kids, s, top, last).state).0, top, true, done + after)
  {
    hide At;
    hide Same;
    hide Encode;
    hide AfterNode;
    hide Scan;
    var next := j + NodeLength(f.name, f.kids);
    NodeReady(w0, w, i, j, end, f, done, last);
    ScanNodeWords(cb, f, s, top, last);
    AtKept(w, w', j, next, i, done);
    AtKept(w, w', j, next, next, Encode(f.rest));
    AtPair(w', i, done, after);
    Untouched(w, w', j, next, end);
    SameWider(w, w', j, next, i, end);
    SameTwice(w0, w, w', i, end);
    Append(done, after,
           Encode(Scan(cb, f.rest, cb.close(ScanKids(cb, f.name, f.kids, s, top, last).state).0, top, true).items));
  }

  lemma Untouched(w: seq<Word>, w': seq<Word>, j: nat, next: nat, end: nat)
    requires Same(w, w', j, next) && next <= end < |w|
    ensures |w| == |w'| && w'[end] == w[end]
  {
    assert w'[end] == w'[next..][end - next] && w[end] == w[next..][end - next];
  }

  lemma ScanNodeWords<S>(cb: Callbacks<S>, f: Items, s: S, top: bool, last: bool)
    requires f.Node?
    ensures var k := ScanKids(cb, f.name, f.kids, s, top, last);
            var c := cb.close(k.state);
            var q := Scan(cb, f.rest, c.0, top, true);
            && Scan(cb, f, s, top, last).state == q.state
            && Encode(Scan(cb, f, s, top, last).items) == AfterNode(f.name, k.items, c.1) + Encode(q.items)
            && |AfterNode(f.name, k.items, c.1)| == NodeLength(f.name, f.kids)
  {
    var k := ScanKids(cb, f.name, f.kids, s, top, last);
    var c := cb.close(k.state);
    var q := Scan(cb, f.rest, c.0, top, true);
    ScanNodeIs(cb, f, s, top, last);
    hide Scan;
    hide Nops;
    hide Finish;
    hide WellFormed;
    if c.1 {
      NopsWords(NodeLength(f.name, k.items), q.items, last);
    } else {
      assert Encode(Node(f.name, k.items, q.items)) == NodeWords(f.name, k.items) + Encode(q.items);
    }
  }

  lemma ScanNodeIs<S>(cb: Callbacks<S>, f: Items, s: S, top: bool, last: bool)
    requires f.Node?
    ensures var k := ScanKids(cb, f.name, f.kids, s, top, last);
            var c := cb.close(k.state);
            var q := Scan(cb, f.rest, c.0, top, true);
            && |Encode(k.items)| == |Encode(f.kids)|
            && Scan(cb, f, s, top, last) ==
               Scanned(q.state, if c.1 then Nops(NodeLength(f.name, k.items), q.items)
                       else Node(f.name, k.items, q.items))
  {
  }

  lemma EndStep<S>(cb: Callbacks<S>, r: Scanned<S>, w0: seq<Word>, w: seq<Word>, i: nat, j: nat, end: nat,
                   done: seq<Word>, s: S, top: bool, last: bool)
    requires Scanning(w0, w, i, j, end, Nil, done, last) && Owes(cb, r, Nil, s, top, last, done)
    ensures r.state == Finish(cb, s, top, last) && At(w, i, Encode(r.items)) && Same(w0, w, i, end) && w[j] == w0[end]
  {
    assert done + [] == done;
  }

  lemma Append(a: seq<Word>, b: seq<Word>, c: seq<Word>)
    ensures a + (b + c) == (a + b) + c
  {
  }

  lemma WordAt(s: seq<Word>, i: nat, w: Word)
    requires At(s, i, [w])
    ensures i < |s| && s[i] == w
  {
    assert s[i] == s[i..i + 1][0];
  }

  // fdt_scan_helper on the contents f of a node, which start at i and run up
  // to a terminating token.
  method ScanHelper<S>(lex: array<Word>, i: nat, cb: Callbacks<S>, s0: S, top: bool, ghost f: Items)
    returns (next: nat, s: S)
    requires At(lex[..], i, Encode(f)) && WellFormed(f, false)
    requires i + |Encode(f)| < lex.Length && Terminator(lex[i + |Encode(f)|])
    modifies lex
    ensures var r := Scan(cb, f, s0, top, false); s == r.state && At(lex[..], i, Encode(r.items))
    ensures Same(old(lex[..]), lex[..], i, i + |Encode(f)|)
    ensures next == i + |Encode(f)| + (if old(lex[i + |Encode(f)|]) == END_NODE then 1 else 0)
    decreases Size(f), 0
  {
    hide At;
    hide Same;
    hide Encode;
    hide WellFormed;
    hide AfterNode;
    hide NodeWords;
    hide Scan;
    hide Finish;
    hide Scanning;
    hide Owes;
    ghost var r, end, w0 := Scan(cb, f, s0, top, false), i + |Encode(f)|, lex[..];
    StartScan(cb, w0, i, f, s0, top);
    FirstWord(w0, w0, i, i, end, f, [], false);
    ghost var rest, done := f, [];
    var j: nat := i;
    var last := false;
    s := s0;
    while lex[j] == NOP || lex[j] == PROP || lex[j] == BEGIN_NODE
      invariant Scanning(w0, lex[..], i, j, end, rest, done, last) && Owes(cb, r, rest, s, top, last, done)
      invariant j < lex.Length && Size(rest) <= Size(f)
      decreases Size(rest)
    {
      FirstWord(w0, lex[..], i, j, end, rest, done, last);
      ghost var w := lex[..];
      if lex[j] == NOP {
        NopStep(cb, r, w0, w, i, j, end, rest, done, s, top, last);
        rest, done := rest.rest, done + [NOP];
        j := j + 1;
      } else if lex[j] == PROP {
        assert !last;
        PropStep(cb, r, w0, w, i, j, end, rest, done, s, top, last);
        var len, nameoff := lex[j + 1], lex[j + 2];
        var n: nat := (len as int + 3) / 4;
        var value := lex[j + 3..j + 3 + n];
        assert value == w[j + 3..j + 3 + n];
        s := cb.prop(s, len, nameoff, value);
        rest, done := rest.rest, done + ([PROP, len, nameoff] + value);
        j := j + 3 + n;
      } else {
        ghost var k := ScanKids(cb, rest.name, rest.kids, s, top, last);
        ghost var after := AfterNode(rest.name, k.items, cb.close(k.state).1);
        NodeReady(w0, w, i, j, end, rest, done, last);
        ghost var s1 := s;
        var lexNext;
        lexNext, s := ScanNode(lex, j, cb, s, top, last, rest.name, rest.kids);
        NodeStep(cb, r, w0, w, lex[..], i, j, end, rest, done, s1, top, last, after);
        rest, done := rest.rest, done + after;
        last := true;
        j := lexNext;
      }
      FirstWord(w0, lex[..], i, j, end, rest, done, last);
    }
    FirstWord(w0, lex[..], i, j, end, rest, done, last);
    EndStep(cb, r, w0, lex[..], i, j, end, done, s, top, last);
    s := Finish(cb, s, top, last);
    next := if lex[j] == END_NODE then j + 1 else j;
  }
}
