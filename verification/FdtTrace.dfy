// The order in which the scanner calls its callbacks, and the search of a
// string list.
module FdtTrace {
  import opened FdtTree
  import opened FdtScan

  datatype Event = Open(name: seq<Word>) | PropSeen(len: Word, nameoff: Word, value: seq<Word>) | Done | Close

  // Any callbacks, with every call they get recorded.
  function Tracing<S>(cb: Callbacks<S>): Callbacks<(S, seq<Event>)> {
    Callbacks(
      (s: (S, seq<Event>), name) => (cb.open(s.0, name), s.1 + [Open(name)]),
      (s: (S, seq<Event>), len, nameoff, value) =>
        (cb.prop(s.0, len, nameoff, value), s.1 + [PropSeen(len, nameoff, value)]),
      (s: (S, seq<Event>)) => (cb.done(s.0), s.1 + [Done]),
      (s: (S, seq<Event>)) => ((cb.close(s.0).0, s.1 + [Close]), cb.close(s.0).1))
  }

  // The properties of a node, in order.
  function Props(f: Items): seq<Event> {
    match f
    case Nil => []
    case Nop(rest) => Props(rest)
    case Prop(len, nameoff, value, rest) => [PropSeen(len, nameoff, value)] + Props(rest)
    case Node(_, _, rest) => Props(rest)
  }

  // Its subnodes in order, each opened, gone through and closed.
  function Subnodes(f: Items): seq<Event>
    decreases f, 0
  {
    match f
    case Nil => []
    case Nop(rest) => Subnodes(rest)
    case Prop(_, _, _, rest) => Subnodes(rest)
    case Node(name, kids, rest) => [Open(name)] + Contents(kids) + [Close] + Subnodes(rest)
  }

  // All properties, one `done`, then the subnodes.
  function Contents(f: Items): seq<Event>
    decreases f, 1
  {
    Props(f) + [Done] + Subnodes(f)
  }

  // What is still to come when a scan is at f.
  function Ahead(f: Items, top: bool, last: bool): seq<Event> {
    if last then Subnodes(f) else Props(f) + (if top then [] else [Done]) + Subnodes(f)
  }

  lemma {:induction false} NoProps(f: Items)
    requires WellFormed(f, true)
    ensures Props(f) == []
  {
    match f
    case Nil =>
    case Nop(rest) => NoProps(rest);
    case Node(_, _, rest) => NoProps(rest);
  }

  lemma Step(t: seq<Event>, e: seq<Event>, x: seq<Event>)
    ensures (t + e) + x == t + (e + x)
  {
  }

  // Every node gets its open, all its properties, exactly one `done` before
  // any subnode is opened, its subnodes, and its close, whatever the
  // callbacks delete on the way.
  lemma {:induction false} Traced<S>(cb: Callbacks<S>, f: Items, s: S, t: seq<Event>, top: bool, last: bool)
    requires WellFormed(f, last)
    ensures var r, q := Scan(Tracing(cb), f, (s, t), top, last), Scan(cb, f, s, top, last);
            r.state == (q.state, t + Ahead(f, top, last)) && r.items == q.items
    decreases f
  {
    hide Encode;
    hide NodeLength;
    match f
    case Nil =>
      FinishTraced(cb, s, t, top, last);
      assert Ahead(f, top, last) == Before(top, last);
    case Nop(rest) => Traced(cb, rest, s, t, top, last);
    case Prop(len, nameoff, value, rest) =>
      var e := PropSeen(len, nameoff, value);
      assert Tracing(cb).prop((s, t), len, nameoff, value) == (cb.prop(s, len, nameoff, value), t + [e]);
      Traced(cb, rest, cb.prop(s, len, nameoff, value), t + [e], top, last);
      PropAhead(f, t, top);
    case Node(name, kids, rest) =>
      var before := Before(top, last);
      FinishTraced(cb, s, t, top, last);
      var s1 := cb.open(Finish(cb, s, top, last), name);
      var t1 := t + before + [Open(name)];
      assert Tracing(cb).open((Finish(cb, s, top, last), t + before), name) == (s1, t1);
      Traced(cb, kids, s1, t1, false, false);
      var k := Scan(cb, kids, s1, false, false);
      var t2 := t1 + Contents(kids) + [Close];
      assert Tracing(cb).close((k.state, t1 + Contents(kids))) == ((cb.close(k.state).0, t2), cb.close(k.state).1);
      Traced(cb, rest, cb.close(k.state).0, t2, top, true);
      NoProps(rest);
      NodeAhead(f, t, before, top, last);
  }

  function Before(top: bool, last: bool): seq<Event> { if !last && !top then [Done] else [] }

  lemma FinishTraced<S>(cb: Callbacks<S>, s: S, t: seq<Event>, top: bool, last: bool)
    ensures Finish(Tracing(cb), (s, t), top, last) == (Finish(cb, s, top, last), t + Before(top, last))
  {
    assert t + [] == t;
  }

  lemma PropAhead(f: Items, t: seq<Event>, top: bool)
    requires f.Prop?
    ensures (t + [PropSeen(f.len, f.nameoff, f.value)]) + Ahead(f.rest, top, false) == t + Ahead(f, top, false)
  {
    var e := [PropSeen(f.len, f.nameoff, f.value)];
    assert Ahead(f, top, false) == e + Ahead(f.rest, top, false);
    Step(t, e, Ahead(f.rest, top, false));
  }

  lemma NodeAhead(f: Items, t: seq<Event>, before: seq<Event>, top: bool, last: bool)
    requires f.Node? && before == Before(top, last) && Props(f.rest) == []
    ensures (t + before + [Open(f.name)] + Contents(f.kids) + [Close]) + Subnodes(f.rest) == t + Ahead(f, top, last)
  {
    AheadOfNode(f, top, last);
    hide *;
    Regroup(t, before, [Open(f.name)], Contents(f.kids), [Close], Subnodes(f.rest));
  }

  lemma AheadOfNode(f: Items, top: bool, last: bool)
    requires f.Node? && Props(f.rest) == []
    ensures Ahead(f, top, last) == Before(top, last) + ([Open(f.name)] + Contents(f.kids) + [Close] + Subnodes(f.rest))
  {
  }

  lemma Regroup(t: seq<Event>, b: seq<Event>, o: seq<Event>, k: seq<Event>, c: seq<Event>, r: seq<Event>)
    ensures (t + b + o + k + c) + r == t + (b + (o + k + c + r))
  {
  }

  // ---- string lists ----

  type Byte = x: nat | x < 256

  // NUL-terminated strings, one after the other.
  function Packed(strings: seq<seq<Byte>>): seq<Byte> {
    if strings == [] then [] else strings[0] + [0] + Packed(strings[1..])
  }

  ghost predicate Strings(strings: seq<seq<Byte>>) {
    forall i | 0 <= i < |strings| :: 0 !in strings[i]
  }

  // strlen of the string at `at`.
  method StrLen(data: seq<Byte>, at: nat, ghost s: seq<Byte>) returns (n: nat)
    requires at + |s| < |data| && data[at..at + |s|] == s && data[at + |s|] == 0 && 0 !in s
    ensures n == |s|
  {
    n := 0;
    assert forall k | 0 <= k < |s| :: data[at + k] == s[k] && s[k] in s;
    while data[at + n] != 0
      invariant n <= |s|
      decreases |s| - n
    {
      n := n + 1;
    }
  }

  // fdt_string_list_index on a value that holds whole strings: the first
  // that equals str, or -1.
  method StringListIndex(data: seq<Byte>, str: seq<Byte>, ghost strings: seq<seq<Byte>>) returns (index: int)
    requires data == Packed(strings) && Strings(strings)
    ensures index == -1 ==> str !in strings
    ensures index != -1 ==> 0 <= index < |strings| && strings[index] == str && str !in strings[..index]
  {
    var list: nat := 0;
    index := 0;
    while |data| - list > 0
      invariant 0 <= index <= |strings| && list <= |data| && data[list..] == Packed(strings[index..])
      invariant str !in strings[..index]
      decreases |data| - list
    {
      ghost var rest := strings[index..];
      ghost var s := rest[0];
      assert s == strings[index] && data[list..] == s + [0] + Packed(rest[1..]);
      PackedHead(data, list, s, Packed(rest[1..]));
      var n := StrLen(data, list, s);
      if data[list..list + n] == str {
        return;
      }
      assert rest[1..] == strings[index + 1..];
      assert strings[..index + 1] == strings[..index] + [s];
      index := index + 1;
      list := list + n + 1;
    }
    assert data[list..] == [];
    PackedNone(strings[index..]);
    assert strings[..index] == strings;
    index := -1;
  }

  lemma PackedNone(strings: seq<seq<Byte>>)
    requires Packed(strings) == []
    ensures strings == []
  {
  }

  lemma PackedHead(data: seq<Byte>, list: nat, s: seq<Byte>, tail: seq<Byte>)
    requires list <= |data| && data[list..] == s + [0] + tail
    ensures list + |s| < |data| && data[list..list + |s|] == s && data[list + |s|] == 0
            && data[list + |s| + 1..] == tail
  {
    var d := data[list..];
    assert d[..|s|] == s && d[|s|] == 0 && d[|s| + 1..] == tail;
    assert data[list..list + |s|] == d[..|s|];
    assert data[list + |s|] == d[|s|];
    assert data[list + |s| + 1..] == d[|s| + 1..];
  }
}
