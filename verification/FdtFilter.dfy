// filter_compat: deleting every compatible node of a device tree in place.
module FdtFilter {
  import opened FdtTree
  import opened FdtScan

  const FDT_MAGIC: Word := 0xd00d_feed
  const FDT_VERSION: Word := 17
  const NO_KILL: int := 999

  // Does a property make its node compatible?  (Its name is "compatible" and
  // the wanted string is in its list.)
  type Test = (Word, Word, seq<Word>) -> bool

  // struct compat_scan
  datatype CompatScan = CompatScan(depth: int, kill: int)

  function CompatOpen(c: CompatScan): CompatScan { c.(depth := c.depth + 1) }

  function CompatProp(hit: bool, c: CompatScan): CompatScan {
    if hit && c.depth < c.kill then c.(kill := c.depth) else c
  }

  function CompatClose(c: CompatScan): (CompatScan, bool) {
    if c.kill == c.depth then (CompatScan(c.depth - 1, NO_KILL), true) else (c.(depth := c.depth - 1), false)
  }

  function CompatCallbacks(test: Test): Callbacks<CompatScan> {
    Callbacks((c, name) => CompatOpen(c), (c, len, nameoff, value) => CompatProp(test(len, nameoff, value), c),
              c => c, CompatClose)
  }

  // ---- what gets deleted ----

  predicate Hit(f: Items, test: Test) {
    match f
    case Nil => false
    case Nop(rest) => Hit(rest, test)
    case Prop(len, nameoff, value, rest) => test(len, nameoff, value) || Hit(rest, test)
    case Node(_, _, rest) => Hit(rest, test)
  }

  // Is a node at this depth deleted?  The depth 999 doubles as "no node".
  predicate Doomed(kids: Items, depth: nat, test: Test) {
    depth == NO_KILL || (depth < NO_KILL && Hit(kids, test))
  }

  // The contents of a node at `depth`, with the deleted subnodes overwritten.
  function Filtered(f: Items, depth: nat, test: Test): (r: Items)
    ensures |Encode(r)| == |Encode(f)|
  {
    match f
    case Nil => Nil
    case Nop(rest) => Nop(Filtered(rest, depth, test))
    case Prop(len, nameoff, value, rest) => Prop(len, nameoff, value, Filtered(rest, depth, test))
    case Node(name, kids, rest) =>
      NopsWords(NodeLength(name, kids), Filtered(rest, depth, test), true);
      if Doomed(kids, depth + 1, test) then Nops(NodeLength(name, kids), Filtered(rest, depth, test))
      else Node(name, Filtered(kids, depth + 1, test), Filtered(rest, depth, test))
  }

  // The kill mark while the properties of a node at `depth` go by.
  function KillAfter(f: Items, depth: nat, kill: int, test: Test): int {
    if depth < kill && Hit(f, test) then depth else kill
  }

  // The callbacks keep the depth, and the mark is either at or above the
  // current node or absent.  Inside a node that stays the scan deletes exactly
  // the doomed subnodes, inside a doomed one nothing further.
  lemma {:induction false} CompatScans(f: Items, c: CompatScan, top: bool, last: bool, test: Test)
    requires WellFormed(f, last) && 0 <= c.depth && (c.kill <= c.depth || c.kill == NO_KILL)
    ensures var r := Scan(CompatCallbacks(test), f, c, top, last);
            var kill := KillAfter(f, c.depth, c.kill, test);
            r.state == CompatScan(c.depth, kill) && r.items == if c.depth < kill then Filtered(f, c.depth, test) else f
    decreases f
  {
    hide Encode;
    hide Nops;
    hide CompatClose;
    var cb := CompatCallbacks(test);
    match f
    case Nil =>
    case Nop(rest) => CompatScans(rest, c, top, last, test);
    case Prop(len, nameoff, value, rest) =>
      var c1 := CompatProp(test(len, nameoff, value), c);
      assert cb.prop(c, len, nameoff, value) == c1;
      CompatScans(rest, c1, top, last, test);
    case Node(name, kids, rest) =>
      var c1 := CompatScan(c.depth + 1, c.kill);
      CompatScans(kids, c1, false, false, test);
      CompatNode(name, kids, rest, c, top, last, test);
      NoLateHit(rest, test);
      CompatScans(rest, c, top, true, test);
  }

  // A subnode gives the state back as it was, and is deleted when it is
  // doomed and nothing above it is.
  lemma CompatNode(name: seq<Word>, kids: Items, rest: Items, c: CompatScan, top: bool, last: bool, test: Test)
    requires 0 <= c.depth && (c.kill <= c.depth || c.kill == NO_KILL)
    requires var k := Scan(CompatCallbacks(test), kids, CompatScan(c.depth + 1, c.kill), false, false);
             k.state == CompatScan(c.depth + 1, KillAfter(kids, c.depth + 1, c.kill, test))
    ensures var cb := CompatCallbacks(test);
            var k := Scan(cb, kids, CompatScan(c.depth + 1, c.kill), false, false);
            var r := Scan(cb, rest, c, top, true);
            Scan(cb, Node(name, kids, rest), c, top, last) ==
            Scanned(r.state,
                    if c.depth < c.kill && Doomed(kids, c.depth + 1, test) then Nops(NodeLength(name, kids), r.items)
                             else Node(name, k.items, r.items))
  {
    hide Encode;
    var cb := CompatCallbacks(test);
    assert cb.open(Finish(cb, c, top, last), name) == CompatScan(c.depth + 1, c.kill);
    var k := Scan(cb, kids, CompatScan(c.depth + 1, c.kill), false, false);
    assert CompatClose(k.state) == (c, c.depth < c.kill && Doomed(kids, c.depth + 1, test));
  }

  // After a subnode there are no more properties.
  lemma {:induction false} NoLateHit(f: Items, test: Test)
    requires WellFormed(f, true)
    ensures !Hit(f, test)
  {
    match f
    case Nil =>
    case Nop(rest) => NoLateHit(rest, test);
    case Node(_, _, rest) => NoLateHit(rest, test);
  }

  // filter_compat on a structure block that starts at i.
  method FilterCompat(magic: Word, lastCompVersion: Word, lex: array<Word>, i: nat, test: Test, ghost f: Items)
    requires WellFormed(f, false) && At(lex[..], i, Encode(f) + [END])
    modifies lex
    ensures magic != 0xd00d_feed || lastCompVersion > 17 ==> lex[..] == old(lex[..])
    ensures magic == 0xd00d_feed && lastCompVersion <= 17 ==>
              && At(lex[..], i, Encode(if Hit(f, test) then f else Filtered(f, 0, test)) + [END])
              && Same(old(lex[..]), lex[..], i, i + |Encode(f)|)
  {
    if magic != FDT_MAGIC || lastCompVersion > FDT_VERSION {
      return;
    }
    hide At;
    hide Same;
    AtPair(lex[..], i, Encode(f), [END]);
    WordAt(lex[..], i + |Encode(f)|, END);
    CompatScans(f, CompatScan(0, NO_KILL), true, false, test);
    var _, _ := ScanHelper(lex, i, CompatCallbacks(test), CompatScan(0, NO_KILL), true, f);
    AtPair(lex[..], i, Encode(if Hit(f, test) then f else Filtered(f, 0, test)), [END]);
  }

  // ---- pruning ----

  // The tree without its compatible nodes.
  function Minus(f: Items, test: Test): Items {
    match f
    case Nil => Nil
    case Nop(rest) => Nop(Minus(rest, test))
    case Prop(len, nameoff, value, rest) => Prop(len, nameoff, value, Minus(rest, test))
    case Node(name, kids, rest) =>
      if Hit(kids, test) then Minus(rest, test) else Node(name, Minus(kids, test), Minus(rest, test))
  }

  // Every node at depth 999 that no ancestor takes away is itself compatible.
  predicate Shallow(f: Items, depth: nat, test: Test)
    requires depth < NO_KILL
  {
    match f
    case Nil => true
    case Nop(rest) => Shallow(rest, depth, test)
    case Prop(_, _, _, rest) => Shallow(rest, depth, test)
    case Node(_, kids, rest) =>
      (Hit(kids, test) || (depth + 1 < NO_KILL && Shallow(kids, depth + 1, test))) && Shallow(rest, depth, test)
  }

  lemma {:induction false} HitStripped(f: Items, test: Test)
    ensures Hit(Strip(f), test) == Hit(f, test)
  {
    match f
    case Nil =>
    case Nop(rest) => HitStripped(rest, test);
    case Prop(_, _, _, rest) => HitStripped(rest, test);
    case Node(_, _, rest) => HitStripped(rest, test);
  }

  function Nodes(f: Items): nat {
    match f
    case Nil => 0
    case Nop(rest) => Nodes(rest)
    case Prop(_, _, _, rest) => Nodes(rest)
    case Node(_, kids, rest) => 1 + Nodes(kids) + Nodes(rest)
  }

  // Without the NOPs, the filtered tree is the original minus its maximal
  // compatible subtrees, if and only if the depth mark 999 is not met.
  lemma PruneExact(f: Items, depth: nat, test: Test)
    requires depth < NO_KILL
    ensures Strip(Filtered(f, depth, test)) == Minus(Strip(f), test) <==> Shallow(f, depth, test)
  {
    PruneCount(f, depth, test);
  }

  lemma {:induction false} PruneCount(f: Items, depth: nat, test: Test)
    requires depth < NO_KILL
    ensures Shallow(f, depth, test) ==> Strip(Filtered(f, depth, test)) == Minus(Strip(f), test)
    ensures !Shallow(f, depth, test) ==> Nodes(Strip(Filtered(f, depth, test))) < Nodes(Minus(Strip(f), test))
    decreases f
  {
    hide Encode;
    match f
    case Nil =>
    case Nop(rest) => PruneCount(rest, depth, test);
    case Prop(_, _, _, rest) => PruneCount(rest, depth, test);
    case Node(name, kids, rest) =>
      PruneCount(rest, depth, test);
      HitStripped(kids, test);
      NopsWords(NodeLength(name, kids), Filtered(rest, depth, test), true);
      if depth + 1 < NO_KILL {
        PruneCount(kids, depth + 1, test);
      }
  }

  // A tree of fewer than 999 levels never meets the mark.
  function Levels(f: Items): nat {
    match f
    case Nil => 0
    case Nop(rest) => Levels(rest)
    case Prop(_, _, _, rest) => Levels(rest)
    case Node(_, kids, rest) => if Levels(rest) > 1 + Levels(kids) then Levels(rest) else 1 + Levels(kids)
  }

  lemma {:induction false} FewLevels(f: Items, depth: nat, test: Test)
    requires depth + Levels(f) < 999
    ensures Shallow(f, depth, test)
    decreases f
  {
    match f
    case Nil =>
    case Nop(rest) => FewLevels(rest, depth, test);
    case Prop(_, _, _, rest) => FewLevels(rest, depth, test);
    case Node(_, kids, rest) =>
      FewLevels(rest, depth, test);
      FewLevels(kids, depth + 1, test);
  }

  // ---- filtering again ----

  lemma {:induction false} FilteredShape(f: Items, depth: nat, last: bool, test: Test)
    requires WellFormed(f, last)
    ensures WellFormed(Filtered(f, depth, test), last) && Hit(Filtered(f, depth, test), test) == Hit(f, test)
    decreases f
  {
    hide Encode;
    match f
    case Nil =>
    case Nop(rest) => FilteredShape(rest, depth, last, test);
    case Prop(_, _, _, rest) => FilteredShape(rest, depth, last, test);
    case Node(name, kids, rest) =>
      FilteredShape(rest, depth, true, test);
      FilteredShape(kids, depth + 1, false, test);
      NopsShape(NodeLength(name, kids), Filtered(rest, depth, test), depth, test);
      Looser(Filtered(rest, depth, test));
      NopsWords(NodeLength(name, kids), Filtered(rest, depth, test), last);
  }

  lemma {:induction false} Looser(f: Items)
    requires WellFormed(f, true)
    ensures WellFormed(f, false)
  {
    match f
    case Nil =>
    case Nop(rest) => Looser(rest);
    case Node(_, _, rest) =>
  }

  lemma {:induction false} NopsShape(n: nat, f: Items, depth: nat, test: Test)
    ensures Filtered(Nops(n, f), depth, test) == Nops(n, Filtered(f, depth, test))
    ensures Hit(Nops(n, f), test) == Hit(f, test)
  {
    if n > 0 {
      NopsShape(n - 1, f, depth, test);
    }
  }

  // Filtering is idempotent, at any depth.
  lemma {:induction false} FilterTwice(f: Items, depth: nat, last: bool, test: Test)
    requires WellFormed(f, last)
    ensures Filtered(Filtered(f, depth, test), depth, test) == Filtered(f, depth, test)
    decreases f
  {
    hide Encode;
    match f
    case Nil =>
    case Nop(rest) => FilterTwice(rest, depth, last, test);
    case Prop(_, _, _, rest) => FilterTwice(rest, depth, last, test);
    case Node(name, kids, rest) =>
      FilterTwice(rest, depth, true, test);
      FilterTwice(kids, depth + 1, false, test);
      FilteredShape(kids, depth + 1, false, test);
      NopsShape(NodeLength(name, kids), Filtered(rest, depth, test), depth, test);
  }

  // Whatever tree the filtered words are read back as, it is the original
  // minus its compatible subtrees.
  lemma FilterPrunes(f: Items, g: Items, test: Test)
    requires WellFormed(f, false) && !Hit(f, test) && WellFormed(g, false)
    requires Encode(g) + [END] == Encode(Filtered(f, 0, test)) + [END]
    ensures Strip(g) == Minus(Strip(f), test) <==> Shallow(f, 0, test)
    ensures Levels(f) < 999 ==> Strip(g) == Minus(Strip(f), test)
  {
    FilteredShape(f, 0, false, test);
    Reparse(g, Filtered(f, 0, test), END);
    PruneExact(f, 0, test);
    if Levels(f) < NO_KILL {
      FewLevels(f, 0, test);
    }
  }
}
