/** What an accepted parse leaves: nesting within the limit, and slices that never overlap. */
module ParsedStrings {
  import opened Chars
  import opened Decode
  import opened Syntax
  import opened Grammar
  import opened ParserGrammar
  import opened StrPairs

  // ----- Nesting -----

  /** The number of nested open elements. */
  function Levels(n: Node): nat
    decreases n, 0
  {
    if n.Element? && n.closing == Open then 1 + ListLevels(n.children) else 0
  }

  function ListLevels(nodes: seq<Node>): nat
    decreases nodes, 0
  {
    if nodes == [] then 0
    else
      var a, b := Levels(nodes[0]), ListLevels(nodes[1..]);
      if a > b then a else b
  }

  /** The parts of an open element of the grammar. */
  lemma OpenParts(s: string, p: nat, q: nat, n: Node, depth: nat, first: bool, opts: Options)
    returns (b: nat, m: nat, c: nat)
    requires IsNode(s, p, q, n, depth, first, opts) && n.Element? && n.closing == Open
    ensures p <= b && depth + 1 < MAX_DEPTH && IsTag(s, b + 1, m, n.name, n.attrs, Open, opts)
    ensures AreNodes(s, m, c, n.children, depth + 1, true, opts)
    ensures ClosesNamed(s, c, q, n.name, n.children == [], opts)
  {
    hide IsTag, AreNodes, NoDeclarations, ClosesNamed, KindAt, PedanticText, SkipWhiteSpace, LineAt;
    b := SkipWhiteSpace(s, p);
    m, c :| IsTag(s, b + 1, m, n.name, n.attrs, Open, opts) && m < |s|
      && AreNodes(s, m, c, n.children, depth + 1, true, opts)
      && NoDeclarations(n.children) && ClosesNamed(s, c, q, n.name, n.children == [], opts);
  }

  lemma UnfoldLevels(n: Node)
    ensures Levels(n) == if n.Element? && n.closing == Open then 1 + ListLevels(n.children) else 0
  {
    hide ListLevels;
  }

  lemma {:induction false} NodeLevels(s: string, p: nat, q: nat, n: Node, depth: nat, first: bool, opts: Options)
    requires IsNode(s, p, q, n, depth, first, opts) && depth < MAX_DEPTH
    ensures depth + Levels(n) < MAX_DEPTH
    decreases n, 0
  {
    hide IsNode, AreNodes, ListLevels, Levels, IsTag, ClosesNamed;
    UnfoldLevels(n);
    if n.Element? && n.closing == Open {
      var b, m, c := OpenParts(s, p, q, n, depth, first, opts);
      NodesLevels(s, m, c, n.children, depth + 1, true, opts);
    }
  }

  lemma {:induction false} NodesLevels(s: string, p: nat, q: nat, ns: seq<Node>, depth: nat, first: bool, opts: Options)
    requires AreNodes(s, p, q, ns, depth, first, opts) && depth < MAX_DEPTH
    ensures depth + ListLevels(ns) < MAX_DEPTH
    decreases ns, 0
  {
    if ns != [] {
      hide IsNode, Levels;
      var m: nat :| IsNode(s, p, m, ns[0], depth, first, opts) && AreNodes(s, m, q, ns[1..], depth, false, opts);
      NodeLevels(s, p, m, ns[0], depth, first, opts);
      NodesLevels(s, m, q, ns[1..], depth, false, opts);
    }
  }

  /** The nodes a parse has linked nest at most 498 open elements. */
  lemma NestingLimit(s: string, opts: Options)
    ensures ListLevels(ParseDocument(s, opts).nodes) <= 498
  {
    hide ParseDocument, AreNodes, ListLevels, SkipWhiteSpace, Has, DeclarationsFirst;
    var q, c := DocumentNodes(s, opts);
    NodesLevels(s, q, c, ParseDocument(s, opts).nodes, 1, true, opts);
  }

  // ----- Slices -----

  function AttrSlices(attrs: seq<Attr>): seq<Slice> {
    if attrs == [] then [] else [attrs[0].name, attrs[0].value] + AttrSlices(attrs[1..])
  }

  /** All slices recorded in a node, in the order of the text. */
  function NodeSlices(n: Node): seq<Slice>
    decreases n, 0
  {
    match n
    case Leaf(_, value, _) => [value]
    case Element(name, attrs, _, children, _) => [name] + AttrSlices(attrs) + ListSlices(children)
  }

  function ListSlices(nodes: seq<Node>): seq<Slice>
    decreases nodes, 0
  {
    if nodes == [] then [] else NodeSlices(nodes[0]) + ListSlices(nodes[1..])
  }

  /** The slices lie between `lo` and `hi`, in order, and no two closed intervals meet. */
  predicate Ordered(slices: seq<Slice>, lo: nat, hi: nat) {
    if slices == [] then lo <= hi
    else lo <= slices[0].start <= slices[0].end < hi && Ordered(slices[1..], slices[0].end + 1, hi)
  }

  lemma {:induction false} OrderedConcat(a: seq<Slice>, b: seq<Slice>, lo: nat, mid: nat, hi: nat)
    requires Ordered(a, lo, mid) && Ordered(b, mid, hi)
    ensures Ordered(a + b, lo, hi)
    decreases a
  {
    OrderedBounds(b, mid, hi);
    OrderedBounds(a, lo, mid);
    if a == [] {
      assert a + b == b;
      OrderedWiden(b, mid, hi, lo, hi);
    } else {
      assert (a + b)[1..] == a[1..] + b;
      OrderedConcat(a[1..], b, a[0].end + 1, mid, hi);
    }
  }

  lemma {:induction false} OrderedWiden(a: seq<Slice>, lo: nat, hi: nat, lo': nat, hi': nat)
    requires Ordered(a, lo, hi) && lo' <= lo && hi <= hi'
    ensures Ordered(a, lo', hi')
    decreases a
  {
    if a != [] { OrderedWiden(a[1..], a[0].end + 1, hi, a[0].end + 1, hi'); }
  }

  lemma {:induction false} OrderedBounds(a: seq<Slice>, lo: nat, hi: nat)
    requires Ordered(a, lo, hi)
    ensures lo <= hi
    decreases a
  {
    if a != [] { OrderedBounds(a[1..], a[0].end + 1, hi); }
  }

  lemma {:induction false} AttrsOrdered(s: string, p: nat, q: nat, attrs: seq<Attr>, opts: Options)
    requires AreAttrs(s, p, q, attrs, opts) && q < |s|
    ensures Ordered(AttrSlices(attrs), p, q + 1) && p <= q
    decreases attrs
  {
    hide SkipWhiteSpace, IsAttr, Ordered;
    if attrs == [] {
      EmptyOrdered(p, q + 1);
    } else {
      var a := attrs[0];
      AttrsOrdered(s, a.value.end + 1, q, attrs[1..], opts);
      AttrOrdered(s, a, opts);
      OrderedWiden([a.name, a.value], a.name.start, a.value.end + 1, p, a.value.end + 1);
      OrderedConcat([a.name, a.value], AttrSlices(attrs[1..]), p, a.value.end + 1, q + 1);
    }
  }

  lemma AttrOrdered(s: string, a: Attr, opts: Options)
    requires IsAttr(s, a, opts)
    ensures Ordered([a.name, a.value], a.name.start, a.value.end + 1)
    ensures a.name.start < a.name.end < a.value.start <= a.value.end < |s|
  {
    hide LineAt;
    var eq := SkipWhiteSpace(s, a.name.end);
    assert a.name.end <= eq < SkipWhiteSpace(s, eq + 1) < a.value.start;
    var both := [a.name, a.value];
    assert both[1..] == [a.value] && [a.value][1..] == [];
    assert Ordered([a.value], a.name.end + 1, a.value.end + 1);
  }

  lemma TagOrdered(s: string, p: nat, q: nat, name: Slice, attrs: seq<Attr>, closing: Closing, opts: Options)
    requires IsTag(s, p, q, name, attrs, closing, opts)
    ensures Ordered([name] + AttrSlices(attrs), p, q) && p < q
  {
    hide AreAttrs, DistinctNames, SkipWhiteSpace;
    var b := SkipWhiteSpace(s, p);
    var m: nat :| AreAttrs(s, name.end, m, attrs, opts) && EndsTag(s, m, closing == Closed, q)
         && (closing != Closed ==> closing == if s[b] == '/' then ClosingTag else Open);
    AttrsOrdered(s, name.end, m, attrs, opts);
    AfterName(s, name, attrs, m, opts);
    assert [name][1..] == [];
    OrderedConcat([name], AttrSlices(attrs), p, name.end + 1, m + 1);
    OrderedWiden([name] + AttrSlices(attrs), p, m + 1, p, q);
  }

  /** The byte behind a name belongs to no attribute. */
  lemma AfterName(s: string, name: Slice, attrs: seq<Attr>, m: nat, opts: Options)
    requires IsName(s, name) && AreAttrs(s, name.end, m, attrs, opts) && m < |s|
    ensures Ordered(AttrSlices(attrs), name.end + 1, m + 1)
  {
    AttrsOrdered(s, name.end, m, attrs, opts);
    if attrs != [] {
      assert IsNameChar(s[attrs[0].name.start]);
    }
  }

  lemma {:induction false} NodeOrdered(s: string, p: nat, q: nat, n: Node, depth: nat, first: bool, opts: Options)
    requires IsNode(s, p, q, n, depth, first, opts)
    ensures p < q < |s| + 1
    ensures Ordered(NodeSlices(n), p, q + 1)
    ensures !(n.Leaf? && n.kind == Text) ==> Ordered(NodeSlices(n), p + 1, q)
    ensures n.Leaf? && n.kind == Text ==> q < |s| && s[q] == '<'
    decreases n, 0
  {
    hide IsTag, AreNodes, SkipWhiteSpace, LineAt, KindAt, PedanticText, NoDeclarations, NameOf, Ordered;
    match n {
      case Leaf(kind, value, line) =>
        LeafOrdered(s, p, q, n, depth, first, opts);
      case Element(name, attrs, closing, children, line) =>
        var b := SkipWhiteSpace(s, p);
        if closing == Closed {
          TagOrdered(s, b + 1, q, name, attrs, Closed, opts);
          assert ListSlices(children) == [];
          assert NodeSlices(n) == [name] + AttrSlices(attrs);
          OrderedWiden(NodeSlices(n), b + 1, q, p + 1, q);
        } else {
          var b', m, c := OpenParts(s, p, q, n, depth, first, opts);
          TagOrdered(s, b' + 1, m, name, attrs, Open, opts);
          NodesOrdered(s, m, c, children, depth + 1, true, opts);
          CloseBehind(s, c, q, name, children == [], opts);
          OrderedConcat([name] + AttrSlices(attrs), ListSlices(children), b' + 1, m, c + 1);
          OrderedWiden(NodeSlices(n), b' + 1, c + 1, p + 1, q);
        }
        OrderedWiden(NodeSlices(n), p + 1, q, p, q + 1);
    }
  }

  lemma LeafOrdered(s: string, p: nat, q: nat, n: Node, depth: nat, first: bool, opts: Options)
    requires IsNode(s, p, q, n, depth, first, opts) && n.Leaf?
    ensures p < q <= |s|
    ensures Ordered(NodeSlices(n), p, q + 1)
    ensures n.kind != Text ==> Ordered(NodeSlices(n), p + 1, q)
    ensures n.kind == Text ==> q < |s| && s[q] == '<'
  {
    hide SkipWhiteSpace, LineAt, KindAt;
    var b := SkipWhiteSpace(s, p);
    assert NodeSlices(n) == [n.value] && [n.value][1..] == [];
    HasInside(s, n.value.end, Marks(n.kind).1);
    if n.kind == Text {
      HasAt(s, n.value.end, "<", 0);
      if p == q {
        assert s[p] == '<';
        SkipStays(s, p);
      }
    }
  }

  lemma SkipStays(s: string, p: nat)
    requires p < |s| && s[p] == '<'
    ensures SkipWhiteSpace(s, p) == p
  {
  }

  lemma CloseBehind(s: string, c: nat, q: nat, name: Slice, first: bool, opts: Options)
    requires ClosesNamed(s, c, q, name, first, opts)
    ensures c + 1 < q <= |s|
  {
    hide IsTag, SkipWhiteSpace, KindAt, NameOf;
    var tag :| ClosesAt(s, c, q, tag, first, opts) && NameOf(s, tag) == NameOf(s, name);
    var b := SkipWhiteSpace(s, c);
    var attrs :| IsTag(s, b + 1, q, tag, attrs, ClosingTag, opts);
    TagOrdered(s, b + 1, q, tag, attrs, ClosingTag, opts);
    TagInside(s, b + 1, q, tag, attrs, ClosingTag, opts);
  }

  lemma TagInside(s: string, p: nat, q: nat, name: Slice, attrs: seq<Attr>, closing: Closing, opts: Options)
    requires IsTag(s, p, q, name, attrs, closing, opts)
    ensures q <= |s|
  {
    hide AreAttrs, DistinctNames, SkipWhiteSpace, IsName;
    var m: nat :| AreAttrs(s, name.end, m, attrs, opts) && EndsTag(s, m, closing == Closed, q)
         && (closing != Closed ==> closing == if s[SkipWhiteSpace(s, p)] == '/' then ClosingTag else Open);
  }

  /** Slices of a list; when markup opens the stretch, they start behind its first byte. */
  lemma {:induction false} NodesOrdered(s: string, p: nat, q: nat, ns: seq<Node>, depth: nat, first: bool,
                                        opts: Options)
    requires AreNodes(s, p, q, ns, depth, first, opts)
    ensures p <= q <= |s| && Ordered(ListSlices(ns), p, q + 1)
    ensures p < |s| && s[p] == '<' ==> Ordered(ListSlices(ns), p + 1, q + 1)
    decreases ns, 0
  {
    hide IsNode, Ordered;
    if ns == [] {
      EmptyOrdered(p, q + 1);
      EmptyOrdered(p + 1, q + 1);
    } else {
      var m: nat :| IsNode(s, p, m, ns[0], depth, first, opts) && AreNodes(s, m, q, ns[1..], depth, false, opts);
      NodeOrdered(s, p, m, ns[0], depth, first, opts);
      NodesOrdered(s, m, q, ns[1..], depth, false, opts);
      var rest := ListSlices(ns[1..]);
      if ns[0].Leaf? && ns[0].kind == Text {
        OrderedConcat(NodeSlices(ns[0]), rest, p, m + 1, q + 1);
        TextStarts(s, p, m, ns[0], depth, first, opts);
      } else {
        OrderedConcat(NodeSlices(ns[0]), rest, p + 1, m, q + 1);
        OrderedWiden(NodeSlices(ns[0]) + rest, p + 1, q + 1, p, q + 1);
      }
    }
  }

  lemma EmptyOrdered(lo: nat, hi: nat)
    requires lo <= hi
    ensures Ordered([], lo, hi)
  {
  }

  lemma TextStarts(s: string, p: nat, q: nat, n: Node, depth: nat, first: bool, opts: Options)
    requires IsNode(s, p, q, n, depth, first, opts) && n.Leaf? && n.kind == Text
    ensures p < |s| && s[p] != '<'
  {
    hide LineAt;
    if s[p] == '<' { SkipStays(s, p); }
  }

  // ----- Reading them -----

  function PairsOf(slices: seq<Slice>): (r: seq<Pair>)
    ensures |r| == |slices|
    ensures forall i | 0 <= i < |slices| :: r[i] == Pair(slices[i].start, slices[i].end, slices[i].flags, true)
  {
    if slices == [] then []
    else [Pair(slices[0].start, slices[0].end, slices[0].flags, true)] + PairsOf(slices[1..])
  }

  lemma {:induction false} OrderedAt(slices: seq<Slice>, lo: nat, hi: nat, i: nat, j: nat)
    requires Ordered(slices, lo, hi) && i < |slices|
    ensures lo <= slices[i].start <= slices[i].end < hi
    ensures i < j < |slices| ==> slices[i].end < slices[j].start
    decreases slices
  {
    if i > 0 {
      OrderedAt(slices[1..], slices[0].end + 1, hi, i - 1, if j > 0 then j - 1 else 0);
    } else if 0 < j < |slices| {
      OrderedAt(slices[1..], slices[0].end + 1, hi, j - 1, 0);
    }
  }

  /** The slices of all nodes that a parse has linked lie in order inside the text. */
  lemma DocumentOrdered(s: string, opts: Options)
    ensures Ordered(ListSlices(ParseDocument(s, opts).nodes), 0, |s| + 1)
  {
    hide ParseDocument, AreNodes, ListSlices, SkipWhiteSpace, Has, Ordered, DeclarationsFirst;
    var q, c := DocumentNodes(s, opts);
    var nodes := ParseDocument(s, opts).nodes;
    NodesOrdered(s, q, c, nodes, 1, true, opts);
    OrderedWiden(ListSlices(nodes), q, c + 1, 0, |s| + 1);
  }

  /** The strings of all linked nodes can be read in any order: all slices are disjoint and valid over the
      parsed buffer, and every read returns the slice's own value. */
  lemma DocumentReadsInAnyOrder(s: string, opts: Options, states: seq<Strings>, order: seq<nat>, results: seq<string>)
    requires NulFree(s) && Run(states, order, results)
    requires states[0] == Strings(s + [NUL], PairsOf(ListSlices(ParseDocument(s, opts).nodes)))
    ensures var slices := ListSlices(ParseDocument(s, opts).nodes);
            forall i | 0 <= i < |order| :: order[i] < |slices|
              && slices[order[i]].start <= slices[order[i]].end <= |s|
              && results[i] == Value(s[slices[order[i]].start..slices[order[i]].end], slices[order[i]].flags)
  {
    hide ParseDocument, ListSlices, Ordered, Value, Run;
    var slices := ListSlices(ParseDocument(s, opts).nodes);
    DocumentOrdered(s, opts);
    var b := s + [NUL];
    var pairs := PairsOf(slices);
    forall i | 0 <= i < |slices|
      ensures Valid(b, pairs[i]) && slices[i].end <= |s|
      ensures Meaning(b, pairs[i]) == Value(s[slices[i].start..slices[i].end], slices[i].flags)
    {
      OrderedAt(slices, 0, |s| + 1, i, 0);
      assert b[slices[i].start..slices[i].end] == s[slices[i].start..slices[i].end];
    }
    forall i, j | 0 <= i < j < |slices| ensures pairs[i].end < pairs[j].start {
      OrderedAt(slices, 0, |s| + 1, i, j);
    }
    AnyOrder(states, order, results);
  }
}
