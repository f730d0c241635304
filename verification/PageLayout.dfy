/** The printer's output described by the tree alone: which line breaks and indentation stand where, without the
    state the printer carries along. */
module PageLayout {
  import opened Chars
  import opened Syntax
  import opened Render
  import Grammar

  // ----- Where text is -----

  /** Text or CDATA occurs below the node. */
  predicate HoldsText(t: Tree)
    decreases t
  {
    t.TreeElement? && exists i | 0 <= i < |t.children| :: IsTextKind(t.children[i]) || HoldsText(t.children[i])
  }

  /** The last text among some nodes in their order: there is none, it is one of the nodes, or it is below one. */
  datatype LastText = NoText | OneOfThem | BelowOne

  function LastTextOf(ts: seq<Tree>): LastText {
    if ts == [] then NoText
    else
      var last := ts[|ts| - 1];
      if IsTextKind(last) then OneOfThem
      else if HoldsText(last) then BelowOne
      else LastTextOf(ts[..|ts| - 1])
  }

  /** No white space is added behind the children `before` of an element: the last text printed so far is in an
      element that is still open. `outside` says so of the place before the first child. */
  predicate Quiet(before: seq<Tree>, outside: bool) {
    match LastTextOf(before)
    case NoText => outside
    case OneOfThem => true
    case BelowOne => false
  }

  // ----- The page -----

  /** Four blanks a level. */
  function Blanks(depth: nat): string {
    seq(4 * depth, _ => ' ')
  }

  /** The white space before markup. */
  function Break(compact: bool, quiet: bool, first: bool, depth: nat): string {
    if compact then "" else if first then Blanks(depth) else if quiet then "" else "\n" + Blanks(depth)
  }

  function PageAttrs(attrs: seq<(string, string)>, entities: bool): string {
    if attrs == [] then ""
    else " " + attrs[0].0 + "=\"" + Quoted(attrs[0].1, false, entities) + "\"" + PageAttrs(attrs[1..], entities)
  }

  function PageNode(t: Tree, compact: bool, depth: nat, quiet: bool, entities: bool): string
    decreases t, 0
  {
    match t
    case TreeLeaf(Text, value) => Quoted(value, true, entities)
    case TreeLeaf(kind, value) => Grammar.Marks(kind).0 + value + Grammar.Marks(kind).1
    case TreeElement(name, attrs, children) =>
      "<" + name + PageAttrs(attrs, entities)
      + if children == [] then "/>"
        else ">" + PageList(children, 0, compact, depth + 1, quiet, false, entities)
             + Break(compact, Quiet(children, quiet), false, depth) + "</" + name + ">"
  }

  /** The nodes from `i` on, in an element or, at depth 0, in the document. Only the first markup of a document
      does not start a line; an element of the document ends with one. */
  function PageList(ts: seq<Tree>, i: nat, compact: bool, depth: nat, outside: bool, start: bool,
                    entities: bool): string
    requires i <= |ts|
    decreases ts, |ts| - i
  {
    if i == |ts| then ""
    else
      var quiet := depth > 0 && Quiet(ts[..i], outside);
      var first := start && forall k | 0 <= k < i :: IsTextKind(ts[k]);
      (if IsTextKind(ts[i]) then "" else Break(compact, quiet, first, depth))
      + PageNode(ts[i], compact, depth, quiet, entities)
      + (if ts[i].TreeElement? && depth == 0 && !compact then "\n" else "")
      + PageList(ts, i + 1, compact, depth, outside, start, entities)
  }

  function PageDocument(d: TreeDocument, compact: bool, entities: bool): string {
    (if d.bom then [0xEF as char, 0xBB as char, 0xBF as char] else "")
    + PageList(d.children, 0, compact, 0, false, true, entities)
  }

  // ----- The state of the printer -----

  /** The text depth behind a node. */
  function DepthBehind(t: Tree, depth: nat, textDepth: int): int {
    if IsTextKind(t) then depth - 1 else if HoldsText(t) then -1 else textDepth
  }

  function DepthBehindAll(ts: seq<Tree>, depth: nat, textDepth: int): int {
    match LastTextOf(ts)
    case NoText => textDepth
    case OneOfThem => depth - 1
    case BelowOne => -1
  }

  lemma DepthOneMore(ts: seq<Tree>, i: nat, depth: nat, textDepth: int)
    requires i < |ts|
    ensures DepthBehindAll(ts[..i + 1], depth, textDepth)
         == DepthBehind(ts[i], depth, DepthBehindAll(ts[..i], depth, textDepth))
  {
    hide HoldsText;
    assert ts[..i + 1][..i] == ts[..i];
  }

  lemma LeafBehind(t: Tree, compact: bool, depth: nat, at: Layout)
    requires t.TreeLeaf?
    ensures RenderNode(t, compact, depth, at).1
         == if IsTextKind(t) then at.(textDepth := depth - 1) else if compact then at else at.(first := false)
  {
  }

  lemma ElementBehind(t: Tree, compact: bool, depth: nat, at: Layout)
    requires t.TreeElement?
    ensures var inside := if compact then at else at.(first := false);
            var at' := if t.children == [] then inside else RenderList(t.children, compact, depth + 1, inside).1;
            RenderNode(t, compact, depth, at).1 == if at'.textDepth == depth then at'.(textDepth := -1) else at'
  {
    hide RenderList, RenderAttrs, CloseLead;
  }

  lemma {:induction false} NodeState(t: Tree, compact: bool, depth: nat, at: Layout)
    requires -1 <= at.textDepth < depth
    ensures var at' := RenderNode(t, compact, depth, at).1;
            && at'.textDepth == DepthBehind(t, depth, at.textDepth)
            && at'.first == (at.first && (compact || IsTextKind(t)))
            && at'.entities == at.entities
    decreases t, 0
  {
    hide RenderNode, RenderList, HoldsText, LastTextOf;
    HoldsTextIs(t);
    if t.TreeElement? {
      ElementBehind(t, compact, depth, at);
      var ts := t.children;
      NoneYet(ts);
      if ts != [] {
        ListState(ts, 0, compact, depth + 1, if compact then at else at.(first := false), at.textDepth);
      }
    } else {
      LeafBehind(t, compact, depth, at);
    }
  }

  lemma NoneYet(ts: seq<Tree>)
    ensures ts[..0] == [] && ts[0..] == ts && ts[..|ts|] == ts && LastTextOf([]) == NoText
  {
  }

  lemma {:induction false} HoldsTextIs(t: Tree)
    ensures HoldsText(t) <==> t.TreeElement? && LastTextOf(t.children) != NoText
  {
    if t.TreeElement? { LastTextIs(t.children); }
  }

  lemma {:induction false} LastTextIs(ts: seq<Tree>)
    ensures LastTextOf(ts) != NoText <==> exists i | 0 <= i < |ts| :: IsTextKind(ts[i]) || HoldsText(ts[i])
    decreases |ts|
  {
    hide HoldsText;
    if ts != [] {
      var init := ts[..|ts| - 1];
      LastTextIs(init);
      if i: nat :| i < |ts| && (IsTextKind(ts[i]) || HoldsText(ts[i])) {
        assert i < |init| ==> init[i] == ts[i];
      }
      if i: nat :| i < |init| && (IsTextKind(init[i]) || HoldsText(init[i])) {
        assert init[i] == ts[i];
      }
    }
  }

  /** Behind the nodes of a list, with those before `i` printed. */
  lemma {:induction false} ListState(ts: seq<Tree>, i: nat, compact: bool, depth: nat, at: Layout, textDepth: int)
    requires i <= |ts| && -1 <= textDepth < depth && (depth > 0 ==> textDepth < depth - 1 || textDepth == -1)
    requires at.textDepth == DepthBehindAll(ts[..i], depth, textDepth) && -1 <= at.textDepth < depth
    ensures var at' := RenderList(ts[i..], compact, depth, at).1;
            && at'.textDepth == DepthBehindAll(ts, depth, textDepth)
            && at'.entities == at.entities && (compact || !at.first ==> at'.first == at.first)
    decreases ts, 0, |ts| - i
  {
    hide RenderNode, HoldsText, LastTextOf;
    if i < |ts| {
      assert ts[i..][0] == ts[i] && ts[i..][1..] == ts[i + 1..];
      NodeState(ts[i], compact, depth, at);
      DepthOneMore(ts, i, depth, textDepth);
      ListState(ts, i + 1, compact, depth, RenderNode(ts[i], compact, depth, at).1, textDepth);
    } else {
      assert ts[..i] == ts;
    }
  }

  // ----- The printer's text -----

  lemma {:induction false} IndentIsBlanks(depth: nat)
    ensures Indent(depth) == Blanks(depth)
  {
    if depth > 0 {
      IndentIsBlanks(depth - 1);
      assert "    " + Blanks(depth - 1) == Blanks(depth);
    }
  }

  lemma BreaksAre(compact: bool, depth: nat, at: Layout)
    ensures Lead(compact, depth, at) == Break(compact, at.textDepth >= 0, at.first, depth)
    ensures CloseLead(compact, depth, at) == Break(compact, at.textDepth >= 0, false, depth)
  {
    hide Indent, Blanks;
    IndentIsBlanks(depth);
  }

  lemma {:induction false} AttrsAre(attrs: seq<(string, string)>, entities: bool)
    ensures RenderAttrs(attrs, entities) == PageAttrs(attrs, entities)
    decreases attrs
  {
    if attrs != [] {
      AttrsAre(attrs[1..], entities);
      var a, q, rest := attrs[0].0, Quoted(attrs[0].1, false, entities), PageAttrs(attrs[1..], entities);
      assert " " + (a + "=\"" + q + "\"") + rest == " " + a + "=\"" + q + "\"" + rest;
    }
  }

  lemma LeafPage(t: Tree, compact: bool, depth: nat, quiet: bool, at: Layout)
    requires t.TreeLeaf?
    ensures RenderNode(t, compact, depth, at).0 == PageNode(t, compact, depth, quiet, at.entities)
  {
    hide Quoted;
  }

  lemma ElementPage(t: Tree, compact: bool, depth: nat, quiet: bool, at: Layout)
    requires t.TreeElement?
    requires var inside := if compact then at else at.(first := false);
             var (inner, at') := RenderList(t.children, compact, depth + 1, inside);
             && inner == PageList(t.children, 0, compact, depth + 1, quiet, false, at.entities)
             && (Quiet(t.children, quiet) <==> at'.textDepth >= 0)
    ensures RenderNode(t, compact, depth, at).0 == PageNode(t, compact, depth, quiet, at.entities)
  {
    hide RenderList, PageList, RenderAttrs, PageAttrs, Break, CloseLead, Quiet, Lead;
    AttrsAre(t.attrs, at.entities);
    var inside := if compact then at else at.(first := false);
    BreaksAre(compact, depth, RenderList(t.children, compact, depth + 1, inside).1);
  }

  lemma {:induction false} NodePage(t: Tree, compact: bool, depth: nat, at: Layout)
    requires -1 <= at.textDepth < depth
    ensures RenderNode(t, compact, depth, at).0 == PageNode(t, compact, depth, at.textDepth >= 0, at.entities)
    decreases t, 0
  {
    hide RenderNode, RenderList, PageNode, PageList, HoldsText, LastTextOf;
    if t.TreeElement? {
      var ts, inside := t.children, if compact then at else at.(first := false);
      NoneYet(ts);
      ListPage(ts, 0, compact, depth + 1, inside, at.textDepth, false);
      ListState(ts, 0, compact, depth + 1, inside, at.textDepth);
      ElementPage(t, compact, depth, at.textDepth >= 0, at);
    } else {
      LeafPage(t, compact, depth, at.textDepth >= 0, at);
    }
  }

  /** The printer's state `at`, when the nodes before `i` are printed. */
  predicate StateAt(ts: seq<Tree>, i: nat, compact: bool, depth: nat, at: Layout, textDepth: int, start: bool)
    requires i <= |ts|
  {
    && -1 <= textDepth && (textDepth == -1 || textDepth < depth - 1) && (start ==> depth == 0)
    && at.textDepth == DepthBehindAll(ts[..i], depth, textDepth)
    && (compact || (at.first <==> start && forall k | 0 <= k < i :: IsTextKind(ts[k])))
  }

  lemma {:induction false} ListPage(ts: seq<Tree>, i: nat, compact: bool, depth: nat, at: Layout, textDepth: int,
                                    start: bool)
    requires i <= |ts| && StateAt(ts, i, compact, depth, at, textDepth, start)
    ensures RenderList(ts[i..], compact, depth, at).0
         == PageList(ts, i, compact, depth, textDepth >= 0, start, at.entities)
    decreases ts, 0, |ts| - i
  {
    hide RenderNode, RenderList, PageNode, PageList, StateAt, Quiet, Break, Lead;
    ListParts(ts, i, compact, depth, at);
    PageParts(ts, i, compact, depth, textDepth >= 0, start, at.entities);
    if i < |ts| {
      StateFacts(ts, i, compact, depth, at, textDepth, start);
      NodePage(ts[i], compact, depth, at);
      var at' := StateNext(ts, i, compact, depth, at, textDepth, start);
      ListPage(ts, i + 1, compact, depth, at', textDepth, start);
    }
  }

  /** What the state says of the next node's white space. */
  lemma StateFacts(ts: seq<Tree>, i: nat, compact: bool, depth: nat, at: Layout, textDepth: int, start: bool)
    requires i <= |ts| && StateAt(ts, i, compact, depth, at, textDepth, start)
    ensures -1 <= at.textDepth < depth
    ensures at.textDepth >= 0 <==> depth > 0 && Quiet(ts[..i], textDepth >= 0)
    ensures var first := start && forall k | 0 <= k < i :: IsTextKind(ts[k]);
            Lead(compact, depth, at) == Break(compact, depth > 0 && Quiet(ts[..i], textDepth >= 0), first, depth)
  {
    hide HoldsText, LastTextOf, Blanks, Indent;
    BreaksAre(compact, depth, at);
  }

  lemma StateNext(ts: seq<Tree>, i: nat, compact: bool, depth: nat, at: Layout, textDepth: int, start: bool)
    returns (at': Layout)
    requires i < |ts| && StateAt(ts, i, compact, depth, at, textDepth, start)
    ensures at' == RenderNode(ts[i], compact, depth, at).1 && at'.entities == at.entities
    ensures StateAt(ts, i + 1, compact, depth, at', textDepth, start)
  {
    hide HoldsText, LastTextOf, RenderNode;
    at' := RenderNode(ts[i], compact, depth, at).1;
    NodeState(ts[i], compact, depth, at);
    DepthOneMore(ts, i, depth, textDepth);
  }

  lemma ListParts(ts: seq<Tree>, i: nat, compact: bool, depth: nat, at: Layout)
    requires i <= |ts|
    ensures i == |ts| ==> RenderList(ts[i..], compact, depth, at).0 == ""
    ensures i < |ts| ==>
              var (node, at') := RenderNode(ts[i], compact, depth, at);
              RenderList(ts[i..], compact, depth, at).0
              == (if IsTextKind(ts[i]) then "" else Lead(compact, depth, at)) + node
                 + (if ts[i].TreeElement? && depth == 0 && !compact then "\n" else "")
                 + RenderList(ts[i + 1..], compact, depth, at').0
  {
    hide RenderNode, Lead;
    if i < |ts| {
      assert ts[i..][0] == ts[i] && ts[i..][1..] == ts[i + 1..];
    }
  }

  lemma PageParts(ts: seq<Tree>, i: nat, compact: bool, depth: nat, outside: bool, start: bool, entities: bool)
    requires i <= |ts|
    ensures i == |ts| ==> PageList(ts, i, compact, depth, outside, start, entities) == ""
    ensures i < |ts| ==>
              var quiet := depth > 0 && Quiet(ts[..i], outside);
              var first := start && forall k | 0 <= k < i :: IsTextKind(ts[k]);
              PageList(ts, i, compact, depth, outside, start, entities)
              == (if IsTextKind(ts[i]) then "" else Break(compact, quiet, first, depth))
                 + PageNode(ts[i], compact, depth, quiet, entities)
                 + (if ts[i].TreeElement? && depth == 0 && !compact then "\n" else "")
                 + PageList(ts, i + 1, compact, depth, outside, start, entities)
  {
    hide PageNode, Break, Quiet;
  }

  /** The whole output, compact or pretty, with entities or without, for every document. */
  lemma DocumentPage(d: TreeDocument, compact: bool, entities: bool)
    ensures RenderDocument(d, compact, entities) == PageDocument(d, compact, entities)
  {
    hide RenderList, PageList, LastTextOf;
    NoneYet(d.children);
    ListPage(d.children, 0, compact, 0, Layout(-1, true, entities), -1, true);
  }
}
