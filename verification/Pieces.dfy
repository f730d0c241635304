/** The printer's output cut into markup, text and the white space it adds: that white space is only ever
    between markup and markup, and without it pretty output is compact output. */
module Pieces {
  import opened Syntax
  import opened Render

  datatype Piece = Space(text: string) | Words(text: string) | Markup(text: string)

  function Gap(space: string): seq<Piece> {
    if space == "" then [] else [Space(space)]
  }

  function NodePieces(t: Tree, compact: bool, depth: nat, at: Layout): (r: seq<Piece>)
    ensures r != []
    decreases t, 0
  {
    match t
    case TreeLeaf(kind, _) =>
      var text := RenderNode(t, compact, depth, at).0;
      if IsTextKind(t) then [Words(text)] else [Markup(text)]
    case TreeElement(name, attrs, children) =>
      var open := "<" + name + RenderAttrs(attrs, at.entities);
      var inside := AfterLead(compact, at);
      if children == [] then [Markup(open + "/>")]
      else
        [Markup(open + ">")] + ListPieces(children, compact, depth + 1, inside)
        + Gap(CloseLead(compact, depth, RenderList(children, compact, depth + 1, inside).1))
        + [Markup("</" + name + ">")]
  }

  function ListPieces(ts: seq<Tree>, compact: bool, depth: nat, at: Layout): seq<Piece>
    decreases ts, 0
  {
    if ts == [] then []
    else
      Gap(NodeLead(ts[0], compact, depth, at)) + NodePieces(ts[0], compact, depth, at)
      + Gap(Trail(ts[0], compact, depth))
      + ListPieces(ts[1..], compact, depth, RenderNode(ts[0], compact, depth, at).1)
  }

  function Text(pieces: seq<Piece>): string {
    if pieces == [] then "" else pieces[0].text + Text(pieces[1..])
  }

  lemma {:induction false} TextConcat(a: seq<Piece>, b: seq<Piece>)
    ensures Text(a + b) == Text(a) + Text(b)
    decreases a
  {
    if a == [] {
      assert a + b == b;
    } else {
      assert (a + b)[1..] == a[1..] + b;
      TextConcat(a[1..], b);
    }
  }

  lemma TextOne(p: Piece)
    ensures Text([p]) == p.text
  {
    assert [p][1..] == [];
  }

  lemma TextGap(space: string)
    ensures Text(Gap(space)) == space
  {
    if space != "" {
      TextOne(Space(space));
    }
  }

  /** The pieces are the output. */
  lemma {:induction false} NodeText(t: Tree, compact: bool, depth: nat, at: Layout)
    ensures Text(NodePieces(t, compact, depth, at)) == RenderNode(t, compact, depth, at).0
    decreases t, 0
  {
    match t
    case TreeLeaf(_, _) => TextOne(NodePieces(t, compact, depth, at)[0]);
    case TreeElement(name, attrs, children) =>
      var open := "<" + name + RenderAttrs(attrs, at.entities);
      var inside := AfterLead(compact, at);
      if children == [] {
        TextOne(Markup(open + "/>"));
      } else {
        ListText(children, compact, depth + 1, inside);
        ElementText(name, attrs, children, compact, depth, inside);
      }
  }

  lemma ElementText(name: string, attrs: seq<(string, string)>, children: seq<Tree>, compact: bool, depth: nat,
                    inside: Layout)
    requires children != []
    requires Text(ListPieces(children, compact, depth + 1, inside))
             == RenderList(children, compact, depth + 1, inside).0
    ensures var open := "<" + name + RenderAttrs(attrs, inside.entities);
            var at' := RenderList(children, compact, depth + 1, inside).1;
            Text([Markup(open + ">")] + ListPieces(children, compact, depth + 1, inside)
                 + Gap(CloseLead(compact, depth, at')) + [Markup("</" + name + ">")])
            == open + RenderRest(name, children, compact, depth, inside).0
  {
    hide CloseLead, RenderAttrs, Text, ListPieces;
    var open := "<" + name + RenderAttrs(attrs, inside.entities);
    var (inner, at') := RenderList(children, compact, depth + 1, inside);
    var a, b, c, d := [Markup(open + ">")], ListPieces(children, compact, depth + 1, inside),
      Gap(CloseLead(compact, depth, at')), [Markup("</" + name + ">")];
    TextConcat(a + b + c, d);
    TextConcat(a + b, c);
    TextConcat(a, b);
    TextOne(a[0]);
    TextOne(d[0]);
    TextGap(CloseLead(compact, depth, at'));
    var lead := CloseLead(compact, depth, at');
    assert RenderRest(name, children, compact, depth, inside).0 == ">" + inner + lead + "</" + name + ">";
    assert (open + ">") + inner + lead + ("</" + name + ">") == open + (">" + inner + lead + "</" + name + ">");
  }

  lemma {:induction false} ListText(ts: seq<Tree>, compact: bool, depth: nat, at: Layout)
    ensures Text(ListPieces(ts, compact, depth, at)) == RenderList(ts, compact, depth, at).0
    decreases ts, 0
  {
    if ts != [] {
      var a, b, c, d := Gap(NodeLead(ts[0], compact, depth, at)), NodePieces(ts[0], compact, depth, at),
        Gap(Trail(ts[0], compact, depth)), ListPieces(ts[1..], compact, depth, RenderNode(ts[0], compact, depth, at).1);
      NodeText(ts[0], compact, depth, at);
      ListText(ts[1..], compact, depth, RenderNode(ts[0], compact, depth, at).1);
      TextConcat(a + b + c, d);
      TextConcat(a + b, c);
      TextConcat(a, b);
      TextGap(NodeLead(ts[0], compact, depth, at));
      TextGap(Trail(ts[0], compact, depth));
    }
  }

  // ----- Without the spaces -----

  function Solid(pieces: seq<Piece>): seq<Piece> {
    if pieces == [] then []
    else (if pieces[0].Space? then [] else [pieces[0]]) + Solid(pieces[1..])
  }

  lemma {:induction false} SolidConcat(a: seq<Piece>, b: seq<Piece>)
    ensures Solid(a + b) == Solid(a) + Solid(b)
    decreases a
  {
    if a == [] {
      assert a + b == b;
    } else {
      assert (a + b)[1..] == a[1..] + b;
      SolidConcat(a[1..], b);
    }
  }

  lemma SolidGap(space: string)
    ensures Solid(Gap(space)) == []
  {
  }

  lemma SolidOne(p: Piece)
    requires !p.Space?
    ensures Solid([p]) == [p]
  {
    assert [p][1..] == [];
  }

  /** The markup and the text do not depend on the layout. */
  lemma {:induction false} NodeSolid(t: Tree, compact: bool, depth: nat, at: Layout, compact': bool, at': Layout)
    requires at.entities == at'.entities
    ensures Solid(NodePieces(t, compact, depth, at)) == Solid(NodePieces(t, compact', depth, at'))
    decreases t, 0
  {
    match t
    case TreeLeaf(kind, value) =>
      assert RenderNode(t, compact, depth, at).0 == RenderNode(t, compact', depth, at').0;
    case TreeElement(name, attrs, children) =>
      if children != [] {
        ListSolid(children, compact, depth + 1, AfterLead(compact, at), compact', AfterLead(compact', at'));
        ElementSolid(t, compact, depth, at);
        ElementSolid(t, compact', depth, at');
      }
  }

  lemma ElementSolid(t: Tree, compact: bool, depth: nat, at: Layout)
    requires t.TreeElement? && t.children != []
    ensures Solid(NodePieces(t, compact, depth, at))
            == [Markup("<" + t.name + RenderAttrs(t.attrs, at.entities) + ">")]
               + Solid(ListPieces(t.children, compact, depth + 1, AfterLead(compact, at)))
               + [Markup("</" + t.name + ">")]
  {
    hide CloseLead, RenderAttrs, Solid, ListPieces;
    var inside := AfterLead(compact, at);
    var lead := CloseLead(compact, depth, RenderList(t.children, compact, depth + 1, inside).1);
    var a, b, c, d := [Markup("<" + t.name + RenderAttrs(t.attrs, at.entities) + ">")],
      ListPieces(t.children, compact, depth + 1, inside), Gap(lead), [Markup("</" + t.name + ">")];
    SolidConcat(a + b + c, d);
    SolidConcat(a + b, c);
    SolidConcat(a, b);
    SolidOne(a[0]);
    SolidOne(d[0]);
    SolidGap(lead);
  }

  lemma {:induction false} ListSolid(ts: seq<Tree>, compact: bool, depth: nat, at: Layout, compact': bool, at': Layout)
    requires at.entities == at'.entities
    ensures Solid(ListPieces(ts, compact, depth, at)) == Solid(ListPieces(ts, compact', depth, at'))
    decreases ts, 0
  {
    if ts != [] {
      NodeSolid(ts[0], compact, depth, at, compact', at');
      NodeKeepsEntities(ts[0], compact, depth, at);
      NodeKeepsEntities(ts[0], compact', depth, at');
      ListSolid(ts[1..], compact, depth, RenderNode(ts[0], compact, depth, at).1,
                compact', RenderNode(ts[0], compact', depth, at').1);
      StepSolid(ts, compact, depth, at);
      StepSolid(ts, compact', depth, at');
    }
  }

  lemma StepSolid(ts: seq<Tree>, compact: bool, depth: nat, at: Layout)
    requires ts != []
    ensures Solid(ListPieces(ts, compact, depth, at))
            == Solid(NodePieces(ts[0], compact, depth, at))
               + Solid(ListPieces(ts[1..], compact, depth, RenderNode(ts[0], compact, depth, at).1))
  {
    hide NodeLead, NodePieces, Trail, RenderNode, Solid;
    var a, b, c, d := Gap(NodeLead(ts[0], compact, depth, at)), NodePieces(ts[0], compact, depth, at),
      Gap(Trail(ts[0], compact, depth)), ListPieces(ts[1..], compact, depth, RenderNode(ts[0], compact, depth, at).1);
    SolidConcat(a + b + c, d);
    SolidConcat(a + b, c);
    SolidConcat(a, b);
    SolidGap(NodeLead(ts[0], compact, depth, at));
    SolidGap(Trail(ts[0], compact, depth));
  }

  /** Compact output has no space of its own. */
  lemma {:induction false} NodeHasNoSpace(t: Tree, depth: nat, at: Layout)
    ensures forall p | p in NodePieces(t, true, depth, at) :: !p.Space?
    decreases t, 0
  {
    match t
    case TreeLeaf(_, _) =>
    case TreeElement(_, _, children) => ListHasNoSpace(children, depth + 1, AfterLead(true, at));
  }

  lemma {:induction false} ListHasNoSpace(ts: seq<Tree>, depth: nat, at: Layout)
    ensures forall p | p in ListPieces(ts, true, depth, at) :: !p.Space?
    decreases ts, 0
  {
    if ts != [] {
      NodeHasNoSpace(ts[0], depth, at);
      ListHasNoSpace(ts[1..], depth, RenderNode(ts[0], true, depth, at).1);
    }
  }

  lemma {:induction false} AllSolid(pieces: seq<Piece>)
    requires forall p | p in pieces :: !p.Space?
    ensures Solid(pieces) == pieces
  {
    if pieces != [] {
      AllSolid(pieces[1..]);
    }
  }

  /** Pretty output without its spaces is compact output, for every list of trees. */
  lemma PrettyIsCompactSpaced(ts: seq<Tree>, depth: nat, at: Layout)
    ensures Text(ListPieces(ts, false, depth, at)) == RenderList(ts, false, depth, at).0
    ensures Text(Solid(ListPieces(ts, false, depth, at))) == RenderList(ts, true, depth, at).0
  {
    ListText(ts, false, depth, at);
    ListText(ts, true, depth, at);
    ListSolid(ts, false, depth, at, true, at);
    ListHasNoSpace(ts, depth, at);
    AllSolid(ListPieces(ts, true, depth, at));
  }

  // ----- Where the spaces are -----

  predicate Apart(a: Piece, b: Piece) {
    !(a.Space? && b.Words?) && !(a.Words? && b.Space?)
  }

  /** No space stands next to text. */
  predicate Separate(p: seq<Piece>) {
    forall i | 0 < i < |p| :: Apart(p[i - 1], p[i])
  }

  lemma JoinSeparate(a: seq<Piece>, b: seq<Piece>)
    requires Separate(a) && Separate(b) && (a != [] && b != [] ==> Apart(a[|a| - 1], b[0]))
    ensures Separate(a + b)
  {
  }

  lemma GapSeparate(space: string)
    ensures Separate(Gap(space)) && (Gap(space) == [] <==> space == "") && forall p | p in Gap(space) :: p.Space?
  {
  }

  /** A node begins and ends with text only if it is text, and then the layout remembers it. */
  lemma {:induction false} NodeSeparate(t: Tree, depth: nat, at: Layout)
    requires depth == 0 ==> !IsTextKind(t)
    requires depth > 0 ==> !at.first
    ensures var (p, at') := (NodePieces(t, false, depth, at), RenderNode(t, false, depth, at).1);
            && Separate(p) && !at'.first && !p[0].Space? && !p[|p| - 1].Space?
            && (p[0].Words? <==> IsTextKind(t)) && (p[|p| - 1].Words? ==> IsTextKind(t) && at'.textDepth >= 0)
    decreases t, 0
  {
    hide RenderAttrs, ListPieces, RenderList, CloseLead, Escape;
    match t
    case TreeLeaf(kind, _) =>
    case TreeElement(name, attrs, children) =>
      var inside := AfterLead(false, at);
      if children != [] {
        ListSeparate(children, depth + 1, inside, false);
        ElementSeparate(name, attrs, children, depth, inside);
        assert !RenderList(children, false, depth + 1, inside).1.first;
      }
  }

  lemma ElementSeparate(name: string, attrs: seq<(string, string)>, children: seq<Tree>, depth: nat, inside: Layout)
    requires children != [] && !inside.first && ListIsSeparate(children, depth + 1, inside, false)
    ensures var at' := RenderList(children, false, depth + 1, inside).1;
            Separate([Markup("<" + name + RenderAttrs(attrs, inside.entities) + ">")]
                     + ListPieces(children, false, depth + 1, inside) + Gap(CloseLead(false, depth, at'))
                     + [Markup("</" + name + ">")])
  {
    hide ListPieces, RenderAttrs;
    var at' := RenderList(children, false, depth + 1, inside).1;
    var a, b, c, d := [Markup("<" + name + RenderAttrs(attrs, inside.entities) + ">")],
      ListPieces(children, false, depth + 1, inside), Gap(CloseLead(false, depth, at')), [Markup("</" + name + ">")];
    GapSeparate(CloseLead(false, depth, at'));
    JoinSeparate(a, b);
    JoinSeparate(a + b, c);
    JoinSeparate(a + b + c, d);
  }

  ghost predicate ListIsSeparate(ts: seq<Tree>, depth: nat, at: Layout, afterWords: bool) {
    var (p, at') := (ListPieces(ts, false, depth, at), RenderList(ts, false, depth, at).1);
    && Separate(p) && (p == [] <==> ts == []) && (p == [] ==> at' == at)
    && (depth == 0 && p != [] ==> !p[0].Words?)
    && (p != [] ==> (afterWords ==> !p[0].Space?) && (p[|p| - 1].Words? ==> at'.textDepth >= 0))
    && (depth > 0 ==> !at'.first && (p != [] ==> !p[|p| - 1].Space?))
  }

  /** Over a list: `afterWords` says that text precedes it. */
  lemma {:induction false} ListSeparate(ts: seq<Tree>, depth: nat, at: Layout, afterWords: bool)
    requires depth == 0 ==> !afterWords && forall i | 0 <= i < |ts| :: !IsTextKind(ts[i])
    requires depth > 0 ==> !at.first
    requires afterWords ==> at.textDepth >= 0
    ensures ListIsSeparate(ts, depth, at, afterWords)
    decreases ts, 0
  {
    if ts != [] {
      var at' := RenderNode(ts[0], false, depth, at).1;
      NodeSeparate(ts[0], depth, at);
      var b := NodePieces(ts[0], false, depth, at);
      ListSeparate(ts[1..], depth, at', b[|b| - 1].Words?);
      StepSeparate(ts, depth, at, afterWords);
    }
  }

  lemma StepSeparate(ts: seq<Tree>, depth: nat, at: Layout, afterWords: bool)
    requires ts != [] && (depth == 0 ==> !afterWords && forall i | 0 <= i < |ts| :: !IsTextKind(ts[i]))
    requires depth > 0 ==> !at.first
    requires afterWords ==> at.textDepth >= 0
    requires var (b, at') := (NodePieces(ts[0], false, depth, at), RenderNode(ts[0], false, depth, at).1);
             && Separate(b) && !at'.first && !b[0].Space? && !b[|b| - 1].Space?
             && (b[0].Words? <==> IsTextKind(ts[0])) && (b[|b| - 1].Words? ==> IsTextKind(ts[0]) && at'.textDepth >= 0)
             && ListIsSeparate(ts[1..], depth, at', b[|b| - 1].Words?)
    ensures ListIsSeparate(ts, depth, at, afterWords)
  {
    hide NodePieces, RenderNode, Separate, Indent, NodeLead, Trail, Gap;
    var at' := RenderNode(ts[0], false, depth, at).1;
    var lead, trail := NodeLead(ts[0], false, depth, at), Trail(ts[0], false, depth);
    var a, b, c := Gap(lead), NodePieces(ts[0], false, depth, at), Gap(trail);
    var d := ListPieces(ts[1..], false, depth, at');
    GapSeparate(lead);
    GapSeparate(trail);
    LeadIs(ts[0], depth, at);
    JoinSeparate(a, b);
    JoinSeparate(a + b, c);
    assert c == [] ==> (a + b + c)[|a + b + c| - 1] == b[|b| - 1];
    assert c != [] ==> (a + b + c)[|a + b + c| - 1] == c[|c| - 1] && c[|c| - 1] in c;
    assert d != [] && depth == 0 ==> !d[0].Words?;
    assert d != [] && b[|b| - 1].Words? ==> !d[0].Space?;
    JoinSeparate(a + b + c, d);
    var p := a + b + c + d;
    assert p == ListPieces(ts, false, depth, at);
    assert p[0] == if a == [] then b[0] else a[0];
    assert a != [] ==> a[0] in a;
    assert d == [] ==> p == a + b + c && RenderList(ts, false, depth, at).1 == at';
    assert d != [] ==> p[|p| - 1] == d[|d| - 1];
  }

  /** No space is put before text, or behind text, or behind a node inside an element. */
  lemma LeadIs(t: Tree, depth: nat, at: Layout)
    ensures IsTextKind(t) ==> NodeLead(t, false, depth, at) == "" && Trail(t, false, depth) == ""
    ensures !at.first && at.textDepth >= 0 ==> NodeLead(t, false, depth, at) == ""
    ensures depth > 0 ==> Trail(t, false, depth) == ""
  {
    hide Indent;
  }

  /** White space is added between markup and markup only, for every document without text at its top level. */
  lemma SpaceIsBetweenMarkup(d: TreeDocument)
    requires forall i | 0 <= i < |d.children| :: !IsTextKind(d.children[i])
    ensures Separate(ListPieces(d.children, false, 0, Layout(-1, true)))
  {
    ListSeparate(d.children, 0, Layout(-1, true), false);
  }
}
