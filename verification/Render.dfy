/** Documents as values, and the text `XMLPrinter` produces for them, compact or pretty. */
module Render {
  import opened Chars
  import opened Decode
  import opened Syntax

  /** A node with its strings evaluated. */
  datatype Tree =
    | TreeLeaf(kind: Kind, value: string)
    | TreeElement(name: string, attrs: seq<(string, string)>, children: seq<Tree>)

  // ----- Reading a parsed node -----

  /** The string a slice of the text stands for. */
  function ReadSlice(s: string, slice: Slice): string {
    if slice.start <= slice.end <= |s| then Value(s[slice.start..slice.end], slice.flags) else ""
  }

  function ReadAttrs(s: string, attrs: seq<Attr>): (r: seq<(string, string)>)
    ensures |r| == |attrs|
  {
    if attrs == [] then []
    else [(ReadSlice(s, attrs[0].name), ReadSlice(s, attrs[0].value))] + ReadAttrs(s, attrs[1..])
  }

  function ReadNode(s: string, n: Node): Tree {
    match n
    case Leaf(kind, value, _) => TreeLeaf(kind, ReadSlice(s, value))
    case Element(name, attrs, _, children, _) =>
      TreeElement(ReadSlice(s, name), ReadAttrs(s, attrs), ReadNodes(s, children))
  }

  function ReadNodes(s: string, nodes: seq<Node>): (r: seq<Tree>)
    ensures |r| == |nodes|
  {
    if nodes == [] then [] else [ReadNode(s, nodes[0])] + ReadNodes(s, nodes[1..])
  }

  // ----- Strings -----

  /** The characters `PrintString` replaces: all five entities, or `&`, `<` and `>` in text. */
  predicate Escaped(c: char, restricted: bool) {
    c == '&' || c == '<' || c == '>' || (!restricted && (c == '\"' || c == '\''))
  }

  function Pattern(c: char): string {
    match c
    case '&' => "&amp;"
    case '<' => "&lt;"
    case '>' => "&gt;"
    case '\"' => "&quot;"
    case '\'' => "&apos;"
    case _ => [c]
  }

  function EscapeChar(c: char, restricted: bool): string {
    if Escaped(c, restricted) then Pattern(c) else [c]
  }

  function Escape(v: string, restricted: bool): string {
    if v == "" then "" else EscapeChar(v[0], restricted) + Escape(v[1..], restricted)
  }

  // ----- Nodes -----

  /** Four spaces a level. */
  function Indent(depth: nat): (r: string)
    ensures AllWhiteSpace(r)
  {
    if depth == 0 then "" else "    " + Indent(depth - 1)
  }

  /** The printer's layout state, `_textDepth` and `_firstElement`, and whether it processes entities. */
  datatype Layout = Layout(textDepth: int, first: bool, entities: bool := true)

  /** The white space before a node that is not text. */
  function Lead(compact: bool, depth: nat, at: Layout): (r: string)
    ensures AllWhiteSpace(r)
  {
    if compact then ""
    else if at.first then Indent(depth)
    else if at.textDepth < 0 then "\n" + Indent(depth)
    else ""
  }

  function AfterLead(compact: bool, at: Layout): Layout {
    if compact then at else at.(first := false)
  }

  /** A string as it is printed. */
  function Quoted(v: string, restricted: bool, entities: bool): string {
    if entities then Escape(v, restricted) else v
  }

  function AttrText(attr: (string, string), entities: bool := true): string {
    attr.0 + "=\"" + Quoted(attr.1, false, entities) + "\""
  }

  function RenderAttrs(attrs: seq<(string, string)>, entities: bool := true): string {
    if attrs == [] then ""
    else " " + AttrText(attrs[0], entities) + RenderAttrs(attrs[1..], entities)
  }

  /** The white space before a close tag. */
  function CloseLead(compact: bool, depth: nat, at: Layout): (r: string)
    ensures AllWhiteSpace(r)
  {
    if at.textDepth < 0 && !compact then "\n" + Indent(depth) else ""
  }

  /** What follows the attributes of an element at `depth`. */
  function RenderRest(name: string, children: seq<Tree>, compact: bool, depth: nat, at: Layout): (string, Layout)
    decreases children, 1
  {
    if children == [] then ("/>", at)
    else
      var (inner, at') := RenderList(children, compact, depth + 1, at);
      (">" + inner + CloseLead(compact, depth, at') + "</" + name + ">", at')
  }

  /** The text of a node from its first byte of markup or text on, and the layout state after it. */
  function RenderNode(t: Tree, compact: bool, depth: nat, at: Layout): (string, Layout)
    decreases t, 0
  {
    match t
    case TreeLeaf(Text, value) => (Quoted(value, true, at.entities), at.(textDepth := depth - 1))
    case TreeLeaf(CData, value) => ("<![CDATA[" + value + "]]>", at.(textDepth := depth - 1))
    case TreeLeaf(kind, value) => (Header(kind) + value + EndTag(kind), AfterLead(compact, at))
    case TreeElement(name, attrs, children) =>
      var (rest, at') := RenderRest(name, children, compact, depth, AfterLead(compact, at));
      ("<" + name + RenderAttrs(attrs, at.entities) + rest,
       if at'.textDepth == depth then at'.(textDepth := -1) else at')
  }

  predicate IsTextKind(t: Tree) {
    t.TreeLeaf? && (t.kind == Text || t.kind == CData)
  }

  /** White space the printer puts before a node, by its kind. */
  function NodeLead(t: Tree, compact: bool, depth: nat, at: Layout): (r: string)
    ensures AllWhiteSpace(r)
  {
    if IsTextKind(t) then "" else Lead(compact, depth, at)
  }

  /** The line feed after an element at depth 0. */
  function Trail(t: Tree, compact: bool, depth: nat): (r: string)
    ensures AllWhiteSpace(r)
  {
    if t.TreeElement? && depth == 0 && !compact then "\n" else ""
  }

  function RenderList(ts: seq<Tree>, compact: bool, depth: nat, at: Layout): (string, Layout)
    decreases ts, 0
  {
    if ts == [] then ("", at)
    else
      var (node, at') := RenderNode(ts[0], compact, depth, at);
      var (rest, at'') := RenderList(ts[1..], compact, depth, at');
      (NodeLead(ts[0], compact, depth, at) + node + Trail(ts[0], compact, depth) + rest, at'')
  }

  /** Printing does not touch the entity option. */
  lemma {:induction false} NodeKeepsEntities(t: Tree, compact: bool, depth: nat, at: Layout)
    ensures RenderNode(t, compact, depth, at).1.entities == at.entities
    decreases t, 0
  {
    match t
    case TreeLeaf(_, _) =>
    case TreeElement(_, _, children) => ListKeepsEntities(children, compact, depth + 1, AfterLead(compact, at));
  }

  lemma {:induction false} ListKeepsEntities(ts: seq<Tree>, compact: bool, depth: nat, at: Layout)
    ensures RenderList(ts, compact, depth, at).1.entities == at.entities
    decreases ts, 0
  {
    if ts != [] {
      NodeKeepsEntities(ts[0], compact, depth, at);
      ListKeepsEntities(ts[1..], compact, depth, RenderNode(ts[0], compact, depth, at).1);
    }
  }

  datatype TreeDocument = TreeDocument(bom: bool, children: seq<Tree>)

  function RenderDocument(d: TreeDocument, compact: bool, entities: bool := true): string {
    (if d.bom then BOM else "") + RenderList(d.children, compact, 0, Layout(-1, true, entities)).0
  }

  // ----- Normal form -----

  predicate NormalValue(v: string) {
    NulFree(v) && CR !in v
  }

  predicate ValidName(name: string) {
    name != "" && IsNameStartChar(name[0]) && forall i | 0 <= i < |name| :: IsNameChar(name[i])
  }

  predicate Contains(s: string, x: string) {
    exists i | 0 <= i < |s| :: Has(s, i, x)
  }

  predicate IsText(t: Tree) {
    t.TreeLeaf? && t.kind == Text
  }

  predicate NormalLeaf(kind: Kind, value: string) {
    && NormalValue(value)
    && (if kind == Text then !AllWhiteSpace(value) else !Contains(value, EndTag(kind)))
    && (kind == Unknown ==> !Has(value, 0, "--") && !Has(value, 0, "[CDATA["))
  }

  predicate NormalAttrs(attrs: seq<(string, string)>) {
    && (forall i | 0 <= i < |attrs| :: ValidName(attrs[i].0) && NormalValue(attrs[i].1))
    && forall i, j | 0 <= i < j < |attrs| :: attrs[i].0 != attrs[j].0
  }

  /** Trees that printing and parsing again must give back: at most `limit` nested elements with children. */
  predicate NormalTree(t: Tree, limit: nat)
    decreases t
  {
    match t
    case TreeLeaf(kind, value) => NormalLeaf(kind, value)
    case TreeElement(name, attrs, children) =>
      && ValidName(name) && NormalAttrs(attrs)
      && (children != [] ==> limit > 0)
      && (forall i | 0 <= i < |children| ::
            && (limit > 0 ==> NormalTree(children[i], limit - 1))
            && !(children[i].TreeLeaf? && children[i].kind == Declaration))
      && NoAdjacentTexts(children)
  }

  predicate NoAdjacentTexts(ts: seq<Tree>) {
    forall i | 0 < i < |ts| :: !(IsText(ts[i - 1]) && IsText(ts[i]))
  }

  predicate NormalDocument(d: TreeDocument) {
    && d.children != []
    && (forall i | 0 <= i < |d.children| :: NormalTree(d.children[i], 498) && !IsText(d.children[i]))
    && forall i, j | 0 <= i < j < |d.children| && IsDecl(d.children[j]) :: IsDecl(d.children[i])
  }

  predicate IsDecl(t: Tree) {
    t.TreeLeaf? && t.kind == Declaration
  }
}
