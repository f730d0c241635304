/** What a parse without error accepts, as a grammar over stretches of the text, with no parser state.
    `p` and `q` delimit the stretch; the proofs show that the parser accepts exactly these. */
module Grammar {
  import opened Chars
  import opened Decode
  import opened Syntax

  // ----- Tags -----

  /** `name` is a maximal run of name characters that starts like a name. */
  predicate IsName(s: string, name: Slice) {
    && name.start < name.end <= |s| && name.flags == Flags(false, false, false)
    && IsNameStartChar(s[name.start])
    && (forall i | name.start < i < name.end :: IsNameChar(s[i]))
    && (name.end < |s| ==> !IsNameChar(s[name.end]))
  }

  /** Name, `=` and a quoted value without its quote, with white space only around the `=`. */
  predicate IsAttr(s: string, a: Attr, opts: Options) {
    && IsName(s, a.name) && a.line == LineAt(s, a.name.start)
    && a.value.flags == Flags(opts.processEntities, true, false)
    && var eq := SkipWhiteSpace(s, a.name.end);
    && eq < |s| && s[eq] == '='
    && var quote := SkipWhiteSpace(s, eq + 1);
    && quote < |s| && (s[quote] == '\"' || s[quote] == '\'')
    && a.value.start == quote + 1 <= a.value.end < |s|
    && s[a.value.end] == s[quote] && forall i | a.value.start <= i < a.value.end :: s[i] != s[quote]
  }

  /** A run of attributes between `p` and the end mark of the tag at `q`. */
  predicate AreAttrs(s: string, p: nat, q: nat, attrs: seq<Attr>, opts: Options)
    decreases attrs
  {
    p <= |s| &&
    var b := SkipWhiteSpace(s, p);
    if attrs == [] then q == b
    else
      && attrs[0].name.start == b && IsAttr(s, attrs[0], opts)
      && AreAttrs(s, attrs[0].value.end + 1, q, attrs[1..], opts)
  }

  /** Attribute names within a tag are distinct. */
  predicate DistinctNames(s: string, attrs: seq<Attr>) {
    forall i, j | 0 <= i < j < |attrs| :: NameOf(s, attrs[i].name) != NameOf(s, attrs[j].name)
  }

  /** A tag from behind its `<` to behind its `>`. A leading `/` makes a close tag, a final one a closed tag. */
  ghost predicate IsTag(s: string, p: nat, q: nat, name: Slice, attrs: seq<Attr>, closing: Closing, opts: Options) {
    && p <= |s|
    && var b := SkipWhiteSpace(s, p);
    && b < |s| && name.start == (if s[b] == '/' then b + 1 else b)
    && IsName(s, name) && DistinctNames(s, attrs)
    && exists m: nat :: AreAttrs(s, name.end, m, attrs, opts) && EndsTag(s, m, closing == Closed, q)
         && (closing != Closed ==> closing == if s[b] == '/' then ClosingTag else Open)
  }

  /** The end mark of a tag at `m`, up to `next`. */
  predicate EndsTag(s: string, m: nat, closed: bool, next: nat) {
    m < |s| && if Has(s, m, "/>") then closed && next == m + 2 else s[m] == '>' && next == m + 1 && !closed
  }

  // ----- Nodes -----

  /** The kind of markup that opens at `b`, when it is not an element. */
  function KindAt(s: string, b: nat): Option<Kind> {
    if Has(s, b, "<?") then Some(Declaration)
    else if Has(s, b, "<!--") then Some(Comment)
    else if Has(s, b, "<![CDATA[") then Some(CData)
    else if Has(s, b, "<!") then Some(Unknown)
    else None
  }

  /** The marks around markup that is not an element. */
  function Marks(kind: Kind): (string, string) {
    match kind
    case Declaration => ("<?", "?>")
    case Comment => ("<!--", "-->")
    case CData => ("<![CDATA[", "]]>")
    case Unknown => ("<!", ">")
    case Text => ("", "<")
  }

  /** Entities are for text, if they are processed, and only text is collapsed, if white space is; line ends are
      normalized everywhere. */
  predicate LeafEvaluated(kind: Kind, flags: Flags, opts: Options) {
    && flags.newline
    && (flags.entity <==> kind == Text && opts.processEntities)
    && (flags.collapse <==> kind == Text && opts.whitespace == CollapseSpace)
  }

  /** `value` runs up to the first `tag` behind its start. */
  predicate RunsTo(s: string, value: Slice, tag: string) {
    && value.start <= value.end && Has(s, value.end, tag)
    && forall i | value.start <= i < value.end :: !Has(s, i, tag)
  }

  /** In pedantic mode, white space between an open tag and a close tag is text. */
  predicate PedanticText(s: string, p: nat, b: nat, first: bool, opts: Options) {
    opts.whitespace == PedanticSpace && first && b != p && Has(s, b, "</")
  }

  /** The node `n` stands at `p`, behind white space unless it is text, and ends at `q`. */
  ghost predicate IsNode(s: string, p: nat, q: nat, n: Node, depth: nat, first: bool, opts: Options)
    decreases n, 0
  {
    p < |s| && q <= |s| &&
    var b := SkipWhiteSpace(s, p);
    b < |s| &&
    match n
    case Leaf(Text, value, line) =>
      && value.start == p && value.end == q && LeafEvaluated(Text, value.flags, opts)
      && RunsTo(s, value, "<") && q + 1 < |s|
      && ((s[b] != '<' && line == LineAt(s, b)) || (PedanticText(s, p, b, first, opts) && line == LineAt(s, p)))
    case Leaf(kind, value, line) =>
      && KindAt(s, b) == Some(kind) && line == LineAt(s, b)
      && value.start == b + |Marks(kind).0| && LeafEvaluated(kind, value.flags, opts)
      && RunsTo(s, value, Marks(kind).1) && q == value.end + |Marks(kind).1|
    case Element(name, attrs, closing, children, line) =>
      && s[b] == '<' && KindAt(s, b) == None && line == LineAt(s, b) && !PedanticText(s, p, b, first, opts)
      && match closing
         case Closed => children == [] && IsTag(s, b + 1, q, name, attrs, Closed, opts)
         case Open => depth + 1 < MAX_DEPTH && IsOpenElement(s, b + 1, q, n, depth + 1, opts)
         case ClosingTag => false
  }

  /** From behind its `<`: an open tag, the children, and a close tag of the same name. */
  ghost predicate IsOpenElement(s: string, p: nat, q: nat, n: Node, depth: nat, opts: Options)
    requires n.Element?
    decreases n, -1
  {
    exists m: nat, c: nat ::
      && IsTag(s, p, m, n.name, n.attrs, Open, opts) && m < |s|
      && AreNodes(s, m, c, n.children, depth, true, opts)
      && NoDeclarations(n.children) && ClosesNamed(s, c, q, n.name, n.children == [], opts)
  }

  /** A list of nodes from `p` to `q`. */
  ghost predicate AreNodes(s: string, p: nat, q: nat, nodes: seq<Node>, depth: nat, first: bool, opts: Options)
    decreases nodes, 0
  {
    if nodes == [] then p == q <= |s|
    else
      exists m: nat ::
        IsNode(s, p, m, nodes[0], depth, first, opts) && AreNodes(s, m, q, nodes[1..], depth, false, opts)
  }

  predicate NoDeclarations(nodes: seq<Node>) {
    forall i | 0 <= i < |nodes| :: !IsDeclaration(nodes[i])
  }

  /** A close tag stands at `c`, with `tag` for its name, and ends at `q`. */
  ghost predicate ClosesAt(s: string, c: nat, q: nat, tag: Slice, first: bool, opts: Options) {
    c < |s| &&
    var b := SkipWhiteSpace(s, c);
    && b < |s| && s[b] == '<' && KindAt(s, b) == None && !PedanticText(s, c, b, first, opts)
    && IsCloseTag(s, b + 1, q, tag, opts)
  }

  /** A close tag may carry attributes: they are parsed and dropped. */
  ghost predicate IsCloseTag(s: string, p: nat, q: nat, tag: Slice, opts: Options) {
    exists attrs :: IsTag(s, p, q, tag, attrs, ClosingTag, opts)
  }

  ghost predicate ClosesNamed(s: string, c: nat, q: nat, name: Slice, first: bool, opts: Options) {
    exists tag :: ClosesAt(s, c, q, tag, first, opts) && NameOf(s, tag) == NameOf(s, name)
  }

  /** Declarations come before all other nodes. */
  predicate DeclarationsFirst(nodes: seq<Node>) {
    forall i, j | 0 <= i < j < |nodes| && IsDeclaration(nodes[j]) :: IsDeclaration(nodes[i])
  }

  /** A document: a byte order mark or none, nodes up to `c`, and behind them white space to the end or a
      close tag that nothing opened, at which the parser stops without an error. */
  ghost predicate IsDocument(s: string, bom: bool, nodes: seq<Node>, opts: Options) {
    var p := SkipWhiteSpace(s, 0);
    && (bom <==> Has(s, p, BOM))
    && var q := if bom then p + |BOM| else p;
    && q < |s| && DeclarationsFirst(nodes)
    && exists c: nat :: AreNodes(s, q, c, nodes, 1, true, opts) && EndsDocument(s, c, nodes == [], opts)
  }

  ghost predicate EndsDocument(s: string, c: nat, first: bool, opts: Options) {
    c <= |s| && (SkipWhiteSpace(s, c) == |s| || exists q: nat, tag :: ClosesAt(s, c, q, tag, first, opts))
  }
}
