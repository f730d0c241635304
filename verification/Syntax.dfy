/** The parser as a function of the text: nodes made of slices of the buffer, one recursive function per
    `ParseDeep`. Positions replace the cursor, and `LineAt` the line counter. */
module Syntax {
  import opened Chars
  import opened Decode

  const MAX_DEPTH: nat := 500
  const BOM := "\U{EF}\U{BB}\U{BF}"

  datatype Whitespace = PreserveSpace | CollapseSpace | PedanticSpace
  datatype Options = Options(processEntities: bool, whitespace: Whitespace)

  /** A lazily evaluated string: the raw text from `start` to `end`. */
  datatype Slice = Slice(start: nat, end: nat, flags: Flags)

  datatype Attr = Attr(name: Slice, value: Slice, line: nat)
  datatype Closing = Open | Closed | ClosingTag
  datatype Kind = Declaration | Comment | CData | Unknown | Text
  datatype Node =
    | Leaf(kind: Kind, value: Slice, line: nat)
    | Element(name: Slice, attrs: seq<Attr>, closing: Closing, children: seq<Node>, line: nat)

  datatype Error =
    | Success | ParsingElement | ParsingAttribute | ParsingText | ParsingCData | ParsingComment
    | ParsingDeclaration | ParsingUnknown | EmptyDocument | MismatchedElement | Parsing | DepthExceeded

  // ----- Leaves -----

  function Header(kind: Kind): string {
    match kind
    case Declaration => "<?"
    case Comment => "<!--"
    case CData => "<![CDATA["
    case Unknown => "<!"
    case Text => ""
  }

  function EndTag(kind: Kind): (tag: string)
    ensures tag != "" && NulFree(tag)
  {
    match kind
    case Declaration => "?>"
    case Comment => "-->"
    case CData => "]]>"
    case Unknown => ">"
    case Text => "<"
  }

  function LeafError(kind: Kind): (e: Error)
    ensures e != Success
  {
    match kind
    case Declaration => ParsingDeclaration
    case Comment => ParsingComment
    case CData => ParsingCData
    case Unknown => ParsingUnknown
    case Text => ParsingText
  }

  function LeafFlags(kind: Kind, opts: Options): Flags {
    if kind == Text then Flags(opts.processEntities, true, opts.whitespace == CollapseSpace)
    else Flags(false, true, false)
  }

  const NAME_FLAGS := Flags(false, false, false)

  /** The first occurrence of `tag` at or after `p`: where `ParseText` ends the slice. */
  function FindTag(s: string, p: nat, tag: string): (e: Option<nat>)
    requires p <= |s| && tag != ""
    ensures e.Some? ==> p <= e.value && Has(s, e.value, tag) && forall i | p <= i < e.value :: !Has(s, i, tag)
    ensures e.None? ==> forall i | p <= i < |s| :: !Has(s, i, tag)
    decreases |s| - p
  {
    if p == |s| then None
    else if Has(s, p, tag) then Some(p)
    else FindTag(s, p + 1, tag)
  }

  lemma {:induction false} FindTagIs(s: string, p: nat, tag: string, e: nat)
    requires p <= e && tag != "" && Has(s, e, tag) && forall i | p <= i < e :: !Has(s, i, tag)
    ensures FindTag(s, p, tag) == Some(e)
    decreases e - p
  {
    if p < e { FindTagIs(s, p + 1, tag, e); }
  }

  /** The end of the maximal run of name characters at `p`. */
  function NameEnd(s: string, p: nat): (e: nat)
    requires p <= |s|
    ensures p <= e <= |s|
    ensures forall i | p <= i < e :: IsNameChar(s[i])
    ensures e < |s| ==> !IsNameChar(s[e])
    decreases |s| - p
  {
    if p < |s| && IsNameChar(s[p]) then NameEnd(s, p + 1) else p
  }

  lemma {:induction false} NameEndIs(s: string, p: nat, e: nat)
    requires p <= e <= |s| && (e < |s| ==> !IsNameChar(s[e])) && forall i | p <= i < e :: IsNameChar(s[i])
    ensures NameEnd(s, p) == e
    decreases e - p
  {
    if p < e { NameEndIs(s, p + 1, e); }
  }

  /** `ParseName`: where the name at `p` ends, if there is one. */
  function ParseName(s: string, p: nat): (e: Option<nat>)
    requires p <= |s|
    ensures e.Some? ==> p < e.value <= |s|
  {
    if p < |s| && IsNameStartChar(s[p]) then Some(NameEnd(s, p + 1)) else None
  }

  // ----- Attributes -----

  /** `XMLAttribute::ParseDeep` at `p`: the attribute and the position after its closing quote. */
  function ParseAttr(s: string, p: nat, opts: Options): (r: Option<(Attr, nat)>)
    requires p <= |s|
    ensures r.Some? ==> p < r.value.1 <= |s|
  {
    match ParseName(s, p)
    case None => None
    case Some(nameEnd) =>
      var eq := SkipWhiteSpace(s, nameEnd);
      if ByteAt(s, eq) != '=' || eq == |s| then None
      else
        var quote := SkipWhiteSpace(s, eq + 1);
        if quote == |s| || (s[quote] != '\"' && s[quote] != '\'') then None
        else match FindTag(s, quote + 1, [s[quote]])
          case None => None
          case Some(end) =>
            Some((Attr(Slice(p, nameEnd, NAME_FLAGS),
                       Slice(quote + 1, end, Flags(opts.processEntities, true, false)), LineAt(s, p)), end + 1))
  }

  /** The name a slice without flags stands for. */
  function NameOf(s: string, name: Slice): string {
    if name.start <= name.end <= |s| then s[name.start..name.end] else ""
  }

  predicate HasName(s: string, attrs: seq<Attr>, name: string) {
    exists i | 0 <= i < |attrs| :: NameOf(s, attrs[i].name) == name
  }

  datatype AttrsOutcome = AttrsFail(error: Error, line: nat) | AttrsOk(attrs: seq<Attr>, closed: bool, next: nat)

  /** `ParseAttributes` for the element that began on `line`, with the attributes `sofar` read. */
  function ParseAttributes(s: string, p: nat, opts: Options, line: nat, sofar: seq<Attr>): (r: AttrsOutcome)
    requires p <= |s|
    ensures r.AttrsOk? ==> p < r.next <= |s| && sofar <= r.attrs
    ensures r.AttrsFail? ==> r.error != Success
    decreases |s| - p
  {
    var q := SkipWhiteSpace(s, p);
    if q == |s| then AttrsFail(ParsingElement, line)
    else if IsNameStartChar(s[q]) then
      match ParseAttr(s, q, opts)
      case None => AttrsFail(ParsingAttribute, LineAt(s, q))
      case Some((attr, next)) =>
        if HasName(s, sofar, NameOf(s, attr.name)) then AttrsFail(ParsingAttribute, LineAt(s, q))
        else ParseAttributes(s, next, opts, line, sofar + [attr])
    else if s[q] == '>' then AttrsOk(sofar, false, q + 1)
    else if s[q] == '/' && ByteAt(s, q + 1) == '>' && q + 1 < |s| then AttrsOk(sofar, true, q + 2)
    else AttrsFail(ParsingElement, line)
  }

  // ----- Elements and lists -----

  /** `Identify`: the kind of the next node, the line it is reported on and where its parse starts. */
  datatype Found = Nothing | FoundLeaf(kind: Kind, line: nat, at: nat) | FoundElement(line: nat, at: nat)

  function Identify(s: string, p: nat, first: bool, opts: Options): (r: Found)
    requires p <= |s|
    ensures !r.Nothing? ==> p <= r.at <= |s| && p < |s|
    ensures r.FoundLeaf? && r.kind == Text ==> r.at == p && !Has(s, p, "<")
    ensures !r.Nothing? && r.at == p ==> r.FoundLeaf? && r.kind == Text
  {
    var q := SkipWhiteSpace(s, p);
    if q == |s| then Nothing
    else if Has(s, q, "<?") then FoundLeaf(Declaration, LineAt(s, q), q + 2)
    else if Has(s, q, "<!--") then FoundLeaf(Comment, LineAt(s, q), q + 4)
    else if Has(s, q, "<![CDATA[") then FoundLeaf(CData, LineAt(s, q), q + 9)
    else if Has(s, q, "<!") then FoundLeaf(Unknown, LineAt(s, q), q + 2)
    else if Has(s, q, "<") then
      if opts.whitespace == PedanticSpace && first && q != p && ByteAt(s, q + 1) == '/' then
        FoundLeaf(Text, LineAt(s, p), p)
      else FoundElement(LineAt(s, q), q + 1)
    else FoundLeaf(Text, LineAt(s, q), p)
  }

  datatype HeadOutcome =
    | HeadFail(error: Error, line: nat)
    | Head(name: Slice, attrs: seq<Attr>, closing: Closing, next: nat)

  /** The tag of an element after its `<`. */
  function ParseHead(s: string, p: nat, line: nat, opts: Options): (r: HeadOutcome)
    requires p <= |s|
    ensures r.Head? ==> p < r.next <= |s|
    ensures r.HeadFail? ==> r.error != Success
  {
    var q := SkipWhiteSpace(s, p);
    var slash := q < |s| && s[q] == '/';
    var from := if slash then q + 1 else q;
    match ParseName(s, from)
    case None => HeadFail(Parsing, line)
    case Some(nameEnd) =>
      match ParseAttributes(s, nameEnd, opts, line, [])
      case AttrsFail(error, eline) => HeadFail(error, eline)
      case AttrsOk(attrs, closed, next) =>
        Head(Slice(from, nameEnd, NAME_FLAGS), attrs,
             if closed then Closed else if slash then ClosingTag else Open, next)
  }

  datatype NodeOutcome = NodeFail(error: Error, line: nat) | NodeOk(node: Node, next: nat, endTag: Option<Slice>)
  datatype ListOutcome =
    | ListFail(nodes: seq<Node>, error: Error, line: nat)
    | ListEnd(nodes: seq<Node>)
    | ListClosed(nodes: seq<Node>, next: nat, endTag: Slice)

  /** A leaf node's `ParseDeep`. A null result without an error becomes the general parse error. */
  function ParseLeaf(s: string, kind: Kind, p: nat, line: nat, opts: Options): (r: NodeOutcome)
    requires p <= |s|
    ensures r.NodeOk? ==> p <= r.next <= |s| && (Has(s, p, "<") || p < r.next)
    ensures r.NodeFail? ==> r.error != Success
  {
    match FindTag(s, p, EndTag(kind))
    case None => NodeFail(LeafError(kind), line)
    case Some(e) =>
      if kind != Text then
        NodeOk(Leaf(kind, Slice(p, e, LeafFlags(kind, opts)), line), e + |EndTag(kind)|, None)
      else if e + 1 == |s| then NodeFail(Parsing, line)
      else NodeOk(Leaf(kind, Slice(p, e, LeafFlags(kind, opts)), line), e, None)
  }

  /** `XMLElement::ParseDeep` after the `<`, at nesting depth `depth`. */
  function ParseElement(s: string, p: nat, line: nat, depth: nat, opts: Options): (r: NodeOutcome)
    requires p <= |s|
    ensures r.NodeOk? ==> p < r.next <= |s|
    ensures r.NodeFail? ==> r.error != Success
    decreases |s| - p, 0
  {
    match ParseHead(s, p, line, opts)
    case HeadFail(error, eline) => NodeFail(error, eline)
    case Head(name, attrs, closing, next) =>
      if next == |s| || closing != Open then NodeOk(Element(name, attrs, closing, [], line), next, None)
      else match EnterList(s, next, depth, false, opts)
        case ListFail(_, error, eline) => NodeFail(error, eline)
        case ListEnd(_) => NodeFail(Parsing, line)
        case ListClosed(children, after, endTag) =>
          NodeOk(Element(name, attrs, Open, children, line), after, Some(endTag))
  }

  /** The entry of `XMLNode::ParseDeep`: one more level, up to the limit. */
  function EnterList(s: string, p: nat, depth: nat, doc: bool, opts: Options): (r: ListOutcome)
    requires p <= |s|
    ensures r.ListClosed? ==> p < r.next <= |s|
    ensures r.ListFail? ==> r.error != Success
    decreases |s| - p, 3
  {
    if depth + 1 == MAX_DEPTH then ListFail([], DepthExceeded, LineAt(s, p))
    else ParseList(s, p, depth + 1, doc, opts, true, [])
  }

  /** The next node of a list: `Identify` and the node's own `ParseDeep`. */
  function ParseNode(s: string, p: nat, depth: nat, opts: Options, found: Found): (r: NodeOutcome)
    requires p < |s| && !found.Nothing? && p <= found.at <= |s|
    requires found.FoundLeaf? && found.kind == Text ==> !Has(s, p, "<")
    requires found.at == p ==> found.FoundLeaf? && found.kind == Text
    ensures r.NodeOk? ==> p < r.next <= |s|
    ensures r.NodeFail? ==> r.error != Success
    decreases |s| - p, 1
  {
    if found.FoundLeaf? then ParseLeaf(s, found.kind, found.at, found.line, opts)
    else ParseElement(s, found.at, found.line, depth, opts)
  }

  /** Declarations come first: what is in the list so far is nothing, or begins and ends with one. */
  predicate DeclarationAllowed(doc: bool, sofar: seq<Node>) {
    doc && (sofar == [] || (IsDeclaration(sofar[0]) && IsDeclaration(sofar[|sofar| - 1])))
  }

  predicate IsDeclaration(n: Node) {
    n.Leaf? && n.kind == Declaration
  }

  /** An OPEN element needs an end tag of its own name, any other element must have none. */
  predicate Mismatch(s: string, n: Node, endTag: Option<Slice>)
    requires n.Element?
  {
    match endTag
    case None => n.closing == Open
    case Some(tag) => n.closing != Open || NameOf(s, tag) != NameOf(s, n.name)
  }

  /** The loop of `XMLNode::ParseDeep`, with the children `sofar` linked. */
  function ParseList(s: string, p: nat, depth: nat, doc: bool, opts: Options, first: bool, sofar: seq<Node>)
    : (r: ListOutcome)
    requires p <= |s|
    ensures r.ListClosed? ==> p < r.next <= |s|
    ensures r.ListFail? ==> r.error != Success
    decreases |s| - p, 2
  {
    var found := Identify(s, p, first, opts);
    if p == |s| || found.Nothing? then ListEnd(sofar)
    else match ParseNode(s, p, depth, opts, found)
      case NodeFail(error, line) => ListFail(sofar, error, line)
      case NodeOk(node, next, endTag) =>
        if IsDeclaration(node) && !DeclarationAllowed(doc, sofar) then
          ListFail(sofar, ParsingDeclaration, found.line)
        else if node.Element? && node.closing == ClosingTag then ListClosed(sofar, next, node.name)
        else if node.Element? && Mismatch(s, node, endTag) then ListFail(sofar, MismatchedElement, found.line)
        else ParseList(s, next, depth, doc, opts, false, sofar + [node])
  }

  // ----- Documents -----

  datatype Document = Document(bom: bool, nodes: seq<Node>, error: Error, errorLine: nat)

  /** `XMLDocument::Parse`. The root list may end at a close tag that nothing opened: that is no error. */
  function ParseDocument(s: string, opts: Options): Document {
    var p := SkipWhiteSpace(s, 0);
    var bom := Has(s, p, BOM);
    var q := if bom then p + |BOM| else p;
    if q == |s| then Document(bom, [], EmptyDocument, 0)
    else match EnterList(s, q, 0, true, opts)
      case ListFail(nodes, error, line) => Document(bom, nodes, error, line)
      case ListEnd(nodes) => Document(bom, nodes, Success, 0)
      case ListClosed(nodes, _, _) => Document(bom, nodes, Success, 0)
  }
}
