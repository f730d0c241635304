/** Parsing what the printer produced gives the same document back, in compact and in pretty mode. */
module RoundTrip {
  import opened Chars
  import opened Decode
  import opened Syntax
  import opened Render
  import opened RoundTripStrings
  import opened RoundTripTags

  /** After white space the text ends or goes on with markup. */
  predicate Clear(s: string, p: nat) {
    p <= |s| && (SkipWhiteSpace(s, p) == |s| || s[SkipWhiteSpace(s, p)] == '<')
  }

  lemma {:induction false} SkipJoins(s: string, p: nat, q: nat)
    requires p <= q <= |s| && forall i | p <= i < q :: IsWhiteSpace(s[i])
    ensures SkipWhiteSpace(s, p) == SkipWhiteSpace(s, q)
  {
    SkipIsUnique(s, p, SkipWhiteSpace(s, q));
  }

  /** White space before markup, or at the end, does not change what a list parses to. */
  lemma {:induction false} ListSkipsBlanks(s: string, p: nat, w: string, depth: nat, doc: bool, first: bool,
                                           sofar: seq<Node>)
    requires Has(s, p, w) && AllWhiteSpace(w) && Clear(s, p + |w|)
    ensures ParseList(s, p, depth, doc, OPTIONS, first, sofar)
            == ParseList(s, p + |w|, depth, doc, OPTIONS, first, sofar)
  {
    hide SkipWhiteSpace, LineAt, Identify, ParseNode, Mismatch, DeclarationAllowed;
    var q := p + |w|;
    forall i | p <= i < q ensures IsWhiteSpace(s[i]) {
      HasAt(s, p, w, i - p);
    }
    SkipJoins(s, p, q);
    SameIdentify(s, p, q, first);
    var f := Identify(s, p, first, OPTIONS);
    if !f.Nothing? {
      SameNode(s, p, q, depth, f);
    }
  }

  lemma SameIdentify(s: string, p: nat, q: nat, first: bool)
    requires p <= q <= |s| && SkipWhiteSpace(s, p) == SkipWhiteSpace(s, q) && Clear(s, q)
    ensures var f := Identify(s, p, first, OPTIONS);
            && f == Identify(s, q, first, OPTIONS)
            && (!f.Nothing? ==> p < |s| && q < |s| && q < f.at && (f.FoundLeaf? ==> f.kind != Text))
  {
    hide SkipWhiteSpace, LineAt, Has;
    var k := SkipWhiteSpace(s, q);
    if k < |s| { HasChar(s, k); }
  }

  lemma SameNode(s: string, p: nat, q: nat, depth: nat, f: Found)
    requires p < |s| && q < |s| && !f.Nothing? && p < f.at <= |s| && q < f.at
    requires f.FoundLeaf? ==> f.kind != Text
    ensures ParseNode(s, p, depth, OPTIONS, f) == ParseNode(s, q, depth, OPTIONS, f)
  {
    hide ParseLeaf, ParseElement;
  }

  /** One node more: the loop goes on behind it. */
  lemma {:induction false} ListStep(s: string, p: nat, depth: nat, doc: bool, first: bool, sofar: seq<Node>,
                                    node: Node, next: nat, endTag: Option<Slice>)
    requires p < |s| && !Identify(s, p, first, OPTIONS).Nothing?
    requires ParseNode(s, p, depth, OPTIONS, Identify(s, p, first, OPTIONS)) == NodeOk(node, next, endTag)
    requires IsDeclaration(node) ==> DeclarationAllowed(doc, sofar)
    requires node.Element? ==> node.closing != ClosingTag && !Mismatch(s, node, endTag)
    ensures ParseList(s, p, depth, doc, OPTIONS, first, sofar)
         == ParseList(s, next, depth, doc, OPTIONS, false, sofar + [node])
  {
    hide ParseNode, Identify, Mismatch;
  }

  /** The first node does not matter when white space is preserved. */
  lemma {:induction false} FirstIsIrrelevant(s: string, p: nat, depth: nat, doc: bool, sofar: seq<Node>)
    requires p <= |s|
    ensures ParseList(s, p, depth, doc, OPTIONS, true, sofar) == ParseList(s, p, depth, doc, OPTIONS, false, sofar)
  {
    hide LineAt, SkipWhiteSpace, Has;
    assert Identify(s, p, true, OPTIONS) == Identify(s, p, false, OPTIONS);
    hide Identify, ParseNode, Mismatch, DeclarationAllowed;
  }

  /** A close tag ends the list and hands its name up. */
  lemma {:induction false} CloseParses(s: string, p: nat, name: string, depth: nat, doc: bool, sofar: seq<Node>)
    requires ValidName(name) && Has(s, p, "</" + name + ">")
    ensures var tag := Slice(p + 2, p + 2 + |name|, NAME_FLAGS);
            && NameOf(s, tag) == name
            && ParseList(s, p, depth, doc, OPTIONS, false, sofar) == ListClosed(sofar, p + |name| + 3, tag)
  {
    hide LineAt, Value, NameEnd, ParseList, ParseNode, ParseHead, Identify;
    HasConcat(s, p, "</" + name, ">");
    HasConcat(s, p, "</", name);
    HasAt(s, p, "</", 0);
    HasAt(s, p, "</", 1);
    var e := p + 2 + |name|;
    HasAt(s, e, ">", 0);
    NameNulFree(name);
    NameParses(s, p + 2, name);
    ElementFound(s, p, false);
    var line := LineAt(s, p);
    CloseHead(s, p + 1, e, line);
    var f := Identify(s, p, false, OPTIONS);
    CloseElement(s, p, e, line, depth);
    ListCloses(s, p, depth, doc, sofar, f, Slice(p + 2, e, NAME_FLAGS), e + 1);
  }

  /** A node that is a close tag ends its list. */
  lemma {:induction false} ListCloses(s: string, p: nat, depth: nat, doc: bool, sofar: seq<Node>, f: Found, tag: Slice,
                                      next: nat)
    requires p < |s| && f == Identify(s, p, false, OPTIONS) && f.FoundElement?
    requires ParseNode(s, p, depth, OPTIONS, f) == NodeOk(Element(tag, [], ClosingTag, [], f.line), next, None)
    ensures ParseList(s, p, depth, doc, OPTIONS, false, sofar) == ListClosed(sofar, next, tag)
  {
    hide ParseNode, Identify, Mismatch;
  }

  lemma CloseHead(s: string, p: nat, e: nat, line: nat)
    requires p + 1 < e < |s| && s[p] == '/' && ParseName(s, p + 1) == Some(e) && s[e] == '>'
    ensures ParseHead(s, p, line, OPTIONS) == Head(Slice(p + 1, e, NAME_FLAGS), [], ClosingTag, e + 1)
  {
    NoSkip(s, p);
    NoSkip(s, e);
    hide NameEnd, SkipWhiteSpace;
  }

  lemma CloseElement(s: string, p: nat, e: nat, line: nat, depth: nat)
    requires p + 2 < e < |s|
    requires ParseHead(s, p + 1, line, OPTIONS) == Head(Slice(p + 2, e, NAME_FLAGS), [], ClosingTag, e + 1)
    ensures ParseNode(s, p, depth, OPTIONS, FoundElement(line, p + 1))
         == NodeOk(Element(Slice(p + 2, e, NAME_FLAGS), [], ClosingTag, [], line), e + 1, None)
  {
    hide ParseHead;
  }

  // ----- Nodes and lists -----

  /** What must stand behind a printed text: markup, at once. */
  predicate TagBehind(s: string, q: nat) {
    q + 1 < |s| && s[q] == '<'
  }

  /** The node printed at `p` is the next node of a list, and reads as `t`. */
  predicate IsNext(s: string, p: nat, first: bool, depth: nat, n: Node, endTag: Option<Slice>, q: nat, t: Tree) {
    && p < |s| && !Identify(s, p, first, OPTIONS).Nothing?
    && ParseNode(s, p, depth, OPTIONS, Identify(s, p, first, OPTIONS)) == NodeOk(n, q, endTag)
    && ReadNode(s, n) == t
    && (IsDeclaration(n) <==> IsDecl(t))
    && (n.Element? ==> n.closing != ClosingTag && !Mismatch(s, n, endTag))
  }

  lemma LeafIsNext(s: string, p: nat, first: bool, kind: Kind, v: string, compact: bool, indent: nat, at: Layout,
                   depth: nat)
    returns (n: Node)
    requires at.entities && NormalLeaf(kind, v) && Has(s, p, RenderNode(TreeLeaf(kind, v), compact, indent, at).0)
    requires kind == Text ==> TagBehind(s, p + |RenderNode(TreeLeaf(kind, v), compact, indent, at).0|)
    ensures IsNext(s, p, first, depth, n, None, p + |RenderNode(TreeLeaf(kind, v), compact, indent, at).0|,
                   TreeLeaf(kind, v))
  {
    hide Identify, ParseLeaf, LineAt, ReadSlice, Escape, Has, NormalLeaf, SkipWhiteSpace;
    HasInside(s, p, RenderNode(TreeLeaf(kind, v), compact, indent, at).0);
    if kind == Text {
      TextParses(s, p, v, first);
      n := Leaf(Text, Slice(p, p + |Escape(v, true)|, LeafFlags(Text, OPTIONS)), LineAt(s, SkipWhiteSpace(s, p)));
    } else {
      LeafParses(s, p, kind, v, first);
      var from := p + |Header(kind)|;
      n := Leaf(kind, Slice(from, from + |v|, LeafFlags(kind, OPTIONS)), LineAt(s, p));
    }
  }

  /** The last node of a printed list needs markup behind it when it is text. */
  predicate ListBehind(s: string, ts: seq<Tree>, q: nat) {
    Clear(s, q) && (ts != [] && IsText(ts[|ts| - 1]) ==> TagBehind(s, q))
  }

  /** Conditions on a list of nodes printed at indentation `indent`. */
  predicate NormalList(ts: seq<Tree>, compact: bool, indent: nat, at: Layout, limit: nat) {
    && (forall i | 0 <= i < |ts| :: NormalTree(ts[i], limit) && (indent == 0 ==> !IsText(ts[i])))
    && NoAdjacentTexts(ts)
    && (compact || indent == 0 || !at.first) && at.entities
  }

  /** Declarations come before everything else, and only at document level. */
  predicate DeclarationsLead(ts: seq<Tree>, doc: bool, sofar: seq<Node>) {
    && (forall i | 0 <= i < |ts| && IsDecl(ts[i]) :: doc && forall j | 0 <= j < i :: IsDecl(ts[j]))
    && ((exists i | 0 <= i < |ts| :: IsDecl(ts[i])) ==> forall k | 0 <= k < |sofar| :: IsDeclaration(sofar[k]))
  }

  lemma {:induction false} RenderNodeStarts(t: Tree, compact: bool, indent: nat, at: Layout)
    requires !IsText(t)
    ensures var out := RenderNode(t, compact, indent, at).0; |out| >= 2 && out[0] == '<'
  {
    hide RenderRest, RenderAttrs;
    if t.TreeElement? {
      RestNotEmpty(t.name, t.children, compact, indent, AfterLead(compact, at));
    }
  }

  lemma {:induction false} RestNotEmpty(name: string, children: seq<Tree>, compact: bool, indent: nat, at: Layout)
    ensures |RenderRest(name, children, compact, indent, at).0| >= 2
  {
    hide RenderList;
  }

  /** The layout state only ever loses `first`. */
  lemma {:induction false} FirstStaysFalse(t: Tree, compact: bool, indent: nat, at: Layout)
    ensures !at.first ==> !RenderNode(t, compact, indent, at).1.first
    ensures IsTextKind(t) ==> RenderNode(t, compact, indent, at).1.textDepth == indent - 1
    decreases t, 1
  {
    hide RenderAttrs, Escape;
    if t.TreeElement? && t.children != [] {
      ListFirstStaysFalse(t.children, compact, indent + 1, AfterLead(compact, at));
    }
  }

  lemma {:induction false} ListFirstStaysFalse(ts: seq<Tree>, compact: bool, indent: nat, at: Layout)
    ensures !at.first ==> !RenderList(ts, compact, indent, at).1.first
    decreases ts, 0
  {
    if ts != [] {
      hide RenderNode;
      FirstStaysFalse(ts[0], compact, indent, at);
      ListFirstStaysFalse(ts[1..], compact, indent, RenderNode(ts[0], compact, indent, at).1);
    }
  }

  lemma {:induction false} LastTextKeepsDepth(ts: seq<Tree>, compact: bool, indent: nat, at: Layout)
    requires ts != [] && IsText(ts[|ts| - 1])
    ensures RenderList(ts, compact, indent, at).1.textDepth == indent - 1
    decreases ts
  {
    hide RenderNode;
    FirstStaysFalse(ts[0], compact, indent, at);
    if |ts| > 1 {
      LastTextKeepsDepth(ts[1..], compact, indent, RenderNode(ts[0], compact, indent, at).1);
    } else {
      assert ts[1..] == [];
    }
  }

  /** A printed list, with the parts of its first node split off. */
  lemma ListSplit(s: string, p: nat, ts: seq<Tree>, compact: bool, indent: nat, at: Layout)
    requires ts != [] && Has(s, p, RenderList(ts, compact, indent, at).0)
    ensures var (node, at') := RenderNode(ts[0], compact, indent, at);
            var lead, trail := NodeLead(ts[0], compact, indent, at), Trail(ts[0], compact, indent);
            var (rest, at'') := RenderList(ts[1..], compact, indent, at');
            && RenderList(ts, compact, indent, at).1 == at''
            && |RenderList(ts, compact, indent, at).0| == |lead| + |node| + |trail| + |rest|
            && Has(s, p, lead) && Has(s, p + |lead|, node) && Has(s, p + |lead| + |node|, trail)
            && Has(s, p + |lead| + |node| + |trail|, rest)
  {
    hide RenderNode, NodeLead, Trail, Has;
    var (node, at') := RenderNode(ts[0], compact, indent, at);
    var lead, trail := NodeLead(ts[0], compact, indent, at), Trail(ts[0], compact, indent);
    var rest := RenderList(ts[1..], compact, indent, at').0;
    HasConcat(s, p, lead + node + trail, rest);
    HasConcat(s, p, lead + node, trail);
    HasConcat(s, p, lead, node);
  }

  /** What a printed list begins with, behind a node that was text or not. */
  lemma ListStarts(s: string, p: nat, ts: seq<Tree>, compact: bool, indent: nat, at: Layout, afterText: bool)
    requires Has(s, p, RenderList(ts, compact, indent, at).0)
    requires Clear(s, p + |RenderList(ts, compact, indent, at).0|)
    requires ts == [] && afterText ==> TagBehind(s, p)
    requires ts != [] ==> !(IsText(ts[0]) && (afterText || indent == 0))
    requires afterText ==> indent > 0 && at.textDepth == indent - 1 && (compact || !at.first)
    ensures afterText ==> TagBehind(s, p)
    ensures indent == 0 ==> Clear(s, p)
  {
    hide SkipWhiteSpace, RenderNode, RenderList, Has;
    if ts == [] {
      assert RenderList(ts, compact, indent, at).0 == "" by { EmptyList(compact, indent, at); }
    } else if !IsText(ts[0]) {
      ListSplit(s, p, ts, compact, indent, at);
      RenderNodeStarts(ts[0], compact, indent, at);
      var lead := NodeLead(ts[0], compact, indent, at);
      var node := RenderNode(ts[0], compact, indent, at).0;
      HasInside(s, p + |lead|, node);
      HasAt(s, p + |lead|, node, 0);
      ClearAfterBlanks(s, p, lead);
    }
  }

  lemma EmptyList(compact: bool, indent: nat, at: Layout)
    ensures RenderList([], compact, indent, at) == ("", at)
  {
  }

  lemma HasEmpty(s: string, p: nat)
    requires p <= |s|
    ensures Has(s, p, "")
  {
  }

  lemma ClearAfterBlanks(s: string, p: nat, w: string)
    requires Has(s, p, w) && AllWhiteSpace(w) && p + |w| < |s| && s[p + |w|] == '<'
    ensures Clear(s, p)
  {
    forall i | p <= i < p + |w| ensures IsWhiteSpace(s[i]) {
      HasAt(s, p, w, i - p);
    }
    SkipIsUnique(s, p, p + |w|);
  }

  lemma {:induction false} NodeParses(s: string, p: nat, t: Tree, compact: bool, indent: nat, at: Layout, limit: nat,
                                      depth: nat, first: bool)
    returns (n: Node, endTag: Option<Slice>)
    requires at.entities && NormalTree(t, limit) && depth + limit < MAX_DEPTH
    requires Has(s, p, RenderNode(t, compact, indent, at).0)
    requires IsText(t) ==> TagBehind(s, p + |RenderNode(t, compact, indent, at).0|)
    ensures IsNext(s, p, first, depth, n, endTag, p + |RenderNode(t, compact, indent, at).0|, t)
    decreases t, 2
  {
    match t {
      case TreeLeaf(kind, v) =>
        n := LeafIsNext(s, p, first, kind, v, compact, indent, at, depth);
        endTag := None;
      case TreeElement(_, _, _) =>
        n, endTag := ElementParses(s, p, t, compact, indent, at, limit, depth, first);
    }
  }

  lemma {:induction false} ElementParses(s: string, p: nat, t: Tree, compact: bool, indent: nat, at: Layout,
                                         limit: nat, depth: nat, first: bool)
    returns (n: Node, endTag: Option<Slice>)
    requires at.entities && t.TreeElement? && NormalTree(t, limit) && depth + limit < MAX_DEPTH
    requires Has(s, p, RenderNode(t, compact, indent, at).0)
    ensures IsNext(s, p, first, depth, n, endTag, p + |RenderNode(t, compact, indent, at).0|, t)
    decreases t, 1
  {
    hide Identify, ParseNode, ReadSlice, ReadAttrs, LineAt, RenderAttrs, Has, NormalAttrs, ParseHead, IsNext,
         RenderNode,
      ParseElement, NameOf, RenderRest, HeadAt;
    var r, next, tail := ElementHead(s, p, t, compact, indent, at, limit, depth, first);
    UnfoldHead(s, p, t, compact, indent, at, depth, first, r, next, tail);
    var line := LineAt(s, p);
    var nameSlice := Slice(p + 1, p + 1 + |t.name|, NAME_FLAGS);
    if t.children == [] {
      n, endTag := Element(nameSlice, r, Closed, [], line), None;
      ClosedElement(s, p + 1, line, depth, nameSlice, r, next);
    } else {
      var nodes, tag := ChildrenParse(s, next, t, compact, indent, AfterLead(compact, at), limit, depth);
      n, endTag := Element(nameSlice, r, Open, nodes, line), Some(tag);
      OpenElement(s, p + 1, line, depth, nameSlice, r, next, nodes, next + |tail|, tag);
    }
    ElementIsNext(s, p, first, depth, n, endTag, next + |tail|, t, line);
  }

  /** The element printed at `p` is found and its tag is read up to `next`; `tail` is what was printed behind. */
  predicate HeadAt(s: string, p: nat, t: Tree, compact: bool, indent: nat, at: Layout, depth: nat, first: bool,
                   r: seq<Attr>, next: nat, tail: string)
    requires t.TreeElement?
  {
    var close := if t.children == [] then "/>" else ">";
    var name := Slice(p + 1, p + 1 + |t.name|, NAME_FLAGS);
    && p + 1 < |s| && Identify(s, p, first, OPTIONS) == FoundElement(LineAt(s, p), p + 1)
    && ParseNode(s, p, depth, OPTIONS, FoundElement(LineAt(s, p), p + 1))
       == ParseElement(s, p + 1, LineAt(s, p), depth, OPTIONS)
    && ParseHead(s, p + 1, LineAt(s, p), OPTIONS) == Head(name, r, if t.children == [] then Closed else Open, next)
    && ReadAttrs(s, r) == t.attrs && NameOf(s, name) == ReadSlice(s, name) == t.name
    && RenderRest(t.name, t.children, compact, indent, AfterLead(compact, at)).0 == close + tail
    && Has(s, next, tail) && next + |tail| == p + |RenderNode(t, compact, indent, at).0|
  }

  lemma ElementHead(s: string, p: nat, t: Tree, compact: bool, indent: nat, at: Layout, limit: nat, depth: nat,
                    first: bool)
    returns (r: seq<Attr>, next: nat, tail: string)
    requires at.entities && t.TreeElement? && NormalTree(t, limit) && Has(s, p, RenderNode(t, compact, indent, at).0)
    ensures HeadAt(s, p, t, compact, indent, at, depth, first, r, next, tail)
  {
    hide Identify, ParseNode, ReadSlice, ReadAttrs, LineAt, RenderAttrs, Has, NormalAttrs, ParseHead, RenderNode,
      ParseElement, NameOf;
    var rest := RenderRest(t.name, t.children, compact, indent, AfterLead(compact, at)).0;
    var close := if t.children == [] then "/>" else ">";
    tail := rest[|close|..];
    ElementText(t, compact, indent, at);
    ElementSplit(s, p, t.name, t.attrs, rest, close);
    ElementFound(s, p, first);
    r := HeadParses(s, p + 1, t.name, t.attrs, close, LineAt(s, p));
    next := p + 1 + |t.name| + |RenderAttrs(t.attrs)| + |close|;
    ElementNode(s, p, depth, LineAt(s, p));
    ElementLength(t, compact, indent, at);
  }

  lemma UnfoldHead(s: string, p: nat, t: Tree, compact: bool, indent: nat, at: Layout, depth: nat, first: bool,
                   r: seq<Attr>, next: nat, tail: string)
    requires t.TreeElement? && HeadAt(s, p, t, compact, indent, at, depth, first, r, next, tail)
    ensures p + 1 < |s| && Identify(s, p, first, OPTIONS) == FoundElement(LineAt(s, p), p + 1)
    ensures ParseNode(s, p, depth, OPTIONS, FoundElement(LineAt(s, p), p + 1))
            == ParseElement(s, p + 1, LineAt(s, p), depth, OPTIONS)
    ensures var name := Slice(p + 1, p + 1 + |t.name|, NAME_FLAGS);
            && ParseHead(s, p + 1, LineAt(s, p), OPTIONS)
               == Head(name, r, if t.children == [] then Closed else Open, next)
            && ReadAttrs(s, r) == t.attrs && NameOf(s, name) == ReadSlice(s, name) == t.name
    ensures Has(s, next, tail) && next + |tail| == p + |RenderNode(t, compact, indent, at).0|
    ensures t.children == [] ==> tail == ""
    ensures t.children != [] ==>
              tail == RenderRest(t.name, t.children, compact, indent, AfterLead(compact, at)).0[1..]
  {
    hide Identify, ParseNode, ReadSlice, ReadAttrs, LineAt, RenderAttrs, Has, ParseHead, RenderNode, ParseElement,
         NameOf,
      RenderList;
  }

  lemma ElementIsNext(s: string, p: nat, first: bool, depth: nat, n: Node, endTag: Option<Slice>, q: nat, t: Tree,
                      line: nat)
    requires p + 1 < |s| && Identify(s, p, first, OPTIONS) == FoundElement(line, p + 1)
    requires ParseNode(s, p, depth, OPTIONS, FoundElement(line, p + 1)) == NodeOk(n, q, endTag)
    requires n.Element? && t.TreeElement? && n.closing != ClosingTag && !Mismatch(s, n, endTag)
    requires ReadSlice(s, n.name) == t.name && ReadAttrs(s, n.attrs) == t.attrs
             && ReadNodes(s, n.children) == t.children
    ensures IsNext(s, p, first, depth, n, endTag, q, t)
  {
    hide ParseNode, Identify, Mismatch, ReadSlice, ReadAttrs, ReadNodes;
  }

  lemma ElementText(t: Tree, compact: bool, indent: nat, at: Layout)
    requires at.entities && t.TreeElement?
    ensures RenderNode(t, compact, indent, at).0 == "<" + t.name + RenderAttrs(t.attrs)
              + RenderRest(t.name, t.children, compact, indent, AfterLead(compact, at)).0
  {
    hide RenderAttrs, RenderRest;
  }

  lemma ElementLength(t: Tree, compact: bool, indent: nat, at: Layout)
    requires at.entities && t.TreeElement?
    ensures |RenderNode(t, compact, indent, at).0|
         == 1 + |t.name| + |RenderAttrs(t.attrs)|
            + |RenderRest(t.name, t.children, compact, indent, AfterLead(compact, at)).0|
  {
    hide RenderAttrs, RenderRest;
  }

  lemma ElementSplit(s: string, p: nat, name: string, attrs: seq<(string, string)>, rest: string, close: string)
    requires ValidName(name) && close <= rest && Has(s, p, "<" + name + RenderAttrs(attrs) + rest)
    ensures p + 1 < |s| && s[p] == '<' && IsNameStartChar(s[p + 1])
    ensures Has(s, p + 1, name + (RenderAttrs(attrs) + close))
    ensures Has(s, p + 1 + |name| + |RenderAttrs(attrs)| + |close|, rest[|close|..])
  {
    hide RenderAttrs, Has;
    var ra, tail := RenderAttrs(attrs), rest[|close|..];
    assert rest == close + tail;
    assert "<" + name + ra + rest == "<" + (name + (ra + close)) + tail;
    HasConcat(s, p, "<" + (name + (ra + close)), tail);
    HasConcat(s, p, "<", name + (ra + close));
    HasInside(s, p + 1, name + (ra + close));
    HasAt(s, p, "<", 0);
    HasAt(s, p + 1, name + (ra + close), 0);
  }

  lemma ClosedElement(s: string, p: nat, line: nat, depth: nat, name: Slice, attrs: seq<Attr>, next: nat)
    requires p <= |s| && ParseHead(s, p, line, OPTIONS) == Head(name, attrs, Closed, next)
    ensures ParseElement(s, p, line, depth, OPTIONS) == NodeOk(Element(name, attrs, Closed, [], line), next, None)
  {
    hide ParseHead;
  }

  lemma OpenElement(s: string, p: nat, line: nat, depth: nat, name: Slice, attrs: seq<Attr>, next: nat,
                    children: seq<Node>, after: nat, tag: Slice)
    requires p <= |s| && ParseHead(s, p, line, OPTIONS) == Head(name, attrs, Open, next) && next < |s|
    requires EnterList(s, next, depth, false, OPTIONS) == ListClosed(children, after, tag)
    ensures ParseElement(s, p, line, depth, OPTIONS)
         == NodeOk(Element(name, attrs, Open, children, line), after, Some(tag))
  {
    hide ParseHead, EnterList;
  }

  lemma ElementNode(s: string, p: nat, depth: nat, line: nat)
    requires p + 1 < |s|
    ensures ParseNode(s, p, depth, OPTIONS, FoundElement(line, p + 1)) == ParseElement(s, p + 1, line, depth, OPTIONS)
  {
    hide ParseElement;
  }

  lemma ChildrenSplit(s: string, p: nat, inner: string, lead: string, name: string)
    requires Has(s, p, inner + lead + "</" + name + ">")
    ensures Has(s, p, inner) && Has(s, p + |inner|, lead) && Has(s, p + |inner| + |lead|, "</" + name + ">")
    ensures TagBehind(s, p + |inner| + |lead|) && p < |s|
  {
    hide Has;
    assert inner + lead + "</" + name + ">" == inner + lead + ("</" + name + ">");
    HasConcat(s, p, inner + lead, "</" + name + ">");
    HasConcat(s, p, inner, lead);
    HasInside(s, p + |inner| + |lead|, "</" + name + ">");
    HasAt(s, p + |inner| + |lead|, "</" + name + ">", 0);
  }

  lemma RestTail(name: string, children: seq<Tree>, compact: bool, indent: nat, at: Layout)
    requires children != []
    ensures var (inner, at') := RenderList(children, compact, indent + 1, at);
            RenderRest(name, children, compact, indent, at).0[1..]
            == inner + CloseLead(compact, indent, at') + "</" + name + ">"
  {
    hide RenderList, CloseLead;
    var (inner, at') := RenderList(children, compact, indent + 1, at);
    assert ">" + inner + CloseLead(compact, indent, at') + "</" + name + ">"
        == ">" + (inner + CloseLead(compact, indent, at') + "</" + name + ">");
  }

  /** After a text no white space comes before the close tag. */
  lemma ChildrenBehind(s: string, q: nat, ts: seq<Tree>, compact: bool, indent: nat, at: Layout)
    requires ts != []
    requires var lead := CloseLead(compact, indent, RenderList(ts, compact, indent + 1, at).1);
             Has(s, q, lead) && TagBehind(s, q + |lead|)
    ensures ListBehind(s, ts, q)
    ensures Clear(s, q + |CloseLead(compact, indent, RenderList(ts, compact, indent + 1, at).1)|)
  {
    hide RenderList, Has, Clear, CloseLead;
    var at' := RenderList(ts, compact, indent + 1, at).1;
    var lead := CloseLead(compact, indent, at');
    ClearAfterBlanks(s, q, lead);
    HasEmpty(s, q + |lead|);
    ClearAfterBlanks(s, q + |lead|, "");
    if IsText(ts[|ts| - 1]) {
      LastTextKeepsDepth(ts, compact, indent + 1, at);
      NoCloseLead(compact, indent, at');
    }
  }

  lemma NoCloseLead(compact: bool, indent: nat, at: Layout)
    requires at.textDepth >= 0
    ensures CloseLead(compact, indent, at) == ""
  {
  }

  /** The printed children of an element, up to its close tag. */
  lemma {:induction false} ChildrenParse(s: string, p: nat, t: Tree, compact: bool, indent: nat, at: Layout,
                                         limit: nat, depth: nat)
    returns (nodes: seq<Node>, tag: Slice)
    requires at.entities && t.TreeElement? && t.children != [] && NormalTree(t, limit) && depth + limit < MAX_DEPTH
    requires compact || !at.first
    requires Has(s, p, RenderRest(t.name, t.children, compact, indent, at).0[1..])
    ensures p < |s|
    ensures EnterList(s, p, depth, false, OPTIONS)
         == ListClosed(nodes, p + |RenderRest(t.name, t.children, compact, indent, at).0[1..]|, tag)
    ensures ReadNodes(s, nodes) == t.children && NameOf(s, tag) == t.name
    decreases t, 0
  {
    hide ParseList, RenderList, Has, NameOf, ReadNodes, SkipWhiteSpace, Indent, RenderRest, CloseLead, Clear;
    var (inner, at') := RenderList(t.children, compact, indent + 1, at);
    var lead := CloseLead(compact, indent, at');
    RestTail(t.name, t.children, compact, indent, at);
    ChildrenSplit(s, p, inner, lead, t.name);
    var q := p + |inner|;
    var q' := q + |lead|;
    ChildrenBehind(s, q, t.children, compact, indent, at);
    nodes := ListParses(s, p, t.children, compact, indent + 1, at, limit - 1, depth + 1, false, true, []);
    assert [] + nodes == nodes;
    ListSkipsBlanks(s, q, lead, depth + 1, false, false, nodes);
    CloseParses(s, q', t.name, depth + 1, false, nodes);
    tag := Slice(q' + 2, q' + 2 + |t.name|, NAME_FLAGS);
  }

  /** A printed list is parsed back node by node. */
  lemma {:induction false} ListParses(s: string, p: nat, ts: seq<Tree>, compact: bool, indent: nat, at: Layout,
                                      limit: nat, depth: nat, doc: bool, first: bool, sofar: seq<Node>)
    returns (nodes: seq<Node>)
    requires NormalList(ts, compact, indent, at, limit) && depth + limit < MAX_DEPTH
    requires DeclarationsLead(ts, doc, sofar)
    requires Has(s, p, RenderList(ts, compact, indent, at).0)
    requires ListBehind(s, ts, p + |RenderList(ts, compact, indent, at).0|)
    ensures ParseList(s, p, depth, doc, OPTIONS, first, sofar)
         == ParseList(s, p + |RenderList(ts, compact, indent, at).0|, depth, doc, OPTIONS, false, sofar + nodes)
    ensures ReadNodes(s, nodes) == ts
    decreases ts
  {
    if ts == [] {
      nodes := [];
      EmptyList(compact, indent, at);
      assert sofar + nodes == sofar;
      FirstIsIrrelevant(s, p, depth, doc, sofar);
    } else {
      nodes := MoreParses(s, p, ts, compact, indent, at, limit, depth, doc, first, sofar);
    }
  }

  lemma {:induction false} MoreParses(s: string, p: nat, ts: seq<Tree>, compact: bool, indent: nat, at: Layout,
                                      limit: nat, depth: nat, doc: bool, first: bool, sofar: seq<Node>)
    returns (nodes: seq<Node>)
    requires ts != [] && NormalList(ts, compact, indent, at, limit) && depth + limit < MAX_DEPTH
    requires DeclarationsLead(ts, doc, sofar)
    requires Has(s, p, RenderList(ts, compact, indent, at).0)
    requires ListBehind(s, ts, p + |RenderList(ts, compact, indent, at).0|)
    ensures ParseList(s, p, depth, doc, OPTIONS, first, sofar)
         == ParseList(s, p + |RenderList(ts, compact, indent, at).0|, depth, doc, OPTIONS, false, sofar + nodes)
    ensures ReadNodes(s, nodes) == ts
    decreases ts, 0
  {
    hide ParseList, ParseNode, Identify, RenderNode, RenderList, Has, ReadNode, NormalTree, SkipWhiteSpace, Mismatch,
      NodeLead, Trail, IsNext, NormalList, ListBehind, DeclarationsLead;
    var (node, at') := RenderNode(ts[0], compact, indent, at);
    var lead, trail := NodeLead(ts[0], compact, indent, at), Trail(ts[0], compact, indent);
    var rest := RenderList(ts[1..], compact, indent, at').0;
    var n, endTag := FirstParses(s, p, ts, compact, indent, at, limit, depth, doc, first, sofar);
    RestIsNormal(ts, compact, indent, at, limit);
    var p3 := p + |lead| + |node| + |trail|;
    var r := ListParses(s, p3, ts[1..], compact, indent, at', limit, depth, doc, false, sofar + [n]);
    nodes := [n] + r;
    assert sofar + [n] + r == sofar + nodes;
    assert nodes[1..] == r && ts == [ts[0]] + ts[1..];
  }

  /** The first of the printed nodes, with the white space around it, is one turn of the parser's list. */
  lemma {:induction false} FirstParses(s: string, p: nat, ts: seq<Tree>, compact: bool, indent: nat, at: Layout,
                                       limit: nat, depth: nat, doc: bool, first: bool, sofar: seq<Node>)
    returns (n: Node, endTag: Option<Slice>)
    requires ts != [] && NormalList(ts, compact, indent, at, limit) && depth + limit < MAX_DEPTH
    requires DeclarationsLead(ts, doc, sofar)
    requires Has(s, p, RenderList(ts, compact, indent, at).0)
    requires ListBehind(s, ts, p + |RenderList(ts, compact, indent, at).0|)
    ensures var (node, at') := RenderNode(ts[0], compact, indent, at);
            var q := p + |NodeLead(ts[0], compact, indent, at)| + |node| + |Trail(ts[0], compact, indent)|;
            var rest := RenderList(ts[1..], compact, indent, at').0;
            && ParseList(s, p, depth, doc, OPTIONS, first, sofar)
                == ParseList(s, q, depth, doc, OPTIONS, false, sofar + [n])
            && ReadNode(s, n) == ts[0] && Has(s, q, rest) && ListBehind(s, ts[1..], q + |rest|)
            && |RenderList(ts, compact, indent, at).0| == q - p + |rest|
            && DeclarationsLead(ts[1..], doc, sofar + [n])
    decreases ts, -1
  {
    hide ParseList, ParseNode, Identify, RenderNode, RenderList, Has, ReadNode, NormalTree, SkipWhiteSpace, Mismatch,
      DeclarationsLead, NodeLead, Trail;
    var (node, at') := RenderNode(ts[0], compact, indent, at);
    var lead, trail := NodeLead(ts[0], compact, indent, at), Trail(ts[0], compact, indent);
    ListSplit(s, p, ts, compact, indent, at);
    var p1 := p + |lead|;
    var p2 := p1 + |node|;
    var p3 := p2 + |trail|;
    FirstStaysFalse(ts[0], compact, indent, at);
    RestIsNormal(ts, compact, indent, at, limit);
    EmptyList(compact, indent, at');
    TrailIsBlank(ts[0], compact, indent);
    ListStarts(s, p3, ts[1..], compact, indent, at', IsText(ts[0]));
    SkipLead(s, p, ts[0], compact, indent, at, depth, doc, first, sofar);
    n, endTag := NodeParses(s, p1, ts[0], compact, indent, at, limit, depth, first);
    DeclarationsStep(ts, doc, sofar, n);
    ListStep(s, p1, depth, doc, first, sofar, n, p2, endTag);
    if trail != "" {
      ListSkipsBlanks(s, p2, trail, depth, doc, false, sofar + [n]);
    }
  }

  lemma TrailIsBlank(t: Tree, compact: bool, indent: nat)
    ensures Trail(t, compact, indent) != "" ==> indent == 0 && t.TreeElement?
  {
  }

  lemma SkipLead(s: string, p: nat, t: Tree, compact: bool, indent: nat, at: Layout, depth: nat, doc: bool,
                 first: bool, sofar: seq<Node>)
    requires var lead := NodeLead(t, compact, indent, at);
             Has(s, p, lead) && Has(s, p + |lead|, RenderNode(t, compact, indent, at).0)
    ensures var p1 := p + |NodeLead(t, compact, indent, at)|;
            p1 <= |s| && ParseList(s, p, depth, doc, OPTIONS, first, sofar)
                == ParseList(s, p1, depth, doc, OPTIONS, first, sofar)
  {
    hide ParseList, Has, RenderNode, SkipWhiteSpace;
    var lead := NodeLead(t, compact, indent, at);
    HasInside(s, p, lead);
    if !IsText(t) {
      var node := RenderNode(t, compact, indent, at).0;
      RenderNodeStarts(t, compact, indent, at);
      HasInside(s, p + |lead|, node);
      HasAt(s, p + |lead|, node, 0);
      HasEmpty(s, p + |lead|);
      ClearAfterBlanks(s, p + |lead|, "");
      ListSkipsBlanks(s, p, lead, depth, doc, first, sofar);
    }
  }

  lemma RestIsNormal(ts: seq<Tree>, compact: bool, indent: nat, at: Layout, limit: nat)
    requires ts != [] && NormalList(ts, compact, indent, at, limit)
    ensures NormalTree(ts[0], limit)
    ensures NormalList(ts[1..], compact, indent, RenderNode(ts[0], compact, indent, at).1, limit)
    ensures |ts| > 1 ==> !(IsText(ts[0]) && IsText(ts[1]))
  {
    hide NormalTree, RenderNode;
    FirstStaysFalse(ts[0], compact, indent, at);
    NodeKeepsEntities(ts[0], compact, indent, at);
  }

  lemma DeclarationsStep(ts: seq<Tree>, doc: bool, sofar: seq<Node>, n: Node)
    requires ts != [] && DeclarationsLead(ts, doc, sofar) && (IsDeclaration(n) <==> IsDecl(ts[0]))
    ensures IsDeclaration(n) ==> DeclarationAllowed(doc, sofar)
    ensures DeclarationsLead(ts[1..], doc, sofar + [n])
  {
    var rest := ts[1..];
    forall i | 0 <= i < |rest| && IsDecl(rest[i])
      ensures doc && IsDecl(ts[0]) && (forall j | 0 <= j < i :: IsDecl(rest[j])) && IsDeclaration(n)
    {
      assert IsDecl(ts[i + 1]);
      forall j | 0 <= j < i ensures IsDecl(rest[j]) {
        assert IsDecl(ts[j + 1]);
      }
    }
  }

  /** Parsing the printer's output, compact or pretty, gives the printed document back. */
  lemma DocumentRoundTrip(d: TreeDocument, compact: bool)
    requires NormalDocument(d)
    ensures var s := RenderDocument(d, compact);
            var r := ParseDocument(s, OPTIONS);
            r.error == Success && r.bom == d.bom && ReadNodes(s, r.nodes) == d.children
  {
    hide ParseList, RenderList, Has, ReadNodes, NormalTree, SkipWhiteSpace, Clear;
    var s := RenderDocument(d, compact);
    var at := Layout(-1, true);
    var body := RenderList(d.children, compact, 0, at).0;
    var bom := if d.bom then BOM else "";
    assert s == bom + body;
    HasWhole(s);
    HasConcat(s, 0, bom, body);
    ClearAtEnd(s);
    ListStarts(s, |bom|, d.children, compact, 0, at, false);
    var nodes := ListParses(s, |bom|, d.children, compact, 0, at, 498, 1, true, true, []);
    assert [] + nodes == nodes;
    BodyStarts(d.children, compact);
    DocumentStart(s, bom, body);
    EndOfList(s, 1, true, nodes);
  }

  lemma HasWhole(s: string)
    ensures Has(s, 0, s)
  {
  }

  lemma ClearAtEnd(s: string)
    ensures Clear(s, |s|)
  {
  }

  lemma {:induction false} EndOfList(s: string, depth: nat, doc: bool, nodes: seq<Node>)
    ensures ParseList(s, |s|, depth, doc, OPTIONS, false, nodes) == ListEnd(nodes)
  {
  }

  /** The byte order mark is recognised exactly when it was printed. */
  lemma DocumentStart(s: string, bom: string, body: string)
    requires s == bom + body && (bom == "" || bom == BOM) && body != "" && body[0] == '<'
    ensures SkipWhiteSpace(s, 0) == 0 && |bom| < |s|
    ensures Has(s, 0, BOM) <==> bom == BOM
  {
    if bom == "" {
      NotHas(s, 0, BOM, 0);
    } else {
      assert s[0..|BOM|] == BOM;
    }
  }

  lemma BodyStarts(ts: seq<Tree>, compact: bool)
    requires ts != [] && !IsText(ts[0])
    ensures var body := RenderList(ts, compact, 0, Layout(-1, true)).0; body != "" && body[0] == '<'
  {
    hide RenderNode;
    RenderNodeStarts(ts[0], compact, 0, Layout(-1, true));
    assert NodeLead(ts[0], compact, 0, Layout(-1, true)) == "";
  }
}
