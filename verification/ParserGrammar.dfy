/** The parser accepts exactly the documents of the grammar, with exactly the grammar's nodes. */
module ParserGrammar {
  import opened Chars
  import opened Decode
  import opened Syntax
  import opened Grammar

  // ----- Tags -----

  lemma ParsesName(s: string, name: Slice)
    requires name.start <= |s|
    ensures IsName(s, name) <==> name.flags == NAME_FLAGS && ParseName(s, name.start) == Some(name.end)
  {
    if IsName(s, name) { NameEndIs(s, name.start + 1, name.end); }
  }

  lemma HasOne(s: string, i: nat, c: char)
    ensures Has(s, i, [c]) <==> i < |s| && s[i] == c
  {
    if i < |s| { assert s[i..i + 1] == [s[i]]; }
  }

  lemma ParsesValue(s: string, p: nat, c: char, e: nat)
    requires p <= |s|
    ensures FindTag(s, p, [c]) == Some(e) <==> p <= e < |s| && s[e] == c && forall i | p <= i < e :: s[i] != c
  {
    if FindTag(s, p, [c]) == Some(e) {
      HasOne(s, e, c);
      forall i | p <= i < e ensures s[i] != c { HasOne(s, i, c); }
    }
    if p <= e < |s| && s[e] == c && forall i | p <= i < e :: s[i] != c {
      HasOne(s, e, c);
      forall i | p <= i < e ensures !Has(s, i, [c]) { HasOne(s, i, c); }
      FindTagIs(s, p, [c], e);
    }
  }

  lemma ParsesAttr(s: string, p: nat, a: Attr, next: nat, opts: Options)
    requires p <= |s|
    ensures ParseAttr(s, p, opts) == Some((a, next))
            <==> IsAttr(s, a, opts) && a.name.start == p && next == a.value.end + 1
  {
    hide NameEnd, SkipWhiteSpace, LineAt, FindTag, IsName, ParseName;
    var name := a.name;
    if name.start == p {
      ParsesName(s, name);
      NameIn(s, name);
    }
    if ParseName(s, p).Some? {
      var e := ParseName(s, p).value;
      ParsesName(s, Slice(p, e, NAME_FLAGS));
      var eq := SkipWhiteSpace(s, e);
      if eq < |s| {
        var quote := SkipWhiteSpace(s, eq + 1);
        if quote < |s| {
          ParsesValue(s, quote + 1, s[quote], a.value.end);
        }
      }
    }
  }

  lemma NameIn(s: string, name: Slice)
    ensures IsName(s, name) ==> name.start < name.end <= |s|
  {
  }

  lemma DistinctMore(s: string, sofar: seq<Attr>, a: Attr)
    ensures DistinctNames(s, sofar + [a]) <==> DistinctNames(s, sofar) && !HasName(s, sofar, NameOf(s, a.name))
  {
    hide NameOf;
    var all := sofar + [a];
    if DistinctNames(s, all) {
      forall i, j | 0 <= i < j < |sofar| ensures NameOf(s, sofar[i].name) != NameOf(s, sofar[j].name) {
        assert all[i] == sofar[i] && all[j] == sofar[j];
      }
      forall i | 0 <= i < |sofar| ensures NameOf(s, sofar[i].name) != NameOf(s, a.name) {
        assert all[i] == sofar[i] && all[|sofar|] == a;
      }
    }
  }

  lemma ParsesEnd(s: string, q: nat)
    requires q < |s|
    ensures Has(s, q, "/>") <==> s[q] == '/' && ByteAt(s, q + 1) == '>' && q + 1 < |s|
  {
    if Has(s, q, "/>") {
      HasAt(s, q, "/>", 0);
      HasAt(s, q, "/>", 1);
    }
    if q + 1 < |s| { assert s[q..q + 2] == [s[q], s[q + 1]]; }
  }

  lemma {:induction false} AttributesUnfold(s: string, p: nat, opts: Options, line: nat, sofar: seq<Attr>)
    requires p <= |s|
    ensures var q := SkipWhiteSpace(s, p);
            ParseAttributes(s, p, opts, line, sofar) ==
            if q < |s| && IsNameStartChar(s[q]) then
              match ParseAttr(s, q, opts)
              case None => AttrsFail(ParsingAttribute, LineAt(s, q))
              case Some((attr, next)) =>
                if HasName(s, sofar, NameOf(s, attr.name)) then AttrsFail(ParsingAttribute, LineAt(s, q))
                else ParseAttributes(s, next, opts, line, sofar + [attr])
            else if EndsTag(s, q, false, q + 1) then AttrsOk(sofar, false, q + 1)
            else if EndsTag(s, q, true, q + 2) then AttrsOk(sofar, true, q + 2)
            else AttrsFail(ParsingElement, line)
  {
    hide ParseAttr, LineAt, HasName, NameOf, SkipWhiteSpace, Has;
    var q := SkipWhiteSpace(s, p);
    if q < |s| { ParsesEnd(s, q); }
  }

  /** Attributes that were parsed are attributes of the grammar, with distinct names. */
  lemma {:induction false} AttrsSound(s: string, p: nat, opts: Options, line: nat, sofar: seq<Attr>)
    returns (rest: seq<Attr>, m: nat)
    requires p <= |s| && ParseAttributes(s, p, opts, line, sofar).AttrsOk? && DistinctNames(s, sofar)
    ensures var r := ParseAttributes(s, p, opts, line, sofar);
            r.attrs == sofar + rest && DistinctNames(s, r.attrs)
            && AreAttrs(s, p, m, rest, opts) && EndsTag(s, m, r.closed, r.next)
    decreases |s| - p
  {
    hide ParseAttributes, ParseAttr, LineAt, HasName, NameOf, SkipWhiteSpace, EndsTag, DistinctNames, IsAttr;
    AttributesUnfold(s, p, opts, line, sofar);
    var q := SkipWhiteSpace(s, p);
    if q < |s| && IsNameStartChar(s[q]) {
      var (attr, next) := ParseAttr(s, q, opts).value;
      ParsesAttr(s, q, attr, next, opts);
      DistinctMore(s, sofar, attr);
      var more;
      more, m := AttrsSound(s, next, opts, line, sofar + [attr]);
      rest := [attr] + more;
      assert rest[1..] == more && sofar + [attr] + more == sofar + rest;
    } else {
      rest, m := [], q;
      assert sofar + [] == sofar;
    }
  }

  /** Attributes of the grammar, with distinct names, are parsed. */
  lemma {:induction false} AttrsComplete(s: string, p: nat, opts: Options, line: nat, sofar: seq<Attr>, rest: seq<Attr>,
                                         m: nat, closed: bool, next: nat)
    requires AreAttrs(s, p, m, rest, opts) && EndsTag(s, m, closed, next) && DistinctNames(s, sofar + rest)
    ensures ParseAttributes(s, p, opts, line, sofar) == AttrsOk(sofar + rest, closed, next)
    decreases rest
  {
    hide ParseAttributes, ParseAttr, LineAt, HasName, NameOf, SkipWhiteSpace, EndsTag, DistinctNames, IsAttr;
    AttributesUnfold(s, p, opts, line, sofar);
    EndMark(s, m, closed, next);
    if rest == [] {
      assert sofar + rest == sofar;
    } else {
      var a := rest[0];
      AttrStarts(s, a, opts);
      ParsesAttr(s, a.name.start, a, a.value.end + 1, opts);
      assert sofar + rest == (sofar + [a]) + rest[1..];
      DistinctPrefix(s, sofar + [a], rest[1..]);
      DistinctMore(s, sofar, a);
      AttrsComplete(s, a.value.end + 1, opts, line, sofar + [a], rest[1..], m, closed, next);
    }
  }

  lemma EndMark(s: string, m: nat, closed: bool, next: nat)
    requires EndsTag(s, m, closed, next)
    ensures m < |s| && !IsNameStartChar(s[m])
    ensures if closed then next == m + 2 && !EndsTag(s, m, false, m + 1) else next == m + 1
  {
    if Has(s, m, "/>") { HasAt(s, m, "/>", 0); }
  }

  lemma AttrStarts(s: string, a: Attr, opts: Options)
    requires IsAttr(s, a, opts)
    ensures a.name.start < |s| && IsNameStartChar(s[a.name.start])
  {
  }

  lemma DistinctPrefix(s: string, a: seq<Attr>, b: seq<Attr>)
    requires DistinctNames(s, a + b)
    ensures DistinctNames(s, a)
  {
    forall i, j | 0 <= i < j < |a| ensures NameOf(s, a[i].name) != NameOf(s, a[j].name) {
      assert (a + b)[i] == a[i] && (a + b)[j] == a[j];
    }
  }

  lemma HeadSound(s: string, p: nat, line: nat, opts: Options)
    requires p <= |s| && ParseHead(s, p, line, opts).Head?
    ensures var h := ParseHead(s, p, line, opts); IsTag(s, p, h.next, h.name, h.attrs, h.closing, opts)
  {
    hide SkipWhiteSpace, ParseName, ParseAttributes, DistinctNames, AreAttrs, IsName;
    var h := ParseHead(s, p, line, opts);
    var b := SkipWhiteSpace(s, p);
    ParsesName(s, h.name);
    NoDistinct(s);
    var rest, m := AttrsSound(s, h.name.end, opts, line, []);
    assert [] + rest == rest;
    EndMark(s, m, h.closing == Closed, h.next);
    NameIn(s, h.name);
  }

  lemma NoDistinct(s: string)
    ensures DistinctNames(s, [])
  {
  }

  lemma HeadComplete(s: string, p: nat, q: nat, name: Slice, attrs: seq<Attr>, closing: Closing, line: nat,
                     opts: Options)
    requires IsTag(s, p, q, name, attrs, closing, opts)
    ensures ParseHead(s, p, line, opts) == Head(name, attrs, closing, q)
  {
    hide SkipWhiteSpace, ParseName, ParseAttributes, DistinctNames, AreAttrs, IsName;
    var b := SkipWhiteSpace(s, p);
    var m: nat :| AreAttrs(s, name.end, m, attrs, opts) && EndsTag(s, m, closing == Closed, q)
               && (closing != Closed ==> closing == if s[b] == '/' then ClosingTag else Open);
    NameIn(s, name);
    ParsesName(s, name);
    assert [] + attrs == attrs;
    AttrsComplete(s, name.end, opts, line, [], attrs, m, closing == Closed, q);
  }

  // ----- Nodes -----

  lemma KindStarts(s: string, b: nat)
    ensures KindAt(s, b).Some? ==> b < |s| && s[b] == '<'
    ensures Has(s, b, "</") ==> KindAt(s, b) == None
    ensures Has(s, b, "</") <==> b < |s| && s[b] == '<' && ByteAt(s, b + 1) == '/' && b + 1 < |s|
  {
    hide Has;
    FirstTwo(s, b, "<?");
    FirstTwo(s, b, "<!--");
    FirstTwo(s, b, "<![CDATA[");
    FirstTwo(s, b, "<!");
    FirstTwo(s, b, "</");
    TwoAre(s, b, "</");
  }

  lemma FirstTwo(s: string, b: nat, x: string)
    requires |x| >= 2
    ensures Has(s, b, x) ==> b + 1 < |s| && s[b] == x[0] && s[b + 1] == x[1]
  {
    if Has(s, b, x) {
      HasAt(s, b, x, 0);
      HasAt(s, b, x, 1);
    }
  }

  lemma TwoAre(s: string, b: nat, x: string)
    requires |x| == 2
    ensures b + 1 < |s| && s[b] == x[0] && s[b + 1] == x[1] ==> Has(s, b, x)
  {
    if b + 1 < |s| { assert s[b..b + 2] == [s[b], s[b + 1]]; }
  }

  /** What stands behind the white space at `p` decides the kind of the next node. */
  lemma IdentifyIs(s: string, p: nat, first: bool, opts: Options)
    requires p <= |s|
    ensures var b := SkipWhiteSpace(s, p);
            Identify(s, p, first, opts) ==
            if b == |s| then Nothing
            else if KindAt(s, b).Some? then
              FoundLeaf(KindAt(s, b).value, LineAt(s, b), b + |Marks(KindAt(s, b).value).0|)
            else if s[b] != '<' then FoundLeaf(Text, LineAt(s, b), p)
            else if PedanticText(s, p, b, first, opts) then FoundLeaf(Text, LineAt(s, p), p)
            else FoundElement(LineAt(s, b), b + 1)
  {
    hide Has, SkipWhiteSpace, LineAt;
    var b := SkipWhiteSpace(s, p);
    KindStarts(s, b);
    HasOne(s, b, '<');
    assert ['<'] == "<";
  }

  lemma RunsToIs(s: string, value: Slice, tag: string)
    requires value.start <= |s| && tag != ""
    ensures RunsTo(s, value, tag) <==> FindTag(s, value.start, tag) == Some(value.end)
  {
    if RunsTo(s, value, tag) { FindTagIs(s, value.start, tag, value.end); }
  }

  /** The parser and the printer have the marks of the grammar. */
  lemma MarksAre(kind: Kind)
    ensures Header(kind) == Marks(kind).0 && EndTag(kind) == Marks(kind).1
  {
  }

  /** Leaves: what the leaf parser accepts. */
  lemma ParsesLeaf(s: string, kind: Kind, at: nat, line: nat, opts: Options, n: Node, q: nat)
    requires at <= |s|
    ensures ParseLeaf(s, kind, at, line, opts) == NodeOk(n, q, None)
        <==> && n.Leaf? && n.kind == kind && n.line == line && n.value.start == at
             && LeafEvaluated(kind, n.value.flags, opts) && RunsTo(s, n.value, Marks(kind).1)
             && (if kind == Text then q == n.value.end && q + 1 < |s| else q == n.value.end + |Marks(kind).1|)
  {
    hide FindTag, RunsTo, Has;
    MarksAre(kind);
    if n.Leaf? && n.value.start == at {
      RunsToIs(s, n.value, EndTag(kind));
      RunsInside(s, n.value, EndTag(kind));
    }
    var r := FindTag(s, at, EndTag(kind));
    if r.Some? {
      HasInside(s, r.value, EndTag(kind));
      RunsToIs(s, Slice(at, r.value, LeafFlags(kind, opts)), EndTag(kind));
    }
  }

  lemma RunsInside(s: string, value: Slice, tag: string)
    ensures RunsTo(s, value, tag) ==> value.start <= value.end && value.end + |tag| <= |s|
  {
  }

  lemma LeafIsNode(s: string, p: nat, depth: nat, first: bool, opts: Options, n: Node, q: nat)
    requires p < |s| && Identify(s, p, first, opts).FoundLeaf?
    requires ParseNode(s, p, depth, opts, Identify(s, p, first, opts)) == NodeOk(n, q, None)
    ensures IsNode(s, p, q, n, depth, first, opts)
  {
    hide Identify, ParseLeaf, RunsTo, SkipWhiteSpace, LineAt, Has, KindAt, PedanticText;
    IdentifyIs(s, p, first, opts);
    var f := Identify(s, p, first, opts);
    ParsesLeaf(s, f.kind, f.at, f.line, opts, n, q);
    RunsInside(s, n.value, Marks(n.kind).1);
    KindNotText(s, SkipWhiteSpace(s, p));
  }

  lemma KindNotText(s: string, b: nat)
    ensures KindAt(s, b) != Some(Text)
  {
    hide Has;
  }

  lemma LeafNodeParses(s: string, p: nat, depth: nat, first: bool, opts: Options, n: Node, q: nat)
    requires IsNode(s, p, q, n, depth, first, opts) && n.Leaf?
    ensures p < |s| && !Identify(s, p, first, opts).Nothing?
    ensures ParseNode(s, p, depth, opts, Identify(s, p, first, opts)) == NodeOk(n, q, None)
  {
    hide Identify, ParseLeaf, RunsTo, SkipWhiteSpace, LineAt, Has, KindAt;
    IdentifyIs(s, p, first, opts);
    var b := SkipWhiteSpace(s, p);
    KindStarts(s, b);
    KindNotText(s, b);
    var f := Identify(s, p, first, opts);
    ParsesLeaf(s, f.kind, f.at, f.line, opts, n, q);
  }

  lemma ElementUnfold(s: string, p: nat, line: nat, depth: nat, opts: Options)
    requires p <= |s|
    ensures ParseElement(s, p, line, depth, opts) ==
            match ParseHead(s, p, line, opts)
            case HeadFail(error, eline) => NodeFail(error, eline)
            case Head(name, attrs, closing, next) =>
              if next == |s| || closing != Open then NodeOk(Element(name, attrs, closing, [], line), next, None)
              else match EnterList(s, next, depth, false, opts)
                case ListFail(_, error, eline) => NodeFail(error, eline)
                case ListEnd(_) => NodeFail(Parsing, line)
                case ListClosed(children, after, endTag) =>
                  NodeOk(Element(name, attrs, Open, children, line), after, Some(endTag))
  {
    hide ParseHead, EnterList;
  }

  /** The node of a null-error parse: a node of the grammar, or a close tag. */
  lemma {:induction false} NodeSound(s: string, p: nat, depth: nat, first: bool, opts: Options, n: Node, q: nat,
                                     endTag: Option<Slice>)
    requires p < |s| && !Identify(s, p, first, opts).Nothing? && depth < MAX_DEPTH
    requires ParseNode(s, p, depth, opts, Identify(s, p, first, opts)) == NodeOk(n, q, endTag)
    ensures n.Element? && n.closing == ClosingTag ==> ClosesAt(s, p, q, n.name, first, opts)
    ensures !(n.Element? && (n.closing == ClosingTag || Mismatch(s, n, endTag))) ==>
            IsNode(s, p, q, n, depth, first, opts)
    decreases |s| - p, 1
  {
    var f := Identify(s, p, first, opts);
    if f.FoundLeaf? {
      assert endTag == None by { hide FindTag, Has, Identify; }
      LeafIsNode(s, p, depth, first, opts, n, q);
    } else {
      ElementSound(s, p, depth, first, opts, n, q, endTag);
    }
    hide Identify, ParseNode, Mismatch, IsNode, ClosesAt;
  }

  lemma {:induction false} ElementSound(s: string, p: nat, depth: nat, first: bool, opts: Options, n: Node, q: nat,
                                        endTag: Option<Slice>)
    requires p < |s| && Identify(s, p, first, opts).FoundElement? && depth < MAX_DEPTH
    requires ParseNode(s, p, depth, opts, Identify(s, p, first, opts)) == NodeOk(n, q, endTag)
    ensures n.Element? && n.closing == ClosingTag ==> ClosesAt(s, p, q, n.name, first, opts)
    ensures !(n.Element? && (n.closing == ClosingTag || Mismatch(s, n, endTag))) ==>
            IsNode(s, p, q, n, depth, first, opts)
    decreases |s| - p, 0
  {
    hide Identify, ParseHead, IsTag, KindAt, PedanticText, SkipWhiteSpace, LineAt, AreNodes, EnterList, NameOf, Has;
    IdentifyIs(s, p, first, opts);
    var b := SkipWhiteSpace(s, p);
    var line := LineAt(s, b);
    ElementUnfold(s, b + 1, line, depth, opts);
    hide ParseElement;
    HeadSound(s, b + 1, line, opts);
    var h := ParseHead(s, b + 1, line, opts);
    if h.next == |s| || h.closing != Open {
      if h.closing == ClosingTag {
        assert IsCloseTag(s, b + 1, q, n.name, opts);
      }
    } else {
      EnterIs(s, h.next, depth, false, opts);
      NoNodes();
      var ns, c := ListSound(s, h.next, depth + 1, false, opts, true, []);
      assert [] + ns == ns;
      assert IsOpenElement(s, b + 1, q, n, depth + 1, opts) || Mismatch(s, n, endTag);
    }
  }

  lemma NoNodes()
    ensures DeclarationsFirst([]) && NoDeclarations([])
  {
  }

  lemma EnterIs(s: string, p: nat, depth: nat, doc: bool, opts: Options)
    requires p <= |s| && depth < MAX_DEPTH
    ensures EnterList(s, p, depth, doc, opts)
         == if depth + 1 == MAX_DEPTH then ListFail([], DepthExceeded, LineAt(s, p))
            else ParseList(s, p, depth + 1, doc, opts, true, [])
  {
    hide ParseList, LineAt;
  }

  lemma {:induction false} ListUnfold(s: string, p: nat, depth: nat, doc: bool, opts: Options, first: bool,
                                      sofar: seq<Node>)
    requires p <= |s|
    ensures var found := Identify(s, p, first, opts);
            ParseList(s, p, depth, doc, opts, first, sofar) ==
            if p == |s| || found.Nothing? then ListEnd(sofar)
            else match ParseNode(s, p, depth, opts, found)
              case NodeFail(error, line) => ListFail(sofar, error, line)
              case NodeOk(node, next, endTag) =>
                if IsDeclaration(node) && !DeclarationAllowed(doc, sofar) then
                  ListFail(sofar, ParsingDeclaration, found.line)
                else if node.Element? && node.closing == ClosingTag then ListClosed(sofar, next, node.name)
                else if node.Element? && Mismatch(s, node, endTag) then ListFail(sofar, MismatchedElement, found.line)
                else ParseList(s, next, depth, doc, opts, false, sofar + [node])
  {
    hide Identify, ParseNode, Mismatch, DeclarationAllowed;
  }

  lemma DeclarationsMore(doc: bool, sofar: seq<Node>, n: Node)
    requires DeclarationsFirst(sofar) && (!doc ==> NoDeclarations(sofar))
    requires IsDeclaration(n) ==> DeclarationAllowed(doc, sofar)
    ensures DeclarationsFirst(sofar + [n]) && (!doc ==> NoDeclarations(sofar + [n]))
  {
  }

  /** The nodes that are linked are nodes of the grammar, also when the parse fails behind them; without an
      error the list ends as the grammar says. */
  lemma {:induction false} ListSound(s: string, p: nat, depth: nat, doc: bool, opts: Options, first: bool,
                                     sofar: seq<Node>)
    returns (ns: seq<Node>, c: nat)
    requires p <= |s| && depth < MAX_DEPTH
    requires DeclarationsFirst(sofar) && (!doc ==> NoDeclarations(sofar))
    ensures var r := ParseList(s, p, depth, doc, opts, first, sofar);
            && r.nodes == sofar + ns && AreNodes(s, p, c, ns, depth, first, opts) && c <= |s|
            && DeclarationsFirst(r.nodes) && (!doc ==> NoDeclarations(r.nodes))
            && (r.ListEnd? ==> SkipWhiteSpace(s, c) == |s|)
            && (r.ListClosed? ==> ClosesAt(s, c, r.next, r.endTag, first && ns == [], opts))
    decreases |s| - p, 2
  {
    hide Identify, ParseNode, ParseList, IsNode, ClosesAt, SkipWhiteSpace, Mismatch, DeclarationsFirst, NoDeclarations,
      DeclarationAllowed;
    ListUnfold(s, p, depth, doc, opts, first, sofar);
    NothingIs(s, p, first, opts);
    var found := Identify(s, p, first, opts);
    if p == |s| || found.Nothing? || ParseNode(s, p, depth, opts, found).NodeFail? {
      ns, c := [], p;
      assert sofar + ns == sofar;
    } else {
      var NodeOk(n, next, endTag) := ParseNode(s, p, depth, opts, found);
      NodeSound(s, p, depth, first, opts, n, next, endTag);
      if (IsDeclaration(n) && !DeclarationAllowed(doc, sofar))
         || (n.Element? && (n.closing == ClosingTag || Mismatch(s, n, endTag))) {
        ns, c := [], p;
        assert sofar + ns == sofar;
      } else {
        DeclarationsMore(doc, sofar, n);
        var more;
        more, c := ListSound(s, next, depth, doc, opts, false, sofar + [n]);
        ns := [n] + more;
        assert ns[1..] == more && sofar + [n] + more == sofar + ns;
        assert IsNode(s, p, next, ns[0], depth, first, opts);
      }
    }
  }

  lemma NothingIs(s: string, p: nat, first: bool, opts: Options)
    requires p <= |s|
    ensures Identify(s, p, first, opts).Nothing? <==> SkipWhiteSpace(s, p) == |s|
    ensures p == |s| ==> SkipWhiteSpace(s, p) == |s|
  {
    hide Has, LineAt;
  }

  // ----- The other direction -----

  lemma {:induction false} ElementComplete(s: string, p: nat, q: nat, n: Node, depth: nat, first: bool, opts: Options)
    returns (endTag: Option<Slice>)
    requires IsNode(s, p, q, n, depth, first, opts) && n.Element?
    ensures p < |s| && !Identify(s, p, first, opts).Nothing?
    ensures ParseNode(s, p, depth, opts, Identify(s, p, first, opts)) == NodeOk(n, q, endTag)
    ensures n.closing != ClosingTag && !Mismatch(s, n, endTag)
    decreases n, 0
  {
    hide Identify, ParseHead, IsTag, KindAt, PedanticText, SkipWhiteSpace, LineAt, AreNodes, EnterList, NameOf,
      Has, ClosesAt, NoDeclarations, DeclarationsFirst;
    IdentifyIs(s, p, first, opts);
    var b := SkipWhiteSpace(s, p);
    var line := LineAt(s, b);
    ElementUnfold(s, b + 1, line, depth, opts);
    hide ParseElement;
    if n.closing == Closed {
      HeadComplete(s, b + 1, q, n.name, n.attrs, Closed, line, opts);
      endTag := None;
    } else {
      var m: nat, c: nat :| IsTag(s, b + 1, m, n.name, n.attrs, Open, opts) && m < |s|
        && AreNodes(s, m, c, n.children, depth + 1, true, opts)
        && NoDeclarations(n.children) && ClosesNamed(s, c, q, n.name, n.children == [], opts);
      var tag :| ClosesAt(s, c, q, tag, n.children == [], opts) && NameOf(s, tag) == NameOf(s, n.name);
      endTag := Some(tag);
      HeadComplete(s, b + 1, m, n.name, n.attrs, Open, line, opts);
      EnterIs(s, m, depth, false, opts);
      assert [] + n.children == n.children;
      NoDeclarationsFirst(n.children);
      ListComplete(s, m, c, n.children, depth + 1, false, true, [], opts);
      CloseComplete(s, c, q, tag, n.children == [], depth + 1, false, n.children, opts);
    }
  }

  lemma NoDeclarationsFirst(nodes: seq<Node>)
    requires NoDeclarations(nodes)
    ensures DeclarationsFirst(nodes)
  {
  }

  lemma {:induction false} CloseComplete(s: string, c: nat, q: nat, tag: Slice, first: bool, depth: nat, doc: bool,
                                         sofar: seq<Node>, opts: Options)
    requires ClosesAt(s, c, q, tag, first, opts)
    ensures ParseList(s, c, depth, doc, opts, first, sofar) == ListClosed(sofar, q, tag)
  {
    hide Identify, ParseHead, IsTag, KindAt, PedanticText, SkipWhiteSpace, LineAt, EnterList, Has, ParseList, Mismatch;
    IdentifyIs(s, c, first, opts);
    var b := SkipWhiteSpace(s, c);
    var line := LineAt(s, b);
    var attrs :| IsTag(s, b + 1, q, tag, attrs, ClosingTag, opts);
    ElementUnfold(s, b + 1, line, depth, opts);
    HeadComplete(s, b + 1, q, tag, attrs, ClosingTag, line, opts);
    ListUnfold(s, c, depth, doc, opts, first, sofar);
    hide ParseElement;
  }

  /** Nodes of the grammar are parsed. */
  lemma {:induction false} ListComplete(s: string, p: nat, c: nat, ns: seq<Node>, depth: nat, doc: bool, first: bool,
                                        sofar: seq<Node>, opts: Options)
    requires AreNodes(s, p, c, ns, depth, first, opts)
    requires DeclarationsFirst(sofar + ns) && (!doc ==> NoDeclarations(ns))
    ensures p <= |s| && c <= |s|
    ensures ParseList(s, p, depth, doc, opts, first, sofar)
         == ParseList(s, c, depth, doc, opts, first && ns == [], sofar + ns)
    decreases ns, 1
  {
    hide Identify, ParseNode, ParseList, IsNode, SkipWhiteSpace, Mismatch, DeclarationsFirst, NoDeclarations,
      DeclarationAllowed;
    if ns == [] {
      assert sofar + ns == sofar;
    } else {
      var n := ns[0];
      var m: nat :| IsNode(s, p, m, n, depth, first, opts) && AreNodes(s, m, c, ns[1..], depth, false, opts);
      var endTag;
      if n.Leaf? {
        LeafNodeParses(s, p, depth, first, opts, n, m);
        endTag := None;
      } else {
        endTag := ElementComplete(s, p, m, n, depth, first, opts);
      }
      ListUnfold(s, p, depth, doc, opts, first, sofar);
      DeclarationsFit(doc, sofar, ns);
      assert sofar + ns == (sofar + [n]) + ns[1..];
      ListComplete(s, m, c, ns[1..], depth, doc, false, sofar + [n], opts);
    }
  }

  lemma DeclarationsFit(doc: bool, sofar: seq<Node>, ns: seq<Node>)
    requires ns != [] && DeclarationsFirst(sofar + ns) && (!doc ==> NoDeclarations(ns))
    ensures IsDeclaration(ns[0]) ==> DeclarationAllowed(doc, sofar)
    ensures !doc ==> NoDeclarations(ns[1..])
  {
    var all := sofar + ns;
    assert all[|sofar|] == ns[0];
    if sofar != [] {
      assert all[0] == sofar[0] && all[|sofar| - 1] == sofar[|sofar| - 1];
    }
  }

  /** The parser accepts a document with exactly the grammar's nodes: both directions. */
  lemma ParserAcceptsGrammar(s: string, opts: Options, bom: bool, nodes: seq<Node>)
    ensures var r := ParseDocument(s, opts);
            && (r.error == Success && r.bom == bom && r.nodes == nodes <==> IsDocument(s, bom, nodes, opts))
            && (r.error == Success ==> r.errorLine == 0)
  {
    hide ParseList, AreNodes, SkipWhiteSpace, Has, DeclarationsFirst;
    var p := SkipWhiteSpace(s, 0);
    var q := if Has(s, p, BOM) then p + |BOM| else p;
    BomInside(s, p);
    if q < |s| {
      EnterIs(s, q, 0, true, opts);
      var r := ParseList(s, q, 1, true, opts, true, []);
      if !r.ListFail? {
        NoNodes();
        var ns, c := ListSound(s, q, 1, true, opts, true, []);
        assert [] + ns == ns;
        assert EndsDocument(s, c, ns == [], opts);
      }
      if IsDocument(s, bom, nodes, opts) {
        var c: nat :| AreNodes(s, q, c, nodes, 1, true, opts) && EndsDocument(s, c, nodes == [], opts);
        assert [] + nodes == nodes;
        ListComplete(s, q, c, nodes, 1, true, true, [], opts);
        EndComplete(s, c, nodes, opts);
      }
    }
  }

  /** Whatever the outcome, the nodes of a parsed document are a run of nodes of the grammar. */
  lemma DocumentNodes(s: string, opts: Options) returns (q: nat, c: nat)
    ensures var r := ParseDocument(s, opts); AreNodes(s, q, c, r.nodes, 1, true, opts) && DeclarationsFirst(r.nodes)
  {
    hide ParseList, AreNodes, SkipWhiteSpace, Has, DeclarationsFirst;
    var p := SkipWhiteSpace(s, 0);
    q := if Has(s, p, BOM) then p + |BOM| else p;
    BomInside(s, p);
    NoNodes();
    if q < |s| {
      EnterIs(s, q, 0, true, opts);
      var ns;
      ns, c := ListSound(s, q, 1, true, opts, true, []);
      assert [] + ns == ns;
    } else {
      c := q;
      EmptyRun(s, q, opts);
    }
  }

  lemma EmptyRun(s: string, q: nat, opts: Options)
    requires q <= |s|
    ensures AreNodes(s, q, q, [], 1, true, opts)
  {
  }

  lemma BomInside(s: string, p: nat)
    requires p <= |s|
    ensures Has(s, p, BOM) ==> p + |BOM| <= |s|
  {
  }

  lemma {:induction false} EndComplete(s: string, c: nat, nodes: seq<Node>, opts: Options)
    requires EndsDocument(s, c, nodes == [], opts)
    ensures var r := ParseList(s, c, 1, true, opts, nodes == [], nodes); !r.ListFail? && r.nodes == nodes
  {
    hide ParseList, Identify, ParseNode, SkipWhiteSpace, ClosesAt, Mismatch;
    ListUnfold(s, c, 1, true, opts, nodes == [], nodes);
    NothingIs(s, c, nodes == [], opts);
    if SkipWhiteSpace(s, c) != |s| {
      var q: nat, tag :| ClosesAt(s, c, q, tag, nodes == [], opts);
      CloseComplete(s, c, q, tag, nodes == [], 1, true, nodes, opts);
    }
  }
}
