/** What a parse that fails reports, as a grammar of failures: the error, its line and the nodes that are linked. */
module Rejections {
  import opened Chars
  import opened Decode
  import opened Syntax
  import opened Grammar
  import opened ParserGrammar

  // ----- Tags -----

  /** The attributes `attrs` of a tag are read and no more: at `m` there is no end mark, and no attribute with a new
      name. `line` is that of the element. */
  ghost predicate AttrsStop(s: string, m: nat, attrs: seq<Attr>, line: nat, opts: Options, error: Error, at: nat)
    requires m <= |s|
  {
    if m < |s| && IsNameStartChar(s[m]) then
      && error == ParsingAttribute && at == LineAt(s, m)
      && forall a: Attr :: IsAttr(s, a, opts) && a.name.start == m ==> HasName(s, attrs, NameOf(s, a.name))
    else
      && error == ParsingElement && at == line
      && (m < |s| ==> s[m] != '>' && !Has(s, m, "/>"))
  }

  /** What stands behind a `<` is no tag. */
  ghost predicate TagFails(s: string, p: nat, line: nat, opts: Options, error: Error, at: nat)
    requires p <= |s|
  {
    var b := SkipWhiteSpace(s, p);
    NameFails(s, if b < |s| && s[b] == '/' then b + 1 else b, line, opts, error, at)
  }

  /** There is no name at `from`, or what follows it stops. */
  ghost predicate NameFails(s: string, from: nat, line: nat, opts: Options, error: Error, at: nat)
    requires from <= |s|
  {
    if from == |s| || !IsNameStartChar(s[from]) then error == Parsing && at == line
    else exists name: Slice, attrs: seq<Attr>, m: nat :: TagStops(s, from, name, attrs, m, line, opts, error, at)
  }

  ghost predicate TagStops(s: string, from: nat, name: Slice, attrs: seq<Attr>, m: nat, line: nat, opts: Options,
                           error: Error, at: nat)
  {
    && IsName(s, name) && name.start == from && AreAttrs(s, name.end, m, attrs, opts) && DistinctNames(s, attrs)
    && m <= |s| && AttrsStop(s, m, attrs, line, opts, error, at)
  }

  // ----- Nodes -----

  /** Which node of the tree could not be read: the next one, or one among the children of the next one, behind those
      that were read. */
  datatype Cause = Here | Within(children: seq<Node>, cause: Cause)

  /** The error of a leaf without its end mark. */
  function EndMissing(kind: Kind): Error {
    match kind
    case Declaration => ParsingDeclaration
    case Comment => ParsingComment
    case CData => ParsingCData
    case Unknown => ParsingUnknown
    case Text => ParsingText
  }

  /** A leaf of this kind begins at `b` and does not end; text also fails when nothing follows its end. */
  predicate LeafFails(s: string, p: nat, b: nat, error: Error)
    requires p <= b < |s|
  {
    match KindAt(s, b)
    case Some(kind) => error == EndMissing(kind) && Absent(s, b + |Marks(kind).0|, Marks(kind).1)
    case None =>
      && s[b] != '<'
      && if Absent(s, p, "<") then error == EndMissing(Text)
         else error == Parsing && Absent(s[..|s| - 1], p, "<")
  }

  predicate Absent(s: string, from: nat, tag: string) {
    forall i | from <= i < |s| :: !Has(s, i, tag)
  }

  /** The element at `b` cannot be read, or is closed by a tag of another name, or by none. */
  ghost predicate ElementFails(s: string, b: nat, cause: Cause, depth: nat, opts: Options, error: Error, at: nat)
    requires b < |s|
    decreases cause, 2
  {
    || (cause.Here? && TagFails(s, b + 1, LineAt(s, b), opts, error, at))
    || exists name: Slice, m: nat ::
         IsOpenTag(s, b + 1, m, name, opts) && ContentFails(s, m, name, LineAt(s, b), cause, depth, opts, error, at)
  }

  ghost predicate IsOpenTag(s: string, p: nat, m: nat, name: Slice, opts: Options) {
    m <= |s| && exists attrs :: IsTag(s, p, m, name, attrs, Open, opts)
  }

  /** Behind the open tag of `name`. */
  ghost predicate ContentFails(s: string, m: nat, name: Slice, line: nat, cause: Cause, depth: nat, opts: Options,
                               error: Error, at: nat)
    requires m <= |s|
    decreases cause, 1
  {
    if m == |s| then cause.Here? && error == MismatchedElement && at == line
    else if depth + 1 >= MAX_DEPTH then cause.Here? && error == DepthExceeded && at == LineAt(s, m)
    else match cause
      case Here =>
        && at == line
        && exists nodes: seq<Node>, c: nat :: NotClosed(s, m, nodes, c, name, depth, opts, error)
      case Within(children, inner) => ListFails(s, m, children, inner, depth + 1, false, opts, error, at)
  }

  /** The children are read, and behind them the text ends, or a close tag of another name stands. */
  ghost predicate NotClosed(s: string, m: nat, nodes: seq<Node>, c: nat, name: Slice, depth: nat, opts: Options,
                            error: Error)
  {
    && AreNodes(s, m, c, nodes, depth + 1, true, opts) && NoDeclarations(nodes) && c <= |s|
    && if SkipWhiteSpace(s, c) == |s| then error == Parsing
       else error == MismatchedElement && ClosesOther(s, c, name, nodes == [], opts)
  }

  ghost predicate ClosesOther(s: string, c: nat, name: Slice, first: bool, opts: Options) {
    exists q: nat, tag: Slice :: ClosesAt(s, c, q, tag, first, opts) && NameOf(s, tag) != NameOf(s, name)
  }

  // ----- Lists -----

  /** Behind the nodes `before`, what stands at `p` cannot be linked. */
  ghost predicate NextFails(s: string, p: nat, before: seq<Node>, cause: Cause, depth: nat, doc: bool, first: bool,
                            opts: Options, error: Error, at: nat)
    decreases cause, 3
  {
    p < |s| &&
    var b := SkipWhiteSpace(s, p);
    b < |s| &&
    if s[b] == '<' && KindAt(s, b) == None then
      !PedanticText(s, p, b, first, opts) && ElementFails(s, b, cause, depth, opts, error, at)
    else
      && cause.Here? && at == LineAt(s, b)
      && (LeafFails(s, p, b, error)
          || (error == ParsingDeclaration && Misplaced(s, p, before, depth, doc, first, opts)))
  }

  /** A declaration behind another node, or inside an element. */
  ghost predicate Misplaced(s: string, p: nat, before: seq<Node>, depth: nat, doc: bool, first: bool, opts: Options) {
    && (exists n: Node, q: nat :: IsNode(s, p, q, n, depth, first, opts) && IsDeclaration(n))
    && !(doc && forall i | 0 <= i < |before| :: IsDeclaration(before[i]))
  }

  /** The nodes of a list are read and linked, declarations first, and what follows them fails. */
  ghost predicate ListFails(s: string, p: nat, nodes: seq<Node>, cause: Cause, depth: nat, doc: bool, opts: Options,
                            error: Error, at: nat)
    decreases cause, 4
  {
    && DeclarationsFirst(nodes) && (!doc ==> NoDeclarations(nodes))
    && exists c: nat ::
         && AreNodes(s, p, c, nodes, depth, true, opts)
         && NextFails(s, c, nodes, cause, depth, doc, nodes == [], opts, error, at)
  }

  /** A document: nothing to read, or a list that fails. */
  ghost predicate Rejected(s: string, nodes: seq<Node>, opts: Options, error: Error, at: nat) {
    var p := SkipWhiteSpace(s, 0);
    var q := if Has(s, p, BOM) then p + |BOM| else p;
    q <= |s| &&
    if q == |s| then nodes == [] && error == EmptyDocument && at == 0
    else exists cause: Cause :: ListFails(s, q, nodes, cause, 1, true, opts, error, at)
  }

  // ----- Tags that fail -----

  lemma NoAttr(s: string, m: nat, attrs: seq<Attr>, opts: Options)
    requires m < |s|
    ensures (match ParseAttr(s, m, opts)
             case None => true
             case Some((a, next)) => HasName(s, attrs, NameOf(s, a.name)))
            <==> forall a: Attr :: IsAttr(s, a, opts) && a.name.start == m ==> HasName(s, attrs, NameOf(s, a.name))
  {
    hide ParseAttr, IsAttr, HasName, NameOf;
    forall a: Attr
      ensures IsAttr(s, a, opts) && a.name.start == m <==> exists next: nat :: ParseAttr(s, m, opts) == Some((a, next))
    {
      AttrIs(s, m, a, opts);
    }
  }

  lemma AttrIs(s: string, m: nat, a: Attr, opts: Options)
    requires m < |s|
    ensures IsAttr(s, a, opts) && a.name.start == m <==> exists next: nat :: ParseAttr(s, m, opts) == Some((a, next))
  {
    hide ParseAttr, IsAttr;
    ParsesAttr(s, m, a, a.value.end + 1, opts);
    if next: nat :| ParseAttr(s, m, opts) == Some((a, next)) {
      ParsesAttr(s, m, a, next, opts);
    }
  }

  lemma StopIs(s: string, m: nat, attrs: seq<Attr>, line: nat, opts: Options, error: Error, at: nat)
    requires m <= |s| && SkipWhiteSpace(s, m) == m
    ensures ParseAttributes(s, m, opts, line, attrs) == AttrsFail(error, at) ==>
              AttrsStop(s, m, attrs, line, opts, error, at) || GoesOn(s, m, attrs, opts)
    ensures AttrsStop(s, m, attrs, line, opts, error, at) ==>
              ParseAttributes(s, m, opts, line, attrs) == AttrsFail(error, at) && !GoesOn(s, m, attrs, opts)
  {
    hide ParseAttributes, ParseAttr, LineAt, HasName, NameOf, SkipWhiteSpace, Has, IsAttr;
    AttributesUnfold(s, m, opts, line, attrs);
    if m < |s| {
      NoAttr(s, m, attrs, opts);
      Marked(s, m);
    }
  }

  lemma Marked(s: string, m: nat)
    requires m < |s|
    ensures EndsTag(s, m, false, m + 1) || EndsTag(s, m, true, m + 2) <==> s[m] == '>' || Has(s, m, "/>")
  {
    hide Has;
    ParsesEnd(s, m);
  }

  /** The loop reads an attribute at `m` and goes on. */
  predicate GoesOn(s: string, m: nat, attrs: seq<Attr>, opts: Options) {
    && m < |s| && IsNameStartChar(s[m]) && ParseAttr(s, m, opts).Some?
    && !HasName(s, attrs, NameOf(s, ParseAttr(s, m, opts).value.0.name))
  }

  lemma AttributesAt(s: string, p: nat, opts: Options, line: nat, sofar: seq<Attr>)
    requires p <= |s|
    ensures ParseAttributes(s, p, opts, line, sofar) == ParseAttributes(s, SkipWhiteSpace(s, p), opts, line, sofar)
    ensures SkipWhiteSpace(s, SkipWhiteSpace(s, p)) == SkipWhiteSpace(s, p)
  {
    hide ParseAttributes, ParseAttr, LineAt, HasName, NameOf, Has, EndsTag;
    var q := SkipWhiteSpace(s, p);
    SkipIsUnique(s, q, q);
    AttributesUnfold(s, p, opts, line, sofar);
    AttributesUnfold(s, q, opts, line, sofar);
  }

  /** Where attributes stop being read, they stop as described. */
  lemma {:induction false} AttrsFailSound(s: string, p: nat, opts: Options, line: nat, sofar: seq<Attr>)
    returns (rest: seq<Attr>, m: nat)
    requires p <= |s| && ParseAttributes(s, p, opts, line, sofar).AttrsFail? && DistinctNames(s, sofar)
    ensures var r := ParseAttributes(s, p, opts, line, sofar);
            && AreAttrs(s, p, m, rest, opts) && DistinctNames(s, sofar + rest) && m <= |s|
            && AttrsStop(s, m, sofar + rest, line, opts, r.error, r.line)
    decreases |s| - p
  {
    hide ParseAttributes, ParseAttr, LineAt, HasName, NameOf, SkipWhiteSpace, EndsTag, DistinctNames, IsAttr, AttrsStop,
      GoesOn;
    var r := ParseAttributes(s, p, opts, line, sofar);
    var q := SkipWhiteSpace(s, p);
    AttributesAt(s, p, opts, line, sofar);
    StopIs(s, q, sofar, line, opts, r.error, r.line);
    if GoesOn(s, q, sofar, opts) {
      var attr, next := OneMore(s, q, opts, line, sofar);
      ParsesAttr(s, q, attr, next, opts);
      var more;
      more, m := AttrsFailSound(s, next, opts, line, sofar + [attr]);
      rest := [attr] + more;
      assert rest[1..] == more && sofar + [attr] + more == sofar + rest;
    } else {
      rest, m := [], q;
      assert sofar + [] == sofar;
    }
  }

  lemma OneMore(s: string, q: nat, opts: Options, line: nat, sofar: seq<Attr>) returns (attr: Attr, next: nat)
    requires q <= |s| && SkipWhiteSpace(s, q) == q && GoesOn(s, q, sofar, opts)
    ensures ParseAttr(s, q, opts) == Some((attr, next)) && q < next <= |s|
    ensures ParseAttributes(s, q, opts, line, sofar) == ParseAttributes(s, next, opts, line, sofar + [attr])
    ensures DistinctNames(s, sofar) ==> DistinctNames(s, sofar + [attr])
  {
    hide ParseAttributes, ParseAttr, LineAt, HasName, NameOf, SkipWhiteSpace, EndsTag, DistinctNames;
    AttributesUnfold(s, q, opts, line, sofar);
    attr, next := ParseAttr(s, q, opts).value.0, ParseAttr(s, q, opts).value.1;
    DistinctMore(s, sofar, attr);
  }

  /** Attributes that stop as described are read up to there. */
  lemma {:induction false} AttrsFailComplete(s: string, p: nat, opts: Options, line: nat, sofar: seq<Attr>,
                                             rest: seq<Attr>, m: nat, error: Error, at: nat)
    requires AreAttrs(s, p, m, rest, opts) && DistinctNames(s, sofar + rest) && m <= |s|
    requires AttrsStop(s, m, sofar + rest, line, opts, error, at)
    ensures p <= |s| && ParseAttributes(s, p, opts, line, sofar) == AttrsFail(error, at)
    decreases rest
  {
    hide ParseAttributes, ParseAttr, LineAt, HasName, NameOf, SkipWhiteSpace, EndsTag, DistinctNames, IsAttr, AttrsStop;
    AttributesAt(s, p, opts, line, sofar);
    if rest == [] {
      assert sofar + rest == sofar;
      StopIs(s, m, sofar, line, opts, error, at);
    } else {
      var a := rest[0];
      AttrStarts(s, a, opts);
      ParsesAttr(s, a.name.start, a, a.value.end + 1, opts);
      assert sofar + rest == (sofar + [a]) + rest[1..];
      DistinctPrefix(s, sofar + [a], rest[1..]);
      DistinctMore(s, sofar, a);
      var attr, next := OneMore(s, a.name.start, opts, line, sofar);
      AttrsFailComplete(s, a.value.end + 1, opts, line, sofar + [a], rest[1..], m, error, at);
    }
  }

  /** A tag fails as described, and in no other way. */
  lemma HeadFails(s: string, p: nat, line: nat, opts: Options, error: Error, at: nat)
    requires p <= |s|
    ensures ParseHead(s, p, line, opts) == HeadFail(error, at) <==> TagFails(s, p, line, opts, error, at)
  {
    hide SkipWhiteSpace, ParseAttributes, DistinctNames, AreAttrs, IsName, AttrsStop, NameEnd;
    var b := SkipWhiteSpace(s, p);
    var from := if b < |s| && s[b] == '/' then b + 1 else b;
    if from < |s| && IsNameStartChar(s[from]) {
      var name := Slice(from, ParseName(s, from).value, NAME_FLAGS);
      ParsesName(s, name);
      NoDistinct(s);
      if ParseHead(s, p, line, opts) == HeadFail(error, at) {
        var rest, m := AttrsFailSound(s, name.end, opts, line, []);
        assert [] + rest == rest;
        assert TagStops(s, from, name, rest, m, line, opts, error, at);
        assert NameFails(s, from, line, opts, error, at);
      }
      if NameFails(s, from, line, opts, error, at) {
        var name': Slice, attrs: seq<Attr>, m: nat :| TagStops(s, from, name', attrs, m, line, opts, error, at);
        StopsComplete(s, from, name', attrs, m, line, opts, error, at);
      }
    }
  }

  lemma StopsComplete(s: string, from: nat, name: Slice, attrs: seq<Attr>, m: nat, line: nat, opts: Options,
                      error: Error, at: nat)
    requires TagStops(s, from, name, attrs, m, line, opts, error, at)
    ensures from <= |s| && ParseName(s, from) == Some(name.end)
    ensures name.end <= |s| && ParseAttributes(s, name.end, opts, line, []) == AttrsFail(error, at)
  {
    hide ParseAttributes, DistinctNames, AreAttrs, IsName, AttrsStop, ParseName;
    NameIn(s, name);
    ParsesName(s, name);
    assert [] + attrs == attrs;
    AttrsFailComplete(s, name.end, opts, line, [], attrs, m, error, at);
  }

  // ----- Leaves that fail -----

  /** The leaf parser fails as described. */
  lemma LeafFailsIs(s: string, p: nat, first: bool, opts: Options, error: Error, at: nat)
    requires p < |s| && Identify(s, p, first, opts).FoundLeaf?
    ensures var b, f := SkipWhiteSpace(s, p), Identify(s, p, first, opts);
            ParseLeaf(s, f.kind, f.at, f.line, opts) == NodeFail(error, at) <==>
            && b < |s| && !(s[b] == '<' && KindAt(s, b) == None) && at == LineAt(s, b) && LeafFails(s, p, b, error)
  {
    hide Identify, FindTag, SkipWhiteSpace, LineAt, Has, KindAt, PedanticText;
    IdentifyIs(s, p, first, opts);
    var b, f := SkipWhiteSpace(s, p), Identify(s, p, first, opts);
    KindStarts(s, b);
    KindNotText(s, b);
    MarksAre(f.kind);
    NoTag(s, f.at, EndTag(f.kind));
    if f.kind == Text {
      TextEnds(s, p, b, first, opts);
    }
  }

  lemma NoTag(s: string, from: nat, tag: string)
    requires from <= |s| && tag != ""
    ensures FindTag(s, from, tag) == None <==> Absent(s, from, tag)
  {
    hide Has;
    var e := FindTag(s, from, tag);
    if e.Some? { HasInside(s, e.value, tag); }
  }

  lemma TextEnds(s: string, p: nat, b: nat, first: bool, opts: Options)
    requires p < |s| && b == SkipWhiteSpace(s, p) < |s|
    ensures var e := FindTag(s, p, "<");
            && (e.Some? ==> (e.value + 1 == |s| <==> Absent(s[..|s| - 1], p, "<")))
            && (PedanticText(s, p, b, first, opts) ==> e.Some? && e.value + 1 < |s|)
  {
    hide FindTag;
    var e, init := FindTag(s, p, "<"), s[..|s| - 1];
    forall i | p <= i < |init| ensures Has(init, i, "<") <==> Has(s, i, "<") {
      HasOne(init, i, '<');
      HasOne(s, i, '<');
    }
    if e.Some? { HasOne(s, e.value, '<'); }
    if PedanticText(s, p, b, first, opts) {
      HasAt(s, b, "</", 0);
      HasOne(s, b, '<');
    }
  }

  // ----- Elements and lists that fail -----

  /** A list that fails, failed at one of its nodes, behind those that are linked. */
  lemma {:induction false} ListFailSound(s: string, p: nat, depth: nat, doc: bool, opts: Options, first: bool,
                                         sofar: seq<Node>)
    returns (ns: seq<Node>, c: nat, cause: Cause)
    requires p <= |s| && depth < MAX_DEPTH && ParseList(s, p, depth, doc, opts, first, sofar).ListFail?
    requires DeclarationsFirst(sofar) && (!doc ==> NoDeclarations(sofar))
    ensures var r := ParseList(s, p, depth, doc, opts, first, sofar);
            && r.nodes == sofar + ns && AreNodes(s, p, c, ns, depth, first, opts)
            && DeclarationsFirst(r.nodes) && (!doc ==> NoDeclarations(r.nodes))
            && NextFails(s, c, r.nodes, cause, depth, doc, first && ns == [], opts, r.error, r.line)
    decreases |s| - p, 2
  {
    hide Identify, ParseNode, ParseList, IsNode, SkipWhiteSpace, Mismatch, DeclarationsFirst, NoDeclarations,
      DeclarationAllowed, NextFails;
    ListUnfold(s, p, depth, doc, opts, first, sofar);
    var found := Identify(s, p, first, opts);
    var o := ParseNode(s, p, depth, opts, found);
    if o.NodeOk? && !(IsDeclaration(o.node) && !DeclarationAllowed(doc, sofar))
       && !(o.node.Element? && (o.node.closing == ClosingTag || Mismatch(s, o.node, o.endTag))) {
      NodeSound(s, p, depth, first, opts, o.node, o.next, o.endTag);
      DeclarationsMore(doc, sofar, o.node);
      var more;
      more, c, cause := ListFailSound(s, o.next, depth, doc, opts, false, sofar + [o.node]);
      ns := [o.node] + more;
      assert ns[1..] == more && sofar + [o.node] + more == sofar + ns;
      assert IsNode(s, p, o.next, ns[0], depth, first, opts);
    } else {
      ns, c := [], p;
      assert sofar + ns == sofar;
      cause := NextFailSound(s, p, depth, doc, opts, first, sofar);
    }
  }

  /** The failure of the next node. */
  lemma {:induction false} NextFailSound(s: string, p: nat, depth: nat, doc: bool, opts: Options, first: bool,
                                         sofar: seq<Node>)
    returns (cause: Cause)
    requires p < |s| && depth < MAX_DEPTH && !Identify(s, p, first, opts).Nothing? && DeclarationsFirst(sofar)
    requires var found := Identify(s, p, first, opts);
             match ParseNode(s, p, depth, opts, found)
             case NodeFail(_, _) => true
             case NodeOk(node, next, endTag) =>
               || (IsDeclaration(node) && !DeclarationAllowed(doc, sofar))
               || (node.Element? && node.closing != ClosingTag && Mismatch(s, node, endTag))
    ensures var r := ParseList(s, p, depth, doc, opts, first, sofar);
            && r == ListFail(sofar, r.error, r.line)
            && NextFails(s, p, sofar, cause, depth, doc, first, opts, r.error, r.line)
    decreases |s| - p, 1
  {
    hide Identify, ParseElement, KindAt, PedanticText, SkipWhiteSpace, LineAt, Mismatch, Has, ParseList, IsNode,
      LeafFails, ElementFails, DeclarationsFirst, DeclarationAllowed, ParseLeaf, Misplaced;
    ListUnfold(s, p, depth, doc, opts, first, sofar);
    IdentifyIs(s, p, first, opts);
    NothingIs(s, p, first, opts);
    var b, f := SkipWhiteSpace(s, p), Identify(s, p, first, opts);
    KindStarts(s, b);
    KindNotText(s, b);
    if f.FoundElement? {
      ElementIsElement(s, b + 1, LineAt(s, b), depth, opts);
      cause := ElementFailSound(s, b, depth, opts);
    } else {
      cause := Here;
      var r := ParseList(s, p, depth, doc, opts, first, sofar);
      LeafFailsIs(s, p, first, opts, r.error, r.line);
      LeafIsLeaf(s, f.kind, f.at, f.line, opts);
      if ParseNode(s, p, depth, opts, f).NodeOk? {
        MisplacedSound(s, p, depth, doc, opts, first, sofar);
      }
    }
  }

  lemma LeafIsLeaf(s: string, kind: Kind, at: nat, line: nat, opts: Options)
    requires at <= |s|
    ensures var o := ParseLeaf(s, kind, at, line, opts);
            o.NodeOk? ==> o.node.Leaf? && o.node.kind == kind && o.endTag == None
  {
    hide FindTag;
  }

  lemma ElementIsElement(s: string, p: nat, line: nat, depth: nat, opts: Options)
    requires p <= |s|
    ensures var o := ParseElement(s, p, line, depth, opts); o.NodeOk? ==> o.node.Element?
  {
    hide ParseHead, EnterList;
  }

  lemma AllowedIs(doc: bool, sofar: seq<Node>)
    requires DeclarationsFirst(sofar)
    ensures DeclarationAllowed(doc, sofar) <==> doc && forall i | 0 <= i < |sofar| :: IsDeclaration(sofar[i])
  {
  }

  lemma MisplacedSound(s: string, p: nat, depth: nat, doc: bool, opts: Options, first: bool, sofar: seq<Node>)
    requires p < |s| && Identify(s, p, first, opts).FoundLeaf? && DeclarationsFirst(sofar)
    requires var o := ParseNode(s, p, depth, opts, Identify(s, p, first, opts));
             o.NodeOk? && IsDeclaration(o.node) && !DeclarationAllowed(doc, sofar)
    ensures Misplaced(s, p, sofar, depth, doc, first, opts)
  {
    hide Identify, ParseLeaf, IsNode, DeclarationAllowed, DeclarationsFirst;
    var f := Identify(s, p, first, opts);
    var o := ParseNode(s, p, depth, opts, f);
    LeafIsLeaf(s, f.kind, f.at, f.line, opts);
    LeafIsNode(s, p, depth, first, opts, o.node, o.next);
    AllowedIs(doc, sofar);
  }

  /** The element at `b` is not read, or does not match its close tag. */
  lemma {:induction false} ElementFailSound(s: string, b: nat, depth: nat, opts: Options) returns (cause: Cause)
    requires b < |s| && depth < MAX_DEPTH
    requires var o := ParseElement(s, b + 1, LineAt(s, b), depth, opts);
             o.NodeFail? || (o.node.Element? && o.node.closing != ClosingTag && Mismatch(s, o.node, o.endTag))
    ensures var o := ParseElement(s, b + 1, LineAt(s, b), depth, opts);
            ElementFails(s, b, cause, depth, opts, if o.NodeFail? then o.error else MismatchedElement,
                         if o.NodeFail? then o.line else LineAt(s, b))
    decreases |s| - b, 0
  {
    hide ParseHead, IsTag, LineAt, EnterList, TagFails, ContentFails, NameOf;
    var line := LineAt(s, b);
    ElementUnfold(s, b + 1, line, depth, opts);
    hide ParseElement;
    match ParseHead(s, b + 1, line, opts)
    case HeadFail(error, at) =>
      cause := Here;
      HeadFails(s, b + 1, line, opts, error, at);
    case Head(name, attrs, closing, m) =>
      HeadSound(s, b + 1, line, opts);
      assert closing == Open;
      assert IsOpenTag(s, b + 1, m, name, opts);
      cause := ContentFailSound(s, b, m, name, attrs, line, depth, opts);
  }

  lemma {:induction false} ContentFailSound(s: string, b: nat, m: nat, name: Slice, attrs: seq<Attr>, line: nat,
                                            depth: nat, opts: Options)
    returns (cause: Cause)
    requires b < m <= |s| && depth < MAX_DEPTH
    requires m < |s| && EnterList(s, m, depth, false, opts).ListClosed? ==>
               NameOf(s, EnterList(s, m, depth, false, opts).endTag) != NameOf(s, name)
    ensures var l := EnterList(s, m, depth, false, opts);
            && (m == |s| ==> ContentFails(s, m, name, line, cause, depth, opts, MismatchedElement, line))
            && (m < |s| && l.ListFail? ==> ContentFails(s, m, name, line, cause, depth, opts, l.error, l.line))
            && (m < |s| && l.ListEnd? ==> ContentFails(s, m, name, line, cause, depth, opts, Parsing, line))
            && (m < |s| && l.ListClosed? ==>
                  ContentFails(s, m, name, line, cause, depth, opts, MismatchedElement, line))
    decreases |s| - m, 3
  {
    hide LineAt, ParseList, AreNodes, NextFails, ClosesAt, SkipWhiteSpace, NameOf, DeclarationsFirst, NoDeclarations;
    cause := Here;
    if m < |s| {
      EnterIs(s, m, depth, false, opts);
      if depth + 1 < MAX_DEPTH {
        NoNodes();
        if ParseList(s, m, depth + 1, false, opts, true, []).ListFail? {
          var ns, c, inner := ListFailSound(s, m, depth + 1, false, opts, true, []);
          assert [] + ns == ns;
          cause := Within(ns, inner);
        } else {
          var ns, c := ListSound(s, m, depth + 1, false, opts, true, []);
          assert [] + ns == ns;
          var l := ParseList(s, m, depth + 1, false, opts, true, []);
          if l.ListClosed? {
            ClosesMarkup(s, c, l.next, l.endTag, ns == [], opts);
            assert ClosesOther(s, c, name, ns == [], opts);
          }
          assert NotClosed(s, m, ns, c, name, depth, opts, if l.ListEnd? then Parsing else MismatchedElement);
        }
      }
    }
  }

  lemma ClosesMarkup(s: string, c: nat, q: nat, tag: Slice, first: bool, opts: Options)
    requires ClosesAt(s, c, q, tag, first, opts)
    ensures c < |s| && SkipWhiteSpace(s, c) < |s|
  {
    hide SkipWhiteSpace;
  }

  // ----- The other direction -----

  lemma {:induction false} ElementFailComplete(s: string, b: nat, cause: Cause, depth: nat, opts: Options, error: Error,
                                               at: nat)
    requires b < |s| && depth < MAX_DEPTH && ElementFails(s, b, cause, depth, opts, error, at)
    ensures var o, line := ParseElement(s, b + 1, LineAt(s, b), depth, opts), LineAt(s, b);
            || o == NodeFail(error, at)
            || (o.NodeOk? && o.node.Element? && o.node.closing == Open && Mismatch(s, o.node, o.endTag)
                && error == MismatchedElement && at == line)
    decreases cause, 2
  {
    hide ParseHead, IsTag, LineAt, EnterList, TagFails, ContentFails, NameOf;
    var line := LineAt(s, b);
    ElementUnfold(s, b + 1, line, depth, opts);
    hide ParseElement;
    if cause.Here? && TagFails(s, b + 1, line, opts, error, at) {
      HeadFails(s, b + 1, line, opts, error, at);
    } else {
      var name: Slice, m: nat :| IsOpenTag(s, b + 1, m, name, opts)
        && ContentFails(s, m, name, line, cause, depth, opts, error, at);
      var attrs :| IsTag(s, b + 1, m, name, attrs, Open, opts);
      HeadComplete(s, b + 1, m, name, attrs, Open, line, opts);
      ContentFailComplete(s, m, name, line, cause, depth, opts, error, at);
    }
  }

  lemma {:induction false} ContentFailComplete(s: string, m: nat, name: Slice, line: nat, cause: Cause, depth: nat,
                                               opts: Options, error: Error, at: nat)
    requires m <= |s| && depth < MAX_DEPTH && ContentFails(s, m, name, line, cause, depth, opts, error, at)
    ensures m == |s| ==> error == MismatchedElement && at == line
    ensures m < |s| ==>
              match EnterList(s, m, depth, false, opts)
              case ListFail(_, e, l) => e == error && l == at
              case ListEnd(_) => error == Parsing && at == line
              case ListClosed(_, _, tag) =>
                error == MismatchedElement && at == line && NameOf(s, tag) != NameOf(s, name)
    decreases cause, 1
  {
    hide LineAt, ParseList, ListFails, NameOf, NotClosed, EnterList;
    if m < |s| {
      EnterIs(s, m, depth, false, opts);
      if depth + 1 < MAX_DEPTH {
        match cause
        case Here =>
          var nodes: seq<Node>, c: nat :| NotClosed(s, m, nodes, c, name, depth, opts, error);
          NotClosedComplete(s, m, nodes, c, name, depth, opts, error);
        case Within(children, inner) =>
          ListFailComplete(s, m, children, inner, depth + 1, false, opts, error, at);
      }
    }
  }

  lemma NotClosedComplete(s: string, m: nat, nodes: seq<Node>, c: nat, name: Slice, depth: nat, opts: Options,
                          error: Error)
    requires m <= |s| && NotClosed(s, m, nodes, c, name, depth, opts, error)
    ensures match ParseList(s, m, depth + 1, false, opts, true, [])
            case ListFail(_, _, _) => false
            case ListEnd(_) => error == Parsing
            case ListClosed(_, _, tag) => error == MismatchedElement && NameOf(s, tag) != NameOf(s, name)
  {
    hide ParseList, AreNodes, SkipWhiteSpace, ClosesAt, NameOf, NoDeclarations, DeclarationsFirst, Identify, ParseNode;
    assert [] + nodes == nodes;
    NoDeclarationsFirst(nodes);
    ListComplete(s, m, c, nodes, depth + 1, false, true, [], opts);
    if SkipWhiteSpace(s, c) == |s| {
      ListUnfold(s, c, depth + 1, false, opts, nodes == [], nodes);
      NothingIs(s, c, nodes == [], opts);
    } else {
      var q: nat, tag: Slice :| ClosesAt(s, c, q, tag, nodes == [], opts) && NameOf(s, tag) != NameOf(s, name);
      CloseComplete(s, c, q, tag, nodes == [], depth + 1, false, nodes, opts);
    }
  }

  lemma {:induction false} NextFailComplete(s: string, p: nat, before: seq<Node>, cause: Cause, depth: nat, doc: bool,
                                            first: bool, opts: Options, error: Error, at: nat)
    requires NextFails(s, p, before, cause, depth, doc, first, opts, error, at)
    requires depth < MAX_DEPTH && DeclarationsFirst(before)
    ensures p < |s| && ParseList(s, p, depth, doc, opts, first, before) == ListFail(before, error, at)
    decreases cause, 3
  {
    hide Identify, ParseElement, KindAt, PedanticText, SkipWhiteSpace, LineAt, Mismatch, Has, ParseList, IsNode,
      LeafFails, ElementFails, DeclarationsFirst, DeclarationAllowed, ParseLeaf, Misplaced;
    ListUnfold(s, p, depth, doc, opts, first, before);
    IdentifyIs(s, p, first, opts);
    NothingIs(s, p, first, opts);
    var b := SkipWhiteSpace(s, p);
    KindStarts(s, b);
    KindNotText(s, b);
    if s[b] == '<' && KindAt(s, b) == None {
      ElementFailComplete(s, b, cause, depth, opts, error, at);
    } else {
      LeafFailsIs(s, p, first, opts, error, at);
      if !LeafFails(s, p, b, error) {
        MisplacedComplete(s, p, before, depth, doc, first, opts);
      }
    }
  }

  lemma MisplacedComplete(s: string, p: nat, before: seq<Node>, depth: nat, doc: bool, first: bool, opts: Options)
    requires Misplaced(s, p, before, depth, doc, first, opts) && DeclarationsFirst(before)
    ensures p < |s| && !Identify(s, p, first, opts).Nothing?
    ensures var f := Identify(s, p, first, opts);
            var o := ParseNode(s, p, depth, opts, f);
            && o.NodeOk? && IsDeclaration(o.node) && !DeclarationAllowed(doc, before)
            && f.line == LineAt(s, SkipWhiteSpace(s, p))
  {
    hide Identify, ParseNode, IsNode, DeclarationAllowed, DeclarationsFirst, LineAt, SkipWhiteSpace;
    var n: Node, q: nat :| IsNode(s, p, q, n, depth, first, opts) && IsDeclaration(n);
    LeafNodeParses(s, p, depth, first, opts, n, q);
    AllowedIs(doc, before);
    DeclarationLine(s, p, q, n, depth, first, opts);
  }

  lemma DeclarationLine(s: string, p: nat, q: nat, n: Node, depth: nat, first: bool, opts: Options)
    requires IsNode(s, p, q, n, depth, first, opts) && IsDeclaration(n)
    ensures p < |s| && Identify(s, p, first, opts).Nothing? == false
    ensures Identify(s, p, first, opts).line == LineAt(s, SkipWhiteSpace(s, p))
  {
    hide Identify, LineAt, SkipWhiteSpace, Has, RunsTo;
    IdentifyIs(s, p, first, opts);
    KindStarts(s, SkipWhiteSpace(s, p));
  }

  lemma {:induction false} ListFailComplete(s: string, p: nat, nodes: seq<Node>, cause: Cause, depth: nat, doc: bool,
                                            opts: Options, error: Error, at: nat)
    requires ListFails(s, p, nodes, cause, depth, doc, opts, error, at) && depth < MAX_DEPTH
    ensures p <= |s| && ParseList(s, p, depth, doc, opts, true, []) == ListFail(nodes, error, at)
    decreases cause, 4
  {
    hide ParseList, AreNodes, NextFails, DeclarationsFirst, NoDeclarations;
    var c: nat :| AreNodes(s, p, c, nodes, depth, true, opts)
      && NextFails(s, c, nodes, cause, depth, doc, nodes == [], opts, error, at);
    assert [] + nodes == nodes;
    ListComplete(s, p, c, nodes, depth, doc, true, [], opts);
    NextFailComplete(s, c, nodes, cause, depth, doc, nodes == [], opts, error, at);
  }

  /** A parse fails with this error on this line, and with these nodes linked, exactly when the text is rejected so:
      for every text, all options and every outcome. */
  lemma ParserRejects(s: string, opts: Options, nodes: seq<Node>, error: Error, at: nat)
    requires error != Success
    ensures var r := ParseDocument(s, opts);
            && (r.nodes == nodes && r.error == error && r.errorLine == at <==> Rejected(s, nodes, opts, error, at))
            && (r.bom <==> Has(s, SkipWhiteSpace(s, 0), BOM))
  {
    hide ParseList, AreNodes, SkipWhiteSpace, Has, DeclarationsFirst, NextFails, ListFails;
    var p := SkipWhiteSpace(s, 0);
    var q := if Has(s, p, BOM) then p + |BOM| else p;
    BomInside(s, p);
    if q < |s| {
      EnterIs(s, q, 0, true, opts);
      var l := ParseList(s, q, 1, true, opts, true, []);
      if l.ListFail? {
        NoNodes();
        var ns, c, cause := ListFailSound(s, q, 1, true, opts, true, []);
        assert [] + ns == ns;
        assert ListFails(s, q, ns, cause, 1, true, opts, l.error, l.line) by {
          ListFailsBy(s, q, ns, c, cause, 1, true, opts, l.error, l.line);
        }
      }
      if cause: Cause :| ListFails(s, q, nodes, cause, 1, true, opts, error, at) {
        ListFailComplete(s, q, nodes, cause, 1, true, opts, error, at);
      }
    }
  }

  lemma ListFailsBy(s: string, p: nat, nodes: seq<Node>, c: nat, cause: Cause, depth: nat, doc: bool, opts: Options,
                    error: Error, at: nat)
    requires DeclarationsFirst(nodes) && (!doc ==> NoDeclarations(nodes)) && AreNodes(s, p, c, nodes, depth, true, opts)
    requires NextFails(s, c, nodes, cause, depth, doc, nodes == [], opts, error, at)
    ensures ListFails(s, p, nodes, cause, depth, doc, opts, error, at)
  {
    hide AreNodes, NextFails, DeclarationsFirst, NoDeclarations;
  }
}
