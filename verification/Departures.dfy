/** Texts that are not well formed and that the parser accepts all the same, shown through the grammar. */
module Departures {
  import opened Chars
  import opened Decode
  import opened Syntax
  import opened Grammar
  import opened ParserGrammar

  // ----- Tags at fixed places -----

  /** No white space is skipped before markup or a name. */
  lemma StaysAt(s: string, p: nat)
    requires p < |s| && !IsWhiteSpace(s[p])
    ensures SkipWhiteSpace(s, p) == p
  {
  }

  /** A tag at `p`, from behind its `<`: a name of one letter and the end mark. */
  lemma ShortTag(s: string, p: nat, q: nat, closing: Closing, opts: Options)
    requires p + 1 < |s|
    requires var b := if s[p] == '/' then p + 1 else p;
             && b + 1 < |s| && IsNameStartChar(s[b])
             && (closing == Closed ==> Has(s, b + 1, "/>") && q == b + 3)
             && (closing != Closed ==>
                   s[b + 1] == '>' && q == b + 2 && closing == if s[p] == '/' then ClosingTag else Open)
    ensures var b := if s[p] == '/' then p + 1 else p;
            IsTag(s, p, q, Slice(b, b + 1, NAME_FLAGS), [], closing, opts)
  {
    hide SkipWhiteSpace;
    var b := if s[p] == '/' then p + 1 else p;
    if closing == Closed { HasAt(s, b + 1, "/>", 0); }
    if Has(s, b + 1, "/>") { HasAt(s, b + 1, "/>", 0); }
    StaysAt(s, p);
    StaysAt(s, b + 1);
    assert AreAttrs(s, b + 1, b + 1, [], opts) && EndsTag(s, b + 1, closing == Closed, q);
  }

  /** An element or close tag starts at a `<` that a letter or a slash follows. */
  lemma NoOtherMarkup(s: string, p: nat)
    requires p + 1 < |s| && s[p] == '<' && s[p + 1] != '?' && s[p + 1] != '!'
    ensures SkipWhiteSpace(s, p) == p && KindAt(s, p) == None
  {
    StaysAt(s, p);
    if Has(s, p, "<?") { HasAt(s, p, "<?", 1); }
    if Has(s, p, "<!") { HasAt(s, p, "<!", 1); }
    if Has(s, p, "<!--") { HasAt(s, p, "<!--", 1); }
    if Has(s, p, "<![CDATA[") { HasAt(s, p, "<![CDATA[", 1); }
  }

  /** One node at the start of the text, behind which the document ends. */
  lemma OneNode(s: string, c: nat, n: Node, opts: Options)
    requires 0 < |s| && s[0] == '<' && IsNode(s, 0, c, n, 1, true, opts) && !IsDeclaration(n)
    requires EndsDocument(s, c, false, opts)
    ensures ParseDocument(s, opts) == Document(false, [n], Success, 0)
  {
    hide IsNode, EndsDocument, ParseList;
    StaysAt(s, 0);
    if Has(s, 0, BOM) { HasAt(s, 0, BOM, 0); }
    assert [n][1..] == [] && c <= |s| by { NodeInside(s, c, n, opts); }
    assert AreNodes(s, c, c, [], 1, false, opts);
    assert AreNodes(s, 0, c, [n], 1, true, opts);
    ParserAcceptsGrammar(s, opts, false, [n]);
  }

  lemma NodeInside(s: string, c: nat, n: Node, opts: Options)
    requires IsNode(s, 0, c, n, 1, true, opts)
    ensures c <= |s|
  {
  }

  // ----- Three texts -----

  /** A close tag that nothing opened ends the parse without an error, and what follows it is not looked at. */
  lemma StrayCloseTag(opts: Options)
    ensures ParseDocument("<a/></b>x", opts)
         == Document(false, [Element(Slice(1, 2, NAME_FLAGS), [], Closed, [], 1)], Success, 0)
  {
    var s := "<a/></b>x";
    var n := Element(Slice(1, 2, NAME_FLAGS), [], Closed, [], 1);
    NoOtherMarkup(s, 0);
    NoOtherMarkup(s, 4);
    assert s[2..4] == "/>";
    ShortTag(s, 1, 4, Closed, opts);
    ShortTag(s, 5, 8, ClosingTag, opts);
    hide SkipWhiteSpace, IsTag, KindAt, IsOpenElement;
    assert IsNode(s, 0, 4, n, 1, true, opts);
    assert IsCloseTag(s, 5, 8, Slice(6, 7, NAME_FLAGS), opts);
    assert ClosesAt(s, 4, 8, Slice(6, 7, NAME_FLAGS), false, opts);
    OneNode(s, 4, n, opts);
  }

  /** A closed element may begin with a slash. */
  lemma ClosedCloseTag(opts: Options)
    ensures ParseDocument("</a/>", opts)
         == Document(false, [Element(Slice(2, 3, NAME_FLAGS), [], Closed, [], 1)], Success, 0)
  {
    var s := "</a/>";
    var n := Element(Slice(2, 3, NAME_FLAGS), [], Closed, [], 1);
    NoOtherMarkup(s, 0);
    assert s[3..5] == "/>";
    ShortTag(s, 1, 5, Closed, opts);
    assert SkipWhiteSpace(s, 5) == 5;
    hide SkipWhiteSpace, IsTag, KindAt, IsOpenElement;
    assert IsNode(s, 0, 5, n, 1, true, opts);
    OneNode(s, 5, n, opts);
  }

  /** The attributes of a close tag are parsed and dropped. */
  lemma CloseTagAttributes(opts: Options)
    ensures ParseDocument("<a></a b=\"1\">", opts)
         == Document(false, [Element(Slice(1, 2, NAME_FLAGS), [], Open, [], 1)], Success, 0)
  {
    var s := "<a></a b=\"1\">";
    var n := Element(Slice(1, 2, NAME_FLAGS), [], Open, [], 1);
    assert SkipWhiteSpace(s, 13) == 13;
    WithAttributes(s, n, opts);
    hide SkipWhiteSpace, IsNode;
    OneNode(s, 13, n, opts);
  }

  lemma WithAttributes(s: string, n: Node, opts: Options)
    requires s == "<a></a b=\"1\">" && n == Element(Slice(1, 2, NAME_FLAGS), [], Open, [], 1)
    ensures IsNode(s, 0, 13, n, 1, true, opts)
  {
    hide SkipWhiteSpace, IsTag, KindAt, ClosesNamed, AreNodes;
    NoOtherMarkup(s, 0);
    ShortTag(s, 1, 3, Open, opts);
    ClosedWithAttributes(s, n.name, opts);
    NoChildren(s, opts);
    assert LineAt(s, 0) == 1;
    OpenHere(s, 3, 3, 13, n, opts);
  }

  lemma OpenHere(s: string, m: nat, c: nat, q: nat, n: Node, opts: Options)
    requires 0 < |s| && q <= |s| && SkipWhiteSpace(s, 0) == 0 && s[0] == '<' && KindAt(s, 0) == None
    requires n.Element? && n.closing == Open && n.line == LineAt(s, 0) && NoDeclarations(n.children)
    requires IsTag(s, 1, m, n.name, n.attrs, Open, opts) && m < |s|
    requires AreNodes(s, m, c, n.children, 2, true, opts) && ClosesNamed(s, c, q, n.name, n.children == [], opts)
    ensures IsNode(s, 0, q, n, 1, true, opts)
  {
    hide SkipWhiteSpace, IsTag, KindAt, ClosesNamed, AreNodes;
    assert IsOpenElement(s, 1, q, n, 2, opts);
  }

  lemma NoChildren(s: string, opts: Options)
    requires 3 <= |s|
    ensures AreNodes(s, 3, 3, [], 2, true, opts)
  {
  }

  lemma ClosedWithAttributes(s: string, name: Slice, opts: Options)
    requires s == "<a></a b=\"1\">" && name == Slice(1, 2, NAME_FLAGS)
    ensures ClosesNamed(s, 3, 13, name, true, opts)
  {
    var tag := Slice(5, 6, NAME_FLAGS);
    NoOtherMarkup(s, 3);
    LongCloseTag(s, opts);
    hide SkipWhiteSpace, IsTag, KindAt;
    assert s[1..2] == "a" == s[5..6];
    assert IsCloseTag(s, 4, 13, tag, opts);
    assert ClosesAt(s, 3, 13, tag, true, opts);
  }

  lemma LongCloseTag(s: string, opts: Options)
    requires s == "<a></a b=\"1\">"
    ensures exists attrs :: IsTag(s, 4, 13, Slice(5, 6, NAME_FLAGS), attrs, ClosingTag, opts)
  {
    var value := Slice(10, 11, Flags(opts.processEntities, true, false));
    var b := Attr(Slice(7, 8, NAME_FLAGS), value, LineAt(s, 7));
    StaysAt(s, 4);
    StaysAt(s, 7);
    StaysAt(s, 8);
    StaysAt(s, 9);
    StaysAt(s, 12);
    SkipIsUnique(s, 6, 7);
    hide SkipWhiteSpace, LineAt;
    assert IsAttr(s, b, opts);
    assert [b][1..] == [] && AreAttrs(s, 12, 12, [], opts);
    assert AreAttrs(s, 6, 12, [b], opts);
    assert EndsTag(s, 12, false, 13);
    assert IsTag(s, 4, 13, Slice(5, 6, NAME_FLAGS), [b], ClosingTag, opts);
  }
}
