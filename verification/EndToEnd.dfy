/** Printing with the printer, then parsing the printed bytes with the parser, in place. */
module EndToEnd {
  import opened Chars
  import opened Decode
  import opened Syntax
  import opened Render
  import opened Printer
  import opened Parser
  import opened RoundTrip
  import opened RoundTripTags

  lemma NulFreeConcat(a: string, b: string)
    ensures NulFree(a + b) <==> NulFree(a) && NulFree(b)
  {
    if NulFree(a + b) {
      assert forall i | 0 <= i < |a| :: a[i] == (a + b)[i];
      assert forall i | 0 <= i < |b| :: b[i] == (a + b)[|a| + i];
    }
  }

  lemma {:induction false} EscapeNulFree(v: string, restricted: bool)
    requires NulFree(v)
    ensures NulFree(Escape(v, restricted))
  {
    if v != "" {
      NulFreeConcat([v[0]], v[1..]);
      assert v == [v[0]] + v[1..];
      EscapeNulFree(v[1..], restricted);
      NulFreeConcat(EscapeChar(v[0], restricted), Escape(v[1..], restricted));
    }
  }

  lemma QuotedNulFree(v: string, restricted: bool, entities: bool)
    requires NulFree(v)
    ensures NulFree(Quoted(v, restricted, entities))
  {
    EscapeNulFree(v, restricted);
  }

  lemma BlankNulFree(s: string)
    requires AllWhiteSpace(s)
    ensures NulFree(s)
  {
    assert forall i | 0 <= i < |s| :: IsWhiteSpace(s[i]);
  }

  lemma {:induction false} AttrsNulFree(attrs: seq<(string, string)>, entities: bool)
    requires NormalAttrs(attrs)
    ensures NulFree(RenderAttrs(attrs, entities))
  {
    hide Quoted;
    if attrs != [] {
      var a := attrs[0];
      var v := Quoted(a.1, false, entities);
      NameNulFree(a.0);
      QuotedNulFree(a.1, false, entities);
      NulFreeConcat(a.0, "=\"");
      NulFreeConcat(a.0 + "=\"", v);
      NulFreeConcat(a.0 + "=\"" + v, "\"");
      AttrsNulFree(attrs[1..], entities);
      NulFreeConcat(" ", AttrText(a, entities));
      NulFreeConcat(" " + AttrText(a, entities), RenderAttrs(attrs[1..], entities));
    }
  }

  lemma {:induction false} NodeNulFree(t: Tree, compact: bool, depth: nat, at: Layout, limit: nat)
    requires NormalTree(t, limit)
    ensures NulFree(RenderNode(t, compact, depth, at).0)
    decreases t, 0
  {
    match t
    case TreeLeaf(kind, value) => LeafNulFree(kind, value, compact, depth, at);
    case TreeElement(name, attrs, children) =>
      var inside := AfterLead(compact, at);
      if children != [] {
        ListNulFree(children, compact, depth + 1, inside, limit - 1);
      }
      ElementNulFree(name, attrs, children, compact, depth, inside);
  }

  lemma LeafNulFree(kind: Kind, value: string, compact: bool, depth: nat, at: Layout)
    requires NormalLeaf(kind, value)
    ensures NulFree(RenderNode(TreeLeaf(kind, value), compact, depth, at).0)
  {
    hide Quoted;
    if kind == Text {
      QuotedNulFree(value, true, at.entities);
    } else {
      NulFreeConcat(Header(kind), value);
      NulFreeConcat(Header(kind) + value, EndTag(kind));
    }
  }

  lemma ElementNulFree(name: string, attrs: seq<(string, string)>, children: seq<Tree>, compact: bool, depth: nat,
                       inside: Layout)
    requires ValidName(name) && NormalAttrs(attrs)
    requires children != [] ==> NulFree(RenderList(children, compact, depth + 1, inside).0)
    ensures NulFree("<" + name + RenderAttrs(attrs, inside.entities)
            + RenderRest(name, children, compact, depth, inside).0)
  {
    hide RenderAttrs, RenderList, CloseLead;
    NameNulFree(name);
    var ra := RenderAttrs(attrs, inside.entities);
    AttrsNulFree(attrs, inside.entities);
    var (inner, at') := RenderList(children, compact, depth + 1, inside);
    var lead := CloseLead(compact, depth, at');
    BlankNulFree(lead);
    NulFreeConcat("<", name);
    NulFreeConcat("<" + name, ra);
    NulFreeConcat("<" + name + ra, RenderRest(name, children, compact, depth, inside).0);
    if children != [] {
      NulFreeConcat(">", inner);
      NulFreeConcat(">" + inner, lead);
      NulFreeConcat(">" + inner + lead, "</");
      NulFreeConcat(">" + inner + lead + "</", name);
      NulFreeConcat(">" + inner + lead + "</" + name, ">");
    }
  }

  lemma {:induction false} ListNulFree(ts: seq<Tree>, compact: bool, depth: nat, at: Layout, limit: nat)
    requires forall i | 0 <= i < |ts| :: NormalTree(ts[i], limit)
    ensures NulFree(RenderList(ts, compact, depth, at).0)
    decreases ts, 0
  {
    hide NodeLead, Trail, RenderNode;
    if ts != [] {
      var (node, at') := RenderNode(ts[0], compact, depth, at);
      var lead, trail, rest := NodeLead(ts[0], compact, depth, at), Trail(ts[0], compact, depth),
        RenderList(ts[1..], compact, depth, at').0;
      NodeNulFree(ts[0], compact, depth, at, limit);
      ListNulFree(ts[1..], compact, depth, at', limit);
      BlankNulFree(lead);
      BlankNulFree(trail);
      NulFreeConcat(lead, node);
      NulFreeConcat(lead + node, trail);
      NulFreeConcat(lead + node + trail, rest);
    }
  }

  /** The printed text is one C string. */
  lemma DocumentNulFree(d: TreeDocument, compact: bool, entities: bool)
    requires NormalDocument(d)
    ensures NulFree(RenderDocument(d, compact, entities))
  {
    hide RenderList, NormalTree;
    ListNulFree(d.children, compact, 0, Layout(-1, true, entities), 498);
    NulFreeConcat(if d.bom then BOM else "", RenderList(d.children, compact, 0, Layout(-1, true, entities)).0);
  }

  /** The document that is parsed from the printer's buffer is the one that was printed: no error, the same
      tree, and every string of it can be read from the parser's buffer, in any order. */
  method PrintAndParse(d: TreeDocument, compact: bool)
    returns (parser: XmlParser, bom: bool, children: seq<Node>)
    requires NormalDocument(d)
    ensures parser.Valid() && parser.opts == OPTIONS && parser.s == RenderDocument(d, compact)
    ensures parser.error == Success && bom == d.bom && ReadNodes(parser.s, children) == d.children
    ensures parser.Readable(children)
  {
    hide NormalDocument, ReadNodes, RenderDocument, XmlPrinter.Output, XmlParser.Readable, ParseDocument;
    var printer := new XmlPrinter(compact);
    printer.AcceptDocument(d, true);
    ghost var s := RenderDocument(d, compact);
    assert printer.Output() == "" + s == s;
    DocumentNulFree(d, compact, true);
    DocumentRoundTrip(d, compact);
    var buf := Copy(printer, s);
    parser := new XmlParser(buf, OPTIONS, s);
    bom, children := parser.Parse();
  }

  /** The parser works on a copy of the bytes before the printer's NUL. */
  method Copy(printer: XmlPrinter, ghost s: string) returns (buf: array<char>)
    requires printer.Valid() && printer.Output() == s
    ensures fresh(buf) && buf.Length == |s| + 1 && buf[..|s|] == s && buf[|s|] == NUL
  {
    var n := printer.buffer.size - 1;
    var mem := printer.buffer.mem;
    buf := new char[n + 1];
    forall i | 0 <= i <= n {
      buf[i] := mem[i];
    }
    assert mem[..n] == s;
    assert forall i | 0 <= i < n :: buf[i] == s[i];
  }
}
