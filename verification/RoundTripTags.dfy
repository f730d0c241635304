/** Printed tags and leaves are parsed back. */
module RoundTripTags {
  import opened Chars
  import opened Decode
  import opened Syntax
  import opened Render
  import opened RoundTripStrings

  const OPTIONS := Options(true, PreserveSpace)

  /** A valid name followed by another byte is read whole, and stands for itself. */
  lemma NameParses(s: string, p: nat, name: string)
    requires ValidName(name) && NulFree(name) && Has(s, p, name)
    requires p + |name| < |s| && !IsNameChar(s[p + |name|])
    ensures ParseName(s, p) == Some(p + |name|)
    ensures NameOf(s, Slice(p, p + |name|, NAME_FLAGS)) == name
    ensures ReadSlice(s, Slice(p, p + |name|, NAME_FLAGS)) == name
  {
    var e := p + |name|;
    forall i | p <= i < e ensures IsNameChar(s[i]) {
      HasAt(s, p, name, i - p);
    }
    HasAt(s, p, name, 0);
    NameEndIs(s, p + 1, e);
    NoFlagsKeep(name, 0);
    assert name[0..] == name;
    CStringOfNulFree(name);
  }

  lemma NameNulFree(name: string)
    requires ValidName(name)
    ensures NulFree(name)
  {
  }

  /** Text that stands where a space run could: nothing is skipped. */
  lemma NoSkip(s: string, p: nat)
    requires p < |s| && !IsWhiteSpace(s[p])
    ensures SkipWhiteSpace(s, p) == p
  {
  }

  function AttrOf(s: string, p: nat, attr: (string, string)): Attr {
    Attr(Slice(p, p + |attr.0|, NAME_FLAGS),
         Slice(p + |attr.0| + 2, p + |attr.0| + 2 + |Escape(attr.1, false)|, Flags(true, true, false)),
         if p <= |s| then LineAt(s, p) else 0)
  }

  lemma AttrTextSplit(s: string, p: nat, attr: (string, string))
    requires Has(s, p, AttrText(attr))
    ensures var eq, e := p + |attr.0|, Escape(attr.1, false);
            && Has(s, p, attr.0) && |AttrText(attr)| == |attr.0| + 2 + |e| + 1
            && eq + 1 < |s| && s[eq] == '=' && s[eq + 1] == '\"'
            && Has(s, eq + 2, e + "\"")
  {
    hide Escape;
    var (name, value) := attr;
    var e := Escape(value, false);
    HasConcat(s, p, name + "=\"" + e, "\"");
    HasConcat(s, p, name + "=\"", e);
    HasConcat(s, p, name, "=\"");
    HasAt(s, p + |name|, "=\"", 0);
    HasAt(s, p + |name|, "=\"", 1);
    HasConcat(s, p + |name| + 2, e, "\"");
  }

  /** The branches of the attribute parser, from where its parts end. */
  lemma AttrFrom(s: string, p: nat, eq: nat, end: nat)
    requires p < eq && eq + 1 < |s| && ParseName(s, p) == Some(eq)
    requires s[eq] == '=' && s[eq + 1] == '\"' && FindTag(s, eq + 2, "\"") == Some(end)
    ensures ParseAttr(s, p, OPTIONS)
            == Some((Attr(Slice(p, eq, NAME_FLAGS), Slice(eq + 2, end, Flags(true, true, false)), LineAt(s, p)),
                     end + 1))
  {
    hide ParseName, FindTag, LineAt, SkipWhiteSpace;
    NoSkip(s, eq);
    NoSkip(s, eq + 1);
    assert [s[eq + 1]] == "\"";
  }

  lemma AttrParses(s: string, p: nat, attr: (string, string))
    requires ValidName(attr.0) && NormalValue(attr.1) && Has(s, p, AttrText(attr))
    ensures ParseAttr(s, p, OPTIONS) == Some((AttrOf(s, p, attr), p + |AttrText(attr)|))
    ensures NameOf(s, AttrOf(s, p, attr).name) == attr.0
    ensures ReadSlice(s, AttrOf(s, p, attr).name) == attr.0
    ensures ReadSlice(s, AttrOf(s, p, attr).value) == attr.1
  {
    hide Escape, Value, FindTag, NameEnd, LineAt, ParseName, ParseAttr, AttrText, NormalValue, Has;
    AttrTextSplit(s, p, attr);
    NameNulFree(attr.0);
    NameParses(s, p, attr.0);
    var eq := p + |attr.0|;
    StringRoundTrip(s, eq + 2, attr.1, false);
    AttrFrom(s, p, eq, eq + 2 + |Escape(attr.1, false)|);
  }

  /** Printed attributes up to the end of the tag are parsed back, after those read already. */
  lemma {:induction false} AttrsParse(s: string, p: nat, attrs: seq<(string, string)>, close: string, line: nat,
                                      sofar: seq<Attr>)
    returns (r: seq<Attr>)
    requires NormalAttrs(attrs) && (close == ">" || close == "/>")
    requires Has(s, p, RenderAttrs(attrs) + close)
    requires forall i | 0 <= i < |attrs| :: !HasName(s, sofar, attrs[i].0)
    ensures ParseAttributes(s, p, OPTIONS, line, sofar)
            == AttrsOk(sofar + r, close == "/>", p + |RenderAttrs(attrs)| + |close|)
    ensures ReadAttrs(s, r) == attrs
    decreases attrs
  {
    if attrs == [] {
      r := [];
      assert RenderAttrs(attrs) + close == close && sofar + r == sofar;
      HasAt(s, p, close, 0);
      HasAt(s, p, close, |close| - 1);
      NoSkip(s, p);
    } else {
      r := MoreAttrsParse(s, p, attrs, close, line, sofar);
    }
  }

  lemma AttributesStep(s: string, p: nat, q: nat, opts: Options, line: nat, sofar: seq<Attr>, attr: Attr, next: nat)
    requires p <= |s| && SkipWhiteSpace(s, p) == q < |s| && IsNameStartChar(s[q])
    requires ParseAttr(s, q, opts) == Some((attr, next)) && !HasName(s, sofar, NameOf(s, attr.name))
    ensures ParseAttributes(s, p, opts, line, sofar) == ParseAttributes(s, next, opts, line, sofar + [attr])
  {
  }

  lemma AttrsTextSplit(attrs: seq<(string, string)>, close: string)
    requires attrs != []
    ensures RenderAttrs(attrs) + close == " " + AttrText(attrs[0]) + (RenderAttrs(attrs[1..]) + close)
    ensures |RenderAttrs(attrs)| == 1 + |AttrText(attrs[0])| + |RenderAttrs(attrs[1..])|
  {
    hide AttrText;
    var a, b := " " + AttrText(attrs[0]), RenderAttrs(attrs[1..]);
    assert RenderAttrs(attrs) == a + b;
    hide RenderAttrs;
    assert a + b + close == a + (b + close);
  }

  lemma StillNew(s: string, sofar: seq<Attr>, attr: Attr, attrs: seq<(string, string)>)
    requires attrs != [] && NormalAttrs(attrs) && NameOf(s, attr.name) == attrs[0].0
    requires forall i | 0 <= i < |attrs| :: !HasName(s, sofar, attrs[i].0)
    ensures NormalAttrs(attrs[1..])
    ensures forall i | 0 <= i < |attrs[1..]| :: !HasName(s, sofar + [attr], attrs[1..][i].0)
  {
    forall i | 0 <= i < |attrs[1..]| ensures !HasName(s, sofar + [attr], attrs[1..][i].0) {
      assert attrs[1..][i] == attrs[i + 1];
      assert !HasName(s, sofar, attrs[i + 1].0);
      assert forall k | 0 <= k < |sofar + [attr]| ::
          (sofar + [attr])[k] == if k < |sofar| then sofar[k] else attr;
    }
  }

  lemma {:induction false} MoreAttrsParse(s: string, p: nat, attrs: seq<(string, string)>, close: string, line: nat,
                                          sofar: seq<Attr>)
    returns (r: seq<Attr>)
    requires NormalAttrs(attrs) && (close == ">" || close == "/>") && attrs != []
    requires Has(s, p, RenderAttrs(attrs) + close)
    requires forall i | 0 <= i < |attrs| :: !HasName(s, sofar, attrs[i].0)
    ensures ParseAttributes(s, p, OPTIONS, line, sofar)
            == AttrsOk(sofar + r, close == "/>", p + |RenderAttrs(attrs)| + |close|)
    ensures ReadAttrs(s, r) == attrs
    decreases attrs, 0
  {
    hide Escape, ParseAttr, ReadSlice, LineAt, SkipWhiteSpace, ParseAttributes, RenderAttrs, NameOf, HasName,
         AttrText, Has;
    var text := AttrText(attrs[0]);
    AttrStarts(s, p, attrs, close);
    AttrParses(s, p + 1, attrs[0]);
    var attr, next := AttrOf(s, p + 1, attrs[0]), p + 1 + |text|;
    AttributesStep(s, p, p + 1, OPTIONS, line, sofar, attr, next);
    StillNew(s, sofar, attr, attrs);
    var r' := AttrsParse(s, next, attrs[1..], close, line, sofar + [attr]);
    r := [attr] + r';
    assert sofar + [attr] + r' == sofar + r;
    assert r[1..] == r';
    assert attrs == [attrs[0]] + attrs[1..];
  }

  /** One blank, the first attribute and the rest. */
  lemma AttrStarts(s: string, p: nat, attrs: seq<(string, string)>, close: string)
    requires NormalAttrs(attrs) && attrs != [] && Has(s, p, RenderAttrs(attrs) + close)
    ensures var text := AttrText(attrs[0]);
            && p + 1 < |s| && SkipWhiteSpace(s, p) == p + 1 && IsNameStartChar(s[p + 1])
            && Has(s, p + 1, text) && Has(s, p + 1 + |text|, RenderAttrs(attrs[1..]) + close)
            && |RenderAttrs(attrs)| == 1 + |text| + |RenderAttrs(attrs[1..])|
  {
    hide Escape, RenderAttrs, Has;
    var text, rest := AttrText(attrs[0]), RenderAttrs(attrs[1..]);
    AttrsTextSplit(attrs, close);
    HasConcat(s, p, " " + text, rest + close);
    HasConcat(s, p, " ", text);
    HasInside(s, p + 1, text);
    HasAt(s, p, " ", 0);
    HasAt(s, p + 1, text, 0);
    assert text[0] == attrs[0].0[0];
    SkipIsUnique(s, p, p + 1);
  }

  /** A printed tag after its `<`: name, attributes and `>` or `/>`. */
  lemma HeadParses(s: string, p: nat, name: string, attrs: seq<(string, string)>, close: string, line: nat)
    returns (r: seq<Attr>)
    requires ValidName(name) && NormalAttrs(attrs) && (close == ">" || close == "/>")
    requires Has(s, p, name + (RenderAttrs(attrs) + close))
    ensures ParseHead(s, p, line, OPTIONS)
            == Head(Slice(p, p + |name|, NAME_FLAGS), r, if close == ">" then Open else Closed,
                    p + |name| + |RenderAttrs(attrs)| + |close|)
    ensures ReadAttrs(s, r) == attrs
    ensures NameOf(s, Slice(p, p + |name|, NAME_FLAGS)) == ReadSlice(s, Slice(p, p + |name|, NAME_FLAGS)) == name
  {
    hide ParseAttributes, ReadSlice, NameEnd, Value, ReadAttrs, NameOf, ParseName, ParseHead, Has, RenderAttrs;
    HeadStarts(s, p, name, attrs, close);
    NameNulFree(name);
    NameParses(s, p, name);
    r := AttrsParse(s, p + |name|, attrs, close, line, []);
    assert [] + r == r;
    HeadFrom(s, p, p + |name|, line, r, close == "/>", p + |name| + |RenderAttrs(attrs)| + |close|);
  }

  /** Behind the name stands a blank or the end of the tag. */
  lemma HeadStarts(s: string, p: nat, name: string, attrs: seq<(string, string)>, close: string)
    requires ValidName(name) && (close == ">" || close == "/>") && Has(s, p, name + (RenderAttrs(attrs) + close))
    ensures Has(s, p, name) && Has(s, p + |name|, RenderAttrs(attrs) + close)
    ensures p + |name| < |s| && s[p] == name[0] && !IsNameChar(s[p + |name|])
  {
    hide Has;
    HasConcat(s, p, name, RenderAttrs(attrs) + close);
    HasAt(s, p, name, 0);
    HasInside(s, p + |name|, RenderAttrs(attrs) + close);
    HasAt(s, p + |name|, RenderAttrs(attrs) + close, 0);
  }

  lemma HeadFrom(s: string, p: nat, nameEnd: nat, line: nat, attrs: seq<Attr>, closed: bool, next: nat)
    requires p < |s| && IsNameStartChar(s[p]) && p < nameEnd && ParseName(s, p) == Some(nameEnd)
    requires ParseAttributes(s, nameEnd, OPTIONS, line, []) == AttrsOk(attrs, closed, next)
    ensures ParseHead(s, p, line, OPTIONS)
            == Head(Slice(p, nameEnd, NAME_FLAGS), attrs, if closed then Closed else Open, next)
  {
    NoSkip(s, p);
  }

  /** A byte that opens markup is found where it stands. */
  lemma ElementFound(s: string, p: nat, first: bool)
    requires p + 1 < |s| && s[p] == '<' && (IsNameStartChar(s[p + 1]) || s[p + 1] == '/')
    ensures Identify(s, p, first, OPTIONS) == FoundElement(LineAt(s, p), p + 1)
  {
    NoSkip(s, p);
    HasChar(s, p);
    NotHas(s, p, "<?", 1);
    NotHas(s, p, "<!--", 1);
    NotHas(s, p, "<![CDATA[", 1);
    NotHas(s, p, "<!", 1);
  }

  lemma NotHas(s: string, p: nat, x: string, i: nat)
    requires i < |x| && p + i < |s| && s[p + i] != x[i]
    ensures !Has(s, p, x)
  {
    if Has(s, p, x) {
      HasAt(s, p, x, i);
      assert false;
    }
  }

  /** A printed leaf other than text is found and cut back. */
  lemma LeafParses(s: string, p: nat, kind: Kind, v: string, first: bool)
    requires kind != Text && NormalLeaf(kind, v)
    requires Has(s, p, Header(kind) + v + EndTag(kind))
    ensures Identify(s, p, first, OPTIONS) == FoundLeaf(kind, LineAt(s, p), p + |Header(kind)|)
    ensures var at := p + |Header(kind)|;
            var node := Leaf(kind, Slice(at, at + |v|, LeafFlags(kind, OPTIONS)), LineAt(s, p));
            && ParseLeaf(s, kind, at, LineAt(s, p), OPTIONS) == NodeOk(node, at + |v| + |EndTag(kind)|, None)
            && ReadNode(s, node) == TreeLeaf(kind, v)
  {
    hide LineAt, Value, FindTag, Has, Identify;
    var at := p + |Header(kind)|;
    HasConcat(s, p, Header(kind) + v, EndTag(kind));
    HasConcat(s, p, Header(kind), v);
    HeaderFound(s, p, kind, v, first);
    HasInside(s, at, v);
    CutAtTag(s, at, v, kind);
    PlainValue(v, LeafFlags(kind, OPTIONS));
  }

  lemma HeaderFound(s: string, p: nat, kind: Kind, v: string, first: bool)
    requires kind != Text && NormalLeaf(kind, v)
    requires Has(s, p, Header(kind)) && Has(s, p + |Header(kind)|, v)
    requires Has(s, p + |Header(kind)| + |v|, EndTag(kind))
    ensures Identify(s, p, first, OPTIONS) == FoundLeaf(kind, LineAt(s, p), p + |Header(kind)|)
  {
    hide LineAt, NormalValue, Contains, Has;
    HasInside(s, p, Header(kind));
    HasAt(s, p, Header(kind), 0);
    HasAt(s, p, Header(kind), 1);
    NoSkip(s, p);
    match kind {
      case Declaration =>
      case Comment =>
        NotHas(s, p, "<?", 1);
      case CData =>
        HasAt(s, p, Header(kind), 2);
        NotHas(s, p, "<?", 1);
        NotHas(s, p, "<!--", 2);
      case Unknown =>
        NotHas(s, p, "<?", 1);
        if Has(s, p, "<!" + "--") { HasUnder(s, p, v, "--"); }
        if Has(s, p, "<!" + "[CDATA[") { HasUnder(s, p, v, "[CDATA["); }
        assert "<!" + "--" == "<!--" && "<!" + "[CDATA[" == "<![CDATA[";
    }
  }

  /** An unknown node that looks like `<!x` starts with `x`. */
  lemma HasUnder(s: string, p: nat, v: string, x: string)
    requires Has(s, p, "<!" + x) && Has(s, p + 2, v) && Has(s, p + 2 + |v|, ">") && '>' !in x
    ensures Has(v, 0, x)
  {
    HasConcat(s, p, "<!", x);
    if |v| < |x| {
      HasAt(s, p + 2, x, |v|);
      HasAt(s, p + 2 + |v|, ">", 0);
    } else {
      assert v[0..|x|] == s[p + 2..p + 2 + |x|];
    }
  }

  lemma {:induction false} EscapeNotBlank(v: string, restricted: bool) returns (k: nat)
    requires !AllWhiteSpace(v)
    ensures k < |Escape(v, restricted)| && !IsWhiteSpace(Escape(v, restricted)[k])
  {
    if IsWhiteSpace(v[0]) {
      assert EscapeChar(v[0], restricted) == [v[0]];
      var i :| 0 <= i < |v| && !IsWhiteSpace(v[i]);
      assert v[1..][i - 1] == v[i];
      k := EscapeNotBlank(v[1..], restricted);
      k := k + 1;
    } else {
      k := 0;
      EscapeHead(v, restricted);
    }
  }

  /** Printed text with a tag behind it is found, with the white space at its start, and cut back. */
  lemma TextParses(s: string, p: nat, v: string, first: bool)
    requires NormalLeaf(Text, v) && Has(s, p, Escape(v, true))
    requires var end := p + |Escape(v, true)|; end + 1 < |s| && s[end] == '<'
    ensures var line := LineAt(s, SkipWhiteSpace(s, p));
            var end := p + |Escape(v, true)|;
            var node := Leaf(Text, Slice(p, end, LeafFlags(Text, OPTIONS)), line);
            && p < end
            && Identify(s, p, first, OPTIONS) == FoundLeaf(Text, line, p)
            && ParseLeaf(s, Text, p, line, OPTIONS) == NodeOk(node, end, None)
            && ReadNode(s, node) == TreeLeaf(Text, v)
  {
    hide LineAt, Value, FindTag, Escape, Has;
    HasInside(s, p, Escape(v, true));
    var e := Escape(v, true);
    var k := EscapeNotBlank(v, true);
    HasAt(s, p, e, k);
    EscapeFreeOf(v, true, '<');
    var q := SkipWhiteSpace(s, p);
    assert q <= p + k;
    HasAt(s, p, e, q - p);
    assert e[q - p] in e;
    NotHas(s, q, "<?", 0);
    NotHas(s, q, "<!--", 0);
    NotHas(s, q, "<![CDATA[", 0);
    NotHas(s, q, "<!", 0);
    NotHas(s, q, "<", 0);
    HasChar(s, p + |e|);
    HasConcat(s, p, e, "<");
    StringRoundTrip(s, p, v, true);
  }
}
