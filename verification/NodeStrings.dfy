/** Which string each part of a parsed node stands for, by its kind and the options. */
module NodeStrings {
  import opened Chars
  import opened Decode
  import opened Syntax
  import opened Grammar
  import opened ParserGrammar
  import opened ParsedStrings
  import opened Render

  function Raw(s: string, slice: Slice): string {
    if slice.start <= slice.end <= |s| then s[slice.start..slice.end] else ""
  }

  /** The C string that is left of a raw text with its line ends normalized and, if they are processed, its
      entities decoded in place. */
  function Decoded(raw: string, entities: bool): string {
    CString(InPlace(raw, Flags(entities, true, false), 0, 0))
  }

  /** Text is decoded, and split into words that single spaces join, as the options say. */
  function TextString(raw: string, opts: Options): string {
    var decoded := Decoded(raw, opts.processEntities);
    if opts.whitespace == CollapseSpace then Join(Words(decoded)) else decoded
  }

  predicate AttrReads(s: string, a: Attr, opts: Options) {
    && ReadSlice(s, a.name) == CString(Raw(s, a.name))
    && ReadSlice(s, a.value) == Decoded(Raw(s, a.value), opts.processEntities)
  }

  /** Names are as they stand, attribute values are decoded but never collapsed, text goes by the options, and of
      any other markup only the line ends are touched. */
  predicate NodeReads(s: string, n: Node, opts: Options) {
    match n
    case Leaf(Text, value, _) => ReadSlice(s, value) == TextString(Raw(s, value), opts)
    case Leaf(_, value, _) => ReadSlice(s, value) == Decoded(Raw(s, value), false)
    case Element(name, attrs, _, children, _) =>
      && ReadSlice(s, name) == CString(Raw(s, name))
      && (forall i | 0 <= i < |attrs| :: AttrReads(s, attrs[i], opts))
      && forall i | 0 <= i < |children| :: NodeReads(s, children[i], opts)
  }

  // ----- Slices by their flags -----

  lemma {:induction false} CollapseInPlace(t: string, entity: bool, newline: bool, i: nat, j: nat)
    requires j <= i <= |t|
    ensures InPlace(t, Flags(entity, newline, true), i, j) == InPlace(t, Flags(entity, newline, false), i, j)
    decreases |t| - i
  {
    hide DecodeStep, InPlace, Ideal, NoStaleByte;
    UnfoldDecoders(t, Flags(entity, newline, true), i, j);
    UnfoldDecoders(t, Flags(entity, newline, false), i, j);
    if i < |t| {
      SameStep(t[i..], entity, newline);
      var s := DecodeStep(t[i..], Flags(entity, newline, false));
      CollapseInPlace(t, entity, newline, i + s.Used(), j + s.Width());
    }
  }

  /** The collapse flag is not looked at while decoding. */
  lemma SameStep(u: string, entity: bool, newline: bool)
    requires u != ""
    ensures DecodeStep(u, Flags(entity, newline, true)) == DecodeStep(u, Flags(entity, newline, false))
  {
  }

  lemma ReadsDecoded(s: string, value: Slice, opts: Options, collapse: bool)
    requires value.start <= value.end <= |s| && value.flags.newline && value.flags.collapse == collapse
    ensures var decoded := Decoded(Raw(s, value), value.flags.entity);
            ReadSlice(s, value) == if collapse then Join(Words(decoded)) else decoded
  {
    hide InPlace, CString, Words, Join, Collapse;
    var raw := Raw(s, value);
    CollapseInPlace(raw, value.flags.entity, true, 0, 0);
    CollapseIsJoin(Decoded(raw, value.flags.entity));
    assert value.flags == Flags(value.flags.entity, true, collapse);
  }

  lemma ReadsRaw(s: string, name: Slice)
    requires IsName(s, name)
    ensures ReadSlice(s, name) == CString(Raw(s, name))
  {
    hide InPlace, CString;
    var raw := Raw(s, name);
    NoFlagsKeep(raw, 0);
    assert raw[0..] == raw;
  }

  // ----- Nodes of the grammar -----

  lemma {:induction false} AttrsRead(s: string, p: nat, q: nat, attrs: seq<Attr>, opts: Options)
    requires AreAttrs(s, p, q, attrs, opts)
    ensures forall i | 0 <= i < |attrs| :: AttrReads(s, attrs[i], opts)
    decreases attrs
  {
    hide SkipWhiteSpace, IsAttr, AttrReads;
    if attrs != [] {
      OneAttrReads(s, attrs[0], opts);
      AttrsRead(s, attrs[0].value.end + 1, q, attrs[1..], opts);
      forall i | 0 <= i < |attrs| ensures AttrReads(s, attrs[i], opts) {
        assert i > 0 ==> attrs[i] == attrs[1..][i - 1];
      }
    }
  }

  lemma OneAttrReads(s: string, a: Attr, opts: Options)
    requires IsAttr(s, a, opts)
    ensures AttrReads(s, a, opts)
  {
    hide SkipWhiteSpace, Decoded, ReadSlice, Raw, Words, Join;
    ReadsRaw(s, a.name);
    ReadsDecoded(s, a.value, opts, false);
  }

  lemma TagReads(s: string, p: nat, q: nat, name: Slice, attrs: seq<Attr>, closing: Closing, opts: Options)
    requires IsTag(s, p, q, name, attrs, closing, opts)
    ensures ReadSlice(s, name) == CString(Raw(s, name))
    ensures forall i | 0 <= i < |attrs| :: AttrReads(s, attrs[i], opts)
  {
    hide AreAttrs, DistinctNames, SkipWhiteSpace, IsName, ReadSlice, Raw, CString, AttrReads;
    var m: nat :| AreAttrs(s, name.end, m, attrs, opts) && EndsTag(s, m, closing == Closed, q)
         && (closing != Closed ==> closing == if s[SkipWhiteSpace(s, p)] == '/' then ClosingTag else Open);
    ReadsRaw(s, name);
    AttrsRead(s, name.end, m, attrs, opts);
  }

  lemma LeafReads(s: string, p: nat, q: nat, n: Node, depth: nat, first: bool, opts: Options)
    requires IsNode(s, p, q, n, depth, first, opts) && n.Leaf?
    ensures NodeReads(s, n, opts)
  {
    hide SkipWhiteSpace, LineAt, KindAt, Has, PedanticText, ReadSlice, Raw, Decoded, Words, Join;
    HasInside(s, n.value.end, Marks(n.kind).1);
    ReadsDecoded(s, n.value, opts, n.value.flags.collapse);
  }

  lemma {:induction false} NodeIsRead(s: string, p: nat, q: nat, n: Node, depth: nat, first: bool, opts: Options)
    requires IsNode(s, p, q, n, depth, first, opts)
    ensures NodeReads(s, n, opts)
    decreases n, 0
  {
    hide IsNode, AreNodes, IsTag, ClosesNamed, NodeReads;
    if n.Leaf? {
      LeafReads(s, p, q, n, depth, first, opts);
    } else if n.closing == Open {
      var b, m, c := OpenParts(s, p, q, n, depth, first, opts);
      TagReads(s, b + 1, m, n.name, n.attrs, Open, opts);
      NodesRead(s, m, c, n.children, depth + 1, true, opts);
      ElementReads(s, n, opts);
    } else {
      var b := ClosedTag(s, p, q, n, depth, first, opts);
      TagReads(s, b + 1, q, n.name, n.attrs, Closed, opts);
      ElementReads(s, n, opts);
    }
  }

  lemma ElementReads(s: string, n: Node, opts: Options)
    requires n.Element? && ReadSlice(s, n.name) == CString(Raw(s, n.name))
    requires forall i | 0 <= i < |n.attrs| :: AttrReads(s, n.attrs[i], opts)
    requires forall i | 0 <= i < |n.children| :: NodeReads(s, n.children[i], opts)
    ensures NodeReads(s, n, opts)
  {
    hide ReadSlice, Raw, CString, AttrReads;
  }

  lemma ClosedTag(s: string, p: nat, q: nat, n: Node, depth: nat, first: bool, opts: Options) returns (b: nat)
    requires IsNode(s, p, q, n, depth, first, opts) && n.Element? && n.closing != Open
    ensures n.children == [] && IsTag(s, b + 1, q, n.name, n.attrs, Closed, opts)
  {
    hide IsTag, KindAt, PedanticText, SkipWhiteSpace, LineAt;
    b := SkipWhiteSpace(s, p);
  }

  lemma {:induction false} NodesRead(s: string, p: nat, q: nat, ns: seq<Node>, depth: nat, first: bool, opts: Options)
    requires AreNodes(s, p, q, ns, depth, first, opts)
    ensures forall i | 0 <= i < |ns| :: NodeReads(s, ns[i], opts)
    decreases ns, 0
  {
    hide IsNode, NodeReads;
    if ns != [] {
      var m: nat :| IsNode(s, p, m, ns[0], depth, first, opts) && AreNodes(s, m, q, ns[1..], depth, false, opts);
      NodeIsRead(s, p, m, ns[0], depth, first, opts);
      NodesRead(s, m, q, ns[1..], depth, false, opts);
      forall i | 0 <= i < |ns| ensures NodeReads(s, ns[i], opts) {
        assert i > 0 ==> ns[i] == ns[1..][i - 1];
      }
    }
  }

  /** For every text and all options, with an error or without: the strings of the nodes that a parse has linked. */
  lemma DocumentStrings(s: string, opts: Options)
    ensures var nodes := ParseDocument(s, opts).nodes;
            forall i | 0 <= i < |nodes| :: NodeReads(s, nodes[i], opts)
  {
    hide ParseDocument, AreNodes, NodeReads, DeclarationsFirst;
    var q, c := DocumentNodes(s, opts);
    NodesRead(s, q, c, ParseDocument(s, opts).nodes, 1, true, opts);
  }
}
