/** The printer as it runs: a buffer that always ends in one NUL, a stack of open elements, and the state
    that decides about white space. Proved against the text of `Render`. */
module Printer {
  import opened Chars
  import opened Decode
  import opened Syntax
  import opened Render
  import opened DynArrays

  class XmlPrinter {
    const buffer: DynArray<char>
    const compact: bool
    var depth: int
    var textDepth: int
    var firstElement: bool
    var elementJustOpened: bool
    var processEntities: bool
    var stack: seq<string>

    /** One NUL stands behind all that was written. */
    ghost predicate Terminated()
      reads buffer, buffer.mem
    {
      buffer.Valid() && buffer.size > 0 && buffer.mem[buffer.size - 1] == NUL
    }

    /** There is one open element on the stack per level. */
    ghost predicate Valid()
      reads this, buffer, buffer.mem
    {
      Terminated() && depth == |stack| && (elementJustOpened ==> stack != [])
    }

    /** Everything written so far. */
    ghost function Output(): string
      reads buffer, buffer.mem
      requires Terminated()
    {
      buffer.mem[..buffer.size - 1]
    }

    function At(): Layout
      reads this
    {
      Layout(textDepth, firstElement, processEntities)
    }

    constructor (compact: bool)
      ensures Valid() && fresh(buffer) && fresh(buffer.mem) && this.compact == compact
      ensures Output() == "" && stack == [] && !elementJustOpened && processEntities && At() == Layout(-1, true)
    {
      this.compact := compact;
      depth, textDepth, firstElement, elementJustOpened, processEntities, stack := 0, -1, true, false, true, [];
      buffer := new DynArray<char>(20);
      new;
      buffer.Push(NUL);
    }

    /** `Write`: the NUL moves behind the new bytes. */
    method Write(data: string)
      requires Valid()
      modifies buffer, buffer.mem
      ensures Valid() && Output() == old(Output()) + data
      ensures buffer.mem == old(buffer.mem) || fresh(buffer.mem)
    {
      ghost var before := Output();
      var p := buffer.PushArr(|data|);
      assert forall k | 0 <= k < |before| :: buffer.mem[k] == before[k] by {
        assert forall k | 0 <= k < p :: buffer.mem[k] == buffer.mem[..p][k];
      }
      p := p - 1;
      Memcpy(buffer.mem, p, data);
      buffer.mem[p + |data|] := NUL;
      assert Output() == before + data;
    }

    static method Memcpy(dst: array<char>, at: nat, data: string)
      requires at + |data| < dst.Length
      modifies dst
      ensures forall k | 0 <= k < |data| :: dst[at + k] == data[k]
      ensures forall k | 0 <= k < at :: dst[k] == old(dst[k])
    {
      forall k | 0 <= k < |data| {
        dst[at + k] := data[k];
      }
    }

    method Putc(ch: char)
      requires Valid()
      modifies buffer, buffer.mem
      ensures Valid() && Output() == old(Output()) + [ch]
      ensures buffer.mem == old(buffer.mem) || fresh(buffer.mem)
    {
      Write([ch]);
    }

    method PrintSpace(n: nat)
      requires Valid()
      modifies buffer, buffer.mem
      ensures Valid() && Output() == old(Output()) + Indent(n)
      ensures buffer.mem == old(buffer.mem) || fresh(buffer.mem)
    {
      var i := 0;
      while i < n
        invariant 0 <= i <= n && Valid() && (buffer.mem == old(buffer.mem) || fresh(buffer.mem))
        invariant Output() + Indent(n - i) == old(Output()) + Indent(n)
      {
        ghost var before := Output();
        Write("    ");
        assert before + ("    " + Indent(n - i - 1)) == (before + "    ") + Indent(n - i - 1);
        i := i + 1;
      }
    }

    /** `PrintString`: runs between entities are written at once, each entity by its pattern. */
    method PrintString(v: string, restricted: bool)
      requires Valid()
      modifies buffer, buffer.mem
      ensures Valid() && Output() == old(Output()) + Quoted(v, restricted, processEntities)
      ensures buffer.mem == old(buffer.mem) || fresh(buffer.mem)
    {
      if !processEntities {
        Write(v);
        return;
      }
      hide Escape, EscapeChar, Pattern, Output;
      ghost var start := Output();
      var p, q := 0, 0;
      EscapeEmpty(restricted);
      assert v[..0] == "" && v[0..0] == "";
      while q < |v|
        invariant 0 <= p <= q <= |v| && Valid() && (buffer.mem == old(buffer.mem) || fresh(buffer.mem))
        invariant Output() + v[p..q] == start + Escape(v[..q], restricted)
      {
        RunGrows(start, Output(), v, p, q, restricted);
        if v[q] as int < 64 && Escaped(v[q], restricted) {
          PrintRun(v, p, q);
          PrintEntity(v[q]);
          p := q + 1;
          assert v[p..q + 1] == "";
        }
        q := q + 1;
      }
      assert v[..q] == v;
      PrintRun(v, p, q);
    }

    /** The bytes gathered since the last entity are flushed. */
    method PrintRun(v: string, p: nat, q: nat)
      requires Valid() && p <= q <= |v|
      modifies buffer, buffer.mem
      ensures Valid() && Output() == old(Output()) + v[p..q]
      ensures buffer.mem == old(buffer.mem) || fresh(buffer.mem)
    {
      if p < q {
        Write(v[p..q]);
      }
    }

    /** One more byte, escaped or not. */
    static lemma RunGrows(start: string, out: string, v: string, p: nat, q: nat, restricted: bool)
      requires p <= q < |v| && out + v[p..q] == start + Escape(v[..q], restricted)
      ensures Escaped(v[q], restricted) ==> v[q] as int < 64
      ensures (out + v[p..q]) + EscapeChar(v[q], restricted) == start + Escape(v[..q + 1], restricted)
      ensures !Escaped(v[q], restricted) ==> out + v[p..q + 1] == start + Escape(v[..q + 1], restricted)
      ensures Escaped(v[q], restricted) ==> EscapeChar(v[q], restricted) == Pattern(v[q])
    {
      hide Escape, Pattern;
      EscapeSnoc(v, q, restricted);
      assert v[p..q + 1] == v[p..q] + [v[q]];
      var e := EscapeChar(v[q], restricted);
      assert (start + Escape(v[..q], restricted)) + e == start + (Escape(v[..q], restricted) + e);
      assert out + (v[p..q] + [v[q]]) == (out + v[p..q]) + [v[q]];
    }

    /** The loop over the entity table: it stops at the entity of the character. */
    method PrintEntity(c: char)
      requires Valid() && Escaped(c, false)
      modifies buffer, buffer.mem
      ensures Valid() && Output() == old(Output()) + Pattern(c)
      ensures buffer.mem == old(buffer.mem) || fresh(buffer.mem)
    {
      hide Pattern, Output, Escaped;
      ghost var k := EntityOf(c);
      ghost var before := Output();
      var i := 0;
      while ENTITIES[i].1 != c
        invariant 0 <= i <= k
        decreases k - i
      {
        i := i + 1;
      }
      assert i == k;
      Putc('&');
      Write(ENTITIES[i].0);
      Putc(';');
      assert before + ['&'] + ENTITIES[i].0 + [';'] == before + ("&" + ENTITIES[i].0 + ";");
    }

    static lemma EntityOf(c: char) returns (k: nat)
      requires Escaped(c, false)
      ensures k < |ENTITIES| && ENTITIES[k].1 == c && Pattern(c) == "&" + ENTITIES[k].0 + ";"
      ensures forall j | 0 <= j < k :: ENTITIES[j].1 != c
    {
      k := if c == '\"' then 0 else if c == '&' then 1 else if c == '\'' then 2 else if c == '<' then 3 else 4;
    }

    static lemma EscapeEmpty(restricted: bool)
      ensures Escape("", restricted) == ""
    {
    }

    static lemma EscapeSnoc(v: string, q: nat, restricted: bool)
      requires q < |v|
      ensures Escape(v[..q + 1], restricted) == Escape(v[..q], restricted) + EscapeChar(v[q], restricted)
    {
      assert v[..q + 1] == v[..q] + [v[q]];
      EscapeConcat(v[..q], [v[q]], restricted);
      assert [v[q]][1..] == "";
      assert Escape([v[q]], restricted) == EscapeChar(v[q], restricted) + Escape("", restricted);
    }

    static lemma {:induction false} EscapeConcat(a: string, b: string, restricted: bool)
      ensures Escape(a + b, restricted) == Escape(a, restricted) + Escape(b, restricted)
      decreases a
    {
      hide EscapeChar;
      if a == "" {
        assert a + b == b;
      } else {
        assert (a + b)[1..] == a[1..] + b;
        EscapeConcat(a[1..], b, restricted);
      }
    }

    // ----- Markup -----

    /** What `SealElementIfJustOpened` writes. */
    static function Seal(open: bool): string {
      if open then ">" else ""
    }

    method SealElementIfJustOpened()
      requires Valid()
      modifies this, buffer, buffer.mem
      ensures Valid() && Output() == old(Output()) + Seal(old(elementJustOpened)) && !elementJustOpened
      ensures At() == old(At()) && stack == old(stack) && processEntities == old(processEntities)
      ensures buffer.mem == old(buffer.mem) || fresh(buffer.mem)
    {
      if elementJustOpened {
        elementJustOpened := false;
        Putc('>');
      }
    }

    /** White space goes only where neither neighbour is text. */
    method PrepareForNewNode()
      requires Valid()
      modifies this, buffer, buffer.mem
      ensures Valid() && !elementJustOpened
      ensures Output() == old(Output()) + Seal(old(elementJustOpened)) + Lead(compact, |stack|, old(At()))
      ensures At() == AfterLead(compact, old(At()))
      ensures stack == old(stack) && processEntities == old(processEntities)
      ensures buffer.mem == old(buffer.mem) || fresh(buffer.mem)
    {
      hide Output, Indent;
      SealElementIfJustOpened();
      ghost var sealed := Output();
      if compact {
        return;
      }
      if firstElement {
        PrintSpace(depth);
      } else if textDepth < 0 {
        Putc('\n');
        PrintSpace(depth);
        assert (sealed + ['\n']) + Indent(depth) == sealed + ("\n" + Indent(depth));
      }
      firstElement := false;
    }

    method OpenElement(name: string)
      requires Valid()
      modifies this, buffer, buffer.mem
      ensures Valid() && elementJustOpened && stack == old(stack) + [name]
      ensures Output() ==
              old(Output()) + Seal(old(elementJustOpened)) + Lead(compact, |old(stack)|, old(At())) + ("<" + name)
      ensures At() == AfterLead(compact, old(At())) && processEntities == old(processEntities)
      ensures buffer.mem == old(buffer.mem) || fresh(buffer.mem)
    {
      hide Output, Indent, Lead;
      PrepareForNewNode();
      ghost var before := Output();
      stack := stack + [name];
      depth := depth + 1;
      Write("<");
      Write(name);
      assert (before + "<") + name == before + ("<" + name);
      elementJustOpened := true;
    }

    method PushAttribute(name: string, value: string)
      requires Valid() && elementJustOpened
      modifies buffer, buffer.mem
      ensures Valid()
      ensures Output() == old(Output()) + (" " + (name + "=\"" + Quoted(value, false, processEntities) + "\""))
      ensures buffer.mem == old(buffer.mem) || fresh(buffer.mem)
    {
      hide Output, Quoted;
      ghost var before := Output();
      Putc(' ');
      Write(name);
      Write("=\"");
      PrintString(value, false);
      Putc('\"');
      ghost var v := Quoted(value, false, processEntities);
      assert before + [' '] + name + "=\"" + v + ['\"'] == before + (" " + (name + "=\"" + v + "\""));
    }

    method PrintCloseTag(name: string)
      requires Valid()
      modifies buffer, buffer.mem
      ensures Valid() && Output() == old(Output()) + (CloseLead(compact, |stack|, At()) + "</" + name + ">")
      ensures buffer.mem == old(buffer.mem) || fresh(buffer.mem)
    {
      hide Output, Indent;
      ghost var before := Output();
      ghost var lead := CloseLead(compact, |stack|, At());
      if textDepth < 0 && !compact {
        Putc('\n');
        PrintSpace(depth);
        assert (before + ['\n']) + Indent(depth) == before + ("\n" + Indent(depth));
      }
      assert Output() == before + lead;
      Write("</");
      Write(name);
      Write(">");
      assert (before + lead) + "</" + name + ">" == before + (lead + "</" + name + ">");
    }

    /** The name comes from the stack, so the close tag names the element that is closed. */
    method CloseElement()
      requires Valid() && stack != []
      modifies this, buffer, buffer.mem
      ensures Valid() && !elementJustOpened && |old(stack)| == |stack| + 1 && stack == old(stack)[..|stack|]
      ensures Output() == old(Output())
              + (if old(elementJustOpened) then "/>"
                 else CloseLead(compact, |stack|, old(At())) + "</" + old(stack)[|stack|] + ">")
              + (if stack == [] && !compact then "\n" else "")
      ensures At() == if old(textDepth) == |stack| then old(At()).(textDepth := -1) else old(At())
      ensures processEntities == old(processEntities)
      ensures buffer.mem == old(buffer.mem) || fresh(buffer.mem)
    {
      hide Output, CloseLead;
      var open := elementJustOpened;
      elementJustOpened := false;
      depth := depth - 1;
      var name := stack[|stack| - 1];
      stack := stack[..|stack| - 1];
      if open {
        Write("/>");
      } else {
        PrintCloseTag(name);
      }
      if textDepth == depth {
        textDepth := -1;
      }
      if depth == 0 && !compact {
        Putc('\n');
      }
    }

    // ----- Leaves -----

    method PushText(text: string, cdata: bool)
      requires Valid()
      modifies this, buffer, buffer.mem
      ensures Valid() && !elementJustOpened && stack == old(stack) && processEntities == old(processEntities)
      ensures Output() == old(Output()) + Seal(old(elementJustOpened))
              + if cdata then "<![CDATA[" + text + "]]>" else Quoted(text, true, processEntities)
      ensures At() == old(At()).(textDepth := |stack| - 1)
      ensures buffer.mem == old(buffer.mem) || fresh(buffer.mem)
    {
      hide Output, Quoted;
      textDepth := depth - 1;
      SealElementIfJustOpened();
      ghost var before := Output();
      if cdata {
        Write("<![CDATA[");
        Write(text);
        Write("]]>");
        assert before + "<![CDATA[" + text + "]]>" == before + ("<![CDATA[" + text + "]]>");
      } else {
        PrintString(text, true);
      }
    }

    /** The three kinds that are written between a header and an end tag. */
    method PushComment(comment: string)
      requires Valid()
      modifies this, buffer, buffer.mem
      ensures Pushed("<!--" + comment + "-->")
    {
      PrepareForNewNode();
      WriteParts("<!--", comment, "-->");
    }

    method PushDeclaration(value: string)
      requires Valid()
      modifies this, buffer, buffer.mem
      ensures Pushed("<?" + value + "?>")
    {
      PrepareForNewNode();
      WriteParts("<?", value, "?>");
    }

    method PushUnknown(value: string)
      requires Valid()
      modifies this, buffer, buffer.mem
      ensures Pushed("<!" + value + ">")
    {
      PrepareForNewNode();
      WriteParts("<!", value, ">");
    }

    method WriteParts(header: string, value: string, end: string)
      requires Valid()
      modifies buffer, buffer.mem
      ensures Valid() && Output() == old(Output()) + (header + value + end)
      ensures buffer.mem == old(buffer.mem) || fresh(buffer.mem)
    {
      hide Output;
      ghost var before := Output();
      Write(header);
      Write(value);
      Write(end);
      assert before + header + value + end == before + (header + value + end);
    }

    /** A node that is not text was written as `text`, sealed off from what precedes it. */
    twostate predicate Pushed(text: string)
      requires old(Valid())
      reads this, buffer, buffer.mem
    {
      && Valid() && !elementJustOpened && stack == old(stack) && processEntities == old(processEntities)
      && Output() == old(Output()) + Seal(old(elementJustOpened)) + Lead(compact, |stack|, old(At())) + text
      && At() == AfterLead(compact, old(At()))
      && (buffer.mem == old(buffer.mem) || fresh(buffer.mem))
    }

    method PushLeaf(kind: Kind, value: string)
      requires Valid()
      modifies this, buffer, buffer.mem
      ensures Visited(TreeLeaf(kind, value))
    {
      hide Output, Quoted, Lead;
      match kind {
        case Text => PushText(value, false);
        case CData => PushText(value, true);
        case Comment => PushComment(value);
        case Declaration => PushDeclaration(value);
        case Unknown => PushUnknown(value);
      }
      ghost var before := old(Output()) + Seal(old(elementJustOpened));
      assert before + "" == before;
      assert Trail(TreeLeaf(kind, value), compact, |stack|) == "";
      ghost var out := Output();
      assert out + "" == out;
    }

    // ----- Trees -----

    /** The node `t` was written, at the current depth. */
    twostate predicate Visited(t: Tree)
      requires old(Valid())
      reads this, buffer, buffer.mem
    {
      && Valid() && !elementJustOpened && stack == old(stack) && processEntities == old(processEntities)
      && Output() == old(Output()) + Seal(old(elementJustOpened)) + NodeLead(t, compact, |stack|, old(At()))
                     + RenderNode(t, compact, |stack|, old(At())).0 + Trail(t, compact, |stack|)
      && At() == RenderNode(t, compact, |stack|, old(At())).1
      && (buffer.mem == old(buffer.mem) || fresh(buffer.mem))
    }

    /** What the nodes `ts` add at `depth`: the first of them seals an open element. */
    static ghost function Rest(ts: seq<Tree>, open: bool, compact: bool, depth: nat, at: Layout): string {
      (if ts == [] then "" else Seal(open)) + RenderList(ts, compact, depth, at).0
    }

    /** A traversal writes what `RenderNode` says and gives the state back as the next sibling needs it. */
    method Accept(t: Tree)
      requires Valid()
      modifies this, buffer, buffer.mem
      ensures Visited(t)
      decreases t, 1
    {
      match t {
        case TreeLeaf(kind, value) => PushLeaf(kind, value);
        case TreeElement(name, attrs, children) => VisitElement(name, attrs, children);
      }
    }

    method VisitElement(name: string, attrs: seq<(string, string)>, children: seq<Tree>)
      requires Valid()
      modifies this, buffer, buffer.mem
      ensures Visited(TreeElement(name, attrs, children))
      decreases children, 1
    {
      hide Output, Quoted, Lead, RenderAttrs, RenderList, CloseLead, Rest, Indent, RenderNode, Trail, Seal;
      ghost var start := Output() + Seal(elementJustOpened) + Lead(compact, |stack|, At());
      OpenElement(name);
      assert Output() == start + ("<" + name);
      PushAttributes(attrs);
      ghost var head := "<" + name + RenderAttrs(attrs, processEntities);
      assert start + ("<" + name) + RenderAttrs(attrs, processEntities) == start + head;
      ghost var at := At();
      AcceptChildren(children);
      assert Output() == start + head + Rest(children, true, compact, |stack|, at);
      CloseElement();
      ElementText(start, head, name, children, compact, |stack|, at);
      ElementIs(name, attrs, children, compact, |stack|, old(At()));
    }

    /** An element's text and layout, from its head and what follows. */
    static lemma ElementIs(name: string, attrs: seq<(string, string)>, children: seq<Tree>, compact: bool, depth: nat,
                           at: Layout)
      ensures var (rest, at') := RenderRest(name, children, compact, depth, AfterLead(compact, at));
              var t := TreeElement(name, attrs, children);
              && RenderNode(t, compact, depth, at)
                 == ("<" + name + RenderAttrs(attrs, at.entities) + rest,
                     if at'.textDepth == depth then at'.(textDepth := -1) else at')
              && Trail(t, compact, depth) == if depth == 0 && !compact then "\n" else ""
    {
      hide RenderAttrs, RenderRest;
    }

    /** The parts of an element make up its text. */
    static lemma ElementText(start: string, head: string, name: string, children: seq<Tree>, compact: bool, depth: nat,
                             at: Layout)
      ensures var (inner, at') := RenderList(children, compact, depth + 1, at);
              start + head + Rest(children, true, compact, depth + 1, at)
              + (if children == [] then "/>" else CloseLead(compact, depth, at') + "</" + name + ">")
              == start + (head + RenderRest(name, children, compact, depth, at).0)
              && RenderRest(name, children, compact, depth, at).1 == at'
    {
      hide CloseLead;
      if children == [] {
        assert Rest(children, true, compact, depth + 1, at) == "";
        assert start + head + "" + "/>" == start + (head + "/>");
      } else {
        OpenText(start + head, name, children, compact, depth, at);
        var rest := RenderRest(name, children, compact, depth, at).0;
        assert start + head + rest == start + (head + rest);
      }
    }

    static lemma OpenText(start: string, name: string, children: seq<Tree>, compact: bool, depth: nat, at: Layout)
      requires children != []
      ensures var (inner, at') := RenderList(children, compact, depth + 1, at);
              && start + Rest(children, true, compact, depth + 1, at)
                 + (CloseLead(compact, depth, at') + "</" + name + ">")
                 == start + RenderRest(name, children, compact, depth, at).0
              && RenderRest(name, children, compact, depth, at).1 == at'
    {
      hide CloseLead, RenderList;
      var (inner, at') := RenderList(children, compact, depth + 1, at);
      var lead := CloseLead(compact, depth, at');
      var close := lead + "</" + name + ">";
      assert ">" + inner + lead + "</" + name + ">" == ">" + inner + close;
      assert start + (">" + inner) + close == start + (">" + inner + close);
    }

    method PushAttributes(attrs: seq<(string, string)>)
      requires Valid() && elementJustOpened
      modifies buffer, buffer.mem
      ensures Valid() && Output() == old(Output()) + RenderAttrs(attrs, processEntities)
      ensures buffer.mem == old(buffer.mem) || fresh(buffer.mem)
    {
      hide Output, Quoted;
      var i := 0;
      assert attrs[0..] == attrs;
      while i < |attrs|
        invariant 0 <= i <= |attrs| && Valid() && (buffer.mem == old(buffer.mem) || fresh(buffer.mem))
        invariant Output() + RenderAttrs(attrs[i..], processEntities)
                  == old(Output()) + RenderAttrs(attrs, processEntities)
      {
        ghost var before := Output();
        PushAttribute(attrs[i].0, attrs[i].1);
        assert attrs[i..][1..] == attrs[i + 1..];
        ghost var one := " " + AttrText(attrs[i], processEntities);
        assert RenderAttrs(attrs[i..], processEntities) == one + RenderAttrs(attrs[i + 1..], processEntities);
        assert (before + one) + RenderAttrs(attrs[i + 1..], processEntities)
               == before + (one + RenderAttrs(attrs[i + 1..], processEntities));
        i := i + 1;
      }
      ghost var out := Output();
      assert attrs[i..] == [] && out + "" == out;
    }

    /** The loop over the children. */
    method AcceptChildren(ts: seq<Tree>)
      requires Valid()
      modifies this, buffer, buffer.mem
      ensures Valid() && stack == old(stack) && processEntities == old(processEntities)
      ensures Output() == old(Output()) + Rest(ts, old(elementJustOpened), compact, |stack|, old(At()))
      ensures At() == RenderList(ts, compact, |stack|, old(At())).1
      ensures elementJustOpened == (ts == [] && old(elementJustOpened))
      ensures buffer.mem == old(buffer.mem) || fresh(buffer.mem)
      decreases ts, 0
    {
      hide Output, NodeLead, RenderNode, RenderList, Trail;
      var i := 0;
      assert ts[0..] == ts;
      while i < |ts|
        invariant 0 <= i <= |ts| && Valid() && (buffer.mem == old(buffer.mem) || fresh(buffer.mem))
        invariant stack == old(stack) && processEntities == old(processEntities)
        invariant elementJustOpened == (i == 0 && old(elementJustOpened))
        invariant Output() + Rest(ts[i..], elementJustOpened, compact, |stack|, At())
                  == old(Output()) + Rest(ts, old(elementJustOpened), compact, |stack|, old(At()))
        invariant RenderList(ts[i..], compact, |stack|, At()).1 == RenderList(ts, compact, |stack|, old(At())).1
      {
        ghost var out, open, at := Output(), elementJustOpened, At();
        Accept(ts[i]);
        NextChild(out, ts[i..], open, compact, |stack|, at);
        assert ts[i..][1..] == ts[i + 1..];
        i := i + 1;
      }
      assert ts[i..] == [];
      ghost var out := Output();
      NoChildren(out, elementJustOpened, compact, |stack|, At());
    }

    static lemma NextChild(out: string, ts: seq<Tree>, open: bool, compact: bool, depth: nat, at: Layout)
      requires ts != []
      ensures var (node, at') := RenderNode(ts[0], compact, depth, at);
              && RenderList(ts, compact, depth, at).1 == RenderList(ts[1..], compact, depth, at').1
              && out + Rest(ts, open, compact, depth, at)
                 == out + Seal(open) + NodeLead(ts[0], compact, depth, at) + node + Trail(ts[0], compact, depth)
                    + Rest(ts[1..], false, compact, depth, at')
    {
      hide NodeLead, RenderNode, Trail, Seal;
      var (node, at') := RenderNode(ts[0], compact, depth, at);
      var a, b, c, d := Seal(open), NodeLead(ts[0], compact, depth, at), Trail(ts[0], compact, depth),
        RenderList(ts[1..], compact, depth, at').0;
      assert RenderList(ts, compact, depth, at).0 == b + node + c + d;
      assert RenderList(ts, compact, depth, at).1 == RenderList(ts[1..], compact, depth, at').1;
      hide RenderList;
      RestOfNone(ts[1..], compact, depth, at');
      Regroup(out, a, b, node, c, d);
    }

    static lemma RestOfNone(ts: seq<Tree>, compact: bool, depth: nat, at: Layout)
      ensures Rest(ts, false, compact, depth, at) == RenderList(ts, compact, depth, at).0
    {
      hide RenderList;
      var text := RenderList(ts, compact, depth, at).0;
      assert "" + text == text;
    }

    static lemma Regroup(out: string, a: string, b: string, c: string, d: string, e: string)
      ensures out + (a + (b + c + d + e)) == out + a + b + c + d + e
    {
    }

    static lemma NoChildren(out: string, open: bool, compact: bool, depth: nat, at: Layout)
      ensures out + Rest([], open, compact, depth, at) == out && RenderList([], compact, depth, at).1 == at
    {
    }

    /** Printing a document: the byte order mark first, then its nodes. The printer may have printed before: what
        it had open, and its layout, then go on. */
    method AcceptDocument(d: TreeDocument, entities: bool)
      requires Valid()
      modifies this, buffer, buffer.mem
      ensures Valid() && stack == old(stack) && processEntities == entities
      ensures var at := old(At()).(entities := entities);
              && Output() == old(Output()) + (if d.bom then BOM else "")
                             + Rest(d.children, old(elementJustOpened), compact, |stack|, at)
              && At() == RenderList(d.children, compact, |stack|, at).1
      ensures elementJustOpened == (d.children == [] && old(elementJustOpened))
      ensures old(stack == [] && !elementJustOpened && textDepth == -1 && firstElement) ==>
                Output() == old(Output()) + RenderDocument(d, compact, entities)
    {
      hide Output, RenderList, Rest;
      ghost var before := Output();
      processEntities := entities;
      if d.bom {
        PushHeader();
      }
      ghost var bom := if d.bom then BOM else "";
      assert before + "" == before;
      assert Output() == before + bom;
      ghost var at := At();
      AcceptChildren(d.children);
      RestOfNone(d.children, compact, 0, at);
      ghost var text := RenderList(d.children, compact, 0, Layout(-1, true, entities)).0;
      assert before + bom + text == before + (bom + text);
    }

    method PushHeader()
      requires Valid()
      modifies buffer, buffer.mem
      ensures Valid() && Output() == old(Output()) + BOM
      ensures buffer.mem == old(buffer.mem) || fresh(buffer.mem)
    {
      Write(BOM);
    }
  }
}
