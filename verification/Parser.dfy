/** The parser as it runs: a cursor over the buffer, a line counter, a depth counter, the list of nodes not
    yet linked, and names ended in place while the parse goes on. Proved against the functions of `Syntax`. */
module Parser {
  import opened Chars
  import opened Decode
  import opened Syntax
  import opened Grammar
  import opened ParserGrammar
  import opened ParsedStrings
  import opened Tallies
  import StrPairs

  /** How a turn of the child loop ends: no further node, a close tag, or a child to link. */
  datatype Turn = Stop | Close | Link

  class XmlParser {
    const buf: array<char>
    const opts: Options
    ghost const s: string

    var curLine: nat
    var depth: nat
    var error: Error
    var errorLine: nat
    var unlinked: seq<nat>
    var nextId: nat

    /** `_currentAllocs` and `_nUntracked` of the four pools. */
    var live: Tally
    var untracked: Tally

    /** The buffer is the text, except that some bytes before the cursor, all of them behind a name, are
        NUL by now. */
    ghost predicate Intact(p: nat)
      reads buf
    {
      && buf.Length == |s| + 1 && buf[|s|] == NUL && NulFree(s) && p <= |s|
      && forall i | 0 <= i < |s| :: buf[i] == s[i] || (i < p && buf[i] == NUL && !IsNameChar(s[i]))
    }

    /** Between steps the line counter is one more than the line feeds before the cursor. */
    ghost predicate At(p: nat)
      reads this, buf
    {
      Intact(p) && curLine == LineAt(s, p)
    }

    /** Nodes are numbered as they are created; the depth is below the limit while there is no error. */
    ghost predicate Valid()
      reads this
    {
      && (forall k | 0 <= k < |unlinked| :: unlinked[k] < nextId)
      && depth <= MAX_DEPTH && (error == Success ==> depth < MAX_DEPTH)
    }

    // ----- Scanning -----

    method SkipSpace(p: nat) returns (q: nat)
      requires At(p)
      modifies this`curLine
      ensures q == SkipWhiteSpace(s, p) && At(q) && (buf[q] == NUL <==> q == |s|)
    {
      assert forall i | 0 <= i < |s| :: s[i] in s;
      q := p;
      while IsWhiteSpace(buf[q])
        invariant p <= q <= |s| && At(q) && SkipWhiteSpace(s, q) == SkipWhiteSpace(s, p)
        decreases |s| - q
      {
        if buf[q] == '\n' {
          curLine := curLine + 1;
        }
        q := q + 1;
      }
    }

    /** `ParseText` up to `tag`: where the tag was found. The line counter counts what was passed. */
    method ParseText(p: nat, tag: string) returns (e: Option<nat>)
      requires At(p) && tag != "" && NulFree(tag)
      modifies this`curLine
      ensures e == FindTag(s, p, tag)
      ensures e.Some? ==> At(e.value)
    {
      hide Has;
      var q := p;
      while buf[q] != NUL
        invariant p <= q <= |s| && At(q) && FindTag(s, q, tag) == FindTag(s, p, tag)
        invariant q < |s| ==> s[q] != NUL
        decreases |s| - q
      {
        var found := LooksAt(q, tag);
        if found {
          return Some(q);
        } else if buf[q] == '\n' {
          curLine := curLine + 1;
        }
        q := q + 1;
      }
      e := None;
    }

    /** `strncmp` of the text at the cursor with a pattern. */
    method LooksAt(p: nat, pattern: string) returns (b: bool)
      requires Intact(p) && NulFree(pattern)
      ensures b == Has(s, p, pattern)
    {
      b := StrPairs.StartsWith(buf, |s|, p, pattern);
      assert buf[p..|s|] == s[p..];
      HasInSuffix(s, p, pattern);
    }

    method ParseNameAt(p: nat) returns (e: Option<nat>)
      requires Intact(p)
      ensures e == ParseName(s, p)
    {
      assert p < |s| ==> buf[p] == s[p] && s[p] in s;
      if buf[p] == NUL || !IsNameStartChar(buf[p]) {
        return None;
      }
      var q := p + 1;
      while buf[q] != NUL && IsNameChar(buf[q])
        invariant p < q <= |s| && NameEnd(s, q) == NameEnd(s, p + 1)
        invariant q < |s| ==> s[q] != NUL
        decreases |s| - q
      {
        q := q + 1;
      }
      e := Some(q);
    }

    // ----- Nodes not yet linked -----

    /** `CreateUnlinkedNode`, for a pool item that counts as `unit`. */
    method Create(unit: Tally) returns (id: nat)
      requires Valid()
      modifies this`unlinked, this`nextId, this`live, this`untracked
      ensures Valid() && unlinked == old(unlinked) + [id] && nextId == old(nextId) + 1
      ensures forall k | 0 <= k < |old(unlinked)| :: old(unlinked)[k] != id
      ensures live == Plus(old(live), unit) && untracked == Plus(old(untracked), unit)
    {
      id := nextId;
      nextId := nextId + 1;
      live := Plus(live, unit);
      untracked := Plus(untracked, unit);
      unlinked := unlinked + [id];
    }

    /** `MarkInUse`: the node is searched for and its place is taken by the last one. The node a parse
        links or deletes is always the last one created, so the others keep their order. */
    method MarkInUse(id: nat, ghost others: seq<nat>)
      requires Valid() && unlinked == others + [id] && id !in others
      modifies this`unlinked
      ensures Valid() && unlinked == others
    {
      var i := 0;
      while i < |unlinked|
        invariant 0 <= i < |unlinked| && unlinked == others + [id]
        invariant forall k | 0 <= k < i :: unlinked[k] != id
      {
        if unlinked[i] == id {
          unlinked := unlinked[i := unlinked[|unlinked| - 1]][..|unlinked| - 1];
          return;
        }
        i := i + 1;
      }
    }

    /** The preamble of `InsertEndChild` for a node that is linked for the first time. */
    method LinkNode(id: nat, unit: Tally, ghost others: seq<nat>)
      requires Valid() && unlinked == others + [id] && id !in others
      modifies this`unlinked, this`untracked
      ensures Valid() && unlinked == others && untracked == Minus(old(untracked), unit)
    {
      MarkInUse(id, others);
      untracked := Minus(untracked, unit);
    }

    /** `DeleteNode` for a node that was never linked: it and all below it are given back. */
    method DeleteNode(id: nat, node: Node, ghost others: seq<nat>)
      requires Valid() && unlinked == others + [id] && id !in others
      modifies this`unlinked, this`untracked, this`live
      ensures Valid() && unlinked == others
      ensures untracked == Minus(old(untracked), Unit(node)) && live == Minus(old(live), Count(node))
    {
      untracked := Minus(untracked, Unit(node));
      MarkInUse(id, others);
      Free(node);
    }

    /** The destructors of a node, and the return of its memory. */
    method Free(node: Node)
      modifies this`live
      ensures live == Minus(old(live), Count(node))
      decreases node
    {
      hide Count, CountAll;
      CountParts(node);
      CountNone();
      if node.Element? {
        var i := 0;
        while i < |node.children|
          invariant 0 <= i <= |node.children| && live == Minus(old(live), CountAll(node.children[..i]))
        {
          Free(node.children[i]);
          CountMore(node.children[..i], node.children[i]);
          assert node.children[..i + 1] == node.children[..i] + [node.children[i]];
          i := i + 1;
        }
        assert node.children[..i] == node.children;
        FreeAttributes(|node.attrs|);
      }
      live := Minus(live, Unit(node));
    }

    method FreeAttributes(n: nat)
      modifies this`live
      ensures live == Minus(old(live), Attributes(n))
    {
      var k := 0;
      while k < n
        invariant 0 <= k <= n && live == Minus(old(live), Attributes(k))
      {
        DeleteAttribute();
        k := k + 1;
      }
    }

    method CreateAttribute()
      modifies this`live, this`untracked
      ensures live == Plus(old(live), ATTRIBUTE) && untracked == old(untracked)
    {
      live := Plus(live, ATTRIBUTE);
      untracked := Plus(untracked, ATTRIBUTE);
      untracked := Minus(untracked, ATTRIBUTE);
    }

    method DeleteAttribute()
      modifies this`live
      ensures live == Minus(old(live), ATTRIBUTE)
    {
      live := Minus(live, ATTRIBUTE);
    }

    method SetError(e: Error, line: nat)
      requires Valid()
      modifies this`error, this`errorLine
      ensures Valid() || e == Success
      ensures error == e && errorLine == line
    {
      error, errorLine := e, line;
    }

    /** The headers `Identify` compares, in its order. */
    method KindOf(q: nat) returns (kind: Option<Kind>)
      requires Intact(q)
      ensures kind == KindAt(s, q)
    {
      hide Has;
      var found := LooksAt(q, "<?");
      if found { return Some(Declaration); }
      found := LooksAt(q, "<!--");
      if found { return Some(Comment); }
      found := LooksAt(q, "<![CDATA[");
      if found { return Some(CData); }
      found := LooksAt(q, "<!");
      if found { return Some(Unknown); }
      kind := None;
    }

    /** `Identify`: the kind of the next node, created and not yet linked. */
    method IdentifyNode(p: nat, first: bool) returns (found: Found, id: nat)
      requires At(p) && Valid() && p < |s|
      modifies this`curLine, this`unlinked, this`nextId, this`live, this`untracked
      ensures Valid() && found == Identify(s, p, first, opts)
      ensures live == if found.Nothing? then old(live) else Plus(old(live), FoundUnit(found))
      ensures untracked == if found.Nothing? then old(untracked) else Plus(old(untracked), FoundUnit(found))
      ensures !found.Nothing? ==> At(found.at)
      ensures unlinked == if found.Nothing? then old(unlinked) else old(unlinked) + [id]
      ensures id !in old(unlinked) && nextId >= old(nextId)
    {
      hide LineAt, SkipWhiteSpace, Has, Identify, KindAt;
      IdentifyIs(s, p, first, opts);
      id := nextId;
      var startLine := curLine;
      var q := SkipSpace(p);
      if buf[q] == NUL {
        return Nothing, id;
      }
      var kind := KindOf(q);
      if kind.Some? {
        KindHas(s, q);
        KeepsLine(q, Header(kind.value));
        id := Create(LeafUnit(kind.value));
        found := FoundLeaf(kind.value, curLine, q + |Header(kind.value)|);
      } else if buf[q] == '<' {
        KindStarts(s, q);
        if opts.whitespace == PedanticSpace && first && q != p && buf[q + 1] == '/' {
          id := Create(LeafUnit(Text));
          found := FoundLeaf(Text, startLine, p);
          curLine := startLine;
        } else {
          HasChar(s, q);
          KeepsLine(q, [s[q]]);
          id := Create(ELEMENT);
          found := FoundElement(curLine, q + 1);
        }
      } else {
        id := Create(LeafUnit(Text));
        found := FoundLeaf(Text, curLine, p);
        curLine := startLine;
      }
    }

    // ----- Names, ended in place -----

    /** `GetStr` of a name: the byte behind it becomes NUL. It lies before the cursor. */
    method EndName(name: Slice, ghost p: nat)
      requires Intact(p) && IsName(s, name) && (name.end < p || name.end == |s|)
      modifies buf
      ensures Intact(p) && buf[name.end] == NUL
      ensures forall i | 0 <= i < buf.Length && i != name.end :: buf[i] == old(buf[i])
    {
      buf[name.end] := NUL;
    }

    /** `StringEqual` of two ended names. */
    method SameName(a: Slice, b: Slice, ghost p: nat) returns (same: bool)
      requires Intact(p) && IsName(s, a) && IsName(s, b) && buf[a.end] == NUL && buf[b.end] == NUL
      ensures same == (NameOf(s, a) == NameOf(s, b))
    {
      hide NameOf;
      NameText(a, p);
      NameText(b, p);
      ghost var x, y := NameOf(s, a), NameOf(s, b);
      var i := 0;
      while buf[a.start + i] == buf[b.start + i] && buf[a.start + i] != NUL
        invariant i <= |x| && i <= |y| && x[..i] == y[..i]
        decreases |x| - i
      {
        assert x[i] == y[i];
        i := i + 1;
      }
      same := buf[a.start + i] == buf[b.start + i];
      assert x[..|x|] == x && y[..|y|] == y;
      assert same ==> i == |x| && i == |y|;
      assert !same && i < |x| && i < |y| ==> x[i] != y[i];
    }

    /** What the buffer holds of a name. */
    lemma NameText(name: Slice, p: nat)
      requires Intact(p) && IsName(s, name)
      ensures name.end < buf.Length && |NameOf(s, name)| == name.end - name.start
      ensures forall i | 0 <= i < |NameOf(s, name)| ::
                buf[name.start + i] == NameOf(s, name)[i] && NameOf(s, name)[i] != NUL
    {
      NameBytes(name, p);
    }

    /** The bytes of a name are never touched. */
    lemma NameBytes(name: Slice, p: nat)
      requires Intact(p) && IsName(s, name)
      ensures forall i | name.start <= i < name.end :: buf[i] == s[i] && buf[i] != NUL
      ensures SliceKept(name)
    {
      forall i | name.start <= i < name.end ensures buf[i] == s[i] && buf[i] != NUL {
        assert IsNameChar(s[i]);
        assert s[i] in s;
      }
    }

    /** The raw text of a slice is still in the buffer. */
    ghost predicate SliceKept(x: Slice)
      reads buf
    {
      x.start <= x.end <= |s| < buf.Length && forall i | x.start <= i < x.end :: buf[i] == s[i]
    }

    /** An error message names an element: its name is flushed, whatever the buffer holds elsewhere. */
    method NameInMessage(name: Slice)
      requires name.end < buf.Length
      modifies buf
      ensures forall i | 0 <= i < buf.Length && i != name.end :: buf[i] == old(buf[i])
    {
      buf[name.end] := NUL;
    }

    /** A value is read while its raw text is in the buffer: only bytes of its closed interval change. */
    method ReadValue(x: Slice)
      requires SliceKept(x) && NulFree(s)
      modifies buf
      ensures forall i | 0 <= i < buf.Length && !(x.start <= i <= x.end) :: buf[i] == old(buf[i])
    {
      assert buf[x.start..x.end] == s[x.start..x.end];
      NulFreeSlice(s, x.start, x.end);
      var start := StrPairs.Flush(buf, x.start, x.end, x.flags);
    }

    // ----- Attributes -----

    method ParseAttribute(p: nat) returns (r: Option<(Attr, nat)>)
      requires At(p) && p < |s|
      modifies this`curLine
      ensures r == ParseAttr(s, p, opts)
      ensures r.Some? ==> At(r.value.1)
    {
      hide LineAt, SkipWhiteSpace, NameEnd, FindTag, ParseName;
      var line := curLine;
      var nameEnd := ParseNameAt(p);
      if nameEnd == None {
        return None;
      }
      NameKeepsLine(p, nameEnd.value);
      var eq := SkipSpace(nameEnd.value);
      if buf[eq] != '=' {
        return None;
      }
      HasChar(s, eq);
      KeepsLine(eq, [s[eq]]);
      var quote := SkipSpace(eq + 1);
      if buf[quote] != '\"' && buf[quote] != '\'' {
        return None;
      }
      HasChar(s, quote);
      KeepsLine(quote, [s[quote]]);
      var end := ParseText(quote + 1, [buf[quote]]);
      if end == None {
        return None;
      }
      KeepsLine(end.value, [s[quote]]);
      var attr := Attr(Slice(p, nameEnd.value, NAME_FLAGS),
                       Slice(quote + 1, end.value, Flags(opts.processEntities, true, false)), line);
      r := Some((attr, end.value + 1));
    }

    /** An attribute that was read: its name is ended, its value untouched, both before the cursor. */
    ghost predicate AttrKept(a: Attr, p: nat)
      reads buf
    {
      IsAttr(s, a, opts) && a.value.end < p <= |s| < buf.Length && buf[a.name.end] == NUL && SliceKept(a.value)
    }

    /** The search of `FindAttribute`. */
    method FindAttribute(attrs: seq<Attr>, name: Slice, ghost p: nat) returns (k: nat)
      requires Intact(p) && IsName(s, name) && buf[name.end] == NUL
      requires forall k | 0 <= k < |attrs| :: AttrKept(attrs[k], p)
      ensures k <= |attrs| && (k < |attrs| <==> HasName(s, attrs, NameOf(s, name)))
    {
      hide IsName, NameOf, LineAt, SkipWhiteSpace, SliceKept;
      k := 0;
      while k < |attrs|
        invariant 0 <= k <= |attrs|
        invariant forall j | 0 <= j < k :: NameOf(s, attrs[j].name) != NameOf(s, name)
      {
        var same := SameName(attrs[k].name, name, p);
        if same {
          return;
        }
        k := k + 1;
      }
    }

    /** `XMLElement::ParseAttributes`, for the element `name` that began on `line`. */
    method ReadAttributes(p: nat, line: nat, name: Slice) returns (next: Option<nat>, attrs: seq<Attr>, closed: bool)
      requires At(p) && Valid() && error == Success && name.start <= name.end <= p
      modifies this`curLine, this`error, this`errorLine, this`live, this`untracked, buf
      ensures Valid() && live == Plus(old(live), Attributes(|attrs|)) && untracked == old(untracked)
      ensures match next
              case None =>
                && error != Success && ParseAttributes(s, p, opts, line, []) == AttrsFail(error, errorLine)
                && forall i | 0 <= i < name.start :: buf[i] == old(buf[i])
              case Some(q) =>
                && error == Success && At(q)
                && ParseAttributes(s, p, opts, line, []) == AttrsOk(attrs, closed, q)
                && (forall k | 0 <= k < |attrs| :: AttrKept(attrs[k], q))
                && forall i | 0 <= i < buf.Length && !(p <= i < q) :: buf[i] == old(buf[i])
    {
      hide ParseAttributes, ParseAttr, HasName, IsAttr, LineAt, SkipWhiteSpace, NameOf, IsName, SliceKept;
      attrs, closed := [], false;
      var q := p;
      while true
        invariant p <= q <= |s| && At(q) && Valid() && error == Success
        invariant live == Plus(old(live), Attributes(|attrs|)) && untracked == old(untracked)
        invariant ParseAttributes(s, q, opts, line, attrs) == ParseAttributes(s, p, opts, line, [])
        invariant forall k | 0 <= k < |attrs| :: AttrKept(attrs[k], q) && p <= attrs[k].name.start
        invariant forall i | 0 <= i < buf.Length && !(p <= i < q) :: buf[i] == old(buf[i])
        decreases |s| - q
      {
        AttributesUnfold(s, q, opts, line, attrs);
        q := SkipSpace(q);
        if buf[q] == NUL {
          SetError(ParsingElement, line);
          NameInMessage(name);
          return None, attrs, closed;
        }
        ParsesEnd(s, q);
        if IsNameStartChar(buf[q]) {
          var attrLine := curLine;
          var attr, after := ReadAttribute(attrs, p, q);
          if attr == None {
            SetError(ParsingAttribute, attrLine);
            NameInMessage(name);
            return None, attrs, closed;
          }
          attrs := attrs + [attr.value];
          q := after;
        } else {
          next, closed := TagEnd(q);
          if next == None {
            SetError(ParsingElement, line);
          }
          return;
        }
      }
    }

    /** `>` or `/>`. */
    method TagEnd(q: nat) returns (next: Option<nat>, closed: bool)
      requires At(q) && q < |s| && buf[q] == s[q]
      ensures next == if s[q] == '>' then Some(q + 1) else if Has(s, q, "/>") then Some(q + 2) else None
      ensures closed == (next.Some? && s[q] != '>')
      ensures next.Some? ==> At(next.value)
    {
      hide LineAt, Has;
      ParsesEnd(s, q);
      if buf[q] == '>' {
        HasChar(s, q);
        KeepsLine(q, [s[q]]);
        return Some(q + 1), false;
      }
      if buf[q] == '/' && buf[q + 1] == '>' {
        KeepsLine(q, "/>");
        return Some(q + 2), true;
      }
      next, closed := None, false;
    }

    /** One turn of that loop: the attribute at `p`, or none when it is malformed or repeats a name of `attrs`;
        then it is given back. */
    method ReadAttribute(attrs: seq<Attr>, ghost lo: nat, p: nat) returns (attr: Option<Attr>, after: nat)
      requires At(p) && lo <= p < |s| && forall i | p <= i < |s| :: buf[i] == s[i]
      requires forall k | 0 <= k < |attrs| :: AttrKept(attrs[k], p) && lo <= attrs[k].name.start
      modifies this`curLine, this`live, this`untracked, buf
      ensures untracked == old(untracked) && live == if attr == None then old(live) else Plus(old(live), ATTRIBUTE)
      ensures var r := ParseAttr(s, p, opts);
              match attr
              case None =>
                && (r == None || HasName(s, attrs, NameOf(s, r.value.0.name)))
                && forall i | 0 <= i < lo :: buf[i] == old(buf[i])
              case Some(a) =>
                && r == Some((a, after)) && !HasName(s, attrs, NameOf(s, a.name))
                && p < after <= |s| && At(after) && AttrKept(a, after) && p <= a.name.start
                && (forall k | 0 <= k < |attrs| :: AttrKept(attrs[k], after))
                && forall i | 0 <= i < buf.Length && !(p <= i < after) :: buf[i] == old(buf[i])
    {
      hide ParseAttr, HasName, IsAttr, LineAt, SkipWhiteSpace, NameOf, IsName, SliceKept;
      CreateAttribute();
      var r := ParseAttribute(p);
      if r.Some? {
        var found := AddAttribute(attrs, r.value.0, lo, p, r.value.1);
        if !found {
          return Some(r.value.0), r.value.1;
        }
      }
      DeleteAttribute();
      attr, after := None, p;
    }

    /** Ends the name of a new attribute and looks it up among the others, the first of which starts at `lo`
        or behind; the value of the one that is found is read, too. */
    method AddAttribute(attrs: seq<Attr>, attr: Attr, ghost lo: nat, ghost p: nat, ghost q: nat) returns (found: bool)
      requires At(q) && lo <= p <= |s| && ParseAttr(s, p, opts) == Some((attr, q))
      requires forall i | p <= i < |s| :: buf[i] == s[i]
      requires forall k | 0 <= k < |attrs| :: AttrKept(attrs[k], p) && lo <= attrs[k].name.start
      modifies buf
      ensures found == HasName(s, attrs, NameOf(s, attr.name))
      ensures found ==> forall i | 0 <= i < lo :: buf[i] == old(buf[i])
      ensures !found ==>
                && At(q) && AttrKept(attr, q) && p <= attr.name.start
                && (forall k | 0 <= k < |attrs| :: AttrKept(attrs[k], q))
                && forall i | 0 <= i < buf.Length && !(p <= i < q) :: buf[i] == old(buf[i])
    {
      hide ParseAttr, HasName, LineAt, SkipWhiteSpace, NameOf, IsName;
      ParsesAttr(s, p, attr, q, opts);
      AttrOrdered(s, attr, opts);
      forall k | 0 <= k < |attrs| ensures attrs[k].name.end < attrs[k].value.start {
        AttrOrdered(s, attrs[k], opts);
      }
      NameIn(s, attr.name);
      EndName(attr.name, q);
      var k := FindAttribute(attrs, attr.name, q);
      found := k < |attrs|;
      if found {
        AttrOrdered(s, attrs[k], opts);
        assert AttrKept(attrs[k], q);
        ReadValue(attrs[k].value);
      }
    }

    // ----- Nodes -----

    /** The raw text of all slices is still in the buffer; they end before `p`. */
    ghost predicate AllKept(slices: seq<Slice>, p: nat)
      reads buf
    {
      forall k | 0 <= k < |slices| :: SliceKept(slices[k]) && slices[k].end <= p
    }

    lemma {:induction false} AttrsAreKept(attrs: seq<Attr>, p: nat)
      requires Intact(p) && forall k | 0 <= k < |attrs| :: AttrKept(attrs[k], p)
      ensures AllKept(AttrSlices(attrs), p)
      decreases attrs
    {
      hide SliceKept, IsAttr;
      if attrs != [] {
        AttrsAreKept(attrs[1..], p);
        AttrOrdered(s, attrs[0], opts);
        AttrHasName(s, attrs[0], opts);
        NameBytes(attrs[0].name, p);
        assert AttrKept(attrs[0], p);
      }
    }

    /** How a failed parse of a node shows: an error, or none, and then the caller reports the general one. */
    ghost predicate NodeFailed(r: NodeOutcome, line: nat)
      reads this
    {
      r == if error == Success then NodeFail(Parsing, line) else NodeFail(error, errorLine)
    }

    /** `ParseDeep` of text, comments, declarations and unknowns. */
    method ReadLeaf(kind: Kind, p: nat, line: nat) returns (next: Option<nat>, node: Node)
      requires At(p) && Valid() && error == Success
      modifies this`curLine, this`error, this`errorLine
      ensures Valid() && node.Leaf? && node.kind == kind
      ensures match next
              case None => NodeFailed(ParseLeaf(s, kind, p, line, opts), line)
              case Some(q) =>
                && error == Success && p <= q && At(q) && ParseLeaf(s, kind, p, line, opts) == NodeOk(node, q, None)
                && AllKept(NodeSlices(node), q)
    {
      hide LineAt, FindTag, Has;
      node := Leaf(kind, Slice(p, p, LeafFlags(kind, opts)), line);
      var e := ParseText(p, EndTag(kind));
      if e == None {
        SetError(LeafError(kind), line);
        return None, node;
      }
      HasInside(s, e.value, EndTag(kind));
      node := Leaf(kind, Slice(p, e.value, LeafFlags(kind, opts)), line);
      assert e.value + 1 < |s| ==> buf[e.value + 1] == s[e.value + 1] && s[e.value + 1] in s;
      if kind != Text {
        TagHasNoLine(kind);
        KeepsLine(e.value, EndTag(kind));
        next := Some(e.value + |EndTag(kind)|);
      } else if buf[e.value + 1] == NUL {
        next := None;
      } else {
        next := e;
      }
    }

    /** How the outcome of a node shows, for a node that starts at `p` on `line`. */
    ghost predicate NodeRead(p: nat, r: NodeOutcome, line: nat, next: Option<nat>, node: Node, endTag: Option<Slice>)
      reads this, buf
    {
      match next
      case None => NodeFailed(r, line)
      case Some(q) =>
        error == Success && p < q && At(q) && r == NodeOk(node, q, endTag) && Kept(node, endTag, p, q)
    }

    /** `XMLElement::ParseDeep`. */
    method ReadElement(p: nat, line: nat) returns (next: Option<nat>, node: Node, endTag: Option<Slice>)
      requires At(p) && Valid() && error == Success
      modifies this`curLine, this`depth, this`error, this`errorLine, this`unlinked, this`nextId
      modifies this`live, this`untracked, buf
      ensures Valid() && depth == old(depth) && unlinked == old(unlinked) && nextId >= old(nextId)
      ensures NodeRead(p, ParseElement(s, p, line, depth, opts), line, next, node, endTag)
      ensures node.Element? && Plus(live, ELEMENT) == Plus(old(live), Count(node)) && untracked == old(untracked)
      ensures forall i | 0 <= i < p :: buf[i] == old(buf[i])
      ensures next.Some? ==> forall i | 0 <= i < buf.Length && !(p <= i < next.value) :: buf[i] == old(buf[i])
      decreases |s| - p, 1
    {
      hide LineAt, SliceKept, EnterList, AttrKept, AllKept, IsName, ParseHead, ParseElement,
        NodeSlices, ListSlices, AttrSlices;
      ElementUnfold(s, p, line, depth, opts);
      endTag := None;
      node := Element(Slice(p, p, NAME_FLAGS), [], Open, [], line);
      var h, name, attrs, closing := ReadHead(p, line);
      if h == None {
        node := Element(name, attrs, closing, [], line);
        return None, node, None;
      }
      AttrsAreKept(attrs, h.value);
      NameBytes(name, h.value);
      assert h.value < |s| ==> buf[h.value] == s[h.value] && s[h.value] in s;
      if buf[h.value] == NUL || closing != Open {
        node := Element(name, attrs, closing, [], line);
        NoSlices(h.value);
        KeptParts(node, h.value, h.value);
        return h, node, None;
      }
      var children;
      next, children, endTag := ReadOpen(p, h.value, name, attrs, line);
      node := Element(name, attrs, Open, children, line);
    }

    /** The children of an open element, behind its tag. */
    method ReadOpen(ghost p: nat, h: nat, name: Slice, attrs: seq<Attr>, line: nat)
      returns (next: Option<nat>, children: seq<Node>, endTag: Option<Slice>)
      requires p < h && At(h) && Valid() && error == Success
      requires IsName(s, name) && p <= name.start && name.end < h && AllKept(AttrSlices(attrs), h)
      modifies this`curLine, this`depth, this`error, this`errorLine, this`unlinked, this`nextId
      modifies this`live, this`untracked, buf
      ensures Valid() && depth == old(depth) && unlinked == old(unlinked) && nextId >= old(nextId)
      ensures Outcome(h, EnterList(s, h, depth, false, opts), next, children, endTag)
      ensures live == Plus(old(live), CountAll(children)) && untracked == old(untracked)
      ensures forall i | 0 <= i < h :: buf[i] == old(buf[i])
      ensures next.Some? ==>
                && h < next.value && Kept(Element(name, attrs, Open, children, line), endTag, p, next.value)
                && forall i | 0 <= i < buf.Length && !(h <= i < next.value) :: buf[i] == old(buf[i])
      decreases |s| - h, 4
    {
      hide LineAt, SliceKept, EnterList, AllKept, IsName, NodeSlices, ListSlices, AttrSlices, KeptIn;
      KeptNow(AttrSlices(attrs), h);
      ghost var b := buf[..];
      next, children, endTag := ParseDeep(h, false);
      if next == None {
        return;
      }
      StillKept(AttrSlices(attrs), h, b);
      NameBytes(name, next.value);
      NameIn(s, endTag.value);
      ghost var node := Element(name, attrs, Open, children, line);
      KeptParts(node, h, endTag.value.start);
      KeptWider(NodeSlices(node), endTag.value.start, next.value);
    }

    lemma KeptWider(slices: seq<Slice>, p: nat, q: nat)
      requires AllKept(slices, p) && p <= q
      ensures AllKept(slices, q)
    {
      hide SliceKept;
    }

    /** Slices before `p` stay kept when no byte before `p` has changed since the buffer was `b`. */
    lemma StillKept(slices: seq<Slice>, p: nat, b: seq<char>)
      requires KeptIn(b, s, slices, p) && |b| == buf.Length && p < buf.Length
      requires forall i | 0 <= i < p :: buf[i] == b[i]
      ensures AllKept(slices, p)
    {
      forall k | 0 <= k < |slices| ensures SliceKept(slices[k]) && slices[k].end <= p {
        assert SliceIn(b, s, slices[k], p);
      }
    }

    lemma KeptNow(slices: seq<Slice>, p: nat)
      requires AllKept(slices, p)
      ensures KeptIn(buf[..], s, slices, p)
    {
      forall k | 0 <= k < |slices| ensures SliceIn(buf[..], s, slices[k], p) {
        assert SliceKept(slices[k]);
      }
    }

    lemma KeptParts(n: Node, q: nat, r: nat)
      requires n.Element? && q <= r && SliceKept(n.name) && n.name.end <= q
      requires AllKept(AttrSlices(n.attrs), q) && AllKept(ListSlices(n.children), r)
      ensures AllKept(NodeSlices(n), r)
    {
      hide SliceKept;
      assert NodeSlices(n) == [n.name] + AttrSlices(n.attrs) + ListSlices(n.children);
    }

    lemma LeafKept(n: Node, q: nat)
      requires n.Leaf? && AllKept(NodeSlices(n), q)
      ensures SliceKept(n.value)
    {
      hide SliceKept;
      assert NodeSlices(n) == [n.value];
      assert SliceKept(NodeSlices(n)[0]);
    }

    lemma NoSlices(p: nat)
      ensures AllKept(ListSlices([]), p)
    {
    }

    /** The tag of an element behind its `<`. */
    method ReadHead(p: nat, line: nat) returns (next: Option<nat>, name: Slice, attrs: seq<Attr>, closing: Closing)
      requires At(p) && Valid() && error == Success
      modifies this`curLine, this`error, this`errorLine, this`live, this`untracked, buf
      ensures Valid() && live == Plus(old(live), Attributes(|attrs|)) && untracked == old(untracked)
      ensures forall i | 0 <= i < p :: buf[i] == old(buf[i])
      ensures match next
              case None =>
                ParseHead(s, p, line, opts)
                == if error == Success then HeadFail(Parsing, line) else HeadFail(error, errorLine)
              case Some(q) =>
                && error == Success && p < q && At(q) && ParseHead(s, p, line, opts) == Head(name, attrs, closing, q)
                && IsName(s, name) && p <= name.start && name.end < q
                && (forall k | 0 <= k < |attrs| :: AttrKept(attrs[k], q))
                && forall i | 0 <= i < buf.Length && !(p <= i < q) :: buf[i] == old(buf[i])
    {
      hide LineAt, SkipWhiteSpace, ParseAttributes, ParseName, AttrKept;
      closing, attrs, name := Open, [], Slice(p, p, NAME_FLAGS);
      var from := SkipSpace(p);
      if buf[from] == '/' {
        closing := ClosingTag;
        HasChar(s, from);
        KeepsLine(from, [s[from]]);
        from := from + 1;
      }
      var nameEnd := ParseNameAt(from);
      if nameEnd == None {
        return None, name, attrs, closing;
      }
      NameKeepsLine(from, nameEnd.value);
      name := Slice(from, nameEnd.value, NAME_FLAGS);
      ParsesName(s, name);
      var closed;
      next, attrs, closed := ReadAttributes(nameEnd.value, line, name);
      if closed {
        closing := Closed;
      }
    }

    method PushDepth()
      requires Valid() && error == Success
      modifies this`depth, this`error, this`errorLine
      ensures Valid() && depth == old(depth) + 1
      ensures error == (if depth == MAX_DEPTH then DepthExceeded else Success)
      ensures error != Success ==> errorLine == curLine
    {
      depth := depth + 1;
      if depth == MAX_DEPTH {
        error, errorLine := DepthExceeded, curLine;
      }
    }

    /** `XMLNode::ParseDeep` under its `DepthTracker`: the depth is restored on every way out, and no node
        of this level is left unlinked. */
    method ParseDeep(p: nat, doc: bool) returns (next: Option<nat>, children: seq<Node>, endTag: Option<Slice>)
      requires At(p) && Valid() && error == Success
      modifies this`curLine, this`depth, this`error, this`errorLine, this`unlinked, this`nextId
      modifies this`live, this`untracked, buf
      ensures Valid() && depth == old(depth) && unlinked == old(unlinked) && nextId >= old(nextId)
      ensures Outcome(p, EnterList(s, p, depth, doc, opts), next, children, endTag)
      ensures live == Plus(old(live), CountAll(children)) && untracked == old(untracked)
      ensures forall i | 0 <= i < p :: buf[i] == old(buf[i])
      ensures error == Success ==> forall i | 0 <= i < buf.Length && !(p <= i < Limit(next)) :: buf[i] == old(buf[i])
      decreases |s| - p, 3
    {
      hide ParseList, LineAt, AllKept, IsName, CountAll, ListSlices;
      CountNone();
      EnterIs(s, p, depth, doc, opts);
      PushDepth();
      if error != Success {
        depth := depth - 1;
        NoSlices(|s|);
        return None, [], None;
      }
      next, children, endTag := ParseChildren(p, doc);
      depth := depth - 1;
    }

    /** Where the writes of a list end. */
    ghost function Limit(next: Option<nat>): nat {
      match next
      case None => |s|
      case Some(q) => q
    }

    /** How the outcome of a list shows: the returned pointer, the error state and the linked children. */
    ghost predicate Outcome(p: nat, r: ListOutcome, next: Option<nat>, children: seq<Node>, endTag: Option<Slice>)
      reads this, buf
    {
      && children == r.nodes
      && match r
         case ListFail(_, e, line) =>
           next == None && error == e != Success && errorLine == line && AllKept(ListSlices(children), |s|)
         case ListEnd(_) => next == None && error == Success && Intact(|s|) && AllKept(ListSlices(children), |s|)
         case ListClosed(_, q, tag) =>
           && next == Some(q) && error == Success && At(q) && endTag == Some(tag)
           && IsName(s, tag) && p <= tag.start && tag.end < q && AllKept(ListSlices(children), tag.start)
    }

    /** The node's own `ParseDeep`, by its kind. */
    method ReadNode(p: nat, found: Found) returns (next: Option<nat>, node: Node, endTag: Option<Slice>)
      requires !found.Nothing? && p <= found.at && At(found.at) && Valid() && error == Success && p < |s|
      requires ParseNode.requires(s, p, depth, opts, found)
      modifies this`curLine, this`depth, this`error, this`errorLine, this`unlinked, this`nextId
      modifies this`live, this`untracked, buf
      ensures Valid() && depth == old(depth) && unlinked == old(unlinked) && nextId >= old(nextId)
      ensures NodeRead(p, ParseNode(s, p, depth, opts, found), found.line, next, node, endTag)
      ensures Unit(node) == FoundUnit(found) && Plus(live, FoundUnit(found)) == Plus(old(live), Count(node))
      ensures untracked == old(untracked)
      ensures forall i | 0 <= i < p :: buf[i] == old(buf[i])
      ensures next.Some? ==> forall i | 0 <= i < buf.Length && !(p <= i < next.value) :: buf[i] == old(buf[i])
      ensures next.Some? && node.Element? ==> found.at <= node.name.start
      decreases |s| - p, 1
    {
      hide ParseLeaf, ParseElement, LineAt, AllKept, IsName, SliceKept;
      if found.FoundLeaf? {
        next, node := ReadLeaf(found.kind, found.at, found.line);
        endTag := None;
      } else {
        next, node, endTag := ReadElement(found.at, found.line);
      }
    }

    /** The comparison of an element with the end tag its children handed up. */
    method CheckEnd(node: Node, endTag: Option<Slice>, ghost p: nat, ghost q: nat) returns (mismatch: bool)
      requires At(q) && node.Element? && Kept(node, endTag, p, q)
      modifies buf
      ensures At(q) && mismatch == Mismatch(s, node, endTag)
      ensures forall i | 0 <= i < buf.Length && !(p <= i < q) :: buf[i] == old(buf[i])
      ensures forall i | 0 <= i < buf.Length && buf[i] != old(buf[i]) ::
                i == node.name.end || (endTag.Some? && i == endTag.value.end)
    {
      hide IsName, NameOf, LineAt;
      if endTag == None {
        return node.closing == Open;
      }
      if node.closing != Open {
        return true;
      }
      NameIn(s, node.name);
      NameIn(s, endTag.value);
      EndName(endTag.value, q);
      EndName(node.name, q);
      var same := SameName(endTag.value, node.name, q);
      mismatch := !same;
    }

    /** The slices of a node are kept, and its end tag comes behind them. */
    ghost predicate Kept(node: Node, endTag: Option<Slice>, p: nat, q: nat)
      reads buf
    {
      && AllKept(NodeSlices(node), q)
      && (node.Element? ==> IsName(s, node.name) && p <= node.name.start && node.name.end < q)
      && (endTag.Some? ==>
            && IsName(s, endTag.value) && p <= endTag.value.start && endTag.value.end < q
            && AllKept(NodeSlices(node), endTag.value.start))
    }

    /** Ending the two names that were compared leaves the slices of a matching element in place. */
    lemma CheckedKept(node: Node, endTag: Option<Slice>, p: nat, q: nat, first: bool, b: seq<char>)
      requires Intact(q) && |b| == buf.Length && p < |s| && depth < MAX_DEPTH
      requires !Identify(s, p, first, opts).Nothing?
      requires ParseNode(s, p, depth, opts, Identify(s, p, first, opts)) == NodeOk(node, q, endTag)
      requires node.Element? && node.closing != ClosingTag && !Mismatch(s, node, endTag)
      requires KeptIn(b, s, NodeSlices(node), q)
      requires endTag.Some? ==> KeptIn(b, s, NodeSlices(node), endTag.value.start) && IsName(s, endTag.value)
      requires forall i | 0 <= i < buf.Length && buf[i] != b[i] ::
                 i == node.name.end || (endTag.Some? && i == endTag.value.end)
      ensures AllKept(NodeSlices(node), q)
    {
      hide IsNode, ParseNode, Identify, Mismatch, Ordered, IsName;
      NodeSound(s, p, depth, first, opts, node, q, endTag);
      NodeOrdered(s, p, q, node, depth, first, opts);
      var slices := NodeSlices(node);
      assert slices[0] == node.name;
      hide NodeSlices;
      if endTag.Some? {
        NameIn(s, endTag.value);
        assert forall k | 0 <= k < |slices| :: SliceIn(b, s, slices[k], endTag.value.start);
      }
      forall k | 0 <= k < |slices| ensures SliceKept(slices[k]) && slices[k].end <= q {
        assert SliceIn(b, s, slices[k], q);
        OrderedAt(slices, p, q + 1, k, 0);
        if k > 0 { OrderedAt(slices, p, q + 1, 0, k); }
      }
    }

    /** One turn of the loop of `XMLNode::ParseDeep`, at `p` with the children linked so far. */
    method ParseChild(p: nat, doc: bool, first: bool, ghost sofar: seq<Node>, allowed: bool)
      returns (turn: Turn, node: Node, tag: Slice, after: nat)
      requires At(p) && Valid() && error == Success && p < |s| && allowed == DeclarationAllowed(doc, sofar)
      modifies this`curLine, this`depth, this`error, this`errorLine, this`unlinked, this`nextId
      modifies this`live, this`untracked, buf
      ensures Valid() && depth == old(depth) && unlinked == old(unlinked) && nextId >= old(nextId)
      ensures var l := ParseList(s, p, depth, doc, opts, first, sofar);
              match turn
              case Stop =>
                if error == Success then l == ListEnd(sofar) && after == p else l == ListFail(sofar, error, errorLine)
              case Close =>
                && error == Success && p < after && At(after) && l == ListClosed(sofar, after, tag)
                && IsName(s, tag) && p <= tag.start && tag.end < after
              case Link =>
                && error == Success && p < after && At(after)
                && l == ParseList(s, after, depth, doc, opts, false, sofar + [node])
                && AllKept(NodeSlices(node), after)
      ensures error == Success ==>
                p <= after && forall i | 0 <= i < buf.Length && !(p <= i < after) :: buf[i] == old(buf[i])
      ensures live == (if turn == Link then Plus(old(live), Count(node)) else old(live)) && untracked == old(untracked)
      ensures forall i | 0 <= i < p :: buf[i] == old(buf[i])
      decreases |s| - p, 2, 0
    {
      hide ParseList, ParseNode, Identify, LineAt, AllKept, Mismatch, DeclarationAllowed, IsName, NodeSlices, KeptIn,
        Intact, Count, Unit, FoundUnit, CountAll;
      ListUnfold(s, p, depth, doc, opts, first, sofar);
      turn, tag, after := Stop, Slice(p, p, NAME_FLAGS), p;
      node := Leaf(Text, tag, 0);
      var found, id := IdentifyNode(p, first);
      if found.Nothing? {
        return;
      }
      ghost var others := old(unlinked);
      var next, endTag;
      next, node, endTag := ReadNode(p, found);
      if next == None {
        DeleteNode(id, node, others);
        if error == Success {
          SetError(Parsing, found.line);
        }
        return;
      }
      after := next.value;
      tag := if node.Element? then node.name else tag;
      turn := Settle(id, node, endTag, found, others, p, after, doc, first, sofar, allowed);
    }

    lemma BufferLength(p: nat)
      requires Intact(p)
      ensures buf.Length == |s| + 1 && p <= |s| && NulFree(s)
    {
    }

    /** What becomes of a node that was read from `p` up to `q`: it is rejected, it is a close tag, or it is linked. */
    method Settle(id: nat, node: Node, endTag: Option<Slice>, found: Found, ghost others: seq<nat>, ghost p: nat,
                  ghost q: nat, ghost doc: bool, ghost first: bool, ghost sofar: seq<Node>, allowed: bool)
      returns (turn: Turn)
      requires Valid() && error == Success && At(q) && p < q && p < |s| && allowed == DeclarationAllowed(doc, sofar)
      requires unlinked == others + [id] && id !in others && depth < MAX_DEPTH
      requires found == Identify(s, p, first, opts) && !found.Nothing?
      requires ParseNode(s, p, depth, opts, found) == NodeOk(node, q, endTag) && Kept(node, endTag, p, q)
      modifies this`error, this`errorLine, this`unlinked, this`untracked, this`live, buf
      ensures Valid() && unlinked == others && untracked == Minus(old(untracked), Unit(node))
      ensures live == if turn == Link then old(live) else Minus(old(live), Count(node))
      ensures var l := ParseList(s, p, depth, doc, opts, first, sofar);
              match turn
              case Stop => error != Success && l == ListFail(sofar, error, errorLine)
              case Close =>
                && error == Success && At(q) && node.Element? && l == ListClosed(sofar, q, node.name)
                && IsName(s, node.name) && p <= node.name.start && node.name.end < q
              case Link =>
                && error == Success && At(q) && l == ParseList(s, q, depth, doc, opts, false, sofar + [node])
                && AllKept(NodeSlices(node), q)
      ensures error == Success ==> forall i | 0 <= i < buf.Length && !(p <= i < q) :: buf[i] == old(buf[i])
      ensures forall i | 0 <= i < p :: buf[i] == old(buf[i])
    {
      hide ParseList, ParseNode, Identify, LineAt, AllKept, Mismatch, DeclarationAllowed, IsName, NodeSlices, KeptIn,
        Intact, Count, Unit;
      ListUnfold(s, p, depth, doc, opts, first, sofar);
      BufferLength(q);
      ghost var was := buf[..];
      if IsDeclaration(node) && !allowed {
        DeclarationStarts(s, p, depth, first, opts, node, q, endTag);
        RejectDeclaration(id, node, found.line, others, p, q);
        return Stop;
      }
      if node.Element? {
        if node.closing == ClosingTag {
          DeleteNode(id, node, others);
          return Close;
        }
        KeptNow(NodeSlices(node), q);
        if endTag.Some? { KeptNow(NodeSlices(node), endTag.value.start); }
        var mismatch := CheckEnd(node, endTag, p, q);
        if mismatch {
          RejectMismatch(id, node, found.line, others, p, q);
          return Stop;
        }
        CheckedKept(node, endTag, p, q, first, was);
      }
      LinkNode(id, Unit(node), others);
      turn := Link;
    }

    /** A declaration in the wrong place: its value goes into the message, then it is deleted. */
    method RejectDeclaration(id: nat, node: Node, line: nat, ghost others: seq<nat>, ghost p: nat, ghost q: nat)
      requires Valid() && unlinked == others + [id] && id !in others
      requires Intact(q) && p <= q && node.Leaf? && p <= node.value.start && AllKept(NodeSlices(node), q)
      modifies this`error, this`errorLine, this`unlinked, this`untracked, this`live, buf
      ensures Valid() && unlinked == others && error == ParsingDeclaration && errorLine == line
      ensures untracked == Minus(old(untracked), Unit(node)) && live == Minus(old(live), Count(node))
      ensures forall i | 0 <= i < p :: buf[i] == old(buf[i])
    {
      hide Count;
      SetError(ParsingDeclaration, line);
      LeafKept(node, q);
      ReadValue(node.value);
      DeleteNode(id, node, others);
    }

    /** A close tag of another name, or none: the element's name goes into the message, then it is deleted. */
    method RejectMismatch(id: nat, node: Node, line: nat, ghost others: seq<nat>, ghost p: nat, ghost q: nat)
      requires Valid() && unlinked == others + [id] && id !in others
      requires Intact(q) && node.Element? && IsName(s, node.name) && p <= node.name.start && node.name.end < q
      modifies this`error, this`errorLine, this`unlinked, this`untracked, this`live, buf
      ensures Valid() && unlinked == others && error == MismatchedElement && errorLine == line
      ensures untracked == Minus(old(untracked), Unit(node)) && live == Minus(old(live), Count(node))
      ensures forall i | 0 <= i < p :: buf[i] == old(buf[i])
    {
      hide Count;
      SetError(MismatchedElement, line);
      NameInMessage(node.name);
      DeleteNode(id, node, others);
    }

    lemma {:induction false} SlicesMore(nodes: seq<Node>, n: Node)
      ensures ListSlices(nodes + [n]) == ListSlices(nodes) + NodeSlices(n)
      decreases nodes
    {
      hide NodeSlices;
      if nodes == [] {
        assert [n][1..] == [] && nodes + [n] == [n];
        assert ListSlices([]) == [];
      } else {
        assert (nodes + [n])[1..] == nodes[1..] + [n];
        SlicesMore(nodes[1..], n);
      }
    }

    /** The loop of `XMLNode::ParseDeep`. */
    method ParseChildren(p: nat, doc: bool) returns (next: Option<nat>, children: seq<Node>, endTag: Option<Slice>)
      requires At(p) && Valid() && error == Success
      modifies this`curLine, this`depth, this`error, this`errorLine, this`unlinked, this`nextId
      modifies this`live, this`untracked, buf
      ensures Valid() && depth == old(depth) && unlinked == old(unlinked) && nextId >= old(nextId)
      ensures Outcome(p, ParseList(s, p, depth, doc, opts, true, []), next, children, endTag)
      ensures live == Plus(old(live), CountAll(children)) && untracked == old(untracked)
      ensures forall i | 0 <= i < p :: buf[i] == old(buf[i])
      ensures error == Success ==> forall i | 0 <= i < buf.Length && !(p <= i < Limit(next)) :: buf[i] == old(buf[i])
      decreases |s| - p, 2, 1
    {
      hide ParseList, ParseNode, Identify, LineAt, AllKept, Mismatch, IsName, NodeSlices, ListSlices, KeptIn, SliceKept,
        Count, CountAll;
      next, children, endTag := None, [], None;
      CountNone();
      NoSlices(p);
      assert p < |s| ==> buf[p] == s[p] && s[p] in s;
      var q, first := p, true;
      while buf[q] != NUL
        invariant p <= q <= |s| && At(q) && Valid() && error == Success && depth == old(depth)
        invariant unlinked == old(unlinked) && nextId >= old(nextId)
        invariant ParseList(s, q, depth, doc, opts, first, children) == ParseList(s, p, depth, doc, opts, true, [])
        invariant AllKept(ListSlices(children), q)
        invariant live == Plus(old(live), CountAll(children)) && untracked == old(untracked)
        invariant forall i | 0 <= i < buf.Length && !(p <= i < q) :: buf[i] == old(buf[i])
        invariant q < |s| ==> buf[q] != NUL
        decreases |s| - q
      {
        KeptNow(ListSlices(children), q);
        ghost var b := buf[..];
        var allowed :=
          doc && (children == [] || (IsDeclaration(children[0]) && IsDeclaration(children[|children| - 1])));
        var turn, node, tag, after := ParseChild(q, doc, first, children, allowed);
        match turn {
          case Stop =>
            StillKept(ListSlices(children), q, b);
            KeptWider(ListSlices(children), q, |s|);
            return;
          case Close =>
            StillKept(ListSlices(children), q, b);
            KeptWider(ListSlices(children), q, tag.start);
            return Some(after), children, Some(tag);
          case Link =>
            StillKept(ListSlices(children), q, b);
            KeptMore(ListSlices(children), NodeSlices(node), q, after);
            SlicesMore(children, node);
            CountMore(children, node);
            children := children + [node];
            q, first := after, false;
            assert q < |s| ==> buf[q] == s[q] && s[q] in s;
        }
      }
      ListUnfold(s, q, depth, doc, opts, first, children);
      KeptWider(ListSlices(children), q, |s|);
    }

    lemma KeptMore(a: seq<Slice>, b: seq<Slice>, p: nat, q: nat)
      requires AllKept(a, p) && AllKept(b, q) && p <= q
      ensures AllKept(a + b, q)
    {
      hide SliceKept;
    }

    // ----- The document -----

    constructor (buf: array<char>, opts: Options, ghost s: string)
      requires buf.Length == |s| + 1 && buf[..|s|] == s && buf[|s|] == NUL && NulFree(s)
      ensures this.buf == buf && this.opts == opts && this.s == s
      ensures Valid() && Intact(0) && error == Success && depth == 0 && unlinked == []
      ensures live == NOTHING && untracked == NOTHING
    {
      this.buf, this.opts, this.s := buf, opts, s;
      live, untracked := NOTHING, NOTHING;
      curLine, depth, error, errorLine, unlinked, nextId := 0, 0, Success, 0, [], 0;
      assert forall i | 0 <= i < |s| :: buf[i] == buf[..|s|][i];
    }

    /** The white space and the byte order mark at the start of the text. */
    method Start() returns (p: nat, bom: bool)
      requires Intact(0)
      modifies this`curLine
      ensures var q := SkipWhiteSpace(s, 0); bom == Has(s, q, BOM) && p == if bom then q + |BOM| else q
      ensures p <= |s| < buf.Length && At(p) && (buf[p] == NUL <==> p == |s|)
    {
      hide LineAt, Has, SkipWhiteSpace;
      StartLine();
      curLine := 1;
      p := SkipSpace(0);
      bom := LooksAt(p, BOM);
      if bom {
        BomLine(BOM);
        KeepsLine(p, BOM);
        p := p + |BOM|;
      }
      assert p < |s| ==> buf[p] == s[p] && s[p] in s;
    }

    /** `XMLDocument::Parse`: on success and on every error the depth is back at 0, no node is left unlinked or
        untracked, exactly the nodes and attributes of the tree are live, and every string of the tree can be
        read from the buffer, in any order. */
    method Parse() returns (bom: bool, children: seq<Node>)
      requires Intact(0) && Valid() && error == Success && depth == 0 && unlinked == []
      requires live == NOTHING && untracked == NOTHING
      modifies this`curLine, this`depth, this`error, this`errorLine, this`unlinked, this`nextId
      modifies this`live, this`untracked, buf
      ensures Valid() && depth == 0 && unlinked == []
      ensures live == CountAll(children) && untracked == NOTHING
      ensures ParseDocument(s, opts) == Document(bom, children, error, if error == Success then 0 else errorLine)
      ensures Readable(children)
    {
      hide ParseList, EnterList, LineAt, Has, SkipWhiteSpace, ListSlices, AllKept, ParseDocument, CountAll, Readable,
           Intact;
      CountNone();
      BufferLength(0);
      DocumentUnfold(s, opts);
      children := [];
      var p;
      p, bom := Start();
      if buf[p] == NUL {
        SetError(EmptyDocument, 0);
        NoSlices(|s|);
      } else {
        var next, endTag;
        next, children, endTag := ParseDeep(p, true);
        if next.Some? {
          KeptWider(ListSlices(children), endTag.value.start, |s|);
        }
      }
      DocumentIsReadable(children);
    }

    lemma StartLine()
      ensures LineAt(s, 0) == 1
    {
    }

    lemma BomLine(x: string)
      requires x == BOM
      ensures LF !in x
    {
    }

    /** Every slice is still what `GetStr` needs, stands for the value of its raw text, and shares no byte
        with another slice. */
    ghost predicate Readable(children: seq<Node>)
      reads buf
    {
      var slices := ListSlices(children);
      var pairs := PairsOf(slices);
      && StrPairs.Disjoint(pairs)
      && forall k | 0 <= k < |slices| ::
           && StrPairs.Valid(buf[..], pairs[k]) && slices[k].start <= slices[k].end <= |s|
           && StrPairs.Meaning(buf[..], pairs[k]) == Value(s[slices[k].start..slices[k].end], slices[k].flags)
    }

    lemma DocumentIsReadable(children: seq<Node>)
      requires ParseDocument(s, opts).nodes == children
      requires NulFree(s) && AllKept(ListSlices(children), |s|)
      ensures Readable(children)
    {
      hide ParseDocument, ListSlices, Ordered, Value, NulFree;
      var slices := ListSlices(children);
      var pairs := PairsOf(slices);
      DocumentOrdered(s, opts);
      forall k | 0 <= k < |slices|
        ensures StrPairs.Valid(buf[..], pairs[k]) && slices[k].start <= slices[k].end <= |s|
        ensures StrPairs.Meaning(buf[..], pairs[k]) == Value(s[slices[k].start..slices[k].end], slices[k].flags)
      {
        OrderedAt(slices, 0, |s| + 1, k, 0);
        var x := slices[k];
        assert SliceKept(x);
        assert buf[..][x.start..x.end] == s[x.start..x.end];
        NulFreeSlice(s, x.start, x.end);
      }
      forall i, j | 0 <= i < j < |slices| ensures pairs[i].end < pairs[j].start {
        OrderedAt(slices, 0, |s| + 1, i, j);
      }
    }

    lemma NameKeepsLine(p: nat, e: nat)
      requires Intact(p) && ParseName(s, p) == Some(e)
      ensures Intact(e) && LineAt(s, e) == LineAt(s, p)
    {
      hide LineAt;
      assert s[p] != LF && LF !in s[p + 1..e];
      assert s[p..e] == [s[p]] + s[p + 1..e];
      KeepsLine(p, s[p..e]);
    }

    /** Moving over a string without line feeds keeps the line. */
    lemma KeepsLine(p: nat, x: string)
      requires Intact(p) && Has(s, p, x) && LF !in x
      ensures p + |x| <= |s| && Intact(p + |x|) && LineAt(s, p + |x|) == LineAt(s, p)
    {
      SameLine(s, p, x);
    }
  }

  lemma KindHas(s: string, b: nat)
    ensures KindAt(s, b).Some? ==> Has(s, b, Header(KindAt(s, b).value)) && LF !in Header(KindAt(s, b).value)
  {
    hide Has;
  }

  /** The raw text of the slices, which end before `p`, is in the buffer `b`. */
  ghost predicate KeptIn(b: seq<char>, s: string, slices: seq<Slice>, p: nat) {
    forall k | 0 <= k < |slices| :: SliceIn(b, s, slices[k], p)
  }

  ghost predicate SliceIn(b: seq<char>, s: string, x: Slice, p: nat) {
    && x.start <= x.end <= p && x.end <= |s| < |b|
    && forall i | x.start <= i < x.end :: b[i] == s[i]
  }

  lemma DocumentUnfold(s: string, opts: Options)
    ensures var p := SkipWhiteSpace(s, 0);
            var q := if Has(s, p, BOM) then p + |BOM| else p;
            && q <= |s|
            && ParseDocument(s, opts) ==
               if q == |s| then Document(Has(s, p, BOM), [], EmptyDocument, 0)
               else match EnterList(s, q, 0, true, opts)
                 case ListFail(nodes, error, line) => Document(Has(s, p, BOM), nodes, error, line)
                 case ListEnd(nodes) => Document(Has(s, p, BOM), nodes, Success, 0)
                 case ListClosed(nodes, _, _) => Document(Has(s, p, BOM), nodes, Success, 0)
  {
    hide EnterList, SkipWhiteSpace;
  }

  lemma TagHasNoLine(kind: Kind)
    ensures LF !in EndTag(kind)
  {
  }

  lemma AttrHasName(s: string, a: Attr, opts: Options)
    requires IsAttr(s, a, opts)
    ensures IsName(s, a.name)
  {
  }

  lemma {:induction false} SameLine(s: string, p: nat, x: string)
    requires Has(s, p, x) && LF !in x
    ensures LineAt(s, p + |x|) == LineAt(s, p)
    decreases |x|
  {
    if x != "" {
      var init := x[..|x| - 1];
      assert x == init + [x[|x| - 1]];
      HasConcat(s, p, init, [x[|x| - 1]]);
      HasAt(s, p, x, |x| - 1);
      SameLine(s, p, init);
    }
  }

  /** The value of a declaration lies behind the cursor it was found from. */
  lemma DeclarationStarts(s: string, p: nat, depth: nat, first: bool, opts: Options, n: Node, q: nat,
                          endTag: Option<Slice>)
    requires p < |s| && depth < MAX_DEPTH && !Identify(s, p, first, opts).Nothing? && IsDeclaration(n)
    requires ParseNode(s, p, depth, opts, Identify(s, p, first, opts)) == NodeOk(n, q, endTag)
    ensures p <= n.value.start
  {
    hide ParseNode, Identify, SkipWhiteSpace, Has, KindAt;
    NodeSound(s, p, depth, first, opts, n, q, endTag);
  }
}
