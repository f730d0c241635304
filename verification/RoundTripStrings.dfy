/** Strings survive printing, cutting and decoding. */
module RoundTripStrings {
  import opened Chars
  import opened Decode
  import opened Syntax
  import opened Render

  // ----- What is escaped -----

  /** One character: three have patterns everywhere, the two quotes only in attribute values. */
  lemma EscapeOne(c: char, restricted: bool)
    ensures Escape([c], restricted)
         == if c == '&' then "&amp;" else if c == '<' then "&lt;" else if c == '>' then "&gt;"
            else if c == '\"' && !restricted then "&quot;" else if c == '\'' && !restricted then "&apos;" else [c]
  {
    assert [c][1..] == "";
    assert Escape([c], restricted) == EscapeChar(c, restricted) + "";
  }

  /** The characters that are not printed as they are. */
  predicate Special(c: char, restricted: bool) {
    c in "&<>" || (!restricted && c in "\"'")
  }

  lemma EscapeFirst(v: string, restricted: bool)
    requires v != ""
    ensures Escape(v, restricted) == Escape([v[0]], restricted) + Escape(v[1..], restricted)
  {
    assert [v[0]][1..] == "";
    assert Escape([v[0]], restricted) == EscapeChar(v[0], restricted) + "";
  }

  /** A string is printed as it is exactly when it has none of the special characters; any other gets longer. */
  lemma {:induction false} EscapeKeeps(v: string, restricted: bool)
    ensures Escape(v, restricted) == v <==> forall i | 0 <= i < |v| :: !Special(v[i], restricted)
    ensures |Escape(v, restricted)| >= |v|
    decreases v
  {
    hide Escape;
    if v == "" {
      EscapeNothing(restricted);
    } else {
      EscapeFirst(v, restricted);
      EscapeOne(v[0], restricted);
      EscapeKeeps(v[1..], restricted);
      var one, rest := Escape([v[0]], restricted), Escape(v[1..], restricted);
      assert v == [v[0]] + v[1..];
      if !Special(v[0], restricted) {
        assert forall i | 0 < i < |v| :: v[i] == v[1..][i - 1];
        SplitEqual(one, rest, [v[0]], v[1..]);
      }
    }
  }

  /** An escaped character is one turn of the decoder. */
  lemma DecodeEscapedChar(c: char, restricted: bool, rest: string, newline: bool, collapse: bool)
    requires c != CR && (rest != "" ==> rest[0] != CR)
    ensures var e := EscapeChar(c, restricted);
            DecodeStep(e + rest, Flags(true, newline, collapse)) == Write([c], |e|)
  {
    var e := EscapeChar(c, restricted);
    var u := e + rest;
    if Escaped(c, restricted) {
      var k := if c == '\"' then 0 else if c == '&' then 1 else if c == '\'' then 2 else if c == '<' then 3 else 4;
      var name := ENTITIES[k].0;
      assert Pattern(c) == "&" + name + ";";
      assert u[1..1 + |name|] == name;
      assert EntityMatches(u, k);
      OneEntityMatches(u, k);
    } else if rest != "" {
      assert u[1] == rest[0];
    }
  }

  /** At most one table entry matches, so the first match is the only one. */
  lemma OneEntityMatches(u: string, k: nat)
    requires k < |ENTITIES| && EntityMatches(u, k)
    ensures FindEntity(u, 0) == Some(k)
  {
    var m := FindEntity(u, 0).value;
    HasAt(u, 1, ENTITIES[k].0, 0);
    HasAt(u, 1, ENTITIES[k].0, 1);
    HasAt(u, 1, ENTITIES[m].0, 0);
    HasAt(u, 1, ENTITIES[m].0, 1);
  }

  lemma EscapeHead(v: string, restricted: bool)
    requires v != ""
    ensures Escape(v, restricted) != ""
    ensures v[0] != CR ==> Escape(v, restricted)[0] != CR
    ensures Escape(v, restricted)[0] == if Escaped(v[0], restricted) then '&' else v[0]
  {
  }

  /** The escaped first character is one turn, and the escaped rest is what is left. */
  lemma EscapedTurn(u: string, v: string, restricted: bool, collapse: bool)
    requires v != "" && u == Escape(v, restricted) && CR !in v
    ensures var e := EscapeChar(v[0], restricted);
            && |e| <= |u| && DecodeStep(u, Flags(true, true, collapse)) == Write([v[0]], |e|)
            && u[|e|..] == Escape(v[1..], restricted)
  {
    hide DecodeStep, EscapeChar;
    var e, rest := EscapeChar(v[0], restricted), Escape(v[1..], restricted);
    assert u == e + rest;
    if v[1..] != "" { EscapeHead(v[1..], restricted); }
    DecodeEscapedChar(v[0], restricted, rest, true, collapse);
  }

  /** Decoding an escaped string in place gives the string back. */
  lemma {:induction false} DecodeEscaped(t: string, i: nat, j: nat, v: string, restricted: bool, collapse: bool)
    requires j <= i <= |t| && t[i..] == Escape(v, restricted) && CR !in v
    ensures InPlace(t, Flags(true, true, collapse), i, j) == v
    decreases v
  {
    hide DecodeStep, InPlace, Ideal, NoStaleByte, EscapeChar, Escape;
    UnfoldDecoders(t, Flags(true, true, collapse), i, j);
    if v == "" {
      EscapeNothing(restricted);
    } else {
      EscapedTurn(t[i..], v, restricted, collapse);
      var e := |EscapeChar(v[0], restricted)|;
      assert t[i..] != "" by { EscapeHead(v, restricted); }
      assert t[i + e..] == t[i..][e..];
      DecodeEscaped(t, i + e, j + 1, v[1..], restricted, collapse);
    }
  }

  lemma EscapeNothing(restricted: bool)
    ensures Escape("", restricted) == ""
  {
  }

  /** Without entity processing, decoding keeps every text free of carriage returns. */
  lemma {:induction false} DecodePlain(t: string, i: nat, newline: bool)
    requires i <= |t| && CR !in t
    ensures InPlace(t, Flags(false, newline, false), i, i) == t[i..]
    decreases |t| - i
  {
    hide InPlace, DecodeStep, Ideal, NoStaleByte;
    UnfoldDecoders(t, Flags(false, newline, false), i, i);
    if i < |t| {
      PlainTurn(t, i, newline);
      DecodePlain(t, i + 1, newline);
      assert t[i..] == [t[i]] + t[i + 1..];
    }
  }

  lemma PlainTurn(t: string, i: nat, newline: bool)
    requires i < |t| && CR !in t
    ensures DecodeStep(t[i..], Flags(false, newline, false)) == Write([t[i]], 1)
  {
    assert i + 1 < |t| ==> t[i..][1] == t[i + 1] && t[i + 1] in t;
    assert t[i] in t;
  }

  lemma {:induction false} EscapeFreeOf(v: string, restricted: bool, c: char)
    requires c == '<' || (c == '\"' && !restricted) || (c == NUL && NulFree(v))
    ensures c !in Escape(v, restricted)
    decreases v
  {
    if v != "" {
      EscapeFreeOf(v[1..], restricted, c);
      assert c !in EscapeChar(v[0], restricted);
    }
  }

  /** A run without `c` is cut exactly at a `c` behind it. */
  lemma CutAtChar(s: string, p: nat, v: string, c: char)
    requires Has(s, p, v) && c !in v && p + |v| < |s| && s[p + |v|] == c
    ensures FindTag(s, p, [c]) == Some(p + |v|)
  {
    forall i | p <= i < p + |v| ensures !Has(s, i, [c]) {
      HasAt(s, p, v, i - p);
      assert v[i - p] in v;
      if Has(s, i, [c]) { HasAt(s, i, [c], 0); }
    }
    assert Has(s, p + |v|, [c]) by { assert s[p + |v|..p + |v| + 1] == [c]; }
    FindTagIs(s, p, [c], p + |v|);
  }

  /** A tag that occurs in `s` within the value at `p` is one of the value's. */
  lemma FoundInside(s: string, p: nat, v: string, i: nat, tag: string)
    requires Has(s, p, v) && Has(s, i, tag) && p <= i && i + |tag| <= p + |v| && tag != ""
    ensures Contains(v, tag)
  {
    var cut := v[i - p..i - p + |tag|];
    forall k | 0 <= k < |tag| ensures cut[k] == tag[k] {
      HasAt(s, p, v, i - p + k);
      HasAt(s, i, tag, k);
    }
    assert cut == tag;
    assert Has(v, i - p, tag);
  }

  /** A value without its end tag is cut exactly at the end tag behind it. */
  lemma CutAtTag(s: string, p: nat, v: string, kind: Kind)
    requires kind != Text && !Contains(v, EndTag(kind))
    requires Has(s, p, v) && Has(s, p + |v|, EndTag(kind))
    ensures FindTag(s, p, EndTag(kind)) == Some(p + |v|)
  {
    hide FindTag, Contains;
    var tag := EndTag(kind);
    var e := p + |v|;
    forall i | p <= i < e ensures !Has(s, i, tag) {
      if Has(s, i, tag) {
        if i + |tag| <= e {
          FoundInside(s, p, v, i, tag);
        } else {
          HasAt(s, i, tag, |tag| - 1);
          HasAt(s, e, tag, i + |tag| - 1 - e);
        }
        assert false;
      }
    }
    FindTagIs(s, p, tag, e);
  }

  /** An escaped string is cut at its delimiter. */
  lemma CutEscaped(s: string, p: nat, v: string, restricted: bool)
    requires NormalValue(v)
    requires Has(s, p, Escape(v, restricted) + [if restricted then '<' else '\"'])
    ensures var e := Escape(v, restricted);
            && p + |e| < |s| && s[p..p + |e|] == e
            && FindTag(s, p, [if restricted then '<' else '\"']) == Some(p + |e|)
  {
    hide Escape, FindTag;
    var c := if restricted then '<' else '\"';
    var e := Escape(v, restricted);
    HasConcat(s, p, e, [c]);
    HasAt(s, p + |e|, [c], 0);
    EscapeFreeOf(v, restricted, c);
    CutAtChar(s, p, e, c);
  }

  lemma EscapedValue(v: string, restricted: bool)
    requires NormalValue(v)
    ensures Value(Escape(v, restricted), Flags(true, true, false)) == v
  {
    hide Escape, InPlace;
    var e := Escape(v, restricted);
    assert e[0..] == e;
    DecodeEscaped(e, 0, 0, v, restricted, false);
    CStringOfNulFree(v);
  }

  /** A printed string, followed by its delimiter, is cut there and decodes to the original. */
  lemma StringRoundTrip(s: string, p: nat, v: string, restricted: bool)
    requires NormalValue(v)
    requires Has(s, p, Escape(v, restricted) + [if restricted then '<' else '\"'])
    ensures var end := p + |Escape(v, restricted)|;
            && FindTag(s, p, [if restricted then '<' else '\"']) == Some(end)
            && Value(s[p..end], Flags(true, true, false)) == v
  {
    hide Escape, FindTag, Value;
    CutEscaped(s, p, v, restricted);
    EscapedValue(v, restricted);
  }

  lemma PlainValue(v: string, fl: Flags)
    requires NormalValue(v) && !fl.entity && !fl.collapse
    ensures Value(v, fl) == v
  {
    DecodePlain(v, 0, fl.newline);
    assert v[0..] == v;
    CStringOfNulFree(v);
  }
}
