/** What the raw text of a string stands for, token by token, without the turns of the loop that decodes it. */
module Tokens {
  import opened Chars
  import opened CharRef
  import opened Decode
  import opened References

  /** The five predefined entities (XML 1.0 section 4.6). */
  predicate Predefined(entity: string, c: char) {
    || (entity == "&quot;" && c == '\"') || (entity == "&amp;" && c == '&') || (entity == "&apos;" && c == '\'')
    || (entity == "&lt;" && c == '<') || (entity == "&gt;" && c == '>')
  }

  /** A text begins with a line end of one byte or two. */
  predicate LineEnd(t: string, used: nat) {
    if "\r\n" <= t || "\n\r" <= t then used == 2 else used == 1 && ("\r" <= t || "\n" <= t)
  }

  predicate Entity(t: string, bytes: string, used: nat) {
    |bytes| == 1 && used <= |t| && Predefined(t[..used], bytes[0])
  }

  ghost predicate Reference(t: string, bytes: string, used: nat) {
    "&#" <= t && Refers(t, Ref(used, bytes))
  }

  /** A token that is not just a byte. */
  ghost predicate Markup(t: string, fl: Flags, bytes: string, used: nat) {
    || (fl.newline && LineEnd(t, used) && bytes == "\n")
    || (fl.entity && (Entity(t, bytes, used) || Reference(t, bytes, used)))
  }

  /** The text begins with `used` bytes that stand for `bytes`: a line end, an entity, a reference, or one byte
      where none of these begins. */
  ghost predicate Token(t: string, fl: Flags, bytes: string, used: nat) {
    || Markup(t, fl, bytes, used)
    || (t != "" && bytes == t[..1] && used == 1 && forall b: string, n: nat :: !Markup(t, fl, b, n))
  }

  /** An `&` at which no entity and no `&#` begins: there the loop in place writes nothing. */
  ghost predicate UnknownEntity(t: string, fl: Flags) {
    fl.entity && "&" <= t && !("&#" <= t) && forall b: string, n: nat :: !Entity(t, b, n)
  }

  // ----- Turns and tokens -----

  lemma StartsWith(t: string, a: char)
    ensures [a] <= t <==> t != "" && t[0] == a
  {
  }

  lemma StartsWithTwo(t: string, a: char, b: char)
    ensures [a, b] <= t <==> |t| >= 2 && t[0] == a && t[1] == b
  {
    if |t| >= 2 { assert t == [t[0], t[1]] + t[2..]; }
  }

  lemma LineEnds(t: string, used: nat)
    requires t != ""
    ensures LineEnd(t, used) <==>
            || (t[0] == CR && used == if ByteAt(t, 1) == LF then 2 else 1)
            || (t[0] == LF && used == if ByteAt(t, 1) == CR then 2 else 1)
  {
    StartsWith(t, CR);
    StartsWith(t, LF);
    StartsWithTwo(t, CR, LF);
    StartsWithTwo(t, LF, CR);
  }

  /** The table of the code is that of the standard. */
  lemma TableIs(entity: string, c: char)
    ensures Predefined(entity, c) <==>
            exists k | 0 <= k < |ENTITIES| :: entity == "&" + ENTITIES[k].0 + ";" && c == ENTITIES[k].1
  {
    assert "&" + ENTITIES[0].0 + ";" == "&quot;" && ENTITIES[0].1 == '\"';
    assert "&" + ENTITIES[1].0 + ";" == "&amp;" && ENTITIES[1].1 == '&';
    assert "&" + ENTITIES[2].0 + ";" == "&apos;" && ENTITIES[2].1 == '\'';
    assert "&" + ENTITIES[3].0 + ";" == "&lt;" && ENTITIES[3].1 == '<';
    assert "&" + ENTITIES[4].0 + ";" == "&gt;" && ENTITIES[4].1 == '>';
  }

  lemma EntityAt(t: string, k: nat)
    requires k < |ENTITIES| && t != "" && t[0] == '&'
    ensures var w := "&" + ENTITIES[k].0 + ";"; EntityMatches(t, k) <==> |w| <= |t| && t[..|w|] == w
  {
    var name := ENTITIES[k].0;
    var w := "&" + name + ";";
    var n := |w|;
    HasConcat(t, 1, name, ";");
    if EntityMatches(t, k) {
      assert Has(t, n - 1, ";") by { HasChar(t, n - 1); }
      HasInside(t, 1, name + ";");
      assert t[..n] == [t[0]] + t[1..n];
    }
    if n <= |t| && t[..n] == w {
      assert t[1..1 + |name|] == w[1..1 + |name|] == name;
      assert t[n - 1] == t[..n][n - 1] == ';';
    }
  }

  /** No entity is the beginning of another one. */
  lemma OneEntity(t: string, k: nat, m: nat)
    requires k < |ENTITIES| && m < |ENTITIES| && EntityMatches(t, k) && EntityMatches(t, m)
    ensures k == m
  {
    HasAt(t, 1, ENTITIES[k].0, 0);
    HasAt(t, 1, ENTITIES[k].0, 1);
    HasAt(t, 1, ENTITIES[m].0, 0);
    HasAt(t, 1, ENTITIES[m].0, 1);
  }

  lemma EntityIs(t: string, bytes: string, used: nat)
    requires t != "" && t[0] == '&'
    ensures var k := FindEntity(t, 0);
            Entity(t, bytes, used) <==>
            k.Some? && bytes == [ENTITIES[k.value].1] && used == |ENTITIES[k.value].0| + 2
  {
    hide FindEntity, EntityMatches, Predefined;
    var found := FindEntity(t, 0);
    if Entity(t, bytes, used) {
      TableIs(t[..used], bytes[0]);
      var k :| 0 <= k < |ENTITIES| && t[..used] == "&" + ENTITIES[k].0 + ";" && bytes[0] == ENTITIES[k].1;
      EntityAt(t, k);
      assert found.Some?;
      OneEntity(t, k, found.value);
    }
    if found.Some? {
      var k := found.value;
      EntityAt(t, k);
      TableIs(t[..|ENTITIES[k].0| + 2], ENTITIES[k].1);
    }
  }

  lemma EntityStarts(t: string, bytes: string, used: nat)
    requires Entity(t, bytes, used)
    ensures |t| >= 2 && t[0] == '&' && t[1] != '#'
  {
    assert t[0] == t[..used][0] && t[1] == t[..used][1];
  }

  lemma TurnIsMarkup(t: string, fl: Flags, bytes: string, used: nat)
    requires t != ""
    ensures Markup(t, fl, bytes, used) <==>
            if fl.newline && (t[0] == CR || t[0] == LF) then DecodeStep(t, fl) == Write(bytes, used)
            else if fl.entity && t[0] == '&' && ByteAt(t, 1) == '#' then CharRefAt(t) == Ref(used, bytes)
            else fl.entity && t[0] == '&' && FindEntity(t, 0).Some? && DecodeStep(t, fl) == Write(bytes, used)
  {
    hide FindEntity, CharRefAt, Refers, Entity;
    LineEnds(t, used);
    StartsWithTwo(t, '&', '#');
    if Entity(t, bytes, used) { EntityStarts(t, bytes, used); }
    if t[0] == '&' {
      EntityIs(t, bytes, used);
      if ByteAt(t, 1) == '#' { CharRefIs(t, Ref(used, bytes)); }
    }
  }

  /** A turn of the loop reads one token. */
  lemma TurnIsToken(t: string, fl: Flags, bytes: string, used: nat)
    requires t != ""
    ensures var s := DecodeStep(t, fl);
            Token(t, fl, bytes, used) <==> s.Leaves('&') == bytes && s.Used() == used
  {
    hide FindEntity, CharRefAt, Markup;
    TurnIsMarkup(t, fl, bytes, used);
    forall b: string, n: nat ensures Markup(t, fl, b, n) ==> DecodeStep(t, fl) == Write(b, n) {
      TurnIsMarkup(t, fl, b, n);
    }
    var s := DecodeStep(t, fl);
    if s.Write? { TurnIsMarkup(t, fl, s.bytes, s.used); }
    assert t[..1] == [t[0]];
  }

  /** The tokens of a text are what decoding it concatenates. */
  lemma {:induction false} IdealOfToken(t: string, fl: Flags, bytes: string, used: nat)
    requires Token(t, fl, bytes, used) && t != ""
    ensures 0 < used <= |t| && Ideal(t, fl) == bytes + Ideal(t[used..], fl)
  {
    hide DecodeStep, Token, Ideal;
    TurnIsToken(t, fl, bytes, used);
    assert t[0..] == t;
    UnfoldDecoders(t, fl, 0, 0);
  }

  /** Every text begins with one token. */
  lemma TokenExists(t: string, fl: Flags) returns (bytes: string, used: nat)
    requires t != ""
    ensures Token(t, fl, bytes, used)
    ensures forall b: string, n: nat :: Token(t, fl, b, n) ==> b == bytes && n == used
  {
    hide DecodeStep, Token;
    var s := DecodeStep(t, fl);
    bytes, used := s.Leaves('&'), s.Used();
    forall b: string, n: nat ensures Token(t, fl, b, n) <==> bytes == b && used == n {
      TurnIsToken(t, fl, b, n);
    }
  }

  // ----- Whole texts -----

  /** `r` is what the tokens of `t` stand for, one behind the other. */
  ghost predicate ReadsAs(t: string, r: string, fl: Flags)
    decreases |t|
  {
    if t == "" then r == "" else exists b: string, n: nat :: ReadsFirst(t, r, fl, b, n)
  }

  ghost predicate ReadsFirst(t: string, r: string, fl: Flags, b: string, n: nat)
    decreases |t|, 0
  {
    Token(t, fl, b, n) && 0 < n <= |t| && b <= r && ReadsAs(t[n..], r[|b|..], fl)
  }

  /** The decoder computes what the tokens stand for, and nothing else. */
  lemma {:induction false} IdealReads(t: string, r: string, fl: Flags)
    ensures ReadsAs(t, r, fl) <==> r == Ideal(t, fl)
    decreases |t|
  {
    hide DecodeStep, Token, Ideal;
    if t == "" {
      assert t[0..] == t;
      UnfoldDecoders(t, fl, 0, 0);
    } else {
      var bytes, used := TokenExists(t, fl);
      IdealOfToken(t, fl, bytes, used);
      var rest := Ideal(t[used..], fl);
      IdealReads(t[used..], rest, fl);
      if bytes <= r {
        IdealReads(t[used..], r[|bytes|..], fl);
        assert r == bytes + r[|bytes|..];
      }
      assert (bytes + rest)[|bytes|..] == rest;
      assert ReadsFirst(t, bytes + rest, fl, bytes, used);
    }
  }

  /** The loop in place writes the same bytes, but nothing at an unknown entity, where the byte that stands at the
      write position stays. */
  lemma InPlaceOfToken(t: string, fl: Flags, i: nat, j: nat, bytes: string, used: nat)
    requires j <= i < |t| && Token(t[i..], fl, bytes, used)
    ensures 0 < used && i + used <= |t| && j + |bytes| <= i + used
    ensures InPlace(t, fl, i, j)
            == (if UnknownEntity(t[i..], fl) then [t[j]] else bytes) + InPlace(t, fl, i + used, j + |bytes|)
    ensures NoStaleByte(t, fl, i, j) <==>
            (UnknownEntity(t[i..], fl) ==> t[j] == '&') && NoStaleByte(t, fl, i + used, j + |bytes|)
  {
    hide DecodeStep, Token, InPlace, Ideal, NoStaleByte, UnknownEntity;
    TurnIsToken(t[i..], fl, bytes, used);
    UnfoldDecoders(t, fl, i, j);
    SkipIs(t[i..], fl);
  }

  lemma SkipIs(t: string, fl: Flags)
    requires t != ""
    ensures DecodeStep(t, fl).Skip? <==> UnknownEntity(t, fl)
  {
    hide FindEntity, CharRefAt, Entity;
    StartsWith(t, '&');
    StartsWithTwo(t, '&', '#');
    if t[0] == '&' {
      forall b: string, n: nat
        ensures Entity(t, b, n) <==>
                var k := FindEntity(t, 0);
                k.Some? && b == [ENTITIES[k.value].1] && n == |ENTITIES[k.value].0| + 2
      {
        EntityIs(t, b, n);
      }
      var k := FindEntity(t, 0);
      if k.Some? { assert Entity(t, [ENTITIES[k.value].1], |ENTITIES[k.value].0| + 2); }
    }
  }

  /** Without semicolons and line ends there is nothing to decode, but for an `&#` at the very end. */
  lemma {:induction false} PlainTextKept(t: string, fl: Flags)
    requires fl.entity ==> ';' !in t && !(|t| >= 2 && t[|t| - 2..] == "&#")
    requires fl.newline ==> CR !in t && LF !in t
    ensures Ideal(t, fl) == t
    decreases |t|
  {
    hide Ideal, Token;
    assert t[0..] == t;
    if t == "" {
      UnfoldDecoders(t, fl, 0, 0);
    } else {
      PlainToken(t, fl);
      IdealOfToken(t, fl, t[..1], 1);
      var rest := t[1..];
      assert |rest| >= 2 ==> rest[|rest| - 2..] == t[|t| - 2..];
      PlainTextKept(rest, fl);
      assert t[..1] + rest == t;
    }
  }

  lemma PlainToken(t: string, fl: Flags)
    requires t != "" && (fl.entity ==> ';' !in t && t != "&#") && (fl.newline ==> CR !in t && LF !in t)
    ensures Token(t, fl, t[..1], 1)
  {
    forall b: string, n: nat ensures !Markup(t, fl, b, n) {
      if fl.newline { LineEnds(t, n); assert t[0] in t; }
      if fl.entity {
        NoEntityInside(t, b, n);
        NoReferenceInside(t, b, n);
      }
    }
  }

  lemma NoEntityInside(t: string, b: string, n: nat)
    requires ';' !in t
    ensures !Entity(t, b, n)
  {
    if Entity(t, b, n) { EntityEnds(t, b, n); }
  }

  lemma EntityEnds(t: string, b: string, n: nat)
    requires Entity(t, b, n)
    ensures ';' in t
  {
    assert t[n - 1] == t[..n][n - 1] == ';';
  }

  lemma NoReferenceInside(t: string, b: string, n: nat)
    requires ';' !in t && t != "&#"
    ensures !Reference(t, b, n)
  {
    StartsWithTwo(t, '&', '#');
    if "&#" <= t {
      assert |t| == 2 ==> t == "&#";
      assert |t| > 2 && t[2] == 'x' ==> |t| >= 3 && ';' !in t[3..];
      assert ';' !in t[2..];
    }
  }
}
