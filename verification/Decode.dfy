/** What the lazily evaluated strings of `StrPair` denote: entities, character references, line ends
    and white space. Pure functions over the raw text of a slice. */
module Decode {
  import opened Chars
  import opened CharRef

  datatype Flags = Flags(entity: bool, newline: bool, collapse: bool)

  /** The entity table (XML 1.0 section 4.6). */
  const ENTITIES: seq<(string, char)> :=
    [("quot", '\"'), ("amp", '&'), ("apos", '\''), ("lt", '<'), ("gt", '>')]

  predicate EntityMatches(u: string, k: nat)
    requires k < |ENTITIES|
  {
    Has(u, 1, ENTITIES[k].0) && ByteAt(u, 1 + |ENTITIES[k].0|) == ';'
  }

  /** The first entry of the table, from `k` on, that the text after `&` names. */
  function FindEntity(u: string, k: nat): (r: Option<nat>)
    requires k <= |ENTITIES|
    ensures r.Some? ==> k <= r.value < |ENTITIES| && EntityMatches(u, r.value)
    ensures r.None? ==> forall m | k <= m < |ENTITIES| :: !EntityMatches(u, m)
    decreases |ENTITIES| - k
  {
    if k == |ENTITIES| then None
    else if EntityMatches(u, k) then Some(k)
    else FindEntity(u, k + 1)
  }

  /** One turn of the read loop: bytes written for `used` bytes read; or, at an `&` that opens neither a
      reference nor a known entity, both pointers move on by one and nothing is written. */
  datatype Step = Write(bytes: string, used: nat) | Skip
  {
    function Used(): nat {
      if Skip? then 1 else used
    }

    /** How far the write pointer moves. */
    function Width(): nat {
      if Skip? then 1 else |bytes|
    }

    /** The bytes the turn leaves at the write position, where `stale` was. */
    function Leaves(stale: char): (r: string)
      ensures |r| == Width()
    {
      if Skip? then [stale] else bytes
    }
  }

  /** The turn at the start of the remaining text `u`. */
  function DecodeStep(u: string, fl: Flags): (s: Step)
    requires u != ""
    ensures 0 < s.Used() <= |u| && s.Width() <= s.Used()
    ensures s.Skip? ==> u[0] == '&' && ByteAt(u, 1) != '#'
  {
    if fl.newline && u[0] == CR then Write([LF], if ByteAt(u, 1) == LF then 2 else 1)
    else if fl.newline && u[0] == LF then Write([LF], if ByteAt(u, 1) == CR then 2 else 1)
    else if fl.entity && u[0] == '&' then
      if ByteAt(u, 1) == '#' then
        match CharRefAt(u)
        case NotARef => Write([u[0]], 1)
        case Ref(next, bytes) => Write(bytes, next)
      else
        match FindEntity(u, 0)
        case Some(k) => Write([ENTITIES[k].1], |ENTITIES[k].0| + 2)
        case None => Skip
    else Write([u[0]], 1)
  }

  /** The left-to-right decoder that keeps the `&` of an unknown entity. */
  function Ideal(u: string, fl: Flags): (r: string)
    ensures |r| <= |u|
  {
    if u == "" then ""
    else
      var s := DecodeStep(u, fl);
      s.Leaves('&') + Ideal(u[s.Used()..], fl)
  }

  /** What the in-place loop leaves, reading at `i` and writing at `j` of the slice `t`. */
  function InPlace(t: string, fl: Flags, i: nat, j: nat): (r: string)
    requires j <= i <= |t|
    ensures j + |r| <= |t|
    decreases |t| - i
  {
    if i == |t| then ""
    else
      var s := DecodeStep(t[i..], fl);
      s.Leaves(t[j]) + InPlace(t, fl, i + s.Used(), j + s.Width())
  }

  /** Wherever an unknown entity is read, the byte at the write position is an `&` already. */
  predicate NoStaleByte(t: string, fl: Flags, i: nat, j: nat)
    requires j <= i <= |t|
    decreases |t| - i
  {
    i == |t| ||
    var s := DecodeStep(t[i..], fl);
    (s.Skip? ==> t[j] == '&') && NoStaleByte(t, fl, i + s.Used(), j + s.Width())
  }

  /** The in-place loop computes the left-to-right decoder exactly when no stale byte is kept. */
  lemma {:induction false} InPlaceIsIdeal(t: string, fl: Flags, i: nat, j: nat)
    requires j <= i <= |t|
    ensures |InPlace(t, fl, i, j)| == |Ideal(t[i..], fl)|
    ensures InPlace(t, fl, i, j) == Ideal(t[i..], fl) <==> NoStaleByte(t, fl, i, j)
    decreases |t| - i
  {
    hide DecodeStep, InPlace, Ideal, NoStaleByte;
    UnfoldDecoders(t, fl, i, j);
    if i < |t| {
      var u := t[i..];
      var s := DecodeStep(u, fl);
      var left, ideal := s.Leaves(t[j]), s.Leaves('&');
      var i', j' := i + s.Used(), j + s.Width();
      assert left == ideal <==> (s.Skip? ==> t[j] == '&');
      InPlaceIsIdeal(t, fl, i', j');
      SplitEqual(left, InPlace(t, fl, i', j'), ideal, Ideal(t[i'..], fl));
    }
  }

  lemma {:induction false} UnfoldDecoders(t: string, fl: Flags, i: nat, j: nat)
    requires j <= i <= |t|
    ensures i == |t| ==> InPlace(t, fl, i, j) == "" == Ideal(t[i..], fl) && NoStaleByte(t, fl, i, j)
    ensures i < |t| ==>
              var s := DecodeStep(t[i..], fl);
              var i', j' := i + s.Used(), j + s.Width();
              && InPlace(t, fl, i, j) == s.Leaves(t[j]) + InPlace(t, fl, i', j')
              && Ideal(t[i..], fl) == s.Leaves('&') + Ideal(t[i'..], fl)
              && (NoStaleByte(t, fl, i, j) <==> (s.Skip? ==> t[j] == '&') && NoStaleByte(t, fl, i', j'))
  {
    hide DecodeStep;
    if i < |t| {
      assert t[i..][DecodeStep(t[i..], fl).Used()..] == t[i + DecodeStep(t[i..], fl).Used()..];
    }
  }

  /** Moving one turn's bytes over to what is written already. */
  lemma InPlaceAdvance(t: string, fl: Flags, i: nat, j: nat, written: string)
    requires j <= i < |t|
    ensures var s := DecodeStep(t[i..], fl);
            written + InPlace(t, fl, i, j)
            == (written + s.Leaves(t[j])) + InPlace(t, fl, i + s.Used(), j + s.Width())
  {
    hide InPlace, DecodeStep;
    UnfoldDecoders(t, fl, i, j);
  }

  lemma SplitEqual(a: string, b: string, c: string, d: string)
    requires |a| == |c|
    ensures a + b == c + d <==> a == c && b == d
  {
    assert (a + b)[..|a|] == a && (a + b)[|a|..] == b;
    assert (c + d)[..|c|] == c && (c + d)[|c|..] == d;
  }

  /** `&lt;&` is not decoded to `<&`: the second `&` is lost to the stale `l`. */
  lemma StaleByteWitness()
    ensures InPlace("&lt;&", Flags(true, true, false), 0, 0) == "<l"
    ensures Ideal("&lt;&", Flags(true, true, false)) == "<&"
  {
    var t, fl := "&lt;&", Flags(true, true, false);
    assert FindEntity(t, 0) == Some(3) by {
      hide FindEntity;
      assert EntityMatches(t, 3);
      assert !EntityMatches(t, 0) && !EntityMatches(t, 1) && !EntityMatches(t, 2) && !EntityMatches(t, 4);
    }
    assert t[4..] == "&" && "&"[1..] == "";
    assert FindEntity("&", 0) == None by {
      hide FindEntity;
      assert forall m | 0 <= m < 5 :: !EntityMatches("&", m);
    }
    assert DecodeStep(t, fl) == Write("<", 4) && DecodeStep("&", fl) == Skip;
    hide DecodeStep;
    assert t[5..] == "" && t[0..] == t;
    assert Ideal("&", fl) == "&" + Ideal("", fl);
    assert InPlace(t, fl, 4, 1) == "l" + InPlace(t, fl, 5, 2);
    assert InPlace(t, fl, 0, 0) == "<" + InPlace(t, fl, 4, 1);
  }

  // ----- White space -----

  /** The loop of `CollapseWhitespace` after the leading white space is skipped. */
  function Squeeze(s: string): (r: string)
    ensures |r| <= |s|
  {
    if s == "" then ""
    else if IsWhiteSpace(s[0]) then
      var rest := s[SkipWhiteSpace(s, 0)..];
      if rest == "" then "" else [' ', rest[0]] + Squeeze(rest[1..])
    else [s[0]] + Squeeze(s[1..])
  }

  /** The bytes one turn of that loop writes, and the bytes it reads. */
  function SqueezeTurn(u: string): (r: (string, nat))
    requires u != ""
    ensures 0 < r.1 <= |u| && |r.0| <= r.1
  {
    var gap := SkipWhiteSpace(u, 0);
    if gap == |u| then ("", gap)
    else if gap > 0 then ([' ', u[gap]], gap + 1)
    else ([u[0]], 1)
  }

  /** Moving one turn's bytes over to what is written already. */
  lemma {:induction false} SqueezeAdvance(t: string, i: nat, written: string)
    requires i < |t|
    ensures var (bytes, used) := SqueezeTurn(t[i..]);
            written + Squeeze(t[i..]) == (written + bytes) + Squeeze(t[i + used..])
  {
    hide Squeeze;
    var u := t[i..];
    var (bytes, used) := SqueezeTurn(u);
    var gap := SkipWhiteSpace(u, 0);
    UnfoldSqueeze(u);
    assert u[used..] == t[i + used..];
    if gap == |u| {
      UnfoldSqueeze(u[gap..]);
    } else {
      assert u[gap..][1..] == u[gap + 1..];
    }
    assert Squeeze(u) == bytes + Squeeze(t[i + used..]);
  }

  function Collapse(s: string): string {
    Squeeze(s[SkipWhiteSpace(s, 0)..])
  }

  /** The end of the maximal run of other bytes at `p`. */
  function WordEnd(s: string, p: nat): (q: nat)
    requires p <= |s|
    ensures p <= q <= |s|
    ensures p < |s| && !IsWhiteSpace(s[p]) ==> p < q
    decreases |s| - p
  {
    if p < |s| && !IsWhiteSpace(s[p]) then WordEnd(s, p + 1) else p
  }

  /** The maximal runs of bytes that are not white space. */
  function Words(s: string): seq<string>
    decreases |s|
  {
    var from := SkipWhiteSpace(s, 0);
    if from == |s| then []
    else
      var to := WordEnd(s, from);
      [s[from..to]] + Words(s[to..])
  }

  function Join(words: seq<string>): string {
    if words == [] then ""
    else if |words| == 1 then words[0]
    else words[0] + " " + Join(words[1..])
  }

  /** Collapsing is splitting into words and joining them with single spaces. */
  lemma {:induction false} CollapseIsJoin(s: string)
    ensures Collapse(s) == Join(Words(s))
    decreases |s|
  {
    hide Words, Squeeze, SkipWhiteSpace, WordEnd;
    var from := SkipWhiteSpace(s, 0);
    UnfoldWords(s);
    if from < |s| {
      var to := WordEnd(s, from);
      SqueezeWord(s, from, to);
      CollapseIsJoin(s[to..]);
      SqueezeGap(s[to..]);
    } else {
      UnfoldSqueeze(s[from..]);
    }
  }

  lemma UnfoldWords(s: string)
    ensures var from := SkipWhiteSpace(s, 0);
            if from == |s| then Words(s) == []
            else
              var to := WordEnd(s, from);
              from < to && Words(s) == [s[from..to]] + Words(s[to..])
  {
    hide SkipWhiteSpace;
  }

  /** A gap between words becomes one space, a trailing gap nothing. */
  lemma {:induction false} SqueezeGap(s: string)
    requires s != "" ==> IsWhiteSpace(s[0])
    ensures Squeeze(s) == if Words(s) == [] then "" else " " + Collapse(s)
    ensures Words(s) == [] ==> Collapse(s) == ""
  {
    hide Words, Squeeze, SkipWhiteSpace, WordEnd;
    var rest := s[SkipWhiteSpace(s, 0)..];
    UnfoldSqueeze(s);
    UnfoldSqueeze(rest);
    assert rest == "" <==> Words(s) == [] by { NoWords(s); }
    if rest != "" {
      assert [' ', rest[0]] + Squeeze(rest[1..]) == " " + ([rest[0]] + Squeeze(rest[1..]));
    }
  }

  lemma NoWords(s: string)
    ensures Words(s) == [] <==> SkipWhiteSpace(s, 0) == |s|
  {
  }

  lemma {:induction false} UnfoldSqueeze(s: string)
    ensures s == "" ==> Squeeze(s) == ""
    ensures s != "" && IsWhiteSpace(s[0]) ==>
              var rest := s[SkipWhiteSpace(s, 0)..];
              Squeeze(s) == if rest == "" then "" else [' ', rest[0]] + Squeeze(rest[1..])
    ensures s != "" && !IsWhiteSpace(s[0]) ==> Squeeze(s) == [s[0]] + Squeeze(s[1..])
  {
  }

  lemma {:induction false} SqueezeWord(s: string, from: nat, to: nat)
    requires from <= |s| && from <= to == WordEnd(s, from)
    ensures Squeeze(s[from..]) == s[from..to] + Squeeze(s[to..])
    ensures to < |s| ==> IsWhiteSpace(s[to])
    decreases |s| - from
  {
    hide Squeeze;
    if from < to {
      SqueezeWord(s, from + 1, to);
      UnfoldSqueeze(s[from..]);
      assert s[from..][1..] == s[from + 1..];
      assert s[from..to] == [s[from]] + s[from + 1..to];
    }
  }

  // ----- The string of a slice -----

  /** The C string `GetStr` returns for the raw text `t` of a slice. */
  function Value(t: string, fl: Flags): string {
    var decoded := CString(InPlace(t, fl, 0, 0));
    if fl.collapse then Collapse(decoded) else decoded
  }

  lemma {:induction false} SqueezeNulFree(s: string)
    requires NulFree(s)
    ensures NulFree(Squeeze(s))
    decreases |s|
  {
    hide Squeeze, SkipWhiteSpace;
    UnfoldSqueeze(s);
    if s != "" {
      var gap := SkipWhiteSpace(s, 0);
      if IsWhiteSpace(s[0]) && gap < |s| {
        SqueezeNulFree(s[gap..][1..]);
      } else {
        SqueezeNulFree(s[1..]);
      }
    }
  }

  lemma CollapseNulFree(s: string)
    requires NulFree(s)
    ensures NulFree(Collapse(s))
  {
    SqueezeNulFree(s[SkipWhiteSpace(s, 0)..]);
  }

  /** Without flags nothing is rewritten. */
  lemma {:induction false} NoFlagsKeep(t: string, i: nat)
    requires i <= |t|
    ensures InPlace(t, Flags(false, false, false), i, i) == t[i..]
    decreases |t| - i
  {
    if i < |t| {
      NoFlagsKeep(t, i + 1);
      assert t[i..] == [t[i]] + t[i + 1..];
    }
  }
}
