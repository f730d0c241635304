/** Where the string `GetStr` returns is the one a reader of the raw text expects, and where it is not: stale
    bytes, and references that break off. */
module Exactness {
  import opened Chars
  import opened CharRef
  import opened Decode

  // ----- Stale bytes -----

  /** `NoStaleByte` up to the first NUL that a character reference writes: what lies behind it is not read. */
  predicate NoStaleByteBeforeNul(t: string, fl: Flags, i: nat, j: nat)
    requires j <= i <= |t|
    decreases |t| - i
  {
    i == |t| ||
    var s := DecodeStep(t[i..], fl);
    && (s.Skip? ==> t[j] == '&')
    && (NUL in s.Leaves(t[j]) || NoStaleByteBeforeNul(t, fl, i + s.Used(), j + s.Width()))
  }

  function Ampersands(s: string): nat {
    if s == "" then 0 else (if s[0] == '&' then 1 else 0) + Ampersands(s[1..])
  }

  lemma {:induction false} AmpersandsConcat(a: string, b: string)
    ensures Ampersands(a + b) == Ampersands(a) + Ampersands(b)
    decreases a
  {
    if a == "" {
      assert a + b == b;
    } else {
      assert (a + b)[1..] == a[1..] + b;
      AmpersandsConcat(a[1..], b);
    }
  }

  lemma {:induction false} CStringConcat(a: string, b: string)
    ensures CString(a + b) == if NUL in a then CString(a) else a + CString(b)
    decreases a
  {
    hide CString;
    UnfoldCString(a);
    UnfoldCString(a + b);
    if a == "" {
      assert a + b == b;
    } else {
      assert (a + b)[1..] == a[1..] + b;
      CStringConcat(a[1..], b);
      HeadAndTail(a, CString(b));
    }
  }

  lemma HeadAndTail(a: string, c: string)
    requires a != ""
    ensures [a[0]] + (a[1..] + c) == a + c && (NUL in a <==> a[0] == NUL || NUL in a[1..])
    ensures a == [a[0]] + a[1..]
  {
  }

  lemma UnfoldCString(s: string)
    ensures CString(s) == if s == "" || s[0] == NUL then "" else [s[0]] + CString(s[1..])
  {
  }

  /** Each stale byte loses an ampersand, so a string without all of them is another string. */
  lemma {:induction false} StaleBytesLose(t: string, fl: Flags, i: nat, j: nat)
    requires j <= i <= |t| && NulFree(t)
    ensures var left, ideal := CString(InPlace(t, fl, i, j)), CString(Ideal(t[i..], fl));
            && |left| == |ideal|
            && if NoStaleByteBeforeNul(t, fl, i, j) then left == ideal else Ampersands(left) < Ampersands(ideal)
    decreases |t| - i
  {
    hide InPlace, Ideal, DecodeStep, CString, Ampersands, NoStaleByteBeforeNul;
    UnfoldDecoders(t, fl, i, j);
    UnfoldStale(t, fl, i, j);
    if i < |t| {
      var s := DecodeStep(t[i..], fl);
      var i', j' := i + s.Used(), j + s.Width();
      StaleBytesLose(t, fl, i', j');
      assert t[j] in t;
      TurnLoses(s, t[j], InPlace(t, fl, i', j'), Ideal(t[i'..], fl), NoStaleByteBeforeNul(t, fl, i', j'));
    }
  }

  /** One turn: what follows it counts only if it writes no NUL. */
  lemma TurnLoses(s: Step, stale: char, left: string, ideal: string, same: bool)
    requires stale != NUL && |CString(left)| == |CString(ideal)|
    requires if same then CString(left) == CString(ideal) else Ampersands(CString(left)) < Ampersands(CString(ideal))
    ensures var l, r := CString(s.Leaves(stale) + left), CString(s.Leaves('&') + ideal);
            && |l| == |r|
            && if (s.Skip? ==> stale == '&') && (NUL in s.Leaves(stale) || same) then l == r
            else Ampersands(l) < Ampersands(r)
  {
    hide CString, Ampersands;
    var a, b := s.Leaves(stale), s.Leaves('&');
    CStringConcat(a, left);
    CStringConcat(b, ideal);
    AmpersandsConcat(a, CString(left));
    AmpersandsConcat(b, CString(ideal));
    OneByte(stale);
    OneByte('&');
    if !same {
      SameOrLess(CString(left), CString(ideal));
    }
  }

  lemma SameOrLess(a: string, b: string)
    requires Ampersands(a) < Ampersands(b)
    ensures a != b
  {
  }

  lemma OneByte(c: char)
    ensures Ampersands([c]) == (if c == '&' then 1 else 0) && (NUL in [c] <==> c == NUL)
  {
    assert [c][1..] == "";
  }

  lemma UnfoldStale(t: string, fl: Flags, i: nat, j: nat)
    requires j <= i <= |t|
    ensures i == |t| ==> NoStaleByteBeforeNul(t, fl, i, j)
    ensures i < |t| ==>
              var s := DecodeStep(t[i..], fl);
              NoStaleByteBeforeNul(t, fl, i, j) <==>
              && (s.Skip? ==> t[j] == '&')
              && (NUL in s.Leaves(t[j]) || NoStaleByteBeforeNul(t, fl, i + s.Used(), j + s.Width()))
  {
    hide DecodeStep;
  }

  /** Collapsing white space drops no ampersand. */
  lemma {:induction false} SqueezeAmpersands(s: string)
    ensures Ampersands(Squeeze(s)) == Ampersands(s)
    decreases |s|
  {
    hide Squeeze, SkipWhiteSpace;
    UnfoldSqueeze(s);
    if s != "" {
      if IsWhiteSpace(s[0]) {
        var gap := SkipWhiteSpace(s, 0);
        BlankAmpersands(s, gap);
        if gap < |s| {
          var rest := s[gap..];
          SqueezeAmpersands(rest[1..]);
          var head := [' ', rest[0]];
          AmpersandsConcat(head, Squeeze(rest[1..]));
          assert head[1..] == [rest[0]];
          OneByte(rest[0]);
        }
      } else {
        SqueezeAmpersands(s[1..]);
        assert ([s[0]] + Squeeze(s[1..]))[1..] == Squeeze(s[1..]);
      }
    }
  }

  lemma {:induction false} BlankAmpersands(s: string, gap: nat)
    requires gap <= |s| && forall i | 0 <= i < gap :: IsWhiteSpace(s[i])
    ensures Ampersands(s[gap..]) == Ampersands(s)
    decreases gap
  {
    if gap > 0 {
      BlankAmpersands(s[1..], gap - 1);
      assert s[1..][gap - 1..] == s[gap..];
    } else {
      assert s[0..] == s;
    }
  }

  lemma CollapseAmpersands(s: string)
    ensures Ampersands(Collapse(s)) == Ampersands(s)
  {
    hide Squeeze, Ampersands;
    var gap := SkipWhiteSpace(s, 0);
    BlankAmpersands(s, gap);
    SqueezeAmpersands(s[gap..]);
  }

  /** The string of a slice as it should be: decoded from left to right, up to a decoded NUL, and with
      collapsing split into words that single spaces join. */
  function Expected(t: string, fl: Flags): string {
    var decoded := CString(Ideal(t, fl));
    if fl.collapse then Join(Words(decoded)) else decoded
  }

  /** `GetStr` returns that string exactly when no stale byte is kept before a decoded NUL. */
  lemma ValueIsExpected(t: string, fl: Flags)
    requires NulFree(t)
    ensures Value(t, fl) == Expected(t, fl) <==> NoStaleByteBeforeNul(t, fl, 0, 0)
  {
    hide InPlace, Ideal, CString, Ampersands, NoStaleByteBeforeNul, Collapse, Words, Join;
    var left, ideal := CString(InPlace(t, fl, 0, 0)), CString(Ideal(t, fl));
    assert t[0..] == t;
    StaleBytesLose(t, fl, 0, 0);
    CollapseIsJoin(ideal);
    CollapseAmpersands(left);
    CollapseAmpersands(ideal);
  }

  /** `&lt;&` is read as `<l`. */
  lemma StaleByteIsRead()
    ensures Value("&lt;&", Flags(true, true, false)) == "<l"
    ensures Expected("&lt;&", Flags(true, true, false)) == "<&"
  {
    StaleByteWitness();
    CStringOfNulFree("<l");
    CStringOfNulFree("<&");
  }

  /** `&#0;&` keeps a stale byte, but behind the NUL of the reference: the string is empty, as it should be. */
  lemma StaleByteBehindNul()
    ensures !NoStaleByte("&#0;&", Flags(true, true, false), 0, 0)
    ensures Value("&#0;&", Flags(true, true, false)) == "" == Expected("&#0;&", Flags(true, true, false))
  {
    var t, fl := "&#0;&", Flags(true, true, false);
    NulReference(t);
    hide DecodeStep, CString, InPlace, Ideal, NoStaleByte;
    assert t[0..] == t && t[4..] == "&";
    UnfoldDecoders(t, fl, 0, 0);
    UnfoldDecoders(t, fl, 4, 1);
    CStringConcat([NUL], InPlace(t, fl, 4, 1));
    CStringConcat([NUL], Ideal(t[4..], fl));
    JustNul();
  }

  lemma NulReference(t: string)
    requires t == "&#0;&"
    ensures DecodeStep(t, Flags(true, true, false)) == Write([NUL], 4)
    ensures DecodeStep("&", Flags(true, true, false)) == Skip
  {
    CharRefDenotes(t, "0", 10);
    assert "0"[..0] == "" && NumberOf("0", 10) == 0;
    hide FindEntity;
    assert forall m | 0 <= m < |ENTITIES| :: !EntityMatches("&", m);
  }

  lemma JustNul()
    ensures CString([NUL]) == ""
  {
  }

  // ----- A reference that breaks off -----

  /** A decoder that keeps every `&` at which no entity and no reference begins, also that of a text of just
      `&#`. */
  function Keeping(t: string, fl: Flags): string {
    if t == "" then ""
    else if fl.newline && (t[0] == CR || t[0] == LF) then
      [LF] + Keeping(t[if ByteAt(t, 1) == (if t[0] == CR then LF else CR) then 2 else 1..], fl)
    else if !fl.entity || t[0] != '&' then [t[0]] + Keeping(t[1..], fl)
    else if ByteAt(t, 1) == '#' then
      if |t| > 2 && CharRefAt(t).Ref? then CharRefAt(t).bytes + Keeping(t[CharRefAt(t).next..], fl)
      else "&" + Keeping(t[1..], fl)
    else match FindEntity(t, 0)
      case None => "&" + Keeping(t[1..], fl)
      case Some(k) => [ENTITIES[k].1] + Keeping(t[|ENTITIES[k].0| + 2..], fl)
  }

  predicate BreaksOff(t: string, fl: Flags) {
    fl.entity && |t| >= 2 && t[|t| - 2..] == "&#"
  }

  predicate Loses(ideal: string, keeping: string, r: string) {
    ideal == r + "#" && keeping == r + "&#"
  }

  /** The ampersand of a trailing `&#` is lost, whatever stands before it, and no other one. */
  lemma {:induction false} BrokenReferenceLoses(t: string, fl: Flags)
    ensures Ideal(t, fl) == Keeping(t, fl) <==> !BreaksOff(t, fl)
    ensures BreaksOff(t, fl) ==> exists r :: Loses(Ideal(t, fl), Keeping(t, fl), r)
    decreases |t|
  {
    hide DecodeStep, Ideal, Keeping, BreaksOff, Loses;
    UnfoldKeeping(t, fl);
    if t != "" {
      if fl.entity && t == "&#" {
        JustBroken(fl);
      } else {
        var s := DecodeStep(t, fl);
        var step, rest := s.Leaves('&'), t[s.Used()..];
        StepBefore(t, fl);
        BrokenReferenceLoses(rest, fl);
        SplitEqual(step, Ideal(rest, fl), step, Keeping(rest, fl));
        if BreaksOff(t, fl) {
          var r :| Loses(Ideal(rest, fl), Keeping(rest, fl), r);
          LosesBehind(step, Ideal(rest, fl), Keeping(rest, fl), r);
        }
      }
    }
  }

  lemma {:induction false} UnfoldKeeping(t: string, fl: Flags)
    ensures t == "" ==> Ideal(t, fl) == Keeping(t, fl) && !BreaksOff(t, fl)
    ensures t != "" ==>
              var s := DecodeStep(t, fl);
              && Ideal(t, fl) == s.Leaves('&') + Ideal(t[s.Used()..], fl)
              && Keeping(t, fl)
                 == if fl.entity && t == "&#" then t else s.Leaves('&') + Keeping(t[s.Used()..], fl)
  {
    hide CharRefAt, FindEntity;
    if fl.entity && t == "&#" { KeptWhole(fl); }
  }

  lemma KeptWhole(fl: Flags)
    requires fl.entity
    ensures Keeping("&#", fl) == "&#"
  {
    var t := "&#";
    assert t[1..] == "#" && "#"[1..] == "";
    assert Keeping("#", fl) == "#";
    assert "&" + "#" == t;
  }

  lemma LosesBehind(step: string, ideal: string, keeping: string, r: string)
    requires Loses(ideal, keeping, r)
    ensures Loses(step + ideal, step + keeping, step + r)
  {
    assert step + (r + "#") == (step + r) + "#" && step + (r + "&#") == (step + r) + "&#";
  }

  lemma JustBroken(fl: Flags)
    requires fl.entity
    ensures Ideal("&#", fl) == "#" && BreaksOff("&#", fl) && Loses("#", "&#", "")
  {
    assert "&#"[0..] == "&#" && "" + "#" == "#" && "" + "&#" == "&#";
    assert "&#"[1..] == "#" && "#"[1..] == "";
    assert DecodeStep("&#", fl) == Write("", 1) && DecodeStep("#", fl) == Write("#", 1);
    assert Ideal("&#", fl) == "" + Ideal("#", fl);
  }

  /** No turn reaches into a trailing `&#` from before it, and what is left breaks off as the whole does. */
  lemma StepBefore(t: string, fl: Flags)
    requires t != "" && !(fl.entity && t == "&#")
    ensures var rest := t[DecodeStep(t, fl).Used()..]; BreaksOff(rest, fl) <==> BreaksOff(t, fl)
  {
    var used := DecodeStep(t, fl).Used();
    var rest := t[used..];
    if BreaksOff(t, fl) {
      var n := |t|;
      assert t[n - 2] == t[n - 2..][0] && t[n - 1] == t[n - 2..][1];
      TurnEnds(t, fl);
      assert used <= n - 2;
    }
    if |rest| >= 2 {
      assert rest[|rest| - 2..] == t[|t| - 2..];
    }
  }

  /** A turn of more than one byte ends behind a line end or a semicolon. */
  lemma TurnEnds(t: string, fl: Flags)
    requires |t| > 2
    ensures var used := DecodeStep(t, fl).Used();
            used == 1 || t[used - 1] == ';' || t[used - 1] == CR || t[used - 1] == LF
  {
    hide FindEntity;
    if fl.entity && t[0] == '&' && t[1] == '#' && CharRefAt(t).Ref? {
      ReferenceEnds(t);
    }
  }

  lemma ReferenceEnds(t: string)
    requires |t| > 2 && t[1] == '#' && CharRefAt(t).Ref?
    ensures t[CharRefAt(t).next - 1] == ';'
  {
    hide FindChar, BackwardDigits, Sum, Encode;
  }

  lemma BrokenReferenceWitness()
    ensures Value("&#", Flags(true, true, false)) == "#"
  {
    var t, fl := "&#", Flags(true, true, false);
    BrokenTurns(fl);
    hide DecodeStep, InPlace, Ideal, NoStaleByte, CString;
    assert t[0..] == t && t[1..] == "#" && t[2..] == "" && "#" + "" == "#" && "" + "#" == "#";
    UnfoldDecoders(t, fl, 0, 0);
    UnfoldDecoders(t, fl, 1, 0);
    UnfoldDecoders(t, fl, 2, 1);
    CStringOfNulFree("#");
  }

  lemma BrokenTurns(fl: Flags)
    requires fl.entity
    ensures DecodeStep("&#", fl) == Write("", 1) && DecodeStep("#", fl) == Write("#", 1)
  {
  }
}
