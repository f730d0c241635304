/** What `GetStr` makes of line ends, against section 2.11 of XML 1.0, which normalizes them before anything
    else is read. */
module LineEnds {
  import opened Chars
  import opened CharRef
  import opened Decode
  import opened Exactness

  /** The end-of-line handling of XML 1.0 section 2.11: CR LF and a CR alone become LF. */
  function Eol(t: string): (r: string)
    ensures |r| <= |t| && (r == "" <==> t == "")
  {
    if t == "" then ""
    else if t[0] == CR then [LF] + Eol(t[if ByteAt(t, 1) == LF then 2 else 1..])
    else [t[0]] + Eol(t[1..])
  }

  /** Line ends are left alone. */
  function Normalized(fl: Flags): Flags {
    fl.(newline := false)
  }

  /** An LF CR pair that is not followed by an LF: one line end to the code, two to the standard. */
  predicate LosesOne(t: string) {
    ByteAt(t, 0) == LF && ByteAt(t, 1) == CR && ByteAt(t, 2) != LF
  }

  /** Each LF CR that the read loop takes as one line end is followed by an LF, with which the scan goes on. */
  predicate LineEndsKept(t: string, fl: Flags) {
    t == "" || (!LosesOne(t) && LineEndsKept(t[DecodeStep(t, fl).Used()..], fl))
  }

  /** `LineEndsKept` up to the first NUL that a character reference writes: what lies behind it is not read. */
  predicate LineEndsKeptBeforeNul(t: string, fl: Flags) {
    t == "" ||
    var s := DecodeStep(t, fl);
    !LosesOne(t) && (NUL in s.Leaves('&') || LineEndsKeptBeforeNul(t[s.Used()..], fl))
  }

  // ----- The normalizer -----

  lemma {:induction false} EolOther(t: string)
    requires t != "" && t[0] != CR
    ensures Eol(t) == [t[0]] + Eol(t[1..]) && Eol(t)[1..] == Eol(t[1..])
  {
  }

  lemma {:induction false} EolCr(t: string)
    requires t != "" && t[0] == CR
    ensures Eol(t) == [LF] + Eol(t[if ByteAt(t, 1) == LF then 2 else 1..])
  {
  }

  /** Two texts are normalized one by one, unless a CR LF is cut between them. */
  lemma {:induction false} EolConcat(a: string, b: string)
    requires a != "" && a[|a| - 1] == CR ==> ByteAt(b, 0) != LF
    ensures Eol(a + b) == Eol(a) + Eol(b)
    decreases |a|
  {
    hide Eol;
    if a == "" {
      assert a + b == b && Eol(a) == "";
    } else {
      var t := a + b;
      var cut := if a[0] == CR && ByteAt(t, 1) == LF then 2 else 1;
      assert t[1..] == a[1..] + b;
      assert ByteAt(t, 1) == if |a| == 1 then ByteAt(b, 0) else a[1];
      assert cut <= |a| && t[cut..] == a[cut..] + b;
      EolConcat(a[cut..], b);
      if a[0] == CR {
        EolCr(t);
        EolCr(a);
      } else {
        EolOther(t);
        EolOther(a);
      }
    }
  }

  /** A text without line ends stands at the start before normalization exactly when it does so after it. */
  lemma {:induction false} SamePrefix(t: string, w: string)
    requires CR !in w && LF !in w
    ensures w <= t <==> w <= Eol(t)
    decreases w
  {
    hide Eol;
    if w != "" && t != "" {
      PrefixStep(t, w);
      PrefixStep(Eol(t), w);
      assert w[0] in w;
      if t[0] == CR {
        EolCr(t);
      } else {
        EolOther(t);
        SamePrefix(t[1..], w[1..]);
      }
    }
  }

  lemma PrefixStep(t: string, w: string)
    requires t != "" && w != ""
    ensures w <= t <==> w[0] == t[0] && w[1..] <= t[1..]
  {
    if w[0] == t[0] && w[1..] <= t[1..] {
      assert t == [t[0]] + t[1..] && w == [w[0]] + w[1..];
    }
  }

  /** What stands behind such a text is normalized by itself. */
  lemma BehindPrefix(t: string, w: string)
    requires CR !in w && w <= t
    ensures |w| <= |Eol(t)| && Eol(t)[..|w|] == w && Eol(t)[|w|..] == Eol(t[|w|..])
  {
    hide Eol;
    assert t == w + t[|w|..];
    EolConcat(w, t[|w|..]);
    EolPlain(w);
  }

  lemma {:induction false} EolPlain(w: string)
    requires CR !in w
    ensures Eol(w) == w
  {
    if w != "" {
      EolPlain(w[1..]);
    }
  }

  lemma {:induction false} EolKeeps(t: string, c: char)
    requires c != CR && c != LF
    ensures c in t <==> c in Eol(t)
    decreases |t|
  {
    hide Eol;
    if t != "" {
      var cut := if t[0] == CR && ByteAt(t, 1) == LF then 2 else 1;
      EolKeeps(t[cut..], c);
      assert t == t[..cut] + t[cut..];
      if t[0] == CR { EolCr(t); } else { EolOther(t); }
    }
  }

  // ----- References and entities -----

  lemma HasPrefix(t: string, x: string)
    requires t != ""
    ensures Has(t, 1, x) <==> x <= t[1..]
  {
    if 1 + |x| <= |t| { assert t[1..][..|x|] == t[1..1 + |x|]; }
  }

  lemma EntityIsPrefix(t: string, k: nat)
    requires t != "" && k < |ENTITIES|
    ensures EntityMatches(t, k) <==> ENTITIES[k].0 + ";" <= t[1..]
  {
    var name := ENTITIES[k].0;
    HasPrefix(t, name);
    HasPrefix(t, name + ";");
    HasConcat(t, 1, name, ";");
    if EntityMatches(t, k) {
      assert t[1 + |name|..1 + |name| + 1] == ";";
    }
    if Has(t, 1 + |name|, ";") { HasAt(t, 1 + |name|, ";", 0); }
  }

  /** The same entity is found before and after normalization. */
  lemma SameEntity(t: string, k: nat)
    requires t != "" && t[0] == '&' && k <= |ENTITIES|
    ensures Eol(t) != "" && FindEntity(t, k) == FindEntity(Eol(t), k)
    decreases |ENTITIES| - k
  {
    hide Eol;
    EolOther(t);
    if k < |ENTITIES| {
      EntityIsPrefix(t, k);
      EntityIsPrefix(Eol(t), k);
      NameIsPlain(k);
      SamePrefix(t[1..], ENTITIES[k].0 + ";");
      SameEntity(t, k + 1);
    }
  }

  lemma NameIsPlain(k: nat)
    requires k < |ENTITIES|
    ensures CR !in ENTITIES[k].0 + ";" && LF !in ENTITIES[k].0 + ";"
  {
  }

  lemma DigitPlain(c: char, base: nat)
    requires base == 10 || base == 16
    ensures c == CR || c == LF ==> Digit(c, base) == None && c != Stop(base)
  {
  }

  /** The backward scan over a stretch meets the same digits after normalization; a line end stops it anyway. */
  lemma {:induction false} SameDigits(t: string, u: string, lo: nat, q: nat, mid: string, base: nat)
    requires (base == 10 || base == 16) && lo <= q < |t| && t[lo..q + 1] == [Stop(base)] + mid
    requires lo + |Eol(mid)| < |u| && u[lo..lo + |Eol(mid)| + 1] == [Stop(base)] + Eol(mid)
    ensures t[lo] == u[lo] == Stop(base)
    ensures BackwardDigits(t, lo, q, base) == BackwardDigits(u, lo, lo + |Eol(mid)|, base)
    decreases |mid|
  {
    hide Eol, BackwardDigits, Digit;
    var v := Eol(mid);
    assert t[lo] == t[lo..q + 1][0] && u[lo] == u[lo..lo + |v| + 1][0];
    assert |mid| == q - lo;
    UnfoldBackward(t, lo, q, base);
    UnfoldBackward(u, lo, lo + |v|, base);
    if mid != "" {
      var c, init := mid[|mid| - 1], mid[..|mid| - 1];
      assert t[q] == t[lo..q + 1][q - lo] == c;
      assert u[lo + |v|] == u[lo..lo + |v| + 1][|v|] == v[|v| - 1];
      DigitPlain(c, base);
      DigitPlain(v[|v| - 1], base);
      EolLast(mid);
      if c != CR && c != LF {
        assert t[lo..q] == t[lo..q + 1][..q - lo] == [Stop(base)] + init;
        assert u[lo..lo + |v|] == u[lo..lo + |v| + 1][..|v|] == [Stop(base)] + Eol(init);
        SameDigits(t, u, lo, q - 1, init, base);
      }
    }
  }

  /** The last byte is a line end before and after normalization, or the same byte. */
  lemma EolLast(s: string)
    requires s != ""
    ensures var c, r := s[|s| - 1], Eol(s);
            if c == CR || c == LF then r[|r| - 1] == LF else r == Eol(s[..|s| - 1]) + [c]
  {
    hide Eol;
    var c, n := s[|s| - 1], |s|;
    if c != CR && c != LF {
      assert s == s[..n - 1] + [c];
      EolConcat(s[..n - 1], [c]);
      EolPlain([c]);
    } else {
      EolEnds(s);
    }
  }

  lemma {:induction false} EolEnds(s: string)
    requires s != "" && (s[|s| - 1] == CR || s[|s| - 1] == LF)
    ensures Eol(s)[|Eol(s)| - 1] == LF
    decreases |s|
  {
    hide Eol;
    var cut := if s[0] == CR && ByteAt(s, 1) == LF then 2 else 1;
    if s[0] == CR { EolCr(s); } else { EolOther(s); }
    if cut < |s| {
      EolEnds(s[cut..]);
    } else {
      assert s[cut..] == "";
    }
  }

  lemma CutAt(t: string, from: nat) returns (mid: string, rest: string)
    requires from <= |t| && ';' in t[from..]
    ensures IsCut(t, from, mid, rest)
  {
    var k := FindChar(t, from, ';').value;
    mid, rest := t[from..k], t[k + 1..];
  }

  /** A reference is the same before and after normalization, and so is what follows it. */
  predicate SameRef(t: string, u: string, r: Ref, r': Ref)
    requires r.Ref? ==> r.next <= |t|
    requires r'.Ref? ==> r'.next <= |u|
  {
    match r
    case NotARef => r'.NotARef?
    case Ref(next, bytes) => r'.Ref? && r'.bytes == bytes && u[r'.next..] == Eol(t[next..])
  }

  lemma SameRefFrom(t: string, from: nat, base: nat)
    requires 1 <= from <= |t| && (base == 10 || base == 16) && t[from - 1] == Stop(base)
    requires CR !in t[..from]
    ensures from <= |Eol(t)| && Eol(t)[..from] == t[..from]
    ensures SameRef(t, Eol(t), RefFrom(t, from, base), RefFrom(Eol(t), from, base))
  {
    hide Eol, RefFrom, BackwardDigits, IsCut, SameRef;
    var u := Eol(t);
    BehindPrefix(t, t[..from]);
    EolKeeps(t[from..], ';');
    assert u[from - 1] == u[..from][from - 1] == t[..from][from - 1];
    if ';' in t[from..] {
      var mid, rest := CutAt(t, from);
      NormalizedParts(t, from, mid, rest);
      SameCut(t, u, from, mid, rest, base);
    } else {
      NoRef(t, from, base);
      NoRef(u, from, base);
      BothNoRef(t, u);
    }
  }

  lemma BothNoRef(t: string, u: string)
    ensures SameRef(t, u, NotARef, NotARef)
  {
  }

  lemma SameCut(t: string, u: string, from: nat, mid: string, rest: string, base: nat)
    requires (base == 10 || base == 16) && 1 <= from <= |t| && from <= |u| && t[from - 1] == u[from - 1] == Stop(base)
    requires IsCut(t, from, mid, rest) && IsCut(u, from, Eol(mid), Eol(rest))
    ensures SameRef(t, u, RefFrom(t, from, base), RefFrom(u, from, base))
  {
    hide Eol, RefFrom, BackwardDigits, IsCut, Sum, Encode;
    RefParts(t, from, mid, rest, base);
    RefParts(u, from, Eol(mid), Eol(rest), base);
    SameDigits(t, u, from - 1, from + |mid| - 1, mid, base);
  }

  lemma NoRef(t: string, from: nat, base: nat)
    requires 1 <= from <= |t| && (base == 10 || base == 16) && t[from - 1] == Stop(base)
    requires ';' !in t[from..]
    ensures RefFrom(t, from, base) == NotARef
  {
    var k := FindChar(t, from, ';');
    if k.Some? { InRest(t, from, k.value); }
  }

  lemma InRest(t: string, from: nat, k: nat)
    requires from <= k < |t|
    ensures t[k] in t[from..]
  {
    assert t[from..][k - from] == t[k];
  }

  lemma RefParts(t: string, from: nat, mid: string, rest: string, base: nat)
    requires 1 <= from <= |t| && (base == 10 || base == 16) && t[from - 1] == Stop(base)
    requires IsCut(t, from, mid, rest)
    ensures t[from - 1..from + |mid|] == [Stop(base)] + mid && from + |mid| < |t| && t[from + |mid| + 1..] == rest
    ensures RefFrom(t, from, base)
         == match BackwardDigits(t, from - 1, from + |mid| - 1, base)
            case None => NotARef
            case Some(digits) => Ref(from + |mid| + 1, Encode(Sum(digits, base, 0, 1)))
  {
    hide RefFrom, BackwardDigits, Encode, Sum, FindChar, IsCut, Stop;
    CutParts(t, from, mid, rest);
    FirstInCut(t, from, mid, rest);
    RefAt(t, from, from + |mid|, base);
  }

  lemma RefAt(t: string, from: nat, k: nat, base: nat)
    requires 1 <= from <= k < |t| && (base == 10 || base == 16) && t[from - 1] == Stop(base)
    requires FindChar(t, from, ';') == Some(k)
    ensures RefFrom(t, from, base)
         == match BackwardDigits(t, from - 1, k - 1, base)
            case None => NotARef
            case Some(digits) => Ref(k + 1, Encode(Sum(digits, base, 0, 1)))
  {
    hide BackwardDigits, Encode, Sum, FindChar;
  }

  lemma FirstInCut(t: string, from: nat, mid: string, rest: string)
    requires IsCut(t, from, mid, rest)
    ensures FindChar(t, from, ';') == Some(from + |mid|)
  {
    hide FindChar, IsCut;
    CutParts(t, from, mid, rest);
    forall j | from <= j < from + |mid| ensures t[j] != ';' {
      assert t[j] == t[from..from + |mid|][j - from];
    }
    FirstChar(t, from, ';', from + |mid|);
  }

  lemma CutParts(t: string, from: nat, mid: string, rest: string)
    requires IsCut(t, from, mid, rest)
    ensures from <= |t| && ';' !in mid && from + |mid| < |t| && t[from..from + |mid|] == mid
    ensures t[from + |mid|] == ';' && t[from + |mid| + 1..] == rest
    ensures from > 0 ==> t[from - 1..from + |mid|] == [t[from - 1]] + mid
  {
    var u := t[from..];
    assert u[..|mid|] == mid && u[|mid|] == ';' && u[|mid| + 1..] == rest;
  }

  /** The part from `from` on, cut at its first semicolon. */
  predicate IsCut(t: string, from: nat, mid: string, rest: string) {
    from <= |t| && t[from..] == mid + (";" + rest) && ';' !in mid
  }

  lemma NormalizedParts(t: string, from: nat, mid: string, rest: string)
    requires IsCut(t, from, mid, rest) && CR !in t[..from]
    ensures IsCut(Eol(t), from, Eol(mid), Eol(rest))
  {
    hide Eol;
    BehindPrefix(t, t[..from]);
    EolConcat(mid, ";" + rest);
    EolOther(";" + rest);
    assert (";" + rest)[1..] == rest;
    EolKeeps(mid, ';');
  }

  lemma SameCharRef(t: string)
    requires |t| >= 2 && t[0] == '&' && t[1] == '#'
    ensures |Eol(t)| >= 2 && Eol(t)[1] == '#'
    ensures SameRef(t, Eol(t), CharRefAt(t), CharRefAt(Eol(t)))
  {
    hide Eol, RefFrom;
    var u := Eol(t);
    assert t[..2] == "&#" && "&#" <= t;
    BehindPrefix(t, "&#");
    assert u[1] == u[..2][1];
    if |t| == 2 {
      EolPlain("&#");
      assert t == "&#" && u[1..] == "#" == t[1..];
      EolPlain("#");
    } else {
      assert u[2..] != "";
      assert t[2..][0] == t[2] && u[2..][0] == u[2];
      if t[2..][0] == CR { EolCr(t[2..]); } else { EolOther(t[2..]); }
      if t[2] == 'x' {
        assert t[..3] == "&#x" && "&#x" <= t;
        BehindPrefix(t, "&#x");
        if |t| > 3 { SameRefFrom(t, 3, 16); }
      } else {
        SameRefFrom(t, 2, 10);
      }
    }
  }

  // ----- One turn -----

  /** Every turn but that of an LF CR leaves the same bytes before and after normalization, and goes on there. */
  lemma SameTurn(t: string, fl: Flags)
    requires t != "" && fl.newline && !(t[0] == LF && ByteAt(t, 1) == CR)
    ensures var s, u := DecodeStep(t, fl), Eol(t);
            var s' := DecodeStep(u, Normalized(fl));
            s'.Leaves('&') == s.Leaves('&') && u[s'.Used()..] == Eol(t[s.Used()..])
  {
    hide Eol, FindEntity, CharRefAt;
    var u := Eol(t);
    if t[0] == CR {
      EolCr(t);
    } else {
      EolOther(t);
      if fl.entity && t[0] == '&' {
        SamePrefix(t[1..], "#");
        HashNext(t);
        HashNext(u);
        if ByteAt(t, 1) == '#' {
          SameCharRef(t);
        } else {
          SameEntity(t, 0);
          if FindEntity(t, 0).Some? {
            var k := FindEntity(t, 0).value;
            var w := "&" + ENTITIES[k].0 + ";";
            WholeEntity(t, k);
            BehindPrefix(t, w);
          }
        }
      }
    }
  }

  lemma HashNext(t: string)
    requires t != ""
    ensures ByteAt(t, 1) == '#' <==> "#" <= t[1..]
  {
    if "#" <= t[1..] { assert t[1..][0] == t[1]; }
  }

  lemma WholeEntity(t: string, k: nat)
    requires t != "" && t[0] == '&' && k < |ENTITIES| && EntityMatches(t, k)
    ensures var w := "&" + ENTITIES[k].0 + ";"; w <= t && CR !in w
  {
    EntityIsPrefix(t, k);
    var w := "&" + ENTITIES[k].0 + ";";
    assert w[1..] == ENTITIES[k].0 + ";";
    PrefixStep(t, w);
    NameIsPlain(k);
  }

  /** An LF CR is one line end to the code and two to the standard, or one that an LF behind it completes. */
  lemma LfCr(t: string, fl: Flags)
    requires |t| >= 2 && t[0] == LF && t[1] == CR && fl.newline
    ensures DecodeStep(t, fl) == Write([LF], 2)
    ensures var ideal, rest := Ideal(Eol(t), Normalized(fl)), Ideal(Eol(t[2..]), Normalized(fl));
            ideal == if ByteAt(t, 2) == LF then [LF] + rest else [LF] + ([LF] + rest)
  {
    hide Eol, Ideal;
    var u, v, fl' := t[1..], t[2..], Normalized(fl);
    assert u[1..] == v && u[0] == CR && ByteAt(u, 1) == ByteAt(t, 2);
    EolOther(t);
    EolCr(u);
    LineFeedFirst(Eol(u), fl');
    if ByteAt(t, 2) == LF {
      assert u[2..] == v[1..] && v[0] == LF;
      EolOther(v);
    } else {
      LineFeedFirst(Eol(v), fl');
    }
  }

  lemma {:induction false} LineFeedFirst(s: string, fl: Flags)
    requires !fl.newline
    ensures Ideal([LF] + s, fl) == [LF] + Ideal(s, fl)
  {
    assert ([LF] + s)[1..] == s;
    hide CharRefAt, FindEntity;
  }

  // ----- Whole texts -----

  lemma {:induction false} UnfoldKept(t: string, fl: Flags)
    requires t != ""
    ensures var s := DecodeStep(t, fl);
            && Ideal(t, fl) == s.Leaves('&') + Ideal(t[s.Used()..], fl)
            && (LineEndsKept(t, fl) <==> !LosesOne(t) && LineEndsKept(t[s.Used()..], fl))
            && (LineEndsKeptBeforeNul(t, fl) <==>
                !LosesOne(t) && (NUL in s.Leaves('&') || LineEndsKeptBeforeNul(t[s.Used()..], fl)))
  {
    hide DecodeStep, LosesOne;
  }

  lemma {:induction false} UnfoldIdeal(t: string, fl: Flags)
    requires t != ""
    ensures var s := DecodeStep(t, fl); Ideal(t, fl) == s.Leaves('&') + Ideal(t[s.Used()..], fl)
  {
    hide DecodeStep;
  }

  /** The turn at the start of `t`, and what the decoder makes of `t` before and after normalization: the turn's
      bytes, one more line feed where one is lost, and the rest. */
  lemma FirstTurn(t: string, fl: Flags)
    requires t != "" && fl.newline
    ensures var s, fl' := DecodeStep(t, fl), Normalized(fl);
            var rest := Ideal(Eol(t[s.Used()..]), fl');
            && (LosesOne(t) ==> s.Leaves('&') == [LF])
            && Ideal(Eol(t), fl') == s.Leaves('&') + (if LosesOne(t) then [LF] + rest else rest)
  {
    hide DecodeStep, Eol, Ideal;
    if t[0] == LF && ByteAt(t, 1) == CR {
      LfCr(t, fl);
    } else {
      SameTurn(t, fl);
      UnfoldIdeal(Eol(t), Normalized(fl));
    }
  }

  lemma NoText(fl: Flags)
    ensures Ideal("", fl) == "" == Ideal(Eol(""), Normalized(fl))
    ensures LineEndsKept("", fl) && LineEndsKeptBeforeNul("", fl)
  {
  }

  /** Decoding with newline normalization is decoding what section 2.11 makes of the text exactly when all line
      ends are kept; in every other text some are lost. */
  lemma {:induction false} LineEndsConform(t: string, fl: Flags)
    requires fl.newline
    ensures Ideal(t, fl) == Ideal(Eol(t), Normalized(fl)) <==> LineEndsKept(t, fl)
    ensures |Ideal(t, fl)| <= |Ideal(Eol(t), Normalized(fl))|
    decreases |t|
  {
    hide DecodeStep, Ideal, Eol, LineEndsKept, LineEndsKeptBeforeNul, LosesOne;
    NoText(fl);
    if t != "" {
      var s := DecodeStep(t, fl);
      UnfoldKept(t, fl);
      FirstTurn(t, fl);
      var rest := t[s.Used()..];
      LineEndsConform(rest, fl);
      SplitEqual(s.Leaves('&'), Ideal(rest, fl), s.Leaves('&'), Ideal(Eol(rest), Normalized(fl)));
    }
  }

  /** The same up to a decoded NUL. */
  lemma {:induction false} LineEndsConformBeforeNul(t: string, fl: Flags)
    requires fl.newline
    ensures var ours, theirs := CString(Ideal(t, fl)), CString(Ideal(Eol(t), Normalized(fl)));
            if LineEndsKeptBeforeNul(t, fl) then ours == theirs else |ours| < |theirs|
    decreases |t|
  {
    hide DecodeStep, Ideal, Eol, LineEndsKept, LineEndsKeptBeforeNul, LosesOne, CString;
    NoText(fl);
    if t != "" {
      var s := DecodeStep(t, fl);
      UnfoldKept(t, fl);
      FirstTurn(t, fl);
      var rest := t[s.Used()..];
      LineEndsConformBeforeNul(rest, fl);
      var theirs := Ideal(Eol(rest), Normalized(fl));
      CStringConcat(s.Leaves('&'), Ideal(rest, fl));
      CStringConcat(s.Leaves('&'), theirs);
      CStringConcat(s.Leaves('&'), [LF] + theirs);
      CStringConcat([LF], theirs);
    }
  }

  /** Without entities the decoder has nothing to do in a normalized text. */
  lemma {:induction false} PlainIdeal(t: string, fl: Flags)
    requires !fl.newline && !fl.entity
    ensures Ideal(t, fl) == t
  {
    if t != "" {
      PlainIdeal(t[1..], fl);
    }
  }

  /** In comments, CDATA, declarations and unknowns, where entities are not processed, the text itself. */
  lemma PlainLineEnds(t: string, fl: Flags)
    requires fl.newline && !fl.entity
    ensures Ideal(t, fl) == Eol(t) <==> LineEndsKept(t, fl)
  {
    LineEndsConform(t, fl);
    PlainIdeal(Eol(t), Normalized(fl));
  }

  // ----- Collapsed texts -----

  /** Collapsing makes the same of both, at the start of a text and within it. */
  predicate Alike(a: string, b: string) {
    Collapse(a) == Collapse(b) && Squeeze(a) == Squeeze(b)
  }

  lemma {:induction false} CollapseByte(c: char, s: string)
    ensures Collapse([c] + s) == if IsWhiteSpace(c) then Collapse(s) else [c] + Squeeze(s)
    ensures Squeeze([c] + s)
            == if !IsWhiteSpace(c) then [c] + Squeeze(s) else if Collapse(s) == "" then "" else " " + Collapse(s)
  {
    hide Squeeze, Words, WordEnd;
    var u := [c] + s;
    assert u[1..] == s && u[0] == c && u[0..] == u;
    UnfoldSqueeze(u);
    if IsWhiteSpace(c) {
      var gap := SkipWhiteSpace(s, 0);
      forall i | 0 <= i < 1 + gap ensures IsWhiteSpace(u[i]) {
        assert i > 0 ==> u[i] == s[i - 1];
      }
      SkipIsUnique(u, 0, 1 + gap);
      assert u[1 + gap..] == s[gap..];
      var rest := s[gap..];
      UnfoldSqueeze(rest);
      if rest != "" {
        assert [' ', rest[0]] + Squeeze(rest[1..]) == " " + ([rest[0]] + Squeeze(rest[1..]));
      }
    }
  }

  lemma {:induction false} AlikeBehind(w: string, a: string, b: string)
    requires Alike(a, b)
    ensures Alike(w + a, w + b)
    decreases w
  {
    hide Squeeze, Collapse;
    if w == "" {
      assert w + a == a && w + b == b;
    } else {
      AlikeBehind(w[1..], a, b);
      assert w + a == [w[0]] + (w[1..] + a) && w + b == [w[0]] + (w[1..] + b);
      CollapseByte(w[0], w[1..] + a);
      CollapseByte(w[0], w[1..] + b);
    }
  }

  lemma OneLineFeed(s: string)
    ensures Alike([LF] + s, [LF] + ([LF] + s))
  {
    hide Squeeze, Collapse;
    CollapseByte(LF, s);
    CollapseByte(LF, [LF] + s);
  }

  /** Collapsing hides every line end that is lost. */
  lemma {:induction false} CollapsedAlike(t: string, fl: Flags)
    requires fl.newline
    ensures Alike(CString(Ideal(t, fl)), CString(Ideal(Eol(t), Normalized(fl))))
    decreases |t|
  {
    hide DecodeStep, Ideal, Eol, LineEndsKept, LineEndsKeptBeforeNul, LosesOne, CString, Squeeze, Collapse;
    NoText(fl);
    if t != "" {
      var s := DecodeStep(t, fl);
      UnfoldKept(t, fl);
      FirstTurn(t, fl);
      var rest := t[s.Used()..];
      CollapsedAlike(rest, fl);
      var ours, theirs := Ideal(rest, fl), Ideal(Eol(rest), Normalized(fl));
      CStringConcat(s.Leaves('&'), ours);
      CStringConcat(s.Leaves('&'), theirs);
      CStringConcat(s.Leaves('&'), [LF] + theirs);
      CStringConcat([LF], theirs);
      AlikeBehind(s.Leaves('&'), CString(ours), CString(theirs));
      OneLineFeed(CString(theirs));
    }
  }

  // ----- What `GetStr` returns -----

  /** What `GetStr` returns is the expected string of the normalized text exactly when no stale byte is kept and,
      unless white space is collapsed, all line ends are, both before the first decoded NUL. */
  lemma ValueConforms(t: string, fl: Flags)
    requires NulFree(t) && fl.newline
    ensures Value(t, fl) == Expected(Eol(t), Normalized(fl))
       <==> NoStaleByteBeforeNul(t, fl, 0, 0) && (fl.collapse || LineEndsKeptBeforeNul(t, fl))
  {
    hide DecodeStep, InPlace, Ideal, Eol, LineEndsKeptBeforeNul, CString, Squeeze, Collapse, Words, Join,
         NoStaleByteBeforeNul;
    var ours, theirs := CString(Ideal(t, fl)), CString(Ideal(Eol(t), Normalized(fl)));
    assert t[0..] == t;
    StaleBytesLose(t, fl, 0, 0);
    ValueIsExpected(t, fl);
    LineEndsConformBeforeNul(t, fl);
    CollapsedAlike(t, fl);
    CollapseIsJoin(ours);
    CollapseIsJoin(theirs);
  }

  lemma TurnAtLineEnd(t: string, fl: Flags)
    requires t != "" && fl.newline && t[0] == LF
    ensures DecodeStep(t, fl) == Write([LF], if ByteAt(t, 1) == CR then 2 else 1)
  {
  }

  /** LF CR is read as one line end where the standard has two; an LF behind the pair makes up for the lost one, and
      one more CR does not. */
  lemma LfCrIsRead(fl: Flags)
    requires fl.newline && !fl.collapse
    ensures Value("\n\r", fl) == "\n" && Expected(Eol("\n\r"), Normalized(fl)) == "\n\n"
    ensures LineEndsKept("\n\r\n", fl) && !LineEndsKept("\n\r\n\r", fl)
  {
    hide DecodeStep, InPlace, Ideal, CString, LineEndsKept, LineEndsKeptBeforeNul;
    var t := "\n\r";
    NoText(fl);
    TurnAtLineEnd(t, fl);
    LfCr(t, fl);
    assert t[2..] == "" && t[0..] == t && Eol("") == "";
    UnfoldDecoders(t, fl, 0, 0);
    UnfoldDecoders(t, fl, 2, 1);
    CStringOfNulFree("\n");
    CStringOfNulFree("\n\n");
    assert [LF] + "" == "\n" && [LF] + ([LF] + "") == "\n\n";
    var kept, lost := "\n\r\n", "\n\r\n\r";
    assert kept[2..] == "\n" && "\n"[1..] == "" && lost[2..] == t;
    TurnAtLineEnd(kept, fl);
    TurnAtLineEnd("\n", fl);
    TurnAtLineEnd(lost, fl);
    UnfoldKept(kept, fl);
    UnfoldKept("\n", fl);
    UnfoldKept(lost, fl);
    UnfoldKept(t, fl);
  }

  lemma TurnAtReference(t: string, fl: Flags)
    requires |t| >= 2 && fl.entity && t[0] == '&' && t[1] == '#' && CharRefAt(t).Ref?
    ensures DecodeStep(t, fl) == Write(CharRefAt(t).bytes, CharRefAt(t).next)
  {
    hide CharRefAt;
  }

  /** Within a reference an LF CR is no line end: the backward scan stops at the inner `x`. */
  lemma LfCrInReference(fl: Flags)
    requires fl.newline && fl.entity
    ensures Ideal("&#x\n\rx41;", fl) == "A" == Ideal(Eol("&#x\n\rx41;"), Normalized(fl))
  {
    hide DecodeStep, Ideal, CharRefAt, Eol;
    var t := "&#x\n\rx41;";
    ReferenceToA(t);
    TurnAtReference(t, fl);
    assert t[9..] == "" && "A" + "" == "A";
    NoText(fl);
    UnfoldKept(t, fl);
    LineEndsConform(t, fl);
  }

  lemma ReferenceToA(t: string)
    requires t == "&#x\n\rx41;"
    ensures CharRefAt(t) == Ref(9, "A")
  {
    hide FindChar;
    FirstChar(t, 3, ';', 8);
    assert BackwardDigits(t, 2, 5, 16) == Some([]);
    assert BackwardDigits(t, 2, 6, 16) == Some([4] + []);
    assert BackwardDigits(t, 2, 7, 16) == Some([1] + ([4] + []));
    var digits := [1] + ([4] + []);
    assert digits[1..] == [4] && [4][1..] == [];
    assert Sum([], 16, 65, 256) == 65;
    assert Sum([4], 16, 1, 16) == 65;
    assert Sum(digits, 16, 0, 1) == 65;
  }
}
