/** Lazily evaluated strings: slices of one shared buffer, rewritten in place when first read. */
module StrPairs {
  import opened Chars
  import opened CharRef
  import opened Decode

  /** The loop of `GetStr` that compares the entity table at `p` with the text up to the NUL at `hi`. */
  method MatchEntity(buf: array<char>, ghost hi: nat, p: nat) returns (k: nat)
    requires p < hi < buf.Length && buf[hi] == NUL && NulFree(buf[p..hi])
    ensures FindEntity(buf[p..hi], 0) == if k < |ENTITIES| then Some(k) else None
  {
    ghost var u := buf[p..hi];
    k := 0;
    while k < |ENTITIES|
      invariant 0 <= k <= |ENTITIES| && FindEntity(u, 0) == FindEntity(u, k)
    {
      var same := StartsWith(buf, hi, p + 1, ENTITIES[k].0);
      assert buf[p + 1..hi] == u[1..];
      HasInSuffix(u, 1, ENTITIES[k].0);
      if same && buf[p + 1 + |ENTITIES[k].0|] == ';' {
        return;
      }
      k := k + 1;
    }
  }

  /** `strncmp` of the text at `p` with the whole pattern. */
  method StartsWith(buf: array<char>, ghost hi: nat, p: nat, pattern: string) returns (same: bool)
    requires p <= hi < buf.Length && buf[hi] == NUL && NulFree(pattern)
    ensures same == Has(buf[p..hi], 0, pattern)
  {
    var i := 0;
    while i < |pattern|
      invariant 0 <= i <= |pattern| && p + i <= hi
      invariant forall k | 0 <= k < i :: buf[p + k] == pattern[k]
    {
      if buf[p + i] != pattern[i] {
        assert p + |pattern| <= hi ==> buf[p..hi][0..|pattern|][i] == buf[p + i];
        return false;
      }
      assert pattern[i] in pattern;
      i := i + 1;
    }
    assert buf[p..hi][0..|pattern|] == pattern;
    same := true;
  }

  // ----- Rewriting a slice in place -----

  /** The slice of the raw text `t` at `start` is rewritten up to `q`: `written` stands there, and from `q` on
      still the raw text. */
  predicate Rewriting(b: string, start: nat, q: nat, t: string, written: string) {
    && start <= q && q - start == |written| <= |t| && start + |t| < |b|
    && (forall k | 0 <= k < |written| :: b[start + k] == written[k])
    && forall k | q - start <= k < |t| :: b[start + k] == t[k]
  }

  lemma RewritingStarts(b: string, start: nat, end: nat)
    requires start <= end < |b|
    ensures Rewriting(b, start, start, b[start..end], "")
  {
  }

  /** One turn writes `left` at `q`, not behind what is read by then. */
  lemma RewritingStep(b: string, b': string, start: nat, q: nat, t: string, written: string, left: string)
    requires Rewriting(b, start, q, t, written) && |b'| == |b| && q - start + |left| <= |t|
    requires forall k | 0 <= k < |left| :: b'[q + k] == left[k]
    requires forall k | 0 <= k < q || q + |left| <= k < |b| :: b'[k] == b[k]
    ensures Rewriting(b', start, q + |left|, t, written + left)
  {
  }

  /** What is not rewritten yet is the rest of the raw text. */
  lemma RestOfText(b: string, start: nat, q: nat, t: string, written: string, p: nat)
    requires Rewriting(b, start, q, t, written) && NulFree(t) && q <= p <= start + |t|
    ensures b[p..start + |t|] == t[p - start..] && NulFree(b[p..start + |t|])
  {
    var u := b[p..start + |t|];
    forall k | 0 <= k < |u| ensures u[k] == t[p - start + k] {
      assert b[start + (p - start + k)] == t[p - start + k];
    }
  }

  /** A NUL behind what is written ends it. */
  lemma RewritingEnds(b: string, b': string, start: nat, q: nat, t: string, written: string)
    requires Rewriting(b, start, q, t, written) && b' == b[q := NUL]
    ensures HoldsString(b', start, written)
  {
  }

  /** The translating loop of `GetStr`: the read pointer never falls behind the write pointer, and
      nothing outside the slice changes. */
  method Translate(buf: array<char>, start: nat, end: nat, fl: Flags)
    requires start <= end < buf.Length && buf[end] == NUL && NulFree(buf[start..end])
    modifies buf
    ensures HoldsString(buf[..], start, InPlace(old(buf[start..end]), fl, 0, 0))
    ensures forall k | 0 <= k < start || end <= k < buf.Length :: buf[k] == old(buf[k])
  {
    hide InPlace, DecodeStep, Step.Used, Step.Width, Step.Leaves, Rewriting, HoldsString;
    ghost var t := buf[start..end];
    ghost var written := "";
    var value := new char[10];
    var p, q := start, start;
    RewritingStarts(buf[..], start, end);
    assert buf[..][start..end] == t;
    while p < end
      invariant start <= q <= p <= end
      invariant forall k | 0 <= k < start || end <= k < buf.Length :: buf[k] == old(buf[k])
      invariant Rewriting(buf[..], start, q, t, written)
      invariant written + InPlace(t, fl, p - start, q - start) == InPlace(t, fl, 0, 0)
    {
      p, q, written := TranslateTurn(buf, start, end, p, q, fl, value, t, written);
    }
    UnfoldDecoders(t, fl, p - start, q - start);
    assert written + "" == written;
    RewritingEnds(buf[..], buf[..][q := NUL], start, q, t, written);
    buf[q] := NUL;
  }

  /** One turn, with what is written by then. */
  method TranslateTurn(buf: array<char>, ghost start: nat, end: nat, p: nat, q: nat, fl: Flags, value: array<char>,
                       ghost t: string, ghost written: string)
    returns (p': nat, q': nat, ghost written': string)
    requires start <= q <= p < end < buf.Length && buf[end] == NUL && NulFree(t) && |t| == end - start
    requires value != buf && value.Length >= 4 && Rewriting(buf[..], start, q, t, written)
    modifies buf, value
    ensures q <= q' <= p' && p < p' <= end && Rewriting(buf[..], start, q', t, written')
    ensures written' + InPlace(t, fl, p' - start, q' - start) == written + InPlace(t, fl, p - start, q - start)
    ensures forall k | 0 <= k < start || end <= k < buf.Length :: buf[k] == old(buf[k])
  {
    hide InPlace, DecodeStep, Step.Used, Step.Width, Step.Leaves, Rewriting;
    RestOfText(buf[..], start, q, t, written, p);
    assert buf[p..end] == buf[..][p..end];
    InPlaceAdvance(t, fl, p - start, q - start, written);
    RewritingAt(buf[..], start, q, t, written);
    ghost var left, was := DecodeStep(t[p - start..], fl).Leaves(t[q - start]), buf[..];
    p', q' := TranslateStep(buf, p, q, end, fl, value);
    written' := written + left;
    RewritingStep(was, buf[..], start, q, t, written, left);
  }

  lemma RewritingAt(b: string, start: nat, q: nat, t: string, written: string)
    requires Rewriting(b, start, q, t, written) && q < start + |t|
    ensures start + |t| < |b| && b[q] == t[q - start]
  {
  }

  /** One turn of the translating loop. */
  method TranslateStep(buf: array<char>, p: nat, q: nat, end: nat, fl: Flags, value: array<char>)
    returns (p': nat, q': nat)
    requires q <= p < end < buf.Length && buf[end] == NUL && NulFree(buf[p..end])
    requires value != buf && value.Length >= 4
    modifies buf, value
    ensures var s := DecodeStep(old(buf[p..end]), fl);
            && p' == p + s.Used() && q' == q + s.Width() <= p'
            && forall k | 0 <= k < s.Width() :: buf[q + k] == s.Leaves(old(buf[q]))[k]
    ensures forall k | 0 <= k < q || q' <= k < buf.Length :: buf[k] == old(buf[k])
  {
    p', q' := p, q;
    if fl.newline && buf[p] == CR {
      if buf[p + 1] == LF { p' := p + 2; } else { p' := p + 1; }
      buf[q] := LF;
      q' := q + 1;
    } else if fl.newline && buf[p] == LF {
      if buf[p + 1] == CR { p' := p + 2; } else { p' := p + 1; }
      buf[q] := LF;
      q' := q + 1;
    } else if fl.entity && buf[p] == '&' {
      if buf[p + 1] == '#' {
        var adjusted, length := GetCharacterRef(buf, end, p, value);
        if adjusted == None {
          buf[q] := buf[p];
          p', q' := p + 1, q + 1;
        } else {
          p' := adjusted.value;
          forall k | 0 <= k < length {
            buf[q + k] := value[k];
          }
          q' := q + length;
        }
      } else {
        var k := MatchEntity(buf, end, p);
        if k < |ENTITIES| {
          buf[q] := ENTITIES[k].1;
          p', q' := p + |ENTITIES[k].0| + 2, q + 1;
        } else {
          p', q' := p + 1, q + 1;
        }
      }
    } else {
      buf[q] := buf[p];
      p', q' := p + 1, q + 1;
    }
  }

  /** `SkipWhiteSpace` on the buffer, without line counting. */
  method SkipBlanks(buf: array<char>, p: nat, ghost e: nat) returns (q: nat)
    requires p <= e < buf.Length && buf[e] == NUL
    ensures q == SkipWhiteSpace(buf[..e], p)
  {
    q := p;
    while IsWhiteSpace(buf[q])
      invariant p <= q <= e && SkipWhiteSpace(buf[..e], q) == SkipWhiteSpace(buf[..e], p)
      decreases e - q
    {
      q := q + 1;
    }
  }

  /** The loop of `CollapseWhitespace` over the C string that ends at `e`, whose leading white space is
      skipped already. */
  method SqueezeBlanks(buf: array<char>, start: nat, ghost e: nat)
    requires start <= e < buf.Length && buf[e] == NUL && NulFree(buf[start..e])
    modifies buf
    ensures HoldsString(buf[..], start, Squeeze(old(buf[start..e])))
    ensures forall k | 0 <= k < start || e <= k < buf.Length :: buf[k] == old(buf[k])
  {
    hide Squeeze, SqueezeTurn, Rewriting, HoldsString;
    ghost var t := buf[start..e];
    ghost var written := "";
    var p, q := start, start;
    RewritingStarts(buf[..], start, e);
    assert buf[..][start..e] == t && t[0..] == t;
    while buf[p] != NUL
      invariant start <= q <= p <= e
      invariant forall k | 0 <= k < start || e <= k < buf.Length :: buf[k] == old(buf[k])
      invariant Rewriting(buf[..], start, q, t, written)
      invariant written + Squeeze(t[p - start..]) == Squeeze(t)
      decreases e - p
    {
      RestOfText(buf[..], start, q, t, written, p);
      assert buf[p..e] == buf[..][p..e];
      SqueezeAdvance(t, p - start, written);
      ghost var bytes, was, from := SqueezeTurn(t[p - start..]).0, buf[..], q;
      p, q := SqueezeStep(buf, p, q, e);
      RewritingStep(was, buf[..], start, from, t, written, bytes);
      written := written + bytes;
    }
    RestOfText(buf[..], start, q, t, written, p);
    assert buf[..][p..e] == t[p - start..];
    AtEnd(buf[..], p, e);
    UnfoldSqueeze(t[p - start..]);
    assert written + "" == written;
    RewritingEnds(buf[..], buf[..][q := NUL], start, q, t, written);
    buf[q] := NUL;
  }

  lemma AtEnd(b: string, p: nat, e: nat)
    requires p <= e < |b| && b[p] == NUL && NulFree(b[p..e])
    ensures p == e
  {
    if p < e { FirstOfSlice(b, p, e); }
  }

  lemma FirstOfSlice(b: string, p: nat, e: nat)
    requires p < e <= |b|
    ensures b[p] in b[p..e]
  {
    assert b[p..e][0] == b[p];
  }

  /** One turn of that loop. */
  method SqueezeStep(buf: array<char>, p: nat, q: nat, ghost e: nat) returns (p': nat, q': nat)
    requires q <= p < e < buf.Length && buf[e] == NUL && NulFree(buf[p..e])
    modifies buf
    ensures var (bytes, used) := SqueezeTurn(old(buf[p..e]));
            && p' == p + used && q' == q + |bytes| <= p'
            && forall k | 0 <= k < |bytes| :: buf[q + k] == bytes[k]
    ensures forall k | 0 <= k < q || q' <= k < buf.Length :: buf[k] == old(buf[k])
  {
    ghost var u := buf[p..e];
    assert forall k | p <= k < e :: buf[k] == u[k - p];
    p', q' := p, q;
    SkipInSuffix(buf, p, e, p, u);
    if IsWhiteSpace(buf[p]) {
      p' := SkipBlanks(buf, p, e);
      if buf[p'] == NUL {
        return;
      }
      buf[q'] := ' ';
      q' := q' + 1;
    }
    buf[q'] := buf[p'];
    q' := q' + 1;
    p' := p' + 1;
  }

  lemma {:induction false} SkipInSuffix(buf: array<char>, start: nat, e: nat, p: nat, t: string)
    requires start <= p <= e <= buf.Length && |t| == e - start
    requires forall k | p - start <= k < |t| :: buf[start + k] == t[k]
    ensures SkipWhiteSpace(buf[..e], p) == p + SkipWhiteSpace(t[p - start..], 0)
  {
    var u := t[p - start..];
    var q := p + SkipWhiteSpace(u, 0);
    forall i | p <= i < q ensures IsWhiteSpace(buf[..e][i]) {
      assert buf[..e][i] == t[i - start] == u[i - p];
    }
    assert q < e ==> buf[q] == t[q - start] == u[q - p];
    SkipIsUnique(buf[..e], p, q);
  }

  // ----- One lazily evaluated string -----

  /** The state of a `StrPair` over a parse buffer. */
  datatype Pair = Pair(start: nat, end: nat, flags: Flags, flush: bool)

  /** Before the first read the slice holds raw text; after it, a C string ended inside the slice. */
  predicate Valid(b: string, pr: Pair) {
    && pr.start <= pr.end < |b|
    && (if pr.flush then NulFree(b[pr.start..pr.end]) else b[pr.end] == NUL)
  }

  /** The string a valid pair stands for. */
  function Meaning(b: string, pr: Pair): string
    requires Valid(b, pr)
  {
    var slice := b[pr.start..pr.end];
    if pr.flush then Value(slice, pr.flags) else CString(slice)
  }

  /** What one call of `GetStr` may do: it returns the pair's string, which the pair keeps, and touches
      the buffer only inside the closed interval `[start, end]`. */
  ghost predicate ReadEffect(b: string, pr: Pair, b': string, pr': Pair, r: string) {
    && Valid(b, pr) && |b'| == |b| && Valid(b', pr')
    && !pr'.flush && pr.start <= pr'.start && pr'.end == pr.end
    && r == Meaning(b, pr) == Meaning(b', pr')
    && forall k | 0 <= k < |b| && !(pr.start <= k <= pr.end) :: b'[k] == b[k]
  }

  /** The C string of a region is that of the bytes up to a NUL in it. */
  lemma RegionString(b: string, from: nat, to: nat, out: string)
    requires from + |out| <= to < |b|
    requires HoldsString(b, from, out)
    ensures CString(b[from..to]) == CString(out)
  {
    if from + |out| == to {
      assert b[from..to] == out;
    } else {
      assert b[from..to][..|out|] == out && b[from..to][|out|] == NUL;
      CStringUpTo(b[from..to], out);
    }
  }

  /** The bytes of `out` and a NUL stand in the buffer at `from`. */
  predicate HoldsString(b: string, from: nat, out: string) {
    && from + |out| < |b| && b[from + |out|] == NUL
    && forall k | 0 <= k < |out| :: b[from + k] == out[k]
  }

  /** `CollapseWhitespace` over the C string that ends at `e`: the start moves over leading white space
      and the rest is squeezed. */
  method CollapseWhitespace(buf: array<char>, start: nat, ghost e: nat) returns (start': nat)
    requires start <= e < buf.Length && buf[e] == NUL && NulFree(buf[start..e])
    modifies buf
    ensures var out := Collapse(old(buf[start..e]));
            start <= start' && start' + |out| <= e && HoldsString(buf[..], start', out)
    ensures forall k | 0 <= k < start || e <= k < buf.Length :: buf[k] == old(buf[k])
  {
    hide Squeeze;
    ghost var t := buf[start..e];
    SkipInSuffix(buf, start, e, start, t);
    assert t[start - start..] == t;
    start' := SkipBlanks(buf, start, e);
    assert buf[start'..e] == t[start' - start..] == t[SkipWhiteSpace(t, 0)..];
    if buf[start'] != NUL {
      SqueezeBlanks(buf, start', e);
    } else {
      RewritingStarts(buf[..], start, e);
      assert buf[..][start..e] == t;
      RestOfText(buf[..], start, start, t, "", start');
      assert buf[..][start'..e] == buf[start'..e];
      AtEnd(buf[..], start', e);
      UnfoldSqueeze("");
    }
  }

  /** The body of `GetStr` on the first read: the slice becomes the C string of its value. */
  method Flush(buf: array<char>, start: nat, end: nat, flags: Flags) returns (start': nat)
    requires start <= end < buf.Length && NulFree(buf[start..end])
    modifies buf
    ensures start <= start' <= end && buf[end] == NUL
    ensures CString(buf[start'..end]) == Value(old(buf[start..end]), flags)
    ensures forall k | 0 <= k < start || end < k < buf.Length :: buf[k] == old(buf[k])
  {
    hide InPlace, Collapse, HoldsString;
    ghost var t := buf[start..end];
    ghost var out := InPlace(t, flags, 0, 0);
    start' := start;
    buf[end] := NUL;
    assert buf[start..end] == t;
    if flags != Flags(false, false, false) {
      Translate(buf, start, end, flags);
    } else {
      NoFlagsKeep(t, 0);
      assert t[0..] == t;
      forall k | 0 <= k < |t| ensures buf[start + k] == t[k] {
        assert buf[start..end][k] == buf[start + k];
      }
      Holds(buf, start, end, out);
    }
    RegionString(buf[..], start, end, out);
    assert buf[..][start..end] == buf[start..end];
    if flags.collapse {
      ghost var c := CString(out);
      CStringIsHeld(buf, start, out, c);
      start' := CollapseWhitespace(buf, start, start + |c|);
      CollapseNulFree(c);
      CStringOfNulFree(Collapse(c));
      RegionString(buf[..], start', end, Collapse(c));
      assert buf[..][start'..end] == buf[start'..end];
    }
  }

  lemma Holds(buf: array<char>, start: nat, end: nat, out: string)
    requires start + |out| <= end < buf.Length
    requires buf[start + |out|] == NUL && forall k | 0 <= k < |out| :: buf[start + k] == out[k]
    ensures HoldsString(buf[..], start, out)
  {
  }

  lemma CStringIsHeld(buf: array<char>, start: nat, out: string, c: string)
    requires HoldsString(buf[..], start, out) && c == CString(out)
    ensures start + |c| < buf.Length && buf[start + |c|] == NUL && buf[start..start + |c|] == c
  {
    assert buf[..][start + |c|] == buf[start + |c|];
    forall k | 0 <= k < |c| ensures buf[start..start + |c|][k] == c[k] {
      assert buf[..][start + k] == out[k] == c[k];
    }
  }

  class StrPair {
    var buf: array<char>
    var start: nat
    var end: nat
    var flags: Flags
    var flush: bool

    constructor (buf: array<char>, start: nat, end: nat, flags: Flags)
      ensures this.buf == buf && State() == Pair(start, end, flags, true)
    {
      this.buf, this.start, this.end, this.flags, this.flush := buf, start, end, flags, true;
    }

    function State(): Pair
      reads this
    {
      Pair(start, end, flags, flush)
    }

    /** `GetStr`: flushes the slice on the first call and returns where the C string starts. */
    method GetStr() returns (at: nat)
      requires Valid(buf[..], State())
      modifies this, buf
      ensures buf == old(buf) && at == start
      ensures ReadEffect(old(buf[..]), old(State()), buf[..], State(), old(Meaning(buf[..], State())))
    {
      hide Value;
      ghost var b := buf[..];
      assert b[start..end] == buf[start..end];
      if flush {
        flush := false;
        start := Flush(buf, start, end, flags);
        flags := Flags(false, false, false);
      }
      assert buf[..][start..end] == buf[start..end];
      at := start;
    }
  }

  // ----- Any order of reads -----

  datatype Strings = Strings(buf: string, pairs: seq<Pair>)

  /** A run of reads: the `i`-th reads the pair `order[i]` and returns `results[i]`. */
  ghost predicate Run(states: seq<Strings>, order: seq<nat>, results: seq<string>) {
    && |states| == |order| + 1 && |results| == |order|
    && forall i | 0 <= i < |order| :: ReadsOne(states[i], order[i], states[i + 1], results[i])
  }

  ghost predicate ReadsOne(s: Strings, k: nat, s': Strings, r: string) {
    && k < |s.pairs| == |s'.pairs|
    && (forall m | 0 <= m < |s.pairs| && m != k :: s'.pairs[m] == s.pairs[m])
    && ReadEffect(s.buf, s.pairs[k], s'.buf, s'.pairs[k], r)
  }

  predicate AllValid(s: Strings) {
    forall k | 0 <= k < |s.pairs| :: Valid(s.buf, s.pairs[k])
  }

  /** The closed intervals `[start, end]` are pairwise disjoint. */
  predicate Disjoint(pairs: seq<Pair>) {
    forall j, k | 0 <= j < k < |pairs| :: pairs[j].end < pairs[k].start || pairs[k].end < pairs[j].start
  }

  /** All strings still stand for what they stood for in `s`. */
  ghost predicate SameMeanings(s: Strings, s': Strings)
    requires AllValid(s) && AllValid(s')
  {
    |s.pairs| == |s'.pairs|
    && forall k | 0 <= k < |s.pairs| :: Meaning(s'.buf, s'.pairs[k]) == Meaning(s.buf, s.pairs[k])
  }

  lemma ReadKeepsMeanings(s: Strings, k: nat, s': Strings, r: string)
    requires AllValid(s) && Disjoint(s.pairs) && ReadsOne(s, k, s', r)
    ensures AllValid(s') && Disjoint(s'.pairs) && SameMeanings(s, s')
  {
    forall m | 0 <= m < |s.pairs|
      ensures Valid(s'.buf, s'.pairs[m]) && Meaning(s'.buf, s'.pairs[m]) == Meaning(s.buf, s.pairs[m])
    {
      if m != k {
        var pr := s.pairs[m];
        assert s'.buf[pr.start..pr.end] == s.buf[pr.start..pr.end];
      }
    }
  }

  /** Reading strings with disjoint slices in any order, any number of times, returns the same strings. */
  lemma {:induction false} AnyOrder(states: seq<Strings>, order: seq<nat>, results: seq<string>)
    requires Run(states, order, results)
    requires AllValid(states[0]) && Disjoint(states[0].pairs)
    ensures forall i | 0 <= i < |order| ::
              order[i] < |states[0].pairs| && results[i] == Meaning(states[0].buf, states[0].pairs[order[i]])
    decreases |order|
  {
    if order != [] {
      var s, s' := states[0], states[1];
      assert ReadsOne(states[0], order[0], states[1], results[0]);
      ReadKeepsMeanings(s, order[0], s', results[0]);
      var states', order', results' := states[1..], order[1..], results[1..];
      forall i | 0 <= i < |order'| ensures ReadsOne(states'[i], order'[i], states'[i + 1], results'[i]) {
        assert ReadsOne(states[i + 1], order[i + 1], states[i + 2], results[i + 1]);
      }
      AnyOrder(states', order', results');
      forall i | 0 <= i < |order|
        ensures order[i] < |s.pairs| && results[i] == Meaning(s.buf, s.pairs[order[i]])
      {
        if i > 0 {
          assert order[i] == order'[i - 1] && results[i] == results'[i - 1];
        }
      }
    }
  }
}
