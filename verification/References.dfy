/** What a character reference is and what it stands for, for every text, without the scan that finds it. */
module References {
  import opened Chars
  import opened CharRef

  /** The end mark of the prefix, at which the scan over the digits stops. */
  function Mark(base: nat): char {
    if base == 16 then 'x' else '#'
  }

  /** The first semicolon from `from` on is at `k`, and the last mark before it, that of the prefix or one behind
      it, at `cut`. */
  predicate Delimits(t: string, from: nat, base: nat, cut: nat, k: nat) {
    && 1 <= from <= cut + 1 <= k < |t|
    && t[k] == ';' && ';' !in t[from..k]
    && t[cut] == Mark(base) && Mark(base) !in t[cut + 1..k]
  }

  /** The outcome for the text behind a prefix: with no semicolon there is none, and else the digits behind the
      last mark count, if they are digits. */
  ghost predicate RefersFrom(t: string, from: nat, base: nat, r: Ref)
    requires (base == 10 || base == 16) && from <= |t|
  {
    if ';' !in t[from..] then r == NotARef
    else exists cut: nat, k: nat :: DenotedAt(t, from, base, cut, k, r)
  }

  predicate DenotedAt(t: string, from: nat, base: nat, cut: nat, k: nat, r: Ref)
    requires base == 10 || base == 16
  {
    Delimits(t, from, base, cut, k) && r == Denoted(t[cut + 1..k], base, k + 1)
  }

  function Denoted(body: string, base: nat, next: nat): Ref
    requires base == 10 || base == 16
  {
    if AllDigits(body, base) then Ref(next, Encode(NumberOf(body, base) % 0x1_0000_0000)) else NotARef
  }

  /** The outcome of `GetCharacterRef` at a text that begins with `&#`. */
  ghost predicate Refers(t: string, r: Ref)
    requires |t| >= 2
  {
    if |t| == 2 then r == Ref(1, "")
    else if t[2] == 'x' then RefersFrom(t, 3, 16, r)
    else RefersFrom(t, 2, 10, r)
  }

  lemma MarkIs(base: nat)
    requires base == 10 || base == 16
    ensures Mark(base) == Stop(base)
  {
  }

  /** A scan over a stretch without the mark comes to an end at the mark in front of it, or at a byte that is no
      digit. */
  lemma {:induction false} ScanTo(t: string, lo: nat, cut: nat, q: nat, base: nat)
    requires (base == 10 || base == 16) && lo <= cut <= q < |t| && t[lo] == Stop(base) == t[cut]
    requires Stop(base) !in t[cut + 1..q + 1]
    ensures BackwardDigits(t, lo, q, base) == BackwardDigits(t, cut, q, base)
    ensures BackwardDigits(t, cut, q, base).Some? <==> AllDigits(t[cut + 1..q + 1], base)
    decreases q
  {
    hide BackwardDigits, Digit, Stop;
    UnfoldBackward(t, lo, q, base);
    UnfoldBackward(t, cut, q, base);
    if cut < q {
      var body, init := t[cut + 1..q + 1], t[cut + 1..q];
      assert body[|body| - 1] == t[q] && body == init + [t[q]];
      ScanTo(t, lo, cut, q - 1, base);
      LastDigit(init, t[q], base);
    } else {
      assert t[cut + 1..q + 1] == "";
    }
  }

  lemma LastDigit(init: string, c: char, base: nat)
    requires base == 10 || base == 16
    ensures AllDigits(init + [c], base) <==> AllDigits(init, base) && Digit(c, base).Some?
  {
    hide Digit;
    var body := init + [c];
    if AllDigits(body, base) {
      assert body[|init|] == c;
      forall i | 0 <= i < |init| ensures Digit(init[i], base).Some? {
        assert body[i] == init[i];
      }
    }
  }

  /** The code finds what the description says. */
  lemma RefFromIs(t: string, from: nat, base: nat, cut: nat, k: nat)
    requires (base == 10 || base == 16) && Delimits(t, from, base, cut, k) && t[from - 1] == Stop(base)
    ensures RefFrom(t, from, base) == Denoted(t[cut + 1..k], base, k + 1)
  {
    hide BackwardDigits, Encode, Sum, NumberOf, AllDigits, Stop;
    MarkIs(base);
    forall j | from <= j < k ensures t[j] != ';' {
      assert t[from..k][j - from] == t[j];
    }
    FirstChar(t, from, ';', k);
    ScanTo(t, from - 1, cut, k - 1, base);
    if AllDigits(t[cut + 1..k], base) {
      DigitsDenote(t, cut + 1, k, base);
    }
  }

  lemma NoSemicolon(t: string, from: nat, base: nat)
    requires 1 <= from <= |t| && (base == 10 || base == 16) && t[from - 1] == Stop(base) && ';' !in t[from..]
    ensures RefFrom(t, from, base) == NotARef
  {
    var k := FindChar(t, from, ';');
    if k.Some? { Behind(t, from, k.value); }
  }

  lemma Behind(t: string, from: nat, k: nat)
    requires from <= k < |t|
    ensures t[k] in t[from..]
  {
    assert t[from..][k - from] == t[k];
  }

  /** The last mark before `k`. */
  lemma {:induction false} LastMark(t: string, lo: nat, k: nat, c: char) returns (cut: nat)
    requires lo < k <= |t| && t[lo] == c
    ensures lo <= cut < k && t[cut] == c && c !in t[cut + 1..k]
    decreases k
  {
    if t[k - 1] == c {
      cut := k - 1;
    } else {
      cut := LastMark(t, lo, k - 1, c);
      assert t[cut + 1..k] == t[cut + 1..k - 1] + [t[k - 1]];
    }
  }

  lemma RefersFromIs(t: string, from: nat, base: nat, r: Ref)
    requires 1 <= from <= |t| && (base == 10 || base == 16) && t[from - 1] == Stop(base)
    ensures RefersFrom(t, from, base, r) <==> r == RefFrom(t, from, base)
  {
    hide RefFrom, Delimits, Denoted, Stop, DenotedAt;
    MarkIs(base);
    if ';' !in t[from..] {
      NoSemicolon(t, from, base);
    } else {
      var k := FindChar(t, from, ';').value;
      var cut := LastMark(t, from - 1, k, Mark(base));
      ItDelimits(t, from, base, cut, k);
      RefFromIs(t, from, base, cut, k);
      ItIsDenoted(t, from, base, cut, k);
      if RefersFrom(t, from, base, r) {
        var cut': nat, k': nat :| DenotedAt(t, from, base, cut', k', r);
        RefFromIsDenoted(t, from, base, cut', k', r);
      }
    }
  }

  lemma ItIsDenoted(t: string, from: nat, base: nat, cut: nat, k: nat)
    requires (base == 10 || base == 16) && Delimits(t, from, base, cut, k) && t[from - 1] == Stop(base)
    ensures DenotedAt(t, from, base, cut, k, RefFrom(t, from, base))
  {
    hide RefFrom, Denoted;
    RefFromIs(t, from, base, cut, k);
  }

  lemma RefFromIsDenoted(t: string, from: nat, base: nat, cut: nat, k: nat, r: Ref)
    requires (base == 10 || base == 16) && 1 <= from <= |t| && t[from - 1] == Stop(base)
    requires DenotedAt(t, from, base, cut, k, r)
    ensures r == RefFrom(t, from, base)
  {
    hide RefFrom, Denoted;
    RefFromIs(t, from, base, cut, k);
  }

  lemma ItDelimits(t: string, from: nat, base: nat, cut: nat, k: nat)
    requires 1 <= from <= cut + 1 <= k < |t| && t[k] == ';' && ';' !in t[from..k]
    requires t[cut] == Mark(base) && Mark(base) !in t[cut + 1..k]
    ensures Delimits(t, from, base, cut, k)
  {
  }

  /** For every text that begins with `&#`, the outcome is exactly the one described. */
  lemma CharRefIs(t: string, r: Ref)
    requires |t| >= 2 && t[0] == '&' && t[1] == '#'
    ensures Refers(t, r) <==> r == CharRefAt(t)
  {
    hide RefFrom, RefersFrom;
    if |t| > 2 && t[2] == 'x' {
      if |t| == 3 {
        assert t[3..] == "";
        NothingBehind(t, r);
      } else {
        RefersFromIs(t, 3, 16, r);
      }
    } else if |t| > 2 {
      RefersFromIs(t, 2, 10, r);
    }
  }

  lemma NothingBehind(t: string, r: Ref)
    requires |t| == 3
    ensures RefersFrom(t, 3, 16, r) <==> r == NotARef
  {
    assert t[3..] == "";
  }

  // ----- The encoding -----

  /** The ranges of section 3 of RFC 3629, its four-byte row extended to 0x1FFFFF; above there is no encoding. */
  lemma EncodingLengths(ucs: nat)
    ensures |Encode(ucs)|
         == if ucs <= 0x7F then 1 else if ucs <= 0x7FF then 2 else if ucs <= 0xFFFF then 3
            else if ucs <= 0x1FFFFF then 4 else 0
  {
  }

  /** No byte sequence that stands for the same value is shorter than the encoding. */
  lemma ShortestForm(s: string, ucs: nat, n: nat)
    requires DecodeOne(s) == Some((ucs, n))
    ensures |Encode(ucs)| <= n
  {
    hide Encode;
    var c := s[0] as int;
    if 0xC0 <= c < 0xE0 {
      TailBound(s[1..], 1, c - 0xC0);
    } else if 0xE0 <= c < 0xF0 {
      TailBound(s[1..], 2, c - 0xE0);
    } else if 0xF0 <= c < 0xF8 {
      TailBound(s[1..], 3, c - 0xF0);
    }
  }

  /** `n` continuation bytes add six bits each. */
  lemma TailBound(s: string, n: nat, high: nat)
    requires n <= 3
    ensures var v := DecodeTail(s, n, high);
            v.Some? ==>
              v.value < (high + 1) * (if n == 0 then 1 else if n == 1 then 64 else if n == 2 then 4096 else 262144)
  {
    if n > 0 && s != "" && ContinuationValue(s[0]).Some? {
      TailBound(s[1..], n - 1, high * 64 + ContinuationValue(s[0]).value);
    }
  }
}
