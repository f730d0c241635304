/** Bytes, character classes and C-string helpers shared by the XML layers.
    A byte of the parsed buffer is a `char`; a text is the part of the buffer before its first NUL. */
module Chars {

  datatype Option<+T> = None | Some(value: T)

  const NUL := '\0'
  const CR := '\r'
  const LF := '\n'

  /** Bytes above 127 are never white space; below that this is `isspace` in the C locale. */
  predicate IsWhiteSpace(c: char) {
    c == ' ' || 9 <= c as int <= 13
  }

  predicate IsNameStartChar(c: char) {
    c as int >= 128 || 'a' <= c <= 'z' || 'A' <= c <= 'Z' || c == ':' || c == '_'
  }

  predicate IsNameChar(c: char) {
    IsNameStartChar(c) || '0' <= c <= '9' || c == '.' || c == '-'
  }

  const CAPITALS := "ABCDEFGHIJKLMNOPQRSTUVWXYZ"
  const SMALL := "abcdefghijklmnopqrstuvwxyz"

  /** The characters of each class, one by one. */
  lemma ClassesAre(c: char)
    ensures IsWhiteSpace(c) <==> c in " \t\n\U{B}\U{C}\r"
    ensures IsNameStartChar(c) <==> c as int > 0x7F || c in CAPITALS || c in SMALL || c in ":_"
    ensures IsNameChar(c) <==> IsNameStartChar(c) || c in "0123456789" || c in ".-"
  {
    CapitalsAre(c);
    SmallAre(c);
    if '0' <= c <= '9' { assert c == "0123456789"[c as int - '0' as int]; }
  }

  lemma CapitalsAre(c: char)
    ensures c in CAPITALS <==> 'A' <= c <= 'Z'
  {
    if 'A' <= c <= 'Z' { assert c == CAPITALS[c as int - 'A' as int]; }
  }

  lemma SmallAre(c: char)
    ensures c in SMALL <==> 'a' <= c <= 'z'
  {
    if 'a' <= c <= 'z' { assert c == SMALL[c as int - 'a' as int]; }
  }

  predicate NulFree(s: string) {
    NUL !in s
  }

  lemma NulFreeSlice(s: string, a: nat, b: nat)
    requires NulFree(s) && a <= b <= |s|
    ensures NulFree(s[a..b])
  {
  }

  predicate AllWhiteSpace(s: string) {
    forall i | 0 <= i < |s| :: IsWhiteSpace(s[i])
  }

  /** What reading byte `p` of a NUL-terminated text gives. */
  function ByteAt(s: string, p: nat): char {
    if p < |s| then s[p] else NUL
  }

  /** `x` occurs in `s` at `p`: what `strncmp` against a NUL-free pattern decides. */
  predicate Has(s: string, p: nat, x: string) {
    p + |x| <= |s| && s[p..p + |x|] == x
  }

  lemma HasAt(s: string, p: nat, x: string, i: nat)
    requires Has(s, p, x) && i < |x|
    ensures s[p + i] == x[i]
  {
    assert s[p..p + |x|][i] == x[i];
  }

  lemma HasInside(s: string, p: nat, x: string)
    requires Has(s, p, x)
    ensures p + |x| <= |s| && s[p..p + |x|] == x
  {
  }

  lemma HasConcat(s: string, p: nat, x: string, y: string)
    ensures Has(s, p, x + y) <==> Has(s, p, x) && Has(s, p + |x|, y)
  {
    if Has(s, p, x + y) {
      assert s[p..p + |x|] == (x + y)[..|x|];
      assert s[p + |x|..p + |x| + |y|] == (x + y)[|x|..];
    }
    if Has(s, p, x) && Has(s, p + |x|, y) {
      assert s[p..p + |x| + |y|] == s[p..p + |x|] + s[p + |x|..p + |x| + |y|];
    }
  }

  lemma HasChar(s: string, p: nat)
    requires p < |s|
    ensures Has(s, p, [s[p]])
  {
  }

  lemma HasInSuffix(s: string, p: nat, x: string)
    requires p <= |s|
    ensures Has(s, p, x) <==> Has(s[p..], 0, x)
  {
    if p + |x| <= |s| { assert s[p..][0..|x|] == s[p..p + |x|]; }
  }

  /** The first position at or after `p` that is not white space. */
  function SkipWhiteSpace(s: string, p: nat): (q: nat)
    requires p <= |s|
    ensures p <= q <= |s|
    ensures forall i | p <= i < q :: IsWhiteSpace(s[i])
    ensures q < |s| ==> !IsWhiteSpace(s[q])
    decreases |s| - p
  {
    if p < |s| && IsWhiteSpace(s[p]) then SkipWhiteSpace(s, p + 1) else p
  }

  /** White space runs are maximal, so they have one end only. */
  lemma {:induction false} SkipIsUnique(s: string, p: nat, q: nat)
    requires p <= q <= |s|
    requires forall i | p <= i < q :: IsWhiteSpace(s[i])
    requires q < |s| ==> !IsWhiteSpace(s[q])
    ensures SkipWhiteSpace(s, p) == q
    decreases q - p
  {
    if p < q {
      SkipIsUnique(s, p + 1, q);
    }
  }

  /** The line of position `p`: one more than the number of line feeds before it. */
  function LineAt(s: string, p: nat): (line: nat)
    requires p <= |s|
    ensures line >= 1
  {
    if p == 0 then 1 else LineAt(s, p - 1) + (if s[p - 1] == LF then 1 else 0)
  }

  /** Lines are counted from 1, one more for each line feed. */
  lemma {:induction false} LineCounts(s: string, p: nat)
    requires p <= |s|
    ensures LineAt(s, p) == 1 + multiset(s[..p])[LF]
    decreases p
  {
    if p > 0 {
      LineCounts(s, p - 1);
      assert s[..p] == s[..p - 1] + [s[p - 1]];
    }
  }

  /** The longest NUL-free prefix: what a C string starting here denotes. */
  function CString(s: string): (r: string)
    ensures |r| <= |s| && r == s[..|r|] && NulFree(r)
    ensures |r| < |s| ==> s[|r|] == NUL
  {
    if s == "" || s[0] == NUL then "" else [s[0]] + CString(s[1..])
  }

  lemma CStringOfNulFree(s: string)
    requires NulFree(s)
    ensures CString(s) == s
  {
  }

  lemma CStringUpTo(s: string, x: string)
    requires |x| < |s| && s[..|x|] == x && s[|x|] == NUL
    ensures CString(s) == CString(x)
  {
    if x != "" && x[0] != NUL {
      assert s[0] == x[0];
      assert s[1..][..|x| - 1] == x[1..];
      CStringUpTo(s[1..], x[1..]);
    }
  }
}
