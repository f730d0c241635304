/** Character references (XML 1.0 section 4.1) and their UTF-8 encoding (section 3 of RFC 3629). */
module CharRef {
  import opened Chars

  // `unsigned int` has 32 bits, and so has `unsigned long` on the platform of the Visual Studio project.
  const UINT_SIZE: nat := 0x1_0000_0000
  const ULONG_SIZE: nat := 0x1_0000_0000

  // ----- UTF-8 -----

  function EncodedLength(ucs: nat): (n: nat)
    ensures n <= 4
  {
    if ucs < 0x80 then 1 else if ucs < 0x800 then 2 else if ucs < 0x10000 then 3 else if ucs < 0x200000 then 4 else 0
  }

  /** The bytes of a value, six bits to a continuation byte; nothing at all above the four-byte range. */
  function Encode(ucs: nat): (r: string)
    ensures |r| == EncodedLength(ucs)
  {
    var high := ucs / 64;
    var higher := high / 64;
    var highest := higher / 64;
    if ucs < 0x80 then [ucs as char]
    else if ucs < 0x800 then [(0xC0 + high) as char, Continuation(ucs)]
    else if ucs < 0x10000 then [(0xE0 + higher) as char, Continuation(high), Continuation(ucs)]
    else if ucs < 0x200000 then
      [(0xF0 + highest) as char, Continuation(higher), Continuation(high), Continuation(ucs)]
    else ""
  }

  /** A continuation byte 10xxxxxx holding the low six bits. */
  function Continuation(x: nat): (c: char)
    ensures ContinuationValue(c) == Some(x % 64)
  {
    (0x80 + x % 64) as char
  }

  /** The bitwise operators, on as many bits as the operands have. */
  function BitOr(a: nat, b: nat): nat {
    if a == 0 || b == 0 then a + b
    else 2 * BitOr(a / 2, b / 2) + if a % 2 == 0 && b % 2 == 0 then 0 else 1
  }

  function BitAnd(a: nat, b: nat): nat {
    if a == 0 || b == 0 then 0
    else 2 * BitAnd(a / 2, b / 2) + if a % 2 == 0 || b % 2 == 0 then 0 else 1
  }

  lemma OrEven(x: nat, k: nat)
    ensures BitOr(x, 2 * k) == 2 * BitOr(x / 2, k) + x % 2
  {
  }

  lemma AndOdd(x: nat, k: nat)
    ensures BitAnd(x, 2 * k + 1) == 2 * BitAnd(x / 2, k) + x % 2
  {
    if x == 1 { assert BitAnd(0, k) == 0; }
  }

  /** Setting bits of an even mark and masking with an odd mask leaves the lowest bit and works on the others. */
  lemma MarkStep(x: nat, mark: nat, mask: nat)
    ensures BitAnd(BitOr(x, 2 * mark), 2 * mask + 1) == 2 * BitAnd(BitOr(x / 2, mark), mask) + x % 2
  {
    OrEven(x, mark);
    AndOdd(BitOr(x, 2 * mark), mask);
    assert BitOr(x, 2 * mark) / 2 == BitOr(x / 2, mark);
  }

  function Shifted(k: nat, n: nat): nat {
    if n == 0 then k else 2 * Shifted(k, n - 1)
  }

  /** Bits that the other operand has zeros for are just added. */
  lemma {:induction false} OrAbove(x: nat, k: nat, n: nat)
    requires x < Shifted(1, n)
    ensures BitOr(x, Shifted(k, n)) == x + Shifted(k, n)
    decreases n
  {
    if n > 0 {
      OrEven(x, Shifted(k, n - 1));
      OrAbove(x / 2, k, n - 1);
    }
  }

  lemma TopBits(x: nat)
    ensures BitAnd(BitOr(x, 2), 2) == 2
  {
    OrEven(x, 1);
    var y := BitOr(x / 2, 1);
    var w := BitOr(x, 2);
    assert w / 2 == y && y % 2 == 1;
    assert BitAnd(w, 2) == 2 * BitAnd(y, 1);
    assert BitAnd(y, 1) == 2 * BitAnd(y / 2, 0) + 1;
  }

  lemma RemainderIs(x: nat, f: nat, bits: nat)
    requires x == 64 * f + bits && bits < 64
    ensures x % 64 == bits
  {
  }

  /** Six halvings, with the bits they leave. */
  lemma SixBits(x: nat, a: nat, b: nat, c: nat, d: nat, e: nat, f: nat,
                x0: nat, x1: nat, x2: nat, x3: nat, x4: nat, x5: nat)
    requires x == 2 * a + x0 && a == 2 * b + x1 && b == 2 * c + x2 && c == 2 * d + x3 && d == 2 * e + x4
             && e == 2 * f + x5
    requires x0 < 2 && x1 < 2 && x2 < 2 && x3 < 2 && x4 < 2 && x5 < 2
    ensures var bits := x0 + 2 * x1 + 4 * x2 + 8 * x3 + 16 * x4 + 32 * x5; x == 64 * f + bits && bits < 64
  {
  }

  /** `(input | BYTE_MARK) & BYTE_MASK` keeps the low six bits under the mark 10xxxxxx. */
  lemma ContinuationBits(x: nat)
    ensures BitAnd(BitOr(x, 0x80), 0xBF) == 0x80 + x % 64
  {
    hide BitOr, BitAnd;
    MarkStep(x, 0x40, 0x5F);
    var a := x / 2;
    MarkStep(a, 0x20, 0x2F);
    var b := a / 2;
    MarkStep(b, 0x10, 0x17);
    var c := b / 2;
    MarkStep(c, 8, 0x0B);
    var d := c / 2;
    MarkStep(d, 4, 5);
    var e := d / 2;
    MarkStep(e, 2, 2);
    TopBits(e / 2);
    SixBits(x, a, b, c, d, e, e / 2, x % 2, a % 2, b % 2, c % 2, d % 2, e % 2);
    RemainderIs(x, e / 2, x % 2 + 2 * (a % 2) + 4 * (b % 2) + 8 * (c % 2) + 16 * (d % 2) + 32 * (e % 2));
  }

  /** `FIRST_BYTE_MARK`. */
  function FirstByteMark(length: nat): nat {
    if length == 4 then 0xF0 else if length == 3 then 0xE0 else if length == 2 then 0xC0 else 0
  }

  /** The mark of the leading byte meets none of the value bits that are left for it. */
  lemma LeadingBits(ucs: nat)
    requires ucs < 0x200000
    ensures var n := EncodedLength(ucs);
            var rest := if n == 4 then ucs / 64 / 64 / 64 else if n == 3 then ucs / 64 / 64
                        else if n == 2 then ucs / 64 else ucs;
            BitOr(rest, FirstByteMark(n)) == rest + FirstByteMark(n) < 0x100
  {
    hide BitOr;
    var n := EncodedLength(ucs);
    assert Shifted(1, 1) == 2 && Shifted(1, 3) == 8 && Shifted(1, 5) == 32;
    if n == 4 {
      assert Shifted(30, 1) == 60 && Shifted(30, 3) == 0xF0;
      OrAbove(ucs / 64 / 64 / 64, 30, 3);
    } else if n == 3 {
      assert Shifted(14, 2) == 56 && Shifted(14, 4) == 0xE0 && Shifted(1, 4) == 16;
      OrAbove(ucs / 64 / 64, 14, 4);
    } else if n == 2 {
      assert Shifted(6, 1) == 12 && Shifted(6, 3) == 48 && Shifted(6, 5) == 0xC0;
      OrAbove(ucs / 64, 6, 5);
    } else {
      OrNothing(ucs);
    }
  }

  lemma OrNothing(x: nat)
    ensures BitOr(x, 0) == x
  {
  }

  /** The value bits of a continuation byte 10xxxxxx of RFC 3629. */
  function ContinuationValue(c: char): Option<nat> {
    if 0x80 <= c as int < 0xC0 then Some(c as int - 0x80) else None
  }

  /** Reads `n` continuation bytes after the value bits `high` of the leading byte. */
  function DecodeTail(s: string, n: nat, high: nat): Option<nat> {
    if n == 0 then Some(high)
    else if s == "" then None
    else match ContinuationValue(s[0])
      case None => None
      case Some(v) => DecodeTail(s[1..], n - 1, high * 64 + v)
  }

  /** The decoder of section 3 of RFC 3629, its four-byte row extended to 0x1FFFFF: value and bytes read. */
  function DecodeOne(s: string): Option<(nat, nat)> {
    if s == "" then None
    else
      var c := s[0] as int;
      if c < 0x80 then Some((c, 1))
      else
        var (n, high) :=
          if 0xC0 <= c < 0xE0 then (1, c - 0xC0)
          else if 0xE0 <= c < 0xF0 then (2, c - 0xE0)
          else if 0xF0 <= c < 0xF8 then (3, c - 0xF0)
          else (0, 0);
        if n == 0 then None
        else match DecodeTail(s[1..], n, high)
          case None => None
          case Some(v) => Some((v, n + 1))
  }

  /** Every encodable value is read back, whatever follows its encoding. */
  lemma EncodeDecodes(ucs: nat, rest: string)
    requires ucs < 0x200000
    ensures DecodeOne(Encode(ucs) + rest) == Some((ucs, EncodedLength(ucs)))
  {
    var e := Encode(ucs);
    var tail := (e + rest)[1..];
    if 0x80 <= ucs {
      assert tail == e[1..] + rest;
      EncodedTail(ucs);
      TailDecodes(e[1..], rest, ucs);
      AboveUpTo3(ucs);
    }
  }

  /** The bits of a value above the `n` continuation bytes. */
  function Above(ucs: nat, n: nat): nat {
    if n == 0 then ucs else Above(ucs / 64, n - 1)
  }

  predicate IsTail(tail: string, ucs: nat) {
    forall i | 0 <= i < |tail| :: tail[i] == Continuation(Above(ucs, |tail| - 1 - i))
  }

  lemma AboveUpTo3(ucs: nat)
    ensures Above(ucs, 0) == ucs && Above(ucs, 1) == ucs / 64
    ensures Above(ucs, 2) == ucs / 64 / 64 && Above(ucs, 3) == ucs / 64 / 64 / 64
  {
  }

  lemma EncodedTail(ucs: nat)
    requires 0x80 <= ucs < 0x200000
    ensures IsTail(Encode(ucs)[1..], ucs)
  {
    AboveUpTo3(ucs);
    hide Continuation;
  }

  /** Continuation bytes give back the bits below those of the leading byte. */
  lemma {:induction false} TailDecodes(tail: string, rest: string, ucs: nat)
    requires IsTail(tail, ucs)
    ensures DecodeTail(tail + rest, |tail|, Above(ucs, |tail|)) == Some(ucs)
  {
    if tail != "" {
      AboveStep(ucs, |tail| - 1);
      hide Continuation;
      forall i | 0 <= i < |tail| - 1 ensures tail[1..][i] == Continuation(Above(ucs, |tail| - 2 - i)) {
        assert tail[1..][i] == tail[i + 1];
      }
      TailDecodes(tail[1..], rest, ucs);
      assert (tail + rest)[1..] == tail[1..] + rest;
    }
  }

  lemma {:induction false} AboveStep(ucs: nat, n: nat)
    ensures Above(ucs, n + 1) == Above(ucs, n) / 64
    decreases n
  {
    if n > 0 { AboveStep(ucs / 64, n - 1); }
  }

  function EncodeAll(values: seq<nat>): string {
    if values == [] then "" else Encode(values[0]) + EncodeAll(values[1..])
  }

  /** A concatenation of encodings determines the encoded values. */
  lemma {:induction false} EncodeAllInjective(a: seq<nat>, b: seq<nat>)
    requires forall i | 0 <= i < |a| :: a[i] < 0x200000
    requires forall i | 0 <= i < |b| :: b[i] < 0x200000
    requires EncodeAll(a) == EncodeAll(b)
    ensures a == b
  {
    if a != [] {
      EncodeDecodes(a[0], EncodeAll(a[1..]));
    }
    if b != [] {
      EncodeDecodes(b[0], EncodeAll(b[1..]));
    }
    if a != [] && b != [] {
      var n := EncodedLength(a[0]);
      assert EncodeAll(a)[n..] == EncodeAll(a[1..]) && EncodeAll(b)[n..] == EncodeAll(b[1..]);
      EncodeAllInjective(a[1..], b[1..]);
      assert a == [a[0]] + a[1..] && b == [b[0]] + b[1..];
    }
  }

  /** `ConvertUTF32ToUTF8`: the bytes are written from the last one back to the leading one. */
  method ConvertUTF32ToUTF8(input: nat, output: array<char>) returns (length: nat)
    requires output.Length >= 4
    modifies output
    ensures length == EncodedLength(input) && output[..length] == Encode(input)
  {
    hide BitOr, BitAnd;
    length := EncodedLength(input);
    if length == 0 {
      return;
    }
    var at, rest := length, input;
    LeadingBits(input);
    if length == 4 {
      at := at - 1;
      ContinuationBits(rest);
      output[at] := BitAnd(BitOr(rest, 0x80), 0xBF) as char;
      rest := rest / 64;
    }
    if length >= 3 {
      at := at - 1;
      ContinuationBits(rest);
      output[at] := BitAnd(BitOr(rest, 0x80), 0xBF) as char;
      rest := rest / 64;
    }
    if length >= 2 {
      at := at - 1;
      ContinuationBits(rest);
      output[at] := BitAnd(BitOr(rest, 0x80), 0xBF) as char;
      rest := rest / 64;
    }
    output[at - 1] := BitOr(rest, FirstByteMark(length)) as char;
  }

  // ----- The digits of a reference -----

  function Digit(c: char, base: nat): (d: Option<nat>)
    requires base == 10 || base == 16
    ensures d.Some? ==> d.value < base
  {
    if '0' <= c <= '9' then Some(c as int - '0' as int)
    else if base == 16 && 'a' <= c <= 'f' then Some(c as int - 'a' as int + 10)
    else if base == 16 && 'A' <= c <= 'F' then Some(c as int - 'A' as int + 10)
    else None
  }

  const LOWER := "0123456789abcdef"
  const UPPER := "0123456789ABCDEF"

  /** The digits and their values: the place in the usual order, in either case; no other byte is a digit. */
  lemma DigitIs(c: char)
    ensures forall i | 0 <= i < 16 :: c == LOWER[i] || c == UPPER[i] ==> Digit(c, 16) == Some(i)
    ensures forall i | 0 <= i < 10 :: c == LOWER[i] ==> Digit(c, 10) == Some(i)
    ensures c !in LOWER && c !in UPPER ==> Digit(c, 16) == None
    ensures c !in LOWER[..10] ==> Digit(c, 10) == None
  {
    if '0' <= c <= '9' {
      assert c == LOWER[..10][c as int - '0' as int];
    } else if 'a' <= c <= 'f' {
      assert c == LOWER[c as int - 'a' as int + 10];
    } else if 'A' <= c <= 'F' {
      assert c == UPPER[c as int - 'A' as int + 10];
    }
  }

  predicate AllDigits(body: string, base: nat)
    requires base == 10 || base == 16
  {
    forall i | 0 <= i < |body| :: Digit(body[i], base).Some?
  }

  /** The number a digit string denotes, most significant digit first. */
  function NumberOf(body: string, base: nat): nat
    requires base == 10 || base == 16
    requires AllDigits(body, base)
  {
    if body == "" then 0
    else NumberOf(body[..|body| - 1], base) * base + Digit(body[|body| - 1], base).value
  }

  /** The first `c` at or after `from`: `strchr`. */
  function FindChar(t: string, from: nat, c: char): (k: Option<nat>)
    requires from <= |t|
    ensures k.Some? ==> from <= k.value < |t| && t[k.value] == c && c !in t[from..k.value]
    ensures k.None? ==> c !in t[from..]
    decreases |t| - from
  {
    if from == |t| then None
    else if t[from] == c then Some(from)
    else
      var k := FindChar(t, from + 1, c);
      assert t[from..] == [t[from]] + t[from + 1..];
      assert k.Some? ==> t[from..k.value] == [t[from]] + t[from + 1..k.value];
      k
  }

  /** The character the backward scan stops at. */
  function Stop(base: nat): char {
    if base == 16 then 'x' else '#'
  }

  /** The digits the backward scan meets from `q` down to the stop character, in that order. */
  function BackwardDigits(t: string, lo: nat, q: nat, base: nat): (r: Option<seq<nat>>)
    requires lo <= q < |t| && (base == 10 || base == 16) && t[lo] == Stop(base)
    ensures r.Some? ==> |r.value| <= q - lo && forall i | 0 <= i < |r.value| :: r.value[i] < base
    decreases q
  {
    if t[q] == Stop(base) then Some([])
    else
      var d := Digit(t[q], base);
      var rest := BackwardDigits(t, lo, q - 1, base);
      if d.None? || rest.None? then None else Some([d.value] + rest.value)
  }

  /** Multiplication of `unsigned int` values. */
  function MulUint(a: nat, b: nat): nat {
    a * b % UINT_SIZE
  }

  /** The sum the loop accumulates over the digits, least significant first, with the machine's wrap-around. */
  function Sum(digits: seq<nat>, base: nat, ucs: nat, mult: nat): nat {
    if digits == [] then ucs
    else Sum(digits[1..], base, (ucs + MulUint(mult, digits[0])) % ULONG_SIZE, MulUint(mult, base))
  }

  /** All the arithmetic assertions the same loop makes hold. */
  predicate NoOverflow(digits: seq<nat>, base: nat, ucs: nat, mult: nat)
    requires base > 0
  {
    digits == [] ||
    var digitScaled := MulUint(mult, digits[0]);
    && (digits[0] == 0 || mult <= (UINT_SIZE - 1) / digits[0])
    && ucs <= ULONG_SIZE - 1 - digitScaled
    && mult <= (UINT_SIZE - 1) / base
    && NoOverflow(digits[1..], base, (ucs + digitScaled) % ULONG_SIZE, MulUint(mult, base))
  }

  /** The positional value of digits, least significant first. */
  function Positional(digits: seq<nat>, base: nat): nat {
    if digits == [] then 0 else digits[0] + base * Positional(digits[1..], base)
  }

  function Pow(base: nat, n: nat): nat {
    if n == 0 then 1 else base * Pow(base, n - 1)
  }

  function DigitLimit(base: nat): nat {
    if base == 16 then 7 else 9
  }

  /** Within the digit limit no product wraps. */
  lemma PowLimit(base: nat, n: nat)
    requires base == 10 || base == 16
    requires n < DigitLimit(base)
    ensures Pow(base, n) * base < UINT_SIZE
  {
    if n > 0 { PowLimit(base, n - 1); }
    assert n <= 8;
    if base == 10 {
      assert Pow(10, 1) == 10;  assert Pow(10, 2) == 100;  assert Pow(10, 3) == 1000;
      assert Pow(10, 4) == 10000;  assert Pow(10, 5) == 100000;  assert Pow(10, 6) == 1000000;
      assert Pow(10, 7) == 10000000;  assert Pow(10, 8) == 100000000;
    } else {
      assert Pow(16, 1) == 0x10;  assert Pow(16, 2) == 0x100;  assert Pow(16, 3) == 0x1000;
      assert Pow(16, 4) == 0x10000;  assert Pow(16, 5) == 0x100000;  assert Pow(16, 6) == 0x1000000;
    }
  }

  lemma TopPower(base: nat)
    requires base == 10 || base == 16
    ensures Pow(base, DigitLimit(base)) > (UINT_SIZE - 1) / base
  {
    if base == 10 {
      assert Pow(10, 1) == 10;  assert Pow(10, 2) == 100;  assert Pow(10, 3) == 1000;
      assert Pow(10, 4) == 10000;  assert Pow(10, 5) == 100000;  assert Pow(10, 6) == 1000000;
      assert Pow(10, 7) == 10000000;  assert Pow(10, 8) == 100000000;
    } else {
      assert Pow(16, 1) == 0x10;  assert Pow(16, 2) == 0x100;  assert Pow(16, 3) == 0x1000;
      assert Pow(16, 4) == 0x10000;  assert Pow(16, 5) == 0x100000;  assert Pow(16, 6) == 0x1000000;
    }
  }

  lemma {:induction false} MulMonotone(p: nat, a: nat, b: nat)
    requires a <= b
    ensures p * a <= p * b
    decreases b
  {
    if a < b {
      MulMonotone(p, a, b - 1);
      assert p * b == p * (b - 1) + p;
    }
  }

  lemma AtMostQuotient(p: nat, d: nat)
    requires d > 0 && p * d < UINT_SIZE
    ensures p <= (UINT_SIZE - 1) / d
  {
    var n := (UINT_SIZE - 1) / d;
    if p > n {
      MulMonotone(d, n + 1, p);
      assert false;
    }
  }

  /** No product of the loop wraps for a digit `d`, while the next multiplier fits. */
  lemma NoWrap(p: nat, base: nat, d: nat, ucs: nat)
    requires 0 < base && d < base && p * base < UINT_SIZE && ucs < p
    ensures MulUint(p, d) == p * d && MulUint(p, base) == p * base
    ensures p * d < UINT_SIZE && ucs + p * d < p * base
    ensures d == 0 || p <= (UINT_SIZE - 1) / d
    ensures p <= (UINT_SIZE - 1) / base
  {
    MulMonotone(p, d + 1, base);
    assert p * (d + 1) == p * d + p;
    AtMostQuotient(p, base);
    if d > 0 { AtMostQuotient(p, d); }
  }

  /** One turn of the loop without wrap-around. */
  lemma {:induction false} SumStep(digits: seq<nat>, base: nat, ucs: nat, mult: nat, sum: nat, next: nat)
    requires digits != [] && digits[0] < base && ucs < mult
    requires sum == ucs + mult * digits[0] && next == mult * base < UINT_SIZE
    ensures sum < next
    ensures Sum(digits, base, ucs, mult) == Sum(digits[1..], base, sum, next)
    ensures NoOverflow(digits, base, ucs, mult) <==> NoOverflow(digits[1..], base, sum, next)
  {
    hide MulUint;
    var d := digits[0];
    NoWrap(mult, base, d, ucs);
    assert (ucs + MulUint(mult, d)) % ULONG_SIZE == sum && MulUint(mult, base) == next;
    UnfoldSum(digits, base, ucs, mult);
    hide Sum, NoOverflow;
  }

  lemma {:induction false} UnfoldSum(digits: seq<nat>, base: nat, ucs: nat, mult: nat)
    requires digits != [] && base > 0
    ensures Sum(digits, base, ucs, mult)
         == Sum(digits[1..], base, (ucs + MulUint(mult, digits[0])) % ULONG_SIZE, MulUint(mult, base))
    ensures NoOverflow(digits, base, ucs, mult)
         <==> && (digits[0] == 0 || mult <= (UINT_SIZE - 1) / digits[0])
              && ucs <= ULONG_SIZE - 1 - MulUint(mult, digits[0])
              && mult <= (UINT_SIZE - 1) / base
              && NoOverflow(digits[1..], base, (ucs + MulUint(mult, digits[0])) % ULONG_SIZE, MulUint(mult, base))
  {
    hide MulUint;
  }

  lemma Regroup(p: nat, base: nat, d: nat, v: nat)
    ensures p * (d + base * v) == p * d + (p * base) * v
  {
    assert p * (d + base * v) == p * d + p * (base * v);
    assert p * (base * v) == (p * base) * v;
  }

  /** After `k` digits: the loop computes the positional value, and all its assertions hold, exactly
      up to the digit limit. */
  lemma {:induction false} SumIsPositional(digits: seq<nat>, base: nat, k: nat, ucs: nat)
    requires base == 10 || base == 16
    requires forall i | 0 <= i < |digits| :: digits[i] < base
    requires k <= DigitLimit(base) && ucs < Pow(base, k)
    ensures NoOverflow(digits, base, ucs, Pow(base, k)) <==> k + |digits| <= DigitLimit(base)
    ensures k + |digits| <= DigitLimit(base) ==>
              Sum(digits, base, ucs, Pow(base, k)) == ucs + Pow(base, k) * Positional(digits, base)
    decreases digits
  {
    if digits != [] {
      var p, d := Pow(base, k), digits[0];
      if k == DigitLimit(base) {
        TopPower(base);
      } else {
        PowLimit(base, k);
        SumStep(digits, base, ucs, p, ucs + p * d, p * base);
        assert Pow(base, k + 1) == p * base;
        SumIsPositional(digits[1..], base, k + 1, ucs + p * d);
        Regroup(p, base, d, Positional(digits[1..], base));
      }
    }
  }

  lemma UnfoldBackward(t: string, lo: nat, q: nat, base: nat)
    requires lo <= q < |t| && (base == 10 || base == 16) && t[lo] == Stop(base)
    ensures t[q] == Stop(base) ==> BackwardDigits(t, lo, q, base) == Some([])
    ensures t[q] != Stop(base) ==>
              var d, rest := Digit(t[q], base), BackwardDigits(t, lo, q - 1, base);
              BackwardDigits(t, lo, q, base) == if d.None? || rest.None? then None else Some([d.value] + rest.value)
  {
  }

  lemma StopIsNoDigit(base: nat)
    requires base == 10 || base == 16
    ensures Digit(Stop(base), base) == None
  {
  }

  lemma Multiple(x: int, k: int)
    ensures (x + UINT_SIZE * k) % UINT_SIZE == x % UINT_SIZE
  {
  }

  /** One turn of the accumulation, modulo the size of the machine word. */
  lemma WrapStep(ucs: nat, mult: nat, base: nat, d: nat, v: nat)
    ensures ((ucs + MulUint(mult, d)) % ULONG_SIZE + MulUint(mult, base) * v) % ULONG_SIZE
            == (ucs + mult * (d + base * v)) % ULONG_SIZE
  {
    var a, b, n := mult * d, mult * base, UINT_SIZE;
    var c := ucs + a % n;
    assert a == a % n + n * (a / n) && b == b % n + n * (b / n) && c == c % n + n * (c / n);
    Regroup(mult, base, d, v);
    var left, k := c % n + (b % n) * v, a / n + c / n + (b / n) * v;
    assert b * v == (b % n) * v + n * ((b / n) * v) by { Spread(b % n, b / n, n, v); }
    assert ucs + mult * (d + base * v) == left + n * k;
    Multiple(left, k);
  }

  lemma Spread(r: nat, q: nat, n: nat, v: nat)
    ensures (r + n * q) * v == r * v + n * (q * v)
  {
    assert (r + n * q) * v == r * v + n * q * v;
  }

  /** For any number of digits the accumulation is their positional value, modulo the size of the machine word. */
  lemma {:induction false} SumWraps(digits: seq<nat>, base: nat, ucs: nat, mult: nat)
    requires ucs < ULONG_SIZE
    ensures Sum(digits, base, ucs, mult) == (ucs + mult * Positional(digits, base)) % ULONG_SIZE
    decreases digits
  {
    hide MulUint;
    if digits != [] {
      var sum, next := (ucs + MulUint(mult, digits[0])) % ULONG_SIZE, MulUint(mult, base);
      var v := Positional(digits[1..], base);
      SumWraps(digits[1..], base, sum, next);
      WrapStep(ucs, mult, base, digits[0], v);
      assert Positional(digits, base) == digits[0] + base * v;
    } else {
      assert mult * Positional(digits, base) == 0;
    }
  }

  /** The scan meets the digits of an all-digit body, and their positional value is the body's. */
  lemma {:induction false} BackwardDigitsOf(t: string, lo: nat, q: nat, base: nat)
    requires lo <= q < |t| && (base == 10 || base == 16) && t[lo] == Stop(base)
    requires AllDigits(t[lo + 1..q + 1], base)
    ensures var r := BackwardDigits(t, lo, q, base);
            r.Some? && |r.value| == q - lo && Positional(r.value, base) == NumberOf(t[lo + 1..q + 1], base)
    decreases q
  {
    hide BackwardDigits, Digit, Stop;
    var body := t[lo + 1..q + 1];
    UnfoldBackward(t, lo, q, base);
    if lo < q {
      var init := t[lo + 1..q];
      StopIsNoDigit(base);
      assert Digit(body[|body| - 1], base).Some?;
      assert body[|body| - 1] == t[q] && body[..|body| - 1] == init;
      assert AllDigits(init, base) by {
        forall i | 0 <= i < |init| ensures Digit(init[i], base).Some? {
          assert init[i] == body[i];
        }
      }
      BackwardDigitsOf(t, lo, q - 1, base);
      assert BackwardDigits(t, lo, q, base).value[1..] == BackwardDigits(t, lo, q - 1, base).value;
    } else {
      assert body == "";
    }
  }

  /** Up to one digit gives less than one byte. */
  lemma SumSmall(digits: seq<nat>, base: nat)
    requires |digits| <= 1 && (base == 10 || base == 16)
    requires forall i | 0 <= i < |digits| :: digits[i] < base
    ensures Sum(digits, base, 0, 1) < 16
  {
  }

  // ----- Whole references -----

  /** The outcome of `GetCharacterRef`: a null pointer, or where to go on and the bytes to write. */
  datatype Ref = NotARef | Ref(next: nat, bytes: string)

  /** The reference whose body starts at `from`: the digits before the next semicolon. */
  function RefFrom(t: string, from: nat, base: nat): (r: Ref)
    requires 1 <= from <= |t| && (base == 10 || base == 16) && t[from - 1] == Stop(base)
    ensures r.Ref? ==> from < r.next <= |t| && |r.bytes| <= 4 && |r.bytes| <= r.next - from + 2
  {
    match FindChar(t, from, ';')
    case None => NotARef
    case Some(k) =>
      match BackwardDigits(t, from - 1, k - 1, base)
      case None => NotARef
      case Some(digits) =>
        if |digits| <= 1 then SumSmall(digits, base); Ref(k + 1, Encode(Sum(digits, base, 0, 1)))
        else Ref(k + 1, Encode(Sum(digits, base, 0, 1)))
  }

  /** What `GetCharacterRef` does at the start of the text `t`, which begins with `&#`. A text of just
      these two gives no bytes and skips the `&` alone. */
  function CharRefAt(t: string): (r: Ref)
    requires |t| >= 2 && t[1] == '#'
    ensures r.Ref? ==> 0 < r.next <= |t| && |r.bytes| <= r.next && |r.bytes| <= 4
  {
    if |t| == 2 then Ref(1, "")
    else if t[2] == 'x' then
      if |t| == 3 then NotARef else RefFrom(t, 3, 16)
    else RefFrom(t, 2, 10)
  }

  function Prefix(base: nat): string {
    if base == 16 then "&#x" else "&#"
  }

  /** A reference to any digit string denotes the encoding of its number, modulo the size of the machine word, and
      within the digit limit nothing is lost to that. */
  lemma CharRefDenotes(t: string, body: string, base: nat)
    requires (base == 10 || base == 16) && AllDigits(body, base)
    requires Has(t, 0, Prefix(base) + body + ";")
    ensures CharRefAt.requires(t)
    ensures CharRefAt(t) == Ref(|Prefix(base)| + |body| + 1, Encode(NumberOf(body, base) % ULONG_SIZE))
    ensures |body| <= DigitLimit(base) ==> NumberOf(body, base) < ULONG_SIZE
  {
    hide Encode, NumberOf, RefFrom, Has;
    var head := Prefix(base);
    HasConcat(t, 0, head + body, ";");
    HasConcat(t, 0, head, body);
    var from := |head|;
    HasAt(t, 0, head, 1);
    HasAt(t, 0, head, |head| - 1);
    HasInside(t, 0, head);
    HasInside(t, from + |body|, ";");
    HasAt(t, from + |body|, ";", 0);
    if body != "" {
      HasAt(t, from, body, 0);
      assert Digit(body[0], base).Some?;
    }
    BodyDenotes(t, from, body, base);
    NumberBound(body, base);
  }

  lemma {:induction false} NumberBound(body: string, base: nat)
    requires (base == 10 || base == 16) && AllDigits(body, base)
    ensures NumberOf(body, base) < Pow(base, |body|)
    ensures |body| <= DigitLimit(base) ==> NumberOf(body, base) < ULONG_SIZE
  {
    if body != "" {
      var init := body[..|body| - 1];
      assert Digit(body[|body| - 1], base).Some?;
      NumberBound(init, base);
      assert Pow(base, |body|) == base * Pow(base, |init|);
      MulMonotone(base, NumberOf(init, base) + 1, Pow(base, |init|));
      if |body| <= DigitLimit(base) { PowLimit(base, |init|); }
    }
  }

  lemma BodyDenotes(t: string, from: nat, body: string, base: nat)
    requires 1 <= from <= |t| && (base == 10 || base == 16) && t[from - 1] == Stop(base)
    requires AllDigits(body, base)
    requires Has(t, from, body) && Has(t, from + |body|, ";")
    ensures RefFrom(t, from, base) == Ref(from + |body| + 1, Encode(NumberOf(body, base) % ULONG_SIZE))
  {
    hide Encode, Sum, NumberOf, BackwardDigits, FindChar, AllDigits, Has;
    var k := from + |body|;
    HasInside(t, from, body);
    HasInside(t, k, ";");
    FirstSemicolon(t, from, body, base);
    DigitsDenote(t, from, k, base);
  }

  lemma FirstSemicolon(t: string, from: nat, body: string, base: nat)
    requires (base == 10 || base == 16) && AllDigits(body, base)
    requires Has(t, from, body) && Has(t, from + |body|, ";")
    ensures from <= |t| && FindChar(t, from, ';') == Some(from + |body|)
    ensures body != "" ==> t[from] != ';'
  {
    hide FindChar, Has;
    var k := from + |body|;
    HasInside(t, from, body);
    HasInside(t, k, ";");
    HasAt(t, k, ";", 0);
    forall j | from <= j < k ensures t[j] != ';' {
      HasAt(t, from, body, j - from);
      assert Digit(body[j - from], base).Some?;
    }
    FirstChar(t, from, ';', k);
  }

  lemma DigitsDenote(t: string, from: nat, k: nat, base: nat)
    requires 1 <= from <= k < |t| && (base == 10 || base == 16) && t[from - 1] == Stop(base)
    requires AllDigits(t[from..k], base)
    ensures var r := BackwardDigits(t, from - 1, k - 1, base);
            r.Some? && Sum(r.value, base, 0, 1) == NumberOf(t[from..k], base) % ULONG_SIZE
  {
    hide NumberOf, BackwardDigits, Sum;
    BackwardDigitsOf(t, from - 1, k - 1, base);
    SumWraps(BackwardDigits(t, from - 1, k - 1, base).value, base, 0, 1);
  }

  lemma {:induction false} FirstChar(t: string, from: nat, c: char, k: nat)
    requires from <= k < |t| && t[k] == c
    requires forall j | from <= j < k :: t[j] != c
    ensures FindChar(t, from, c) == Some(k)
    decreases k - from
  {
    if from < k { FirstChar(t, from + 1, c, k); }
  }

  /** `strchr` in the text `t` at `lo`, ended by a NUL. */
  method Strchr(buf: array<char>, ghost lo: nat, ghost hi: nat, from: nat, c: char) returns (k: Option<nat>)
    requires lo <= from <= hi < buf.Length && c != NUL
    requires buf[hi] == NUL && NulFree(buf[lo..hi])
    ensures var r := FindChar(buf[lo..hi], from - lo, c);
            k == if r.None? then None else Some(lo + r.value)
  {
    ghost var t := buf[lo..hi];
    var q := from;
    while buf[q] != c && buf[q] != NUL
      invariant from <= q <= hi
      invariant FindChar(t, from - lo, c) == FindChar(t, q - lo, c)
      decreases hi - q
    {
      assert buf[q] == t[q - lo];
      q := q + 1;
    }
    assert q < hi ==> t[q - lo] in t;
    k := if buf[q] == c then Some(q) else None;
  }

  /** The backward loop over the digits up to `last`, down to the stop character. */
  method AccumulateDigits(buf: array<char>, ghost lo: nat, ghost hi: nat, ghost first: nat, last: nat, base: nat)
    returns (ucs: Option<nat>)
    requires lo <= first <= last < hi <= buf.Length
    requires (base == 10 || base == 16) && buf[first] == Stop(base)
    ensures var r := BackwardDigits(buf[lo..hi], first - lo, last - lo, base);
            ucs == if r.None? then None else Some(Sum(r.value, base, 0, 1))
  {
    hide MulUint, BackwardDigits;
    ghost var t := buf[lo..hi];
    ghost var all := BackwardDigits(t, first - lo, last - lo, base);
    var sum: nat, mult: nat, q := 0, 1, last;
    while buf[q] != Stop(base)
      invariant first <= q <= last
      invariant var rest := BackwardDigits(t, first - lo, q - lo, base);
                && rest.None? == all.None?
                && (all.Some? ==> Sum(rest.value, base, sum, mult) == Sum(all.value, base, 0, 1))
      decreases q
    {
      assert t[q - lo] == buf[q];
      UnfoldBackward(t, first - lo, q - lo, base);
      match Digit(buf[q], base) {
        case None =>
          return None;
        case Some(digit) =>
          ghost var rest := BackwardDigits(t, first - lo, q - lo, base);
          ghost var next := BackwardDigits(t, first - lo, q - 1 - lo, base);
          assert rest.Some? ==> rest.value[1..] == next.value;
          var digitScaled := MulUint(mult, digit);
          sum := (sum + digitScaled) % ULONG_SIZE;
      }
      mult := MulUint(mult, base);
      q := q - 1;
    }
    assert t[q - lo] == buf[q];
    UnfoldBackward(t, first - lo, q - lo, base);
    ucs := Some(sum);
  }

  /** How the C function reports an outcome: a pointer, null for no reference, and `length` bytes. */
  ghost predicate Reports(r: Ref, lo: nat, adjusted: Option<nat>, length: nat, value: array<char>)
    reads value
  {
    match r
    case NotARef => adjusted == None
    case Ref(next, bytes) =>
      adjusted == Some(lo + next) && length == |bytes| <= value.Length && value[..length] == bytes
  }

  /** The part of `GetCharacterRef` after the prefix, the same for both bases: the bytes of the
      reference go to `value`. */
  method ReadReference(buf: array<char>, ghost lo: nat, ghost hi: nat, from: nat, base: nat, value: array<char>)
    returns (adjusted: Option<nat>, length: nat)
    requires lo < from <= hi < buf.Length && buf[hi] == NUL && NulFree(buf[lo..hi])
    requires (base == 10 || base == 16) && buf[from - 1] == Stop(base)
    requires value != buf && value.Length >= 4
    modifies value
    ensures Reports(RefFrom(buf[lo..hi], from - lo, base), lo, adjusted, length, value)
  {
    hide Sum, Encode, BackwardDigits, FindChar;
    length := 0;
    var q := Strchr(buf, lo, hi, from, ';');
    if q == None {
      return None, 0;
    }
    assert buf[lo..hi][from - 1 - lo] == buf[from - 1];
    var ucs := AccumulateDigits(buf, lo, hi, from - 1, q.value - 1, base);
    if ucs == None {
      return None, 0;
    }
    length := ConvertUTF32ToUTF8(ucs.value, value);
    adjusted := Some(q.value + 1);
  }

  /** `GetCharacterRef` on the text from `p` to the NUL at `hi`. */
  method GetCharacterRef(buf: array<char>, ghost hi: nat, p: nat, value: array<char>)
    returns (adjusted: Option<nat>, length: nat)
    requires p + 1 < hi < buf.Length && buf[p + 1] == '#'
    requires buf[hi] == NUL && NulFree(buf[p..hi])
    requires value != buf && value.Length >= 4
    modifies value
    ensures Reports(CharRefAt(buf[p..hi]), p, adjusted, length, value)
  {
    hide RefFrom;
    ghost var t := buf[p..hi];
    assert p + 2 < hi ==> buf[p + 2] == t[2] && t[2] in t;
    if buf[p + 2] == NUL {
      return Some(p + 1), 0;
    }
    if buf[p + 2] == 'x' {
      assert p + 3 < hi ==> buf[p + 3] == t[3] && t[3] in t;
      if buf[p + 3] == NUL {
        return None, 0;
      }
      adjusted, length := ReadReference(buf, p, hi, p + 3, 16, value);
    } else {
      adjusted, length := ReadReference(buf, p, hi, p + 2, 10, value);
    }
  }
}
