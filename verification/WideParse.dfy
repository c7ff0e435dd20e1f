/** `ntdll_wcstol` and `ntdll_wcstoul`: 32-bit parse loops that saturate instead of
    overflowing. A string is the characters before the terminator. */
module WideParse {
  import opened Basics

  type WChar = c: int | 0 <= c < 0x1_0000
  type Long = n: int | -0x8000_0000 <= n <= 0x7fff_ffff
  type ULong = n: int | 0 <= n <= 0xffff_ffff

  const MAXLONG: int := 0x7fff_ffff
  const MINLONG: int := -0x8000_0000
  const MAXDWORD: int := 0xffff_ffff

  function At(s: seq<WChar>, i: nat): WChar {
    if i < |s| then s[i] else 0
  }

  predicate IsSpace(c: WChar) {
    9 <= c <= 13 || c == 32 || c == 0xa0
  }

  /** Value of an alphanumeric character, -1 for any other. */
  function DigitOf(c: WChar): (v: int)
    ensures -1 <= v < 36
  {
    if '0' as int <= c <= '9' as int then c - '0' as int
    else if 'A' as int <= c <= 'Z' as int then c - 'A' as int + 10
    else if 'a' as int <= c <= 'z' as int then c - 'a' as int + 10
    else -1
  }

  predicate IsDigit(c: WChar, base: nat) {
    0 <= DigitOf(c) < base
  }

  // ----- the specification

  function SkipSpaces(s: seq<WChar>, i: nat): (j: nat)
    ensures i <= j && !IsSpace(At(s, j)) && forall k :: i <= k < j ==> IsSpace(At(s, k))
    ensures i <= |s| ==> j <= |s|
    decreases |s| - i
  {
    if i < |s| && IsSpace(s[i]) then SkipSpaces(s, i + 1) else i
  }

  datatype Prefix = Prefix(negative: bool, base: nat, start: nat)

  /** Sign, effective base, and where the digits begin. */
  function PrefixOf(s: seq<WChar>, base: nat): (p: Prefix)
    ensures base <= 36 && base != 1 ==> 2 <= p.base <= 36
    ensures p.start <= |s|
  {
    var i := SkipSpaces(s, 0);
    var negative := At(s, i) == '-' as int;
    var j := if negative || At(s, i) == '+' as int then i + 1 else i;
    if HexMark(s, j, base) then Prefix(negative, 16, j + 2)
    else if base == 0 then Prefix(negative, if At(s, j) == '0' as int then 8 else 10, j)
    else Prefix(negative, base, j)
  }

  predicate HexMark(s: seq<WChar>, j: nat, base: nat) {
    (base == 0 || base == 16) && At(s, j) == '0' as int && (At(s, j + 1) == 'x' as int || At(s, j + 1) == 'X' as int)
  }

  /** End of the longest run of digits from `i`. */
  function RunEnd(s: seq<WChar>, i: nat, base: nat): (e: nat)
    requires i <= |s|
    ensures i <= e <= |s|
    ensures forall k :: i <= k < e ==> IsDigit(s[k], base)
    ensures e < |s| ==> !IsDigit(s[e], base)
    decreases |s| - i
  {
    if i < |s| && IsDigit(s[i], base) then RunEnd(s, i + 1, base) else i
  }

  /** The number written by the digits in [i, j), with no bound. */
  function Value(s: seq<WChar>, i: nat, j: nat, base: nat): nat
    requires i <= j <= |s| && forall k :: i <= k < j ==> IsDigit(s[k], base)
  {
    if i == j then 0
    else
      assert IsDigit(s[j - 1], base);
      var high: nat := Value(s, i, j - 1, base);
      NatProduct(high, base);
      high * base + DigitOf(s[j - 1])
  }

  function Signed(negative: bool, n: nat): int {
    if negative then -(n as int) else n
  }

  function Clamp(n: int, lo: int, hi: int): int {
    if n < lo then lo else if n > hi then hi else n
  }

  /** Returned value and, unless the base is refused, where `*end` points. */
  function ParseLong(s: seq<WChar>, base: int): (int, Option<nat>) {
    if base < 0 || base == 1 || base > 36 then (0, None)
    else
      var p := PrefixOf(s, base);
      var e := RunEnd(s, p.start, p.base);
      var v := Value(s, p.start, e, p.base);
      (Clamp(Signed(p.negative, v), MINLONG, MAXLONG), Some(if e == p.start then 0 else e))
  }

  /** A minus sign negates the clamped value modulo 2^32. */
  function ParseULong(s: seq<WChar>, base: int): (int, Option<nat>) {
    if base < 0 || base == 1 || base > 36 then (0, None)
    else
      var p := PrefixOf(s, base);
      var e := RunEnd(s, p.start, p.base);
      var v := Clamp(Value(s, p.start, e, p.base), 0, MAXDWORD);
      (if p.negative then (0x1_0000_0000 - v) % 0x1_0000_0000 else v, Some(if e == p.start then 0 else e))
  }

  // ----- one step of the loop

  lemma ProductExceeds(r: nat, base: nat, limit: nat)
    requires base >= 2
    ensures r > limit / base <==> r * base > limit
  {
    var q := limit / base;
    assert limit == base * q + limit % base;
    if r > q {
      Monotone(q + 1, r, base);
      assert (q + 1) * base == q * base + base;
    } else {
      Monotone(r, q, base);
    }
  }

  /** From the value so far clamped at `limit`, the guarded step gives the next value
      clamped at `limit`; and past the guard the product fits. */
  lemma SaturatingStep(v: nat, r: nat, d: nat, base: nat, limit: nat)
    requires 2 <= base <= 36 && d < base && limit >= 36
    requires r == Clamp(v, 0, limit)
    ensures r <= limit / base ==> r * base <= limit
    ensures Clamp(v * base + d, 0, limit) == if r > limit / base || r * base > limit - d then limit else r * base + d
  {
    ProductExceeds(r, base, limit);
    if v > limit {
      PastLimit(v, d, base, limit);
    }
  }

  lemma PastLimit(v: nat, d: nat, base: nat, limit: nat)
    requires 2 <= base && v > limit >= 1
    ensures limit * base > limit && v * base + d > limit
  {
    Monotone(2, base, limit);
    Monotone(2, base, v);
  }

  lemma TruncatedQuotient(base: nat)
    requires base >= 2
    ensures Quotient(MINLONG, base) == -(0x8000_0000 / base)
  {
  }

  /** C's division, which truncates towards zero. */
  function Quotient(n: int, d: int): int
    requires d > 0
  {
    if n >= 0 then n / d else -(-n / d)
  }

  lemma RunEndStep(s: seq<WChar>, i: nat, base: nat)
    requires i < |s| && IsDigit(s[i], base)
    ensures RunEnd(s, i, base) == RunEnd(s, i + 1, base)
  {
  }

  lemma ValueStep(s: seq<WChar>, i: nat, j: nat, base: nat)
    requires i <= j < |s| && forall k :: i <= k <= j ==> IsDigit(s[k], base)
    ensures Value(s, i, j + 1, base) == Value(s, i, j, base) * base + DigitOf(s[j])
  {
  }

  lemma NoDigits(s: seq<WChar>, i: nat, base: nat)
    requires i <= |s|
    ensures Value(s, i, i, base) == 0 == Clamp(0, MINLONG, MAXLONG) == Clamp(0, 0, MAXDWORD)
  {
  }

  // ----- the loops

  /** The prefix part shared by both functions. */
  method ScanPrefix(s: seq<WChar>, base: nat) returns (negative: bool, base': nat, start: nat)
    requires base <= 36 && base != 1
    ensures Prefix(negative, base', start) == PrefixOf(s, base)
  {
    var i := 0;
    while IsSpace(At(s, i))
      invariant i <= |s| && SkipSpaces(s, i) == SkipSpaces(s, 0)
      decreases |s| - i
    {
      i := i + 1;
    }
    negative, base' := false, base;
    if At(s, i) == '-' as int {
      negative := true;
      i := i + 1;
    } else if At(s, i) == '+' as int {
      i := i + 1;
    }
    if (base' == 0 || base' == 16) && At(s, i) == '0' as int && (At(s, i + 1) == 'x' as int || At(s, i + 1) == 'X' as int) {
      base' := 16;
      i := i + 2;
    }
    if base' == 0 {
      base' := if At(s, i) != '0' as int then 10 else 8;
    }
    start := i;
  }

  /** One digit into a signed result. Every product and difference the C expression
      evaluates is a 32-bit value. */
  method AccumulateLong(ret: Long, digit: nat, base: nat, negative: bool, ghost before: nat) returns (ret': Long)
    requires 2 <= base <= 36 && digit < base && ret == Clamp(Signed(negative, before), MINLONG, MAXLONG)
    ensures ret' == Clamp(Signed(negative, before * base + digit), MINLONG, MAXLONG)
  {
    ghost var limit: nat := if negative then 0x8000_0000 else 0x7fff_ffff;
    ghost var r: int := ret;
    ghost var magnitude: nat := if negative then -r else r;
    SaturatingStep(before, magnitude, digit, base, limit);
    TruncatedQuotient(base);
    assert ret * base == Signed(negative, magnitude * base);
    var v: int := Signed(negative, digit);
    var saturated := if negative then ret < Quotient(MINLONG, base) else ret > Quotient(MAXLONG, base);
    if !saturated {
      var product: Long := ret * base;
      var room: Long := if negative then MINLONG - v else MAXLONG - v;
      saturated := if negative then product < room else product > room;
    }
    if saturated {
      ret' := if negative then MINLONG else MAXLONG;
    } else {
      ret' := ret * base + v;
    }
  }

  method AccumulateULong(ret: ULong, digit: nat, base: nat, ghost before: nat) returns (ret': ULong)
    requires 2 <= base <= 36 && digit < base && ret == Clamp(before, 0, MAXDWORD)
    ensures ret' == Clamp(before * base + digit, 0, MAXDWORD)
  {
    SaturatingStep(before, ret, digit, base, MAXDWORD);
    var saturated := ret > MAXDWORD / base;
    if !saturated {
      var product: ULong := ret * base;
      var room: ULong := MAXDWORD - digit;
      saturated := product > room;
    }
    ret' := if saturated then MAXDWORD else ret * base + digit;
  }

  method Wcstol(s: seq<WChar>, base: int) returns (ret: Long, end: Option<nat>)
    ensures (ret, end) == ParseLong(s, base)
    ensures base < 0 || base == 1 || base > 36 ==> ret == 0 && end == None
  {
    hide RunEnd, PrefixOf, Value, Clamp;
    ret, end := 0, None;
    if base < 0 || base == 1 || base > 36 {
      return;
    }
    var negative, b, start := ScanPrefix(s, base);
    var i, empty := start, true;
    ghost var stop := RunEnd(s, start, b);
    NoDigits(s, start, b);
    while At(s, i) != 0
      invariant start <= i <= stop && RunEnd(s, i, b) == stop
      invariant ret == Clamp(Signed(negative, Value(s, start, i, b)), MINLONG, MAXLONG)
      invariant empty <==> i == start
      decreases |s| - i
    {
      var v: int := DigitOf(s[i]);
      if v < 0 || v >= b {
        break;
      }
      RunEndStep(s, i, b);
      ValueStep(s, start, i, b);
      ret := AccumulateLong(ret, v, b, negative, Value(s, start, i, b));
      i := i + 1;
      empty := false;
    }
    end := Some(if empty then 0 else i);
  }

  method Wcstoul(s: seq<WChar>, base: int) returns (ret: ULong, end: Option<nat>)
    ensures (ret, end) == ParseULong(s, base)
    ensures base < 0 || base == 1 || base > 36 ==> ret == 0 && end == None
  {
    hide RunEnd, PrefixOf, Value, Clamp;
    ret, end := 0, None;
    if base < 0 || base == 1 || base > 36 {
      return;
    }
    var negative, b, start := ScanPrefix(s, base);
    var i, empty := start, true;
    ghost var stop := RunEnd(s, start, b);
    NoDigits(s, start, b);
    while At(s, i) != 0
      invariant start <= i <= stop && RunEnd(s, i, b) == stop
      invariant ret == Clamp(Value(s, start, i, b), 0, MAXDWORD)
      invariant empty <==> i == start
      decreases |s| - i
    {
      var v := DigitOf(s[i]);
      if v < 0 || v >= b {
        break;
      }
      RunEndStep(s, i, b);
      ValueStep(s, start, i, b);
      ret := AccumulateULong(ret, v, b, Value(s, start, i, b));
      i := i + 1;
      empty := false;
    }
    end := Some(if empty then 0 else i);
    ret := if negative then (0x1_0000_0000 - ret) % 0x1_0000_0000 else ret;
  }

  // ----- the specification against a printer

  function DigitChar(d: nat, upper: bool): WChar
    requires d < 36
  {
    if d < 10 then '0' as int + d else if upper then 'A' as int + d - 10 else 'a' as int + d - 10
  }

  /** `n` written in `base`, most significant digit first, in upper or lower case. */
  function Render(n: nat, base: nat, upper: bool): (s: seq<WChar>)
    requires 2 <= base <= 36
    ensures |s| > 0
    ensures forall k :: 0 <= k < |s| ==> IsDigit(s[k], base)
    decreases n
  {
    if n < base then [DigitChar(n, upper)]
    else
      QuotientSmaller(n, base);
      Render(n / base, base, upper) + [DigitChar(n % base, upper)]
  }

  lemma QuotientSmaller(n: nat, base: nat)
    requires 2 <= base <= n
    ensures 0 < n / base < n
  {
  }

  lemma {:induction false} ValueOfPrefix(a: seq<WChar>, b: seq<WChar>, j: nat, base: nat)
    requires j <= |a| && forall k :: 0 <= k < j ==> IsDigit(a[k], base)
    ensures Value(a + b, 0, j, base) == Value(a, 0, j, base)
  {
    if j > 0 {
      ValueOfPrefix(a, b, j - 1, base);
    }
  }

  lemma AppendDigit(high: seq<WChar>, last: WChar, base: nat)
    requires (forall k :: 0 <= k < |high| ==> IsDigit(high[k], base)) && IsDigit(last, base)
    ensures Value(high + [last], 0, |high| + 1, base) == Value(high, 0, |high|, base) * base + DigitOf(last)
  {
    ValueOfPrefix(high, [last], |high|, base);
  }

  lemma {:induction false} ValueOfRender(n: nat, base: nat, upper: bool)
    requires 2 <= base <= 36
    ensures Value(Render(n, base, upper), 0, |Render(n, base, upper)|, base) == n
    decreases n
  {
    if n < base {
      assert Value(Render(n, base, upper), 0, 0, base) == 0;
    } else {
      hide Value, Render, DigitChar, DigitOf;
      QuotientSmaller(n, base);
      RenderStep(n, base, upper);
      ValueOfRender(n / base, base, upper);
      AppendDigit(Render(n / base, base, upper), DigitChar(n % base, upper), base);
      Recombine(n, base, upper);
    }
  }

  lemma RenderStep(n: nat, base: nat, upper: bool)
    requires 2 <= base <= 36 && n >= base
    ensures n / base >= 0 && n % base < base && IsDigit(DigitChar(n % base, upper), base)
    ensures Render(n, base, upper) == Render(n / base, base, upper) + [DigitChar(n % base, upper)]
  {
  }

  lemma Recombine(n: nat, base: nat, upper: bool)
    requires 2 <= base <= 36
    ensures n / base * base + DigitOf(DigitChar(n % base, upper)) == n
  {
  }

  /** A leading zero adds nothing. */
  lemma {:induction false} LeadingZero(s: seq<WChar>, j: nat, base: nat)
    requires j <= |s| && base > 0 && forall k :: 0 <= k < j ==> IsDigit(s[k], base)
    ensures var z := ['0' as int] + s;
            (forall k :: 0 <= k < j + 1 ==> IsDigit(z[k], base)) && Value(z, 0, j + 1, base) == Value(s, 0, j, base)
  {
    if j > 0 {
      LeadingZero(s, j - 1, base);
    } else {
      assert Value(['0' as int] + s, 0, 0, base) == 0;
    }
  }

  /** Tab, line feed, vertical tab, form feed, carriage return, blank, no-break blank. */
  predicate Blank(c: WChar) {
    c == 9 || c == 10 || c == 11 || c == 12 || c == 13 || c == 32 || c == 160
  }

  /** What follows is no digit of `base`. */
  predicate NumberEnds(rest: seq<WChar>, base: nat) {
    rest != [] ==>
      var c: int := rest[0];
      !(48 <= c <= 57 && c - 48 < base) && !(65 <= c <= 90 && c - 55 < base) && !(97 <= c <= 122 && c - 87 < base)
  }

  /** How the number's base may be marked: not at all, by "0x" or "0X" in base 16, and in
      base 0 by "0x", by "0", or by neither for base 10. */
  predicate Marked(mark: seq<WChar>, base: nat, digits: nat, n: nat, rest: seq<WChar>) {
    || (mark == [] && base == digits && (base == 16 && n == 0 && rest != [] ==> rest[0] != 120 && rest[0] != 88))
    || ((mark == [48, 120] || mark == [48, 88]) && (base == 0 || base == 16) && digits == 16)
    || (mark == [48] && base == 0 && digits == 8)
    || (mark == [] && base == 0 && digits == 10 && n > 0)
  }

  /** Parsing what a printer wrote, blanks, sign and mark included, in any base and either
      case, followed by anything that is not a digit, gives the number clamped to the
      type and stops right after it. */
  lemma ParseOfRendered(blanks: seq<WChar>, sign: seq<WChar>, mark: seq<WChar>, n: nat, digits: nat, base: nat, upper: bool, rest: seq<WChar>)
    requires 2 <= digits <= 36 && (forall k :: 0 <= k < |blanks| ==> Blank(blanks[k]))
    requires sign == [] || sign == ['+' as int] || sign == ['-' as int]
    requires Marked(mark, base, digits, n, rest) && NumberEnds(rest, digits)
    ensures var text, minus := blanks + sign + mark + Render(n, digits, upper), sign == ['-' as int];
            && ParseLong(text + rest, base) == (Clamp(Signed(minus, n), -0x8000_0000, 0x7fff_ffff), Some(|text|))
            && ParseULong(text + rest, base) ==
                 (var v := Clamp(n, 0, 0xffff_ffff); if minus then (0x1_0000_0000 - v) % 0x1_0000_0000 else v, Some(|text|))
  {
    hide Render, PrefixOf, ParseLong, ParseULong, Value, IsDigit, NumberEnds;
    var d := Render(n, digits, upper);
    EndsNumber(rest, digits);
    ValueOfRender(n, digits, upper);
    PrefixIs(blanks, sign, mark, d, n, digits, base, upper, rest);
    if mark == [48] {
      LeadingZero(d, |d|, digits);
      assert blanks + sign + mark + d == blanks + sign + ([48] + d);
      ParseOfDigits(blanks + sign, [48] + d, rest, n, digits, base, sign == ['-' as int]);
    } else {
      ParseOfDigits(blanks + sign + mark, d, rest, n, digits, base, sign == ['-' as int]);
    }
  }

  lemma EndsNumber(rest: seq<WChar>, base: nat)
    requires base <= 36
    ensures NumberEnds(rest, base) <==> (rest != [] ==> !IsDigit(rest[0], base))
  {
  }

  /** Once the prefix is known, the digits after it are what is parsed. */
  lemma ParseOfDigits(head: seq<WChar>, d: seq<WChar>, rest: seq<WChar>, n: nat, digits: nat, base: nat, minus: bool)
    requires base <= 36 && base != 1 && 2 <= digits <= 36 && |d| > 0
    requires (forall k :: 0 <= k < |d| ==> IsDigit(d[k], digits)) && Value(d, 0, |d|, digits) == n
    requires rest != [] ==> !IsDigit(rest[0], digits)
    requires PrefixOf(head + d + rest, base) == Prefix(minus, digits, |head|)
    ensures var text := head + d;
            && ParseLong(text + rest, base) == (Clamp(Signed(minus, n), -0x8000_0000, 0x7fff_ffff), Some(|text|))
            && ParseULong(text + rest, base) ==
                 (var v := Clamp(n, 0, 0xffff_ffff); if minus then (0x1_0000_0000 - v) % 0x1_0000_0000 else v, Some(|text|))
  {
    hide PrefixOf, Value, IsDigit, RunEnd;
    var s := head + d + rest;
    ValueShift(head, d, rest, |d|, digits);
    RunIs(s, |head|, |head| + |d|, digits);
  }

  lemma PrefixIs(blanks: seq<WChar>, sign: seq<WChar>, mark: seq<WChar>, d: seq<WChar>, n: nat, digits: nat, base: nat, upper: bool, rest: seq<WChar>)
    requires 2 <= digits <= 36 && d == Render(n, digits, upper) && (forall k :: 0 <= k < |blanks| ==> Blank(blanks[k]))
    requires sign == [] || sign == ['+' as int] || sign == ['-' as int]
    requires Marked(mark, base, digits, n, rest)
    ensures base <= 36 && base != 1
    ensures var start := |blanks| + |sign| + if mark == [48] then 0 else |mark|;
            PrefixOf(blanks + sign + mark + d + rest, base) == Prefix(sign == ['-' as int], digits, start)
  {
    hide Render, HexMark, SkipSpaces;
    var s, i, j := blanks + sign + mark + d + rest, |blanks|, |blanks| + |sign|;
    FirstIsDigit(n, digits, upper);
    assert At(s, j) == if mark == [] then d[0] else 48;
    assert sign != [] ==> At(s, i) == sign[0];
    assert !IsSpace(At(s, i));
    SkipIs(s, 0, i);
    var tail := mark + d + rest;
    assert s[j..] == tail;
    HexMarkIs(tail, s, j, base, mark, n, digits, upper, rest);
  }

  lemma FirstIsDigit(n: nat, base: nat, upper: bool)
    requires 2 <= base <= 36
    ensures var c := Render(n, base, upper)[0];
            IsDigit(c, base) && !IsSpace(c) && c != '+' as int && c != '-' as int && (n > 0 ==> c != 48)
  {
    hide Render;
    assert IsDigit(Render(n, base, upper)[0], base);
    if n > 0 {
      LeadingDigit(n, base, upper);
    }
  }

  lemma {:induction false} SkipIs(s: seq<WChar>, i: nat, e: nat)
    requires i <= e <= |s| && (forall k :: i <= k < e ==> Blank(s[k])) && !IsSpace(At(s, e))
    ensures SkipSpaces(s, i) == e
    decreases e - i
  {
    if i < e {
      SkipIs(s, i + 1, e);
    }
  }

  lemma HexMarkIs(tail: seq<WChar>, s: seq<WChar>, j: nat, base: nat, mark: seq<WChar>, n: nat, digits: nat, upper: bool, rest: seq<WChar>)
    requires 2 <= digits <= 36 && tail == mark + Render(n, digits, upper) + rest && j <= |s| && s[j..] == tail
    requires Marked(mark, base, digits, n, rest)
    ensures HexMark(s, j, base) <==> mark == [48, 120] || mark == [48, 88]
  {
    hide Render;
    var d := Render(n, digits, upper);
    assert At(s, j) == tail[0];
    assert |tail| > 1 ==> At(s, j + 1) == tail[1];
    assert IsDigit(d[0], digits);
    assert |d| > 1 ==> IsDigit(d[1], digits);
    if n > 0 {
      LeadingDigit(n, digits, upper);
    } else {
      ZeroIsOneDigit(digits, upper);
    }
  }

  lemma ZeroIsOneDigit(base: nat, upper: bool)
    requires 2 <= base <= 36
    ensures Render(0, base, upper) == [48]
  {
  }

  lemma {:induction false} LeadingDigit(n: nat, base: nat, upper: bool)
    requires n > 0 && 2 <= base <= 36
    ensures Render(n, base, upper)[0] != '0' as int
    decreases n
  {
    if n >= base {
      QuotientSmaller(n, base);
      LeadingDigit(n / base, base, upper);
    }
  }

  lemma {:induction false} RunIs(s: seq<WChar>, i: nat, e: nat, base: nat)
    requires i <= e <= |s| && (forall k :: i <= k < e ==> IsDigit(s[k], base)) && (e < |s| ==> !IsDigit(s[e], base))
    ensures RunEnd(s, i, base) == e
  {
  }

  lemma {:induction false} ValueShift(a: seq<WChar>, b: seq<WChar>, c: seq<WChar>, j: nat, base: nat)
    requires j <= |b| && forall k :: 0 <= k < |b| ==> IsDigit(b[k], base)
    ensures forall k :: |a| <= k < |a| + j ==> IsDigit((a + b + c)[k], base)
    ensures Value(a + b + c, |a|, |a| + j, base) == Value(b, 0, j, base)
  {
    if j > 0 {
      ValueShift(a, b, c, j - 1, base);
    }
  }

  /** What begins with neither a blank, nor a sign, nor a letter or digit is no number. */
  lemma JunkConsumesNothing(s: seq<WChar>, base: nat)
    requires base == 0 || 2 <= base <= 36
    requires s != [] ==> !Blank(s[0]) && s[0] != '+' as int && s[0] != '-' as int && NumberEnds(s, 36)
    ensures ParseLong(s, base) == ParseULong(s, base) == (0, Some(0))
  {
    EndsNumber(s, 36);
    var b := PrefixOf(s, base).base;
    RunIs(s, 0, 0, b);
    assert Value(s, 0, 0, b) == 0;
  }

  // ----- section 7.29.4.1.2 of ISO C11

  /** The sign is read and the digits, if any, begin at `j`. */
  function SignEnd(s: seq<WChar>): (j: nat) {
    var i := SkipSpaces(s, 0);
    if At(s, i) == '-' as int || At(s, i) == '+' as int then i + 1 else i
  }

  /** "0x" with no hexadecimal digit after it. */
  predicate BareHex(s: seq<WChar>, base: nat) {
    HexMark(s, SignEnd(s), base) && !IsDigit(At(s, SignEnd(s) + 2), 16)
  }

  /** In C11 "0x" belongs to the number only if a hexadecimal digit follows. */
  function C11Prefix(s: seq<WChar>, base: nat): (p: Prefix)
    ensures base <= 36 && base != 1 ==> 2 <= p.base <= 36
    ensures p.start <= |s|
  {
    var j := SignEnd(s);
    var negative := At(s, SkipSpaces(s, 0)) == '-' as int;
    if HexMark(s, j, base) && IsDigit(At(s, j + 2), 16) then Prefix(negative, 16, j + 2)
    else if base == 0 then Prefix(negative, if At(s, j) == '0' as int then 8 else 10, j)
    else Prefix(negative, base, j)
  }

  predicate C11Base(base: int) {
    base == 0 || 2 <= base <= 36
  }

  /** The number C11 reads, with no bound, and where it ends. */
  function C11Number(s: seq<WChar>, base: nat): (nat, Option<nat>)
    requires C11Base(base)
  {
    var p := C11Prefix(s, base);
    var e := RunEnd(s, p.start, p.base);
    (Value(s, p.start, e, p.base), Some(if e == p.start then 0 else e))
  }

  function C11Long(s: seq<WChar>, base: nat): (int, Option<nat>)
    requires C11Base(base)
  {
    var (v, end) := C11Number(s, base);
    (Clamp(Signed(C11Prefix(s, base).negative, v), MINLONG, MAXLONG), end)
  }

  /** Out of range is ULONG_MAX whatever the sign; in range, a minus sign negates in the
      unsigned type. */
  function C11ULong(s: seq<WChar>, base: nat): (int, Option<nat>)
    requires C11Base(base)
  {
    var (v, end) := C11Number(s, base);
    (if v > MAXDWORD then MAXDWORD else if C11Prefix(s, base).negative then (0x1_0000_0000 - v) % 0x1_0000_0000 else v, end)
  }

  /** A minus sign before a number no 32 bits hold. */
  predicate NegativeOverflow(s: seq<WChar>, base: nat)
    requires C11Base(base)
  {
    C11Prefix(s, base).negative && C11Number(s, base).0 > MAXDWORD
  }

  lemma PrefixesAgree(s: seq<WChar>, base: nat)
    requires C11Base(base) && !BareHex(s, base)
    ensures PrefixOf(s, base) == C11Prefix(s, base)
  {
  }

  /** Of a bare "0x" C11 takes the zero; the code takes nothing. */
  lemma BareHexPrefixConsumesNothing(s: seq<WChar>, base: nat)
    requires C11Base(base) && BareHex(s, base)
    ensures ParseLong(s, base) == ParseULong(s, base) == (0, Some(0))
    ensures C11Long(s, base) == C11ULong(s, base) == (0, Some(SignEnd(s) + 1))
  {
    var j, p := SignEnd(s), C11Prefix(s, base);
    RunIs(s, j + 2, j + 2, 16);
    assert IsDigit(s[j], p.base) && !IsDigit(s[j + 1], p.base);
    RunIs(s, j, j + 1, p.base);
    assert Value(s, j, j, p.base) == 0;
  }

  /** On every string and every base C11 defines, the signed parser is C11's exactly when
      there is no bare "0x". */
  lemma LongIsC11Iff(s: seq<WChar>, base: nat)
    requires C11Base(base)
    ensures ParseLong(s, base) == C11Long(s, base) <==> !BareHex(s, base)
  {
    if BareHex(s, base) {
      BareHexPrefixConsumesNothing(s, base);
    } else {
      PrefixesAgree(s, base);
    }
  }

  /** The unsigned one, exactly when there is none and no number out of range has a minus
      sign: of such a number the code makes 1. */
  lemma ULongIsC11Iff(s: seq<WChar>, base: nat)
    requires C11Base(base)
    ensures ParseULong(s, base) == C11ULong(s, base) <==> !BareHex(s, base) && !NegativeOverflow(s, base)
    ensures NegativeOverflow(s, base) ==> ParseULong(s, base).0 == 1 && C11ULong(s, base).0 == MAXDWORD
  {
    if BareHex(s, base) {
      BareHexPrefixConsumesNothing(s, base);
    } else {
      PrefixesAgree(s, base);
    }
  }
}
