/** Character and string helpers shared by the PHP side (where one char stands
    for one byte of UTF-8 text) and the JavaScript side (one char per code unit). */
module Strings {
  import Common

  /** Characters PHP's trim() removes by default. */
  predicate IsPhpTrimSpace(c: char) {
    c == ' ' || c == '\t' || c == '\n' || c == '\r' || c == '\0' || c == '\U{B}'
  }

  /** PCRE's `\s` without the UTF flag: space, tab, LF, VT, FF, CR. */
  predicate IsPcreSpace(c: char) {
    c == ' ' || '\t' <= c <= '\r'
  }

  /** Characters String.prototype.trim() removes: WhiteSpace and LineTerminator. */
  predicate IsJsSpace(c: char) {
    || '\t' <= c <= '\r' || c == ' ' || c == '\U{A0}' || c == '\U{1680}'
    || '\U{2000}' <= c <= '\U{200A}' || c == '\U{2028}' || c == '\U{2029}'
    || c == '\U{202F}' || c == '\U{205F}' || c == '\U{3000}' || c == '\U{FEFF}'
  }

  /** Every character of `s` satisfies `p`. */
  predicate All(s: string, p: char -> bool) {
    forall k :: 0 <= k < |s| ==> p(s[k])
  }

  /** First index at or after `i` whose character fails `p` (or |s|). */
  function SkipWhile(s: string, i: nat, p: char -> bool): (j: nat)
    requires i <= |s|
    decreases |s| - i
    ensures i <= j <= |s|
    ensures forall k :: i <= k < j ==> p(s[k])
    ensures j == |s| || !p(s[j])
  {
    if i < |s| && p(s[i]) then SkipWhile(s, i + 1, p) else i
  }

  /** SkipWhile stops exactly at the first failing index. */
  lemma {:induction false} SkipWhileUnique(s: string, i: nat, j: nat, p: char -> bool)
    requires i <= j <= |s|
    requires forall k :: i <= k < j ==> p(s[k])
    requires j == |s| || !p(s[j])
    ensures SkipWhile(s, i, p) == j
    decreases j - i
  {
    if i < j {
      SkipWhileUnique(s, i + 1, j, p);
    }
  }

  /** A slice of an embedded copy of `x` is the same slice of `x`. */
  lemma EmbeddedSlice<T>(s: seq<T>, a: nat, x: seq<T>, i: nat, k: nat)
    requires a + |x| <= |s| && s[a..a + |x|] == x && i <= k <= |x|
    ensures s[a + i..a + k] == x[i..k]
  {
    forall t | 0 <= t < k - i
      ensures s[a + i..a + k][t] == x[i..k][t]
    {
      assert s[a..a + |x|][i + t] == s[a + i + t];
    }
  }

  /** The tail of an embedded copy of `x` is the same tail of `x`. */
  lemma EmbeddedSuffix<T>(s: seq<T>, a: nat, x: seq<T>, i: nat)
    requires a + |x| <= |s| && s[a..a + |x|] == x && i <= |x|
    ensures s[a + i..a + |x|] == x[i..]
  {
    EmbeddedSlice(s, a, x, i, |x|);
    assert x[i..|x|] == x[i..];
  }

  /** Concatenation regroups freely. */
  lemma ConcatAssoc<T>(a: seq<T>, b: seq<T>, c: seq<T>)
    ensures a + (b + c) == (a + b) + c
  {
  }

  /** The middle part of a three-part concatenation, cut back out. */
  lemma MiddleSlice<T>(a: seq<T>, x: seq<T>, b: seq<T>)
    ensures (a + x + b)[|a|..|a| + |x|] == x
  {
  }

  /** A character absent from positions [i, j) is absent from that slice. */
  lemma NotInSlice(s: string, i: nat, j: nat, c: char)
    requires i <= j <= |s|
    requires forall k :: i <= k < j ==> s[k] != c
    ensures c !in s[i..j]
  {
    forall t | 0 <= t < j - i
      ensures s[i..j][t] != c
    {
      assert s[i..j][t] == s[i + t];
    }
  }

  /** The largest index k in [lo, hi) with p(s[k]), if any. */
  function LastWhere(s: string, lo: nat, hi: nat, p: char -> bool): (r: Common.Option<nat>)
    requires lo <= hi <= |s|
    decreases hi - lo
    ensures r.Some? ==> lo <= r.value < hi && p(s[r.value])
    ensures r.Some? ==> forall k :: r.value < k < hi ==> !p(s[k])
    ensures r.None? ==> forall k :: lo <= k < hi ==> !p(s[k])
  {
    if lo == hi then Common.None
    else if p(s[hi - 1]) then Common.Some(hi - 1)
    else LastWhere(s, lo, hi - 1, p)
  }

  predicate IsNewline(c: char) {
    c == '\n'
  }

  predicate NotNewline(c: char) {
    c != '\n'
  }

  function TrimStart(s: string, ws: char -> bool): (r: string)
    ensures |r| <= |s| && r == s[|s| - |r|..]
    ensures All(s[..|s| - |r|], ws)
    ensures r == [] || !ws(r[0])
  {
    s[SkipWhile(s, 0, ws)..]
  }

  function TrimEnd(s: string, ws: char -> bool): (r: string)
    ensures |r| <= |s| && r == s[..|r|]
    ensures All(s[|r|..], ws)
    ensures r == [] || !ws(r[|r| - 1])
  {
    if |s| > 0 && ws(s[|s| - 1]) then TrimEnd(s[..|s| - 1], ws) else s
  }

  /** Strip leading and trailing characters satisfying `ws`. */
  function TrimBy(s: string, ws: char -> bool): (r: string)
    ensures r == [] || (!ws(r[0]) && !ws(r[|r| - 1]))
  {
    TrimEnd(TrimStart(s, ws), ws)
  }

  /** The trimmed text is the slice of the original starting at `k`, with
      only trimmed characters around it. */
  lemma TrimBySlice(s: string, ws: char -> bool) returns (k: nat)
    ensures k + |TrimBy(s, ws)| <= |s| && s[k..k + |TrimBy(s, ws)|] == TrimBy(s, ws)
    ensures All(s[..k], ws) && All(s[k + |TrimBy(s, ws)|..], ws)
  {
    var t := TrimStart(s, ws);
    var r := TrimEnd(t, ws);
    k := |s| - |t|;
    assert s[k..] == t && r == t[..|r|];
    assert s[k + |r|..] == t[|r|..];
  }

  /** PHP's trim() with its default character list. */
  function Trim(s: string): string {
    TrimBy(s, IsPhpTrimSpace)
  }

  /** JavaScript's String.prototype.trim(). */
  function JsTrim(s: string): string {
    TrimBy(s, IsJsSpace)
  }

  /** Trimming only removes characters: one absent before is absent after. */
  lemma TrimByAbsent(s: string, ws: char -> bool, c: char)
    requires c !in s
    ensures c !in TrimBy(s, ws)
  {
    var r := TrimBy(s, ws);
    var k := TrimBySlice(s, ws);
    forall i | 0 <= i < |r|
      ensures r[i] != c
    {
      assert r[i] == s[k + i];
    }
  }

  /** A string is its own trim exactly when it neither starts nor ends with a trimmed character. */
  lemma TrimFixedPoint(s: string, ws: char -> bool)
    ensures TrimBy(s, ws) == s <==> s == [] || (!ws(s[0]) && !ws(s[|s| - 1]))
  {
    if s != [] && !ws(s[0]) && !ws(s[|s| - 1]) {
      assert SkipWhile(s, 0, ws) == 0;
      assert TrimStart(s, ws) == s;
    }
  }

  /** Trimming twice is trimming once. */
  lemma TrimIdempotent(s: string, ws: char -> bool)
    ensures TrimBy(TrimBy(s, ws), ws) == TrimBy(s, ws)
  {
    TrimFixedPoint(TrimBy(s, ws), ws);
  }

  /** A string made only of trimmed characters trims to nothing, and only such strings do. */
  lemma TrimEmpty(s: string, ws: char -> bool)
    ensures TrimBy(s, ws) == [] <==> All(s, ws)
  {
    if All(s, ws) {
      assert SkipWhile(s, 0, ws) == |s|;
    }
  }

  /** PHP's empty() on a string: true for "" and also for "0". */
  predicate PhpEmpty(s: string) {
    s == "" || s == "0"
  }

  predicate IsDigit(c: char) {
    '0' <= c <= '9'
  }

  predicate IsAsciiLetter(c: char) {
    'A' <= c <= 'Z' || 'a' <= c <= 'z'
  }

  predicate IsUpper(c: char) {
    'A' <= c <= 'Z'
  }

  /** ASCII lower-casing, as PHP's strtolower() does byte by byte. */
  function LowerChar(c: char): char {
    if IsUpper(c) then (c as int + 32) as char else c
  }

  function Lower(s: string): (r: string)
    ensures |r| == |s|
    ensures forall k :: 0 <= k < |s| ==> r[k] == LowerChar(s[k])
  {
    seq(|s|, k requires 0 <= k < |s| => LowerChar(s[k]))
  }

  /** Lower-casing leaves no upper-case letter and is idempotent. */
  lemma LowerIdempotent(s: string)
    ensures !exists k :: 0 <= k < |s| && IsUpper(Lower(s)[k])
    ensures Lower(Lower(s)) == Lower(s)
  {
  }

  /** Lower-casing commutes with taking a slice. */
  lemma LowerSlice(s: string, i: nat, j: nat)
    requires i <= j <= |s|
    ensures Lower(s[i..j]) == Lower(s)[i..j]
  {
  }

  /** `sub` occurs in `s` starting at index `i`. */
  predicate OccursAt(s: string, sub: string, i: int) {
    0 <= i && i + |sub| <= |s| && s[i..i + |sub|] == sub
  }

  /** Reference definition of substring containment. */
  predicate Contains(s: string, sub: string) {
    exists i | 0 <= i <= |s| :: OccursAt(s, sub, i)
  }

  function IndexOfFrom(s: string, sub: string, i: nat): (r: int)
    decreases |s| - i
    ensures r == -1 || (i <= r && OccursAt(s, sub, r))
    ensures r == -1 ==> forall k :: i <= k ==> !OccursAt(s, sub, k)
    ensures r != -1 ==> forall k :: i <= k < r ==> !OccursAt(s, sub, k)
  {
    if i + |sub| > |s| then -1
    else if s[i..i + |sub|] == sub then i
    else IndexOfFrom(s, sub, i + 1)
  }

  /** The first index at which `sub` occurs in `s`, or -1: JavaScript's indexOf and
      PHP's strpos (with `false` written as -1). */
  function IndexOf(s: string, sub: string): (r: int)
    ensures r == -1 || OccursAt(s, sub, r)
    ensures forall k :: 0 <= k && (r == -1 || k < r) ==> !OccursAt(s, sub, k)
  {
    IndexOfFrom(s, sub, 0)
  }

  /** indexOf answers -1 exactly when the substring does not occur. */
  lemma IndexOfFindsContains(s: string, sub: string)
    ensures IndexOf(s, sub) != -1 <==> Contains(s, sub)
  {
  }

  /** The empty string occurs everywhere; a string occurs in itself. */
  lemma ContainsTrivial(s: string)
    ensures Contains(s, "") && Contains(s, s)
  {
    assert OccursAt(s, "", 0);
    assert OccursAt(s, s, 0);
  }

  /** PHP's stripos(h, n) !== false (ASCII case folding). */
  predicate ContainsIgnoreCase(h: string, n: string) {
    Contains(Lower(h), Lower(n))
  }

  function DigitChar(d: nat): (c: char)
    requires d < 10
    ensures IsDigit(c)
  {
    ('0' as int + d) as char
  }

  function DigitValue(c: char): nat
    requires IsDigit(c)
  {
    c as int - '0' as int
  }

  /** Decimal rendering of a non-negative integer, as JavaScript's `n + ''`. */
  function NatToString(n: nat): (r: string)
    ensures r != [] && All(r, IsDigit)
    ensures |r| > 1 ==> r[0] != '0'
  {
    if n < 10 then [DigitChar(n)] else NatToString(n / 10) + [DigitChar(n % 10)]
  }

  /** Value of a string of decimal digits. */
  function DigitsValue(s: string): nat
    requires All(s, IsDigit)
  {
    if s == [] then 0 else 10 * DigitsValue(s[..|s| - 1]) + DigitValue(s[|s| - 1])
  }

  /** Reading a rendered number gives the number back. */
  lemma {:induction false} NatToStringRoundTrip(n: nat)
    ensures DigitsValue(NatToString(n)) == n
    decreases n
  {
    if n >= 10 {
      NatToStringRoundTrip(n / 10);
      var s := NatToString(n);
      assert s[..|s| - 1] == NatToString(n / 10);
    }
  }

  /** Different numbers render differently. */
  lemma NatToStringInjective(a: nat, b: nat)
    requires NatToString(a) == NatToString(b)
    ensures a == b
  {
    NatToStringRoundTrip(a);
    NatToStringRoundTrip(b);
  }

  /** Characters PHP skips before a number when casting a string to int. */
  predicate IsNumericLeadSpace(c: char) {
    c == ' ' || '\t' <= c <= '\r'
  }

  /** PHP's `(int)` cast of a string, as PHP 7.1 and later read it: optional
      leading whitespace, an optional sign, then the longest numeric prefix
      (digits, a fraction, an exponent), truncated toward zero; 0 when that
      prefix holds no digit. */
  function PhpIntval(s: string): int
  {
    var i := SkipWhile(s, 0, IsNumericLeadSpace);
    var signed := i < |s| && (s[i] == '-' || s[i] == '+');
    var j := if signed then i + 1 else i;
    var k := SkipWhile(s, j, IsDigit);
    var v: int := if IsIntegerEnd(s, k) then DigitsValue(s[j..k]) else ScaledMagnitude(s, j, k);
    if signed && s[i] == '-' then -v else v
  }

  /** Neither a decimal point nor an exponent follows the digits ending at `k`. */
  predicate IsIntegerEnd(s: string, k: nat)
    requires k <= |s|
  {
    (k == |s| || s[k] != '.') && ExponentAt(s, k).None?
  }

  /** 10 to the power `n`. */
  function Pow10(n: nat): (p: nat)
    ensures p >= 1
  {
    if n == 0 then 1 else 10 * Pow10(n - 1)
  }

  /** Where the fraction after the digits ending at `k` ends: past the point
      and its digits, or `k` when no point follows. */
  function FractionEnd(s: string, k: nat): (f: nat)
    requires k <= |s|
    ensures k <= f <= |s|
    ensures f > k ==> s[k] == '.' && forall t :: k < t < f ==> IsDigit(s[t])
  {
    if k < |s| && s[k] == '.' then SkipWhile(s, k + 1, IsDigit) else k
  }

  /** The exponent `[eE][+-]?digits` at `f`, when one is there; an `e` with
      no digit after it (and its sign) is not part of the number. */
  function ExponentAt(s: string, f: nat): (r: Common.Option<int>)
    requires f <= |s|
    ensures r.Some? ==> f < |s| && (s[f] == 'e' || s[f] == 'E')
  {
    if f < |s| && (s[f] == 'e' || s[f] == 'E') then
      var signed := f + 1 < |s| && (s[f + 1] == '-' || s[f + 1] == '+');
      var d := if signed then f + 2 else f + 1;
      var t := SkipWhile(s, d, IsDigit);
      if t == d then Common.None
      else
        var v: int := DigitsValue(s[d..t]);
        Common.Some(if signed && s[f + 1] == '-' then -v else v)
    else Common.None
  }

  /** The magnitude of a number written with a fraction or an exponent: all
      its digits, scaled by the exponent less the number of fraction digits,
      truncated. The double PHP computes on the way is exact here. */
  function ScaledMagnitude(s: string, j: nat, k: nat): nat
    requires j <= k <= |s| && All(s[j..k], IsDigit)
  {
    var frac := FractionDigits(s, k);
    AllDigitsConcat(s[j..k], frac);
    Scale(DigitsValue(s[j..k] + frac), ExponentValue(s, FractionEnd(s, k)) - |frac|)
  }

  /** The digits after the decimal point that follows `k`, if any. */
  function FractionDigits(s: string, k: nat): (frac: string)
    requires k <= |s|
    ensures All(frac, IsDigit)
  {
    var f := FractionEnd(s, k);
    if f > k then s[k + 1..f] else []
  }

  /** The exponent at `f`, or 0 when none is written there. */
  function ExponentValue(s: string, f: nat): int
    requires f <= |s|
  {
    match ExponentAt(s, f)
    case Some(x) => x
    case None => 0
  }

  /** `m` times 10 to the power `shift`, truncated toward zero. */
  function Scale(m: nat, shift: int): nat
  {
    if shift >= 0 then m * Pow10(shift) else DropDigits(m, -shift)
  }

  /** `m` with its last `n` decimal digits dropped: `m` divided by 10 to the
      power `n`, rounded down. */
  function DropDigits(m: nat, n: nat): nat
  {
    if n == 0 then m else DropDigits(m / 10, n - 1)
  }

  /** The int cast reads back any rendered number, with or without a minus sign. */
  lemma PhpIntvalRoundTrip(n: nat)
    ensures PhpIntval(NatToString(n)) == n
    ensures PhpIntval("-" + NatToString(n)) == -(n as int)
  {
    PhpIntvalOfDigits(n);
    PhpIntvalOfNegative(n);
  }

  lemma PhpIntvalOfDigits(n: nat)
    ensures PhpIntval(NatToString(n)) == n
  {
    var s := NatToString(n);
    NatToStringRoundTrip(n);
    assert SkipWhile(s, 0, IsNumericLeadSpace) == 0;
    assert SkipWhile(s, 0, IsDigit) == |s|;
    assert s[0..|s|] == s;
  }

  lemma PhpIntvalOfNegative(n: nat)
    ensures PhpIntval("-" + NatToString(n)) == -(n as int)
  {
    var s := NatToString(n);
    NatToStringRoundTrip(n);
    var m := "-" + s;
    assert SkipWhile(m, 0, IsNumericLeadSpace) == 0;
    SkipAllDigits(m, 1);
    assert m[1..|m|] == s;
  }

  lemma {:induction false} SkipAllDigits(s: string, i: nat)
    requires i <= |s| && All(s[i..], IsDigit)
    ensures SkipWhile(s, i, IsDigit) == |s|
    decreases |s| - i
  {
    if i < |s| {
      assert IsDigit(s[i..][0]);
      assert s[i + 1..] == s[i..][1..];
      SkipAllDigits(s, i + 1);
    }
  }

  /** PHP's `%d` rendering of an integer. */
  function IntToString(i: int): (r: string)
    ensures PhpIntval(r) == i
    ensures r != []
  {
    PhpIntvalRoundTrip(if i < 0 then -i else i);
    if i < 0 then "-" + NatToString(-i) else NatToString(i)
  }
  // ---------------------------------------------------------------------
  // Fractions and exponents in the int cast
  // ---------------------------------------------------------------------

  /** The value of two runs of digits written one after the other. */
  lemma {:induction false} DigitsValueConcat(a: string, b: string)
    requires All(a, IsDigit) && All(b, IsDigit)
    ensures All(a + b, IsDigit)
    ensures DigitsValue(a + b) == DigitsValue(a) * Pow10(|b|) + DigitsValue(b)
    decreases |b|
  {
    AllDigitsConcat(a, b);
    if b != [] {
      var b' := b[..|b| - 1];
      assert All(b', IsDigit);
      assert (a + b)[..|a + b| - 1] == a + b';
      DigitsValueConcat(a, b');
      ShiftOneDigit(DigitsValue(a), Pow10(|b'|), DigitsValue(b'), DigitValue(b[|b| - 1]));
    } else {
      assert a + b == a;
    }
  }

  lemma AllDigitsConcat(a: string, b: string)
    requires All(a, IsDigit) && All(b, IsDigit)
    ensures All(a + b, IsDigit)
  {
    forall t | 0 <= t < |a + b|
      ensures IsDigit((a + b)[t])
    {
      if t >= |a| {
        assert (a + b)[t] == b[t - |a|];
      }
    }
  }

  /** One more digit `c` after a value `x * p + y`. */
  lemma ShiftOneDigit(x: nat, p: nat, y: nat, c: nat)
    ensures 10 * (x * p + y) + c == x * (10 * p) + (10 * y + c)
  {
  }

  /** Dropping the digits of `b` from the value of `a + b` leaves the value of `a`. */
  lemma {:induction false} DropDigitsConcat(a: string, b: string)
    requires All(a, IsDigit) && All(b, IsDigit)
    ensures All(a + b, IsDigit)
    ensures DropDigits(DigitsValue(a + b), |b|) == DigitsValue(a)
    decreases |b|
  {
    DigitsValueConcat(a, b);
    if b != [] {
      var b' := b[..|b| - 1];
      assert All(b', IsDigit);
      assert (a + b)[..|a + b| - 1] == a + b';
      DigitsValueConcat(a, b');
      assert DigitsValue(a + b) / 10 == DigitsValue(a + b');
      DropDigitsConcat(a, b');
    } else {
      assert a + b == a;
    }
  }

  /** A number written as digits `a` at the start of `s`, not followed by another digit. */
  lemma LeadingDigits(s: string, a: string)
    requires a != [] && All(a, IsDigit) && |a| <= |s| && s[..|a|] == a
    requires |a| == |s| || !IsDigit(s[|a|])
    ensures SkipWhile(s, 0, IsNumericLeadSpace) == 0
    ensures s[0] != '-' && s[0] != '+'
    ensures SkipWhile(s, 0, IsDigit) == |a|
    ensures s[0..|a|] == a
  {
    assert s[0] == a[0];
    forall t | 0 <= t < |a|
      ensures IsDigit(s[t])
    {
      assert s[..|a|][t] == s[t];
    }
    SkipWhileUnique(s, 0, |a|, IsDigit);
  }

  /** An exponent `e` and its digits `b` running to the end of `s`. */
  lemma ExponentDigits(s: string, f: nat, b: string)
    requires f < |s| && s[f] == 'e' && s[f + 1..] == b
    requires b != [] && All(b, IsDigit)
    ensures ExponentAt(s, f) == Common.Some(DigitsValue(b) as int)
  {
    assert s[f + 1] == b[0];
    SkipAllDigits(s, f + 1);
    assert s[f + 1..|s|] == b;
  }

  /** A number with a fraction or an exponent at the start of `s`: digits
      `a`, the fraction digits `frac` ending at `f`, and the exponent `e`. */
  lemma PhpIntvalOfScaled(s: string, a: string, frac: string, f: nat, e: int)
    requires a != [] && All(a, IsDigit) && |a| <= |s| && s[..|a|] == a
    requires |a| == |s| || !IsDigit(s[|a|])
    requires !IsIntegerEnd(s, |a|)
    requires FractionEnd(s, |a|) == f && FractionDigits(s, |a|) == frac && ExponentValue(s, f) == e
    ensures All(a + frac, IsDigit)
    ensures PhpIntval(s) == Scale(DigitsValue(a + frac), e - |frac|)
  {
    PhpIntvalIsScaledMagnitude(s, a);
    ScaledMagnitudeOfParts(s, a, frac, f, e);
  }

  lemma PhpIntvalIsScaledMagnitude(s: string, a: string)
    requires a != [] && All(a, IsDigit) && |a| <= |s| && s[..|a|] == a
    requires |a| == |s| || !IsDigit(s[|a|])
    requires !IsIntegerEnd(s, |a|)
    ensures All(s[0..|a|], IsDigit)
    ensures PhpIntval(s) == ScaledMagnitude(s, 0, |a|)
  {
    LeadingDigits(s, a);
  }

  lemma ScaledMagnitudeOfParts(s: string, a: string, frac: string, f: nat, e: int)
    requires |a| <= |s| && s[0..|a|] == a && All(a, IsDigit)
    requires FractionEnd(s, |a|) == f && FractionDigits(s, |a|) == frac && ExponentValue(s, f) == e
    ensures All(a + frac, IsDigit)
    ensures ScaledMagnitude(s, 0, |a|) == Scale(DigitsValue(a + frac), e - |frac|)
  {
    AllDigitsConcat(a, frac);
  }

  /** "ne" followed by a number: the int cast multiplies by that power of ten,
      as in (int) "1e3" == 1000. */
  lemma PhpIntvalExponent(n: nat, e: nat)
    ensures PhpIntval(NatToString(n) + "e" + NatToString(e)) == n * Pow10(e)
  {
    var a, b := NatToString(n), NatToString(e);
    var s := a + "e" + b;
    assert s[..|a|] == a && s[|a|] == 'e' && s[|a| + 1..] == b;
    PhpIntvalDigitsExponent(s, a, b);
    NatToStringRoundTrip(n);
    NatToStringRoundTrip(e);
  }

  /** Digits `a`, then `e` and digits `b`: the int cast scales `a` by that power of ten. */
  lemma PhpIntvalDigitsExponent(s: string, a: string, b: string)
    requires a != [] && All(a, IsDigit) && b != [] && All(b, IsDigit)
    requires |a| < |s| && s[..|a|] == a && s[|a|] == 'e' && s[|a| + 1..] == b
    ensures PhpIntval(s) == DigitsValue(a) * Pow10(DigitsValue(b))
  {
    ExponentDigits(s, |a|, b);
    assert FractionEnd(s, |a|) == |a| && FractionDigits(s, |a|) == [];
    PhpIntvalOfScaled(s, a, [], |a|, DigitsValue(b));
    assert a + [] == a;
  }

  /** A fraction after the point is cut off: (int) "12.75" == 12. */
  lemma PhpIntvalFraction(n: nat, frac: string)
    requires All(frac, IsDigit)
    ensures PhpIntval(NatToString(n) + "." + frac) == n
  {
    var a := NatToString(n);
    var s := a + "." + frac;
    assert s[..|a|] == a && s[|a|] == '.' && s[|a| + 1..] == frac;
    SkipAllDigits(s, |a| + 1);
    assert s[|a| + 1..|s|] == frac;
    assert ExponentValue(s, |s|) == 0;
    PhpIntvalOfScaled(s, a, frac, |s|, 0);
    DropDigitsConcat(a, frac);
    NatToStringRoundTrip(n);
  }

  /** A fraction moved in front of the point by an exponent `b` equal to
      its length: all the digits count, as in (int) "2.5e1" == 25. */
  lemma PhpIntvalShiftedFraction(a: string, frac: string, b: string)
    requires a != [] && All(a, IsDigit) && All(frac, IsDigit)
    requires b != [] && All(b, IsDigit) && DigitsValue(b) == |frac|
    ensures All(a + frac, IsDigit)
    ensures PhpIntval(a + "." + frac + "e" + b) == DigitsValue(a + frac)
  {
    var s := a + "." + frac + "e" + b;
    PointExponentLayout(s, a, frac, b);
    FractionThenExponent(s, |a|, frac, b);
    PhpIntvalOfScaled(s, a, frac, |a| + 1 + |frac|, |frac|);
    assert Scale(DigitsValue(a + frac), 0) == DigitsValue(a + frac);
  }

  /** Where the parts of `a.frac` `e` `b` sit. */
  lemma PointExponentLayout(s: string, a: string, frac: string, b: string)
    requires s == a + "." + frac + "e" + b
    ensures |a| + 1 + |frac| < |s| && s[..|a|] == a && s[|a|] == '.'
    ensures s[|a| + 1..|a| + 1 + |frac|] == frac && s[|a| + 1 + |frac|] == 'e'
    ensures s[|a| + 2 + |frac|..] == b
  {
  }

  /** A point, the digits `frac`, then an exponent `e` with digits `b` to the end of `s`. */
  lemma FractionThenExponent(s: string, k: nat, frac: string, b: string)
    requires k + 1 + |frac| < |s| && s[k] == '.' && s[k + 1..k + 1 + |frac|] == frac
    requires All(frac, IsDigit) && s[k + 1 + |frac|] == 'e'
    requires s[k + 2 + |frac|..] == b && b != [] && All(b, IsDigit)
    ensures FractionEnd(s, k) == k + 1 + |frac|
    ensures FractionDigits(s, k) == frac
    ensures ExponentValue(s, k + 1 + |frac|) == DigitsValue(b)
    ensures !IsIntegerEnd(s, k)
  {
    var f := k + 1 + |frac|;
    forall t | k + 1 <= t < f
      ensures IsDigit(s[t])
    {
      assert s[k + 1..f][t - k - 1] == s[t];
    }
    SkipWhileUnique(s, k + 1, f, IsDigit);
    ExponentDigits(s, f, b);
  }
}
