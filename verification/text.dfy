/** String primitives with Python's semantics: `str.strip()`, slicing
    `s[i:j]` and `str.rfind(sub, i, j)` with index normalisation, decimal
    rendering `str(n)` and parsing `int(digits)`. */
module TextUtil {

  /** Python's `str.isspace` for one character: the Unicode whitespace set
      that `str.strip()` removes. */
  predicate IsSpace(c: char) {
    var k := c as int;
    k == 0x20 || 0x09 <= k <= 0x0D || 0x1C <= k <= 0x1F || k == 0x85 || k == 0xA0
    || k == 0x1680 || 0x2000 <= k <= 0x200A || k == 0x2028 || k == 0x2029
    || k == 0x202F || k == 0x205F || k == 0x3000
  }

  predicate AllSpace(s: string) {
    forall k :: 0 <= k < |s| ==> IsSpace(s[k])
  }

  /** The first index at or after `i` that is not whitespace, or `|s|`. */
  function SkipSpaceForward(s: string, i: nat): (k: nat)
    requires i <= |s|
    decreases |s| - i
    ensures i <= k <= |s|
    ensures forall m :: i <= m < k ==> IsSpace(s[m])
    ensures k < |s| ==> !IsSpace(s[k])
  {
    if i == |s| || !IsSpace(s[i]) then i else SkipSpaceForward(s, i + 1)
  }

  /** One past the last index before `j` that is not whitespace, or `lo`. */
  function SkipSpaceBackward(s: string, lo: nat, j: nat): (k: nat)
    requires lo <= j <= |s|
    decreases j
    ensures lo <= k <= j
    ensures forall m :: k <= m < j ==> IsSpace(s[m])
    ensures lo < k ==> !IsSpace(s[k - 1])
  {
    if j == lo || !IsSpace(s[j - 1]) then j else SkipSpaceBackward(s, lo, j - 1)
  }

  /** Python's `s.strip()`: `s` without its leading and trailing whitespace. */
  function Strip(s: string): (r: string)
    ensures |r| <= |s|
    ensures r == [] || (!IsSpace(r[0]) && !IsSpace(r[|r| - 1]))
    ensures r == [] <==> AllSpace(s)
  {
    var a := SkipSpaceForward(s, 0);
    var b := SkipSpaceBackward(s, a, |s|);
    s[a..b]
  }

  /** Stripping removes whitespace only: the input is the result with a
      run of whitespace before it and another after it. */
  lemma StripRemovesOnlyOuterSpace(s: string)
    ensures var a, r := SkipSpaceForward(s, 0), Strip(s);
      && a + |r| <= |s| && s[a..a + |r|] == r
      && (forall k :: 0 <= k < a ==> IsSpace(s[k]))
      && (forall k :: a + |r| <= k < |s| ==> IsSpace(s[k]))
  {
  }

  /** A string that neither starts nor ends with whitespace is unchanged. */
  lemma StripUnchanged(s: string)
    requires s != [] && !IsSpace(s[0]) && !IsSpace(s[|s| - 1])
    ensures Strip(s) == s
  {
  }

  /** A leading blank is removed. */
  lemma StripLeadingBlank(s: string)
    ensures Strip([' '] + s) == Strip(s)
  {
    var t := [' '] + s;
    var a := SkipSpaceForward(s, 0);
    var b := SkipSpaceBackward(s, a, |s|);
    assert IsSpace(t[0]);
    assert SkipSpaceForward(t, 0) == SkipSpaceForward(t, 1);
    SkipShift(s, 0);
    assert SkipSpaceForward(t, 0) == a + 1;
    SkipBackShift(s, a, |s|);
    assert SkipSpaceBackward(t, a + 1, |t|) == b + 1;
    SliceAfterBlank(s, a, b);
    assert Strip(t) == t[a + 1..b + 1];
  }

  lemma SliceAfterBlank(s: string, a: nat, b: nat)
    requires a <= b <= |s|
    ensures ([' '] + s)[a + 1..b + 1] == s[a..b]
  {
  }

  lemma {:induction false} SkipShift(s: string, i: nat)
    requires i <= |s|
    ensures SkipSpaceForward([' '] + s, i + 1) == 1 + SkipSpaceForward(s, i)
    decreases |s| - i
  {
    var t := [' '] + s;
    assert i < |s| ==> t[i + 1] == s[i];
    if i < |s| && IsSpace(s[i]) {
      SkipShift(s, i + 1);
    }
  }

  lemma {:induction false} SkipBackShift(s: string, lo: nat, j: nat)
    requires lo <= j <= |s|
    ensures SkipSpaceBackward([' '] + s, lo + 1, j + 1) == 1 + SkipSpaceBackward(s, lo, j)
    decreases j
  {
    var t := [' '] + s;
    assert lo < j ==> t[j] == s[j - 1];
    if lo < j && IsSpace(s[j - 1]) {
      SkipBackShift(s, lo, j - 1);
    }
  }

  /** Python's normalisation of a slice bound against a length `n`:
      negative bounds count from the end, then both ends are clamped. */
  function NormIndex(i: int, n: nat): (k: nat)
    ensures k <= n
    ensures 0 <= i <= n ==> k == i
    ensures i > n ==> k == n
    ensures i < 0 && 0 <= i + n ==> k == i + n
    ensures i + n < 0 ==> k == 0
  {
    if i < 0 then (if i + n < 0 then 0 else i + n)
    else if i > n then n
    else i
  }

  /** Python's `s[i:j]`. */
  function Slice(s: string, i: int, j: int): (r: string)
    ensures 0 <= i <= j <= |s| ==> r == s[i..j]
    ensures |r| == if NormIndex(i, |s|) < NormIndex(j, |s|) then NormIndex(j, |s|) - NormIndex(i, |s|) else 0
    ensures forall k :: 0 <= k < |r| ==> r[k] == s[NormIndex(i, |s|) + k]
  {
    var a := NormIndex(i, |s|);
    var b := NormIndex(j, |s|);
    if a < b then s[a..b] else []
  }

  /** Slicing depends on the bounds only through their normalisation. */
  lemma SliceNormalised(s: string, i: int, j: int)
    ensures Slice(s, i, j) == Slice(s, NormIndex(i, |s|), NormIndex(j, |s|))
    ensures NormIndex(i, |s|) < NormIndex(j, |s|) ==> Slice(s, i, j) == s[NormIndex(i, |s|)..NormIndex(j, |s|)]
  {
  }

  /** `sub` occurs in `s` at position `p`. */
  predicate OccursAt(s: string, sub: string, p: int) {
    0 <= p && p + |sub| <= |s| && s[p..p + |sub|] == sub
  }

  /** `sub` occurs entirely inside the index range `[a, b)`. */
  predicate OccursWithin(s: string, sub: string, a: int, b: int) {
    exists p :: a <= p && p + |sub| <= b && OccursAt(s, sub, p)
  }

  /** The largest position in `[a, hi]` where `sub` occurs, or -1. */
  function LastOccurrenceFrom(s: string, sub: string, a: nat, hi: int): (p: int)
    decreases hi - a + 1
    ensures p == -1 || (a <= p <= hi && OccursAt(s, sub, p))
    ensures p == -1 ==> forall q :: a <= q <= hi ==> !OccursAt(s, sub, q)
    ensures p != -1 ==> forall q :: p < q <= hi ==> !OccursAt(s, sub, q)
  {
    if hi < a then -1
    else if OccursAt(s, sub, hi) then hi
    else LastOccurrenceFrom(s, sub, a, hi - 1)
  }

  /** Python's `s.rfind(sub, i, j)`: the highest index where `sub` lies
      wholly inside the normalised slice `s[i:j]`, or -1. */
  function RFind(s: string, sub: string, i: int, j: int): (p: int)
    ensures p == -1 <==> !OccursWithin(s, sub, NormIndex(i, |s|), NormIndex(j, |s|))
    ensures p != -1 ==> NormIndex(i, |s|) <= p && p + |sub| <= NormIndex(j, |s|) && OccursAt(s, sub, p)
    ensures p != -1 ==> forall q :: p < q && q + |sub| <= NormIndex(j, |s|) ==> !OccursAt(s, sub, q)
  {
    var a := NormIndex(i, |s|);
    var b := NormIndex(j, |s|);
    var p := LastOccurrenceFrom(s, sub, a, b - |sub|);
    assert p == -1 ==> !OccursWithin(s, sub, a, b) by {
      if p == -1 {
        forall q | a <= q && q + |sub| <= b ensures !OccursAt(s, sub, q) { }
      }
    }
    p
  }

  predicate StartsWith(s: string, prefix: string) {
    |prefix| <= |s| && s[..|prefix|] == prefix
  }

  predicate IsDigit(c: char) {
    '0' <= c <= '9'
  }

  predicate AllDigits(s: string) {
    forall k :: 0 <= k < |s| ==> IsDigit(s[k])
  }

  function DigitChar(d: nat): (c: char)
    requires d < 10
    ensures IsDigit(c)
  {
    ('0' as int + d) as char
  }

  lemma DigitCharValue(d: nat)
    requires d < 10
    ensures DigitValue(DigitChar(d)) == d
  {
  }

  function DigitValue(c: char): (d: nat)
    requires IsDigit(c)
    ensures d < 10
    ensures DigitChar(d) == c
  {
    (c as int - '0' as int) as nat
  }

  /** Python's `str(n)` for a non-negative integer: decimal, no leading zero. */
  function NatToString(n: nat): (s: string)
    decreases n
    ensures |s| >= 1
    ensures AllDigits(s)
    ensures |s| > 1 ==> s[0] != '0'
  {
    if n < 10 then [DigitChar(n)]
    else NatToString(n / 10) + [DigitChar(n % 10)]
  }

  /** Python's `int(s)` for a non-empty run of ASCII digits. */
  function ParseDigits(s: string): (n: nat)
    requires AllDigits(s)
  {
    if |s| == 0 then 0
    else 10 * ParseDigits(s[..|s| - 1]) + DigitValue(s[|s| - 1])
  }

  /** Rendering then parsing gives the number back, so `str` is injective. */
  lemma {:induction false} ParseNatToString(n: nat)
    ensures ParseDigits(NatToString(n)) == n
    decreases n
  {
    DigitCharValue(n % 10);
    if n >= 10 {
      ParseNatToString(n / 10);
      var s := NatToString(n);
      assert s[..|s| - 1] == NatToString(n / 10);
      assert s[|s| - 1] == DigitChar(n % 10);
    } else {
      assert NatToString(n)[..0] == "";
    }
  }

  lemma NatToStringInjective(m: nat, n: nat)
    requires NatToString(m) == NatToString(n)
    ensures m == n
  {
    ParseNatToString(m);
    ParseNatToString(n);
  }

  /** ASCII lower-casing of one character; every other character is left
      as it is. */
  function LowerChar(c: char): (l: char)
    ensures 'A' <= c <= 'Z' ==> l as int == c as int + 32 && 'a' <= l <= 'z'
    ensures !('A' <= c <= 'Z') ==> l == c
  {
    if 'A' <= c <= 'Z' then (c as int + 32) as char else c
  }

  /** `str.lower` restricted to ASCII. */
  function LowerAscii(s: string): (r: string)
    ensures |r| == |s|
    ensures forall k :: 0 <= k < |s| ==> r[k] == LowerChar(s[k])
  {
    seq(|s|, k requires 0 <= k < |s| => LowerChar(s[k]))
  }
}
