/** Character classes, decimal numerals and substring search on strings,
    restricted to ASCII: the model does not cover Unicode digits or
    Unicode whitespace. */
module Text {

  predicate IsDigit(c: char) {
    '0' <= c <= '9'
  }

  predicate AllDigits(s: string) {
    forall i :: 0 <= i < |s| ==> IsDigit(s[i])
  }

  /** Whitespace as C's `isspace` sees it: space, tab, LF, VT, FF, CR.
      This is what Python's `int()` strips. */
  predicate IsCSpace(c: char) {
    c == ' ' || 9 <= c as int <= 13
  }

  /** Whitespace as Python's `str.isspace` and the regex class `\s` see it
      on ASCII: the C set plus the four information separators 0x1C-0x1F. */
  predicate IsSpace(c: char) {
    IsCSpace(c) || 28 <= c as int <= 31
  }

  function DigitValue(c: char): (d: nat)
    requires IsDigit(c)
    ensures d < 10
  {
    c as int - '0' as int
  }

  function DigitChar(d: nat): (c: char)
    requires d < 10
    ensures IsDigit(c) && DigitValue(c) == d
  {
    ('0' as int + d) as char
  }

  /** The value `int()` gives a run of decimal digits (leading zeros allowed). */
  function DecimalValue(s: string): nat
    requires AllDigits(s)
    decreases |s|
  {
    if |s| == 0 then 0 else DecimalValue(s[..|s| - 1]) * 10 + DigitValue(s[|s| - 1])
  }

  /** Python's `str(n)` for a natural number: the shortest decimal numeral. */
  function NatToString(n: nat): (s: string)
    ensures |s| > 0 && AllDigits(s)
    ensures DecimalValue(s) == n
    ensures s[0] != '0' || n == 0
    decreases n
  {
    if n < 10 then [DigitChar(n)]
    else
      var prefix := NatToString(n / 10);
      var s := prefix + [DigitChar(n % 10)];
      assert s[..|s| - 1] == prefix;
      s
  }

  /** Python's `str(i)` for an integer. */
  function IntToString(i: int): (s: string)
    ensures |s| > 0
    ensures i >= 0 ==> s == NatToString(i)
    ensures i < 0 ==> s[0] == '-' && s[1..] == NatToString(-i)
  {
    if i < 0 then "-" + NatToString(-i) else NatToString(i)
  }

  predicate IsSuffix(suffix: string, s: string) {
    |suffix| <= |s| && s[|s| - |suffix|..] == suffix
  }

  /** `needle` occurs in `hay` starting at position `i`. */
  predicate OccursAt(hay: string, needle: string, i: int) {
    0 <= i && i + |needle| <= |hay| && hay[i..i + |needle|] == needle
  }

  /** Python's `needle in hay` (and pandas `str.contains` for a pattern
      made only of digits, which has no regex metacharacters). */
  predicate Contains(hay: string, needle: string) {
    exists i :: 0 <= i <= |hay| && OccursAt(hay, needle, i)
  }

  /** `str(int(ds))` is a suffix of the digit run `ds` itself: dropping the
      leading zeros is all that `int` followed by `str` does. */
  lemma {:induction false} CanonicalIsSuffix(ds: string)
    requires |ds| > 0 && AllDigits(ds)
    ensures IsSuffix(NatToString(DecimalValue(ds)), ds)
    decreases |ds|
  {
    var prefix := ds[..|ds| - 1];
    assert ds == prefix + [ds[|ds| - 1]];
    if |prefix| > 0 {
      CanonicalIsSuffix(prefix);
    }
    CanonicalStep(prefix, ds[|ds| - 1]);
  }

  /** One more digit at the end of a run: `str(int(...))` still ends the run. */
  lemma CanonicalStep(prefix: string, last: char)
    requires AllDigits(prefix) && IsDigit(last)
    requires |prefix| > 0 ==> IsSuffix(NatToString(DecimalValue(prefix)), prefix)
    ensures IsSuffix(NatToString(DecimalValue(prefix + [last])), prefix + [last])
  {
    DecimalSnoc(prefix, last);
    CanonicalOfValue(prefix, last, DecimalValue(prefix + [last]), DecimalValue(prefix), DigitValue(last));
  }

  lemma CanonicalOfValue(prefix: string, last: char, n: nat, v: nat, d: nat)
    requires d < 10 && DigitChar(d) == last && n == v * 10 + d
    requires v > 0 ==> IsSuffix(NatToString(v), prefix)
    ensures IsSuffix(NatToString(n), prefix + [last])
  {
    if v == 0 {
      NatToStringOfDigit(d);
      SuffixSnoc([], prefix, last);
    } else {
      NatToStringSnoc(v, d);
      SuffixSnoc(NatToString(v), prefix, last);
    }
  }

  /** Appending a digit multiplies the value by ten and adds the digit. */
  lemma DecimalSnoc(prefix: string, last: char)
    requires AllDigits(prefix) && IsDigit(last)
    ensures AllDigits(prefix + [last])
    ensures DecimalValue(prefix + [last]) == DecimalValue(prefix) * 10 + DigitValue(last)
    ensures DigitChar(DigitValue(last)) == last
  {
    var ds := prefix + [last];
    assert ds[..|ds| - 1] == prefix;
  }

  /** `str(d)` of a single digit is that digit. */
  lemma NatToStringOfDigit(d: nat)
    requires d < 10
    ensures NatToString(d) == [DigitChar(d)]
  {
  }

  /** `str(10 * v + d)` for `v > 0` is `str(v)` followed by the digit `d`. */
  lemma NatToStringSnoc(v: nat, d: nat)
    requires v > 0 && d < 10
    ensures NatToString(v * 10 + d) == NatToString(v) + [DigitChar(d)]
  {
    DigitSplit(v, d);
  }

  /** The last decimal digit and the rest of `v * 10 + d`. */
  lemma DigitSplit(v: nat, d: nat)
    requires d < 10
    ensures (v * 10 + d) / 10 == v && (v * 10 + d) % 10 == d
  {
  }

  /** Appending the same character to both keeps a suffix a suffix. */
  lemma SuffixSnoc(suffix: string, s: string, c: char)
    requires IsSuffix(suffix, s)
    ensures IsSuffix(suffix + [c], s + [c])
  {
    assert (s + [c])[|s| - |suffix|..] == s[|s| - |suffix|..] + [c];
  }

  /** A suffix of a string is contained in it. */
  lemma SuffixIsContained(suffix: string, s: string)
    requires IsSuffix(suffix, s)
    ensures Contains(s, suffix)
  {
    assert OccursAt(s, suffix, |s| - |suffix|);
  }
}
