/** Character classes and string helpers shared by the scraper's model.
    Every class is restricted to ASCII: a character outside ASCII is never
    whitespace, a digit or a word character here, and lower-casing leaves
    it alone. */
module Text {

  /** Whitespace as Python's `str.isspace` and the regex class `\s` see it
      within ASCII: tab, line feed, vertical tab, form feed, carriage return,
      the four separators 0x1C to 0x1F, and space. */
  predicate IsSpace(c: char) {
    c == ' ' || 9 <= c as int <= 13 || 28 <= c as int <= 31
  }

  predicate IsDigit(c: char) {
    '0' <= c <= '9'
  }

  predicate IsLetter(c: char) {
    'a' <= c <= 'z' || 'A' <= c <= 'Z'
  }

  /** The regex class `\w`. */
  predicate IsWordChar(c: char) {
    IsLetter(c) || IsDigit(c) || c == '_'
  }

  predicate AllDigits(s: string) {
    forall i :: 0 <= i < |s| ==> IsDigit(s[i])
  }

  function LowerChar(c: char): char {
    if 'A' <= c <= 'Z' then (c as int + 32) as char else c
  }

  /** `str.lower()`. */
  function Lower(s: string): string {
    seq(|s|, i requires 0 <= i < |s| => LowerChar(s[i]))
  }

  predicate StartsWith(s: string, prefix: string) {
    |prefix| <= |s| && s[..|prefix|] == prefix
  }

  predicate EndsWith(s: string, suffix: string) {
    |suffix| <= |s| && s[|s| - |suffix|..] == suffix
  }

  function DigitValue(c: char): int {
    c as int - '0' as int
  }

  function DigitChar(n: nat): char
    requires n < 10
  {
    ('0' as int + n) as char
  }

  /** `int(s)` for a string of decimal digits. */
  function DigitsValue(s: string): nat
    requires AllDigits(s)
  {
    if s == [] then 0 else 10 * DigitsValue(s[..|s| - 1]) + DigitValue(s[|s| - 1])
  }

  /** A number below 100 written with two digits, as in "04". */
  function Pad2(n: nat): (s: string)
    requires n < 100
    ensures |s| == 2 && AllDigits(s) && DigitsValue(s) == n
  {
    var s := [DigitChar(n / 10), DigitChar(n % 10)];
    assert s[..1][..0] == [];
    assert DigitsValue(s[..1]) == n / 10;
    s
  }

  /** A number below 10000 written with four digits, as in "2025". */
  function Pad4(n: nat): (s: string)
    requires n < 10000
    ensures |s| == 4 && AllDigits(s) && DigitsValue(s) == n
  {
    var s := [DigitChar(n / 1000), DigitChar(n / 100 % 10), DigitChar(n / 10 % 10), DigitChar(n % 10)];
    assert s[..3][..2] == s[..2] && s[..2][..1] == s[..1] && s[..1][..0] == [];
    assert DigitsValue(s[..1]) == n / 1000;
    assert DigitsValue(s[..2]) == n / 100;
    assert DigitsValue(s[..3]) == n / 10;
    s
  }

  function StripLeading(s: string): string
    decreases |s|
  {
    if |s| > 0 && IsSpace(s[0]) then StripLeading(s[1..]) else s
  }

  function StripTrailing(s: string): string
    decreases |s|
  {
    if |s| > 0 && IsSpace(s[|s| - 1]) then StripTrailing(s[..|s| - 1]) else s
  }

  /** `str.strip()` with no argument: drops the whitespace at both ends. */
  function Strip(s: string): string {
    StripTrailing(StripLeading(s))
  }

  lemma {:induction false} StripLeadingAt(s: string, i: nat)
    requires i <= |s|
    requires forall k :: 0 <= k < i ==> IsSpace(s[k])
    requires i == |s| || !IsSpace(s[i])
    ensures StripLeading(s) == s[i..]
    decreases i
  {
    if i > 0 {
      StripLeadingAt(s[1..], i - 1);
      assert s[1..][i - 1..] == s[i..];
    }
  }

  lemma {:induction false} StripTrailingAt(s: string, j: nat)
    requires j <= |s|
    requires forall k :: j <= k < |s| ==> IsSpace(s[k])
    requires j == 0 || !IsSpace(s[j - 1])
    ensures StripTrailing(s) == s[..j]
    decreases |s| - j
  {
    if j < |s| {
      StripTrailingAt(s[..|s| - 1], j);
      assert s[..|s| - 1][..j] == s[..j];
    }
  }

  /** `Strip(s)` is the piece of `s` that remains once a run of whitespace
      is cut from each end and that neither starts nor ends with
      whitespace: any such piece is what `Strip` returns. */
  lemma StripIsTrimmedPiece(s: string, i: nat, j: nat)
    requires i <= j <= |s|
    requires forall k :: 0 <= k < i ==> IsSpace(s[k])
    requires forall k :: j <= k < |s| ==> IsSpace(s[k])
    requires i < j ==> !IsSpace(s[i]) && !IsSpace(s[j - 1])
    ensures Strip(s) == s[i..j]
  {
    if i < j {
      StripLeadingAt(s, i);
      StripTrailingAt(s[i..], j - i);
      assert s[i..][..j - i] == s[i..j];
    } else {
      StripLeadingAt(s, |s|);
      assert s[|s|..] == [];
    }
  }
}
