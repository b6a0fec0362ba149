/** The two Python string operations the account checks rely on: `str.strip()` with no
    argument and the digit test behind `str.isdigit()`. */
module PyText {

  /** The characters Python's `str.isspace()` accepts, which `str.strip()` removes:
      the ASCII controls TAB through CR, the separators 0x1C-0x1F and SPACE,
      and the Unicode whitespace characters NEL, NO-BREAK SPACE, OGHAM SPACE MARK,
      EN QUAD through HAIR SPACE, LINE and PARAGRAPH SEPARATOR, NARROW NO-BREAK SPACE,
      MEDIUM MATHEMATICAL SPACE and IDEOGRAPHIC SPACE. */
  predicate IsSpace(c: char)
  {
    var n := c as int;
    (0x09 <= n <= 0x0D) || (0x1C <= n <= 0x20) || n == 0x85 || n == 0xA0 || n == 0x1680 ||
    (0x2000 <= n <= 0x200A) || n == 0x2028 || n == 0x2029 || n == 0x202F || n == 0x205F ||
    n == 0x3000
  }

  predicate AllSpace(s: string)
  {
    forall i :: 0 <= i < |s| ==> IsSpace(s[i])
  }

  /** A string with no whitespace at either end: what `strip()` produces. */
  predicate IsStripped(s: string)
  {
    s == [] || (!IsSpace(s[0]) && !IsSpace(s[|s| - 1]))
  }

  /** The index of the first non-whitespace character at or after `i`, or `|s|`. */
  function SkipLeft(s: string, i: nat): (j: nat)
    requires i <= |s|
    ensures i <= j <= |s|
    ensures forall k :: i <= k < j ==> IsSpace(s[k])
    ensures j < |s| ==> !IsSpace(s[j])
    decreases |s| - i
  {
    if i < |s| && IsSpace(s[i]) then SkipLeft(s, i + 1) else i
  }

  /** The index just past the last non-whitespace character before `j` and at or after
      `lo`, or `lo`. */
  function SkipRight(s: string, lo: nat, j: nat): (k: nat)
    requires lo <= j <= |s|
    ensures lo <= k <= j
    ensures forall m :: k <= m < j ==> IsSpace(s[m])
    ensures k > lo ==> !IsSpace(s[k - 1])
    decreases j
  {
    if j > lo && IsSpace(s[j - 1]) then SkipRight(s, lo, j - 1) else j
  }

  /** `str.strip()`: the text with whitespace removed from both ends. What is removed is
      whitespace, what is left has none at either end, and it is empty exactly when the
      text is whitespace only. */
  function Strip(s: string): (r: string)
    ensures |r| <= |s|
    ensures IsStripped(r)
    ensures r == [] <==> AllSpace(s)
    ensures IsStripped(s) ==> r == s
  {
    var i := SkipLeft(s, 0);
    var j := SkipRight(s, i, |s|);
    s[i..j]
  }

  /** `strip()` only cuts whitespace off the ends: the text is some whitespace, the
      stripped text, and some more whitespace. */
  lemma StripCutsOnlySpace(s: string)
    ensures var i, r := SkipLeft(s, 0), Strip(s);
      && i + |r| <= |s|
      && s == s[..i] + r + s[i + |r|..]
      && AllSpace(s[..i]) && AllSpace(s[i + |r|..])
  {
    var i := SkipLeft(s, 0);
    var j := SkipRight(s, i, |s|);
    assert s == s[..i] + s[i..j] + s[j..];
  }

  predicate IsAsciiDigit(c: char)
  {
    '0' <= c <= '9'
  }

  /** `str.isdigit()`, restricted to the ASCII digits: true for a non-empty string of digits. */
  predicate IsDigits(s: string): (b: bool)
    ensures b ==> IsStripped(s) && !AllSpace(s)
  {
    s != [] && forall i :: 0 <= i < |s| ==> IsAsciiDigit(s[i])
  }
}
