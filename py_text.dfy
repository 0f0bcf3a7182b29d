/**
 * The Python string built-ins the form validators rely on: `str.isspace`,
 * `str.strip`, `str.replace` of one character, `str.title` and the `%i`
 * conversion of an integer.
 */
module PyText {

  /**
   * White space as `str.isspace` and the regular-expression class `\s` see
   * it: the ASCII controls 9-13 and 28-31, the space, and the Unicode
   * separators NEL, NBSP, OGHAM SPACE MARK, EN QUAD .. HAIR SPACE, LINE and
   * PARAGRAPH SEPARATOR, NARROW NBSP, MEDIUM MATHEMATICAL SPACE and
   * IDEOGRAPHIC SPACE.
   */
  predicate IsSpace(c: char)
  {
    var k := c as int;
    || (9 <= k <= 13) || (28 <= k <= 32)
    || k == 0x85 || k == 0xA0 || k == 0x1680
    || (0x2000 <= k <= 0x200A)
    || k == 0x2028 || k == 0x2029 || k == 0x202F || k == 0x205F || k == 0x3000
  }

  /** `s.isspace()`: true only for a non-empty string made of white space. */
  predicate IsAllSpace(s: string)
  {
    |s| > 0 && forall i :: 0 <= i < |s| ==> IsSpace(s[i])
  }

  /** `s.lstrip()`: the suffix left after the leading white space. */
  function TrimStart(s: string): (t: string)
    ensures |t| <= |s| && t == s[|s| - |t|..]
    ensures forall i :: 0 <= i < |s| - |t| ==> IsSpace(s[i])
    ensures t == [] || !IsSpace(t[0])
  {
    if s != [] && IsSpace(s[0]) then TrimStart(s[1..]) else s
  }

  /** `s.rstrip()`: the prefix left before the trailing white space. */
  function TrimEnd(s: string): (t: string)
    ensures |t| <= |s| && t == s[..|t|]
    ensures forall i :: |t| <= i < |s| ==> IsSpace(s[i])
    ensures t == [] || !IsSpace(t[|t| - 1])
  {
    if s != [] && IsSpace(s[|s| - 1]) then TrimEnd(s[..|s| - 1]) else s
  }

  /** `s.strip()`. */
  function Strip(s: string): (t: string)
    ensures t == [] || (!IsSpace(t[0]) && !IsSpace(t[|t| - 1]))
  {
    TrimEnd(TrimStart(s))
  }

  /** `s.replace(a, b)` for single characters a and b. */
  function ReplaceChar(s: string, a: char, b: char): (t: string)
    ensures |t| == |s|
    ensures a != b ==> forall i :: 0 <= i < |t| ==> t[i] != a
  {
    seq(|s|, i requires 0 <= i < |s| => if s[i] == a then b else s[i])
  }

  predicate IsUpper(c: char) { 'A' <= c <= 'Z' }

  predicate IsLower(c: char) { 'a' <= c <= 'z' }

  /** A letter that has an upper and a lower case. */
  predicate IsCased(c: char) { IsUpper(c) || IsLower(c) }

  function Upper(c: char): (u: char)
    ensures IsCased(u) == IsCased(c) && !IsLower(u)
  {
    if IsLower(c) then (c as int - 32) as char else c
  }

  function Lower(c: char): (l: char)
    ensures IsCased(l) == IsCased(c) && !IsUpper(l)
  {
    if IsUpper(c) then (c as int + 32) as char else c
  }

  /**
   * `str.title` scanning from a position whose previous character was cased
   * (`prevCased`) or not: a character right after a cased one is lowered,
   * any other is raised.
   */
  function TitleFrom(prevCased: bool, s: string): (t: string)
    ensures |t| == |s|
    decreases |s|
  {
    if s == [] then []
    else [if prevCased then Lower(s[0]) else Upper(s[0])] + TitleFrom(IsCased(s[0]), s[1..])
  }

  /** `s.title()`. */
  function Title(s: string): (t: string)
    ensures |t| == |s|
  {
    TitleFrom(false, s)
  }

  /** Character by character, `TitleFrom` raises a word's first letter and lowers the rest. */
  lemma {:induction false} TitleFromAt(prevCased: bool, s: string, i: int)
    requires 0 <= i < |s|
    ensures TitleFrom(prevCased, s)[i]
         == if (if i == 0 then prevCased else IsCased(s[i - 1])) then Lower(s[i]) else Upper(s[i])
    decreases |s|
  {
    if i > 0 {
      TitleFromAt(IsCased(s[0]), s[1..], i - 1);
    }
  }

  /**
   * `s.title()` raises every letter that starts a word (the first character or
   * one after an uncased character) and lowers every letter inside a word.
   */
  lemma TitleAt(s: string, i: int)
    requires 0 <= i < |s|
    ensures Title(s)[i] == if i > 0 && IsCased(s[i - 1]) then Lower(s[i]) else Upper(s[i])
  {
    TitleFromAt(false, s, i);
  }

  /** Title-casing leaves every character's casedness as it was, so it keeps the word boundaries. */
  lemma {:induction false} TitleFromKeepsCased(prevCased: bool, s: string)
    ensures forall i :: 0 <= i < |s| ==> IsCased(TitleFrom(prevCased, s)[i]) == IsCased(s[i])
  {
    forall i | 0 <= i < |s|
      ensures IsCased(TitleFrom(prevCased, s)[i]) == IsCased(s[i])
    {
      TitleFromAt(prevCased, s, i);
    }
  }

  /** `s.title().title() == s.title()`. */
  lemma {:induction false} TitleIdempotent(s: string)
    ensures Title(Title(s)) == Title(s)
  {
    var t := Title(s);
    TitleFromKeepsCased(false, s);
    forall i | 0 <= i < |s|
      ensures Title(t)[i] == t[i]
    {
      TitleAt(s, i);
      TitleAt(t, i);
    }
  }

  function DigitChar(d: nat): (c: char)
    requires d < 10
    ensures '0' <= c <= '9'
  {
    ('0' as int + d) as char
  }

  /** The decimal digits of n, most significant first, without leading zeros. */
  function NatToString(n: nat): (s: string)
    ensures |s| >= 1 && forall i :: 0 <= i < |s| ==> '0' <= s[i] <= '9'
    ensures |s| > 1 ==> s[0] != '0'
  {
    if n < 10 then [DigitChar(n)] else NatToString(n / 10) + [DigitChar(n % 10)]
  }

  /** `'%i' % i`: an optional minus sign, then the decimal digits of |i|. */
  function IntToString(i: int): string
  {
    if i < 0 then "-" + NatToString(-i) else NatToString(i)
  }

  /** The value of a string of decimal digits. */
  function DigitsValue(s: string): nat
    requires forall i :: 0 <= i < |s| ==> '0' <= s[i] <= '9'
  {
    if s == [] then 0 else 10 * DigitsValue(s[..|s| - 1]) + (s[|s| - 1] as int - '0' as int)
  }

  /** The value of an optional minus sign followed by decimal digits. */
  function ParseInt(s: string): int
    requires |s| > 0
    requires forall i :: (if s[0] == '-' then 1 else 0) <= i < |s| ==> '0' <= s[i] <= '9'
  {
    if s[0] == '-' then -(DigitsValue(s[1..]) as int) else DigitsValue(s)
  }

  lemma {:induction false} NatToStringValue(n: nat)
    ensures DigitsValue(NatToString(n)) == n
  {
    if n >= 10 {
      var s := NatToString(n);
      NatToStringValue(n / 10);
      assert s[..|s| - 1] == NatToString(n / 10);
    }
  }

  /** Reading `'%i' % i` back gives i: the conversion loses nothing. */
  lemma IntToStringParses(i: int)
    ensures var s := IntToString(i);
            |s| > 0 &&
            (forall k :: (if s[0] == '-' then 1 else 0) <= k < |s| ==> '0' <= s[k] <= '9') &&
            ParseInt(s) == i
  {
    if i < 0 {
      NatToStringValue(-i);
      assert IntToString(i)[1..] == NatToString(-i);
    } else {
      NatToStringValue(i);
    }
  }
}
