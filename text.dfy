/**
 * The parts of Python's `str` and `re` character model that the
 * post-processing code relies on: the character classes behind `\w`, `\d`,
 * `\s` and `[a-zA-Z]`, the case maps behind `str.upper`, `str.lower` and
 * `str.title`, `str.strip` and `str.join`.
 *
 * Character classes are exact for the Latin-1 range (U+0000..U+00FF);
 * characters above it are treated as neither letters, digits nor spaces.
 */
module Text {

  /** `[a-zA-Z]` */
  predicate IsAsciiLetter(c: char) {
    'a' <= c <= 'z' || 'A' <= c <= 'Z'
  }

  /** `\d` (the decimal digits of Latin-1 are exactly the ASCII digits) */
  predicate IsDigit(c: char) {
    '0' <= c <= '9'
  }

  /** `\s`, and the characters `str.strip()` removes */
  predicate IsSpace(c: char) {
    c == ' ' || '\t' <= c <= '\r' || '\U{1C}' <= c <= '\U{1F}' || c == '\U{85}' || c == '\U{A0}'
  }

  /** Latin-1 letters above ASCII: the accented letters, `ª`, `µ`, `º` */
  predicate IsLatin1Letter(c: char) {
    c == 'ª' || c == 'µ' || c == 'º' || ('À' <= c <= 'ÿ' && c != '×' && c != '÷')
  }

  /** `\w`: letters, digits (including the superscripts and fractions) and `_` */
  predicate IsWordChar(c: char) {
    IsAsciiLetter(c) || IsDigit(c) || c == '_' || IsLatin1Letter(c)
      || c == '²' || c == '³' || c == '¹' || ('¼' <= c <= '¾')
  }

  /** Letters that have a case; `str.title` looks at these */
  predicate IsCased(c: char) {
    IsAsciiLetter(c) || IsLatin1Letter(c)
  }

  predicate IsLowerLetter(c: char) {
    'a' <= c <= 'z' || ('à' <= c <= 'þ' && c != '÷')
  }

  predicate IsUpperLetter(c: char) {
    'A' <= c <= 'Z' || ('À' <= c <= 'Þ' && c != '×')
  }

  function UpperChar(c: char): (u: char)
    ensures IsLowerLetter(c) ==> IsUpperLetter(u) && u as int == c as int - 32
    ensures !IsLowerLetter(c) ==> u == c
  {
    if IsLowerLetter(c) then (c as int - 32) as char else c
  }

  function LowerChar(c: char): (l: char)
    ensures IsUpperLetter(c) ==> IsLowerLetter(l) && l as int == c as int + 32
    ensures !IsUpperLetter(c) ==> l == c
  {
    if IsUpperLetter(c) then (c as int + 32) as char else c
  }

  function UpperFrom(s: string, i: nat): (r: string)
    requires i <= |s|
    ensures |r| == |s| - i
    decreases |s| - i
  {
    if i == |s| then [] else [UpperChar(s[i])] + UpperFrom(s, i + 1)
  }

  lemma {:induction false} UpperFromChars(s: string, i: nat)
    requires i <= |s|
    ensures forall k | 0 <= k < |s| - i :: UpperFrom(s, i)[k] == UpperChar(s[i + k])
    decreases |s| - i
  {
    if i < |s| {
      UpperFromChars(s, i + 1);
    }
  }

  /** `s.upper()` */
  function Upper(s: string): (r: string)
    ensures |r| == |s|
    ensures forall k | 0 <= k < |s| :: r[k] == UpperChar(s[k])
  {
    UpperFromChars(s, 0);
    UpperFrom(s, 0)
  }

  /** `s.upper() == u` as soon as `u` is `s` mapped character by character */
  lemma UpperIs(s: string, u: string)
    requires |u| == |s| && forall k | 0 <= k < |s| :: u[k] == UpperChar(s[k])
    ensures Upper(s) == u
  {
  }

  /** `(a + b).upper() == a.upper() + b.upper()` */
  lemma UpperAppend(a: string, b: string)
    ensures Upper(a + b) == Upper(a) + Upper(b)
  {
    assert forall k | 0 <= k < |a + b| :: Upper(a + b)[k] == (Upper(a) + Upper(b))[k];
  }

  function LowerFrom(s: string, i: nat): (r: string)
    requires i <= |s|
    ensures |r| == |s| - i
    decreases |s| - i
  {
    if i == |s| then [] else [LowerChar(s[i])] + LowerFrom(s, i + 1)
  }

  lemma {:induction false} LowerFromChars(s: string, i: nat)
    requires i <= |s|
    ensures forall k | 0 <= k < |s| - i :: LowerFrom(s, i)[k] == LowerChar(s[i + k])
    decreases |s| - i
  {
    if i < |s| {
      LowerFromChars(s, i + 1);
    }
  }

  /** `s.lower()` */
  function Lower(s: string): (r: string)
    ensures |r| == |s|
    ensures forall k | 0 <= k < |s| :: r[k] == LowerChar(s[k])
  {
    LowerFromChars(s, 0);
    LowerFrom(s, 0)
  }

  /** How `str.title` maps the character at index `k`: lower-case after a cased character, upper-case otherwise */
  function TitleCharAt(s: string, k: nat): char
    requires k < |s|
  {
    if k > 0 && IsCased(s[k - 1]) then LowerChar(s[k]) else UpperChar(s[k])
  }

  function TitleFrom(s: string, i: nat): (r: string)
    requires i <= |s|
    ensures |r| == |s| - i
    decreases |s| - i
  {
    if i == |s| then [] else [TitleCharAt(s, i)] + TitleFrom(s, i + 1)
  }

  /** `s.title()` */
  function Title(s: string): (r: string)
    ensures |r| == |s|
  {
    TitleFrom(s, 0)
  }

  lemma {:induction false} TitleFromChars(s: string, i: nat)
    requires i <= |s|
    ensures forall k | 0 <= k < |s| - i :: TitleFrom(s, i)[k] == TitleCharAt(s, i + k)
    decreases |s| - i
  {
    if i < |s| {
      TitleFromChars(s, i + 1);
    }
  }

  /** `s.title()` maps each character by what precedes it */
  lemma TitleChars(s: string)
    ensures forall k | 0 <= k < |s| :: Title(s)[k] == TitleCharAt(s, k)
  {
    TitleFromChars(s, 0);
  }

  predicate AllSpace(s: string) {
    forall k | 0 <= k < |s| :: IsSpace(s[k])
  }

  predicate AllDigits(s: string) {
    forall k | 0 <= k < |s| :: IsDigit(s[k])
  }

  /** `s[i..j]` is all whitespace exactly when each of `s[i]`, ..., `s[j - 1]` is */
  lemma SpacesBetween(s: string, i: nat, j: nat)
    requires i <= j <= |s|
    ensures AllSpace(s[i..j]) <==> forall k | i <= k < j :: IsSpace(s[k])
  {
    assert forall k | i <= k < j :: s[i..j][k - i] == s[k];
  }

  /** `s[i..j]` is all digits exactly when each of `s[i]`, ..., `s[j - 1]` is */
  lemma DigitsBetween(s: string, i: nat, j: nat)
    requires i <= j <= |s|
    ensures AllDigits(s[i..j]) <==> forall k | i <= k < j :: IsDigit(s[k])
  {
    assert forall k | i <= k < j :: s[i..j][k - i] == s[k];
  }

  /** Index of the first non-space character at or after `i` (or `|s|`) */
  function SkipSpaces(s: string, i: nat): (j: nat)
    requires i <= |s|
    ensures i <= j <= |s|
    ensures AllSpace(s[i..j])
    ensures j < |s| ==> !IsSpace(s[j])
    decreases |s| - i
  {
    if i < |s| && IsSpace(s[i]) then SkipSpaces(s, i + 1) else i
  }

  /** Index of the first non-digit character at or after `i` (or `|s|`) */
  function SkipDigits(s: string, i: nat): (j: nat)
    requires i <= |s|
    ensures i <= j <= |s|
    ensures forall k | i <= k < j :: IsDigit(s[k])
    ensures j < |s| ==> !IsDigit(s[j])
    decreases |s| - i
  {
    if i < |s| && IsDigit(s[i]) then SkipDigits(s, i + 1) else i
  }

  /** `SkipSpaces` stops at the first non-space character */
  lemma {:induction false} SkipSpacesTo(s: string, i: nat, j: nat)
    requires i <= j <= |s|
    requires forall k | i <= k < j :: IsSpace(s[k])
    requires j < |s| ==> !IsSpace(s[j])
    ensures SkipSpaces(s, i) == j
    decreases j - i
  {
    if i < j {
      SkipSpacesTo(s, i + 1, j);
    }
  }

  /** `SkipDigits` stops at the first non-digit character */
  lemma {:induction false} SkipDigitsTo(s: string, i: nat, j: nat)
    requires i <= j <= |s|
    requires forall k | i <= k < j :: IsDigit(s[k])
    requires j < |s| ==> !IsDigit(s[j])
    ensures SkipDigits(s, i) == j
    decreases j - i
  {
    if i < j {
      SkipDigitsTo(s, i + 1, j);
    }
  }

  /** End of `s[..j]` once its trailing spaces are dropped */
  function DropTrailingSpaces(s: string, j: nat): (e: nat)
    requires j <= |s|
    ensures e <= j
    ensures AllSpace(s[e..j])
    ensures e > 0 ==> !IsSpace(s[e - 1])
  {
    if j > 0 && IsSpace(s[j - 1]) then
      var e := DropTrailingSpaces(s, j - 1);
      assert s[e..j] == s[e..j - 1] + [s[j - 1]];
      e
    else j
  }

  /** `s.strip()`: the slice of `s` between its leading and its trailing whitespace */
  function Strip(s: string): (r: string)
    ensures |r| <= |s|
    ensures r == [] <==> AllSpace(s)
    ensures r != [] ==> !IsSpace(r[0]) && !IsSpace(r[|r| - 1])
    ensures exists b | 0 <= b <= |s| - |r| :: r == s[b..b + |r|] && AllSpace(s[..b]) && AllSpace(s[b + |r|..])
  {
    var b := SkipSpaces(s, 0);
    var e := DropTrailingSpaces(s, |s|);
    if b < e then
      StripMiddle(s, b, e);
      s[b..e]
    else
      StripAllSpace(s, b, e);
      assert s[0..] == s;
      []
  }

  lemma StripMiddle(s: string, b: nat, e: nat)
    requires b == SkipSpaces(s, 0) && e == DropTrailingSpaces(s, |s|) && b < e
    ensures var r := s[b..e];
            r != [] && !IsSpace(r[0]) && !IsSpace(r[|r| - 1]) && !AllSpace(s) &&
            r == s[b..b + |r|] && AllSpace(s[..b]) && AllSpace(s[b + |r|..])
  {
    assert s[..b] == s[0..b];
    assert s[b + (e - b)..] == s[e..|s|];
  }

  lemma StripAllSpace(s: string, b: nat, e: nat)
    requires e <= b <= |s| && AllSpace(s[0..b]) && AllSpace(s[e..|s|])
    requires b < |s| ==> !IsSpace(s[b])
    ensures AllSpace(s)
  {
    forall k | e <= k < |s| ensures IsSpace(s[k]) {
      assert s[e..|s|][k - e] == s[k];
    }
    forall k | 0 <= k < |s| ensures IsSpace(s[k]) {
      assert s[0..b][k] == s[k];
    }
  }

  /** `sep.join(parts[..n])` */
  function JoinPrefix(sep: string, parts: seq<string>, n: nat): (r: string)
    requires n <= |parts|
  {
    if n == 0 then []
    else if n == 1 then parts[0]
    else JoinPrefix(sep, parts, n - 1) + sep + parts[n - 1]
  }

  /** `sep.join(parts)` */
  function Join(sep: string, parts: seq<string>): (r: string)
    ensures parts == [] ==> r == []
    ensures |parts| == 1 ==> r == parts[0]
  {
    JoinPrefix(sep, parts, |parts|)
  }

  /** A join is empty only when every part and (between parts) the separator are */
  lemma {:induction false} JoinPrefixNonEmpty(sep: string, parts: seq<string>, n: nat)
    requires 0 < n <= |parts|
    requires parts[0] != []
    ensures JoinPrefix(sep, parts, n) != []
  {
    if n > 1 {
      JoinPrefixNonEmpty(sep, parts, n - 1);
    }
  }

  lemma JoinNonEmpty(sep: string, parts: seq<string>)
    requires parts != [] && parts[0] != []
    ensures Join(sep, parts) != []
  {
    JoinPrefixNonEmpty(sep, parts, |parts|);
  }
}
