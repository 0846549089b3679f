/**
 * One `re.sub` call each: the left-to-right, non-overlapping scanners for the
 * three shapes of pattern the corrector uses. A scan looks at the ORIGINAL
 * string (boundaries and look-aheads are judged on it, not on what has already
 * been replaced) and, after a match, resumes right after it, as `re.sub` does.
 *
 * The scanners are plain definitions; what they guarantee is stated by the
 * lemmas that follow each of them.
 */
module Rewrite {
  import opened Text

  datatype Option<T> = None | Some(value: T)

  /** `pat` occurs in `s` starting at index `i` */
  predicate HasAt(s: string, pat: string, i: nat) {
    i + |pat| <= |s| && s[i..i + |pat|] == pat
  }

  ghost predicate Occurs(s: string, pat: string) {
    exists i: nat :: HasAt(s, pat, i)
  }

  /** Every character of `r` is taken from `s` or from `extra` */
  predicate CharsFrom(r: string, s: string, extra: string) {
    forall k | 0 <= k < |r| :: r[k] in s || r[k] in extra
  }

  /** No character of `s` is in `x` */
  predicate Lacks(s: string, x: set<char>) {
    forall i | 0 <= i < |s| :: s[i] !in x
  }

  /** A text lacks what both its head and its tail lack */
  lemma LacksSplit(s: string, b: nat, x: set<char>)
    requires b <= |s| && Lacks(s[..b], x) && Lacks(s[b..], x)
    ensures Lacks(s, x)
  {
    forall i | 0 <= i < |s| ensures s[i] !in x {
      if i < b {
        assert s[..b][i] == s[i];
      } else {
        assert s[b..][i - b] == s[i];
      }
    }
  }

  /** A pattern with a character `s` lacks does not occur in `s` */
  lemma MissingCharNotOccurs(s: string, pat: string, k: nat, x: set<char>)
    requires k < |pat| && pat[k] in x && Lacks(s, x)
    ensures !Occurs(s, pat)
  {
    forall i: nat ensures !HasAt(s, pat, i) {
      if i + |pat| <= |s| {
        assert s[i..i + |pat|][k] == s[i + k];
      }
    }
  }

  /** A pattern that does not start at `b`, whose first character appears nowhere else in `s`, does not occur */
  lemma OccursAtMostAt(s: string, pat: string, b: nat)
    requires pat != [] && b < |s|
    requires pat[0] !in s[..b] && pat[0] !in s[b + 1..] && !HasAt(s, pat, b)
    ensures !Occurs(s, pat)
  {
    forall i: nat ensures !HasAt(s, pat, i) {
      if i + |pat| <= |s| && i != b {
        assert s[i..i + |pat|][0] == s[i];
        if i < b {
          assert s[..b][i] == s[i];
        } else {
          assert s[b + 1..][i - b - 1] == s[i];
        }
      }
    }
  }

  /** No occurrence of `pat` starts in `s[i..j]` when that slice lacks the first character of `pat` */
  lemma FirstCharMissing(s: string, pat: string, i: nat, j: nat)
    requires pat != [] && i <= j <= |s| && pat[0] !in s[i..j]
    ensures forall k | i <= k < j :: !HasAt(s, pat, k)
  {
    forall k | i <= k < j ensures !HasAt(s, pat, k) {
      assert s[i..j][k - i] == s[k];
      if k + |pat| <= |s| {
        assert s[k..k + |pat|][0] == s[k];
      }
    }
  }

  // ---------------------------------------------------------------------------
  // \bKEY\b  (whole-word lexicon substitution)
  // ---------------------------------------------------------------------------

  /** `\b` at index `i`: exactly one of the characters around `i` is a word character */
  predicate AtWordBoundary(s: string, i: nat)
    requires i <= |s|
  {
    (i > 0 && IsWordChar(s[i - 1])) != (i < |s| && IsWordChar(s[i]))
  }

  /** `\bKEY\b` matches at index `i` */
  predicate WholeWordAt(s: string, key: string, i: nat)
    requires i <= |s|
  {
    HasAt(s, key, i) && AtWordBoundary(s, i) && AtWordBoundary(s, i + |key|)
  }

  /** Where the leftmost match of `\bKEY\b` at or after `i` starts (`|s|` when there is none) */
  function NextWholeWord(s: string, key: string, i: nat): (k: nat)
    requires i <= |s|
    ensures i <= k <= |s|
    ensures forall m | i <= m < k :: !WholeWordAt(s, key, m)
    ensures k < |s| ==> WholeWordAt(s, key, k)
    decreases |s| - i
  {
    if i == |s| || WholeWordAt(s, key, i) then i else NextWholeWord(s, key, i + 1)
  }

  /** The leftmost match at or after `i` is the first index from `i` on that matches */
  lemma {:induction false} NextWholeWordIs(s: string, key: string, i: nat, k: nat)
    requires i <= k < |s|
    requires forall m | i <= m < k :: !WholeWordAt(s, key, m)
    requires WholeWordAt(s, key, k)
    ensures NextWholeWord(s, key, i) == k
    decreases k - i
  {
    if i < k {
      NextWholeWordIs(s, key, i + 1, k);
    }
  }

  /**
   * The output of `re.sub(r'\b' + re.escape(key) + r'\b', val, s)` produced
   * from index `i` on: copy up to the next match, write `val`, resume after it.
   */
  function ReplaceWholeWordFrom(s: string, key: string, val: string, i: nat): (r: string)
    requires key != [] && i <= |s|
    ensures |val| == |key| ==> |r| == |s| - i
    decreases |s| - i
  {
    var k := NextWholeWord(s, key, i);
    if k == |s| then s[i..] else s[i..k] + val + ReplaceWholeWordFrom(s, key, val, k + |key|)
  }

  function ReplaceWholeWord(s: string, key: string, val: string): string
    requires key != []
  {
    ReplaceWholeWordFrom(s, key, val, 0)
  }

  /** Without a whole-word match from `i` on, the rest of `s` is copied unchanged */
  lemma WholeWordKeeps(s: string, key: string, val: string, i: nat)
    requires key != [] && i <= |s|
    requires forall j | i <= j < |s| :: !WholeWordAt(s, key, j)
    ensures ReplaceWholeWordFrom(s, key, val, i) == s[i..]
  {
    assert NextWholeWord(s, key, i) == |s|;
  }

  /** When the leftmost match from `i` on is at `k`, `s[i..k]` is copied and `val` written in its place */
  lemma WholeWordFirstAt(s: string, key: string, val: string, i: nat, k: nat)
    requires key != [] && i <= k < |s|
    requires forall m | i <= m < k :: !WholeWordAt(s, key, m)
    requires WholeWordAt(s, key, k)
    ensures ReplaceWholeWordFrom(s, key, val, i) == s[i..k] + val + ReplaceWholeWordFrom(s, key, val, k + |key|)
  {
    NextWholeWordIs(s, key, i, k);
  }

  /** A key at the start of `s`, ending on a word boundary and found nowhere else, is the one replacement */
  lemma WholeWordAtStart(s: string, key: string, val: string)
    requires key != [] && HasAt(s, key, 0) && key[0] !in s[1..]
    requires IsWordChar(key[0]) && IsWordChar(key[|key| - 1])
    requires |key| < |s| ==> !IsWordChar(s[|key|])
    ensures ReplaceWholeWord(s, key, val) == val + s[|key|..]
  {
    assert s[..|key|] == key;
    forall j | |key| <= j < |s| ensures !WholeWordAt(s, key, j) {
      assert s[1..][j - 1] == s[j];
      if j + |key| <= |s| {
        assert s[j..j + |key|][0] == s[j];
      }
    }
    WholeWordFirstAt(s, key, val, 0, 0);
    WholeWordKeeps(s, key, val, |key|);
  }

  /** A text that is exactly a key made of word characters at both ends is replaced whole */
  lemma WholeWordIsText(key: string, val: string)
    requires key != [] && IsWordChar(key[0]) && IsWordChar(key[|key| - 1])
    ensures ReplaceWholeWord(key, key, val) == val
  {
    assert HasAt(key, key, 0);
    WholeWordFirstAt(key, key, val, 0, 0);
    WholeWordKeeps(key, key, val, |key|);
    assert key[|key|..] == [];
  }

  /** A key at the start of `s` that runs on into a word character, and is found nowhere else, is not replaced */
  lemma PartOfWordAtStart(s: string, key: string, val: string)
    requires key != [] && HasAt(s, key, 0) && key[0] !in s[1..]
    requires |key| < |s| && IsWordChar(key[|key| - 1]) && IsWordChar(s[|key|])
    ensures ReplaceWholeWord(s, key, val) == s
  {
    assert s[..|key|] == key;
    forall j | 0 <= j < |s| ensures !WholeWordAt(s, key, j) {
      if j > 0 {
        assert s[1..][j - 1] == s[j];
        if j + |key| <= |s| {
          assert s[j..j + |key|][0] == s[j];
        }
      }
    }
    WholeWordKeeps(s, key, val, 0);
  }

  /** A non-empty replacement leaves a non-empty rest non-empty */
  lemma WholeWordNonEmpty(s: string, key: string, val: string, i: nat)
    requires key != [] && i <= |s| && val != []
    ensures ReplaceWholeWordFrom(s, key, val, i) == [] <==> i == |s|
  {
  }

  // ---------------------------------------------------------------------------
  // a single character, replaced everywhere
  // ---------------------------------------------------------------------------

  function ReplaceCharFrom(s: string, stray: char, fixed: char, i: nat): (r: string)
    requires i <= |s|
    ensures |r| == |s| - i
    ensures stray != fixed ==> stray !in r
    decreases |s| - i
  {
    if i == |s| then []
    else [if s[i] == stray then fixed else s[i]] + ReplaceCharFrom(s, stray, fixed, i + 1)
  }

  /** `re.sub(stray, fixed, s)` for a one-character pattern */
  function ReplaceChar(s: string, stray: char, fixed: char): (r: string)
    ensures |r| == |s|
    ensures stray != fixed ==> stray !in r
  {
    ReplaceCharFrom(s, stray, fixed, 0)
  }

  /** Each character is kept, except `stray`, which becomes `fixed` */
  lemma {:induction false} ReplaceCharEach(s: string, stray: char, fixed: char, i: nat)
    requires i <= |s|
    ensures |ReplaceCharFrom(s, stray, fixed, i)| == |s| - i
    ensures forall k | 0 <= k < |s| - i ::
              ReplaceCharFrom(s, stray, fixed, i)[k] == (if s[i + k] == stray then fixed else s[i + k])
    decreases |s| - i
  {
    if i < |s| {
      ReplaceCharEach(s, stray, fixed, i + 1);
      var rest := ReplaceCharFrom(s, stray, fixed, i + 1);
      var r := [if s[i] == stray then fixed else s[i]] + rest;
      assert ReplaceCharFrom(s, stray, fixed, i) == r;
      forall k | 1 <= k < |s| - i ensures r[k] == (if s[i + k] == stray then fixed else s[i + k]) {
        assert r[k] == rest[k - 1];
      }
    }
  }

  // ---------------------------------------------------------------------------
  // PAT(?![a-zA-Z])  (a literal not followed by an ASCII letter)
  // ---------------------------------------------------------------------------

  predicate NotBeforeLetterAt(s: string, pat: string, i: nat) {
    HasAt(s, pat, i) && !(i + |pat| < |s| && IsAsciiLetter(s[i + |pat|]))
  }

  /** Where the leftmost match of `PAT(?![a-zA-Z])` at or after `i` starts (`|s|` when there is none) */
  function NextNotBeforeLetter(s: string, pat: string, i: nat): (k: nat)
    requires i <= |s|
    ensures i <= k <= |s|
    ensures forall m | i <= m < k :: !NotBeforeLetterAt(s, pat, m)
    ensures k < |s| ==> NotBeforeLetterAt(s, pat, k)
    decreases |s| - i
  {
    if i == |s| || NotBeforeLetterAt(s, pat, i) then i else NextNotBeforeLetter(s, pat, i + 1)
  }

  /** The leftmost match at or after `i` is the first index from `i` on that matches */
  lemma {:induction false} NextNotBeforeLetterIs(s: string, pat: string, i: nat, k: nat)
    requires i <= k < |s|
    requires forall m | i <= m < k :: !NotBeforeLetterAt(s, pat, m)
    requires NotBeforeLetterAt(s, pat, k)
    ensures NextNotBeforeLetter(s, pat, i) == k
    decreases k - i
  {
    if i < k {
      NextNotBeforeLetterIs(s, pat, i + 1, k);
    }
  }

  /** The output of `re.sub(pat + r'(?![a-zA-Z])', rep, s)` produced from index `i` on */
  function ReplaceNotBeforeLetterFrom(s: string, pat: string, rep: string, i: nat): (r: string)
    requires pat != [] && i <= |s|
    ensures |rep| == |pat| ==> |r| == |s| - i
    decreases |s| - i
  {
    var k := NextNotBeforeLetter(s, pat, i);
    if k == |s| then s[i..] else s[i..k] + rep + ReplaceNotBeforeLetterFrom(s, pat, rep, k + |pat|)
  }

  /** Without a match from `i` on, the rest of `s` is copied unchanged */
  lemma NotBeforeLetterKeeps(s: string, pat: string, rep: string, i: nat)
    requires pat != [] && i <= |s|
    requires forall j | i <= j < |s| :: !NotBeforeLetterAt(s, pat, j)
    ensures ReplaceNotBeforeLetterFrom(s, pat, rep, i) == s[i..]
  {
    assert NextNotBeforeLetter(s, pat, i) == |s|;
  }

  /** When the leftmost match from `i` on is at `k`, `s[i..k]` is copied and `rep` written in its place */
  lemma NotBeforeLetterFirstAt(s: string, pat: string, rep: string, i: nat, k: nat)
    requires pat != [] && i <= k < |s|
    requires forall m | i <= m < k :: !NotBeforeLetterAt(s, pat, m)
    requires NotBeforeLetterAt(s, pat, k)
    ensures ReplaceNotBeforeLetterFrom(s, pat, rep, i) == s[i..k] + rep + ReplaceNotBeforeLetterFrom(s, pat, rep, k + |pat|)
  {
    NextNotBeforeLetterIs(s, pat, i, k);
  }

  /** A match that ends the text, with no earlier occurrence of the pattern, is the only replacement */
  lemma NotBeforeLetterAtEnd(s: string, pat: string, rep: string, b: nat)
    requires pat != [] && b + |pat| == |s| && s[b..] == pat && pat[0] !in s[..b]
    ensures ReplaceNotBeforeLetterFrom(s, pat, rep, 0) == s[..b] + rep
  {
    forall m | 0 <= m < b ensures !NotBeforeLetterAt(s, pat, m) {
      assert s[..b][m] == s[m];
      if m + |pat| <= |s| {
        assert s[m..m + |pat|][0] == s[m];
      }
    }
    assert HasAt(s, pat, b);
    NotBeforeLetterFirstAt(s, pat, rep, 0, b);
    NotBeforeLetterKeeps(s, pat, rep, |s|);
    assert s[0..b] == s[..b];
  }

  lemma NotBeforeLetterNonEmpty(s: string, pat: string, rep: string, i: nat)
    requires pat != [] && i <= |s| && rep != []
    ensures ReplaceNotBeforeLetterFrom(s, pat, rep, i) == [] <==> i == |s|
  {
  }

  /** The output is made of characters of `s` and of `rep` */
  lemma {:induction false} NotBeforeLetterChars(s: string, pat: string, rep: string, i: nat)
    requires pat != [] && i <= |s|
    ensures CharsFrom(ReplaceNotBeforeLetterFrom(s, pat, rep, i), s, rep)
    decreases |s| - i
  {
    var k := NextNotBeforeLetter(s, pat, i);
    SliceChars(s, i, k);
    if k < |s| {
      NotBeforeLetterChars(s, pat, rep, k + |pat|);
    } else {
      assert s[i..] == s[i..k];
    }
  }

  /** A slice is made of characters of the string it is cut from */
  lemma SliceChars(s: string, i: nat, k: nat)
    requires i <= k <= |s|
    ensures forall m | 0 <= m < k - i :: s[i..k][m] in s
  {
    forall m | 0 <= m < k - i ensures s[i..k][m] in s {
      assert s[i..k][m] == s[i + m];
    }
  }

  // ---------------------------------------------------------------------------
  // (<\s*\d+|\d+)\s*MISREAD  ->  \1 + UNIT
  // ---------------------------------------------------------------------------

  /**
   * Where group 1 of `(<\s*\d+|\d+)` ends when matched at index `i`. Both
   * alternatives are deterministic: spaces, digits and `<` are disjoint, so the
   * greedy runs are the only ones after which the rest of the pattern can go on.
   */
  function CountEnd(s: string, i: nat): (g: Option<nat>)
    requires i <= |s|
    ensures g.Some? ==> i < g.value <= |s| && IsDigit(s[g.value - 1])
    ensures g.Some? ==> (s[i] == '<' || IsDigit(s[i]))
  {
    if i < |s| && s[i] == '<' then
      var j := SkipSpaces(s, i + 1);
      var k := SkipDigits(s, j);
      if j < k then Some(k) else None
    else if i < |s| && IsDigit(s[i]) then
      Some(SkipDigits(s, i))
    else None
  }

  /** Where group 1 and the whole match of `(<\s*\d+|\d+)\s*MISREAD` end when matched at `i` */
  function CountUnitAt(s: string, misread: string, i: nat): (m: Option<(nat, nat)>)
    requires i <= |s|
    ensures m.Some? ==> i < m.value.0 <= m.value.1 <= |s|
    ensures m.Some? ==> m.value.1 >= |misread| && HasAt(s, misread, m.value.1 - |misread|)
    ensures m.Some? ==> m.value.1 - |misread| >= m.value.0
  {
    match CountEnd(s, i)
    case None => None
    case Some(g) =>
      var k := SkipSpaces(s, g);
      if HasAt(s, misread, k) then Some((g, k + |misread|)) else None
  }

  /** Where the leftmost match of `(<\s*\d+|\d+)\s*MISREAD` at or after `i` starts (`|s|` when there is none) */
  function NextCountUnit(s: string, misread: string, i: nat): (k: nat)
    requires i <= |s|
    ensures i <= k <= |s|
    ensures forall m | i <= m < k :: CountUnitAt(s, misread, m).None?
    ensures k < |s| ==> CountUnitAt(s, misread, k).Some?
    decreases |s| - i
  {
    if i == |s| || CountUnitAt(s, misread, i).Some? then i else NextCountUnit(s, misread, i + 1)
  }

  /** The leftmost match at or after `i` is the first index from `i` on that matches */
  lemma {:induction false} NextCountUnitIs(s: string, misread: string, i: nat, k: nat)
    requires i <= k < |s|
    requires forall m | i <= m < k :: CountUnitAt(s, misread, m).None?
    requires CountUnitAt(s, misread, k).Some?
    ensures NextCountUnit(s, misread, i) == k
    decreases k - i
  {
    if i < k {
      NextCountUnitIs(s, misread, i + 1, k);
    }
  }

  /** The output of `re.sub(r'(<\s*\d+|\d+)\s*' + misread, r'\1' + unit, s)` produced from index `i` on */
  function ReplaceCountUnitFrom(s: string, misread: string, unit: string, i: nat): string
    requires i <= |s|
    decreases |s| - i
  {
    var k := NextCountUnit(s, misread, i);
    if k == |s| then s[i..]
    else
      var (g, e) := CountUnitAt(s, misread, k).value;
      s[i..g] + unit + ReplaceCountUnitFrom(s, misread, unit, e)
  }

  /** Where `misread` does not occur from `i` on, the rest of `s` is copied unchanged */
  lemma CountUnitKeeps(s: string, misread: string, unit: string, i: nat)
    requires i <= |s|
    requires forall j | i <= j <= |s| :: !HasAt(s, misread, j)
    ensures ReplaceCountUnitFrom(s, misread, unit, i) == s[i..]
  {
    forall j | i <= j < |s| ensures CountUnitAt(s, misread, j).None? {
    }
    assert NextCountUnit(s, misread, i) == |s|;
  }

  /** When the leftmost match from `i` on is at `k`, everything up to the end of group 1 is kept and `unit` written after it */
  lemma CountUnitFirstAt(s: string, misread: string, unit: string, i: nat, k: nat, g: nat, e: nat)
    requires i <= k < |s|
    requires forall m | i <= m < k :: CountUnitAt(s, misread, m).None?
    requires CountUnitAt(s, misread, k) == Some((g, e))
    ensures ReplaceCountUnitFrom(s, misread, unit, i) == s[i..g] + unit + ReplaceCountUnitFrom(s, misread, unit, e)
  {
    NextCountUnitIs(s, misread, i, k);
  }

  lemma CountUnitNonEmpty(s: string, misread: string, unit: string, i: nat)
    requires i <= |s|
    ensures ReplaceCountUnitFrom(s, misread, unit, i) == [] <==> i == |s|
  {
  }

  /** The output is made of characters of `s` and of `unit` */
  lemma {:induction false} CountUnitChars(s: string, misread: string, unit: string, i: nat)
    requires i <= |s|
    ensures CharsFrom(ReplaceCountUnitFrom(s, misread, unit, i), s, unit)
    decreases |s| - i
  {
    var k := NextCountUnit(s, misread, i);
    if k < |s| {
      var (g, e) := CountUnitAt(s, misread, k).value;
      SliceChars(s, i, g);
      CountUnitChars(s, misread, unit, e);
    } else {
      SliceChars(s, i, k);
      assert s[i..] == s[i..k];
    }
  }

  /** Group 1, `<\s*\d+|\d+`, matches exactly `s[i..g]` */
  ghost predicate CountGroup(s: string, i: nat, g: nat)
    requires i < g <= |s|
  {
    AllDigits(s[i..g])
      || (s[i] == '<' && exists j | i < j < g :: AllSpace(s[i + 1..j]) && AllDigits(s[j..g]))
  }

  /** `(<\s*\d+|\d+)\s*MISREAD` matches exactly `s[i..e]`, with group 1 matching `s[i..g]` */
  ghost predicate CountMatch(s: string, misread: string, i: nat, g: nat, e: nat) {
    i < g && g + |misread| <= e <= |s|
      && CountGroup(s, i, g)
      && AllSpace(s[g..e - |misread|])
      && HasAt(s, misread, e - |misread|)
  }

  /** Group 1 ends in a digit */
  lemma CountGroupLastDigit(s: string, i: nat, g: nat)
    requires i < g <= |s| && CountGroup(s, i, g)
    ensures IsDigit(s[g - 1])
  {
    if AllDigits(s[i..g]) {
      assert s[i..g][g - 1 - i] == s[g - 1];
    } else {
      var j :| i < j < g && AllSpace(s[i + 1..j]) && AllDigits(s[j..g]);
      assert s[j..g][g - 1 - j] == s[g - 1];
    }
  }

  lemma HasAtFirst(s: string, pat: string, k: nat)
    requires HasAt(s, pat, k) && pat != []
    ensures s[k] == pat[0]
  {
    assert s[k..k + |pat|][0] == s[k];
  }

  lemma HasAtLast(s: string, pat: string, k: nat)
    requires HasAt(s, pat, k) && pat != []
    ensures s[k + |pat| - 1] == pat[|pat| - 1]
  {
    assert s[k..k + |pat|][|pat| - 1] == s[k + |pat| - 1];
  }

  /** What the scanner reports is a match of the pattern */
  lemma CountUnitAtMatches(s: string, misread: string, i: nat)
    requires i <= |s| && CountUnitAt(s, misread, i).Some?
    ensures CountMatch(s, misread, i, CountUnitAt(s, misread, i).value.0, CountUnitAt(s, misread, i).value.1)
  {
    var (g, e) := CountUnitAt(s, misread, i).value;
    if s[i] == '<' {
      var j := SkipSpaces(s, i + 1);
      DigitsBetween(s, j, g);
      assert AllSpace(s[i + 1..j]) && AllDigits(s[j..g]);
    } else {
      DigitsBetween(s, i, g);
    }
  }

  /** Group 1 as the scanner finds it, when the text goes on with something other than a digit */
  lemma CountEndIs(s: string, i: nat, g: nat)
    requires i < g < |s| && CountGroup(s, i, g) && !IsDigit(s[g])
    ensures CountEnd(s, i) == Some(g)
  {
    if AllDigits(s[i..g]) {
      DigitsBetween(s, i, g);
      SkipDigitsTo(s, i, g);
    } else {
      var j :| i < j < g && AllSpace(s[i + 1..j]) && AllDigits(s[j..g]);
      SpacesBetween(s, i + 1, j);
      DigitsBetween(s, j, g);
      SkipSpacesTo(s, i + 1, j);
      SkipDigitsTo(s, j, g);
    }
  }

  /** A match of the pattern is what the scanner reports, when `misread` cannot continue the count or the spaces */
  lemma CountMatchFound(s: string, misread: string, i: nat, g: nat, e: nat)
    requires misread != [] && !IsSpace(misread[0]) && !IsDigit(misread[0])
    requires CountMatch(s, misread, i, g, e)
    ensures CountUnitAt(s, misread, i) == Some((g, e))
  {
    var q := e - |misread|;
    HasAtFirst(s, misread, q);
    SpacesBetween(s, g, q);
    CountEndIs(s, i, g);
    SkipSpacesTo(s, g, q);
  }

  /**
   * The scanner at `i` reports group 1 ending at `g` and the match at `e`
   * exactly when the pattern matches `s[i..e]` with group 1 `s[i..g]`; in
   * particular it reports nothing exactly when the pattern matches nowhere
   * from `i`.
   */
  lemma CountUnitAtMeans(s: string, misread: string, i: nat, g: nat, e: nat)
    requires i <= |s| && misread != [] && !IsSpace(misread[0]) && !IsDigit(misread[0])
    ensures CountUnitAt(s, misread, i) == Some((g, e)) <==> CountMatch(s, misread, i, g, e)
  {
    if CountUnitAt(s, misread, i) == Some((g, e)) {
      CountUnitAtMatches(s, misread, i);
    }
    if CountMatch(s, misread, i, g, e) {
      CountMatchFound(s, misread, i, g, e);
    }
  }

  // ---------------------------------------------------------------------------
  // rules and rule lists
  // ---------------------------------------------------------------------------

  /** A `(pattern, replacement)` pair of the corrector, by the shape of its pattern */
  datatype Rule =
    | CharRule(stray: char, fixed: char)
    | NotBeforeLetter(pattern: string, replacement: string)
    | CountThenUnit(misread: string, unit: string)

  predicate WellFormed(rule: Rule) {
    rule.NotBeforeLetter? ==> rule.pattern != []
  }

  predicate AllWellFormed(rules: seq<Rule>) {
    forall j | 0 <= j < |rules| :: WellFormed(rules[j])
  }

  /** The characters a rule writes into the text */
  function Introduces(rule: Rule): string {
    match rule
    case CharRule(_, fixed) => [fixed]
    case NotBeforeLetter(_, replacement) => replacement
    case CountThenUnit(_, unit) => unit
  }

  /** The characters a character rule takes out of the text */
  function Removes(rule: Rule): set<char> {
    if rule.CharRule? then {rule.stray} else {}
  }

  /** Every character of `r` is a character of `s` outside `removed`, or one of `written` */
  predicate MadeOf(r: string, s: string, removed: set<char>, written: string) {
    forall k | 0 <= k < |r| :: (r[k] in s && r[k] !in removed) || r[k] in written
  }

  /** `re.sub(pattern, replacement, s)` */
  function ApplyRule(rule: Rule, s: string): string
    requires WellFormed(rule)
  {
    match rule
    case CharRule(stray, fixed) => ReplaceChar(s, stray, fixed)
    case NotBeforeLetter(pattern, replacement) => ReplaceNotBeforeLetterFrom(s, pattern, replacement, 0)
    case CountThenUnit(misread, unit) => ReplaceCountUnitFrom(s, misread, unit, 0)
  }

  /** A rule's output is made of the characters it was given, minus the one a character rule replaces, and of those it writes */
  lemma RuleOutputChars(rule: Rule, s: string)
    requires WellFormed(rule)
    ensures MadeOf(ApplyRule(rule, s), s, Removes(rule), Introduces(rule))
  {
    match rule
    case CharRule(stray, fixed) =>
      ReplaceCharEach(s, stray, fixed, 0);
    case NotBeforeLetter(pattern, replacement) =>
      NotBeforeLetterChars(s, pattern, replacement, 0);
    case CountThenUnit(misread, unit) =>
      CountUnitChars(s, misread, unit, 0);
  }

  /** A rule that writes something never empties a non-empty text */
  lemma RuleNonEmpty(rule: Rule, s: string)
    requires WellFormed(rule) && Introduces(rule) != []
    ensures ApplyRule(rule, s) == [] <==> s == []
  {
    match rule
    case CharRule(stray, fixed) =>
      ReplaceCharEach(s, stray, fixed, 0);
    case NotBeforeLetter(pattern, replacement) =>
      NotBeforeLetterNonEmpty(s, pattern, replacement, 0);
    case CountThenUnit(misread, unit) =>
      CountUnitNonEmpty(s, misread, unit, 0);
  }

  /** The characters the first `n` rules write */
  function IntroducedBy(rules: seq<Rule>, n: nat): string
    requires n <= |rules|
  {
    if n == 0 then [] else IntroducedBy(rules, n - 1) + Introduces(rules[n - 1])
  }

  /** `rule` writes no character of `x` */
  predicate WritesNone(rule: Rule, x: set<char>) {
    forall k | 0 <= k < |Introduces(rule)| :: Introduces(rule)[k] !in x
  }

  /** When none of the first `n` rules writes a character of `x`, none of them together does */
  lemma {:induction false} IntroducedByAvoids(rules: seq<Rule>, n: nat, x: set<char>)
    requires n <= |rules|
    requires forall j | 0 <= j < n :: WritesNone(rules[j], x)
    ensures forall c | c in IntroducedBy(rules, n) :: c !in x
  {
    if n > 0 {
      IntroducedByAvoids(rules, n - 1, x);
      assert WritesNone(rules[n - 1], x);
    }
  }

  /** The characters the character rules among the first `n` remove */
  function RemovedBy(rules: seq<Rule>, n: nat): set<char>
    requires n <= |rules|
  {
    if n == 0 then {} else RemovedBy(rules, n - 1) + Removes(rules[n - 1])
  }

  /** The first `n` rules applied in list order, as the loop over the rule table does */
  function ApplyRules(rules: seq<Rule>, s: string, n: nat): string
    requires n <= |rules| && AllWellFormed(rules)
  {
    if n == 0 then s else ApplyRule(rules[n - 1], ApplyRules(rules, s, n - 1))
  }

  lemma ApplyRulesStep(rules: seq<Rule>, s: string, n: nat, r: string)
    requires n < |rules| && AllWellFormed(rules)
    requires r == ApplyRule(rules[n], ApplyRules(rules, s, n))
    ensures r == ApplyRules(rules, s, n + 1)
  {
  }

  /**
   * Every character the first `n` rules leave in the text was already there and
   * is not one a character rule among them removes, or is one they write.
   */
  lemma {:induction false} RulesOutputChars(rules: seq<Rule>, s: string, n: nat)
    requires n <= |rules| && AllWellFormed(rules)
    ensures MadeOf(ApplyRules(rules, s, n), s, RemovedBy(rules, n), IntroducedBy(rules, n))
  {
    if n > 0 {
      RulesOutputChars(rules, s, n - 1);
      var prev := ApplyRules(rules, s, n - 1);
      RuleOutputChars(rules[n - 1], prev);
      MadeOfThen(ApplyRule(rules[n - 1], prev), prev, s,
                 RemovedBy(rules, n - 1), IntroducedBy(rules, n - 1), Removes(rules[n - 1]), Introduces(rules[n - 1]));
    }
  }

  /** Two passes: what the second leaves comes from the original text, minus both removals, or from what either wrote */
  lemma MadeOfThen(r: string, mid: string, s: string, removed1: set<char>, written1: string, removed2: set<char>, written2: string)
    requires MadeOf(mid, s, removed1, written1) && MadeOf(r, mid, removed2, written2)
    ensures MadeOf(r, s, removed1 + removed2, written1 + written2)
  {
    forall k | 0 <= k < |r| ensures (r[k] in s && r[k] !in removed1 + removed2) || r[k] in written1 + written2 {
      if r[k] in mid && r[k] !in removed2 {
        var j :| 0 <= j < |mid| && mid[j] == r[k];
        assert (mid[j] in s && mid[j] !in removed1) || mid[j] in written1;
      }
    }
  }

  /** When every one of the first `n` rules writes something, a non-empty text stays non-empty */
  lemma {:induction false} RulesNonEmpty(rules: seq<Rule>, s: string, n: nat)
    requires n <= |rules| && AllWellFormed(rules)
    requires forall j | 0 <= j < n :: Introduces(rules[j]) != []
    ensures ApplyRules(rules, s, n) == [] <==> s == []
  {
    if n > 0 {
      RulesNonEmpty(rules, s, n - 1);
      RuleNonEmpty(rules[n - 1], ApplyRules(rules, s, n - 1));
    }
  }

  /** What the character rules among the first `n` make of the character `c`, one after the other */
  function CharRulesOn(rules: seq<Rule>, n: nat, c: char): char
    requires n <= |rules|
  {
    if n == 0 then c
    else
      var d := CharRulesOn(rules, n - 1, c);
      match rules[n - 1]
      case CharRule(stray, fixed) => if d == stray then fixed else d
      case _ => d
  }

  /** A prefix of character rules rewrites the text character by character */
  lemma {:induction false} CharRulesPointwise(rules: seq<Rule>, s: string, n: nat)
    requires n <= |rules| && AllWellFormed(rules)
    requires forall j | 0 <= j < n :: rules[j].CharRule?
    ensures |ApplyRules(rules, s, n)| == |s|
    ensures forall i | 0 <= i < |s| :: ApplyRules(rules, s, n)[i] == CharRulesOn(rules, n, s[i])
  {
    if n > 0 {
      CharRulesPointwise(rules, s, n - 1);
      var prev := ApplyRules(rules, s, n - 1);
      ReplaceCharEach(prev, rules[n - 1].stray, rules[n - 1].fixed, 0);
    }
  }

  // ---------------------------------------------------------------------------
  // passes that find nothing to replace
  // ---------------------------------------------------------------------------

  /** Nothing for `rule` to match in `s` */
  ghost predicate Absent(rule: Rule, s: string) {
    match rule
    case CharRule(stray, _) => stray !in s
    case NotBeforeLetter(pattern, _) => !Occurs(s, pattern)
    case CountThenUnit(misread, _) => !Occurs(s, misread)
  }

  /** A rule with nothing to match leaves the text as it is */
  lemma AbsentRuleKeeps(rule: Rule, s: string)
    requires WellFormed(rule) && Absent(rule, s)
    ensures ApplyRule(rule, s) == s
  {
    match rule
    case CharRule(stray, fixed) =>
      ReplaceCharEach(s, stray, fixed, 0);
      assert forall k | 0 <= k < |s| :: s[k] != stray;
    case NotBeforeLetter(pattern, replacement) =>
      forall j | 0 <= j < |s| ensures !NotBeforeLetterAt(s, pattern, j) {
        assert !HasAt(s, pattern, j);
      }
      NotBeforeLetterKeeps(s, pattern, replacement, 0);
    case CountThenUnit(misread, unit) =>
      forall j | 0 <= j <= |s| ensures !HasAt(s, misread, j) {
        assert !HasAt(s, misread, j);
      }
      CountUnitKeeps(s, misread, unit, 0);
  }

  /** Rules `m..n-1` leave the text alone when each of them leaves what the first `m` produced alone */
  lemma {:induction false} UnchangedByRules(rules: seq<Rule>, s: string, m: nat, n: nat)
    requires m <= n <= |rules| && AllWellFormed(rules)
    requires forall j {:trigger ApplyRule(rules[j], ApplyRules(rules, s, m))} | m <= j < n ::
      ApplyRule(rules[j], ApplyRules(rules, s, m)) == ApplyRules(rules, s, m)
    ensures ApplyRules(rules, s, n) == ApplyRules(rules, s, m)
  {
    if m < n {
      UnchangedByRules(rules, s, m, n - 1);
      RuleLeaves(rules, s, n - 1, ApplyRules(rules, s, m));
    }
  }

  /** A rule that leaves the text the rules before it produced alone adds nothing */
  lemma RuleLeaves(rules: seq<Rule>, s: string, n: nat, x: string)
    requires n < |rules| && AllWellFormed(rules)
    requires ApplyRules(rules, s, n) == x && ApplyRule(rules[n], x) == x
    ensures ApplyRules(rules, s, n + 1) == x
  {
    ApplyRulesStep(rules, s, n, x);
  }

  // ---------------------------------------------------------------------------
  // what a pass leaves at the end of a text
  // ---------------------------------------------------------------------------

  /** `r` ends with `t` */
  predicate EndsWith(r: string, t: string) {
    |t| <= |r| && r[|r| - |t|..] == t
  }

  lemma EndsWithSlice(s: string, i: nat, b: nat)
    requires i <= b <= |s|
    ensures EndsWith(s[i..], s[b..])
  {
    assert s[i..][b - i..] == s[b..];
  }

  lemma EndsWithAppend(a: string, r: string, t: string)
    requires EndsWith(r, t)
    ensures EndsWith(a + r, t)
  {
    assert (a + r)[|a + r| - |t|..] == r[|r| - |t|..];
  }

  /** A pass that copies `s[i..]` keeps every end of it */
  lemma CopiedEnd(r: string, s: string, i: nat, b: nat)
    requires i <= b <= |s| && r == s[i..]
    ensures EndsWith(r, s[b..])
    ensures i == 0 ==> r == s
  {
    EndsWithSlice(s, i, b);
  }

  /** A pass that writes `a` and then what ends with `t` ends with `t` */
  lemma WrittenBefore(r: string, a: string, rest: string, t: string)
    requires r == a + rest && EndsWith(rest, t)
    ensures EndsWith(r, t)
  {
    EndsWithAppend(a, rest, t);
  }

  /**
   * An occurrence of `pat`, in a text that ends with `t`, that ends `j`
   * characters into `t`: wholly inside `t`, or, when `partial` (something may
   * come before `t`), starting before it.
   */
  predicate EndsInside(pat: string, t: string, partial: bool, j: nat)
    requires 1 <= j <= |t|
  {
    (|pat| <= j && t[j - |pat|..j] == pat) || (partial && j < |pat| && pat[|pat| - j..] == t[..j])
  }

  /** An occurrence reaching past `b` ends inside `s[b..]` */
  lemma CrossingEndsInside(s: string, pat: string, b: nat, k: nat, partial: bool)
    requires b <= |s| && HasAt(s, pat, k) && b < k + |pat| && (partial || b == 0)
    ensures 1 <= k + |pat| - b <= |s| - b
    ensures EndsInside(pat, s[b..], partial, k + |pat| - b)
  {
    var t, j := s[b..], k + |pat| - b;
    if k >= b {
      assert t[j - |pat|..j] == s[k..k + |pat|];
    } else {
      assert pat[|pat| - j..] == s[k..k + |pat|][b - k..] == t[..j];
    }
  }

  /** What an occurrence ending inside `t` says about the characters of `t` it ends on */
  lemma EndsInsideLast(pat: string, t: string, partial: bool, j: nat)
    requires 1 <= j <= |t| && pat != [] && EndsInside(pat, t, partial, j)
    ensures t[j - 1] == pat[|pat| - 1]
    ensures j >= 2 && |pat| >= 2 ==> t[j - 2] == pat[|pat| - 2]
    ensures j == 1 && |pat| >= 2 ==> partial
  {
    if |pat| <= j {
      assert t[j - |pat|..j][|pat| - 1] == t[j - 1];
      if |pat| >= 2 {
        assert t[j - |pat|..j][|pat| - 2] == t[j - 2];
      }
    } else {
      assert pat[|pat| - j..][j - 1] == pat[|pat| - 1];
      if j >= 2 {
        assert pat[|pat| - j..][j - 2] == pat[|pat| - 2];
      }
    }
  }

  /** No occurrence of `pat` ends inside `t` */
  predicate ClearOf(pat: string, t: string, partial: bool) {
    forall j {:trigger EndsInside(pat, t, partial, j)} | 1 <= j <= |t| :: !EndsInside(pat, t, partial, j)
  }

  /** Every occurrence of `key` ending inside `t` is followed by a word character */
  predicate WordClear(key: string, t: string, partial: bool) {
    forall j {:trigger EndsInside(key, t, partial, j)} | 1 <= j <= |t| :: EndsInside(key, t, partial, j) ==> j < |t| && IsWordChar(t[j])
  }

  /** Every occurrence of `pat` ending inside `t` is followed by an ASCII letter */
  predicate LetterClear(pat: string, t: string, partial: bool) {
    forall j {:trigger EndsInside(pat, t, partial, j)} | 1 <= j <= |t| :: EndsInside(pat, t, partial, j) ==> j < |t| && IsAsciiLetter(t[j])
  }

  /**
   * `pat` ends inside `t` only where `t` carries its last two characters (or,
   * at the start of `t`, its last one after something before `t`); where that
   * is followed by a character `ok` admits, the occurrence is allowed.
   */
  lemma ClearByLastTwo(pat: string, t: string, partial: bool)
    requires |pat| >= 2
    requires forall i {:trigger t[i]} | 0 <= i < |t| :: t[i] == pat[|pat| - 1] ==>
      (i >= 1 && t[i - 1] != pat[|pat| - 2]) || (i == 0 && !partial)
    ensures ClearOf(pat, t, partial)
  {
    forall j | 1 <= j <= |t| ensures !EndsInside(pat, t, partial, j) {
      if EndsInside(pat, t, partial, j) {
        EndsInsideLast(pat, t, partial, j);
      }
    }
  }

  lemma LetterClearByLastTwo(pat: string, t: string, partial: bool)
    requires |pat| >= 2
    requires forall i {:trigger t[i]} | 0 <= i < |t| :: t[i] == pat[|pat| - 1] ==>
      (i >= 1 && t[i - 1] != pat[|pat| - 2]) || (i == 0 && !partial) || (i + 1 < |t| && IsAsciiLetter(t[i + 1]))
    ensures LetterClear(pat, t, partial)
  {
    forall j | 1 <= j <= |t| && EndsInside(pat, t, partial, j) ensures j < |t| && IsAsciiLetter(t[j]) {
      EndsInsideLast(pat, t, partial, j);
    }
  }

  lemma WordClearByLastTwo(key: string, t: string, partial: bool)
    requires |key| >= 2
    requires forall i {:trigger t[i]} | 0 <= i < |t| :: t[i] == key[|key| - 1] ==>
      (i >= 1 && t[i - 1] != key[|key| - 2]) || (i == 0 && !partial) || (i + 1 < |t| && IsWordChar(t[i + 1]))
    ensures WordClear(key, t, partial)
  {
    forall j | 1 <= j <= |t| && EndsInside(key, t, partial, j) ensures j < |t| && IsWordChar(t[j]) {
      EndsInsideLast(key, t, partial, j);
    }
  }

  /** A whole-word match ends before `s[b..]` when `key` is word-clear there */
  lemma WholeWordBefore(s: string, key: string, b: nat, k: nat, partial: bool)
    requires key != [] && IsWordChar(key[|key| - 1]) && b <= |s| && k <= |s|
    requires (partial || b == 0) && WordClear(key, s[b..], partial) && WholeWordAt(s, key, k)
    ensures k + |key| <= b
  {
    HasAtLast(s, key, k);
    if b < k + |key| {
      CrossingEndsInside(s, key, b, k, partial);
    }
  }

  /** The whole-word pass keeps an end of the text on which `key` is word-clear */
  lemma {:induction false} WholeWordSuffix(s: string, key: string, val: string, b: nat, i: nat, partial: bool)
    requires key != [] && IsWordChar(key[|key| - 1])
    requires i <= b <= |s| && (partial || b == 0) && WordClear(key, s[b..], partial)
    ensures EndsWith(ReplaceWholeWordFrom(s, key, val, i), s[b..])
    ensures b == 0 ==> ReplaceWholeWordFrom(s, key, val, i) == s
    decreases |s| - i
  {
    var k := NextWholeWord(s, key, i);
    if k == |s| {
      CopiedEnd(ReplaceWholeWordFrom(s, key, val, i), s, i, b);
    } else {
      WholeWordBefore(s, key, b, k, partial);
      WholeWordSuffix(s, key, val, b, k + |key|, partial);
      WholeWordThen(s, key, val, i, k, s[b..]);
    }
  }

  /** The character pass keeps an end of the text without the stray character */
  lemma CharSuffix(s: string, stray: char, fixed: char, b: nat)
    requires b <= |s| && stray !in s[b..]
    ensures EndsWith(ReplaceChar(s, stray, fixed), s[b..])
    ensures b == 0 ==> ReplaceChar(s, stray, fixed) == s
  {
    ReplaceCharEach(s, stray, fixed, 0);
    var r := ReplaceChar(s, stray, fixed);
    forall k | b <= k < |s| ensures r[k] == s[k] {
      assert s[k] == s[b..][k - b];
    }
    assert r[b..] == s[b..];
  }

  /** A not-before-letter match ends before `s[b..]` when `pat` is letter-clear there */
  lemma NotBeforeLetterBefore(s: string, pat: string, b: nat, k: nat, partial: bool)
    requires b <= |s| && k <= |s| && (partial || b == 0)
    requires LetterClear(pat, s[b..], partial) && NotBeforeLetterAt(s, pat, k)
    ensures k + |pat| <= b
  {
    if b < k + |pat| {
      CrossingEndsInside(s, pat, b, k, partial);
    }
  }

  /** The not-before-letter pass keeps an end of the text on which `pat` is letter-clear */
  lemma {:induction false} NotBeforeLetterSuffix(s: string, pat: string, rep: string, b: nat, i: nat, partial: bool)
    requires pat != [] && i <= b <= |s| && (partial || b == 0) && LetterClear(pat, s[b..], partial)
    ensures EndsWith(ReplaceNotBeforeLetterFrom(s, pat, rep, i), s[b..])
    ensures b == 0 ==> ReplaceNotBeforeLetterFrom(s, pat, rep, i) == s
    decreases |s| - i
  {
    var k := NextNotBeforeLetter(s, pat, i);
    if k == |s| {
      CopiedEnd(ReplaceNotBeforeLetterFrom(s, pat, rep, i), s, i, b);
    } else {
      NotBeforeLetterBefore(s, pat, b, k, partial);
      NotBeforeLetterSuffix(s, pat, rep, b, k + |pat|, partial);
      NotBeforeLetterThen(s, pat, rep, i, k, s[b..]);
    }
  }

  /** Two occurrences of a pattern whose first character does not recur in it cannot overlap */
  lemma OverlapRecurs(s: string, pat: string, k: nat, b: nat)
    requires HasAt(s, pat, k) && HasAt(s, pat, b) && k < b < k + |pat|
    ensures pat[0] in pat[1..]
  {
    assert s[b] == s[b..b + |pat|][0] == pat[0];
    assert s[b] == s[k..k + |pat|][b - k] == pat[b - k] == pat[1..][b - k - 1];
  }

  /** A pattern ending the text occurs there */
  lemma EndsWithAt(s: string, pat: string)
    requires EndsWith(s, pat)
    ensures HasAt(s, pat, |s| - |pat|)
  {
    assert s[|s| - |pat|..|s|] == s[|s| - |pat|..];
  }

  /** The output from `i` ends as the output after the leftmost match from `i` on does */
  lemma WholeWordThen(s: string, key: string, val: string, i: nat, k: nat, t: string)
    requires key != [] && i <= k < |s|
    requires forall m | i <= m < k :: !WholeWordAt(s, key, m)
    requires WholeWordAt(s, key, k)
    requires EndsWith(ReplaceWholeWordFrom(s, key, val, k + |key|), t)
    ensures EndsWith(ReplaceWholeWordFrom(s, key, val, i), t)
  {
    WholeWordFirstAt(s, key, val, i, k);
    WrittenBefore(ReplaceWholeWordFrom(s, key, val, i), s[i..k] + val, ReplaceWholeWordFrom(s, key, val, k + |key|), t);
  }

  lemma CountUnitThen(s: string, misread: string, unit: string, i: nat, k: nat, g: nat, e: nat, t: string)
    requires i <= k < |s|
    requires forall m | i <= m < k :: CountUnitAt(s, misread, m).None?
    requires CountUnitAt(s, misread, k) == Some((g, e))
    requires EndsWith(ReplaceCountUnitFrom(s, misread, unit, e), t)
    ensures EndsWith(ReplaceCountUnitFrom(s, misread, unit, i), t)
  {
    CountUnitFirstAt(s, misread, unit, i, k, g, e);
    WrittenBefore(ReplaceCountUnitFrom(s, misread, unit, i), s[i..g] + unit, ReplaceCountUnitFrom(s, misread, unit, e), t);
  }

  /** The output from `i` ends as the output after the leftmost match from `i` on does */
  lemma NotBeforeLetterThen(s: string, pat: string, rep: string, i: nat, k: nat, t: string)
    requires pat != [] && i <= k < |s|
    requires forall m | i <= m < k :: !NotBeforeLetterAt(s, pat, m)
    requires NotBeforeLetterAt(s, pat, k)
    requires EndsWith(ReplaceNotBeforeLetterFrom(s, pat, rep, k + |pat|), t)
    ensures EndsWith(ReplaceNotBeforeLetterFrom(s, pat, rep, i), t)
  {
    NotBeforeLetterFirstAt(s, pat, rep, i, k);
    WrittenBefore(ReplaceNotBeforeLetterFrom(s, pat, rep, i), s[i..k] + rep, ReplaceNotBeforeLetterFrom(s, pat, rep, k + |pat|), t);
  }

  lemma WrittenLast(a: string, rep: string, rest: string, r: string)
    requires r == a + rep + rest && |rest| == 0
    ensures EndsWith(r, rep)
    ensures |a| == 0 ==> r == rep
  {
    assert r == a + rep;
    assert r[|r| - |rep|..] == rep;
  }

  lemma {:induction false} NotBeforeLetterSuffixReplaced(s: string, pat: string, rep: string, i: nat)
    requires pat != [] && pat[0] !in pat[1..] && EndsWith(s, pat) && i <= |s| - |pat|
    ensures EndsWith(ReplaceNotBeforeLetterFrom(s, pat, rep, i), rep)
    ensures |s| == |pat| ==> ReplaceNotBeforeLetterFrom(s, pat, rep, i) == rep
    decreases |s| - i
  {
    var k := NextNotBeforeLetter(s, pat, i);
    if k == |s| - |pat| {
      NotBeforeLetterLast(s, pat, rep, i, k);
    } else {
      MatchBeforeLast(s, pat, i, k);
      NotBeforeLetterSuffixReplaced(s, pat, rep, k + |pat|);
      NotBeforeLetterThen(s, pat, rep, i, k, rep);
    }
  }

  /** A leftmost match other than the one ending the text ends before it */
  lemma MatchBeforeLast(s: string, pat: string, i: nat, k: nat)
    requires pat != [] && pat[0] !in pat[1..] && EndsWith(s, pat) && i <= |s| - |pat|
    requires k == NextNotBeforeLetter(s, pat, i) && k != |s| - |pat|
    ensures k + |pat| <= |s| - |pat| && |s| != |pat|
    ensures k < |s| && NotBeforeLetterAt(s, pat, k)
    ensures forall m | i <= m < k :: !NotBeforeLetterAt(s, pat, m)
  {
    var b := |s| - |pat|;
    EndsWithAt(s, pat);
    assert NotBeforeLetterAt(s, pat, b);
    if b < k + |pat| {
      OverlapRecurs(s, pat, k, b);
    }
  }

  /** The leftmost match from `i` on is the one that ends the text */
  lemma NotBeforeLetterLast(s: string, pat: string, rep: string, i: nat, k: nat)
    requires pat != [] && EndsWith(s, pat) && i <= |s| - |pat|
    requires k == NextNotBeforeLetter(s, pat, i) && k == |s| - |pat|
    ensures EndsWith(ReplaceNotBeforeLetterFrom(s, pat, rep, i), rep)
    ensures |s| == |pat| ==> ReplaceNotBeforeLetterFrom(s, pat, rep, i) == rep
  {
    EndsWithAt(s, pat);
    NotBeforeLetterFirstAt(s, pat, rep, i, k);
    NotBeforeLetterKeeps(s, pat, rep, |s|);
    WrittenLast(s[i..k], rep, s[|s|..], ReplaceNotBeforeLetterFrom(s, pat, rep, i));
  }

  /** A count match ends before `s[b..]` when `misread` is clear of it */
  lemma CountUnitBefore(s: string, misread: string, b: nat, k: nat, partial: bool)
    requires b <= |s| && k <= |s| && (partial || b == 0)
    requires ClearOf(misread, s[b..], partial) && CountUnitAt(s, misread, k).Some?
    ensures CountUnitAt(s, misread, k).value.1 <= b
  {
    var e := CountUnitAt(s, misread, k).value.1;
    if b < e {
      CrossingEndsInside(s, misread, b, e - |misread|, partial);
    }
  }

  /** The count pass keeps an end of the text on which `misread` is clear */
  lemma {:induction false} CountUnitSuffix(s: string, misread: string, unit: string, b: nat, i: nat, partial: bool)
    requires i <= b <= |s| && (partial || b == 0) && ClearOf(misread, s[b..], partial)
    ensures EndsWith(ReplaceCountUnitFrom(s, misread, unit, i), s[b..])
    ensures b == 0 ==> ReplaceCountUnitFrom(s, misread, unit, i) == s
    decreases |s| - i
  {
    var k := NextCountUnit(s, misread, i);
    if k == |s| {
      CopiedEnd(ReplaceCountUnitFrom(s, misread, unit, i), s, i, b);
    } else {
      var (g, e) := CountUnitAt(s, misread, k).value;
      CountUnitBefore(s, misread, b, k, partial);
      CountUnitSuffix(s, misread, unit, b, e, partial);
      CountUnitThen(s, misread, unit, i, k, g, e, s[b..]);
    }
  }

  lemma OccurrenceChar(s: string, pat: string, p: nat, x: nat)
    requires HasAt(s, pat, p) && p <= x < p + |pat|
    ensures s[x] in pat
  {
    assert s[x] == s[p..p + |pat|][x - p];
  }

  /** An occurrence of `misread`, none of whose characters is a digit or a space, does not reach into a run of them */
  lemma MisreadBeforeRun(s: string, misread: string, b: nat, q: nat, p: nat)
    requires misread != [] && forall c | c in misread :: !IsDigit(c) && !IsSpace(c)
    requires b < q <= |s| && forall k | b <= k < q :: IsDigit(s[k]) || IsSpace(s[k])
    requires HasAt(s, misread, p) && p < q
    ensures p + |misread| <= b
  {
    if b < p + |misread| {
      var x := if p < b then b else p;
      OccurrenceChar(s, misread, p, x);
    }
  }

  /** The count that ends the text is a match of the count pattern */
  lemma CountAtRun(s: string, misread: string, b: nat, g: nat)
    requires misread != [] && !IsDigit(misread[0]) && !IsSpace(misread[0])
    requires b < g <= |s| - |misread| && EndsWith(s, misread)
    requires AllDigits(s[b..g]) && AllSpace(s[g..|s| - |misread|])
    ensures CountUnitAt(s, misread, b) == Some((g, |s|))
  {
    EndsWithAt(s, misread);
    CountMatchFound(s, misread, b, g, |s|);
  }

  /** A match running to the end of the text has the same group 1 end as the count before the trailing spaces */
  lemma LastCountIs(s: string, misread: string, b: nat, g: nat, k: nat, g': nat)
    requires b < g <= |s| - |misread| && k <= |s|
    requires AllDigits(s[b..g]) && AllSpace(s[g..|s| - |misread|])
    requires CountUnitAt(s, misread, k) == Some((g', |s|))
    ensures g' == g
  {
    var q := |s| - |misread|;
    CountUnitAtMatches(s, misread, k);
    CountGroupLastDigit(s, k, g');
    DigitsBetween(s, b, g);
    SpacesBetween(s, g, q);
    SpacesBetween(s, g', q);
    assert IsDigit(s[g - 1]);
  }

  /** A match that stops short of the end of the text ends before the count */
  lemma CountEndsBefore(s: string, misread: string, b: nat, g: nat, k: nat)
    requires misread != [] && forall c | c in misread :: !IsDigit(c) && !IsSpace(c)
    requires b < g <= |s| - |misread|
    requires AllDigits(s[b..g]) && AllSpace(s[g..|s| - |misread|])
    requires k <= |s| && CountUnitAt(s, misread, k).Some? && CountUnitAt(s, misread, k).value.1 < |s|
    ensures CountUnitAt(s, misread, k).value.1 <= b
  {
    var q, e := |s| - |misread|, CountUnitAt(s, misread, k).value.1;
    DigitsBetween(s, b, g);
    SpacesBetween(s, g, q);
    MisreadBeforeRun(s, misread, b, q, e - |misread|);
  }

  lemma CountWrittenLast(s: string, i: nat, b: nat, g: nat, unit: string, r: string)
    requires i <= b <= g <= |s| && r == s[i..g] + unit + s[|s|..]
    ensures EndsWith(r, s[b..g] + unit)
    ensures i == b ==> r == s[b..g] + unit
  {
    assert r == s[i..b] + (s[b..g] + unit);
    EndsWithAppend(s[i..b], s[b..g] + unit, s[b..g] + unit);
  }

  /**
   * A count, spaces and `misread` ending the text: the count is kept and
   * `unit` written right after it; scanning from the count itself, that is
   * all the pass produces.
   */
  lemma {:induction false} CountUnitSuffixReplaced(s: string, misread: string, unit: string, b: nat, g: nat, i: nat)
    requires misread != [] && forall c | c in misread :: !IsDigit(c) && !IsSpace(c)
    requires i <= b < g <= |s| - |misread| && EndsWith(s, misread)
    requires AllDigits(s[b..g]) && AllSpace(s[g..|s| - |misread|])
    ensures EndsWith(ReplaceCountUnitFrom(s, misread, unit, i), s[b..g] + unit)
    ensures i == b ==> ReplaceCountUnitFrom(s, misread, unit, i) == s[b..g] + unit
    decreases |s| - i
  {
    assert misread[0] in misread;
    CountAtRun(s, misread, b, g);
    var k := NextCountUnit(s, misread, i);
    var (g', e) := CountUnitAt(s, misread, k).value;
    if e == |s| {
      CountUnitFirstAt(s, misread, unit, i, k, g', e);
      LastCountIs(s, misread, b, g, k, g');
      CountUnitKeeps(s, misread, unit, |s|);
      CountWrittenLast(s, i, b, g, unit, ReplaceCountUnitFrom(s, misread, unit, i));
    } else {
      CountEndsBefore(s, misread, b, g, k);
      CountUnitSuffixReplaced(s, misread, unit, b, g, e);
      CountUnitThen(s, misread, unit, i, k, g', e, s[b..g] + unit);
    }
  }

  /** Nothing of a rule's pattern ends inside `t`, except where the pattern's own context rules a match out */
  predicate RuleClear(rule: Rule, t: string, partial: bool) {
    match rule
    case CharRule(stray, _) => stray !in t
    case NotBeforeLetter(pattern, _) => LetterClear(pattern, t, partial)
    case CountThenUnit(misread, _) => ClearOf(misread, t, partial)
  }

  /** A rule keeps an end of the text that is clear of it */
  lemma RuleSuffix(rule: Rule, s: string, t: string, partial: bool)
    requires WellFormed(rule) && EndsWith(s, t) && (partial || s == t) && RuleClear(rule, t, partial)
    ensures EndsWith(ApplyRule(rule, s), t)
    ensures s == t ==> ApplyRule(rule, s) == s
  {
    var b := |s| - |t|;
    assert s[b..] == t;
    match rule
    case CharRule(stray, fixed) => CharSuffix(s, stray, fixed, b);
    case NotBeforeLetter(pattern, replacement) => NotBeforeLetterSuffix(s, pattern, replacement, b, 0, partial);
    case CountThenUnit(misread, unit) => CountUnitSuffix(s, misread, unit, b, 0, partial);
  }

  /** Rules `m..n-1` keep an end of the text that is clear of each of them */
  lemma {:induction false} RulesSuffix(rules: seq<Rule>, s: string, m: nat, n: nat, t: string, partial: bool)
    requires m <= n <= |rules| && AllWellFormed(rules)
    requires EndsWith(ApplyRules(rules, s, m), t) && (partial || ApplyRules(rules, s, m) == t)
    requires forall j {:trigger RuleClear(rules[j], t, partial)} | m <= j < n :: RuleClear(rules[j], t, partial)
    ensures EndsWith(ApplyRules(rules, s, n), t)
    ensures ApplyRules(rules, s, m) == t ==> ApplyRules(rules, s, n) == t
    decreases n - m
  {
    if m < n {
      RulesSuffix(rules, s, m, n - 1, t, partial);
      if !partial {
        assert ApplyRules(rules, s, m) == t;
        assert ApplyRules(rules, s, n - 1) == t;
      }
      RuleKeepsEnd(rules, s, n - 1, t, partial);
    }
  }

  /** Rule `n` keeps an end of the text the rules before it kept, when it is clear of it */
  lemma RuleKeepsEnd(rules: seq<Rule>, s: string, n: nat, t: string, partial: bool)
    requires n < |rules| && AllWellFormed(rules) && RuleClear(rules[n], t, partial)
    requires EndsWith(ApplyRules(rules, s, n), t) && (partial || ApplyRules(rules, s, n) == t)
    ensures EndsWith(ApplyRules(rules, s, n + 1), t)
    ensures ApplyRules(rules, s, n) == t ==> ApplyRules(rules, s, n + 1) == t
  {
    var prev := ApplyRules(rules, s, n);
    RuleSuffix(rules[n], prev, t, partial);
    ApplyRulesStep(rules, s, n, ApplyRule(rules[n], prev));
  }
}
