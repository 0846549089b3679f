/**
 * The four unit rules at the end of a text, whatever comes before that end:
 * the word pass and the rules other than the one that fires keep the end as
 * it is, and the rule whose pattern ends the text rewrites it there.
 *
 * Each general lemma describes the end `t` of the text and whether something
 * may come before it (`partial`); the word pass and the rule passes keep `t`
 * when no pattern can end inside it where that pattern would match.
 */
module UnitRules {
  import opened Text
  import opened Rewrite
  import opened PostProcessing
  import opened CorrectorProperties

  /** The last letters of the lexicon keys */
  const KeyLast: set<char> := {'g', 't', 'r', 'G', 'T', 'R'}

  /** The letters before them */
  const KeyBeforeLast: set<char> := {'n', 'a', 'e', 'N', 'A', 'E'}

  lemma KeyEndings()
    ensures |ExpandedLexicon| == 6
    ensures forall j | 0 <= j < |ExpandedLexicon| ::
      && |ExpandedLexicon[j].0| >= 2
      && ExpandedLexicon[j].0[|ExpandedLexicon[j].0| - 1] in KeyLast
      && ExpandedLexicon[j].0[|ExpandedLexicon[j].0| - 2] in KeyBeforeLast
  {
    LexiconEntries();
  }

  /** No lexicon key ends inside `t` on a word boundary */
  predicate KeysClear(t: string, partial: bool) {
    forall j | 0 <= j < |ExpandedLexicon| :: WordClear(ExpandedLexicon[j].0, t, partial)
  }

  /** A key can only end inside `t` where `t` has a key's last two letters */
  lemma KeysClearBy(t: string, partial: bool)
    requires forall i {:trigger t[i]} | 0 <= i < |t| :: t[i] in KeyLast ==>
      (i >= 1 && t[i - 1] !in KeyBeforeLast) || (i == 0 && !partial) || (i + 1 < |t| && IsWordChar(t[i + 1]))
    ensures KeysClear(t, partial)
  {
    KeyEndings();
    forall j | 0 <= j < |ExpandedLexicon| ensures WordClear(ExpandedLexicon[j].0, t, partial) {
      WordClearByLastTwo(ExpandedLexicon[j].0, t, partial);
    }
  }

  /** Every key of `tab` ends in a word character and none ends inside `t` on a word boundary */
  predicate TableClear(tab: Table, t: string, partial: bool) {
    forall j | 0 <= j < |tab| ::
      && tab[j].0 != []
      && IsWordChar(tab[j].0[|tab[j].0| - 1])
      && WordClear(tab[j].0, t, partial)
  }

  lemma LexiconClear(t: string, partial: bool)
    requires KeysClear(t, partial)
    ensures KeysNonEmpty(ExpandedLexicon) && TableClear(ExpandedLexicon, t, partial)
  {
    LexiconEntriesNonEmpty();
    KeyEndings();
    forall j | 0 <= j < |ExpandedLexicon| ensures IsWordChar(ExpandedLexicon[j].0[|ExpandedLexicon[j].0| - 1]) {
      assert ExpandedLexicon[j].0[|ExpandedLexicon[j].0| - 1] in KeyLast;
    }
  }

  /** The word pass keeps an end of the text that no key can end inside */
  lemma {:induction false} LexiconSuffix(tab: Table, s: string, t: string, n: nat, partial: bool)
    requires n <= |tab| && KeysNonEmpty(tab) && TableClear(tab, t, partial)
    requires EndsWith(s, t) && (partial || s == t)
    ensures EndsWith(ApplyLexicon(tab, s, n), t)
    ensures s == t ==> ApplyLexicon(tab, s, n) == s
  {
    if n > 0 {
      LexiconSuffix(tab, s, t, n - 1, partial);
      if !partial {
        assert s == t;
        assert ApplyLexicon(tab, s, n - 1) == s;
      }
      KeyKeeps(tab, ApplyLexicon(tab, s, n - 1), t, n - 1, partial);
    }
  }

  /** Entry `j` of the table keeps an end of the text that no key can end inside */
  lemma KeyKeeps(tab: Table, r: string, t: string, j: nat, partial: bool)
    requires j < |tab| && TableClear(tab, t, partial) && EndsWith(r, t) && (partial || r == t)
    ensures tab[j].0 != []
    ensures EndsWith(ReplaceWholeWord(r, tab[j].0, tab[j].1), t)
    ensures r == t ==> ReplaceWholeWord(r, tab[j].0, tab[j].1) == r
  {
    assert r[|r| - |t|..] == t;
    WholeWordSuffix(r, tab[j].0, tab[j].1, |r| - |t|, 0, partial);
  }

  /** The character rules keep an end of the text without stray accents */
  lemma CharRulesClear(t: string, partial: bool)
    requires Lacks(t, StrayAccents)
    ensures forall i | 0 <= i < 8 :: RuleClear(PatternRules[i], t, partial)
  {
    PatternRulesInOrder();
  }

  /** The unit rules `lo..hi-1`, each clear of `t` */
  lemma UnitRulesClear(t: string, partial: bool, lo: nat, hi: nat)
    requires 8 <= lo <= hi <= 12
    requires lo <= 8 < hi ==> LetterClear("/u1", t, partial)
    requires lo <= 9 < hi ==> LetterClear("g7dl", t, partial)
    requires lo <= 10 < hi ==> LetterClear("g7a1", t, partial)
    requires lo <= 11 < hi ==> ClearOf("Apl", t, partial)
    ensures forall i | lo <= i < hi :: RuleClear(PatternRules[i], t, partial)
  {
    UnitRulesAre();
    forall i | lo <= i < hi ensures RuleClear(PatternRules[i], t, partial) {
      if i == 8 {
      } else if i == 9 {
      } else if i == 10 {
      } else {
      }
    }
  }

  /** The rules `0..n-1` keep an end of the text clear of each of them */
  lemma RulesKeep(w: string, t: string, n: nat, partial: bool)
    requires 8 <= n <= 12 && EndsWith(w, t) && (partial || w == t) && Lacks(t, StrayAccents)
    requires forall i | 8 <= i < n :: RuleClear(PatternRules[i], t, partial)
    ensures AllWellFormed(PatternRules)
    ensures EndsWith(ApplyRules(PatternRules, w, n), t)
    ensures w == t ==> ApplyRules(PatternRules, w, n) == w
  {
    PatternRulesWriteNoAccent();
    CharRulesClear(t, partial);
    RulesSuffix(PatternRules, w, 0, n, t, partial);
  }

  /**
   * The corrector keeps `t` at the end of the text up to not-before-letter
   * rule `j`, whose pattern `t` is; rule `j` writes its replacement there and
   * the later rules keep that.
   */
  lemma ReplacedAtEnd(s: string, t: string, j: nat)
    requires 8 <= j <= 10 && EndsWith(s, t) && KeysClear(t, true) && Lacks(t, StrayAccents)
    requires PatternRules[j] == NotBeforeLetter(t, PatternRules[j].replacement)
    requires t != [] && t[0] !in t[1..]
    requires forall i | 8 <= i < j :: RuleClear(PatternRules[i], t, true)
    requires forall i | j < i < |PatternRules| :: RuleClear(PatternRules[i], PatternRules[j].replacement, true)
    ensures EndsWith(Correct(s), PatternRules[j].replacement)
  {
    var rep := PatternRules[j].replacement;
    LexiconClear(t, true);
    LexiconSuffix(ExpandedLexicon, s, t, |ExpandedLexicon|, true);
    var w := ApplyLexicon(ExpandedLexicon, s, |ExpandedLexicon|);
    RulesKeep(w, t, j, true);
    var m := ApplyRules(PatternRules, w, j);
    NotBeforeLetterSuffixReplaced(m, t, rep, 0);
    RulesSuffix(PatternRules, w, j + 1, |PatternRules|, rep, true);
    CorrectIs(s, w, ApplyRules(PatternRules, w, |PatternRules|));
  }

  /** The corrector keeps an end of the text clear of the keys and of every rule */
  lemma KeptAtEnd(s: string, t: string)
    requires EndsWith(s, t) && KeysClear(t, true) && Lacks(t, StrayAccents)
    requires forall i | 8 <= i < |PatternRules| :: RuleClear(PatternRules[i], t, true)
    ensures EndsWith(Correct(s), t)
  {
    LexiconClear(t, true);
    LexiconSuffix(ExpandedLexicon, s, t, |ExpandedLexicon|, true);
    var w := ApplyLexicon(ExpandedLexicon, s, |ExpandedLexicon|);
    RulesKeep(w, t, |PatternRules|, true);
    CorrectIs(s, w, ApplyRules(PatternRules, w, |PatternRules|));
  }

  // ---------------------------------------------------------------------------
  // `/u1`, `g7dl` and `g7a1` ending the text, or followed by a letter
  // ---------------------------------------------------------------------------

  /** Whatever precedes it, a text ending in `/u1` comes out ending in `/µl` */
  lemma MicroLitreEnds(s: string)
    requires EndsWith(s, "/u1")
    ensures EndsWith(Correct(s), "/µl")
  {
    KeysClearBy("/u1", true);
    assert "/u1"[0] !in "/u1"[1..] && Lacks("/u1", StrayAccents);
    MicroLitreOutputClear();
    UnitRulesAre();
    ReplacedAtEnd(s, "/u1", 8);
  }

  lemma MicroLitreOutputClear()
    ensures forall i | 9 <= i < |PatternRules| :: RuleClear(PatternRules[i], "/µl", true)
  {
    LetterClearByLastTwo("g7dl", "/µl", true);
    ClearByLastTwo("g7a1", "/µl", true);
    ClearByLastTwo("Apl", "/µl", true);
    UnitRulesClear("/µl", true, 9, 12);
  }

  /** Whatever precedes it, a text ending in `g7dl` comes out ending in `g/dl` */
  lemma GramsPerDecilitreEnds(s: string)
    requires EndsWith(s, "g7dl")
    ensures EndsWith(Correct(s), "g/dl")
  {
    KeysClearBy("g7dl", true);
    GramsPerDecilitreClear();
    GramsOutputClear();
    UnitRulesAre();
    ReplacedAtEnd(s, "g7dl", 9);
  }

  /** Whatever precedes it, a text ending in `g7a1` comes out ending in `g/dl` */
  lemma GramsMisreadA1Ends(s: string)
    requires EndsWith(s, "g7a1")
    ensures EndsWith(Correct(s), "g/dl")
  {
    KeysClearBy("g7a1", true);
    GramsMisreadA1Clear();
    GramsOutputClear();
    UnitRulesAre();
    ReplacedAtEnd(s, "g7a1", 10);
  }

  lemma GramsPerDecilitreClear()
    ensures forall i | 8 <= i < 9 :: RuleClear(PatternRules[i], "g7dl", true)
  {
    ClearByLastTwo("/u1", "g7dl", true);
    UnitRulesClear("g7dl", true, 8, 9);
  }

  lemma GramsMisreadA1Clear()
    ensures forall i | 8 <= i < 10 :: RuleClear(PatternRules[i], "g7a1", true)
  {
    ClearByLastTwo("/u1", "g7a1", true);
    ClearByLastTwo("g7dl", "g7a1", true);
    UnitRulesClear("g7a1", true, 8, 10);
  }

  lemma GramsOutputClear()
    ensures forall i | 10 <= i < |PatternRules| :: RuleClear(PatternRules[i], "g/dl", true)
  {
    PatternRulesInOrder();
    ClearByLastTwo("g7a1", "g/dl", true);
    ClearByLastTwo("Apl", "g/dl", true);
    UnitRulesClear("g/dl", true, 10, 12);
  }

  /** `/u1` followed by an ASCII letter at the end of a text is left as it is */
  lemma MicroLitreBeforeLetterKept(s: string, c: char)
    requires IsAsciiLetter(c) && EndsWith(s, "/u1" + [c])
    ensures EndsWith(Correct(s), "/u1" + [c])
  {
    var t := "/u1" + [c];
    assert t[0] == '/' && t[1] == 'u' && t[2] == '1' && t[3] == c;
    KeysClearBy(t, true);
    MicroLitreLetterClear(c);
    KeptAtEnd(s, t);
  }

  lemma MicroLitreLetterClear(c: char)
    requires IsAsciiLetter(c)
    ensures forall i | 8 <= i < |PatternRules| :: RuleClear(PatternRules[i], "/u1" + [c], true)
  {
    var t := "/u1" + [c];
    assert t[0] == '/' && t[1] == 'u' && t[2] == '1' && t[3] == c;
    LetterClearByLastTwo("/u1", t, true);
    LetterClearByLastTwo("g7dl", t, true);
    LetterClearByLastTwo("g7a1", t, true);
    ClearByLastTwo("Apl", t, true);
    UnitRulesClear(t, true, 8, 12);
  }

  /** `g7dl` or `g7a1` followed by an ASCII letter at the end of a text is left as it is */
  lemma GramsBeforeLetterKept(u: string, s: string, c: char)
    requires u == "g7dl" || u == "g7a1"
    requires IsAsciiLetter(c) && EndsWith(s, u + [c])
    ensures EndsWith(Correct(s), u + [c])
  {
    var t := u + [c];
    assert t[0] == 'g' && t[1] == '7' && t[2] == u[2] && t[3] == u[3] && t[4] == c;
    KeysClearBy(t, true);
    GramsLetterClear(u, c);
    KeptAtEnd(s, t);
  }

  /** Neither unit rule can end inside `g7dl` or `g7a1` followed by a letter */
  lemma GramsLetterClear(u: string, c: char)
    requires u == "g7dl" || u == "g7a1"
    requires IsAsciiLetter(c)
    ensures forall i | 8 <= i < |PatternRules| :: RuleClear(PatternRules[i], u + [c], true)
  {
    var t := u + [c];
    assert t[0] == 'g' && t[1] == '7' && t[2] == u[2] && t[3] == u[3] && t[4] == c;
    LetterClearByLastTwo("/u1", t, true);
    LetterClearByLastTwo("g7dl", t, true);
    LetterClearByLastTwo("g7a1", t, true);
    ClearByLastTwo("Apl", t, true);
    UnitRulesClear(t, true, 8, 12);
  }

  // ---------------------------------------------------------------------------
  // a count, spaces and `Apl` ending the text
  // ---------------------------------------------------------------------------

  /** What the end of a count text is made of: the count, spaces and `Apl` */
  predicate CountTailChar(x: char) {
    IsDigit(x) || IsSpace(x) || x == 'A' || x == 'p' || x == 'l'
  }

  /**
   * The end `t := s[c..]` of a count text: with a character before the count,
   * `t` starts with it, and it is not a word character; everything else in `t`
   * is a digit, a space or a letter of `Apl`.
   */
  lemma CountTail(s: string, b: nat, g: nat, c: nat)
    requires b < g <= |s| - 3 && EndsWith(s, "Apl")
    requires AllDigits(s[b..g]) && AllSpace(s[g..|s| - 3])
    requires b == 0 || !IsWordChar(s[b - 1])
    requires c == if b == 0 then 0 else b - 1
    ensures b > 0 ==> !IsWordChar(s[c..][0])
    ensures forall m | 0 <= m < |s[c..]| :: CountTailChar(s[c..][m]) || (m == 0 && b > 0)
  {
    DigitsBetween(s, b, g);
    SpacesBetween(s, g, |s| - 3);
    forall m | 0 <= m < |s[c..]| ensures CountTailChar(s[c..][m]) || (m == 0 && b > 0) {
      if c + m >= |s| - 3 {
        assert s[c + m] == s[|s| - 3..][c + m - (|s| - 3)];
      }
    }
  }

  /** No key, stray accent or other unit pattern ends inside the end of a count text */
  lemma CountTailClear(t: string, partial: bool, lead: bool)
    requires partial ==> lead
    requires lead ==> |t| > 0 && !IsWordChar(t[0])
    requires forall m | 0 <= m < |t| :: CountTailChar(t[m]) || (m == 0 && lead)
    ensures KeysClear(t, partial) && Lacks(t, StrayAccents)
    ensures forall i | 8 <= i < 11 :: RuleClear(PatternRules[i], t, partial)
  {
    KeysClearBy(t, partial);
    LetterClearByLastTwo("/u1", t, partial);
    LetterClearByLastTwo("g7dl", t, partial);
    LetterClearByLastTwo("g7a1", t, partial);
    UnitRulesClear(t, partial, 8, 11);
  }

  /** Where `wm` ends in `s[c..]`, a slice of that end sits `d` further on in `wm` */
  lemma EndSlice(wm: string, s: string, c: nat, d: int, x: nat, y: nat)
    requires c <= x <= y <= |s| && EndsWith(wm, s[c..]) && d == |wm| - |s|
    ensures 0 <= d + x <= d + y <= |wm|
    ensures wm[d + x..d + y] == s[x..y]
  {
    var u := s[c..];
    var e := wm[|wm| - |u|..];
    assert e == u && |wm| - |u| == d + c;
    forall k | x - c <= k < y - c ensures e[k] == wm[d + c + k] {}
    assert wm[d + x..d + y] == e[x - c..y - c];
    assert u[x - c..y - c] == s[x..y];
  }

  /** The count rule, run on what the earlier passes kept, ends in the count and the unit */
  lemma CountRuleAtEnd(wm: string, t: string, s: string, c: nat, b: nat, g: nat)
    requires c <= b < g <= |s| - 3 && t == s[c..] && EndsWith(wm, t) && EndsWith(s, "Apl")
    requires AllDigits(s[b..g]) && AllSpace(s[g..|s| - 3])
    ensures EndsWith(ReplaceCountUnitFrom(wm, "Apl", " /µl", 0), s[b..g] + " /µl")
    ensures wm == s && b == 0 ==> ReplaceCountUnitFrom(wm, "Apl", " /µl", 0) == s[b..g] + " /µl"
  {
    var d := |wm| - |s|;
    var n := |s| - 3;
    EndSlice(wm, s, c, d, b, g);
    EndSlice(wm, s, c, d, g, n);
    EndSlice(wm, s, c, d, n, |s|);
    assert d + n == |wm| - 3 && d + |s| == |wm|;
    AplRuleAt(wm, d + b, d + g);
    assert wm[d + b..d + g] + " /µl" == s[b..g] + " /µl";
  }

  /** The count rule on a text ending in digits `r[b..g]`, spaces and `Apl` */
  lemma AplRuleAt(r: string, b: nat, g: nat)
    requires b < g <= |r| - 3 && r[|r| - 3..] == "Apl"
    requires AllDigits(r[b..g]) && AllSpace(r[g..|r| - 3])
    ensures EndsWith(ReplaceCountUnitFrom(r, "Apl", " /µl", 0), r[b..g] + " /µl")
    ensures b == 0 ==> ReplaceCountUnitFrom(r, "Apl", " /µl", 0) == r[b..g] + " /µl"
  {
    assert "Apl"[0] in "Apl";
    CountUnitSuffixReplaced(r, "Apl", " /µl", b, g, 0);
  }

  /**
   * Whatever precedes it, a text ending in a count `s[b..g]`, spaces and
   * `Apl` comes out ending in the count, a space and `/µl`, when the count is
   * not glued to a word character in front (which an earlier rule could take
   * into its own match); a text that is just that comes out as exactly that.
   */
  lemma CountEnds(s: string, b: nat, g: nat)
    requires b < g <= |s| - 3 && EndsWith(s, "Apl")
    requires AllDigits(s[b..g]) && AllSpace(s[g..|s| - 3])
    requires b == 0 || !IsWordChar(s[b - 1])
    ensures EndsWith(Correct(s), s[b..g] + " /µl")
    ensures b == 0 ==> Correct(s) == s[..g] + " /µl"
  {
    var c := if b == 0 then 0 else b - 1;
    var t := s[c..];
    CountTail(s, b, g, c);
    CountTailClear(t, c > 0, b > 0);
    assert s[|s| - |t|..] == t;
    CountPasses(s, c, b, g);
    if b == 0 {
      assert s[b..g] == s[..g];
    }
  }

  /** The passes of the corrector on a count text whose end `s[c..]` the earlier passes keep */
  lemma CountPasses(s: string, c: nat, b: nat, g: nat)
    requires c <= b < g <= |s| - 3 && EndsWith(s, "Apl")
    requires AllDigits(s[b..g]) && AllSpace(s[g..|s| - 3])
    requires KeysClear(s[c..], c > 0) && Lacks(s[c..], StrayAccents)
    requires forall i | 8 <= i < 11 :: RuleClear(PatternRules[i], s[c..], c > 0)
    ensures EndsWith(Correct(s), s[b..g] + " /µl")
    ensures b == 0 ==> Correct(s) == s[b..g] + " /µl"
  {
    var t := s[c..];
    assert s[|s| - |t|..] == t;
    LexiconClear(t, c > 0);
    LexiconSuffix(ExpandedLexicon, s, t, |ExpandedLexicon|, c > 0);
    var w := ApplyLexicon(ExpandedLexicon, s, |ExpandedLexicon|);
    RulesKeep(w, t, 11, c > 0);
    var wm := ApplyRules(PatternRules, w, 11);
    UnitRulesAre();
    CountRuleAtEnd(wm, t, s, c, b, g);
    CorrectIs(s, w, ApplyRules(PatternRules, w, |PatternRules|));
  }

  /** `100Apl`: the misread unit is replaced and a space put before it */
  lemma HundredAplExample()
    ensures Correct("100Apl") == "100 /µl"
  {
    var s := "100Apl";
    assert s[0..3] == "100" && AllDigits(s[0..3]);
    assert s[3..|s| - 3] == [] && s[|s| - 3..] == "Apl";
    assert EndsWith(s, "Apl");
    CountEnds(s, 0, 3);
    assert s[..3] == "100";
  }
}
