/**
 * What `german_word_correction` does to whole classes of texts and to the
 * sample inputs its rules were written for.
 */
module CorrectorProperties {
  import opened Text
  import opened Rewrite
  import opened PostProcessing

  // ---------------------------------------------------------------------------
  // stage helpers
  // ---------------------------------------------------------------------------

  /** The word pass with no entry firing */
  lemma LexiconNoneFire(text: string)
    requires forall j | 0 <= j < |ExpandedLexicon| ::
               ReplaceWholeWord(text, ExpandedLexicon[j].0, ExpandedLexicon[j].1) == text
    ensures ApplyLexicon(ExpandedLexicon, text, |ExpandedLexicon|) == text
  {
    LexiconEntriesNonEmpty();
    UnchangedByLexicon(ExpandedLexicon, text, 0, |ExpandedLexicon|);
  }

  /** The word pass with only entry `j` firing */
  lemma LexiconOneFires(text: string, j: nat, w: string)
    requires j < |ExpandedLexicon|
    requires forall i | 0 <= i < j :: ReplaceWholeWord(text, ExpandedLexicon[i].0, ExpandedLexicon[i].1) == text
    requires ReplaceWholeWord(text, ExpandedLexicon[j].0, ExpandedLexicon[j].1) == w
    requires forall i | j < i < |ExpandedLexicon| :: ReplaceWholeWord(w, ExpandedLexicon[i].0, ExpandedLexicon[i].1) == w
    ensures ApplyLexicon(ExpandedLexicon, text, |ExpandedLexicon|) == w
  {
    LexiconEntriesNonEmpty();
    UnchangedByLexicon(ExpandedLexicon, text, 0, j);
    assert ApplyLexicon(ExpandedLexicon, text, j + 1) == w;
    UnchangedByLexicon(ExpandedLexicon, text, j + 1, |ExpandedLexicon|);
  }

  /** The pattern pass with no rule finding anything to match */
  lemma RulesNoneFire(w: string)
    requires forall i | 0 <= i < |PatternRules| :: Absent(PatternRules[i], w)
    ensures ApplyRules(PatternRules, w, |PatternRules|) == w
  {
    PatternRulesWriteNoAccent();
    forall i | 0 <= i < |PatternRules| ensures ApplyRule(PatternRules[i], w) == w {
      AbsentRuleKeeps(PatternRules[i], w);
    }
    UnchangedByRules(PatternRules, w, 0, |PatternRules|);
  }

  /** The pattern pass with only rule `j` firing */
  lemma RulesOneFires(w: string, j: nat, out: string)
    requires j < |PatternRules|
    requires forall i | 0 <= i < j :: Absent(PatternRules[i], w)
    requires ApplyRule(PatternRules[j], w) == out
    requires forall i | j < i < |PatternRules| :: Absent(PatternRules[i], out)
    ensures ApplyRules(PatternRules, w, |PatternRules|) == out
  {
    PatternRulesWriteNoAccent();
    forall i | 0 <= i < j ensures ApplyRule(PatternRules[i], w) == w {
      AbsentRuleKeeps(PatternRules[i], w);
    }
    UnchangedByRules(PatternRules, w, 0, j);
    assert ApplyRules(PatternRules, w, j + 1) == out;
    forall i | j < i < |PatternRules| ensures ApplyRule(PatternRules[i], out) == out {
      AbsentRuleKeeps(PatternRules[i], out);
    }
    UnchangedByRules(PatternRules, w, j + 1, |PatternRules|);
  }

  /** The two stages compose into the corrector */
  lemma CorrectIs(text: string, w: string, out: string)
    requires ApplyLexicon(ExpandedLexicon, text, |ExpandedLexicon|) == w
    requires AllWellFormed(PatternRules) && ApplyRules(PatternRules, w, |PatternRules|) == out
    ensures Correct(text) == out
  {
  }

  /** Entry `j` of the lexicon leaves alone a text that lacks one of its key's characters */
  lemma KeyMissingChar(s: string, j: nat, k: nat, x: set<char>)
    requires j < |ExpandedLexicon| && k < |ExpandedLexicon[j].0| && ExpandedLexicon[j].0[k] in x && Lacks(s, x)
    ensures ReplaceWholeWord(s, ExpandedLexicon[j].0, ExpandedLexicon[j].1) == s
  {
    LexiconEntriesNonEmpty();
    MissingCharNotOccurs(s, ExpandedLexicon[j].0, k, x);
    AbsentKeyKeeps(s, ExpandedLexicon[j].0, ExpandedLexicon[j].1);
  }

  /** A key that lacks one of the text's characters leaves the text as it is */
  lemma KeyAbsent(s: string, key: string, val: string, k: nat, x: set<char>)
    requires k < |key| && key[k] in x && Lacks(s, x)
    ensures ReplaceWholeWord(s, key, val) == s
  {
    MissingCharNotOccurs(s, key, k, x);
    AbsentKeyKeeps(s, key, val);
  }

  /** The word pass, entry by entry */
  lemma LexiconChain(s0: string, s1: string, s2: string, s3: string, s4: string, s5: string, s6: string)
    requires ReplaceWholeWord(s0, "Abklarung", "Abklärung") == s1
    requires ReplaceWholeWord(s1, "Aktivitat", "Aktivität") == s2
    requires ReplaceWholeWord(s2, "Aktivitatsparameter", "Aktivitätsparameter") == s3
    requires ReplaceWholeWord(s3, "ABKLARUNG", "ABKLÄRUNG") == s4
    requires ReplaceWholeWord(s4, "AKTIVITAT", "AKTIVITÄT") == s5
    requires ReplaceWholeWord(s5, "AKTIVITATSPARAMETER", "AKTIVITÄTSPARAMETER") == s6
    ensures ApplyLexicon(ExpandedLexicon, s0, |ExpandedLexicon|) == s6
  {
    LexiconEntries();
    var t := ExpandedLexicon;
    assert ApplyLexicon(t, s0, 1) == s1;
    assert ApplyLexicon(t, s0, 2) == s2;
    assert ApplyLexicon(t, s0, 3) == s3;
    assert ApplyLexicon(t, s0, 4) == s4;
    assert ApplyLexicon(t, s0, 5) == s5;
  }

  /** The lexicon, spelt out */
  lemma LexiconEntries()
    ensures |ExpandedLexicon| == 6
    ensures ExpandedLexicon[0] == ("Abklarung", "Abklärung")
    ensures ExpandedLexicon[1] == ("Aktivitat", "Aktivität")
    ensures ExpandedLexicon[2] == ("Aktivitatsparameter", "Aktivitätsparameter")
    ensures ExpandedLexicon[3] == ("ABKLARUNG", "ABKLÄRUNG")
    ensures ExpandedLexicon[4] == ("AKTIVITAT", "AKTIVITÄT")
    ensures ExpandedLexicon[5] == ("AKTIVITATSPARAMETER", "AKTIVITÄTSPARAMETER")
  {
  }

  /** The pattern pass on a text without stray accents in which only unit rule `j` fires */
  lemma UnitRuleFires(w: string, j: nat, out: string)
    requires 8 <= j < |PatternRules|
    requires Lacks(w, StrayAccents)
    requires forall i | 8 <= i < j :: Absent(PatternRules[i], w)
    requires ApplyRule(PatternRules[j], w) == out
    requires forall i | j < i < |PatternRules| :: Absent(PatternRules[i], out)
    ensures AllWellFormed(PatternRules)
    ensures ApplyRules(PatternRules, w, |PatternRules|) == out
  {
    PatternRulesWriteNoAccent();
    CharRulesAbsent(w);
    RulesOneFires(w, j, out);
  }

  /** The pattern pass on a text with nothing for any rule */
  lemma NoRuleFires(w: string)
    requires Lacks(w, StrayAccents)
    requires !Occurs(w, "/u1") && !Occurs(w, "g7dl") && !Occurs(w, "g7a1") && !Occurs(w, "Apl")
    ensures AllWellFormed(PatternRules)
    ensures ApplyRules(PatternRules, w, |PatternRules|) == w
  {
    PatternRulesWriteNoAccent();
    CharRulesAbsent(w);
    UnitRulesAre();
    RulesNoneFire(w);
  }

  // ---------------------------------------------------------------------------
  // general properties
  // ---------------------------------------------------------------------------

  /** Every lexicon key contains a `k` or a `K`, so a text without either passes the word stage untouched */
  lemma LexiconSkips(text: string)
    requires Lacks(text, {'k', 'K'})
    ensures ApplyLexicon(ExpandedLexicon, text, |ExpandedLexicon|) == text
  {
    LexiconEntriesNonEmpty();
    MissingCharNotOccurs(text, ExpandedLexicon[0].0, 2, {'k', 'K'});
    MissingCharNotOccurs(text, ExpandedLexicon[1].0, 1, {'k', 'K'});
    MissingCharNotOccurs(text, ExpandedLexicon[2].0, 1, {'k', 'K'});
    MissingCharNotOccurs(text, ExpandedLexicon[3].0, 2, {'k', 'K'});
    MissingCharNotOccurs(text, ExpandedLexicon[4].0, 1, {'k', 'K'});
    MissingCharNotOccurs(text, ExpandedLexicon[5].0, 1, {'k', 'K'});
    AbsentKeysKeep(ExpandedLexicon, text, |ExpandedLexicon|);
  }

  /** A text in which no key, no special character and no unit pattern occurs comes back unchanged */
  lemma CorrectUnchanged(text: string)
    requires forall j | 0 <= j < |ExpandedLexicon| :: !Occurs(text, ExpandedLexicon[j].0)
    requires forall j | 0 <= j < |PatternRules| :: Absent(PatternRules[j], text)
    ensures Correct(text) == text
  {
    LexiconEntriesNonEmpty();
    AbsentKeysKeep(ExpandedLexicon, text, |ExpandedLexicon|);
    RulesNoneFire(text);
  }

  /** The eight character rules, one after the other, map each character by `FixAccent` */
  lemma SpecialCharsFix(c: char)
    ensures CharRulesOn(PatternRules, 8, c) == FixAccent(c)
  {
    PatternRulesInOrder();
    assert PatternRules[0] == CharRule('â', 'ä');
    assert CharRulesOn(PatternRules, 0, c) == c;
    var d1 := CharRulesOn(PatternRules, 1, c);
    assert d1 == if c == 'â' then 'ä' else c;
    var d2 := CharRulesOn(PatternRules, 2, c);
    assert d2 == if d1 == 'ô' then 'ö' else d1;
    var d3 := CharRulesOn(PatternRules, 3, c);
    assert d3 == if d2 == 'û' then 'ü' else d2;
    var d4 := CharRulesOn(PatternRules, 4, c);
    assert d4 == if d3 == 'à' then 'ä' else d3;
    var d5 := CharRulesOn(PatternRules, 5, c);
    assert d5 == if d4 == 'Â' then 'Ä' else d4;
    var d6 := CharRulesOn(PatternRules, 6, c);
    assert d6 == if d5 == 'Ô' then 'Ö' else d5;
    var d7 := CharRulesOn(PatternRules, 7, c);
    assert d7 == if d6 == 'Û' then 'Ü' else d6;
    assert CharRulesOn(PatternRules, 8, c) == if d7 == 'À' then 'Ä' else d7;
  }

  /** The four unit rules */
  lemma UnitRulesAre()
    ensures PatternRules[8] == NotBeforeLetter("/u1", "/µl")
    ensures PatternRules[9] == NotBeforeLetter("g7dl", "g/dl")
    ensures PatternRules[10] == NotBeforeLetter("g7a1", "g/dl")
    ensures PatternRules[11] == CountThenUnit("Apl", " /µl")
  {
    PatternRulesInOrder();
  }

  /**
   * Outside the reach of the word and unit rules (no `k`, `K`, `/`, `g` or
   * `A`), the corrector replaces each stray accent by its intended letter and
   * keeps every other character.
   */
  lemma AccentsFixed(text: string)
    requires Lacks(text, {'k', 'K', '/', 'g', 'A'})
    ensures |Correct(text)| == |text|
    ensures forall i | 0 <= i < |text| :: Correct(text)[i] == FixAccent(text[i])
  {
    LexiconSkips(text);
    var m := ApplyRules(PatternRules, text, 8);
    SpecialCharsFixEach(text);
    UnitRulesKeep(text, m);
  }

  /** The character rules map each character of a text by `FixAccent`, and bring in no `/`, `g` or `A` */
  lemma SpecialCharsFixEach(text: string)
    requires Lacks(text, {'/', 'g', 'A'})
    ensures AllWellFormed(PatternRules)
    ensures |ApplyRules(PatternRules, text, 8)| == |text|
    ensures forall i | 0 <= i < |text| :: ApplyRules(PatternRules, text, 8)[i] == FixAccent(text[i])
    ensures Lacks(ApplyRules(PatternRules, text, 8), {'/', 'g', 'A'})
  {
    SpecialCharsFirst();
    CharRulesPointwise(PatternRules, text, 8);
    var m := ApplyRules(PatternRules, text, 8);
    forall i | 0 <= i < |text| ensures m[i] == FixAccent(text[i]) {
      SpecialCharsFix(text[i]);
    }
  }

  /** The first eight rules are the character rules */
  lemma SpecialCharsFirst()
    ensures AllWellFormed(PatternRules)
    ensures forall j | 0 <= j < 8 :: PatternRules[j].CharRule?
  {
    PatternRulesInOrder();
  }

  /** The unit rules find nothing in a text without `/`, `g` or `A` */
  lemma UnitRulesKeep(text: string, m: string)
    requires m == ApplyRules(PatternRules, text, 8) && Lacks(m, {'/', 'g', 'A'})
    ensures ApplyRules(PatternRules, text, |PatternRules|) == m
  {
    PatternRulesWriteNoAccent();
    UnitRulesAre();
    MissingCharNotOccurs(m, "/u1", 0, {'/', 'g', 'A'});
    MissingCharNotOccurs(m, "g7dl", 0, {'/', 'g', 'A'});
    MissingCharNotOccurs(m, "g7a1", 0, {'/', 'g', 'A'});
    MissingCharNotOccurs(m, "Apl", 0, {'/', 'g', 'A'});
    forall i | 8 <= i < |PatternRules| ensures ApplyRule(PatternRules[i], m) == m {
      AbsentRuleKeeps(PatternRules[i], m);
    }
    UnchangedByRules(PatternRules, text, 8, |PatternRules|);
  }

  /** The accent fix with its result given */
  lemma AccentsFixedTo(text: string, out: string)
    requires Lacks(text, {'k', 'K', '/', 'g', 'A'})
    requires |out| == |text| && forall i | 0 <= i < |text| :: out[i] == FixAccent(text[i])
    ensures Correct(text) == out
  {
    AccentsFixed(text);
  }

  /** A stray accent, or a character some word or unit rule needs to match */
  const Triggers: set<char> := StrayAccents + {'k', 'K', '/', 'g', 'A'}

  /** No character of `p` is one any rule reacts to */
  predicate Quiet(p: string) {
    Lacks(p, Triggers)
  }

  /** Nothing in a quiet text is corrected */
  lemma QuietUnchanged(p: string)
    requires Quiet(p)
    ensures Correct(p) == p
  {
    LexiconSkips(p);
    CharRulesAbsent(p);
    UnitRulesAre();
    MissingCharNotOccurs(p, "/u1", 0, Triggers);
    MissingCharNotOccurs(p, "g7dl", 0, Triggers);
    MissingCharNotOccurs(p, "g7a1", 0, Triggers);
    MissingCharNotOccurs(p, "Apl", 0, Triggers);
    RulesNoneFire(p);
  }

  /** A text without stray accents has nothing for the character rules */
  lemma CharRulesAbsent(w: string)
    requires Lacks(w, StrayAccents)
    ensures forall i | 0 <= i < 8 :: Absent(PatternRules[i], w)
  {
    PatternRulesInOrder();
  }

  /** Only the microlitre rule fires */
  lemma MicroLitreRuleFires(text: string, out: string)
    requires Lacks(text, StrayAccents)
    requires ReplaceNotBeforeLetterFrom(text, "/u1", "/µl", 0) == out
    requires !Occurs(out, "g7dl") && !Occurs(out, "g7a1") && !Occurs(out, "Apl")
    ensures AllWellFormed(PatternRules)
    ensures ApplyRules(PatternRules, text, |PatternRules|) == out
  {
    UnitRulesAre();
    UnitRuleFires(text, 8, out);
  }

  /** Only the `g7dl` rule fires */
  lemma GramsRuleFires(text: string, out: string)
    requires Lacks(text, StrayAccents) && !Occurs(text, "/u1")
    requires ReplaceNotBeforeLetterFrom(text, "g7dl", "g/dl", 0) == out
    requires !Occurs(out, "g7a1") && !Occurs(out, "Apl")
    ensures AllWellFormed(PatternRules)
    ensures ApplyRules(PatternRules, text, |PatternRules|) == out
  {
    UnitRulesAre();
    UnitRuleFires(text, 9, out);
  }

  /** Only the `g7a1` rule fires */
  lemma GramsA1RuleFires(text: string, out: string)
    requires Lacks(text, StrayAccents) && !Occurs(text, "/u1") && !Occurs(text, "g7dl")
    requires ReplaceNotBeforeLetterFrom(text, "g7a1", "g/dl", 0) == out
    requires !Occurs(out, "Apl")
    ensures AllWellFormed(PatternRules)
    ensures ApplyRules(PatternRules, text, |PatternRules|) == out
  {
    UnitRulesAre();
    UnitRuleFires(text, 10, out);
  }

  /** Only the count rule fires */
  lemma CountRuleFires(text: string, out: string)
    requires Lacks(text, StrayAccents)
    requires !Occurs(text, "/u1") && !Occurs(text, "g7dl") && !Occurs(text, "g7a1")
    requires ReplaceCountUnitFrom(text, "Apl", " /µl", 0) == out
    ensures AllWellFormed(PatternRules)
    ensures ApplyRules(PatternRules, text, |PatternRules|) == out
  {
    UnitRulesAre();
    UnitRuleFires(text, 11, out);
  }

  /** A text with a quiet head lacks what both its head and its tail lack */
  lemma QuietHeadLacks(s: string, b: nat, x: set<char>)
    requires b <= |s| && Quiet(s[..b]) && x <= Triggers && Lacks(s[b..], x)
    ensures Lacks(s, x)
  {
    LacksSplit(s, b, x);
  }

  /** The head of a text ending in a unit pattern is left to the unit rules */
  lemma UnitTextHead(s: string, b: nat, tail: string)
    requires b <= |s| && Quiet(s[..b]) && s[b..] == tail
    requires Lacks(tail, StrayAccents + {'k', 'K'})
    ensures Lacks(s, StrayAccents + {'k', 'K'})
  {
    QuietHeadLacks(s, b, StrayAccents + {'k', 'K'});
  }

  /** `/u1` at the end of a text with a quiet head is read as microlitres */
  lemma MicroLitreAtEnd(s: string)
    requires |s| >= 3 && s[|s| - 3..] == "/u1" && Quiet(s[..|s| - 3])
    ensures Correct(s) == s[..|s| - 3] + "/µl"
  {
    var b := |s| - 3;
    var out := s[..b] + "/µl";
    UnitTextHead(s, b, "/u1");
    NotBeforeLetterAtEnd(s, "/u1", "/µl", b);
    MicroLitreOutput(out, b);
    MicroLitreRuleFires(s, out);
    LexiconSkips(s);
    CorrectIs(s, s, out);
  }

  lemma MicroLitreOutput(out: string, b: nat)
    requires b + 3 == |out| && Quiet(out[..b]) && out[b..] == "/µl"
    ensures !Occurs(out, "g7dl") && !Occurs(out, "g7a1") && !Occurs(out, "Apl")
  {
    QuietHeadLacks(out, b, {'g', 'A'});
    MissingCharNotOccurs(out, "g7dl", 0, {'g', 'A'});
    MissingCharNotOccurs(out, "g7a1", 0, {'g', 'A'});
    MissingCharNotOccurs(out, "Apl", 0, {'g', 'A'});
  }

  /** `/u1` followed by an ASCII letter that ends the text is left alone */
  lemma MicroLitreBeforeLetter(s: string)
    requires |s| >= 4 && s[|s| - 4..|s| - 1] == "/u1" && IsAsciiLetter(s[|s| - 1])
    requires Quiet(s[..|s| - 4]) && s[|s| - 1] !in Triggers
    ensures Correct(s) == s
  {
    var b := |s| - 4;
    assert s[b..] == "/u1" + [s[|s| - 1]];
    UnitTextHead(s, b, s[b..]);
    MicroLitreNotBeforeLetter(s, b);
    QuietHeadLacks(s, b, {'g', 'A'});
    MissingCharNotOccurs(s, "g7dl", 0, {'g', 'A'});
    MissingCharNotOccurs(s, "g7a1", 0, {'g', 'A'});
    MissingCharNotOccurs(s, "Apl", 0, {'g', 'A'});
    MicroLitreRuleFires(s, s);
    LexiconSkips(s);
    CorrectIs(s, s, s);
  }

  lemma MicroLitreNotBeforeLetter(s: string, b: nat)
    requires b + 4 == |s| && s[b..b + 3] == "/u1" && IsAsciiLetter(s[b + 3]) && '/' !in s[..b]
    ensures ReplaceNotBeforeLetterFrom(s, "/u1", "/µl", 0) == s
  {
    forall m | 0 <= m < |s| ensures !NotBeforeLetterAt(s, "/u1", m) {
      if m < b {
        assert s[..b][m] == s[m];
      } else if m > b && m + 3 <= |s| {
        assert s[m..m + 3][0] == s[m];
      }
    }
    NotBeforeLetterKeeps(s, "/u1", "/µl", 0);
  }

  /** `g7dl` at the end of a text with a quiet head is read as grams per decilitre */
  lemma GramsPerDecilitreAtEnd(s: string)
    requires |s| >= 4 && s[|s| - 4..] == "g7dl" && Quiet(s[..|s| - 4])
    ensures Correct(s) == s[..|s| - 4] + "g/dl"
  {
    var b := |s| - 4;
    var out := s[..b] + "g/dl";
    UnitTextHead(s, b, "g7dl");
    QuietHeadLacks(s, b, {'/'});
    MissingCharNotOccurs(s, "/u1", 0, {'/'});
    NotBeforeLetterAtEnd(s, "g7dl", "g/dl", b);
    GramsOutput(out, b);
    GramsRuleFires(s, out);
    LexiconSkips(s);
    CorrectIs(s, s, out);
  }

  /** `g7a1` at the end of a text with a quiet head is read as grams per decilitre too */
  lemma GramsMisreadA1AtEnd(s: string)
    requires |s| >= 4 && s[|s| - 4..] == "g7a1" && Quiet(s[..|s| - 4])
    ensures Correct(s) == s[..|s| - 4] + "g/dl"
  {
    var b := |s| - 4;
    var out := s[..b] + "g/dl";
    UnitTextHead(s, b, "g7a1");
    QuietHeadLacks(s, b, {'/'});
    MissingCharNotOccurs(s, "/u1", 0, {'/'});
    OnlyGramAt(s, b, "g7dl");
    NotBeforeLetterAtEnd(s, "g7a1", "g/dl", b);
    GramsOutput(out, b);
    GramsA1RuleFires(s, out);
    LexiconSkips(s);
    CorrectIs(s, s, out);
  }

  /** A gram pattern other than the one ending the text does not occur in it */
  lemma OnlyGramAt(s: string, b: nat, pat: string)
    requires b + 4 == |s| && |pat| == 4 && pat[0] == 'g' && Quiet(s[..b])
    requires s[b] == 'g' && 'g' !in s[b + 1..] && s[b..] != pat
    ensures !Occurs(s, pat)
  {
    assert 'g' in Triggers && 'g' !in s[..b];
    assert s[b..b + 4] == s[b..];
    OccursAtMostAt(s, pat, b);
  }

  lemma GramsOutput(out: string, b: nat)
    requires b + 4 == |out| && Quiet(out[..b]) && out[b..] == "g/dl"
    ensures !Occurs(out, "g7a1") && !Occurs(out, "Apl")
  {
    assert out[b + 1..] == "/dl";
    OnlyGramAt(out, b, "g7a1");
    QuietHeadLacks(out, b, {'A'});
    MissingCharNotOccurs(out, "Apl", 0, {'A'});
  }

  /** Where group 1 and the whole match of the count pattern end for `< N Apl` at index `b` */
  lemma CountMatch(s: string, b: nat, n: nat)
    requires b + n + 6 == |s| && n > 0
    requires s[b] == '<' && s[b + 1] == ' ' && s[b + n + 2..] == " Apl"
    requires forall i | b + 2 <= i < b + n + 2 :: IsDigit(s[i])
    ensures CountUnitAt(s, "Apl", b) == Some((b + n + 2, |s|))
  {
    var g := b + n + 2;
    SkipSpacesTo(s, b + 1, b + 2);
    SkipDigitsTo(s, b + 2, g);
    SkipSpacesTo(s, g, g + 1);
    assert s[g + 1..g + 4] == "Apl";
  }

  /** `< N Apl` after a quiet head without digits or `<` is read as `< N /µl` */
  lemma CountPerMicroLitre(s: string, b: nat)
    requires b + 7 <= |s| && Quiet(s[..b])
    requires forall i | 0 <= i < b :: !IsDigit(s[i]) && s[i] != '<'
    requires s[b] == '<' && s[b + 1] == ' ' && s[|s| - 4..] == " Apl"
    requires forall i | b + 2 <= i < |s| - 4 :: IsDigit(s[i])
    ensures Correct(s) == s[..|s| - 4] + " /µl"
  {
    var g: nat := |s| - 4;
    var out := s[..g] + " /µl";
    CountTextLacks(s, b);
    MissingCharNotOccurs(s, "/u1", 0, StrayAccents + {'k', 'K', '/', 'g'});
    MissingCharNotOccurs(s, "g7dl", 0, StrayAccents + {'k', 'K', '/', 'g'});
    MissingCharNotOccurs(s, "g7a1", 0, StrayAccents + {'k', 'K', '/', 'g'});
    CountReplaced(s, b);
    CountRuleFires(s, out);
    LexiconSkips(s);
    CorrectIs(s, s, out);
  }

  lemma CountTextLacks(s: string, b: nat)
    requires b + 7 <= |s| && Quiet(s[..b])
    requires s[b] == '<' && s[b + 1] == ' ' && s[|s| - 4..] == " Apl"
    requires forall i | b + 2 <= i < |s| - 4 :: IsDigit(s[i])
    ensures Lacks(s, StrayAccents + {'k', 'K', '/', 'g'})
  {
    var x := StrayAccents + {'k', 'K', '/', 'g'};
    var g := |s| - 4;
    forall k | 0 <= k < |s| - b ensures s[b..][k] !in x {
      assert s[b..][k] == s[b + k];
      if b + k >= g {
        assert s[g..][b + k - g] == s[b + k];
      }
    }
    QuietHeadLacks(s, b, x);
  }

  /** The count pattern cannot start at a character that is neither a digit nor `<` */
  lemma NoCountBefore(s: string, b: nat)
    requires b <= |s| && forall i | 0 <= i < b :: !IsDigit(s[i]) && s[i] != '<'
    ensures forall m | 0 <= m < b :: CountUnitAt(s, "Apl", m).None?
  {
  }

  lemma CountReplaced(s: string, b: nat)
    requires b + 7 <= |s|
    requires forall i | 0 <= i < b :: !IsDigit(s[i]) && s[i] != '<'
    requires s[b] == '<' && s[b + 1] == ' ' && s[|s| - 4..] == " Apl"
    requires forall i | b + 2 <= i < |s| - 4 :: IsDigit(s[i])
    ensures ReplaceCountUnitFrom(s, "Apl", " /µl", 0) == s[..|s| - 4] + " /µl"
  {
    var g: nat := |s| - 4;
    var e: nat := |s|;
    CountMatch(s, b, g - b - 2);
    NoCountBefore(s, b);
    CountUnitFirstAt(s, "Apl", " /µl", 0, b, g, e);
    CountUnitKeeps(s, "Apl", " /µl", e);
    assert s[0..g] == s[..g];
  }

  // ---------------------------------------------------------------------------
  // sample inputs
  // ---------------------------------------------------------------------------

  /** A stray circumflex on a capital: `Âlter` becomes `Älter` */
  lemma AccentExample()
    ensures Correct("Âlter") == "Älter"
  {
    AccentsFixedTo("Âlter", "Älter");
  }

  lemma MicroLitreExample()
    ensures Correct("120/u1") == "120/µl"
  {
    var s := "120/u1";
    assert s[3..] == "/u1" && s[..3] + "/µl" == "120/µl";
    MicroLitreAtEnd(s);
  }

  lemma MicroLitreBeforeLetterExample()
    ensures Correct("/u1x") == "/u1x"
  {
    MicroLitreBeforeLetter("/u1x");
  }

  lemma GramsPerDecilitreExample()
    ensures Correct("3.5 g7dl") == "3.5 g/dl"
  {
    var s := "3.5 g7dl";
    assert s[4..] == "g7dl" && s[..4] + "g/dl" == "3.5 g/dl";
    GramsPerDecilitreAtEnd(s);
  }

  lemma CountPerMicroLitreExample()
    ensures Correct("< 100 Apl") == "< 100 /µl"
  {
    var s := "< 100 Apl";
    assert s[..0] == [] && s[5..] == " Apl" && s[..5] + " /µl" == "< 100 /µl";
    CountPerMicroLitre(s, 0);
  }

  /** The long word is corrected as a whole; the shorter key `Aktivitat` at its start is not applied */
  lemma LongWordExample()
    ensures Correct("Aktivitatsparameter") == "Aktivitätsparameter"
  {
    LongWordLexicon();
    LongWordRules();
    CorrectIs("Aktivitatsparameter", "Aktivitätsparameter", "Aktivitätsparameter");
  }

  /**
   * The characters that rule the other keys and patterns out: each key the
   * long word does not contain has a character at its given index from
   * `{g, G, T, R}`, and each unit pattern has one from `{/, g, l}`.
   */
  lemma LongWordLacks()
    ensures Lacks("Aktivitatsparameter", {'g', 'G', 'T', 'R'})
    ensures Lacks("Aktivitätsparameter", {'g', 'G', 'T', 'R'})
    ensures Lacks("Aktivitätsparameter", StrayAccents)
    ensures Lacks("Aktivitätsparameter", {'/', 'g', 'l'})
  {
  }

  lemma LongWordRules()
    ensures AllWellFormed(PatternRules)
    ensures ApplyRules(PatternRules, "Aktivitätsparameter", |PatternRules|) == "Aktivitätsparameter"
  {
    var w := "Aktivitätsparameter";
    LongWordLacks();
    MissingCharNotOccurs(w, "/u1", 0, {'/', 'g', 'l'});
    MissingCharNotOccurs(w, "g7dl", 0, {'/', 'g', 'l'});
    MissingCharNotOccurs(w, "g7a1", 0, {'/', 'g', 'l'});
    MissingCharNotOccurs(w, "Apl", 2, {'/', 'g', 'l'});
    NoRuleFires(w);
  }

  lemma LongWordHits()
    ensures ReplaceWholeWord("Aktivitatsparameter", "Aktivitat", "Aktivität") == "Aktivitatsparameter"
    ensures ReplaceWholeWord("Aktivitatsparameter", "Aktivitatsparameter", "Aktivitätsparameter") == "Aktivitätsparameter"
  {
    var s := "Aktivitatsparameter";
    assert s[1..] == "ktivitatsparameter";
    assert HasAt(s, "Aktivitat", 0);
    PartOfWordAtStart(s, "Aktivitat", "Aktivität");
    WholeWordIsText(s, "Aktivitätsparameter");
  }

  lemma LongWordMisses()
    ensures ReplaceWholeWord("Aktivitatsparameter", "Abklarung", "Abklärung") == "Aktivitatsparameter"
    ensures ReplaceWholeWord("Aktivitätsparameter", "ABKLARUNG", "ABKLÄRUNG") == "Aktivitätsparameter"
    ensures ReplaceWholeWord("Aktivitätsparameter", "AKTIVITAT", "AKTIVITÄT") == "Aktivitätsparameter"
    ensures ReplaceWholeWord("Aktivitätsparameter", "AKTIVITATSPARAMETER", "AKTIVITÄTSPARAMETER") == "Aktivitätsparameter"
  {
    LongWordLacks();
    KeyAbsent("Aktivitatsparameter", "Abklarung", "Abklärung", 8, {'g', 'G', 'T', 'R'});
    KeyAbsent("Aktivitätsparameter", "ABKLARUNG", "ABKLÄRUNG", 8, {'g', 'G', 'T', 'R'});
    KeyAbsent("Aktivitätsparameter", "AKTIVITAT", "AKTIVITÄT", 8, {'g', 'G', 'T', 'R'});
    KeyAbsent("Aktivitätsparameter", "AKTIVITATSPARAMETER", "AKTIVITÄTSPARAMETER", 18, {'g', 'G', 'T', 'R'});
  }

  lemma LongWordLexicon()
    ensures ApplyLexicon(ExpandedLexicon, "Aktivitatsparameter", |ExpandedLexicon|) == "Aktivitätsparameter"
  {
    var s, w := "Aktivitatsparameter", "Aktivitätsparameter";
    LongWordHits();
    LongWordMisses();
    LexiconChain(s, s, s, w, w, w, w);
  }

  /** An all-capitals word is corrected through its upper-case variant */
  lemma CapitalsExample()
    ensures Correct("ABKLARUNG") == "ABKLÄRUNG"
  {
    CapitalsLexicon();
    CapitalsRules();
    CorrectIs("ABKLARUNG", "ABKLÄRUNG", "ABKLÄRUNG");
  }

  /**
   * The characters that rule the other keys and patterns out: `{g, t, r}`
   * for the mixed-case keys, `{T, E}` for the capitals keys that do not
   * match, and `{/, g, p}` for the unit patterns.
   */
  lemma CapitalsLacks()
    ensures Lacks("ABKLARUNG", {'g', 't', 'r'})
    ensures Lacks("ABKLÄRUNG", {'T', 'E'})
    ensures Lacks("ABKLÄRUNG", StrayAccents)
    ensures Lacks("ABKLÄRUNG", {'/', 'g', 'p'})
  {
  }

  lemma CapitalsRules()
    ensures AllWellFormed(PatternRules)
    ensures ApplyRules(PatternRules, "ABKLÄRUNG", |PatternRules|) == "ABKLÄRUNG"
  {
    var w := "ABKLÄRUNG";
    CapitalsLacks();
    MissingCharNotOccurs(w, "/u1", 0, {'/', 'g', 'p'});
    MissingCharNotOccurs(w, "g7dl", 0, {'/', 'g', 'p'});
    MissingCharNotOccurs(w, "g7a1", 0, {'/', 'g', 'p'});
    MissingCharNotOccurs(w, "Apl", 1, {'/', 'g', 'p'});
    NoRuleFires(w);
  }

  lemma CapitalsHit()
    ensures ReplaceWholeWord("ABKLARUNG", "ABKLARUNG", "ABKLÄRUNG") == "ABKLÄRUNG"
  {
    WholeWordIsText("ABKLARUNG", "ABKLÄRUNG");
  }

  lemma CapitalsMisses()
    ensures ReplaceWholeWord("ABKLARUNG", "Abklarung", "Abklärung") == "ABKLARUNG"
    ensures ReplaceWholeWord("ABKLARUNG", "Aktivitat", "Aktivität") == "ABKLARUNG"
    ensures ReplaceWholeWord("ABKLARUNG", "Aktivitatsparameter", "Aktivitätsparameter") == "ABKLARUNG"
    ensures ReplaceWholeWord("ABKLÄRUNG", "AKTIVITAT", "AKTIVITÄT") == "ABKLÄRUNG"
    ensures ReplaceWholeWord("ABKLÄRUNG", "AKTIVITATSPARAMETER", "AKTIVITÄTSPARAMETER") == "ABKLÄRUNG"
  {
    CapitalsLacks();
    KeyAbsent("ABKLARUNG", "Abklarung", "Abklärung", 8, {'g', 't', 'r'});
    KeyAbsent("ABKLARUNG", "Aktivitat", "Aktivität", 8, {'g', 't', 'r'});
    KeyAbsent("ABKLARUNG", "Aktivitatsparameter", "Aktivitätsparameter", 18, {'g', 't', 'r'});
    KeyAbsent("ABKLÄRUNG", "AKTIVITAT", "AKTIVITÄT", 8, {'T', 'E'});
    KeyAbsent("ABKLÄRUNG", "AKTIVITATSPARAMETER", "AKTIVITÄTSPARAMETER", 17, {'T', 'E'});
  }

  lemma CapitalsLexicon()
    ensures ApplyLexicon(ExpandedLexicon, "ABKLARUNG", |ExpandedLexicon|) == "ABKLÄRUNG"
  {
    var s, w := "ABKLARUNG", "ABKLÄRUNG";
    CapitalsHit();
    CapitalsMisses();
    LexiconChain(s, s, s, s, w, w, w);
  }

  /**
   * The corrector is not idempotent: rewriting `g7dl` to `g/dl` ends the
   * word before it, so a second pass finds the whole word `Abklarung`.
   */
  lemma NotIdempotent()
    ensures Correct("Abklarung7dl") == "Abklarung/dl"
    ensures Correct("Abklarung/dl") == "Abklärung/dl"
    ensures Correct(Correct("Abklarung7dl")) != Correct("Abklarung7dl")
  {
    FirstPass();
    SecondPass();
  }

  /**
   * The characters that rule the keys other than `Abklarung` out
   * (`{t, e, G, T, R}`), the stray accents, `/u1` (by its `/`), and, in the
   * output, `g7a1` and `Apl` (by `7` and `p`).
   */
  lemma FirstPassLacks()
    ensures Lacks("Abklarung7dl", {'t', 'e', 'G', 'T', 'R'})
    ensures Lacks("Abklarung7dl", StrayAccents)
    ensures Lacks("Abklarung7dl", {'/'})
    ensures Lacks("Abklarung/dl", {'7', 'p'})
  {
  }

  lemma FirstPass()
    ensures Correct("Abklarung7dl") == "Abklarung/dl"
  {
    FirstPassLexicon();
    FirstPassRules();
    CorrectIs("Abklarung7dl", "Abklarung7dl", "Abklarung/dl");
  }

  lemma FirstPassRules()
    ensures AllWellFormed(PatternRules)
    ensures ApplyRules(PatternRules, "Abklarung7dl", |PatternRules|) == "Abklarung/dl"
  {
    var s, out := "Abklarung7dl", "Abklarung/dl";
    FirstPassLacks();
    MissingCharNotOccurs(s, "/u1", 0, {'/'});
    FirstPassGrams();
    MissingCharNotOccurs(out, "g7a1", 1, {'7', 'p'});
    MissingCharNotOccurs(out, "Apl", 1, {'7', 'p'});
    GramsRuleFires(s, out);
  }

  lemma FirstPassGrams()
    ensures ReplaceNotBeforeLetterFrom("Abklarung7dl", "g7dl", "g/dl", 0) == "Abklarung/dl"
  {
    FirstPassSlices();
    NotBeforeLetterAtEnd("Abklarung7dl", "g7dl", "g/dl", 8);
  }

  lemma FirstPassSlices()
    ensures "Abklarung7dl"[8..] == "g7dl"
    ensures 'g' !in "Abklarung7dl"[..8]
    ensures "Abklarung7dl"[..8] + "g/dl" == "Abklarung/dl"
  {
    var s := "Abklarung7dl";
    assert s[..8] == "Abklarun";
  }

  lemma FirstPassLexicon()
    ensures ApplyLexicon(ExpandedLexicon, "Abklarung7dl", |ExpandedLexicon|) == "Abklarung7dl"
  {
    var s := "Abklarung7dl";
    assert s[1..] == "bklarung7dl";
    assert HasAt(s, "Abklarung", 0);
    PartOfWordAtStart(s, "Abklarung", "Abklärung");
    FirstPassLacks();
    KeyAbsent(s, "Aktivitat", "Aktivität", 8, {'t', 'e', 'G', 'T', 'R'});
    KeyAbsent(s, "Aktivitatsparameter", "Aktivitätsparameter", 17, {'t', 'e', 'G', 'T', 'R'});
    KeyAbsent(s, "ABKLARUNG", "ABKLÄRUNG", 8, {'t', 'e', 'G', 'T', 'R'});
    KeyAbsent(s, "AKTIVITAT", "AKTIVITÄT", 8, {'t', 'e', 'G', 'T', 'R'});
    KeyAbsent(s, "AKTIVITATSPARAMETER", "AKTIVITÄTSPARAMETER", 18, {'t', 'e', 'G', 'T', 'R'});
    LexiconChain(s, s, s, s, s, s, s);
  }

  /**
   * The characters that rule the keys other than `Abklarung` out
   * (`{t, e, G, T, R}`), the stray accents, and the unit patterns
   * (`{1, 7, p}`).
   */
  lemma SecondPassLacks()
    ensures Lacks("Abklärung/dl", {'t', 'e', 'G', 'T', 'R'})
    ensures Lacks("Abklärung/dl", StrayAccents)
    ensures Lacks("Abklärung/dl", {'1', '7', 'p'})
  {
  }

  lemma SecondPass()
    ensures Correct("Abklarung/dl") == "Abklärung/dl"
  {
    SecondPassLexicon();
    SecondPassRules();
    CorrectIs("Abklarung/dl", "Abklärung/dl", "Abklärung/dl");
  }

  lemma SecondPassRules()
    ensures AllWellFormed(PatternRules)
    ensures ApplyRules(PatternRules, "Abklärung/dl", |PatternRules|) == "Abklärung/dl"
  {
    var w := "Abklärung/dl";
    SecondPassLacks();
    MissingCharNotOccurs(w, "/u1", 2, {'1', '7', 'p'});
    MissingCharNotOccurs(w, "g7dl", 1, {'1', '7', 'p'});
    MissingCharNotOccurs(w, "g7a1", 1, {'1', '7', 'p'});
    MissingCharNotOccurs(w, "Apl", 1, {'1', '7', 'p'});
    NoRuleFires(w);
  }

  lemma SecondPassHit()
    ensures ReplaceWholeWord("Abklarung/dl", "Abklarung", "Abklärung") == "Abklärung/dl"
  {
    var s := "Abklarung/dl";
    assert s[1..] == "bklarung/dl";
    assert HasAt(s, "Abklarung", 0);
    WholeWordAtStart(s, "Abklarung", "Abklärung");
    assert "Abklärung" + s[9..] == "Abklärung/dl";
  }

  lemma SecondPassLexicon()
    ensures ApplyLexicon(ExpandedLexicon, "Abklarung/dl", |ExpandedLexicon|) == "Abklärung/dl"
  {
    var w := "Abklärung/dl";
    SecondPassHit();
    SecondPassLacks();
    KeyAbsent(w, "Aktivitat", "Aktivität", 8, {'t', 'e', 'G', 'T', 'R'});
    KeyAbsent(w, "Aktivitatsparameter", "Aktivitätsparameter", 17, {'t', 'e', 'G', 'T', 'R'});
    KeyAbsent(w, "ABKLARUNG", "ABKLÄRUNG", 8, {'t', 'e', 'G', 'T', 'R'});
    KeyAbsent(w, "AKTIVITAT", "AKTIVITÄT", 8, {'t', 'e', 'G', 'T', 'R'});
    KeyAbsent(w, "AKTIVITATSPARAMETER", "AKTIVITÄTSPARAMETER", 18, {'t', 'e', 'G', 'T', 'R'});
    LexiconChain("Abklarung/dl", w, w, w, w, w, w);
  }
}
