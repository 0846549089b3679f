/**
 * `german_word_correction`: repairs OCR misreadings of German medical text in
 * three fixed stages -- expand the lexicon with case variants, substitute
 * whole words, then apply the special-character and unit patterns.
 */
module PostProcessing {
  import opened Text
  import opened Rewrite

  /** The `corrections` dict: `(wrong, correct)` entries in insertion order */
  type Table = seq<(string, string)>

  /** Python dicts hold every key once */
  predicate UniqueKeys(d: Table) {
    forall i, j | 0 <= i < j < |d| :: d[i].0 != d[j].0
  }

  predicate HasKey(d: Table, k: string) {
    exists i | 0 <= i < |d| :: d[i].0 == k
  }

  /** Index of the first entry at or after `i` whose key is `k` */
  function KeyIndex(d: Table, k: string, i: nat): (r: Option<nat>)
    requires i <= |d|
    ensures r.Some? ==> i <= r.value < |d| && d[r.value].0 == k
    ensures r.None? ==> forall j | i <= j < |d| :: d[j].0 != k
    decreases |d| - i
  {
    if i == |d| then None else if d[i].0 == k then Some(i) else KeyIndex(d, k, i + 1)
  }

  /** `d[k] = v`: an existing key keeps its place and takes the new value; a new key goes last */
  function Put(d: Table, k: string, v: string): Table {
    match KeyIndex(d, k, 0)
    case Some(i) => d[i := (k, v)]
    case None => d + [(k, v)]
  }

  /** Assignment keeps the keys of a dict unique */
  lemma PutKeepsUnique(d: Table, k: string, v: string)
    requires UniqueKeys(d)
    ensures UniqueKeys(Put(d, k, v))
  {
  }

  /** Assigning a new key appends it */
  lemma PutNew(d: Table, k: string, v: string)
    requires !HasKey(d, k)
    ensures Put(d, k, v) == d + [(k, v)]
  {
    assert KeyIndex(d, k, 0).None?;
  }

  /** `d[k] = v` overwrites the value of an existing key in place and appends a new key */
  lemma PutAssigns(d: Table, k: string, v: string)
    requires UniqueKeys(d)
    ensures HasKey(d, k) ==> |Put(d, k, v)| == |d| && forall i | 0 <= i < |d| :: Put(d, k, v)[i] == (if d[i].0 == k then (k, v) else d[i])
    ensures !HasKey(d, k) ==> Put(d, k, v) == d + [(k, v)]
  {
  }

  /** The base table of post_processing.py */
  const BaseLexicon: Table := [
    ("Abklarung", "Abklärung"),
    ("Aktivitat", "Aktivität"),
    ("Aktivitatsparameter", "Aktivitätsparameter")
  ]

  /** One pass of the expansion loop: add the title-case, then the upper-case variant */
  function AddCaseVariants(d: Table, wrong: string, correct: string): Table {
    var titled := if Title(wrong) != wrong then Put(d, Title(wrong), Title(correct)) else d;
    if Upper(wrong) != wrong then Put(titled, Upper(wrong), Upper(correct)) else titled
  }

  /** The dict after the expansion loop has visited the first `n` entries of its snapshot `base` */
  function ExpandThrough(base: Table, n: nat): Table
    requires n <= |base|
  {
    if n == 0 then base
    else AddCaseVariants(ExpandThrough(base, n - 1), base[n - 1].0, base[n - 1].1)
  }

  lemma ExpandThroughStep(base: Table, n: nat, d: Table)
    requires n < |base|
    requires d == AddCaseVariants(ExpandThrough(base, n), base[n].0, base[n].1)
    ensures d == ExpandThrough(base, n + 1)
  {
  }

  function Expand(base: Table): Table {
    ExpandThrough(base, |base|)
  }

  /** The expansion keeps the dict's keys unique, pass after pass */
  lemma {:induction false} ExpandKeepsUnique(base: Table, n: nat)
    requires n <= |base| && UniqueKeys(base)
    ensures UniqueKeys(ExpandThrough(base, n))
  {
    if n > 0 {
      ExpandKeepsUnique(base, n - 1);
      var d := ExpandThrough(base, n - 1);
      var (wrong, correct) := base[n - 1];
      var titled := if Title(wrong) != wrong then Put(d, Title(wrong), Title(correct)) else d;
      PutKeepsUnique(d, Title(wrong), Title(correct));
      PutKeepsUnique(titled, Upper(wrong), Upper(correct));
    }
  }

  /** The table the whole-word pass runs over: the base entries, then their upper-case variants */
  const ExpandedLexicon: Table := BaseLexicon + [
    ("ABKLARUNG", "ABKLÄRUNG"),
    ("AKTIVITAT", "AKTIVITÄT"),
    ("AKTIVITATSPARAMETER", "AKTIVITÄTSPARAMETER")
  ]

  /** The upper-case variants of the first `n` entries of `base`, in order */
  function UpperVariants(base: Table, n: nat): (r: Table)
    requires n <= |base|
    ensures |r| == n
    ensures forall j | 0 <= j < n :: r[j] == (Upper(base[j].0), Upper(base[j].1))
  {
    if n == 0 then [] else UpperVariants(base, n - 1) + [(Upper(base[n - 1].0), Upper(base[n - 1].1))]
  }

  /** Every key is a capital letter followed by at least one lower-case letter */
  predicate CapitalisedKeys(base: Table) {
    forall j | 0 <= j < |base| :: |base[j].0| >= 2 && Capitalised(base[j].0)
  }

  /** Two different capitalised words have different upper-case forms */
  lemma UpperInjective(a: string, b: string)
    requires Capitalised(a) && Capitalised(b) && a != b
    ensures Upper(a) != Upper(b)
  {
    if |a| == |b| {
      var k :| 0 <= k < |a| && a[k] != b[k];
      UpperCharInjective(a[k], b[k]);
      assert Upper(a)[k] != Upper(b)[k];
    }
  }

  /** `UpperChar` is one-to-one on the lower-case letters and on the upper-case ones */
  lemma UpperCharInjective(c: char, d: char)
    requires c != d
    requires (IsLowerLetter(c) && IsLowerLetter(d)) || (IsUpperLetter(c) && IsUpperLetter(d))
    ensures UpperChar(c) != UpperChar(d)
  {
  }

  /**
   * Over a table of capitalised keys the expansion loop adds no title-case
   * entry and one fresh upper-case entry per key, so each pass appends.
   */
  lemma {:induction false} ExpandCapitalised(base: Table, n: nat)
    requires UniqueKeys(base) && CapitalisedKeys(base) && n <= |base|
    ensures ExpandThrough(base, n) == base + UpperVariants(base, n)
  {
    if n > 0 {
      ExpandCapitalised(base, n - 1);
      CapitalisedPass(base, n);
    } else {
      assert base + UpperVariants(base, 0) == base;
    }
  }

  /** The pass over the `n`-th capitalised key appends its upper-case variant */
  lemma CapitalisedPass(base: Table, n: nat)
    requires UniqueKeys(base) && CapitalisedKeys(base) && 0 < n <= |base|
    ensures AddCaseVariants(base + UpperVariants(base, n - 1), base[n - 1].0, base[n - 1].1) == base + UpperVariants(base, n)
  {
    var d := base + UpperVariants(base, n - 1);
    var k, v := base[n - 1].0, base[n - 1].1;
    assert |k| >= 2 && Capitalised(k);
    TitleOfCapitalised(k);
    assert Upper(k)[1] != k[1];
    UpperVariantIsNew(base, n);
    PutNew(d, Upper(k), Upper(v));
    assert UpperVariants(base, n) == UpperVariants(base, n - 1) + [(Upper(k), Upper(v))];
    assert d + [(Upper(k), Upper(v))] == base + UpperVariants(base, n);
  }

  /** The upper-case form of the `n`-th capitalised key is not yet a key when its pass comes */
  lemma UpperVariantIsNew(base: Table, n: nat)
    requires UniqueKeys(base) && CapitalisedKeys(base) && 0 < n <= |base|
    ensures !HasKey(base + UpperVariants(base, n - 1), Upper(base[n - 1].0))
  {
    var d := base + UpperVariants(base, n - 1);
    var k := base[n - 1].0;
    forall i | 0 <= i < |d| ensures d[i].0 != Upper(k) {
      if i < |base| {
        assert Upper(k)[1] != d[i].0[1];
      } else {
        UpperInjective(base[i - |base|].0, k);
      }
    }
  }

  /** The upper-case variants of the base table, spelt out */
  lemma UpperVariantsOfBase()
    ensures UpperVariants(BaseLexicon, 3) == [("ABKLARUNG", "ABKLÄRUNG"), ("AKTIVITAT", "AKTIVITÄT"), ("AKTIVITATSPARAMETER", "AKTIVITÄTSPARAMETER")]
  {
    var u := UpperVariants(BaseLexicon, 3);
    UpperKey0();
    UpperValue0();
    assert u[0] == ("ABKLARUNG", "ABKLÄRUNG");
    UpperKey1();
    UpperValue1();
    assert u[1] == ("AKTIVITAT", "AKTIVITÄT");
    UpperKey2();
    UpperValue2();
    assert u[2] == ("AKTIVITATSPARAMETER", "AKTIVITÄTSPARAMETER");
  }

  lemma BaseIsCapitalised()
    ensures UniqueKeys(BaseLexicon) && CapitalisedKeys(BaseLexicon)
  {
    assert Capitalised("Abklarung");
    assert Capitalised("Aktivitat");
    assert Capitalised("Aktivitatsparameter");
  }

  /** Expanding the base table adds exactly the three upper-case variants, after the base entries */
  lemma ExpansionOfBaseLexicon()
    ensures UniqueKeys(BaseLexicon)
    ensures Expand(BaseLexicon) == ExpandedLexicon
  {
    BaseIsCapitalised();
    ExpandCapitalised(BaseLexicon, 3);
    UpperVariantsOfBase();
  }

  /** A capital letter followed by lower-case letters */
  predicate Capitalised(s: string) {
    |s| > 0 && IsUpperLetter(s[0]) && forall k | 1 <= k < |s| :: IsLowerLetter(s[k])
  }

  /** `str.title` leaves a capitalised word as it is */
  lemma TitleOfCapitalised(s: string)
    requires Capitalised(s)
    ensures Title(s) == s
  {
    TitleChars(s);
    assert forall k | 0 <= k < |s| :: Title(s)[k] == s[k];
  }

  lemma Title0() ensures Title("Abklarung") == "Abklarung" { TitleOfCapitalised("Abklarung"); }
  lemma Title1() ensures Title("Aktivitat") == "Aktivitat" { TitleOfCapitalised("Aktivitat"); }
  lemma Title2() ensures Title("Aktivitatsparameter") == "Aktivitatsparameter" { TitleOfCapitalised("Aktivitatsparameter"); }
  lemma UpperKey0() ensures Upper("Abklarung") == "ABKLARUNG" { UpperIs("Abklarung", "ABKLARUNG"); }
  lemma UpperKey1() ensures Upper("Aktivitat") == "AKTIVITAT" { UpperIs("Aktivitat", "AKTIVITAT"); }
  lemma UpperKey2() ensures Upper("Aktivitatsparameter") == "AKTIVITATSPARAMETER" { UpperIs("Aktivitatsparameter", "AKTIVITATSPARAMETER"); }
  lemma UpperValue0() ensures Upper("Abklärung") == "ABKLÄRUNG" { UpperIs("Abklärung", "ABKLÄRUNG"); }
  lemma UpperValue1() ensures Upper("Aktivität") == "AKTIVITÄT" { UpperIs("Aktivität", "AKTIVITÄT"); }
  lemma UpperValue2() ensures Upper("Aktivitätsparameter") == "AKTIVITÄTSPARAMETER" { UpperIs("Aktivitätsparameter", "AKTIVITÄTSPARAMETER"); }

  predicate KeysNonEmpty(t: Table) {
    forall j | 0 <= j < |t| :: t[j].0 != []
  }

  predicate ValuesNonEmpty(t: Table) {
    forall j | 0 <= j < |t| :: t[j].1 != []
  }

  lemma LexiconEntriesNonEmpty()
    ensures KeysNonEmpty(ExpandedLexicon) && ValuesNonEmpty(ExpandedLexicon)
  {
  }

  /** The text after the whole-word substitutions of the first `n` entries of `t`, in order */
  function ApplyLexicon(t: Table, s: string, n: nat): string
    requires n <= |t| && KeysNonEmpty(t)
  {
    if n == 0 then s else ReplaceWholeWord(ApplyLexicon(t, s, n - 1), t[n - 1].0, t[n - 1].1)
  }

  /** A key that does not occur leaves the text as it is */
  lemma AbsentKeyKeeps(s: string, key: string, val: string)
    requires key != [] && !Occurs(s, key)
    ensures ReplaceWholeWord(s, key, val) == s
  {
    forall j | 0 <= j < |s| ensures !WholeWordAt(s, key, j) {
      assert !HasAt(s, key, j);
    }
    WholeWordKeeps(s, key, val, 0);
  }

  /** When none of the first `n` keys occurs in `s`, the word pass leaves `s` as it is */
  lemma {:induction false} AbsentKeysKeep(t: Table, s: string, n: nat)
    requires n <= |t| && KeysNonEmpty(t)
    requires forall j | 0 <= j < n :: !Occurs(s, t[j].0)
    ensures ApplyLexicon(t, s, n) == s
  {
    if n > 0 {
      AbsentKeysKeep(t, s, n - 1);
      AbsentKeyKeeps(s, t[n - 1].0, t[n - 1].1);
    }
  }

  /** Entries `m..n-1` leave the text alone when each of them leaves what the first `m` produced alone */
  lemma {:induction false} UnchangedByLexicon(t: Table, s: string, m: nat, n: nat)
    requires m <= n <= |t| && KeysNonEmpty(t)
    requires forall j | m <= j < n :: ReplaceWholeWord(ApplyLexicon(t, s, m), t[j].0, t[j].1) == ApplyLexicon(t, s, m)
    ensures ApplyLexicon(t, s, n) == ApplyLexicon(t, s, m)
  {
    if m < n {
      UnchangedByLexicon(t, s, m, n - 1);
    }
  }

  /** With non-empty replacements the word pass empties no text */
  lemma {:induction false} LexiconNonEmpty(t: Table, s: string, n: nat)
    requires n <= |t| && KeysNonEmpty(t) && ValuesNonEmpty(t)
    ensures ApplyLexicon(t, s, n) == [] <==> s == []
  {
    if n > 0 {
      LexiconNonEmpty(t, s, n - 1);
      WholeWordNonEmpty(ApplyLexicon(t, s, n - 1), t[n - 1].0, t[n - 1].1, 0);
    }
  }

  /** The eight stray-accent substitutions */
  const SpecialChars: seq<Rule> := [
    CharRule('â', 'ä'), CharRule('ô', 'ö'), CharRule('û', 'ü'), CharRule('à', 'ä'),
    CharRule('Â', 'Ä'), CharRule('Ô', 'Ö'), CharRule('Û', 'Ü'), CharRule('À', 'Ä')
  ]

  /** The four unit patterns, in list order */
  const UnitCorrections: seq<Rule> := [
    NotBeforeLetter("/u1", "/µl"),
    NotBeforeLetter("g7dl", "g/dl"),
    NotBeforeLetter("g7a1", "g/dl"),
    CountThenUnit("Apl", " /µl")
  ]

  /** `special_chars + unit_corrections`, the list the last loop runs over */
  const PatternRules: seq<Rule> := SpecialChars + UnitCorrections

  const StrayAccents: set<char> := {'â', 'ô', 'û', 'à', 'Â', 'Ô', 'Û', 'À'}

  /** The character each stray accent stands for */
  function FixAccent(c: char): char {
    match c
    case 'â' => 'ä'
    case 'ô' => 'ö'
    case 'û' => 'ü'
    case 'à' => 'ä'
    case 'Â' => 'Ä'
    case 'Ô' => 'Ö'
    case 'Û' => 'Ü'
    case 'À' => 'Ä'
    case _ => c
  }

  /** `german_word_correction(text)` */
  function Correct(text: string): string {
    LexiconEntriesNonEmpty();
    PatternRulesWriteNoAccent();
    ApplyRules(PatternRules, ApplyLexicon(ExpandedLexicon, text, |ExpandedLexicon|), |PatternRules|)
  }

  /** The expansion loop: visit a snapshot of the dict's entries, adding their case variants in place */
  method ExpandCaseVariants(base: Table) returns (corrections: Table)
    requires UniqueKeys(base)
    ensures corrections == Expand(base)
    ensures UniqueKeys(corrections)
  {
    corrections := base;
    var snapshot := base;
    var n := 0;
    while n < |snapshot|
      invariant 0 <= n <= |snapshot|
      invariant corrections == ExpandThrough(base, n)
    {
      var wrong, correct := snapshot[n].0, snapshot[n].1;
      ghost var visited := corrections;
      if Title(wrong) != wrong {
        corrections := Put(corrections, Title(wrong), Title(correct));
      }
      if Upper(wrong) != wrong {
        corrections := Put(corrections, Upper(wrong), Upper(correct));
      }
      assert corrections == AddCaseVariants(visited, wrong, correct);
      ExpandThroughStep(base, n, corrections);
      n := n + 1;
    }
    ExpandKeepsUnique(base, n);
  }

  /** The word loop: one whole-word substitution per dict entry, in insertion order */
  method SubstituteWords(corrections: Table, text: string) returns (r: string)
    requires KeysNonEmpty(corrections)
    ensures r == ApplyLexicon(corrections, text, |corrections|)
  {
    r := text;
    var i := 0;
    while i < |corrections|
      invariant 0 <= i <= |corrections|
      invariant r == ApplyLexicon(corrections, text, i)
    {
      r := ReplaceWholeWord(r, corrections[i].0, corrections[i].1);
      i := i + 1;
    }
  }

  /** The pattern loop: one `re.sub` per rule, in list order */
  method ApplyPatterns(rules: seq<Rule>, text: string) returns (r: string)
    requires AllWellFormed(rules)
    ensures r == ApplyRules(rules, text, |rules|)
  {
    r := text;
    var i := 0;
    while i < |rules|
      invariant 0 <= i <= |rules|
      invariant r == ApplyRules(rules, text, i)
    {
      r := ApplyRule(rules[i], r);
      ApplyRulesStep(rules, text, i, r);
      i := i + 1;
    }
  }

  /**
   * The function as written: grow the dict in place, then rewrite `text` once
   * per dict entry, then once per pattern rule.
   */
  method GermanWordCorrection(text: string) returns (r: string)
    ensures r == Correct(text)
    ensures forall k | 0 <= k < |r| :: r[k] !in StrayAccents
    ensures r == [] <==> text == []
  {
    BaseIsCapitalised();
    var corrections := ExpandCaseVariants(BaseLexicon);
    ExpansionOfBaseLexicon();
    LexiconEntriesNonEmpty();

    var worded := SubstituteWords(corrections, text);
    var rules := SpecialChars + UnitCorrections;
    PatternRulesWriteNoAccent();
    r := ApplyPatterns(rules, worded);
    NoStrayAccents(text);
    CorrectNonEmpty(text);
  }

  // ---------------------------------------------------------------------------
  // properties
  // ---------------------------------------------------------------------------

  /** The title-case branch of the expansion adds nothing: every base key is already title case */
  lemma BaseKeysAreTitleCase()
    ensures Title(BaseLexicon[0].0) == BaseLexicon[0].0
    ensures Title(BaseLexicon[1].0) == BaseLexicon[1].0
    ensures Title(BaseLexicon[2].0) == BaseLexicon[2].0
  {
    Title0();
    Title1();
    Title2();
  }

  /** The rule list, spelt out */
  lemma PatternRulesInOrder()
    ensures PatternRules == [
      CharRule('â', 'ä'), CharRule('ô', 'ö'), CharRule('û', 'ü'), CharRule('à', 'ä'),
      CharRule('Â', 'Ä'), CharRule('Ô', 'Ö'), CharRule('Û', 'Ü'), CharRule('À', 'Ä'),
      NotBeforeLetter("/u1", "/µl"), NotBeforeLetter("g7dl", "g/dl"),
      NotBeforeLetter("g7a1", "g/dl"), CountThenUnit("Apl", " /µl")]
  {
  }

  /** Every stray accent has a rule removing it, and no rule writes one */
  lemma PatternRulesRemoveAccents()
    ensures AllWellFormed(PatternRules)
    ensures RemovedBy(PatternRules, |PatternRules|) == StrayAccents
    ensures forall j | 0 <= j < |PatternRules| :: WritesNone(PatternRules[j], StrayAccents)
  {
    PatternRulesWriteNoAccent();
    PatternRulesRemoveEveryAccent();
  }

  lemma PatternRulesWriteNoAccent()
    ensures AllWellFormed(PatternRules)
    ensures forall j | 0 <= j < |PatternRules| :: WritesNone(PatternRules[j], StrayAccents)
    ensures forall j | 0 <= j < |PatternRules| :: Introduces(PatternRules[j]) != []
  {
    PatternRulesInOrder();
  }

  lemma PatternRulesRemoveEveryAccent()
    ensures RemovedBy(PatternRules, |PatternRules|) == StrayAccents
  {
    PatternRulesInOrder();
    assert RemovedBy(PatternRules, 1) == {'â'};
    assert RemovedBy(PatternRules, 2) == {'â', 'ô'};
    assert RemovedBy(PatternRules, 3) == {'â', 'ô', 'û'};
    assert RemovedBy(PatternRules, 4) == {'â', 'ô', 'û', 'à'};
    assert RemovedBy(PatternRules, 5) == {'â', 'ô', 'û', 'à', 'Â'};
    assert RemovedBy(PatternRules, 6) == {'â', 'ô', 'û', 'à', 'Â', 'Ô'};
    assert RemovedBy(PatternRules, 7) == {'â', 'ô', 'û', 'à', 'Â', 'Ô', 'Û'};
    assert RemovedBy(PatternRules, 8) == StrayAccents;
    assert RemovedBy(PatternRules, 9) == StrayAccents;
    assert RemovedBy(PatternRules, 10) == StrayAccents;
    assert RemovedBy(PatternRules, 11) == StrayAccents;
  }

  /** No stray accent survives the corrector, whatever the input */
  lemma NoStrayAccents(text: string)
    ensures forall k | 0 <= k < |Correct(text)| :: Correct(text)[k] !in StrayAccents
  {
    PatternRulesRemoveAccents();
    IntroducedByAvoids(PatternRules, |PatternRules|, StrayAccents);
    var w := ApplyLexicon(ExpandedLexicon, text, |ExpandedLexicon|);
    RulesOutputChars(PatternRules, w, |PatternRules|);
    var r := ApplyRules(PatternRules, w, |PatternRules|);
    assert r == Correct(text);
  }

  /** The corrector never turns a non-empty text into an empty one, and leaves `""` empty */
  lemma CorrectNonEmpty(text: string)
    ensures Correct(text) == [] <==> text == []
  {
    LexiconEntriesNonEmpty();
    PatternRulesWriteNoAccent();
    var w := ApplyLexicon(ExpandedLexicon, text, |ExpandedLexicon|);
    LexiconNonEmpty(ExpandedLexicon, text, |ExpandedLexicon|);
    RulesNonEmpty(PatternRules, w, |PatternRules|);
  }
}
