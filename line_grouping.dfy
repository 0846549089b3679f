/**
 * How the loop of `process_image` in app.py gathers the cleaned OCR lines
 * into output lines: a line more than a small tolerance away (vertically)
 * from the current anchor starts a new output line and becomes the anchor;
 * any other line joins the output line being built.
 */
module LineGrouping {
  import opened Text

  /** The tolerance in `abs(line_y - current_y) > 0.01` */
  const LineTolerance: real := 0.01

  /** The value `current_y` starts from */
  const Sentinel: real := -1.0

  function Abs(x: real): real {
    if x < 0.0 then -x else x
  }

  /** A line whose processed text is not empty, with that text and the line's y */
  datatype Entry = Entry(text: string, y: real)

  /** What the loop keeps of one entry: nothing when its text is empty */
  function Keep(e: Entry): seq<Entry> {
    if e.text != [] then [e] else []
  }

  /** The entries the loop keeps, in order: those whose text is not empty */
  function NonBlank(es: seq<Entry>): seq<Entry> {
    if |es| == 0 then [] else NonBlank(es[..|es| - 1]) + Keep(es[|es| - 1])
  }

  lemma NonBlankKeep(es: seq<Entry>, i: nat)
    requires i < |es| && es[i].text != []
    ensures NonBlank(es[..i + 1]) == NonBlank(es[..i]) + [es[i]]
  {
    assert es[..i + 1][..i] == es[..i];
  }

  lemma NonBlankSkip(es: seq<Entry>, i: nat)
    requires i < |es| && es[i].text == []
    ensures NonBlank(es[..i + 1]) == NonBlank(es[..i])
  {
    assert es[..i + 1][..i] == es[..i];
  }

  /** The kept entries are entries of `es`, each with a non-empty text */
  lemma {:induction false} NonBlankMembers(es: seq<Entry>)
    ensures forall e | e in NonBlank(es) :: e in es && e.text != []
  {
    if |es| > 0 {
      var n := |es| - 1;
      NonBlankMembers(es[..n]);
      assert forall e | e in es[..n] :: e in es;
    }
  }

  /** Nothing is kept exactly when every text is empty */
  lemma {:induction false} NonBlankEmpty(es: seq<Entry>)
    ensures |NonBlank(es)| == 0 <==> forall k | 0 <= k < |es| :: es[k].text == []
  {
    if |es| > 0 {
      var n := |es| - 1;
      NonBlankEmpty(es[..n]);
      assert forall k | 0 <= k < n :: es[..n][k] == es[k];
    }
  }

  /** What the loop carries from one kept line to the next: the groups so far (the last is `temp_line`) and `current_y` */
  datatype Grouping = Grouping(groups: seq<seq<Entry>>, anchor: real)

  /**
   * One kept line: it opens a new group and becomes the anchor when its y is
   * more than the tolerance away from the anchor; otherwise it joins the
   * pending group, which it opens when there is none yet.
   */
  function Place(st: Grouping, e: Entry): (r: Grouping)
    ensures |st.groups| <= |r.groups| <= |st.groups| + 1
    ensures forall j | 0 <= j < |st.groups| - 1 :: r.groups[j] == st.groups[j]
    ensures r.groups != [] && r.groups[|r.groups| - 1] != []
    ensures r.groups[|r.groups| - 1][|r.groups[|r.groups| - 1]| - 1] == e
  {
    var g := st.groups;
    if Abs(e.y - st.anchor) > LineTolerance then Grouping(g + [[e]], e.y)
    else if |g| == 0 then Grouping([[e]], st.anchor)
    else Grouping(g[..|g| - 1] + [g[|g| - 1] + [e]], st.anchor)
  }

  /** The loop's state after the entries `s` */
  function Run(s: seq<Entry>): Grouping {
    if |s| == 0 then Grouping([], Sentinel) else Place(Run(s[..|s| - 1]), s[|s| - 1])
  }

  /** The groups formed from the entries `s`; the last one is the pending `temp_line` */
  function Groups(s: seq<Entry>): seq<seq<Entry>> {
    Run(s).groups
  }

  /** `current_y` after the loop has seen the entries `s` */
  function Anchor(s: seq<Entry>): real {
    Run(s).anchor
  }

  lemma RunSnoc(p: seq<Entry>, e: Entry)
    ensures Run(p + [e]) == Place(Run(p), e)
  {
    assert (p + [e])[..|p|] == p;
  }

  /** The texts of a group's entries, in order */
  function Texts(g: seq<Entry>): (r: seq<string>)
    ensures |r| == |g|
  {
    if |g| == 0 then [] else Texts(g[..|g| - 1]) + [g[|g| - 1].text]
  }

  lemma {:induction false} TextsAt(g: seq<Entry>)
    ensures forall k | 0 <= k < |g| :: Texts(g)[k] == g[k].text
  {
    if |g| > 0 {
      TextsAt(g[..|g| - 1]);
    }
  }

  /** Each group joined with single spaces: the entries of `line_texts` */
  function LineTexts(groups: seq<seq<Entry>>): (r: seq<string>)
    ensures |r| == |groups|
  {
    if |groups| == 0 then [] else LineTexts(groups[..|groups| - 1]) + [Join(" ", Texts(groups[|groups| - 1]))]
  }

  lemma {:induction false} LineTextsAt(groups: seq<seq<Entry>>)
    ensures forall j | 0 <= j < |groups| :: LineTexts(groups)[j] == Join(" ", Texts(groups[j]))
  {
    if |groups| > 0 {
      LineTextsAt(groups[..|groups| - 1]);
    }
  }

  function Flatten(groups: seq<seq<Entry>>): seq<Entry> {
    if |groups| == 0 then [] else Flatten(groups[..|groups| - 1]) + groups[|groups| - 1]
  }

  /**
   * How the loop's variables track the groups of the entries `s`: `closed`
   * are the groups already joined into output lines, `pending` is the group
   * being built (`temp_line`), empty only before the first kept line.
   */
  ghost predicate Tracks(s: seq<Entry>, closed: seq<seq<Entry>>, pending: seq<Entry>) {
    (|s| == 0 ==> |closed| == 0 && |pending| == 0) &&
    (|s| > 0 ==> |pending| > 0 && Groups(s) == closed + [pending])
  }

  /** The closed groups once the pending one, if any, is closed */
  function Close(closed: seq<seq<Entry>>, pending: seq<Entry>): seq<seq<Entry>> {
    if |pending| == 0 then closed else closed + [pending]
  }

  /** An entry more than the tolerance away from the anchor opens a new group and becomes the anchor */
  lemma StartGroup(s: seq<Entry>, e: Entry, anchor: real, closed: seq<seq<Entry>>, pending: seq<Entry>)
    requires Tracks(s, closed, pending)
    requires anchor == Anchor(s) && Abs(e.y - anchor) > LineTolerance
    ensures Anchor(s + [e]) == e.y
    ensures Tracks(s + [e], Close(closed, pending), [e])
  {
    RunSnoc(s, e);
  }

  /** An entry within the tolerance of the anchor joins the pending group and leaves the anchor */
  lemma JoinGroup(s: seq<Entry>, e: Entry, anchor: real, closed: seq<seq<Entry>>, pending: seq<Entry>)
    requires Tracks(s, closed, pending)
    requires anchor == Anchor(s) && Abs(e.y - anchor) <= LineTolerance
    ensures Anchor(s + [e]) == anchor
    ensures Tracks(s + [e], closed, pending + [e])
  {
    RunSnoc(s, e);
    if |s| > 0 {
      var g := closed + [pending];
      assert g[..|g| - 1] == closed;
    }
  }

  lemma TextsAppend(g: seq<Entry>, e: Entry)
    ensures Texts(g + [e]) == Texts(g) + [e.text]
  {
    assert (g + [e])[..|g|] == g;
  }

  lemma LineTextsAppend(groups: seq<seq<Entry>>, g: seq<Entry>)
    ensures LineTexts(groups + [g]) == LineTexts(groups) + [Join(" ", Texts(g))]
  {
    assert (groups + [g])[..|groups|] == groups;
  }

  // ---------------------------------------------------------------------------
  // what the grouping means
  // ---------------------------------------------------------------------------

  /**
   * The y a group was measured against: its first entry's y, except for the
   * first group when its first entry lay within the tolerance of the
   * sentinel, which never moved `current_y`.
   */
  function GroupAnchor(group: seq<Entry>, first: bool): real
    requires group != []
  {
    if first && Abs(group[0].y - Sentinel) <= LineTolerance then Sentinel else group[0].y
  }

  /** Every entry of `group` after the first lies within the tolerance of `anchor` */
  predicate HeldBy(group: seq<Entry>, anchor: real) {
    forall k | 0 < k < |group| :: Abs(group[k].y - anchor) <= LineTolerance
  }

  predicate NonEmptyGroups(groups: seq<seq<Entry>>) {
    forall j | 0 <= j < |groups| :: groups[j] != []
  }

  /** Every group is held together by its own anchor */
  predicate Within(groups: seq<seq<Entry>>)
    requires NonEmptyGroups(groups)
  {
    forall j | 0 <= j < |groups| :: HeldBy(groups[j], GroupAnchor(groups[j], j == 0))
  }

  /** Every group after the first starts more than the tolerance away from the previous group's anchor */
  predicate Separated(groups: seq<seq<Entry>>)
    requires NonEmptyGroups(groups)
  {
    forall j | 0 < j < |groups| :: Abs(groups[j][0].y - GroupAnchor(groups[j - 1], j == 1)) > LineTolerance
  }

  /** The shape the loop keeps: non-empty groups, each held by its anchor, the last anchor current */
  predicate WellGrouped(groups: seq<seq<Entry>>, anchor: real) {
    NonEmptyGroups(groups) && Within(groups) && Separated(groups) &&
    (groups == [] ==> anchor == Sentinel) &&
    (groups != [] ==> anchor == GroupAnchor(groups[|groups| - 1], |groups| == 1))
  }

  /** Opening a group for an entry far from the anchor (or for the very first entry) keeps the shape */
  lemma OpenKeepsShape(groups: seq<seq<Entry>>, anchor: real, e: Entry)
    requires WellGrouped(groups, anchor)
    requires groups == [] || Abs(e.y - anchor) > LineTolerance
    ensures WellGrouped(groups + [[e]], if Abs(e.y - anchor) > LineTolerance then e.y else anchor)
  {
    var g := groups + [[e]];
    assert forall j | 0 <= j < |groups| :: g[j] == groups[j];
  }

  /** An entry within the tolerance of the anchor keeps a group held */
  lemma HeldByAppend(group: seq<Entry>, anchor: real, e: Entry)
    requires group != [] && HeldBy(group, anchor) && Abs(e.y - anchor) <= LineTolerance
    ensures HeldBy(group + [e], anchor)
    ensures (group + [e])[0] == group[0]
  {
  }

  /** Adding an entry within the tolerance of the anchor to the last group keeps the shape */
  lemma JoinKeepsShape(groups: seq<seq<Entry>>, anchor: real, e: Entry)
    requires WellGrouped(groups, anchor)
    requires groups != [] && Abs(e.y - anchor) <= LineTolerance
    ensures WellGrouped(groups[..|groups| - 1] + [groups[|groups| - 1] + [e]], anchor)
  {
    var n := |groups| - 1;
    var g := groups[..n] + [groups[n] + [e]];
    HeldByAppend(groups[n], anchor, e);
    assert forall j | 0 <= j < n :: g[j] == groups[j];
    assert g[n] == groups[n] + [e];
  }

  /** One iteration of the loop keeps the shape, and leaves at least one group */
  lemma PlaceKeepsShape(st: Grouping, e: Entry)
    requires WellGrouped(st.groups, st.anchor)
    ensures WellGrouped(Place(st, e).groups, Place(st, e).anchor)
    ensures Place(st, e).groups != []
  {
    var g := st.groups;
    if Abs(e.y - st.anchor) > LineTolerance || |g| == 0 {
      OpenKeepsShape(g, st.anchor, e);
    } else {
      JoinKeepsShape(g, st.anchor, e);
    }
  }

  /**
   * The groups of `Groups` are exactly what the loop's rule makes of the
   * entries: none is empty, every later entry of a group lies within the
   * tolerance of the group's anchor, every new group starts more than the
   * tolerance away from the anchor before it, and `current_y` is the anchor
   * of the last group.
   */
  lemma {:induction false} GroupsWellGrouped(s: seq<Entry>)
    ensures WellGrouped(Groups(s), Anchor(s))
    ensures Groups(s) == [] <==> s == []
  {
    if |s| > 0 {
      GroupsWellGrouped(s[..|s| - 1]);
      PlaceKeepsShape(Run(s[..|s| - 1]), s[|s| - 1]);
    }
  }

  lemma LastSplit(s: seq<Entry>)
    requires |s| > 0
    ensures s == s[..|s| - 1] + [s[|s| - 1]]
  {
  }

  lemma FlattenAppend(groups: seq<seq<Entry>>, g: seq<Entry>)
    ensures Flatten(groups + [g]) == Flatten(groups) + g
  {
    assert (groups + [g])[..|groups|] == groups;
  }

  /** One iteration of the loop adds its entry at the end of the concatenated groups */
  lemma FlattenPlace(st: Grouping, e: Entry)
    ensures Flatten(Place(st, e).groups) == Flatten(st.groups) + [e]
  {
    var g := st.groups;
    if Abs(e.y - st.anchor) > LineTolerance || |g| == 0 {
      FlattenAppend(g, [e]);
    } else {
      var n := |g| - 1;
      assert g == g[..n] + [g[n]];
      FlattenAppend(g[..n], g[n]);
      FlattenAppend(g[..n], g[n] + [e]);
    }
  }

  /** Grouping only cuts the entries into runs: concatenated, the groups give back the entries in order */
  lemma {:induction false} GroupsFlatten(s: seq<Entry>)
    ensures Flatten(Groups(s)) == s
  {
    if |s| > 0 {
      var p := s[..|s| - 1];
      GroupsFlatten(p);
      FlattenPlace(Run(p), s[|s| - 1]);
      LastSplit(s);
    }
  }

  lemma {:induction false} InFlatten(groups: seq<seq<Entry>>, j: nat, k: nat)
    requires j < |groups| && k < |groups[j]|
    ensures groups[j][k] in Flatten(groups)
  {
    var n := |groups| - 1;
    if j < n {
      InFlatten(groups[..n], j, k);
    } else {
      assert Flatten(groups) == Flatten(groups[..n]) + groups[n];
      assert groups[j][k] == (Flatten(groups[..n]) + groups[n])[|Flatten(groups[..n])| + k];
    }
  }

  /** Every entry of every group is one of the entries grouped */
  lemma GroupMembers(s: seq<Entry>)
    ensures forall j, k | 0 <= j < |Groups(s)| && 0 <= k < |Groups(s)[j]| :: Groups(s)[j][k] in s
  {
    GroupsFlatten(s);
    forall j, k | 0 <= j < |Groups(s)| && 0 <= k < |Groups(s)[j]| ensures Groups(s)[j][k] in s {
      InFlatten(Groups(s), j, k);
    }
  }

  /** Entries that all share one y stay in one group, anchored within the tolerance of that y */
  lemma {:induction false} SameHeightOneGroup(s: seq<Entry>, y: real)
    requires forall e | e in s :: e.y == y
    ensures |Groups(s)| <= 1
    ensures s != [] ==> Abs(y - Anchor(s)) <= LineTolerance
  {
    if s != [] {
      var p := s[..|s| - 1];
      assert forall x | x in p :: x in s;
      SameHeightOneGroup(p, y);
    }
  }
}
