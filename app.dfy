/**
 * The request-independent logic of app.py: the upload filename check, the
 * clean-up of one OCR line's text, and the loop of `process_image` that
 * gathers the cleaned lines into output lines by their vertical position.
 */
module App {
  import opened Text
  import opened Rewrite
  import opened PostProcessing
  import opened LineGrouping

  // ---------------------------------------------------------------------------
  // allowed_file
  // ---------------------------------------------------------------------------

  /** `ALLOWED_EXTENSIONS` */
  const AllowedExtensions: set<string> := {"png", "jpg", "jpeg", "gif", "tiff", "bmp"}

  /** Index of the last `.` among the first `j` characters of `s` */
  function LastDot(s: string, j: nat): (r: Option<nat>)
    requires j <= |s|
    ensures r.Some? ==> r.value < j && s[r.value] == '.' && forall k | r.value < k < j :: s[k] != '.'
    ensures r.None? ==> forall k | 0 <= k < j :: s[k] != '.'
  {
    if j == 0 then None else if s[j - 1] == '.' then Some(j - 1) else LastDot(s, j - 1)
  }

  /** `'.' in filename and filename.rsplit('.', 1)[1].lower() in ALLOWED_EXTENSIONS` */
  function AllowedFile(name: string): (r: bool)
    ensures r ==> LastDot(name, |name|).Some?
  {
    match LastDot(name, |name|)
    case None => false
    case Some(i) => Lower(name[i + 1..]) in AllowedExtensions
  }

  /**
   * A name is allowed exactly when it has a dot, and what follows its last
   * dot is an allowed extension once lower-cased.
   */
  lemma AllowedFileMeans(name: string)
    ensures AllowedFile(name) <==>
      exists i | 0 <= i < |name| ::
        name[i] == '.' && (forall k | i < k < |name| :: name[k] != '.') && Lower(name[i + 1..]) in AllowedExtensions
    ensures (forall k | 0 <= k < |name| :: name[k] != '.') ==> !AllowedFile(name)
  {
    match LastDot(name, |name|)
    case None =>
    case Some(d) =>
      forall i | 0 <= i < |name| && name[i] == '.' && (forall k | i < k < |name| :: name[k] != '.')
        ensures i == d
      {
      }
  }

  /** The extension is compared without regard to case */
  lemma UpperCaseExtension()
    ensures AllowedFile("a.PNG")
  {
    assert LastDot("a.PNG", 5) == Some(1);
    assert "a.PNG"[2..] == "PNG";
    LowerIs("PNG", "png");
  }

  /** Only the part after the last dot counts */
  lemma DoubleExtension()
    ensures !AllowedFile("a.png.exe")
  {
    assert LastDot("a.png.exe", 9) == Some(5);
    assert "a.png.exe"[6..] == "exe";
    LowerIs("exe", "exe");
  }

  /** A name without a dot is refused, even when it spells an extension */
  lemma NoDot()
    ensures !AllowedFile("png")
  {
    AllowedFileMeans("png");
  }

  lemma LowerIs(s: string, l: string)
    requires |l| == |s| && forall k | 0 <= k < |s| :: l[k] == LowerChar(s[k])
    ensures Lower(s) == l
  {
  }

  // ---------------------------------------------------------------------------
  // post_process_text
  // ---------------------------------------------------------------------------

  /** `post_process_text(text)`: strip, then correct; the empty text stays empty */
  function PostProcessText(text: string): (r: string)
    ensures r == [] <==> AllSpace(text)
    ensures forall k | 0 <= k < |r| :: r[k] !in StrayAccents
  {
    if text == [] then []
    else
      CorrectNonEmpty(Strip(text));
      NoStrayAccents(Strip(text));
      Correct(Strip(text))
  }

  /** The guard on the empty text changes nothing: the result is always the corrected, stripped text */
  lemma PostProcessIsCorrectStrip(text: string)
    ensures PostProcessText(text) == Correct(Strip(text))
  {
    if text == [] {
      assert AllSpace(text);
      CorrectNonEmpty(Strip(text));
    }
  }

  // ---------------------------------------------------------------------------
  // grouping OCR lines into output lines
  // ---------------------------------------------------------------------------

  /** One OCR line: its words and the y of its top-left corner (`line.geometry[0][1]`) */
  datatype OcrLine = OcrLine(words: seq<string>, y: real)

  /** `" ".join(word.value for word in line.words)` */
  function LineText(line: OcrLine): string {
    Join(" ", line.words)
  }

  /** One line after `post_process_text`, with its y */
  function Cleaned(line: OcrLine): Entry {
    Entry(PostProcessText(LineText(line)), line.y)
  }

  function CleanAll(lines: seq<OcrLine>): (r: seq<Entry>)
    ensures |r| == |lines|
  {
    seq(|lines|, k requires 0 <= k < |lines| => Cleaned(lines[k]))
  }

  /** `full_text` for the OCR lines `lines` */
  function FullText(lines: seq<OcrLine>): string {
    Join("\n", LineTexts(Groups(NonBlank(CleanAll(lines)))))
  }

  /**
   * The loop of `process_image` over the OCR lines: clean each line, skip it
   * when nothing is left, close the pending group when the line's y is more
   * than the tolerance away from `current_y`, then join groups and lines.
   */
  method ReconstructText(lines: seq<OcrLine>) returns (lineTexts: seq<string>, fullText: string)
    ensures lineTexts == LineTexts(Groups(NonBlank(CleanAll(lines))))
    ensures fullText == Join("\n", lineTexts) == FullText(lines)
  {
    var currentY := Sentinel;
    lineTexts := [];
    var tempLine: seq<string> := [];
    ghost var cleaned := CleanAll(lines);
    ghost var s: seq<Entry> := [];
    ghost var closed: seq<seq<Entry>> := [];
    ghost var pending: seq<Entry> := [];
    for i := 0 to |lines|
      invariant s == NonBlank(cleaned[..i])
      invariant currentY == Anchor(s)
      invariant Tracks(s, closed, pending)
      invariant lineTexts == LineTexts(closed)
      invariant tempLine == Texts(pending)
    {
      var processed := PostProcessText(LineText(lines[i]));
      var lineY := lines[i].y;
      ghost var e := Entry(processed, lineY);
      assert cleaned[i] == e;
      if processed != [] {
        NonBlankKeep(cleaned, i);
        if Abs(lineY - currentY) > LineTolerance {
          StartGroup(s, e, currentY, closed, pending);
          if tempLine != [] {
            lineTexts := lineTexts + [Join(" ", tempLine)];
            LineTextsAppend(closed, pending);
            tempLine := [];
          }
          closed := Close(closed, pending);
          pending := [];
          currentY := lineY;
        } else {
          JoinGroup(s, e, currentY, closed, pending);
        }
        tempLine := tempLine + [processed];
        TextsAppend(pending, e);
        pending := pending + [e];
        s := s + [e];
      } else {
        NonBlankSkip(cleaned, i);
      }
    }
    if tempLine != [] {
      lineTexts := lineTexts + [Join(" ", tempLine)];
      LineTextsAppend(closed, pending);
      closed := closed + [pending];
    }
    assert cleaned[..|lines|] == cleaned;
    fullText := Join("\n", lineTexts);
  }

  /** Every output line is non-empty */
  lemma LineTextsNonEmpty(lines: seq<OcrLine>)
    ensures forall t | t in LineTexts(Groups(NonBlank(CleanAll(lines)))) :: t != []
  {
    var s := NonBlank(CleanAll(lines));
    var g := Groups(s);
    NonBlankMembers(CleanAll(lines));
    GroupsWellGrouped(s);
    GroupMembers(s);
    LineTextsAt(g);
    forall j | 0 <= j < |g| ensures LineTexts(g)[j] != [] {
      assert g[j][0] in s;
      TextsAt(g[j]);
      JoinNonEmpty(" ", Texts(g[j]));
    }
  }

  /** The text is empty exactly when every OCR line is blank */
  lemma FullTextEmpty(lines: seq<OcrLine>)
    ensures FullText(lines) == [] <==> forall k | 0 <= k < |lines| :: AllSpace(LineText(lines[k]))
  {
    var c := CleanAll(lines);
    var s := NonBlank(c);
    NonBlankEmpty(c);
    assert forall k | 0 <= k < |lines| :: c[k].text == [] <==> AllSpace(LineText(lines[k]));
    GroupsWellGrouped(s);
    if s != [] {
      LineTextsNonEmpty(lines);
      var t := LineTexts(Groups(s));
      assert t[0] in t;
      JoinNonEmpty("\n", t);
    }
  }

  /** Lines that all share one y make exactly one output line when one of them is not blank, and none otherwise */
  lemma SameHeightOneLine(lines: seq<OcrLine>, y: real)
    requires forall k | 0 <= k < |lines| :: lines[k].y == y
    ensures |LineTexts(Groups(NonBlank(CleanAll(lines))))| <= 1
    ensures |LineTexts(Groups(NonBlank(CleanAll(lines))))| == 1 <==> exists k | 0 <= k < |lines| :: !AllSpace(LineText(lines[k]))
  {
    var c := CleanAll(lines);
    var s := NonBlank(c);
    NonBlankMembers(c);
    SameHeightOneGroup(s, y);
    NonBlankEmpty(c);
    assert forall k | 0 <= k < |lines| :: c[k].text == [] <==> AllSpace(LineText(lines[k]));
    GroupsWellGrouped(s);
  }
}
