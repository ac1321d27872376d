/**
 * The `CodeDiff` component put together: both texts are highlighted, the
 * line diff is computed, and the display is derived from the animation state.
 *
 * As written, the diff is computed over `text.split('\n')` while the display
 * reads the highlighted listings, which drop one trailing empty line. For a
 * text that is empty or ends in a newline the diff has one more before-side
 * (or after-side) line than the listing, and the display walk reads past the
 * end of the listing. `DisplayAsWritten` models that; `Display` computes the
 * diff over the same lines the listings hold, and is total.
 */
module CodeDiffView {
  import opened Wrappers
  import opened Text
  import opened LineDiff
  import opened SyntaxHighlight
  import opened DiffAnimation

  /** The component's inputs: the two texts and the highlighter's output for each (`None`: it threw). */
  datatype CodeDiffInput = CodeDiffInput(before: string, after: string,
                                         beforeHighlighted: Option<string>, afterHighlighted: Option<string>)

  function BeforeListing(c: CodeDiffInput): seq<HighlightedLine> {
    HighlightCode(c.before, c.beforeHighlighted)
  }

  function AfterListing(c: CodeDiffInput): seq<HighlightedLine> {
    HighlightCode(c.after, c.afterHighlighted)
  }

  // ---- as written ----

  /** The diff as the component computes it: over the raw `split('\n')` of each text. */
  function DiffAsWritten(c: CodeDiffInput): seq<DiffLine> {
    ComputeDiff(Split(c.before, '\n'), Split(c.after, '\n'))
  }

  function DisplayAsWritten(c: CodeDiffInput, s: AnimationState): Option<seq<DisplayLine>> {
    DisplayLines(s, BeforeListing(c), AfterListing(c), DiffAsWritten(c))
  }

  /**
   * At step 0 no removal has happened yet, so a successful walk reads one
   * listing line for every before-side entry.
   */
  lemma {:induction false} WalkAtStartReadsBeforeSide(d: seq<DiffLine>, beforeLines: seq<HighlightedLine>,
                                                     afterLines: seq<HighlightedLine>, bIdx: nat, aIdx: nat, seen: nat)
    ensures AnimatingWalk(d, 0, beforeLines, afterLines, bIdx, aIdx, seen).Some? && |BeforeView(d)| > 0 ==>
      bIdx + |BeforeView(d)| <= |beforeLines|
    decreases |d|
  {
    if |d| > 0 {
      var e := d[0];
      var nextSeen := if e.IsChange() then seen + 1 else seen;
      var b := if e.OnBeforeSide() then 1 else 0;
      var a := if e.OnAfterSide() then 1 else 0;
      WalkAtStartReadsBeforeSide(d[1..], beforeLines, afterLines, bIdx + b, aIdx + a, nextSeen);
      assert |BeforeView(d)| == b + |BeforeView(d[1..])|;
      var rest := AnimatingWalk(d[1..], 0, beforeLines, afterLines, bIdx + b, aIdx + a, nextSeen);
      assert rest.None? ==> AnimatingWalk(d, 0, beforeLines, afterLines, bIdx, aIdx, seen).None?;
    }
  }

  /**
   * Pressing Play on a `before` text that is empty or ends in a newline makes
   * the display fail: the raw split has one line more than the listing.
   */
  lemma PlayFailsOnTrailingNewline(c: CodeDiffInput)
    requires c.before == "" || c.before[|c.before| - 1] == '\n'
    ensures DisplayAsWritten(c, Press(Initial, Play)) == None
  {
    var raw := Split(c.before, '\n');
    LastPartEmptyMeansNewline(c.before);
    assert |SourceLines(c.before)| == |raw| - 1;
    var d := DiffAsWritten(c);
    assert |BeforeView(d)| == |raw|;
    WalkAtStartReadsBeforeSide(d, BeforeListing(c), AfterListing(c), 0, 0, 0);
  }

  /** The smallest instance: the same one-line text, with its newline, on both sides. */
  lemma TrailingNewlineExample()
    ensures DisplayAsWritten(CodeDiffInput("a\n", "a\n", None, None), Press(Initial, Play)) == None
    ensures DisplayAsWritten(CodeDiffInput("a\n", "a\n", None, None), Initial).Some?
  {
    assert "a\n"[|"a\n"| - 1] == '\n';
    PlayFailsOnTrailingNewline(CodeDiffInput("a\n", "a\n", None, None));
  }

  /** Without a trailing newline the raw split and the listing agree, and so do both versions. */
  lemma AsWrittenAgreesWithoutTrailingNewline(c: CodeDiffInput, s: AnimationState)
    requires c.before != "" && c.before[|c.before| - 1] != '\n'
    requires c.after != "" && c.after[|c.after| - 1] != '\n'
    ensures DisplayAsWritten(c, s) == Display(c, s)
  {
    LastPartEmptyMeansNewline(c.before);
    LastPartEmptyMeansNewline(c.after);
  }

  // ---- corrected ----

  /** The diff over the lines the listings hold. */
  function Diff(c: CodeDiffInput): (d: seq<DiffLine>)
    ensures Contents(BeforeView(d)) == SourceLines(c.before)
    ensures Contents(AfterView(d)) == SourceLines(c.after)
  {
    Reconstruction(SourceLines(c.before), SourceLines(c.after));
    ComputeDiff(SourceLines(c.before), SourceLines(c.after))
  }

  function StepCount(c: CodeDiffInput): nat {
    ChangeCount(Diff(c))
  }

  function Display(c: CodeDiffInput, s: AnimationState): Option<seq<DisplayLine>> {
    DisplayLines(s, BeforeListing(c), AfterListing(c), Diff(c))
  }

  /** The corrected diff fits the listings, line numbers and texts both. */
  lemma DiffFitsListings(c: CodeDiffInput)
    ensures ConsecutivelyNumbered(Diff(c))
    ensures Displayable(Diff(c), BeforeListing(c), AfterListing(c))
    ensures ContentsAgree(Diff(c), BeforeListing(c), AfterListing(c))
  {
    var before := SourceLines(c.before);
    var after := SourceLines(c.after);
    ComputeDiffConsecutive(before, after);
    EntriesMatchInputs(before, after);
  }

  /**
   * In every state the display exists; while animating it is the reference
   * display (each entry under its own line number, with the status its step
   * gives it) and at most one line is marked, exactly one while steps remain.
   */
  lemma DisplayIsTotal(c: CodeDiffInput, s: AnimationState)
    ensures Display(c, s).Some?
    ensures Displayable(Diff(c), BeforeListing(c), AfterListing(c))
    ensures s.phase == Animating ==>
      Display(c, s) == Some(ReferenceDisplay(Diff(c), 0, s.currentStep, BeforeListing(c), AfterListing(c)))
    ensures s.phase == Animating ==> MarkedCount(Display(c, s).value) <= 1
    ensures s.phase == Animating && s.currentStep < StepCount(c) ==> MarkedCount(Display(c, s).value) == 1
  {
    DiffFitsListings(c);
    var d, bl, al := Diff(c), BeforeListing(c), AfterListing(c);
    if s.phase == Animating {
      WalkMatchesReference(d, s.currentStep, bl, al);
      assert Display(c, s) == AnimatingWalk(d, s.currentStep, bl, al, 0, 0, 0);
      OneMarkedLinePerStep(d, s.currentStep, bl, al);
    }
  }

  /**
   * A static listing shows the source lines in order, numbered from 1, each
   * with its own highlighting and none marked as removed or added.
   */
  lemma ListingTexts(lines: seq<HighlightedLine>, key: KeyKind, code: string, h: Option<string>)
    requires lines == HighlightCode(code, h)
    ensures Texts(ListingDisplay(lines, key)) == SourceLines(code)
    ensures forall i :: 0 <= i < |lines| ==>
      ListingDisplay(lines, key)[i].lineNumber == i + 1 && ListingDisplay(lines, key)[i].status == Normal
      && ListingDisplay(lines, key)[i].highlighted == lines[i].highlighted
  {
  }

  /**
   * The animation connects the two static listings: the before listing
   * reads as the before text, and so do the lines not being added when Play
   * is pressed; with every step past, the lines read as the after text,
   * which is what the after listing shows.
   */
  lemma AnimationConnectsListings(c: CodeDiffInput)
    ensures Displayable(Diff(c), BeforeListing(c), AfterListing(c))
    ensures Texts(Display(c, Initial).value) == SourceLines(c.before)
    ensures Display(c, Press(Initial, Play)).Some?
    ensures SettledTexts(Display(c, Press(Initial, Play)).value) == SourceLines(c.before)
    ensures Texts(ReferenceDisplay(Diff(c), 0, StepCount(c), BeforeListing(c), AfterListing(c)))
      == SourceLines(c.after)
    ensures Texts(Display(c, Press(Initial, Final)).value) == SourceLines(c.after)
  {
    DiffFitsListings(c);
    StaticListingsRead(c);
    PlayStartReadsBefore(c);
    AnimationEndpoints(Diff(c), BeforeListing(c), AfterListing(c));
  }

  /** Before Play and after Final the display is the plain listing of the matching text. */
  lemma StaticListingsRead(c: CodeDiffInput)
    ensures Display(c, Initial).Some? && Texts(Display(c, Initial).value) == SourceLines(c.before)
    ensures Display(c, Press(Initial, Final)).Some? && Texts(Display(c, Press(Initial, Final)).value) == SourceLines(c.after)
  {
    ListingTexts(BeforeListing(c), BeforeKey, c.before, c.beforeHighlighted);
    ListingTexts(AfterListing(c), AfterKey, c.after, c.afterHighlighted);
  }

  /** Play's first frame shows step 0, whose lines other than the one being added read as the before text. */
  lemma PlayStartReadsBefore(c: CodeDiffInput)
    ensures Display(c, Press(Initial, Play)).Some?
    ensures SettledTexts(Display(c, Press(Initial, Play)).value) == SourceLines(c.before)
  {
    var d, bl, al := Diff(c), BeforeListing(c), AfterListing(c);
    DiffFitsListings(c);
    DisplayIsTotal(c, Press(Initial, Play));
    AnimationEndpoints(d, bl, al);
  }
}
