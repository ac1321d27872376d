/**
 * The code-diff widget's animation: one step per removed or added line in
 * diff order, a before/animating/after state machine driven by the Play,
 * Reset and Final buttons and by animation frames (one step per 200 ms),
 * and the projection from state to the displayed lines.
 */
module DiffAnimation {
  import opened Wrappers
  import opened LineDiff
  import opened SyntaxHighlight

  datatype StepKind = Remove | Add

  datatype AnimationStep = AnimationStep(kind: StepKind, line: DiffLine, stepIndex: nat)

  /** The number of removed and added entries in `d`. */
  function ChangeCount(d: seq<DiffLine>): nat
    decreases |d|
  {
    if |d| == 0 then 0
    else (if d[0].IsChange() then 1 else 0) + ChangeCount(d[1..])
  }

  lemma {:induction false} ChangeCountAppend(x: seq<DiffLine>, y: seq<DiffLine>)
    ensures ChangeCount(x + y) == ChangeCount(x) + ChangeCount(y)
    decreases |x|
  {
    if |x| == 0 {
      assert x + y == y;
    } else {
      assert (x + y)[1..] == x[1..] + y;
      ChangeCountAppend(x[1..], y);
    }
  }

  lemma ChangeCountLast(d: seq<DiffLine>)
    requires |d| > 0
    ensures ChangeCount(d) == ChangeCount(d[..|d| - 1]) + (if d[|d| - 1].IsChange() then 1 else 0)
  {
    assert d == d[..|d| - 1] + [d[|d| - 1]];
    ChangeCountAppend(d[..|d| - 1], [d[|d| - 1]]);
    assert [d[|d| - 1]][1..] == [];
  }

  /**
   * The animation steps of a diff, built as the component does: walking the
   * diff and pushing a step for each removed or added entry, numbered by the
   * count of steps pushed before it. Step k is the k-th changed entry, and the
   * changed entry at position n is step `ChangeCount(d[..n])`.
   */
  function BuildSteps(d: seq<DiffLine>): (steps: seq<AnimationStep>)
    ensures |steps| == ChangeCount(d)
    ensures forall k :: 0 <= k < |steps| ==>
      && steps[k].stepIndex == k
      && steps[k].line.IsChange()
      && (steps[k].kind == Remove <==> steps[k].line.Removed?)
    ensures forall n :: 0 <= n < |d| && d[n].IsChange() ==>
      ChangeCount(d[..n]) < |steps| && steps[ChangeCount(d[..n])].line == d[n]
    decreases |d|
  {
    if |d| == 0 then []
    else
      var prior := BuildSteps(d[..|d| - 1]);
      var e := d[|d| - 1];
      ChangeCountLast(d);
      assert forall n :: 0 <= n < |d| - 1 ==> d[..n] == d[..|d| - 1][..n] && d[n] == d[..|d| - 1][n];
      if e.IsChange() then
        prior + [AnimationStep(if e.Removed? then Remove else Add, e, |prior|)]
      else prior
  }

  /** Every changed entry is step exactly once: distinct changed entries get distinct steps. */
  lemma {:induction false} StepIndexInjective(d: seq<DiffLine>, n: nat, p: nat)
    requires n < p <= |d| && d[n].IsChange()
    ensures ChangeCount(d[..n]) < ChangeCount(d[..p])
    decreases p - n
  {
    if p == n + 1 {
      ChangeCountLast(d[..p]);
      assert d[..p][..n] == d[..n];
    } else {
      StepIndexInjective(d, n, p - 1);
      ChangeCountLast(d[..p]);
      assert d[..p][..p - 1] == d[..p - 1];
    }
  }

  // ---- state machine ----

  datatype Phase = Before | Animating | After

  /**
   * `animationState`, `currentStep` and the `lastStepTime` ref (0 meaning "not
   * yet set"). Times are the fractional milliseconds `requestAnimationFrame` passes.
   */
  datatype AnimationState = AnimationState(phase: Phase, currentStep: nat, lastStepTime: real)

  /** Milliseconds per animation step. */
  const StepDuration: real := 200.0

  const Initial: AnimationState := AnimationState(Before, 0, 0.0)

  datatype Control = Play | Reset | Final

  /**
   * A button press. Play restarts the animation at step 0 (it is disabled
   * while animating); Reset returns to the before listing and Final jumps to
   * the after listing; all three clear the step and the step timer.
   */
  function Press(s: AnimationState, c: Control): (t: AnimationState)
    ensures c == Play && s.phase != Animating ==> t == AnimationState(Animating, 0, 0.0)
    ensures c == Play && s.phase == Animating ==> t == s
    ensures c == Reset ==> t == AnimationState(Before, 0, 0.0)
    ensures c == Final ==> t == AnimationState(After, 0, 0.0)
  {
    match c
    case Play => if s.phase == Animating then s else AnimationState(Animating, 0, 0.0)
    case Reset => AnimationState(Before, 0, 0.0)
    case Final => AnimationState(After, 0, 0.0)
  }

  /** Time since the last step boundary, counting the first frame as the boundary. */
  function Elapsed(s: AnimationState, timestamp: real): real {
    timestamp - (if s.lastStepTime == 0.0 then timestamp else s.lastStepTime)
  }

  /**
   * One animation frame at `timestamp`, with `stepCount` steps. Frames only
   * arrive while animating. Once a full step duration has elapsed the step
   * advances by one, or, if that would reach the step count, the animation
   * ends in the after listing; before that, phase and step are unchanged.
   */
  function Tick(s: AnimationState, stepCount: nat, timestamp: real): (t: AnimationState)
    ensures s.phase != Animating ==> t == s
    ensures s.phase == Animating && Elapsed(s, timestamp) >= StepDuration && s.currentStep + 1 < stepCount ==>
      t == AnimationState(Animating, s.currentStep + 1, timestamp)
    ensures s.phase == Animating && Elapsed(s, timestamp) >= StepDuration && s.currentStep + 1 >= stepCount ==>
      t == AnimationState(After, 0, timestamp)
    ensures s.phase == Animating && Elapsed(s, timestamp) < StepDuration ==>
      t.phase == Animating && t.currentStep == s.currentStep
  {
    if s.phase != Animating then s
    else
      var last := if s.lastStepTime == 0.0 then timestamp else s.lastStepTime;
      if timestamp - last >= StepDuration then
        var next := s.currentStep + 1;
        if next >= stepCount then AnimationState(After, 0, timestamp)
        else AnimationState(Animating, next, timestamp)
      else AnimationState(Animating, s.currentStep, last)
  }

  /** Outside the animation the step is 0; during it the step is a valid step index (or 0 with no steps). */
  predicate Valid(s: AnimationState, stepCount: nat) {
    if s.phase == Animating then s.currentStep == 0 || s.currentStep < stepCount
    else s.currentStep == 0
  }

  lemma ControlsKeepValid(s: AnimationState, stepCount: nat, c: Control, timestamp: real)
    requires Valid(s, stepCount)
    ensures Valid(Press(s, c), stepCount)
    ensures Valid(Tick(s, stepCount, timestamp), stepCount)
  {
  }

  /** Reset twice is Reset once; Final lands on the after listing from any state. */
  lemma ResetIdempotent(s: AnimationState)
    ensures Press(Press(s, Reset), Reset) == Press(s, Reset)
    ensures Press(s, Final).phase == After && Press(s, Final).currentStep == 0
  {
  }

  /** The state after a run of frames. */
  function Frames(s: AnimationState, stepCount: nat, timestamps: seq<real>): AnimationState
    decreases |timestamps|
  {
    if |timestamps| == 0 then s
    else Tick(Frames(s, stepCount, timestamps[..|timestamps| - 1]), stepCount, timestamps[|timestamps| - 1])
  }

  /** Positive timestamps at least one step duration apart. */
  predicate SteadyClock(timestamps: seq<real>) {
    && (|timestamps| > 0 ==> timestamps[0] > 0.0)
    && forall k :: 0 <= k < |timestamps| - 1 ==> timestamps[k + 1] - timestamps[k] >= StepDuration
  }

  lemma {:induction false} FramesPrefix(stepCount: nat, timestamps: seq<real>, m: nat)
    requires stepCount >= 1 && SteadyClock(timestamps) && m < |timestamps| && m <= stepCount
    ensures Frames(Press(Initial, Play), stepCount, timestamps[..m + 1]) ==
      if m < stepCount then AnimationState(Animating, m, timestamps[m])
      else AnimationState(After, 0, timestamps[m])
    decreases m
  {
    var ts := timestamps[..m + 1];
    assert ts[..|ts| - 1] == timestamps[..m];
    if m == 0 {
      assert timestamps[..0] == [];
    } else {
      FramesPrefix(stepCount, timestamps, m - 1);
      assert timestamps[..m] == timestamps[..m - 1 + 1];
      assert timestamps[m - 1] > 0.0 by {
        PositiveTimestamps(timestamps, m - 1);
      }
    }
  }

  lemma {:induction false} PositiveTimestamps(timestamps: seq<real>, k: nat)
    requires SteadyClock(timestamps) && k < |timestamps|
    ensures timestamps[k] > 0.0
    decreases k
  {
    if k > 0 {
      PositiveTimestamps(timestamps, k - 1);
    }
  }

  /**
   * Pressing Play and then delivering frames at least 200 ms apart visits
   * steps 0, 1, ..., stepCount-1 in order (step m-1 after m frames), and
   * frame stepCount+1 lands on the after listing.
   */
  lemma PlayVisitsEveryStep(stepCount: nat, timestamps: seq<real>)
    requires stepCount >= 1 && SteadyClock(timestamps) && |timestamps| == stepCount + 1
    ensures forall m :: 1 <= m <= stepCount ==>
      Frames(Press(Initial, Play), stepCount, timestamps[..m]).phase == Animating &&
      Frames(Press(Initial, Play), stepCount, timestamps[..m]).currentStep == m - 1
    ensures Frames(Press(Initial, Play), stepCount, timestamps).phase == After
  {
    forall m | 1 <= m <= stepCount
      ensures Frames(Press(Initial, Play), stepCount, timestamps[..m]).phase == Animating
      ensures Frames(Press(Initial, Play), stepCount, timestamps[..m]).currentStep == m - 1
    {
      FramesPrefix(stepCount, timestamps, m - 1);
    }
    FramesPrefix(stepCount, timestamps, stepCount);
    assert timestamps[..stepCount + 1] == timestamps;
  }

  // ---- display ----

  datatype Status = Normal | Removing | Adding

  /** Which React key family a displayed line uses. */
  datatype KeyKind = BeforeKey | AfterKey | UnchangedKey | RemoveKey | AddKey

  datatype DisplayLine = DisplayLine(content: string, highlighted: string, lineNumber: nat, status: Status, key: KeyKind, keyNumber: nat)

  /** A whole listing, numbered from 1, every line normal. */
  function ListingDisplay(lines: seq<HighlightedLine>, key: KeyKind): (r: seq<DisplayLine>)
    ensures |r| == |lines|
    ensures forall i :: 0 <= i < |r| ==>
      r[i].lineNumber == i + 1 && r[i].status == Normal && r[i].highlighted == lines[i].highlighted
  {
    seq(|lines|, i requires 0 <= i < |lines| =>
      DisplayLine(lines[i].content, lines[i].highlighted, i + 1, Normal, key, i))
  }

  function Show(line: HighlightedLine, number: nat, status: Status, key: KeyKind): DisplayLine {
    DisplayLine(line.content, line.highlighted, number, status, key, number)
  }

  /**
   * The animating branch of `getDisplayLines` as written: a walk over the diff
   * with running before/after line counters (0-based here) and the step index
   * of each changed entry (its position among the steps). `None` when the walk
   * reads a highlighted line that does not exist, where the component throws.
   */
  function AnimatingWalk(d: seq<DiffLine>, current: nat, beforeLines: seq<HighlightedLine>,
                         afterLines: seq<HighlightedLine>, bIdx: nat, aIdx: nat, seen: nat): Option<seq<DisplayLine>>
    decreases |d|
  {
    if |d| == 0 then Some([])
    else
      var e := d[0];
      var stepIndex: int := if e.IsChange() then seen else -1;
      var hasAnimated := 0 <= stepIndex < current;
      var nextSeen := if e.IsChange() then seen + 1 else seen;
      match e
      case Unchanged(_, _, _) =>
        var rest :- AnimatingWalk(d[1..], current, beforeLines, afterLines, bIdx + 1, aIdx + 1, nextSeen);
        if bIdx >= |beforeLines| then None
        else Some([Show(beforeLines[bIdx], bIdx + 1, Normal, UnchangedKey)] + rest)
      case Removed(_, _) =>
        var rest :- AnimatingWalk(d[1..], current, beforeLines, afterLines, bIdx + 1, aIdx, nextSeen);
        if hasAnimated then Some(rest)
        else if bIdx >= |beforeLines| then None
        else Some([Show(beforeLines[bIdx], bIdx + 1, if stepIndex == current then Removing else Normal, RemoveKey)] + rest)
      case Added(_, _) =>
        var rest :- AnimatingWalk(d[1..], current, beforeLines, afterLines, bIdx, aIdx + 1, nextSeen);
        if !(hasAnimated || stepIndex == current) then Some(rest)
        else if aIdx >= |afterLines| then None
        else Some([Show(afterLines[aIdx], aIdx + 1, if stepIndex == current then Adding else Normal, AddKey)] + rest)
  }

  /** `getDisplayLines` for a state; `None` where the component throws. */
  function DisplayLines(s: AnimationState, beforeLines: seq<HighlightedLine>, afterLines: seq<HighlightedLine>,
                        d: seq<DiffLine>): Option<seq<DisplayLine>>
  {
    match s.phase
    case Before => Some(ListingDisplay(beforeLines, BeforeKey))
    case After => Some(ListingDisplay(afterLines, AfterKey))
    case Animating => AnimatingWalk(d, s.currentStep, beforeLines, afterLines, 0, 0, 0)
  }

  /**
   * How an entry whose step is `stepIndex` looks at step `current` (`None`:
   * not shown). Unchanged lines are always normal. A removed line is shown
   * until its step has passed, marked removing during its step. An added line
   * is hidden until its step, marked adding during it, normal afterwards.
   */
  function EntryStatus(e: DiffLine, stepIndex: nat, current: nat): Option<Status> {
    match e
    case Unchanged(_, _, _) => Some(Normal)
    case Removed(_, _) =>
      if stepIndex < current then None
      else if stepIndex == current then Some(Removing)
      else Some(Normal)
    case Added(_, _) =>
      if stepIndex > current then None
      else if stepIndex == current then Some(Adding)
      else Some(Normal)
  }

  function KeyOf(e: DiffLine): KeyKind {
    match e
    case Unchanged(_, _, _) => UnchangedKey
    case Removed(_, _) => RemoveKey
    case Added(_, _) => AddKey
  }

  /** Every entry's own line numbers point into the highlighted listings. */
  ghost predicate Displayable(d: seq<DiffLine>, beforeLines: seq<HighlightedLine>, afterLines: seq<HighlightedLine>) {
    forall n :: 0 <= n < |d| ==>
      && (d[n].OnBeforeSide() ==> 1 <= d[n].beforeLine <= |beforeLines|)
      && (d[n].OnAfterSide() ==> 1 <= d[n].afterLine <= |afterLines|)
  }

  /**
   * The display at step `current`, entry by entry from position n: each entry
   * shown according to `EntryStatus` for its step `ChangeCount(d[..n])`, under
   * its own line number (the before number unless it is an addition).
   */
  ghost function ReferenceDisplay(d: seq<DiffLine>, n: nat, current: nat, beforeLines: seq<HighlightedLine>,
                                  afterLines: seq<HighlightedLine>): seq<DisplayLine>
    requires n <= |d| && Displayable(d, beforeLines, afterLines)
    decreases |d| - n
  {
    if n == |d| then []
    else
      var e := d[n];
      var rest := ReferenceDisplay(d, n + 1, current, beforeLines, afterLines);
      match EntryStatus(e, ChangeCount(d[..n]), current)
      case None => rest
      case Some(st) =>
        var line := if e.OnBeforeSide() then Show(beforeLines[e.beforeLine - 1], e.beforeLine, st, KeyOf(e))
                    else Show(afterLines[e.afterLine - 1], e.afterLine, st, KeyOf(e));
        [line] + rest
  }

  /** The walk over `[e] + tail` from counters that agree with `e`'s own numbers, one entry at a time. */
  lemma WalkHead(e: DiffLine, tail: seq<DiffLine>, current: nat, beforeLines: seq<HighlightedLine>,
                 afterLines: seq<HighlightedLine>, bIdx: nat, aIdx: nat, seen: nat, restDisplay: seq<DisplayLine>)
    requires e.OnBeforeSide() ==> e.beforeLine == bIdx + 1 && bIdx < |beforeLines|
    requires e.OnAfterSide() ==> e.afterLine == aIdx + 1 && aIdx < |afterLines|
    requires AnimatingWalk(tail, current, beforeLines, afterLines,
      bIdx + (if e.OnBeforeSide() then 1 else 0), aIdx + (if e.OnAfterSide() then 1 else 0),
      seen + (if e.IsChange() then 1 else 0)) == Some(restDisplay)
    ensures AnimatingWalk([e] + tail, current, beforeLines, afterLines, bIdx, aIdx, seen) ==
      Some(match EntryStatus(e, seen, current)
        case None => restDisplay
        case Some(st) =>
          [if e.OnBeforeSide() then Show(beforeLines[e.beforeLine - 1], e.beforeLine, st, KeyOf(e))
           else Show(afterLines[e.afterLine - 1], e.afterLine, st, KeyOf(e))] + restDisplay)
  {
    assert ([e] + tail)[0] == e;
    assert ([e] + tail)[1..] == tail;
  }

  /** The side counters grow by one exactly when entry n is on that side. */
  lemma ViewCountStep(d: seq<DiffLine>, n: nat)
    requires n < |d|
    ensures |BeforeView(d[..n + 1])| == |BeforeView(d[..n])| + (if d[n].OnBeforeSide() then 1 else 0)
    ensures |AfterView(d[..n + 1])| == |AfterView(d[..n])| + (if d[n].OnAfterSide() then 1 else 0)
  {
    assert d[..n + 1] == d[..n] + [d[n]];
    BeforeViewAppend(d[..n], [d[n]]);
    AfterViewAppend(d[..n], [d[n]]);
    SingleViews(d[n]);
  }

  /** One step of `WalkFrom`: the walk from entry n, given the walk from entry n + 1. */
  lemma WalkFromStep(d: seq<DiffLine>, n: nat, current: nat, beforeLines: seq<HighlightedLine>,
                     afterLines: seq<HighlightedLine>)
    requires n < |d| && Displayable(d, beforeLines, afterLines)
    requires d[n].OnBeforeSide() ==> d[n].beforeLine == |BeforeView(d[..n])| + 1
    requires d[n].OnAfterSide() ==> d[n].afterLine == |AfterView(d[..n])| + 1
    requires AnimatingWalk(d[n + 1..], current, beforeLines, afterLines,
      |BeforeView(d[..n + 1])|, |AfterView(d[..n + 1])|, ChangeCount(d[..n + 1]))
      == Some(ReferenceDisplay(d, n + 1, current, beforeLines, afterLines))
    ensures AnimatingWalk(d[n..], current, beforeLines, afterLines,
      |BeforeView(d[..n])|, |AfterView(d[..n])|, ChangeCount(d[..n]))
      == Some(ReferenceDisplay(d, n, current, beforeLines, afterLines))
  {
    var e := d[n];
    ViewCountStep(d, n);
    ChangeCountStep(d, n);
    var b, a, seen := |BeforeView(d[..n])|, |AfterView(d[..n])|, ChangeCount(d[..n]);
    assert d[n..] == [e] + d[n + 1..];
    var restDisplay := ReferenceDisplay(d, n + 1, current, beforeLines, afterLines);
    WalkHead(e, d[n + 1..], current, beforeLines, afterLines, b, a, seen, restDisplay);
  }

  lemma {:induction false} WalkFrom(d: seq<DiffLine>, n: nat, current: nat, beforeLines: seq<HighlightedLine>,
                                    afterLines: seq<HighlightedLine>)
    requires n <= |d| && ConsecutivelyNumbered(d) && Displayable(d, beforeLines, afterLines)
    ensures AnimatingWalk(d[n..], current, beforeLines, afterLines,
      |BeforeView(d[..n])|, |AfterView(d[..n])|, ChangeCount(d[..n]))
      == Some(ReferenceDisplay(d, n, current, beforeLines, afterLines))
    decreases |d| - n
  {
    if n == |d| {
      assert d[n..] == [];
    } else {
      WalkFrom(d, n + 1, current, beforeLines, afterLines);
      WalkFromStep(d, n, current, beforeLines, afterLines);
    }
  }

  /**
   * The walk with running counters shows exactly the reference display: each
   * entry under its own line number with the status `EntryStatus` gives it,
   * provided the diff is consecutively numbered and fits the listings.
   */
  lemma WalkMatchesReference(d: seq<DiffLine>, current: nat, beforeLines: seq<HighlightedLine>,
                             afterLines: seq<HighlightedLine>)
    requires ConsecutivelyNumbered(d) && Displayable(d, beforeLines, afterLines)
    ensures AnimatingWalk(d, current, beforeLines, afterLines, 0, 0, 0)
      == Some(ReferenceDisplay(d, 0, current, beforeLines, afterLines))
  {
    WalkFrom(d, 0, current, beforeLines, afterLines);
    assert d[0..] == d;
  }

  /** A line marked as being removed or added in the current step. */
  function MarkedCount(lines: seq<DisplayLine>): nat
    decreases |lines|
  {
    if |lines| == 0 then 0
    else (if lines[0].status != Normal then 1 else 0) + MarkedCount(lines[1..])
  }

  lemma ChangeCountStep(d: seq<DiffLine>, n: nat)
    requires n < |d|
    ensures ChangeCount(d[..n + 1]) == ChangeCount(d[..n]) + (if d[n].IsChange() then 1 else 0)
  {
    assert d[..n + 1] == d[..n] + [d[n]];
    ChangeCountAppend(d[..n], [d[n]]);
    assert [d[n]][1..] == [];
  }

  lemma {:induction false} ChangeCountMonotone(d: seq<DiffLine>, n: nat)
    requires n <= |d|
    ensures ChangeCount(d[..n]) <= ChangeCount(d)
    decreases |d| - n
  {
    if n == |d| {
      assert d[..n] == d;
    } else {
      ChangeCountStep(d, n);
      ChangeCountMonotone(d, n + 1);
    }
  }

  lemma {:induction false} MarkedFrom(d: seq<DiffLine>, n: nat, current: nat, beforeLines: seq<HighlightedLine>,
                                      afterLines: seq<HighlightedLine>)
    requires n <= |d| && Displayable(d, beforeLines, afterLines)
    ensures MarkedCount(ReferenceDisplay(d, n, current, beforeLines, afterLines)) <= 1
    ensures ChangeCount(d[..n]) > current ==> MarkedCount(ReferenceDisplay(d, n, current, beforeLines, afterLines)) == 0
    ensures ChangeCount(d[..n]) <= current < ChangeCount(d) ==>
      MarkedCount(ReferenceDisplay(d, n, current, beforeLines, afterLines)) == 1
    decreases |d| - n
  {
    if n == |d| {
      assert d[..n] == d;
    } else {
      ChangeCountStep(d, n);
      MarkedFrom(d, n + 1, current, beforeLines, afterLines);
      var r := ReferenceDisplay(d, n, current, beforeLines, afterLines);
      if r != ReferenceDisplay(d, n + 1, current, beforeLines, afterLines) {
        assert r[1..] == ReferenceDisplay(d, n + 1, current, beforeLines, afterLines);
      }
    }
  }

  /**
   * At any step at most one line is marked removing or adding, and while
   * steps remain exactly one is: the line of the current step.
   */
  lemma OneMarkedLinePerStep(d: seq<DiffLine>, current: nat, beforeLines: seq<HighlightedLine>,
                             afterLines: seq<HighlightedLine>)
    requires Displayable(d, beforeLines, afterLines)
    ensures MarkedCount(ReferenceDisplay(d, 0, current, beforeLines, afterLines)) <= 1
    ensures current < ChangeCount(d) ==> MarkedCount(ReferenceDisplay(d, 0, current, beforeLines, afterLines)) == 1
  {
    assert d[..0] == [];
    MarkedFrom(d, 0, current, beforeLines, afterLines);
  }

  function Texts(lines: seq<DisplayLine>): (r: seq<string>)
    ensures |r| == |lines| && forall k :: 0 <= k < |lines| ==> r[k] == lines[k].content
  {
    seq(|lines|, k requires 0 <= k < |lines| => lines[k].content)
  }

  /** The texts of the lines not being added in this step. */
  function SettledTexts(lines: seq<DisplayLine>): seq<string>
    decreases |lines|
  {
    if |lines| == 0 then []
    else (if lines[0].status == Adding then [] else [lines[0].content]) + SettledTexts(lines[1..])
  }

  /** Each entry's text is the text of the highlighted line its numbers point at. */
  ghost predicate ContentsAgree(d: seq<DiffLine>, beforeLines: seq<HighlightedLine>, afterLines: seq<HighlightedLine>)
    requires Displayable(d, beforeLines, afterLines)
  {
    forall n :: 0 <= n < |d| ==>
      && (d[n].OnBeforeSide() ==> beforeLines[d[n].beforeLine - 1].content == d[n].content)
      && (d[n].OnAfterSide() ==> afterLines[d[n].afterLine - 1].content == d[n].content)
  }

  lemma TextsCons(l: DisplayLine, rest: seq<DisplayLine>)
    ensures Texts([l] + rest) == [l.content] + Texts(rest)
  {
  }

  lemma ContentsAppend(x: seq<NumberedLine>, y: seq<NumberedLine>)
    ensures Contents(x + y) == Contents(x) + Contents(y)
  {
  }

  /** An entry the current step hides contributes nothing to the reference display. */
  lemma ReferenceHidden(d: seq<DiffLine>, n: nat, current: nat, beforeLines: seq<HighlightedLine>,
                        afterLines: seq<HighlightedLine>)
    requires n < |d| && Displayable(d, beforeLines, afterLines)
    requires EntryStatus(d[n], ChangeCount(d[..n]), current).None?
    ensures ReferenceDisplay(d, n, current, beforeLines, afterLines)
      == ReferenceDisplay(d, n + 1, current, beforeLines, afterLines)
  {
  }

  /** An entry the current step shows contributes one line with its own text and status. */
  lemma ReferenceShown(d: seq<DiffLine>, n: nat, current: nat, beforeLines: seq<HighlightedLine>,
                       afterLines: seq<HighlightedLine>)
    requires n < |d| && Displayable(d, beforeLines, afterLines) && ContentsAgree(d, beforeLines, afterLines)
    requires EntryStatus(d[n], ChangeCount(d[..n]), current).Some?
    ensures var r := ReferenceDisplay(d, n, current, beforeLines, afterLines);
      && r == [r[0]] + ReferenceDisplay(d, n + 1, current, beforeLines, afterLines)
      && r[0].content == d[n].content
      && r[0].status == EntryStatus(d[n], ChangeCount(d[..n]), current).value
  {
    assert d[n].OnBeforeSide() ==> beforeLines[d[n].beforeLine - 1].content == d[n].content;
    assert d[n].OnAfterSide() ==> afterLines[d[n].afterLine - 1].content == d[n].content;
  }

  /** Past every step, entry n contributes its after-side text, if any. */
  lemma EndHead(d: seq<DiffLine>, n: nat, current: nat, beforeLines: seq<HighlightedLine>,
                afterLines: seq<HighlightedLine>)
    requires n < |d| && Displayable(d, beforeLines, afterLines) && ContentsAgree(d, beforeLines, afterLines)
    requires current >= ChangeCount(d[..n + 1])
    ensures Texts(ReferenceDisplay(d, n, current, beforeLines, afterLines))
      == Contents(AfterView([d[n]])) + Texts(ReferenceDisplay(d, n + 1, current, beforeLines, afterLines))
  {
    ChangeCountStep(d, n);
    SingleViews(d[n]);
    var st := EntryStatus(d[n], ChangeCount(d[..n]), current);
    if d[n].Removed? {
      assert st.None?;
      assert Contents(AfterView([d[n]])) == [];
      ReferenceHidden(d, n, current, beforeLines, afterLines);
    } else {
      assert st == Some(Normal);
      assert Contents(AfterView([d[n]])) == [d[n].content];
      EndHeadShown(d, n, current, beforeLines, afterLines);
    }
  }

  /** The shown case of `EndHead`: one line, whose text is the entry's. */
  lemma EndHeadShown(d: seq<DiffLine>, n: nat, current: nat, beforeLines: seq<HighlightedLine>,
                     afterLines: seq<HighlightedLine>)
    requires n < |d| && Displayable(d, beforeLines, afterLines) && ContentsAgree(d, beforeLines, afterLines)
    requires EntryStatus(d[n], ChangeCount(d[..n]), current).Some?
    ensures Texts(ReferenceDisplay(d, n, current, beforeLines, afterLines))
      == [d[n].content] + Texts(ReferenceDisplay(d, n + 1, current, beforeLines, afterLines))
  {
    ReferenceShown(d, n, current, beforeLines, afterLines);
    var r := ReferenceDisplay(d, n, current, beforeLines, afterLines);
    TextsCons(r[0], ReferenceDisplay(d, n + 1, current, beforeLines, afterLines));
  }

  lemma {:induction false} EndTextsFrom(d: seq<DiffLine>, n: nat, current: nat, beforeLines: seq<HighlightedLine>,
                                        afterLines: seq<HighlightedLine>)
    requires n <= |d| && Displayable(d, beforeLines, afterLines) && ContentsAgree(d, beforeLines, afterLines)
    requires current >= ChangeCount(d)
    ensures Texts(ReferenceDisplay(d, n, current, beforeLines, afterLines)) == Contents(AfterView(d[n..]))
    decreases |d| - n
  {
    if n == |d| {
      assert d[n..] == [];
    } else {
      ChangeCountMonotone(d, n + 1);
      EndHead(d, n, current, beforeLines, afterLines);
      EndTextsFrom(d, n + 1, current, beforeLines, afterLines);
      assert d[n..] == [d[n]] + d[n + 1..];
      AfterViewAppend([d[n]], d[n + 1..]);
      ContentsAppend(AfterView([d[n]]), AfterView(d[n + 1..]));
    }
  }

  lemma SettledCons(l: DisplayLine, rest: seq<DisplayLine>)
    ensures SettledTexts([l] + rest) == (if l.status == Adding then [] else [l.content]) + SettledTexts(rest)
  {
    assert ([l] + rest)[1..] == rest;
  }

  /** At step 0, entry n contributes its before-side text, if any, to the lines not being added. */
  lemma StartHead(d: seq<DiffLine>, n: nat, beforeLines: seq<HighlightedLine>, afterLines: seq<HighlightedLine>)
    requires n < |d| && Displayable(d, beforeLines, afterLines) && ContentsAgree(d, beforeLines, afterLines)
    ensures SettledTexts(ReferenceDisplay(d, n, 0, beforeLines, afterLines))
      == Contents(BeforeView([d[n]])) + SettledTexts(ReferenceDisplay(d, n + 1, 0, beforeLines, afterLines))
  {
    SingleViews(d[n]);
    var rest := ReferenceDisplay(d, n + 1, 0, beforeLines, afterLines);
    if EntryStatus(d[n], ChangeCount(d[..n]), 0).None? {
      ReferenceHidden(d, n, 0, beforeLines, afterLines);
    } else {
      ReferenceShown(d, n, 0, beforeLines, afterLines);
      var r := ReferenceDisplay(d, n, 0, beforeLines, afterLines);
      SettledCons(r[0], rest);
    }
  }

  lemma {:induction false} StartTextsFrom(d: seq<DiffLine>, n: nat, beforeLines: seq<HighlightedLine>,
                                          afterLines: seq<HighlightedLine>)
    requires n <= |d| && Displayable(d, beforeLines, afterLines) && ContentsAgree(d, beforeLines, afterLines)
    ensures SettledTexts(ReferenceDisplay(d, n, 0, beforeLines, afterLines)) == Contents(BeforeView(d[n..]))
    decreases |d| - n
  {
    if n == |d| {
      assert d[n..] == [];
    } else {
      StartHead(d, n, beforeLines, afterLines);
      StartTextsFrom(d, n + 1, beforeLines, afterLines);
      assert d[n..] == [d[n]] + d[n + 1..];
      BeforeViewAppend([d[n]], d[n + 1..]);
      ContentsAppend(BeforeView([d[n]]), BeforeView(d[n + 1..]));
    }
  }

  /**
   * The animation morphs one listing into the other: at step 0 the lines not
   * being added read as the before side of the diff, and once every step is
   * past the display reads as the after side.
   */
  lemma AnimationEndpoints(d: seq<DiffLine>, beforeLines: seq<HighlightedLine>, afterLines: seq<HighlightedLine>)
    requires Displayable(d, beforeLines, afterLines) && ContentsAgree(d, beforeLines, afterLines)
    ensures SettledTexts(ReferenceDisplay(d, 0, 0, beforeLines, afterLines)) == Contents(BeforeView(d))
    ensures Texts(ReferenceDisplay(d, 0, ChangeCount(d), beforeLines, afterLines)) == Contents(AfterView(d))
  {
    assert d[0..] == d;
    StartTextsFrom(d, 0, beforeLines, afterLines);
    EndTextsFrom(d, 0, ChangeCount(d), beforeLines, afterLines);
  }
}
