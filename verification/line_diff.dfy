/**
 * The greedy line matcher of the code-diff widget: two cursors walk the
 * `before` and `after` line lists; equal lines are kept, otherwise a fixed
 * lookahead of three lines looks for the current line of one side a little
 * further on the other side, and failing both a removed/added pair is emitted.
 */
module LineDiff {
  import opened Wrappers

  /** How far each lookahead scan looks past the cursor. */
  const Lookahead: nat := 3

  /** One entry of the diff; line numbers are 1-based. */
  datatype DiffLine =
    | Unchanged(content: string, beforeLine: nat, afterLine: nat)
    | Removed(content: string, beforeLine: nat)
    | Added(content: string, afterLine: nat)
  {
    /** The entry accounts for a line of the `before` listing. */
    predicate OnBeforeSide() { Unchanged? || Removed? }

    /** The entry accounts for a line of the `after` listing. */
    predicate OnAfterSide() { Unchanged? || Added? }

    /** The entry is animated (it becomes one animation step). */
    predicate IsChange() { Removed? || Added? }
  }

  /** A line together with its 1-based position in a listing. */
  datatype NumberedLine = NumberedLine(number: nat, content: string)

  /** `lines[from + m]` exists and equals `target`. */
  predicate MatchesAt(lines: seq<string>, from: nat, target: string, m: nat) {
    from + m < |lines| && lines[from + m] == target
  }

  /**
   * The first offset `m` in `k..Lookahead` with `lines[from + m] == target`,
   * stopping at the end of `lines`; `None` when there is none.
   */
  function ScanAhead(lines: seq<string>, from: nat, target: string, k: nat): (r: Option<nat>)
    requires 1 <= k
    ensures r.Some? ==> k <= r.value <= Lookahead && MatchesAt(lines, from, target, r.value)
    ensures r.Some? ==> forall m :: k <= m < r.value ==> !MatchesAt(lines, from, target, m)
    ensures r.None? ==> forall m :: k <= m <= Lookahead ==> !MatchesAt(lines, from, target, m)
    decreases Lookahead + 1 - k
  {
    if k > Lookahead || from + k >= |lines| then None
    else if lines[from + k] == target then Some(k)
    else ScanAhead(lines, from, target, k + 1)
  }

  /** `Removed` entries for `before[i .. i+k-1]`, in order. */
  function RemovedRun(before: seq<string>, i: nat, k: nat): seq<DiffLine>
    requires i + k <= |before|
  {
    seq(k, n requires 0 <= n < k => Removed(before[i + n], i + n + 1))
  }

  /** `Added` entries for `after[j .. j+k-1]`, in order. */
  function AddedRun(after: seq<string>, j: nat, k: nat): seq<DiffLine>
    requires j + k <= |after|
  {
    seq(k, n requires 0 <= n < k => Added(after[j + n], j + n + 1))
  }

  /** What one iteration of the matcher's loop emits, and where it leaves the cursors. */
  datatype Move = Move(emitted: seq<DiffLine>, nextBefore: nat, nextAfter: nat)

  /**
   * One iteration of the loop at cursors (i, j). Every iteration moves at
   * least one cursor forward and never past the end of its listing, so the
   * loop terminates.
   */
  function NextMove(before: seq<string>, after: seq<string>, i: nat, j: nat): (m: Move)
    requires i <= |before| && j <= |after| && (i < |before| || j < |after|)
    ensures i <= m.nextBefore <= |before| && j <= m.nextAfter <= |after|
    ensures m.nextBefore + m.nextAfter > i + j
  {
    if i >= |before| then Move([Added(after[j], j + 1)], i, j + 1)
    else if j >= |after| then Move([Removed(before[i], i + 1)], i + 1, j)
    else if before[i] == after[j] then Move([Unchanged(before[i], i + 1, j + 1)], i + 1, j + 1)
    else
      match ScanAhead(before, i, after[j], 1)
      case Some(k) => Move(RemovedRun(before, i, k), i + k, j)
      case None =>
        match ScanAhead(after, j, before[i], 1)
        case Some(k) => Move(AddedRun(after, j, k), i, j + k)
        case None => Move([Removed(before[i], i + 1), Added(after[j], j + 1)], i + 1, j + 1)
  }

  /** The diff of `before[i..]` against `after[j..]`: the matcher's loop from cursors (i, j). */
  function DiffFrom(before: seq<string>, after: seq<string>, i: nat, j: nat): seq<DiffLine>
    requires i <= |before| && j <= |after|
    decreases |before| - i + |after| - j
  {
    if i >= |before| && j >= |after| then []
    else
      var m := NextMove(before, after, i, j);
      m.emitted + DiffFrom(before, after, m.nextBefore, m.nextAfter)
  }

  /** The before-side entries of a diff, as (line number, content), in order. */
  function BeforeView(d: seq<DiffLine>): seq<NumberedLine>
    decreases |d|
  {
    if |d| == 0 then []
    else
      var head := if d[0].OnBeforeSide() then [NumberedLine(d[0].beforeLine, d[0].content)] else [];
      head + BeforeView(d[1..])
  }

  /** The after-side entries of a diff, as (line number, content), in order. */
  function AfterView(d: seq<DiffLine>): seq<NumberedLine>
    decreases |d|
  {
    if |d| == 0 then []
    else
      var head := if d[0].OnAfterSide() then [NumberedLine(d[0].afterLine, d[0].content)] else [];
      head + AfterView(d[1..])
  }

  /** `lines[lo..hi]` numbered by position: line `n` gets number `n + 1`. */
  function Numbered(lines: seq<string>, lo: nat, hi: nat): seq<NumberedLine>
    requires lo <= hi <= |lines|
  {
    seq(hi - lo, n requires 0 <= n < hi - lo => NumberedLine(lo + n + 1, lines[lo + n]))
  }

  function Contents(v: seq<NumberedLine>): (r: seq<string>)
    ensures |r| == |v| && forall k :: 0 <= k < |v| ==> r[k] == v[k].content
  {
    seq(|v|, k requires 0 <= k < |v| => v[k].content)
  }

  function Numbers(v: seq<NumberedLine>): (r: seq<nat>)
    ensures |r| == |v| && forall k :: 0 <= k < |v| ==> r[k] == v[k].number
  {
    seq(|v|, k requires 0 <= k < |v| => v[k].number)
  }

  lemma {:induction false} BeforeViewAppend(x: seq<DiffLine>, y: seq<DiffLine>)
    ensures BeforeView(x + y) == BeforeView(x) + BeforeView(y)
    decreases |x|
  {
    if |x| > 0 {
      assert (x + y)[1..] == x[1..] + y;
      BeforeViewAppend(x[1..], y);
    } else {
      assert x + y == y;
    }
  }

  lemma {:induction false} AfterViewAppend(x: seq<DiffLine>, y: seq<DiffLine>)
    ensures AfterView(x + y) == AfterView(x) + AfterView(y)
    decreases |x|
  {
    if |x| > 0 {
      assert (x + y)[1..] == x[1..] + y;
      AfterViewAppend(x[1..], y);
    } else {
      assert x + y == y;
    }
  }

  lemma NumberedSplit(lines: seq<string>, lo: nat, mid: nat, hi: nat)
    requires lo <= mid <= hi <= |lines|
    ensures Numbered(lines, lo, hi) == Numbered(lines, lo, mid) + Numbered(lines, mid, hi)
  {
  }

  /** A run of removals shows exactly its before lines, and nothing on the after side. */
  lemma {:induction false} RemovedRunViews(before: seq<string>, i: nat, k: nat)
    requires i + k <= |before|
    ensures BeforeView(RemovedRun(before, i, k)) == Numbered(before, i, i + k)
    ensures AfterView(RemovedRun(before, i, k)) == []
    decreases k
  {
    if k > 0 {
      var run := RemovedRun(before, i, k);
      assert run[1..] == RemovedRun(before, i + 1, k - 1);
      RemovedRunViews(before, i + 1, k - 1);
      NumberedSplit(before, i, i + 1, i + k);
    }
  }

  /** A run of additions shows exactly its after lines, and nothing on the before side. */
  lemma {:induction false} AddedRunViews(after: seq<string>, j: nat, k: nat)
    requires j + k <= |after|
    ensures AfterView(AddedRun(after, j, k)) == Numbered(after, j, j + k)
    ensures BeforeView(AddedRun(after, j, k)) == []
    decreases k
  {
    if k > 0 {
      var run := AddedRun(after, j, k);
      assert run[1..] == AddedRun(after, j + 1, k - 1);
      AddedRunViews(after, j + 1, k - 1);
      NumberedSplit(after, j, j + 1, j + k);
    }
  }

  /** A single entry shows its own line on each side it belongs to. */
  lemma SingleViews(e: DiffLine)
    ensures BeforeView([e]) == if e.OnBeforeSide() then [NumberedLine(e.beforeLine, e.content)] else []
    ensures AfterView([e]) == if e.OnAfterSide() then [NumberedLine(e.afterLine, e.content)] else []
  {
    assert [e][1..] == [];
  }

  /** What one iteration emits is exactly the lines its cursors moved over, numbered by position. */
  lemma NextMoveViews(before: seq<string>, after: seq<string>, i: nat, j: nat)
    requires i <= |before| && j <= |after| && (i < |before| || j < |after|)
    ensures BeforeView(NextMove(before, after, i, j).emitted) == Numbered(before, i, NextMove(before, after, i, j).nextBefore)
    ensures AfterView(NextMove(before, after, i, j).emitted) == Numbered(after, j, NextMove(before, after, i, j).nextAfter)
  {
    var m := NextMove(before, after, i, j);
    if i >= |before| {
      SingleViews(Added(after[j], j + 1));
    } else if j >= |after| {
      SingleViews(Removed(before[i], i + 1));
    } else if before[i] == after[j] {
      SingleViews(Unchanged(before[i], i + 1, j + 1));
    } else {
      match ScanAhead(before, i, after[j], 1)
      case Some(k) =>
        RemovedRunViews(before, i, k);
      case None =>
        match ScanAhead(after, j, before[i], 1)
        case Some(k) =>
          AddedRunViews(after, j, k);
        case None =>
          var r := Removed(before[i], i + 1);
          var a := Added(after[j], j + 1);
          SingleViews(r);
          SingleViews(a);
          assert [r, a] == [r] + [a];
          BeforeViewAppend([r], [a]);
          AfterViewAppend([r], [a]);
    }
  }

  /**
   * Reconstruction with exact numbering, from any cursor pair: the before-side
   * entries are `before[i..]` numbered i+1, i+2, ..., and likewise after.
   */
  lemma {:induction false} DiffFromViews(before: seq<string>, after: seq<string>, i: nat, j: nat)
    requires i <= |before| && j <= |after|
    ensures BeforeView(DiffFrom(before, after, i, j)) == Numbered(before, i, |before|)
    ensures AfterView(DiffFrom(before, after, i, j)) == Numbered(after, j, |after|)
    decreases |before| - i + |after| - j
  {
    if i < |before| || j < |after| {
      var m := NextMove(before, after, i, j);
      var rest := DiffFrom(before, after, m.nextBefore, m.nextAfter);
      assert DiffFrom(before, after, i, j) == m.emitted + rest;
      DiffFromViews(before, after, m.nextBefore, m.nextAfter);
      NextMoveViews(before, after, i, j);
      BeforeViewAppend(m.emitted, rest);
      AfterViewAppend(m.emitted, rest);
      NumberedSplit(before, i, m.nextBefore, |before|);
      NumberedSplit(after, j, m.nextAfter, |after|);
    }
  }

  /**
   * `computeDiff(beforeLines, afterLines)`. Its before-side entries are exactly
   * the before lines numbered 1..|before| in order, and its after-side entries
   * exactly the after lines numbered 1..|after| in order.
   */
  function ComputeDiff(before: seq<string>, after: seq<string>): (d: seq<DiffLine>)
    ensures BeforeView(d) == Numbered(before, 0, |before|)
    ensures AfterView(d) == Numbered(after, 0, |after|)
  {
    DiffFromViews(before, after, 0, 0);
    DiffFrom(before, after, 0, 0)
  }

  /** Reading the before-side (after-side) contents of the diff back gives the inputs. */
  lemma Reconstruction(before: seq<string>, after: seq<string>)
    ensures Contents(BeforeView(ComputeDiff(before, after))) == before
    ensures Contents(AfterView(ComputeDiff(before, after))) == after
  {
    var d := ComputeDiff(before, after);
    assert Contents(BeforeView(d)) == before;
    assert Contents(AfterView(d)) == after;
  }

  /** Before-side line numbers run 1, 2, ..., |before|; after-side ones 1, ..., |after|. */
  lemma LineNumbersExact(before: seq<string>, after: seq<string>)
    ensures Numbers(BeforeView(ComputeDiff(before, after))) == seq(|before|, n => n + 1)
    ensures Numbers(AfterView(ComputeDiff(before, after))) == seq(|after|, n => n + 1)
  {
  }

  /** An entry's before-side line shows up in the before view. */
  lemma {:induction false} InBeforeView(d: seq<DiffLine>, p: nat)
    requires p < |d| && d[p].OnBeforeSide()
    ensures NumberedLine(d[p].beforeLine, d[p].content) in BeforeView(d)
    decreases p
  {
    if p > 0 {
      InBeforeView(d[1..], p - 1);
    }
  }

  /** An entry's after-side line shows up in the after view. */
  lemma {:induction false} InAfterView(d: seq<DiffLine>, p: nat)
    requires p < |d| && d[p].OnAfterSide()
    ensures NumberedLine(d[p].afterLine, d[p].content) in AfterView(d)
    decreases p
  {
    if p > 0 {
      InAfterView(d[1..], p - 1);
    }
  }

  /**
   * Every entry refers to a real line: its before (after) number is within the
   * before (after) listing and the line there has the entry's content. In
   * particular an `Unchanged` entry pairs two equal lines.
   */
  lemma EntriesMatchInputs(before: seq<string>, after: seq<string>)
    ensures forall p :: 0 <= p < |ComputeDiff(before, after)| && ComputeDiff(before, after)[p].OnBeforeSide() ==>
      1 <= ComputeDiff(before, after)[p].beforeLine <= |before| &&
      before[ComputeDiff(before, after)[p].beforeLine - 1] == ComputeDiff(before, after)[p].content
    ensures forall p :: 0 <= p < |ComputeDiff(before, after)| && ComputeDiff(before, after)[p].OnAfterSide() ==>
      1 <= ComputeDiff(before, after)[p].afterLine <= |after| &&
      after[ComputeDiff(before, after)[p].afterLine - 1] == ComputeDiff(before, after)[p].content
  {
    var d := ComputeDiff(before, after);
    forall p | 0 <= p < |d| && d[p].OnBeforeSide()
      ensures 1 <= d[p].beforeLine <= |before| && before[d[p].beforeLine - 1] == d[p].content
    {
      InBeforeView(d, p);
    }
    forall p | 0 <= p < |d| && d[p].OnAfterSide()
      ensures 1 <= d[p].afterLine <= |after| && after[d[p].afterLine - 1] == d[p].content
    {
      InAfterView(d, p);
    }
  }

  /**
   * Each before-side (after-side) entry is numbered one past the count of
   * before-side (after-side) entries ahead of it: the numbering a walk over
   * the diff with two running line counters reproduces.
   */
  ghost predicate ConsecutivelyNumbered(d: seq<DiffLine>) {
    && (forall n :: 0 <= n < |d| && d[n].OnBeforeSide() ==> d[n].beforeLine == |BeforeView(d[..n])| + 1)
    && (forall n :: 0 <= n < |d| && d[n].OnAfterSide() ==> d[n].afterLine == |AfterView(d[..n])| + 1)
  }

  lemma ComputeDiffConsecutive(before: seq<string>, after: seq<string>)
    ensures ConsecutivelyNumbered(ComputeDiff(before, after))
  {
    var d := ComputeDiff(before, after);
    forall n | 0 <= n < |d| && d[n].OnBeforeSide()
      ensures d[n].beforeLine == |BeforeView(d[..n])| + 1
    {
      assert d == d[..n] + d[n..];
      BeforeViewAppend(d[..n], d[n..]);
      assert d[n..][0] == d[n];
      var p := |BeforeView(d[..n])|;
      assert BeforeView(d)[p] == BeforeView(d[n..])[0];
    }
    forall n | 0 <= n < |d| && d[n].OnAfterSide()
      ensures d[n].afterLine == |AfterView(d[..n])| + 1
    {
      assert d == d[..n] + d[n..];
      AfterViewAppend(d[..n], d[n..]);
      assert d[n..][0] == d[n];
      var p := |AfterView(d[..n])|;
      assert AfterView(d)[p] == AfterView(d[n..])[0];
    }
  }

  /** Identical listings: every line is kept, numbered the same on both sides. */
  lemma {:induction false} IdenticalFrom(lines: seq<string>, i: nat)
    requires i <= |lines|
    ensures |DiffFrom(lines, lines, i, i)| == |lines| - i
    ensures forall n :: 0 <= n < |lines| - i ==>
      DiffFrom(lines, lines, i, i)[n] == Unchanged(lines[i + n], i + n + 1, i + n + 1)
    decreases |lines| - i
  {
    if i < |lines| {
      IdenticalFrom(lines, i + 1);
      var rest := DiffFrom(lines, lines, i + 1, i + 1);
      assert NextMove(lines, lines, i, i) == Move([Unchanged(lines[i], i + 1, i + 1)], i + 1, i + 1);
      var d := DiffFrom(lines, lines, i, i);
      assert d == [Unchanged(lines[i], i + 1, i + 1)] + rest;
      forall n | 0 <= n < |lines| - i
        ensures d[n] == Unchanged(lines[i + n], i + n + 1, i + n + 1)
      {
        if n > 0 {
          assert d[n] == rest[n - 1];
        }
      }
    }
  }

  lemma IdenticalInputsAllUnchanged(lines: seq<string>)
    ensures ComputeDiff(lines, lines) == seq(|lines|, n requires 0 <= n < |lines| => Unchanged(lines[n], n + 1, n + 1))
  {
    IdenticalFrom(lines, 0);
  }

  lemma {:induction false} EmptyBeforeFrom(after: seq<string>, j: nat)
    requires j <= |after|
    ensures DiffFrom([], after, 0, j) == AddedRun(after, j, |after| - j)
    decreases |after| - j
  {
    if j < |after| {
      EmptyBeforeFrom(after, j + 1);
    }
  }

  /** With nothing before, every after line is added, in order. */
  lemma EmptyBeforeAllAdded(after: seq<string>)
    ensures ComputeDiff([], after) == seq(|after|, n requires 0 <= n < |after| => Added(after[n], n + 1))
  {
    EmptyBeforeFrom(after, 0);
  }

  lemma {:induction false} EmptyAfterFrom(before: seq<string>, i: nat)
    requires i <= |before|
    ensures DiffFrom(before, [], i, 0) == RemovedRun(before, i, |before| - i)
    decreases |before| - i
  {
    if i < |before| {
      EmptyAfterFrom(before, i + 1);
    }
  }

  /** With nothing after, every before line is removed, in order. */
  lemma EmptyAfterAllRemoved(before: seq<string>)
    ensures ComputeDiff(before, []) == seq(|before|, n requires 0 <= n < |before| => Removed(before[n], n + 1))
  {
    EmptyAfterFrom(before, 0);
  }

  /** `k` (between 1 and the lookahead) is the nearest offset at which `target` occurs after `from`. */
  predicate FirstMatch(lines: seq<string>, from: nat, target: string, k: nat) {
    && 1 <= k <= Lookahead
    && MatchesAt(lines, from, target, k)
    && forall m :: 1 <= m < k ==> !MatchesAt(lines, from, target, m)
  }

  /** `target` occurs nowhere within the lookahead window after `from`. */
  predicate NoMatch(lines: seq<string>, from: nat, target: string) {
    forall m :: 1 <= m <= Lookahead ==> !MatchesAt(lines, from, target, m)
  }

  /**
   * On a mismatch, the before-side scan is tried first: when the current
   * after line occurs k lines further on the before side, the k lines in
   * between are removed and the after cursor stays put.
   */
  lemma LookaheadBeforeFirst(before: seq<string>, after: seq<string>, i: nat, j: nat, k: nat)
    requires i < |before| && j < |after| && before[i] != after[j]
    requires FirstMatch(before, i, after[j], k)
    ensures NextMove(before, after, i, j) == Move(RemovedRun(before, i, k), i + k, j)
    ensures 1 <= |RemovedRun(before, i, k)| <= Lookahead
  {
  }

  /**
   * Only when the before-side scan fails is the after-side scan tried: when
   * the current before line occurs k lines further on the after side, the k
   * lines in between are added and the before cursor stays put.
   */
  lemma LookaheadAfterSecond(before: seq<string>, after: seq<string>, i: nat, j: nat, k: nat)
    requires i < |before| && j < |after| && before[i] != after[j]
    requires NoMatch(before, i, after[j])
    requires FirstMatch(after, j, before[i], k)
    ensures NextMove(before, after, i, j) == Move(AddedRun(after, j, k), i, j + k)
    ensures 1 <= |AddedRun(after, j, k)| <= Lookahead
  {
  }

  /** With no match within the window on either side, one removed/added pair is emitted. */
  lemma LookaheadSubstitution(before: seq<string>, after: seq<string>, i: nat, j: nat)
    requires i < |before| && j < |after| && before[i] != after[j]
    requires NoMatch(before, i, after[j]) && NoMatch(after, j, before[i])
    ensures NextMove(before, after, i, j) == Move([Removed(before[i], i + 1), Added(after[j], j + 1)], i + 1, j + 1)
  {
  }

  /** The lookahead scan as the source's bounded `for` loop that stops at the first match. */
  method ScanLoop(lines: seq<string>, from: nat, target: string) returns (r: Option<nat>)
    ensures r == ScanAhead(lines, from, target, 1)
  {
    var k: nat := 1;
    while k <= Lookahead && from + k < |lines|
      invariant 1 <= k <= Lookahead + 1
      invariant ScanAhead(lines, from, target, k) == ScanAhead(lines, from, target, 1)
    {
      if lines[from + k] == target {
        return Some(k);
      }
      k := k + 1;
    }
    return None;
  }

  /** Pushes `Removed` entries for `before[i .. i+k-1]` one at a time. */
  method EmitRemoved(before: seq<string>, i: nat, k: nat) returns (run: seq<DiffLine>)
    requires i + k <= |before|
    ensures run == RemovedRun(before, i, k)
  {
    run := [];
    var n: nat := 0;
    while n < k
      invariant n <= k
      invariant run == RemovedRun(before, i, n)
    {
      run := run + [Removed(before[i + n], i + n + 1)];
      n := n + 1;
    }
  }

  /** Pushes `Added` entries for `after[j .. j+k-1]` one at a time. */
  method EmitAdded(after: seq<string>, j: nat, k: nat) returns (run: seq<DiffLine>)
    requires j + k <= |after|
    ensures run == AddedRun(after, j, k)
  {
    run := [];
    var n: nat := 0;
    while n < k
      invariant n <= k
      invariant run == AddedRun(after, j, n)
    {
      run := run + [Added(after[j + n], j + n + 1)];
      n := n + 1;
    }
  }

  /** The body of the matcher's loop, on cursors (i, j). */
  method Iterate(before: seq<string>, after: seq<string>, i: nat, j: nat) returns (m: Move)
    requires i <= |before| && j <= |after| && (i < |before| || j < |after|)
    ensures m == NextMove(before, after, i, j)
  {
    if i >= |before| {
      return Move([Added(after[j], j + 1)], i, j + 1);
    } else if j >= |after| {
      return Move([Removed(before[i], i + 1)], i + 1, j);
    } else if before[i] == after[j] {
      return Move([Unchanged(before[i], i + 1, j + 1)], i + 1, j + 1);
    }
    var sb := ScanLoop(before, i, after[j]);
    if sb.Some? {
      var run := EmitRemoved(before, i, sb.value);
      return Move(run, i + sb.value, j);
    }
    var sa := ScanLoop(after, j, before[i]);
    if sa.Some? {
      var run := EmitAdded(after, j, sa.value);
      return Move(run, i, j + sa.value);
    }
    return Move([Removed(before[i], i + 1), Added(after[j], j + 1)], i + 1, j + 1);
  }

  /**
   * The matcher as a loop over two cursors; it produces exactly `ComputeDiff`,
   * so its before-side and after-side contents are the two inputs.
   */
  method ComputeDiffLoop(before: seq<string>, after: seq<string>) returns (diff: seq<DiffLine>)
    ensures diff == ComputeDiff(before, after)
    ensures Contents(BeforeView(diff)) == before && Contents(AfterView(diff)) == after
  {
    diff := [];
    var bi: nat, ai: nat := 0, 0;
    while bi < |before| || ai < |after|
      invariant bi <= |before| && ai <= |after|
      invariant diff + DiffFrom(before, after, bi, ai) == DiffFrom(before, after, 0, 0)
      decreases |before| - bi + |after| - ai
    {
      var m := Iterate(before, after, bi, ai);
      assert DiffFrom(before, after, bi, ai) == m.emitted + DiffFrom(before, after, m.nextBefore, m.nextAfter);
      diff := diff + m.emitted;
      bi, ai := m.nextBefore, m.nextAfter;
    }
    Reconstruction(before, after);
  }

  /** `b` changed to `x` in the middle: no lookahead match, so a substitution pair. */
  lemma ExampleSubstitution()
    ensures ComputeDiff(["a", "b", "c"], ["a", "x", "c"]) ==
      [Unchanged("a", 1, 1), Removed("b", 2), Added("x", 2), Unchanged("c", 3, 3)]
  {
    var b, a := ["a", "b", "c"], ["a", "x", "c"];
    assert NextMove(b, a, 0, 0) == Move([Unchanged("a", 1, 1)], 1, 1);
    LookaheadSubstitution(b, a, 1, 1);
    assert NextMove(b, a, 2, 2) == Move([Unchanged("c", 3, 3)], 3, 3);
  }

  /** `b` deleted: the before-side lookahead finds `c` one line on. */
  lemma ExampleDeletion()
    ensures ComputeDiff(["a", "b", "c", "d"], ["a", "c", "d"]) ==
      [Unchanged("a", 1, 1), Removed("b", 2), Unchanged("c", 3, 2), Unchanged("d", 4, 3)]
  {
    var b, a := ["a", "b", "c", "d"], ["a", "c", "d"];
    assert NextMove(b, a, 0, 0) == Move([Unchanged("a", 1, 1)], 1, 1);
    LookaheadBeforeFirst(b, a, 1, 1, 1);
    assert RemovedRun(b, 1, 1) == [Removed("b", 2)];
    assert NextMove(b, a, 2, 1) == Move([Unchanged("c", 3, 2)], 3, 2);
    assert NextMove(b, a, 3, 2) == Move([Unchanged("d", 4, 3)], 4, 3);
  }
}
