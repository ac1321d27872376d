/**
 * The sortable metric table: which column the rows are sorted by and in
 * which direction, the header click that changes it, the row comparator, and
 * the arrow each header shows.
 */
module MetricTable {
  import opened Wrappers
  import opened Text
  import opened Sorting

  /** One row; `before` and `after` are numbers, `unit` is optional. */
  datatype MetricData = MetricData(metric: string, before: int, after: int, improvement: string, unit: Option<string>)

  /** The keys of a row the table can be sorted by. */
  datatype Column = Metric | Before | After | Improvement | Unit

  datatype Order = Asc | Desc

  datatype SortState = SortState(column: Column, order: Order)

  const InitialSort: SortState := SortState(Metric, Asc)

  /** `handleSort`: the current column flips direction; another column becomes current, ascending. */
  function HandleSort(s: SortState, c: Column): (t: SortState)
    ensures t.column == c
  {
    if s.column == c then SortState(c, if s.order == Asc then Desc else Asc)
    else SortState(c, Asc)
  }

  /** Clicking the current column flips the direction; clicking it again restores it. */
  lemma HandleSortSpec(s: SortState, c: Column)
    ensures s.column == c ==> HandleSort(s, c).order != s.order
    ensures s.column != c ==> HandleSort(s, c).order == Asc
    ensures HandleSort(HandleSort(s, c), c) == (if s.column == c then s else SortState(c, Desc))
  {
  }

  // ---- comparator ----

  /** A cell as the comparator sees it: a number, a string, or `undefined`. */
  datatype Cell = Num(n: int) | Str(s: string) | Undefined

  function CellOf(row: MetricData, c: Column): Cell {
    match c
    case Metric => Str(row.metric)
    case Before => Num(row.before)
    case After => Num(row.after)
    case Improvement => Str(row.improvement)
    case Unit => if row.unit.Some? then Str(row.unit.value) else Undefined
  }

  function IntToString(n: int): string {
    if n < 0 then "-" + NatToString(-n) else NatToString(n)
  }

  /** `String(value)`. */
  function CellString(v: Cell): string {
    match v
    case Num(n) => IntToString(n)
    case Str(s) => s
    case Undefined => "undefined"
  }

  /** The sort key of a non-numeric cell: its string form, lower-cased. */
  function TextKey(row: MetricData, c: Column): string {
    ToLower(CellString(CellOf(row, c)))
  }

  /**
   * The comparator: numbers by difference (negated when descending), other
   * values by their lower-cased string form, -1, 1 or 0.
   */
  function Compare(a: MetricData, b: MetricData, s: SortState): int {
    var av := CellOf(a, s.column);
    var bv := CellOf(b, s.column);
    if av.Num? && bv.Num? then
      if s.order == Asc then av.n - bv.n else bv.n - av.n
    else
      var aStr := TextKey(a, s.column);
      var bStr := TextKey(b, s.column);
      if s.order == Asc then (if LexLess(aStr, bStr) then -1 else if LexLess(bStr, aStr) then 1 else 0)
      else (if LexLess(bStr, aStr) then -1 else if LexLess(aStr, bStr) then 1 else 0)
  }

  predicate IsNumeric(c: Column) {
    c == Before || c == After
  }

  /**
   * The comparator orders numeric columns by value and the others by
   * lower-cased text, and descending is ascending with the sign reversed.
   */
  lemma CompareSpec(a: MetricData, b: MetricData, c: Column)
    ensures Compare(a, b, SortState(c, Desc)) == -Compare(a, b, SortState(c, Asc))
    ensures Compare(a, b, SortState(c, Asc)) == -Compare(b, a, SortState(c, Asc))
    ensures IsNumeric(c) ==> (Compare(a, b, SortState(c, Asc)) < 0 <==> CellOf(a, c).n < CellOf(b, c).n)
    ensures !IsNumeric(c) ==> (Compare(a, b, SortState(c, Asc)) < 0 <==> LexLess(TextKey(a, c), TextKey(b, c)))
    ensures !IsNumeric(c) ==> (Compare(a, b, SortState(c, Asc)) == 0 <==> TextKey(a, c) == TextKey(b, c))
  {
    var x, y := TextKey(a, c), TextKey(b, c);
    LexLessAsymmetric(x, y);
    if x != y {
      LexLessTotal(x, y);
    } else {
      LexLessIrreflexive(x);
    }
  }

  /** "Row a goes strictly before row b" under the sort state. */
  function GoesBefore(s: SortState): (MetricData, MetricData) -> bool {
    (a: MetricData, b: MetricData) => Compare(a, b, s) < 0
  }

  /** `sortedData`. */
  function SortedRows(data: seq<MetricData>, s: SortState): (r: seq<MetricData>)
    ensures multiset(r) == multiset(data)
  {
    Sort(data, GoesBefore(s))
  }

  /**
   * Sorting is stable: the rows the comparator calls equal to any row `z`
   * (those with the same value, or the same lower-cased text) keep the order
   * they have in the data.
   */
  lemma SortedRowsStable(data: seq<MetricData>, s: SortState, z: MetricData)
    ensures forall a :: Tied(a, z, GoesBefore(s)) <==> Compare(a, z, s) == 0
    ensures Ties(SortedRows(data, s), z, GoesBefore(s)) == Ties(data, z, GoesBefore(s))
  {
    forall a
      ensures Tied(a, z, GoesBefore(s)) <==> Compare(a, z, s) == 0
    {
      CompareSpec(a, z, s.column);
    }
    GoesBeforeIsStrictWeakOrder(s);
    SortStable(data, z, GoesBefore(s));
  }

  lemma GoesBeforeIsStrictWeakOrder(s: SortState)
    ensures StrictWeakOrder(GoesBefore(s))
  {
    var less := GoesBefore(s);
    forall a: MetricData, b: MetricData | less(a, b)
      ensures !less(b, a)
    {
      CompareSpec(a, b, s.column);
    }
    forall a: MetricData, b: MetricData, c: MetricData | less(a, c)
      ensures less(a, b) || less(b, c)
    {
      CompareSpec(a, b, s.column);
      CompareSpec(b, c, s.column);
      CompareSpec(a, c, s.column);
      if !IsNumeric(s.column) {
        var x, y, z := TextKey(a, s.column), TextKey(b, s.column), TextKey(c, s.column);
        TextNegativeTransitive(x, y, z);
      }
    }
  }

  lemma TextNegativeTransitive(x: string, y: string, z: string)
    ensures LexLess(x, z) ==> LexLess(x, y) || LexLess(y, z)
    ensures LexLess(z, x) ==> LexLess(z, y) || LexLess(y, x)
  {
    if x != y {
      LexLessTotal(x, y);
    }
    if LexLess(y, x) && LexLess(x, z) {
      LexLessTransitive(y, x, z);
    }
    if LexLess(x, y) && LexLess(z, x) {
      LexLessTransitive(z, x, y);
    }
  }

  /**
   * The sorted rows are the same rows, in column order: by value for the
   * numeric columns, by lower-cased text otherwise, reversed when descending.
   */
  lemma SortedRowsOrdered(data: seq<MetricData>, s: SortState)
    ensures IsNumeric(s.column) && s.order == Asc ==> forall i, j :: 0 <= i < j < |SortedRows(data, s)| ==>
      CellOf(SortedRows(data, s)[i], s.column).n <= CellOf(SortedRows(data, s)[j], s.column).n
    ensures IsNumeric(s.column) && s.order == Desc ==> forall i, j :: 0 <= i < j < |SortedRows(data, s)| ==>
      CellOf(SortedRows(data, s)[i], s.column).n >= CellOf(SortedRows(data, s)[j], s.column).n
    ensures !IsNumeric(s.column) && s.order == Asc ==> forall i, j :: 0 <= i < j < |SortedRows(data, s)| ==>
      !LexLess(TextKey(SortedRows(data, s)[j], s.column), TextKey(SortedRows(data, s)[i], s.column))
    ensures !IsNumeric(s.column) && s.order == Desc ==> forall i, j :: 0 <= i < j < |SortedRows(data, s)| ==>
      !LexLess(TextKey(SortedRows(data, s)[i], s.column), TextKey(SortedRows(data, s)[j], s.column))
  {
    var r := SortedRows(data, s);
    GoesBeforeIsStrictWeakOrder(s);
    SortSorted(data, GoesBefore(s));
    forall i, j | 0 <= i < j < |r|
      ensures Compare(r[j], r[i], s) >= 0
    {
      assert !GoesBefore(s)(r[j], r[i]);
      CompareSpec(r[j], r[i], s.column);
    }
  }

  // ---- header ----

  const Unsorted: string := "↕️"
  const ArrowUp: string := "↑"
  const ArrowDown: string := "↓"

  /** `getSortIcon`. */
  function SortIcon(s: SortState, c: Column): string {
    if s.column != c then Unsorted
    else if s.order == Asc then ArrowUp else ArrowDown
  }

  /** Only the sorted column shows an arrow, and the arrow gives the direction. */
  lemma SortIconSpec(s: SortState, c: Column)
    ensures SortIcon(s, c) != Unsorted <==> c == s.column
    ensures SortIcon(s, c) == ArrowUp <==> c == s.column && s.order == Asc
    ensures SortIcon(s, c) == ArrowDown <==> c == s.column && s.order == Desc
  {
  }
}
