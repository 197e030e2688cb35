/** `get_day_columns` and `date_for_event_by_x`: the day columns of the
    displayed week, resolved from the calendar's day cells, and the date an
    event block belongs to, found from the horizontal position of its middle.
    Coordinates are exact reals. */
module Columns {
  import opened Wrappers
  import opened Sorting
  import opened Events

  /** A `td.fc-day` cell: its `data-date` attribute and its horizontal extent. */
  datatype Cell = Cell(date: string, left: real, right: real)

  /** One resolved day column, `{date, left, right}`. */
  datatype Column = Column(date: string, left: real, right: real)

  function Width(left: real, right: real): real {
    right - left
  }

  function ColumnOf(c: Cell): Column {
    Column(c.date, c.left, c.right)
  }

  /** Where the column of `date` sits in the insertion-ordered `byDate` map. */
  function IndexOf(cols: seq<Column>, date: string): (r: Option<nat>)
    ensures r.Some? ==> r.value < |cols| && cols[r.value].date == date
    ensures r.None? ==> forall k :: 0 <= k < |cols| ==> cols[k].date != date
  {
    if cols == [] then None
    else if cols[|cols| - 1].date == date then Some(|cols| - 1)
    else IndexOf(cols[..|cols| - 1], date)
  }

  /** One step of the `for (const td of tds)` loop over the `byDate` map, kept
      as the sequence of its values in insertion order (a JavaScript `Map`
      keeps the first insertion position when a key is set again). */
  function Keep(cols: seq<Column>, c: Cell): seq<Column> {
    if c.date == "" then cols
    else match IndexOf(cols, c.date)
      case None => cols + [ColumnOf(c)]
      case Some(k) =>
        if Width(c.left, c.right) > Width(cols[k].left, cols[k].right) then cols[k := ColumnOf(c)] else cols
  }

  /** The `byDate` map after the whole loop. */
  function KeepAll(cells: seq<Cell>): seq<Column> {
    if cells == [] then []
    else Keep(KeepAll(cells[..|cells| - 1]), cells[|cells| - 1])
  }

  /** `(a, b) => a.left - b.left` */
  predicate LeftLe(a: Column, b: Column) {
    a.left <= b.left
  }

  /** `get_day_columns`: the columns sorted by left edge (JavaScript's sort
      is stable), or the `RuntimeError` raised when there are none. */
  function ResolvedColumns(cells: seq<Cell>): Result<seq<Column>, Failure> {
    var cols := Sort(KeepAll(cells), LeftLe);
    if cols == [] then Err(LayoutError) else Ok(cols)
  }

  /** The page script's loop over the cells, then the sort and the check. */
  method ResolveColumns(cells: seq<Cell>) returns (r: Result<seq<Column>, Failure>)
    ensures r == ResolvedColumns(cells)
  {
    var byDate: seq<Column> := [];
    for i := 0 to |cells|
      invariant byDate == KeepAll(cells[..i])
    {
      var td := cells[i];
      assert cells[..i + 1][..i] == cells[..i];
      if td.date == "" {
        continue;
      }
      var prev := IndexOf(byDate, td.date);
      if prev.None? || Width(td.left, td.right) > Width(byDate[prev.value].left, byDate[prev.value].right) {
        if prev.None? {
          byDate := byDate + [ColumnOf(td)];
        } else {
          byDate := byDate[prev.value := ColumnOf(td)];
        }
      }
    }
    assert cells[..|cells|] == cells;
    var cols := Sort(byDate, LeftLe);
    if |cols| == 0 {
      return Err(LayoutError);
    }
    return Ok(cols);
  }

  /** Cell `i` is the one `byDate` ends up holding for its date: every earlier
      cell of that date is strictly narrower (a tie does not replace), and no
      later one is wider. */
  predicate IsKeptCell(cells: seq<Cell>, i: nat)
    requires i < |cells|
  {
    && cells[i].date != ""
    && (forall j :: 0 <= j < i && cells[j].date == cells[i].date ==>
          Width(cells[j].left, cells[j].right) < Width(cells[i].left, cells[i].right))
    && (forall j :: i < j < |cells| && cells[j].date == cells[i].date ==>
          Width(cells[j].left, cells[j].right) <= Width(cells[i].left, cells[i].right))
  }

  /** The non-empty dates of the cells. */
  ghost function CellDates(cells: seq<Cell>): set<string> {
    set i | 0 <= i < |cells| && cells[i].date != "" :: cells[i].date
  }

  ghost function ColumnDates(cols: seq<Column>): set<string> {
    set k | 0 <= k < |cols| :: cols[k].date
  }

  function DateOf(col: Column): string {
    col.date
  }

  /** Every column comes from the kept cell of its date. */
  ghost predicate FromKeptCells(cols: seq<Column>, cells: seq<Cell>) {
    forall k :: 0 <= k < |cols| ==> FromKeptCell(cols[k], cells)
  }

  ghost predicate FromKeptCell(col: Column, cells: seq<Cell>) {
    exists i :: 0 <= i < |cells| && IsKeptCell(cells, i) && col == ColumnOf(cells[i])
  }

  /** What the `byDate` map holds after a prefix of the cells. */
  ghost predicate KeepInvariant(cols: seq<Column>, cells: seq<Cell>) {
    && DistinctBy(cols, DateOf)
    && ColumnDates(cols) == CellDates(cells)
    && FromKeptCells(cols, cells)
  }

  lemma {:induction false} KeptCellExtends(cells: seq<Cell>, c: Cell, i: nat)
    requires i < |cells| && IsKeptCell(cells, i)
    requires c.date != cells[i].date
             || Width(c.left, c.right) <= Width(cells[i].left, cells[i].right)
    ensures IsKeptCell(cells + [c], i)
  {
    var s := cells + [c];
    forall j | i < j < |s| && s[j].date == s[i].date
      ensures Width(s[j].left, s[j].right) <= Width(s[i].left, s[i].right)
    {
      if j < |cells| {
        assert s[j] == cells[j];
      }
    }
  }

  lemma {:induction false} CellDatesAppend(cells: seq<Cell>, c: Cell)
    ensures CellDates(cells + [c]) == CellDates(cells) + (if c.date == "" then {} else {c.date})
  {
    var s := cells + [c];
    var extra: set<string> := if c.date == "" then {} else {c.date};
    forall d | d in CellDates(s) ensures d in CellDates(cells) + extra {
      var i :| 0 <= i < |s| && s[i].date != "" && s[i].date == d;
      if i < |cells| {
        assert cells[i] == s[i];
      } else {
        assert s[i] == c;
      }
    }
    forall d | d in CellDates(cells) + extra ensures d in CellDates(s) {
      if d in CellDates(cells) {
        var i :| 0 <= i < |cells| && cells[i].date != "" && cells[i].date == d;
        assert s[i] == cells[i];
      } else {
        assert s[|cells|] == c;
      }
    }
  }

  /** A cell that replaces nothing leaves every kept cell kept. */
  lemma {:induction false} KeepUnchanged(cols: seq<Column>, cells: seq<Cell>, c: Cell)
    requires FromKeptCells(cols, cells)
    requires forall k :: 0 <= k < |cols| ==>
               cols[k].date != c.date || Width(c.left, c.right) <= Width(cols[k].left, cols[k].right)
    ensures FromKeptCells(cols, cells + [c])
  {
    var s := cells + [c];
    forall k | 0 <= k < |cols|
      ensures exists i :: 0 <= i < |s| && IsKeptCell(s, i) && cols[k] == ColumnOf(s[i])
    {
      assert FromKeptCell(cols[k], cells);
      var i :| 0 <= i < |cells| && IsKeptCell(cells, i) && cols[k] == ColumnOf(cells[i]);
      KeptCellExtends(cells, c, i);
      assert s[i] == cells[i];
      assert 0 <= i < |s| && IsKeptCell(s, i) && cols[k] == ColumnOf(s[i]);
    }
    assert FromKeptCells(cols, s);
  }

  /** A cell with a date not seen before opens a new column at the end. */
  lemma {:induction false} KeepNew(cols: seq<Column>, cells: seq<Cell>, c: Cell)
    requires KeepInvariant(cols, cells)
    requires c.date != "" && IndexOf(cols, c.date).None?
    ensures KeepInvariant(cols + [ColumnOf(c)], cells + [c])
  {
    var s := cells + [c];
    var n := |cells|;
    var r := cols + [ColumnOf(c)];
    CellDatesAppend(cells, c);
    assert c.date !in CellDates(cells);
    assert IsKeptCell(s, n);
    KeepUnchanged(cols, cells, c);
    forall k | 0 <= k < |r|
      ensures exists i :: 0 <= i < |s| && IsKeptCell(s, i) && r[k] == ColumnOf(s[i])
    {
      if k < |cols| {
        assert r[k] == cols[k];
      } else {
        assert r[k] == ColumnOf(s[n]);
      }
    }
    AppendDates(cols, ColumnOf(c));
  }

  /** Appending a column of a new date adds that date. */
  lemma {:induction false} AppendDates(cols: seq<Column>, col: Column)
    requires DistinctBy(cols, DateOf)
    requires forall k :: 0 <= k < |cols| ==> cols[k].date != col.date
    ensures DistinctBy(cols + [col], DateOf)
    ensures ColumnDates(cols + [col]) == ColumnDates(cols) + {col.date}
  {
    var r := cols + [col];
    forall d | d in ColumnDates(r) ensures d in ColumnDates(cols) + {col.date} {
      var k :| 0 <= k < |r| && r[k].date == d;
      if k < |cols| { assert r[k] == cols[k]; }
    }
    forall d | d in ColumnDates(cols) ensures d in ColumnDates(r) {
      var k :| 0 <= k < |cols| && cols[k].date == d;
      assert r[k] == cols[k];
    }
    assert r[|cols|].date == col.date;
    forall k, l | 0 <= k < l < |r| ensures DateOf(r[k]) != DateOf(r[l]) {
      assert r[k] == cols[k];
      if l < |cols| { assert r[l] == cols[l]; }
    }
  }

  /** A strictly wider cell of a known date replaces that date's column in
      place. */
  lemma {:induction false} KeepReplace(cols: seq<Column>, cells: seq<Cell>, c: Cell, m: nat)
    requires KeepInvariant(cols, cells)
    requires c.date != "" && m < |cols| && cols[m].date == c.date
    requires Width(c.left, c.right) > Width(cols[m].left, cols[m].right)
    ensures KeepInvariant(cols[m := ColumnOf(c)], cells + [c])
  {
    CellDatesAppend(cells, c);
    assert c.date in ColumnDates(cols);
    ReplaceKept(cols, cells, c, m);
    ReplaceDates(cols, ColumnOf(c), m);
  }

  /** The wider cell is the kept cell of its date, and the other columns
      stay kept. */
  lemma {:induction false} ReplaceKept(cols: seq<Column>, cells: seq<Cell>, c: Cell, m: nat)
    requires DistinctBy(cols, DateOf) && FromKeptCells(cols, cells)
    requires c.date != "" && m < |cols| && cols[m].date == c.date
    requires Width(c.left, c.right) > Width(cols[m].left, cols[m].right)
    ensures FromKeptCells(cols[m := ColumnOf(c)], cells + [c])
  {
    var s := cells + [c];
    var n := |cells|;
    var r := cols[m := ColumnOf(c)];
    assert FromKeptCell(cols[m], cells);
    var i0 :| 0 <= i0 < |cells| && IsKeptCell(cells, i0) && cols[m] == ColumnOf(cells[i0]);
    assert IsKeptCell(s, n) by {
      forall j | 0 <= j < n && s[j].date == c.date
        ensures Width(s[j].left, s[j].right) < Width(c.left, c.right)
      {
        assert s[j] == cells[j];
        assert j == i0 || Width(cells[j].left, cells[j].right) <= Width(cells[i0].left, cells[i0].right);
      }
    }
    forall k | 0 <= k < |r| ensures FromKeptCell(r[k], s) {
      if k != m {
        assert FromKeptCell(cols[k], cells);
        var i :| 0 <= i < |cells| && IsKeptCell(cells, i) && cols[k] == ColumnOf(cells[i]);
        assert DateOf(cols[k]) != DateOf(cols[m]) by {
          if k < m { assert DateOf(cols[k]) != DateOf(cols[m]); }
          else { assert DateOf(cols[m]) != DateOf(cols[k]); }
        }
        KeptCellExtends(cells, c, i);
        assert s[i] == cells[i];
        assert 0 <= i < |s| && IsKeptCell(s, i) && r[k] == ColumnOf(s[i]);
      } else {
        assert 0 <= n < |s| && IsKeptCell(s, n) && r[k] == ColumnOf(s[n]);
      }
    }
  }

  /** Replacing a column by one of the same date keeps the dates. */
  lemma {:induction false} ReplaceDates(cols: seq<Column>, col: Column, m: nat)
    requires DistinctBy(cols, DateOf)
    requires m < |cols| && cols[m].date == col.date
    ensures DistinctBy(cols[m := col], DateOf)
    ensures ColumnDates(cols[m := col]) == ColumnDates(cols)
  {
    var r := cols[m := col];
    forall d | d in ColumnDates(r) ensures d in ColumnDates(cols) {
      var k :| 0 <= k < |r| && r[k].date == d;
      assert r[k].date == cols[k].date;
    }
    forall d | d in ColumnDates(cols) ensures d in ColumnDates(r) {
      var k :| 0 <= k < |cols| && cols[k].date == d;
      assert r[k].date == cols[k].date;
    }
    forall k, l | 0 <= k < l < |r| ensures DateOf(r[k]) != DateOf(r[l]) {
      assert DateOf(r[k]) == DateOf(cols[k]) && DateOf(r[l]) == DateOf(cols[l]);
    }
  }

  lemma {:induction false} KeepStep(cols: seq<Column>, cells: seq<Cell>, c: Cell)
    requires KeepInvariant(cols, cells)
    ensures KeepInvariant(Keep(cols, c), cells + [c])
  {
    if c.date == "" {
      CellDatesAppend(cells, c);
      KeepUnchanged(cols, cells, c);
    } else {
      match IndexOf(cols, c.date)
      case None =>
        KeepNew(cols, cells, c);
      case Some(m) =>
        if Width(c.left, c.right) > Width(cols[m].left, cols[m].right) {
          KeepReplace(cols, cells, c, m);
        } else {
          CellDatesAppend(cells, c);
          assert c.date in ColumnDates(cols);
          forall k | 0 <= k < |cols|
            ensures cols[k].date != c.date || Width(c.left, c.right) <= Width(cols[k].left, cols[k].right)
          {
            if k != m {
              assert DateOf(cols[k]) != DateOf(cols[m]) by {
                if k < m { assert DateOf(cols[k]) != DateOf(cols[m]); }
                else { assert DateOf(cols[m]) != DateOf(cols[k]); }
              }
            }
          }
          KeepUnchanged(cols, cells, c);
        }
    }
  }

  /** The `byDate` loop keeps one column per distinct non-empty date, and
      that column is the first widest cell of the date. */
  lemma {:induction false} KeepAllSpec(cells: seq<Cell>)
    ensures KeepInvariant(KeepAll(cells), cells)
  {
    if cells != [] {
      var n := |cells| - 1;
      KeepAllSpec(cells[..n]);
      KeepStep(KeepAll(cells[..n]), cells[..n], cells[n]);
      assert cells[..n] + [cells[n]] == cells;
    } else {
      assert ColumnDates([]) == {};
    }
  }

  lemma {:induction false} LeftLeTotalPreorder()
    ensures TotalPreorder(LeftLe)
  {
  }

  /** Reordering the kept columns keeps their dates and their origin. */
  lemma {:induction false} PermutedColumns(kept: seq<Column>, cols: seq<Column>, cells: seq<Cell>)
    requires multiset(cols) == multiset(kept) && FromKeptCells(kept, cells)
    ensures ColumnDates(cols) == ColumnDates(kept)
    ensures FromKeptCells(cols, cells)
  {
    assert forall x :: x in cols <==> x in kept by {
      forall x ensures x in cols <==> x in kept {
        assert x in cols <==> x in multiset(cols);
        assert x in kept <==> x in multiset(kept);
      }
    }
    forall d | d in ColumnDates(cols) ensures d in ColumnDates(kept) {
      var k :| 0 <= k < |cols| && cols[k].date == d;
      assert cols[k] in kept;
    }
    forall d | d in ColumnDates(kept) ensures d in ColumnDates(cols) {
      var k :| 0 <= k < |kept| && kept[k].date == d;
      assert kept[k] in cols;
    }
    forall k | 0 <= k < |cols| ensures FromKeptCell(cols[k], cells) {
      assert cols[k] in kept;
      var l :| 0 <= l < |kept| && kept[l] == cols[k];
      assert FromKeptCell(kept[l], cells);
    }
  }

  /** `get_day_columns` raises exactly when no cell has a date; otherwise it
      returns one column per distinct date, each the first widest cell of its
      date, sorted by left edge. */
  lemma {:induction false} ResolvedColumnsSpec(cells: seq<Cell>)
    ensures ResolvedColumns(cells).Err? <==> CellDates(cells) == {}
    ensures ResolvedColumns(cells).Err? ==> ResolvedColumns(cells).error == LayoutError
    ensures ResolvedColumns(cells).Ok? ==>
      var cols := ResolvedColumns(cells).value;
      && Sorted(cols, LeftLe)
      && DistinctBy(cols, DateOf)
      && ColumnDates(cols) == CellDates(cells)
      && FromKeptCells(cols, cells)
  {
    KeepAllSpec(cells);
    var kept := KeepAll(cells);
    var cols := Sort(kept, LeftLe);
    LeftLeTotalPreorder();
    SortSorted(kept, LeftLe);
    SortDistinctBy(kept, LeftLe, DateOf);
    PermutedColumns(kept, cols, cells);
    if cols == [] {
      assert ColumnDates(cols) == {};
    } else {
      assert cols[0].date in ColumnDates(cols);
    }
  }

  // ---------------------------------------------------------------- by x

  /** The closed interval `[left, right]` holds `x`. */
  predicate Holds(col: Column, x: real) {
    col.left <= x <= col.right
  }

  function Abs(x: real): real {
    if x < 0.0 then -x else x
  }

  /** `abs((left + right) / 2.0 - mid_x)` */
  function Distance(col: Column, x: real): real {
    Abs((col.left + col.right) / 2.0 - x)
  }

  /** The first column from `i` on that holds `x`. */
  function FirstHolding(cols: seq<Column>, x: real, i: nat): (r: Option<nat>)
    requires i <= |cols|
    ensures r.Some? ==> i <= r.value < |cols|
    decreases |cols| - i
  {
    if i == |cols| then None
    else if Holds(cols[i], x) then Some(i)
    else FirstHolding(cols, x, i + 1)
  }

  /** `min(day_columns, key=...)`: `min` keeps the first of equal keys. */
  function Closest(cols: seq<Column>, x: real): (k: nat)
    requires |cols| > 0
    ensures k < |cols|
  {
    if |cols| == 1 then 0
    else
      var k := Closest(cols[..|cols| - 1], x);
      if Distance(cols[|cols| - 1], x) < Distance(cols[k], x) then |cols| - 1 else k
  }

  /** The date `date_for_event_by_x` returns for the midpoint `x`. */
  function AssignDate(cols: seq<Column>, x: real): string
    requires |cols| > 0
  {
    match FirstHolding(cols, x, 0)
    case Some(k) => cols[k].date
    case None => cols[Closest(cols, x)].date
  }

  /** `date_for_event_by_x`: the midpoint of the event's box, the loop with
      its early return, then `min`. `min` on no columns raises, so the source
      relies on `get_day_columns` never returning an empty list. */
  method DateForEventByX(left: real, right: real, cols: seq<Column>) returns (date: string)
    requires |cols| > 0
    ensures date == AssignDate(cols, (left + right) / 2.0)
  {
    var midX := (left + right) / 2.0;
    for k := 0 to |cols|
      invariant FirstHolding(cols, midX, 0) == FirstHolding(cols, midX, k)
    {
      if Holds(cols[k], midX) {
        return cols[k].date;
      }
    }
    var closest := Closest(cols, midX);
    return cols[closest].date;
  }

  lemma {:induction false} FirstHoldingSpec(cols: seq<Column>, x: real, i: nat)
    requires i <= |cols|
    ensures FirstHolding(cols, x, i).Some? ==>
      var k := FirstHolding(cols, x, i).value;
      i <= k < |cols| && Holds(cols[k], x) && forall j :: i <= j < k ==> !Holds(cols[j], x)
    ensures FirstHolding(cols, x, i).None? ==> forall j :: i <= j < |cols| ==> !Holds(cols[j], x)
    decreases |cols| - i
  {
    if i < |cols| && !Holds(cols[i], x) {
      FirstHoldingSpec(cols, x, i + 1);
    }
  }

  /** `min` returns the first column of least distance. */
  lemma {:induction false} ClosestSpec(cols: seq<Column>, x: real)
    requires |cols| > 0
    ensures forall j :: 0 <= j < |cols| ==> Distance(cols[Closest(cols, x)], x) <= Distance(cols[j], x)
    ensures forall j :: 0 <= j < Closest(cols, x) ==> Distance(cols[Closest(cols, x)], x) < Distance(cols[j], x)
  {
    if |cols| > 1 {
      var n := |cols| - 1;
      ClosestSpec(cols[..n], x);
      assert forall j :: 0 <= j < n ==> cols[..n][j] == cols[j];
    }
  }

  /** Column `k` is the first whose closed interval holds `x`. */
  predicate IsFirstHolding(cols: seq<Column>, x: real, k: nat)
    requires k < |cols|
  {
    Holds(cols[k], x) && forall j :: 0 <= j < k ==> !Holds(cols[j], x)
  }

  predicate NoneHolds(cols: seq<Column>, x: real) {
    forall j :: 0 <= j < |cols| ==> !Holds(cols[j], x)
  }

  /** Column `k` has the least centre distance to `x`, and every column
      before it a strictly greater one. */
  predicate IsFirstNearest(cols: seq<Column>, x: real, k: nat)
    requires k < |cols|
  {
    && (forall j :: 0 <= j < |cols| ==> Distance(cols[k], x) <= Distance(cols[j], x))
    && (forall j :: 0 <= j < k ==> Distance(cols[k], x) < Distance(cols[j], x))
  }

  /** The date of the first column whose closed interval holds the midpoint;
      failing that, of the first column whose centre is nearest. Either way
      one of the columns' dates. */
  lemma {:induction false} AssignDateSpec(cols: seq<Column>, x: real)
    requires |cols| > 0
    ensures exists k :: 0 <= k < |cols| && AssignDate(cols, x) == cols[k].date
    ensures forall k :: 0 <= k < |cols| && IsFirstHolding(cols, x, k) ==> AssignDate(cols, x) == cols[k].date
    ensures NoneHolds(cols, x) ==>
              forall k :: 0 <= k < |cols| && IsFirstNearest(cols, x, k) ==> AssignDate(cols, x) == cols[k].date
  {
    FirstHoldingSpec(cols, x, 0);
    ClosestSpec(cols, x);
    var c := Closest(cols, x);
    match FirstHolding(cols, x, 0)
    case Some(k) =>
      assert AssignDate(cols, x) == cols[k].date;
    case None =>
      assert AssignDate(cols, x) == cols[c].date;
      forall k | 0 <= k < |cols| && IsFirstNearest(cols, x, k)
        ensures AssignDate(cols, x) == cols[k].date
      {
      }
  }
}
