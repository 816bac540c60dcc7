/** The `EnhancedTable` component of frontend/.../App.js without its
    rendering: the table's own state (sort direction and column, page, rows
    per page, filters), the handlers that change it, and the pipeline that
    turns the rows it is given into the rows it shows: filter, then sort,
    then cut out one page. */
module Table {
  import opened Base
  import opened Text
  import opened Sorting

  /** A cell as the API delivers it: a JSON number (always an integer here),
      a string (names, comments, ISO dates, month keys) or null. */
  datatype Cell = Num(n: int) | Str(s: string) | Null

  /** A row is a JSON object; a key it lacks reads as `undefined`. */
  type Row = map<string, Cell>

  function CellAt(row: Row, key: string): (c: Cell) {
    if key in row then row[key] else Null
  }

  /** `row[key]?.toString().toLowerCase() || ''`: null and undefined read as
      the empty string, numbers as their decimal numeral. */
  function CellText(row: Row, key: string): (text: string) {
    match CellAt(row, key)
    case Num(n) => Lower(DecimalString(n))
    case Str(s) => Lower(s)
    case Null => ""
  }

  // ---------------------------------------------------------------- state

  datatype Direction = Asc | Desc

  datatype TableState = TableState(
    order: Direction,
    orderBy: string,
    page: nat,
    rowsPerPage: nat,
    filters: map<string, string>)

  /** The state a freshly mounted table starts in. */
  const INITIAL := TableState(Asc, "", 0, 10, map[])

  /** `handleRequestSort`: a click on the column sorted ascending turns it
      descending; any other click sorts the clicked column ascending. */
  function RequestSort(st: TableState, property: string): (r: TableState)
    ensures r.orderBy == property
    ensures r.order == Desc <==> st.orderBy == property && st.order == Asc
    ensures r.page == st.page && r.rowsPerPage == st.rowsPerPage && r.filters == st.filters
  {
    var isAsc := st.orderBy == property && st.order == Asc;
    st.(order := if isAsc then Desc else Asc, orderBy := property)
  }

  /** Two clicks on the column already sorted by give back the state they
      started from: the direction toggles between two values. */
  lemma RequestSortTwice(st: TableState, property: string)
    requires st.orderBy == property
    ensures RequestSort(RequestSort(st, property), property) == st
    ensures RequestSort(st, property).order != st.order
  {
  }

  /** `handleFilterChange`: one key set, the others as they were. The page
      is not reset. */
  function FilterChange(st: TableState, column: string, value: string): (r: TableState)
    ensures column in r.filters && r.filters[column] == value
    ensures forall k | k != column :: (k in r.filters <==> k in st.filters) && (k in st.filters ==> r.filters[k] == st.filters[k])
    ensures r.order == st.order && r.orderBy == st.orderBy && r.page == st.page && r.rowsPerPage == st.rowsPerPage
  {
    st.(filters := st.filters[column := value])
  }

  /** `clearFilters`. */
  function ClearFilters(st: TableState): (r: TableState)
    ensures |r.filters| == 0
    ensures r.order == st.order && r.orderBy == st.orderBy && r.page == st.page && r.rowsPerPage == st.rowsPerPage
  {
    st.(filters := map[])
  }

  /** `onPageChange`: the requested page; sorting, page size and filters
      stay as they were. */
  function PageChange(st: TableState, newPage: nat): (r: TableState)
    ensures r.page == newPage
    ensures r.order == st.order && r.orderBy == st.orderBy && r.rowsPerPage == st.rowsPerPage && r.filters == st.filters
  {
    st.(page := newPage)
  }

  /** `onRowsPerPageChange`: the new size, back to the first page. */
  function RowsPerPageChange(st: TableState, newRowsPerPage: nat): (r: TableState)
    ensures r.rowsPerPage == newRowsPerPage && r.page == 0
    ensures r.order == st.order && r.orderBy == st.orderBy && r.filters == st.filters
  {
    st.(rowsPerPage := newRowsPerPage, page := 0)
  }

  // ---------------------------------------------------------------- filter

  /** One filter lets a row through when it is empty or the row's cell text
      contains it, both lower-cased. */
  predicate Matches(row: Row, key: string, value: string) {
    value == "" || Contains(CellText(row, key), Lower(value))
  }

  /** `Object.keys(filters).every(...)`. */
  predicate Passes(row: Row, filters: map<string, string>) {
    forall key | key in filters :: Matches(row, key, filters[key])
  }

  /** `rows.filter(...)`: the passing rows, in their order, each as often as
      it occurs. */
  function Filter(rows: seq<Row>, filters: map<string, string>): (r: seq<Row>)
    ensures forall row :: multiset(r)[row] == if Passes(row, filters) then multiset(rows)[row] else 0
    ensures |r| <= |rows|
  {
    if |rows| == 0 then []
    else
      assert rows == [rows[0]] + rows[1..];
      var rest := Filter(rows[1..], filters);
      if Passes(rows[0], filters) then [rows[0]] + rest else rest
  }

  /** Filtering distributes over concatenation, so it keeps the relative
      order of the rows it keeps. */
  lemma {:induction false} FilterAppend(a: seq<Row>, b: seq<Row>, filters: map<string, string>)
    ensures Filter(a + b, filters) == Filter(a, filters) + Filter(b, filters)
  {
    if |a| > 0 {
      assert (a + b)[1..] == a[1..] + b;
      FilterAppend(a[1..], b, filters);
    } else {
      assert a + b == b;
    }
  }

  /** The empty filter set lets every row through: after `clearFilters` the
      table shows its rows unfiltered. */
  lemma {:induction false} FilterNone(rows: seq<Row>)
    ensures Filter(rows, map[]) == rows
  {
    if |rows| > 0 {
      FilterNone(rows[1..]);
    }
  }

  lemma PassesBlank(row: Row, filters: map<string, string>, column: string)
    ensures Passes(row, filters[column := ""]) == Passes(row, filters - {column})
  {
    var g, h := filters[column := ""], filters - {column};
    if Passes(row, h) {
      forall key | key in g ensures Matches(row, key, g[key]) {
        if key != column {
          assert key in h && h[key] == g[key];
        }
      }
    }
    if Passes(row, g) {
      forall key | key in h ensures Matches(row, key, h[key]) {
        assert key in g && h[key] == g[key];
      }
    }
  }

  /** Emptying one filter box is the same as not having that filter. */
  lemma {:induction false} FilterBlankIsAbsent(rows: seq<Row>, filters: map<string, string>, column: string)
    ensures Filter(rows, filters[column := ""]) == Filter(rows, filters - {column})
  {
    if |rows| > 0 {
      PassesBlank(rows[0], filters, column);
      FilterBlankIsAbsent(rows[1..], filters, column);
    }
  }

  lemma LowerAppend(a: string, b: string)
    ensures Lower(a + b) == Lower(a) + Lower(b)
  {
    assert forall i | 0 <= i < |a + b| :: Lower(a + b)[i] == (Lower(a) + Lower(b))[i];
  }

  /** A string containing `a + b` contains `a`. */
  lemma ContainsPrefix(text: string, a: string, b: string)
    requires Contains(text, a + b)
    ensures Contains(text, a)
  {
    var i :| OccursAt(text, a + b, i);
    assert text[i..i + |a|] == text[i..i + |a + b|][..|a|];
    assert OccursAt(text, a, i);
  }

  /** Typing more into a filter box only ever hides rows. */
  lemma FilterNarrows(row: Row, filters: map<string, string>, column: string, value: string, more: string)
    requires Passes(row, filters[column := value + more])
    ensures Passes(row, filters[column := value])
  {
    var f, g := filters[column := value], filters[column := value + more];
    forall key | key in f ensures Matches(row, key, f[key]) {
      assert key in g;
      if key == column {
        if value != "" {
          assert Matches(row, column, value + more);
          LowerAppend(value, more);
          ContainsPrefix(CellText(row, column), Lower(value), Lower(more));
        }
      } else {
        assert g[key] == f[key];
      }
    }
  }

  // ---------------------------------------------------------------- sort

  /** The comparator of `filteredRows.sort`, as "a comes before b": two
      numbers compare numerically, anything else as lower-cased text; `desc`
      swaps the operands. Without a sort column nothing comes before
      anything. */
  predicate RowBefore(orderBy: string, order: Direction, a: Row, b: Row) {
    if orderBy == "" then false
    else
      var x := if order == Asc then a else b;
      var y := if order == Asc then b else a;
      match (CellAt(x, orderBy), CellAt(y, orderBy))
      case (Num(m), Num(n)) => m < n
      case _ => LexLess(CellText(x, orderBy), CellText(y, orderBy))
  }

  /** `RowBefore` for one sort column and direction, as a relation. */
  function RowOrder(orderBy: string, order: Direction): (Row, Row) -> bool {
    (a: Row, b: Row) => RowBefore(orderBy, order, a, b)
  }

  /** The sorted rows; `Array.prototype.sort` is stable. */
  function SortRows(rows: seq<Row>, orderBy: string, order: Direction): (r: seq<Row>)
    ensures multiset(r) == multiset(rows)
    ensures orderBy == "" ==> r == rows
  {
    var before := RowOrder(orderBy, order);
    if orderBy == "" then
      SortUnordered(rows, before);
      Sort(rows, before)
    else Sort(rows, before)
  }

  /** A column whose every cell is a number or absent. */
  predicate NumericColumn(rows: seq<Row>, col: string) {
    forall row | row in rows :: !CellAt(row, col).Str?
  }

  /** A column with no numbers in it. */
  predicate TextColumn(rows: seq<Row>, col: string) {
    forall row | row in rows :: !CellAt(row, col).Num?
  }

  /** The value a numeric column sorts by: empty cells below every number. */
  function NumKey(row: Row, col: string): (k: Option<int>) {
    if CellAt(row, col).Num? then Some(CellAt(row, col).n) else None
  }

  predicate NumLess(x: Option<int>, y: Option<int>) {
    match (x, y)
    case (Some(m), Some(n)) => m < n
    case (None, Some(_)) => true
    case _ => false
  }

  lemma EmptyLexLeast(s: string)
    ensures LexLess("", s) <==> |s| > 0
    ensures !LexLess(s, "")
  {
  }

  /** On a numeric column the comparator is the numeric order, with empty
      cells first (ascending) or last (descending). */
  lemma NumericBefore(col: string, order: Direction, a: Row, b: Row)
    requires col != ""
    requires !CellAt(a, col).Str? && !CellAt(b, col).Str?
    ensures RowBefore(col, order, a, b) ==
              if order == Asc then NumLess(NumKey(a, col), NumKey(b, col)) else NumLess(NumKey(b, col), NumKey(a, col))
  {
    if CellAt(a, col).Num? {
      EmptyLexLeast(Lower(DecimalString(CellAt(a, col).n)));
    }
    if CellAt(b, col).Num? {
      EmptyLexLeast(Lower(DecimalString(CellAt(b, col).n)));
    }
  }

  /** When at least one of the two cells is not a number, the comparator
      compares the lower-cased texts, null and absent cells as ''. */
  lemma TextBefore(col: string, order: Direction, a: Row, b: Row)
    requires col != ""
    requires !(CellAt(a, col).Num? && CellAt(b, col).Num?)
    ensures RowBefore(col, order, a, b) ==
              if order == Asc then LexLess(CellText(a, col), CellText(b, col)) else LexLess(CellText(b, col), CellText(a, col))
  {
  }

  /** On a column of numbers and empty cells, or on one with no numbers,
      the comparator is a strict weak order: rows with equal keys are the
      ties. */
  lemma ColumnOrderIsStrictWeak(rows: seq<Row>, col: string, order: Direction)
    requires col != "" && (NumericColumn(rows, col) || TextColumn(rows, col))
    ensures StrictWeakOn(RowOrder(col, order), rows)
  {
    var before := RowOrder(col, order);
    if NumericColumn(rows, col) {
      var less := if order == Asc then NumLess else (x: Option<int>, y: Option<int>) => NumLess(y, x);
      assert StrictTotal(less);
      forall a, b | a in rows && b in rows ensures before(a, b) == less(NumKey(a, col), NumKey(b, col)) {
        NumericBefore(col, order, a, b);
      }
      ByKeyIsStrictWeak(before, (row: Row) => NumKey(row, col), less, rows);
    } else {
      var less := if order == Asc then LexLess else (x: string, y: string) => LexLess(y, x);
      forall x: string ensures !LexLess(x, x) { LexIrreflexive(x); }
      forall x: string, y: string, z: string | LexLess(x, y) && LexLess(y, z) ensures LexLess(x, z) {
        LexTransitive(x, y, z);
      }
      forall x: string, y: string ensures x == y || LexLess(x, y) || LexLess(y, x) { LexTotal(x, y); }
      assert StrictTotal(less);
      forall a, b | a in rows && b in rows ensures before(a, b) == less(CellText(a, col), CellText(b, col)) {
        assert !CellAt(a, col).Num? && !CellAt(b, col).Num?;
      }
      ByKeyIsStrictWeak(before, (row: Row) => CellText(row, col), less, rows);
    }
  }

  /** The sort is stable: on a homogeneous column, the rows the comparator
      ties with any given row come out in the order they went in. Without a
      sort column every row is tied and the order is kept outright. */
  lemma SortRowsStable(rows: seq<Row>, col: string, order: Direction)
    requires col != "" && (NumericColumn(rows, col) || TextColumn(rows, col))
    ensures forall z | z in rows ::
              TiedWith(SortRows(rows, col, order), z, RowOrder(col, order)) == TiedWith(rows, z, RowOrder(col, order))
  {
    ColumnOrderIsStrictWeak(rows, col, order);
    forall z | z in rows
      ensures TiedWith(SortRows(rows, col, order), z, RowOrder(col, order)) == TiedWith(rows, z, RowOrder(col, order))
    {
      SortStable(rows, RowOrder(col, order), z, rows);
    }
  }

  /** Sorting a numeric column orders it by number: ascending puts smaller
      numbers (and empty cells) first, descending larger numbers first and
      empty cells last. */
  lemma SortNumericColumn(rows: seq<Row>, col: string, order: Direction)
    requires col != "" && NumericColumn(rows, col)
    ensures var r := SortRows(rows, col, order);
            forall i, j | 0 <= i < j < |r| ::
              if order == Asc then !NumLess(NumKey(r[j], col), NumKey(r[i], col))
              else !NumLess(NumKey(r[i], col), NumKey(r[j], col))
  {
    var before := RowOrder(col, order);
    var less := if order == Asc then NumLess else (x: Option<int>, y: Option<int>) => NumLess(y, x);
    forall a, b | a in rows && b in rows ensures before(a, b) == less(NumKey(a, col), NumKey(b, col)) {
      NumericBefore(col, order, a, b);
    }
    ColumnOrderIsStrictWeak(rows, col, order);
    SortSorted(rows, before);
    var r := Sort(rows, before);
    forall i, j | 0 <= i < j < |r| ensures !less(NumKey(r[j], col), NumKey(r[i], col)) {
      assert r[i] in multiset(rows) && r[j] in multiset(rows);
      assert !before(r[j], r[i]);
    }
  }

  /** Sorting a text column orders it by the lower-cased text, empty cells
      counting as the empty string. */
  lemma SortTextColumn(rows: seq<Row>, col: string, order: Direction)
    requires col != "" && TextColumn(rows, col)
    ensures var r := SortRows(rows, col, order);
            forall i, j | 0 <= i < j < |r| ::
              if order == Asc then !LexLess(CellText(r[j], col), CellText(r[i], col))
              else !LexLess(CellText(r[i], col), CellText(r[j], col))
  {
    var before := RowOrder(col, order);
    var less := if order == Asc then LexLess else (x: string, y: string) => LexLess(y, x);
    forall a, b | a in rows && b in rows ensures before(a, b) == less(CellText(a, col), CellText(b, col)) {
      assert !CellAt(a, col).Num? && !CellAt(b, col).Num?;
    }
    ColumnOrderIsStrictWeak(rows, col, order);
    SortSorted(rows, before);
    var r := Sort(rows, before);
    forall i, j | 0 <= i < j < |r| ensures !less(CellText(r[j], col), CellText(r[i], col)) {
      assert r[i] in multiset(rows) && r[j] in multiset(rows);
      assert !before(r[j], r[i]);
    }
  }

  // ---------------------------------------------------------------- page

  /** `rows.slice(page * rpp, page * rpp + rpp)`; `slice` clamps both ends
      to the length, so a page past the end is empty. */
  function Page(rows: seq<Row>, page: nat, rowsPerPage: nat): (r: seq<Row>)
    ensures |r| <= rowsPerPage
    ensures page * rowsPerPage >= |rows| ==> r == []
    ensures forall k | 0 <= k < |r| :: page * rowsPerPage + k < |rows| && r[k] == rows[page * rowsPerPage + k]
    ensures (page + 1) * rowsPerPage <= |rows| ==> |r| == rowsPerPage
    ensures page * rowsPerPage < |rows| < (page + 1) * rowsPerPage ==> |r| == |rows| - page * rowsPerPage
  {
    var lo := if page * rowsPerPage < |rows| then page * rowsPerPage else |rows|;
    var hi := if page * rowsPerPage + rowsPerPage < |rows| then page * rowsPerPage + rowsPerPage else |rows|;
    rows[lo..hi]
  }

  /** Every row is on exactly one page: row i is entry i % rpp of page i / rpp. */
  lemma PageOfIndex(rows: seq<Row>, rowsPerPage: nat, i: nat)
    requires rowsPerPage > 0 && i < |rows|
    ensures var p := Page(rows, i / rowsPerPage, rowsPerPage);
            i % rowsPerPage < |p| && p[i % rowsPerPage] == rows[i]
  {
    var q, k := i / rowsPerPage, i % rowsPerPage;
    assert q * rowsPerPage + k == i;
    assert q * rowsPerPage + rowsPerPage > i;
  }

  /** What the table shows: the current page of the filtered, sorted rows,
      and the row count the pagination control reports. */
  datatype Shown = Shown(page: seq<Row>, count: nat)

  function View(rows: seq<Row>, st: TableState): (v: Shown)
    ensures v.count == |Filter(rows, st.filters)|
    ensures |v.page| <= st.rowsPerPage
    ensures forall row | row in v.page :: Passes(row, st.filters) && row in rows
    ensures v.page == Page(SortRows(Filter(rows, st.filters), st.orderBy, st.order), st.page, st.rowsPerPage)
    ensures st.orderBy == "" ==> v.page == Page(Filter(rows, st.filters), st.page, st.rowsPerPage)
  {
    var filtered := Filter(rows, st.filters);
    var sorted := SortRows(filtered, st.orderBy, st.order);
    var page := Page(sorted, st.page, st.rowsPerPage);
    forall row | row in page ensures Passes(row, st.filters) && row in rows {
      assert row in multiset(sorted);
      assert multiset(filtered)[row] > 0;
    }
    Shown(page, |filtered|)
  }

  /** Turning the page changes only which slice is shown: the count is the
      same, and the new page is cut from the same filtered, sorted rows. */
  lemma PageChangeKeepsRows(rows: seq<Row>, st: TableState, newPage: nat)
    ensures View(rows, PageChange(st, newPage)).count == View(rows, st).count
    ensures var sorted := SortRows(Filter(rows, st.filters), st.orderBy, st.order);
            View(rows, PageChange(st, newPage)).page == Page(sorted, newPage, st.rowsPerPage)
  {
  }

  /** A fresh table shows the first ten rows as given. */
  lemma InitialView(rows: seq<Row>)
    ensures View(rows, INITIAL).count == |rows|
    ensures View(rows, INITIAL).page == rows[..if |rows| < 10 then |rows| else 10]
  {
    FilterNone(rows);
  }
}
