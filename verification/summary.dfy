/** The aggregation behind `expense_summary` (backend/.../views.py), which
    is one SQL statement: expenses inner-joined to their types, grouped by
    the `yyyy-mm` month of the expense date together with the type's name and
    monthly limit, each group reported with the sum of its costs, newest
    month first and, within a month, the larger sum first.

    The group key holds the type's name and current limit, not its id: two
    types with the same name and limit share a row, and the limit reported is
    the one stored now. Following SQL, NULLs form groups of their own, SUM
    skips NULL costs and is NULL when a group has no non-NULL cost. */
module Summary {
  import opened Base
  import opened Dates
  import opened Models
  import opened Sorting
  import opened Orders

  datatype GroupKey = GroupKey(month: Option<string>, typeName: Option<string>, limitMonth: Option<int>)

  /** One row of the inner join, reduced to what the grouping reads. */
  datatype Joined = Joined(key: GroupKey, cost: Option<int>)

  /** One result row, as ExpenseSummarySerializer sends it. */
  datatype SummaryRow = SummaryRow(month: Option<string>, typeName: Option<string>, sumCost: Option<int>, limitMonth: Option<int>)

  function MonthOf(date: Option<CalendarDate>): (r: Option<string>) {
    if date.Some? then Some(MonthKey(date.value)) else None
  }

  /** The group an expense of type `t` falls in. */
  function KeyOf(e: ExpenseRow, t: TypeRow): (r: GroupKey) {
    GroupKey(MonthOf(e.date), t.typeName, t.limitMonth)
  }

  function KeyOfRow(row: SummaryRow): (r: GroupKey) {
    GroupKey(row.month, row.typeName, row.limitMonth)
  }

  function RowKeys(rows: seq<SummaryRow>): (r: set<GroupKey>) {
    set row | row in rows :: KeyOfRow(row)
  }

  /** Expense `e` joins type row `t`. */
  predicate Joins(s: Store, e: ExpenseRow, t: TypeRow) {
    e in s.expenses && t in s.types && t.id == e.typeId
  }

  /** The groups the query forms: the key of every expense paired with the
      type it references. */
  ghost function JoinKeys(s: Store): set<GroupKey> {
    set e, t | e in s.expenses && t in s.types && t.id == e.typeId :: KeyOf(e, t)
  }

  /** `EXPENSES e JOIN TYPES t ON e.TYPE_ID = t.ID`, in expense order; an
      expense whose type is missing drops out. */
  function JoinRows(types: seq<TypeRow>, expenses: seq<ExpenseRow>): (r: seq<Joined>) {
    if |expenses| == 0 then []
    else
      var e := expenses[0];
      var rest := JoinRows(types, expenses[1..]);
      match FindType(types, e.typeId)
      case None => rest
      case Some(t) => [Joined(KeyOf(e, t), e.cost)] + rest
  }

  /** Every joined row comes from an expense and the type it references. */
  lemma {:induction false} JoinRowSource(types: seq<TypeRow>, expenses: seq<ExpenseRow>, j: Joined)
    requires j in JoinRows(types, expenses)
    ensures exists e, t | e in expenses && t in types && t.id == e.typeId :: j == Joined(KeyOf(e, t), e.cost)
  {
    var e := expenses[0];
    var found := FindType(types, e.typeId);
    if found.Some? && j == Joined(KeyOf(e, found.value), e.cost) {
      assert e in expenses;
    } else {
      JoinRowSource(types, expenses[1..], j);
      var e', t :| e' in expenses[1..] && t in types && t.id == e'.typeId && j == Joined(KeyOf(e', t), e'.cost);
      assert e' in expenses;
    }
  }

  /** With unique type ids, every expense whose type exists is in the join,
      paired with that type. */
  lemma {:induction false} JoinRowPresent(types: seq<TypeRow>, expenses: seq<ExpenseRow>, e: ExpenseRow, t: TypeRow)
    requires TypeIdsUnique(types)
    requires e in expenses && t in types && t.id == e.typeId
    ensures Joined(KeyOf(e, t), e.cost) in JoinRows(types, expenses)
  {
    if e == expenses[0] {
      FindTypeUnique(types, t);
    } else {
      assert e in expenses[1..];
      JoinRowPresent(types, expenses[1..], e, t);
    }
  }

  /** The distinct group keys, each once. */
  function DistinctKeys(js: seq<Joined>): (ks: seq<GroupKey>)
    ensures forall k :: k in ks <==> exists j | j in js :: j.key == k
    ensures forall i, j | 0 <= i < j < |ks| :: ks[i] != ks[j]
  {
    if |js| == 0 then []
    else
      var rest := DistinctKeys(js[1..]);
      assert forall x | x in js :: x == js[0] || x in js[1..];
      if js[0].key in rest then rest else [js[0].key] + rest
  }

  /** `SUM(e.COST)` over the group with key `k`. */
  function GroupSum(js: seq<Joined>, k: GroupKey): (r: Option<int>)
    ensures r.None? <==> forall j | j in js && j.key == k :: j.cost.None?
  {
    if |js| == 0 then None
    else
      var rest := GroupSum(js[1..], k);
      assert forall x | x in js :: x == js[0] || x in js[1..];
      if js[0].key == k && js[0].cost.Some? then Some(js[0].cost.value + rest.GetOr(0))
      else rest
  }

  function RowsFor(js: seq<Joined>, ks: seq<GroupKey>): (rows: seq<SummaryRow>)
    ensures |rows| == |ks|
    ensures forall i | 0 <= i < |ks| :: KeyOfRow(rows[i]) == ks[i] && rows[i].sumCost == GroupSum(js, ks[i])
  {
    if |ks| == 0 then []
    else
      var k := ks[0];
      [SummaryRow(k.month, k.typeName, GroupSum(js, k), k.limitMonth)] + RowsFor(js, ks[1..])
  }

  /** `ORDER BY month DESC, SUM(e.COST) DESC`. */
  predicate SummaryBefore(a: SummaryRow, b: SummaryRow) {
    TextDesc(a.month, b.month) || (a.month == b.month && IntDesc(a.sumCost, b.sumCost))
  }

  /** A reference definition of a group's total, read straight off the
      tables: the costs of the expenses that join a type and fall in the
      group, NULLs counting as nothing. */
  function GroupCost(types: seq<TypeRow>, expenses: seq<ExpenseRow>, k: GroupKey): (r: int) {
    if |expenses| == 0 then 0
    else
      var e := expenses[0];
      var here := match FindType(types, e.typeId)
                  case Some(t) => if KeyOf(e, t) == k then e.cost.GetOr(0) else 0
                  case None => 0;
      here + GroupCost(types, expenses[1..], k)
  }

  /** The total of every cost that joins a type. */
  function TotalCost(types: seq<TypeRow>, expenses: seq<ExpenseRow>): (r: int) {
    if |expenses| == 0 then 0
    else
      var e := expenses[0];
      (if FindType(types, e.typeId).Some? then e.cost.GetOr(0) else 0) + TotalCost(types, expenses[1..])
  }

  function CostOf(j: Joined, k: GroupKey): (r: int) {
    if j.key == k then j.cost.GetOr(0) else 0
  }

  lemma {:induction false} GroupSumIsCost(js: seq<Joined>, k: GroupKey)
    ensures GroupSum(js, k).GetOr(0) == SumBy(js, (j: Joined) => CostOf(j, k))
  {
    if |js| > 0 {
      GroupSumIsCost(js[1..], k);
    }
  }

  lemma {:induction false} JoinCostIsGroupCost(types: seq<TypeRow>, expenses: seq<ExpenseRow>, k: GroupKey)
    ensures SumBy(JoinRows(types, expenses), (j: Joined) => CostOf(j, k)) == GroupCost(types, expenses, k)
  {
    if |expenses| > 0 {
      JoinCostIsGroupCost(types, expenses[1..], k);
    }
  }

  lemma {:induction false} JoinTotal(types: seq<TypeRow>, expenses: seq<ExpenseRow>)
    ensures SumBy(JoinRows(types, expenses), (j: Joined) => j.cost.GetOr(0)) == TotalCost(types, expenses)
  {
    if |expenses| > 0 {
      JoinTotal(types, expenses[1..]);
    }
  }

  /** The rows over a set of distinct keys covering every joined row add up
      to the total: each joined row is counted in exactly one group. */
  lemma {:induction false} GroupsPartition(js: seq<Joined>, ks: seq<GroupKey>)
    requires forall i, j | 0 <= i < j < |ks| :: ks[i] != ks[j]
    requires forall j | j in js :: j.key in ks
    ensures SumBy(RowsFor(js, ks), (r: SummaryRow) => r.sumCost.GetOr(0))
            == SumBy(js, (j: Joined) => j.cost.GetOr(0))
  {
    var f := (r: SummaryRow) => r.sumCost.GetOr(0);
    var rows := RowsFor(js, ks);
    RowsSum(js, ks);
    SumOfKeyCosts(js, ks);
  }

  function KeyCostSum(js: seq<Joined>, ks: seq<GroupKey>): (r: int) {
    if |ks| == 0 then 0 else SumBy(js, (j: Joined) => CostOf(j, ks[0])) + KeyCostSum(js, ks[1..])
  }

  lemma {:induction false} RowsSum(js: seq<Joined>, ks: seq<GroupKey>)
    ensures SumBy(RowsFor(js, ks), (r: SummaryRow) => r.sumCost.GetOr(0)) == KeyCostSum(js, ks)
  {
    if |ks| > 0 {
      RowsSum(js, ks[1..]);
      GroupSumIsCost(js, ks[0]);
      assert RowsFor(js, ks)[1..] == RowsFor(js, ks[1..]);
    }
  }

  /** Summing one row's cost over distinct keys counts it once. */
  lemma {:induction false} OneKeyCounts(j: Joined, ks: seq<GroupKey>)
    requires forall a, b | 0 <= a < b < |ks| :: ks[a] != ks[b]
    ensures KeyCostOne(j, ks) == (if j.key in ks then j.cost.GetOr(0) else 0)
  {
    if |ks| > 0 {
      OneKeyCounts(j, ks[1..]);
      if j.key == ks[0] {
        assert j.key !in ks[1..];
      }
    }
  }

  function KeyCostOne(j: Joined, ks: seq<GroupKey>): (r: int) {
    if |ks| == 0 then 0 else CostOf(j, ks[0]) + KeyCostOne(j, ks[1..])
  }

  lemma {:induction false} KeyCostSumCons(js: seq<Joined>, ks: seq<GroupKey>)
    requires |js| > 0
    ensures KeyCostSum(js, ks) == KeyCostOne(js[0], ks) + KeyCostSum(js[1..], ks)
  {
    if |ks| > 0 {
      KeyCostSumCons(js, ks[1..]);
    }
  }

  lemma {:induction false} SumOfKeyCosts(js: seq<Joined>, ks: seq<GroupKey>)
    requires forall i, j | 0 <= i < j < |ks| :: ks[i] != ks[j]
    requires forall j | j in js :: j.key in ks
    ensures KeyCostSum(js, ks) == SumBy(js, (j: Joined) => j.cost.GetOr(0))
  {
    if |js| == 0 {
      KeyCostSumEmpty(ks);
    } else {
      KeyCostSumCons(js, ks);
      OneKeyCounts(js[0], ks);
      assert forall j | j in js[1..] :: j in js;
      SumOfKeyCosts(js[1..], ks);
    }
  }

  lemma {:induction false} KeyCostSumEmpty(ks: seq<GroupKey>)
    ensures KeyCostSum([], ks) == 0
  {
    if |ks| > 0 {
      KeyCostSumEmpty(ks[1..]);
    }
  }

  /** The grouped rows before ORDER BY, one per distinct key. */
  function Grouped(s: Store): (r: seq<SummaryRow>) {
    var js := JoinRows(s.types, s.expenses);
    RowsFor(js, DistinctKeys(js))
  }

  function JoinedKeys(js: seq<Joined>): (r: set<GroupKey>) {
    set j | j in js :: j.key
  }

  lemma GroupedFacts(s: Store)
    ensures RowKeys(Grouped(s)) == JoinedKeys(JoinRows(s.types, s.expenses))
    ensures forall row | row in Grouped(s) :: row.sumCost == GroupSum(JoinRows(s.types, s.expenses), KeyOfRow(row))
    ensures var g := Grouped(s); forall i, j | 0 <= i < j < |g| :: g[i] != g[j] && KeyOfRow(g[i]) != KeyOfRow(g[j])
  {
    var js := JoinRows(s.types, s.expenses);
    var ks := DistinctKeys(js);
    var g := RowsFor(js, ks);
    forall row | row in g
      ensures KeyOfRow(row) in JoinedKeys(js) && row.sumCost == GroupSum(js, KeyOfRow(row))
    {
      var i :| 0 <= i < |g| && g[i] == row;
      assert ks[i] in ks;
    }
    forall k | k in JoinedKeys(js) ensures k in RowKeys(g) {
      assert k in ks;
      var i :| 0 <= i < |ks| && ks[i] == k;
      assert g[i] in g;
    }
    forall i, j | 0 <= i < j < |g| ensures g[i] != g[j] && KeyOfRow(g[i]) != KeyOfRow(g[j]) {
      assert KeyOfRow(g[i]) == ks[i] && KeyOfRow(g[j]) == ks[j];
    }
  }

  /** The summary as the database computes it, up to the order of rows that
      tie on both month and total (which SQL leaves open). */
  function Summarize(s: Store): (rows: seq<SummaryRow>)
    requires TypeIdsUnique(s.types)
    // one row per group, for every group and no other
    ensures RowKeys(rows) == JoinKeys(s)
    ensures forall i, j | 0 <= i < j < |rows| :: KeyOfRow(rows[i]) != KeyOfRow(rows[j])
    // the total of each group, NULL exactly when the group has no cost
    ensures forall row | row in rows :: row.sumCost.GetOr(0) == GroupCost(s.types, s.expenses, KeyOfRow(row))
    ensures forall row | row in rows ::
              row.sumCost.None? <==> forall e, t | Joins(s, e, t) && KeyOf(e, t) == KeyOfRow(row) :: e.cost.None?
    // newest month first, larger total first within a month
    ensures SortedBy(rows, SummaryBefore)
  {
    SummaryFacts(s);
    Sort(Grouped(s), SummaryBefore)
  }

  lemma SummaryFacts(s: Store)
    requires TypeIdsUnique(s.types)
    ensures var rows := Sort(Grouped(s), SummaryBefore);
            && RowKeys(rows) == JoinKeys(s)
            && (forall i, j | 0 <= i < j < |rows| :: KeyOfRow(rows[i]) != KeyOfRow(rows[j]))
            && (forall row | row in rows :: row.sumCost.GetOr(0) == GroupCost(s.types, s.expenses, KeyOfRow(row)))
            && (forall row | row in rows ::
                  row.sumCost.None? <==> forall e, t | Joins(s, e, t) && KeyOf(e, t) == KeyOfRow(row) :: e.cost.None?)
            && SortedBy(rows, SummaryBefore)
  {
    var rows := Sort(Grouped(s), SummaryBefore);
    SummarySorted(s);
    SummaryKeysDistinct(s);
    SummaryRowsAreGroups(s, rows);
    SummarySums(s, rows);
  }

  lemma SummarySorted(s: Store)
    ensures SortedBy(Sort(Grouped(s), SummaryBefore), SummaryBefore)
  {
    SummaryOrderIsStrictWeak(Grouped(s));
    SortSorted(Grouped(s), SummaryBefore);
  }

  lemma SummaryKeysDistinct(s: Store)
    ensures var rows := Sort(Grouped(s), SummaryBefore);
            forall i, j | 0 <= i < j < |rows| :: KeyOfRow(rows[i]) != KeyOfRow(rows[j])
  {
    GroupedFacts(s);
    SortKeepsKeysDistinct(Grouped(s), SummaryBefore, KeyOfRow);
  }

  lemma SummaryRowsAreGroups(s: Store, rows: seq<SummaryRow>)
    requires TypeIdsUnique(s.types)
    requires rows == Sort(Grouped(s), SummaryBefore)
    ensures RowKeys(rows) == JoinKeys(s)
  {
    var js := JoinRows(s.types, s.expenses);
    GroupedFacts(s);
    SortMembers(Grouped(s), SummaryBefore);
    forall row | row in rows
      ensures KeyOfRow(row) in JoinKeys(s)
    {
      assert KeyOfRow(row) in RowKeys(Grouped(s));
      var jr :| jr in js && jr.key == KeyOfRow(row);
      JoinRowSource(s.types, s.expenses, jr);
      var e, t :| e in s.expenses && t in s.types && t.id == e.typeId && jr == Joined(KeyOf(e, t), e.cost);
      assert Joins(s, e, t);
    }
    forall k | k in JoinKeys(s) ensures k in RowKeys(rows) {
      var e, t :| e in s.expenses && t in s.types && t.id == e.typeId && k == KeyOf(e, t);
      JoinRowPresent(s.types, s.expenses, e, t);
      assert k in JoinedKeys(js);
      var row :| row in Grouped(s) && KeyOfRow(row) == k;
      assert row in rows;
    }
  }

  lemma SummarySums(s: Store, rows: seq<SummaryRow>)
    requires TypeIdsUnique(s.types)
    requires rows == Sort(Grouped(s), SummaryBefore)
    ensures forall row | row in rows :: row.sumCost.GetOr(0) == GroupCost(s.types, s.expenses, KeyOfRow(row))
    ensures forall row | row in rows ::
              row.sumCost.None? <==> forall e, t | Joins(s, e, t) && KeyOf(e, t) == KeyOfRow(row) :: e.cost.None?
  {
    var js := JoinRows(s.types, s.expenses);
    GroupedFacts(s);
    SortMembers(Grouped(s), SummaryBefore);
    forall row | row in rows
      ensures row.sumCost.GetOr(0) == GroupCost(s.types, s.expenses, KeyOfRow(row))
      ensures row.sumCost.None? <==> forall e, t | Joins(s, e, t) && KeyOf(e, t) == KeyOfRow(row) :: e.cost.None?
    {
      GroupSumIsCost(js, KeyOfRow(row));
      JoinCostIsGroupCost(s.types, s.expenses, KeyOfRow(row));
      if row.sumCost.None? {
        forall e, t | Joins(s, e, t) && KeyOf(e, t) == KeyOfRow(row) ensures e.cost.None? {
          JoinRowPresent(s.types, s.expenses, e, t);
        }
      } else {
        var jr :| jr in js && jr.key == KeyOfRow(row) && jr.cost.Some?;
        JoinRowSource(s.types, s.expenses, jr);
        var e, t :| e in s.expenses && t in s.types && t.id == e.typeId && jr == Joined(KeyOf(e, t), e.cost);
        assert Joins(s, e, t);
      }
    }
  }

  function SummaryKey(r: SummaryRow): (Option<string>, Option<int>) {
    (r.month, r.sumCost)
  }

  predicate PairDesc(a: (Option<string>, Option<int>), b: (Option<string>, Option<int>)) {
    TextDesc(a.0, b.0) || (a.0 == b.0 && IntDesc(a.1, b.1))
  }

  lemma SummaryOrderIsStrictWeak(u: seq<SummaryRow>)
    ensures StrictWeakOn(SummaryBefore, u)
  {
    TextDescTotal();
    IntDescTotal();
    assert StrictTotal(PairDesc);
    ByKeyIsStrictWeak(SummaryBefore, SummaryKey, PairDesc, u);
  }

  /** Every cost that joins a type is counted in exactly one row: the row
      totals add up to the total of all costs. */
  lemma SummaryConservesCost(s: Store)
    requires TypeIdsUnique(s.types)
    ensures SumBy(Summarize(s), (r: SummaryRow) => r.sumCost.GetOr(0)) == TotalCost(s.types, s.expenses)
  {
    var js := JoinRows(s.types, s.expenses);
    var ks := DistinctKeys(js);
    var f := (r: SummaryRow) => r.sumCost.GetOr(0);
    SortSum(Grouped(s), SummaryBefore, f);
    GroupsPartition(js, ks);
    JoinTotal(s.types, s.expenses);
  }
}
