/** The two pre-existing tables, TYPES and EXPENSES (backend/.../models.py),
    together with the SEQ_EXPENSES sequence, as one immutable store value.

    Column shapes follow the Django models: explicit integer primary keys
    (never auto-incremented by the application), nullable `type_name`,
    `limit_month`, `date_exp`, `cost` and `comment`, at most 50 characters
    in the two text columns, INT range in the integer columns, and a
    foreign key from EXPENSES.TYPE_ID to TYPES.ID with ON DELETE CASCADE.
    A table is a sequence of rows; its order carries no meaning. */
module Models {
  import opened Base
  import opened Text
  import opened Dates

  datatype TypeRow = TypeRow(id: Int32, typeName: Option<Varchar50>, limitMonth: Option<Int32>)

  datatype ExpenseRow = ExpenseRow(
    id: Int32,
    date: Option<CalendarDate>,
    typeId: Int32,
    cost: Option<Int32>,
    comment: Option<Varchar50>)

  /** `nextExpenseId` is the value NEXT VALUE FOR SEQ_EXPENSES will hand out. */
  datatype Store = Store(types: seq<TypeRow>, expenses: seq<ExpenseRow>, nextExpenseId: int)

  predicate HasType(types: seq<TypeRow>, id: int) {
    exists t | t in types :: t.id == id
  }

  predicate HasExpense(expenses: seq<ExpenseRow>, id: int) {
    exists e | e in expenses :: e.id == id
  }

  predicate TypeIdsUnique(types: seq<TypeRow>) {
    forall i, j | 0 <= i < j < |types| :: types[i].id != types[j].id
  }

  predicate ExpenseIdsUnique(expenses: seq<ExpenseRow>) {
    forall i, j | 0 <= i < j < |expenses| :: expenses[i].id != expenses[j].id
  }

  /** What the database guarantees of the two tables, plus the one assumption
      the sequence needs: every existing expense id is below the sequence's
      next value (rows inserted from outside must respect this). */
  ghost predicate Valid(s: Store) {
    && TypeIdsUnique(s.types)
    && ExpenseIdsUnique(s.expenses)
    && (forall e | e in s.expenses :: HasType(s.types, e.typeId))
    && (forall e | e in s.expenses :: e.id < s.nextExpenseId)
  }

  /** `Types.objects.get(id=id)`: the row with that primary key, if any. */
  function FindType(types: seq<TypeRow>, id: int): (r: Option<TypeRow>)
    ensures r.Some? ==> r.value in types && r.value.id == id
    ensures r.None? <==> !HasType(types, id)
  {
    if |types| == 0 then None
    else if types[0].id == id then Some(types[0])
    else
      assert forall t | t in types :: t == types[0] || t in types[1..];
      FindType(types[1..], id)
  }

  /** `Expenses.objects.get(id=id)`. */
  function FindExpense(expenses: seq<ExpenseRow>, id: int): (r: Option<ExpenseRow>)
    ensures r.Some? ==> r.value in expenses && r.value.id == id
    ensures r.None? <==> !HasExpense(expenses, id)
  {
    if |expenses| == 0 then None
    else if expenses[0].id == id then Some(expenses[0])
    else
      assert forall e | e in expenses :: e == expenses[0] || e in expenses[1..];
      FindExpense(expenses[1..], id)
  }

  /** With unique primary keys, the row found is the only one with that id. */
  lemma FindTypeUnique(types: seq<TypeRow>, t: TypeRow)
    requires TypeIdsUnique(types)
    requires t in types
    ensures FindType(types, t.id) == Some(t)
  {
    var u := FindType(types, t.id).value;
    var i :| 0 <= i < |types| && types[i] == t;
    var j :| 0 <= j < |types| && types[j] == u;
    assert i == j;
  }

  /** `Types.__str__`: the name when it is non-empty, otherwise `Type <id>`.
      The label is never empty, and the fallback form names the id. */
  function TypeLabel(t: TypeRow): (shown: string)
    ensures |shown| > 0
    ensures t.typeName.Some? && t.typeName.value != "" ==> shown == t.typeName.value
    ensures (t.typeName.None? || t.typeName.value == "") ==>
              |shown| > 5 && shown[..5] == "Type " && ParseDecimal(shown[5..]) == Some(t.id as int)
  {
    if t.typeName.Some? && t.typeName.value != "" then t.typeName.value
    else
      var shown := "Type " + DecimalString(t.id);
      assert shown[5..] == DecimalString(t.id);
      DecimalRoundTrip(t.id);
      shown
  }

  function WithoutType(types: seq<TypeRow>, id: int): (r: seq<TypeRow>)
    ensures forall t :: t in r <==> t in types && t.id != id
    ensures |r| <= |types|
  {
    if |types| == 0 then []
    else if types[0].id == id then WithoutType(types[1..], id)
    else [types[0]] + WithoutType(types[1..], id)
  }

  function WithoutExpensesOf(expenses: seq<ExpenseRow>, typeId: int): (r: seq<ExpenseRow>)
    ensures forall e :: e in r <==> e in expenses && e.typeId != typeId
  {
    if |expenses| == 0 then []
    else if expenses[0].typeId == typeId then WithoutExpensesOf(expenses[1..], typeId)
    else [expenses[0]] + WithoutExpensesOf(expenses[1..], typeId)
  }

  /** Removing a sub-collection keeps distinct keys distinct. */
  lemma {:induction false} WithoutTypeDistinct(types: seq<TypeRow>, id: int)
    requires TypeIdsUnique(types)
    ensures TypeIdsUnique(WithoutType(types, id))
  {
    if |types| > 0 {
      WithoutTypeDistinct(types[1..], id);
      var rest := WithoutType(types[1..], id);
      forall t | t in rest ensures t.id != types[0].id {
        var k :| 0 <= k < |types[1..]| && types[1..][k] == t;
        assert types[k + 1] == t;
      }
      var r := WithoutType(types, id);
      if types[0].id != id {
        assert r == [types[0]] + rest;
        forall i, j | 0 <= i < j < |r| ensures r[i].id != r[j].id {
          assert r[j] == rest[j - 1];
          if i > 0 { assert r[i] == rest[i - 1]; } else { assert r[j] in rest; }
        }
      }
    }
  }

  lemma {:induction false} WithoutExpensesDistinct(expenses: seq<ExpenseRow>, typeId: int)
    requires ExpenseIdsUnique(expenses)
    ensures ExpenseIdsUnique(WithoutExpensesOf(expenses, typeId))
  {
    if |expenses| > 0 {
      WithoutExpensesDistinct(expenses[1..], typeId);
      var rest := WithoutExpensesOf(expenses[1..], typeId);
      forall e | e in rest ensures e.id != expenses[0].id {
        var k :| 0 <= k < |expenses[1..]| && expenses[1..][k] == e;
        assert expenses[k + 1] == e;
      }
      var r := WithoutExpensesOf(expenses, typeId);
      if expenses[0].typeId != typeId {
        assert r == [expenses[0]] + rest;
        forall i, j | 0 <= i < j < |r| ensures r[i].id != r[j].id {
          assert r[j] == rest[j - 1];
          if i > 0 { assert r[i] == rest[i - 1]; } else { assert r[j] in rest; }
        }
      }
    }
  }

  /** Deleting a type row, with the ON DELETE CASCADE of EXPENSES.TYPE_ID:
      the type and every expense of that type go and everything else stays.
      No view exposes this; the database and the admin site can do it. */
  function DeleteType(s: Store, id: int): (r: Store)
    ensures !HasType(r.types, id)
    ensures forall e | e in r.expenses :: e.typeId != id
    ensures forall t :: t in r.types <==> t in s.types && t.id != id
    ensures forall e :: e in r.expenses <==> e in s.expenses && e.typeId != id
    ensures r.nextExpenseId == s.nextExpenseId
  {
    Store(WithoutType(s.types, id), WithoutExpensesOf(s.expenses, id), s.nextExpenseId)
  }

  /** The cascade keeps the store valid: no expense is left pointing at the
      deleted type. */
  lemma DeleteTypeKeepsValid(s: Store, id: int)
    requires Valid(s)
    ensures Valid(DeleteType(s, id))
  {
    var r := DeleteType(s, id);
    WithoutTypeDistinct(s.types, id);
    WithoutExpensesDistinct(s.expenses, id);
    forall e | e in r.expenses ensures HasType(r.types, e.typeId) {
      var t :| t in s.types && t.id == e.typeId;
      assert t in r.types;
    }
  }
}
