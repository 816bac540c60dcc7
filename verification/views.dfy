/** The five API views of backend/.../views.py, each as a function from the
    store and the request's parameters to a response and the store after the
    request. Every view wraps its body in a catch-all that answers 500
    `{"error": "Internal server error"}`; the failures that reach it here are
    the ones the model can name (a non-numeric id, a value the INT column
    rejects, a lookup by id that finds more than one row). */
module Views {
  import opened Base
  import opened Text
  import opened Dates
  import opened Sorting
  import opened Models
  import opened Orders
  import opened Serializers
  import opened Summary

  datatype Status = BadRequest | NotFound | InternalServerError

  /** A 200 answer with its body, or an error status with its JSON body. */
  datatype Response<T> = Ok(value: T) | Fail(status: Status, body: map<string, string>)

  /** A response together with the store the request leaves behind. */
  datatype Answer<T> = Answer(response: Response<T>, store: Store)

  function ErrorBody(message: string): (r: map<string, string>) {
    map["error" := message]
  }

  const INTERNAL_ERROR := ErrorBody("Internal server error")
  const EXPENSE_NOT_FOUND := ErrorBody("Expense not found")
  const LIMIT_REQUIRED := ErrorBody("limitMonth parameter required")
  const LIMIT_NOT_INTEGER := ErrorBody("limitMonth must be an integer")
  const TYPE_NOT_FOUND := ErrorBody("Type not found")
  const INVALID_TYPE_ID := map["typeId" := "Invalid type id"]

  /** Python truthiness of an optional query parameter: absent and empty are
      both false. */
  predicate Truthy(param: Option<string>) {
    param.Some? && param.value != ""
  }

  // ---------------------------------------------------------------- overview

  /** `Expenses.objects.select_related('type_id')`: each expense with its
      type, in table order. The foreign key is not nullable, so the join is
      an inner join and an expense without a type row drops out. */
  function OverviewItems(types: seq<TypeRow>, expenses: seq<ExpenseRow>): (r: seq<OverviewItem>) {
    if |expenses| == 0 then []
    else
      var rest := OverviewItems(types, expenses[1..]);
      match FindType(types, expenses[0].typeId)
      case None => rest
      case Some(t) => [ToOverviewItem(expenses[0], t)] + rest
  }

  /** `order_by('-date_exp')`: later dates first, NULL dates last. */
  predicate OverviewBefore(a: OverviewItem, b: OverviewItem) {
    DateDesc(a.date, b.date)
  }

  lemma OverviewOrderIsStrictWeak(u: seq<OverviewItem>)
    ensures StrictWeakOn(OverviewBefore, u)
  {
    DateDescTotal();
    ByKeyIsStrictWeak(OverviewBefore, (i: OverviewItem) => i.date, DateDesc, u);
  }

  /** Some expense with this id has its type row, so the inner join finds it. */
  predicate Joinable(types: seq<TypeRow>, expenses: seq<ExpenseRow>, id: int) {
    exists e | e in expenses :: e.id == id && HasType(types, e.typeId)
  }

  /** `select_related('type_id')` filtered on `id`: the expenses with that id
      joined to their type row, in table order. */
  function JoinedById(types: seq<TypeRow>, expenses: seq<ExpenseRow>, id: int): (r: seq<(ExpenseRow, TypeRow)>)
    ensures forall p | p in r :: p.0 in expenses && p.0.id == id && p.1 in types && p.1.id == p.0.typeId
    ensures |r| == 0 <==> !Joinable(types, expenses, id)
  {
    if |expenses| == 0 then []
    else
      assert forall e | e in expenses[1..] :: e in expenses;
      var rest := JoinedById(types, expenses[1..], id);
      var e := expenses[0];
      if e.id == id && FindType(types, e.typeId).Some? then [(e, FindType(types, e.typeId).value)] + rest
      else
        assert forall x | x in expenses :: x == e || x in expenses[1..];
        rest
  }

  /** With unique primary keys the join finds at most one row. */
  lemma {:induction false} JoinedByIdAtMostOne(types: seq<TypeRow>, expenses: seq<ExpenseRow>, id: int)
    requires ExpenseIdsUnique(expenses)
    ensures |JoinedById(types, expenses, id)| <= 1
  {
    if |expenses| > 0 {
      var tail := expenses[1..];
      assert ExpenseIdsUnique(tail) by {
        forall i, j | 0 <= i < j < |tail| ensures tail[i].id != tail[j].id {
          assert tail[i] == expenses[i + 1] && tail[j] == expenses[j + 1];
        }
      }
      JoinedByIdAtMostOne(types, tail, id);
    }
  }

  /** GET koltesek/attekinto. Without `expensesId` (or with an empty one)
      every expense, newest first; with one, that expense alone in a
      one-element list. `.get()` runs the same inner join as the list, so an
      expense whose type row is missing is not found (404) just like an
      unknown id, and more than one row raises MultipleObjectsReturned,
      which ends in the catch-all, as does an id Django cannot read as an
      integer. */
  function ExpenseOverview(s: Store, expensesId: Option<string>): (r: Response<seq<OverviewItem>>)
    ensures !Truthy(expensesId) ==>
              && r.Ok?
              && multiset(r.value) == multiset(OverviewItems(s.types, s.expenses))
              && SortedBy(r.value, OverviewBefore)
    ensures Truthy(expensesId) && ParseDecimal(expensesId.value).None? ==> r == Fail(InternalServerError, INTERNAL_ERROR)
    ensures Truthy(expensesId) && ParseDecimal(expensesId.value).Some? ==>
              var id := ParseDecimal(expensesId.value).value;
              && (r == Fail(NotFound, EXPENSE_NOT_FOUND) <==> !Joinable(s.types, s.expenses, id))
              && (r.Ok? ==> exists e, t | e in s.expenses && t in s.types && e.id == id && t.id == e.typeId ::
                              r.value == [ToOverviewItem(e, t)])
              && (Joinable(s.types, s.expenses, id) && ExpenseIdsUnique(s.expenses) ==> r.Ok?)
              && (r.Fail? && r.status != NotFound ==> r == Fail(InternalServerError, INTERNAL_ERROR))
  {
    if !Truthy(expensesId) then
      var items := OverviewItems(s.types, s.expenses);
      OverviewOrderIsStrictWeak(items);
      SortSorted(items, OverviewBefore);
      Ok(Sort(items, OverviewBefore))
    else
      match ParseDecimal(expensesId.value)
      case None => Fail(InternalServerError, INTERNAL_ERROR)
      case Some(id) =>
        var found := JoinedById(s.types, s.expenses, id);
        if |found| == 0 then Fail(NotFound, EXPENSE_NOT_FOUND)
        else if |found| > 1 then
          assert !ExpenseIdsUnique(s.expenses) by {
            if ExpenseIdsUnique(s.expenses) { JoinedByIdAtMostOne(s.types, s.expenses, id); }
          }
          Fail(InternalServerError, INTERNAL_ERROR)
        else
          assert found[0] in found;
          Ok([ToOverviewItem(found[0].0, found[0].1)])
  }

  /** In a valid store every expense is joinable, so an existing id is found. */
  lemma ExistingExpenseFound(s: Store, id: int)
    requires Valid(s) && HasExpense(s.expenses, id)
    ensures ExpenseOverview(s, Some(DecimalString(id))).Ok?
  {
    DecimalRoundTrip(id);
    var e :| e in s.expenses && e.id == id;
    assert HasType(s.types, e.typeId);
  }

  /** The input that shows the inner join: an expense whose type row is gone
      is reported as not found, although its row exists. */
  lemma OrphanExpenseNotFound()
    ensures var s := Store([], [ExpenseRow(1, None, 7, None, None)], 2);
            && HasExpense(s.expenses, 1)
            && ExpenseOverview(s, Some("1")) == Fail(NotFound, EXPENSE_NOT_FOUND)
  {
    var s := Store([], [ExpenseRow(1, None, 7, None, None)], 2);
    assert s.expenses[0] in s.expenses;
    DecimalRoundTrip(1);
    assert !Joinable(s.types, s.expenses, 1);
  }

  /** The list holds every expense whose type exists, once per expense. */
  lemma {:induction false} OverviewItemsComplete(types: seq<TypeRow>, expenses: seq<ExpenseRow>, e: ExpenseRow, t: TypeRow)
    requires TypeIdsUnique(types)
    requires e in expenses && t in types && t.id == e.typeId
    ensures ToOverviewItem(e, t) in OverviewItems(types, expenses)
  {
    if e == expenses[0] {
      FindTypeUnique(types, t);
    } else {
      assert e in expenses[1..];
      OverviewItemsComplete(types, expenses[1..], e, t);
    }
  }

  /** In a valid store no expense is lost: the list is as long as the table. */
  lemma {:induction false} OverviewItemsCount(types: seq<TypeRow>, expenses: seq<ExpenseRow>)
    requires forall e | e in expenses :: HasType(types, e.typeId)
    ensures |OverviewItems(types, expenses)| == |expenses|
  {
    if |expenses| > 0 {
      assert expenses[0] in expenses;
      assert forall e | e in expenses[1..] :: e in expenses;
      OverviewItemsCount(types, expenses[1..]);
    }
  }

  /** In a valid store the overview lists every expense exactly once. */
  lemma OverviewListsEveryExpense(s: Store, e: ExpenseRow, t: TypeRow)
    requires Valid(s)
    requires e in s.expenses && t in s.types && t.id == e.typeId
    ensures ExpenseOverview(s, None).Ok?
    ensures ToOverviewItem(e, t) in ExpenseOverview(s, None).value
    ensures |ExpenseOverview(s, None).value| == |s.expenses|
  {
    var items := OverviewItems(s.types, s.expenses);
    OverviewItemsComplete(s.types, s.expenses, e, t);
    OverviewItemsCount(s.types, s.expenses);
    var r := ExpenseOverview(s, None).value;
    assert ToOverviewItem(e, t) in multiset(items);
    assert |r| == |multiset(r)| == |multiset(items)| == |items|;
  }

  // ---------------------------------------------------------------- summary

  /** GET koltesek/osszegzo: the grouped totals. SUM over an INT column is an
      INT in SQL Server, so a group total outside that range is an
      arithmetic overflow error, which the catch-all turns into a 500. */
  function ExpenseSummary(s: Store): (r: Response<seq<SummaryRow>>)
    requires TypeIdsUnique(s.types)
    ensures r.Ok? <==> forall row | row in Summarize(s) :: FitsInt32(row.sumCost.GetOr(0))
    ensures r.Ok? ==> r.value == Summarize(s) && SortedBy(r.value, SummaryBefore)
    ensures r.Fail? ==> r == Fail(InternalServerError, INTERNAL_ERROR)
  {
    var rows := Summarize(s);
    if forall row | row in rows :: FitsInt32(row.sumCost.GetOr(0)) then Ok(rows)
    else Fail(InternalServerError, INTERNAL_ERROR)
  }

  // ---------------------------------------------------------------- create

  /** The 200 body of `create_expense`, rebuilt from the unsaved Expenses
      object `create` returned: its id is the inserted row's, its name the
      type's, the rest is the validated data, an absent comment as ''. */
  function CreatedBody(row: ExpenseRow, t: TypeRow, v: ValidatedCreate): (b: CreatedItem)
    ensures b.id == row.id && b.typeName == t.typeName
    ensures b.date == v.date && b.cost == v.cost
    ensures b.description == if v.comment.Some? then v.comment.value else ""
  {
    CreatedItem(row.id, v.date, t.typeName, v.cost, v.comment.GetOr(""))
  }

  /** What `create_expense` answers describes the row the INSERT stored: the
      same id, date, amount and comment, and the name of the row's type. */
  lemma CreatedBodyMatchesRow(s: Store, v: ValidatedCreate)
    requires Create(s, v).outcome.Created?
    ensures var o := Create(s, v).outcome;
            var b := CreatedBody(o.row, o.typeRow, v);
            && o.row in Create(s, v).store.expenses
            && b.id == o.row.id && Some(b.date) == o.row.date && b.cost == o.row.cost
            && Some(b.description) == o.row.comment
            && o.typeRow in Create(s, v).store.types && o.typeRow.id == o.row.typeId
            && b.typeName == o.typeRow.typeName
  {
    var r := Create(s, v);
    assert r.store.expenses[|s.expenses|] in r.store.expenses;
  }

  /** POST koltesek as written: `serializer.save()` runs inside the view's
      catch-all, so the ValidationError that `create` raises for an unknown
      type id is caught there and answered with 500, not 400. */
  function CreateExpenseAsWritten(s: Store, req: CreateRequest): (r: Answer<CreatedItem>)
    ensures ValidateCreate(req).Rejected? ==> r == Answer(Fail(BadRequest, ValidateCreate(req).errors), s)
    ensures ValidateCreate(req).Accepted? && !HasType(s.types, ValidateCreate(req).data.typeId) ==>
              r == Answer(Fail(InternalServerError, INTERNAL_ERROR), s)
    ensures r.response.Ok? <==>
              && ValidateCreate(req).Accepted?
              && var v := ValidateCreate(req).data;
                 HasType(s.types, v.typeId) && s.nextExpenseId != 0
                 && InsertFits(s, s.nextExpenseId, v.cost, v.comment.GetOr(""))
    ensures r.store.types == s.types
    ensures |r.store.expenses| >= |s.expenses| && r.store.expenses[..|s.expenses|] == s.expenses
    ensures r.response.Ok? ==> |r.store.expenses| == |s.expenses| + 1
  {
    match ValidateCreate(req)
    case Rejected(errors) => Answer(Fail(BadRequest, errors), s)
    case Accepted(v) =>
      var saved := Create(s, v);
      match saved.outcome
      case Created(row, t) => Answer(Ok(CreatedBody(row, t, v)), saved.store)
      case _ => Answer(Fail(InternalServerError, INTERNAL_ERROR), saved.store)
  }

  /** POST koltesek as its design describes it: field errors and an unknown
      type id are both 400 with the serializer's error body; only database
      failures are 500. On success the body describes the row now stored. */
  function CreateExpense(s: Store, req: CreateRequest): (r: Answer<CreatedItem>)
    ensures r.response.Ok? <==>
              && ValidateCreate(req).Accepted?
              && var v := ValidateCreate(req).data;
                 HasType(s.types, v.typeId) && s.nextExpenseId != 0
                 && InsertFits(s, s.nextExpenseId, v.cost, v.comment.GetOr(""))
    ensures r.response.Ok? ==>
              var v := ValidateCreate(req).data;
              var body := r.response.value;
              && body.id == s.nextExpenseId && body.id != 0
              && !HasExpense(s.expenses, body.id)
              && body.date == v.date && body.cost == v.cost
              && body.description == v.comment.GetOr("")
              && (exists t | t in s.types && t.id == v.typeId :: body.typeName == t.typeName)
              && |r.store.expenses| == |s.expenses| + 1
              && r.store.expenses[..|s.expenses|] == s.expenses
              && var row := r.store.expenses[|s.expenses|];
                 && row.id == body.id && row.date == Some(v.date) && row.typeId == v.typeId
                 && row.cost == v.cost && row.comment == Some(body.description)
    ensures ValidateCreate(req).Rejected? ==> r == Answer(Fail(BadRequest, ValidateCreate(req).errors), s)
    ensures ValidateCreate(req).Accepted? && !HasType(s.types, ValidateCreate(req).data.typeId) ==>
              r == Answer(Fail(BadRequest, INVALID_TYPE_ID), s)
    ensures r.response.Fail? && r.response.status == BadRequest ==> r.store == s
  {
    match ValidateCreate(req)
    case Rejected(errors) => Answer(Fail(BadRequest, errors), s)
    case Accepted(v) =>
      var saved := Create(s, v);
      match saved.outcome
      case Created(row, t) => Answer(Ok(CreatedBody(row, t, v)), saved.store)
      case InvalidTypeId => Answer(Fail(BadRequest, INVALID_TYPE_ID), s)
      case _ => Answer(Fail(InternalServerError, INTERNAL_ERROR), saved.store)
  }

  /** The two agree except on an unknown type id, which the written view
      answers with 500 and the intended one with 400, both leaving the store
      alone. */
  lemma CreateExpenseDiffersOnlyOnUnknownType(s: Store, req: CreateRequest)
    ensures CreateExpenseAsWritten(s, req) != CreateExpense(s, req) <==>
              ValidateCreate(req).Accepted? && !HasType(s.types, ValidateCreate(req).data.typeId)
  {
  }

  /** The input that shows it: a well-formed request naming type 7 in a store
      without it. */
  lemma UnknownTypeIsServerError()
    ensures var s := Store([], [], 1);
            var req := CreateRequest(Given(Date(2024, 5, 1)), Given(7), Given(1200), Missing, Missing);
            && CreateExpenseAsWritten(s, req).response == Fail(InternalServerError, INTERNAL_ERROR)
            && CreateExpense(s, req).response == Fail(BadRequest, INVALID_TYPE_ID)
  {
    var s := Store([], [], 1);
    var req := CreateRequest(Given(Date(2024, 5, 1)), Given(7), Given(1200), Missing, Missing);
    assert ValidateCreate(req).Accepted?;
    assert !HasType(s.types, 7);
  }

  /** Whatever the request, the store stays valid, and a created expense is
      the one the overview then shows for its id. */
  lemma CreateExpenseThenOverview(s: Store, req: CreateRequest)
    requires Valid(s)
    ensures Valid(CreateExpense(s, req).store)
    ensures var r := CreateExpense(s, req);
            r.response.Ok? ==>
              var o := ExpenseOverview(r.store, Some(DecimalString(r.response.value.id)));
              && o.Ok? && |o.value| == 1
              && o.value[0].date == Some(r.response.value.date)
              && o.value[0].cost == r.response.value.cost
              && o.value[0].descript == Some(r.response.value.description)
              && o.value[0].typeName == r.response.value.typeName
  {
    var r := CreateExpense(s, req);
    if ValidateCreate(req).Accepted? {
      CreateKeepsValid(s, ValidateCreate(req).data);
    }
    if r.response.Ok? {
      var v := ValidateCreate(req).data;
      var body := r.response.value;
      var row := r.store.expenses[|s.expenses|];
      DecimalRoundTrip(body.id);
      assert r.store.expenses == s.expenses + [row];
      assert row in r.store.expenses;
      var t :| t in s.types && t.id == v.typeId && body.typeName == t.typeName;
      assert Joinable(r.store.types, r.store.expenses, body.id);
      var o := ExpenseOverview(r.store, Some(DecimalString(body.id)));
      var e, u :| e in r.store.expenses && u in r.store.types && e.id == body.id && u.id == e.typeId
                  && o.value == [ToOverviewItem(e, u)];
      assert e in s.expenses + [row];
      assert e == row;
      FindTypeUnique(s.types, t);
      FindTypeUnique(s.types, u);
    }
  }

  // ---------------------------------------------------------------- types

  function TypesItems(types: seq<TypeRow>): (items: seq<TypesListItem>)
    ensures |items| == |types|
    ensures forall i | 0 <= i < |types| :: items[i] == ToTypesListItem(types[i])
  {
    if |types| == 0 then [] else [ToTypesListItem(types[0])] + TypesItems(types[1..])
  }

  /** `order_by('-limit_month')`: larger limits first, NULL limits last. */
  predicate TypesBefore(a: TypesListItem, b: TypesListItem) {
    IntDesc(a.limitMonth, b.limitMonth)
  }

  /** GET koltesek/limit_kiir: every type, largest limit first. */
  function TypesList(s: Store): (r: seq<TypesListItem>)
    ensures multiset(r) == multiset(TypesItems(s.types))
    ensures |r| == |s.types|
    ensures forall t | t in s.types :: TypesListItem(t.id, t.typeName, t.limitMonth) in r
    ensures forall item | item in r :: exists t | t in s.types :: item == TypesListItem(t.id, t.typeName, t.limitMonth)
    ensures SortedBy(r, TypesBefore)
  {
    var items := TypesItems(s.types);
    IntDescTotal();
    ByKeyIsStrictWeak(TypesBefore, (i: TypesListItem) => i.limitMonth, IntDesc, items);
    SortSorted(items, TypesBefore);
    var r := Sort(items, TypesBefore);
    assert |r| == |multiset(r)| == |multiset(items)| == |items|;
    forall t | t in s.types ensures TypesListItem(t.id, t.typeName, t.limitMonth) in r {
      var i :| 0 <= i < |s.types| && s.types[i] == t;
      assert items[i] in multiset(r);
    }
    forall item | item in r ensures exists t | t in s.types :: item == TypesListItem(t.id, t.typeName, t.limitMonth) {
      assert item in multiset(items);
      var i :| 0 <= i < |items| && items[i] == item;
      assert s.types[i] in s.types;
    }
    r
  }

  /** Every row with the given id gets the new limit; nothing else changes. */
  function SetLimit(types: seq<TypeRow>, id: int, limit: Int32): (r: seq<TypeRow>)
    ensures |r| == |types|
    ensures forall i | 0 <= i < |types| ::
              r[i] == if types[i].id == id then types[i].(limitMonth := Some(limit)) else types[i]
  {
    if |types| == 0 then []
    else
      [if types[0].id == id then types[0].(limitMonth := Some(limit)) else types[0]] + SetLimit(types[1..], id, limit)
  }

  /** PUT koltesek/limitmod/<typeId>?limitMonth=<n>. The checks run in this
      order: a missing or empty parameter, a parameter `int()` rejects, an
      unknown type; only then is the limit overwritten. There is no range
      check, so a negative limit is stored; a value outside INT makes the
      UPDATE fail, which the catch-all answers with 500. */
  function UpdateLimit(s: Store, typeId: int, limitMonth: Option<string>): (r: Answer<TypeUpdateItem>)
    ensures r.response.Fail? ==> r.store == s
    ensures !Truthy(limitMonth) ==> r.response == Fail(BadRequest, LIMIT_REQUIRED)
    ensures Truthy(limitMonth) && ParseDecimal(limitMonth.value).None? ==> r.response == Fail(BadRequest, LIMIT_NOT_INTEGER)
    ensures Truthy(limitMonth) && ParseDecimal(limitMonth.value).Some? ==>
              var n := ParseDecimal(limitMonth.value).value;
              && (r.response == Fail(NotFound, TYPE_NOT_FOUND) <==> !HasType(s.types, typeId))
              && (r.response.Ok? <==> HasType(s.types, typeId) && FitsInt32(n))
              && (HasType(s.types, typeId) && !FitsInt32(n) ==> r.response == Fail(InternalServerError, INTERNAL_ERROR))
              && (r.response.Ok? ==>
                    && r.response.value.limitMonth == Some(n)
                    && (exists t | t in s.types && t.id == typeId :: r.response.value.typeName == t.typeName)
                    && r.store.expenses == s.expenses && r.store.nextExpenseId == s.nextExpenseId
                    && |r.store.types| == |s.types|
                    && forall i | 0 <= i < |s.types| ::
                         && r.store.types[i].id == s.types[i].id
                         && r.store.types[i].typeName == s.types[i].typeName
                         && r.store.types[i].limitMonth == (if s.types[i].id == typeId then Some(n) else s.types[i].limitMonth))
  {
    if !Truthy(limitMonth) then Answer(Fail(BadRequest, LIMIT_REQUIRED), s)
    else
      match ParseDecimal(limitMonth.value)
      case None => Answer(Fail(BadRequest, LIMIT_NOT_INTEGER), s)
      case Some(n) =>
        match FindType(s.types, typeId)
        case None => Answer(Fail(NotFound, TYPE_NOT_FOUND), s)
        case Some(t) =>
          if !FitsInt32(n) then Answer(Fail(InternalServerError, INTERNAL_ERROR), s)
          else
            var updated := t.(limitMonth := Some(n));
            Answer(Ok(TypeUpdateItem(updated.typeName, updated.limitMonth)), s.(types := SetLimit(s.types, typeId, n)))
  }

  /** An update keeps the store valid, and reading the type back afterwards
      yields the new limit. */
  lemma UpdateLimitThenRead(s: Store, typeId: int, limitMonth: Option<string>)
    requires Valid(s)
    ensures Valid(UpdateLimit(s, typeId, limitMonth).store)
    ensures var r := UpdateLimit(s, typeId, limitMonth);
            r.response.Ok? ==>
              && FindType(r.store.types, typeId).Some?
              && FindType(r.store.types, typeId).value.limitMonth == r.response.value.limitMonth
              && exists item | item in TypesList(r.store) :: item.typeId == typeId && item.limitMonth == r.response.value.limitMonth
  {
    var r := UpdateLimit(s, typeId, limitMonth);
    if r.response.Ok? {
      var ts := r.store.types;
      assert TypeIdsUnique(ts);
      forall e | e in r.store.expenses ensures HasType(ts, e.typeId) {
        var t :| t in s.types && t.id == e.typeId;
        var i :| 0 <= i < |s.types| && s.types[i] == t;
        assert ts[i] in ts;
      }
      var t := FindType(s.types, typeId).value;
      var i :| 0 <= i < |s.types| && s.types[i] == t;
      assert ts[i] in ts;
      FindTypeUnique(ts, ts[i]);
      var item := TypesListItem(ts[i].id, ts[i].typeName, ts[i].limitMonth);
      assert item in TypesList(r.store);
    }
  }

  /** Negative limits are accepted and stored. */
  lemma NegativeLimitAccepted(s: Store, typeId: int, n: int)
    requires HasType(s.types, typeId)
    requires INT32_MIN <= n < 0
    ensures UpdateLimit(s, typeId, Some(DecimalString(n))).response == Ok(TypeUpdateItem(FindType(s.types, typeId).value.typeName, Some(n)))
  {
    DecimalRoundTrip(n);
  }

  /** Repeating the same update changes nothing further. */
  lemma UpdateLimitIdempotent(s: Store, typeId: int, limitMonth: Option<string>)
    ensures var once := UpdateLimit(s, typeId, limitMonth);
            UpdateLimit(once.store, typeId, limitMonth).store == once.store
  {
    var once := UpdateLimit(s, typeId, limitMonth);
    if once.response.Ok? {
      var twice := UpdateLimit(once.store, typeId, limitMonth);
      var t := FindType(s.types, typeId).value;
      var i :| 0 <= i < |s.types| && s.types[i] == t;
      assert once.store.types[i].id == typeId;
      assert once.store.types[i] in once.store.types;
      assert twice.store.types == once.store.types;
    }
  }
}
