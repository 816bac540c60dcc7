/** The serializers of backend/.../serializers.py: the field mappings of the
    response shapes, the field-level validation of the create-expense request,
    and `ExpenseCreateSerializer.create`, which looks the type up, draws the id
    from SEQ_EXPENSES inside the INSERT, and rebuilds the saved expense. */
module Serializers {
  import opened Base
  import opened Text
  import opened Dates
  import opened Models

  /** ExpenseOverviewSerializer: `date` from `date_exp`, `typeName` from the
      type's `type_name`, `cost`, and `descript` from `comment`. */
  datatype OverviewItem = OverviewItem(
    date: Option<CalendarDate>,
    typeName: Option<string>,
    cost: Option<int>,
    descript: Option<string>)

  function ToOverviewItem(e: ExpenseRow, t: TypeRow): (item: OverviewItem)
    ensures item.date == e.date && item.cost == e.cost && item.descript == e.comment
    ensures item.typeName == t.typeName
  {
    OverviewItem(e.date, t.typeName, e.cost, e.comment)
  }

  /** TypesListSerializer: `typeId` from `id`, `typeName` from `type_name`,
      `limitMonth` from `limit_month`. */
  datatype TypesListItem = TypesListItem(typeId: int, typeName: Option<string>, limitMonth: Option<int>)

  function ToTypesListItem(t: TypeRow): (item: TypesListItem)
    ensures item.typeId == t.id && item.typeName == t.typeName && item.limitMonth == t.limitMonth
  {
    TypesListItem(t.id, t.typeName, t.limitMonth)
  }

  /** TypesUpdateSerializer: `typeName` (read-only) and `limitMonth`. */
  datatype TypeUpdateItem = TypeUpdateItem(typeName: Option<string>, limitMonth: Option<int>)

  /** The body `create_expense` answers with after a successful save. */
  datatype CreatedItem = CreatedItem(id: int, date: CalendarDate, typeName: Option<string>, cost: Option<int>, description: string)

  /** A request field as the JSON parser delivered it: absent, JSON null, a
      value of the wrong shape (a date string that is not `yyyy-mm-dd`, a
      non-integer number), or a usable value. */
  datatype Input<T> = Missing | Null | Malformed | Given(value: T)

  /** The writable fields of ExpenseCreateSerializer. Besides the four
      declared ones, `fields` names the model field `cost`, which the
      serializer therefore builds from the model: an optional, nullable
      integer written to the same attribute as `osszeg`, and read after it. */
  datatype CreateRequest = CreateRequest(
    datum: Input<CalendarDate>,
    typeId: Input<int>,
    osszeg: Input<int>,
    leiras: Input<string>,
    cost: Input<int>)

  /** `validated_data` after `is_valid()`; `comment` is absent when `leiras`
      was, and `cost` is NULL only when the request's `cost` was null. */
  datatype ValidatedCreate = ValidatedCreate(date: CalendarDate, typeId: int, cost: Option<int>, comment: Option<string>)

  datatype Validation = Accepted(data: ValidatedCreate) | Rejected(errors: map<string, string>)

  const REQUIRED := "This field is required."
  const NOT_NULL := "This field may not be null."
  const BAD_DATE := "Date has wrong format. Use one of these formats instead: YYYY-MM-DD."
  const BAD_INTEGER := "A valid integer is required."
  const BAD_STRING := "Not a valid string."

  /** The framework's message for one field, None when the field is fine. */
  function FieldError<T>(input: Input<T>, required: bool, malformed: string): (r: Option<string>) {
    match input
    case Missing => if required then Some(REQUIRED) else None
    case Null => Some(NOT_NULL)
    case Malformed => Some(malformed)
    case Given(_) => None
  }

  function AddError(errors: map<string, string>, field: string, e: Option<string>): (r: map<string, string>) {
    if e.Some? then errors[field := e.value] else errors
  }

  /** The value the nullable model field `cost` writes over `osszeg`'s:
      nothing when absent, NULL when null. */
  function CostWritten(osszeg: int, cost: Input<int>): (c: Option<int>)
    ensures cost.Missing? ==> c == Some(osszeg)
    ensures cost.Null? ==> c.None?
    ensures cost.Given? ==> c == Some(cost.value)
  {
    match cost
    case Given(n) => Some(n)
    case Null => None
    case _ => Some(osszeg)
  }

  /** `is_valid()`: `datum`, `typeId` and `osszeg` are required and not
      nullable; `leiras` may be absent or blank and is stored with its
      surrounding whitespace stripped (CharField's `trim_whitespace`); `cost`
      may be absent or null. There is no range check on `osszeg`: any
      integer amount passes, zero and negatives included, and so does a
      comment of any length. */
  function ValidateCreate(req: CreateRequest): (v: Validation)
    ensures v.Accepted? <==>
              req.datum.Given? && req.typeId.Given? && req.osszeg.Given?
              && (req.leiras.Missing? || req.leiras.Given?)
              && !req.cost.Malformed?
    ensures v.Accepted? ==>
              && v.data.date == req.datum.value
              && v.data.typeId == req.typeId.value
              && v.data.cost == CostWritten(req.osszeg.value, req.cost)
              && v.data.comment == (if req.leiras.Given? then Some(Trim(req.leiras.value)) else None)
    ensures v.Rejected? ==>
              && ("datum" in v.errors <==> !req.datum.Given?)
              && ("typeId" in v.errors <==> !req.typeId.Given?)
              && ("osszeg" in v.errors <==> !req.osszeg.Given?)
              && ("leiras" in v.errors <==> !(req.leiras.Missing? || req.leiras.Given?))
              && ("cost" in v.errors <==> req.cost.Malformed?)
              && v.errors.Keys <= {"datum", "typeId", "osszeg", "leiras", "cost"}
              && ("datum" in v.errors && req.datum.Missing? ==> v.errors["datum"] == REQUIRED)
  {
    var errors :=
      AddError(AddError(AddError(AddError(AddError(map[],
        "datum", FieldError(req.datum, true, BAD_DATE)),
        "typeId", FieldError(req.typeId, true, BAD_INTEGER)),
        "osszeg", FieldError(req.osszeg, true, BAD_INTEGER)),
        "leiras", FieldError(req.leiras, false, BAD_STRING)),
        "cost", if req.cost.Malformed? then Some(BAD_INTEGER) else None);
    if req.datum.Given? && req.typeId.Given? && req.osszeg.Given? && !req.leiras.Null? && !req.leiras.Malformed?
       && !req.cost.Malformed? then
      Accepted(ValidatedCreate(
        req.datum.value, req.typeId.value, CostWritten(req.osszeg.value, req.cost),
        if req.leiras.Given? then Some(Trim(req.leiras.value)) else None))
    else
      assert "datum" in errors || "typeId" in errors || "osszeg" in errors || "leiras" in errors || "cost" in errors;
      Rejected(errors)
  }

  /** A comment padded with blanks on either side is accepted and kept
      without them, whatever the other fields of an otherwise valid request. */
  lemma CommentIsStripped(req: CreateRequest, pre: string, c: string, post: string)
    requires req.datum.Given? && req.typeId.Given? && req.osszeg.Given? && !req.cost.Malformed?
    requires req.leiras == Given(pre + c + post)
    requires AllSpaces(pre) && AllSpaces(post)
    requires |c| > 0 ==> !IsSpace(c[0]) && !IsSpace(c[|c| - 1])
    ensures ValidateCreate(req).Accepted?
    ensures ValidateCreate(req).data.comment == Some(c)
  {
    TrimPadded(pre, c, post);
  }

  /** A comment of up to 50 characters followed by blanks is kept without
      the blanks, so it still fits the column. */
  lemma PaddedCommentFits(req: CreateRequest, c: string, pad: string)
    requires req.datum.Given? && req.typeId.Given? && req.osszeg.Given? && !req.cost.Malformed?
    requires req.leiras == Given(c + pad)
    requires AllSpaces(pad)
    requires |c| <= 50 && (|c| > 0 ==> !IsSpace(c[0]) && !IsSpace(c[|c| - 1]))
    ensures ValidateCreate(req).Accepted?
    ensures ValidateCreate(req).data.comment == Some(c)
    ensures |ValidateCreate(req).data.comment.value| <= 50
  {
    TrimDropsTrailingSpaces(c, pad);
  }

  /** A request that also carries `cost` stores that value instead of
      `osszeg`; a null `cost` stores a NULL amount. */
  lemma CostOverridesOsszeg(osszeg: int, cost: Input<int>)
    requires !cost.Malformed?
    ensures var req := CreateRequest(Given(Date(2024, 5, 1)), Given(1), Given(osszeg), Missing, cost);
            && ValidateCreate(req).Accepted?
            && (cost.Null? ==> ValidateCreate(req).data.cost.None?)
            && (cost.Given? ==> ValidateCreate(req).data.cost == Some(cost.value))
  {
  }

  /** How `create` ends. `InvalidTypeId` is its ValidationError
      `{"typeId": "Invalid type id"}`; `InsertFailed` is a database error
      raised by the INSERT; `NoIdReturned` is its own "Failed to get inserted
      ID" exception, raised when the id read back is falsy. */
  datatype CreateOutcome = Created(row: ExpenseRow, typeRow: TypeRow) | InvalidTypeId | InsertFailed | NoIdReturned

  datatype Saved = Saved(outcome: CreateOutcome, store: Store)

  /** Whether the INSERT of a row with this id, cost and comment is accepted
      by the table: INT range, 50-character comment, unused primary key. */
  predicate InsertFits(s: Store, id: int, cost: Option<int>, comment: string) {
    FitsInt32(id) && (cost.None? || FitsInt32(cost.value)) && |comment| <= 50 && !HasExpense(s.expenses, id)
  }

  /** `ExpenseCreateSerializer.create`. The type lookup comes first, so an
      unknown type leaves the store, and the sequence, untouched. Otherwise
      the INSERT draws `NEXT VALUE FOR SEQ_EXPENSES`, which is spent whether
      or not the row is accepted. The statements run in autocommit mode, so a
      row inserted with id 0 stays although `create` then fails. */
  function Create(s: Store, v: ValidatedCreate): (r: Saved)
    ensures !HasType(s.types, v.typeId) <==> r.outcome.InvalidTypeId?
    ensures r.outcome.InvalidTypeId? ==> r.store == s
    ensures !r.outcome.InvalidTypeId? ==>
              r.store.types == s.types && r.store.nextExpenseId == s.nextExpenseId + 1
    ensures r.outcome.InsertFailed? ==> r.store.expenses == s.expenses
    ensures r.outcome.Created? || r.outcome.NoIdReturned? ==>
              |r.store.expenses| == |s.expenses| + 1
              && r.store.expenses[..|s.expenses|] == s.expenses
              && var row := r.store.expenses[|s.expenses|];
                 && row.id == s.nextExpenseId
                 && row.date == Some(v.date)
                 && row.typeId == v.typeId
                 && row.cost == v.cost
                 && row.comment == Some(v.comment.GetOr(""))
    ensures r.outcome.Created? ==>
              && r.outcome.row == r.store.expenses[|s.expenses|]
              && r.outcome.row.id != 0
              && r.outcome.typeRow in s.types && r.outcome.typeRow.id == v.typeId
    ensures r.outcome.Created? <==>
              HasType(s.types, v.typeId) && s.nextExpenseId != 0
              && InsertFits(s, s.nextExpenseId, v.cost, v.comment.GetOr(""))
  {
    match FindType(s.types, v.typeId)
    case None => Saved(InvalidTypeId, s)
    case Some(t) =>
      var id := s.nextExpenseId;
      var comment := v.comment.GetOr("");
      var drawn := s.(nextExpenseId := id + 1);
      if !InsertFits(s, id, v.cost, comment) then Saved(InsertFailed, drawn)
      else
        var row := ExpenseRow(id, Some(v.date), t.id, v.cost, Some(comment));
        var inserted := drawn.(expenses := s.expenses + [row]);
        if id == 0 then Saved(NoIdReturned, inserted)
        else Saved(Created(row, t), inserted)
  }

  /** Every row `create` inserts gets a fresh id, and the store stays valid
      whichever way `create` ends. */
  lemma CreateKeepsValid(s: Store, v: ValidatedCreate)
    requires Valid(s)
    ensures Valid(Create(s, v).store)
    ensures Create(s, v).outcome.Created? ==> !HasExpense(s.expenses, Create(s, v).outcome.row.id)
  {
    var r := Create(s, v);
    if r.outcome.Created? || r.outcome.NoIdReturned? {
      var row := r.store.expenses[|s.expenses|];
      assert r.store.expenses == s.expenses + [row];
      assert HasType(s.types, row.typeId);
      forall e | e in r.store.expenses ensures HasType(r.store.types, e.typeId) && e.id < r.store.nextExpenseId {
        if e != row { assert e in s.expenses; }
      }
      assert ExpenseIdsUnique(r.store.expenses) by {
        forall i, j | 0 <= i < j < |r.store.expenses| ensures r.store.expenses[i].id != r.store.expenses[j].id {
          if j == |s.expenses| {
            assert r.store.expenses[i] in s.expenses;
          }
        }
      }
    }
  }
}
