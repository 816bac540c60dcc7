/** The `NewExpense` form of frontend/.../App.js: a list of draft rows, the
    buttons that add and remove rows, the check `handleSubmit` runs before
    sending anything, and the requests it then sends. The current date is a
    parameter (`today`, the UTC calendar date of `new Date()`). */
module NewExpense {
  import opened Base
  import opened Text
  import opened Dates
  import opened Models
  import opened Serializers
  import opened Views

  /** The type select's value: `''` until a type is chosen, then the numeric
      `typeId` the types list delivered. */
  datatype TypeChoice = NoType | TypeId(id: int)

  /** One card of the form, every field as the inputs hold it. */
  datatype Draft = Draft(datum: string, typeId: TypeChoice, osszeg: string, leiras: string)

  /** Why submitting stops, one per check, in the order they run. */
  datatype Problem = MissingField | FutureDate | NonPositiveAmount | CommentTooLong

  function Message(p: Problem): (m: string) {
    match p
    case MissingField => "Minden kötelező mezőt ki kell tölteni!"
    case FutureDate => "A dátum nem lehet jövőbeli!"
    case NonPositiveAmount => "Az összeg pozitív egész szám kell legyen!"
    case CommentTooLong => "A leírás maximum 50 karakter lehet!"
  }

  /** JavaScript truthiness of the select's value: `''` and the number 0 are
      both false. */
  predicate TypeChosen(c: TypeChoice) {
    c.TypeId? && c.id != 0
  }

  /** `expense.datum && expense.typeId && expense.osszeg`. */
  predicate Filled(d: Draft) {
    d.datum != "" && TypeChosen(d.typeId) && d.osszeg != ""
  }

  /** `new Date(expense.datum) > new Date()`: a `yyyy-mm-dd` string is
      midnight UTC of that day, so it lies in the future exactly when the day
      comes after today. A string that is not a date gives an invalid Date,
      and every comparison with it is false. */
  predicate InFuture(d: Draft, today: CalendarDate) {
    var parsed := ParseIsoDate(d.datum);
    parsed.Some? && Earlier(today, parsed.value)
  }

  /** `parseInt(expense.osszeg) <= 0`; NaN compares false, so an amount
      without leading digits passes. */
  predicate NonPositive(d: Draft) {
    var n := ParseIntPrefix(d.osszeg);
    n.Some? && n.value <= 0
  }

  /** `expense.leiras && expense.leiras.length > 50`. */
  predicate TooLong(d: Draft) {
    |d.leiras| > 50
  }

  /** The checks for one row, the first failing one reported. */
  function CheckDraft(d: Draft, today: CalendarDate): (r: Option<Problem>)
    ensures r.None? <==> Filled(d) && !InFuture(d, today) && !NonPositive(d) && !TooLong(d)
    ensures r == Some(MissingField) <==> !Filled(d)
    ensures r == Some(FutureDate) <==> Filled(d) && InFuture(d, today)
    ensures r == Some(NonPositiveAmount) <==> Filled(d) && !InFuture(d, today) && NonPositive(d)
    ensures r == Some(CommentTooLong) <==> Filled(d) && !InFuture(d, today) && !NonPositive(d) && TooLong(d)
  {
    if !Filled(d) then Some(MissingField)
    else if InFuture(d, today) then Some(FutureDate)
    else if NonPositive(d) then Some(NonPositiveAmount)
    else if TooLong(d) then Some(CommentTooLong)
    else None
  }

  /** The validation loop of `handleSubmit`: the rows in order, stopping at
      the first row that fails, which is reported with its index. */
  function ValidateDrafts(drafts: seq<Draft>, today: CalendarDate): (r: Option<(nat, Problem)>)
    ensures r.None? <==> forall i | 0 <= i < |drafts| :: CheckDraft(drafts[i], today).None?
    ensures r.Some? ==>
              && r.value.0 < |drafts|
              && CheckDraft(drafts[r.value.0], today) == Some(r.value.1)
              && forall i | 0 <= i < r.value.0 :: CheckDraft(drafts[i], today).None?
  {
    if |drafts| == 0 then None
    else
      match CheckDraft(drafts[0], today)
      case Some(p) => Some((0, p))
      case None =>
        var rest := ValidateDrafts(drafts[1..], today);
        if rest.None? then
          assert forall i | 1 <= i < |drafts| :: drafts[i] == drafts[1..][i - 1];
          None
        else
          assert forall i | 1 <= i < rest.value.0 + 1 :: drafts[i] == drafts[1..][i - 1];
          Some((rest.value.0 + 1, rest.value.1))
  }

  /** A problem in one row blocks the whole submission, even when other rows
      are fine. */
  lemma OneBadRowBlocks(drafts: seq<Draft>, today: CalendarDate, i: nat)
    requires i < |drafts| && CheckDraft(drafts[i], today).Some?
    ensures ValidateDrafts(drafts, today).Some?
    ensures ValidateDrafts(drafts, today).value.0 <= i
  {
  }

  /** The default date of a new row, `new Date().toISOString().split('T')[0]`. */
  function TodayString(today: CalendarDate): (r: string) {
    IsoDate(today)
  }

  /** `typesData[0]?.typeId || ''`: the first listed type, unless there is
      none or its id is 0. */
  function DefaultType(types: seq<TypesListItem>): (c: TypeChoice)
    ensures TypeChosen(c) <==> |types| > 0 && types[0].typeId != 0
    ensures TypeChosen(c) ==> c.id == types[0].typeId
  {
    if |types| > 0 && types[0].typeId != 0 then TypeId(types[0].typeId) else NoType
  }

  /** `addExpenseRow`: one new row at the end with today's date, the first
      type, and empty amount and comment; the other rows untouched. */
  function AddExpenseRow(drafts: seq<Draft>, types: seq<TypesListItem>, today: CalendarDate): (r: seq<Draft>)
    ensures |r| == |drafts| + 1 && r[..|drafts|] == drafts
    ensures r[|drafts|].osszeg == "" && r[|drafts|].leiras == ""
    ensures ParseIsoDate(r[|drafts|].datum) == Some(today)
    ensures r[|drafts|].typeId == DefaultType(types)
  {
    IsoDateRoundTrip(today);
    drafts + [Draft(TodayString(today), DefaultType(types), "", "")]
  }

  /** `expenses.filter((_, i) => i !== index)`. */
  function Without(drafts: seq<Draft>, index: int): (r: seq<Draft>)
    ensures 0 <= index < |drafts| ==> r == drafts[..index] + drafts[index + 1..]
    ensures !(0 <= index < |drafts|) ==> r == drafts
  {
    if |drafts| == 0 then []
    else if index == 0 then drafts[1..]
    else
      var rest := Without(drafts[1..], index - 1);
      assert 0 <= index < |drafts| ==> drafts[1..][..index - 1] + drafts[1..][index..] == drafts[1..index] + drafts[index + 1..];
      [drafts[0]] + rest
  }

  /** `removeExpenseRow`: with more than one row, drop row `index`; the last
      remaining row can never be removed. */
  function RemoveExpenseRow(drafts: seq<Draft>, index: int): (r: seq<Draft>)
    ensures |drafts| >= 1 ==> |r| >= 1
    ensures |drafts| > 1 && 0 <= index < |drafts| ==>
              |r| == |drafts| - 1
              && (forall i | 0 <= i < index :: r[i] == drafts[i])
              && (forall i | index <= i < |r| :: r[i] == drafts[i + 1])
    ensures |drafts| <= 1 || !(0 <= index < |drafts|) ==> r == drafts
  {
    if |drafts| > 1 then Without(drafts, index) else drafts
  }

  /** Adding a row and removing it again gives the rows back. */
  lemma AddThenRemove(drafts: seq<Draft>, types: seq<TypesListItem>, today: CalendarDate)
    requires |drafts| >= 1
    ensures RemoveExpenseRow(AddExpenseRow(drafts, types, today), |drafts|) == drafts
  {
    var added := AddExpenseRow(drafts, types, today);
    assert added[..|drafts|] == drafts;
  }

  /** The field an input's `onChange` names, with the value it delivers. */
  datatype FieldValue =
    | DatumValue(datum: string)
    | TypeValue(typeId: TypeChoice)
    | OsszegValue(osszeg: string)
    | LeirasValue(leiras: string)

  /** `updatedExpenses[index][field] = value` on one row: that field takes
      the value, every other field keeps its own. */
  function SetField(d: Draft, value: FieldValue): (r: Draft)
    ensures r.datum == if value.DatumValue? then value.datum else d.datum
    ensures r.typeId == if value.TypeValue? then value.typeId else d.typeId
    ensures r.osszeg == if value.OsszegValue? then value.osszeg else d.osszeg
    ensures r.leiras == if value.LeirasValue? then value.leiras else d.leiras
  {
    match value
    case DatumValue(x) => d.(datum := x)
    case TypeValue(x) => d.(typeId := x)
    case OsszegValue(x) => d.(osszeg := x)
    case LeirasValue(x) => d.(leiras := x)
  }

  /** `updateExpense`: a copy of the rows with one field of row `index`
      replaced, handed to `setExpenses`. For an index outside the rows the
      assignment throws a TypeError before `setExpenses` runs, so the rows
      stay as they were. */
  function UpdateExpense(drafts: seq<Draft>, index: int, value: FieldValue): (r: seq<Draft>)
    ensures |r| == |drafts|
    ensures forall i | 0 <= i < |drafts| && i != index :: r[i] == drafts[i]
    ensures 0 <= index < |drafts| ==> r[index] == SetField(drafts[index], value)
    ensures !(0 <= index < |drafts|) ==> r == drafts
  {
    if 0 <= index < |drafts| then drafts[index := SetField(drafts[index], value)] else drafts
  }

  /** Typing the same value twice changes nothing the second time, and the
      value typed is what the row then holds. */
  lemma UpdateExpenseIdempotent(drafts: seq<Draft>, index: int, value: FieldValue)
    ensures var once := UpdateExpense(drafts, index, value);
            UpdateExpense(once, index, value) == once
  {
  }

  /** `loadTypes`: once types arrive, every row is set to the first one. */
  function PreselectType(drafts: seq<Draft>, types: seq<TypesListItem>): (r: seq<Draft>)
    ensures |r| == |drafts|
    ensures forall i | 0 <= i < |drafts| ::
              r[i] == if |types| > 0 then drafts[i].(typeId := TypeId(types[0].typeId)) else drafts[i]
  {
    if |types| == 0 || |drafts| == 0 then drafts
    else [drafts[0].(typeId := TypeId(types[0].typeId))] + PreselectType(drafts[1..], types)
  }

  /** The body `api.createExpense` posts for a row: `typeId` and `osszeg`
      through `parseInt`, `leiras` as typed. `JSON.stringify` writes NaN as
      null, and the backend reads a date string it cannot parse as a
      malformed field. */
  function Payload(d: Draft): (r: CreateRequest)
    ensures r.datum.Given? <==> ParseIsoDate(d.datum).Some?
    ensures !r.datum.Missing? && !r.datum.Null?
    ensures r.typeId.Null? <==> d.typeId.NoType?
    ensures r.osszeg.Null? <==> ParseIntPrefix(d.osszeg).None?
    ensures r.osszeg.Given? ==> r.osszeg.value == ParseIntPrefix(d.osszeg).value
    ensures r.leiras == Given(d.leiras) && r.cost.Missing?
  {
    var date := ParseIsoDate(d.datum);
    var amount := ParseIntPrefix(d.osszeg);
    CreateRequest(
      if date.Some? then Given(date.value) else Malformed,
      if d.typeId.TypeId? then Given(d.typeId.id) else Null,
      if amount.Some? then Given(amount.value) else Null,
      Given(d.leiras),
      Missing)
  }

  /** A row that passes the form's checks, with a real date and an amount
      that starts with digits, is accepted by the backend's field
      validation, and with a positive amount, a date no later than today and
      a comment that fits the column. */
  lemma CheckedDraftAccepted(d: Draft, today: CalendarDate)
    requires CheckDraft(d, today).None?
    requires ParseIsoDate(d.datum).Some? && ParseIntPrefix(d.osszeg).Some?
    ensures ValidateCreate(Payload(d)).Accepted?
    ensures var v := ValidateCreate(Payload(d)).data;
            && v.cost.Some? && v.cost.value > 0
            && !Earlier(today, v.date)
            && v.typeId == d.typeId.id && v.typeId != 0
            && v.comment == Some(Trim(d.leiras)) && |Trim(d.leiras)| <= 50
  {
  }

  /** The bodies the sending loop of `handleSubmit` posts: one per row that
      has a date, a type and an amount, in the rows' order. */
  function FilledPayloads(drafts: seq<Draft>): (r: seq<CreateRequest>)
    ensures |r| <= |drafts|
    ensures (forall i | 0 <= i < |drafts| :: Filled(drafts[i])) ==>
              |r| == |drafts| && forall i | 0 <= i < |drafts| :: r[i] == Payload(drafts[i])
    ensures forall req | req in r :: exists d | d in drafts :: Filled(d) && req == Payload(d)
  {
    if |drafts| == 0 then []
    else
      var rest := FilledPayloads(drafts[1..]);
      assert forall d | d in drafts[1..] :: d in drafts;
      if Filled(drafts[0]) then [Payload(drafts[0])] + rest else rest
  }

  /** The requests the loop sent, the answer to each, and the store before
      the first and after each request. */
  datatype Submitted = Submitted(answers: seq<Response<CreatedItem>>, stores: seq<Store>)

  /** `api.createExpense` as the loop sees it: the answer to one request and
      the store the backend leaves behind. */
  type Backend = (Store, CreateRequest) -> Answer<CreatedItem>

  /** The sending loop: one awaited request after another, in order. The
      first failing request throws out of the loop, so the later ones are
      never sent, and the expenses already saved stay saved. Each answer is
      what the backend gives the request of the same index in the store the
      requests before it left. */
  function Send(post: Backend, s: Store, reqs: seq<CreateRequest>): (r: Submitted)
    ensures |r.answers| <= |reqs| && |r.stores| == |r.answers| + 1 && r.stores[0] == s
    ensures forall i | 0 <= i < |r.answers| :: post(r.stores[i], reqs[i]) == Answer(r.answers[i], r.stores[i + 1])
    ensures forall i | 0 <= i < |r.answers| - 1 :: r.answers[i].Ok?
    ensures (forall i | 0 <= i < |r.answers| :: r.answers[i].Ok?) ==> |r.answers| == |reqs|
    ensures |r.answers| < |reqs| ==> r.answers[|r.answers| - 1].Fail?
    decreases |reqs|
  {
    if |reqs| == 0 then Submitted([], [s])
    else
      var a := post(s, reqs[0]);
      if a.response.Fail? then
        var r := Submitted([a.response], [s, a.store]);
        assert !r.answers[0].Ok?;
        r
      else
        var rest := Send(post, a.store, reqs[1..]);
        var r := Submitted([a.response] + rest.answers, [s] + rest.stores);
        assert forall j | 0 <= j < |rest.answers| :: rest.answers[j] == r.answers[j + 1];
        assert forall j | 0 <= j < |rest.answers| :: reqs[1..][j] == reqs[j + 1];
        assert forall j | 0 <= j < |rest.stores| :: rest.stores[j] == r.stores[j + 1];
        r
  }

  /** How many of the answers are successes. */
  function OkCount(answers: seq<Response<CreatedItem>>): (n: nat)
    ensures n <= |answers|
    ensures n == |answers| <==> forall i | 0 <= i < |answers| :: answers[i].Ok?
  {
    if |answers| == 0 then 0
    else (if answers[0].Ok? then 1 else 0) + OkCount(answers[1..])
  }

  /** A backend call that leaves the types alone, keeps every expense there
      was, and adds exactly one row when it succeeds. */
  ghost predicate KeepsSaved(post: Backend) {
    forall st: Store, req: CreateRequest ::
      && post(st, req).store.types == st.types
      && |post(st, req).store.expenses| >= |st.expenses|
      && post(st, req).store.expenses[..|st.expenses|] == st.expenses
      && (post(st, req).response.Ok? ==> |post(st, req).store.expenses| == |st.expenses| + 1)
  }

  /** `create_expense` is such a call. */
  lemma CreateExpenseKeepsSaved()
    ensures KeepsSaved(CreateExpenseAsWritten)
  {
  }

  /** Across the whole loop the types are untouched, every expense that was
      there is still there, and each success added one row. */
  lemma {:induction false} SendKeepsSaved(post: Backend, s: Store, reqs: seq<CreateRequest>)
    requires KeepsSaved(post)
    ensures var r := Send(post, s, reqs);
            var last := r.stores[|r.stores| - 1];
            && last.types == s.types
            && |last.expenses| >= |s.expenses| + OkCount(r.answers)
            && last.expenses[..|s.expenses|] == s.expenses
    decreases |reqs|
  {
    if |reqs| > 0 {
      var a := post(s, reqs[0]);
      if a.response.Ok? {
        SendKeepsSaved(post, a.store, reqs[1..]);
        var rest := Send(post, a.store, reqs[1..]);
        var last := rest.stores[|rest.stores| - 1];
        assert ([a.response] + rest.answers)[1..] == rest.answers;
        assert last.expenses[..|s.expenses|] == last.expenses[..|a.store.expenses|][..|s.expenses|];
      }
    }
  }

  /** What pressing the submit button leads to. */
  datatype SubmitOutcome = Blocked(index: nat, problem: Problem) | Posted(result: Submitted)

  /** The body of every row, in order. */
  function PayloadsOf(drafts: seq<Draft>): (r: seq<CreateRequest>)
    ensures |r| == |drafts| && forall i | 0 <= i < |drafts| :: r[i] == Payload(drafts[i])
  {
    if |drafts| == 0 then [] else [Payload(drafts[0])] + PayloadsOf(drafts[1..])
  }

  /** When every row is filled, the loop skips none of them. */
  lemma AllFilledPayloads(drafts: seq<Draft>)
    requires forall i | 0 <= i < |drafts| :: Filled(drafts[i])
    ensures FilledPayloads(drafts) == PayloadsOf(drafts)
  {
  }

  /** `handleSubmit`: the validation loop first, which reports the first bad
      row and sends nothing; otherwise the sending loop. After validation
      every row is filled, so no row is skipped: the loop posts every row's
      body in order. Whatever happens, no expense already stored is lost. */
  function HandleSubmit(s: Store, drafts: seq<Draft>, today: CalendarDate): (r: SubmitOutcome)
    ensures r.Blocked? <==> exists i | 0 <= i < |drafts| :: CheckDraft(drafts[i], today).Some?
    ensures r.Blocked? ==>
              && r.index < |drafts| && CheckDraft(drafts[r.index], today) == Some(r.problem)
              && forall i | 0 <= i < r.index :: CheckDraft(drafts[i], today).None?
    ensures r.Posted? ==>
              && FilledPayloads(drafts) == PayloadsOf(drafts)
              && r.result == Send(CreateExpenseAsWritten, s, PayloadsOf(drafts))
              && var last := r.result.stores[|r.result.stores| - 1];
                 && last.types == s.types
                 && |last.expenses| >= |s.expenses| + OkCount(r.result.answers)
                 && last.expenses[..|s.expenses|] == s.expenses
  {
    match ValidateDrafts(drafts, today)
    case Some((i, p)) => Blocked(i, p)
    case None =>
      assert forall i | 0 <= i < |drafts| :: Filled(drafts[i]);
      AllFilledPayloads(drafts);
      CreateExpenseKeepsSaved();
      SendKeepsSaved(CreateExpenseAsWritten, s, FilledPayloads(drafts));
      Posted(Send(CreateExpenseAsWritten, s, FilledPayloads(drafts)))
  }
}
