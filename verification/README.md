# Budget calculator: a Dafny model

The budget calculator records household expenses and compares them with monthly limits. Its Django backend stores them in two SQL Server tables:

- `TYPES`: a spending category with a name and an optional monthly limit.
- `EXPENSES`: a date, a type, an amount and a short comment. The id comes from the sequence `SEQ_EXPENSES`.

The backend offers five endpoints:

- the expense overview, listing all expenses or one by id;
- the monthly summary per type;
- creating an expense;
- the list of types;
- changing a type's limit.

The React frontend shows the overview and the summary in a table that can be filtered, sorted and paged. It flags months that went over the limit. It has a form for entering several expenses at once and a page for editing limits.

This project models that core as pure functions over immutable data and proves what each operation promises.

| file | module | models |
|---|---|---|
| base.dfy | `Base` | `Option`, the SQL `INT` range, `NVARCHAR(50)` strings |
| text.dfy | `Text` | decimal numerals, Python `int()`, JavaScript `parseInt`, ASCII `toLowerCase`, `includes`, string order |
| dates.dfy | `Dates` | calendar dates, `yyyy-mm-dd` and the `yyyy-mm` month key |
| sorting.dfy | `Sorting` | a stable sort by a "comes before" relation, with its order, permutation and sum lemmas |
| models.dfy | `Models` | the two tables, lookups by primary key, the cascading delete of a type |
| orders.dfy | `Orders` | SQL Server's descending order, with NULL lowest |
| serializers.dfy | `Serializers` | the response shapes, the field validation of the create request, `ExpenseCreateSerializer.create` |
| summary.dfy | `Summary` | the join, grouping, summing and ordering of the monthly summary query |
| views.dfy | `Views` | the five endpoints with their status codes and error bodies |
| table.dfy | `Table` | `EnhancedTable`: filter, then sort, then one page |
| new_expense.dfy | `NewExpense` | the multi-row expense form, its checks and its requests |
| home.dfy | `Home` | the over-limit flag of the summary table |
| limits.dfy | `Limits` | the limit editor: its negative guard and the value it sends |

## How the model maps the system

**The store.** The database is a `Store`: a sequence of type rows, a sequence of expense rows, and the next value of `SEQ_EXPENSES`. Nullable columns are `Option`s. Column types are subset types: `INT` is `Int32`, `NVARCHAR(50)` is `Varchar50`, and `DATE` is `CalendarDate`. Inserting a value outside its column makes the statement fail.

**Responses.** Each endpoint returns an `Answer`, which pairs the response with the store afterwards. The response is `Ok`, or `Fail` with a status and an error body. Every `except Exception` in the views becomes `Fail(InternalServerError, …)` on the branches where the code can raise: an unparseable id, a lookup by id that finds more than one row, an out-of-range `INT`, or a failed INSERT. The lookup of one expense runs the same inner join as the list, so an expense whose type row is missing is answered with 404, like an unknown id.

**Ordering.** The ORDER BY clauses leave ties unspecified. The contracts therefore say only that the result is a permutation, sorted by the stated key. The body uses a stable insertion sort. Stability is proved for the frontend table sort, where `Array.prototype.sort` guarantees it.

**The frontend.** The frontend functions take their React state as an argument and return the new state. `new Date()` becomes a `today` parameter.

## Model

| member | source | states |
|---|---|---|
| Models.FindType | backend/budgetcalculator/expenses/views.py:254 | the lookup by primary key finds a row with that id exactly when one exists |
| Models.FindTypeUnique | backend/budgetcalculator/expenses/models.py:6 | with unique type ids, the lookup returns the very row with that id |
| Models.FindExpense | backend/budgetcalculator/expenses/views.py:63 | the lookup of an expense finds a row with that id exactly when one exists |
| Models.TypeLabel | backend/budgetcalculator/expenses/models.py:14-15 | a type shows its name, or "Type <id>" when the name is NULL or empty; the label is never empty |
| Models.DeleteType | backend/budgetcalculator/expenses/models.py:21 | deleting a type removes it and exactly the expenses that point to it (ON DELETE CASCADE); everything else stays |
| Models.DeleteTypeKeepsValid | backend/budgetcalculator/expenses/models.py:19-21 | after a cascading delete every expense still points to an existing type and ids stay unique |
| Dates.IsoDateRoundTrip | backend/budgetcalculator/expenses/serializers.py:23 | a date written as `yyyy-mm-dd` parses back to the same date |
| Dates.IsoDateCanonical | backend/budgetcalculator/expenses/serializers.py:23 | every string the date parser accepts is the `yyyy-mm-dd` form of the date it yields |
| Dates.MonthKeySame | backend/budgetcalculator/expenses/views.py:102 | two dates share a `yyyy-mm` key exactly when year and month agree |
| Dates.MonthKeyLess | backend/budgetcalculator/expenses/views.py:110-114 | ordering the `yyyy-mm` keys as strings is chronological order |
| Dates.IsoDateLess | frontend/budgetcalculator-frontend/src/App.js:156-164 | comparing `yyyy-mm-dd` strings as text, as the table does for the date column, is calendar order |
| Serializers.ToOverviewItem | backend/budgetcalculator/expenses/serializers.py:5-13 | an overview item carries the expense's date, cost and comment and its type's name |
| Serializers.ToTypesListItem | backend/budgetcalculator/expenses/serializers.py:94-101 | a types-list item carries the type's id, name and limit |
| Serializers.CostWritten | backend/budgetcalculator/expenses/serializers.py:25-36 | the amount stored is `osszeg` when `cost` is absent, NULL when `cost` is null, and `cost` when it is given |
| Serializers.ValidateCreate | backend/budgetcalculator/expenses/serializers.py:22-36 | the request is accepted exactly when `datum`, `typeId` and `osszeg` are present and well formed, `leiras` is absent or a string and `cost` is absent, null or an integer; otherwise each bad field has its own error and no other; the comment is stored stripped of surrounding whitespace, and a given or null `cost` replaces `osszeg` |
| Serializers.CommentIsStripped | backend/budgetcalculator/expenses/serializers.py:26 | in any otherwise valid request, a comment with any whitespace before and after it is accepted and stored without that whitespace |
| Serializers.CostOverridesOsszeg | backend/budgetcalculator/expenses/serializers.py:25-36 | the model field `cost` listed in `fields` is writable: a request carrying it stores that value, or NULL, instead of `osszeg` |
| Serializers.PaddedCommentFits | backend/budgetcalculator/expenses/serializers.py:26 | in any otherwise valid request, a comment of up to 50 characters followed by any amount of whitespace is accepted and stored as those characters alone, so it fits the column |
| Text.TrimDropsTrailingSpaces | backend/budgetcalculator/expenses/serializers.py:26 | stripping a string with no whitespace at either end, followed by any run of whitespace, gives back that string |
| Text.TrimStartSkipsSpaces | backend/budgetcalculator/expenses/serializers.py:26 | stripping the front removes any run of whitespace before a string that does not start with whitespace, and nothing else |
| Text.TrimEndSkipsSpaces | backend/budgetcalculator/expenses/serializers.py:26 | stripping the end removes any run of whitespace after a string that does not end with whitespace, and nothing else |
| Text.TrimPadded | backend/budgetcalculator/expenses/serializers.py:26 | stripping a string with no whitespace at either end, padded with any whitespace on both sides, gives back that string; whitespace alone strips to the empty string |
| Text.TrimIdempotent | backend/budgetcalculator/expenses/serializers.py:26 | stripping whitespace twice is the same as stripping it once |
| Serializers.Create | backend/budgetcalculator/expenses/serializers.py:38-78 | an unknown type leaves the store untouched; otherwise the sequence advances; the row is appended with the drawn id and the given fields exactly when the INSERT fits; it is reported as created exactly when that id is non-zero |
| Serializers.CreateKeepsValid | backend/budgetcalculator/expenses/serializers.py:48-57 | creating an expense keeps ids unique and every expense pointing to a type, and a created row's id was unused |
| Summary.Summarize | backend/budgetcalculator/expenses/views.py:99-116 | one row per month/type-name/limit group that some joined expense falls into and no other; each row's sum is the group's cost total, NULL exactly when all its costs are NULL; newest month first, then larger sum first |
| Summary.SummaryConservesCost | backend/budgetcalculator/expenses/views.py:104-108 | the sums over all summary rows add up to the costs of all expenses whose type exists |
| Summary.SummaryOrderIsStrictWeak | backend/budgetcalculator/expenses/views.py:113-115 | the summary ordering (month descending, NULL last, then sum descending) is a strict weak order |
| Views.JoinedById | backend/budgetcalculator/expenses/views.py:63 | the lookup by id yields only pairs of an expense with that id and its type row, and none exactly when no expense with that id has a type row |
| Views.JoinedByIdAtMostOne | backend/budgetcalculator/expenses/views.py:63 | with unique expense ids the lookup finds at most one row |
| Views.ExpenseOverview | backend/budgetcalculator/expenses/views.py:53-81 | without an id: every expense with a type, newest first; with an id: 404 exactly when no expense with that id joins a type row, the one item when one does and ids are unique, and 500 otherwise; an id that is not an integer gives 500 |
| Views.ExistingExpenseFound | backend/budgetcalculator/expenses/views.py:61-65 | in a valid store every existing expense id is found |
| Views.OrphanExpenseNotFound | backend/budgetcalculator/expenses/views.py:61-70 | an expense whose type row is missing is answered with 404 although its row exists |
| Views.OverviewListsEveryExpense | backend/budgetcalculator/expenses/views.py:72-74 | in a valid store the overview lists every expense, one item each |
| Views.ExpenseSummary | backend/budgetcalculator/expenses/views.py:93-137 | the summary answers 200 with the sorted rows exactly when every group total fits in INT, and 500 otherwise |
| Views.CreatedBody | backend/budgetcalculator/expenses/views.py:173-179 | the answer carries the new id, the type's name, and the validated date, amount and comment, a missing comment as '' |
| Views.CreatedBodyMatchesRow | backend/budgetcalculator/expenses/views.py:172-179 | the answer to a successful create describes the inserted row: same id, date, amount and comment, and the name of its type |
| Views.CreateExpenseAsWritten | backend/budgetcalculator/expenses/views.py:163-189 | as written: an invalid body gives 400 with the field errors, a valid one 200 exactly when the type exists and the INSERT fits with a non-zero id, and an unknown type id gives 500; the types never change and no stored expense is lost |
| Views.UnknownTypeIsServerError | backend/budgetcalculator/expenses/views.py:184-189 | a well-formed request naming a type that does not exist is answered with 500 |
| Views.CreateExpense | backend/budgetcalculator/expenses/serializers.py:77-78 | 200 exactly when the body validates, the type exists and the INSERT fits with a non-zero id; the body echoes the stored row; an unknown type gives 400 `{"typeId": "Invalid type id"}` |
| Views.CreateExpenseDiffersOnlyOnUnknownType | backend/budgetcalculator/expenses/views.py:168-172 | the written and the corrected endpoint agree on every request except a valid one with an unknown type id |
| Views.CreateExpenseThenOverview | backend/budgetcalculator/expenses/views.py:173-180 | after a successful create the store is still valid, and the overview by the returned id gives back the date, type name, cost and comment just sent |
| Views.TypesList | backend/budgetcalculator/expenses/views.py:206-209 | every type appears once, as id/name/limit, ordered by limit descending with NULL limits last |
| Views.UpdateLimit | backend/budgetcalculator/expenses/views.py:236-272 | checks in order: missing or empty parameter 400, not an integer 400, unknown type 404, outside INT 500; otherwise only that type's limit changes |
| Views.UpdateLimitThenRead | backend/budgetcalculator/expenses/views.py:253-259 | after an update the store stays valid and the types list shows the new limit |
| Views.NegativeLimitAccepted | backend/budgetcalculator/expenses/views.py:245-259 | a negative limit is stored and answered with 200: the backend has no range check |
| Views.UpdateLimitIdempotent | backend/budgetcalculator/expenses/views.py:253-256 | repeating an update leaves the store as the first one left it |
| Table.RequestSort | frontend/budgetcalculator-frontend/src/App.js:118-124 | clicking a column sorts by it, descending only when it was already sorted ascending by it |
| Table.RequestSortTwice | frontend/budgetcalculator-frontend/src/App.js:119-122 | two clicks on the sorted column flip the direction and then restore the state |
| Table.FilterChange | frontend/budgetcalculator-frontend/src/App.js:126-130 | one filter is set, all other filters, the sort and the page are untouched |
| Table.ClearFilters | frontend/budgetcalculator-frontend/src/App.js:132-135 | all filters are removed, sort and page kept |
| Table.PageChange | frontend/budgetcalculator-frontend/src/App.js:255 | the requested page is shown; sort, page size and filters are untouched |
| Table.PageChangeKeepsRows | frontend/budgetcalculator-frontend/src/App.js:252-255 | turning the page keeps the count and cuts the new page from the same filtered, sorted rows |
| Table.RowsPerPageChange | frontend/budgetcalculator-frontend/src/App.js:256-259 | a new page size goes back to the first page |
| Table.Filter | frontend/budgetcalculator-frontend/src/App.js:137-143 | exactly the rows passing every filter stay, each as often as before |
| Table.FilterNone | frontend/budgetcalculator-frontend/src/App.js:132-139 | with no filters all rows are shown in their order |
| Table.FilterBlankIsAbsent | frontend/budgetcalculator-frontend/src/App.js:139 | an emptied filter box filters like no filter for that column |
| Table.FilterNarrows | frontend/budgetcalculator-frontend/src/App.js:140-141 | typing more into a filter box never brings a hidden row back |
| Table.SortRows | frontend/budgetcalculator-frontend/src/App.js:145-146 | sorting permutes the rows, and leaves them as they are when no column is chosen |
| Table.ColumnOrderIsStrictWeak | frontend/budgetcalculator-frontend/src/App.js:145-164 | on a column of numbers and empty cells, or on one with no numbers, the comparator is a strict weak order |
| Table.SortRowsStable | frontend/budgetcalculator-frontend/src/App.js:145-146 | the sort is stable, as `Array.prototype.sort` is: on such a column, the rows tied with any row keep their input order |
| Sorting.SortStable | frontend/budgetcalculator-frontend/src/App.js:145-146 | under a strict weak order, the elements tied with any element leave the sort in the order they entered it |
| Table.NumericBefore | frontend/budgetcalculator-frontend/src/App.js:152-154 | on two number-or-empty cells the comparator is numeric order for the chosen direction, empty cells lowest |
| Table.TextBefore | frontend/budgetcalculator-frontend/src/App.js:156-164 | when the two cells are not both numbers, the comparator compares their lower-cased texts, null as '' |
| Table.SortNumericColumn | frontend/budgetcalculator-frontend/src/App.js:152-154 | on a column of numbers the rows come out in numeric order for the chosen direction |
| Table.SortTextColumn | frontend/budgetcalculator-frontend/src/App.js:156-164 | on a text column the rows come out in the order of their lower-cased text, empty cells first when ascending |
| Table.Page | frontend/budgetcalculator-frontend/src/App.js:167-170 | a page holds the rows from position page × size on: page-size of them when there are enough, the rest of the rows on the last page, none past the end |
| Table.PageOfIndex | frontend/budgetcalculator-frontend/src/App.js:167-170 | every row appears on exactly the page its position divided by the page size names |
| Table.View | frontend/budgetcalculator-frontend/src/App.js:137-170 | the shown rows are the current page of the filtered rows sorted by the chosen column; they all pass the filters and come from the input; the count is the number of filtered rows |
| Table.InitialView | frontend/budgetcalculator-frontend/src/App.js:111-115 | a fresh table shows the first ten rows as delivered |
| NewExpense.CheckDraft | frontend/budgetcalculator-frontend/src/App.js:429-460 | a row fails on the first of: a missing field, a future date, an amount whose integer prefix is not positive, a comment over 50 characters |
| NewExpense.ValidateDrafts | frontend/budgetcalculator-frontend/src/App.js:428-461 | submission is blocked exactly when some row fails, reporting the first failing row and its reason |
| NewExpense.OneBadRowBlocks | frontend/budgetcalculator-frontend/src/App.js:428-436 | one failing row blocks the whole submission, at that row or an earlier one |
| NewExpense.DefaultType | frontend/budgetcalculator-frontend/src/App.js:406 | a new row preselects the first type unless there is none or its id is 0 |
| NewExpense.AddExpenseRow | frontend/budgetcalculator-frontend/src/App.js:403-410 | one row is appended with today's date, the default type and empty amount and comment; the other rows are unchanged |
| NewExpense.RemoveExpenseRow | frontend/budgetcalculator-frontend/src/App.js:412-416 | with more than one row, exactly the chosen row goes and the rest keep their order; the last row can never be removed |
| NewExpense.AddThenRemove | frontend/budgetcalculator-frontend/src/App.js:403-416 | adding a row and removing it again restores the rows |
| NewExpense.SetField | frontend/budgetcalculator-frontend/src/App.js:420 | editing one field of a row changes that field and no other |
| NewExpense.UpdateExpense | frontend/budgetcalculator-frontend/src/App.js:418-422 | an edit replaces one field of the chosen row and leaves every other row alone; an index outside the rows changes nothing |
| NewExpense.UpdateExpenseIdempotent | frontend/budgetcalculator-frontend/src/App.js:418-422 | entering the same value twice changes nothing the second time |
| NewExpense.PreselectType | frontend/budgetcalculator-frontend/src/App.js:393-395 | once types load, every row is set to the first type and nothing else changes |
| NewExpense.Payload | frontend/budgetcalculator-frontend/src/App.js:466-471 | the posted body carries the row's date (malformed if it is not a date), its type and amount through `parseInt` (null when there is none), the comment as typed, and no `cost` |
| NewExpense.CheckedDraftAccepted | frontend/budgetcalculator-frontend/src/App.js:463-471 | a row that passes the form's checks, with a real date and a numeric amount, is accepted by the backend's validation with a positive amount, a date not after today and a stripped comment that fits |
| NewExpense.FilledPayloads | frontend/budgetcalculator-frontend/src/App.js:464-471 | the loop posts one body per filled row, in order, and when every row is filled it posts every row's body |
| NewExpense.Send | frontend/budgetcalculator-frontend/src/App.js:463-487 | requests go out in order, each answered in the store the earlier ones left; every answer before the last is a success, the loop stops at the first failure, and all succeed only when every request was sent |
| NewExpense.CreateExpenseKeepsSaved | backend/budgetcalculator/expenses/views.py:168-189 | a create request never changes the types, never loses a stored expense, and adds one row when it succeeds |
| NewExpense.SendKeepsSaved | frontend/budgetcalculator-frontend/src/App.js:463-473 | across the loop the types stay, every expense stored before stays, and each success adds a row |
| NewExpense.HandleSubmit | frontend/budgetcalculator-frontend/src/App.js:424-488 | submission is blocked, sending nothing, exactly when some row fails its checks; otherwise every row's body is posted in order, none skipped, and no stored expense is lost |
| Home.WithStyle | frontend/budgetcalculator-frontend/src/App.js:305-308 | every summary row is kept in place with its over-limit flag |
| Home.NoLimitNeverOver | frontend/budgetcalculator-frontend/src/App.js:307 | a missing or zero limit never flags a row |
| Home.NegativeLimitAlwaysOver | frontend/budgetcalculator-frontend/src/App.js:307 | a negative limit flags every month whose total is not negative, even when all its costs are NULL |
| Home.OverLimitMeansSpentMore | frontend/budgetcalculator-frontend/src/App.js:305-308 | on the summary's rows the flag means the month's recorded costs for that type exceed its non-zero limit |
| Limits.HandleEdit | frontend/budgetcalculator-frontend/src/App.js:650-653 | the editor starts empty for a missing or zero limit and holds the limit otherwise |
| Limits.HandleSave | frontend/budgetcalculator-frontend/src/App.js:655-666 | saving is refused exactly when the value is below zero |
| Limits.SaveNeverNegative | frontend/budgetcalculator-frontend/src/App.js:657-666 | whatever the number field holds, no negative limit is ever sent |
| Limits.WholeNumberSaved | frontend/budgetcalculator-frontend/src/App.js:657-666 | a typed whole number is refused when negative and otherwise sent unchanged |
| Limits.EditThenSave | frontend/budgetcalculator-frontend/src/App.js:650-666 | saving an untouched editor sends 0 for a missing limit and the limit itself when positive; a stored negative limit cannot be saved back |
| Limits.SentLimitIsStored | frontend/budgetcalculator-frontend/src/App.js:98-101 | a limit the page sends reaches `update_limit` as a decimal it parses back, and the type then holds it |

## Left out

- HTTP, JSON encoding, URL routing, logging, Swagger annotations and the Django admin are not modelled. Requests arrive already split into fields, and query parameters arrive as `Option<string>`.
- Database errors other than those modelled (a value outside a column, a duplicate key) are not modelled. Neither are connection failures or concurrent requests. Each request runs alone in autocommit mode.
- Python `int()` on query parameters is modelled as a strict optional sign followed by digits. Surrounding whitespace, `_` separators and non-ASCII digits, which `int()` also accepts, are not modelled.
- Django's lenient date input formats are left out. A `datum` is either a `CalendarDate` or malformed.
- The DRF error body is a list of messages per field. Here each field carries its single message as a string.
- `Expenses.__str__` and the frontend's number and date formatting are display-only and are left out.
- `toLowerCase` is modelled for ASCII letters only. `length` counts code points, not UTF-16 code units.
- Text.LexLess compares strings character by character. JavaScript `<` compares UTF-16 code units, which orders characters above U+FFFF differently. SQL Server orders text by its collation, which may ignore case or accents. The model therefore agrees with both only on the `yyyy-mm` month keys and on other text the two orders happen to agree on. The backend orders text only by month key (Orders.TextDesc), so only the table's text-column sort is affected.
- Limits.BelowZero reads the limit editor's text as an exact decimal. `Number()` rounds it to a double, so a negative value nearer zero than the smallest double (`-0.` followed by several hundred zeros and a `1`) becomes -0 on the page. The page then sends 0, while the model refuses the save.
- Table.SortRows: the comparator is modelled in full. The order it produces is proved only for homogeneous columns, all numbers and empty cells or all text. For a column mixing numbers and text the JavaScript comparator is not a consistent order, and the result depends on the engine.
- `rowsPerPage` from the page-size select is taken as a natural number. Its `parseInt` is not modelled.
- The limit editor's number field is modelled with optional minus, digits and an optional fraction. Exponent notation (`1e3`, which `parseInt` reads as 1) is left out.
- The frontend's `new Date(...)` comparison assumes the browser reads `yyyy-mm-dd` as midnight UTC, and `today` is the current UTC date. Time zones beyond that are not modelled.
- Summary.Summarize requires unique type ids, as the primary key of `TYPES` guarantees.
- Summary.Summarize: type names are grouped as exact strings. SQL Server's GROUP BY ignores trailing spaces and, under a case-insensitive collation, case, so two types named "Food" and "Food " with the same limit form one group there and two groups here. Collations are not modelled.
- Serializers.ValidateCreate: the range validators Django derives for the model field `cost` are not modelled. A `cost` outside `INT` passes validation here and makes the INSERT fail (500) instead of a 400.
- Views.JoinedById joins each expense with the first type row carrying its type id. `TYPES.ID` is the primary key, so there is at most one such row.
- Views.ExpenseSummary requires unique type ids, as the primary key of `TYPES` guarantees.
- Loading states, snackbars, navigation and `setTimeout` are left out.

## Findings

| source | as written | input that shows it | evidently intended | confidence | as-written member | corrected member |
|---|---|---|---|---|---|---|
| backend/budgetcalculator/expenses/views.py:168-189 | `serializer.save()` runs inside `try … except Exception`, so the `ValidationError({"typeId": "Invalid type id"})` raised by `create` for an unknown type is caught and answered with 500 | an empty store and a request with date 2024-05-01, `typeId` 7 and `osszeg` 1200 | 400 Bad Request with `{"typeId": "Invalid type id"}`, the error `create` builds for this case | not executed | Views.CreateExpenseAsWritten | Views.CreateExpense |
