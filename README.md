# Employee directory API, modelled in Dafny

A Django REST Framework service keeps employee records in a MongoDB collection through
MongoEngine. Each record has an `employee_id` (the identity key, unique in the collection),
`name`, `department`, `salary`, `joining_date` and a list of `skills`. The service offers
create, retrieve, partial update and destroy by `employee_id`. It also has a paginated listing,
newest hires first, optionally limited to one department. Finally it has a search by skill and the
average salary per department.

This project models that core in six modules:

- `Options` (options.dfy): the `Option` and `Result` wrappers.
- `Calendar` (calendar.dfy): proleptic Gregorian dates as Python's `date` represents them, their
  order, and the `YYYY-MM-DD` rendering with its parser.
- `Models` (models.dfy): the `Employee` document (employees/models.py). This covers its declared
  field bounds, the field validator `validate_salary`, the fail-fast `clean`, the full set of
  save-time checks, and `to_json`.
- `Serializers` (serializers.dfy): `EmployeeSerializer`. This covers field-level validation (the
  `CharField` blank and length rules, the list field's per-item errors, the two `validate_*` hooks,
  required-field handling in full and partial mode), the `setattr` merge used by `update`, and
  the construction used by `create`.
- `Queries` (queries.dfy): the read side of the collection. This covers lookup by id, the
  department filter, the newest-first ordering, the pagination class and Django's paginator, the
  skill search, and the per-department average.
- `Views` (views.dfy): `EmployeeViewSet`. `list` and `search` are functions over the collection.
  `create`, `retrieve`, `update` and `destroy` are methods of `EmployeeStore`, which holds the
  collection as a sequence of documents in natural order. A ghost map `Records()` views that
  sequence keyed by `employee_id`. The class invariant `Valid()` says the unique index holds and
  every stored document passed the save-time checks.

`today` is a parameter wherever the source reads the clock. Salaries are `real`.

Three behaviours of the code shape the model:
- `clean` reports only the first violated rule (salary, date, id, name).
- A partial update may change `employee_id`. A clash with another record then escapes the view
  as an unhandled `NotUniqueError`, which is `ServerError(NotUnique)` here.
- `create` catches only `NotUniqueError`. A document the model's own checks refused would escape as
  a server error. `Views.EmployeeStore.Create` proves that this cannot happen after the serializer
  has accepted the body.

## Model

| member | source | states |
|---|---|---|
| `Models.ValidateSalary` | employees/models.py:4-6 | the field validator refuses exactly the negative salaries, so 0 is accepted |
| `Models.Clean` | employees/models.py:36-52 | no error exactly when none of the four rules is violated; otherwise the reported error is the first violated rule in the order salary, date, id, name |
| `Models.CleanBoundaries` | employees/models.py:39-44 | a salary of 0 and a joining date equal to today both pass `clean` |
| `Models.CleanPasses` | employees/models.py:36-52 | `clean` passes exactly when salary ≥ 0, the date is not after today, and id and name are non-empty |
| `Models.LongSkills` | employees/models.py:14 | lists exactly the indices of skills longer than 50 characters, in increasing order |
| `Models.LengthErrors` | employees/models.py:9-11 | no length error exactly when id ≤ 20, name ≤ 100 and department ≤ 100 characters |
| `Models.SkillErrors` | employees/models.py:14 | no skill error exactly when every skill is ≤ 50 characters; each error names an offending index |
| `Models.DocumentErrors` | employees/models.py:9-14 | `save()` validation passes exactly when the document is within all declared bounds, salary ≥ 0, id and name non-empty and the date not after today; when `clean` fails, its error comes first |
| `Models.ToJson` | employees/models.py:25-34 | id, name, department, salary and skills are copied unchanged; the date is rendered as text that parses back to the same date |
| `Models.ToJsonRoundTrip` | employees/models.py:25-34 | reading the JSON form back gives the original document |
| `Models.ToJsonInjective` | employees/models.py:25-34 | two documents with the same JSON form are the same document |
| `Calendar.DaysInMonth` | employees/models.py:13 | month lengths are between 28 and 31, and 29 exactly for February of a leap year |
| `Calendar.AfterIsStrictTotalOrder` | employees/models.py:43 | the date comparison used by `clean` is a strict total order |
| `Calendar.ParsePadDigits` | employees/models.py:32 | a zero-padded decimal field parses back to its number |
| `Calendar.FormatIsoDate` | employees/models.py:32 | the rendering is 10 characters: 4 digits, `-`, 2 digits, `-`, 2 digits |
| `Calendar.ParseFormatIsoDate` | employees/models.py:32 | parsing a rendered date gives back the date |
| `Calendar.FormatIsoDateInjective` | employees/models.py:32 | distinct dates render differently |
| `Serializers.EveryFieldDeclared` | employees/serializers.py:6-13 | every field name is among the six declared fields |
| `Serializers.AttrOf` | employees/serializers.py:36-37 | reading attribute `f` of a document gives an entry keyed `f` |
| `Serializers.EmployeeExtensionality` | employees/serializers.py:6-13 | documents agreeing on all six attributes are equal |
| `Serializers.SetAttr` | employees/serializers.py:37 | `setattr` sets the named attribute to the value and leaves every other attribute unchanged |
| `Serializers.Lookup` | employees/serializers.py:36 | an entry for `f` is found exactly when the data has a key `f`, and it is one of the data's entries |
| `Serializers.Merge` | employees/serializers.py:34-39 | after applying validated data, every attribute holds the data's value for its key if present and its previous value otherwise |
| `Serializers.ApplyAttrs` | employees/serializers.py:36-37 | the `setattr` loop computes exactly `Merge` of the instance and the validated data |
| `Serializers.PayloadRecord` | employees/serializers.py:27-32 | a body with all six fields describes the document whose attributes are the supplied values |
| `Serializers.Overlay` | employees/views.py:60-63 | each attribute is the body's value if supplied and the stored value otherwise |
| `Serializers.CharField` | employees/serializers.py:6-8 | a string is accepted unchanged exactly when it is non-empty, within `max_length` and free of U+0000; an empty string is reported as blank first, then a too-long string, then a null character |
| `Serializers.ValidateSalary` | employees/serializers.py:15-19 | rejects exactly the negative salaries and returns any other value unchanged |
| `Serializers.ValidateJoiningDate` | employees/serializers.py:21-25 | rejects exactly the dates after today and returns any other date, today included, unchanged |
| `Serializers.ChildErrors` | employees/serializers.py:11-13 | reports an error for exactly the skills the child `CharField` refuses, each tagged with its index and the child's error |
| `Serializers.SkillsListField` | employees/serializers.py:11-13 | the list is accepted unchanged exactly when every skill passes the child field |
| `Serializers.CheckAttr` | employees/serializers.py:6-25 | a supplied value is accepted exactly when its field accepts it: the three strings non-empty, within 20/100/100 characters and free of U+0000, salary ≥ 0, date not after today, every skill non-empty, within 50 characters and free of U+0000; an accepted value is returned unchanged |
| `Serializers.RunField` | employees/serializers.py:6-25 | an absent field is skipped in partial mode and required otherwise; a supplied field is valid exactly when its checks pass, and then it carries the supplied value |
| `Serializers.ValidatedData` | employees/serializers.py:6-25 | holds exactly the entries of fields that validated, one per field |
| `Serializers.Errors` | employees/serializers.py:6-25 | holds exactly the error of each field that failed |
| `Serializers.IsValid` | employees/views.py:37-38 | the body is accepted exactly when no field fails; the validated data then has one entry per accepted field, and a full validation implies all six fields were supplied; a refusal lists at least one error, and exactly the failing fields' errors |
| `Serializers.NegativeSalaryAndFutureDate` | employees/serializers.py:15-25 | a body with salary -1 and a future joining date is refused; the salary's only error is the negative salary and the date's only error is the future date |
| `Serializers.DeclaredFieldsErrors` | employees/serializers.py:6-25 | running the six declared fields gives no errors exactly when no field fails |
| `Serializers.NoRefusalComplete` | employees/serializers.py:6-13 | if full validation refuses no field, every field was supplied |
| `Serializers.ValidatedLookup` | employees/views.py:62 | in the validated data, the entry for each field is exactly what the body supplied |
| `Serializers.UpdateAppliesSuppliedFields` | employees/views.py:60-63 | the view's `setattr` loop over partially validated data changes exactly the supplied fields |
| `Serializers.Construct` | employees/serializers.py:27-32 | the constructed document has, for every field, the value the validated data gives |
| `Serializers.CreateBuildsPayloadRecord` | employees/views.py:40 | validated data covers all six fields and builds exactly the document the body describes |
| `Serializers.DocumentErrorsByField` | employees/models.py:9-14 | the document's save checks pass exactly when each attribute passes its own check |
| `Serializers.AcceptedIsSaveable` | employees/serializers.py:6-25 | a value the serializer accepts also passes the document's own check for that field |
| `Serializers.CreatedRecordSaveable` | employees/views.py:38-41 | a document built from a fully validated body passes every save-time check |
| `Serializers.UpdatedRecordSaveable` | employees/views.py:61-64 | a stored document whose date is not after today still passes every save-time check after a validated partial update |
| `Queries.Find` | employees/views.py:50 | finds a position holding the id, and finds none exactly when no document has it |
| `Queries.FindUnique` | employees/views.py:50 | with unique ids, the lookup returns the one document with that id |
| `Queries.Index` | employees/models.py:9 | the map view of the collection has exactly the stored ids as keys |
| `Queries.IndexAt` | employees/models.py:9 | with unique ids, each stored document is the map's entry for its id |
| `Queries.FindIndex` | employees/views.py:50 | an id is in the map exactly when the lookup finds it, and the map's entry is the found document |
| `Queries.IdsAppend` | employees/views.py:40-41 | inserting a document adds exactly its id to the set of ids |
| `Queries.IndexAppend` | employees/views.py:40-41 | inserting a document with a fresh id keeps ids unique and adds exactly that entry |
| `Queries.IdsRemove` | employees/views.py:73-74 | removing a document keeps ids unique and drops exactly its id |
| `Queries.IndexRemove` | employees/views.py:73-74 | removing a document keeps ids unique and removes exactly its entry |
| `Queries.ReplaceKeepsUnique` | employees/views.py:64 | overwriting a document with its own id or a fresh one keeps ids unique |
| `Queries.IdsReplace` | employees/views.py:64 | overwriting a document replaces its id by the new one in the set of ids |
| `Queries.IndexReplaceKeys` | employees/views.py:64 | after an overwrite the map's keys lose the old id and gain the new one |
| `Queries.IndexReplaceOther` | employees/views.py:64 | after an overwrite every other id still maps to its previous document |
| `Queries.IndexReplace` | employees/views.py:64 | overwriting removes the old id's entry and adds the new document under its id, leaving every other entry unchanged |
| `Queries.DepartmentFilter` | employees/views.py:24-25 | a missing or empty `department` parameter means no filter; any other value is the filter |
| `Queries.FilterByDepartment` | employees/views.py:25-28 | keeps exactly the documents of the department, with their multiplicities, and everything when there is no filter |
| `Queries.InsertByDate` | employees/views.py:26 | inserting into a newest-first sequence keeps it newest first and adds exactly that document |
| `Queries.PrependNewestFirst` | employees/views.py:26 | a document not older than any element of a newest-first sequence can lead it |
| `Queries.HeadLeadsRest` | employees/views.py:26 | when an inserted document is older than the head, no remaining element is newer than the head |
| `Queries.SortNewestFirst` | employees/views.py:26 | the result is in non-increasing joining-date order and is a permutation of the input |
| `Queries.Listing` | employees/views.py:24-28 | newest first, and exactly the department's documents (all documents without a filter) with their multiplicities |
| `Queries.PageSize` | employees/views.py:10-13 | the page size is 5 when none or a non-positive one is requested, the requested one up to 50 otherwise, and always between 1 and 50 |
| `Queries.PageCount` | employees/views.py:30-31 | there is always at least one page |
| `Queries.PageCountBounds` | employees/views.py:30-31 | the page count is the least number of pages that holds the listing (an empty listing has one page) |
| `Queries.PageNumberOf` | employees/views.py:30-31 | a number resolves to itself exactly when it is between 1 and the page count; "last" resolves to the page count, an absent parameter to page 1, and a non-number to no page |
| `Queries.PageBottom` | employees/views.py:30-31 | page `k` starts at position `(k - 1) * size`, inside the listing unless it is empty |
| `Queries.PageSlice` | employees/views.py:30-31 | page `k` holds at most `size` documents, the ones at consecutive positions from `(k - 1) * size` |
| `Queries.Paginate` | employees/views.py:30-31 | a page is returned exactly when the requested page exists, and it is that page's slice |
| `Queries.PageKeepsOrder` | employees/views.py:26-31 | a page of a newest-first listing is newest first and holds only listed documents |
| `Queries.TwelveDocumentsThreePages` | employees/views.py:11 | twelve documents at the default size make three pages of 5, 5 and 2 |
| `Queries.PageSizes` | employees/views.py:30-31 | every page before the last is full, and no page of a non-empty listing is empty |
| `Queries.PagesUpToPrefix` | employees/views.py:30-31 | the first `k` pages concatenated are the listing's first documents in order |
| `Queries.PagesPartitionListing` | employees/views.py:30-31 | the pages of one listing concatenate back to it, so within one fixed order no document is lost or repeated |
| `Queries.WithSkill` | employees/views.py:95 | keeps exactly the documents whose skills contain the string, with their multiplicities |
| `Queries.Departments` | employees/views.py:83 | lists each department present exactly once |
| `Queries.Headcount` | employees/views.py:83 | a department's count is positive exactly when it has a document |
| `Queries.AverageSalaries` | employees/views.py:82-86 | one row per department, no department twice; each row's department is present and its value is that department's mean salary |
| `Queries.RowsFollowDepartments` | employees/views.py:82-86 | one row per entry of `Departments`, in that order |
| `Queries.EveryDepartmentHasRow` | employees/views.py:82-86 | every department of a stored document has a row |
| `Queries.OneRowPerDepartment` | employees/views.py:82-86 | a department has a row exactly when some document belongs to it |
| `Queries.PayrollBounds` | employees/views.py:83 | a department's total lies between its headcount times the lowest and highest salary |
| `Queries.AverageWithinSalaryRange` | employees/views.py:83 | a department's average lies between its lowest and highest salary |
| `Queries.AveragesNonNegative` | employees/views.py:82-86 | when every stored salary is non-negative, every average is non-negative |
| `Queries.AverageExample` | employees/views.py:82-86 | salaries 100 and 200 in Eng and 50 in Ops average to 150 and 50 |
| `Views.List` | employees/views.py:23-33 | not found exactly when the requested page does not exist; otherwise the count is the filtered total and the results are exactly that page of the department's newest-first listing, so at most the effective page size, newest first, only stored documents of the department |
| `Views.Search` | employees/views.py:91-97 | a missing or empty skill is refused; otherwise the result holds exactly the stored documents listing that skill, each as many times as it is stored |
| `Views.AppendStorable` | employees/views.py:41 | appending a document that passed the save checks keeps every stored document valid |
| `Views.ReplaceStorable` | employees/views.py:64 | overwriting a document with one that passed the save checks keeps every stored document valid |
| `Views.EmployeeStore.constructor` | employees/models.py:16-23 | an empty collection satisfies the invariant |
| `Views.EmployeeStore.Insert` | employees/views.py:40-41 | `save()` of a new document refuses it with its validation errors, then with a duplicate key if its id is stored, and otherwise appends it; the invariant is kept and the map gains exactly that entry |
| `Views.EmployeeStore.Overwrite` | employees/views.py:64 | `save()` of a changed document refuses it with its validation errors, then if it takes another record's id, and otherwise replaces it in place; the map loses the old id and gains the new entry, nothing else changes |
| `Views.EmployeeStore.SerializerCreate` | employees/serializers.py:27-32 | builds the document from validated data and saves it as `Insert` does |
| `Views.EmployeeStore.SerializerUpdate` | employees/serializers.py:34-39 | applies validated data by the `setattr` loop and saves the result as `Overwrite` does |
| `Views.EmployeeStore.Create` | employees/views.py:36-45 | an invalid body gets its validation errors and nothing is written; a valid body with a taken id gets `DuplicateKey` and nothing is written; otherwise the described document is created and added under its id; a server error cannot happen |
| `Views.EmployeeStore.Retrieve` | employees/views.py:48-54 | the stored document with that id, or not found when none has it |
| `Views.EmployeeStore.Update` | employees/views.py:57-68 | an unknown id is not found and an invalid body gets its errors, both writing nothing; otherwise exactly the supplied fields change, other records are untouched, and a refused save is a server error that writes nothing; a record whose date is not after today is never refused by the document checks |
| `Views.EmployeeStore.Destroy` | employees/views.py:71-77 | an unknown id is not found and nothing changes; otherwise exactly that id's record is removed and the others keep their order |
| `Views.CreateThenRetrieve` | employees/views.py:36-54 | after a successful create, retrieving its id gives exactly the created field values |
| `Views.CreateTwice` | employees/views.py:40-44 | after a successful create, creating the same body again gives `DuplicateKey` and writes nothing |

## Left out

- Authentication (`IsAuthenticated` with JWT) is done by an outside collaborator and is not modelled.
- HTTP status codes, DRF `Response` objects and error message texts are not modelled. Each outcome is a
  constructor of `Views.Response`.
- The paginator's `next`/`previous` links and URL building are not modelled. `Views.List` returns
  the count and the page only.
- Parsing of query parameters and request bodies is not modelled. The `page_size` parameter arrives
  as an optional integer; one that is not a number behaves like a missing one. The `page` parameter
  arrives as a `PageRequest`. Dates and salaries in the body arrive already parsed.
- MongoDB internals are replaced by operations on a sequence of documents: query execution,
  aggregation-pipeline syntax, and index creation (setup_index.py is not part of this model).
- The order of documents with equal joining dates is not pinned by the source. `Queries.Listing`
  promises only newest-first order and the right documents, so tie order is left open there.
- `Views.List` orders documents with equal joining dates by their natural order, the same on every
  request. MongoDB promises no order for equal sort keys, not even the same one on two requests.
  `Queries.PagesPartitionListing` therefore holds for the program only when every page request
  sees the ties in one fixed order.
- The row order of `avg_salary` is not pinned by the source. `Queries.AverageSalaries` promises one
  row per department in some order.
- `Models.ToJson` pads years before 1000 to four digits, as `YYYY-MM-DD` requires. The platform's
  `strftime` may not pad them.
- `Serializers.CharField` does not model `trim_whitespace`: surrounding whitespace is not
  stripped, so a body of only spaces is not seen as blank.
- `Serializers.CharField` reports one problem per string. A string that is both too long and
  contains U+0000 is reported as too long only, while DRF lists both messages. Acceptance is the same.
- `Serializers.IsValid` does not model DRF's non-field errors or unknown keys in the body. The
  serializer has no object-level `validate`, and it ignores unknown keys.
- Float rounding of `salary` and of the `$avg` result is not modelled. Salaries and averages are
  exact `real`s.
- `Models.Storable` and `Queries.AveragesNonNegative` hold for the program only for finite salaries.
  DRF's `FloatField` turns a body salary of `"NaN"` into `nan`. `nan < 0` is false, so the checks at
  employees/serializers.py:17, employees/models.py:5 and employees/models.py:39 all let it through and it
  would be stored. A `real` salary has no such value.
- Clocks: `datetime.now()` and `date.today()` are the parameter `today`.
- Documents are values, not shared objects. `update` mutating the fetched document in place is the
  store replacing that document.
- Concurrent requests and partial writes are not modelled. Each view runs to completion on its own.
