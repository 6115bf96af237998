# Employee directory — a verified model

The repository holds two independent browser implementations of a small
employee directory.

- **`app.js`** is a Vue/Vuex single-page app. It has a store of `Employee`
  records with numeric ids and four search filters. A filtered view uses a
  different match rule for each field: the id text is searched for a
  substring, the name case-insensitively, the phone case-sensitively, and
  the department must match exactly. The store also keeps a sorted list of
  departments; add, update and delete operations, where a fresh id is
  `max(ids, 100) + 1`; a merging filter update; and a UI store for the
  record being edited. A form validator reports the first rule that the
  form breaks.
- **`script.js`** is a plain-DOM page of `Record`s with text ids such as
  `E1001`. Every non-blank search criterion is lower-cased, trimmed and
  then searched for as a substring of the equally normalised field. A
  selection that is filtered away is dropped. A reset shows all records
  again. Records are loaded from DummyJSON or JSONPlaceholder, with ids
  `E0001`, `E0002`, … by position. When an `api-` source fails, the
  built-in offline list is loaded instead.

The Dafny modules follow that split:

| module | file | models |
|---|---|---|
| `Wrappers` | wrappers.dfy | `Option`, for missing values (`null`, `undefined`) |
| `Seqs` | seqs.dfy | `Array.prototype.filter` and the subsequence relation |
| `Text` | text.dfy | ECMAScript `trim`, ASCII `toLowerCase`, `includes`, number `toString` and `padStart` |
| `StringOrder` | string_order.dfy | the default `Array.prototype.sort` order (UTF-16 code units) and `[...new Set(xs)].sort()` |
| `EmployeesStore` | employees_store.dfy | the `employeesModule` getters, mutations and `addEmployee`, and the seed data |
| `UiStore` | ui_store.dfy | the `uiModule` editing state |
| `EmployeeApp` | employee_app.dfy | `validateForm`, `submitEmployee`, `deleteEmployee` and `clearSearch` |
| `DirectorySearch` | directory_search.dfy | `normalizeString`, `filterEmployees`, `resetSearch`, `clearSelection` and row selection |
| `DirectoryLoader` | directory_loader.dfy | the two API mappings, `OFFLINE_EMPLOYEES` and `loadEmployeeData` |

Each HTTP request becomes a parameter with the value `Fetched(body)` or
`FetchFailed`. The `confirm` dialog becomes a boolean. Each `setTimeout`
callback is modelled by the state it settles into.

Five behaviours of the code are easy to miss, and the model keeps them:

- Deleting a record in `app.js` does not clear the UI selection, even when
  the deleted record is the selected one.
- Deleting the record being edited leaves the edit open: `isEditing` and
  `editingEmployee` keep their values.
- `loadEmployeeData` can finish with no records. This happens when the
  configured source is neither a known loader nor starts with `api-`. It
  also happens when an API answers with an empty user list.
- The department filter is exact equality in `app.js` but a normalised
  substring test in `script.js`.
- A source that starts with `api-` but names no loader also falls back to
  the offline list.

## Model

| member | source | states |
|---|---|---|
| Seqs.Filter | app.js:95-104 | the kept elements form an order-preserving subsequence of the input; an element is kept exactly when the predicate holds; each kept value occurs as often as in the input |
| Seqs.FilterKeepsAll | app.js:95-104 | when every element passes, filtering returns the sequence unchanged |
| Seqs.FilterIdempotent | script.js:373-378 | filtering a filtered sequence again with the same predicate changes nothing |
| Seqs.FilterDropsRejected | app.js:141-143 | when some element fails the predicate, the result is strictly shorter |
| Seqs.SubsequenceMultiset | app.js:141-143 | a subsequence never holds a value more often than the sequence it comes from |
| Seqs.FilterUnique | app.js:95-104 | any order-preserving subsequence that keeps exactly the accepted values, each as often as in the input, is the filter's result |
| Text.TrimStartDropsWhitespace | script.js:141 | trimming the start removes exactly a whitespace prefix; the result is empty only when the text is all whitespace |
| Text.TrimEndDropsWhitespace | script.js:141 | trimming the end removes exactly a whitespace suffix; the result is empty only when the text is all whitespace |
| Text.TrimCharacterized | script.js:141 | `trim` gives a slice of the text with no whitespace at either end |
| Text.TrimIdempotent | script.js:141 | trimming twice is trimming once |
| Text.TrimEmptyIff | app.js:452 | a text trims to `""` exactly when every character is whitespace |
| Text.ToLower | app.js:99 | lower-casing keeps the length and maps every position through the ASCII case mapping |
| Text.ToLowerIdempotent | script.js:141 | lower-casing twice is lower-casing once |
| Text.TrimLowerCommute | script.js:141 | lower-casing and trimming can run in either order |
| Text.Decimal | app.js:97 | an integer's text is non-empty and all digits, has no leading zero when the number is positive, and is exactly `0` for 0 |
| Text.DecimalRoundTrip | app.js:97 | reading back the digits of a number's text gives the number |
| Text.LeadingZeros | script.js:186 | padding with `0` on the left does not change the number the digits denote |
| Text.DecimalLength | script.js:186 | a number below `10^k` has at most `k` digits |
| StringOrder.RankInjective | app.js:115 | distinct characters compare unequal in the code-unit order |
| StringOrder.StrLessTransitive | app.js:115 | the order `sort` uses on strings is transitive |
| StringOrder.StrLessTotal | app.js:115 | any two distinct strings are ordered one way or the other |
| StringOrder.StrLessIrreflexive | app.js:115 | no string sorts before itself |
| StringOrder.StrLessAsymmetric | app.js:115 | two strings are never each before the other |
| StringOrder.InsertSorted | app.js:114-115 | inserting into a strictly sorted list keeps it strictly sorted and adds exactly the new value |
| StringOrder.SortedSet | app.js:114-115 | de-duplicating and sorting gives a strictly sorted list with exactly the input's values |
| StringOrder.SortedUnique | app.js:114-115 | two strictly sorted lists with the same values are equal |
| EmployeesStore.FilteredEmployees | app.js:92-105 | the view is an order-preserving subsequence of the store; a record shows exactly when it passes all four field rules; each shown record appears as often as in the store |
| EmployeesStore.MatchesFilters | app.js:96-103 | with no filters every record matches; a match with a department filter has exactly that department; a match with a phone filter has a phone at least as long; a record whose lower-cased name lacks the lower-cased name filter does not match |
| EmployeesStore.NoFiltersKeepAll | app.js:92-105 | with all four filters empty the view is the whole store, unchanged |
| EmployeesStore.DeptFilterIsExact | app.js:101 | with a department filter set, every shown record has exactly that department |
| EmployeesStore.NameFilterIgnoresCase | app.js:98-99 | lower-casing both the record's name and the name filter does not change whether the record matches |
| EmployeesStore.FilteredIdempotent | app.js:92-105 | filtering the view again with the same filters gives the same view |
| EmployeesStore.Departments | app.js:113-116 | the department list is strictly sorted, has no duplicates, and holds exactly the departments some record has |
| EmployeesStore.DepartmentsCanonical | app.js:113-116 | any strictly sorted list of exactly the departments present is the getter's list |
| EmployeesStore.FindIndexById | app.js:131-133 | the index found is the first record with that id, or `None` when no record has it |
| EmployeesStore.GetEmployeeById | app.js:108-110 | the record found has that id and no earlier record does; `None` exactly when no record has it |
| EmployeesStore.MaxId | app.js:181 | the value is at least 100, no id exceeds it, and it is 100 or some record's id |
| EmployeesStore.AddEmployee | app.js:179-190 | exactly one record is appended and the others are untouched; its id is greater than every existing id and 101 on an empty store |
| EmployeesStore.UpdateEmployee | app.js:130-138 | the length is kept; only the first record with the id is replaced, and every other position is unchanged |
| EmployeesStore.UpdateAbsentIsNoOp | app.js:134 | when no record has the id, the update changes nothing |
| EmployeesStore.UpdateThenGet | app.js:130-138 | after an update of a present id, looking the id up gives the new record |
| EmployeesStore.UpdateKeepsUniqueIds | app.js:130-138 | an update keeps ids unique |
| EmployeesStore.DeleteEmployee | app.js:141-143 | no record with the id remains; the rest keep their order and multiplicity; the store never grows |
| EmployeesStore.DeleteAbsentIsNoOp | app.js:141-143 | deleting an absent id changes nothing |
| EmployeesStore.DeletePresentShrinks | app.js:141-143 | deleting a present id makes the store strictly shorter, and the id can no longer be looked up |
| EmployeesStore.DeleteKeepsUniqueIds | app.js:141-143 | a delete keeps ids unique |
| EmployeesStore.AddKeepsUniqueIds | app.js:179-190 | adding a record keeps ids unique |
| EmployeesStore.UpdateSearchFilters | app.js:146-148 | each field the patch supplies takes the patch's value, and each field it omits keeps its old value |
| EmployeesStore.MergeComposes | app.js:146-148 | two merges in a row equal one merge with the combined patch |
| EmployeesStore.MergeLaws | app.js:146-148 | merging the same patch twice equals merging it once; an empty patch changes nothing; a full patch gives exactly the patch's values |
| EmployeesStore.ClearSearchFilters | app.js:151-158 | all four filters become `""`, and every record matches the cleared filters |
| EmployeesStore.ClearedFiltersShowAll | app.js:151-158 | after the four filters are set to `""`, the view is the whole store |
| EmployeesStore.InitialIdsConsecutive | app.js:2-67 | the seed has eight records with ids 101 to 108 in order |
| EmployeesStore.InitialUniqueIds | app.js:2-67 | the seed's ids are unique |
| EmployeesStore.InitialNextId | app.js:2-67 | adding to the seed store gives id 109 |
| EmployeesStore.InitialDepartments | app.js:2-67 | the seed store's departments are Engineering, HR, Marketing, QA, Support |
| UiStore.StartEditing | app.js:270-273 | editing is on with a copy of the given record; the other UI fields are unchanged |
| UiStore.StopEditing | app.js:276-279 | editing is off with no record; the other UI fields are unchanged |
| UiStore.StopUndoesStart | app.js:270-279 | starting and then stopping an edit equals stopping alone; from an idle state it restores that state |
| EmployeeApp.FirstFailure | app.js:449-483 | the form is valid exactly when every rule passes; otherwise the reported rule fails and every earlier rule passes |
| EmployeeApp.ValidateForm | app.js:449-483 | a form is valid exactly when name, address and project are non-blank after trimming, the department is non-empty and the trimmed phone is ten ASCII digits; a rejection names the first broken rule |
| EmployeeApp.MessagesDistinct | app.js:453-478 | the six alert messages are pairwise different |
| EmployeeApp.ShortPhoneRejected | app.js:462-465 | a form with phone `12345` and the other fields filled is rejected with the ten-digit message |
| EmployeeApp.EmptyNameRejected | app.js:452-455 | a form whose name is empty or all whitespace is rejected with "Name is required", whatever the other fields hold |
| EmployeeApp.SubmitEmployee | app.js:414-437 | a rejected form changes nothing; an accepted new record is appended with the next id and the UI is untouched apart from loading; an accepted edit replaces only the first record with the edited id (all others unchanged), stops editing and leaves the other UI fields unchanged apart from loading; the form is cleared and loading ends |
| EmployeeApp.SubmitUpdatesEditedRecord | app.js:421-428 | an accepted edit stores the form's fields under the edited record's id |
| EmployeeApp.SubmitKeepsUniqueIds | app.js:414-437 | submitting keeps ids unique |
| EmployeeApp.DeleteEmployeeConfirmed | app.js:402-412 | without confirmation nothing changes; with it no record with that id remains and the others keep their order and multiplicity; the UI is unchanged apart from loading ending, so the selection and any open edit stay |
| EmployeeApp.ClearSearch | app.js:485-493 | after clearing the search, the store's filters are empty, the filtered view is the whole store, and the records and UI are unchanged |
| DirectorySearch.NormalizeString | script.js:140-142 | a missing value gives `""`; otherwise the result is the lower-cased text with its whitespace margins removed, and it is lower-case |
| DirectorySearch.NormalizeIdempotent | script.js:140-142 | normalising twice is normalising once |
| DirectorySearch.NormalizeBlankIff | script.js:140-142 | a value normalises to `""` exactly when it is missing or all whitespace |
| DirectorySearch.BlankCriterionMatchesAll | script.js:375 | a whitespace-only criterion matches every field |
| DirectorySearch.Matching | script.js:373-378 | the kept records are an order-preserving subsequence; a record is kept exactly when it meets every criterion |
| DirectorySearch.FilterEmployees | script.js:365-393 | the shown records are the matching ones in order; a selection whose id is no longer shown is cleared, any other selection stays; the count shown equals the number of shown records |
| DirectorySearch.FilterEmployeesIdempotent | script.js:373-378 | searching the shown records again with the same criteria shows the same records |
| DirectorySearch.BlankSearchShowsAll | script.js:373-378 | with only blank criteria every record is shown |
| DirectorySearch.FilterEmployeesAsWritten | script.js:365-393 | the shown records are the matching ones and the selection rule is the corrected one's; the count is refreshed when the selection survives or there was none, but keeps its old value when the selection is cleared |
| DirectorySearch.StaleStatsWitness | script.js:380-392 | with one record selected and then searched away, the count stays 1 while no record shows |
| DirectorySearch.AsWrittenDiffersOnlyInCount | script.js:380-392 | the code as written and the corrected search agree on everything but the count, and agree fully unless the selection is cleared |
| DirectorySearch.ClearSelection | script.js:402-406 | nothing is selected afterwards; records and count are unchanged |
| DirectorySearch.SelectById | script.js:427-435 | a click on a known id selects the first record with that id, as `find` does; an unknown id changes nothing |
| DirectorySearch.ResetSearch | script.js:395-400 | every record is shown again, the count is the total, and the selection stays |
| DirectorySearch.ResetIsBlankSearch | script.js:395-400 | a reset shows what a search with the emptied form shows |
| DirectoryLoader.DefaultDeptPeriodic | script.js:191 | the default department repeats every five records |
| DirectoryLoader.DefaultDeptFirstFive | script.js:191 | the first five records get Engineering, HR, Sales, Finance, Marketing, no two alike |
| DirectoryLoader.EmployeeCode | script.js:186 | the id is `E` followed by digits that read back as `index + 1`, padded to exactly four digits when `index + 1` has fewer, and unpadded otherwise |
| DirectoryLoader.EmployeeCodeInjective | script.js:186 | different positions get different ids |
| DirectoryLoader.FromDummyUser | script.js:186-195 | id by position; name `first last`; phone, department and project taken from the user when given and non-empty, else `N/A`, the cycled department and `Project <index + 1>`; an address object becomes `street, city` trimmed, a missing one `N/A` |
| DirectoryLoader.MapDummyUsers | script.js:185-196 | one record per user, in order, each the user's mapping at its position; ids are unique |
| DirectoryLoader.FromPlaceholderUser | script.js:229-234 | id by position; the user's name and phone; the cycled department; address `street, city`; the company name as project |
| DirectoryLoader.MapPlaceholderUsers | script.js:228-235 | one record for each of the first ten users, each the user's mapping at its position; ids are unique |
| DirectoryLoader.OfflineEmployeesWellFormed | script.js:15-112 | the offline list has twelve records with unique ids |
| DirectoryLoader.RunPrimary | script.js:253-265 | `offline` produces the offline list; each `api-` name fails with its failed request and otherwise produces its mapping of the response; any other name has no loader; produced ids are unique |
| DirectoryLoader.LoadEmployeeData | script.js:252-284 | a loader that produced records has its records shown (for a successful request, that API's mapping of the response); a failing or unknown `api-` source falls back to the offline list; nothing is loaded only when no loader exists and the source is not `api-`; the filtered list equals the loaded one and ids are unique |
| DirectoryLoader.ApiFailureFallsBack | script.js:266-279 | when an `api-` source fails, the page ends up with a non-empty list with unique ids |
| DirectoryLoader.ConfiguredSourceFallsBack | script.js:4 | with the shipped source `api-dummyjson`, a failed request loads the offline list |

## Left out

- Rendering: `renderTable`, `renderEmployeeDetails`, `showMessage`, the statistics text and the Vue templates are presentation. Only the count the statistics line shows is modelled.
- Network: `fetch`, `response.ok` and `response.json()`. Each request is a `Fetched(body)` or `FetchFailed` parameter.
- Persistence: `localStorage`, `JSON.parse`/`JSON.stringify`, and with them `loadEmployees` and `SET_EMPLOYEES`. `loadEmployees` installs the saved list, or the seed list (`EmployeesStore.InitialEmployees`) when nothing is saved or parsing fails.
- Timers: `setTimeout` delays are modelled by the state after the callback runs. The intermediate `loading == true` state is not modelled. The submit callback reads `isEditing`, `editingEmployee` and the form only when it fires, so input during its 500 ms delay (a second submit, a cancel) is not modelled: one form is validated and committed in one step.
- Dialogs: `alert` is represented by the returned message, and `confirm` by a boolean parameter.
- Framework plumbing: watchers, `nextTick`, focus handling, keyboard shortcuts, and `showEmployeeView`/`hideEmployeeView`. These only set the modal flag and the selection.
- `allEmployees`, `searchFilters` and the `uiModule` getters are identity reads of the state and have no member of their own.
- Text.ToLower: lower-cases ASCII letters only, not the full Unicode case mapping of `toLowerCase`.
- EmployeesStore.MatchesFilters: ids are unbounded integers. The exponent form that `toString` uses for very large doubles is not modelled.
- EmployeesStore.AddEmployee: ids are exact integers, so the new id always exceeds every existing one. In JavaScript ids are doubles: from 2^53 on, `maxId + 1 === maxId`, and the "fresh" id can repeat an existing one. The model does not cover that range.
- DirectoryLoader.FromDummyUser: users are assumed to carry `firstName` and `lastName`. A missing field would print as `undefined` in JavaScript. JSONPlaceholder users are likewise assumed to have address and company.
- DirectoryLoader.RunPrimary: the loader lookup is keyed by the three names only. Inherited object keys such as `toString` are not modelled.

## Findings

| source | as written | input that shows it | evidently intended | confidence | as-written member | corrected member |
|---|---|---|---|---|---|---|
| script.js:380-392 | when filtering drops the selected record, `filterEmployees` calls `clearSelection()` and returns before `updateStats()`, so the "N employees found" count keeps its previous value | one record `E1` selected, with the count at 1; type `b` into the name field; the table shows no record while the count still says 1 | the count is refreshed on both paths and always equals the number of shown records | medium, not executed | DirectorySearch.FilterEmployeesAsWritten | DirectorySearch.FilterEmployees |
