# Patient registration: query shim, toast list and patient search

A Dafny model of the three pieces of pure logic in a browser-only patient registration
application:

- **the query shim** (`lib/db.ts`). `executeQuery` takes a SQL-flavoured string and a
  positional parameter array. It routes on the lower-cased, trimmed text: SELECT, INSERT, or the
  error "Only SELECT and INSERT queries are supported". SELECT reads every record of the
  `patients` object store. It then applies three checks in a fixed order, each a
  case-sensitive substring test on the query as written: a filter by `id` (`where`, `id =`),
  a newest-first sort (`order by`, `created_at desc`), and a row limit (`limit`, with the
  number taken from `/limit\s+(\d+)/i`). INSERT builds a patient record from the parameters,
  with falsy optional fields becoming `null`. It then adds the record under a fresh key.
- **the toast list** (`hooks/use-toast.ts`). `genId` is a counter modulo
  `Number.MAX_SAFE_INTEGER`. Showing a toast puts it first and keeps at most `TOAST_LIMIT` (5)
  toasts. Dismissing removes the toasts with one id, or all of them.
- **the patient search** (`app/patients/page.tsx`). A patient is listed when the lower-cased
  search term occurs in the lower-cased first name, last name, email or phone.

The object store is a sequence of `Patient` records kept in ascending key order. That is the
order in which `getAll` returns them, and `add` refuses a key already present. Parameters
are JavaScript values (`undefined`, `null`, a string, or an ISO date string), and JavaScript truthiness
decides the defaults. The key `uuidv4()` would produce and the current time are passed in.

Consequences of the case-sensitive checks that the model proves:

- the patient list asks for `ORDER BY created_at DESC` in upper case, so it receives the
  store in key order, not newest first;
- the detail view asks for `WHERE id = $1` in upper case, so it receives the whole store and
  shows its first record, whatever id it asked for;
- LIMIT is honoured only when the parameter array is non-empty, so the console's initial
  `SELECT * FROM patients LIMIT 10` returns every record.

Modules: `Wrappers` (Option, Result), `Seqs` (order-preserving filter and subsequences),
`JsText` (JavaScript string operations), `PatientTypes` (values and the record),
`PatientStore` (the keyed object store), `Db` (the query shim), `Toasts`, `PatientSearch`.

## Model

| member | source | states |
|---|---|---|
| JsText.TrimStart | lib/db.ts:55 | the result is the suffix of the query after its leading run of JavaScript white space, and starts with a non-space |
| JsText.TrimEnd | lib/db.ts:55 | the result is the prefix of the query before its trailing run of white space, and ends with a non-space |
| JsText.TrimStartsWith | lib/db.ts:55-60 | trimmed text starts with a keyword exactly when the keyword follows leading white space in the original |
| JsText.IncludesAt | lib/db.ts:78 | `includes` holds exactly when the substring occurs at some position |
| JsText.DecimalRoundTrip | hooks/use-toast.ts:23 | parsing the decimal numeral that `toString` gives a counter value yields the value back |
| PatientStore.Add | lib/db.ts:33 | `add` fails exactly when the key is already stored; otherwise the store stays in key order and gains exactly the new record |
| PatientStore.InsertByKey | lib/db.ts:33 | a record with a fresh key is placed so that the store stays strictly ascending by key, with nothing lost or duplicated |
| PatientStore.OrderedKeysUnique | lib/db.ts:33 | in a store kept in key order no two records share an id |
| Db.ClassifyRoutes | lib/db.ts:55-64 | a query goes to SELECT iff it opens, after white space, with "select" in any letter case; to INSERT iff it opens with "insert" instead; otherwise it is unsupported |
| Db.ExecuteQuery | lib/db.ts:53-65 | fails with "Only SELECT and INSERT queries are supported" exactly for unsupported queries; SELECT succeeds and leaves the store unchanged; SELECT returns the rows `handleSelect` computes; INSERT succeeds iff the key is fresh, fails with "Error executing INSERT query" otherwise, and on success returns the new record as its only row and stores exactly that record besides the old ones; the rows always come from the resulting store, which stays in key order |
| Db.WhereStage | lib/db.ts:78-88 | the result is a subsequence of the rows; when `where` and `id =` occur, params is non-empty and params[0] is truthy, a row is kept iff its id equals params[0]; otherwise every row is kept |
| Db.RowCount | lib/db.ts:81-87 | under the id filter each matching row keeps all its occurrences and every other row has none |
| Db.WhereFindsKey | lib/db.ts:78-88 | over a store with unique keys, the id filter yields exactly the one record with that id, or nothing when no record has it |
| Db.SortNewestFirst | lib/db.ts:93 | the result is a permutation of its input, non-increasing in creation time |
| Db.SortStable | lib/db.ts:93 | records with equal creation time keep their relative order, as the stable `Array.prototype.sort` does |
| Db.OrderStage | lib/db.ts:91-95 | the rows are permuted; they are newest first when both `order by` and `created_at desc` occur, and untouched otherwise |
| Db.FindLimitMatch | lib/db.ts:99 | finds the leftmost position where `limit`, in any case, is followed by white space and a digit, or reports that there is none |
| Db.LimitCapture | lib/db.ts:99-101 | the capture group is the whole run of digits after the white space that follows `limit`: non-empty, all digits, and not followed by another digit |
| Db.LimitTwoMatch | lib/db.ts:99-101 | in `SELECT * FROM patients limit 2` the pattern first matches at the lower-case `limit`, and its capture is `2` |
| Db.LimitTwoReturnsFirstRecords | lib/db.ts:98-104 | with a lower-case `limit 2` and at least one parameter, the query returns exactly the first two records of the store |
| Db.LimitStage | lib/db.ts:98-104 | the result is a prefix of the rows of length min(limit, rows) when the limit applies, and all rows otherwise, in particular when no lower-case `limit` occurs or there are no parameters |
| Db.HandleSelect | lib/db.ts:68-113 | every SELECT row is a stored record, and no record is returned more often than it is stored |
| Db.UnorderedSelectKeepsStoreOrder | lib/db.ts:91-92 | unless both lower-case ordering strings occur, the rows are a subsequence of the store in key order |
| Db.OrderedSelectIsNewestFirst | lib/db.ts:91-104 | when both ordering strings occur, the returned rows are newest first, even after the limit is applied |
| Db.ParameterlessSelectReturnsEveryRecord | lib/db.ts:78-104 | without parameters neither the filter nor the limit applies, so every stored record is returned |
| Db.ListQueryReturnsStore | app/patients/page.tsx:26 | the list page's upper-case ORDER BY query returns the store itself, in key order |
| Db.ListQueryNotNewestFirst | app/patients/page.tsx:26 | for a two-record store, the list query returns the older record first |
| Db.DetailQueryReturnsStore | lib/db.ts:78 | the detail view's query `SELECT * FROM patients WHERE id = $1` has no lower-case `where`, so it returns the whole store for any requested id |
| Db.ConsoleQueryReturnsStore | app/query/page.tsx:16 | the console's initial query returns every record: its LIMIT is upper case and it has no parameters |
| Db.SelectPatientsIsSelect | lib/db.ts:55-59 | any query beginning "SELECT * FROM patients " is routed to SELECT |
| Db.InsertAfterSpaces | lib/db.ts:55-61 | a query whose first non-space characters spell INSERT is routed to INSERT |
| Db.RegisterQueryIsInsert | app/register/page.tsx:49-56 | the registration form's indented multi-line statement is routed to INSERT |
| Db.NewPatient | lib/db.ts:122-133 | every optional field of a new record is null or truthy, and the creation time is always truthy |
| Db.NewPatientFields | lib/db.ts:122-133 | the new record takes its id from the fresh key and its names, date of birth and gender from params[0..3]. email, phone, address and medical history are params[4..7] when truthy and `null` when falsy. created_at is params[8] when truthy, else the current time |
| Db.HandleInsert | lib/db.ts:116-145 | INSERT fails with "Error executing INSERT query" exactly when the key is taken. Otherwise it returns the new record as its one row, and the store gains exactly that record and stays in key order |
| Db.InsertedRecordIsFound | lib/db.ts:83-84 | after a successful INSERT, filtering by the new id returns exactly the inserted record |
| Db.ListPageLoad | app/patients/page.tsx:25-27 | loading the patient list succeeds and returns the store unchanged and unsorted |
| Db.DetailPageLoad | lib/db.ts:58-59 | the detail view's query is routed to SELECT, succeeds and returns the whole store, whichever id it passes |
| Db.RegisterSubmit | app/register/page.tsx:49-68 | submitting the registration form is an INSERT of its parameters |
| Toasts.GenId | hooks/use-toast.ts:21-24 | the counter advances by one and wraps to 0 at MAX_SAFE_INTEGER; the id is a numeral that parses back to the new count |
| Toasts.GenIdInjective | hooks/use-toast.ts:21-24 | different counter values below the bound give different ids |
| Toasts.AddToast | hooks/use-toast.ts:46-51 | the new toast comes first; a full list loses its last toast and the rest keep their order; a list within TOAST_LIMIT stays within it |
| Toasts.AddToastsBounded | hooks/use-toast.ts:8 | from a list within TOAST_LIMIT, any number of additions keeps it within TOAST_LIMIT |
| Toasts.ShowToast | hooks/use-toast.ts:38-54 | `toast` advances the counter as `genId` does and returns the id carried by the toast it put at the front of the list; the earlier toasts follow in order, less the last one when the list was full, and the bound is kept |
| Toasts.Dismiss | hooks/use-toast.ts:29-36 | with a truthy id, exactly the toasts with other ids remain, in their order; with no id or the empty string, the list is emptied |
| Toasts.DismissCounts | hooks/use-toast.ts:32 | dismissing an id keeps every other toast as often as it occurred and removes all copies of that id |
| Toasts.DismissIdempotent | hooks/use-toast.ts:29-36 | dismissing twice is the same as dismissing once |
| PatientSearch.FilterPatients | app/patients/page.tsx:51-59 | the listed patients are an order-preserving subsequence of the loaded ones, and a patient is listed iff it matches |
| PatientSearch.FilterPatientsCounts | app/patients/page.tsx:51 | a matching patient is listed as often as it was loaded; a non-matching one is not listed |
| PatientSearch.MatchesByPosition | app/patients/page.tsx:52-57 | a patient matches iff the lower-cased term occurs in the lower-cased first name, last name, email or phone, whichever is text |
| PatientSearch.EmptyTermKeepsAll | app/patients/page.tsx:52-54 | the empty search term lists every patient whose first name is text |
| PatientSearch.MissingContactNeverMatches | app/patients/page.tsx:56-57 | with no email and no phone, a patient matches iff one of its names does |
| PatientSearch.FilterPatientsIdempotent | app/patients/page.tsx:51-59 | searching the search result again with the same term changes nothing |
| PatientSearch.SearchIgnoresCase | app/patients/page.tsx:52 | search terms that differ only in ASCII letter case list the same patients |
| PatientSearch.ListPageShowsStoreOrder | app/patients/page.tsx:26-27 | the list page filters the store in key order, because its query is never sorted |

## Left out

- Opening the IndexedDB database, the upgrade handler, connection caching and `initializeDb` (lib/db.ts:10-50, 147-155) are browser API plumbing. The store is a sequence of records.
- The secondary indexes `name`, `email` and `created_at` (lib/db.ts:36-38) are never used by the shim.
- Read and write failures of the storage engine (lib/db.ts:109-111) are I/O. The only INSERT failure modelled is `add` on a key that is already stored.
- Promises and transactions are not modelled: each query is one atomic step.
- `uuidv4()` and `new Date()` are the parameters `newId` and `now`.
- PatientTypes.Value: parameters are modelled as strings, `undefined` and `null` only, because every caller passes strings or nothing. Numbers and booleans are not modelled, so a falsy `0`, `false` or `NaN` cannot be written. `Time(t)` stands for an ISO date string and is kept apart from `Text` holding the same characters, so the model does not equate those two equal JavaScript strings.
- Db.SortKey: `new Date(created_at).getTime()` is modelled only for date values and for `null` (the epoch). Text that would have to be parsed also gets key 0. `undefined` gives NaN in the source, and the sort order is then implementation-defined.
- Db.FindLimitMatch: `parseInt` of more than 15 digits loses precision in the source. The model keeps the exact value, which gives the same slice for any array shorter than 2^53.
- PatientSearch.FilterPatients: a first name that is not text, or a last name that is not text when the first name does not match (`undefined` after an INSERT with fewer than four parameters), makes the source throw a TypeError while rendering. The model simply does not match it. A date value in a name field does not match either, because its ISO text is not modelled.
- `toLowerCase` is modelled on ASCII letters only. The regular-expression flag `i` is exact for the letters of `limit`.
- Key order compares characters as Unicode scalar values. IndexedDB compares UTF-16 code units. The two agree on the basic multilingual plane, which includes every uuid.
- Toasts: the `action` property (a React node) is not modelled. Neither is the timer-driven auto-dismiss (hooks/use-toast.ts:56-76).
- Toasts.AddToast: the source pops from the previous state array in place. The model builds a new list, which matches what an updater that runs once observes.
- Cross-tab BroadcastChannel notifications, React state and effects, routing and all rendering are I/O or UI.
