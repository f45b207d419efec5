# ApiService pipeline — a Dafny model

This project models the core of a small batch utility that fetches a list of
todo items from an HTTP API, validates each item against a four-field record
shape, groups the items by `id`, and stores every item as its own CSV file
`{storage_dir}/{date}_{id}.csv`. The model covers the record shape
(`ApiServiceRow`) and the `ApiService` methods `fetch_data` (its validation
loop), `_group_data`, `save_data` and `run`.

Modules:

- `Schemas` (`src/Services/schemas.py`): a parsed JSON value as a tagged
  datatype `Value`, the record `Row(userId, id, title, completed)`, and
  `Validate`, which is all or nothing. Each required field must be present with
  its JSON type. `completed` defaults to `false` when absent. Fields outside the
  shape are ignored.
- `ApiService` (`src/Services/ApiService.py`): a class `ApiService` with the
  constructor's three settings, and methods whose loops are proved against
  specification functions:
  - `FetchData` against `ValidRows`;
  - `GroupData` against `Grouped`;
  - `SaveData` against `SaveRows`.

  Lemmas about these functions state what the source promises.
- `Decimal`: Python's `str(int)` as the CSV writer and the file name use it, and
  `int(text)` as a reader of the file uses it. The two round-trip.
- `Wrappers`: `Option`.

The storage is a value `FileSystem` (path to the rows of the CSV file stored
there). `SaveData` receives it and returns the new storage together with the
`saved_files` / `failed_files` counters. How each write ends at the
operating-system level is a parameter `io: nat -> WriteAttempt`, indexed by
row position:
- `Completes`;
- `FailsBeforeOpen`, where nothing changes;
- `FailsAfterOpen(partial)`, where `open(..., 'w')` truncated the file and the
  write then failed, leaving `partial`.

Both failing outcomes land in the source's `except` branch. Today's date is a
parameter of the run.

## Model

| member | source | states |
|---|---|---|
| `Schemas.Validate` | src/Services/schemas.py:4-8 | a `Row` is produced iff the record is an object whose `userId` and `id` are integers, whose `title` is a string, and whose `completed` is absent or a boolean; the `Row` carries exactly those values, with `completed` false when absent |
| `Schemas.ValidateEncode` | src/Services/schemas.py:4-8 | the JSON object of a row validates back to that same row |
| `Schemas.CompletedDefaultsToFalse` | src/Services/schemas.py:8 | a record without `completed` validates to a row with `completed == false` |
| `Schemas.MissingRequiredFieldRejected` | src/Services/schemas.py:5-7 | a record missing `userId`, `id` or `title` gives no row |
| `Schemas.ExtraFieldsIgnored` | src/Services/schemas.py:4-8 | two records that agree on the four fields of the shape validate alike, whatever other fields they carry |
| `Decimal.NatToString` | src/Services/ApiService.py:68 | the decimal text of a natural number is non-empty, all digits, and has no leading zero |
| `Decimal.IntToString` | src/Services/ApiService.py:60 | the decimal text of an integer is non-empty and starts with `-` exactly when the integer is negative |
| `Decimal.IntToStringRoundTrip` | tests/test_apiservice.py:71-72 | reading the decimal text of an integer with `int` gives that integer back |
| `Decimal.IntToStringInjective` | src/Services/ApiService.py:60 | distinct integers have distinct decimal text |
| `ApiService.ApiService.constructor` | src/Services/ApiService.py:24-27 | the service keeps the url, the storage path and the override flag it is given; overriding defaults to off |
| `ApiService.ApiService.FetchData` | src/Services/ApiService.py:35-45 | the result is exactly the validated rows of the records that validate, in input order, and its length is the input length minus the number of invalid records |
| `ApiService.ValidRowsLength` | src/Services/ApiService.py:38-45 | the number of kept rows plus the number of invalid records is the number of records |
| `ApiService.ValidRowsAppend` | src/Services/ApiService.py:38-43 | the filter distributes over concatenation, so what comes before a record never stops the records after it from being examined |
| `ApiService.ValidRecordKept` | src/Services/ApiService.py:38-40 | a record that validates appears in the result at the position right after the rows kept from the records before it |
| `ApiService.InvalidRecordSkipped` | src/Services/ApiService.py:39-42 | an invalid record contributes nothing; the result is the rows before it followed by the rows after it |
| `ApiService.ValidRowsSound` | src/Services/ApiService.py:38-45 | every row of the result is the validation of some input record |
| `ApiService.AllValidKept` | tests/test_apiservice.py:39-47 | when every record validates, the result has one row per record, the i-th being the validation of the i-th record |
| `ApiService.ApiService.GroupData` | src/Services/ApiService.py:84-95 | the loop over a `defaultdict(list)` yields exactly `Grouped(data)`: one key per id in the input, each holding the rows with that id |
| `ApiService.WithIdAppend` | src/Services/ApiService.py:92-95 | a group of a concatenation is the group of the first part followed by that of the second, so arrival order is kept inside each group |
| `ApiService.WithIdMembers` | src/Services/ApiService.py:84-95 | a row is in the group of `k` iff it is an input row with id `k` |
| `ApiService.GroupedSnoc` | src/Services/ApiService.py:93-94 | appending one row to the input appends it to the list of its id, which is created empty on first sight, and changes no other group |
| `ApiService.GroupedKeys` | src/Services/ApiService.py:84-95 | the keys are exactly the ids occurring in the input; every group is non-empty and holds only input rows with its id |
| `ApiService.GroupedSizes` | src/Services/ApiService.py:92-95 | the group lengths sum to the input length, so no row is dropped or duplicated |
| `ApiService.ApiService.StorageDir` | src/Services/ApiService.py:53-54 | an absent or empty `path` means the configured persistent path; any other `path` is used as given |
| `ApiService.TargetPathInjective` | src/Services/ApiService.py:59-61 | within one directory and date, rows with different ids go to different files `{dir}/{date}_{id}.csv` |
| `ApiService.WrittenFileContents` | src/Services/ApiService.py:65-68 | a written file has exactly two rows: the header `userId,id,title,completed` and four fields that read back as the row (`completed` as `True`/`False`) |
| `ApiService.SaveRow` | src/Services/ApiService.py:59-74 | one iteration counts the row exactly once; only the row's target file may change; files never disappear; with overriding off, existing files keep their contents |
| `ApiService.SaveRows` | src/Services/ApiService.py:55-75 | after the loop, `saved + failed` equals the number of rows; no file disappears; with overriding off, every pre-existing file is unchanged; every path that is no row's target is untouched |
| `ApiService.ApiService.SaveData` | src/Services/ApiService.py:47-75 | the loop yields exactly `SaveRows` for the chosen directory, with `saved + failed == len(data)`, pre-existing files untouched when overriding is off, and non-target paths untouched |
| `ApiService.ExistingFileCountsAsFailed` | src/Services/ApiService.py:63-64 | with overriding off, a row whose target existed before the run counts as failed, and the storage and the saved count stay as they were |
| `ApiService.OverrideRewrites` | src/Services/ApiService.py:63-68 | with overriding on, a completed write stores the row's two-row contents at its target whether or not a file was there, and counts as saved |
| `ApiService.SavedKeysGrow` | src/Services/ApiService.py:58-74 | the set of stored paths only grows as the loop goes on |
| `ApiService.DuplicateIdFailsWithoutOverride` | src/Services/ApiService.py:58-71 | with overriding off, once a row's write got as far as opening its file, every later row with the same id counts as failed and changes nothing |
| `ApiService.LastWriteKept` | src/Services/ApiService.py:58-68 | a file written for a row keeps that row's contents through the rest of the loop when no later row has the same id |
| `ApiService.EveryRowSavedWithOverride` | src/Services/ApiService.py:58-74 | with overriding on and every write completing, every row counts as saved and none as failed |
| `ApiService.EveryRowHasItsFile` | tests/test_apiservice.py:50-74 | with overriding on, every write completing and distinct ids, every row has its own file holding the header and that row's values |
| `ApiService.ApiService.Run` | src/Services/ApiService.py:77-82 | `run` stores the validated rows in the persistent path; its counters sum to the number of valid records |

## Left out

- The HTTP request, its 30-second timeout (`APISERVICE_TIMEOUT`) and JSON body parsing. `FetchData` takes the parsed list of records. A body that is not a JSON array is not modelled: iterating a dict or string yields invalid elements, and a scalar raises `TypeError`. `url` is kept as a setting but not used.
- Logging and the `print` to stderr. They have no effect on behaviour.
- Pydantic's lax coercions (numeric strings, `true`/`1` for booleans, booleans or integral floats for integers) are not modelled. The model validates strictly by JSON type, so `Schemas.Validate` rejects some records the library would accept.
- The clock. The source calls `datetime.date.today()` once per row. The model uses one date string for the whole run, so a run that crosses midnight is not captured. The `%Y_%m_%d` formatting of that string is not modelled.
- Path normalisation by `pathlib`. `JoinPath` is `dir + "/" + name`, and a trailing separator on `dir` is not collapsed.
- The `csv` module's quoting, escaping and line endings. A file is a sequence of rows of field strings.
- Directories and other non-file entries at a target path, and specific OS error kinds. Every way a write can fail is one of the two failing `WriteAttempt` outcomes, and the contents a failed write leaves are arbitrary.
- Other processes changing the storage during a run.
- `save_data` returns nothing in the source and reports its counters only in a log line. The model returns them so that they can be stated.
- `src/Application/App.py` and `src/Application/settings.py` (configuration and bootstrap) are not part of this model.
