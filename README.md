# Algae record store, modelled in Dafny

This project models the persistence core of a small record-submission API
for algae sightings and samples. Clients create records, list them, attach
photos to a record and fetch photo blobs back. The data lives in one SQLite
database with two tables:

- `records`: one row per record. The photo list is stored in the row's
  `photos` column.
- `photos`: image bytes keyed by uri.

The model has these parts:

- `models.dfy` (module `Models`): the request shapes. This covers the
  literal vocabularies `AlgaeType`, `AlgaeSize` and `AlgaeColor`,
  `PhotoEntry` and `Record`, and the validation a request body goes through
  before it reaches the store. The record field `type` is called `kind`,
  because `type` is a Dafny keyword.
- `sql_text.dfy` (module `SqlText`): the SQLite and Python value semantics
  the queries rely on. These are the TEXT order behind `date < ?` and
  `ORDER BY date DESC`, `CAST(uri AS INT)`, `str(n)` for a new uri, and
  `MAX`, which is NULL over no rows.
- `schema.dfy` (module `Schema`): the two tables, a records row, and the
  `CREATE TABLE IF NOT EXISTS` statements.
- `query.dfy` (module `Query`): what
  `SELECT … WHERE date < ? ORDER BY date DESC LIMIT ?` returns.
- `store.dfy` (module `Store`): the class `Database`. Its map fields
  `records` and `photos` and its set `tables` are the database file. Its
  methods are `setup_tables`, `create_record`, `get_records`, `add_photo`
  with its helper `get_record_photo_uris`, and `get_photo`. The other helper
  of `add_photo`, `add_current_photo_uri`, is the module function
  `AddCurrentPhotoUri`, which works on values.
- `scenarios.dfy` (module `Scenarios`): properties that span two calls.

Each write is one transaction. A method either commits by assigning the
new maps, or assigns nothing and returns a failure. That failure is
`StorageError`, the HTTP 500 of the API, with the reason the Python code
raised. A missing photo is `NotFound`, the HTTP 404.

The model follows the code as written, including where it evidently
falls short of what its authors meant:

- Creating a record reads `MAX(id)` and adds 1 (app/main.py:114-115). On a
  records table with no rows, `MAX` is NULL and `None + 1` raises. The
  transaction rolls back and the call fails. So the first record can never
  be created through the API, although the server is meant to assign every
  id (app/main.py:111). `Store.Database.CreateRecord` fails with
  `StorageError(NullMaximum)` in that case.
- Attaching a photo fails the same way when the photos table has no rows
  (app/main.py:191-192), so no photo can be attached to a fresh database.
- Attaching a photo appends without checking the four-photo bound of a
  `Record` (`Store.AttachExceedsPhotoBound`, `Scenarios.AttachToFullRecord`).
- The request model requires a non-negative `id` from the client
  (app/data_models/models.py:27), which the store then overwrites, although
  the server is the one that assigns ids (app/main.py:111).
- `add_photo` returns nothing on success: the caller does not get the
  updated photo list back.

## Model

| member | source | states |
|---|---|---|
| `Models.ParseType` | app/data_models/models.py:5 | accepts exactly "Sample", "Sighting" and "Undefined", and the value it returns prints back as the same literal |
| `Models.ParseSize` | app/data_models/models.py:6-15 | accepts exactly the eight size literals, and the value it returns prints back as the same literal |
| `Models.ParseColor` | app/data_models/models.py:16 | accepts exactly the seven color literals, and the value it returns prints back as the same literal |
| `Models.NamesParse` | app/data_models/models.py:5-16 | every type, size and color literal parses back to the value that printed it |
| `Models.MakePhotoEntry` | app/data_models/models.py:19-23 | a PhotoEntry is built exactly when width ≥ 0, height ≥ 0 and a present size is ≥ 0, and it carries the four given fields |
| `Models.ParsePhoto` | app/data_models/models.py:19-23 | a photo object that validates gives a valid entry whose body is exactly that object (uri, width and height required, size optional) |
| `Models.ParsePhotos` | app/data_models/models.py:39 | a list of photo objects validates exactly when every item does, and then gives valid entries in the same order |
| `Models.ParsePhotosToRaw` | app/data_models/models.py:39 | every list of valid entries is accepted back from its body |
| `Models.ParseRecord` | app/data_models/models.py:26-39 | an accepted body gives a valid record (id ≥ 0, literals in their vocabularies, at most 4 valid photos) whose body is exactly the input, so id, type, date, longitude, latitude, size and color were present |
| `Models.ParseToRaw` | app/data_models/models.py:26-39 | every valid record is accepted back from its body (with ParseRecord: accepted exactly when valid) |
| `SqlText.LexIrreflexive` | app/main.py:98 | no date is less than itself under TEXT comparison |
| `SqlText.LexAsymmetric` | app/main.py:98 | TEXT comparison never orders two values both ways |
| `SqlText.LexTransitive` | app/main.py:98 | TEXT comparison is transitive |
| `SqlText.LexTotal` | app/main.py:98 | two different texts are always ordered one way or the other |
| `SqlText.CastDecimal` | app/main.py:191-192 | CAST(str(n) AS INT) is n, so a uri written as the decimal text of a number reads back as that number |
| `SqlText.MaxOf` | app/main.py:114-115 | MAX is NULL exactly over no rows, and otherwise a value of the column that no other value exceeds |
| `Schema.SchemaAfterAdds` | app/main.py:39-42 | running the CREATE TABLE IF NOT EXISTS statements in order adds exactly the tables they name |
| `Schema.SetupIdempotent` | app/main.py:16-36 | running the table setup a second time changes nothing |
| `Query.Matching` | app/main.py:98 | the rows that pass `date < before` are rows of the table |
| `Query.First` | app/main.py:98 | among the remaining rows, the one listed next comes before all others (later date first) |
| `Query.OrderedKeys` | app/main.py:98 | the listed ids number min(limit, #candidates), are all candidates, have no repeats and are in listing order, and no candidate left out comes before a listed one |
| `Query.ListingSpec` | app/main.py:84-106 | the listing holds only stored rows dated strictly before `before`, with no repeats and the latest date first, min(limit, #matching) of them, and no matching row left out is later than a listed one |
| `Store.KeepPhotos` | app/main.py:129-132 | the photo list is dropped exactly when it is absent or no entry has a size (an empty list included), and is kept unchanged otherwise |
| `Store.StoredPhotosRule` | app/main.py:129-164 | the stored photos column is [] for an absent or size-less list, and is the submitted list unchanged and in order when some entry has a size |
| `Store.NextId` | app/main.py:114-115 | the new id is absent exactly when the table has no rows, and is otherwise greater than every id, with its predecessor an existing id (max + 1) |
| `Store.NextUri` | app/main.py:191-192 | the new uri is absent exactly when the photos table has no rows, and is otherwise an unused uri whose number is one more than the largest CAST(uri AS INT), written as the plain decimal text of that number |
| `Store.AddCurrentPhotoUri` | app/main.py:241-250 | the result exists exactly when the bytes decode, and is then the old list with one valid entry appended: the uri, the decoded width and height, and size = width × height |
| `Store.AttachExceedsPhotoBound` | app/main.py:241-250 | appending a decodable image to a record's list of 4 valid photos succeeds and gives 5 valid entries, a list that is no longer a valid Record photo list |
| `Store.Database.Connect` | app/main.py:60-61 | the connection holds exactly the tables and rows of the database file |
| `Store.Database.SetupTables` | app/main.py:39-42 | afterwards the tables are the old ones plus those named; every existing row is unchanged |
| `Store.Database.CreateRecord` | app/main.py:109-173 | fails with no table or no rows and then changes nothing. Otherwise it returns the record with id = max + 1 (the client's id ignored) and the cached-photo rule applied, and adds exactly that row. Other rows and the photos table are untouched, and valid stored entries stay valid |
| `Store.Database.GetRecords` | app/main.py:77-106 | returns the query's answer: stored rows with their stored photos, date < before, latest first, at most limit of them (default 20), none later left out. It succeeds exactly when the records table exists |
| `Store.Database.GetRecordPhotoUris` | app/main.py:226-237 | returns the record's stored photo list. It fails on a missing table, an unknown id, or a stored entry that is not a valid PhotoEntry |
| `Store.Database.AddPhoto` | app/main.py:176-208 | fails in step order on a missing table, unknown record, invalid stored entry, empty photos table or undecodable bytes, and then changes neither table. Otherwise it stores the bytes under the fresh uri str(max + 1) and appends that entry to this record only |
| `Store.Database.GetPhoto` | app/main.py:211-222 | returns exactly the stored bytes for a known uri and NotFound for an unknown one |
| `Store.Launch` | app/main.py:59-63 | start-up leaves both tables in place and every stored row unchanged |
| `Scenarios.ConsecutiveIds` | app/main.py:114-115 | two successive creates on a non-empty table get consecutive ids |
| `Scenarios.AttachThenFetch` | app/main.py:187-222 | after a successful attach, fetching the new uri returns exactly the uploaded bytes |
| `Scenarios.CreateThenList` | app/main.py:77-173 | after a create on a non-empty table, listing before a later date succeeds, is non-empty, and its first row is dated no earlier than the new record |
| `Scenarios.AttachToFullRecord` | app/main.py:176-208 | attaching a decodable image to a record that holds 4 photos succeeds and leaves it with 5 |

## Left out

- HTTP routing, reading the request body, building `Response` and `HTTPException`, and the `read_root` endpoint: only the error kinds are kept. `StorageError` is the 500 and `NotFound` the 404.
- Logging and its configuration, and the settings lookup for the logger name and the database path: no effect on stored data.
- SQL text and the SQLite engine: the tables are maps, and commit/rollback is an all-or-nothing assignment at the end of a method. Column types and NOT NULL constraints are carried by the Dafny types, which have no NULL, NaN or 64-bit bound, so the failures those cause are not modelled (next line).
- JSON encoding of the photos column and the `json_object` projection: treated as the identity on a photo list. So the loop in `get_records` that decodes each listed row's photos is not modelled.
- Image decoding is a foreign library call. It is the `decode` parameter, which returns the pixel size or None.
- Latitude and longitude are carried as `real` values with no arithmetic.
- The default `before` of `get_records` comes from the clock at import time. Callers pass `before` explicitly.
- `Store.Database.GetRecords`: the method returns rows with equal dates in ascending id order (`Query.PrecedesAt`, which `Query.First` and `Query.OrderedKeys` state). SQLite leaves that order unspecified, so the method's contract and `Query.ListingSpec` state only date order.
- `Store.Database.GetRecords`: `limit` is a natural number. SQLite's reading of a negative LIMIT as "no limit" is not modelled.
- `Store.Database.CreateRecord`: three failures of the INSERT are not modelled. A latitude or longitude of NaN, which JSON parsing and pydantic accept, is bound as NULL and violates `REAL NOT NULL`. An id `MAX(id) + 1` beyond 2^63 - 1 cannot be bound. A text field (name, organization, date, tubeId, locationDescription, notes) holding a lone surrogate such as `"\ud800"`, which JSON parsing and pydantic also accept, is not valid Unicode, and sqlite3 cannot encode it to UTF-8. Dafny's `string` holds only Unicode scalar values, so the model cannot express that input. All three roll back and give a 500, but the model's `real` has no NaN, its `int` no bound and its `string` no surrogates, so the contract promises success there.
- Concurrency: the read-max-then-insert race between overlapping requests is outside the model, which is sequential.
- `Store.Database.AddPhoto`: the path parameter `record_id` is taken as an integer. SQLite's conversion of the path text when comparing it with the integer id column is not modelled. A non-numeric id would simply match no row, which is the `NoSuchRecord` failure.
- `SqlText.CastToInt` and `SqlText.Decimal`: integers are unbounded. SQLite's 64-bit clamping of CAST and integer overflow are not modelled.
- `Models.ParseRecord`: pydantic's coercion between JSON types (a numeric string for an int, say) is not modelled. Raw values arrive already typed.
- `Store.AddCurrentPhotoUri`: the Python helper appends to the list in place. The list is a fresh copy loaded from the row, so no aliasing can be observed, and the model works on values.
