# Offline survey store and batch sync — a verified model

This project models the offline-first core of a field-survey app. The app
stores geotagged surveys on the device and later uploads them to a server:

- **The survey record** (`Records`). It has an optional id, title, description, latitude/longitude, an optional serialized `images` list, a `createdAt` timestamp and a 0/1 `synced` flag. The module also holds the queries both stores share: a full scan in key order, the newest-first sort, the unsynced filter, and setting the flag of one key.
- **The browser store** (`Web.WebDatabase`). With a database handle, records live in an object store keyed by an auto-increment key (`store` and `nextKey`). Without a handle, they live in one list kept in local storage (`fallback`). Each operation reads that list, changes it in place and writes it back. Which path runs is the `connected` argument of each call.
- **The device store** (`Native.NativeDatabase`). One SQL table with an AUTOINCREMENT primary key, modelled as a map plus the AUTOINCREMENT sequence. If the database could not be opened (`ready` is false), saving fails, reads return `[]` and writes do nothing.
- **The `images` field** (`ImagesJson`). A JSON array of strings, written by the new-survey screen at app/(app)/new-survey.tsx line 78. Decoding what the new-survey screen stores gives back the same list, and text holding a raw control character inside a string never decodes.
- **The sync routine** (`Sync`). It turns each record with a truthy id into an upload payload and calls the server, which is modelled as an oracle `upload`. It reports each id as a success or a failure. A batch without a token fails as a whole. The caller then marks the successes synced, one `markSurveyAsSynced` per success id, as the sync screen does at app/(app)/surveys.tsx lines 69-71 (`ConfirmAll`).

Timestamps are integers passed in by the caller, and the random fallback id is a parameter in [0, 10000). Coordinates are `real` values that are only copied.

The two backends are meant to be interchangeable. Where they, or the comments in the code, promise more than the code does, the model follows the code:
- On the keyed browser path, `markSurveyAsSynced` of a missing id is an error ("not found"), not a no-op.
- The browser fallback's `getSurveys` does not sort.
- Fallback ids are random, so they can repeat and can be 0.
- The device store has no fallback: `saveSurvey` fails when the database is unavailable.

## Model

| member | source | states |
|---|---|---|
| `Records.NewRecord` | database/WebDatabase.ts:119-123 | the stored record copies the caller's title, description, coordinates and images, takes the store's id and the current time, and has `synced = 0` |
| `Records.TableRecordsExact` | database/WebDatabase.ts:155 | a full scan of a valid keyed table yields every stored record, and each exactly once |
| `Records.InsertByDate` | database/WebDatabase.ts:160-162 | inserting one record into a newest-first list keeps it newest first and adds exactly that record |
| `Records.NewestFirst` | database/WebDatabase.ts:160-162 | the sort orders by `createdAt` descending and is a permutation of its input |
| `Records.Unsynced` | database/WebDatabase.ts:184 | the filter keeps every record with `synced = 0`, as often as it occurs, and no other record |
| `Records.MarkedSynced` | database/NativeDatabase.ts:111 | setting the flag changes only the record under that key, and only its `synced` field; a missing key changes nothing |
| `Records.MarkedSyncedIdempotent` | database/WebDatabase.ts:240-243 | marking the same id twice gives the same table as marking it once |
| `Records.MarkedSyncedKeepsValid` | database/NativeDatabase.ts:111 | marking keeps the table valid, never changes an id or `createdAt`, and never lowers a flag |
| `Records.DeleteThenMarkIsNoOp` | database/NativeDatabase.ts:111-121 | marking an id right after deleting it changes nothing |
| `Records.MarkedNotUnsynced` | database/NativeDatabase.ts:99-111 | after marking an id, no record with that id is listed as unsynced |
| `Web.IndexOfId` | database/WebDatabase.ts:216 | the lookup returns -1 exactly when no record has the id, and otherwise the first position holding it |
| `Web.MarkFirstSynced` | database/WebDatabase.ts:215-221 | the fallback mark sets `synced = 1` on the first record with the id only, keeps the length and every other record, and leaves the list unchanged when the id is absent |
| `Web.RemoveFirst` | database/WebDatabase.ts:272-278 | the fallback delete removes the first record with the id, shifts later ones down by one, and shortens the list by one; when the id is absent the list is unchanged |
| `Web.MarkFirstSyncedIdempotent` | database/WebDatabase.ts:215-221 | marking the same id twice in the fallback list gives the same list as marking it once |
| `Web.DuplicateFallbackIdShadowed` | database/WebDatabase.ts:100-111 | when a fallback id repeats, marking that id leaves the later record as it was and one delete removes the earlier record, not the later one; while the earlier record stays in the list, marking never reaches the later one |
| `Web.WebDatabase.constructor` | database/WebDatabase.ts:10-12 | a new store is valid and empty, and its key generator starts at 1 |
| `Web.WebDatabase.GetLocalStorageSurveys` | database/WebDatabase.ts:303-311 | reading the fallback returns the stored list |
| `Web.WebDatabase.SaveLocalStorageSurveys` | database/WebDatabase.ts:313-319 | writing the fallback replaces the stored list |
| `Web.WebDatabase.SaveSurvey` | database/WebDatabase.ts:95-140 | with a handle: the new record goes under the generator's key, which is fresh and is returned, and nothing else changes. Without one: exactly one record is appended with the drawn id, and that id is returned |
| `Web.WebDatabase.GetSurveys` | database/WebDatabase.ts:143-175 | with a handle: every stored record exactly once, newest first. Without one: the fallback list in its stored order |
| `Web.WebDatabase.GetUnsyncedSurveys` | database/WebDatabase.ts:178-207 | both paths return exactly the records with `synced = 0`; the keyed path lists each such record once, and the fallback path lists each one as often as the stored list holds it |
| `Web.WebDatabase.MarkSurveyAsSynced` | database/WebDatabase.ts:210-264 | with a handle: a missing id is a `NotFound` error, and a present one gets `synced = 1` with nothing else changed. Without one: the fallback mark, which always succeeds |
| `Web.WebDatabase.DeleteSurvey` | database/WebDatabase.ts:267-300 | with a handle: the key is removed and other keys are untouched. Without one: the fallback delete |
| `Native.StoredImages` | database/NativeDatabase.ts:70 | the `images` column is always present: the given list when it is non-empty, otherwise `''` |
| `Native.NativeDatabase.constructor` | database/NativeDatabase.ts:9-39 | a new table is valid and empty, and `ready` records whether initialisation succeeded |
| `Native.NativeDatabase.SaveSurvey` | database/NativeDatabase.ts:58-79 | inserts exactly one row with `synced = 0`, the current time and the images column, under the next AUTOINCREMENT id, which is fresh and is returned. Without a database it fails with `StoreUnavailable` and changes nothing |
| `Native.NativeDatabase.GetSurveys` | database/NativeDatabase.ts:82-93 | every row exactly once, newest first, or `[]` without a database |
| `Native.NativeDatabase.GetUnsyncedSurveys` | database/NativeDatabase.ts:96-105 | exactly the rows with `synced = 0`, each listed once, or `[]` without a database |
| `Native.NativeDatabase.MarkSurveyAsSynced` | database/NativeDatabase.ts:108-115 | sets `synced = 1` on the matching row only; a missing id, or no database, leaves the table unchanged and nothing fails |
| `Native.NativeDatabase.DeleteSurvey` | database/NativeDatabase.ts:118-125 | removes the matching row only; a missing id, or no database, leaves the table unchanged and nothing fails |
| `ImagesJson.Encode` | context/DatabaseContext.tsx:11 | the stored form of an image list, written with `JSON.stringify` by the new-survey screen (app/(app)/new-survey.tsx line 78), is a bracketed JSON array in which every control character is escaped, so the text holds no raw U+0000 to U+001F |
| `ImagesJson.ImagesField` | context/DatabaseContext.tsx:11 | the new-survey screen (app/(app)/new-survey.tsx line 78) stores no `images` field exactly when no image was picked, and otherwise a non-empty string without raw control characters |
| `ImagesJson.Decode` | utils/api.ts:53 | empty text does not parse; what is accepted is given by `DecodeEncode` and `DecodePrintable` |
| `ImagesJson.DecodePrintable` | utils/api.ts:53 | parsing fails on any text holding a raw control character: inside a string literal, as `JSON.parse` throws there too, and between tokens, where `JSON.parse` would skip a tab, line feed or carriage return as whitespace |
| `ImagesJson.DecodeEncode` | utils/api.ts:53 | parsing a stored image list gives back the same references in the same order |
| `Sync.PayloadImages` | utils/api.ts:53 | an absent or empty `images` field becomes `[]`; any other value is parsed, and a parse failure is reported as None. Parsing refuses raw control characters inside strings and reads the escapes of JSON (`\"`, `\\`, `\/`, `\b`, `\f`, `\n`, `\r`, `\t`, `\u` with four hex digits) |
| `Sync.PayloadImagesRoundTrip` | utils/api.ts:53 | a list stored by the new-survey screen reaches the payload unchanged |
| `Sync.ToPayload` | utils/api.ts:43-54 | the payload copies id, title, description and createdAt, nests the coordinates under `location` and carries the parsed images; it cannot be built exactly when the images do not parse |
| `Sync.RecordOutcome` | utils/api.ts:39-70 | a record is skipped exactly when its id is absent or 0; it is uploaded exactly when its payload could be built and the server accepted it; otherwise it is rejected under its own id |
| `Sync.SyncSurveysWithServer` | utils/api.ts:19-80 | an empty batch gives two empty lists. A non-empty batch without a truthy token fails with `AuthRequired` and no partial result. Otherwise the lists are the ids of the uploaded and the rejected records |
| `Sync.PartitionIndependent` | utils/api.ts:37-73 | the reports of two concatenated batches are the two batches' reports joined |
| `Sync.RecordIndependent` | utils/api.ts:38-71 | a record inside a batch is reported exactly as it would be on its own, and the records around it are reported as they would be without it |
| `Sync.PartitionCoversAssigned` | utils/api.ts:37-73 | the two lists together hold exactly the batch's truthy ids, each once per record carrying it |
| `Sync.PartitionCount` | utils/api.ts:37-73 | the lengths of the two lists add up to the number of records with a truthy id |
| `Sync.ReportedIdsMeaning` | utils/api.ts:57-70 | an id is a success exactly when some record carrying it was uploaded, and a failure exactly when some record carrying it was rejected; 0 is never reported |
| `Sync.SuccessAndFailureDisjoint` | utils/api.ts:57-70 | when the batch's truthy ids are distinct, no id is both a success and a failure |
| `Sync.UnparseableImagesFail` | utils/api.ts:53-70 | a record with an id and a non-empty `images` string that does not parse is reported as failed and not as a success |
| `Sync.ControlCharacterImagesFail` | utils/api.ts:53-70 | a record with an id whose `images` text holds a raw control character inside a string literal is reported as failed and not as a success, whatever the server would answer; the model also fails one holding a tab, line feed or carriage return between tokens |
| `Sync.ZeroIdNeverReported` | utils/api.ts:40 | a fallback record that drew id 0 appears in neither list, so it is never marked synced |
| `Sync.ConfirmAllMarks` | database/NativeDatabase.ts:108-115 | the sync screen (app/(app)/surveys.tsx lines 69-71) repeats this update once per reported success; afterwards those records have `synced = 1` and all other records are as they were |
| `Sync.ConfirmedLeaveUnsynced` | database/NativeDatabase.ts:96-115 | after confirmation, no record listed as unsynced carries a reported id |

## Left out

- Opening the databases is not modelled: the IndexedDB open, upgrade and connection callbacks, the SQLite open and table creation, and `ensureDbConnection`/`getDb`. They become the `connected` argument and the `ready` flag.
- Failures of individual requests are not modelled: an IndexedDB request `onerror`, a failing SQL statement, local-storage quota errors, and a stored list that fails to parse (read back as `[]`). These are storage I/O.
- Persistence across sessions is not modelled: each store starts empty.
- Sync.SyncSurveysWithServer: the uploads run concurrently, so in the source both lists are in completion order. The model produces them in input order, and the partition lemmas state their contents as multisets.
- Sync.SyncSurveysWithServer: a `null` batch is not modelled, because the declared type is a list. Only the empty batch is.
- The network and the token store are parameters: the `upload` oracle, which depends only on the payload and the bearer token, and `token` as an `Option`. `fetchFromApi` and `useApiHook` (a network wrapper and React state) are not modelled.
- ImagesJson.Decode: reads arrays of strings with every escape of JSON, and refuses raw control characters inside string literals, as `JSON.parse` does. Whitespace between tokens and JSON values other than arrays of strings are treated as parse failures, although `JSON.parse` accepts them. A `\u` escape naming half of a surrogate pair is refused too, because a Dafny `char` cannot hold half a pair; `JSON.parse` joins such a pair into one character.
- ImagesJson.DecodePrintable: the model refuses a raw control character anywhere in the text only because whitespace between tokens is not modelled. `JSON.parse` skips a tab, line feed or carriage return between tokens and throws only on one inside a string literal.
- Sync.ControlCharacterImagesFail: for the same reason, a record whose `images` text has a tab, line feed or carriage return between tokens is failed in the model, where the source would upload it. `JSON.stringify` never writes such whitespace.
- Timestamps are integers supplied by the caller, not ISO strings. Sorting by ISO string (SQL) and by parsed date (browser) both agree with integer order.
- Coordinates are copied `real` values, with no floating-point behaviour.
- Web.WebDatabase.GetSurveys: among records with the same `createdAt`, the sort keeps ascending key order (`InsertByDate` is stable). The contract does not state that tie order.
- Native.NativeDatabase.GetSurveys: the same applies. SQL leaves tie order unspecified.
- Native.NativeDatabase.SaveSurvey: `lastInsertRowId || 0` can never give 0 here, because AUTOINCREMENT ids start at 1. The contract states the new id instead.
- Logging, authentication, navigation and the database provider component are not part of this model.
