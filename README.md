# video-server file lifecycle, modelled in Dafny

This project models the core of a small video file server: uploads are checked
by content type, recorded in a metadata table and written to a storage
directory; records can be listed, fetched and deleted over HTTP.

- `wrappers.dfy` (`Wrappers`): `Option` and `Result`.
- `decimal.dfy` (`Decimal`): `fmt` decimal rendering of an `int` and `strconv.Atoi`, the 64-bit range included.
- `entity.dfy` (`Entity`): the `File` record, the error values and their codes, `Error()` rendering, `ToMap`, and the record's JSON form.
- `repository.dfy` (`Repository`): the `files` table as a map from id to record plus the auto-increment counter.
  It has pure specifications (`Insert`, `Lookup`, `Remove`, `IsListing`) and the class `FileRepository`, whose methods are proved equal to them.
  The table invariant `Valid` states that the id is the primary key, ids lie below the counter and names are unique.
- `util.dfy` (`Util`): the upload reader `FileReader`, with lazily cached name, size and MIME type and a read position.
  The storage directory is `BlobStore`, a map from path to bytes. `StoreSpec` specifies the non-truncating write.
- `usecase.dfy` (`Usecase`): the coordinator `FileUsecase` over both stores.
  Its pure specifications `Create` and `Delete` act on a `World` (table and blobs). Lemmas state the lifecycle `absent -> active -> absent` and the order in which the two stores change.
- `handler.dfy` (`Handler`): error → status/body mapping, the response projection, id parsing and the four HTTP handlers.
  Each handler returns a `Response` value instead of writing to a response writer.

Failures that the environment decides are explicit parameters:
- `fault`, `dbFault`, `getFault`, `deleteFault`: the database reporting an error of its own.
- `openFault`: the file system refusing to open the blob.
- `removeRefused`: the file system refusing to remove a blob.
- `readFault`: the upload stream failing on read.
- `now`: the clock.
- `sniff`: the content-based MIME detector, a function value.

Behaviour of the code worth knowing when reading the contracts:
- Untranslated errors are passed through unchanged and answered with 500 and the error's text.
- A failed read during MIME detection panics; the request ends as `Aborted` (coordinator) or `Crashed` (handler).
- Deleting through the repository does not report a missing id. Only the coordinator's preceding lookup yields `ErrorFileNotFound`.
- Listing order is not promised. `IsListing` says every row appears exactly once. The implementation happens to scan ids in ascending order.
- The blob write opens the file without truncation. A longer blob already at that path keeps its tail (`Util.OverwriteExact`).
- The `Location` header of a created upload is `files/<id>`, while the blob is stored at `files/<name>`.

## Model

| member | source | states |
|---|---|---|
| `Decimal.FormatInt` | module/internal/handler/file.go:116 | the decimal rendering of an id is non-empty and made of digits and a minus sign |
| `Decimal.FormatIntCanonical` | module/internal/handler/file.go:116 | the rendering has no leading zero: 0 alone renders as `0`, a positive id starts with a digit 1-9, a negative id is `-` followed by digits starting with 1-9 |
| `Decimal.NatDigitsNoLeadingZero` | module/internal/handler/file.go:116 | the digits of a magnitude are `0` exactly for 0 and otherwise start with a non-zero digit |
| `Decimal.Atoi` | module/internal/handler/file.go:78 | a parsed id is a 64-bit int; only an optional sign then digits is accepted (so `12a`, ` 1`, `1.5` and the empty string are rejected); a negative value needs a `-` |
| `Decimal.AtoiCanonical` | module/internal/handler/file.go:78 | an accepted string is an optional sign, zeros, then the rendering of the value's magnitude |
| `Decimal.AtoiPadded` | module/internal/handler/file.go:78 | conversely, a sign (none, `+` before a value >= 0, or `-` before a value <= 0), any zeros and the digits of an in-range value's magnitude are accepted with that value, so `+1`, `007`, `-0` and `-007` parse |
| `Decimal.AtoiSigned` | module/internal/handler/file.go:78 | an optional sign followed by a non-empty digit string whose signed value is in range parses to that signed value |
| `Decimal.AtoiMagnitude` | module/internal/handler/file.go:78 | the digits after an accepted string's sign are non-empty and spell the value's magnitude |
| `Decimal.AtoiFormatInt` | module/internal/handler/file.go:99 | every 64-bit int is parsed back from its decimal rendering |
| `Decimal.FormatIntInjective` | module/internal/handler/file.go:116 | distinct ids render to distinct decimal strings |
| `Entity.NewError` | module/entity/errors.go:29-34 | yields a RequestError with the given status code and message |
| `Entity.PredefinedErrorCodes` | module/entity/errors.go:11-17 | BadRequest 400, ParamType 422, FileNotFound 404, FileExists 409, FileUnsupported 415, pairwise distinct |
| `Entity.ErrorText` | module/entity/errors.go:25-27 | a RequestError renders as `status ...`, a MySQL error as `Error ...`, GORM's not-found as `record not found`, any other error as its message |
| `Entity.RequestErrorTextInjective` | module/entity/errors.go:25-27 | the text `status <code>: err <message>` determines both code and message |
| `Entity.ToMap` | module/entity/file.go:13-21 | keys are exactly ID, Name, Size, MimeType, CreatedAt |
| `Entity.ToMapLossless` | module/entity/file.go:14-20 | each key is bound to its own field: the record is recovered from the map |
| `Entity.JsonFields` | module/entity/file.go:5-11 | the JSON form has exactly the keys fileid, name, size, created_at, and each key holds its field: id, name, size, creation time |
| `Entity.JsonDropsOnlyMimeType` | module/entity/file.go:5-11 | two records have the same JSON form exactly when they differ at most in MimeType: every other field is kept under its own key |
| `Repository.FileColumnsLayout` | module/internal/repository/file.go:18-26 | FileColumns is "id" followed by the four insert columns in order, all distinct |
| `Repository.TranslateCreateError` | module/internal/repository/file.go:55-59 | MySQL error 1062 becomes ErrorFileExists, any other error passes unchanged |
| `Repository.TranslateGetError` | module/internal/repository/file.go:75-80 | record-not-found becomes ErrorFileNotFound, any other error passes unchanged |
| `Repository.Insert` | module/internal/repository/file.go:45-62 | succeeds exactly when there is no fault and the name is free; then the row holds the parameters and the time under the counter's id, and the counter advances; a failure leaves the table |
| `Repository.Lookup` | module/internal/repository/file.go:72-83 | succeeds exactly when there is no fault and the id has a row, returning that row; a missing id yields ErrorFileNotFound; a database fault is translated (not-found becomes ErrorFileNotFound, anything else passes unchanged) |
| `Repository.Remove` | module/internal/repository/file.go:85-89 | a fault is returned with the table unchanged; otherwise no error, the id has no row and every other row is unchanged |
| `Repository.LookupAsWritten` | module/internal/repository/file.go:72-83 | as the query is built: equals `Lookup` for every id but 0; for id 0 it succeeds exactly when the table has any row |
| `Repository.RemoveAsWritten` | module/internal/repository/file.go:85-89 | as the query is built: equals `Remove` for every id but 0; id 0 fails with GORM's missing-condition error |
| `Repository.FirstRowFrom` | module/internal/repository/file.go:74 | GORM's `First` with no usable condition: the row with the smallest id at or above the bound, or none when no such row exists |
| `Repository.ZeroIdAsWritten` | module/internal/repository/file.go:72-89 | on a table holding only record 1, id 0 fetches record 1 and fails to delete, where `Lookup`/`Remove` give not-found and a no-op |
| `Repository.InsertPreservesValid` | module/entity/file.go:6-7 | insertion keeps ids as primary keys below the counter and names unique |
| `Repository.InsertErrors` | module/internal/repository/file.go:53-60 | a failed insert leaves the table unchanged; 1062 yields ErrorFileExists, other errors are returned unchanged |
| `Repository.DuplicateNameRejected` | module/internal/repository/file.go:56-57 | a name already stored is refused with ErrorFileExists and the table is unchanged |
| `Repository.InsertThenLookup` | module/internal/repository/file.go:45-62 | a new row carries the given name, size, MIME type and time under a fresh id above all existing ids, and reads back by id |
| `Repository.SecondCreateSameNameFails` | module/entity/file.go:7 | after one create, a second create with the same name fails with ErrorFileExists |
| `Repository.RemovePreservesValid` | module/internal/repository/file.go:85-89 | deleting keeps the table invariant |
| `Repository.RemoveThenLookup` | module/internal/repository/file.go:86-88 | after a delete the id is not found, other rows are unchanged, the counter does not move back |
| `Repository.LookupMissingIsNotFound` | module/internal/repository/file.go:72-83 | a missing id yields ErrorFileNotFound |
| `Repository.DeletedIdNotReused` | module/entity/file.go:6 | a create after a delete never gets the deleted id |
| `Repository.ListingSize` | module/internal/repository/file.go:65-70 | a listing has exactly one entry per row |
| `Repository.ListedBelowStep` | module/internal/repository/file.go:67 | one scan step keeps "the listing holds exactly the rows below the bound" |
| `Repository.ListedBelowAppend` | module/internal/repository/file.go:67 | appending the row with the bound's id extends the ascending scan by one id |
| `Repository.ListedBelowAll` | module/internal/repository/file.go:67 | a scan up to the counter lists every row once |
| `Repository.FileRepository.constructor` | module/internal/repository/file.go:39-43 | a new repository has an empty table with counter 1 |
| `Repository.FileRepository.CreateFile` | module/internal/repository/file.go:45-62 | new table and result are those of `Insert`; the invariant is kept |
| `Repository.FileRepository.ListFiles` | module/internal/repository/file.go:65-70 | returns the error unchanged with an empty slice, or every row exactly once |
| `Repository.FileRepository.GetFile` | module/internal/repository/file.go:72-83 | result is that of `Lookup` |
| `Repository.FileRepository.DeleteFile` | module/internal/repository/file.go:85-89 | new table and error are those of `Remove`: the raw error, or the row removed and no error even for a missing id |
| `Util.BlobPath` | internal/util/file.go:83 | the blob path is StoragePath, a slash, then the name |
| `Util.BlobPathInjective` | internal/util/file.go:83 | different names are stored at different paths |
| `Util.Overwrite` | internal/util/file.go:84 | a write without truncation: the new bytes, then the old bytes beyond them |
| `Util.OverwriteExact` | internal/util/file.go:84 | the blob equals the upload exactly when no longer blob was there before |
| `Util.StoreSpec` | internal/util/file.go:80-91 | other paths are untouched; a failed open is returned with nothing written; after a successful open the path exists; a failed copy is reported with the old content kept; without faults the blob is the old blob at that path (or nothing) overwritten from its start by the remaining bytes, and no error is returned |
| `Util.Lookahead` | internal/util/file.go:62 | the detector sees exactly the next min(3072, remaining) bytes from the current position |
| `Util.DetectAt` | internal/util/file.go:60-66 | detection panics exactly when reading the upload fails, and otherwise reports no error |
| `Util.DetectionSeesOnlyLookahead` | internal/util/file.go:62 | uploads that agree on the read-ahead window from the position are classified alike |
| `Util.BlobStore.constructor` | internal/util/file.go:13-15 | the storage directory starts empty |
| `Util.BlobStore.Remove` | module/internal/usecase/file.go:80 | removes an existing blob, otherwise reports an error and changes nothing |
| `Util.FileReader.constructor` | internal/util/file.go:34-44 | a fresh reader has name "", size -1, no MIME type and position 0 |
| `Util.FileReader.GetName` | internal/util/file.go:46-51 | returns the header's file name and caches it, the same on every call |
| `Util.FileReader.GetSize` | internal/util/file.go:53-58 | returns the header's size, cached behind the -1 sentinel |
| `Util.FileReader.GetFileMimeType` | internal/util/file.go:60-78 | detects once and caches; rewinds to 0; the error result is always nil; a read failure panics and changes nothing |
| `Util.FileReader.Store` | internal/util/file.go:80-91 | blobs and error are those of `StoreSpec` for the bytes from the read position at StoragePath/name; the position reaches the end |
| `Util.FileReader.Close` | internal/util/file.go:94-100 | marks the upload closed and returns what closing reported |
| `Usecase.PrimaryType` | module/internal/usecase/file.go:48 | the longest prefix without `/`, ending at the first `/` or at the end |
| `Usecase.PrimaryTypeUnique` | module/internal/usecase/file.go:48 | any prefix with those properties is the primary type |
| `Usecase.PrefixTypeAccepted` | module/internal/usecase/file.go:48 | a type equal to a slash-free prefix, or continuing it with `/`, has that primary type |
| `Usecase.AcceptedTypeHasPrefix` | module/internal/usecase/file.go:48 | a type with primary type `v` is `v` or continues `v` with `/` |
| `Usecase.VideoTypeAccepted` | module/internal/usecase/file.go:48 | `video` and `video/...` are accepted |
| `Usecase.AcceptedTypeIsVideo` | module/internal/usecase/file.go:48 | only `video` and `video/...` are accepted |
| `Usecase.AcceptedMimeTypes` | module/internal/usecase/file.go:48-50 | accepted exactly when the type is `video` or starts with `video/` |
| `Usecase.Create` | module/internal/usecase/file.go:42-63 | aborts exactly on a detection panic; never returns neither record nor error; a rejected or failed upload changes nothing; a returned record is video, has the counter's id and is the one row added |
| `Usecase.Delete` | module/internal/usecase/file.go:74-82 | succeeds exactly when neither query fails and the id has a row, which is then gone; a failed lookup or missing id changes nothing; after a successful lookup the blobs lose exactly the record's StoragePath/name unless the removal is refused, and are otherwise unchanged; the counter stays |
| `Usecase.DeleteAsWritten` | module/internal/usecase/file.go:74-82 | DeleteFile over the repository as written; equal to `Delete` for every id but 0 |
| `Usecase.CreatePreservesValid` | module/internal/usecase/file.go:42-63 | Create keeps the table invariant |
| `Usecase.RejectedUploadLeavesNoTrace` | module/internal/usecase/file.go:43-50 | a detection panic or error, or a non-video type, changes neither store and gives no record |
| `Usecase.FailedInsertWritesNoBlob` | module/internal/usecase/file.go:57-59 | a failed insert is returned unchanged with no record and no blob write |
| `Usecase.DuplicateUploadRejected` | module/internal/usecase/file.go:52-59 | an upload whose name is stored fails with ErrorFileExists and overwrites no blob |
| `Usecase.AcceptedUploadCreatesRecord` | module/internal/usecase/file.go:52-62 | the record has the reader's name and size and the detected type; it stays even when the blob write fails, and a failed open or copy is reported with it |
| `Usecase.AcceptedUploadStoresBlob` | module/internal/usecase/file.go:61-62 | without faults the blob at StoragePath/name starts with the uploaded bytes, equals them when no longer blob was there, and keeps the old tail beyond them when a longer blob was there; other blobs unchanged |
| `Usecase.FailedLookupDeletesNothing` | module/internal/usecase/file.go:75-78 | a failed lookup is returned and neither blob nor row is removed |
| `Usecase.DeleteMissingIsNotFound` | module/internal/usecase/file.go:74-78 | deleting a missing id reports ErrorFileNotFound and changes nothing |
| `Usecase.DeleteRemovesRecordAndBlob` | module/internal/usecase/file.go:74-82 | a delete without faults removes row and blob and nothing else |
| `Usecase.DeleteOrder` | module/internal/usecase/file.go:80-81 | the blob is removed first (a refusal is ignored); a failing row delete leaves the row and returns its error |
| `Usecase.DeletePreservesValid` | module/internal/usecase/file.go:74-82 | Delete keeps the table invariant |
| `Usecase.CreateThenDelete` | module/internal/usecase/file.go:42-82 | after create then delete, the id is not found, the blob is gone, the counter is past the id |
| `Usecase.FileUsecase.constructor` | module/internal/usecase/file.go:32-40 | given a repository whose table is valid, the coordinator holds that repository and storage and satisfies its invariant |
| `Usecase.FileUsecase.CreateFile` | module/internal/usecase/file.go:42-63 | new stores and outcome are those of `Create` with the reader's pending detection and header; the upload is not closed here; a panic leaves the reader as it was; otherwise the reader caches the detected type and ends rewound, or at the end after a successful store |
| `Usecase.FileUsecase.ListFiles` | module/internal/usecase/file.go:65-67 | returns the repository's listing or its error |
| `Usecase.FileUsecase.GetFile` | module/internal/usecase/file.go:69-72 | returns the repository's lookup, error included |
| `Usecase.FileUsecase.DeleteFile` | module/internal/usecase/file.go:74-82 | new stores and error are those of `Delete` |
| `Handler.WriteHTTPResponse` | module/internal/handler/handler.go:20-26 | JSON content type, the given status, a body exactly when one is given |
| `Handler.BuildErrorResponse` | module/internal/handler/handler.go:10-18 | a RequestError answers its own status with no body; any other error answers 500 with `{"message": err.Error()}` |
| `Handler.ErrorStatuses` | module/internal/handler/handler.go:11-17 | the predefined errors answer 400, 404, 409, 415, 422; a plain error answers 500 with its message |
| `Handler.FileEntityToResponse` | module/internal/handler/file.go:114-121 | copies name, size and creation time and renders the id in decimal |
| `Handler.ResponseDropsOnlyMimeType` | module/internal/handler/file.go:115-120 | two records project alike exactly when they differ at most in MIME type |
| `Handler.ListedIdResolves` | module/internal/handler/file.go:116 | a listed fileid parses back to the record's id |
| `Handler.BuildListResult` | module/internal/handler/file.go:66-69 | the result has the same length and order as the list, each entry the projection of its record |
| `Handler.CreatedResponse` | module/internal/handler/file.go:54-56 | 201, Location = StoragePath/<decimal id>, JSON content type, no body |
| `Handler.CreateReply` | module/internal/handler/file.go:48-56 | errors go through BuildErrorResponse, a record without error answers 201, a panic stays a crash |
| `Handler.UploadCrashesOnlyOnPanic` | module/internal/handler/file.go:48-56 | an upload crashes exactly when MIME detection panics; the nil-record dereference cannot happen |
| `Handler.ZeroIdRequestsAsWritten` | module/internal/handler/file.go:74-112 | with record 1 stored, as written GET of id 0 serves record 1 and DELETE of id 0 removes its blob, keeps its row and answers 500; as intended both answer 404 and change nothing |
| `Handler.CreateStatuses` | module/internal/handler/file.go:48-56 | created 201, exists 409, unsupported 415, failed blob write 500 |
| `Handler.GetFileResponse` | module/internal/handler/file.go:90-92 | attachment named after the record, its MIME type, the blob at StoragePath/name served with 200 |
| `Handler.FileHandler.constructor` | module/internal/handler/file.go:27-31 | the handler holds the given coordinator |
| `Handler.FileHandler.CreateFile` | module/internal/handler/file.go:40-57 | a missing `data` field answers 400 without touching the stores; otherwise stores and reply are those of `Create` on a fresh reader |
| `Handler.FileHandler.ListFiles` | module/internal/handler/file.go:59-72 | an error answers through BuildErrorResponse; otherwise 200 with one projected entry per row (`[]` when empty) |
| `Handler.FileHandler.GetFile` | module/internal/handler/file.go:74-93 | a missing or non-integer id answers 404 without a lookup; otherwise the lookup's record is served or its error answered |
| `Handler.FileHandler.DeleteFile` | module/internal/handler/file.go:95-112 | a missing or non-integer id answers 404 and changes nothing; otherwise stores follow `Delete` and a success answers 204 with no body |

## Findings

| source | as written | input that shows it | evidently intended | confidence | as-written member | corrected member |
|---|---|---|---|---|---|---|
| module/internal/repository/file.go:72-89 | GetFile and DeleteFile filter only by the record's primary key, which GORM omits when it is zero | `GET /v1/files/0` and `DELETE /v1/files/0` with record 1 stored: the first serves record 1; the second removes its blob, keeps its row and answers 500 | id 0 has no row: 404 and nothing removed | medium, rests on GORM's treatment of zero keys; not executed | `Handler.ZeroIdRequestsAsWritten` | `Repository.LookupMissingIsNotFound` |

## Left out

- Repository.Lookup: models the intended query, in which id 0 has no row (see Findings). So `LookupMissingIsNotFound` and `DeleteMissingIsNotFound` hold for the code only for ids other than 0.
- Repository.InsertThenLookup: the creation time reads back exactly. A column of lower precision than Go's `time.Time` would truncate it; the schema is not part of this model.

- MIME detection is the function value `sniff`. The detector's own rules are not modelled.
- The clock is the parameter `now`. The database's own failures, the file system's refusals and stream read failures are parameters too.
- SQL, GORM, transactions, the MySQL driver and schema migration are not modelled. The table is an in-memory map; only the error translation is kept.
- `MySqlError` texts are rendered without the optional SQLSTATE part.
- The exact message of a duplicate-key error is not modelled; only its number 1062 matters to the code.
- Whether a failed insert consumes an auto-increment value is not modelled. The model does not advance the counter on failure.
- JSON encoding to bytes is not modelled. A body is the JSON value that is encoded and followed by a newline.
- `http.ServeFile` is not modelled. Its own statuses (a missing blob, ranges, conditional requests) are not captured; a served file is answered 200.
- Route registration, multipart parsing and closing the request's file part are not modelled.
- `os.MkdirAll` is not modelled; the storage directory always exists.
- A failing write during the copy is not modelled, and neither is a failing seek during MIME detection. Only open and read failures are.
- Util.FileReader.Close: the branch for a file that is not an `io.Closer` is not modelled. A multipart file always is one.
- Util.FileReader.GetFileMimeType: the panic is an outcome value; the call's return path and the panic are not distinguished otherwise.
- Usecase.FileUsecase.CreateFile: the early return on a detection error is only in the specification `Usecase.Create`, because the reader never reports one.
- Concurrency is not modelled: same-name uploads racing at the unique index, or a Get racing a Delete. The model is sequential.
- Integer widths are not modelled except in `Decimal.Atoi`. Ids and sizes are unbounded integers.
- Bootstrap, configuration, wiring, the health endpoint and the unused pagination struct are not part of this model.
