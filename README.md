# CSV log dashboard: a verified model of its core

The dashboard stores uploaded CSV logs and summarises them.

- A FastAPI backend validates each upload. It keeps one row per file in the `uploaded_csvs` table and the bytes in a local directory. Files can be listed, fetched, downloaded and deleted.
- The backend also counts a file's rows per Asia/Tokyo calendar day, using the `time_generated` column (microseconds since the Unix epoch).
- A React frontend checks a picked file before uploading it and shows a list of files.

This project models that core in Dafny and proves properties of the model. Modules:

- `Summary` (`summary.dfy`): the daily count of `GET /summary/{id}`.
  - It is a pure function over the record table, the blob store and the CSV reader.
  - Its result is proved to be the unique daily summary of the column: ascending dates, one entry per day, each count the number of rows on that day, and the counts adding up to the convertible rows.
  - This router is not mounted in `backend/app/main.py:12`, which includes only the files router. It is modelled as written.
- `CivilDate` (`civil_date.dfy`): the calendar behind the summary.
  - Days from the epoch convert to proleptic Gregorian dates, with a round trip both ways.
  - The Tokyo day of a timestamp is a floor division after a fixed +9 h shift.
  - Dates are written as `YYYY-MM-DD`, the `full-date` of section 5.6 of RFC 3339. String order of these labels is day order.
- `FilesApi` (`files_api.dfy`): the `/files` endpoints.
  - The upload check chain is a function.
  - The endpoints are a `FileService` class over the record map and the store.
- `Storage` (`storage.dfy`): `LocalStorageService`, a class over a map from file name to bytes.
- `Utf8` (`utf8.dfy`): UTF-8 as section 4 of RFC 3629 defines it. Well-formedness is proved equivalent to "is the encoding of some scalar values".
- `FileUpload` (`file_upload.dfy`): `validateFile`, the widget's state machine (`UploadWidget`), and the comparison of the client's extension test with the server's.
- `FileList` (`file_list.dfy`): the single expanded row, and `formatSize` with `toFixed(1)` written out in integers.
- `Records`, `Text`, `Arith`: shared types (the record shape of `backend/app/models.py:10-18`, the CSV reader, error reasons), string order and digits, and two division facts.

Foreign parts become parameters:

- `pandas.read_csv` is a function parameter from bytes to a table or a failure.
- The fresh `uuid4` and the database clock are arguments of `UploadFile`.
- The `fetch` of the upload form is an outcome argument of `FinishSubmit`.

## Model

| member | source | states |
|---|---|---|
| `Summary.GetSummary` | backend/app/api/summary.py:23-51 | 404 when no record has the id, whatever the store holds; 500 when the blob is missing or pandas fails; 400 without a `time_generated` column; otherwise a result satisfying `IsDailySummary` for that column |
| `Summary.SummaryOfRows` | backend/app/api/summary.py:36-45 | the group-count-sort of the kept labels is a daily summary: strictly ascending dates, each count equal to the rows on that day and at least 1, every kept row's day listed, counts summing to the convertible rows |
| `Summary.DailySummaryUnique` | backend/app/api/summary.py:39-45 | two lists that are both daily summaries of the same column are equal, so the response is fully determined |
| `Summary.Tally` | backend/app/api/summary.py:39-44 | `groupby().size().sort_values()`: strictly ascending, all counts positive, dates exactly the labels present, each count the label's number of occurrences, total the number of labels |
| `Summary.Insert` | backend/app/api/summary.py:39-43 | counting one more row on a day keeps the list ascending and positive, adds the day to the date set, raises only that day's count by one |
| `Summary.Coerce` | backend/app/api/summary.py:36-37 | `to_datetime(unit="us", errors="coerce")`: a kept value is an integer inside pandas' timestamp range; anything else becomes NaT |
| `Summary.RowDate` | backend/app/api/summary.py:36-38 | a row gets a label exactly when its timestamp converts |
| `Summary.KeptDatesLength` | backend/app/api/summary.py:37 | `dropna` keeps one label per convertible row |
| `Summary.KeptDatesOccurrences` | backend/app/api/summary.py:37-41 | a label occurs among the kept labels as often as rows fall on that day |
| `Summary.KeptDatesComplete` | backend/app/api/summary.py:37-38 | no convertible row is dropped: its label is among the kept labels |
| `Summary.AscendingSameDates` | backend/app/api/summary.py:43 | two strictly ascending lists over the same set of dates list them in the same order |
| `Summary.KeptDates` | backend/app/api/summary.py:36-38 | `dropna` then `strftime`: the labels of the convertible rows in row order; `KeptDatesLength`, `KeptDatesOccurrences` and `KeptDatesComplete` state its properties |
| `Summary.SummaryStatus` | backend/app/api/summary.py:23-51 | the endpoint's status codes both ways: 404 exactly for an unknown id, 400 exactly for a readable CSV without `time_generated`, 500 exactly for a known id whose blob is missing or unreadable, success exactly otherwise |
| `Summary.ColumnCells` | backend/app/api/summary.py:33-36 | `df["time_generated"]` has one cell per data row |
| `CivilDate.TokyoDay` | backend/app/api/summary.py:36 | the Tokyo day n brackets the instant: n days after the epoch ≤ us + 9 h < n + 1 days |
| `CivilDate.TokyoLabel` | backend/app/api/summary.py:36-38 | the label of a timestamp is `YYYY-MM-DD` of the calendar date whose day number is the Tokyo day; year, month and day read back from its fields |
| `CivilDate.TokyoDateInRange` | backend/app/api/summary.py:36 | every timestamp pandas can represent falls in a valid date of a year between 1677 and 2262, so every label has a four-digit year |
| `CivilDate.TokyoDateStringOrder` | backend/app/api/summary.py:38-43 | two timestamps share a label exactly when they share a Tokyo day, and labels sort as strings exactly as the days do |
| `CivilDate.CivilFromDays` | backend/app/api/summary.py:38 | the date of a day number is a valid Gregorian date with that day number |
| `CivilDate.CivilRoundTrip` | backend/app/api/summary.py:38 | a valid date converts to its day number and back unchanged |
| `CivilDate.DateStringOrder` | backend/app/api/summary.py:43 | an earlier date has a lexicographically smaller `YYYY-MM-DD` string |
| `CivilDate.DateString` | backend/app/api/summary.py:38 | `strftime("%Y-%m-%d")` for a four-digit year: ten characters with '-' at positions 4 and 7; `DateStringFields` reads the fields back and `DateStringOrder` relates its order to date order |
| `CivilDate.TokyoDateString` | backend/app/api/summary.py:36-38 | the label of a timestamp: the `YYYY-MM-DD` text of its Tokyo day, ten characters long; `TokyoLabel` and `TokyoDateStringOrder` state what it means |
| `CivilDate.EpochAnchor` | backend/app/api/summary.py:36-38 | day 0 is 1970-01-01, and the timestamp 1754925304305014 written by backend/tests/test_upload.py:50 is labelled `2025-08-12` in Tokyo |
| `CivilDate.DateStringFields` | backend/app/api/summary.py:38 | the `YYYY`, `MM` and `DD` fields of the label read back as year, month and day |
| `FilesApi.CheckUpload` | backend/app/api/files.py:27-45 | the refusals in their order: a name not ending in `.csv`, then empty content, then more than 5 MiB, then bad UTF-8, then a parser error, another pandas failure (500), a frame without rows or columns; an accepted upload has at least one row and one column |
| `FilesApi.RejectionStatus` | backend/app/api/files.py:27-76 | the status of every refusal: 400 for a bad name whatever the contents, an empty upload, bytes that are not UTF-8, a parser error, and a frame without header or rows (the cases of backend/tests/test_upload.py:20-42); 413 for more than 5 MiB; 500 for any other reader failure; 413 and 500 arise from nothing else |
| `FilesApi.EndsWithCsv` | backend/app/api/files.py:27 | the server's extension test: the name's last four characters are exactly `.csv`, case-sensitive; `FileUpload.ServerNameIsClientName` and the two mismatch lemmas compare it with the client's |
| `FilesApi.SizeBoundary` | backend/app/api/files.py:33-34 | a content is refused as too large exactly when it has at least 5 × 1024 × 1024 + 1 bytes |
| `FilesApi.EncodingRejection` | backend/app/api/files.py:36-39 | the encoding refusal happens exactly when no sequence of Unicode scalar values encodes to the content |
| `FilesApi.FileService.UploadFile` | backend/app/api/files.py:25-76 | a refused upload changes nothing and returns the chain's reason; an id already in the table gives 500 and changes nothing; otherwise the new row (size, rows, columns, clock) is added, the bytes are stored under the id, every other row and blob is unchanged, and the response echoes id, name, size, rows and columns |
| `FilesApi.FileService.ListFiles` | backend/app/api/files.py:78-86 | one item per row, each taken from its row, no id twice, every row present |
| `FilesApi.FileService.GetFile` | backend/app/api/files.py:88-93 | the row filed under the id, or 404 exactly when there is none |
| `FilesApi.FileService.DownloadFile` | backend/app/api/files.py:95-104 | corrected download: the stored bytes as `text/csv` under the uploaded name when both row and blob exist, 404 otherwise |
| `FilesApi.FileService.DownloadAsWritten` | backend/app/api/files.py:101-102 | download as written: 404 without a row, 500 with one; it never succeeds |
| `FilesApi.DownloadDiscrepancy` | backend/app/api/files.py:101-104 | for a file with row and blob, the written endpoint fails with 500 where the corrected one returns the file |
| `FilesApi.FileService.DeleteFile` | backend/app/api/files.py:106-116 | an unknown id gives 404 and changes nothing; otherwise the row and the blob are both removed and nothing else changes |
| `FilesApi.DeleteThenQuery` | backend/app/api/files.py:79-116 | after a delete, get and download give 404, the list omits the id and is one shorter, and a second delete gives 404 |
| `FilesApi.UploadThenDownload` | backend/tests/test_files.py:20-32 | an upload that succeeds downloads back as the same bytes typed `text/csv`; it succeeds exactly when the checks pass and the id is new |
| `FilesApi.ReadRest` | backend/app/api/files.py:30 | reading the stream returns everything after the position and leaves the position at the end |
| `FilesApi.BlobAsWritten` | backend/app/api/files.py:30-58 | as written, the read returns the whole upload, and the copy that follows stores nothing |
| `FilesApi.StoredBlobDiscrepancy` | backend/app/api/files.py:58 | as written, any non-empty upload is stored as a blob different from its contents |
| `Utf8.WellFormedIffEncoding` | backend/app/api/files.py:36-39 | `bytes.decode("utf-8")` succeeds exactly on encodings of scalar-value sequences |
| `Utf8.WellFormed` | backend/app/api/files.py:36-39 | strict `decode("utf-8")` succeeds: the bytes split into well-formed characters of section 3 of RFC 3629; `WellFormedIffEncoding` characterises it |
| `Utf8.Decode` | backend/app/api/files.py:37 | decoding well-formed bytes gives scalar values that encode back to those bytes |
| `Utf8.DecodeEncode` | backend/app/api/files.py:37 | decoding an encoding gives back the scalar values |
| `Utf8.EncodeIsWellFormed` | backend/app/api/files.py:36-39 | every encoding passes the UTF-8 check |
| `Storage.LocalStorageService.constructor` | backend/storage_services.py:6-8 | a new service sees what the directory already holds |
| `Storage.LocalStorageService.GetFilePath` | backend/storage_services.py:19-20 | the path is the base directory, one separator and the id, whether or not the file exists |
| `Storage.LocalStorageService.PathsDiffer` | backend/storage_services.py:19-20 | different ids get different paths |
| `Storage.LocalStorageService.SaveFile` | backend/storage_services.py:10-14 | the id now holds exactly the given bytes, every other id is unchanged, and the path returned is the id's path |
| `Storage.LocalStorageService.ListFiles` | backend/storage_services.py:16-17 | exactly the paths of the stored ids, each once |
| `Storage.LocalStorageService.DeleteFile` | backend/storage_services.py:22-25 | the id is absent afterwards, whether or not it was there, and every other id is unchanged |
| `Storage.DeleteIsIdempotent` | backend/storage_services.py:22-25 | deleting twice leaves the store as deleting once does |
| `Storage.SaveOverwrites` | backend/storage_services.py:12-13 | a second save to the same id leaves only the second content |
| `FileUpload.ValidateFile` | frontend/src/app/components/FileUpload.tsx:17-29 | valid exactly for a present file with a CSV extension and at most 5 MiB; the message is empty exactly when valid; no file, then the extension, then the size decide the message |
| `FileUpload.ValidIffEmptyMessage` | frontend/src/app/components/FileUpload.tsx:28 | a result is valid exactly when the text of its message is empty |
| `FileUpload.LastSegment` | frontend/src/app/components/FileUpload.tsx:21 | `split('.').pop()`: the longest dot-free suffix of the name, preceded by a '.' unless it is the whole name |
| `FileUpload.ToLower` | frontend/src/app/components/FileUpload.tsx:21 | lower-casing keeps the length and maps each letter on its own |
| `FileUpload.ClientAcceptsName` | frontend/src/app/components/FileUpload.tsx:21-22 | the client's extension test: the text after the last '.', lower-cased, is `csv`; `ClientAcceptsNameIff` characterises it without `split` |
| `FileUpload.ClientAcceptsNameIff` | frontend/src/app/components/FileUpload.tsx:21-23 | the client accepts a name exactly when it ends in `csv` in any mix of cases and that suffix is the whole name or follows a '.' |
| `FileUpload.ServerNameIsClientName` | frontend/src/app/components/FileUpload.tsx:21-23 | every name the server's `endswith('.csv')` accepts, the client accepts too |
| `FileUpload.UpperCaseExtensionMismatch` | frontend/src/app/components/FileUpload.tsx:21-23 | `a.CSV` passes the client and is refused by the server |
| `FileUpload.DotlessNameMismatch` | frontend/src/app/components/FileUpload.tsx:21-23 | `csv`, with no dot, passes the client and is refused by the server |
| `FileUpload.UploadWidget.constructor` | frontend/src/app/components/FileUpload.tsx:6-14 | the widget starts with no file, no error, no success, not uploading, no drag highlight |
| `FileUpload.UploadWidget.HandleFileChange` | frontend/src/app/components/FileUpload.tsx:31-42 | an invalid pick clears the file and shows its message; a valid pick keeps the file and clears the error; both clear the success notice; a held file is always one the client accepts |
| `FileUpload.UploadWidget.HandleDrop` | frontend/src/app/components/FileUpload.tsx:44-57 | as a pick, and the drag highlight goes off |
| `FileUpload.UploadWidget.HandleDragOver` | frontend/src/app/components/FileUpload.tsx:59-62 | the drag highlight goes on and nothing else changes |
| `FileUpload.UploadWidget.HandleDragLeave` | frontend/src/app/components/FileUpload.tsx:64-66 | the drag highlight goes off and nothing else changes |
| `FileUpload.UploadWidget.BeginSubmit` | frontend/src/app/components/FileUpload.tsx:68-78 | without a file only the error is set and the upload never starts; with one, the upload starts with error and success cleared |
| `FileUpload.UploadWidget.FinishSubmit` | frontend/src/app/components/FileUpload.tsx:89-102 | the upload is over either way; success names the submitted file with the server's rows and columns and empties the form; failure shows the error and keeps the file |
| `FileUpload.UploadWidget.HandleSubmit` | frontend/src/app/components/FileUpload.tsx:68-103 | a whole submit: with no file, the error and nothing else; otherwise not uploading at the end, and success clears the file |
| `FileList.FileListView.constructor` | frontend/src/app/components/FileList.tsx:24 | no row is expanded at first |
| `FileList.FileListView.ToggleExpand` | frontend/src/app/components/FileList.tsx:26-28 | the clicked row flips between expanded and collapsed, and no other row is expanded afterwards |
| `FileList.ToggleTwice` | frontend/src/app/components/FileList.tsx:26-28 | two clicks on a row restore the state when that row or none was expanded, and collapse everything otherwise |
| `FileList.FormatSize` | frontend/src/app/components/FileList.tsx:32-36 | below 1024 the integer as JavaScript writes it for sizes from -2^53 up (no leading zero, a '-' only for negatives) then " B"; below 1024² a one-decimal number then " KB"; otherwise one-decimal then " MB"; the number has no leading zero and reads back as the size in that unit rounded to the nearest tenth, ties upward; with `Text.CanonicalRoundTrip` and `FileList.Fixed1Unique` this determines the text |
| `FileList.Fixed1` | frontend/src/app/components/FileList.tsx:34-35 | `toFixed(1)` of a non-negative number of tenths: the integer part, '.', the tenths digit |
| `FileList.Fixed1Unique` | frontend/src/app/components/FileList.tsx:34-35 | a text that reads back as a number of tenths is the one `toFixed(1)` writes for it, so no other text reads back the same |
| `Text.IntString` | frontend/src/app/components/FileList.tsx:33 | `bytes + " B"`'s number-to-string: a leading '-' exactly for negatives |
| `Text.IntStringRoundTrip` | frontend/src/app/components/FileList.tsx:33 | the written integer is canonical (no leading zero, no "-0") and reads back as the same integer |
| `Text.CanonicalRoundTrip` | frontend/src/app/components/FileList.tsx:33 | a canonical integer text is the one written for its value: texts and integers correspond one to one |
| `Text.LexLess` | backend/app/api/summary.py:43 | Python's `str` order, used by `sort_values("date")`: a proper prefix is smaller, otherwise the first differing character decides; proved irreflexive, transitive, asymmetric and total |
| `FileList.Tenths` | frontend/src/app/components/FileList.tsx:34-35 | the integer chosen is the nearest tenth of bytes over the unit, ties going up, as `toFixed(1)` chooses |
| `FileList.Fixed1RoundTrip` | frontend/src/app/components/FileList.tsx:34-35 | the one-decimal text reads back as the number of tenths it writes |
| `Records.Status` | backend/app/api/files.py:27-76 | every refusal maps to 400, 404, 413 or 500; `FilesApi.RejectionStatus` and `Summary.SummaryStatus` say which refusal gets which |

## Left out

- HTTP plumbing is not part of this model: routing, JSON encoding, the error handlers of `backend/app/exceptions.py`, the Next.js proxy routes and all rendering.
- A path id that is not a UUID is refused with 422 by FastAPI before any handler runs. Ids here are plain strings.
- `pandas.read_csv` is a parameter. Its parsing and dtype inference are not modelled, and neither is the difference between reading the decoded text (upload) and reading the file (summary).
- `Summary.Coerce`: only integer cells and integer text (an optional '-' and digits) are converted. Fractional values, exponent notation and the float rounding of values above 2^53 are not modelled.
- Asia/Tokyo is a fixed UTC+9. That matches the time-zone database only from 1952 on; the local mean time before 1888 and the daylight saving time of 1948-1951 are not modelled.
- `FileList.FormatSize`: requires a size of at least -2^53 and below 10^21 MiB. Above the upper bound, `toFixed` writes exponent notation. Below -2^53, JavaScript's number-to-string writes the shortest round-tripping digits (e.g. `-1152921504606847000` for -2^60, `-1e+21` for -10^21) rather than the exact ones. Neither range is modelled. The list passes the backend's `filesize`, the byte length of a non-empty upload, which is far inside both bounds.
- `formatDate` (`toLocaleString`) and the ISO rendering of `uploaded_at` in the list are locale and clock formatting. They are not modelled; `uploadedAt` is an integer.
- Database and filesystem failures are not modelled: a failed commit other than an id clash, a disk error, or a save that fails after the commit.
- Concurrency between requests is not modelled. The widget's submit is split into `BeginSubmit` and `FinishSubmit` so that other handlers may run in between, but no interleaving is analysed.
- Path normalisation of `pathlib` is not modelled: an empty base directory, trailing separators, or ids holding a separator.
- `FileUpload.ToLower`: lower-cases ASCII letters only. JavaScript's `toLowerCase` is Unicode-wide, but only `C`, `S` and `V` lower-case to `c`, `s` and `v`, so the comparison with `csv` is the same.
- `FileUpload.UploadWidget.FinishSubmit`: a response without `data.rows` or `data.columns` is not modelled; the outcome carries them.
- The shown message strings are kept as an enumeration, with `FileUpload.MessageText` giving each one's text.

## Findings

| source | as written | input that shows it | evidently intended | confidence | as-written member | corrected member |
|---|---|---|---|---|---|---|
| backend/app/api/files.py:30-58 | `await file.read()` consumes the upload stream, then `save_file` copies `file.file` from its current position, which is the end | any non-empty valid upload, e.g. `a.csv` holding `t\n1\n` | the stored blob holds the uploaded bytes, as backend/tests/test_files.py:31 expects | not executed; high (the stream is not rewound between the two calls) | `FilesApi.StoredBlobDiscrepancy` | `FilesApi.FileService.UploadFile` |
| backend/app/api/files.py:101-104 | `storage.get_file_response(...)` is not a method of `LocalStorageService`, so an `AttributeError` escapes the `except FileNotFoundError` and the request fails with 500 | any id with a row, e.g. right after a successful upload | return the stored bytes as `text/csv` under the uploaded name, and 404 when the blob is missing | not executed; medium (assumes `app.storage_services` is backend/storage_services.py) | `FilesApi.FileService.DownloadAsWritten` | `FilesApi.FileService.DownloadFile` |
