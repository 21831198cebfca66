# PDF upload service: storage and status-code model

This project models the core of a small PDF upload/download service in Dafny.
The service keeps uploaded files in two directories. `uploads` is a staging
area. `processed` is the final store. The model has three parts.

- **Validators and path helpers** (`FileUtils`, file `file_utils.dfy`).
  `sanitize_filename` is a POSIX basename. `is_pdf_file` checks a `.pdf`
  extension, case-insensitively, and then the `%PDF-` signature in the first
  eight bytes. A generated file identifier has the text shape of a version-4 UUID.
- **The storage state machine** (`FileService`, file `file_service.dfy`). The
  two directories are two maps from file name to bytes (`Store`). An upload
  stages `{id}_temp.pdf`, validates it, and then either removes it and fails,
  or moves it to `{id}.pdf`. Every failure is rewrapped as a `ValueError`.
  A lookup sanitizes the identifier, finds `{id}.pdf` and re-validates it.
  A content read returns the stored bytes.
- **The HTTP status-code logic** (`FileRoutes`, file `file_routes.dfy`). Each
  route is modelled as its `try` block followed by its `except` clauses. This
  gives the 200/400/404/500 answers of the upload, download and info routes.

Supporting modules: `Wrappers` (`Option`, `Result`), `Exceptions` (the raised
exception classes and their `str()`), and `FileModels` (the
`FileUploadResponse` and `FileInfo` records, without timestamps).

The generated identifier is a parameter of the upload (`fileId`, with
`IsFileId`). So are the I/O failures an upload can meet: `IoFault` names a
failing write, move or size read. So is whether the final read of a file
succeeds (`readable`). Nothing is assumed about identifier freshness: a write
or move over an existing name replaces it, as the filesystem does.

The upload route's guards raise 400 for a non-PDF file name or an oversize
body. The route's generic handler catches these and answers 500 (see
Findings). `FileRoutes.UploadPdfFile` follows the code.
`FileRoutes.UploadPdfFileIntended` is the corrected route.

One more quirk of the code is modelled faithfully. If reading the size of the
moved file fails (`SizeFault`), the upload reports a `ValueError`, but the file
stays in the final store. This is the one failure that changes the store
(see the contract of `FileService.UploadPdfFile`).

## Model

| member | source | states |
|---|---|---|
| `FileUtils.SanitizeFilename` | app/utils/file_utils.py:51-53 | The result is a suffix of the name and contains no '/'. It is the whole name or starts right after a '/'. So it is the text after the last separator, and it never fails. |
| `FileUtils.Basename` | app/utils/file_utils.py:51-53 | The backwards scan for the last separator, as `posixpath.basename` does it with `rfind`, gives the same name as `SanitizeFilename`. |
| `FileUtils.SanitizeUnique` | app/utils/file_utils.py:51-53 | Only one string is a '/'-free suffix that is either the whole name or starts after a '/'. |
| `FileUtils.SanitizeKeepsPlainName` | app/utils/file_utils.py:51-53 | A name without '/' is returned unchanged. |
| `FileUtils.SanitizeIdempotent` | app/utils/file_utils.py:51-53 | Sanitizing twice is the same as sanitizing once. |
| `FileUtils.SanitizeTrailingSep` | app/utils/file_utils.py:51-53 | A name ending in '/' sanitizes to the empty string. |
| `FileUtils.SanitizeDropsDirectory` | app/utils/file_utils.py:51-53 | Any directory prefix, `../../` included, is dropped: `dir + "/" + name` sanitizes to `name`. |
| `FileUtils.LowerPointwise` | app/utils/file_utils.py:22 | Lower-casing keeps the length and lower-cases each character on its own. |
| `FileUtils.PdfExtensionCaseInsensitive` | app/utils/file_utils.py:22-23 | The extension test passes exactly when the last four characters are '.', then p/P, d/D, f/F. So `X.PDF` passes. |
| `FileUtils.PdfSuffixHasPdfExtension` | app/utils/file_utils.py:22-23 | Any path ending in ".pdf" passes the extension test. |
| `FileUtils.IsPdfFile` | app/utils/file_utils.py:18-30 | False without the extension, and false for a missing or unreadable file. Otherwise true exactly when the content has at least five bytes and they are `%PDF-`. The source only reads an eight-byte header; this states the result on the whole content. |
| `FileUtils.SamePrefixSameVerdict` | app/utils/file_utils.py:26-28 | Two contents that agree on their first five bytes get the same verdict. |
| `FileUtils.FileIdIsSanitized` | app/utils/file_utils.py:8-10 | A generated identifier contains no '/' and passes through the sanitizer unchanged. |
| `Exceptions.NatToString` | app/routes/files.py:51 | The status code's text, as `str(int)` writes it: non-empty, decimal digits only, no leading zero, and reading it back as a decimal number gives the status. |
| `Exceptions.ExceptionText` | app/services/file_service.py:84 | `str(e)` of a `ValueError` or of any other non-HTTP exception is its message. For an `HTTPException` it is a decimal status with no leading zero that reads back as the status, then ": ", then the detail. So the text is fixed. |
| `FileService.ReadProcessedPath` | app/services/file_service.py:99-103 | `processed/<name>` reads exactly the final store's entry for `name`, or nothing. |
| `FileService.ReadUploadPath` | app/services/file_service.py:47-53 | `uploads/<name>` reads exactly the staging entry for `name`, or nothing. |
| `FileService.TempPathHasPdfExtension` | app/services/file_service.py:48-57 | The staging path always passes the extension test, so upload validation depends only on the content. |
| `FileService.FinalPathHasPdfExtension` | app/services/file_service.py:100-107 | A stored file's path always passes the extension test, so re-validation depends only on the content. |
| `FileService.Abort` | app/services/file_service.py:80-84 | The except clause leaves staging without the temp entry and changes nothing else. It raises `ValueError` with the "Failed to upload file: " prefix. |
| `FileService.Move` | app/services/file_service.py:65-66 | After the move the temp name is gone from staging and the final name holds the staged bytes. Every other staged file and every other stored file keeps its presence and its content. |
| `FileService.UploadPdfFile` | app/services/file_service.py:27-84 | Staging loses the temp entry on every path. The final store either stays as it was or gains exactly `{id}.pdf` -> content. Every failure is a prefixed `ValueError`. A failing write, move or size read is reported as "Failed to upload file: " followed by the failing call's own text. The upload succeeds iff the content has the PDF signature and no I/O step fails. Bad content leaves the final store unchanged. Its error is "Failed to upload file: Uploaded file is not a valid PDF" unless the write failed first. A failure changes the final store only on a size-read fault. When the size read fails after a valid file has been moved, the upload fails but `{id}.pdf` stays in the final store. On success the record is (id, sanitized original name, `{id}.pdf`, content length, fixed message). |
| `FileService.LookupSafe` | app/services/file_service.py:99-119 | For an already sanitized id, nothing is found iff `{id}.pdf` is missing or lacks the signature. A found record is (id, "", `{id}.pdf`, stored length, `processed/{id}.pdf`), and that path reads the stored bytes. |
| `FileService.GetPdfFile` | app/services/file_service.py:86-119 | Nothing is found iff `{sanitize(id)}.pdf` is missing from the final store or fails the signature check. A found record has `file_id` = sanitize(id), which contains no '/'. Its original name is empty and its stored name is `{file_id}.pdf`. Its path is `processed/{stored name}` and reads the stored bytes. Its size is their length. |
| `FileService.GetFileContent` | app/services/file_service.py:121-139 | The result is absent iff the lookup finds nothing or the read fails. Otherwise it is the stored bytes of `{sanitize(id)}.pdf`, which carry the PDF signature. |
| `FileService.LookupSanitizeInvariant` | app/services/file_service.py:96-101 | Lookup and content read give the same result for an id and for its sanitized form. |
| `FileService.LookupReadsOneEntry` | app/services/file_service.py:97-110 | Two stores that agree on the entry `{sanitize(id)}.pdf` answer the lookup of `id` the same way. |
| `FileService.FinalNameInjective` | app/services/file_service.py:62-63 | Different identifiers give different stored file names. |
| `FileService.UploadThenRead` | app/services/file_service.py:27-139 | After a successful upload, the lookup of its id gives (id, "", `{id}.pdf`, content length, `processed/{id}.pdf`). The content read gives back exactly the uploaded bytes. |
| `FileService.UploadLeavesOtherLookups` | app/services/file_service.py:62-66 | An upload changes the lookup of no identifier whose sanitized form differs from the new id. |
| `FileService.RejectedUploadLeavesNoTrace` | app/services/file_service.py:56-59 | Content without the signature makes the upload fail. No temp entry remains, the final store is unchanged, and every lookup answers as before. |
| `FileService.UploadIgnoresOriginalName` | app/services/file_service.py:41-57 | The original filename affects neither the resulting store nor whether the upload succeeds. It affects no failure either. |
| `FileRoutes.CatchForUpload` | app/routes/files.py:48-51 | A `ValueError` becomes 400 with its message. Any other exception, including an `HTTPException`, becomes 500. A value passes through as 200. |
| `FileRoutes.CatchReraisingHttp` | app/routes/files.py:92-95 | An `HTTPException` keeps its status and detail. Any other exception becomes 500. A value passes through as 200. |
| `FileRoutes.UploadTryBlock` | app/routes/files.py:24-46 | A name failing the extension test raises `HTTPException(400, "Only PDF files are allowed")` and an oversize body raises `HTTPException(400, "File size exceeds maximum limit of 10MB")`. Neither touches the store. An `HTTPException` comes out iff a guard rejects, and past the guards the outcome is the service's, called with the client's file name. |
| `FileRoutes.UploadPdfFile` | app/routes/files.py:17-51 | The status is 200, 400 or 500. A file name failing the extension test, or a body over 10 MiB, leaves the store untouched and gives 500. Past the guards, 400 iff the service fails and 200 iff it succeeds. The store is then the service's own, a 200 carries the service's record, and a 400 carries the service's error message as its detail. |
| `FileRoutes.UploadPdfFileIntended` | app/routes/files.py:24-51 | With `HTTPException` re-raised, a bad extension gives 400 "Only PDF files are allowed". An oversize body gives 400 "File size exceeds maximum limit of 10MB". Both leave the store untouched, and 200 keeps the same condition. |
| `FileRoutes.IntendedAgreesPastGuards` | app/routes/files.py:43-51 | Once both guards pass, the corrected route and the route as written give the same store and reply. |
| `FileRoutes.Http400Text` | app/routes/files.py:51 | `str()` of a 400 `HTTPException` is "400: " followed by its detail. |
| `FileRoutes.GuardRejectionIsServerError` | app/routes/files.py:24-51 | When a guard rejects the request, the reply is 500 with "Internal server error: 400: " followed by the guard's message, and the store is untouched. |
| `FileRoutes.BadExtensionIsServerError` | app/routes/files.py:24-51 | Uploading `notes.txt` gives 500, not 400, whatever the content. |
| `FileRoutes.OversizeIsServerError` | app/routes/files.py:35-51 | A `report.pdf` body of 10 MiB + 1 byte gives 500, not 400. |
| `FileRoutes.MaxSizeReachesService` | app/routes/files.py:35-46 | A body of exactly 10 MiB reaches the service. With a signature it gives 200 when no I/O step fails and 400 otherwise. |
| `FileRoutes.PlainTextUploadRejected` | app/routes/files.py:43-49 | `a.pdf` holding "hello" gives 400 and adds nothing to either directory: the final store is unchanged and staging is as before without the temp name. Unless the staging write itself failed, the detail is "Failed to upload file: Uploaded file is not a valid PDF". |
| `FileRoutes.DownloadTryBlock` | app/routes/files.py:66-90 | The `try` block raises iff the lookup finds nothing or the read fails, and always with a 404 `HTTPException`. It raises "File not found" when the lookup finds nothing, and "File content could not be retrieved" when the lookup finds the file but the read fails. Otherwise it returns `application/pdf` under `{raw id}.pdf` from a path that reads the stored bytes. |
| `FileRoutes.DownloadPdfFile` | app/routes/files.py:59-95 | The status is 200 or 404. It is 404 iff the lookup finds nothing or the read fails, with "File not found" when the lookup finds nothing and "File content could not be retrieved" when the file is found but cannot be read. A 200 serves `application/pdf` under the name `{raw id}.pdf`, from a path that reads the stored bytes of `{sanitize(id)}.pdf`. |
| `FileRoutes.GetPdfFileInfo` | app/routes/files.py:103-124 | The status is 200 or 404. It is 200 iff the lookup finds the file, and then the body is the lookup's record unchanged. Otherwise the reply is 404 "File not found". |
| `FileRoutes.UnknownIdIsNotFound` | app/routes/files.py:66-117 | An id whose sanitized form names no stored file gets 404 "File not found" from both download and info. |
| `FileRoutes.UploadThenDownload` | app/routes/files.py:43-90 | After a 200 upload through the corrected route, download serves `processed/{id}.pdf` as `{id}.pdf`. That path reads the uploaded bytes, and info reports the uploaded size. |

## Left out

- `main.py`: application construction, CORS, router mounting and the constant `/` and `/health` payloads are framework wiring with no logic.
- `generate_file_id`: its randomness is not modelled. The identifier is a parameter constrained to the UUID-4 text shape, and freshness is not assumed.
- `ensure_directory_exists` and the directory-name helpers are left out. The two names are the constants `UploadDir` and `ProcessedDir`. `get_file_size` is the length of the map entry. The unused `get_file_info` stat wrapper is not modelled.
- Timestamps (`upload_time`, `datetime.now()`, `st_ctime`) are wall-clock and filesystem metadata. The records omit them.
- `FileDownloadRequest` and `ErrorResponse` are never used by the modelled code and are not modelled.
- Filesystem failures are modelled only as the three `IoFault` points of an upload and the `readable` flag of the content read. Three assumptions follow. A failed move leaves the destination untouched. Errors raised by `exists`/`unlink` inside the except clause are not modelled. Stat errors inside `get_pdf_file` are not modelled either. So download and info never reach their 500 handler in the model, although `CatchReraisingHttp` models that handler.
- Failures of `await file.read()` and a missing upload filename are not modelled.
- `FileResponse` streaming: a download is the record (path, media type, file name).
- Windows `\` separators in `os.path.basename` are not modelled; only POSIX `/` is.
- `str.lower` is modelled as ASCII lower-casing only.
- Asynchronous request handling and concurrent uploads are not modelled.
- `FileRoutes.DownloadPdfFile`: the "empty content" 404 branch is kept, but the model can never reach it. A found file always has at least the five signature bytes.
- The 500 detail text of the upload route assumes the web framework's `str()` of an `HTTPException`, "<status>: <detail>". That library code is not part of this model.

## Findings

| source | as written | input that shows it | evidently intended | confidence | as-written member | corrected member |
|---|---|---|---|---|---|---|
| app/routes/files.py:24-51 | The extension guard raises `HTTPException(400)` inside the `try`. The handler list has no `except HTTPException: raise`, so the generic handler answers 500. | file name `notes.txt` | 400 "Only PDF files are allowed", as the download and info routes do by re-raising | high; not executed | `FileRoutes.BadExtensionIsServerError` | `FileRoutes.UploadPdfFileIntended` |
| app/routes/files.py:35-51 | The size guard's `HTTPException(400)` is caught in the same way and answered with 500. | `report.pdf` with a body of 10 MiB + 1 byte | 400 "File size exceeds maximum limit of 10MB" | high; not executed | `FileRoutes.OversizeIsServerError` | `FileRoutes.UploadPdfFileIntended` |
