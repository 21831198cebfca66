/** The HTTP surface: how the upload, download and info routes turn the
    service's outcomes into status codes. Each route is a `try` block whose
    outcome (a value or a raised exception) goes through the route's `except`
    clauses. */
module FileRoutes {
  import opened Wrappers
  import opened FileUtils
  import opened FileModels
  import opened Exceptions
  import FileService

  /** The largest accepted upload body, 10 MiB; a body of exactly this size passes. */
  const MaxUploadSize: nat := 10 * 1024 * 1024

  const OnlyPdfDetail: string := "Only PDF files are allowed"
  const TooLargeDetail: string := "File size exceeds maximum limit of 10MB"
  const NotFoundDetail: string := "File not found"
  const NoContentDetail: string := "File content could not be retrieved"
  const InternalErrorPrefix: string := "Internal server error: "
  const PdfMediaType: string := "application/pdf"

  /** What a route answers: a body with status 200, or an error status with
      its detail text. */
  datatype Reply<T> = Ok(body: T) | Error(status: nat, detail: string)

  function Status<T>(reply: Reply<T>): nat
  {
    if reply.Ok? then 200 else reply.status
  }

  /** A file download: the file streamed back, its media type and the name
      the client is told to save it under. */
  datatype FileDownload = FileDownload(path: string, mediaType: string, filename: string)

  /** A route's reply together with the store it leaves behind. */
  datatype RouteOutcome<T> = RouteOutcome(store: FileService.Store, reply: Reply<T>)

  /** The upload route's handlers: `except ValueError` gives 400 and
      `except Exception` gives 500. There is no `except HTTPException: raise`,
      so an `HTTPException` raised inside the block is caught as a generic
      exception and becomes a 500. */
  function CatchForUpload<T>(r: Result<T, Exception>): (reply: Reply<T>)
    ensures reply.Ok? <==> r.Success?
    ensures r.Success? ==> reply.body == r.value
    ensures Status(reply) == 400 <==> r.Failure? && r.error.ValueError?
    ensures Status(reply) == 500 <==> r.Failure? && !r.error.ValueError?
    ensures r.Failure? && r.error.ValueError? ==> reply.detail == r.error.message
  {
    match r
    case Success(v) => Ok(v)
    case Failure(ValueError(m)) => Error(400, m)
    case Failure(e) => Error(500, InternalErrorPrefix + ExceptionText(e))
  }

  /** The download and info routes' handlers: `except HTTPException: raise`
      keeps the raised status and detail; `except Exception` gives 500. */
  function CatchReraisingHttp<T>(r: Result<T, Exception>): (reply: Reply<T>)
    ensures reply.Ok? <==> r.Success?
    ensures r.Success? ==> reply.body == r.value
    ensures r.Failure? && r.error.HttpException? ==>
              reply == Error(r.error.status, r.error.detail)
    ensures r.Failure? && !r.error.HttpException? ==> Status(reply) == 500
  {
    match r
    case Success(v) => Ok(v)
    case Failure(HttpException(s, d)) => Error(s, d)
    case Failure(e) => Error(500, InternalErrorPrefix + ExceptionText(e))
  }

  /** The body of the upload route's `try`: the extension and size guards,
      then the service call with the client's (unsanitized) filename. */
  function UploadTryBlock(st: FileService.Store, filename: string, content: Bytes, fileId: string, fault: FileService.IoFault)
    : (out: FileService.UploadOutcome)
    requires IsFileId(fileId)
    // a guard that rejects the request raises its own 400 and touches no file
    ensures !HasPdfExtension(filename) ==>
              out == FileService.UploadOutcome(st, Failure(HttpException(400, OnlyPdfDetail)))
    ensures HasPdfExtension(filename) && |content| > MaxUploadSize ==>
              out == FileService.UploadOutcome(st, Failure(HttpException(400, TooLargeDetail)))
    // only the guards raise an HTTPException; the service raises ValueError
    ensures (out.result.Failure? && out.result.error.HttpException?) <==>
              !HasPdfExtension(filename) || |content| > MaxUploadSize
    // past the guards the outcome is the service's, whatever the client called the file
    ensures HasPdfExtension(filename) && |content| <= MaxUploadSize ==>
              out == FileService.UploadPdfFile(st, content, filename, fileId, fault)
  {
    if !HasPdfExtension(filename) then
      FileService.UploadOutcome(st, Failure(HttpException(400, OnlyPdfDetail)))
    else if |content| > MaxUploadSize then
      FileService.UploadOutcome(st, Failure(HttpException(400, TooLargeDetail)))
    else
      FileService.UploadPdfFile(st, content, filename, fileId, fault)
  }

  /** `upload_pdf_file` as written. The guards' 400s surface as 500; only
      failures inside the service give 400. */
  function UploadPdfFile(st: FileService.Store, filename: string, content: Bytes, fileId: string, fault: FileService.IoFault)
    : (out: RouteOutcome<FileUploadResponse>)
    requires IsFileId(fileId)
    ensures Status(out.reply) in {200, 400, 500}
    // a rejected name or body never reaches the service, and is reported as 500
    ensures !HasPdfExtension(filename) ==> out.store == st && Status(out.reply) == 500
    ensures |content| > MaxUploadSize ==> out.store == st && Status(out.reply) == 500
    ensures Status(out.reply) == 500 <==> !HasPdfExtension(filename) || |content| > MaxUploadSize
    // past the guards, every service failure is a 400
    ensures Status(out.reply) == 400 <==>
              && HasPdfExtension(filename) && |content| <= MaxUploadSize
              && !(HasPdfSignature(content) && fault.NoFault?)
    ensures Status(out.reply) == 200 <==>
              && HasPdfExtension(filename) && |content| <= MaxUploadSize
              && HasPdfSignature(content) && fault.NoFault?
    // past the guards, the store and a successful record are the service's own
    ensures HasPdfExtension(filename) && |content| <= MaxUploadSize ==>
              var svc := FileService.UploadPdfFile(st, content, filename, fileId, fault);
              && out.store == svc.store
              && (svc.result.Success? ==> out.reply == Ok(svc.result.value))
              && (svc.result.Failure? ==> out.reply == Error(400, svc.result.error.message))
  {
    var tried := UploadTryBlock(st, filename, content, fileId, fault);
    RouteOutcome(tried.store, CatchForUpload(tried.result))
  }

  /** The upload route as evidently intended: with `except HTTPException:
      raise` ahead of the other handlers, as the download and info routes
      have, the guards' 400s reach the client. */
  function UploadPdfFileIntended(st: FileService.Store, filename: string, content: Bytes, fileId: string, fault: FileService.IoFault)
    : (out: RouteOutcome<FileUploadResponse>)
    requires IsFileId(fileId)
    ensures Status(out.reply) in {200, 400}
    ensures !HasPdfExtension(filename) ==> out.store == st && out.reply == Error(400, OnlyPdfDetail)
    ensures HasPdfExtension(filename) && |content| > MaxUploadSize ==>
              out.store == st && out.reply == Error(400, TooLargeDetail)
    ensures Status(out.reply) == 200 <==>
              && HasPdfExtension(filename) && |content| <= MaxUploadSize
              && HasPdfSignature(content) && fault.NoFault?
  {
    var tried := UploadTryBlock(st, filename, content, fileId, fault);
    var reply := match tried.result
      case Failure(HttpException(s, d)) => Error(s, d)
      case _ => CatchForUpload(tried.result);
    RouteOutcome(tried.store, reply)
  }

  /** The corrected route differs from the written one only where a guard
      rejects the request. */
  lemma IntendedAgreesPastGuards(
    st: FileService.Store, filename: string, content: Bytes, fileId: string, fault: FileService.IoFault)
    requires IsFileId(fileId)
    requires HasPdfExtension(filename) && |content| <= MaxUploadSize
    ensures UploadPdfFileIntended(st, filename, content, fileId, fault)
         == UploadPdfFile(st, filename, content, fileId, fault)
  {
  }

  /** `str()` of a 400 `HTTPException`. */
  lemma Http400Text(detail: string)
    ensures ExceptionText(HttpException(400, detail)) == "400: " + detail
  {
    assert NatToString(4) == "4";
    assert NatToString(40) == "40";
    assert NatToString(400) == "400";
  }

  /** A request a guard rejects gets a 500 whose detail wraps the guard's own
      400 message, and the service is never called. */
  lemma GuardRejectionIsServerError(
    st: FileService.Store, filename: string, content: Bytes, fileId: string, fault: FileService.IoFault)
    requires IsFileId(fileId)
    requires !HasPdfExtension(filename) || |content| > MaxUploadSize
    ensures var out := UploadPdfFile(st, filename, content, fileId, fault);
            && out.store == st
            && out.reply == Error(500, InternalErrorPrefix + "400: "
                                       + (if !HasPdfExtension(filename) then OnlyPdfDetail else TooLargeDetail))
  {
    var detail := if !HasPdfExtension(filename) then OnlyPdfDetail else TooLargeDetail;
    Http400Text(detail);
    assert UploadTryBlock(st, filename, content, fileId, fault).result == Failure(HttpException(400, detail));
  }

  /** A text file named "notes.txt" is answered with 500, not 400. */
  lemma BadExtensionIsServerError(st: FileService.Store, content: Bytes, fileId: string, fault: FileService.IoFault)
    requires IsFileId(fileId)
    ensures var out := UploadPdfFile(st, "notes.txt", content, fileId, fault);
            && out.store == st
            && out.reply == Error(500, InternalErrorPrefix + "400: " + OnlyPdfDetail)
  {
    PdfExtensionCaseInsensitive("notes.txt");
    GuardRejectionIsServerError(st, "notes.txt", content, fileId, fault);
  }

  /** A body one byte over the limit is answered with 500, not 400. */
  lemma OversizeIsServerError(st: FileService.Store, content: Bytes, fileId: string, fault: FileService.IoFault)
    requires IsFileId(fileId)
    requires |content| == MaxUploadSize + 1
    ensures var out := UploadPdfFile(st, "report.pdf", content, fileId, fault);
            && out.store == st
            && out.reply == Error(500, InternalErrorPrefix + "400: " + TooLargeDetail)
  {
    PdfExtensionCaseInsensitive("report.pdf");
    GuardRejectionIsServerError(st, "report.pdf", content, fileId, fault);
  }

  /** A body of exactly 10 MiB passes the size guard and reaches the service. */
  lemma MaxSizeReachesService(st: FileService.Store, content: Bytes, fileId: string, fault: FileService.IoFault)
    requires IsFileId(fileId)
    requires |content| == MaxUploadSize && HasPdfSignature(content)
    ensures var out := UploadPdfFile(st, "report.PDF", content, fileId, fault);
            && Status(out.reply) == (if fault.NoFault? then 200 else 400)
            && out.store == FileService.UploadPdfFile(st, content, "report.PDF", fileId, fault).store
  {
    PdfExtensionCaseInsensitive("report.PDF");
  }

  /** A file named "a.pdf" holding the text "hello" is refused with 400 and
      nothing is stored. */
  lemma PlainTextUploadRejected(st: FileService.Store, fileId: string, fault: FileService.IoFault)
    requires IsFileId(fileId)
    ensures var out := UploadPdfFile(st, "a.pdf", [0x68, 0x65, 0x6C, 0x6C, 0x6F], fileId, fault);
            && Status(out.reply) == 400
            && (!fault.WriteFault? ==>
                  out.reply == Error(400, FileService.UploadFailedPrefix + FileService.NotPdfMessage))
            && out.store.processed == st.processed
            && out.store.uploads == st.uploads - {FileService.TempName(fileId)}
  {
    PdfExtensionCaseInsensitive("a.pdf");
    var hello: Bytes := [0x68, 0x65, 0x6C, 0x6C, 0x6F];
    assert hello[..|PdfMagic|][0] != PdfMagic[0];
  }

  /** The body of the download route's `try`. An empty content counts as
      missing. */
  function DownloadTryBlock(st: FileService.Store, fileId: string, readable: bool)
    : (tried: Result<FileDownload, Exception>)
    ensures tried.Failure? <==> FileService.GetPdfFile(st, fileId).None? || !readable
    ensures tried.Failure? ==> tried.error.HttpException? && tried.error.status == 404
    ensures FileService.GetPdfFile(st, fileId).None? ==> tried == Failure(HttpException(404, NotFoundDetail))
    ensures FileService.GetPdfFile(st, fileId).Some? && !readable ==>
              tried == Failure(HttpException(404, NoContentDetail))
    ensures tried.Success? ==>
              && tried.value.mediaType == PdfMediaType
              && tried.value.filename == fileId + PdfExtension
              && FileService.ReadFile(st, tried.value.path)
                 == Some(st.processed[FileService.FinalName(SanitizeFilename(fileId))])
  {
    var info := FileService.GetPdfFile(st, fileId);
    if info.None? then Failure(HttpException(404, NotFoundDetail))
    else
      var content := FileService.GetFileContent(st, fileId, readable);
      if content.None? || |content.value| == 0 then Failure(HttpException(404, NoContentDetail))
      else Success(FileDownload(info.value.filePath, PdfMediaType, fileId + PdfExtension))
  }

  /** `download_pdf_file`: 404 when the lookup or the read comes back empty,
      otherwise the stored PDF, offered under the raw (unsanitized)
      identifier. `readable` is false when reading the file raises. */
  function DownloadPdfFile(st: FileService.Store, fileId: string, readable: bool): (reply: Reply<FileDownload>)
    ensures Status(reply) in {200, 404}
    ensures Status(reply) == 404 <==> FileService.GetPdfFile(st, fileId).None? || !readable
    ensures FileService.GetPdfFile(st, fileId).None? ==> reply == Error(404, NotFoundDetail)
    ensures FileService.GetPdfFile(st, fileId).Some? && !readable ==> reply == Error(404, NoContentDetail)
    ensures reply.Ok? ==>
              && reply.body.mediaType == PdfMediaType
              && reply.body.filename == fileId + PdfExtension
              && FileService.ReadFile(st, reply.body.path)
                 == Some(st.processed[FileService.FinalName(SanitizeFilename(fileId))])
              && HasPdfSignature(FileService.ReadFile(st, reply.body.path).value)
  {
    var tried := DownloadTryBlock(st, fileId, readable);
    CatchReraisingHttp(tried)
  }

  /** `get_pdf_file_info`: 404 when the lookup finds nothing, otherwise the
      lookup's record unchanged. */
  function GetPdfFileInfo(st: FileService.Store, fileId: string): (reply: Reply<FileInfo>)
    ensures Status(reply) in {200, 404}
    ensures reply.Ok? <==> FileService.GetPdfFile(st, fileId).Some?
    ensures reply.Ok? ==> Some(reply.body) == FileService.GetPdfFile(st, fileId)
    ensures reply.Error? ==> reply == Error(404, NotFoundDetail)
  {
    var info := FileService.GetPdfFile(st, fileId);
    var tried: Result<FileInfo, Exception> := if info.None? then Failure(HttpException(404, NotFoundDetail)) else Success(info.value);
    var reply := CatchReraisingHttp(tried);
    assert info.Some? ==> reply == Ok(info.value);
    assert info.None? ==> reply == Error(404, NotFoundDetail);
    reply
  }

  /** An identifier whose sanitized form names no stored file is answered
      with 404 by both the download and the info route. */
  lemma UnknownIdIsNotFound(st: FileService.Store, fileId: string, readable: bool)
    requires FileService.FinalName(SanitizeFilename(fileId)) !in st.processed
    ensures DownloadPdfFile(st, fileId, readable) == Error(404, NotFoundDetail)
    ensures GetPdfFileInfo(st, fileId) == Error(404, NotFoundDetail)
  {
  }

  /** After a 200 from the (corrected) upload route, the download route
      serves the file under `{id}.pdf` and the info route reports the
      uploaded size. */
  lemma UploadThenDownload(
    st: FileService.Store, filename: string, content: Bytes, fileId: string, fault: FileService.IoFault)
    requires IsFileId(fileId)
    requires Status(UploadPdfFileIntended(st, filename, content, fileId, fault).reply) == 200
    ensures var st' := UploadPdfFileIntended(st, filename, content, fileId, fault).store;
            && DownloadPdfFile(st', fileId, true)
               == Ok(FileDownload(FileService.JoinPath(FileService.ProcessedDir, FileService.FinalName(fileId)),
                                  PdfMediaType, fileId + PdfExtension))
            && FileService.ReadFile(st', FileService.JoinPath(FileService.ProcessedDir, FileService.FinalName(fileId)))
               == Some(content)
            && Status(GetPdfFileInfo(st', fileId)) == 200
            && GetPdfFileInfo(st', fileId).body.fileSize == |content|
  {
    var st' := UploadPdfFileIntended(st, filename, content, fileId, fault).store;
    FileService.UploadThenRead(st, content, filename, fileId, fault);
    FileService.ReadProcessedPath(st', FileService.FinalName(fileId));
  }
}
