/** The storage state machine: uploads are staged in one directory, validated,
    and moved into the final store; lookups resolve an identifier back to the
    stored file. Both directories are maps from file name to content. */
module FileService {
  import opened Wrappers
  import opened FileUtils
  import opened FileModels
  import opened Exceptions

  const UploadDir: string := "uploads"
  const ProcessedDir: string := "processed"
  const TempSuffix: string := "_temp.pdf"

  const SuccessMessage: string := "File uploaded and processed successfully"
  const NotPdfMessage: string := "Uploaded file is not a valid PDF"
  const UploadFailedPrefix: string := "Failed to upload file: "

  /** The staging directory and the final store, each as name -> content. */
  datatype Store = Store(uploads: map<string, Bytes>, processed: map<string, Bytes>)

  /** `Path(dir) / name`. */
  function JoinPath(dir: string, name: string): string
  {
    dir + [Sep] + name
  }

  /** Opening a path for reading: the directory prefix picks the map, the rest
      of the path is the key. `None` when there is no such file. */
  function ReadFile(st: Store, path: string): Option<Bytes>
  {
    if StartsWith(path, ProcessedDir + [Sep]) && path[|ProcessedDir| + 1..] in st.processed then
      Some(st.processed[path[|ProcessedDir| + 1..]])
    else if StartsWith(path, UploadDir + [Sep]) && path[|UploadDir| + 1..] in st.uploads then
      Some(st.uploads[path[|UploadDir| + 1..]])
    else
      None
  }

  /** A path in the final store reads that store's entry and nothing else. */
  lemma ReadProcessedPath(st: Store, name: string)
    ensures ReadFile(st, JoinPath(ProcessedDir, name))
         == if name in st.processed then Some(st.processed[name]) else None
  {
    var path := JoinPath(ProcessedDir, name);
    assert path[..|ProcessedDir| + 1] == ProcessedDir + [Sep];
    assert StartsWith(path, ProcessedDir + [Sep]);
    assert path[|ProcessedDir| + 1..] == name;
    assert path[0] != UploadDir[0];
  }

  /** A path in the staging directory reads that directory's entry and nothing else. */
  lemma ReadUploadPath(st: Store, name: string)
    ensures ReadFile(st, JoinPath(UploadDir, name))
         == if name in st.uploads then Some(st.uploads[name]) else None
  {
    var path := JoinPath(UploadDir, name);
    assert path[..|UploadDir| + 1] == UploadDir + [Sep];
    assert StartsWith(path, UploadDir + [Sep]);
    assert path[|UploadDir| + 1..] == name;
    assert path[0] != ProcessedDir[0];
  }

  /** `{file_id}_temp.pdf`, the staging name of an upload. */
  function TempName(fileId: string): string
  {
    fileId + TempSuffix
  }

  /** `{file_id}.pdf`, the name of a stored file. */
  function FinalName(fileId: string): string
  {
    fileId + PdfExtension
  }

  /** The staging path always carries the PDF extension, so validating it
      tests the content alone. */
  lemma TempPathHasPdfExtension(fileId: string)
    ensures HasPdfExtension(JoinPath(UploadDir, TempName(fileId)))
  {
    var stem := UploadDir + [Sep] + fileId + "_temp";
    assert JoinPath(UploadDir, TempName(fileId)) == stem + PdfExtension;
    PdfSuffixHasPdfExtension(stem);
  }

  /** A stored file's path always carries the PDF extension. */
  lemma FinalPathHasPdfExtension(fileId: string)
    ensures HasPdfExtension(JoinPath(ProcessedDir, FinalName(fileId)))
  {
    var stem := ProcessedDir + [Sep] + fileId;
    assert JoinPath(ProcessedDir, FinalName(fileId)) == stem + PdfExtension;
    PdfSuffixHasPdfExtension(stem);
  }

  /** Where an I/O step of an upload fails, if anywhere: writing the staged
      file, moving it into the final store, or reading the moved file's size.
      The reason is the failing call's `str(e)`. */
  datatype IoFault =
    | NoFault
    | WriteFault(reason: string)
    | MoveFault(reason: string)
    | SizeFault(reason: string)

  datatype UploadOutcome = UploadOutcome(store: Store, result: Result<FileUploadResponse, Exception>)

  /** The `except Exception` clause of an upload: remove the staged file if it
      still exists and re-raise the cause as a `ValueError`. */
  function Abort(st: Store, temp: string, cause: string): (out: UploadOutcome)
    ensures out.store == st.(uploads := st.uploads - {temp})
    ensures out.result == Failure(ValueError(UploadFailedPrefix + cause))
  {
    ReadUploadPath(st, temp);
    var cleaned := if ReadFile(st, JoinPath(UploadDir, temp)).Some?
                   then st.(uploads := st.uploads - {temp})
                   else st;
    UploadOutcome(cleaned, Failure(ValueError(UploadFailedPrefix + cause)))
  }

  /** Writing a key and then deleting it leaves no trace of the write. */
  lemma UpdateThenRemove<K, V>(m: map<K, V>, k: K, v: V)
    ensures m[k := v] - {k} == m - {k}
  {
  }

  /** Deleting a key twice is deleting it once. */
  lemma RemoveTwice<K, V>(m: map<K, V>, k: K)
    ensures (m - {k}) - {k} == m - {k}
  {
  }

  /** `a` and `b` hold the same keys with the same values, except perhaps `key`. */
  ghost predicate SameExcept(a: map<string, Bytes>, b: map<string, Bytes>, key: string)
  {
    forall k :: k != key ==> (k in a <==> k in b) && (k in a ==> a[k] == b[k])
  }

  /** `shutil.move` from the staging directory into the final store. */
  function Move(st: Store, temp: string, final: string): (moved: Store)
    requires temp in st.uploads
    ensures temp !in moved.uploads
    ensures final in moved.processed && moved.processed[final] == st.uploads[temp]
    // every other staged file, and every other stored file, stays as it was
    ensures SameExcept(moved.uploads, st.uploads, temp)
    ensures SameExcept(moved.processed, st.processed, final)
  {
    Store(st.uploads - {temp}, st.processed[final := st.uploads[temp]])
  }

  /** `FileService.upload_pdf_file`, with the generated identifier `fileId`
      and the I/O fault (if any) as parameters. A failed write leaves the
      staging directory as it was; whatever it did create, the cleanup removes. */
  function UploadPdfFile(st: Store, content: Bytes, originalFilename: string, fileId: string, fault: IoFault)
    : (out: UploadOutcome)
    requires IsFileId(fileId)
    // the staged file is gone afterwards, on every path
    ensures out.store.uploads == st.uploads - {TempName(fileId)}
    // the final store gains at most the new file
    ensures out.store.processed == st.processed
         || out.store.processed == st.processed[FinalName(fileId) := content]
    // every failure surfaces as a ValueError carrying the fixed prefix
    ensures out.result.Failure? ==>
              out.result.error.ValueError? && StartsWith(out.result.error.message, UploadFailedPrefix)
    ensures out.result.Success? <==> HasPdfSignature(content) && fault.NoFault?
    ensures !HasPdfSignature(content) ==> out.store.processed == st.processed
    ensures !HasPdfSignature(content) && !fault.WriteFault? ==>
              out.result == Failure(ValueError(UploadFailedPrefix + NotPdfMessage))
    ensures out.result.Failure? && !fault.SizeFault? ==> out.store.processed == st.processed
    // an I/O failure the upload reaches is reported with the failing call's own text
    ensures !fault.NoFault? && (fault.WriteFault? || HasPdfSignature(content)) ==>
              out.result == Failure(ValueError(UploadFailedPrefix + fault.reason))
    // a size read that fails after the move reports failure yet leaves the file stored
    ensures fault.SizeFault? && HasPdfSignature(content) ==>
              out.result.Failure? && out.store.processed == st.processed[FinalName(fileId) := content]
    ensures out.result.Success? ==>
              && out.store.processed == st.processed[FinalName(fileId) := content]
              && out.result.value == FileUploadResponse(
                   fileId, SanitizeFilename(originalFilename), FinalName(fileId), |content|, SuccessMessage)
  {
    var safeFilename := SanitizeFilename(originalFilename);
    var temp := TempName(fileId);
    var tempPath := JoinPath(UploadDir, temp);
    var cleaned := st.uploads - {temp};
    RemoveTwice(st.uploads, temp);
    if fault.WriteFault? then
      Abort(st, temp, fault.reason)
    else
      var staged := st.(uploads := st.uploads[temp := content]);
      UpdateThenRemove(st.uploads, temp, content);
      ReadUploadPath(staged, temp);
      TempPathHasPdfExtension(fileId);
      if !IsPdfFile(tempPath, ReadFile(staged, tempPath)) then
        var unlinked := staged.(uploads := cleaned);
        var out := Abort(unlinked, temp, NotPdfMessage);
        assert out.store == Store(cleaned, st.processed);
        out
      else if fault.MoveFault? then
        var out := Abort(staged, temp, fault.reason);
        assert out.store == Store(cleaned, st.processed);
        out
      else
        var finalName := FinalName(fileId);
        var moved := Move(staged, temp, finalName);
        assert moved == Store(cleaned, st.processed[finalName := content]);
        if fault.SizeFault? then
          var out := Abort(moved, temp, fault.reason);
          assert out.store == moved;
          out
        else
          var fileSize := |moved.processed[finalName]|;
          UploadOutcome(moved, Success(FileUploadResponse(fileId, safeFilename, finalName, fileSize, SuccessMessage)))
  }

  /** The part of `get_pdf_file` after sanitizing: `{safeFileId}.pdf` must
      exist in the final store and pass the PDF check. */
  function LookupSafe(st: Store, safeFileId: string): (info: Option<FileInfo>)
    ensures info.None? <==>
              || FinalName(safeFileId) !in st.processed
              || !HasPdfSignature(st.processed[FinalName(safeFileId)])
    ensures info.Some? ==>
              && info.value.fileId == safeFileId
              && info.value.originalFilename == ""
              && info.value.storedFilename == FinalName(safeFileId)
              && info.value.filePath == JoinPath(ProcessedDir, info.value.storedFilename)
              && ReadFile(st, info.value.filePath) == Some(st.processed[info.value.storedFilename])
              && info.value.fileSize == |st.processed[info.value.storedFilename]|
  {
    var filename := FinalName(safeFileId);
    var path := JoinPath(ProcessedDir, filename);
    ReadProcessedPath(st, filename);
    FinalPathHasPdfExtension(safeFileId);
    if ReadFile(st, path).None? then None
    else if !IsPdfFile(path, ReadFile(st, path)) then None
    else Some(FileInfo(safeFileId, "", filename, |ReadFile(st, path).value|, path))
  }

  /** `FileService.get_pdf_file`: sanitize the identifier, look for
      `{id}.pdf` in the final store, and re-validate it. */
  function GetPdfFile(st: Store, fileId: string): (info: Option<FileInfo>)
    ensures info.None? <==>
              || FinalName(SanitizeFilename(fileId)) !in st.processed
              || !HasPdfSignature(st.processed[FinalName(SanitizeFilename(fileId))])
    ensures info.Some? ==>
              && info.value.fileId == SanitizeFilename(fileId)
              && NoSep(info.value.fileId)
              && info.value.originalFilename == ""
              && info.value.storedFilename == FinalName(info.value.fileId)
              && info.value.filePath == JoinPath(ProcessedDir, info.value.storedFilename)
              && ReadFile(st, info.value.filePath) == Some(st.processed[info.value.storedFilename])
              && info.value.fileSize == |st.processed[info.value.storedFilename]|
  {
    LookupSafe(st, SanitizeFilename(fileId))
  }

  /** `FileService.get_file_content`: the lookup, then a full read of the file;
      `readable` is false when that read raises, which yields `None`. */
  function GetFileContent(st: Store, fileId: string, readable: bool): (content: Option<Bytes>)
    ensures content.None? <==> GetPdfFile(st, fileId).None? || !readable
    ensures content.Some? ==>
              && content.value == st.processed[FinalName(SanitizeFilename(fileId))]
              && HasPdfSignature(content.value)
  {
    var info := GetPdfFile(st, fileId);
    if info.None? then None
    else if !readable then None
    else ReadFile(st, info.value.filePath)
  }

  /** Lookup only ever sees the sanitized identifier. */
  lemma LookupSanitizeInvariant(st: Store, fileId: string, readable: bool)
    ensures GetPdfFile(st, fileId) == GetPdfFile(st, SanitizeFilename(fileId))
    ensures GetFileContent(st, fileId, readable) == GetFileContent(st, SanitizeFilename(fileId), readable)
  {
    var safe := SanitizeFilename(fileId);
    SanitizeIdempotent(fileId);
    assert GetPdfFile(st, safe) == LookupSafe(st, safe);
    assert GetPdfFile(st, fileId) == LookupSafe(st, safe);
  }

  /** After a successful upload the identifier it used finds the file, with the
      uploaded size, and reads back exactly the uploaded bytes. */
  lemma UploadThenRead(st: Store, content: Bytes, originalFilename: string, fileId: string, fault: IoFault)
    requires IsFileId(fileId)
    requires UploadPdfFile(st, content, originalFilename, fileId, fault).result.Success?
    ensures var st' := UploadPdfFile(st, content, originalFilename, fileId, fault).store;
            && GetPdfFile(st', fileId)
               == Some(FileInfo(fileId, "", FinalName(fileId), |content|, JoinPath(ProcessedDir, FinalName(fileId))))
            && GetFileContent(st', fileId, true) == Some(content)
  {
    FileIdIsSanitized(fileId);
    var st' := UploadPdfFile(st, content, originalFilename, fileId, fault).store;
    ReadProcessedPath(st', FinalName(fileId));
  }

  /** A lookup reads one entry of the final store and nothing else. */
  lemma LookupReadsOneEntry(st1: Store, st2: Store, fileId: string)
    requires var key := FinalName(SanitizeFilename(fileId));
             && (key in st1.processed <==> key in st2.processed)
             && (key in st1.processed ==> st1.processed[key] == st2.processed[key])
    ensures GetPdfFile(st1, fileId) == GetPdfFile(st2, fileId)
  {
  }

  /** Different identifiers name different stored files. */
  lemma FinalNameInjective(a: string, b: string)
    requires a != b
    ensures FinalName(a) != FinalName(b)
  {
    if |a| == |b| {
      assert FinalName(a)[..|a|] == a;
      assert FinalName(b)[..|b|] == b;
    }
  }

  /** An upload changes the lookup of no other identifier. */
  lemma UploadLeavesOtherLookups(
    st: Store, content: Bytes, originalFilename: string, fileId: string, fault: IoFault, other: string)
    requires IsFileId(fileId)
    requires SanitizeFilename(other) != fileId
    ensures var st' := UploadPdfFile(st, content, originalFilename, fileId, fault).store;
            GetPdfFile(st', other) == GetPdfFile(st, other)
  {
    var st' := UploadPdfFile(st, content, originalFilename, fileId, fault).store;
    var key := FinalName(SanitizeFilename(other));
    FinalNameInjective(SanitizeFilename(other), fileId);
    assert st'.processed == st.processed || st'.processed == st.processed[FinalName(fileId) := content];
    assert key in st'.processed <==> key in st.processed;
    assert key in st.processed ==> st'.processed[key] == st.processed[key];
    LookupReadsOneEntry(st', st, other);
  }

  /** A rejected upload leaves no trace: no staged file, the final store as it
      was, and every lookup answering as before. */
  lemma RejectedUploadLeavesNoTrace(
    st: Store, content: Bytes, originalFilename: string, fileId: string, fault: IoFault, other: string)
    requires IsFileId(fileId)
    requires !HasPdfSignature(content)
    ensures var out := UploadPdfFile(st, content, originalFilename, fileId, fault);
            && out.result.Failure?
            && TempName(fileId) !in out.store.uploads
            && out.store.processed == st.processed
            && GetPdfFile(out.store, other) == GetPdfFile(st, other)
  {
  }

  /** The original filename is never checked: it only shows up, sanitized, in
      the success record. */
  lemma UploadIgnoresOriginalName(
    st: Store, content: Bytes, name1: string, name2: string, fileId: string, fault: IoFault)
    requires IsFileId(fileId)
    ensures var out1 := UploadPdfFile(st, content, name1, fileId, fault);
            var out2 := UploadPdfFile(st, content, name2, fileId, fault);
            && out1.store == out2.store
            && out1.result.Success? == out2.result.Success?
            && (out1.result.Failure? ==> out1.result == out2.result)
  {
  }
}
