/** The upload and get-by-id handlers of the HTTP API (backend/main.py), over
    one document store. */
module Api {
  import opened Wrappers
  import opened PyText
  import opened Errors
  import opened DocumentProcessor
  import opened Storage

  /** What the client sees once the record `saved` is stored: the record with
      the page count and text merged in, or a 400 carrying the text of
      whatever process_document raised. */
  function Outcome(saved: DocRecord, reading: PdfReading): (r: Result<DocRecord, HttpException>)
    ensures r.Success? ==> SameBase(r.value, saved) && r.value.numPages.Some? && r.value.content.Some?
    ensures r.Failure? ==> r.error.statusCode == 400
  {
    match Processed(saved.path, reading)
    case Success(doc) => Success(saved.(numPages := Some(doc.numPages), content := Some(doc.totalText)))
    case Failure(e) => Failure(HttpException(400, Str(e)))
  }

  /** The detail of the empty-upload error: the HTTPException raised inside the
      try block is caught by the generic handler and re-raised with its str(). */
  const EmptyFileDetail := "400: File is empty"

  lemma EmptyFileDetailIsStr()
    ensures Str(Http(HttpException(400, "File is empty"))) == EmptyFileDetail
  {
    BadRequestText();
    assert Str(Http(HttpException(400, "File is empty"))) == "400" + ": " + "File is empty";
  }

  /** `str(400)`. */
  lemma BadRequestText()
    ensures IntToString(400) == "400"
  {
    assert NatToString(4) == "4";
    assert NatToString(40) == "40";
  }

  /** The checks made before anything is stored: a missing or empty file name,
      then empty content. */
  function Rejection(filename: Option<string>, content: seq<byte>): (r: Option<HttpException>)
    ensures r.None? <==> filename.Some? && filename.value != [] && content != []
    ensures r.Some? ==> r.value.statusCode == 400
  {
    if filename.None? || filename.value == [] then Some(HttpException(400, "File has no filename"))
    else if content == [] then Some(HttpException(400, EmptyFileDetail))
    else None
  }

  /** The saved record an upload of `filename` under `docId` produces. */
  function SavedRecord(docsDir: string, docId: string, filename: string, contentType: Option<string>,
                       timestamp: string): (saved: DocRecord)
    ensures saved.id == docId && saved.filename == filename && saved.path == BlobPath(docsDir, docId, filename)
    ensures saved.numPages.None? && saved.content.None?
  {
    DocRecord(docId, filename, contentType, timestamp, BlobPath(docsDir, docId, filename), None, None)
  }

  /** Lines 87-94 of `upload_document`: extract the text of the saved file and
      merge the page count and text into the saved record. That record is the
      very dict held in the store's index, so the merge changes the in-memory
      entry, while the index file keeps the record as saved; extraction
      failing leaves the record as it is. */
  method ProcessAndMerge(storage: DocumentStorage, saved: DocRecord, reading: PdfReading)
    returns (r: Result<DocRecord, HttpException>)
    requires storage.Valid()
    requires saved.id in storage.metadata && storage.metadata[saved.id] == saved
    modifies storage`metadata
    ensures storage.Valid()
    ensures r == Outcome(saved, reading)
    ensures storage.metadata == old(storage.metadata)[saved.id := if r.Success? then r.value else saved]
  {
    var processed := ProcessDocument(saved.path, reading);
    if processed.Failure? {
      return Failure(HttpException(400, Str(processed.error)));
    }
    // doc_metadata['num_pages'] / ['content'] write through to the index entry
    var enriched := saved.(numPages := Some(processed.value.numPages), content := Some(processed.value.totalText));
    storage.UpdateEntry(saved.id, enriched);
    r := Success(enriched);
  }

  /** Overwriting a key twice keeps the second value. A helper for
      SaveAndProcess: proved here, apart from that method's store invariant,
      the fact costs the solver little; asserted inside the method it does not. */
  lemma UpdateTwice<K, V>(m: map<K, V>, k: K, a: V, b: V)
    ensures m[k := a][k := b] == m[k := b]
  {
  }

  /** The body of `upload_document`'s try block once the checks pass: save the
      file, then process it and merge the result. */
  method SaveAndProcess(storage: DocumentStorage, filename: string, contentType: Option<string>,
                        content: seq<byte>, docId: string, timestamp: string, reading: PdfReading)
    returns (r: Result<DocRecord, HttpException>)
    requires storage.Valid()
    requires docId !in storage.metadata
    modifies storage
    ensures storage.Valid()
    ensures var saved := SavedRecord(storage.docsDir, docId, filename, contentType, timestamp);
      && r == Outcome(saved, reading)
      && storage.order == old(storage.order) + [docId]
      && storage.blobs == old(storage.blobs)[saved.path := content]
      && storage.persisted == old(storage.metadata)[docId := saved]
      && storage.metadata == old(storage.metadata)[docId := if r.Success? then r.value else saved]
  {
    ghost var before := storage.metadata;
    var saved := storage.SaveDocument(content, filename, contentType, docId, timestamp);
    r := ProcessAndMerge(storage, saved, reading);
    UpdateTwice(before, docId, saved, if r.Success? then r.value else saved);
  }

  /** `upload_document`: reject a nameless or empty upload before anything is
      stored, otherwise save and process it. Every error raised once the file
      is read, the empty-content one included, reaches the client as a 400
      whose detail is the error's str(). */
  method UploadDocument(storage: DocumentStorage, filename: Option<string>, contentType: Option<string>,
                        content: seq<byte>, docId: string, timestamp: string, reading: PdfReading)
    returns (r: Result<DocRecord, HttpException>)
    requires storage.Valid()
    requires docId !in storage.metadata
    modifies storage
    ensures storage.Valid()
    ensures Rejection(filename, content).Some? ==>
      r == Failure(Rejection(filename, content).value) && unchanged(storage)
    ensures Rejection(filename, content).None? ==>
      var saved := SavedRecord(storage.docsDir, docId, filename.value, contentType, timestamp);
      && r == Outcome(saved, reading)
      && storage.order == old(storage.order) + [docId]
      && storage.blobs == old(storage.blobs)[saved.path := content]
      && storage.persisted == old(storage.metadata)[docId := saved]
      && storage.metadata == old(storage.metadata)[docId := if r.Success? then r.value else saved]
  {
    if filename.None? || filename.value == [] {
      return Failure(HttpException(400, "File has no filename"));
    }
    if content == [] {
      EmptyFileDetailIsStr();
      return Failure(HttpException(400, Str(Http(HttpException(400, "File is empty")))));
    }
    r := SaveAndProcess(storage, filename.value, contentType, content, docId, timestamp, reading);
  }

  /** The outcome for a saved record depends only on its path's extension. */
  lemma OutcomeByExtension(saved: DocRecord, reading: PdfReading)
    ensures var r := Outcome(saved, reading);
      && (Extension(saved.path) != ".pdf" ==>
            r == Failure(HttpException(400, "Unsupported file type: " + Extension(saved.path))))
      && (Extension(saved.path) == ".pdf" ==>
            (r.Success? <==> reading.Success?)
            && (reading.Success? ==>
                  r.value.numPages == Some(|KeptPages(reading.value)|)
                  && r.value.content == Some(Join("\n", KeptPages(reading.value)))))
  {
    if Extension(saved.path) != ".pdf" {
      assert Processed(saved.path, reading) == Failure(ValueError("Unsupported file type: " + Extension(saved.path)));
    } else {
      assert Processed(saved.path, reading) == PdfOutcome(reading);
    }
  }

  /** An upload is decided by the uploaded name's extension: with a uuid-shaped
      id, the saved path has the same extension, so a name whose lower-cased
      extension is not ".pdf" fails with the unsupported-type message even
      though its record stays stored; a ".pdf" name (any case) succeeds exactly
      when the reader succeeds, with the kept pages' count and joined text. */
  lemma UploadDecidedByFilename(docsDir: string, docId: string, filename: string,
                                contentType: Option<string>, timestamp: string, reading: PdfReading)
    requires IdShaped(docId)
    ensures var r := Outcome(SavedRecord(docsDir, docId, filename, contentType, timestamp), reading);
      && (Lower(SplitExt(filename).1) != ".pdf" ==>
            r == Failure(HttpException(400, "Unsupported file type: " + Lower(SplitExt(filename).1))))
      && (Lower(SplitExt(filename).1) == ".pdf" ==>
            (r.Success? <==> reading.Success?)
            && (reading.Success? ==>
                  r.value.numPages == Some(|KeptPages(reading.value)|)
                  && r.value.content == Some(Join("\n", KeptPages(reading.value)))))
  {
    var saved := SavedRecord(docsDir, docId, filename, contentType, timestamp);
    BlobPathKeepsExtension(docsDir, docId, filename);
    assert Extension(saved.path) == Lower(SplitExt(filename).1);
    OutcomeByExtension(saved, reading);
  }

  /** The not-found check of the get-by-id endpoint. */
  function GetDocumentEndpoint(storage: DocumentStorage, docId: string): (r: Result<DocRecord, HttpException>)
    reads storage
    ensures r.Failure? <==> docId !in storage.metadata
    ensures r.Failure? ==> r.error == HttpException(404, "Document not found")
    ensures r.Success? ==> r.value == storage.metadata[docId]
  {
    match storage.GetDocument(docId)
    case None => Failure(HttpException(404, "Document not found"))
    case Some(doc) => Success(doc)
  }
}
