# docqa backend: document ingestion and storage

This project models the part of the docqa backend that takes in and stores documents:

- **Text extraction.** `DocumentProcessor.process_document` and `_process_pdf` work over the page texts the PDF reader yields.
- **Chunking.** `DocumentProcessor.chunk_text` is the overlapping window walker that breaks after the last period.
- **Document store.** `DocumentStorage` is the in-memory metadata index, mirrored to `metadata.json` on every save and delete, with one blob file per document.
- **Error classification.** `AppError` and `handle_error` map errors to HTTP responses.
- **Upload handler.** The `/upload` handler validates, saves, extracts and merges. The not-found check of `GET /documents/{doc_id}` is modelled as well.

Modules:

- `Wrappers` holds `Option` and `Result`.
- `PyText` holds the Python built-ins the code relies on, with CPython's semantics:
  - `str.isspace` and `strip`, and ASCII `lower`;
  - slice-bound adjustment and `rfind`;
  - `posixpath.splitext` and `posixpath.join`;
  - `str.join` and `str(int)`.
- `Errors` holds `error_handlers.py`.
- `DocumentProcessor` holds extraction and chunking.
- `Storage` holds the `DocumentStorage` class.
- `Api` holds the upload and get-by-id handlers.

The store is a class with these fields:

- `metadata`: the index.
- `order`: the index's insertion order, so `list_documents` is exact.
- `blobs`: the document files, by path.
- `persisted`: a ghost field holding what the index file contains.

`Valid()` is the store's invariant:

- the keys are distinct and match the index;
- the file index has the same keys as the in-memory index;
- the file index lags behind the in-memory one only by the fields that extraction adds.

The lag comes from `upload_document` (main.py lines 91-92): it writes `num_pages` and `content` into the dict that `save_document` returned. That dict is the index's own entry, so the in-memory record is enriched, but the index file is not rewritten. `Storage.DocumentStorage.UpdateEntry` models that write.

`chunk_text`'s `while` loop does not always terminate. `DocumentProcessor.ChunkText` therefore takes a pass budget `fuel` and returns a `complete` flag. The flag is false only when the budget ran out while Python would still be looping. The method is proved against the run function `ChunkRun`. The properties of the algorithm are lemmas about that function.

Two behaviours of the code are worth stating up front:

- `chunk_text` does not always terminate, even with `chunk_size > overlap`.
  - With `"A. BBBBBBBB"`, `chunk_size=5` and `overlap=2`, the second pass starts at 2, steps back to 0 and ends again at 2.
  - `OverlapMayNotTerminate` states this.
- Enrichment is not persisted. `upload_document` only mutates the in-memory entry (main.py lines 91-92). The index file catches up at the next save or delete.

## Model

| member | source | states |
|---|---|---|
| DocumentProcessor.KeptPages | backend/utils/document_processor.py:39-44 | the kept pages are never blank and are no more than the raw pages |
| DocumentProcessor.KeptPagesAppend | backend/utils/document_processor.py:41-44 | filtering distributes over concatenation, so the kept pages keep their original order |
| DocumentProcessor.KeptPagesMembers | backend/utils/document_processor.py:41-44 | a text is among the kept pages exactly when it is a raw page and not whitespace-only |
| DocumentProcessor.BlankMiddlePageDropped | backend/utils/document_processor.py:39-50 | a three-page document whose middle page is whitespace gives two pages, a count of 2 and the two texts joined by a newline |
| DocumentProcessor.ProcessPdf | backend/utils/document_processor.py:27-54 | a reader failure becomes "Error processing PDF: " plus its message; otherwise the kind is "pdf", `pages` are the kept pages, `num_pages` is their number, and `total_text` is their newline join, which is empty when no page is kept |
| DocumentProcessor.ProcessDocument | backend/utils/document_processor.py:9-25 | the result fails with a ValueError exactly when the lower-cased extension is not ".pdf"; otherwise the outcome is the PDF extraction's |
| DocumentProcessor.PdfOutcome | backend/utils/document_processor.py:27-54 | extraction succeeds exactly when the reader does, and a reader failure becomes a plain Exception; on success the page count is the number of pages kept, every kept page is non-blank, and no more pages are kept than were read |
| DocumentProcessor.Extension | backend/utils/document_processor.py:19 | the lower-cased `splitext` extension is as long as the raw one, and is empty or starts with '.' |
| DocumentProcessor.Processed | backend/utils/document_processor.py:9-25 | the outcome is a ValueError exactly when the lower-cased extension is not ".pdf"; for ".pdf" it is the PDF extraction's |
| DocumentProcessor.PathExtension | backend/utils/document_processor.py:19 | for a path `dir/stem.ext` with a plain stem, the extension tested is the lower-cased `.ext` |
| DocumentProcessor.UpperCasePdfAccepted | backend/utils/document_processor.py:19-25 | a file named `stem.PDF`, in any directory, is handed to the PDF reader |
| DocumentProcessor.TextExtensionRejected | backend/utils/document_processor.py:19-22 | a file named `stem.txt`, in any directory, fails with ValueError "Unsupported file type: .txt" |
| DocumentProcessor.ChunkStep | backend/utils/document_processor.py:73-90 | one pass's window lies inside the text; a final pass ends at the text's end; a continuing pass resumes inside the text |
| DocumentProcessor.ChunkPass | backend/utils/document_processor.py:73-90 | the slice one loop pass appends, whether it breaks out, and the next `start` agree with the pass function, including Python's negative-bound slicing and rfind |
| DocumentProcessor.ChunkRun | backend/utils/document_processor.py:72-92 | the `while` loop as a function: the windows of the passes from `start`, in order, and whether the loop exits within `fuel` passes; a start at or past the end takes no pass |
| DocumentProcessor.ChunkText | backend/utils/document_processor.py:56-92 | the chunks are the slices of the windows the run function takes, in order; empty text yields no chunks and is complete; the chunk size and overlap default to 1000 and 200 |
| DocumentProcessor.ShortTextIsOneChunk | backend/utils/document_processor.py:68-82 | a non-empty text no longer than `chunk_size` is exactly one chunk, the whole text |
| DocumentProcessor.RunShape | backend/utils/document_processor.py:72-92 | every chunk is a contiguous slice of the text; a complete run over a non-empty text ends with a suffix of the text |
| DocumentProcessor.CompleteRunIsFinal | backend/utils/document_processor.py:72-92 | once a run completes, a larger pass budget gives the same chunks |
| DocumentProcessor.FirstChunkIsPrefix | backend/utils/document_processor.py:72-89 | the first chunk is a non-empty prefix of length at most `chunk_size` |
| DocumentProcessor.NonFinalChunkEndsAtLastPeriod | backend/utils/document_processor.py:84-90 | a non-final chunk starts at `start - overlap` (or 0 for the first) and ends just after the last '.' before `start + chunk_size` when there is one, otherwise at `start + chunk_size`; the next pass starts where it ends |
| DocumentProcessor.ChunkLengthBound | backend/utils/document_processor.py:73-89 | a chunk is at most `chunk_size` long, or `chunk_size + overlap` after the first pass |
| DocumentProcessor.LaterChunkExceedsChunkSize | backend/utils/document_processor.py:73-89 | with "ABCDEFGHIJ", size 4 and overlap 2, the second chunk has 6 characters, more than the documented maximum size |
| DocumentProcessor.PeriodsBreakChunks | backend/utils/document_processor.py:84-89 | "A. B. C. D." with size 5 and overlap 2 gives "A. B.", "B. C." and "C. D.", each ending at a period |
| DocumentProcessor.NoOverlapTerminates | backend/utils/document_processor.py:72-92 | with overlap 0 and `chunk_size >= 1`, the loop finishes within one pass per character, and no chunk is empty |
| DocumentProcessor.NoOverlapConcatenation | backend/utils/document_processor.py:72-92 | with overlap 0, the chunks of a finished run from `start` concatenate to the text from `start` |
| DocumentProcessor.NoOverlapChunksCoverText | backend/utils/document_processor.py:68-92 | with overlap 0 and `chunk_size >= 1`, the chunks are non-empty and concatenate to exactly the text |
| DocumentProcessor.StuckLoopRepeats | backend/utils/document_processor.py:72-90 | on "A. BBBBBBBB" with size 5 and overlap 2, a pass from 2 returns to 2, so no budget finishes it |
| DocumentProcessor.OverlapMayNotTerminate | backend/utils/document_processor.py:72-90 | with a positive overlap the loop need not terminate: that call never completes, whatever the budget |
| Storage.BlobPath | backend/utils/storage.py:40 | the blob path is `docs_dir` joined with `{doc_id}{ext}`, so it is at least as long as that name |
| Storage.BlobPathEndsWithName | backend/utils/storage.py:40 | the blob path ends with the id followed by the uploaded name's extension |
| Storage.BlobPathKeepsExtension | backend/utils/storage.py:40 | for a uuid-shaped id, the blob path's splitext extension is the uploaded name's |
| Storage.Without | backend/utils/storage.py:90 | removing a key leaves exactly the other keys |
| Storage.WithoutDistinct | backend/utils/storage.py:90 | removing a key keeps the index order free of repetitions |
| Storage.DocumentStorage.Valid | backend/utils/storage.py:29-55 | the store's invariant: the insertion order lists each key of the index once; the index file has the same keys as the in-memory index; each file record agrees with the in-memory one on every field save_document writes, since the upload handler's enrichment is not written back |
| Storage.DocumentStorage.constructor | backend/utils/storage.py:9-27 | a found index file is loaded as it is; without one, the index starts empty and the empty index is written; the store is valid; the documents directory is `base_dir/documents`; `base_dir` defaults to "storage" |
| Storage.DocumentStorage.SaveMetadata | backend/utils/storage.py:29-32 | the index file becomes the in-memory index |
| Storage.DocumentStorage.SaveDocument | backend/utils/storage.py:34-55 | exactly the new id is added, with the given id, name, type, timestamp and path `docs_dir/{id}{ext}`; the bytes are written at that path; every other entry is unchanged; the index file equals the index; the record and bytes can then be read back |
| Storage.DocumentStorage.UpdateEntry | backend/utils/storage.py:52-55 | writing extracted fields into the returned record changes that in-memory entry only; the index file is not rewritten, and the store stays valid |
| Storage.DocumentStorage.GetDocument | backend/utils/storage.py:57-59 | the stored record for a known id and none for an unknown one; as a function of the store it changes nothing |
| Storage.DocumentStorage.GetDocumentContent | backend/utils/storage.py:61-71 | an unknown id gives AppError 404; a missing blob gives an AppError with status 500; otherwise the stored bytes |
| Storage.DocumentStorage.ListDocuments | backend/utils/storage.py:73-75 | one record per id, in insertion order, and every stored record appears |
| Storage.DocumentStorage.DeleteDocument | backend/utils/storage.py:77-91 | an unknown id gives AppError 404 and changes nothing; otherwise only that key and its blob go, a missing blob is no error, and the index file equals the index |
| Errors.MakeAppError | backend/utils/error_handlers.py:6-10 | an AppError keeps its message and status, and the status defaults to 500 |
| Errors.Str | backend/utils/error_handlers.py:16-17 | the text of an error: an AppError's, ValueError's or other exception's message, and for an HTTPException its status, ": " and its detail, as Starlette renders it |
| Errors.HandleError | backend/utils/error_handlers.py:12-19 | an AppError maps to its own status and message; a ValueError to 400 with its text; anything else to 500 "Internal server error" |
| Errors.DefaultAppErrorIsServerError | backend/utils/error_handlers.py:6-19 | an AppError built without a status is answered with 500 and its message; any other error hides its message |
| Errors.HandleErrorStatuses | backend/utils/error_handlers.py:12-19 | only AppErrors carry a status other than 400 or 500; the detail is the error's text unless it is neither AppError nor ValueError |
| Api.Rejection | backend/main.py:72-78 | a request is refused before anything is stored exactly when the name is missing or empty or the content is empty, always with status 400 |
| Api.EmptyFileDetailIsStr | backend/main.py:77-96 | the empty-file error is re-raised by the generic handler with detail "400: File is empty" |
| Api.SavedRecord | backend/utils/storage.py:34-55 | the record save_document stores carries the id, the name and the derived path, with nothing extracted yet |
| Api.Outcome | backend/main.py:88-96 | a successful upload returns the saved record with page count and text added; a failed extraction gives a 400 |
| Api.ProcessAndMerge | backend/main.py:87-96 | the outcome is as specified; on success the in-memory entry holds the enriched record; on failure it stays as saved; the store stays valid |
| Api.SaveAndProcess | backend/main.py:80-96 | the id is appended, the blob written and the saved record persisted even when extraction fails; the in-memory entry is the enriched record on success |
| Api.UploadDocument | backend/main.py:67-96 | a refused request returns its 400 and leaves the store unchanged; otherwise the effect is the save-then-process one, and the store stays valid |
| Api.OutcomeByExtension | backend/main.py:88-96 | a saved path whose extension is not ".pdf" fails with 400 "Unsupported file type: ..."; a ".pdf" one succeeds exactly when the reader does, with the kept pages' count and joined text |
| Api.UploadDecidedByFilename | backend/main.py:80-96 | for a uuid-shaped id the upload's fate depends on the uploaded name's lower-cased extension: not ".pdf" gives the unsupported-type 400 while the record stays stored; ".pdf" in any case succeeds exactly when the reader does |
| Api.GetDocumentEndpoint | backend/main.py:103-109 | 404 "Document not found" exactly when the id is unknown, otherwise the stored record |

## Left out

- DocumentProcessor.ChunkText: the loop is bounded by the `fuel` pass budget.
  - It gives up with `complete == false` where Python would still be running.
  - Non-termination is proved about the run function, not about the method.
- PDF parsing (`PdfReader`, `extract_text`) is a foreign library. Its result is an input: the page texts in order, or the message of the exception it raised.
- Real file I/O is left out: `open`, `os.remove`, `os.makedirs` and the JSON text of `metadata.json`.
  - The blobs and the index file are maps.
  - A failing write and an unreadable blob other than a missing one are not modelled.
  - The index file's key order is not modelled.
- The store's `__init__` takes the existing index file's contents and the existing blobs as parameters.
- `uuid.uuid4()` and `datetime.utcnow()` are parameters. The id must be fresh, because the code never checks for a collision.
- Concurrency is left out. The handlers are async and the index has no lock; the model is sequential.
- The app setup, CORS, the error middleware, `ask_question` (a call to an external model) and the list and delete endpoints of backend/main.py are left out.
- The `if not file` check (main.py line 69) is left out: the framework always supplies the upload object.
- The `num_pages` default of 1 and the `total_text` default of `''` in main.py are not modelled. They can never apply: a successful `process_document` always sets both.
- Storage.ReadError: the message of a missing-file error quotes the path with `'...'`, without Python's full `repr` escaping.
- PyText.Lower: `str.lower` is modelled for ASCII letters only. Other characters are kept as they are.
- Negative slice and `rfind` bounds are modelled exactly as CPython adjusts them, rather than excluded. So `chunk_text` needs no precondition, and the lemmas that need `start - overlap >= 0` require it.
