/** The document store (backend/utils/storage.py): an in-memory index from
    document id to metadata record, mirrored to an index file on every
    mutation, and one blob file per document. */
module Storage {
  import opened Wrappers
  import opened PyText
  import opened Errors

  type byte = x: int | 0 <= x < 256

  /** A metadata record. save_document writes the first five fields; the upload
      handler adds `numPages` and `content` once the text is extracted. */
  datatype DocRecord = DocRecord(
    id: string,
    filename: string,
    fileType: Option<string>,
    createdAt: string,
    path: string,
    numPages: Option<int>,
    content: Option<string>)

  /** The two records agree on every field save_document writes. */
  predicate SameBase(a: DocRecord, b: DocRecord) {
    a.(numPages := None, content := None) == b.(numPages := None, content := None)
  }

  /** Where save_document writes a blob: `docs_dir/{doc_id}{extension}`. */
  function BlobPath(docsDir: string, docId: string, filename: string): (path: string)
    ensures |docId + SplitExt(filename).1| <= |path|
  {
    PathJoinEndsWith(docsDir, docId + SplitExt(filename).1);
    PathJoin(docsDir, docId + SplitExt(filename).1)
  }

  /** The blob's file name is the id followed by the uploaded name's extension. */
  lemma BlobPathEndsWithName(docsDir: string, docId: string, filename: string)
    ensures EndsWith(BlobPath(docsDir, docId, filename), docId + SplitExt(filename).1)
  {
    PathJoinEndsWith(docsDir, docId + SplitExt(filename).1);
  }

  /** The shape of `str(uuid.uuid4())`: non-empty, with no '.' and no '/'. */
  predicate IdShaped(docId: string) {
    PlainStem(docId)
  }

  /** A blob path keeps the uploaded name's extension, so the extension that
      process_document later reads off the path is the one of the filename. */
  lemma BlobPathKeepsExtension(docsDir: string, docId: string, filename: string)
    requires IdShaped(docId)
    ensures SplitExt(BlobPath(docsDir, docId, filename)).1 == SplitExt(filename).1
  {
    var e := SplitExt(filename).1;
    var pre := if docsDir == [] || docsDir[|docsDir| - 1] == '/' then docsDir else docsDir + "/";
    assert BlobPath(docsDir, docId, filename) == pre + (docId + e) by {
      assert (docId + e)[0] == docId[0];
    }
    SplitExtOfName(pre, docId, e);
  }

  /** The AppError for an unknown id. */
  function NotFound(docId: string): Error {
    MakeAppError("Document " + docId + " not found", 404)
  }

  /** The AppError for a blob that cannot be opened, carrying the text of the
      FileNotFoundError that `open` raises, and the default status. */
  function ReadError(path: string): Error {
    MakeAppError("Error reading document: [Errno 2] No such file or directory: '" + path + "'")
  }

  predicate Distinct(s: seq<string>) {
    forall i, j :: 0 <= i < j < |s| ==> s[i] != s[j]
  }

  lemma DistinctCons(a: string, r: seq<string>)
    requires a !in r && Distinct(r)
    ensures Distinct([a] + r)
  {
    forall i, j | 0 <= i < j < |[a] + r| ensures ([a] + r)[i] != ([a] + r)[j] {
      if i > 0 {
        assert ([a] + r)[i] == r[i - 1] && ([a] + r)[j] == r[j - 1];
      } else {
        assert ([a] + r)[j] == r[j - 1];
      }
    }
  }

  lemma DistinctTail(s: seq<string>)
    requires Distinct(s) && s != []
    ensures Distinct(s[1..]) && s[0] !in s[1..]
  {
  }

  /** `s` with every occurrence of `x` removed. */
  function Without(s: seq<string>, x: string): (r: seq<string>)
    ensures forall y :: y in r <==> y in s && y != x
    ensures |r| <= |s|
  {
    if s == [] then []
    else if s[0] == x then Without(s[1..], x)
    else [s[0]] + Without(s[1..], x)
  }

  /** Removing an element keeps a sequence free of repetitions. */
  lemma {:induction false} WithoutDistinct(s: seq<string>, x: string)
    requires Distinct(s)
    ensures Distinct(Without(s, x))
  {
    if s != [] {
      DistinctTail(s);
      WithoutDistinct(s[1..], x);
      if s[0] != x {
        DistinctCons(s[0], Without(s[1..], x));
      }
    }
  }

  /** A sequence without repetitions has as many elements as its set. */
  lemma {:induction false} DistinctCardinality(s: seq<string>)
    requires Distinct(s)
    ensures |set x | x in s| == |s|
  {
    if s != [] {
      DistinctCardinality(s[1..]);
      assert (set x | x in s) == (set x | x in s[1..]) + {s[0]};
      assert s[0] !in s[1..];
    }
  }

  /** The records of `m` at the keys `ks`, in that order. */
  function ValuesAt(m: map<string, DocRecord>, ks: seq<string>): (r: seq<DocRecord>)
    requires forall k :: k in ks ==> k in m
    ensures |r| == |ks|
    ensures forall i :: 0 <= i < |ks| ==> r[i] == m[ks[i]]
  {
    if ks == [] then [] else [m[ks[0]]] + ValuesAt(m, ks[1..])
  }

  /** Every key listed has its record among the values listed. */
  lemma ValuesAtCovers(m: map<string, DocRecord>, ks: seq<string>)
    requires forall k :: k in ks ==> k in m
    ensures forall k :: k in ks ==> m[k] in ValuesAt(m, ks)
  {
    var r := ValuesAt(m, ks);
    forall k | k in ks ensures m[k] in r {
      var i :| 0 <= i < |ks| && ks[i] == k;
      assert r[i] == m[k];
    }
  }

  /** The contents of an existing index file: its keys in file order, and the
      record stored under each. */
  datatype StoredIndex = StoredIndex(order: seq<string>, entries: map<string, DocRecord>)

  class DocumentStorage {
    const baseDir: string
    const docsDir: string
    /** `self.metadata`, the in-memory index. */
    var metadata: map<string, DocRecord>
    /** The insertion order of `self.metadata`'s keys. */
    var order: seq<string>
    /** The files under `docs_dir`, by path. */
    var blobs: map<string, seq<byte>>
    /** What the index file holds: the index as last written by _save_metadata. */
    ghost var persisted: map<string, DocRecord>

    /** The index file has the same keys as the in-memory index and lags behind
        it at most by enrichment. */
    ghost predicate Valid()
      reads this
    {
      && Distinct(order)
      && (forall id :: id in metadata <==> id in order)
      && persisted.Keys == metadata.Keys
      && (forall id :: id in metadata ==> SameBase(persisted[id], metadata[id]))
    }

    /** `__init__` with `_load_metadata`: load the index file if there is one,
        otherwise start empty and write the empty index. */
    constructor (stored: Option<StoredIndex>, files: map<string, seq<byte>>, baseDir: string := "storage")
      requires stored.Some? ==>
        Distinct(stored.value.order) && forall id :: id in stored.value.entries <==> id in stored.value.order
      ensures Valid()
      ensures this.baseDir == baseDir && docsDir == PathJoin(baseDir, "documents")
      ensures blobs == files
      ensures stored.Some? ==> metadata == stored.value.entries && order == stored.value.order
      ensures stored.None? ==> metadata == map[] && order == []
      ensures persisted == metadata
    {
      this.baseDir := baseDir;
      docsDir := PathJoin(baseDir, "documents");
      blobs := files;
      if stored.Some? {
        metadata := stored.value.entries;
        order := stored.value.order;
        persisted := stored.value.entries;
      } else {
        metadata := map[];
        order := [];
        persisted := map[];
      }
    }

    /** `_save_metadata`: rewrite the index file from the in-memory index. */
    method SaveMetadata()
      modifies this`persisted
      ensures persisted == metadata
    {
      persisted := metadata;
    }

    /** `save_document`, with the fresh uuid and the timestamp as parameters:
        write the blob, add the record under its id, rewrite the index file. */
    method SaveDocument(fileContent: seq<byte>, filename: string, fileType: Option<string>,
                        docId: string, timestamp: string) returns (record: DocRecord)
      requires Valid()
      requires docId !in metadata
      modifies this
      ensures Valid()
      ensures record == DocRecord(docId, filename, fileType, timestamp,
                                  BlobPath(docsDir, docId, filename), None, None)
      ensures metadata == old(metadata)[docId := record]
      ensures order == old(order) + [docId]
      ensures blobs == old(blobs)[record.path := fileContent]
      ensures persisted == metadata
      ensures GetDocument(docId) == Some(record)
      ensures GetDocumentContent(docId) == Success(fileContent)
    {
      var filePath := PathJoin(docsDir, docId + SplitExt(filename).1);
      blobs := blobs[filePath := fileContent];
      record := DocRecord(docId, filename, fileType, timestamp, filePath, None, None);
      metadata := metadata[docId := record];
      order := order + [docId];
      SaveMetadata();
    }

    /** A write through the dict save_document returned, which is the index's
        own entry: the in-memory record changes, the index file does not. */
    method UpdateEntry(docId: string, record: DocRecord)
      requires Valid()
      requires docId in metadata && SameBase(metadata[docId], record)
      modifies this`metadata
      ensures Valid()
      ensures metadata == old(metadata)[docId := record]
    {
      metadata := metadata[docId := record];
    }

    /** `get_document`: the record stored under the id, if any. */
    function GetDocument(docId: string): (r: Option<DocRecord>)
      reads this
      ensures r.Some? <==> docId in metadata
      ensures r.Some? ==> r.value == metadata[docId]
    {
      if docId in metadata then Some(metadata[docId]) else None
    }

    /** `get_document_content`: 404 for an unknown id, the blob's bytes when it
        exists, an AppError with the default status when it does not. */
    function GetDocumentContent(docId: string): (r: Result<seq<byte>, Error>)
      reads this
      ensures docId !in metadata ==> r == Failure(NotFound(docId))
      ensures docId in metadata && metadata[docId].path in blobs ==>
        r == Success(blobs[metadata[docId].path])
      ensures docId in metadata && metadata[docId].path !in blobs ==>
        r.Failure? && r.error.AppError? && r.error.statusCode == 500
    {
      match GetDocument(docId)
      case None => Failure(NotFound(docId))
      case Some(record) =>
        if record.path in blobs then Success(blobs[record.path]) else Failure(ReadError(record.path))
    }

    /** `list_documents`: every record once, in the index's insertion order. */
    function ListDocuments(): (docs: seq<DocRecord>)
      reads this
      requires Valid()
      ensures |docs| == |order| == |metadata|
      ensures forall i :: 0 <= i < |order| ==> docs[i] == metadata[order[i]]
      ensures forall id :: id in metadata ==> metadata[id] in docs
    {
      DistinctCardinality(order);
      assert metadata.Keys == set x | x in order;
      ValuesAtCovers(metadata, order);
      ValuesAt(metadata, order)
    }

    /** `delete_document`: 404 for an unknown id, leaving everything as it was;
        otherwise remove the blob (a missing one is ignored), drop the record
        and rewrite the index file. */
    method DeleteDocument(docId: string) returns (r: Result<(), Error>)
      requires Valid()
      modifies this
      ensures Valid()
      ensures old(docId !in metadata) ==> r == Failure(NotFound(docId)) && unchanged(this)
      ensures old(docId in metadata) ==>
        && r == Success(())
        && metadata == old(metadata) - {docId}
        && order == Without(old(order), docId)
        && blobs == old(blobs) - {old(metadata[docId].path)}
        && persisted == metadata
        && GetDocument(docId) == None
    {
      var record := GetDocument(docId);
      if record.None? {
        return Failure(NotFound(docId));
      }
      // os.remove; a blob that is already gone is not an error
      blobs := blobs - {record.value.path};
      metadata := metadata - {docId};
      WithoutDistinct(order, docId);
      order := Without(order, docId);
      SaveMetadata();
      assert forall id :: id in metadata <==> id in order;
      assert forall id :: id in metadata ==> SameBase(persisted[id], metadata[id]);
      r := Success(());
    }
  }
}
