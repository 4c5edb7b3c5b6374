/**
 * The `/files` endpoints (backend/app/api/files.py): the upload check chain,
 * and the life of a file as a row of `uploaded_csvs` plus a blob in the
 * local store.
 */
module FilesApi {
  import opened Records
  import opened Utf8
  import opened Storage

  /** 5 MiB; an upload of exactly this many bytes is still accepted. */
  const MaxFileSize := 5 * 1024 * 1024

  /** `filename.endswith('.csv')`: case-sensitive, on the whole name. */
  predicate EndsWithCsv(name: string) {
    |name| >= 4 && name[|name| - 4..] == ".csv"
  }

  /** What the check chain learns from an accepted upload: the frame's header and data-row count. */
  datatype Frame = Frame(columns: seq<string>, rowCount: nat)

  /**
   * The checks of `upload_file` before anything is stored, in their order:
   * extension, empty, size, UTF-8, then the parse and the empty-frame test.
   * The first check that fails decides the answer.
   */
  function CheckUpload(filename: string, contents: Bytes, readCsv: CsvReader): (r: Response<Frame>)
    ensures !EndsWithCsv(filename) ==> r == Err(BadExtension)
    ensures EndsWithCsv(filename) && |contents| == 0 ==> r == Err(EmptyFile)
    ensures EndsWithCsv(filename) && |contents| > MaxFileSize ==> r == Err(TooLarge)
    ensures EndsWithCsv(filename) && 0 < |contents| <= MaxFileSize && !WellFormed(contents) ==>
      r == Err(BadEncoding)
    ensures EndsWithCsv(filename) && 0 < |contents| <= MaxFileSize && WellFormed(contents) ==>
      match readCsv(contents)
      case ParserFailure => r == Err(BadCsv)
      case OtherFailure => r == Err(Internal)
      case Parsed(t) =>
        if |t.rows| == 0 || |t.columns| == 0 then r == Err(NoData)
        else r == Ok(Frame(t.columns, |t.rows|))
    ensures r.Ok? ==> |r.value.columns| > 0 && r.value.rowCount > 0 && 0 < |contents| <= MaxFileSize
  {
    if !EndsWithCsv(filename) then Err(BadExtension)
    else if |contents| == 0 then Err(EmptyFile)
    else if |contents| > MaxFileSize then Err(TooLarge)
    else if !WellFormed(contents) then Err(BadEncoding)
    else
      match readCsv(contents)
      case ParserFailure => Err(BadCsv)
      case OtherFailure => Err(Internal)
      case Parsed(t) =>
        if |t.rows| == 0 || |t.columns| == 0 then Err(NoData) else Ok(Frame(t.columns, |t.rows|))
  }

  /**
   * The status codes of the chain. The size check alone answers 413, a
   * failure of the reader other than a parse error alone answers 500, and
   * every other refusal is 400: a bad name whatever the contents, an empty
   * upload, bytes that are not UTF-8, a parse error, and a frame without a
   * header or without rows.
   */
  lemma RejectionStatus(filename: string, contents: Bytes, readCsv: CsvReader)
    ensures !EndsWithCsv(filename) ==>
      CheckUpload(filename, contents, readCsv).Err? && Status(CheckUpload(filename, contents, readCsv).reason) == 400
    ensures EndsWithCsv(filename) && |contents| == 0 ==>
      CheckUpload(filename, contents, readCsv).Err? && Status(CheckUpload(filename, contents, readCsv).reason) == 400
    ensures EndsWithCsv(filename) && |contents| > MaxFileSize ==>
      CheckUpload(filename, contents, readCsv).Err? && Status(CheckUpload(filename, contents, readCsv).reason) == 413
    ensures EndsWithCsv(filename) && 0 < |contents| <= MaxFileSize && !WellFormed(contents) ==>
      CheckUpload(filename, contents, readCsv).Err? && Status(CheckUpload(filename, contents, readCsv).reason) == 400
    ensures EndsWithCsv(filename) && 0 < |contents| <= MaxFileSize && WellFormed(contents) &&
            readCsv(contents).ParserFailure? ==>
      CheckUpload(filename, contents, readCsv).Err? && Status(CheckUpload(filename, contents, readCsv).reason) == 400
    ensures EndsWithCsv(filename) && 0 < |contents| <= MaxFileSize && WellFormed(contents) &&
            readCsv(contents).Parsed? && (|readCsv(contents).table.rows| == 0 || |readCsv(contents).table.columns| == 0) ==>
      CheckUpload(filename, contents, readCsv).Err? && Status(CheckUpload(filename, contents, readCsv).reason) == 400
    ensures EndsWithCsv(filename) && 0 < |contents| <= MaxFileSize && WellFormed(contents) &&
            readCsv(contents).OtherFailure? ==>
      CheckUpload(filename, contents, readCsv).Err? && Status(CheckUpload(filename, contents, readCsv).reason) == 500
    ensures CheckUpload(filename, contents, readCsv).Err? &&
            Status(CheckUpload(filename, contents, readCsv).reason) == 413 ==>
      EndsWithCsv(filename) && |contents| > MaxFileSize
    ensures CheckUpload(filename, contents, readCsv).Err? &&
            Status(CheckUpload(filename, contents, readCsv).reason) == 500 ==>
      readCsv(contents).OtherFailure?
  {
  }

  /** The size bound is inclusive: only strictly larger content is refused as too large. */
  lemma SizeBoundary(filename: string, contents: Bytes, readCsv: CsvReader)
    requires EndsWithCsv(filename)
    ensures CheckUpload(filename, contents, readCsv) == Err(TooLarge) <==> |contents| >= MaxFileSize + 1
  {
  }

  /** An encoding refusal means exactly that no text encodes to the contents. */
  lemma EncodingRejection(filename: string, contents: Bytes, readCsv: CsvReader)
    requires EndsWithCsv(filename) && 0 < |contents| <= MaxFileSize
    ensures CheckUpload(filename, contents, readCsv) == Err(BadEncoding) <==>
      !exists cps :: AllScalars(cps) && Encode(cps) == contents
  {
    WellFormedIffEncoding(contents);
  }

  /** The `data` part of a successful upload response. */
  datatype UploadData = UploadData(fileId: FileId, filename: string, filesize: nat, rows: nat, columns: seq<string>)

  /** One element of the `GET /files` list. */
  datatype ListItem = ListItem(fileId: FileId, filename: string, filesize: nat, rowCount: nat, uploadedAt: int)

  function ItemOf(rec: FileRecord): ListItem {
    ListItem(rec.id, rec.filename, rec.filesize, rec.rowCount, rec.uploadedAt)
  }

  /** A download: the blob's bytes, the media type and the name offered to the browser. */
  datatype Download = Download(content: Bytes, mediaType: string, filename: string)

  /** The endpoints over the `uploaded_csvs` table and the module-level store. */
  class FileService {
    /** The rows of `uploaded_csvs`, by primary key. */
    var records: map<FileId, FileRecord>
    const storage: LocalStorageService

    /** Every row is filed under its own id. */
    predicate Valid()
      reads this
    {
      forall id :: id in records ==> records[id].id == id
    }

    constructor (storage: LocalStorageService)
      ensures Valid() && records == map[] && this.storage == storage
    {
      records := map[];
      this.storage := storage;
    }

    /**
     * `POST /files`. `newId` is the fresh `uuid4` and `now` the database
     * clock. A refused upload changes nothing. An id already in the table
     * makes the commit fail, which surfaces as 500. Otherwise the row is
     * inserted and the uploaded bytes are stored under the new id.
     */
    method UploadFile(filename: string, contents: Bytes, newId: FileId, now: int, readCsv: CsvReader)
      returns (r: Response<UploadData>)
      requires Valid()
      modifies this, storage
      ensures Valid()
      ensures CheckUpload(filename, contents, readCsv).Err? ==>
        r == Err(CheckUpload(filename, contents, readCsv).reason) &&
        records == old(records) && storage.blobs == old(storage.blobs)
      ensures CheckUpload(filename, contents, readCsv).Ok? && newId in old(records) ==>
        r == Err(Internal) && records == old(records) && storage.blobs == old(storage.blobs)
      ensures CheckUpload(filename, contents, readCsv).Ok? && newId !in old(records) ==>
        var frame := CheckUpload(filename, contents, readCsv).value;
        && r == Ok(UploadData(newId, filename, |contents|, frame.rowCount, frame.columns))
        && records == old(records)[newId := FileRecord(newId, filename, now, frame.columns, |contents|, frame.rowCount)]
        && storage.blobs == old(storage.blobs)[newId := contents]
    {
      var checked := CheckUpload(filename, contents, readCsv);
      if checked.Err? {
        return Err(checked.reason);
      }
      var frame := checked.value;
      if newId in records {
        return Err(Internal);
      }
      var rec := FileRecord(newId, filename, now, frame.columns, |contents|, frame.rowCount);
      records := records[newId := rec];
      var _ := storage.SaveFile(newId, contents);
      r := Ok(UploadData(newId, filename, |contents|, frame.rowCount, frame.columns));
    }

    /** `GET /files`: every row once, in no particular order. */
    method ListFiles() returns (items: seq<ListItem>)
      requires Valid()
      ensures |items| == |records|
      ensures forall i :: 0 <= i < |items| ==> items[i].fileId in records && items[i] == ItemOf(records[items[i].fileId])
      ensures forall id :: id in records ==> exists i :: 0 <= i < |items| && items[i].fileId == id
      ensures forall i, j :: 0 <= i < j < |items| ==> items[i].fileId != items[j].fileId
    {
      items := [];
      var remaining := records.Keys;
      while remaining != {}
        invariant remaining <= records.Keys
        invariant |items| + |remaining| == |records|
        invariant forall i :: 0 <= i < |items| ==>
          items[i].fileId in records && items[i].fileId !in remaining && items[i] == ItemOf(records[items[i].fileId])
        invariant forall id :: id in records && id !in remaining ==> exists i :: 0 <= i < |items| && items[i].fileId == id
        invariant forall i, j :: 0 <= i < j < |items| ==> items[i].fileId != items[j].fileId
        decreases |remaining|
      {
        var id :| id in remaining;
        ghost var before := items;
        items := items + [ItemOf(records[id])];
        forall x | x in records && x !in remaining - {id}
          ensures exists i :: 0 <= i < |items| && items[i].fileId == x
        {
          if x == id {
            assert items[|items| - 1].fileId == x;
          } else {
            var i :| 0 <= i < |before| && before[i].fileId == x;
            assert items[i] == before[i];
          }
        }
        remaining := remaining - {id};
      }
    }

    /** `GET /files/{id}`: the row, or 404. */
    function GetFile(fileId: FileId): (r: Response<FileRecord>)
      reads this
      requires Valid()
      ensures r.Ok? <==> fileId in records
      ensures r.Ok? ==> r.value == records[fileId] && r.value.id == fileId
      ensures r.Err? ==> r.reason == NotFound
    {
      if fileId in records then Ok(records[fileId]) else Err(NotFound)
    }

    /**
     * `GET /files/{id}/download` as evidently intended: 404 without a row or
     * without a blob, otherwise the stored bytes as `text/csv` under the
     * uploaded file name.
     */
    function DownloadFile(fileId: FileId): (r: Response<Download>)
      reads this, storage
      ensures r.Ok? <==> fileId in records && fileId in storage.blobs
      ensures r.Ok? ==> r.value == Download(storage.blobs[fileId], "text/csv", records[fileId].filename)
      ensures r.Err? ==> r.reason == NotFound
    {
      if fileId !in records then Err(NotFound)
      else if fileId !in storage.blobs then Err(NotFound)
      else Ok(Download(storage.blobs[fileId], "text/csv", records[fileId].filename))
    }

    /**
     * `GET /files/{id}/download` as written: the store has no
     * `get_file_response`, so once the row is found the call raises an
     * `AttributeError`, which no handler catches.
     */
    function DownloadAsWritten(fileId: FileId): (r: Response<Download>)
      reads this
      ensures r.Err?
      ensures r.reason == (if fileId in records then Internal else NotFound)
    {
      if fileId !in records then Err(NotFound) else Err(Internal)
    }

    /** `DELETE /files/{id}`: 404 and no change without a row; otherwise the blob and the row both go. */
    method DeleteFile(fileId: FileId) returns (r: Response<()>)
      requires Valid()
      modifies this, storage
      ensures Valid()
      ensures fileId !in old(records) ==>
        r == Err(NotFound) && records == old(records) && storage.blobs == old(storage.blobs)
      ensures fileId in old(records) ==>
        r == Ok(()) && records == old(records) - {fileId} && storage.blobs == old(storage.blobs) - {fileId}
    {
      if fileId !in records {
        return Err(NotFound);
      }
      storage.DeleteFile(records[fileId].id);
      records := records - {fileId};
      r := Ok(());
    }
  }

  /** Every download of a stored file fails as written, where the intended endpoint returns its bytes. */
  lemma DownloadDiscrepancy(service: FileService, fileId: FileId)
    requires fileId in service.records && fileId in service.storage.blobs
    ensures service.DownloadAsWritten(fileId) == Err(Internal)
    ensures service.DownloadFile(fileId).Ok?
  {
  }

  /** Upload, then download: the same bytes come back, typed `text/csv`. */
  method UploadThenDownload(service: FileService, filename: string, contents: Bytes, newId: FileId,
                            now: int, readCsv: CsvReader)
    returns (uploaded: Response<UploadData>, downloaded: Response<Download>)
    requires service.Valid()
    modifies service, service.storage
    ensures uploaded.Ok? ==> downloaded == Ok(Download(contents, "text/csv", filename))
    ensures uploaded.Ok? <==> CheckUpload(filename, contents, readCsv).Ok? && newId !in old(service.records)
  {
    uploaded := service.UploadFile(filename, contents, newId, now, readCsv);
    if uploaded.Ok? {
      downloaded := service.DownloadFile(uploaded.value.fileId);
    } else {
      downloaded := Err(NotFound);
    }
  }

  /**
   * After a delete, the id is gone everywhere: get and download give 404,
   * the list leaves it out, and deleting again gives 404, so delete is not
   * idempotent at the endpoint.
   */
  method DeleteThenQuery(service: FileService, fileId: FileId)
    returns (first: Response<()>, got: Response<FileRecord>, downloaded: Response<Download>,
             listed: seq<ListItem>, second: Response<()>)
    requires service.Valid() && fileId in service.records
    modifies service, service.storage
    ensures first == Ok(()) && second == Err(NotFound)
    ensures got == Err(NotFound) && downloaded == Err(NotFound)
    ensures forall i :: 0 <= i < |listed| ==> listed[i].fileId != fileId
    ensures |listed| == |old(service.records)| - 1
  {
    first := service.DeleteFile(fileId);
    got := service.GetFile(fileId);
    downloaded := service.DownloadFile(fileId);
    listed := service.ListFiles();
    second := service.DeleteFile(fileId);
  }

  /** The upload's spooled file: its bytes and the read position. */
  datatype UploadStream = UploadStream(data: Bytes, pos: nat)

  predicate InBounds(s: UploadStream) { s.pos <= |s.data| }

  /** `await file.read()`: everything from the position on; the position moves to the end. */
  function ReadRest(s: UploadStream): (result: (Bytes, UploadStream))
    requires InBounds(s)
    ensures s.data[..s.pos] + result.0 == s.data
    ensures result.1.data == s.data && result.1.pos == |s.data|
  {
    (s.data[s.pos..], UploadStream(s.data, |s.data|))
  }

  /**
   * The blob `upload_file` actually writes: the handler reads the stream to
   * the end first and `copyfileobj` then copies from that position on.
   */
  function BlobAsWritten(contents: Bytes): (blob: Bytes)
    ensures ReadRest(UploadStream(contents, 0)).0 == contents
    ensures blob == []
  {
    var (_, after) := ReadRest(UploadStream(contents, 0));
    after.data[after.pos..]
  }

  /** Any non-empty upload is stored as an empty blob, as written. */
  lemma StoredBlobDiscrepancy(contents: Bytes)
    requires |contents| > 0
    ensures BlobAsWritten(contents) != contents
  {
  }
}
