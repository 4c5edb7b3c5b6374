/**
 * Values shared by the backend endpoints: bytes, the `uploaded_csvs` row
 * (backend/app/models.py), what `pandas.read_csv` hands back, and the HTTP
 * error responses the endpoints raise.
 */
module Records {

  datatype Option<T> = None | Some(value: T)

  type Byte = b: int | 0 <= b < 256
  type Bytes = seq<Byte>

  /** The string form of a record's UUID; also the blob's file name. */
  type FileId = string

  /**
   * One row of `uploaded_csvs`. `columns` is stored as a JSON list of the
   * header names; `uploadedAt` is the database clock at insert time.
   */
  datatype FileRecord = FileRecord(
    id: FileId,
    filename: string,
    uploadedAt: int,
    columns: seq<string>,
    filesize: nat,
    rowCount: nat)

  /**
   * A cell as `pandas.read_csv` delivers it after dtype inference: an
   * integer, text, or NaN for an empty field.
   */
  datatype Cell = Num(value: int) | Str(text: string) | Missing

  /** A data frame: the header names and the data rows (the header line is not a row). */
  datatype Table = Table(columns: seq<string>, rows: seq<seq<Cell>>)

  /**
   * The outcome of `pandas.read_csv`: a frame, a `ParserError` (malformed
   * rows), or any other exception (`EmptyDataError` when there is no header,
   * a decoding error, ...).
   */
  datatype CsvRead = Parsed(table: Table) | ParserFailure | OtherFailure

  /** `pandas.read_csv` on a byte string; the library is not part of this model. */
  type CsvReader = Bytes -> CsvRead

  /** Why a request was refused; each maps to the HTTP status the endpoint raises. */
  datatype Reason =
    | BadExtension        // files.py:27-28
    | EmptyFile           // files.py:31-32
    | TooLarge            // files.py:33-34
    | BadEncoding         // files.py:36-39
    | BadCsv              // files.py:71-72, a ParserError
    | NoData              // files.py:44-45
    | NoTimeColumn        // summary.py:33-34
    | NotFound            // no record, or no blob to download
    | Internal            // any other exception

  function Status(reason: Reason): (code: int)
    ensures code in {400, 404, 413, 500}
  {
    match reason
    case TooLarge => 413
    case NotFound => 404
    case Internal => 500
    case _ => 400
  }

  datatype Response<T> = Ok(value: T) | Err(reason: Reason)
}
