/**
 * The upload form (frontend/src/app/components/FileUpload.tsx): the
 * client-side check of a picked file, and the widget state its handlers
 * update. The network call is an outcome handed to the model.
 */
module FileUpload {
  import opened Records
  import FilesApi

  const MaxFileSize := 5 * 1024 * 1024

  /** The messages the widget can show. */
  datatype Message = NoFileMessage | CsvOnlyMessage | TooLargeMessage | SelectFileMessage | UploadFailedMessage

  /** The text shown for a message; no message is shown as the empty string. */
  function MessageText(m: Option<Message>): string {
    match m
    case None => ""
    case Some(NoFileMessage) => "ファイルが選択されていません。"
    case Some(CsvOnlyMessage) => "CSVファイルのみ選択可能です。"
    case Some(TooLargeMessage) => "ファイルサイズは5MB以下にしてください。"
    case Some(SelectFileMessage) => "ファイルを選択してください"
    case Some(UploadFailedMessage) => "アップロードに失敗しました"
  }

  /** A browser `File`: only its name and byte size matter here. */
  datatype SelectedFile = SelectedFile(name: string, size: nat)

  /** `{ valid, message }`; the empty message is `None`. */
  datatype Validation = Validation(valid: bool, message: Option<Message>)

  predicate EndsWith(s: string, suffix: string) {
    |suffix| <= |s| && s[|s| - |suffix|..] == suffix
  }

  /**
   * `name.split('.').pop()`: the text after the last '.', or the whole name
   * when there is none.
   */
  function LastSegment(name: string): (ext: string)
    ensures EndsWith(name, ext)
    ensures forall i :: 0 <= i < |ext| ==> ext[i] != '.'
    ensures |ext| < |name| ==> name[|name| - |ext| - 1] == '.'
  {
    if name == [] then []
    else if name[|name| - 1] == '.' then []
    else LastSegment(name[..|name| - 1]) + [name[|name| - 1]]
  }

  function LowerChar(c: char): char {
    if 'A' <= c <= 'Z' then (c as int + 32) as char else c
  }

  /**
   * `toLowerCase` on ASCII letters. Only 'C', 'S' and 'V' lower-case to
   * 'c', 's' and 'v', so comparing the result with "csv" is exact.
   */
  function ToLower(s: string): (r: string)
    ensures |r| == |s| && forall i :: 0 <= i < |s| ==> r[i] == LowerChar(s[i])
  {
    seq(|s|, i requires 0 <= i < |s| => LowerChar(s[i]))
  }

  /** The client's extension test. */
  predicate ClientAcceptsName(name: string) {
    ToLower(LastSegment(name)) == "csv"
  }

  /** A file the client lets through: a CSV name and at most 5 MiB. */
  predicate Acceptable(f: SelectedFile) {
    ClientAcceptsName(f.name) && f.size <= MaxFileSize
  }

  /**
   * `validateFile`: no file, then the extension, then the size; the first
   * failing check gives the message, and a valid file has an empty message.
   */
  function ValidateFile(selected: Option<SelectedFile>): (v: Validation)
    ensures v.valid <==> selected.Some? && Acceptable(selected.value)
    ensures v.valid <==> v.message == None
    ensures selected.None? ==> v.message == Some(NoFileMessage)
    ensures selected.Some? && !ClientAcceptsName(selected.value.name) ==> v.message == Some(CsvOnlyMessage)
    ensures selected.Some? && ClientAcceptsName(selected.value.name) && selected.value.size > MaxFileSize ==>
      v.message == Some(TooLargeMessage)
  {
    match selected
    case None => Validation(false, Some(NoFileMessage))
    case Some(f) =>
      if !ClientAcceptsName(f.name) then Validation(false, Some(CsvOnlyMessage))
      else if f.size > MaxFileSize then Validation(false, Some(TooLargeMessage))
      else Validation(true, None)
  }

  /** A valid result is exactly one whose message text is empty. */
  lemma ValidIffEmptyMessage(selected: Option<SelectedFile>)
    ensures ValidateFile(selected).valid <==> MessageText(ValidateFile(selected).message) == ""
  {
    var m := ValidateFile(selected).message;
    if m.Some? {
      assert |MessageText(m)| > 0;
    }
  }

  /**
   * The client test without `split`: the name ends in "csv" in any mix of
   * cases, and either that is the whole name or a '.' comes right before it.
   */
  predicate CsvSuffix(name: string) {
    && |name| >= 3
    && LowerChar(name[|name| - 3]) == 'c'
    && LowerChar(name[|name| - 2]) == 's'
    && LowerChar(name[|name| - 1]) == 'v'
    && (|name| == 3 || name[|name| - 4] == '.')
  }

  lemma ClientAcceptsNameIff(name: string)
    ensures ClientAcceptsName(name) <==> CsvSuffix(name)
  {
    var ext := LastSegment(name);
    if ClientAcceptsName(name) {
      assert |ext| == 3;
    }
    if CsvSuffix(name) {
      var tail := name[|name| - 3..];
      assert forall i :: 0 <= i < 3 ==> tail[i] != '.' by {
        assert ToLower(tail)[0] == 'c' && ToLower(tail)[1] == 's' && ToLower(tail)[2] == 'v';
      }
      SuffixWithoutDot(name, 3);
      assert ext == tail;
    }
  }

  /** A dot-free suffix that follows a '.' or is the whole name is the last segment. */
  lemma {:induction false} SuffixWithoutDot(name: string, k: nat)
    requires k <= |name|
    requires forall i :: |name| - k <= i < |name| ==> name[i] != '.'
    requires k == |name| || name[|name| - k - 1] == '.'
    ensures LastSegment(name) == name[|name| - k..]
  {
    if k > 0 {
      var init := name[..|name| - 1];
      assert forall i :: |init| - (k - 1) <= i < |init| ==> init[i] == name[i];
      SuffixWithoutDot(init, k - 1);
      assert init[|init| - (k - 1)..] + [name[|name| - 1]] == name[|name| - k..];
    } else if name != [] {
      assert name[|name| - 1] == '.';
    }
  }

  /** Every name the server accepts, the client accepts too. */
  lemma ServerNameIsClientName(name: string)
    requires FilesApi.EndsWithCsv(name)
    ensures ClientAcceptsName(name)
  {
    ClientAcceptsNameIff(name);
    assert name[|name| - 3..] == name[|name| - 4..][1..];
  }

  /** An upper-case extension passes the client and is refused by the server. */
  lemma UpperCaseExtensionMismatch()
    ensures ClientAcceptsName("a.CSV") && !FilesApi.EndsWithCsv("a.CSV")
  {
    ClientAcceptsNameIff("a.CSV");
  }

  /** A name without a dot is judged whole by the client, so "csv" passes there and not on the server. */
  lemma DotlessNameMismatch()
    ensures ClientAcceptsName("csv") && !FilesApi.EndsWithCsv("csv")
  {
    ClientAcceptsNameIff("csv");
  }

  /** The name shown after a successful upload, with the server's row count and header. */
  datatype SuccessInfo = SuccessInfo(fileName: string, rows: int, columns: seq<string>)

  /** What the `fetch` to `/api/upload` ends with. */
  datatype UploadOutcome = Uploaded(rows: int, columns: seq<string>) | Failed

  class UploadWidget {
    var file: Option<SelectedFile>
    var error: Option<Message>
    var isUploading: bool
    var isDragOver: bool
    var success: Option<SuccessInfo>

    /**
     * Only a file that passed `validateFile` is held (its name stated in the
     * equivalent `CsvSuffix` form), and a shown success has no file beside it.
     */
    predicate Valid()
      reads this
    {
      && (file.Some? ==> CsvSuffix(file.value.name) && file.value.size <= MaxFileSize)
      && (success.Some? ==> file.None?)
    }

    constructor ()
      ensures Valid()
      ensures file == None && error == None && !isUploading && !isDragOver && success == None
    {
      file := None;
      error := None;
      isUploading := false;
      isDragOver := false;
      success := None;
    }

    /**
     * `handleFileChange`: an invalid pick drops the file and shows the
     * message; a valid one is kept and clears the error; both clear the
     * success notice.
     */
    method HandleFileChange(selected: Option<SelectedFile>)
      requires Valid()
      modifies this
      ensures Valid()
      ensures ValidateFile(selected).valid ==> file == selected && error == None
      ensures !ValidateFile(selected).valid ==> file == None && error == ValidateFile(selected).message
      ensures success == None
      ensures isUploading == old(isUploading) && isDragOver == old(isDragOver)
    {
      var v := ValidateFile(selected);
      if selected.Some? {
        ClientAcceptsNameIff(selected.value.name);
      }
      if !v.valid {
        error := v.message;
        file := None;
      } else {
        error := None;
        file := selected;
      }
      success := None;
    }

    /** `handleDrop`: the drag highlight goes off, then the dropped file is judged as a picked one. */
    method HandleDrop(dropped: Option<SelectedFile>)
      requires Valid()
      modifies this
      ensures Valid()
      ensures ValidateFile(dropped).valid ==> file == dropped && error == None
      ensures !ValidateFile(dropped).valid ==> file == None && error == ValidateFile(dropped).message
      ensures success == None && !isDragOver
      ensures isUploading == old(isUploading)
    {
      isDragOver := false;
      HandleFileChange(dropped);
    }

    method HandleDragOver()
      modifies this
      ensures isDragOver
      ensures file == old(file) && error == old(error) && success == old(success) && isUploading == old(isUploading)
    {
      isDragOver := true;
    }

    method HandleDragLeave()
      modifies this
      ensures !isDragOver
      ensures file == old(file) && error == old(error) && success == old(success) && isUploading == old(isUploading)
    {
      isDragOver := false;
    }

    /**
     * The synchronous start of `handleSubmit`: without a file only the
     * error is set; otherwise the upload starts with the notices cleared,
     * and the file being sent is returned.
     */
    method BeginSubmit() returns (submitted: Option<SelectedFile>)
      requires Valid()
      modifies this
      ensures Valid()
      ensures submitted == old(file)
      ensures old(file).None? ==>
        error == Some(SelectFileMessage) && isUploading == old(isUploading) &&
        success == old(success) && file == old(file)
      ensures old(file).Some? ==>
        isUploading && error == None && success == None && file == old(file)
      ensures isDragOver == old(isDragOver)
    {
      submitted := file;
      if file.None? {
        error := Some(SelectFileMessage);
      } else {
        isUploading := true;
        success := None;
        error := None;
      }
    }

    /**
     * The end of `handleSubmit` once the request settles: on success the
     * notice names the submitted file and the form is emptied; on failure
     * the error is shown and the file kept; either way the upload is over.
     */
    method FinishSubmit(submitted: SelectedFile, outcome: UploadOutcome)
      requires Valid()
      modifies this
      ensures Valid()
      ensures !isUploading
      ensures outcome.Uploaded? ==>
        success == Some(SuccessInfo(submitted.name, outcome.rows, outcome.columns)) &&
        file == None && error == old(error)
      ensures outcome.Failed? ==>
        error == Some(UploadFailedMessage) && file == old(file) && success == old(success)
      ensures isDragOver == old(isDragOver)
    {
      isUploading := false;
      match outcome
      case Uploaded(rows, columns) =>
        success := Some(SuccessInfo(submitted.name, rows, columns));
        file := None;
      case Failed =>
        error := Some(UploadFailedMessage);
    }

    /** `handleSubmit` when nothing else happens while the request is in flight. */
    method HandleSubmit(outcome: UploadOutcome)
      requires Valid()
      modifies this
      ensures Valid()
      ensures old(file).None? ==>
        error == Some(SelectFileMessage) && isUploading == old(isUploading) &&
        success == old(success) && file == None
      ensures old(file).Some? && outcome.Uploaded? ==>
        success == Some(SuccessInfo(old(file).value.name, outcome.rows, outcome.columns)) &&
        file == None && error == None && !isUploading
      ensures old(file).Some? && outcome.Failed? ==>
        error == Some(UploadFailedMessage) && file == old(file) && success == None && !isUploading
      ensures isDragOver == old(isDragOver)
    {
      var submitted := BeginSubmit();
      if submitted.Some? {
        FinishSubmit(submitted.value, outcome);
      }
    }
  }
}
