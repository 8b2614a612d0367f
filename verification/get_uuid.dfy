/**
  Server-side upload validation and naming, app/utils/get_uuid.py: the
  extension allow-list, the size limit, and the name and path a stored
  upload gets. Every failure surfaces as FileNotAllowedException, whose
  message is modelled as the Err value.
*/
module GetUuid {
  import opened Wrappers
  import opened Strings
  import Config

  /**
    The parts of the uploaded werkzeug FileStorage that the checks read: the
    file name and `content_length`, which is the multipart part's own
    Content-Length header, 0 when the part carries none, and not the size of
    the data received.
  */
  datatype UploadFile = UploadFile(filename: string, contentLength: nat)

  /** `FileNotAllowedException(message)`: the message. */
  type Message = string

  /** `str(IndexError)` when `rsplit('.', 1)` has no second field. */
  const IndexErrorText: string := "list index out of range"

  /** The reason `check_file` raises inside its try block, if any: extension first, then size. */
  function CheckFailure(file: UploadFile): (r: Option<Message>)
    ensures r.Some? ==> r.value in {IndexErrorText, "File type not allowed", "File size too large"}
    ensures r == Some(IndexErrorText) <==> RSplitSecond(file.filename, '.').None?
  {
    match RSplitSecond(file.filename, '.')
    case None => Some(IndexErrorText)
    case Some(ext) =>
      if AsciiLower(ext) !in Config.AllowedExtensions then Some("File type not allowed")
      else if file.contentLength > Config.MaxFileSize then Some("File size too large")
      else None
  }

  /**
    `check_file(file)`: the same file back, or FileNotAllowedException with
    "Error checking file: " and the text of whatever the try block raised.
  */
  function CheckFile(file: UploadFile): (r: Result<UploadFile, Message>)
    ensures r.Ok? ==> r.value == file
    ensures r.Err? ==> "Error checking file: " <= r.error
  {
    match CheckFailure(file)
    case None => Ok(file)
    case Some(m) => Err("Error checking file: " + m)
  }

  /**
    `generate_uuid_and_filepath(file)`, with the fresh `uuid4()` text and the
    upload folder as parameters: the name is the uuid followed by the
    `splitext` extension of the original name, and the path joins it to the
    folder. A failed check is wrapped once more.
  */
  function GenerateUuidAndFilepath(file: UploadFile, uuid: string, uploadFolder: string)
    : (r: Result<(string, string), Message>)
    ensures r.Ok? <==> CheckFile(file).Ok?
    ensures r.Err? ==> r.error == "Error generating UUID and file path: " + CheckFile(file).error
  {
    match CheckFile(file)
    case Err(m) => Err("Error generating UUID and file path: " + m)
    case Ok(f) =>
      var fileName := uuid + SplitExt(f.filename);
      Ok((fileName, PathJoin(uploadFolder, fileName)))
  }

  // ---------------------------------------------------------------------------
  // Properties

  /** i is the position of the last '.' in name. */
  predicate IsLastDot(name: string, i: int)
  {
    0 <= i < |name| && name[i] == '.' && forall j :: i < j < |name| ==> name[j] != '.'
  }

  /** The search for the last '.' finds it exactly when there is one, and there is at most one. */
  lemma LastDot(name: string)
    ensures LastIndexOf(name, '.').None? ==> forall i :: !IsLastDot(name, i)
    ensures LastIndexOf(name, '.').Some? ==>
              IsLastDot(name, LastIndexOf(name, '.').value) &&
              forall i :: IsLastDot(name, i) ==> i == LastIndexOf(name, '.').value
  {
    if LastIndexOf(name, '.').Some? {
      var d := LastIndexOf(name, '.').value;
      assert name[d] == '.';
    }
  }

  /**
    A file is accepted exactly when its name has a '.', the text after the
    last '.' lower-cases to an allowed extension, and it is at most 20 MiB.
  */
  lemma {:induction false} CheckFileAccepts(file: UploadFile)
    ensures CheckFile(file).Ok? <==>
              exists i {:trigger IsLastDot(file.filename, i)} :: IsLastDot(file.filename, i) &&
                AsciiLower(file.filename[i + 1..]) in Config.AllowedExtensions &&
                file.contentLength <= Config.MaxFileSize
  {
    var name := file.filename;
    LastDot(name);
    match LastIndexOf(name, '.')
    case None =>
      NoDotRejected(file);
    case Some(d) =>
      CheckFileAtDot(file, d);
      if CheckFile(file).Ok? {
        assert IsLastDot(name, d);
      }
  }

  /** With the last '.' at d, the check reads the extension after d and then the size. */
  lemma CheckFileAtDot(file: UploadFile, d: nat)
    requires LastIndexOf(file.filename, '.') == Some(d)
    ensures CheckFile(file).Ok? <==>
              AsciiLower(file.filename[d + 1..]) in Config.AllowedExtensions && file.contentLength <= Config.MaxFileSize
  {
    assert RSplitSecond(file.filename, '.') == Some(file.filename[d + 1..]);
  }

  /** A name without '.' is rejected through the caught IndexError, whatever its size. */
  lemma NoDotRejected(file: UploadFile)
    requires forall j :: 0 <= j < |file.filename| ==> file.filename[j] != '.'
    ensures CheckFile(file) == Err("Error checking file: " + IndexErrorText)
  {
    RSplitSecondSpec(file.filename, '.');
  }

  /** The size limit is inclusive: exactly 20 MiB passes, one byte more is rejected. */
  lemma SizeLimitBoundary(name: string)
    requires CheckFile(UploadFile(name, 0)).Ok?
    ensures CheckFile(UploadFile(name, Config.MaxFileSize)) == Ok(UploadFile(name, Config.MaxFileSize))
    ensures CheckFile(UploadFile(name, Config.MaxFileSize + 1)) == Err("Error checking file: " + "File size too large")
  {
  }

  /**
    A part without its own Content-Length header has `content_length` 0, so
    the size check passes and acceptance rests on the extension alone,
    whatever the size of the data.
  */
  lemma MissingPartLengthPasses(name: string)
    ensures CheckFile(UploadFile(name, 0)).Ok? <==>
              RSplitSecond(name, '.').Some? && AsciiLower(RSplitSecond(name, '.').value) in Config.AllowedExtensions
  {
  }

  /** A disallowed extension is reported even when the file is also too large. */
  lemma ExtensionCheckedFirst(name: string, size: nat)
    requires RSplitSecond(name, '.').Some? && AsciiLower(RSplitSecond(name, '.').value) !in Config.AllowedExtensions
    ensures CheckFile(UploadFile(name, size)) == Err("Error checking file: " + "File type not allowed")
  {
  }

  /**
    On success the stored name is the uuid plus the original extension, dot
    and case kept, and the path is that name inside the upload folder.
  */
  lemma StoredName(file: UploadFile, uuid: string, uploadFolder: string)
    requires CheckFile(file).Ok?
    requires '/' !in uuid && uuid != []
    ensures var r := GenerateUuidAndFilepath(file, uuid, uploadFolder);
            r.Ok? && r.value.0 == uuid + SplitExt(file.filename) &&
            uploadFolder <= r.value.1 && r.value.1[|r.value.1| - |r.value.0|..] == r.value.0
  {
    var name := uuid + SplitExt(file.filename);
    assert name[0] == uuid[0];
    PathJoinRelative(uploadFolder, name);
  }

  /** "report.PDF" passes with extension "pdf" and is stored as the uuid followed by ".PDF". */
  lemma UpperCaseExtension(uuid: string, uploadFolder: string)
    ensures GenerateUuidAndFilepath(UploadFile("report.PDF", 10), uuid, uploadFolder).Ok?
    ensures GenerateUuidAndFilepath(UploadFile("report.PDF", 10), uuid, uploadFolder).value.0 == uuid + ".PDF"
  {
    var name := "report.PDF";
    assert LastIndexOf(name, '.') == Some(6) by {
      assert name[6] == '.' && name[7] != '.' && name[8] != '.' && name[9] != '.';
    }
    assert LastIndexOf(name, '/') == None;
    assert name[7..] == "PDF" && name[6..] == ".PDF";
    assert AsciiLower("PDF") == "pdf";
    assert name[0] != '.';
  }

  /**
    ".pdf" passes the check with extension "pdf", but `splitext` sees a
    hidden file without extension, so it is stored as the bare uuid.
  */
  lemma HiddenFileName(uuid: string, uploadFolder: string)
    ensures GenerateUuidAndFilepath(UploadFile(".pdf", 10), uuid, uploadFolder).Ok?
    ensures GenerateUuidAndFilepath(UploadFile(".pdf", 10), uuid, uploadFolder).value.0 == uuid
  {
    var name := ".pdf";
    assert LastIndexOf(name, '.') == Some(0) by {
      assert name[0] == '.' && name[1] != '.' && name[2] != '.' && name[3] != '.';
    }
    assert LastIndexOf(name, '/') == None;
    assert name[1..] == "pdf";
    assert AsciiLower("pdf") == "pdf";
    assert SplitExt(name) == "";
    assert uuid + "" == uuid;
  }
}
