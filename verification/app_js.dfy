/**
  The client-side checks of app/static/js/app.js: `validateFile` before an
  upload is offered, and the password-length check before the upload
  request is sent. The server repeats its own checks (module GetUuid); the
  lemmas here compare the two.
*/
module ClientValidation {
  import opened Wrappers
  import opened Strings
  import Config
  import GetUuid

  /** The client's `ALLOWED_EXTENSIONS`: the server's list plus "md". */
  const ClientExtensions: seq<string> := ["pdf", "txt", "png", "jpg", "jpeg", "gif", "env", "md"]

  /** The client's `MAX_FILE_SIZE`: 20 MiB. */
  const ClientMaxFileSize: nat := 20 * 1024 * 1024

  /** The error `validateFile` reports; its text is left out (it formats the size with floating point). */
  datatype ValidationError = ExtensionNotAllowed(ext: string) | TooLarge

  /** The object `{ valid, error }` that `validateFile` returns. */
  datatype Validation = Validation(valid: bool, error: Option<ValidationError>)

  /** `file.name.split('.').pop().toLowerCase()`: a name without '.' is its own extension. */
  function ClientExtension(name: string): (ext: string)
    ensures |ext| <= |name|
  {
    AsciiLower(SplitPop(name, '.'))
  }

  /** `validateFile(file)`: the extension check, then the size check. */
  function ValidateFile(name: string, size: nat): (v: Validation)
    ensures v.valid <==> v.error.None?
  {
    var ext := ClientExtension(name);
    if ext !in ClientExtensions then Validation(false, Some(ExtensionNotAllowed(ext)))
    else if size > ClientMaxFileSize then Validation(false, Some(TooLarge))
    else Validation(true, None)
  }

  /**
    The upload handler with the password option on: `!password ||
    password.length < 8` aborts before any request, where `length` counts
    UTF-16 code units.
  */
  function PasswordAccepted(password: string): (ok: bool)
    ensures ok ==> password != []
    ensures |password| >= 8 ==> ok
  {
    !(password == [] || Utf16Length(password) < 8)
  }

  /** Whether the upload handler goes on to send the request. */
  function UploadProceeds(usePassword: bool, password: string): (ok: bool)
    ensures !usePassword ==> ok
    ensures usePassword ==> (ok <==> password != [] && Utf16Length(password) >= 8)
  {
    !usePassword || PasswordAccepted(password)
  }

  // ---------------------------------------------------------------------------
  // Properties

  /** A file is valid exactly when its extension is allowed and it is at most 20 MiB; failing both reports the extension. */
  lemma ValidateFileSpec(name: string, size: nat)
    ensures ValidateFile(name, size).valid <==>
              ClientExtension(name) in ClientExtensions && size <= ClientMaxFileSize
    ensures ClientExtension(name) !in ClientExtensions ==>
              ValidateFile(name, size).error == Some(ExtensionNotAllowed(ClientExtension(name)))
    ensures ClientExtension(name) in ClientExtensions && size > ClientMaxFileSize ==>
              ValidateFile(name, size).error == Some(TooLarge)
  {
  }

  /**
    For a name that has a '.', the client and the server read the same
    extension, so their extension checks agree on every name except those
    whose extension is "md", which only the client allows. The two size
    checks read different numbers: the client the browser's `file.size`,
    the server the part's `content_length`. Only when those two are equal
    do the whole checks agree.
  */
  lemma {:induction false} ClientAgreesWithServer(name: string, clientSize: nat, contentLength: nat)
    requires exists j :: 0 <= j < |name| && name[j] == '.'
    requires ClientExtension(name) != "md"
    ensures RSplitSecond(name, '.').Some?
    ensures ClientExtension(name) in ClientExtensions <==> AsciiLower(RSplitSecond(name, '.').value) in Config.AllowedExtensions
    ensures clientSize == contentLength ==>
              (ValidateFile(name, clientSize).valid <==> GetUuid.CheckFile(GetUuid.UploadFile(name, contentLength)).Ok?)
  {
    RSplitSecondSpec(name, '.');
    assert RSplitSecond(name, '.').Some?;
    assert SplitPop(name, '.') == RSplitSecond(name, '.').value;
    var ext := ClientExtension(name);
    assert ext in ClientExtensions <==> ext in Config.AllowedExtensions;
  }

  /**
    A 25 MiB PDF is refused by the client, but a part sent without its own
    Content-Length header (werkzeug's `content_length` is then 0) passes the
    server's size check.
  */
  lemma LargeFileWithoutPartLength()
    ensures !ValidateFile("big.pdf", 25 * 1024 * 1024).valid
    ensures GetUuid.CheckFile(GetUuid.UploadFile("big.pdf", 0)).Ok?
  {
    var name := "big.pdf";
    assert LastIndexOf(name, '.') == Some(3) by {
      assert name[3] == '.' && name[4] != '.' && name[5] != '.' && name[6] != '.';
    }
    assert name[4..] == "pdf";
    assert AsciiLower("pdf") == "pdf";
  }

  /** A Markdown file passes the client check and is then rejected by the server. */
  lemma MarkdownOnlyOnClient()
    ensures ValidateFile("notes.md", 100).valid
    ensures GetUuid.CheckFile(GetUuid.UploadFile("notes.md", 100)).Err?
  {
    var name := "notes.md";
    assert LastIndexOf(name, '.') == Some(5) by {
      assert name[5] == '.' && name[6] != '.' && name[7] != '.';
    }
    assert name[6..] == "md";
    assert AsciiLower("md") == "md";
  }

  /** A name without '.' that spells an extension, such as "pdf", passes the client but not the server. */
  lemma BareExtensionOnlyOnClient()
    ensures ValidateFile("pdf", 100).valid
    ensures GetUuid.CheckFile(GetUuid.UploadFile("pdf", 100)) == Err("Error checking file: " + GetUuid.IndexErrorText)
  {
    assert LastIndexOf("pdf", '.') == None;
    assert AsciiLower("pdf") == "pdf";
  }

  /**
    The length check counts UTF-16 code units: four characters outside the
    Basic Multilingual Plane make a password of length 8, which is accepted.
  */
  lemma AstralPasswordAccepted()
    ensures PasswordAccepted("\U{1F600}\U{1F600}\U{1F600}\U{1F600}")
  {
  }
}
