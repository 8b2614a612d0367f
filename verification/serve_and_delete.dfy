/**
  The download path of app/utils/serve_and_delete.py: choosing the key and
  the nonce from the stored metadata, building the streamed response, and
  the stream itself, which decrypts chunk by chunk and cleans up in a
  `finally` block however it ends.
*/
module ServeAndDelete {
  import opened Wrappers
  import opened Bytes
  import opened Strings
  import opened EncryptionUtils
  import opened MetadataStore
  import Config

  /** The exceptions `serve_and_delete` itself can raise, before any response exists. */
  datatype ServeError =
    | BadSaltHex        // bytes.fromhex(encryption_salt) raises ValueError
    | NoPassword        // a salted file with password None: None.encode raises AttributeError
    | NoArgon2Setting   // derive_key_from_password reads a Config.ARGON2_* setting that is not defined
    | Argon2Rejected    // hash_secret_raw raises HashingError for a short salt or costs it does not accept
    | NoStoredKey       // metadata["encryption_key"] raises KeyError
    | BadStoredKey      // base64.b64decode(encryption_key) raises binascii.Error
    | NoNonce           // bytes.fromhex(None) raises TypeError
    | BadNonceHex       // bytes.fromhex(encryption_nonce) raises ValueError

  /** What the `generate()` closure captures: where the blob is, how to decrypt it, which record to delete. */
  datatype Stream = Stream(filePath: string, key: seq<byte>, baseNonce: seq<byte>, token: string)

  /** The Flask Response: the stream as its body, the mimetype and the Content-Disposition header. */
  datatype Response = Response(body: Stream, mimetype: string, contentDisposition: string)

  /** `metadata.get(name)` is truthy: present and not the empty string. */
  predicate Truthy(metadata: Hash, name: string)
  {
    name in metadata && metadata[name] != ""
  }

  /**
    The key: derived from the password and the hex-decoded salt when the
    record has a non-empty `encryption_salt`, the base64-decoded
    `encryption_key` otherwise.
  */
  function SelectKey(argon2: Argon2Hash, settings: Option<Config.Argon2Costs>, password: Option<string>, metadata: Hash)
    : (r: Result<seq<byte>, ServeError>)
    requires Argon2Spec(argon2)
    ensures r.Ok? && Truthy(metadata, "encryption_salt") ==> |r.value| == KeyLen
    ensures Truthy(metadata, "encryption_salt") && settings.None? ==> r.Err?
  {
    if Truthy(metadata, "encryption_salt") then
      match FromHex(metadata["encryption_salt"])
      case None => Err(BadSaltHex)
      case Some(salt) =>
        if password.None? then Err(NoPassword)
        else
          match DeriveKeyFromPassword(argon2, settings, password.value, salt)
          case Err(e) => if e == MissingSetting then Err(NoArgon2Setting) else Err(Argon2Rejected)
          case Ok(key) => Ok(key)
    else if "encryption_key" !in metadata then Err(NoStoredKey)
    else
      match Base64Decode(metadata["encryption_key"])
      case None => Err(BadStoredKey)
      case Some(key) => Ok(key)
  }

  /** The base nonce: `bytes.fromhex(metadata.get("encryption_nonce"))`. */
  function SelectNonce(metadata: Hash): (r: Result<seq<byte>, ServeError>)
    ensures "encryption_nonce" !in metadata ==> r == Err(NoNonce)
  {
    if "encryption_nonce" !in metadata then Err(NoNonce)
    else
      match FromHex(metadata["encryption_nonce"])
      case None => Err(BadNonceHex)
      case Some(nonce) => Ok(nonce)
  }

  /** `metadata.get('content_type', 'application/octet-stream')`. */
  function Mimetype(metadata: Hash): (m: string)
    ensures "content_type" in metadata ==> m == metadata["content_type"]
    ensures "content_type" !in metadata ==> m == "application/octet-stream"
  {
    if "content_type" in metadata then metadata["content_type"] else "application/octet-stream"
  }

  /** The Content-Disposition header: an attachment named after the original file. */
  function ContentDisposition(originalFileName: string): (h: string)
    ensures |h| == |"attachment; filename=\""| + |originalFileName| + 1
    ensures h[..|"attachment; filename=\""|] == "attachment; filename=\""
    ensures h[|"attachment; filename=\""|..|h| - 1] == originalFileName
    ensures h[|h| - 1] == '"'
  {
    "attachment; filename=\"" + originalFileName + "\""
  }

  /**
    `serve_and_delete(...)`: joins the blob path, selects the key, then the
    nonce, and returns the response. It deletes nothing: the cleanup belongs
    to the stream and runs only when the stream is consumed.
  */
  function ServeAndDelete(argon2: Argon2Hash, settings: Option<Config.Argon2Costs>,
                          uuidFileName: string, originalFileName: string, directoryPath: string,
                          token: string, password: Option<string>, metadata: Hash)
    : (r: Result<Response, ServeError>)
    requires Argon2Spec(argon2)
    ensures r.Ok? <==> SelectKey(argon2, settings, password, metadata).Ok? && SelectNonce(metadata).Ok?
    ensures r.Err? && SelectKey(argon2, settings, password, metadata).Err? ==> r.error == SelectKey(argon2, settings, password, metadata).error
    ensures r.Err? && SelectKey(argon2, settings, password, metadata).Ok? ==> r.error == SelectNonce(metadata).error
    ensures r.Ok? ==> r.value.mimetype == Mimetype(metadata) &&
                      r.value.contentDisposition == ContentDisposition(originalFileName)
    ensures r.Ok? ==> r.value.body == Stream(PathJoin(directoryPath, uuidFileName),
                                             SelectKey(argon2, settings, password, metadata).value,
                                             SelectNonce(metadata).value, token)
  {
    var filePath := PathJoin(directoryPath, uuidFileName);
    match SelectKey(argon2, settings, password, metadata)
    case Err(e) => Err(e)
    case Ok(key) =>
      match SelectNonce(metadata)
      case Err(e) => Err(e)
      case Ok(nonce) =>
        Ok(Response(Stream(filePath, key, nonce, token), Mimetype(metadata), ContentDisposition(originalFileName)))
  }

  // ---------------------------------------------------------------------------
  // The stream

  /**
    How the WSGI server consumes the body: to its end, or by closing it
    after it has received n chunks (a client that goes away). A stream
    closed before its first chunk was ever requested has not started.
  */
  datatype Consumer = ReadToEnd | CloseAfter(n: nat)

  /** The consumer asks for one more chunk after having received k. */
  predicate Wants(consumer: Consumer, k: nat)
  {
    consumer.ReadToEnd? || k < consumer.n
  }

  /** The generator body runs at all (so its `finally` runs). */
  predicate Started(consumer: Consumer)
  {
    Wants(consumer, 0)
  }

  /**
    What the client receives from a decrypting run: all of it, error
    included, when it keeps asking; otherwise the first n chunks, and no
    error since the generator is closed before it runs any further.
  */
  function Delivered(full: Run<seq<seq<byte>>>, consumer: Consumer): (r: Run<seq<seq<byte>>>)
    ensures r.out <= full.out
    ensures consumer.ReadToEnd? ==> r == full
  {
    if Wants(consumer, |full.out|) then full else Run(full.out[..consumer.n], None)
  }

  /** `counters.get(name, 0) + delta`. */
  function Bump(counters: map<string, int>, name: string, delta: int): (c: map<string, int>)
    ensures c.Keys == counters.Keys + {name}
    ensures c[name] == (if name in counters then counters[name] else 0) + delta
    ensures forall k :: k in counters && k != name ==> c[k] == counters[k]
  {
    counters[name := (if name in counters then counters[name] else 0) + delta]
  }

  /**
    The stores the stream touches: the metadata records (through
    `atomic_delete`), the files on disk, and the named counters (through
    `increment_counter`). atomic_delete and increment_counter are not part
    of this model's RedisService: they are modelled as the map updates
    their names describe.
  */
  class Stores {
    var records: map<string, Hash>
    var files: map<string, seq<byte>>
    var counters: map<string, int>

    constructor(records: map<string, Hash>, files: map<string, seq<byte>>, counters: map<string, int>)
      ensures this.records == records && this.files == files && this.counters == counters
    {
      this.records := records;
      this.files := files;
      this.counters := counters;
    }

    /** `open(path, 'rb')` reads the whole file, or fails when there is none. */
    function FileAt(path: string): (f: Option<seq<byte>>)
      reads this
      ensures f.Some? <==> path in files
      ensures f.Some? ==> f.value == files[path]
    {
      if path in files then Some(files[path]) else None
    }

    /**
      The `finally` block: delete the record, remove the blob if it exists,
      and bump `downloads` and `deletions` by one.
    */
    method Cleanup(token: string, path: string)
      modifies this
      ensures records == old(records) - {token}
      ensures files == old(files) - {path}
      ensures counters == Bump(Bump(old(counters), "downloads", 1), "deletions", 1)
    {
      records := records - {token};
      if path in files {
        files := files - {path};
      }
      counters := Bump(counters, "downloads", 1);
      counters := Bump(counters, "deletions", 1);
    }
  }

  /**
    The body of the response consumed by consumer: `generate()` pulls chunks
    from `decrypt_file_chunked(file_path, key, base_nonce)` and yields them
    in order; whenever it has started, its `finally` cleans up exactly once,
    whether the file was delivered whole, decryption raised, or the client
    closed the stream early. Returns the chunks sent and the exception that
    ended the stream, if any.
  */
  method Generate(stores: Stores, aead: Aead, body: Stream, consumer: Consumer)
    returns (sent: seq<seq<byte>>, err: Option<CryptoError>)
    modifies stores
    ensures Run(sent, err) ==
            Delivered(Decrypt(aead, body.key, body.baseNonce, old(stores.FileAt(body.filePath))), consumer)
    ensures Started(consumer) ==>
              stores.records == old(stores.records) - {body.token} &&
              stores.files == old(stores.files) - {body.filePath} &&
              stores.counters == Bump(Bump(old(stores.counters), "downloads", 1), "deletions", 1)
    ensures !Started(consumer) ==>
              stores.records == old(stores.records) && stores.files == old(stores.files) &&
              stores.counters == old(stores.counters)
  {
    sent := [];
    ghost var full := Decrypt(aead, body.key, body.baseNonce, stores.FileAt(body.filePath));
    if !Started(consumer) {
      return sent, None;
    }
    // The first request runs decrypt_file_chunked up to its first read.
    if |body.key| != KeyLen || stores.FileAt(body.filePath).None? {
      err := if |body.key| != KeyLen then Some(InvalidKeyLength) else Some(FileNotFound);
      stores.Cleanup(body.token, body.filePath);
      return sent, err;
    }
    var rest := stores.FileAt(body.filePath).value;
    var chunkNum := 0;
    assert [] + full.out == full.out;
    while true
      invariant full == Prepend(sent, OpenAll(aead, body.key, body.baseNonce, ParseFrames(rest), chunkNum))
      invariant |sent| == chunkNum
      invariant consumer.CloseAfter? ==> chunkNum <= consumer.n
      invariant stores.records == old(stores.records) && stores.files == old(stores.files)
      invariant stores.counters == old(stores.counters)
      decreases |rest|
    {
      if !Wants(consumer, |sent|) {
        assert sent == full.out[..consumer.n];
        err := None;
        break;
      }
      if rest == [] {
        assert sent + [] == sent;
        err := None;
        break;
      }
      var (chunk, remaining) := SplitFrame(rest);
      var decrypted := OpenChunk(aead, body.key, body.baseNonce, chunk, chunkNum);
      if decrypted.Err? {
        assert sent + [] == sent;
        err := Some(decrypted.error);
        break;
      }
      OpenedStep(aead, body.key, body.baseNonce, sent, rest, chunkNum);
      sent := sent + [decrypted.value];
      chunkNum := chunkNum + 1;
      rest := remaining;
    }
    stores.Cleanup(body.token, body.filePath);
  }

  // ---------------------------------------------------------------------------
  // Properties

  /**
    With a non-empty salt text that `bytes.fromhex` decodes, the key is the
    one derived from the password and the decoded salt when Config defines
    costs libargon2 accepts and the salt has at least 8 bytes; HashingError
    when either is rejected, AttributeError when Config lacks the costs. The
    stored key is never read.
  */
  lemma SaltedKey(argon2: Argon2Hash, settings: Option<Config.Argon2Costs>, password: string, metadata: Hash, salt: seq<byte>)
    requires Argon2Spec(argon2)
    requires Truthy(metadata, "encryption_salt") && FromHex(metadata["encryption_salt"]) == Some(salt)
    ensures settings.Some? && |salt| >= MinSaltLen && CostsAccepted(settings.value) ==>
              SelectKey(argon2, settings, Some(password), metadata) ==
              Ok(DeriveKeyFromPassword(argon2, settings, password, salt).value)
    ensures settings.Some? && (|salt| < MinSaltLen || !CostsAccepted(settings.value)) ==>
              SelectKey(argon2, settings, Some(password), metadata) == Err(Argon2Rejected)
    ensures settings.None? ==> SelectKey(argon2, settings, Some(password), metadata) == Err(NoArgon2Setting)
    ensures SelectKey(argon2, settings, Some(password), metadata - {"encryption_key"}) ==
            SelectKey(argon2, settings, Some(password), metadata)
  {
    var m := metadata - {"encryption_key"};
    assert m["encryption_salt"] == metadata["encryption_salt"];
  }

  /** A salt stored as `salt.hex()` is read back as the same bytes, so the key is derived from that salt. */
  lemma StoredSaltKey(argon2: Argon2Hash, settings: Option<Config.Argon2Costs>, password: string, metadata: Hash, salt: seq<byte>)
    requires Argon2Spec(argon2)
    requires "encryption_salt" in metadata && metadata["encryption_salt"] == ToHex(salt) && salt != []
    ensures settings.Some? && |salt| >= MinSaltLen && CostsAccepted(settings.value) ==>
              SelectKey(argon2, settings, Some(password), metadata) ==
              Ok(DeriveKeyFromPassword(argon2, settings, password, salt).value)
  {
    FromHexToHex(salt);
    SaltedKey(argon2, settings, password, metadata, salt);
  }

  /**
    With config.py as it stands (no ARGON2_* settings), serving a record
    with a non-empty salt always raises before any response exists,
    whatever the password.
  */
  lemma SaltedDownloadRaises(argon2: Argon2Hash, uuidFileName: string, originalFileName: string,
                             directoryPath: string, token: string, password: Option<string>, metadata: Hash)
    requires Argon2Spec(argon2)
    requires Truthy(metadata, "encryption_salt")
    ensures ServeAndDelete(argon2, Config.Argon2Settings, uuidFileName, originalFileName, directoryPath,
                           token, password, metadata).Err?
  {
  }

  /** Without a salt the key is the base64-decoded stored key, whatever the password. */
  lemma StoredKey(argon2: Argon2Hash, settings: Option<Config.Argon2Costs>, password: Option<string>, metadata: Hash, key: seq<byte>)
    requires Argon2Spec(argon2)
    requires !Truthy(metadata, "encryption_salt")
    requires "encryption_key" in metadata && metadata["encryption_key"] == Base64Encode(key)
    ensures SelectKey(argon2, settings, password, metadata) == Ok(key)
  {
    Base64RoundTrip(key);
  }

  /** The nonce written as `base_nonce.hex()` is read back as the same bytes. */
  lemma StoredNonce(metadata: Hash, nonce: seq<byte>)
    requires "encryption_nonce" in metadata && metadata["encryption_nonce"] == ToHex(nonce)
    ensures SelectNonce(metadata) == Ok(nonce)
  {
    FromHexToHex(nonce);
  }

  /**
    The end-to-end promise: a file encrypted under a 32-byte key and base
    nonce, stored as base64 and hex in its record, is served back as the
    original chunks, which concatenate to the original bytes, when the
    client reads the whole stream.
  */
  lemma DownloadRecoversUpload(aead: Aead, argon2: Argon2Hash, settings: Option<Config.Argon2Costs>,
                               metadata: Hash, key: seq<byte>, nonce: seq<byte>, data: seq<byte>,
                               uuidFileName: string, originalFileName: string, directoryPath: string,
                               token: string, password: Option<string>)
    requires AeadSound(aead) && Argon2Spec(argon2)
    requires !Truthy(metadata, "encryption_salt")
    requires "encryption_key" in metadata && metadata["encryption_key"] == Base64Encode(key)
    requires "encryption_nonce" in metadata && metadata["encryption_nonce"] == ToHex(nonce)
    requires Encrypt(aead, key, nonce, data).err.None?
    ensures var r := ServeAndDelete(argon2, settings, uuidFileName, originalFileName, directoryPath, token, password, metadata);
            r.Ok? &&
            Delivered(Decrypt(aead, r.value.body.key, r.value.body.baseNonce, Some(Encrypt(aead, key, nonce, data).out)),
                      ReadToEnd) == Run(Chunks(data), None)
    ensures Flatten(Chunks(data)) == data
  {
    StoredKey(argon2, settings, password, metadata, key);
    StoredNonce(metadata, nonce);
    RoundTrip(aead, key, nonce, data);
  }

  /** A stream that is closed early delivers a prefix of the plaintext chunks and reports no error. */
  lemma EarlyCloseIsPrefix(full: Run<seq<seq<byte>>>, n: nat)
    requires n <= |full.out|
    ensures Delivered(full, CloseAfter(n)) == Run(full.out[..n], None)
  {
  }

  /**
    A record written by `store_file_metadata` holds no `encryption_salt` and
    no `encryption_key`, so serving it raises the KeyError on
    `metadata["encryption_key"]` before any response exists.
  */
  lemma MetadataRecordNotServable(argon2: Argon2Hash, settings: Option<Config.Argon2Costs>,
                                  metadata: Hash, uploadTime: string,
                                  uuidFileName: string, originalFileName: string, directoryPath: string,
                                  token: string, password: Option<string>)
    requires Argon2Spec(argon2)
    requires MissingField(metadata).None?
    ensures ServeAndDelete(argon2, settings, uuidFileName, originalFileName, directoryPath, token, password,
                           MetadataRecord(metadata, uploadTime)) == Err(NoStoredKey)
  {
    var rec := MetadataRecord(metadata, uploadTime);
    assert "encryption_salt" !in rec && "encryption_key" !in rec;
  }
}
