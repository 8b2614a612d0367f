# OneTimeShare core, modelled in Dafny

OneTimeShare is a one-time file exchange. A sender uploads a file. The
server encrypts it chunk by chunk with ChaCha20-Poly1305 and stores the
blob on disk. A metadata record goes into Redis under an unguessable
token. The recipient downloads the file once: the download stream
decrypts the blob and, in a `finally` block, deletes the record and the
blob.

This project models the parts of that system whose behaviour can be
stated exactly, and proves properties of them:

- **Crypto engine** (`encryption_utils.dfy`, module `EncryptionUtils`):
  - key and salt generation and Argon2id key derivation;
  - the per-chunk nonce `_increment_nonce`;
  - `encrypt_file_chunked` and `decrypt_file_chunked` as methods with `while` loops, proved against the functions `Encrypt` and `Decrypt`;
  - what is proved: frame layout, chunk count, nonce uniqueness, the round trip, where decryption stops, and the exact error conditions.
- **Metadata store** (`redis_service.dfy`, module `MetadataStore`): `RedisService` is a class over a key-to-hash map, an expiry map and a `connected` flag. Its methods state their whole new state.
- **Serve-then-delete** (`serve_and_delete.dfy`, module `ServeAndDelete`):
  - choosing the key and base nonce from the record;
  - the response;
  - the `generate()` stream as a method over abstract stores. Its cleanup runs exactly once on every exit path the generator can take.
- **Upload validation**: the server's `check_file` and `generate_uuid_and_filepath` (`get_uuid.dfy`, module `GetUuid`), and the client's `validateFile` and password-length check (`app_js.dfy`, module `ClientValidation`). Lemmas compare the two.
- **Small utilities**: `is_cli_user_agent` (`helpers.dfy`, module `Helpers`) and `LinkGenerator` (`link_generator.dfy`, module `Links`).
- **Built-ins the code relies on**, with their Python or JavaScript semantics:
  - big-endian integers, hexadecimal text, Base64 (section 4 of RFC 4648) and UTF-8 (`bytes.dfy`, module `Bytes`);
  - `lower`, `rsplit`, `split().pop()`, `rstrip`, `os.path.splitext`, `os.path.join`, `str(int)`, the JavaScript UTF-16 `length`, and substring search (`strings.dfy`, module `Strings`);
  - the settings of `config.py` the core reads, and the Argon2 cost settings it lacks (`config.dfy`).

## Library code as parameters

ChaCha20-Poly1305, Argon2id and `os.urandom` are library code. They are
passed in as function values:

- `Aead(seal, open)` stands for the cipher. The ghost predicate `AeadSound` states what the library guarantees: for a 32-byte key and a 12-byte nonce, the ciphertext is 16 bytes longer than the plaintext, and opening it gives the plaintext back.
- `argon2` stands for Argon2id (`hash_secret_raw`), called with the secret, the salt, the three costs and the output length. `Argon2Spec` states that it returns as many bytes as asked.
- `urandom` stands for `os.urandom`. `UrandomSpec` states the same length guarantee.

Files are byte sequences; a missing file is `None`. Redis is a map.
`atomic_delete` and `increment_counter` are the map updates their names
describe (class `ServeAndDelete.Stores`), because their bodies are not
part of this model. The clock, the uuid and the configured `BASE_URL` and
`UPLOAD_FOLDER` are parameters.

## Behaviour of the code worth knowing

- Not every store operation fails closed:
  - `store_file_metadata` and `file_exists` check the connection first;
  - `get_file_metadata` and `delete_file` do not, so they raise when Redis is unreachable (`Reply.ConnectionFailed`);
  - `list_files` does not check the connection either: it calls `keys('*')` and turns the error it raises into its return value, the text of the exception (`ListReply.Failed`).
- `store_file_metadata` with metadata `None` reports success and writes nothing.
- `hset` merges into an existing hash. The stored hash therefore holds "exactly these fields" only when the token was new (`StoreFreshRecord`, `StoreMergesRecord`).
- config.py defines none of `ARGON2_TIME_COST`, `ARGON2_MEMORY_COST` and `ARGON2_PARALLELISM`, which `derive_key_from_password` reads. With config.py as it is, every key derivation raises AttributeError (`DeriveWithShippedConfig`). Every download of a record with a non-empty `encryption_salt` therefore raises before any response exists (`SaltedDownloadRaises`). The settings are a parameter of `DeriveKeyFromPassword`, `SelectKey` and `ServeAndDelete`, so the model also covers a Config that defines them, as the unit tests' mock does (`SaltedKey`).
- `hash_secret_raw` raises HashingError for a salt under 8 bytes and for costs below libargon2's minimums. A salt text such as "00", or " " (which `bytes.fromhex` reads as no bytes at all), is non-empty and so takes the password branch, and then fails there (`SaltedKey`). A salt from `generate_salt` is 16 bytes and always long enough (`GeneratedSaltDerives`).
- No code in the modelled source writes `encryption_key`, `encryption_nonce` or `encryption_salt`. `store_file_metadata` writes six other fields, and the upload route in app/routes.py, which is not part of this model, writes only `filename`, `content_type` and `upload_time`. A record written by `store_file_metadata` alone cannot be served (`MetadataRecordNotServable`). The writer of the encryption fields is not part of the modelled code; `DownloadRecoversUpload` states what serving gives for a record that holds them.
- Client and server validation disagree:
  - the client also allows `md` (`MarkdownOnlyOnClient`);
  - the client takes a name without '.' as its own extension, where the server raises IndexError and rejects it (`BareExtensionOnlyOnClient`);
  - the two size checks read different numbers. The client reads the browser's `file.size`. `check_file` reads werkzeug's `content_length`, the multipart part's own Content-Length header, which is 0 when the part has none. A part sent without that header passes the server's size check whatever its size (`MissingPartLengthPasses`, `LargeFileWithoutPartLength`).
- A file with 1 to 3 bytes left after the last frame is not a clean end. `f.read(4)` returns those bytes, they are read as a short length, and the frame fails authentication.

## Model

| member | source | states |
|---|---|---|
| Bytes.FromBigEndian | app/utils/encryption_utils.py:44 | `int.from_bytes(b, 'big')`, the most significant byte first; specified by `FromBigEndianBound` and `FromToBigEndian` |
| Bytes.FromBigEndianBound | app/utils/encryption_utils.py:44 | `int.from_bytes` of an n-byte field is below 256^n |
| Bytes.ToBigEndian | app/utils/encryption_utils.py:49 | `to_bytes(len, 'big')` gives exactly len bytes, and is only defined for values that fit |
| Bytes.FromToBigEndian | app/utils/encryption_utils.py:44-49 | reading back a big-endian encoding gives the integer that was encoded |
| Bytes.ToFromBigEndian | app/utils/encryption_utils.py:99 | re-encoding a decoded field at its own width gives the field back |
| Bytes.ToBigEndianInjective | app/utils/encryption_utils.py:49 | at a fixed width, two encodings are equal exactly when the values are |
| Bytes.HexDigit | app/utils/serve_and_delete.py:36 | the lower-case hex digit of v reads back as v; a reference encoder, used to state `bytes.fromhex`'s round trip |
| Bytes.ToHex | app/utils/serve_and_delete.py:36 | `bytes.hex` writes two characters per byte; the reference inverse used to state `bytes.fromhex`'s round trip |
| Bytes.FromHex | app/utils/serve_and_delete.py:31 | `bytes.fromhex`: pairs of hex digits, either case, each pair optionally preceded by whitespace, None where it raises ValueError; specified by `FromHexToHex` and `FromHexOddLength` |
| Bytes.FromHexToHex | app/utils/serve_and_delete.py:31 | `bytes.fromhex` of `b.hex()` is b, for salts and nonces alike |
| Bytes.FromHexOddLength | app/utils/serve_and_delete.py:36 | an odd number of hex digits without whitespace always raises ValueError |
| Bytes.Base64Group | app/utils/serve_and_delete.py:34 | one group of 1 to 3 bytes encodes as 4 characters; part of the reference encoder used to state `b64decode`'s round trip |
| Bytes.Base64Encode | app/utils/serve_and_delete.py:34 | `b64encode` output is 4 * ceil(n / 3) characters; the reference inverse used to state `b64decode`'s round trip |
| Bytes.Base64DecodeGroup | app/utils/serve_and_delete.py:34 | a decoded group is 1 to 3 bytes |
| Bytes.Base64GroupRoundTrip | app/utils/serve_and_delete.py:34 | every encoded group decodes back to its bytes |
| Bytes.Base64Decode | app/utils/serve_and_delete.py:34 | `b64decode` on canonical RFC 4648 text, None where it raises binascii.Error; specified by `Base64RoundTrip` against the reference encoder |
| Bytes.Base64RoundTrip | app/utils/serve_and_delete.py:34 | `b64decode(b64encode(b)) == b` |
| Bytes.Utf8Char | app/utils/encryption_utils.py:29 | one character encodes as 1 to 4 bytes, 1 exactly for ASCII |
| Bytes.Utf8Encode | app/utils/encryption_utils.py:29 | `password.encode('utf-8')` has between n and 4n bytes |
| Strings.AsciiLower | app/utils/get_uuid.py:28 | lower-casing keeps the length |
| Strings.AsciiLowerAt | app/utils/helpers.py:10 | lower-casing maps each character on its own |
| Strings.OccursAtTail | app/utils/helpers.py:10 | an occurrence past position 0 is an occurrence in the tail, shifted by one |
| Strings.Contains | app/utils/helpers.py:10 | Python's `needle in hay` as a scan; specified by `ContainsIffOccurs` (some offset holds needle) |
| Strings.ContainsIffOccurs | app/utils/helpers.py:10 | the scan for `agent in s` succeeds exactly when agent occurs at some offset of s |
| Strings.RStrip | app/utils/link_generator.py:15 | `s.rstrip(c)`; specified by `RStripSpec` |
| Strings.RStripSpec | app/utils/link_generator.py:15 | `rstrip('/')` keeps a prefix, drops only '/' characters, and leaves no '/' at the end |
| Strings.LastIndexOf | app/utils/get_uuid.py:28 | the last index of c: it holds c and nothing after it does; None exactly when c is absent |
| Strings.RSplitSecond | app/utils/get_uuid.py:28 | `rsplit(sep, 1)[1]`, None for the IndexError; specified by `RSplitSecondSpec` |
| Strings.SplitPop | app/static/js/app.js:118 | `split(sep).pop()` is a sep-free suffix: the same text as `rsplit(sep, 1)[1]` when sep occurs, the whole string when it does not |
| Strings.ComponentStart | app/utils/get_uuid.py:49 | the last path component starts just after the last '/', and holds no '/' |
| Strings.SplitExt | app/utils/get_uuid.py:49 | `os.path.splitext(p)[1]` is empty or a suffix of p that starts with '.' and holds no other '.' and no '/' |
| Strings.SplitExtNonEmpty | app/utils/get_uuid.py:49 | the extension is non-empty exactly when the last component has a '.' with a character other than '.' before it in that component |
| Strings.RSplitSecondSpec | app/utils/get_uuid.py:28 | `rsplit(sep, 1)[1]` exists exactly when sep occurs, and is the sep-free text after the last sep |
| Strings.PathJoin | app/utils/serve_and_delete.py:27 | posixpath `join` of two parts, an absolute second part replacing the first; specified by `PathJoinRelative` |
| Strings.PathJoinRelative | app/utils/get_uuid.py:50 | `os.path.join` of a relative name keeps the folder as a prefix and the name as a suffix, with at most one '/' added |
| Strings.Utf16Length | app/static/js/app.js:190 | JavaScript `length` is between n and 2n code units |
| Strings.DigitChar | app/services/redis_service.py:44 | a digit below 10 becomes the character that reads back as it |
| Strings.DecimalString | app/services/redis_service.py:44 | `str(n)` is digits only, at least one, with no leading zero |
| Strings.DecimalAppend | app/services/redis_service.py:44 | appending a digit to a positive number appends its character |
| Strings.DecimalRoundTrip | app/services/redis_service.py:44 | reading back `str(n)` gives n |
| EncryptionUtils.GenerateKey | app/utils/encryption_utils.py:12-13 | `generate_key` returns exactly 32 bytes |
| EncryptionUtils.GenerateSalt | app/utils/encryption_utils.py:18-19 | `generate_salt` returns exactly 16 bytes |
| EncryptionUtils.DeriveKeyFromPassword | app/utils/encryption_utils.py:24-36 | AttributeError exactly when Config lacks the Argon2 costs; with the costs, HashingError exactly when the salt is under 8 bytes or the costs are below libargon2's minimums (`CostsAccepted`); otherwise a 32-byte key, deterministic in (password, salt, costs) |
| EncryptionUtils.GeneratedSaltDerives | app/utils/encryption_utils.py:18-36 | a salt from `generate_salt` is long enough: with accepted costs, derivation from it always succeeds |
| EncryptionUtils.DeriveWithShippedConfig | app/utils/encryption_utils.py:31 | with config.py as it is, derivation always raises AttributeError |
| EncryptionUtils.IncrementNonce | app/utils/encryption_utils.py:40-49 | succeeds exactly when base + counter <= 2^96 - 1, with a 12-byte nonce; otherwise the error is the overflow |
| EncryptionUtils.NonceBytes | app/utils/encryption_utils.py:49 | the nonce is written in 12 bytes |
| EncryptionUtils.IncrementNonceEncodes | app/utils/encryption_utils.py:44-49 | below the limit the nonce is the 12-byte big-endian encoding of base + counter and reads back as that sum, never wrapped |
| EncryptionUtils.NonceInjective | app/utils/encryption_utils.py:40-49 | for one base, two non-overflowing counters give equal nonces exactly when they are equal |
| EncryptionUtils.Frame | app/utils/encryption_utils.py:82-83 | a frame is the 4-byte length followed by the ciphertext itself |
| EncryptionUtils.NumChunks | app/utils/encryption_utils.py:74-77 | the number of reads that return data; specified by `NumChunksCeiling` (ceil(n / 65536)) |
| EncryptionUtils.Chunks | app/utils/encryption_utils.py:74-77 | the successive `f.read(CHUNK_SIZE)` results up to the empty read; specified by `ChunksFlatten` and `ChunksShape` |
| EncryptionUtils.NumChunksCeiling | app/utils/encryption_utils.py:74-77 | an n-byte input takes ceil(n / 65536) reads that return data |
| EncryptionUtils.ChunksFlatten | app/utils/encryption_utils.py:75 | the chunks read concatenate to the input |
| EncryptionUtils.ChunksShape | app/utils/encryption_utils.py:75 | there are ceil(n / 65536) chunks, none empty or over 64 KiB, all but the last exactly 64 KiB |
| EncryptionUtils.SealChunks | app/utils/encryption_utils.py:72-83 | the loop from a given counter; specified by `SealChunksStep`, `SealedFrames`, `SealChunksOutcome` and `SealChunksLength` |
| EncryptionUtils.Encrypt | app/utils/encryption_utils.py:53-85 | what `encrypt_file_chunked` writes and raises for a base nonce; specified by `EncryptOutcome` and `EncryptFrames`, partnered by `RoundTrip` |
| EncryptionUtils.EncryptFileChunked | app/utils/encryption_utils.py:53-85 | the loop writes what `Encrypt` specifies for the drawn base nonce, and returns that nonce or the error that stopped it |
| EncryptionUtils.SplitFrame | app/utils/encryption_utils.py:95-100 | each frame read consumes at least one byte |
| EncryptionUtils.ParseFrames | app/utils/encryption_utils.py:94-100 | a file holds at most one frame per byte |
| EncryptionUtils.OpenChunk | app/utils/encryption_utils.py:101-102 | a chunk fails only by nonce overflow or a failed tag |
| EncryptionUtils.OpenAll | app/utils/encryption_utils.py:94-104 | the decrypting loop from a given counter; specified by `OpenedFrames`, `OpenAllEnd` and `OpenAllSealed` |
| EncryptionUtils.Decrypt | app/utils/encryption_utils.py:87-104 | what the generator yields and raises for an existing or missing file; specified by `DecryptFrames`, partnered by `RoundTrip` |
| EncryptionUtils.DecryptFileChunked | app/utils/encryption_utils.py:87-104 | the generator, run to its end, yields and raises exactly what `Decrypt` specifies |
| EncryptionUtils.OpenedStep | app/utils/encryption_utils.py:94-104 | one turn of the decrypting loop moves the opened chunk from what is still to come to what has been yielded |
| EncryptionUtils.FrameParses | app/utils/encryption_utils.py:95-100 | the reader takes a written frame back as its ciphertext and leaves what follows untouched |
| EncryptionUtils.SealedSeqAt | app/utils/encryption_utils.py:79-83 | frame j holds chunk j sealed under the nonce of counter chunkNum + j |
| EncryptionUtils.SealChunksStep | app/utils/encryption_utils.py:74-83 | a successful run on a non-empty input writes the first chunk's frame, then the rest's |
| EncryptionUtils.SealedFrames | app/utils/encryption_utils.py:72-83 | the output parses into one frame per chunk, each sealed under its own counter |
| EncryptionUtils.OpenAllSealed | app/utils/encryption_utils.py:94-104 | frames sealed under consecutive counters open to their chunks, with no error |
| EncryptionUtils.RoundTrip | app/utils/encryption_utils.py:72-104 | decrypting a successful encryption's output with the same key and base nonce yields the chunks, no error, and they concatenate to the input |
| EncryptionUtils.EncryptFrames | app/utils/encryption_utils.py:72-83 | the output is ceil(n / 65536) frames, frame j holding chunk j sealed under `_increment_nonce(base, j)` |
| EncryptionUtils.EncryptSealsAll | app/utils/encryption_utils.py:58-83 | a successful encryption had a 32-byte key and wrote what the loop writes from counter 0 |
| EncryptionUtils.SealedFromZero | app/utils/encryption_utils.py:73-83 | from counter 0, frame j is chunk j sealed under the nonce of counter j |
| EncryptionUtils.OpenedFrames | app/utils/encryption_utils.py:94-104 | chunk j yielded is frame j opened under the nonce of counter chunkNum + j; never more chunks than frames |
| EncryptionUtils.OpenAllEnd | app/utils/encryption_utils.py:94-104 | decryption ends cleanly exactly when every frame was opened; otherwise on the first frame not opened, by overflow or a failed tag, and yields nothing after it |
| EncryptionUtils.DecryptFrames | app/utils/encryption_utils.py:87-104 | for a file: chunk j is frame j opened under `_increment_nonce(base, j)` from 0; a clean end exactly when all frames opened; a tag failure exactly at the first frame that does not open |
| EncryptionUtils.OpenAllFromZero | app/utils/encryption_utils.py:93-104 | the same for the frames of a whole file, counting from 0 |
| EncryptionUtils.DecryptOpensAll | app/utils/encryption_utils.py:91-93 | with a 32-byte key, an existing file's frames are opened from counter 0 |
| EncryptionUtils.SealChunksOutcome | app/utils/encryption_utils.py:74-81 | encryption from counter i fails exactly when the last chunk's counter passes 2^96 - 1, and the failure is the overflow |
| EncryptionUtils.SealChunksLength | app/utils/encryption_utils.py:82-83 | a successful run writes the input plus 20 bytes per chunk |
| EncryptionUtils.SealChunksStepLength | app/utils/encryption_utils.py:79-83 | one chunk of n bytes adds a frame of 4 + n + 16 bytes and counts as one chunk |
| EncryptionUtils.EncryptOutcome | app/utils/encryption_utils.py:53-85 | `encrypt_file_chunked` raises exactly for a key that is not 32 bytes or a counter overflow; on success it writes n + 20 * ceil(n / 65536) bytes, and nothing for an empty input |
| MetadataStore.TimeToLive | app/services/redis_service.py:44 | the `TIME_TO_LIVE` field is "18000 seconds" |
| MetadataStore.TtlText | app/services/redis_service.py:44 | `str(REDIS_TTL)` is "18000" |
| MetadataStore.MissingField | app/services/redis_service.py:39-42 | the field `metadata[...]` raises KeyError on is a copied field the metadata lacks; None exactly when all four are present |
| MetadataStore.MetadataRecord | app/services/redis_service.py:38-45 | the mapping written has exactly the six fields, the four copied values, the upload time and the TTL text |
| MetadataStore.HashAt | app/services/redis_service.py:59 | `hgetall` of a missing key is the empty hash |
| MetadataStore.HSet | app/services/redis_service.py:38 | `hset` adds the key, changes no other key, and merges the fields into its hash, the new values winning |
| MetadataStore.RedisService.constructor | app/services/redis_service.py:13-14 | a new client sees the keys and expiries db 0 already holds, and whether the server answers |
| MetadataStore.RedisService.CheckConnection | app/services/redis_service.py:16-30 | the check is True exactly when the server is reachable |
| MetadataStore.RedisService.StoreFileMetadata | app/services/redis_service.py:32-51 | unreachable: False, nothing written. None metadata: True, nothing written. A missing field: KeyError, nothing written. Otherwise: True, the six fields merged at token, expiry REDIS_TTL, no other key changed |
| MetadataStore.RedisService.GetFileMetadata | app/services/redis_service.py:54-62 | None for a None token without contacting the server; otherwise the hash at token (empty if absent), or a connection error |
| MetadataStore.RedisService.DeleteFile | app/services/redis_service.py:64-73 | False and nothing removed for None; otherwise exactly that key removed and True, with no connection check, so an unreachable server raises |
| MetadataStore.RedisService.FileExists | app/services/redis_service.py:76-89 | True exactly when connected, the token is given, and the key exists; a key that has an expiry is reported as existing |
| MetadataStore.RedisService.ListFiles | app/services/redis_service.py:91-97 | all keys present, or the error text when unreachable |
| MetadataStore.StoreFreshRecord | app/services/redis_service.py:38-46 | on a new token the stored hash is exactly the six-field record, and every other key is unchanged |
| MetadataStore.StoreMergesRecord | app/services/redis_service.py:38-45 | on an existing token the six fields are overwritten and every other field of the old hash is kept |
| MetadataStore.StoreThenGet | app/services/redis_service.py:32-62 | storing on a new token and then getting it returns exactly the stored record |
| ServeAndDelete.SelectKey | app/utils/serve_and_delete.py:30-34 | a key chosen with a non-empty salt is 32 bytes; with a non-empty salt and no Argon2 costs in Config, the selection fails |
| ServeAndDelete.SelectNonce | app/utils/serve_and_delete.py:36 | a record without `encryption_nonce` makes `bytes.fromhex(None)` raise |
| ServeAndDelete.Mimetype | app/utils/serve_and_delete.py:55 | the content type, defaulting to `application/octet-stream` |
| ServeAndDelete.ContentDisposition | app/utils/serve_and_delete.py:57 | `attachment; filename="…"` around the original name |
| ServeAndDelete.ServeAndDelete | app/utils/serve_and_delete.py:13-59 | a response exists exactly when key and nonce selection succeed; otherwise the key's error, or the nonce's after a good key; the response streams the joined path with that key and nonce, with the record's mimetype and the attachment header; nothing is deleted yet |
| ServeAndDelete.Wants | app/utils/serve_and_delete.py:41-42 | the consumer (`ReadToEnd` or `CloseAfter(n)`) asks for another chunk; what that delivers is stated by `Delivered` and `Generate` |
| ServeAndDelete.Started | app/utils/serve_and_delete.py:39-43 | the generator body runs, so its `finally` runs; `Generate` states that cleanup happens exactly when this holds |
| ServeAndDelete.Delivered | app/utils/serve_and_delete.py:39-42 | the client receives a prefix of the decrypted chunks, all of them and the error when it reads to the end |
| ServeAndDelete.Bump | app/utils/serve_and_delete.py:49-50 | a counter goes up by delta from 0 if absent; no other counter changes |
| ServeAndDelete.Stores.FileAt | app/utils/encryption_utils.py:92 | `open(path, 'rb')` finds exactly the files that exist, with their bytes |
| ServeAndDelete.Stores.Cleanup | app/utils/serve_and_delete.py:43-50 | the record is deleted, the blob removed only if present, and `downloads` and `deletions` each go up by one |
| ServeAndDelete.Generate | app/utils/serve_and_delete.py:39-50 | the body is the decrypted chunks in order, as far as the client reads; once started, cleanup happens exactly once on full delivery, on a decryption error or on early close; a stream never started changes nothing |
| ServeAndDelete.SaltedKey | app/utils/serve_and_delete.py:30-32 | with a non-empty salt text that `bytes.fromhex` decodes, in any form it accepts, and a password: the key derived from both when Config has accepted Argon2 costs and the salt is at least 8 bytes, the HashingError when the salt is shorter or the costs are rejected, the AttributeError when Config has no costs; the stored key is never read |
| ServeAndDelete.StoredSaltKey | app/utils/serve_and_delete.py:30-32 | when Config has accepted Argon2 costs, a salt of at least 8 bytes stored as `salt.hex()` gives the key derived from that same salt |
| ServeAndDelete.SaltedDownloadRaises | app/utils/serve_and_delete.py:30-32 | with config.py as it is, serving any record with a non-empty salt raises before a response exists |
| ServeAndDelete.MetadataRecordNotServable | app/utils/serve_and_delete.py:30-34 | the record `store_file_metadata` writes has no `encryption_key` and no `encryption_salt`, so serving it fails with the missing key (`base64.b64decode(None)` raises) |
| ServeAndDelete.StoredKey | app/utils/serve_and_delete.py:33-34 | without a salt, the key is the base64-decoded stored key, whatever the password |
| ServeAndDelete.StoredNonce | app/utils/serve_and_delete.py:36 | the nonce stored as hex is read back as the same bytes |
| ServeAndDelete.DownloadRecoversUpload | app/utils/serve_and_delete.py:27-42 | a file encrypted and recorded with its base64 key and hex nonce is served back, read to the end, as its chunks, which concatenate to the original |
| ServeAndDelete.EarlyCloseIsPrefix | app/utils/serve_and_delete.py:39-42 | a client that closes after n chunks gets the first n and no error |
| GetUuid.CheckFailure | app/utils/get_uuid.py:28-35 | the reason the try block raises, one of the three texts; the IndexError exactly when the name has no '.' |
| GetUuid.CheckFile | app/utils/get_uuid.py:22-41 | success returns the same file; every failure is the "Error checking file: " wrapper |
| GetUuid.GenerateUuidAndFilepath | app/utils/get_uuid.py:44-55 | succeeds exactly when `check_file` does; a failure is wrapped once more |
| GetUuid.LastDot | app/utils/get_uuid.py:28 | the last '.' is found exactly when there is one, and it is unique |
| GetUuid.CheckFileAccepts | app/utils/get_uuid.py:22-41 | a file is accepted exactly when the text after its last '.' lower-cases to an allowed extension and its `content_length` is at most 20 MiB |
| GetUuid.CheckFileAtDot | app/utils/get_uuid.py:28-35 | with the last '.' at d, acceptance is the extension after d and the size |
| GetUuid.NoDotRejected | app/utils/get_uuid.py:28-39 | a name without '.' is rejected through the caught IndexError, whatever its size |
| GetUuid.SizeLimitBoundary | app/utils/get_uuid.py:33-35 | a `content_length` of exactly 20 MiB passes, one byte more is rejected as too large |
| GetUuid.MissingPartLengthPasses | app/utils/get_uuid.py:33 | a `content_length` of 0 (no part header) passes the size check, so acceptance rests on the extension alone |
| GetUuid.ExtensionCheckedFirst | app/utils/get_uuid.py:28-35 | a bad extension is reported even when the file is also too large |
| GetUuid.StoredName | app/utils/get_uuid.py:49-50 | the stored name is uuid + the `splitext` extension; the path is the folder followed by that name |
| GetUuid.UpperCaseExtension | app/utils/get_uuid.py:28-50 | "report.PDF" is accepted and stored as uuid + ".PDF" |
| GetUuid.HiddenFileName | app/utils/get_uuid.py:28-50 | ".pdf" is accepted, but `splitext` gives no extension, so it is stored as the bare uuid |
| Helpers.AnyContainedSpec | app/utils/helpers.py:10 | `any(agent in s ...)` holds exactly when some listed name occurs in s |
| Helpers.IsCliUserAgent | app/utils/helpers.py:3-10 | `is_cli_user_agent`; specified by `IsCliUserAgentSpec` and the concrete cases of tests/integration/test_cli_blocking.py |
| Helpers.IsCliUserAgentSpec | app/utils/helpers.py:7-10 | a tool exactly when the header is present, not empty, and one of the six names occurs in its lower-case form |
| Helpers.NoUserAgent | app/utils/helpers.py:8-9 | a missing or empty header is never a tool |
| Helpers.AbsentChar | app/utils/helpers.py:10 | a name with a character the header lacks does not occur in it |
| Helpers.PrefixDetected | app/utils/helpers.py:10 | a header starting with a listed name, in any case, is a tool |
| Helpers.CurlDetected | tests/integration/test_cli_blocking.py:29 | "curl/7.68.0" is a tool |
| Helpers.CurlPrefix | app/utils/helpers.py:10 | "curl/7.68.0" lower-cases to a string starting with "curl" |
| Helpers.WgetDetected | tests/integration/test_cli_blocking.py:49 | "Wget/1.20" is a tool: matching ignores case |
| Helpers.WgetPrefix | app/utils/helpers.py:10 | "Wget/1.20" lower-cases to a string starting with "wget" |
| Helpers.BrowserNotDetected | tests/integration/test_cli_blocking.py:34 | "Mozilla/5.0" is not a tool |
| Helpers.BrowserLowered | app/utils/helpers.py:10 | "Mozilla/5.0" lower-cases to "mozilla/5.0", which is not a tool |
| Helpers.NoAgentInBrowser | app/utils/helpers.py:7 | none of the six names occurs in "mozilla/5.0" |
| Links.NewLinkGenerator | app/utils/link_generator.py:9-10 | a non-empty base is kept; an empty or missing one falls back to the configured BASE_URL |
| Links.DownloadLink | app/utils/link_generator.py:18-19 | the link is the raw base, "/d/" and the token, in length |
| Links.InfoLink | app/utils/link_generator.py:22-23 | the link is the raw base, "/info/" and the token, in length |
| Links.GetBaseUrl | app/utils/link_generator.py:13-16 | `get_base_url`; specified by `GetBaseUrlSpec` and `GetBaseUrlUnchanged` |
| Links.GetBaseUrlSpec | app/utils/link_generator.py:13-16 | the base reported never ends with '/' and is the stored (or configured) base minus trailing '/' only |
| Links.GetBaseUrlUnchanged | app/utils/link_generator.py:13-15 | a base without a trailing '/' is reported unchanged |
| Links.LinksCarryToken | app/utils/link_generator.py:18-23 | both links split back into the raw base, the marker and the token |
| Links.LinksInjective | app/utils/link_generator.py:18-23 | different tokens get different links from one generator |
| Links.TrailingSlashKept | app/utils/link_generator.py:15-19 | a base ending in '/' gives "//d/" in the link, while `get_base_url` strips it |
| ClientValidation.ClientExtension | app/static/js/app.js:118 | the client's extension is no longer than the name |
| ClientValidation.ValidateFile | app/static/js/app.js:117-135 | `valid` is true exactly when `error` is null |
| ClientValidation.PasswordAccepted | app/static/js/app.js:190 | an accepted password is non-empty; one of 8 or more characters is always accepted |
| ClientValidation.UploadProceeds | app/static/js/app.js:188-196 | without the password option the upload goes ahead; with it, the upload goes ahead exactly when the password is non-empty and at least 8 UTF-16 units long |
| ClientValidation.ValidateFileSpec | app/static/js/app.js:120-134 | valid exactly when the extension is allowed and the size at most 20 MiB; the extension error wins when both fail |
| ClientValidation.ClientAgreesWithServer | app/static/js/app.js:117-134 | for a name with a '.' and an extension other than "md", the extension checks agree; the whole checks agree only when the browser's `file.size` equals the part's `content_length` |
| ClientValidation.LargeFileWithoutPartLength | app/static/js/app.js:127-132 | a 25 MiB "big.pdf" is refused by the client but passes `check_file` when its part has no Content-Length header |
| ClientValidation.MarkdownOnlyOnClient | app/static/js/app.js:43 | "notes.md" passes the client and is rejected by the server |
| ClientValidation.BareExtensionOnlyOnClient | app/static/js/app.js:118 | "pdf" (no '.') passes the client and fails the server through IndexError |
| ClientValidation.AstralPasswordAccepted | app/static/js/app.js:190 | four characters outside the BMP count as 8 and are accepted |

## Left out

- The internals of ChaCha20-Poly1305, Argon2id and `os.urandom`: library calls, modelled as parameters with the guarantees stated above.
- File and Redis I/O (`open`, `read`, `write`, `ping`, `hset`, `expire`, `delete`, `keys`): files are byte sequences and Redis is a map. A partial read is modelled only where it changes the result, at the end of the file. TTL expiry by the wall clock is not modelled: only the TTL that `expire` sets is recorded.
- Concurrency, including "exactly one concurrent download wins": the model is sequential.
- `atomic_delete` and `increment_counter`: their bodies are not part of this model. They are the map updates their names describe.
- Logging.
- The texts of Python exceptions other than the ones the code puts into its messages.
- The Flask `Response` object and werkzeug's `FileStorage` beyond `filename` and `content_length`.
- Flask's `MAX_CONTENT_LENGTH` (config.py:7, 10 MiB), which Flask applies to the whole request body before any route runs: the request path is not part of this model, so the effective 10 MiB cap on the server is not modelled. The model's server-side limit is `check_file`'s 20 MiB test of `content_length`.
- A `filename` of None.
- `current_app.config`, which is a parameter.
- EncryptionUtils.EncryptFileChunked: the input file is always present and the output file is not modelled as a file. The written bytes are returned instead. The method does not require `UrandomSpec`; with it the base nonce is 12 bytes.
- EncryptionUtils.DecryptFileChunked: the generator is run to its end. Laziness is modelled in `ServeAndDelete.Generate` by the consumer.
- ServeAndDelete.Generate: an exception raised inside the `finally` block itself (Redis unreachable during cleanup) is not modelled.
- EncryptionUtils.DeriveKeyFromPassword: only libargon2's lower bounds (salt of 8 bytes, time cost 1, parallelism 1 to 2^24 - 1, memory of 8 KiB per lane) are modelled. Its upper bounds (memory the machine cannot supply, password and salt over 2^32 - 1 bytes) are not.
- ServeAndDelete.SelectKey: `b64decode` is modelled on canonical input. CPython's default, non-validating mode, which skips characters outside the alphabet, is not modelled.
- MetadataStore.RedisService.ListFiles: the error text is not modelled, only that an error was returned.
- MetadataStore.RedisService.FileExists: `exists` returns the integer 0 or 1, modelled as a boolean.
- Redis's WRONGTYPE error (a key holding a non-hash) is not modelled.
- Strings.AsciiLower: lower-cases ASCII letters only. Python's and JavaScript's full Unicode case mapping is not modelled. Every name in the allow-lists and the tool list is ASCII, but a non-ASCII letter that lower-cases to ASCII (such as the Kelvin sign) is treated differently.
- `formatFileSize` and the message texts of `validateFile`: the size text uses floating point. The error is modelled by its kind.
- The rest of app/static/js/app.js (DOM, events, the upload request) and app/static/js/download.js.
- Flask routes, authentication, rate limiting, security headers and startup.
