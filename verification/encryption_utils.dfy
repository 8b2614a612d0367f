/**
  The crypto engine of app/utils/encryption_utils.py: key and salt
  generation, password-based key derivation, per-chunk nonces, and the
  chunked, length-framed AEAD encryption of a file and its decryption.

  Files are byte sequences. The AEAD (ChaCha20-Poly1305, section 2.8 of
  RFC 8439), Argon2id (RFC 9106) and `os.urandom` are library code outside
  the model: they are parameters, and what the library guarantees about them
  is stated by the ghost predicates AeadSound, Argon2Spec and UrandomSpec.
*/
module EncryptionUtils {
  import opened Wrappers
  import opened Bytes
  import Config

  const KeyLen: nat := 32
  const SaltLen: nat := 16
  /** The nonce width. A function rather than a constant, so that proofs do not expand every 12-byte encoding digit by digit. */
  function NonceLen(): nat { 12 }
  /** Poly1305 tag appended to every ciphertext. */
  const TagLen: nat := 16
  /** Plaintext bytes read per chunk (`64 * 1024`). */
  const ChunkSize: nat := 64 * 1024
  /** Width of the big-endian ciphertext length that prefixes each frame (a function, like NonceLen). */
  function LengthLen(): nat { 4 }
  /** The largest 96-bit nonce, `(1 << 96) - 1`. */
  const MaxNonce: nat := 0xFFFF_FFFF_FFFF_FFFF_FFFF_FFFF

  datatype CryptoError =
    | InvalidKeyLength   // ChaCha20Poly1305(key) raises ValueError unless the key has 32 bytes
    | NonceOverflow      // _increment_nonce raises OverflowError
    | InvalidTag         // cipher.decrypt raises InvalidTag
    | FileNotFound       // open(input_path) raises FileNotFoundError
    | MissingSetting     // Config.ARGON2_TIME_COST raises AttributeError when Config does not define it
    | HashingError       // hash_secret_raw rejects a salt under 8 bytes or costs below libargon2's minimums

  /** What a run of an encrypting or decrypting loop produced before it stopped, and why it stopped. */
  datatype Run<T> = Run(out: T, err: Option<CryptoError>)

  lemma Pow256Widths()
    ensures Pow256(LengthLen()) == 0x1_0000_0000
    ensures Pow256(NonceLen()) == MaxNonce + 1
  {
  }

  // ---------------------------------------------------------------------------
  // Randomness and key derivation

  /** `os.urandom(n)` returns exactly n bytes. */
  ghost predicate UrandomSpec(urandom: nat -> seq<byte>)
  {
    forall n: nat :: |urandom(n)| == n
  }

  /** `generate_key()`: 32 random bytes. */
  function GenerateKey(urandom: nat -> seq<byte>): (key: seq<byte>)
    requires UrandomSpec(urandom)
    ensures |key| == KeyLen
  {
    urandom(KeyLen)
  }

  /** `generate_salt()`: 16 random bytes. */
  function GenerateSalt(urandom: nat -> seq<byte>): (salt: seq<byte>)
    requires UrandomSpec(urandom)
    ensures |salt| == SaltLen
  {
    urandom(SaltLen)
  }

  /** `hash_secret_raw(secret, salt, time_cost, memory_cost, parallelism, hash_len, Type.ID)`. */
  type Argon2Hash = (seq<byte>, seq<byte>, Config.Argon2Costs, nat) -> seq<byte>

  /** `hash_secret_raw` returns hash_len bytes. */
  ghost predicate Argon2Spec(argon2: Argon2Hash)
  {
    forall secret, salt, costs, hashLen :: |argon2(secret, salt, costs, hashLen)| == hashLen
  }

  /** libargon2's shortest accepted salt (`ARGON2_MIN_SALT_LENGTH`). */
  const MinSaltLen: nat := 8

  /**
    The lower bounds libargon2 puts on the costs: at least one pass, one
    lane and at most 2^24 - 1 lanes, and at least 8 KiB of memory per lane.
  */
  predicate CostsAccepted(costs: Config.Argon2Costs)
  {
    costs.timeCost >= 1 && 1 <= costs.parallelism <= 0xFF_FFFF && costs.memoryCost >= 8 * costs.parallelism
  }

  /**
    `derive_key_from_password(password, salt)`: AttributeError when Config
    lacks the cost settings (they are read before the call); HashingError
    when libargon2 rejects the salt or the costs; otherwise Argon2id over the
    UTF-8 bytes of the password with a 32-byte output. Being a function, it
    is deterministic for a fixed (password, salt, costs).
  */
  function DeriveKeyFromPassword(argon2: Argon2Hash, settings: Option<Config.Argon2Costs>,
                                 password: string, salt: seq<byte>): (r: Result<seq<byte>, CryptoError>)
    requires Argon2Spec(argon2)
    ensures r.Ok? <==> settings.Some? && |salt| >= MinSaltLen && CostsAccepted(settings.value)
    ensures r.Ok? ==> |r.value| == KeyLen
    ensures r.Err? && settings.None? ==> r.error == MissingSetting
    ensures r.Err? && settings.Some? ==> r.error == HashingError
  {
    match settings
    case None => Err(MissingSetting)
    case Some(costs) =>
      if |salt| < MinSaltLen || !CostsAccepted(costs) then Err(HashingError)
      else Ok(argon2(Utf8Encode(password), salt, costs, KeyLen))
  }

  /** A salt from `generate_salt` is long enough, so with accepted costs the derivation succeeds. */
  lemma GeneratedSaltDerives(argon2: Argon2Hash, urandom: nat -> seq<byte>, costs: Config.Argon2Costs, password: string)
    requires Argon2Spec(argon2) && UrandomSpec(urandom)
    requires CostsAccepted(costs)
    ensures DeriveKeyFromPassword(argon2, Some(costs), password, GenerateSalt(urandom)).Ok?
  {
  }

  /** With config.py as it stands, every key derivation raises AttributeError. */
  lemma DeriveWithShippedConfig(argon2: Argon2Hash, password: string, salt: seq<byte>)
    requires Argon2Spec(argon2)
    ensures DeriveKeyFromPassword(argon2, Config.Argon2Settings, password, salt) == Err(MissingSetting)
  {
  }

  // ---------------------------------------------------------------------------
  // Per-chunk nonces

  /**
    `_increment_nonce(base_nonce, counter)`: the base read as a big-endian
    integer, plus the counter, written back as 12 big-endian bytes; a sum
    beyond 96 bits raises OverflowError instead of wrapping.
  */
  function IncrementNonce(baseNonce: seq<byte>, counter: nat): (r: Result<seq<byte>, CryptoError>)
    ensures r.Ok? <==> FromBigEndian(baseNonce) + counter <= MaxNonce
    ensures r.Ok? ==> |r.value| == NonceLen()
    ensures r.Err? ==> r.error == NonceOverflow
  {
    var sum := FromBigEndian(baseNonce) + counter;
    if sum > MaxNonce then Err(NonceOverflow)
    else
      Pow256Widths();
      Ok(NonceBytes(sum))
  }

  /** `new_int.to_bytes(12, "big")` for a sum that fits in 96 bits. */
  function NonceBytes(sum: nat): (r: seq<byte>)
    requires sum < Pow256(NonceLen())
    ensures |r| == NonceLen()
  {
    ToBigEndian(sum, NonceLen())
  }

  /**
    Below the limit, the nonce is the 12-byte big-endian encoding of
    base + counter, and reads back as that sum: it never wraps.
  */
  lemma IncrementNonceEncodes(baseNonce: seq<byte>, counter: nat)
    requires FromBigEndian(baseNonce) + counter <= MaxNonce
    ensures Pow256(NonceLen()) > FromBigEndian(baseNonce) + counter
    ensures IncrementNonce(baseNonce, counter) == Ok(ToBigEndian(FromBigEndian(baseNonce) + counter, NonceLen()))
    ensures FromBigEndian(IncrementNonce(baseNonce, counter).value) == FromBigEndian(baseNonce) + counter
  {
    Pow256Widths();
    FromToBigEndian(FromBigEndian(baseNonce) + counter, NonceLen());
  }

  /** For one base nonce, two counters give the same nonce exactly when they are equal. */
  lemma NonceInjective(baseNonce: seq<byte>, i: nat, j: nat)
    requires IncrementNonce(baseNonce, i).Ok? && IncrementNonce(baseNonce, j).Ok?
    ensures IncrementNonce(baseNonce, i).value == IncrementNonce(baseNonce, j).value <==> i == j
  {
    IncrementNonceEncodes(baseNonce, i);
    IncrementNonceEncodes(baseNonce, j);
  }

  // ---------------------------------------------------------------------------
  // The AEAD as a parameter

  /** A ChaCha20-Poly1305 instance: `encrypt(nonce, data, None)` and `decrypt(nonce, data, None)` under a key. */
  datatype Aead = Aead(seal: (seq<byte>, seq<byte>, seq<byte>) -> seq<byte>,
                       open: (seq<byte>, seq<byte>, seq<byte>) -> Option<seq<byte>>)

  /**
    What the cipher guarantees for a 32-byte key and a 12-byte nonce: the
    ciphertext is the plaintext length plus a 16-byte tag, and decrypting it
    with the same key and nonce gives the plaintext back.
  */
  ghost predicate AeadSound(aead: Aead)
  {
    forall key, nonce, plain ::
      |key| == KeyLen && |nonce| == NonceLen() ==>
        |aead.seal(key, nonce, plain)| == |plain| + TagLen &&
        aead.open(key, nonce, aead.seal(key, nonce, plain)) == Some(plain)
  }

  // ---------------------------------------------------------------------------
  // Framing and chunking

  /** One frame on disk: the 4-byte big-endian ciphertext length, then the ciphertext. */
  function Frame(ct: seq<byte>): (f: seq<byte>)
    requires |ct| < Pow256(LengthLen())
    ensures |f| == LengthLen() + |ct| && f[LengthLen()..] == ct
  {
    ToBigEndian(|ct|, LengthLen()) + ct
  }

  function Min(a: nat, b: nat): nat { if a < b then a else b }

  /** The successive reads `infile.read(64 * 1024)` of a file until one returns nothing. */
  function Chunks(data: seq<byte>): (cs: seq<seq<byte>>)
    decreases |data|
  {
    if data == [] then [] else [data[..Min(|data|, ChunkSize)]] + Chunks(data[Min(|data|, ChunkSize)..])
  }

  function Flatten(cs: seq<seq<byte>>): seq<byte>
  {
    if cs == [] then [] else cs[0] + Flatten(cs[1..])
  }

  /** The number of 64 KiB reads an n-byte file takes, one chunk at a time. */
  function NumChunks(n: nat): nat
    decreases n
  {
    if n == 0 then 0 else 1 + NumChunks(n - Min(n, ChunkSize))
  }

  /** The number of chunks is ceil(n / 65536). */
  lemma {:induction false} NumChunksCeiling(n: nat)
    ensures NumChunks(n) == (n + ChunkSize - 1) / ChunkSize
    decreases n
  {
    if n > ChunkSize {
      NumChunksCeiling(n - ChunkSize);
      assert (n + ChunkSize - 1) / ChunkSize == (n - ChunkSize + ChunkSize - 1) / ChunkSize + 1;
    }
  }

  /** The chunks reassemble the file. */
  lemma {:induction false} ChunksFlatten(data: seq<byte>)
    ensures Flatten(Chunks(data)) == data
    decreases |data|
  {
    if data != [] {
      var n := Min(|data|, ChunkSize);
      ChunksFlatten(data[n..]);
      assert data == data[..n] + data[n..];
    }
  }

  /**
    An n-byte file has ceil(n / 65536) chunks; none is empty or over 64 KiB,
    and all but the last are exactly 64 KiB.
  */
  lemma {:induction false} ChunksShape(data: seq<byte>)
    ensures |Chunks(data)| == NumChunks(|data|)
    ensures forall i :: 0 <= i < |Chunks(data)| ==> 0 < |Chunks(data)[i]| <= ChunkSize
    ensures forall i :: 0 <= i < |Chunks(data)| - 1 ==> |Chunks(data)[i]| == ChunkSize
    decreases |data|
  {
    if data != [] {
      var n := Min(|data|, ChunkSize);
      ChunksShape(data[n..]);
      var cs := Chunks(data);
      assert cs == [data[..n]] + Chunks(data[n..]);
      assert forall i :: 1 <= i < |cs| ==> cs[i] == Chunks(data[n..])[i - 1];
    }
  }

  // ---------------------------------------------------------------------------
  // Encryption

  /**
    The bytes the encrypting loop writes from the remaining input onwards,
    starting at chunk number chunkNum, and whether it stopped on an error.
  */
  function SealChunks(aead: Aead, key: seq<byte>, baseNonce: seq<byte>, data: seq<byte>, chunkNum: nat)
    : (r: Run<seq<byte>>)
    requires AeadSound(aead) && |key| == KeyLen
    decreases |data|
  {
    if data == [] then Run([], None)
    else
      var n := Min(|data|, ChunkSize);
      match IncrementNonce(baseNonce, chunkNum)
      case Err(e) => Run([], Some(e))
      case Ok(nonce) =>
        Pow256Widths();
        var rest := SealChunks(aead, key, baseNonce, data[n..], chunkNum + 1);
        Run(Frame(aead.seal(key, nonce, data[..n])) + rest.out, rest.err)
  }

  /** `encrypt_file_chunked` for a given base nonce: what is written to the output file, and the error raised, if any. */
  function Encrypt(aead: Aead, key: seq<byte>, baseNonce: seq<byte>, data: seq<byte>): (r: Run<seq<byte>>)
    requires AeadSound(aead)
  {
    if |key| != KeyLen then Run([], Some(InvalidKeyLength)) else SealChunks(aead, key, baseNonce, data, 0)
  }

  /** The run `prefix` followed by the run r. */
  function Prepend<T>(prefix: seq<T>, r: Run<seq<T>>): Run<seq<T>>
  {
    Run(prefix + r.out, r.err)
  }

  /**
    `encrypt_file_chunked(input_path, output_path, key)`: draws a 12-byte
    base nonce, then reads 64 KiB chunks until the input is exhausted; chunk
    number i is sealed under `_increment_nonce(base, i)` and written as one
    frame. Returns the bytes written to the output file and either the base
    nonce or the error that stopped the loop.
  */
  method EncryptFileChunked(aead: Aead, urandom: nat -> seq<byte>, input: seq<byte>, key: seq<byte>)
    returns (written: seq<byte>, result: Result<seq<byte>, CryptoError>)
    requires AeadSound(aead)
    ensures written == Encrypt(aead, key, urandom(NonceLen()), input).out
    ensures result == match Encrypt(aead, key, urandom(NonceLen()), input).err
                      case None => Ok(urandom(NonceLen()))
                      case Some(e) => Err(e)
  {
    var baseNonce := urandom(NonceLen());
    written := [];
    if |key| != KeyLen {
      return written, Err(InvalidKeyLength);
    }
    Pow256Widths();
    var rest := input;
    var chunkNum := 0;
    ghost var total := SealChunks(aead, key, baseNonce, rest, 0);
    assert [] + total.out == total.out;
    while true
      invariant total == Prepend(written, SealChunks(aead, key, baseNonce, rest, chunkNum))
      decreases |rest|
    {
      var n := Min(|rest|, ChunkSize);
      var chunk := rest[..n];
      if chunk == [] {
        assert written + [] == written;
        return written, Ok(baseNonce);
      }
      var nonce := IncrementNonce(baseNonce, chunkNum);
      if nonce.Err? {
        assert written + [] == written;
        return written, Err(nonce.error);
      }
      var encrypted := aead.seal(key, nonce.value, chunk);
      chunkNum := chunkNum + 1;
      ghost var next := SealChunks(aead, key, baseNonce, rest[n..], chunkNum);
      assert written + (Frame(encrypted) + next.out) == (written + Frame(encrypted)) + next.out;
      written := written + Frame(encrypted);
      rest := rest[n..];
    }
  }

  // ---------------------------------------------------------------------------
  // Decryption

  /**
    One frame as the decrypting loop reads it: `f.read(4)` takes up to 4
    length bytes and `f.read(chunk_length)` up to that many bytes after them
    (both read less at the end of the file). Gives the ciphertext read and
    what remains unread.
  */
  function SplitFrame(rest: seq<byte>): (p: (seq<byte>, seq<byte>))
    requires rest != []
    ensures |p.1| < |rest|
  {
    var lenEnd := Min(LengthLen(), |rest|);
    var ctEnd := lenEnd + Min(FromBigEndian(rest[..lenEnd]), |rest| - lenEnd);
    (rest[lenEnd..ctEnd], rest[ctEnd..])
  }

  /** The ciphertexts of the frames of a file, in order, as the decrypting loop reads them. */
  function ParseFrames(rest: seq<byte>): (cts: seq<seq<byte>>)
    ensures |cts| <= |rest|
    decreases |rest|
  {
    if rest == [] then [] else [SplitFrame(rest).0] + ParseFrames(SplitFrame(rest).1)
  }

  /**
    `cipher.decrypt(_increment_nonce(base_nonce, chunk_num), chunk, None)`:
    the nonce is derived first (it may overflow), then the chunk is
    authenticated and decrypted (it may be rejected).
  */
  function OpenChunk(aead: Aead, key: seq<byte>, baseNonce: seq<byte>, ct: seq<byte>, chunkNum: nat)
    : (r: Result<seq<byte>, CryptoError>)
    ensures r.Err? ==> r.error == NonceOverflow || r.error == InvalidTag
  {
    match IncrementNonce(baseNonce, chunkNum)
    case Err(e) => Err(e)
    case Ok(nonce) =>
      match aead.open(key, nonce, ct)
      case None => Err(InvalidTag)
      case Some(plain) => Ok(plain)
  }

  /**
    The chunks the generator yields for the frames cts, the first of them
    being chunk number chunkNum, and how it ends: at the first chunk that
    does not open, nothing more is yielded.
  */
  function OpenAll(aead: Aead, key: seq<byte>, baseNonce: seq<byte>, cts: seq<seq<byte>>, chunkNum: nat)
    : (r: Run<seq<seq<byte>>>)
    decreases |cts|
  {
    if cts == [] then Run([], None)
    else
      match OpenChunk(aead, key, baseNonce, cts[0], chunkNum)
      case Err(e) => Run([], Some(e))
      case Ok(plain) =>
        var tail := OpenAll(aead, key, baseNonce, cts[1..], chunkNum + 1);
        Run([plain] + tail.out, tail.err)
  }

  /**
    `decrypt_file_chunked(input_path, key, base_nonce)` run to its end: the
    cipher is built from the key first, then the file is opened (None: no
    file at input_path), then its frames are opened from chunk 0 on.
  */
  function Decrypt(aead: Aead, key: seq<byte>, baseNonce: seq<byte>, file: Option<seq<byte>>)
    : (r: Run<seq<seq<byte>>>)
  {
    if |key| != KeyLen then Run([], Some(InvalidKeyLength))
    else if file.None? then Run([], Some(FileNotFound))
    else OpenAll(aead, key, baseNonce, ParseFrames(file.value), 0)
  }

  /**
    The decrypting generator driven to its end (`list(...)`): the chunks it
    yields, in order, and the exception that ended it, if any.
  */
  method DecryptFileChunked(aead: Aead, file: Option<seq<byte>>, key: seq<byte>, baseNonce: seq<byte>)
    returns (chunks: seq<seq<byte>>, err: Option<CryptoError>)
    ensures Run(chunks, err) == Decrypt(aead, key, baseNonce, file)
  {
    chunks := [];
    if |key| != KeyLen {
      return chunks, Some(InvalidKeyLength);
    }
    if file.None? {
      return chunks, Some(FileNotFound);
    }
    var rest := file.value;
    var chunkNum := 0;
    ghost var total := OpenAll(aead, key, baseNonce, ParseFrames(rest), 0);
    assert [] + total.out == total.out;
    while true
      invariant total == Prepend(chunks, OpenAll(aead, key, baseNonce, ParseFrames(rest), chunkNum))
      decreases |rest|
    {
      if rest == [] {
        assert chunks + [] == chunks;
        return chunks, None;
      }
      var (chunk, remaining) := SplitFrame(rest);
      var decrypted := OpenChunk(aead, key, baseNonce, chunk, chunkNum);
      if decrypted.Err? {
        assert chunks + [] == chunks;
        return chunks, Some(decrypted.error);
      }
      OpenedStep(aead, key, baseNonce, chunks, rest, chunkNum);
      chunks := chunks + [decrypted.value];
      chunkNum := chunkNum + 1;
      rest := remaining;
    }
  }

  /**
    One turn of the decrypting loop: when the next frame opens, its chunk
    moves from what is still to come to what has been yielded.
  */
  lemma OpenedStep(aead: Aead, key: seq<byte>, baseNonce: seq<byte>, yielded: seq<seq<byte>>, rest: seq<byte>, chunkNum: nat)
    requires rest != [] && OpenChunk(aead, key, baseNonce, SplitFrame(rest).0, chunkNum).Ok?
    ensures Prepend(yielded, OpenAll(aead, key, baseNonce, ParseFrames(rest), chunkNum))
            == Prepend(yielded + [OpenChunk(aead, key, baseNonce, SplitFrame(rest).0, chunkNum).value],
                       OpenAll(aead, key, baseNonce, ParseFrames(SplitFrame(rest).1), chunkNum + 1))
  {
    var plain := OpenChunk(aead, key, baseNonce, SplitFrame(rest).0, chunkNum).value;
    var next := OpenAll(aead, key, baseNonce, ParseFrames(SplitFrame(rest).1), chunkNum + 1);
    assert yielded + ([plain] + next.out) == (yielded + [plain]) + next.out;
  }

  // ---------------------------------------------------------------------------
  // Properties

  /** A frame followed by anything is read back as its ciphertext, leaving what follows. */
  lemma FrameParses(ct: seq<byte>, after: seq<byte>)
    requires |ct| < Pow256(LengthLen())
    ensures SplitFrame(Frame(ct) + after) == (ct, after)
  {
    var input := Frame(ct) + after;
    assert input[..LengthLen()] == ToBigEndian(|ct|, LengthLen());
    FromToBigEndian(|ct|, LengthLen());
    assert input[LengthLen()..LengthLen() + |ct|] == ct;
    assert input[LengthLen() + |ct|..] == after;
  }

  /** ct is the chunk plain sealed under the nonce of counter j. */
  predicate SealedAs(aead: Aead, key: seq<byte>, baseNonce: seq<byte>, j: nat, plain: seq<byte>, ct: seq<byte>)
  {
    IncrementNonce(baseNonce, j).Ok? && ct == aead.seal(key, IncrementNonce(baseNonce, j).value, plain)
  }

  /** The frames cts hold the chunks plains sealed under consecutive counters from chunkNum on. */
  predicate SealedSeq(aead: Aead, key: seq<byte>, baseNonce: seq<byte>,
                      plains: seq<seq<byte>>, cts: seq<seq<byte>>, chunkNum: nat)
    decreases |cts|
  {
    |cts| == |plains| &&
    (cts != [] ==>
       SealedAs(aead, key, baseNonce, chunkNum, plains[0], cts[0]) &&
       SealedSeq(aead, key, baseNonce, plains[1..], cts[1..], chunkNum + 1))
  }

  /** SealedSeq frame by frame: frame j is chunk j sealed under the nonce of counter chunkNum + j. */
  lemma {:induction false} SealedSeqAt(aead: Aead, key: seq<byte>, baseNonce: seq<byte>,
                                       plains: seq<seq<byte>>, cts: seq<seq<byte>>, chunkNum: nat)
    requires SealedSeq(aead, key, baseNonce, plains, cts, chunkNum)
    ensures |cts| == |plains|
    ensures forall j :: 0 <= j < |cts| ==> SealedAs(aead, key, baseNonce, chunkNum + j, plains[j], cts[j])
    decreases |cts|
  {
    if cts != [] {
      SealedSeqAt(aead, key, baseNonce, plains[1..], cts[1..], chunkNum + 1);
      forall j | 1 <= j < |cts|
        ensures SealedAs(aead, key, baseNonce, chunkNum + j, plains[j], cts[j])
      {
        assert SealedAs(aead, key, baseNonce, (chunkNum + 1) + (j - 1), plains[1..][j - 1], cts[1..][j - 1]);
      }
    }
  }

  /** A successful SealChunks on a non-empty input writes the first chunk's frame, then the rest's. */
  lemma SealChunksStep(aead: Aead, key: seq<byte>, baseNonce: seq<byte>, data: seq<byte>, chunkNum: nat)
    requires AeadSound(aead) && |key| == KeyLen && data != []
    requires SealChunks(aead, key, baseNonce, data, chunkNum).err.None?
    ensures IncrementNonce(baseNonce, chunkNum).Ok?
    ensures var n := Min(|data|, ChunkSize);
            var ct := aead.seal(key, IncrementNonce(baseNonce, chunkNum).value, data[..n]);
            var tail := SealChunks(aead, key, baseNonce, data[n..], chunkNum + 1);
            |ct| < Pow256(LengthLen()) && tail.err.None? &&
            SealChunks(aead, key, baseNonce, data, chunkNum).out == Frame(ct) + tail.out
  {
    Pow256Widths();
  }

  /** What SealChunks writes is one frame per chunk, each chunk sealed under its own counter. */
  lemma {:induction false} SealedFrames(aead: Aead, key: seq<byte>, baseNonce: seq<byte>, data: seq<byte>, chunkNum: nat)
    requires AeadSound(aead) && |key| == KeyLen
    requires SealChunks(aead, key, baseNonce, data, chunkNum).err.None?
    ensures SealedSeq(aead, key, baseNonce, Chunks(data), ParseFrames(SealChunks(aead, key, baseNonce, data, chunkNum).out), chunkNum)
    decreases |data|
  {
    if data != [] {
      var n := Min(|data|, ChunkSize);
      SealChunksStep(aead, key, baseNonce, data, chunkNum);
      var ct := aead.seal(key, IncrementNonce(baseNonce, chunkNum).value, data[..n]);
      var tail := SealChunks(aead, key, baseNonce, data[n..], chunkNum + 1);
      var cts := ParseFrames(SealChunks(aead, key, baseNonce, data, chunkNum).out);
      assert cts == [ct] + ParseFrames(tail.out) by {
        FrameParses(ct, tail.out);
      }
      SealedFrames(aead, key, baseNonce, data[n..], chunkNum + 1);
      var cs := Chunks(data);
      assert cs == [data[..n]] + Chunks(data[n..]);
      assert cs[1..] == Chunks(data[n..]) && cts[1..] == ParseFrames(tail.out);
      assert SealedAs(aead, key, baseNonce, chunkNum, cs[0], cts[0]);
    }
  }

  /** Frames sealed under consecutive counters open to their chunks, with no error. */
  lemma {:induction false} OpenAllSealed(aead: Aead, key: seq<byte>, baseNonce: seq<byte>,
                                         plains: seq<seq<byte>>, cts: seq<seq<byte>>, chunkNum: nat)
    requires AeadSound(aead) && |key| == KeyLen
    requires SealedSeq(aead, key, baseNonce, plains, cts, chunkNum)
    ensures OpenAll(aead, key, baseNonce, cts, chunkNum) == Run(plains, None)
    decreases |cts|
  {
    if cts != [] {
      OpenAllSealed(aead, key, baseNonce, plains[1..], cts[1..], chunkNum + 1);
      var nonce := IncrementNonce(baseNonce, chunkNum).value;
      assert aead.open(key, nonce, aead.seal(key, nonce, plains[0])) == Some(plains[0]);
      assert OpenChunk(aead, key, baseNonce, cts[0], chunkNum) == Ok(plains[0]);
      assert plains == [plains[0]] + plains[1..];
    }
  }

  /**
    Round trip: decrypting the output of a successful encryption with the
    same key and the returned base nonce yields the file's chunks, with no
    error, and they concatenate to the original bytes.
  */
  lemma RoundTrip(aead: Aead, key: seq<byte>, baseNonce: seq<byte>, data: seq<byte>)
    requires AeadSound(aead)
    requires Encrypt(aead, key, baseNonce, data).err.None?
    ensures Decrypt(aead, key, baseNonce, Some(Encrypt(aead, key, baseNonce, data).out)) == Run(Chunks(data), None)
    ensures Flatten(Decrypt(aead, key, baseNonce, Some(Encrypt(aead, key, baseNonce, data).out)).out) == data
  {
    SealedFrames(aead, key, baseNonce, data, 0);
    OpenAllSealed(aead, key, baseNonce, Chunks(data), ParseFrames(Encrypt(aead, key, baseNonce, data).out), 0);
    ChunksFlatten(data);
  }

  /**
    The file encryption writes: one frame per chunk, ceil(n / 65536) of
    them, frame j holding chunk j sealed under `_increment_nonce(base, j)`.
  */
  lemma EncryptFrames(aead: Aead, key: seq<byte>, baseNonce: seq<byte>, data: seq<byte>)
    requires AeadSound(aead)
    requires Encrypt(aead, key, baseNonce, data).err.None?
    ensures var cts := ParseFrames(Encrypt(aead, key, baseNonce, data).out);
            |cts| == |Chunks(data)| == NumChunks(|data|) &&
            forall j :: 0 <= j < |cts| ==> SealedAs(aead, key, baseNonce, j, Chunks(data)[j], cts[j])
  {
    EncryptSealsAll(aead, key, baseNonce, data);
    SealedFromZero(aead, key, baseNonce, data);
  }

  /** A successful encryption had a 32-byte key, and wrote what SealChunks writes from counter 0. */
  lemma EncryptSealsAll(aead: Aead, key: seq<byte>, baseNonce: seq<byte>, data: seq<byte>)
    requires AeadSound(aead)
    requires Encrypt(aead, key, baseNonce, data).err.None?
    ensures |key| == KeyLen && Encrypt(aead, key, baseNonce, data) == SealChunks(aead, key, baseNonce, data, 0)
  {
  }

  /** SealedFrames and SealedSeqAt for a whole file, counting from 0. */
  lemma SealedFromZero(aead: Aead, key: seq<byte>, baseNonce: seq<byte>, data: seq<byte>)
    requires AeadSound(aead) && |key| == KeyLen
    requires SealChunks(aead, key, baseNonce, data, 0).err.None?
    ensures var cts := ParseFrames(SealChunks(aead, key, baseNonce, data, 0).out);
            |cts| == |Chunks(data)| == NumChunks(|data|) &&
            forall j :: 0 <= j < |cts| ==> SealedAs(aead, key, baseNonce, j, Chunks(data)[j], cts[j])
  {
    var cts := ParseFrames(SealChunks(aead, key, baseNonce, data, 0).out);
    var cs := Chunks(data);
    assert |cs| == NumChunks(|data|) by {
      ChunksShape(data);
    }
    assert |cts| == |cs| && forall j :: 0 <= j < |cts| ==> SealedAs(aead, key, baseNonce, 0 + j, cs[j], cts[j]) by {
      SealedFrames(aead, key, baseNonce, data, 0);
      SealedSeqAt(aead, key, baseNonce, cs, cts, 0);
    }
    forall j | 0 <= j < |cts|
      ensures SealedAs(aead, key, baseNonce, j, cs[j], cts[j])
    {
      assert SealedAs(aead, key, baseNonce, 0 + j, cs[j], cts[j]);
    }
  }

  /** ct opens to plain under the nonce of counter j. */
  predicate OpensAs(aead: Aead, key: seq<byte>, baseNonce: seq<byte>, j: nat, ct: seq<byte>, plain: seq<byte>)
  {
    IncrementNonce(baseNonce, j).Ok? && aead.open(key, IncrementNonce(baseNonce, j).value, ct) == Some(plain)
  }

  /** ct fails to open under the nonce of counter j: it is not authentic. */
  predicate Rejected(aead: Aead, key: seq<byte>, baseNonce: seq<byte>, j: nat, ct: seq<byte>)
  {
    IncrementNonce(baseNonce, j).Ok? && aead.open(key, IncrementNonce(baseNonce, j).value, ct).None?
  }

  /**
    How decryption reads the frames: chunk j is frame j opened under the
    nonce of counter chunkNum + j, and there are never more chunks than
    frames.
  */
  lemma {:induction false} OpenedFrames(aead: Aead, key: seq<byte>, baseNonce: seq<byte>, cts: seq<seq<byte>>, chunkNum: nat)
    ensures |OpenAll(aead, key, baseNonce, cts, chunkNum).out| <= |cts|
    ensures forall j :: 0 <= j < |OpenAll(aead, key, baseNonce, cts, chunkNum).out| ==>
              OpensAs(aead, key, baseNonce, chunkNum + j, cts[j], OpenAll(aead, key, baseNonce, cts, chunkNum).out[j])
    decreases |cts|
  {
    if cts != [] && OpenChunk(aead, key, baseNonce, cts[0], chunkNum).Ok? {
      var r := OpenAll(aead, key, baseNonce, cts, chunkNum);
      var tail := OpenAll(aead, key, baseNonce, cts[1..], chunkNum + 1);
      OpenedFrames(aead, key, baseNonce, cts[1..], chunkNum + 1);
      assert r.out == [OpenChunk(aead, key, baseNonce, cts[0], chunkNum).value] + tail.out;
      assert OpensAs(aead, key, baseNonce, chunkNum + 0, cts[0], r.out[0]);
      forall j | 1 <= j < |r.out|
        ensures OpensAs(aead, key, baseNonce, chunkNum + j, cts[j], r.out[j])
      {
        assert OpensAs(aead, key, baseNonce, (chunkNum + 1) + (j - 1), cts[1..][j - 1], tail.out[j - 1]);
      }
    }
  }

  /**
    How decryption ends: cleanly exactly when every frame has been opened;
    otherwise on the first frame not opened, which is the one whose counter
    overflows or that fails authentication. Nothing after it is yielded.
  */
  lemma {:induction false} OpenAllEnd(aead: Aead, key: seq<byte>, baseNonce: seq<byte>, cts: seq<seq<byte>>, chunkNum: nat)
    ensures var r := OpenAll(aead, key, baseNonce, cts, chunkNum);
            r.err.None? <==> |r.out| == |cts|
    ensures var r := OpenAll(aead, key, baseNonce, cts, chunkNum);
            r.err == Some(NonceOverflow) <==>
              |r.out| < |cts| && IncrementNonce(baseNonce, chunkNum + |r.out|).Err?
    ensures var r := OpenAll(aead, key, baseNonce, cts, chunkNum);
            r.err == Some(InvalidTag) <==>
              |r.out| < |cts| && Rejected(aead, key, baseNonce, chunkNum + |r.out|, cts[|r.out|])
    decreases |cts|
  {
    if cts != [] && OpenChunk(aead, key, baseNonce, cts[0], chunkNum).Ok? {
      OpenAllEnd(aead, key, baseNonce, cts[1..], chunkNum + 1);
      var tail := OpenAll(aead, key, baseNonce, cts[1..], chunkNum + 1);
      assert chunkNum + (1 + |tail.out|) == (chunkNum + 1) + |tail.out|;
      assert |tail.out| < |cts| - 1 ==> cts[1 + |tail.out|] == cts[1..][|tail.out|];
    }
  }

  /**
    `decrypt_file_chunked` on a file: chunk j is frame j opened under
    `_increment_nonce(base, j)`, counting from 0; it ends cleanly exactly when
    no length bytes remain after the last frame opened, and a frame that fails
    authentication ends it before that frame's chunk is yielded.
  */
  lemma DecryptFrames(aead: Aead, key: seq<byte>, baseNonce: seq<byte>, file: seq<byte>)
    requires |key| == KeyLen
    ensures var r := Decrypt(aead, key, baseNonce, Some(file));
            var cts := ParseFrames(file);
            |r.out| <= |cts| &&
            (forall j :: 0 <= j < |r.out| ==> OpensAs(aead, key, baseNonce, j, cts[j], r.out[j])) &&
            (r.err.None? <==> |r.out| == |cts|) &&
            (r.err == Some(InvalidTag) <==> |r.out| < |cts| && Rejected(aead, key, baseNonce, |r.out|, cts[|r.out|]))
  {
    DecryptOpensAll(aead, key, baseNonce, file);
    OpenAllFromZero(aead, key, baseNonce, ParseFrames(file));
  }

  /** OpenedFrames and OpenAllEnd for the frames of a whole file, counting from 0. */
  lemma OpenAllFromZero(aead: Aead, key: seq<byte>, baseNonce: seq<byte>, cts: seq<seq<byte>>)
    ensures var r := OpenAll(aead, key, baseNonce, cts, 0);
            |r.out| <= |cts| &&
            (forall j :: 0 <= j < |r.out| ==> OpensAs(aead, key, baseNonce, j, cts[j], r.out[j])) &&
            (r.err.None? <==> |r.out| == |cts|) &&
            (r.err == Some(InvalidTag) <==> |r.out| < |cts| && Rejected(aead, key, baseNonce, |r.out|, cts[|r.out|]))
  {
    var r := OpenAll(aead, key, baseNonce, cts, 0);
    OpenedFrames(aead, key, baseNonce, cts, 0);
    forall j | 0 <= j < |r.out|
      ensures OpensAs(aead, key, baseNonce, j, cts[j], r.out[j])
    {
      assert OpensAs(aead, key, baseNonce, 0 + j, cts[j], r.out[j]);
    }
    OpenAllEnd(aead, key, baseNonce, cts, 0);
  }

  /** With a 32-byte key, decrypting an existing file opens its frames from counter 0. */
  lemma DecryptOpensAll(aead: Aead, key: seq<byte>, baseNonce: seq<byte>, file: seq<byte>)
    requires |key| == KeyLen
    ensures Decrypt(aead, key, baseNonce, Some(file)) == OpenAll(aead, key, baseNonce, ParseFrames(file), 0)
  {
  }

  /**
    SealChunks from chunk i fails exactly when some chunk's counter passes the
    96-bit limit, that is, when the last chunk's does.
  */
  lemma {:induction false} SealChunksOutcome(aead: Aead, key: seq<byte>, baseNonce: seq<byte>, data: seq<byte>, chunkNum: nat)
    requires AeadSound(aead) && |key| == KeyLen
    ensures SealChunks(aead, key, baseNonce, data, chunkNum).err
            == if data != [] && FromBigEndian(baseNonce) + chunkNum + NumChunks(|data|) - 1 > MaxNonce
               then Some(NonceOverflow) else None
    decreases |data|
  {
    if data != [] {
      var n := Min(|data|, ChunkSize);
      if FromBigEndian(baseNonce) + chunkNum <= MaxNonce {
        SealChunksOutcome(aead, key, baseNonce, data[n..], chunkNum + 1);
        var tail := SealChunks(aead, key, baseNonce, data[n..], chunkNum + 1);
        assert SealChunks(aead, key, baseNonce, data, chunkNum).err == tail.err;
      } else {
        assert SealChunks(aead, key, baseNonce, data, chunkNum) == Run([], Some(NonceOverflow));
      }
    }
  }

  /** A successful SealChunks writes the input plus 20 bytes per chunk: 4 length bytes and the 16-byte tag. */
  lemma {:induction false} SealChunksLength(aead: Aead, key: seq<byte>, baseNonce: seq<byte>, data: seq<byte>, chunkNum: nat)
    requires AeadSound(aead) && |key| == KeyLen
    ensures SealChunks(aead, key, baseNonce, data, chunkNum).err.None? ==>
            |SealChunks(aead, key, baseNonce, data, chunkNum).out| == |data| + 20 * NumChunks(|data|)
    decreases |data|
  {
    if data != [] {
      SealChunksStepLength(aead, key, baseNonce, data, chunkNum);
      SealChunksLength(aead, key, baseNonce, data[Min(|data|, ChunkSize)..], chunkNum + 1);
    }
  }

  /**
    One step of a successful SealChunks adds a frame of 4 + n + 16 bytes for
    an n-byte chunk, and one chunk to the count.
  */
  lemma SealChunksStepLength(aead: Aead, key: seq<byte>, baseNonce: seq<byte>, data: seq<byte>, chunkNum: nat)
    requires AeadSound(aead) && |key| == KeyLen && data != []
    ensures var n := Min(|data|, ChunkSize);
            var whole := SealChunks(aead, key, baseNonce, data, chunkNum);
            var tail := SealChunks(aead, key, baseNonce, data[n..], chunkNum + 1);
            whole.err.None? ==>
              tail.err.None? && |whole.out| == 20 + n + |tail.out| && NumChunks(|data|) == 1 + NumChunks(|data| - n)
  {
    var n := Min(|data|, ChunkSize);
    if SealChunks(aead, key, baseNonce, data, chunkNum).err.None? {
      SealChunksStep(aead, key, baseNonce, data, chunkNum);
      var ct := aead.seal(key, IncrementNonce(baseNonce, chunkNum).value, data[..n]);
      assert |ct| == n + TagLen;
    }
  }

  /**
    `encrypt_file_chunked` raises exactly when the key is not 32 bytes, or
    when the input is non-empty and base + (number of chunks - 1) passes
    2^96 - 1; on success it writes the input plus 20 bytes per chunk
    (4 length bytes and the 16-byte tag), and nothing for an empty input.
  */
  lemma EncryptOutcome(aead: Aead, key: seq<byte>, baseNonce: seq<byte>, data: seq<byte>)
    requires AeadSound(aead)
    ensures Encrypt(aead, key, baseNonce, data).err
            == if |key| != KeyLen then Some(InvalidKeyLength)
               else if data != [] && FromBigEndian(baseNonce) + NumChunks(|data|) - 1 > MaxNonce then Some(NonceOverflow)
               else None
    ensures Encrypt(aead, key, baseNonce, data).err.None? ==>
            |Encrypt(aead, key, baseNonce, data).out| == |data| + 20 * NumChunks(|data|)
    ensures data == [] ==> Encrypt(aead, key, baseNonce, data).out == []
  {
    if |key| == KeyLen {
      SealChunksOutcome(aead, key, baseNonce, data, 0);
      if SealChunks(aead, key, baseNonce, data, 0).err.None? {
        SealChunksLength(aead, key, baseNonce, data, 0);
      }
    }
  }
}
