/**
  The metadata store of app/services/redis_service.py. The Redis database
  is a map from key to hash (a map from field to string value), together
  with the expiry that `expire` last set on each key; whether the server
  can be reached is a flag that the operations read and never change.
*/
module MetadataStore {
  import opened Wrappers
  import opened Strings
  import Config

  /** A Redis hash with `decode_responses=True`: field names to string values. */
  type Hash = map<string, string>

  /** A call that reaches the server, or the ConnectionError the client raises when it cannot. */
  datatype Reply<+T> = Answered(value: T) | ConnectionFailed

  /** What `store_file_metadata` does: return a boolean, or raise KeyError on a missing metadata field. */
  datatype StoreOutcome = Returned(ok: bool) | KeyMissing(field: string)

  /** What `list_files` returns: the keys, or the text of the exception it caught. */
  datatype ListReply = Keys(keys: set<string>) | Failed

  /** The metadata fields `store_file_metadata` copies, in the order the mapping reads them. */
  const CopiedFields: seq<string> := ["token", "filename", "real_filename", "content_type"]

  /** The value stored in the `TIME_TO_LIVE` field: `str(REDIS_TTL) + " seconds"`. */
  function TimeToLive(): (s: string)
    ensures s == "18000 seconds"
  {
    TtlText();
    DecimalString(Config.RedisTtl) + " seconds"
  }

  /** `str(REDIS_TTL)` is "18000". */
  lemma TtlText()
    ensures DecimalString(Config.RedisTtl) == "18000"
  {
    DecimalAppend(1, 8);
    DecimalAppend(18, 0);
    DecimalAppend(180, 0);
    DecimalAppend(1800, 0);
  }

  /** The first of the copied fields that metadata lacks, which is where `metadata[...]` raises KeyError. */
  function MissingField(metadata: Hash): (r: Option<string>)
    ensures r.Some? ==> r.value in CopiedFields && r.value !in metadata
    ensures r.None? ==> forall f :: f in CopiedFields ==> f in metadata
  {
    if "token" !in metadata then Some("token")
    else if "filename" !in metadata then Some("filename")
    else if "real_filename" !in metadata then Some("real_filename")
    else if "content_type" !in metadata then Some("content_type")
    else None
  }

  /** The mapping `store_file_metadata` writes with `hset`, for an upload time given as ISO-8601 text. */
  function MetadataRecord(metadata: Hash, uploadTime: string): (h: Hash)
    requires MissingField(metadata).None?
    ensures h.Keys == {"token", "filename", "real_filename", "content_type", "upload_time", "TIME_TO_LIVE"}
    ensures forall f :: f in CopiedFields ==> h[f] == metadata[f]
    ensures h["upload_time"] == uploadTime && h["TIME_TO_LIVE"] == TimeToLive()
  {
    map["token" := metadata["token"],
        "filename" := metadata["filename"],
        "real_filename" := metadata["real_filename"],
        "content_type" := metadata["content_type"],
        "upload_time" := uploadTime,
        "TIME_TO_LIVE" := TimeToLive()]
  }

  /** `hgetall(key)`: the hash at key, empty when the key does not exist. */
  function HashAt(store: map<string, Hash>, key: string): (h: Hash)
    ensures key !in store ==> h == map[]
  {
    if key in store then store[key] else map[]
  }

  /** `hset(key, mapping=fields)`: the fields are added to the hash at key, overwriting fields of the same name. */
  function HSet(store: map<string, Hash>, key: string, fields: Hash): (s: map<string, Hash>)
    ensures s.Keys == store.Keys + {key}
    ensures forall k :: k in store && k != key ==> s[k] == store[k]
    ensures forall f :: f in s[key] <==> f in fields || f in HashAt(store, key)
    ensures forall f :: f in s[key] ==> s[key][f] == if f in fields then fields[f] else HashAt(store, key)[f]
  {
    store[key := HashAt(store, key) + fields]
  }

  class RedisService {
    /** The keys of the database and their hashes. */
    var store: map<string, Hash>
    /** The time to live, in seconds, that `expire` last set on a key. */
    var expiry: map<string, nat>
    /** Whether the Redis server can be reached. */
    var connected: bool

    /** Only keys that exist carry an expiry. */
    ghost predicate Valid()
      reads this
    {
      expiry.Keys <= store.Keys
    }

    /**
      `RedisService(host, port)`: builds a client for db 0 of the server at
      host:port, which keeps whatever keys and expiries it already holds;
      reachable says whether that server answers.
    */
    constructor(store: map<string, Hash>, expiry: map<string, nat>, reachable: bool)
      requires expiry.Keys <= store.Keys
      ensures Valid()
      ensures this.store == store && this.expiry == expiry && connected == reachable
    {
      this.store := store;
      this.expiry := expiry;
      connected := reachable;
    }

    /** `__check_connection()`: `ping`, turning every failure into False. */
    method CheckConnection() returns (ok: bool)
      ensures ok == connected
    {
      ok := connected;
    }

    /**
      `store_file_metadata(token, metadata)`: fails closed when the server
      cannot be reached; a None metadata is reported as stored and writes
      nothing; otherwise the six fields are merged into the hash at token,
      which then expires after REDIS_TTL seconds.
    */
    method StoreFileMetadata(token: string, metadata: Option<Hash>, uploadTime: string)
      returns (outcome: StoreOutcome)
      requires Valid()
      modifies this
      ensures Valid() && connected == old(connected)
      ensures !connected ==> outcome == Returned(false) && store == old(store) && expiry == old(expiry)
      ensures connected && metadata.None? ==> outcome == Returned(true) && store == old(store) && expiry == old(expiry)
      ensures connected && metadata.Some? && MissingField(metadata.value).Some? ==>
                outcome == KeyMissing(MissingField(metadata.value).value) && store == old(store) && expiry == old(expiry)
      ensures connected && metadata.Some? && MissingField(metadata.value).None? ==>
                outcome == Returned(true) &&
                store == HSet(old(store), token, MetadataRecord(metadata.value, uploadTime)) &&
                expiry == old(expiry)[token := Config.RedisTtl]
    {
      var up := CheckConnection();
      if !up {
        return Returned(false);
      }
      if metadata.Some? {
        var missing := MissingField(metadata.value);
        if missing.Some? {
          return KeyMissing(missing.value);
        }
        store := HSet(store, token, MetadataRecord(metadata.value, uploadTime));
        expiry := expiry[token := Config.RedisTtl];
      }
      return Returned(true);
    }

    /**
      `get_file_metadata(token)`: None for a None token, without contacting
      the server; otherwise `hgetall`, which gives an empty hash for a
      missing key and raises when the server cannot be reached.
    */
    method GetFileMetadata(token: Option<string>) returns (r: Reply<Option<Hash>>)
      ensures token.None? ==> r == Answered(None)
      ensures token.Some? && !connected ==> r == ConnectionFailed
      ensures token.Some? && connected ==> r == Answered(Some(HashAt(store, token.value)))
    {
      if token.None? {
        return Answered(None);
      }
      if !connected {
        return ConnectionFailed;
      }
      return Answered(Some(HashAt(store, token.value)));
    }

    /**
      `delete_file(token)`: False for a None token; otherwise `delete`, with
      no connection check first, so that an unreachable server raises, and
      True whether or not the key existed.
    */
    method DeleteFile(token: Option<string>) returns (r: Reply<bool>)
      requires Valid()
      modifies this
      ensures Valid() && connected == old(connected)
      ensures token.None? ==> r == Answered(false) && store == old(store) && expiry == old(expiry)
      ensures token.Some? && !connected ==> r == ConnectionFailed && store == old(store) && expiry == old(expiry)
      ensures token.Some? && connected ==>
                r == Answered(true) && store == old(store) - {token.value} && expiry == old(expiry) - {token.value}
    {
      if token.None? {
        return Answered(false);
      }
      if !connected {
        return ConnectionFailed;
      }
      store := store - {token.value};
      expiry := expiry - {token.value};
      return Answered(true);
    }

    /**
      `file_exists(token)`: False when the server cannot be reached or the
      token is None; otherwise whether the key exists (`exists` counts it as
      1 or 0).
    */
    method FileExists(token: Option<string>) returns (b: bool)
      requires Valid()
      ensures b <==> connected && token.Some? && token.value in store
      ensures connected && token.Some? && token.value in expiry ==> b
    {
      var up := CheckConnection();
      if !up {
        return false;
      }
      if token.None? {
        return false;
      }
      return token.value in store;
    }

    /** `list_files()`: `keys('*')`, or the text of the error when the server cannot be reached. */
    method ListFiles() returns (r: ListReply)
      ensures connected ==> r == Keys(store.Keys)
      ensures !connected ==> r == Failed
    {
      if !connected {
        return Failed;
      }
      return Keys(store.Keys);
    }
  }

  /**
    On a key that did not exist, storing metadata leaves exactly the six
    fields at that key, with the given values, and no other key changes.
  */
  lemma StoreFreshRecord(store: map<string, Hash>, token: string, metadata: Hash, uploadTime: string)
    requires token !in store
    requires MissingField(metadata).None?
    ensures HSet(store, token, MetadataRecord(metadata, uploadTime))[token] == MetadataRecord(metadata, uploadTime)
    ensures forall k :: k in store ==> HSet(store, token, MetadataRecord(metadata, uploadTime))[k] == store[k]
  {
    var rec := MetadataRecord(metadata, uploadTime);
    var empty: Hash := map[];
    assert empty + rec == rec;
  }

  /**
    On a key that already held a hash, storing metadata overwrites the six
    fields and keeps every other field the hash had.
  */
  lemma StoreMergesRecord(store: map<string, Hash>, token: string, metadata: Hash, uploadTime: string, f: string)
    requires token in store && f in store[token]
    requires MissingField(metadata).None?
    ensures var h := HSet(store, token, MetadataRecord(metadata, uploadTime))[token];
            f in h && h[f] == if f in MetadataRecord(metadata, uploadTime) then MetadataRecord(metadata, uploadTime)[f] else store[token][f]
  {
  }

  /**
    A successful store followed by a get of the same token returns exactly
    the stored fields, when the key was new.
  */
  method StoreThenGet(service: RedisService, token: string, metadata: Hash, uploadTime: string)
    returns (stored: StoreOutcome, got: Reply<Option<Hash>>)
    requires service.Valid() && service.connected && token !in service.store
    requires MissingField(metadata).None?
    modifies service
    ensures stored == Returned(true)
    ensures got == Answered(Some(MetadataRecord(metadata, uploadTime)))
  {
    stored := service.StoreFileMetadata(token, Some(metadata), uploadTime);
    StoreFreshRecord(old(service.store), token, metadata, uploadTime);
    got := service.GetFileMetadata(Some(token));
  }
}
