/**
  The configuration constants of config.py that the core reads. The upload
  folder and the base URL come from the environment at start-up, so they are
  parameters of the operations that use them.
*/
module Config {
  import opened Wrappers

  /** `Config.ALLOWED_EXTENSIONS`, the server-side allow-list. */
  const AllowedExtensions: set<string> := {"pdf", "txt", "png", "jpg", "jpeg", "gif", "env"}

  /** `Config.MAX_FILE_SIZE`: 20 MiB. */
  const MaxFileSize: nat := 20 * 1024 * 1024

  /** `Config.REDIS_TTL`: five hours, in seconds. */
  const RedisTtl: nat := 5 * 60 * 60

  /** The Argon2id costs `derive_key_from_password` reads from Config. */
  datatype Argon2Costs = Argon2Costs(timeCost: nat, memoryCost: nat, parallelism: nat)

  /**
    `Config.ARGON2_TIME_COST`, `ARGON2_MEMORY_COST` and `ARGON2_PARALLELISM`:
    config.py defines none of them, so reading the first raises
    AttributeError.
  */
  const Argon2Settings: Option<Argon2Costs> := None
}
