/** The on-disk cache envelope and the states its file can be found in. */
module Envelope {
  import opened Base
  import opened Policy

  /** `DataWithCachePolicy`: the cached payload bytes, whether the response
      that produced them was `immutable`, and the policy that governs them. */
  datatype DataWithCachePolicy = DataWithCachePolicy(
    data: Bytes,
    immutable: bool,
    cachePolicy: CachePolicy)

  /** What reading the cache file yields: a read error (e.g. no such file),
      bytes that do not decode as an envelope, or a decoded envelope. */
  datatype FileState =
    | Unreadable
    | Corrupt
    | Stored(envelope: DataWithCachePolicy)
}
