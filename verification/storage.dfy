/** What the keyspace holds under each key (src/storage.rs). */
module Storage {
  import opened Resp

  /** `StorageType`: a plain string, or a hash of field names to values. */
  datatype StorageType =
    | String(value: Bytes)
    | HashMap(fields: map<Bytes, Bytes>)
}
