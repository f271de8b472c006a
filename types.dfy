/** Shared value types of the hybrid index: 64-bit keys and payloads, and the
    Option type that stands for a lookup that may report NOT_FOUND. */
module Types {

  /** An unsigned 64-bit integer (`uint64_t`). */
  newtype u64 = x: int | 0 <= x < 0x1_0000_0000_0000_0000

  /** The key type the index is instantiated with (`HybridPGMLIPP<uint64_t>`). */
  type Key = u64

  /** The payload stored with each key. */
  type Value = u64

  /** A lookup result: `None` plays the part of the `util::NOT_FOUND` sentinel. */
  datatype Option<T> = None | Some(value: T)
}
