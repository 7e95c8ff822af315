/** Basic value types shared by the sender-side model: bytes, digests,
    the abstract hash function, and the Option/Result wrappers that
    stand in for Python's `None` and raised exceptions. */
module Types {

  /** An unsigned 8-bit value, the element of a Python `bytes` object. */
  type uint8 = x: int | 0 <= x < 0x100

  type Bytes = seq<uint8>

  /** A 32-byte SHA-256 digest (FIPS 180-4). */
  type Digest = d: Bytes | |d| == 32 witness seq(32, i => 0)

  /** `hashlib.sha256(b).digest()`. The hash itself is not modelled: every
      statement about packets holds for every function of this type. */
  type Hasher = Bytes -> Digest

  datatype Option<+T> = None | Some(value: T)

  datatype Result<+T, +E> = Success(value: T) | Failure(error: E)

  function Min(a: int, b: int): int
  {
    if a <= b then a else b
  }
}
