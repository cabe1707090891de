/** Types shared by every module: byte strings, digests, identifiers and outcomes. */
module Common {
  /** The source's `u8`, kept as an integer range so that digit arithmetic is exact. */
  type Byte = b: int | 0 <= b < 256

  /** A 32-byte array: message ids, hashes, Merkle nodes. */
  type Bytes32 = s: seq<Byte> | |s| == 32 witness seq(32, _ => 0)

  const U64_LIMIT: int := 0x1_0000_0000_0000_0000

  type U64 = x: int | 0 <= x < U64_LIMIT

  type I64 = x: int | -U64_LIMIT <= 2 * x < U64_LIMIT

  datatype Option<+T> = None | Some(value: T)

  datatype Result<+T, +E> = Ok(value: T) | Err(error: E)

  datatype MessageId = MessageId(bytes: Bytes32)

  /** An abstract 256-bit hash function (SHA-256, BLAKE3). */
  type HashFn = seq<Byte> -> Bytes32

  /** `hash` tells the given inputs apart. No 256-bit hash can do so for all inputs, so results name the ones they
      need. */
  ghost predicate CollisionFree(hash: HashFn, inputs: set<seq<Byte>>) {
    forall x, y :: x in inputs && y in inputs && hash(x) == hash(y) ==> x == y
  }

  ghost predicate NoDuplicates<T>(s: seq<T>) {
    forall i, j :: 0 <= i < j < |s| ==> s[i] != s[j]
  }

  ghost function Elements<T>(s: seq<T>): set<T> {
    set x | x in s
  }
}
