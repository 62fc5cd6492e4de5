/**
 * The two libraries the program calls and this model does not open up:
 * Zstandard (RFC 8878) for compression and MD5 (RFC 1321) for the checksum.
 * Both are parameters of the operations that use them.
 */
module Foreign {
  import opened Bytes
  import opened Io

  /** A file's contents: its length is a `u64`. */
  type FileBytes = s: seq<byte> | |s| < U64_LIMIT witness []

  /** The most bytes a file can hold. */
  const MAX_FILE_LEN: nat := U64_LIMIT - 1

  /**
   * The Zstandard engine: `encode(data, level)` is the complete compressed
   * stream `copy_encode` produces, `decode(stream)` what `copy_decode` produces,
   * `None` when the stream does not decode.
   */
  datatype Codec = Codec(encode: (seq<byte>, int) -> FileBytes, decode: seq<byte> -> Option<seq<byte>>)

  /** The assumption every round trip rests on: decoding undoes encoding at `level`. */
  ghost predicate RoundTrips(codec: Codec, level: int)
  {
    forall data: FileBytes :: codec.decode(codec.encode(data, level)) == Some(data)
  }

  /** MD5 of a whole byte string. */
  type Md5 = seq<byte> -> Digest

  /**
   * `md5::Context`: the state of an incremental MD5 computation is determined by
   * the bytes consumed so far, and `compute` yields the MD5 of exactly those.
   */
  datatype Md5Context = Md5Context(consumed: seq<byte>)
  {
    function Consume(data: seq<byte>): Md5Context
    {
      Md5Context(consumed + data)
    }

    function Compute(md5: Md5): Digest
    {
      md5(consumed)
    }
  }

  /** `md5::Context::new()`. */
  const NEW_CONTEXT: Md5Context := Md5Context([])
}
