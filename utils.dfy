/** `buf_copy`: the chunked copy the archiver uses to append each temporary file. */
module Utils {
  import opened Bytes
  import opened Io

  /** The size of the fixed stack buffer. */
  const BUF_SIZE: nat := 8192

  /**
   * Reads chunks of at most `BUF_SIZE` bytes until a read returns nothing,
   * writes each chunk in full, then flushes the writer once. Any read, write or
   * flush error ends the copy with that error; on success the writer has received
   * every remaining byte of the reader, in order, and the reader is exhausted.
   */
  method BufCopy(reader: Source, writer: Sink) returns (r: IoResult<()>)
    modifies reader, writer
    ensures r.Ok? <==> !reader.broken && !writer.broken && writer.Accepts(|old(writer.written)|, |Tail(reader.data, old(reader.pos))|)
    ensures r.Ok? ==> writer.written == old(writer.written) + Tail(reader.data, old(reader.pos))
    ensures r.Ok? ==> |Tail(reader.data, reader.pos)| == 0
    ensures old(writer.written) <= writer.written
  {
    ghost var source := Tail(reader.data, reader.pos);
    ghost var p0 := reader.pos;
    ghost var w0 := writer.written;
    ghost var k := 0;
    var buffer := new byte[BUF_SIZE](_ => 0);
    while true
      invariant 0 <= k <= |source| && reader.pos == p0 + k
      invariant writer.written == w0 + source[..k]
      invariant k > 0 ==> !reader.broken && !writer.broken && writer.Accepts(|w0|, k)
      decreases |source| - k
    {
      TailTail(reader.data, p0, k);
      var read := reader.Read(buffer);
      if read.Err? {
        return Err(read.error);
      }
      var bytesRead := read.value;
      if bytesRead == 0 {
        break;
      }
      ghost var chunk := buffer[..bytesRead];
      ChunkOf(source, k, chunk);
      var wrote := writer.WriteAll(buffer[..bytesRead]);
      if wrote.Err? {
        return Err(wrote.error);
      }
      Extend(w0, source, k, chunk);
      k := k + bytesRead;
    }
    var flushed := writer.Flush();
    if flushed.Err? {
      return Err(flushed.error);
    }
    TailTail(reader.data, p0, k);
    assert source[..k] == source;
    r := Ok(());
  }

  /** A chunk read at offset `k` of the source is the next stretch of it. */
  lemma ChunkOf(source: seq<byte>, k: nat, chunk: seq<byte>)
    requires k + |chunk| <= |source| && chunk == source[k..][..|chunk|]
    ensures chunk == source[k..k + |chunk|]
  {
  }

  /** Writing the chunk after the first `k` bytes leaves the first `k + |chunk|` bytes written. */
  lemma Extend(w0: seq<byte>, source: seq<byte>, k: nat, chunk: seq<byte>)
    requires k + |chunk| <= |source| && chunk == source[k..k + |chunk|]
    ensures w0 + source[..k] + chunk == w0 + source[..k + |chunk|]
  {
    assert source[..k] + chunk == source[..k + |chunk|];
  }
}
