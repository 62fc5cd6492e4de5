/** `CompressReader`: a read decorator that feeds every byte it returns to an MD5 context. */
module Reader {
  import opened Bytes
  import opened Io
  import opened Foreign

  class CompressReader {
    const inner: Source
    var hash: Md5Context
    /** The inner reader's position when it was wrapped. */
    ghost const origin: nat

    ghost predicate Valid()
      reads this, inner
    {
      origin <= inner.pos <= |inner.data| && hash.consumed == inner.data[origin..inner.pos]
    }

    /** `CompressReader::new`: an empty digest context. */
    constructor (inner: Source)
      requires inner.pos <= |inner.data|
      ensures Valid() && this.inner == inner && hash == NEW_CONTEXT && origin == inner.pos
    {
      this.inner := inner;
      hash := NEW_CONTEXT;
      origin := inner.pos;
    }

    /**
     * `Read::read`: returns the inner reader's count and adds exactly the bytes
     * read to the digest; an inner error is returned before the digest changes.
     */
    method Read(buf: array<byte>) returns (r: IoResult<nat>)
      requires Valid()
      modifies this, inner, buf
      ensures Valid()
      ensures inner.broken ==> r == Err(Other) && hash == old(hash)
      ensures !inner.broken ==> r == Ok(Min(buf.Length, |inner.data| - old(inner.pos)))
      ensures r.Ok? ==> inner.pos == old(inner.pos) + r.value
      ensures r.Ok? ==> buf[..r.value] == inner.data[old(inner.pos)..inner.pos] && hash == old(hash).Consume(buf[..r.value])
    {
      ghost var before := inner.pos;
      var bytes := inner.Read(buf);
      if bytes.Err? {
        return Err(bytes.error);
      }
      assert buf[..bytes.value] == inner.data[before..inner.pos];
      assert inner.data[origin..inner.pos] == inner.data[origin..before] + inner.data[before..inner.pos];
      hash := hash.Consume(buf[..bytes.value]);
      r := Ok(bytes.value);
    }

    /** `CompressReader::md5_digest`: the MD5 of every byte read through this wrapper. */
    function Md5Digest(md5: Md5): (d: Digest)
      reads this, inner
      requires Valid()
      ensures d == md5(inner.data[origin..inner.pos])
    {
      hash.Compute(md5)
    }
  }
}
