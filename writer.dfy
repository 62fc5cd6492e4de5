/** `CompressWriter`: a write decorator that counts the bytes its inner writer accepts. */
module Writer {
  import opened Bytes
  import opened Io

  class CompressWriter {
    const inner: Sink
    var count: nat
    /** The inner writer's contents when it was wrapped. */
    ghost const origin: seq<byte>

    ghost predicate Valid()
      reads this, inner
    {
      origin <= inner.written && count == |inner.written| - |origin|
    }

    /** The bytes that have reached the inner writer through this wrapper. */
    ghost function Passed(): seq<byte>
      reads this, inner
      requires Valid()
    {
      inner.written[|origin|..]
    }

    /** `CompressWriter::new`: nothing has passed yet. */
    constructor (inner: Sink)
      ensures Valid() && this.inner == inner && count == 0 && Passed() == []
      ensures inner.written == old(inner.written)
    {
      this.inner := inner;
      count := 0;
      origin := inner.written;
    }

    /** `Write::write`: delegates, then counts exactly what the inner writer accepted. */
    method Write(buf: seq<byte>) returns (r: IoResult<nat>)
      requires Valid()
      modifies this, inner
      ensures Valid()
      ensures r.Err? ==> count == old(count) && Passed() == old(Passed())
      ensures r.Ok? <==> !inner.broken && (|buf| == 0 || old(inner.Room()) > 0)
      ensures r.Ok? ==> r.value == Min(|buf|, Min(inner.maxWrite, old(inner.Room())))
      ensures r.Ok? ==> count == old(count) + r.value && Passed() == old(Passed()) + buf[..r.value]
    {
      var bytes := inner.Write(buf);
      if bytes.Err? {
        return Err(bytes.error);
      }
      count := count + bytes.value;
      r := Ok(bytes.value);
    }

    /** `Write::write_all` over this wrapper. */
    method WriteAll(buf: seq<byte>) returns (r: IoResult<()>)
      requires Valid()
      modifies this, inner
      ensures Valid()
      ensures r.Ok? <==> old(inner.WritesAll(buf))
      ensures r.Ok? ==> Passed() == old(Passed()) + buf
    {
      var done := 0;
      while done < |buf|
        invariant Valid()
        invariant 0 <= done <= |buf|
        invariant Passed() == old(Passed()) + buf[..done]
        invariant done > 0 ==> !inner.broken && inner.maxWrite > 0 && |inner.written| <= inner.capacity
        decreases |buf| - done
      {
        var n := Write(buf[done..]);
        if n.Err? {
          return Err(n.error);
        }
        if n.value == 0 {
          return Err(WriteZero);
        }
        assert buf[..done] + buf[done..][..n.value] == buf[..done + n.value];
        done := done + n.value;
      }
      assert buf[..done] == buf;
      r := Ok(());
    }

    /** `Write::flush`: delegates; the count is untouched. */
    method Flush() returns (r: IoResult<()>)
      ensures r.Ok? <==> !inner.broken
    {
      r := inner.Flush();
    }

    /** `CompressWriter::count`: the number of bytes that reached the inner writer. */
    function Count(): (c: nat)
      reads this, inner
      requires Valid()
      ensures c == |Passed()|
    {
      count
    }

    /** `CompressWriter::into_inner`: flushes, then hands back the inner writer. */
    method IntoInner() returns (r: IoResult<Sink>)
      ensures r.Ok? <==> !inner.broken
      ensures r.Ok? ==> r.value == inner
    {
      var flushed := inner.Flush();
      if flushed.Err? {
        return Err(flushed.error);
      }
      r := Ok(inner);
    }
  }
}
