/**
 * The operating-system streams the program reads and writes: a file opened for
 * reading (`Source`) and a file or buffered writer opened for writing (`Sink`),
 * with the `std::io::Read` / `std::io::Write` operations the core uses.
 * Whether an operation fails is fixed when the handle is opened (`broken`), and a
 * sink accepts at most `maxWrite` bytes per `write` call, as a real writer may
 * accept only part of a buffer.
 */
module Io {
  import opened Bytes

  datatype Option<+T> = None | Some(value: T)

  datatype IoError =
    | Other          // an error reported by the operating system
    | UnexpectedEof  // `read_exact` ran out of input
    | WriteZero      // `write_all` saw a writer accept nothing
    | InvalidData    // malformed data: bad identifier, undecodable stream

  datatype IoResult<+T> = Ok(value: T) | Err(error: IoError)

  /** A file opened for reading, with its cursor. */
  class Source {
    const data: seq<byte>
    const broken: bool
    var pos: nat

    constructor (data: seq<byte>, broken: bool)
      ensures this.data == data && this.broken == broken && pos == 0
    {
      this.data := data;
      this.broken := broken;
      pos := 0;
    }

    /** `Seek::seek(SeekFrom::Start(p))`; a position past the end is allowed. */
    method Seek(p: nat)
      modifies this
      ensures pos == p
    {
      pos := p;
    }

    /** `Read::read`: fills a prefix of `buf` with as many of the remaining bytes as fit. */
    method Read(buf: array<byte>) returns (r: IoResult<nat>)
      modifies this, buf
      ensures broken ==> r == Err(Other) && pos == old(pos)
      ensures !broken ==> r == Ok(Min(buf.Length, |Tail(data, old(pos))|))
      ensures r.Ok? ==> pos == old(pos) + r.value && buf[..r.value] == Tail(data, old(pos))[..r.value]
    {
      if broken {
        return Err(Other);
      }
      var rest := Tail(data, pos);
      var n := Min(buf.Length, |rest|);
      forall i | 0 <= i < n {
        buf[i] := rest[i];
      }
      pos := pos + n;
      r := Ok(n);
    }

    /** `Read::read_exact`: fills all of `buf` or fails. */
    method ReadExact(buf: array<byte>) returns (r: IoResult<()>)
      modifies this, buf
      ensures r.Ok? <==> !broken && buf.Length <= |Tail(data, old(pos))|
      ensures broken ==> r == Err(Other)
      ensures r.Err? && !broken ==> r.error == UnexpectedEof
      ensures r.Ok? ==> pos == old(pos) + buf.Length && buf[..] == Tail(data, old(pos))[..buf.Length]
    {
      if broken {
        return Err(Other);
      }
      var rest := Tail(data, pos);
      if |rest| < buf.Length {
        pos := pos + |rest|;
        return Err(UnexpectedEof);
      }
      forall i | 0 <= i < buf.Length {
        buf[i] := rest[i];
      }
      pos := pos + buf.Length;
      r := Ok(());
    }

    /** Reads `self.by_ref().take(n)` to its end: at most `n` bytes. */
    method ReadTake(n: nat) returns (r: IoResult<seq<byte>>)
      modifies this
      ensures r.Ok? <==> !broken
      ensures broken ==> r == Err(Other)
      ensures r.Ok? ==> r.value == Take(Tail(data, old(pos)), n) && pos == old(pos) + |r.value|
    {
      if broken {
        return Err(Other);
      }
      var block := Take(Tail(data, pos), n);
      pos := pos + |block|;
      r := Ok(block);
    }
  }

  /**
   * A file (or a buffered writer over one) opened for writing; `written` is its
   * contents. A broken sink fails every call; otherwise a write fails only when
   * the file has reached `capacity` bytes (the disk is full).
   */
  class Sink {
    const maxWrite: nat
    const broken: bool
    const capacity: nat
    var written: seq<byte>

    constructor (initial: seq<byte>, maxWrite: nat, broken: bool, capacity: nat)
      ensures written == initial && this.maxWrite == maxWrite && this.broken == broken && this.capacity == capacity
    {
      written := initial;
      this.maxWrite := maxWrite;
      this.broken := broken;
      this.capacity := capacity;
    }

    /** How many more bytes the file can take. */
    function Room(): nat
      reads this
    {
      if |written| < capacity then capacity - |written| else 0
    }

    /** Whether `write_all` of `n` bytes succeeds on this sink once it holds `have` bytes. */
    predicate Accepts(have: nat, n: nat)
    {
      n == 0 || (!broken && maxWrite > 0 && have + n <= capacity)
    }

    /** Whether `write_all` of `buf` succeeds on this sink in its current state. */
    predicate WritesAll(buf: seq<byte>)
      reads this
    {
      Accepts(|written|, |buf|)
    }

    /** `Write::write`: accepts a prefix of `buf` and reports its length. */
    method Write(buf: seq<byte>) returns (r: IoResult<nat>)
      modifies this
      ensures broken ==> r == Err(Other) && written == old(written)
      ensures !broken && |buf| > 0 && old(Room()) == 0 ==> r == Err(Other) && written == old(written)
      ensures !broken && (|buf| == 0 || old(Room()) > 0) ==> r == Ok(Min(|buf|, Min(maxWrite, old(Room()))))
      ensures r.Ok? ==> r.value <= |buf| && written == old(written) + buf[..r.value]
    {
      if broken || (|buf| > 0 && Room() == 0) {
        return Err(Other);
      }
      var n := Min(|buf|, Min(maxWrite, Room()));
      written := written + buf[..n];
      r := Ok(n);
    }

    /** `Write::flush`. */
    method Flush() returns (r: IoResult<()>)
      ensures r.Ok? <==> !broken
    {
      r := if broken then Err(Other) else Ok(());
    }

    /** `Write::write_all`: `write` until the whole buffer is accepted. */
    method WriteAll(buf: seq<byte>) returns (r: IoResult<()>)
      modifies this
      ensures r.Ok? <==> old(WritesAll(buf))
      ensures r.Ok? ==> written == old(written) + buf
      ensures old(written) <= written
    {
      var done := 0;
      while done < |buf|
        invariant 0 <= done <= |buf|
        invariant written == old(written) + buf[..done]
        invariant done > 0 ==> !broken && maxWrite > 0 && |written| <= capacity
        decreases |buf| - done
      {
        var n := Write(buf[done..]);
        if n.Err? {
          return Err(n.error);
        }
        if n.value == 0 {
          return Err(WriteZero);
        }
        assert buf[..done] + buf[done..][..n.value] == buf[..done + n.value];
        done := done + n.value;
      }
      assert buf[..done] == buf;
      r := Ok(());
    }
  }
}
