/**
 * The unarchiver: it finds the container at the end of its own executable,
 * reads the header, and walks the manifest while three more cursors advance in
 * lockstep through the size pairs, the digests and the compressed data. Every
 * entry is decompressed into its file through a hashing writer and reported
 * "ok" or "corrupted"; the first error of any other kind ends the extraction.
 *
 * The executable is a byte string. All offsets are `u64` and computed as a
 * release build computes them, modulo 2^64.
 */
module Unarchiver {
  import opened Bytes
  import opened Io
  import opened Foreign
  import opened CommonHeader
  import opened Utils

  /* ---------------------------------------------------------------------- */
  /* `BufRead::lines`                                                        */
  /* ---------------------------------------------------------------------- */

  /** The index of the first newline of `s`, or `|s|` when there is none. */
  function LineEnd(s: seq<byte>): (i: nat)
    ensures i <= |s|
    ensures i < |s| ==> s[i] == NEWLINE
    ensures forall k | 0 <= k < i :: s[k] != NEWLINE
  {
    if |s| == 0 then 0
    else if s[0] == NEWLINE then 0
    else 1 + LineEnd(s[1..])
  }

  /** A line read up to a newline loses one carriage return at its end. */
  function StripCr(l: seq<byte>): (r: seq<byte>)
    ensures |l| > 0 && l[|l| - 1] == CR ==> r + [CR] == l
    ensures !(|l| > 0 && l[|l| - 1] == CR) ==> r == l
  {
    if |l| > 0 && l[|l| - 1] == CR then l[..|l| - 1] else l
  }

  /**
   * The lines `BufRead::lines` yields from `s`: each ends at a newline, which is
   * dropped together with a carriage return just before it; a last line without
   * a newline is kept as it is; nothing is yielded for an empty rest.
   */
  function Lines(s: seq<byte>): (r: seq<seq<byte>>)
    ensures |r| == 0 <==> |s| == 0
    ensures forall k | 0 <= k < |r| :: NEWLINE !in r[k]
    decreases |s|
  {
    if |s| == 0 then []
    else
      var i := LineEnd(s);
      if i == |s| then [s]
      else
        [StripCr(s[..i])] + Lines(s[i + 1..])
  }

  /** A manifest line followed by its newline yields exactly that line. */
  lemma LinesCons(l: seq<byte>, rest: seq<byte>)
    requires LineSafe(l)
    ensures Lines(l + [NEWLINE] + rest) == [l] + Lines(rest)
  {
    var s := l + [NEWLINE] + rest;
    LineEndOf(l, rest);
    assert s[..|l|] == l;
    assert s[|l| + 1..] == rest;
  }

  /** The first newline after a newline-free line is the one that ends it. */
  lemma {:induction false} LineEndOf(l: seq<byte>, rest: seq<byte>)
    requires NEWLINE !in l
    ensures LineEnd(l + [NEWLINE] + rest) == |l|
  {
    if |l| > 0 {
      assert (l + [NEWLINE] + rest)[1..] == l[1..] + [NEWLINE] + rest;
      LineEndOf(l[1..], rest);
    } else {
      assert (l + [NEWLINE] + rest)[0] == NEWLINE;
    }
  }

  /** A name ending in a carriage return does not survive the manifest. */
  lemma CrIsStripped(l: seq<byte>, rest: seq<byte>)
    requires NEWLINE !in l
    ensures Lines(l + [CR, NEWLINE] + rest) == [l] + Lines(rest)
  {
    var s := l + [CR, NEWLINE] + rest;
    assert s == l + [CR] + [NEWLINE] + rest;
    LineEndOf(l + [CR], rest);
    assert s[..|l| + 1] == l + [CR];
    assert s[|l| + 2..] == rest;
  }

  /* ---------------------------------------------------------------------- */
  /* `read_header_from_exe`                                                  */
  /* ---------------------------------------------------------------------- */

  /** The footer: the `u64` in the last 8 bytes of `exe`, read after seeking to `exe_len - 8`. */
  function ReadFooter(exe: seq<byte>): (r: IoResult<u64>)
    requires |exe| < U64_LIMIT
    ensures r.Ok? <==> 8 <= |exe|
    ensures r.Err? ==> r.error == UnexpectedEof
    ensures r.Ok? ==> U64ToLe(r.value) == exe[|exe| - 8..]
  {
    var tail := Tail(exe, Wrap(|exe| - 8));
    if |tail| < 8 then Err(UnexpectedEof)
    else
      LeToU64Inverse(tail[..8]);
      Ok(LeToU64(tail[..8]))
  }

  /**
   * What `read_header_from_exe` yields for the executable `exe`: the header
   * sits `8 + footer` bytes before the end, both subtractions wrapping, and is
   * parsed there.
   */
  function LocateHeader(exe: seq<byte>): (r: IoResult<(Header, u64)>)
    requires |exe| < U64_LIMIT
    ensures |exe| < 8 ==> r == Err(UnexpectedEof)
    ensures r.Ok? ==> r.value.1 + HEADER_LEN <= |exe| && Encode(r.value.0) == exe[r.value.1..r.value.1 + HEADER_LEN]
  {
    match ReadFooter(exe)
    case Err(e) => Err(e)
    case Ok(footer) =>
      var headerPos := Wrap(Wrap(|exe| - 8) - footer);
      match Parse(Tail(exe, headerPos))
      case Err(e) => Err(e)
      case Ok(h) => Ok((h, headerPos))
  }

  /**
   * A footer larger than what precedes it makes the subtraction wrap: the
   * header position then lies past the end of the executable or within its
   * last 7 bytes, so fewer than 8 bytes remain for the identifier and the
   * header read fails.
   */
  lemma FooterUnderflowFails(exe: seq<byte>)
    requires 8 <= |exe| < U64_LIMIT
    requires LeToU64(exe[|exe| - 8..]) > |exe| - 8
    ensures LocateHeader(exe) == Err(UnexpectedEof)
  {
    var footerPos := |exe| - 8;
    assert Wrap(|exe| - 8) == footerPos;
    assert Tail(exe, footerPos)[..8] == exe[footerPos..];
    FooterPresent(exe, exe[footerPos..]);
    var footer := LeToU64(exe[footerPos..]);
    var headerPos := Wrap(footerPos - footer);
    assert headerPos == footerPos - footer + U64_LIMIT > footerPos;
    assert |Tail(exe, headerPos)| < 8;
    LocateAfterFooter(exe, footer, headerPos);
  }

  /** `read_header_from_exe`: seeks to the footer, reads it, seeks to the header and parses it. */
  method ReadHeaderFromExe(exe: Source) returns (r: IoResult<(Header, u64)>)
    requires |exe.data| < U64_LIMIT
    modifies exe
    ensures exe.broken ==> r == Err(Other)
    ensures !exe.broken ==> r == LocateHeader(exe.data)
    ensures r.Ok? ==> exe.pos == r.value.1 + HEADER_LEN
  {
    var exeLen: u64 := |exe.data|;
    exe.Seek(Wrap(exeLen - 8));
    var buf := new byte[8](_ => 0);
    var read := exe.ReadExact(buf);
    if read.Err? {
      if !exe.broken {
        FooterMissing(exe.data);
      }
      return Err(read.error);
    }

    var dataLength := LeToU64(buf[..]);
    FooterPresent(exe.data, buf[..]);
    var headerPos := Wrap(Wrap(exeLen - 8) - dataLength);
    exe.Seek(headerPos);
    var header := ParseStream(exe);
    LocateAfterFooter(exe.data, dataLength, headerPos);
    match header
    case Err(e) =>
      return Err(e);
    case Ok(h) =>
      r := Ok((h, headerPos));
  }

  /** Fewer than 8 bytes at the footer position: no header is found. */
  lemma FooterMissing(exe: seq<byte>)
    requires |exe| < U64_LIMIT && |Tail(exe, Wrap(|exe| - 8))| < 8
    ensures LocateHeader(exe) == Err(UnexpectedEof)
  {
  }

  /** The 8 bytes at the footer position are the footer. */
  lemma FooterPresent(exe: seq<byte>, footer: seq<byte>)
    requires |exe| < U64_LIMIT && 8 <= |Tail(exe, Wrap(|exe| - 8))| && footer == Tail(exe, Wrap(|exe| - 8))[..8]
    ensures ReadFooter(exe) == Ok(LeToU64(footer))
  {
  }

  /** Once the footer is read, the header is whatever parses at the position it gives. */
  lemma LocateAfterFooter(exe: seq<byte>, footer: u64, headerPos: u64)
    requires |exe| < U64_LIMIT && ReadFooter(exe) == Ok(footer) && headerPos == Wrap(Wrap(|exe| - 8) - footer)
    ensures Parse(Tail(exe, headerPos)).Err? ==> LocateHeader(exe) == Err(Parse(Tail(exe, headerPos)).error)
    ensures Parse(Tail(exe, headerPos)).Ok? ==> LocateHeader(exe) == Ok((Parse(Tail(exe, headerPos)).value, headerPos))
  {
  }

  /* ---------------------------------------------------------------------- */
  /* `DecompressWriter`                                                      */
  /* ---------------------------------------------------------------------- */

  /**
   * A write decorator over an output file: counts the bytes the file accepts
   * and feeds exactly those to an MD5 context. `total` and `path` only feed the
   * progress line.
   */
  class DecompressWriter {
    const inner: Sink
    var count: nat
    const total: nat
    const path: seq<byte>
    var hash: Md5Context
    /** The file's contents when it was wrapped. */
    ghost const origin: seq<byte>

    ghost predicate Valid()
      reads this, inner
    {
      origin <= inner.written && count == |inner.written| - |origin| && hash.consumed == inner.written[|origin|..]
    }

    /** The bytes that have reached the file through this wrapper. */
    ghost function Passed(): seq<byte>
      reads this, inner
      requires Valid()
    {
      inner.written[|origin|..]
    }

    /** `DecompressWriter::new`: no bytes counted, an empty digest context. */
    constructor (inner: Sink, total: nat, path: seq<byte>)
      ensures Valid() && this.inner == inner && this.total == total && this.path == path
      ensures count == 0 && hash == NEW_CONTEXT && Passed() == []
    {
      this.inner := inner;
      this.total := total;
      this.path := path;
      count := 0;
      hash := NEW_CONTEXT;
      origin := inner.written;
    }

    /**
     * `Write::write`: delegates, then counts and hashes exactly the accepted
     * prefix; an inner error leaves the count and the digest as they were.
     */
    method Write(buf: seq<byte>) returns (r: IoResult<nat>)
      requires Valid()
      modifies this, inner
      ensures Valid()
      ensures r.Err? ==> r.error == Other && count == old(count) && hash == old(hash)
      ensures r.Ok? <==> !inner.broken && (|buf| == 0 || old(inner.Room()) > 0)
      ensures r.Ok? ==> r.value == Min(|buf|, Min(inner.maxWrite, old(inner.Room())))
      ensures r.Ok? ==> count == old(count) + r.value && hash == old(hash).Consume(buf[..r.value])
      ensures r.Ok? ==> Passed() == old(Passed()) + buf[..r.value]
    {
      var bytes := inner.Write(buf);
      if bytes.Err? {
        return Err(bytes.error);
      }
      hash := hash.Consume(buf[..bytes.value]);
      count := count + bytes.value;
      r := Ok(bytes.value);
    }

    /** `Write::write_all` over this wrapper, as `copy_decode` uses it. */
    method WriteAll(buf: seq<byte>) returns (r: IoResult<()>)
      requires Valid()
      modifies this, inner
      ensures Valid()
      ensures r.Ok? <==> old(inner.WritesAll(buf))
      ensures r.Err? && inner.maxWrite > 0 ==> r.error == Other
      ensures r.Ok? ==> Passed() == old(Passed()) + buf
    {
      var done := 0;
      while done < |buf|
        invariant Valid()
        invariant 0 <= done <= |buf|
        invariant Passed() == old(Passed()) + buf[..done]
        invariant done > 0 ==> !inner.broken && inner.maxWrite > 0 && |inner.written| <= inner.capacity
        decreases |buf| - done
      {
        var n := Write(buf[done..]);
        if n.Err? {
          return Err(n.error);
        }
        if n.value == 0 {
          return Err(WriteZero);
        }
        assert buf[..done] + buf[done..][..n.value] == buf[..done + n.value];
        done := done + n.value;
      }
      assert buf[..done] == buf;
      r := Ok(());
    }

    /** `Write::flush`: delegates. */
    method Flush() returns (r: IoResult<()>)
      ensures r.Ok? <==> !inner.broken
    {
      r := inner.Flush();
    }

    /** `md5_digest`: the MD5 of every byte written through this wrapper, computed without changing it. */
    function Md5Digest(md5: Md5): (d: Digest)
      reads this, inner
      requires Valid()
      ensures d == md5(Passed())
    {
      hash.Compute(md5)
    }
  }

  /**
   * `zstd::stream::copy_decode` on `reader.take(n)`: reads the block to its end,
   * decodes it and writes the result. An undecodable block is an error of kind
   * `Other`, as the zstd crate reports it.
   */
  method CopyDecode(data: Source, n: u64, writer: DecompressWriter, codec: Codec) returns (r: IoResult<()>)
    requires writer.Valid()
    modifies data, writer, writer.inner
    ensures writer.Valid()
    ensures data.broken ==> r == Err(Other)
    ensures !data.broken ==> data.pos == old(data.pos) + |Take(Tail(data.data, old(data.pos)), n)|
    ensures r.Ok? <==> !data.broken && codec.decode(Take(Tail(data.data, old(data.pos)), n)).Some?
                       && old(writer.inner.WritesAll(codec.decode(Take(Tail(data.data, data.pos), n)).value))
    ensures r.Err? && writer.inner.maxWrite > 0 ==> r.error == Other
    ensures r.Ok? ==> writer.Passed() == old(writer.Passed()) + codec.decode(Take(Tail(data.data, old(data.pos)), n)).value
  {
    var block := data.ReadTake(n);
    match block
    case Err(e) =>
      return Err(e);
    case Ok(compressed) =>
      match codec.decode(compressed)
      case None =>
        return Err(Other);
      case Some(decoded) =>
        r := writer.WriteAll(decoded);
  }

  /* ---------------------------------------------------------------------- */
  /* `main_inner`                                                            */
  /* ---------------------------------------------------------------------- */

  /** One extracted entry: the path it was written to, what was written, whether the digest matched. */
  datatype Entry = Entry(path: seq<byte>, contents: seq<byte>, ok: bool)

  /** The entries extracted, in order, and how `main_inner` ended. */
  datatype Extraction = Extraction(entries: seq<Entry>, result: IoResult<()>)

  /** The positions of the size, digest and data cursors in the executable. */
  datatype Cursors = Cursors(sizes: nat, hashes: nat, data: nat)

  /**
   * One turn of the entry loop for manifest line `line`: 16 bytes of sizes
   * (original, then compressed), 16 bytes of digest, then `compressed_size`
   * bytes of data, decoded into a new file. The entry
   * is "ok" when the digest of what was written is the stored one; a mismatch
   * is reported, not an error.
   */
  function Step(exe: seq<byte>, line: seq<byte>, at: Cursors, codec: Codec, md5: Md5): (r: IoResult<(Entry, Cursors)>)
    ensures r.Ok? ==> r.value.0.path == line
    ensures r.Ok? ==> r.value.1.sizes == at.sizes + 16 && r.value.1.hashes == at.hashes + 16 && at.data <= r.value.1.data
  {
    var sizes := Tail(exe, at.sizes);
    var hashes := Tail(exe, at.hashes);
    if |sizes| < 16 || |hashes| < 16 then Err(UnexpectedEof)
    else
      var block := Take(Tail(exe, at.data), LeToU64(sizes[8..16]));
      match Unpack(block, codec)
      case Err(e) => Err(e)
      case Ok(decoded) =>
        Ok((Entry(line, decoded, md5(decoded) == hashes[..16]), Cursors(at.sizes + 16, at.hashes + 16, at.data + |block|)))
  }

  /**
   * What a turn reads: it fails exactly when the size or digest cursor has
   * fewer than 16 bytes left or the block of `compressed_size` bytes at the
   * data cursor does not decode; otherwise the entry holds that block decoded
   * and the data cursor moves past the block.
   */
  lemma StepReads(exe: seq<byte>, line: seq<byte>, at: Cursors, codec: Codec, md5: Md5)
    ensures Step(exe, line, at, codec, md5).Err? <==>
              |Tail(exe, at.sizes)| < 16 || |Tail(exe, at.hashes)| < 16
              || Unpack(Take(Tail(exe, at.data), LeToU64(Tail(exe, at.sizes)[8..16])), codec).Err?
    ensures Step(exe, line, at, codec, md5).Ok? ==>
              var block := Take(Tail(exe, at.data), LeToU64(Tail(exe, at.sizes)[8..16]));
              && Step(exe, line, at, codec, md5).value.1.data == at.data + |block|
              && Unpack(block, codec) == Ok(Step(exe, line, at, codec, md5).value.0.contents)
    ensures Step(exe, line, at, codec, md5).Ok? ==>
              var e := Step(exe, line, at, codec, md5).value.0;
              |Tail(exe, at.hashes)| >= 16 && (e.ok <==> md5(e.contents) == Tail(exe, at.hashes)[..16])
  {
  }

  /**
   * What decoding `block` into a new file gives: the file's contents, or the
   * error of an undecodable block or of a stream longer than any file can be.
   */
  function Unpack(block: seq<byte>, codec: Codec): (r: IoResult<seq<byte>>)
    ensures r.Ok? <==> codec.decode(block).Some? && |codec.decode(block).value| <= MAX_FILE_LEN
    ensures r.Ok? ==> r.value == codec.decode(block).value
    ensures r.Err? ==> r.error == Other
  {
    match codec.decode(block)
    case None => Err(Other)
    case Some(decoded) => if |decoded| <= MAX_FILE_LEN then Ok(decoded) else Err(Other)
  }

  /** A turn of the entry loop: from a manifest line and the cursors, the entry and the cursors after it. */
  type Turn = (seq<byte>, Cursors) -> IoResult<(Entry, Cursors)>

  /** The turn `main_inner` takes on the executable `exe`. */
  function TurnOn(exe: seq<byte>, codec: Codec, md5: Md5): Turn
  {
    (line, at) => Step(exe, line, at, codec, md5)
  }

  /** A turn that succeeds reports its entry under the line it was given. */
  ghost predicate KeepsPaths(turn: Turn)
  {
    forall line, at :: turn(line, at).Ok? ==> turn(line, at).value.0.path == line
  }

  /** Every turn `main_inner` takes reports its entry under its manifest line. */
  lemma TurnKeepsPaths(exe: seq<byte>, codec: Codec, md5: Md5)
    ensures KeepsPaths(TurnOn(exe, codec, md5))
  {
    forall line, at | TurnOn(exe, codec, md5)(line, at).Ok?
      ensures TurnOn(exe, codec, md5)(line, at).value.0.path == line
    {
      assert TurnOn(exe, codec, md5)(line, at) == Step(exe, line, at, codec, md5);
    }
  }

  /**
   * The entry loop over the remaining manifest lines, after the entries `done`:
   * it stops at the first turn that fails and otherwise runs until the lines
   * run out, whatever is left in the other sections.
   */
  function Walk(turn: Turn, lines: seq<seq<byte>>, at: Cursors, done: seq<Entry>): (r: Extraction)
    ensures done <= r.entries && |r.entries| <= |done| + |lines|
    ensures r.result.Ok? <==> |r.entries| == |done| + |lines|
    decreases |lines|
  {
    if |lines| == 0 then Extraction(done, Ok(()))
    else
      match turn(lines[0], at)
      case Err(e) => Extraction(done, Err(e))
      case Ok(next) => Walk(turn, lines[1..], next.1, done + [next.0])
  }

  /** A loop that reports a new entry took a turn: `next` is that turn's entry and cursors, the rest of the loop comes from it. */
  lemma WalkMoves(turn: Turn, lines: seq<seq<byte>>, at: Cursors, done: seq<Entry>) returns (next: (Entry, Cursors))
    requires |done| < |Walk(turn, lines, at, done).entries|
    ensures |lines| > 0 && turn(lines[0], at) == Ok(next)
    ensures Walk(turn, lines, at, done) == Walk(turn, lines[1..], next.1, done + [next.0])
  {
    next := turn(lines[0], at).value;
  }

  /** Each entry the loop reports carries the manifest line it was extracted for. */
  lemma {:induction false} WalkPaths(turn: Turn, lines: seq<seq<byte>>, at: Cursors, done: seq<Entry>, k: nat)
    requires KeepsPaths(turn)
    requires |done| <= k < |Walk(turn, lines, at, done).entries|
    ensures Walk(turn, lines, at, done).entries[k].path == lines[k - |done|]
    decreases |lines|
  {
    var next := WalkMoves(turn, lines, at, done);
    var done' := done + [next.0];
    if k == |done| {
      assert done'[k].path == lines[0];
    } else {
      WalkPaths(turn, lines[1..], next.1, done', k);
      assert lines[1..][k - |done'|] == lines[k - |done|];
    }
  }

  /**
   * The cursors `main_inner` seeks to for a header at `headerPos`. When the
   * sections end within a `u64`, each section starts where the previous one
   * ends, the manifest right after the header.
   */
  function SectionCursors(h: Header, headerPos: u64): (c: Cursors)
    ensures headerPos + HEADER_LEN + h.pathsLen + h.sizesLen + h.hashesLen < U64_LIMIT ==>
              && c.sizes == headerPos + HEADER_LEN + h.pathsLen
              && c.hashes == c.sizes + h.sizesLen
              && c.data == c.hashes + h.hashesLen
  {
    var pathsPos := Wrap(headerPos + HEADER_LEN);
    var sizesPos := Wrap(pathsPos + h.pathsLen);
    var hashesPos := Wrap(sizesPos + h.sizesLen);
    Cursors(sizesPos, hashesPos, Wrap(hashesPos + h.hashesLen))
  }

  /** The manifest of a container whose header `located.0` sits at `located.1`. */
  function Manifest(exe: seq<byte>, located: (Header, u64)): seq<byte>
  {
    Take(Tail(exe, Wrap(located.1 + HEADER_LEN)), located.0.pathsLen)
  }

  /**
   * What `main_inner` does with the executable `exe`. Once the header is found,
   * the entries are reported under the manifest's lines, in order, and the
   * extraction succeeds exactly when every line has its entry.
   */
  function Extract(exe: seq<byte>, codec: Codec, md5: Md5): (r: Extraction)
    requires |exe| < U64_LIMIT
    ensures LocateHeader(exe).Ok? ==> |r.entries| <= |Lines(Manifest(exe, LocateHeader(exe).value))|
    ensures LocateHeader(exe).Ok? ==> (r.result.Ok? <==> |r.entries| == |Lines(Manifest(exe, LocateHeader(exe).value))|)
    ensures LocateHeader(exe).Ok? ==>
              forall k | 0 <= k < |r.entries| :: r.entries[k].path == Lines(Manifest(exe, LocateHeader(exe).value))[k]
  {
    match LocateHeader(exe)
    case Err(e) => Extraction([], Err(e))
    case Ok(located) =>
      var lines := Lines(Manifest(exe, located));
      var at := SectionCursors(located.0, located.1);
      var r := Walk(TurnOn(exe, codec, md5), lines, at, []);
      assert forall k | 0 <= k < |r.entries| :: r.entries[k].path == lines[k] by {
        TurnKeepsPaths(exe, codec, md5);
        forall k | 0 <= k < |r.entries| {
          WalkPaths(TurnOn(exe, codec, md5), lines, at, [], k);
        }
      }
      r
  }

  /** A missing or damaged header ends the extraction before any entry. */
  lemma HeaderFailureExtractsNothing(exe: seq<byte>, codec: Codec, md5: Md5)
    requires |exe| < U64_LIMIT && LocateHeader(exe).Err?
    ensures Extract(exe, codec, md5) == Extraction([], Err(LocateHeader(exe).error))
  {
  }

  /** The two `read_exact` calls on the size cursor: the original size, then the compressed one. */
  method ReadSizes(sizesReader: Source) returns (r: IoResult<(u64, u64)>)
    requires !sizesReader.broken
    modifies sizesReader
    ensures r.Ok? <==> 16 <= |Tail(sizesReader.data, old(sizesReader.pos))|
    ensures r.Err? ==> r.error == UnexpectedEof
    ensures r.Ok? ==> sizesReader.pos == old(sizesReader.pos) + 16
    ensures r.Ok? ==> r.value.0 == LeToU64(Tail(sizesReader.data, old(sizesReader.pos))[..8])
    ensures r.Ok? ==> r.value.1 == LeToU64(Tail(sizesReader.data, old(sizesReader.pos))[8..16])
  {
    ghost var s := Tail(sizesReader.data, sizesReader.pos);
    var sizeBuffer := new byte[8](_ => 0);
    var read := sizesReader.ReadExact(sizeBuffer);
    if read.Err? {
      return Err(read.error);
    }
    var originalSize := LeToU64(sizeBuffer[..]);
    TailTail(sizesReader.data, old(sizesReader.pos), 8);
    read := sizesReader.ReadExact(sizeBuffer);
    if read.Err? {
      return Err(read.error);
    }
    assert sizeBuffer[..] == s[8..16];
    r := Ok((originalSize, LeToU64(sizeBuffer[..])));
  }

  /**
   * The body of the entry loop: creates the file, reads the two sizes and the
   * digest, decodes the block into the file and compares the digests.
   */
  method ExtractEntry(line: seq<byte>, sizesReader: Source, hashesReader: Source, compressedReader: Source,
                      codec: Codec, md5: Md5)
    returns (r: IoResult<Entry>)
    requires !sizesReader.broken && !hashesReader.broken && !compressedReader.broken
    requires hashesReader.data == sizesReader.data && compressedReader.data == sizesReader.data
    requires sizesReader != hashesReader && sizesReader != compressedReader && hashesReader != compressedReader
    modifies sizesReader, hashesReader, compressedReader
    ensures r.Err? ==> Step(sizesReader.data, line, Cursors(old(sizesReader.pos), old(hashesReader.pos), old(compressedReader.pos)), codec, md5)
                       == Err(r.error)
    ensures r.Ok? ==> Step(sizesReader.data, line, Cursors(old(sizesReader.pos), old(hashesReader.pos), old(compressedReader.pos)), codec, md5)
                       == Ok((r.value, Cursors(sizesReader.pos, hashesReader.pos, compressedReader.pos)))
  {
    ghost var exe := sizesReader.data;
    ghost var at := Cursors(sizesReader.pos, hashesReader.pos, compressedReader.pos);

    var sizes := ReadSizes(sizesReader);
    if sizes.Err? {
      return Err(sizes.error);
    }
    var originalSize := sizes.value.0;
    var compressedSize := sizes.value.1;

    var hashBuffer := new byte[16](_ => 0);
    var read := hashesReader.ReadExact(hashBuffer);
    if read.Err? {
      return Err(read.error);
    }
    assert hashBuffer[..] == Tail(exe, at.hashes)[..16];

    var decoded := DecodeToFile(line, compressedReader, originalSize, compressedSize, codec, md5);
    match decoded
    case Err(e) =>
      return Err(e);
    case Ok(written) =>
      r := Ok(Entry(line, written.0, written.1 == hashBuffer[..]));
  }

  /**
   * Creates the output file for `line`, decodes the next `compressedSize`
   * bytes of the data cursor into it through a `DecompressWriter`, and returns
   * the file's contents with their digest. The file takes up to
   * `MAX_FILE_LEN` bytes: the disk never fills.
   */
  method DecodeToFile(line: seq<byte>, compressedReader: Source, originalSize: u64, compressedSize: u64,
                      codec: Codec, md5: Md5)
    returns (r: IoResult<(seq<byte>, Digest)>)
    requires !compressedReader.broken
    modifies compressedReader
    ensures compressedReader.pos == old(compressedReader.pos) + |Take(Tail(compressedReader.data, old(compressedReader.pos)), compressedSize)|
    ensures r.Err? ==> Unpack(Take(Tail(compressedReader.data, old(compressedReader.pos)), compressedSize), codec) == Err(r.error)
    ensures r.Ok? ==> Unpack(Take(Tail(compressedReader.data, old(compressedReader.pos)), compressedSize), codec) == Ok(r.value.0)
    ensures r.Ok? ==> r.value.1 == md5(r.value.0)
  {
    var file := new Sink([], BUF_SIZE, false, MAX_FILE_LEN);
    var fileWriter := new DecompressWriter(file, originalSize, line);
    var decoded := CopyDecode(compressedReader, compressedSize, fileWriter, codec);
    if decoded.Err? {
      return Err(decoded.error);
    }
    var writtenHash := fileWriter.Md5Digest(md5);
    r := Ok((file.written, writtenHash));
  }

  /**
   * `main_inner` on the executable `exe`: reads the header and the manifest,
   * then runs the entry loop from the section positions.
   */
  method MainInner(exe: FileBytes, codec: Codec, md5: Md5) returns (r: Extraction)
    ensures r == Extract(exe, codec, md5)
  {
    var thisExe := new Source(exe, false);
    var located := ReadHeaderFromExe(thisExe);
    match located
    case Err(e) =>
      return Extraction([], Err(e));
    case Ok(found) =>
      var header := found.0;
      var headerPos := found.1;

      var pathsPos := Wrap(headerPos + HEADER_LEN);
      thisExe.Seek(pathsPos);
      var paths := thisExe.ReadTake(header.pathsLen);
      match paths
      case Err(e) =>
        return Extraction([], Err(e));
      case Ok(manifest) =>
        var sizesPos := Wrap(pathsPos + header.pathsLen);
        var hashesPos := Wrap(sizesPos + header.sizesLen);
        var compressedPos := Wrap(hashesPos + header.hashesLen);
        var at := Cursors(sizesPos, hashesPos, compressedPos);
        assert at == SectionCursors(header, headerPos);
        assert manifest == Manifest(exe, found);
        assert Extract(exe, codec, md5) == Walk(TurnOn(exe, codec, md5), Lines(manifest), at, []);
        r := ExtractLines(exe, Lines(manifest), at, codec, md5);
  }

  /**
   * The entry loop of `main_inner`: opens the executable three more times, one
   * cursor per section, and extracts one entry per line.
   */
  method ExtractLines(exe: seq<byte>, lines: seq<seq<byte>>, start: Cursors, codec: Codec, md5: Md5)
    returns (r: Extraction)
    ensures r == Walk(TurnOn(exe, codec, md5), lines, start, [])
  {
    var sizesReader := new Source(exe, false);
    sizesReader.Seek(start.sizes);
    var hashesReader := new Source(exe, false);
    hashesReader.Seek(start.hashes);
    var compressedReader := new Source(exe, false);
    compressedReader.Seek(start.data);

    var entries: seq<Entry> := [];
    var i := 0;
    while i < |lines|
      invariant 0 <= i <= |lines|
      invariant Walk(TurnOn(exe, codec, md5), lines[i..], Cursors(sizesReader.pos, hashesReader.pos, compressedReader.pos), entries)
                == Walk(TurnOn(exe, codec, md5), lines, start, [])
      decreases |lines| - i
    {
      assert lines[i..][1..] == lines[i + 1..];
      var entry := ExtractEntry(lines[i], sizesReader, hashesReader, compressedReader, codec, md5);
      match entry {
        case Err(e) =>
          return Extraction(entries, Err(e));
        case Ok(extracted) =>
          entries := entries + [extracted];
      }
      i := i + 1;
    }
    assert |lines[i..]| == 0;
    r := Extraction(entries, Ok(()));
  }
}
