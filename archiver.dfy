/**
 * The container the archiver appends to a copy of the unarchiver executable:
 *
 *   header | manifest | size pairs | digests | compressed data | footer
 *
 * The manifest holds each record's path followed by a newline, the size table
 * each record's original and compressed size (little-endian `u64`), the digest
 * table each record's 16-byte MD5, the data section each record's compressed
 * bytes, and the footer the number of bytes from the start of the header to the
 * end of the data section. Every section lists the records in the same order.
 */
module Archiver {
  import opened Bytes
  import opened Io
  import opened Foreign
  import opened CommonHeader
  import opened Utils
  import opened Compress

  datatype Section = Paths | Sizes | Hashes | Data

  /** What one record contributes to a section. */
  function Piece(c: CompressContext, s: Section): seq<byte>
  {
    match s
    case Paths => c.pathStr + [NEWLINE]
    case Sizes => U64ToLe(c.originalSize) + U64ToLe(c.compressedSize)
    case Hashes => c.hash
    case Data => c.file
  }

  /** A section: the pieces of all records, in record order. */
  function Table(cs: seq<CompressContext>, s: Section): seq<byte>
  {
    if |cs| == 0 then [] else Piece(cs[0], s) + Table(cs[1..], s)
  }

  /** The section of two runs of records is the two sections one after the other. */
  lemma {:induction false} TableAppend(a: seq<CompressContext>, b: seq<CompressContext>, s: Section)
    ensures Table(a + b, s) == Table(a, s) + Table(b, s)
  {
    var ab := a + b;
    if |a| == 0 {
      assert ab == b;
    } else {
      assert ab[0] == a[0];
      assert ab[1..] == a[1..] + b;
      calc {
        Table(ab, s);
        Piece(a[0], s) + Table(a[1..] + b, s);
        { TableAppend(a[1..], b, s); }
        Piece(a[0], s) + (Table(a[1..], s) + Table(b, s));
        { AppendAssoc(Piece(a[0], s), Table(a[1..], s), Table(b, s)); }
        Piece(a[0], s) + Table(a[1..], s) + Table(b, s);
        Table(a, s) + Table(b, s);
      }
    }
  }

  /** Appending a record appends its piece. */
  lemma TableSnoc(cs: seq<CompressContext>, c: CompressContext, s: Section)
    ensures Table(cs + [c], s) == Table(cs, s) + Piece(c, s)
  {
    TableAppend(cs, [c], s);
    assert Table([c], s) == Piece(c, s) + Table([], s);
  }

  /** The total length of the records' path strings: the manifest less one newline per record. */
  function SumPathLens(cs: seq<CompressContext>): (n: nat)
    ensures n + |cs| == |Table(cs, Paths)|
  {
    if |cs| == 0 then 0 else |cs[0].pathStr| + SumPathLens(cs[1..])
  }

  /** The sum of the records' `compressed_size`: the length of the data section when the sizes are the files' lengths. */
  function SumCompressed(cs: seq<CompressContext>): (n: nat)
    ensures Consistent(cs) ==> n == |Table(cs, Data)|
  {
    if |cs| == 0 then 0 else cs[0].compressedSize + SumCompressed(cs[1..])
  }

  /** `paths_len`: every path string plus the newline `writeln!` adds to each. */
  function PathsLen(cs: seq<CompressContext>): (n: nat)
    ensures n == |Table(cs, Paths)| && |cs| <= n
  {
    SumPathLens(cs) + |cs|
  }

  /** Each record's `compressed_size` is the length of its temporary file, as `compress_to_temp` makes it. */
  predicate Consistent(cs: seq<CompressContext>)
  {
    forall k | 0 <= k < |cs| :: cs[k].compressedSize == |cs[k].file|
  }

  /** Each section is as long as the header says. */
  lemma {:induction false} TableLengths(cs: seq<CompressContext>)
    ensures |Table(cs, Paths)| == PathsLen(cs)
    ensures |Table(cs, Sizes)| == 16 * |cs|
    ensures |Table(cs, Hashes)| == 16 * |cs|
    ensures Consistent(cs) ==> |Table(cs, Data)| == SumCompressed(cs)
  {
    if |cs| > 0 {
      TableLengths(cs[1..]);
      assert Consistent(cs) ==> Consistent(cs[1..]) by {
        if Consistent(cs) {
          forall k | 0 <= k < |cs[1..]|
            ensures cs[1..][k].compressedSize == |cs[1..][k].file|
          {
            assert cs[1..][k] == cs[k + 1];
          }
        }
      }
    }
  }

  /** The header and data length fits a `u64`: the archiver's additions do not overflow. */
  predicate ContainerFits(cs: seq<CompressContext>)
  {
    HEADER_LEN + PathsLen(cs) + 16 * |cs| + 16 * |cs| + SumCompressed(cs) < U64_LIMIT
  }

  /** The header the archiver writes for `cs`: it gives the length of each section written after it. */
  function HeaderOf(cs: seq<CompressContext>): (h: Header)
    requires ContainerFits(cs)
    ensures h.pathsLen == |Table(cs, Paths)| && h.sizesLen == |Table(cs, Sizes)| && h.hashesLen == |Table(cs, Hashes)|
    ensures Consistent(cs) ==> h.compressedDataLen == |Table(cs, Data)|
  {
    TableLengths(cs);
    Header(PathsLen(cs), 16 * |cs|, 16 * |cs|, SumCompressed(cs))
  }

  /** Everything the archiver appends for `cs`: it opens with the encoded header and closes with the footer. */
  function ContainerBytes(cs: seq<CompressContext>): (r: seq<byte>)
    requires ContainerFits(cs)
    ensures HEADER_LEN + 8 <= |r|
    ensures r[..HEADER_LEN] == Encode(HeaderOf(cs))
    ensures r[|r| - 8..] == U64ToLe(HeaderAndDataLen(HeaderOf(cs)))
  {
    var h := HeaderOf(cs);
    Encode(h) + Table(cs, Paths) + Table(cs, Sizes) + Table(cs, Hashes) + Table(cs, Data)
      + U64ToLe(HeaderAndDataLen(h))
  }

  /** The footer counts exactly the bytes appended before it. */
  lemma FooterCountsContainer(cs: seq<CompressContext>)
    requires ContainerFits(cs) && Consistent(cs)
    ensures HeaderAndDataLen(HeaderOf(cs)) + 8 == |ContainerBytes(cs)|
  {
    TableLengths(cs);
  }

  /** Where record `k`'s piece starts in a section. */
  function Offset(cs: seq<CompressContext>, k: nat, s: Section): nat
    requires k <= |cs|
  {
    |Table(cs[..k], s)|
  }

  /**
   * The sections agree on record order: in every section, the piece at record
   * `k`'s offset is record `k`'s piece.
   */
  lemma SectionsAligned(cs: seq<CompressContext>, k: nat, s: Section)
    requires k < |cs|
    ensures Offset(cs, k, s) + |Piece(cs[k], s)| <= |Table(cs, s)|
    ensures Table(cs, s)[Offset(cs, k, s)..Offset(cs, k, s) + |Piece(cs[k], s)|] == Piece(cs[k], s)
  {
    var front, back := cs[..k + 1], cs[k + 1..];
    assert front + back == cs;
    TableAppend(front, back, s);
    TablePrefix(cs, k, s);
    Middle(Table(cs[..k], s), Piece(cs[k], s), Table(back, s));
  }

  /** The middle one of three concatenated byte strings sits right after the first. */
  lemma Middle(a: seq<byte>, b: seq<byte>, c: seq<byte>)
    ensures (a + b + c)[|a|..|a| + |b|] == b
  {
  }

  /** Appending `p` to `t` inside a sink's contents. */
  lemma AppendAssoc(w: seq<byte>, t: seq<byte>, p: seq<byte>)
    ensures w + (t + p) == w + t + p
  {
  }

  /** The piece of record `i` follows the pieces before it, and all of them fit in the whole section. */
  lemma TablePrefix(cs: seq<CompressContext>, i: nat, s: Section)
    requires i < |cs|
    ensures Table(cs[..i + 1], s) == Table(cs[..i], s) + Piece(cs[i], s)
    ensures |Table(cs[..i + 1], s)| <= |Table(cs, s)|
  {
    assert cs[..i + 1] == cs[..i] + [cs[i]];
    TableSnoc(cs[..i], cs[i], s);
    assert cs == cs[..i + 1] + cs[i + 1..];
    TableAppend(cs[..i + 1], cs[i + 1..], s);
  }

  /**
   * `main` from the computation of the section lengths to the final flush: opens
   * the copied executable for appending and writes the header, the manifest, the
   * size pairs, the digests, every temporary file and the footer. The output
   * file is described by whether opening it fails, whether it is broken, how
   * much one write accepts and how large it can grow. `exe` is the file
   * afterwards; an error ends the write where it happened.
   */
  method WriteContainer(image: seq<byte>, openFails: bool, outBroken: bool, outMaxWrite: nat, outCapacity: nat,
                        compressedData: seq<CompressContext>)
    returns (r: IoResult<()>, exe: seq<byte>)
    requires ContainerFits(compressedData)
    ensures r.Ok? <==> !openFails && !outBroken && outMaxWrite > 0 && |image| + |ContainerBytes(compressedData)| <= outCapacity
    ensures r.Ok? ==> exe == image + ContainerBytes(compressedData)
    ensures image <= exe
  {
    var cs := compressedData;
    var header := Header(PathsLen(cs), |cs| * 8 * 2, |cs| * 16, SumCompressed(cs));
    if openFails {
      return Err(Other), image;
    }
    var out := new Sink(image, outMaxWrite, outBroken, outCapacity);
    assert header == HeaderOf(cs);
    ghost var body := Table(cs, Paths) + Table(cs, Sizes) + Table(cs, Hashes) + Table(cs, Data);
    assert |ContainerBytes(cs)| == 40 + |body| + 8;

    var bytes := ToBytes(header);
    var w := out.WriteAll(bytes);
    if w.Err? {
      return w, out.written;
    }
    w := WriteBody(out, cs);
    if w.Err? {
      return w, out.written;
    }

    var headerAndDataLength := HeaderAndDataLen(header);
    w := out.WriteAll(U64ToLe(headerAndDataLength));
    if w.Err? {
      return w, out.written;
    }
    exe := out.written;
    var flushed := out.Flush();
    if flushed.Err? {
      return flushed, exe;
    }
    assert out.written == image + ContainerBytes(cs) by {
      AppendContainer(image, Encode(header), Table(cs, Paths), Table(cs, Sizes), Table(cs, Hashes), Table(cs, Data),
        U64ToLe(headerAndDataLength));
    }
    r, exe := Ok(()), out.written;
  }

  /**
   * Steps 2 to 5: the manifest, the size pairs, the digests and the temporary
   * files, each section listing the records in record order.
   */
  method WriteBody(out: Sink, cs: seq<CompressContext>) returns (r: IoResult<()>)
    modifies out
    ensures r.Ok? <==> old(out.Accepts(|out.written|, |Table(cs, Paths) + Table(cs, Sizes) + Table(cs, Hashes) + Table(cs, Data)|))
    ensures r.Ok? ==> out.written == old(out.written) + (Table(cs, Paths) + Table(cs, Sizes) + Table(cs, Hashes) + Table(cs, Data))
    ensures old(out.written) <= out.written
  {
    ghost var body := Table(cs, Paths) + Table(cs, Sizes) + Table(cs, Hashes) + Table(cs, Data);
    assert |cs| > 0 ==> |Table(cs, Paths)| > 0;
    r := WriteSection(out, cs, Paths);
    if r.Err? {
      return;
    }
    r := WriteSection(out, cs, Sizes);
    if r.Err? {
      return;
    }
    r := WriteSection(out, cs, Hashes);
    if r.Err? {
      return;
    }
    r := WriteFiles(out, cs);
    if r.Err? {
      return;
    }
    AppendFour(old(out.written), Table(cs, Paths), Table(cs, Sizes), Table(cs, Hashes), Table(cs, Data));
  }

  /** Appending four sections one by one appends their concatenation. */
  lemma AppendFour(x: seq<byte>, a: seq<byte>, b: seq<byte>, c: seq<byte>, d: seq<byte>)
    ensures x + a + b + c + d == x + (a + b + c + d)
  {
  }

  /** The header, the body written as one piece and the footer, appended one after the other. */
  lemma AppendContainer(x: seq<byte>, e: seq<byte>, a: seq<byte>, b: seq<byte>, c: seq<byte>, d: seq<byte>, f: seq<byte>)
    ensures x + e + (a + b + c + d) + f == x + (e + a + b + c + d + f)
  {
  }

  /**
   * Steps 2 to 4: the manifest, the size pairs or the digests, one record after
   * the other in record order.
   */
  method WriteSection(out: Sink, cs: seq<CompressContext>, s: Section) returns (r: IoResult<()>)
    requires s != Data
    modifies out
    ensures r.Ok? <==> old(out.Accepts(|out.written|, |Table(cs, s)|))
    ensures r.Ok? ==> out.written == old(out.written) + Table(cs, s)
    ensures old(out.written) <= out.written
  {
    for i := 0 to |cs|
      invariant out.written == old(out.written) + Table(cs[..i], s)
      invariant i > 0 ==> !out.broken && out.maxWrite > 0 && |out.written| <= out.capacity
    {
      TablePrefix(cs, i, s);
      AppendAssoc(old(out.written), Table(cs[..i], s), Piece(cs[i], s));
      var w := WritePiece(out, cs[i], s);
      if w.Err? {
        return w;
      }
    }
    assert cs[..|cs|] == cs;
    r := Ok(());
  }

  /**
   * One record's share of a section: `writeln!` of its path string, the two
   * `write_all` calls of its sizes, or the `write_all` of its digest.
   */
  method WritePiece(out: Sink, c: CompressContext, s: Section) returns (r: IoResult<()>)
    requires s != Data
    modifies out
    ensures r.Ok? <==> old(out.Accepts(|out.written|, |Piece(c, s)|))
    ensures r.Ok? ==> out.written == old(out.written) + Piece(c, s)
    ensures old(out.written) <= out.written
  {
    match s
    case Paths =>
      var w := out.WriteAll(c.pathStr);
      if w.Err? {
        return w;
      }
      r := out.WriteAll([NEWLINE]);
    case Sizes =>
      var w := out.WriteAll(U64ToLe(c.originalSize));
      if w.Err? {
        return w;
      }
      r := out.WriteAll(U64ToLe(c.compressedSize));
    case Hashes =>
      r := out.WriteAll(c.hash);
  }

  /**
   * Step 5: each temporary file, rewound and copied with `buf_copy`, in record
   * order. Every copy ends with a flush, so a broken output fails here as soon as
   * there is a record, even when all files are empty. Rewinding and reading a
   * temporary file never fail here: only the output can fail.
   */
  method WriteFiles(out: Sink, cs: seq<CompressContext>) returns (r: IoResult<()>)
    modifies out
    ensures r.Ok? <==> |cs| == 0 || (!out.broken && old(out.Accepts(|out.written|, |Table(cs, Data)|)))
    ensures r.Ok? ==> out.written == old(out.written) + Table(cs, Data)
    ensures old(out.written) <= out.written
  {
    for i := 0 to |cs|
      invariant out.written == old(out.written) + Table(cs[..i], Data)
      invariant i > 0 ==> !out.broken
      invariant |Table(cs[..i], Data)| > 0 ==> out.maxWrite > 0 && |out.written| <= out.capacity
    {
      TablePrefix(cs, i, Data);
      AppendAssoc(old(out.written), Table(cs[..i], Data), Piece(cs[i], Data));
      var file := new Source(cs[i].file, false);
      file.Seek(0);
      assert Tail(file.data, file.pos) == cs[i].file;
      ghost var before := out.written;
      var copied := BufCopy(file, out);
      if copied.Err? {
        assert |Table(cs[..i], Data)| + |cs[i].file| <= |Table(cs, Data)|;
        return copied;
      }
      assert out.written == before + cs[i].file;
    }
    assert cs[..|cs|] == cs;
    r := Ok(());
  }
}
