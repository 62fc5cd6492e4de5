/**
 * What the archiver appends, the unarchiver reads back: the container written
 * for a list of records is located from its footer, its header parses to the
 * header that was written, its manifest splits into the records' path strings,
 * and the lockstep walk decodes every record in the order it was written.
 */
module RoundTrip {
  import opened Bytes
  import opened Io
  import opened Foreign
  import opened CommonHeader
  import opened Compress
  import opened Archiver
  import opened Unarchiver

  /** The records' path strings, in record order. */
  function PathStrs(cs: seq<CompressContext>): (r: seq<seq<byte>>)
    ensures |r| == |cs|
  {
    if |cs| == 0 then [] else [cs[0].pathStr] + PathStrs(cs[1..])
  }

  /** Every path string is a single manifest line. */
  predicate AllLineSafe(cs: seq<CompressContext>)
  {
    forall k | 0 <= k < |cs| :: LineSafe(cs[k].pathStr)
  }

  /** Every record's data decodes. */
  predicate AllUnpack(cs: seq<CompressContext>, codec: Codec)
  {
    forall k | 0 <= k < |cs| :: Unpack(cs[k].file, codec).Ok?
  }

  /** The entry the unarchiver reports for record `c`: its path, its decoded data and the digest check. */
  function Recover(c: CompressContext, codec: Codec, md5: Md5): (e: Entry)
    requires Unpack(c.file, codec).Ok?
    ensures e.path == c.pathStr && e.contents == codec.decode(c.file).value
    ensures e.ok <==> md5(e.contents) == c.hash
  {
    var decoded := Unpack(c.file, codec).value;
    Entry(c.pathStr, decoded, md5(decoded) == c.hash)
  }

  /** The entries the unarchiver reports for `cs`, one per record, in order. */
  function Recovered(cs: seq<CompressContext>, codec: Codec, md5: Md5): (r: seq<Entry>)
    requires AllUnpack(cs, codec)
    ensures |r| == |cs|
  {
    if |cs| == 0 then [] else [Recover(cs[0], codec, md5)] + Recovered(cs[1..], codec, md5)
  }

  /** The manifest of safe path strings splits back into exactly those strings. */
  lemma {:induction false} ManifestLines(cs: seq<CompressContext>)
    requires AllLineSafe(cs)
    ensures Lines(Table(cs, Paths)) == PathStrs(cs)
  {
    if |cs| > 0 {
      assert LineSafe(cs[0].pathStr);
      assert AllLineSafe(cs[1..]) by {
        forall k | 0 <= k < |cs| - 1
          ensures LineSafe(cs[1..][k].pathStr)
        {
          assert cs[1..][k] == cs[k + 1];
        }
      }
      ManifestLines(cs[1..]);
      LinesCons(cs[0].pathStr, Table(cs[1..], Paths));
    }
  }

  /** The bytes of `exe` from position `p` on begin with `b`. */
  predicate At(exe: seq<byte>, p: nat, b: seq<byte>)
    decreases |b|
  {
    if |b| == 0 then p <= |exe| else p < |exe| && exe[p] == b[0] && At(exe, p + 1, b[1..])
  }

  /** `At` is the slice of `exe` at `p` being `b`. */
  lemma {:induction false} AtSlice(exe: seq<byte>, p: nat, b: seq<byte>)
    ensures At(exe, p, b) <==> p + |b| <= |exe| && exe[p..p + |b|] == b
    decreases |b|
  {
    if |b| > 0 {
      AtSlice(exe, p + 1, b[1..]);
      if p + |b| <= |exe| {
        assert exe[p..p + |b|] == [exe[p]] + exe[p + 1..p + |b|];
        assert b == [b[0]] + b[1..];
      }
    }
  }

  /** Bytes `a + b` at `p` are `a` at `p` and `b` right after it. */
  lemma Advance(exe: seq<byte>, p: nat, a: seq<byte>, b: seq<byte>, q: nat)
    requires At(exe, p, a + b) && q == p + |a|
    ensures At(exe, p, a) && At(exe, q, b)
  {
    AtSlice(exe, p, a + b);
    AtSlice(exe, p, a);
    AtSlice(exe, q, b);
    var w := exe[p..p + |a| + |b|];
    assert exe[p..p + |a|] == w[..|a|];
    assert exe[p + |a|..p + |a| + |b|] == w[|a|..];
  }

  /** What a cursor at `p` reads when `b` is stored there. */
  lemma ReadAt(exe: seq<byte>, p: nat, b: seq<byte>)
    requires At(exe, p, b)
    ensures |b| <= |Tail(exe, p)| && Tail(exe, p)[..|b|] == b && Take(Tail(exe, p), |b|) == b
  {
    AtSlice(exe, p, b);
    assert Tail(exe, p)[..|b|] == exe[p..p + |b|];
  }

  /** The three cursors point at the byte strings `s`, `h` and `d`. */
  predicate PointsAtSections(exe: seq<byte>, at: Cursors, s: seq<byte>, h: seq<byte>, d: seq<byte>)
  {
    At(exe, at.sizes, s) && At(exe, at.hashes, h) && At(exe, at.data, d)
  }

  /** The three cursors point at the size pairs, digests and data of the records `cs`. */
  predicate PointsAt(exe: seq<byte>, cs: seq<CompressContext>, at: Cursors)
  {
    PointsAtSections(exe, at, Table(cs, Sizes), Table(cs, Hashes), Table(cs, Data))
  }

  /** The cursors past record `c`. */
  function Next(at: Cursors, c: CompressContext): (n: Cursors)
    ensures n.sizes == at.sizes + 16 && n.hashes == at.hashes + 16 && n.data == at.data + |c.file|
  {
    Cursors(at.sizes + 16, at.hashes + 16, at.data + |c.file|)
  }

  /** A size pair read at `p`: the compressed size is the second `u64`. */
  lemma SizesAt(exe: seq<byte>, p: nat, original: u64, compressed: u64)
    requires At(exe, p, U64ToLe(original) + U64ToLe(compressed))
    ensures |Tail(exe, p)| >= 16 && LeToU64(Tail(exe, p)[8..16]) == compressed
  {
    Advance(exe, p, U64ToLe(original), U64ToLe(compressed), p + 8);
    ReadAt(exe, p, U64ToLe(original) + U64ToLe(compressed));
    ReadAt(exe, p + 8, U64ToLe(compressed));
    TailTail(exe, p, 8);
    assert Tail(exe, p)[8..16] == Tail(exe, p + 8)[..8];
    U64RoundTrip(compressed);
  }

  /**
   * One turn of the entry loop on cursors that point at a record's size pair,
   * digest and data: it reports the record and moves every cursor past it.
   */
  lemma StepRecovers(exe: seq<byte>, c: CompressContext, at: Cursors, codec: Codec, md5: Md5)
    requires c.compressedSize == |c.file| && Unpack(c.file, codec).Ok?
    requires At(exe, at.sizes, Piece(c, Sizes))
    requires At(exe, at.hashes, Piece(c, Hashes))
    requires At(exe, at.data, Piece(c, Data))
    ensures Step(exe, c.pathStr, at, codec, md5) == Ok((Recover(c, codec, md5), Next(at, c)))
  {
    SizesAt(exe, at.sizes, c.originalSize, c.compressedSize);
    ReadAt(exe, at.hashes, c.hash);
    ReadAt(exe, at.data, c.file);
  }

  /** A section at `p` starts with its first record's piece, followed by the rest of the section. */
  lemma SectionRest(exe: seq<byte>, p: nat, cs: seq<CompressContext>, s: Section, q: nat)
    requires |cs| > 0 && At(exe, p, Table(cs, s)) && q == p + |Piece(cs[0], s)|
    ensures At(exe, p, Piece(cs[0], s)) && At(exe, q, Table(cs[1..], s))
  {
    Advance(exe, p, Piece(cs[0], s), Table(cs[1..], s), q);
  }

  /** The cursors that point at records `cs` point at the first record's pieces, and once moved past it, at the rest. */
  lemma PointsAtRest(exe: seq<byte>, cs: seq<CompressContext>, at: Cursors)
    requires |cs| > 0 && PointsAt(exe, cs, at)
    ensures At(exe, at.sizes, Piece(cs[0], Sizes))
    ensures At(exe, at.hashes, Piece(cs[0], Hashes))
    ensures At(exe, at.data, Piece(cs[0], Data))
    ensures PointsAt(exe, cs[1..], Next(at, cs[0]))
  {
    var next := Next(at, cs[0]);
    assert |Piece(cs[0], Sizes)| == 16 && |Piece(cs[0], Hashes)| == 16 && |Piece(cs[0], Data)| == |cs[0].file|;
    SectionRest(exe, at.sizes, cs, Sizes, next.sizes);
    SectionRest(exe, at.hashes, cs, Hashes, next.hashes);
    SectionRest(exe, at.data, cs, Data, next.data);
  }

  /** What holds of every record holds of every record after the first. */
  lemma RestHolds(cs: seq<CompressContext>, codec: Codec)
    requires |cs| > 0 && Consistent(cs) && AllUnpack(cs, codec)
    ensures cs[0].compressedSize == |cs[0].file| && Unpack(cs[0].file, codec).Ok?
    ensures Consistent(cs[1..]) && AllUnpack(cs[1..], codec)
  {
    forall k | 0 <= k < |cs| - 1
      ensures cs[1..][k].compressedSize == |cs[1..][k].file| && Unpack(cs[1..][k].file, codec).Ok?
    {
      assert cs[1..][k] == cs[k + 1];
    }
  }

  /** One turn of the entry loop that succeeds on the first record's path string. */
  lemma WalkRecord(exe: seq<byte>, cs: seq<CompressContext>, at: Cursors, codec: Codec, md5: Md5, done: seq<Entry>,
                   e: Entry, next: Cursors)
    requires |cs| > 0 && Step(exe, cs[0].pathStr, at, codec, md5) == Ok((e, next))
    ensures Walk(TurnOn(exe, codec, md5), PathStrs(cs), at, done) == Walk(TurnOn(exe, codec, md5), PathStrs(cs[1..]), next, done + [e])
  {
    assert PathStrs(cs)[0] == cs[0].pathStr && PathStrs(cs)[1..] == PathStrs(cs[1..]);
  }

  /** The entries for `cs` are the first record's entry, then those for the rest. */
  lemma RecoveredCons(cs: seq<CompressContext>, codec: Codec, md5: Md5, done: seq<Entry>)
    requires |cs| > 0 && AllUnpack(cs, codec) && AllUnpack(cs[1..], codec)
    ensures done + [Recover(cs[0], codec, md5)] + Recovered(cs[1..], codec, md5) == done + Recovered(cs, codec, md5)
  {
  }

  /**
   * The entry loop over the records' path strings, with the three cursors at
   * the start of the records' size pairs, digests and data, reports every
   * record in order and ends without error.
   */
  lemma {:induction false} WalkRecovers(exe: seq<byte>, cs: seq<CompressContext>, at: Cursors, codec: Codec, md5: Md5,
                                         done: seq<Entry>)
    requires Consistent(cs) && AllUnpack(cs, codec) && PointsAt(exe, cs, at)
    ensures Walk(TurnOn(exe, codec, md5), PathStrs(cs), at, done) == Extraction(done + Recovered(cs, codec, md5), Ok(()))
  {
    if |cs| == 0 {
      assert done + [] == done;
    } else {
      RestHolds(cs, codec);
      PointsAtRest(exe, cs, at);
      StepRecovers(exe, cs[0], at, codec, md5);
      var e := Recover(cs[0], codec, md5);
      WalkRecord(exe, cs, at, codec, md5, done, e, Next(at, cs[0]));
      WalkRecovers(exe, cs[1..], Next(at, cs[0]), codec, md5, done + [e]);
      RecoveredCons(cs, codec, md5, done);
    }
  }

  /** Where the header and the footer of `image + container` are. */
  lemma Layout(x: seq<byte>, image: seq<byte>, e: seq<byte>, rest: seq<byte>, f: seq<byte>)
    requires x == image + (e + rest + f)
    ensures Tail(x, |image|) == e + (rest + f)
    ensures x[|x| - |f|..] == f
  {
    assert x == image + e + (rest + f);
    assert x[|image|..] == e + (rest + f);
  }

  /** The container is its header, its four sections as one piece, and its footer. */
  lemma Regroup(e: seq<byte>, p: seq<byte>, s: seq<byte>, h: seq<byte>, d: seq<byte>, f: seq<byte>)
    ensures e + p + s + h + d + f == e + (p + s + h + d) + f
  {
  }

  /** The header position `main_inner` computes for an executable of `image + n + 8` bytes is `image`. */
  lemma HeaderPosition(len: nat, image: nat, n: u64)
    requires len == image + n + 8 && len < U64_LIMIT
    ensures Wrap(Wrap(len - 8) - n) == image
  {
  }

  /** A footer holding `v` reads as `v`. */
  lemma FooterValue(exe: seq<byte>, v: u64)
    requires 8 <= |exe| < U64_LIMIT && exe[|exe| - 8..] == U64ToLe(v)
    ensures ReadFooter(exe) == Ok(v)
  {
    var r := ReadFooter(exe);
    U64RoundTrip(r.value);
    U64RoundTrip(v);
  }

  /** The footer of a written container points back at its header. */
  lemma LocateContainer(image: seq<byte>, cs: seq<CompressContext>)
    requires ContainerFits(cs) && Consistent(cs)
    requires |image| + |ContainerBytes(cs)| < U64_LIMIT
    ensures LocateHeader(image + ContainerBytes(cs)) == Ok((HeaderOf(cs), |image|))
  {
    var h := HeaderOf(cs);
    var exe := image + ContainerBytes(cs);
    var n := HeaderAndDataLen(h);
    var footer := U64ToLe(n);
    FooterCountsContainer(cs);
    var rest := Table(cs, Paths) + Table(cs, Sizes) + Table(cs, Hashes) + Table(cs, Data);
    Regroup(Encode(h), Table(cs, Paths), Table(cs, Sizes), Table(cs, Hashes), Table(cs, Data), footer);
    Layout(exe, image, Encode(h), rest, footer);
    FooterValue(exe, n);
    HeaderPosition(|exe|, |image|, n);
    ParseEncode(h, rest + footer);
  }

  /** Bytes `b` between `pre` and `post`. */
  lemma AtPart(x: seq<byte>, q: nat, pre: seq<byte>, b: seq<byte>, post: seq<byte>)
    requires x == pre + b + post && q == |pre|
    ensures At(x, q, b)
  {
    AtSlice(x, |pre|, b);
    assert x[|pre|..|pre| + |b|] == b;
  }

  /** Where the manifest and the other three sections of `x == image + container` start. */
  lemma SectionsAt(x: seq<byte>, image: seq<byte>, e: seq<byte>, p: seq<byte>, s: seq<byte>, h: seq<byte>, d: seq<byte>, f: seq<byte>,
                   at: Cursors)
    requires x == image + (e + p + s + h + d + f)
    requires at == Cursors(|image| + |e| + |p|, |image| + |e| + |p| + |s|, |image| + |e| + |p| + |s| + |h|)
    ensures Take(Tail(x, |image| + |e|), |p|) == p
    ensures PointsAtSections(x, at, s, h, d)
  {
    AtPart(x, |image| + |e|, image + e, p, s + h + d + f);
    AtPart(x, at.sizes, image + e + p, s, h + d + f);
    AtPart(x, at.hashes, image + e + p + s, h, d + f);
    AtPart(x, at.data, image + e + p + s + h, d, f);
    ReadAt(x, |image| + |e|, p);
  }

  /** The cursors `main_inner` derives from a written container's header, without wrap-around. */
  lemma CursorSums(image: seq<byte>, cs: seq<CompressContext>)
    requires ContainerFits(cs)
    requires |image| + |ContainerBytes(cs)| < U64_LIMIT
    ensures Wrap(|image| + HEADER_LEN) == |image| + |Encode(HeaderOf(cs))|
    ensures HeaderOf(cs).pathsLen == |Table(cs, Paths)|
    ensures SectionCursors(HeaderOf(cs), |image|)
            == Cursors(|image| + |Encode(HeaderOf(cs))| + |Table(cs, Paths)|,
                       |image| + |Encode(HeaderOf(cs))| + |Table(cs, Paths)| + |Table(cs, Sizes)|,
                       |image| + |Encode(HeaderOf(cs))| + |Table(cs, Paths)| + |Table(cs, Sizes)| + |Table(cs, Hashes)|)
  {
    TableLengths(cs);
  }

  /** The manifest and the three cursors `main_inner` derives from a written container's header. */
  lemma ContainerSections(image: seq<byte>, cs: seq<CompressContext>)
    requires ContainerFits(cs)
    requires |image| + |ContainerBytes(cs)| < U64_LIMIT
    ensures Take(Tail(image + ContainerBytes(cs), Wrap(|image| + HEADER_LEN)), HeaderOf(cs).pathsLen) == Table(cs, Paths)
    ensures PointsAt(image + ContainerBytes(cs), cs, SectionCursors(HeaderOf(cs), |image|))
  {
    var h := HeaderOf(cs);
    CursorSums(image, cs);
    SectionsAt(image + ContainerBytes(cs), image, Encode(h), Table(cs, Paths), Table(cs, Sizes), Table(cs, Hashes),
               Table(cs, Data), U64ToLe(HeaderAndDataLen(h)), SectionCursors(h, |image|));
  }

  /** Extraction of a located header walks the manifest's lines from the header's section cursors. */
  lemma ExtractLocated(exe: seq<byte>, codec: Codec, md5: Md5, h: Header, headerPos: u64)
    requires |exe| < U64_LIMIT && LocateHeader(exe) == Ok((h, headerPos))
    ensures Extract(exe, codec, md5)
            == Walk(TurnOn(exe, codec, md5), Lines(Take(Tail(exe, Wrap(headerPos + HEADER_LEN)), h.pathsLen)), SectionCursors(h, headerPos), [])
  {
  }

  /** Extracting `image` followed by a written container walks the records' path strings from the start of each section. */
  lemma ExtractWalks(image: seq<byte>, cs: seq<CompressContext>, codec: Codec, md5: Md5)
    requires ContainerFits(cs) && Consistent(cs) && AllLineSafe(cs)
    requires |image| + |ContainerBytes(cs)| < U64_LIMIT
    ensures PointsAt(image + ContainerBytes(cs), cs, SectionCursors(HeaderOf(cs), |image|))
    ensures Extract(image + ContainerBytes(cs), codec, md5)
            == Walk(TurnOn(image + ContainerBytes(cs), codec, md5), PathStrs(cs), SectionCursors(HeaderOf(cs), |image|), [])
  {
    LocateContainer(image, cs);
    ExtractLocated(image + ContainerBytes(cs), codec, md5, HeaderOf(cs), |image|);
    ContainerSections(image, cs);
    ManifestLines(cs);
  }

  /**
   * The round trip of the container format: extracting `image` followed by the
   * container written for `cs` reports every record, in order, with its path
   * string, its decoded data and its digest check, and ends without error.
   */
  lemma ContainerRoundTrip(image: seq<byte>, cs: seq<CompressContext>, codec: Codec, md5: Md5)
    requires ContainerFits(cs) && Consistent(cs) && AllLineSafe(cs) && AllUnpack(cs, codec)
    requires |image| + |ContainerBytes(cs)| < U64_LIMIT
    ensures Extract(image + ContainerBytes(cs), codec, md5) == Extraction(Recovered(cs, codec, md5), Ok(()))
  {
    ExtractWalks(image, cs, codec, md5);
    WalkRecovers(image + ContainerBytes(cs), cs, SectionCursors(HeaderOf(cs), |image|), codec, md5, []);
    assert [] + Recovered(cs, codec, md5) == Recovered(cs, codec, md5);
  }

  /** Entry `k` reported for `cs` is the one for record `k`. */
  lemma {:induction false} RecoveredAt(cs: seq<CompressContext>, codec: Codec, md5: Md5, k: nat)
    requires AllUnpack(cs, codec) && k < |cs|
    ensures Unpack(cs[k].file, codec).Ok?
    ensures Recovered(cs, codec, md5)[k] == Recover(cs[k], codec, md5)
  {
    if k > 0 {
      assert AllUnpack(cs[1..], codec) by {
        forall j | 0 <= j < |cs| - 1
          ensures Unpack(cs[1..][j].file, codec).Ok?
        {
          assert cs[1..][j] == cs[j + 1];
        }
      }
      RecoveredAt(cs[1..], codec, md5, k - 1);
      assert cs[1..][k - 1] == cs[k];
    }
  }

  /**
   * The record of a file with a safe archive path decodes back to the file's
   * contents, and the unarchiver reports it under that path, "ok".
   */
  lemma PackedRecovers(ctx: Context, path: Path, env: FileEnv, codec: Codec, md5: Md5)
    requires RoundTrips(codec, ctx.compressLevel)
    requires ctx.root <= path && NamesSafe(ArchivePath(ctx.root, ctx.includeRoot, path))
    ensures var c := Packed(ctx, path, env, codec, md5);
            && c.compressedSize == |c.file| && LineSafe(c.pathStr) && Unpack(c.file, codec).Ok?
            && Recover(c, codec, md5) == Entry(Join(ArchivePath(ctx.root, ctx.includeRoot, path)), env.data, true)
  {
    JoinLineSafe(ArchivePath(ctx.root, ctx.includeRoot, path));
    assert codec.decode(codec.encode(env.data, ctx.compressLevel)) == Some(env.data);
  }

  /**
   * Packing then extracting: when every file of a directory packs, its
   * archive path is a safe manifest line and the codec decodes what it
   * encodes, extracting the container
   * written for the kept records reports, for every file in input order, its
   * archive path, its original contents and a matching digest.
   */
  lemma PackThenExtract(image: seq<byte>, ctx: Context, ps: seq<Path>, fs: Path -> FileEnv, codec: Codec, md5: Md5)
    requires RoundTrips(codec, ctx.compressLevel)
    requires forall k | 0 <= k < |ps| :: ctx.root <= ps[k]
    requires forall k | 0 <= k < |ps| :: Packable(fs(ps[k]), codec, ctx.compressLevel)
    requires forall k | 0 <= k < |ps| :: ctx.root <= ps[k] && NamesSafe(ArchivePath(ctx.root, ctx.includeRoot, ps[k]))
    requires ContainerFits(Kept(ctx, ps, fs, codec, md5))
    requires |image| + |ContainerBytes(Kept(ctx, ps, fs, codec, md5))| < U64_LIMIT
    ensures var x := Extract(image + ContainerBytes(Kept(ctx, ps, fs, codec, md5)), codec, md5);
            && x.result == Ok(())
            && |x.entries| == |ps|
            && forall k | 0 <= k < |ps| ::
                 x.entries[k] == Entry(Join(ArchivePath(ctx.root, ctx.includeRoot, ps[k])), fs(ps[k]).data, true)
  {
    var cs := Kept(ctx, ps, fs, codec, md5);
    KeptAll(ctx, ps, fs, codec, md5);
    forall k | 0 <= k < |cs|
      ensures cs[k].compressedSize == |cs[k].file| && LineSafe(cs[k].pathStr) && Unpack(cs[k].file, codec).Ok?
    {
      PackedRecovers(ctx, ps[k], fs(ps[k]), codec, md5);
    }
    ContainerRoundTrip(image, cs, codec, md5);
    forall k | 0 <= k < |ps|
      ensures Recovered(cs, codec, md5)[k] == Entry(Join(ArchivePath(ctx.root, ctx.includeRoot, ps[k])), fs(ps[k]).data, true)
    {
      RecoveredAt(cs, codec, md5, k);
      PackedRecovers(ctx, ps[k], fs(ps[k]), codec, md5);
    }
  }
}
