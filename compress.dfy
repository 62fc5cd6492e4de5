/**
 * Packing one file and a whole target: the archive-relative path a file is
 * stored under, `compress_to_temp` (Zstandard-compress one file into a
 * temporary file while counting its output and hashing its input) and
 * `compress_multi_to_temps` (the single-file and directory policies).
 *
 * A path is the list of its components. Each file the packer touches is
 * described by a `FileEnv`: its contents and which of the operating-system
 * calls on it fail.
 */
module Compress {
  import opened Bytes
  import opened Io
  import opened Foreign
  import opened Reader
  import opened Writer
  import opened Utils

  /** One path component (a file or directory name, as bytes). */
  type Name = seq<byte>

  /** A path as its list of components, outermost first. */
  type Path = seq<Name>

  /** `Path::parent`: every component but the last; an empty path has no parent. */
  function Parent(p: Path): (r: Option<Path>)
    ensures r.Some? <==> |p| > 0
    ensures r.Some? ==> r.value + [p[|p| - 1]] == p
  {
    if |p| == 0 then None else Some(p[..|p| - 1])
  }

  /**
   * The prefix `compress_to_temp` strips from every file path: with
   * `include_root`, the root's parent (the root itself when it has none),
   * otherwise the root.
   */
  function StripBase(root: Path, includeRoot: bool): (b: Path)
    ensures b <= root
  {
    if includeRoot then
      match Parent(root)
      case Some(parent) => parent
      case None => root
    else root
  }

  /** `path.strip_prefix(base).unwrap()`: the path below the stripped prefix. */
  function ArchivePath(root: Path, includeRoot: bool, path: Path): (r: Path)
    requires root <= path
    ensures StripBase(root, includeRoot) + r == path
  {
    var base := StripBase(root, includeRoot);
    assert path == base + path[|base|..];
    path[|base|..]
  }

  /** With `include_root`, the stored path starts with the root's own name. */
  lemma ArchivePathIncludesRoot(root: Path, path: Path)
    requires root <= path && |root| > 0
    ensures ArchivePath(root, true, path) == [root[|root| - 1]] + path[|root|..]
  {
    var r := ArchivePath(root, true, path);
    assert r == path[|root| - 1..];
    assert path[|root| - 1..] == [path[|root| - 1]] + path[|root|..];
  }

  /** Without `include_root`, the stored path is relative to the root itself. */
  lemma ArchivePathBelowRoot(root: Path, path: Path)
    requires root <= path
    ensures ArchivePath(root, false, path) == path[|root|..]
    ensures |ArchivePath(root, false, path)| == |path| - |root|
  {
  }

  /** A single file (the root itself, packed with `include_root` forced) is stored under its own name. */
  lemma SingleFileArchivePath(root: Path)
    requires |root| > 0
    ensures ArchivePath(root, true, root) == [root[|root| - 1]]
  {
    ArchivePathIncludesRoot(root, root);
  }

  /** `to_string_lossy` of a relative path: the components joined by `/`. */
  function Join(p: Path): (s: seq<byte>)
    ensures |p| == 1 ==> s == p[0]
  {
    if |p| == 0 then []
    else if |p| == 1 then p[0]
    else Join(p[..|p| - 1]) + [SLASH] + p[|p| - 1]
  }

  /** No component holds a newline, and the last one does not end in a carriage return. */
  predicate NamesSafe(p: Path)
  {
    (forall k | 0 <= k < |p| :: NEWLINE !in p[k])
    && (|p| == 0 || |p[|p| - 1]| == 0 || p[|p| - 1][|p[|p| - 1]| - 1] != CR)
  }

  /** Joining names that hold no newline gives no newline. */
  lemma {:induction false} JoinHasNoNewline(p: Path)
    requires forall k | 0 <= k < |p| :: NEWLINE !in p[k]
    ensures NEWLINE !in Join(p)
  {
    if |p| > 1 {
      JoinHasNoNewline(p[..|p| - 1]);
    }
  }

  /** The path string of safe names is a single manifest line. */
  lemma JoinLineSafe(p: Path)
    requires NamesSafe(p)
    ensures LineSafe(Join(p))
  {
    JoinHasNoNewline(p);
    if |p| > 1 {
      var s := Join(p);
      var last := p[|p| - 1];
      assert s == Join(p[..|p| - 1]) + [SLASH] + last;
      if |last| > 0 {
        assert s[|s| - 1] == last[|last| - 1];
      } else {
        assert s[|s| - 1] == SLASH;
      }
    }
  }

  /** `compress::context::Context` without its progress bars. */
  datatype Context = Context(root: Path, includeRoot: bool, compressLevel: int)

  /**
   * `CompressContext`: a packed file. `file` is the contents of the temporary
   * file holding its compressed bytes.
   */
  datatype CompressContext = CompressContext(
    file: FileBytes,
    pathStr: seq<byte>,
    originalSize: u64,
    compressedSize: u64,
    hash: Digest)

  /**
   * What the operating system does for one file: its contents, and whether
   * creating the temporary file, opening the file, reading it or writing the
   * temporary file fails. A failing `metadata()` on the opened file fails the
   * call at the same point as a failing open, so `openFails` stands for both.
   * `tmpMaxWrite` is the most one write to the temporary file accepts and
   * `tmpCapacity` the most the temporary file can hold.
   */
  datatype FileEnv = FileEnv(
    data: FileBytes,
    tmpFails: bool,
    openFails: bool,
    readFails: bool,
    tmpWriteFails: bool,
    tmpMaxWrite: nat,
    tmpCapacity: nat)

  /** Whether `compress_to_temp` succeeds on a file. */
  predicate Packable(env: FileEnv, codec: Codec, level: int)
  {
    !env.tmpFails && !env.openFails && !env.readFails && !env.tmpWriteFails
    && (|codec.encode(env.data, level)| == 0 || (env.tmpMaxWrite > 0 && |codec.encode(env.data, level)| <= env.tmpCapacity))
  }

  /** The record a successful `compress_to_temp` returns. */
  function Packed(ctx: Context, path: Path, env: FileEnv, codec: Codec, md5: Md5): CompressContext
    requires ctx.root <= path
  {
    var file := codec.encode(env.data, ctx.compressLevel);
    CompressContext(file, Join(ArchivePath(ctx.root, ctx.includeRoot, path)), |env.data|, |file|, md5(env.data))
  }

  /**
   * `zstd::stream::copy_encode`: reads the source to its end in 8 KiB chunks,
   * then writes the compressed stream. A read error ends it before anything is
   * written.
   */
  method CopyEncode(reader: CompressReader, writer: CompressWriter, level: int, codec: Codec) returns (r: IoResult<()>)
    requires reader.Valid() && writer.Valid()
    modifies reader, reader.inner, writer, writer.inner
    ensures reader.Valid() && writer.Valid()
    ensures r.Ok? <==> !reader.inner.broken && old(writer.inner.WritesAll(codec.encode(reader.inner.data[reader.inner.pos..], level)))
    ensures r.Ok? ==> reader.inner.pos == |reader.inner.data|
    ensures r.Ok? ==> writer.Passed() == old(writer.Passed()) + codec.encode(reader.inner.data[old(reader.inner.pos)..], level)
  {
    var buffer := new byte[BUF_SIZE](_ => 0);
    var input: seq<byte> := [];
    while true
      invariant reader.Valid() && writer.Valid()
      invariant old(reader.inner.pos) <= reader.inner.pos
      invariant input == reader.inner.data[old(reader.inner.pos)..reader.inner.pos]
      invariant writer.inner.written == old(writer.inner.written)
      decreases |reader.inner.data| - reader.inner.pos
    {
      var n := reader.Read(buffer);
      if n.Err? {
        return Err(n.error);
      }
      if n.value == 0 {
        break;
      }
      input := input + buffer[..n.value];
    }
    assert input == reader.inner.data[old(reader.inner.pos)..];
    r := writer.WriteAll(codec.encode(input, level));
  }

  /**
   * `compress_to_temp`: creates the temporary file, opens the file, compresses
   * it through a hashing reader into a counting writer, and returns the record.
   * Any failure on the way is returned as the error.
   */
  method CompressToTemp(ctx: Context, path: Path, env: FileEnv, codec: Codec, md5: Md5) returns (r: IoResult<CompressContext>)
    requires ctx.root <= path
    ensures r.Ok? <==> Packable(env, codec, ctx.compressLevel)
    ensures r.Ok? ==> r.value == Packed(ctx, path, env, codec, md5)
    ensures r.Ok? ==> r.value.file == codec.encode(env.data, ctx.compressLevel)
    ensures r.Ok? ==> r.value.compressedSize == |r.value.file| && r.value.originalSize == |env.data|
    ensures r.Ok? ==> r.value.hash == md5(env.data)
    ensures r.Ok? ==> StripBase(ctx.root, ctx.includeRoot) + ArchivePath(ctx.root, ctx.includeRoot, path) == path
  {
    if env.tmpFails {
      return Err(Other);
    }
    var tmp := new Sink([], env.tmpMaxWrite, env.tmpWriteFails, env.tmpCapacity);
    if env.openFails {
      return Err(Other);
    }
    var target := new Source(env.data, env.readFails);
    var originalSize: u64 := |env.data|;
    var pathStr := Join(ArchivePath(ctx.root, ctx.includeRoot, path));

    var progressReader := new CompressReader(target);
    var tmpWriter := new CompressWriter(tmp);
    var copied := CopyEncode(progressReader, tmpWriter, ctx.compressLevel, codec);
    if copied.Err? {
      return Err(copied.error);
    }
    assert env.data[0..] == env.data[0..|env.data|] == env.data;
    var flushed := tmpWriter.Flush();
    if flushed.Err? {
      return Err(flushed.error);
    }

    var compressedSize: u64 := tmpWriter.Count();
    var hash := progressReader.Md5Digest(md5);
    var file := tmpWriter.IntoInner();
    match file
    case Err(e) =>
      return Err(e);
    case Ok(written) =>
      assert tmp.written[0..] == tmp.written == codec.encode(env.data, ctx.compressLevel);
      r := Ok(CompressContext(written.written, pathStr, originalSize, compressedSize, hash));
  }

  /** `utils::Glob`: what the target expanded to. */
  datatype Glob = File(file: Path) | Dir(paths: seq<Path>)

  /** The records directory mode keeps: one per file that packs, in input order. */
  function Kept(ctx: Context, ps: seq<Path>, fs: Path -> FileEnv, codec: Codec, md5: Md5): (r: seq<CompressContext>)
    requires forall k | 0 <= k < |ps| :: ctx.root <= ps[k]
    ensures |r| <= |ps|
    ensures forall k | 0 <= k < |r| :: r[k].compressedSize == |r[k].file|
  {
    if |ps| == 0 then []
    else
      var rest := Kept(ctx, ps[1..], fs, codec, md5);
      if Packable(fs(ps[0]), codec, ctx.compressLevel) then [Packed(ctx, ps[0], fs(ps[0]), codec, md5)] + rest
      else rest
  }

  /** When every file packs, directory mode yields one record per path, in order. */
  lemma {:induction false} KeptAll(ctx: Context, ps: seq<Path>, fs: Path -> FileEnv, codec: Codec, md5: Md5)
    requires forall k | 0 <= k < |ps| :: ctx.root <= ps[k]
    requires forall k | 0 <= k < |ps| :: Packable(fs(ps[k]), codec, ctx.compressLevel)
    ensures |Kept(ctx, ps, fs, codec, md5)| == |ps|
    ensures forall k | 0 <= k < |ps| :: Kept(ctx, ps, fs, codec, md5)[k] == Packed(ctx, ps[k], fs(ps[k]), codec, md5)
  {
    if |ps| > 0 {
      KeptAll(ctx, ps[1..], fs, codec, md5);
    }
  }

  /** Every kept record comes from a path that packs. */
  lemma {:induction false} KeptSound(ctx: Context, ps: seq<Path>, fs: Path -> FileEnv, codec: Codec, md5: Md5, c: CompressContext)
    requires forall k | 0 <= k < |ps| :: ctx.root <= ps[k]
    requires c in Kept(ctx, ps, fs, codec, md5)
    ensures exists k | 0 <= k < |ps| :: Packable(fs(ps[k]), codec, ctx.compressLevel) && c == Packed(ctx, ps[k], fs(ps[k]), codec, md5)
  {
    var rest := Kept(ctx, ps[1..], fs, codec, md5);
    if c in rest {
      KeptSound(ctx, ps[1..], fs, codec, md5, c);
      var k :| 0 <= k < |ps[1..]| && Packable(fs(ps[1..][k]), codec, ctx.compressLevel) && c == Packed(ctx, ps[1..][k], fs(ps[1..][k]), codec, md5);
      assert ps[1..][k] == ps[k + 1];
    } else {
      assert Packable(fs(ps[0]), codec, ctx.compressLevel) && c == Packed(ctx, ps[0], fs(ps[0]), codec, md5);
    }
  }

  /** A failing file is only dropped: every path that packs still has its record. */
  lemma {:induction false} KeptComplete(ctx: Context, ps: seq<Path>, fs: Path -> FileEnv, codec: Codec, md5: Md5, k: nat)
    requires forall j | 0 <= j < |ps| :: ctx.root <= ps[j]
    requires k < |ps| && Packable(fs(ps[k]), codec, ctx.compressLevel)
    ensures Packed(ctx, ps[k], fs(ps[k]), codec, md5) in Kept(ctx, ps, fs, codec, md5)
  {
    if k > 0 {
      KeptComplete(ctx, ps[1..], fs, codec, md5, k - 1);
    }
  }

  /**
   * `compress_multi_to_temps`. A single file is packed with `include_root`
   * forced on and its failure is the result; in directory mode every path is
   * packed and the ones that fail are dropped.
   */
  method CompressMultiToTemps(paths: Glob, root: Path, includeRoot: bool, compressLevel: int,
                              fs: Path -> FileEnv, codec: Codec, md5: Md5)
    returns (r: IoResult<seq<CompressContext>>)
    requires paths.File? ==> root <= paths.file
    requires paths.Dir? ==> forall k | 0 <= k < |paths.paths| :: root <= paths.paths[k]
    ensures paths.File? ==> (r.Ok? <==> Packable(fs(paths.file), codec, compressLevel))
    ensures paths.File? && r.Ok? ==> r.value == [Packed(Context(root, true, compressLevel), paths.file, fs(paths.file), codec, md5)]
    ensures paths.Dir? ==> r == Ok(Kept(Context(root, includeRoot, compressLevel), paths.paths, fs, codec, md5))
  {
    match paths
    case File(file) =>
      var ctx := Context(root, true, compressLevel);
      var compressed := CompressToTemp(ctx, file, fs(file), codec, md5);
      if compressed.Err? {
        return Err(compressed.error);
      }
      r := Ok([compressed.value]);
    case Dir(ps) =>
      var ctx := Context(root, includeRoot, compressLevel);
      var compressedAll: seq<CompressContext> := [];
      var i := 0;
      assert ps[0..] == ps;
      while i < |ps|
        invariant 0 <= i <= |ps|
        invariant compressedAll + Kept(ctx, ps[i..], fs, codec, md5) == Kept(ctx, ps, fs, codec, md5)
      {
        var compressed := CompressToTemp(ctx, ps[i], fs(ps[i]), codec, md5);
        assert ps[i..][1..] == ps[i + 1..];
        if compressed.Ok? {
          compressedAll := compressedAll + [compressed.value];
        }
        i := i + 1;
      }
      assert |ps[i..]| == 0;
      assert compressedAll == Kept(ctx, ps, fs, codec, md5);
      r := Ok(compressedAll);
  }
}
