# zstd-sfx container, modelled in Dafny

zstd-sfx builds self-extracting archives. The archiver compresses every file of
a target with Zstandard, copies the unarchiver executable, and appends a
container to the copy:

    header (40 bytes) | manifest | size pairs | digests | compressed data | footer (8 bytes)

- The header is an 8-byte identifier followed by the four section lengths as
  little-endian `u64`.
- The manifest holds one line per record: its archive-relative path and a
  newline.
- The size table holds each record's original and compressed size.
- The digest table holds each record's 16-byte MD5.
- The data section holds each record's compressed bytes.
- The footer holds the number of bytes from the start of the header to the
  end of the data section.

When the unarchiver runs, it reads its own footer, seeks back to the header and
parses it. It then walks the manifest line by line, advancing three further
cursors in lockstep: 16 bytes of sizes, 16 bytes of digest and
`compressed_size` bytes of data per entry. Each entry is decoded into a file,
and its MD5 is compared with the stored one, which reports the entry "ok" or
"corrupted".

## What the model covers, file by file

| Dafny file | Models |
|---|---|
| `bytes.dfy` | `u64`, its little-endian encoding and the round trip between them. |
| `io.dfy` | The files read and written, as two classes: `Source` (read, read_exact, take, seek) and `Sink` (write, write_all, flush). Whether a call fails is fixed when the file is opened. A sink may accept only part of a buffer per `write` and stops accepting at its capacity (a full disk). |
| `foreign.dfy` | Zstandard (RFC 8878) and MD5 (RFC 1321), as parameters. A `Codec` holds an encode and a decode function. `RoundTrips` is the assumption that decoding undoes encoding. An `Md5Context` is the bytes consumed so far. |
| `header.dfy` | `Header`, `IDENTIFIER`, `HEADER_LEN`, `to_bytes` (in place on a 40-byte array), `parse_stream` (five `read_exact` calls into one reused buffer) and `header_and_data_len`. Their pure specifications are `Encode` and `Parse`. |
| `utils.dfy` | `buf_copy`. |
| `writer.dfy`, `reader.dfy` | `CompressWriter` and `CompressReader`, as classes whose methods update `count` and `hash`. |
| `compress.dfy` | The archive-path rule, `compress_to_temp` and the single-file and directory policies of `compress_multi_to_temps`. |
| `archiver.dfy` | The section lengths and the serialisation in the archiver's `main` (lines 56-112). The container is specified as `ContainerBytes`, a function of the records. |
| `unarchiver.dfy` | `read_header_from_exe`, `DecompressWriter` and `main_inner`. The executable is a byte string. Each method is proved against a pure specification: `LocateHeader`, `Step`, `Walk` and `Extract`. |
| `roundtrip.dfy` | The headline theorems. Extracting an executable that ends with the container written for a list of records reports every record in order, with its path, its decoded contents and its digest check. When every file of a directory packs and the codec round-trips, every file comes back under its archive path with its original contents, reported "ok". |

Arithmetic in the unarchiver follows a release build: each `u64` addition or
subtraction wraps modulo 2^64 (`Wrap`). A footer larger than the bytes before
it therefore wraps to a header position that lies past the end of the file or
inside its last 7 bytes. Either way fewer than 8 bytes remain for the
identifier, and the header read fails with `UnexpectedEof`, which
`FooterUnderflowFails` proves.

Behaviour of the code that the model makes visible:

- The extractor never reads `compressed_data_len`: `Extract` uses only the
  other three lengths.
- The extractor never checks the number of manifest lines against the size
  and digest tables. `Walk` runs one turn per line and ends `Ok` exactly when
  every line has its entry. A turn fails only when fewer than 16 bytes remain
  at the size or digest cursor, or when the block at the data cursor does not
  decode into a file (`StepReads`, `Unpack`).
- The archiver writes names with `writeln!`, and `lines()` splits on `\n` and
  drops one `\r` before it. So a name that holds a newline or ends in a
  carriage return does not come back as written: `CrIsStripped` shows that a
  line written as `l\r` reads back as `l`. The round-trip theorems therefore require every path
  string to be `LineSafe`.

## Model

| member | source | states |
|---|---|---|
| `Bytes.U64RoundTrip` | src/common/header.rs:39-49 | `u64::from_le_bytes` of `to_le_bytes(x)` is `x`. |
| `Bytes.LeToU64Inverse` | src/common/header.rs:40-49 | Every 8 bytes are the `to_le_bytes` of the value they decode to, so decoding loses nothing. |
| `Io.Source.Seek` | src/unarchiver/main.rs:89 | `seek(SeekFrom::Start(p))` puts the cursor at `p`, even past the end. |
| `Io.Source.Read` | src/archiver/utils.rs:11 | `read` returns min(buffer, remaining) bytes. They are the next bytes of the file, and the cursor advances by that count. A broken file returns `Other` and does not move. |
| `Io.Source.ReadExact` | src/common/header.rs:32 | `read_exact` succeeds exactly when the whole buffer is available, and fills it with the next bytes. Otherwise it fails with `UnexpectedEof`, or with `Other` on a broken file. |
| `Io.Source.ReadTake` | src/unarchiver/main.rs:71 | Reading `take(n)` yields the next min(n, remaining) bytes and advances the cursor by exactly that many. |
| `Io.Sink.Write` | src/archiver/compress/writer.rs:28 | `write` appends a prefix of the buffer whose length is bounded by the per-call limit and the room left, and reports that length. A full or broken file fails and keeps its contents. |
| `Io.Sink.WriteAll` | src/archiver/main.rs:84 | `write_all` succeeds exactly when the file can take the whole buffer, and then appends exactly the buffer. It only ever appends. |
| `Io.Sink.Flush` | src/archiver/main.rs:112 | `flush` fails exactly when the file is broken. |
| `CommonHeader.Encode` | src/common/header.rs:27 | The encoded header is `HEADER_LEN` = 40 bytes long. |
| `CommonHeader.EncodeLayout` | src/common/header.rs:3-16 | The identifier sits at 0..8, then `paths_len`, `sizes_len`, `hashes_len`, `compressed_data_len` as little-endian `u64` at 8, 16, 24 and 32. |
| `CommonHeader.IdentifierIsLe` | src/common/header.rs:26 | `IDENTIFIER` is `0xA0B0C0D0A1B1C1D1u64.to_le_bytes()`. |
| `CommonHeader.Parse` | src/common/header.rs:29-57 | Parsing succeeds exactly when 40 bytes are available and the first 8 are the identifier. Fewer than 8 bytes give `UnexpectedEof`. A wrong identifier gives `InvalidData`, whatever follows. A right identifier with fewer than 40 bytes gives `UnexpectedEof`. The parsed header encodes back to the 40 bytes read. |
| `CommonHeader.ParseEncode` | src/common/header.rs:29-78 | Parsing what `to_bytes` wrote returns the same header, whatever bytes follow it. |
| `CommonHeader.EncodeInjective` | src/common/header.rs:59-78 | Two headers with the same bytes are equal: no two fields share or swap a slot. |
| `CommonHeader.ToBytes` | src/common/header.rs:59-78 | Filling the 40-byte buffer field by field, with `ptr` advancing by 8, yields exactly `Encode(h)`. |
| `CommonHeader.CopyFromSlice` | src/common/header.rs:63 | `copy_from_slice` at `ptr` keeps the bytes before `ptr` and places the source right after them. |
| `CommonHeader.ParseStream` | src/common/header.rs:29-57 | The stream parser returns what `Parse` says of the remaining bytes, or `Other` on a broken reader. On success it has consumed exactly 40 bytes. |
| `CommonHeader.ReadU64` | src/common/header.rs:39-49 | One `read_exact` plus `from_le_bytes` decodes the 8 bytes at the field's offset and advances by 8. A short read is `UnexpectedEof`. |
| `CommonHeader.HeaderAndDataLen` | src/common/header.rs:80-86 | The value is the encoded header's length plus the four section lengths: the distance from the start of the header to the end of the data section. |
| `Utils.BufCopy` | src/archiver/utils.rs:7-20 | The copy succeeds exactly when neither side is broken and the writer can take all remaining bytes. The writer then holds its old contents followed by every remaining byte of the reader, in order, and the reader is exhausted. Whatever happens, the writer's old contents stay in front. |
| `Writer.CompressWriter.constructor` | src/archiver/compress/writer.rs:9-14 | A new writer has `count` 0 and has passed nothing. |
| `Writer.CompressWriter.Write` | src/archiver/compress/writer.rs:27-31 | On success `count` grows by exactly what the inner writer accepted, and that number is returned. On an error, `count` and the bytes passed are unchanged. |
| `Writer.CompressWriter.WriteAll` | src/archiver/compress/writer.rs:26-35 | `write_all` through the wrapper succeeds exactly when the inner file can take the buffer, and the wrapper has then passed exactly the buffer. |
| `Writer.CompressWriter.Flush` | src/archiver/compress/writer.rs:33-35 | `flush` delegates and fails exactly when the inner writer is broken. It changes nothing. |
| `Writer.CompressWriter.Count` | src/archiver/compress/writer.rs:21-23 | `count()` is the number of bytes that reached the inner writer through the wrapper. |
| `Writer.CompressWriter.IntoInner` | src/archiver/compress/writer.rs:16-19 | `into_inner` flushes first and propagates a flush error, otherwise it returns the inner writer. |
| `Reader.CompressReader.constructor` | src/archiver/compress/reader.rs:11-17 | A new reader starts with an empty digest context. |
| `Reader.CompressReader.Read` | src/archiver/compress/reader.rs:25-30 | `read` returns the inner reader's count. The digest consumes exactly `buf[..bytes]`, so it has consumed everything read so far. An inner error returns before the digest changes. |
| `Reader.CompressReader.Md5Digest` | src/archiver/compress/reader.rs:19-21 | `md5_digest` is the MD5 of every byte read through the wrapper, and it changes no state. |
| `Compress.Parent` | src/archiver/compress/mod.rs:82 | `parent()` exists exactly for a non-empty path and is that path without its last component. |
| `Compress.StripBase` | src/archiver/compress/mod.rs:81-88 | The stripped prefix is always a prefix of the root. |
| `Compress.ArchivePath` | src/archiver/compress/mod.rs:81-90 | The stored path is what remains of the file path after the stripped prefix: prefix + stored path = file path. The file must lie under the root, or `unwrap` panics. |
| `Compress.ArchivePathIncludesRoot` | src/archiver/compress/mod.rs:81-85 | With `include_root`, the stored path starts with the root's own name, followed by the path below the root. |
| `Compress.ArchivePathBelowRoot` | src/archiver/compress/mod.rs:86-88 | Without `include_root`, the stored path is the path below the root. |
| `Compress.SingleFileArchivePath` | src/archiver/compress/mod.rs:32-41 | A single file, packed with `include_root` forced on, is stored under its own name. |
| `Compress.Join` | src/archiver/compress/mod.rs:89-90 | A one-component path is stored as that name. |
| `Compress.JoinLineSafe` | src/archiver/main.rs:87-90 | A path whose names hold no newline, and whose last name does not end in a carriage return, becomes a single manifest line. |
| `Compress.CopyEncode` | src/archiver/compress/mod.rs:100 | `copy_encode` reads the source to its end and passes exactly the encoded stream of everything read to the counting writer. It succeeds exactly when reading works and the temporary file can take the stream. |
| `Compress.CompressToTemp` | src/archiver/compress/mod.rs:68-120 | The call succeeds exactly when the temporary file, the open, every read and the writes succeed. The record then holds the encoded bytes, the archive path string, `original_size` = the file's length, `compressed_size` = the writer's count = the length of the temporary file, and `hash` = the MD5 of the bytes read. |
| `Compress.Kept` | src/archiver/compress/mod.rs:54-61 | Directory mode keeps at most one record per path, and every record kept has `compressed_size` equal to the length of its temporary file. |
| `Compress.KeptAll` | src/archiver/compress/mod.rs:54-61 | When every path packs, directory mode yields one record per path, in input order. |
| `Compress.KeptSound` | src/archiver/compress/mod.rs:54-61 | Every record kept comes from a path that packs. |
| `Compress.KeptComplete` | src/archiver/compress/mod.rs:54-61 | A failing path is only dropped: every path that packs still has its record. |
| `Compress.CompressMultiToTemps` | src/archiver/compress/mod.rs:21-66 | A single file is packed with `include_root` on, and its failure is the result. A directory always succeeds, with the records of the paths that pack, in order. |
| `Archiver.SumPathLens` | src/archiver/main.rs:57-60 | The sum of the path-string lengths is the manifest's length less one newline per record. |
| `Archiver.PathsLen` | src/archiver/main.rs:56-61 | `paths_len` is exactly the length of the manifest `writeln!` produces, at least one byte per record. |
| `Archiver.SumCompressed` | src/archiver/main.rs:68-71 | `compressed_data_len` is the length of the data section when each record's size is its file's length. |
| `Archiver.HeaderOf` | src/archiver/main.rs:57-78 | The header written gives the exact length of the manifest, the size table and the digest table, and of the data section when sizes match files. |
| `Archiver.ContainerBytes` | src/archiver/main.rs:83-111 | The container opens with the encoded header and closes with the 8-byte little-endian `header_and_data_len`. |
| `Archiver.TableAppend` | src/archiver/main.rs:87-108 | The section of two runs of records is the two sections one after the other. |
| `Archiver.TableLengths` | src/archiver/main.rs:56-71 | The manifest is as long as `paths_len` (the path lengths plus one newline each). The size and digest tables are 16 bytes per record. The data section is `compressed_data_len` long when each record's size is its file's length. |
| `Archiver.FooterCountsContainer` | src/archiver/main.rs:110-111 | The footer value plus its own 8 bytes is exactly the length of everything appended. |
| `Archiver.SectionsAligned` | src/archiver/main.rs:87-108 | Every section lists records in the same order: at record k's offset, each section holds record k's piece. |
| `Archiver.WriteContainer` | src/archiver/main.rs:56-112 | Writing succeeds exactly when the output opens, is not broken and can take the whole container. The file is then the unarchiver image followed by `ContainerBytes`. Even on failure the image is unchanged at the front. |
| `Archiver.WriteBody` | src/archiver/main.rs:86-108 | The four sections are appended in order, and only appended. |
| `Archiver.WriteSection` | src/archiver/main.rs:86-101 | A manifest, size or digest section is appended record by record, exactly when the file can take it. |
| `Archiver.WritePiece` | src/archiver/main.rs:89-100 | One record's path line, its two sizes, or its digest are appended. |
| `Archiver.WriteFiles` | src/archiver/main.rs:103-108 | Every temporary file is copied in full, in record order. |
| `Unarchiver.Lines` | src/unarchiver/main.rs:45 | `lines()` yields no line exactly when the manifest is empty, and no line holds a newline. |
| `Unarchiver.LineEnd` | src/unarchiver/main.rs:45 | The first newline of the rest, or its end when there is none. |
| `Unarchiver.StripCr` | src/unarchiver/main.rs:45 | A line loses exactly one trailing carriage return, and only when it has one. |
| `Unarchiver.LinesCons` | src/unarchiver/main.rs:45 | A newline-free line not ending in `\r`, followed by a newline, is read back as exactly that line. |
| `Unarchiver.CrIsStripped` | src/unarchiver/main.rs:45 | Any newline-free line followed by `\r\n` reads back as the line without the `\r`, followed by the lines of the rest. |
| `Unarchiver.ReadFooter` | src/unarchiver/main.rs:88-93 | The footer read succeeds exactly when the file has 8 bytes. It then yields the `u64` whose encoding is the last 8 bytes. |
| `Unarchiver.LocateHeader` | src/unarchiver/main.rs:87-98 | A file shorter than 8 bytes fails with `UnexpectedEof`. A located header lies inside the file and encodes to the 40 bytes at the position reported. |
| `Unarchiver.FooterMissing` | src/unarchiver/main.rs:89-91 | When fewer than 8 bytes lie at `exe_len - 8`, locating the header fails with `UnexpectedEof`. |
| `Unarchiver.FooterPresent` | src/unarchiver/main.rs:89-93 | The 8 bytes at `exe_len - 8` are the footer that is read. |
| `Unarchiver.LocateAfterFooter` | src/unarchiver/main.rs:94-98 | After the footer, the header is the parse at `exe_len - 8 - footer` (both subtractions wrapping), reported with that position, and a parse error is the result. |
| `Unarchiver.FooterUnderflowFails` | src/unarchiver/main.rs:94 | A footer larger than the bytes before it makes the subtraction wrap to a position with fewer than 8 bytes left, and locating the header fails with `UnexpectedEof`. |
| `Unarchiver.ReadHeaderFromExe` | src/unarchiver/main.rs:87-99 | The seeks and reads produce exactly `LocateHeader` of the file, or `Other` if it is broken. On success the cursor is just after the header. |
| `Unarchiver.DecompressWriter.constructor` | src/unarchiver/main.rs:110-118 | A new writer has `count` 0 and an empty digest context. |
| `Unarchiver.DecompressWriter.Write` | src/unarchiver/main.rs:126-132 | `count` grows by exactly what the file accepted, and the digest consumes exactly `buf[..bytes]`. An inner error leaves both unchanged. |
| `Unarchiver.DecompressWriter.WriteAll` | src/unarchiver/main.rs:125-137 | Writing a decoded block through the wrapper succeeds exactly when the file can take it. The file and the digest then have received exactly the block. |
| `Unarchiver.DecompressWriter.Flush` | src/unarchiver/main.rs:134-136 | `flush` delegates. |
| `Unarchiver.DecompressWriter.Md5Digest` | src/unarchiver/main.rs:120-122 | `md5_digest` is the MD5 of exactly the bytes written to the file through the wrapper, and it changes no state. |
| `Unarchiver.CopyDecode` | src/unarchiver/main.rs:71-73 | The data cursor advances by exactly min(`compressed_size`, remaining). The call succeeds exactly when that block decodes and the file can take the result, and the file then receives exactly the decoded bytes. |
| `Unarchiver.Step` | src/unarchiver/main.rs:59-82 | An entry keeps its manifest line as its path. The size and digest cursors advance by 16 each, and the data cursor never moves back. |
| `Unarchiver.StepReads` | src/unarchiver/main.rs:59-80 | A turn fails exactly when fewer than 16 bytes remain at the size or digest cursor, or when the `compressed_size` bytes at the data cursor do not unpack. Otherwise the entry holds that block decoded, the data cursor moves past the block, and the entry is "ok" exactly when the MD5 of its contents equals the 16 stored bytes. |
| `Unarchiver.Unpack` | src/unarchiver/main.rs:68-73 | A block yields its decoded bytes exactly when it decodes to at most `MAX_FILE_LEN` = 2^64 - 1 bytes, the most a file can hold. Otherwise it fails with `Other`. |
| `Unarchiver.TurnKeepsPaths` | src/unarchiver/main.rs:45-57 | Every turn that succeeds reports its entry under the manifest line it was given. |
| `Unarchiver.Walk` | src/unarchiver/main.rs:45-84 | The loop keeps the entries already reported and reports at most one entry per line. It ends `Ok` exactly when every line has its entry. |
| `Unarchiver.WalkMoves` | src/unarchiver/main.rs:45-83 | A loop that reports a new entry took a successful turn on the first line, and the rest of the loop continues from that turn's cursors. |
| `Unarchiver.WalkPaths` | src/unarchiver/main.rs:45-57 | The k-th entry the loop reports carries the k-th line, when every turn keeps its line. |
| `Unarchiver.SectionCursors` | src/unarchiver/main.rs:22-42 | Without wrap-around, the size cursor starts right after the header and the manifest, the digest cursor right after the size table, and the data cursor right after the digest table. |
| `Unarchiver.Extract` | src/unarchiver/main.rs:17-84 | Once the header is located, the entries are reported under the manifest's lines, in order, at most one per line, and the result is `Ok` exactly when every line has its entry. |
| `Unarchiver.HeaderFailureExtractsNothing` | src/unarchiver/main.rs:17-20 | A missing or damaged header ends the extraction with its error, before any entry. |
| `Unarchiver.ReadSizes` | src/unarchiver/main.rs:59-63 | The sizes read consumes exactly 16 bytes: the original size, then the compressed size. Fewer bytes give `UnexpectedEof`. |
| `Unarchiver.ExtractEntry` | src/unarchiver/main.rs:46-82 | The loop body, with its three readers, produces exactly the entry, the new cursor positions or the error that `Step` specifies. |
| `Unarchiver.DecodeToFile` | src/unarchiver/main.rs:53-75 | The new file holds exactly what `Unpack` gives for the next `compressed_size` bytes, and the digest returned is its MD5. |
| `Unarchiver.MainInner` | src/unarchiver/main.rs:17-85 | The whole unarchiver yields exactly `Extract` of its executable. |
| `Unarchiver.ExtractLines` | src/unarchiver/main.rs:27-84 | The loop over the manifest lines, with three cursors, yields exactly the `Walk` of those lines. |
| `RoundTrip.Recover` | src/unarchiver/main.rs:71-80 | The entry for a record has the record's path, the decoding of its data, and "ok" exactly when that decoding's MD5 is the stored digest. |
| `RoundTrip.ManifestLines` | src/archiver/main.rs:87-90 | The manifest the archiver writes for `LineSafe` paths splits back into exactly those paths, in order. |
| `RoundTrip.SizesAt` | src/unarchiver/main.rs:59-63 | The compressed size read at a size pair is the one written there. |
| `RoundTrip.StepRecovers` | src/unarchiver/main.rs:59-82 | At cursors that point at a record's size pair, digest and data, one turn of the loop reports `Recover` of that record and advances the cursors past it. |
| `RoundTrip.WalkRecovers` | src/unarchiver/main.rs:45-83 | With the cursors at the start of the records' pieces, walking their paths reports one `Recover` per record, in order, and ends `Ok`. |
| `RoundTrip.LocateContainer` | src/unarchiver/main.rs:87-98 | The footer of a written container leads back to its header: the header read is the one written, at the image length. |
| `RoundTrip.ContainerSections` | src/unarchiver/main.rs:22-42 | The section offsets computed from that header point at the manifest, the size pairs, the digests and the data that were written. |
| `RoundTrip.ExtractWalks` | src/unarchiver/main.rs:17-45 | Extraction of a written container is the walk of its records' paths from the section offsets. |
| `RoundTrip.ContainerRoundTrip` | src/archiver/main.rs:56-112 | Extracting the image followed by the container for records whose sizes match their files, whose paths are `LineSafe` and whose data decode reports every record, in order, and ends `Ok`. |
| `RoundTrip.RecoveredAt` | src/unarchiver/main.rs:45 | The k-th entry reported is the one for the k-th record. |
| `RoundTrip.PackedRecovers` | src/archiver/compress/mod.rs:99-119 | The record `compress_to_temp` builds for a file with a safe archive path has `compressed_size` equal to its data's length, decodes back to the file's contents, and is reported under that path, "ok". |
| `RoundTrip.PackThenExtract` | src/archiver/compress/mod.rs:43-63 | Pack a directory where every file packs, every archive path is safe and the codec round-trips. Then extract the container written for the kept records. This ends `Ok` with one entry per file, in input order: its archive path string, its original contents, reported "ok". |

## Left out

- Zstandard and MD5 themselves (RFC 8878, RFC 1321). They are foreign library calls, and they are parameters here. The round trip assumes `RoundTrips(codec, level)` as a precondition.
- Compress.CopyEncode: the streaming encoder interleaves reads and writes. The model reads everything, then writes the whole stream. A write error that the real encoder meets before a later read error is reported here as the read error.
- Unarchiver.CopyDecode: `copy_decode` decodes and writes block by block. The model decodes the whole block first, so an undecodable stream writes nothing, where the real decoder may already have written a prefix.
- Unarchiver.CopyDecode: the error of an undecodable stream is `Other`. The zstd crate's exact error kind is not modelled.
- Utils.BufCopy: the contract does not state that each chunk is at most 8192 bytes. The bound holds by construction, because reads fill a `BUF_SIZE` buffer.
- Archiver.WriteContainer: `BufWriter` buffering is not modelled. Each write reaches the file at once, so a full disk fails at the write that crosses the capacity, where a `BufWriter` fails at a later write or at flush. When writing fails, `exe` is what reached the file.
- Archiver.WriteContainer: the header is built as the source builds it (`len * 8 * 2` for `sizes_len`, `len * 16` for `hashes_len`). The contract requires the total to fit in a `u64`; a debug build panics on overflow and a release build would wrap.
- Unarchiver.ReadHeaderFromExe: failure of `metadata()` is not modelled. The length is the length of the byte string.
- Unarchiver.ExtractEntry: creating the parent directory and the file (`create_dir_all`, `open`) always succeeds here, and the file is created before the sizes are read. The partial file left after an error is not reported.
- Unarchiver.Unpack: a full disk is not modelled. The decoded file accepts anything up to 2^64 - 1 bytes. The source writes through a `BufWriter` and drops it without a flush, so an error on that last flush is lost, and the entry is still reported "ok" because the digest covers the bytes given to the writer.
- Unarchiver.DecodeToFile: the file is written directly, without the `BufWriter`. A write error that the buffer would delay, or lose at the final implicit flush, is not modelled, and neither is a full disk.
- Unarchiver.MainInner: the executable opens four times, and its seeks and reads never fail with an I/O error. Reading past its end still gives `UnexpectedEof`. A broken executable is modelled only in `ReadHeaderFromExe`.
- Unarchiver.ExtractLines: the three section readers are never broken, as for `MainInner`.
- Archiver.WriteFiles: rewinding and reading a temporary file (`seek`, and the reads of `buf_copy`) never fail. Only the output can fail.
- Archiver.WriteContainer: its temporary files never fail, as for `WriteFiles`.
- Compress.CompressToTemp: a failing `metadata()` on the opened file is folded into `openFails`. Both end the call before anything is read, with the same kind of result. `original_size` is the length of the file's contents.
- `current_exe`, reopening the executable four times, output-path defaulting, the Windows `.exe` rule and `std::fs::copy` of the unarchiver. The image before the container is a parameter.
- Progress bars and every `print!`/`println!`. The ok/corrupted report is the `ok` field of each entry.
- Rayon parallelism in directory mode. It is modelled as a sequential filter in input order, since each path is processed independently.
- `glob` and argument parsing. The target's paths are given as a `Glob` value of paths under the root.
- Temporary-file creation details and the temp directory choice. A `FileEnv` says whether each step fails.
- `to_string_lossy` and UTF-8. Names are bytes, joined with `/`, and no lossy replacement happens. `lines()` is modelled on bytes and never fails on invalid UTF-8.
- `usize` casts of the sizes. They are identities on 64-bit targets.
- Seeks beyond `i64::MAX`, which the operating system rejects, are allowed here and read as end of file.
