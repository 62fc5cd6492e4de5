/**
 * The container header: an 8-byte identifier followed by the four section
 * lengths, each a little-endian `u64`.
 *
 *   0x00  identifier
 *   0x08  paths_len
 *   0x10  sizes_len
 *   0x18  hashes_len
 *   0x20  compressed_data_len
 */
module CommonHeader {
  import opened Bytes
  import opened Io

  datatype Header = Header(pathsLen: u64, sizesLen: u64, hashesLen: u64, compressedDataLen: u64)

  /** `Header::IDENTIFIER`, spelled out byte by byte (see `IdentifierIsLe`). */
  const IDENTIFIER: seq<byte> := [0xD1, 0xC1, 0xB1, 0xA1, 0xD0, 0xC0, 0xB0, 0xA0]

  const HEADER_LEN: u64 := 40

  /** The 40 bytes that describe `h` on disk. */
  function Encode(h: Header): (r: seq<byte>)
    ensures |r| == HEADER_LEN
  {
    IDENTIFIER + U64ToLe(h.pathsLen) + U64ToLe(h.sizesLen) + U64ToLe(h.hashesLen) + U64ToLe(h.compressedDataLen)
  }

  /** Each field of the encoding sits at its documented offset. */
  lemma EncodeLayout(h: Header)
    ensures Encode(h)[0..8] == IDENTIFIER
    ensures Encode(h)[8..16] == U64ToLe(h.pathsLen)
    ensures Encode(h)[16..24] == U64ToLe(h.sizesLen)
    ensures Encode(h)[24..32] == U64ToLe(h.hashesLen)
    ensures Encode(h)[32..40] == U64ToLe(h.compressedDataLen)
  {
  }

  /** The identifier is `0xA0B0C0D0A1B1C1D1u64.to_le_bytes()`. */
  lemma IdentifierIsLe()
    ensures IDENTIFIER == U64ToLe(0xA0B0C0D0A1B1C1D1)
  {
    var id := IDENTIFIER;
    assert LeValue(id[7..]) == 0xA0 by { assert id[7..][1..] == []; }
    assert LeValue(id[6..]) == 0xA0B0 by { assert id[6..][1..] == id[7..]; }
    assert LeValue(id[5..]) == 0xA0B0C0 by { assert id[5..][1..] == id[6..]; }
    assert LeValue(id[4..]) == 0xA0B0C0D0 by { assert id[4..][1..] == id[5..]; }
    assert LeValue(id[3..]) == 0xA0B0C0D0A1 by { assert id[3..][1..] == id[4..]; }
    assert LeValue(id[2..]) == 0xA0B0C0D0A1B1 by { assert id[2..][1..] == id[3..]; }
    assert LeValue(id[1..]) == 0xA0B0C0D0A1B1C1 by { assert id[1..][1..] == id[2..]; }
    assert LeValue(id) == 0xA0B0C0D0A1B1C1D1;
    assert LeToU64(id) == 0xA0B0C0D0A1B1C1D1;
    LeToU64Inverse(id);
  }

  /**
   * What `parse_stream` yields on a reader whose remaining bytes are `s`: the
   * identifier is checked before any length field is read, and each of the five
   * reads needs 8 more bytes.
   */
  function Parse(s: seq<byte>): (r: IoResult<Header>)
    ensures r.Ok? <==> |s| >= HEADER_LEN && s[..8] == IDENTIFIER
    ensures |s| < 8 ==> r == Err(UnexpectedEof)
    ensures |s| >= 8 && s[..8] != IDENTIFIER ==> r == Err(InvalidData)
    ensures |s| >= 8 && s[..8] == IDENTIFIER && |s| < HEADER_LEN ==> r == Err(UnexpectedEof)
    ensures r.Ok? ==> Encode(r.value) == s[..HEADER_LEN]
  {
    if |s| < 8 then Err(UnexpectedEof)
    else if s[..8] != IDENTIFIER then Err(InvalidData)
    else if |s| < HEADER_LEN then Err(UnexpectedEof)
    else
      var h := Header(LeToU64(s[8..16]), LeToU64(s[16..24]), LeToU64(s[24..32]), LeToU64(s[32..40]));
      LeToU64Inverse(s[8..16]);
      LeToU64Inverse(s[16..24]);
      LeToU64Inverse(s[24..32]);
      LeToU64Inverse(s[32..40]);
      FieldsCover(s);
      Ok(h)
  }

  /** The first 40 bytes of `s` are its five 8-byte fields, in order. */
  lemma FieldsCover(s: seq<byte>)
    requires |s| >= HEADER_LEN
    ensures s[..HEADER_LEN] == s[..8] + s[8..16] + s[16..24] + s[24..32] + s[32..40]
  {
    assert s[..16] == s[..8] + s[8..16];
    assert s[..24] == s[..16] + s[16..24];
    assert s[..32] == s[..24] + s[24..32];
    assert s[..40] == s[..32] + s[32..40];
  }

  /** Parsing what `to_bytes` wrote gives back the same header, whatever follows it. */
  lemma ParseEncode(h: Header, rest: seq<byte>)
    ensures Parse(Encode(h) + rest) == Ok(h)
  {
    var s := Encode(h) + rest;
    EncodeLayout(h);
    assert s[..8] == IDENTIFIER;
    assert s[8..16] == U64ToLe(h.pathsLen);
    assert s[16..24] == U64ToLe(h.sizesLen);
    assert s[24..32] == U64ToLe(h.hashesLen);
    assert s[32..40] == U64ToLe(h.compressedDataLen);
    U64RoundTrip(h.pathsLen);
    U64RoundTrip(h.sizesLen);
    U64RoundTrip(h.hashesLen);
    U64RoundTrip(h.compressedDataLen);
  }

  /** Two headers with the same encoding are equal: no two fields share or swap a slot. */
  lemma EncodeInjective(h1: Header, h2: Header)
    requires Encode(h1) == Encode(h2)
    ensures h1 == h2
  {
    ParseEncode(h1, []);
    ParseEncode(h2, []);
    assert Encode(h1) + [] == Encode(h2) + [];
  }

  /** `Header::to_bytes`: fills a 40-byte buffer field by field. */
  method ToBytes(h: Header) returns (r: seq<byte>)
    ensures r == Encode(h)
  {
    ghost var enc := Encode(h);
    EncodeLayout(h);
    var buf := new byte[40](_ => 0);
    var ptr := 0;
    CopyFromSlice(buf, ptr, IDENTIFIER);
    assert buf[..8] == enc[..8];

    ptr := ptr + 8;
    CopyFromSlice(buf, ptr, U64ToLe(h.pathsLen));
    assert enc[..16] == enc[..8] + enc[8..16];
    assert buf[..16] == enc[..16];

    ptr := ptr + 8;
    CopyFromSlice(buf, ptr, U64ToLe(h.sizesLen));
    assert enc[..24] == enc[..16] + enc[16..24];
    assert buf[..24] == enc[..24];

    ptr := ptr + 8;
    CopyFromSlice(buf, ptr, U64ToLe(h.hashesLen));
    assert enc[..32] == enc[..24] + enc[24..32];
    assert buf[..32] == enc[..32];

    ptr := ptr + 8;
    CopyFromSlice(buf, ptr, U64ToLe(h.compressedDataLen));
    assert enc[..40] == enc[..32] + enc[32..40];
    assert buf[..40] == enc[..40];

    r := buf[..];
  }

  /** `buf[at..at + src.len()].copy_from_slice(src)`. */
  method CopyFromSlice(buf: array<byte>, at: nat, src: seq<byte>)
    requires at + |src| <= buf.Length
    modifies buf
    ensures buf[..at + |src|] == old(buf[..at]) + src
    ensures buf[at + |src|..] == old(buf[at + |src|..])
  {
    forall i | 0 <= i < |src| {
      buf[at + i] := src[i];
    }
  }

  /** `Header::parse_stream`: five `read_exact` calls into one reused 8-byte buffer. */
  method ParseStream(reader: Source) returns (r: IoResult<Header>)
    modifies reader
    ensures reader.broken ==> r == Err(Other)
    ensures !reader.broken ==> r == Parse(Tail(reader.data, old(reader.pos)))
    ensures r.Ok? ==> reader.pos == old(reader.pos) + HEADER_LEN
  {
    ghost var s := Tail(reader.data, reader.pos);
    ghost var p := reader.pos;
    var buf := new byte[8](_ => 0);

    var read := reader.ReadExact(buf);
    if read.Err? {
      return Err(read.error);
    }
    if buf[..] != IDENTIFIER {
      return Err(InvalidData);
    }
    TailTail(reader.data, p, 8);

    var pathsLen := ReadU64(reader, buf, s, 8);
    if pathsLen.Err? {
      return Err(pathsLen.error);
    }
    var sizesLen := ReadU64(reader, buf, s, 16);
    if sizesLen.Err? {
      return Err(sizesLen.error);
    }
    var hashesLen := ReadU64(reader, buf, s, 24);
    if hashesLen.Err? {
      return Err(hashesLen.error);
    }
    var compressedDataLen := ReadU64(reader, buf, s, 32);
    if compressedDataLen.Err? {
      return Err(compressedDataLen.error);
    }
    r := Ok(Header(pathsLen.value, sizesLen.value, hashesLen.value, compressedDataLen.value));
  }

  /**
   * One `read_exact(&mut buf)` followed by `u64::from_le_bytes(buf)`, reading the
   * field at offset `at` of the bytes `s` the header starts at.
   */
  method ReadU64(reader: Source, buf: array<byte>, ghost s: seq<byte>, ghost at: nat) returns (r: IoResult<u64>)
    requires buf.Length == 8 && at <= |s|
    requires Tail(reader.data, reader.pos) == s[at..]
    modifies reader, buf
    ensures reader.broken ==> r == Err(Other)
    ensures r.Ok? <==> !reader.broken && at + 8 <= |s|
    ensures r.Err? && !reader.broken ==> r.error == UnexpectedEof
    ensures r.Ok? ==> r.value == LeToU64(s[at..at + 8])
    ensures r.Ok? ==> reader.pos == old(reader.pos) + 8 && Tail(reader.data, reader.pos) == s[at + 8..]
  {
    var read := reader.ReadExact(buf);
    if read.Err? {
      return Err(read.error);
    }
    TailTail(reader.data, old(reader.pos), 8);
    assert buf[..] == s[at..at + 8];
    r := Ok(LeToU64(buf[..]));
  }

  /**
   * `Header::header_and_data_len`: how far the end of the data section lies
   * from the start of the encoded header, the four sections following it.
   */
  function HeaderAndDataLen(h: Header): (n: u64)
    requires HEADER_LEN + h.pathsLen + h.sizesLen + h.hashesLen + h.compressedDataLen < U64_LIMIT
    ensures n == |Encode(h)| + h.pathsLen + h.sizesLen + h.hashesLen + h.compressedDataLen
  {
    HEADER_LEN + h.pathsLen + h.sizesLen + h.hashesLen + h.compressedDataLen
  }
}
