/**
 * Bytes, unsigned 64-bit integers and their little-endian encoding, as used by
 * every on-disk field of the container (`u64::to_le_bytes` / `u64::from_le_bytes`).
 */
module Bytes {

  newtype byte = b: int | 0 <= b < 256

  const U64_LIMIT: nat := 0x1_0000_0000_0000_0000

  /** Rust's `u64`. */
  type u64 = x: int | 0 <= x < U64_LIMIT

  /** The ASCII bytes paths and the manifest are built from. */
  const SLASH: byte := 0x2F
  const NEWLINE: byte := 0x0A
  const CR: byte := 0x0D

  /**
   * A path string the manifest can carry: it holds no newline (the manifest's
   * line separator) and does not end in a carriage return (which `lines()`
   * strips).
   */
  predicate LineSafe(s: seq<byte>)
  {
    NEWLINE !in s && (|s| == 0 || s[|s| - 1] != CR)
  }

  /** A 128-bit MD5 digest (`md5::Digest`). */
  type Digest = d: seq<byte> | |d| == 16 witness [0, 0, 0, 0, 0, 0, 0, 0, 0, 0, 0, 0, 0, 0, 0, 0]

  /**
   * `u64` addition or subtraction as a release build performs it: the exact
   * result taken modulo 2^64 (one operation leaves it at most one 2^64 away).
   */
  function Wrap(x: int): (r: u64)
    requires -(U64_LIMIT as int) <= x < 2 * U64_LIMIT
  {
    if x < 0 then x + U64_LIMIT else if x < U64_LIMIT then x else x - U64_LIMIT
  }

  function Pow256(n: nat): (r: nat)
    ensures r > 0
  {
    if n == 0 then 1 else 256 * Pow256(n - 1)
  }

  lemma Pow256Eight()
    ensures Pow256(8) == U64_LIMIT
  {
  }

  /** The `n` low-order bytes of `x`, least significant first. */
  function LeBytes(x: nat, n: nat): (r: seq<byte>)
    ensures |r| == n
  {
    if n == 0 then [] else [(x % 256) as byte] + LeBytes(x / 256, n - 1)
  }

  /** The number whose little-endian encoding is `s`. */
  function LeValue(s: seq<byte>): nat
  {
    if s == [] then 0 else s[0] as nat + 256 * LeValue(s[1..])
  }

  lemma {:induction false} LeValueBound(s: seq<byte>)
    ensures LeValue(s) < Pow256(|s|)
  {
    if s != [] {
      LeValueBound(s[1..]);
      assert LeValue(s[1..]) + 1 <= Pow256(|s| - 1);
      calc {
        LeValue(s);
        s[0] as nat + 256 * LeValue(s[1..]);
      <  256 + 256 * LeValue(s[1..]);
        256 * (LeValue(s[1..]) + 1);
      <= 256 * Pow256(|s| - 1);
      }
    }
  }

  /** Decoding an `n`-byte little-endian encoding gives back the number. */
  lemma {:induction false} LeValueOfBytes(x: nat, n: nat)
    requires x < Pow256(n)
    ensures LeValue(LeBytes(x, n)) == x
  {
    if n > 0 {
      var q := x / 256;
      assert q < Pow256(n - 1) by {
        assert 256 * q <= x < 256 * Pow256(n - 1);
      }
      LeValueOfBytes(q, n - 1);
      var s := LeBytes(x, n);
      assert s[1..] == LeBytes(q, n - 1);
    }
  }

  /** Encoding the value of a byte string at its own width gives back the string. */
  lemma {:induction false} LeBytesOfValue(s: seq<byte>)
    ensures LeBytes(LeValue(s), |s|) == s
  {
    if s != [] {
      var v := LeValue(s);
      var t := LeValue(s[1..]);
      assert v % 256 == s[0] as nat && v / 256 == t;
      LeBytesOfValue(s[1..]);
    }
  }

  /** The width of a `u64` in bytes. */
  const U64_BYTES: nat := 8

  /** `u64::to_le_bytes`: byte `i` is digit `i` of `x` in base 256. */
  function U64ToLe(x: u64): (r: seq<byte>)
    ensures |r| == U64_BYTES
  {
    seq(U64_BYTES, i requires 0 <= i < U64_BYTES => LeBytes(x, U64_BYTES)[i])
  }

  lemma U64ToLeIsLeBytes(x: u64)
    ensures U64ToLe(x) == LeBytes(x, U64_BYTES)
  {
  }

  /** `u64::from_le_bytes`. */
  function LeToU64(s: seq<byte>): u64
    requires |s| == 8
  {
    LeValueBound(s);
    Pow256Eight();
    LeValue(s)
  }

  /** Every 8-byte string is the encoding of the `u64` it decodes to. */
  lemma LeToU64Inverse(s: seq<byte>)
    requires |s| == 8
    ensures U64ToLe(LeToU64(s)) == s
  {
    LeBytesOfValue(s);
    U64ToLeIsLeBytes(LeToU64(s));
  }

  lemma U64RoundTrip(x: u64)
    ensures LeToU64(U64ToLe(x)) == x
  {
    Pow256Eight();
    LeValueOfBytes(x, U64_BYTES);
    U64ToLeIsLeBytes(x);
  }

  function Min(a: int, b: int): int
  {
    if a <= b then a else b
  }

  /** The bytes of `s` from position `p` on; none when `p` lies past the end (a seek beyond EOF). */
  function Tail(s: seq<byte>, p: int): (r: seq<byte>)
    ensures |r| == if 0 <= p <= |s| then |s| - p else 0
  {
    if 0 <= p <= |s| then s[p..] else []
  }

  lemma TailTail(s: seq<byte>, p: nat, k: nat)
    requires k <= |Tail(s, p)|
    ensures Tail(s, p + k) == Tail(s, p)[k..]
  {
  }

  /** At most `n` bytes from the front of `s` (`Read::take`). */
  function Take(s: seq<byte>, n: int): (r: seq<byte>)
    ensures |r| == Min(|s|, if n < 0 then 0 else n)
  {
    if n < 0 then [] else if n <= |s| then s[..n] else s
  }
}
