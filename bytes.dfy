/**
 * Byte and word helpers of the sensor's protocol engine: packing eight bytes
 * into a 64-bit word, most significant byte first, and splitting it back.
 * `byte` and `word` are Rust's `u8` and `u64`; as bit-vectors, their
 * arithmetic wraps exactly as the Rust operators on them do.
 */
module Bytes {

  type byte = bv8
  type word = bv64

  /** A byte read as a number, for the parts of the protocol that do
      arithmetic on byte values rather than bit manipulation. */
  type octet = x: int | 0 <= x < 0x100

  /** Each byte as a number. */
  function Octets(s: seq<byte>): (r: seq<octet>)
    requires |s| == 8
    ensures |r| == |s|
  {
    [s[0] as int, s[1] as int, s[2] as int, s[3] as int, s[4] as int, s[5] as int, s[6] as int, s[7] as int]
  }

  /** Each number as a byte. */
  function FromOctets(s: seq<octet>): (r: seq<byte>)
    requires |s| == 8
    ensures |r| == |s|
  {
    [s[0] as byte, s[1] as byte, s[2] as byte, s[3] as byte, s[4] as byte, s[5] as byte, s[6] as byte, s[7] as byte]
  }

  lemma OctetRoundTrip(x: nat)
    requires x < 0x100
    ensures (x as byte) as int == x
  {
    var w := x as bv16;
    assert w < 0x100;
  }

  /** Reading bytes as numbers and back gives the same bytes. */
  lemma FromOctetsOctets(s: seq<byte>)
    requires |s| == 8
    ensures FromOctets(Octets(s)) == s
  {
  }

  /** Storing numbers as bytes and reading them back gives the same
      numbers. */
  lemma OctetsFromOctets(t: seq<octet>)
    requires |t| == 8
    ensures Octets(FromOctets(t)) == t
  {
    OctetRoundTrip(t[0]);
    OctetRoundTrip(t[1]);
    OctetRoundTrip(t[2]);
    OctetRoundTrip(t[3]);
    OctetRoundTrip(t[4]);
    OctetRoundTrip(t[5]);
    OctetRoundTrip(t[6]);
    OctetRoundTrip(t[7]);
  }

  /** The eight bytes of `n`, most significant first: byte `i` holds bits
      `63 - 8*i` down to `56 - 8*i`. */
  function BytesOf(n: word): (r: seq<byte>)
    ensures |r| == 8
  {
    [((n >> 56) & 0xFF) as byte, ((n >> 48) & 0xFF) as byte,
     ((n >> 40) & 0xFF) as byte, ((n >> 32) & 0xFF) as byte,
     ((n >> 24) & 0xFF) as byte, ((n >> 16) & 0xFF) as byte,
     ((n >> 8) & 0xFF) as byte, (n & 0xFF) as byte]
  }

  /** `list_to_u64`: the big-endian reading of eight bytes. */
  function ListToU64(x: seq<byte>): (r: word)
    requires |x| == 8
    ensures r >> 56 == x[0] as word && r & 0xFF == x[7] as word
  {
    (x[7] as word) +
    ((x[6] as word) << 8) +
    ((x[5] as word) << 16) +
    ((x[4] as word) << 24) +
    ((x[3] as word) << 32) +
    ((x[2] as word) << 40) +
    ((x[1] as word) << 48) +
    ((x[0] as word) << 56)
  }

  /** Splitting the word `list_to_u64` builds gives back exactly the bytes
      it was built from. */
  lemma BytesOfListToU64(x: seq<byte>)
    requires |x| == 8
    ensures BytesOf(ListToU64(x)) == x
  {
    assert x == [x[0], x[1], x[2], x[3], x[4], x[5], x[6], x[7]];
    SplitJoined(x[0], x[1], x[2], x[3], x[4], x[5], x[6], x[7]);
  }

  /** `BytesOfListToU64` for the eight bytes given one by one. */
  lemma SplitJoined(b0: byte, b1: byte, b2: byte, b3: byte, b4: byte, b5: byte, b6: byte, b7: byte)
    ensures BytesOf(ListToU64([b0, b1, b2, b3, b4, b5, b6, b7])) == [b0, b1, b2, b3, b4, b5, b6, b7]
  {
  }

  /** Packing the bytes of a word gives back the word: together with the
      contract of `ListToU64`, the two are inverse bijections. */
  lemma PackBytesOf(n: word)
    ensures ListToU64(BytesOf(n)) == n
  {
  }

  /** `u64_to_list`: fills a zeroed eight-byte buffer with the bytes of `x`,
      most significant first. */
  method U64ToList(x: word) returns (list: seq<byte>)
    ensures list == BytesOf(x) && ListToU64(list) == x
  {
    var a := new byte[8](_ => 0);
    a[0] := ((x >> 56) & 0xFF) as byte;
    a[1] := ((x >> 48) & 0xFF) as byte;
    a[2] := ((x >> 40) & 0xFF) as byte;
    a[3] := ((x >> 32) & 0xFF) as byte;
    a[4] := ((x >> 24) & 0xFF) as byte;
    a[5] := ((x >> 16) & 0xFF) as byte;
    a[6] := ((x >> 8) & 0xFF) as byte;
    a[7] := (x & 0xFF) as byte;
    list := a[..];
    assert list == BytesOf(x);
    PackBytesOf(x);
  }
}
