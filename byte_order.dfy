/**
 * Network-to-host conversion of 64-bit integers (ntohll).
 *
 * Network byte order is big-endian. On a big-endian host the conversion is
 * the identity; on a little-endian host the source splits the value into two
 * 32-bit halves, converts each with ntohl (a 32-bit byte swap on such a host)
 * and puts the converted low half on top. Which kind of host the library was
 * built for is a compile-time setting; here it is the parameter
 * `hostBigEndian`.
 */
module ByteOrder {

  /** ntohl on a little-endian host: the four bytes of the word in reverse order. */
  function Bswap32(x: bv32): bv32
  {
    ((x & 0xff) << 24) | ((x & 0xff00) << 8) | ((x >> 8) & 0xff00) | (x >> 24)
  }

  /**
   * Reference definition: byte k of the result (counting from the least
   * significant) is byte 7 - k of `a`.
   */
  function ByteReversed(a: bv64): bv64
  {
    ((a & 0xff) << 56) | (((a >> 8) & 0xff) << 48) | (((a >> 16) & 0xff) << 40) | (((a >> 24) & 0xff) << 32) |
    (((a >> 32) & 0xff) << 24) | (((a >> 40) & 0xff) << 16) | (((a >> 48) & 0xff) << 8) | (a >> 56)
  }

  /** ntohll: identity on a big-endian host, a reversal of all eight bytes otherwise. */
  function Ntohll(a: bv64, hostBigEndian: bool): (r: bv64)
    ensures hostBigEndian ==> r == a
    ensures !hostBigEndian ==> r == ByteReversed(a)
  {
    if hostBigEndian then a
    else
      var low := (a & 0xffff_ffff) as bv32;
      var high := (a >> 32) as bv32;
      ((Bswap32(low) as bv64) << 32) | (Bswap32(high) as bv64)
  }

  /** The 64-bit value whose bytes, most significant first, are `b0` to `b7`. */
  function Pack(b0: bv8, b1: bv8, b2: bv8, b3: bv8, b4: bv8, b5: bv8, b6: bv8, b7: bv8): bv64
  {
    ((b0 as bv64) << 56) | ((b1 as bv64) << 48) | ((b2 as bv64) << 40) | ((b3 as bv64) << 32) |
    ((b4 as bv64) << 24) | ((b5 as bv64) << 16) | ((b6 as bv64) << 8) | (b7 as bv64)
  }

  /** The value eight bytes in memory stand for when the first byte is the most significant. */
  function BigEndianValue(m: seq<bv8>): bv64
    requires |m| == 8
  {
    Pack(m[0], m[1], m[2], m[3], m[4], m[5], m[6], m[7])
  }

  /** The value eight bytes in memory stand for when the first byte is the least significant. */
  function LittleEndianValue(m: seq<bv8>): bv64
    requires |m| == 8
  {
    Pack(m[7], m[6], m[5], m[4], m[3], m[2], m[1], m[0])
  }

  /** The value a host reads from eight bytes in memory. */
  function HostLoad(m: seq<bv8>, hostBigEndian: bool): bv64
    requires |m| == 8
  {
    if hostBigEndian then BigEndianValue(m) else LittleEndianValue(m)
  }

  /** Reversing the bytes of a packed value packs the same bytes in the opposite order. */
  lemma ByteReversedPack(b0: bv8, b1: bv8, b2: bv8, b3: bv8, b4: bv8, b5: bv8, b6: bv8, b7: bv8)
    ensures ByteReversed(Pack(b0, b1, b2, b3, b4, b5, b6, b7)) == Pack(b7, b6, b5, b4, b3, b2, b1, b0)
  {
  }

  /**
   * The point of ntohll: eight bytes received in network order and loaded by
   * the host come out as the big-endian value they encode, on either host.
   */
  lemma NtohllReadsNetworkOrder(m: seq<bv8>, hostBigEndian: bool)
    requires |m| == 8
    ensures Ntohll(HostLoad(m, hostBigEndian), hostBigEndian) == BigEndianValue(m)
  {
    if !hostBigEndian {
      ByteReversedPack(m[7], m[6], m[5], m[4], m[3], m[2], m[1], m[0]);
    }
  }

  /** Converting twice gives back the original value, on either host. */
  lemma NtohllInvolution(a: bv64, hostBigEndian: bool)
    ensures Ntohll(Ntohll(a, hostBigEndian), hostBigEndian) == a
  {
  }
}
