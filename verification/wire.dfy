/**
  The wire format of one framed packet on the serial link:

    | START1 | START2 | length high byte | length low byte | payload ... |

  The length is an unsigned big-endian 16-bit count of payload bytes.
  The constants live in a header file that is not part of this model; the
  values below are the ones of the Meshtastic serial stream protocol. The
  proofs rely on these facts about them: HEADER_SIZE is 4; MAX_PACKET_SIZE is
  below 2^16 (and at least 3 for the five-read example); START1 is neither CR
  nor LF, and is none of the text bytes of the concrete log example.
*/
module Wire {

  /** One octet as the C code sees a `uint8_t`. */
  type byte = x: int | 0 <= x < 256

  /** First marker byte of every frame. */
  const START1: byte := 0x94

  /** Second marker byte of every frame. */
  const START2: byte := 0xC3

  /** Two markers plus the 16-bit length. */
  const HEADER_SIZE: nat := 4

  /** Largest payload length the reader accepts. */
  const MAX_PACKET_SIZE: nat := 512

  /** Number of distinct values of the 16-bit length field. */
  const LENGTH_RANGE: nat := 0x1_0000

  /** The header serial_write builds for a payload of `len` bytes: the two
      markers, then `(uint8_t)((len >> 8) & 0xFF)` and `(uint8_t)(len & 0xFF)`.
      On the unsigned `size_t` length, `>> 8` is division by 256 and `& 0xFF`
      is the remainder modulo 256, so lengths above 0xFFFF lose their high bits. */
  function HeaderFor(len: nat): (h: seq<byte>)
    ensures |h| == HEADER_SIZE
    ensures h[0] == START1 && h[1] == START2
    ensures h[2] as int * 256 + h[3] as int == len % LENGTH_RANGE
  {
    [START1, START2, (len / 256) % 256, len % 256]
  }

  /** The length the reader decodes from header bytes 2 and 3,
      `(buf[2] << 8) | buf[3]`. The shifted high byte has its low eight bits
      clear, so the `|` adds the low byte: the big-endian value of the pair. */
  function DecodeLength(hi: byte, lo: byte): (n: nat)
    ensures n < LENGTH_RANGE
    ensures n / 256 == hi && n % 256 == lo
  {
    hi as int * 256 + lo as int
  }

  /** Encoding a length into a header and decoding it again gives the length
      back modulo 2^16; every length the reader can accept survives intact. */
  lemma HeaderRoundTrip(len: nat)
    ensures DecodeLength(HeaderFor(len)[2], HeaderFor(len)[3]) == len % LENGTH_RANGE
    ensures len <= MAX_PACKET_SIZE ==> DecodeLength(HeaderFor(len)[2], HeaderFor(len)[3]) == len
  {
  }

  /** Conversely, the header built for a decoded length repeats the two
      length bytes it was decoded from. */
  lemma DecodeThenEncode(hi: byte, lo: byte)
    ensures HeaderFor(DecodeLength(hi, lo))[2..] == [hi, lo]
  {
    var n := DecodeLength(hi, lo);
    var h := HeaderFor(n);
    assert h[2] == hi && h[3] == lo;
  }
}
