/**
 * The sensor's response frame: nine big-endian signed 16-bit fields in
 * eighteen bytes, and the byte-pair decode that turns them into values.
 */
module Wire {

  /** An unsigned 8-bit value, as `uint8_t`. */
  type byte = x: int | 0 <= x < 0x100

  /** A signed 16-bit value, as `int16_t`. */
  type int16 = x: int | -0x8000 <= x < 0x8000

  /** Number of bytes in one response frame. */
  const FrameLength: nat := 18

  /** Number of 16-bit fields in one response frame. */
  const FieldCount: nat := 9

  /** A response frame as the decoder receives it: exactly eighteen bytes. */
  type Frame = s: seq<byte> | |s| == FrameLength
    witness [0, 0, 0, 0, 0, 0, 0, 0, 0, 0, 0, 0, 0, 0, 0, 0, 0, 0]

  /**
   * The conversion of an `int` into `int16_t` done by the assignment to
   * `data[s]`: the one 16-bit value congruent to `x` modulo 2^16
   * (two's-complement wrap-around).
   */
  function Narrow16(x: int): (r: int16)
    ensures (r - x) % 0x1_0000 == 0
    ensures -0x8000 <= x < 0x8000 ==> r == x
  {
    var m := x % 0x1_0000;
    if m < 0x8000 then m else m - 0x1_0000
  }

  /**
   * The word `(hi << 8) | lo` before it is narrowed. The high byte is
   * widened from an unsigned byte, so it is never sign-extended: the shift
   * multiplies it by 256, and the OR adds `lo`, whose bits are all below
   * bit 8. The word lies in 0..65535 and gives both bytes back.
   */
  function Word(hi: byte, lo: byte): (w: int)
    ensures 0 <= w < 0x1_0000
    ensures w / 0x100 == hi && w % 0x100 == lo
  {
    hi * 0x100 + lo
  }

  /** One decoded field: the word of a big-endian byte pair, narrowed to 16 bits. */
  function DecodePair(hi: byte, lo: byte): (v: int16)
    ensures (v - hi * 0x100 - lo) % 0x1_0000 == 0
    ensures v < 0 <==> hi >= 0x80
  {
    Narrow16(Word(hi, lo))
  }

  /** The big-endian two's-complement bytes of a 16-bit value. */
  function EncodePair(v: int16): (p: (byte, byte))
    ensures p.0 * 0x100 + p.1 == v % 0x1_0000
  {
    var u := v % 0x1_0000;
    (u / 0x100, u % 0x100)
  }

  /**
   * The field is the plain word when the high bit is clear and the word
   * minus 2^16 otherwise; equivalently, the high byte read as a signed byte,
   * times 256, plus the low byte.
   */
  lemma DecodePairCases(hi: byte, lo: byte)
    ensures DecodePair(hi, lo) == if hi < 0x80 then hi * 0x100 + lo else hi * 0x100 + lo - 0x1_0000
    ensures DecodePair(hi, lo) == (if hi >= 0x80 then hi - 0x100 else hi) * 0x100 + lo
  {
  }

  /** The sign comes from the narrowing: 0xFFFF is -1 and not 65535. */
  lemma DecodePairExamples()
    ensures DecodePair(0xFF, 0xFF) == -1
    ensures DecodePair(0x80, 0x00) == -0x8000
    ensures DecodePair(0x7F, 0xFF) == 0x7FFF
    ensures DecodePair(0x40, 0x00) == 16384
    ensures DecodePair(0x00, 0x00) == 0
  {
  }

  /** Decoding the encoding of a value gives the value back. */
  lemma PairRoundTrip(v: int16)
    ensures DecodePair(EncodePair(v).0, EncodePair(v).1) == v
  {
  }

  /** Encoding a decoded byte pair gives the bytes back: no two pairs decode alike. */
  lemma PairRoundTripBytes(hi: byte, lo: byte)
    ensures EncodePair(DecodePair(hi, lo)) == (hi, lo)
  {
  }

  /**
   * The fields of a byte sequence read as big-endian pairs: field `i` is
   * decoded from bytes `2i` and `2i+1` and from no other byte.
   */
  function DecodeValues(raw: seq<byte>): (vals: seq<int16>)
    requires |raw| % 2 == 0
    ensures |vals| == |raw| / 2
    ensures forall i :: 0 <= i < |vals| ==> vals[i] == DecodePair(raw[2 * i], raw[2 * i + 1])
    decreases |raw|
  {
    if raw == [] then [] else [DecodePair(raw[0], raw[1])] + DecodeValues(raw[2..])
  }

  /** The big-endian two's-complement byte sequence of a sequence of 16-bit values. */
  function EncodeValues(vals: seq<int16>): (raw: seq<byte>)
    ensures |raw| == 2 * |vals|
  {
    if vals == [] then [] else [EncodePair(vals[0]).0, EncodePair(vals[0]).1] + EncodeValues(vals[1..])
  }

  /** Decoding undoes encoding, for any sequence of 16-bit values. */
  lemma {:induction false} DecodeEncode(vals: seq<int16>)
    ensures DecodeValues(EncodeValues(vals)) == vals
  {
    if vals != [] {
      var raw := EncodeValues(vals);
      DecodeEncode(vals[1..]);
      assert raw[2..] == EncodeValues(vals[1..]);
      PairRoundTrip(vals[0]);
    }
  }

  /** Encoding undoes decoding, for any even-length byte sequence. */
  lemma {:induction false} EncodeDecode(raw: seq<byte>)
    requires |raw| % 2 == 0
    ensures EncodeValues(DecodeValues(raw)) == raw
    decreases |raw|
  {
    if raw != [] {
      var vals := DecodeValues(raw);
      EncodeDecode(raw[2..]);
      assert vals[1..] == DecodeValues(raw[2..]);
      PairRoundTripBytes(raw[0], raw[1]);
      assert raw == [raw[0], raw[1]] + raw[2..];
    }
  }

  /** Two frames with the same decoded fields are the same frame: decoding loses nothing. */
  lemma DecodeInjective(a: seq<byte>, b: seq<byte>)
    requires |a| % 2 == 0 && |b| % 2 == 0
    requires DecodeValues(a) == DecodeValues(b)
    ensures a == b
  {
    EncodeDecode(a);
    EncodeDecode(b);
  }

  /** Field `i` of two frames agrees whenever bytes `2i` and `2i+1` agree, whatever the other bytes are. */
  lemma DecodeValueIsLocal(a: seq<byte>, b: seq<byte>, i: nat)
    requires |a| == |b| && |a| % 2 == 0 && i < |a| / 2
    requires a[2 * i] == b[2 * i] && a[2 * i + 1] == b[2 * i + 1]
    ensures DecodeValues(a)[i] == DecodeValues(b)[i]
  {
  }
}
