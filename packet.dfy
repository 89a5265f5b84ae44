/**
 * Decoding of one notification payload of the toy's characteristic
 * (mario.py:31-36, `make_handler`'s inner `raw_handler`).
 *
 * Byte 0 of a payload is a packet-type tag. Tag 7 marks an IMU packet whose
 * bytes 4, 5 and 6 are the signed 8-bit accelerometer readings x, y and z;
 * every other tag is ignored. A payload that is empty, or IMU-tagged but too
 * short to hold bytes 4..6, makes the source raise; here it is a `Failure`.
 */
module Packet {
  import opened Wrappers

  /** One byte of a notification payload, as Python's `bytes` yields it. */
  type Byte = b: int | 0 <= b < 256

  /** The packet-type tag of an IMU packet. */
  const ImuTag: Byte := 7

  /** The first offset of the x, y, z readings, and one past the last. */
  const ReadingsStart := 4
  const ReadingsEnd := 7

  /** One decoded accelerometer reading. */
  datatype Sample = Sample(x: int, y: int, z: int)

  /** Why a payload could not be decoded. */
  datatype DecodeError =
    | EmptyPayload      // `data[0]` on an empty payload raises IndexError
    | ShortImuPayload   // `struct.unpack("bbb", ...)` on fewer than 3 bytes raises

  /** The range of a signed 8-bit integer. */
  predicate IsInt8(v: int) {
    -128 <= v < 128
  }

  /** A sample whose three components are signed 8-bit values. */
  predicate IsInt8Sample(s: Sample) {
    IsInt8(s.x) && IsInt8(s.y) && IsInt8(s.z)
  }

  /**
   * Reads one byte as a two's-complement signed 8-bit integer (the "b"
   * format of Python's `struct`): the unique value in [-128, 127] that is
   * congruent to the byte modulo 256.
   */
  function ToSigned8(b: Byte): (v: int)
    ensures IsInt8(v)
    ensures (v - b) % 256 == 0
    ensures b < 128 ==> v >= 0
  {
    if b < 128 then b else b - 256
  }

  /** Writes a signed 8-bit integer as the byte that holds its two's complement. */
  function FromSigned8(v: int): (b: Byte)
    requires IsInt8(v)
    ensures (b - v) % 256 == 0
    ensures v >= 0 <==> b < 128
  {
    if v < 0 then v + 256 else v
  }

  /** Two signed 8-bit values that agree modulo 256 are equal. */
  lemma Int8Congruence(v: int, w: int)
    requires IsInt8(v) && IsInt8(w)
    requires (v - w) % 256 == 0
    ensures v == w
  {
  }

  /** `ToSigned8` and `FromSigned8` are inverse to each other. */
  lemma Signed8RoundTrip(b: Byte, v: int)
    requires IsInt8(v)
    ensures FromSigned8(ToSigned8(b)) == b
    ensures ToSigned8(FromSigned8(v)) == v
  {
  }

  /**
   * Decodes one notification payload: an IMU sample, `None` for a packet of
   * another type, or the error the source raises on a payload too short.
   */
  function Decode(data: seq<Byte>): (r: Result<Option<Sample>, DecodeError>)
    ensures r == Failure(EmptyPayload) <==> |data| == 0
    ensures r == Success(None) <==> |data| > 0 && data[0] != ImuTag
    ensures r == Failure(ShortImuPayload) <==> 0 < |data| < ReadingsEnd && data[0] == ImuTag
    ensures r.Success? && r.value.Some? <==> |data| >= ReadingsEnd && data[0] == ImuTag
    ensures r.Success? && r.value.Some? ==>
      var s := r.value.value;
      && IsInt8Sample(s)
      && (s.x - data[4]) % 256 == 0
      && (s.y - data[5]) % 256 == 0
      && (s.z - data[6]) % 256 == 0
  {
    if |data| == 0 then Failure(EmptyPayload)
    else if data[0] != ImuTag then Success(None)
    else if |data| < ReadingsEnd then Failure(ShortImuPayload)
    else Success(Some(Sample(ToSigned8(data[4]), ToSigned8(data[5]), ToSigned8(data[6]))))
  }

  /**
   * The IMU payload the device sends for sample `s`: the tag, three header
   * bytes the decoder skips, the three readings, and any trailing bytes.
   */
  function EncodeImu(s: Sample, header: seq<Byte>, trailer: seq<Byte>): (data: seq<Byte>)
    requires IsInt8Sample(s)
    requires |header| == ReadingsStart - 1
    ensures |data| == ReadingsEnd + |trailer|
    ensures data[0] == ImuTag && data[1..ReadingsStart] == header && data[ReadingsEnd..] == trailer
    ensures data[ReadingsStart..ReadingsEnd] == [FromSigned8(s.x), FromSigned8(s.y), FromSigned8(s.z)]
  {
    [ImuTag] + header + [FromSigned8(s.x), FromSigned8(s.y), FromSigned8(s.z)] + trailer
  }

  /** Every signed 8-bit sample survives framing and decoding, whatever surrounds it. */
  lemma DecodeEncodeImu(s: Sample, header: seq<Byte>, trailer: seq<Byte>)
    requires IsInt8Sample(s)
    requires |header| == ReadingsStart - 1
    ensures Decode(EncodeImu(s, header, trailer)) == Success(Some(s))
  {
  }

  /** Every payload that decodes to a sample is the framing of that sample. */
  lemma EncodeDecodeImu(data: seq<Byte>)
    requires Decode(data).Success? && Decode(data).value.Some?
    ensures data == EncodeImu(Decode(data).value.value, data[1..ReadingsStart], data[ReadingsEnd..])
  {
  }

  /** The three worked payloads: a negative y, a foreign tag, a short IMU packet. */
  lemma DecodeExamples()
    ensures Decode([7, 0, 0, 0, 10, 200, 30]) == Success(Some(Sample(10, -56, 30)))
    ensures Decode([3, 0, 0, 0, 10, 200, 30]) == Success(None)
    ensures Decode([3]) == Success(None)
    ensures Decode([7, 0, 0, 0]) == Failure(ShortImuPayload)
    ensures Decode([]) == Failure(EmptyPayload)
  {
  }
}
