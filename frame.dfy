/**
 * The frame decoder: checks a deciphered eight-byte frame and classifies it
 * as a CO2 sample, a temperature sample, or neither.
 *
 * Layout of a frame: byte 0 is the type code, bytes 1-2 a big-endian 16-bit
 * value, byte 3 the checksum, byte 4 the end-of-message code, bytes 5-7 zero.
 * The decoder only compares and adds byte values, so it reads the frame as
 * numbers (`Octets`) and writes the `u8` wrap-around of its checksum out as
 * `% 256`.
 */
module Frame {

  import opened Wrappers
  import opened Bytes

  const CodeEndMessage: octet := 0x0D
  const CodeCO2: octet := 0x50
  const CodeTemperature: octet := 0x42

  /** Rust `u16` and `u32`. */
  type u16 = x: int | 0 <= x < 0x1_0000
  type u32 = x: int | 0 <= x < 0x1_0000_0000

  /** The result of `decode_message`: an optional CO2 concentration in ppm
      and an optional temperature, kept as the sensor's raw 16-bit count of
      sixteenths of a kelvin. */
  type Decoded = (Option<u32>, Option<u16>)

  /** `convert_temperature_to_celcius` in exact arithmetic: the raw value
      counts sixteenths of a kelvin, shifted to degrees Celsius. The result
      covers absolute zero up to about 3823 degrees, one step per
      sixteenth. */
  function Celsius(raw: u16): (c: real)
    ensures -273.15 <= c < 3823.0
    ensures (c + 273.15) * 16.0 == raw as real
  {
    raw as real * 0.0625 - 273.15
  }

  /** A larger raw count is a higher temperature, so distinct counts give
      distinct readings. */
  lemma CelsiusStrictlyIncreasing(a: u16, b: u16)
    requires a < b
    ensures Celsius(a) < Celsius(b)
  {
  }

  /** Bytes 5-7 are zero and byte 4 is the end-of-message code. */
  predicate Intact(m: seq<octet>)
    requires |m| == 8
  {
    m[4] == CodeEndMessage && m[5] == 0 && m[6] == 0 && m[7] == 0
  }

  /** Byte 3 is the sum of bytes 0-2, wrapped to a byte. */
  predicate ChecksumOk(m: seq<octet>)
    requires |m| == 8
  {
    (m[0] as int + m[1] as int + m[2] as int) % 256 == m[3]
  }

  /** `decode_message` on the frame's byte values. */
  function Classify(m: seq<octet>): (r: Decoded)
    requires |m| == 8
    ensures !(r.0.Some? && r.1.Some?)
    ensures r.0.Some? ==> r.0.value == m[1] as int * 256 + m[2] as int < 0x1_0000
    ensures r.1.Some? ==> r.1.value == m[1] as int * 256 + m[2] as int
  {
    if m[5] != 0 || m[6] != 0 || m[7] != 0 || m[4] != CodeEndMessage then
      (None, None)
    else if (m[0] as int + m[1] as int + m[2] as int) % 256 != m[3] then
      (None, None)
    else
      var value: u16 := m[1] as int * 256 + m[2] as int;
      if m[0] == CodeCO2 then (Some(value as u32), None)
      else if m[0] == CodeTemperature then (None, Some(value))
      else (None, None)
  }

  /** `decode_message`: at most one slot is ever filled, and a filled slot
      holds the big-endian value of bytes 1-2. */
  function DecodeMessage(msg: seq<byte>): (r: Decoded)
    requires |msg| == 8
    ensures !(r.0.Some? && r.1.Some?)
    ensures r.0.Some? ==> r.0.value == Octets(msg)[1] as int * 256 + Octets(msg)[2] as int < 0x1_0000
    ensures r.1.Some? ==> r.1.value == Octets(msg)[1] as int * 256 + Octets(msg)[2] as int
  {
    Classify(Octets(msg))
  }

  /** Which frames `decode_message` trusts: a frame yields CO2 exactly when
      it is intact, its checksum holds and its code is 0x50, and temperature
      exactly when it is intact, its checksum holds and its code is 0x42.
      Every other frame yields `(None, None)`. */
  lemma DecodeClassification(msg: seq<byte>)
    requires |msg| == 8
    ensures var m := Octets(msg);
      DecodeMessage(msg).0.Some? <==> Intact(m) && ChecksumOk(m) && m[0] == CodeCO2
    ensures var m := Octets(msg);
      DecodeMessage(msg).1.Some? <==> Intact(m) && ChecksumOk(m) && m[0] == CodeTemperature
    ensures var m := Octets(msg);
      DecodeMessage(msg) == (None, None) <==>
        !(Intact(m) && ChecksumOk(m) && (m[0] == CodeCO2 || m[0] == CodeTemperature))
  {
  }

  /** The byte values of the frame the sensor sends for a reading: code,
      value (high byte first), checksum, end-of-message code, three zeros. */
  function FrameOctets(code: octet, value: u16): (f: seq<octet>)
    ensures |f| == 8
  {
    var hi := value / 256;
    var lo := value % 256;
    [code, hi, lo, (code + hi + lo) % 256, CodeEndMessage, 0, 0, 0]
  }

  /** The frame the sensor sends for a reading. */
  function MakeFrame(code: octet, value: u16): (f: seq<byte>)
    ensures |f| == 8
    ensures Octets(f) == FrameOctets(code, value)
  {
    OctetsFromOctets(FrameOctets(code, value));
    FromOctets(FrameOctets(code, value))
  }

  /** Decoding a well-formed frame gives back its reading. */
  lemma DecodeMakeFrame(code: octet, value: u16)
    ensures DecodeMessage(MakeFrame(code, value))
         == if code == CodeCO2 then (Some(value as u32), None)
            else if code == CodeTemperature then (None, Some(value))
            else (None, None)
  {
  }

  /** Every frame the decoder accepts is the well-formed frame of its code
      and value. */
  lemma AcceptedFrameIsWellFormed(msg: seq<byte>)
    requires |msg| == 8
    ensures DecodeMessage(msg).0.Some? ==> msg == MakeFrame(CodeCO2, DecodeMessage(msg).0.value)
    ensures DecodeMessage(msg).1.Some? ==> msg == MakeFrame(CodeTemperature, DecodeMessage(msg).1.value)
  {
    var m := Octets(msg);
    DecodeClassification(msg);
    if Intact(m) && ChecksumOk(m) {
      FrameOfValidBytes(msg);
    }
  }

  /** An intact frame with a valid checksum is the frame of its own code
      and value. */
  lemma FrameOfValidBytes(msg: seq<byte>)
    requires |msg| == 8 && Intact(Octets(msg)) && ChecksumOk(Octets(msg))
    ensures msg == MakeFrame(Octets(msg)[0], Octets(msg)[1] as int * 256 + Octets(msg)[2] as int)
  {
    ValidOctetsFrame(Octets(msg));
    FromOctetsOctets(msg);
  }

  lemma ValidOctetsFrame(m: seq<octet>)
    requires |m| == 8 && Intact(m) && ChecksumOk(m)
    ensures m == FrameOctets(m[0], m[1] as int * 256 + m[2] as int)
  {
    SplitValue(m[1], m[2]);
  }

  /** The high and low byte of a big-endian value are its quotient and
      remainder by 256. */
  lemma SplitValue(hi: octet, lo: octet)
    ensures (hi * 256 + lo) / 256 == hi && (hi * 256 + lo) % 256 == lo
  {
  }
}
