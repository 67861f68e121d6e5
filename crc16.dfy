// The 16-bit checksum behind `binascii.crc_hqx(data, 0)`: CRC-16/XMODEM,
// polynomial x^16 + x^12 + x^5 + 1 (0x1021), most significant bit first,
// no reflection and no final XOR.

module Crc16 {
  import opened Utf8

  const Polynomial: bv16 := 0x1021

  /** One step of the shift register: shift left, and subtract (XOR) the
      polynomial when the bit shifted out was set. */
  function ShiftBit(crc: bv16): bv16 {
    if crc & 0x8000 != 0 then (crc << 1) ^ Polynomial else crc << 1
  }

  function ShiftBits(crc: bv16, n: nat): bv16
    decreases n
  {
    if n == 0 then crc else ShiftBits(ShiftBit(crc), n - 1)
  }

  /** Feed one byte, most significant bit first. */
  function UpdateByte(crc: bv16, b: byte): bv16 {
    ShiftBits(crc ^ ((b as bv16) << 8), 8)
  }

  /** Feed `data` into a register that holds `crc`. */
  function Update(crc: bv16, data: seq<byte>): bv16
    decreases |data|
  {
    if data == [] then crc else Update(UpdateByte(crc, data[0]), data[1..])
  }

  /** `binascii.crc_hqx(data, 0)`. */
  function Checksum(data: seq<byte>): bv16 {
    Update(0, data)
  }

  /** The checksum as the two bytes a sender appends to a frame, high byte first. */
  function ChecksumBytes(crc: bv16): (r: seq<byte>)
    ensures |r| == 2
  {
    [(crc >> 8) as byte, (crc & 0xFF) as byte]
  }

  /** Feeding two pieces one after the other is feeding their concatenation. */
  lemma {:induction false} UpdateAppend(crc: bv16, a: seq<byte>, b: seq<byte>)
    ensures Update(crc, a + b) == Update(Update(crc, a), b)
    decreases |a|
  {
    if a == [] {
      assert a + b == b;
    } else {
      assert (a + b)[0] == a[0] && (a + b)[1..] == a[1..] + b;
      UpdateAppend(UpdateByte(crc, a[0]), a[1..], b);
    }
  }

  /** With the high byte clear, nothing is shifted out of the register
      during the eight steps of one byte, so they are a plain shift. */
  lemma ShiftByteNoFeedback(x: bv16)
    requires x & 0xFF00 == 0
    ensures ShiftBits(x, 8) == x << 8
  {
    ShiftClearBit(x, 8);
    ShiftClearBit(x << 1, 7);
    ShiftClearBit(x << 2, 6);
    ShiftClearBit(x << 3, 5);
    ShiftClearBit(x << 4, 4);
    ShiftClearBit(x << 5, 3);
    ShiftClearBit(x << 6, 2);
    ShiftClearBit(x << 7, 1);
    assert (x << 7) << 1 == x << 8;
  }

  /** A step with the top bit clear is a plain shift. */
  lemma ShiftClearBit(y: bv16, n: nat)
    requires y & 0x8000 == 0 && n > 0
    ensures ShiftBits(y, n) == ShiftBits(y << 1, n - 1)
  {
  }

  lemma HighPartFitsByte(crc: bv16, h: bv16)
    requires h == crc >> 8
    ensures h < 256
  {
  }

  lemma BitsAsInt(x: bv16)
    ensures (x as int) as bv16 == x
  {
  }

  /** A register value below 256 survives the trip through `byte`. */
  lemma ByteRoundTrip(h: bv16)
    requires h < 256
    ensures (h as byte) as bv16 == h
  {
    assert h as int < 256;
    assert (h as byte) as int == h as int;
    BitsAsInt(h);
  }

  lemma FeedHighByte(crc: bv16)
    ensures UpdateByte(crc, ChecksumBytes(crc)[0]) == (crc & 0xFF) << 8
  {
    HighPartFitsByte(crc, crc >> 8);
    ByteRoundTrip(crc >> 8);
    assert crc ^ ((crc >> 8) << 8) == crc & 0xFF;
    ShiftByteNoFeedback(crc & 0xFF);
  }

  lemma FeedLowByte(crc: bv16)
    ensures UpdateByte((crc & 0xFF) << 8, ChecksumBytes(crc)[1]) == 0
  {
    ByteRoundTrip(crc & 0xFF);
    assert ((crc & 0xFF) << 8) ^ ((crc & 0xFF) << 8) == 0;
    ShiftByteNoFeedback(0);
  }

  /** A register that holds a checksum is cleared by feeding it that
      checksum's own two bytes. */
  lemma ResidueOfOwnChecksum(crc: bv16)
    ensures Update(crc, ChecksumBytes(crc)) == 0
  {
    var frame := ChecksumBytes(crc);
    FeedHighByte(crc);
    FeedLowByte(crc);
    var mid := (crc & 0xFF) << 8;
    assert frame[1..] == [frame[1]] && [frame[1]][1..] == [];
    assert Update(crc, frame) == Update(mid, [frame[1]]);
    assert Update(mid, [frame[1]]) == Update(UpdateByte(mid, frame[1]), []);
  }

  /** The error-detecting property of CRC-16/XMODEM: a frame followed by its
      checksum (high byte first) has checksum zero. */
  lemma FrameWithChecksumHasZeroChecksum(data: seq<byte>)
    ensures Checksum(data + ChecksumBytes(Checksum(data))) == 0
  {
    UpdateAppend(0, data, ChecksumBytes(Checksum(data)));
    ResidueOfOwnChecksum(Checksum(data));
  }

  lemma FeedDigits123()
    ensures Update(0, [0x31, 0x32, 0x33]) == 0x9752
  {
    assert UpdateByte(0, 0x31) == 0x2672;
    assert UpdateByte(0x2672, 0x32) == 0x20B5;
    assert UpdateByte(0x20B5, 0x33) == 0x9752;
  }

  lemma FeedDigits456()
    ensures Update(0x9752, [0x34, 0x35, 0x36]) == 0x20E4
  {
    assert UpdateByte(0x9752, 0x34) == 0xD789;
    assert UpdateByte(0xD789, 0x35) == 0x546C;
    assert UpdateByte(0x546C, 0x36) == 0x20E4;
  }

  lemma FeedDigits789()
    ensures Update(0x20E4, [0x37, 0x38, 0x39]) == 0x31C3
  {
    assert UpdateByte(0x20E4, 0x37) == 0x86D6;
    assert UpdateByte(0x86D6, 0x38) == 0x9015;
    assert UpdateByte(0x9015, 0x39) == 0x31C3;
  }

  /** The published check value of CRC-16/XMODEM: the nine ASCII digits
      "123456789" have checksum 0x31C3. */
  lemma CheckValue(data: seq<byte>)
    requires data == [0x31, 0x32, 0x33, 0x34, 0x35, 0x36, 0x37, 0x38, 0x39]
    ensures Checksum(data) == 0x31C3
  {
    var d1, d2, d3: seq<byte> := [0x31, 0x32, 0x33], [0x34, 0x35, 0x36], [0x37, 0x38, 0x39];
    assert data == d1 + (d2 + d3);
    UpdateAppend(0, d1, d2 + d3);
    UpdateAppend(0x9752, d2, d3);
    FeedDigits123();
    FeedDigits456();
    FeedDigits789();
  }
}
