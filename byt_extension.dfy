/**
 * The NSData (BYTExtension) category, one function per declared method.
 *
 * The class methods +byt_dataWith...: become DataWith... functions that
 * return a fresh byte sequence; the instance methods
 * -byt_to...WithLocation:swapByteOrder: become To... functions whose
 * first byte-sequence parameter is the receiver's bytes. Each C type is
 * mapped to the codec kind of its width on Apple targets: short is 16
 * bits, int 32, long long 64, and long is as wide as NSInteger. float and
 * double are carried as their IEEE 754 binary32/binary64 bit patterns.
 */
module BytExtension {
  import opened ByteSeq
  import opened NumericCodec
  // ---------------------------------------------------------------------
  // Encoders: a value becomes exactly as many bytes as its type, in native order.

  /** The bytes of a NSInteger value. */
  function DataWithInteger(p: Platform, value: int): (data: seq<Byte>)
    requires p.Valid() && InRange(p, NativeInt, value)
    ensures |data| == p.wordSize
    ensures ToInteger(p, data, 0, false) == value
  {
    DecodeEncode(p, NativeInt, value);
    Encode(p, NativeInt, value)
  }

  /** The bytes of a NSUInteger value. */
  function DataWithUInteger(p: Platform, value: int): (data: seq<Byte>)
    requires p.Valid() && InRange(p, NativeUInt, value)
    ensures |data| == p.wordSize
    ensures ToUInteger(p, data, 0, false) == value
  {
    DecodeEncode(p, NativeUInt, value);
    Encode(p, NativeUInt, value)
  }

  /** The bytes of a short value. */
  function DataWithShort(p: Platform, value: int): (data: seq<Byte>)
    requires p.Valid() && InRange(p, Int16, value)
    ensures |data| == 2
    ensures ToShort(p, data, 0, false) == value
  {
    DecodeEncode(p, Int16, value);
    Encode(p, Int16, value)
  }

  /** The bytes of a int8_t value. */
  function DataWithInt8(p: Platform, value: int): (data: seq<Byte>)
    requires p.Valid() && InRange(p, Int8, value)
    ensures |data| == 1
    ensures ToInt8(p, data, 0) == value
  {
    DecodeEncode(p, Int8, value);
    Encode(p, Int8, value)
  }

  /** The bytes of a uint8_t value. */
  function DataWithUInt8(p: Platform, value: int): (data: seq<Byte>)
    requires p.Valid() && InRange(p, UInt8, value)
    ensures |data| == 1
    ensures ToUInt8(p, data, 0) == value
  {
    DecodeEncode(p, UInt8, value);
    Encode(p, UInt8, value)
  }

  /** The bytes of a int16_t value. */
  function DataWithInt16(p: Platform, value: int): (data: seq<Byte>)
    requires p.Valid() && InRange(p, Int16, value)
    ensures |data| == 2
    ensures ToInt16(p, data, 0, false) == value
  {
    DecodeEncode(p, Int16, value);
    Encode(p, Int16, value)
  }

  /** The bytes of a uint16_t value. */
  function DataWithUInt16(p: Platform, value: int): (data: seq<Byte>)
    requires p.Valid() && InRange(p, UInt16, value)
    ensures |data| == 2
    ensures ToUInt16(p, data, 0, false) == value
  {
    DecodeEncode(p, UInt16, value);
    Encode(p, UInt16, value)
  }

  /** The bytes of a int32_t value. */
  function DataWithInt32(p: Platform, value: int): (data: seq<Byte>)
    requires p.Valid() && InRange(p, Int32, value)
    ensures |data| == 4
    ensures ToInt32(p, data, 0, false) == value
  {
    DecodeEncode(p, Int32, value);
    Encode(p, Int32, value)
  }

  /** The bytes of a uint32_t value. */
  function DataWithUInt32(p: Platform, value: int): (data: seq<Byte>)
    requires p.Valid() && InRange(p, UInt32, value)
    ensures |data| == 4
    ensures ToUInt32(p, data, 0, false) == value
  {
    DecodeEncode(p, UInt32, value);
    Encode(p, UInt32, value)
  }

  /** The bytes of a int64_t value. */
  function DataWithInt64(p: Platform, value: int): (data: seq<Byte>)
    requires p.Valid() && InRange(p, Int64, value)
    ensures |data| == 8
    ensures ToInt64(p, data, 0, false) == value
  {
    DecodeEncode(p, Int64, value);
    Encode(p, Int64, value)
  }

  /** The bytes of a uint64_t value. */
  function DataWithUInt64(p: Platform, value: int): (data: seq<Byte>)
    requires p.Valid() && InRange(p, UInt64, value)
    ensures |data| == 8
    ensures ToUInt64(p, data, 0, false) == value
  {
    DecodeEncode(p, UInt64, value);
    Encode(p, UInt64, value)
  }

  /** The bytes of a int value. */
  function DataWithInt(p: Platform, value: int): (data: seq<Byte>)
    requires p.Valid() && InRange(p, Int32, value)
    ensures |data| == 4
    ensures ToInt(p, data, 0, false) == value
  {
    DecodeEncode(p, Int32, value);
    Encode(p, Int32, value)
  }

  /** The bytes of a unsigned int value. */
  function DataWithUInt(p: Platform, value: int): (data: seq<Byte>)
    requires p.Valid() && InRange(p, UInt32, value)
    ensures |data| == 4
    ensures ToUInt(p, data, 0, false) == value
  {
    DecodeEncode(p, UInt32, value);
    Encode(p, UInt32, value)
  }

  /** The bytes of a long value. */
  function DataWithLong(p: Platform, value: int): (data: seq<Byte>)
    requires p.Valid() && InRange(p, NativeInt, value)
    ensures |data| == p.wordSize
    ensures ToLong(p, data, 0, false) == value
  {
    DecodeEncode(p, NativeInt, value);
    Encode(p, NativeInt, value)
  }

  /** The bytes of a long long value. */
  function DataWithLongLong(p: Platform, value: int): (data: seq<Byte>)
    requires p.Valid() && InRange(p, Int64, value)
    ensures |data| == 8
    ensures ToLongLong(p, data, 0, false) == value
  {
    DecodeEncode(p, Int64, value);
    Encode(p, Int64, value)
  }

  /** The bytes of a float bit pattern. */
  function DataWithFloat(p: Platform, value: int): (data: seq<Byte>)
    requires p.Valid() && InRange(p, Float32, value)
    ensures |data| == 4
    ensures ToFloat(p, data, 0, false) == value
  {
    DecodeEncode(p, Float32, value);
    Encode(p, Float32, value)
  }

  /** The bytes of a double bit pattern. */
  function DataWithDouble(p: Platform, value: int): (data: seq<Byte>)
    requires p.Valid() && InRange(p, Float64, value)
    ensures |data| == 8
    ensures ToDouble(p, data, 0, false) == value
  {
    DecodeEncode(p, Float64, value);
    Encode(p, Float64, value)
  }

  // ---------------------------------------------------------------------
  // Decoders: the value whose native bytes are the window at loc, reversed
  // first when swapByteOrder is set.

  /** The NSInteger value held by the p.wordSize bytes at loc. */
  function ToInteger(p: Platform, data: seq<Byte>, loc: nat, swapByteOrder: bool): (value: int)
    requires p.Valid() && loc + p.wordSize <= |data|
    ensures InRange(p, NativeInt, value)
    ensures Encode(p, NativeInt, value) == Arrange(data[loc..loc + p.wordSize], swapByteOrder)
  {
    EncodeDecode(p, data, loc, NativeInt, swapByteOrder);
    Decode(p, data, loc, NativeInt, swapByteOrder)
  }

  /** The NSUInteger value held by the p.wordSize bytes at loc. */
  function ToUInteger(p: Platform, data: seq<Byte>, loc: nat, swapByteOrder: bool): (value: int)
    requires p.Valid() && loc + p.wordSize <= |data|
    ensures InRange(p, NativeUInt, value)
    ensures Encode(p, NativeUInt, value) == Arrange(data[loc..loc + p.wordSize], swapByteOrder)
  {
    EncodeDecode(p, data, loc, NativeUInt, swapByteOrder);
    Decode(p, data, loc, NativeUInt, swapByteOrder)
  }

  /** The short value held by the 2 bytes at loc. */
  function ToShort(p: Platform, data: seq<Byte>, loc: nat, swapByteOrder: bool): (value: int)
    requires p.Valid() && loc + 2 <= |data|
    ensures InRange(p, Int16, value)
    ensures Encode(p, Int16, value) == Arrange(data[loc..loc + 2], swapByteOrder)
  {
    EncodeDecode(p, data, loc, Int16, swapByteOrder);
    Decode(p, data, loc, Int16, swapByteOrder)
  }

  /** The int8_t held by the byte at loc; there is no swap flag. */
  function ToInt8(p: Platform, data: seq<Byte>, loc: nat): (value: int)
    requires p.Valid() && loc < |data|
    ensures InRange(p, Int8, value)
    ensures value == if data[loc] < 0x80 then data[loc] as int else data[loc] as int - 0x100
    ensures Encode(p, Int8, value) == [data[loc]]
  {
    assert data[loc..loc + 1] == [data[loc]];
    SingleByteDecode(p, data, loc, Int8, false);
    EncodeDecode(p, data, loc, Int8, false);
    Decode(p, data, loc, Int8, false)
  }

  /** The uint8_t held by the byte at loc; there is no swap flag. */
  function ToUInt8(p: Platform, data: seq<Byte>, loc: nat): (value: int)
    requires p.Valid() && loc < |data|
    ensures InRange(p, UInt8, value)
    ensures value == data[loc] as int
    ensures Encode(p, UInt8, value) == [data[loc]]
  {
    assert data[loc..loc + 1] == [data[loc]];
    SingleByteDecode(p, data, loc, UInt8, false);
    EncodeDecode(p, data, loc, UInt8, false);
    Decode(p, data, loc, UInt8, false)
  }

  /** The int16_t value held by the 2 bytes at loc. */
  function ToInt16(p: Platform, data: seq<Byte>, loc: nat, swapByteOrder: bool): (value: int)
    requires p.Valid() && loc + 2 <= |data|
    ensures InRange(p, Int16, value)
    ensures Encode(p, Int16, value) == Arrange(data[loc..loc + 2], swapByteOrder)
  {
    EncodeDecode(p, data, loc, Int16, swapByteOrder);
    Decode(p, data, loc, Int16, swapByteOrder)
  }

  /** The uint16_t value held by the 2 bytes at loc. */
  function ToUInt16(p: Platform, data: seq<Byte>, loc: nat, swapByteOrder: bool): (value: int)
    requires p.Valid() && loc + 2 <= |data|
    ensures InRange(p, UInt16, value)
    ensures Encode(p, UInt16, value) == Arrange(data[loc..loc + 2], swapByteOrder)
  {
    EncodeDecode(p, data, loc, UInt16, swapByteOrder);
    Decode(p, data, loc, UInt16, swapByteOrder)
  }

  /** The int32_t value held by the 4 bytes at loc. */
  function ToInt32(p: Platform, data: seq<Byte>, loc: nat, swapByteOrder: bool): (value: int)
    requires p.Valid() && loc + 4 <= |data|
    ensures InRange(p, Int32, value)
    ensures Encode(p, Int32, value) == Arrange(data[loc..loc + 4], swapByteOrder)
  {
    EncodeDecode(p, data, loc, Int32, swapByteOrder);
    Decode(p, data, loc, Int32, swapByteOrder)
  }

  /** The uint32_t value held by the 4 bytes at loc. */
  function ToUInt32(p: Platform, data: seq<Byte>, loc: nat, swapByteOrder: bool): (value: int)
    requires p.Valid() && loc + 4 <= |data|
    ensures InRange(p, UInt32, value)
    ensures Encode(p, UInt32, value) == Arrange(data[loc..loc + 4], swapByteOrder)
  {
    EncodeDecode(p, data, loc, UInt32, swapByteOrder);
    Decode(p, data, loc, UInt32, swapByteOrder)
  }

  /** The int64_t value held by the 8 bytes at loc. */
  function ToInt64(p: Platform, data: seq<Byte>, loc: nat, swapByteOrder: bool): (value: int)
    requires p.Valid() && loc + 8 <= |data|
    ensures InRange(p, Int64, value)
    ensures Encode(p, Int64, value) == Arrange(data[loc..loc + 8], swapByteOrder)
  {
    EncodeDecode(p, data, loc, Int64, swapByteOrder);
    Decode(p, data, loc, Int64, swapByteOrder)
  }

  /** The uint64_t value held by the 8 bytes at loc. */
  function ToUInt64(p: Platform, data: seq<Byte>, loc: nat, swapByteOrder: bool): (value: int)
    requires p.Valid() && loc + 8 <= |data|
    ensures InRange(p, UInt64, value)
    ensures Encode(p, UInt64, value) == Arrange(data[loc..loc + 8], swapByteOrder)
  {
    EncodeDecode(p, data, loc, UInt64, swapByteOrder);
    Decode(p, data, loc, UInt64, swapByteOrder)
  }

  /** The int value held by the 4 bytes at loc. */
  function ToInt(p: Platform, data: seq<Byte>, loc: nat, swapByteOrder: bool): (value: int)
    requires p.Valid() && loc + 4 <= |data|
    ensures InRange(p, Int32, value)
    ensures Encode(p, Int32, value) == Arrange(data[loc..loc + 4], swapByteOrder)
  {
    EncodeDecode(p, data, loc, Int32, swapByteOrder);
    Decode(p, data, loc, Int32, swapByteOrder)
  }

  /** The unsigned int value held by the 4 bytes at loc. */
  function ToUInt(p: Platform, data: seq<Byte>, loc: nat, swapByteOrder: bool): (value: int)
    requires p.Valid() && loc + 4 <= |data|
    ensures InRange(p, UInt32, value)
    ensures Encode(p, UInt32, value) == Arrange(data[loc..loc + 4], swapByteOrder)
  {
    EncodeDecode(p, data, loc, UInt32, swapByteOrder);
    Decode(p, data, loc, UInt32, swapByteOrder)
  }

  /** The long value held by the p.wordSize bytes at loc. */
  function ToLong(p: Platform, data: seq<Byte>, loc: nat, swapByteOrder: bool): (value: int)
    requires p.Valid() && loc + p.wordSize <= |data|
    ensures InRange(p, NativeInt, value)
    ensures Encode(p, NativeInt, value) == Arrange(data[loc..loc + p.wordSize], swapByteOrder)
  {
    EncodeDecode(p, data, loc, NativeInt, swapByteOrder);
    Decode(p, data, loc, NativeInt, swapByteOrder)
  }

  /** The long long value held by the 8 bytes at loc. */
  function ToLongLong(p: Platform, data: seq<Byte>, loc: nat, swapByteOrder: bool): (value: int)
    requires p.Valid() && loc + 8 <= |data|
    ensures InRange(p, Int64, value)
    ensures Encode(p, Int64, value) == Arrange(data[loc..loc + 8], swapByteOrder)
  {
    EncodeDecode(p, data, loc, Int64, swapByteOrder);
    Decode(p, data, loc, Int64, swapByteOrder)
  }

  /** The float bit pattern held by the 4 bytes at loc. */
  function ToFloat(p: Platform, data: seq<Byte>, loc: nat, swapByteOrder: bool): (value: int)
    requires p.Valid() && loc + 4 <= |data|
    ensures InRange(p, Float32, value)
    ensures Encode(p, Float32, value) == Arrange(data[loc..loc + 4], swapByteOrder)
  {
    EncodeDecode(p, data, loc, Float32, swapByteOrder);
    Decode(p, data, loc, Float32, swapByteOrder)
  }

  /** The double bit pattern held by the 8 bytes at loc. */
  function ToDouble(p: Platform, data: seq<Byte>, loc: nat, swapByteOrder: bool): (value: int)
    requires p.Valid() && loc + 8 <= |data|
    ensures InRange(p, Float64, value)
    ensures Encode(p, Float64, value) == Arrange(data[loc..loc + 8], swapByteOrder)
  {
    EncodeDecode(p, data, loc, Float64, swapByteOrder);
    Decode(p, data, loc, Float64, swapByteOrder)
  }

  // ---------------------------------------------------------------------
  // Worked examples.

  /** [01 02 03 04] read as a uint32_t at 0, on either kind of host, with and without swapping. */
  lemma UInt32Example(wordSize: nat)
    requires wordSize == 4 || wordSize == 8
    ensures ToUInt32(Platform(LittleEndian, wordSize), [0x01, 0x02, 0x03, 0x04], 0, false) == 0x0403_0201
    ensures ToUInt32(Platform(LittleEndian, wordSize), [0x01, 0x02, 0x03, 0x04], 0, true) == 0x0102_0304
    ensures ToUInt32(Platform(BigEndian, wordSize), [0x01, 0x02, 0x03, 0x04], 0, false) == 0x0102_0304
    ensures ToUInt32(Platform(BigEndian, wordSize), [0x01, 0x02, 0x03, 0x04], 0, true) == 0x0403_0201
  {
    var little, big := Platform(LittleEndian, wordSize), Platform(BigEndian, wordSize);
    var data: seq<Byte> := [0x01, 0x02, 0x03, 0x04];
    var reversed: seq<Byte> := [0x04, 0x03, 0x02, 0x01];
    assert data[0..4] == data;
    assert Reverse(data) == reversed;
    assert LeValue(data) == 0x0403_0201;
    assert LeValue(reversed) == 0x0102_0304;
    assert Decode(little, data, 0, UInt32, false) == LeValue(data);
    assert Decode(little, data, 0, UInt32, true) == LeValue(reversed);
    BeValueIsReversedLe(data);
    assert Decode(big, data, 0, UInt32, false) == BeValue(data);
    SwapReadsOppositeOrder(big, data, 0, UInt32);
    assert big.(order := big.order.Opposite()) == little;
  }

  /** The byte FF is -1 as an int8_t and 255 as a uint8_t. */
  lemma AllOnesByteExample(p: Platform)
    requires p.Valid()
    ensures ToInt8(p, [0xFF], 0) == -1
    ensures ToUInt8(p, [0xFF], 0) == 0xFF
  {
  }

  /** The extreme int16_t values and -1 in little-endian order. */
  lemma Int16LimitsExample(wordSize: nat)
    requires wordSize == 4 || wordSize == 8
    ensures DataWithInt16(Platform(LittleEndian, wordSize), -0x8000) == [0x00, 0x80]
    ensures DataWithInt16(Platform(LittleEndian, wordSize), 0x7FFF) == [0xFF, 0x7F]
    ensures DataWithInt16(Platform(LittleEndian, wordSize), -1) == [0xFF, 0xFF]
  {
  }
}
