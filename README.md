# ByteBuffer numeric codec, modelled in Dafny

This project models the `NSData (BYTExtension)` category of the ByteBuffer
library. The category converts fixed-width numbers to and from bytes.

- The class methods `+byt_dataWith…:` take a scalar and build a new byte
  sequence. It is exactly as wide as the scalar's C type and holds the value
  in the host's native byte order.
- The instance methods `-byt_to…WithLocation:swapByteOrder:` read the W bytes
  that start at `loc` in the receiver. When `swapByteOrder` is set they
  reverse those bytes first. They then read the bytes in native order: as
  two's complement for signed types and as plain binary for unsigned ones.
- The one-byte readers `byt_toInt8WithLocation:` and
  `byt_toUInt8WithLocation:` have no swap flag.

The model has four modules:

- `ByteSeq` (`byte_seq.dfy`): bytes as integers in 0..255, byte reversal, and
  little- and big-endian readers and writers. Each byte order is defined on
  its own, and lemmas tie the two together through reversal.
- `TwosComplement` (`twos_complement.dfy`): how a W-byte unsigned number maps
  to a signed one and back.
- `NumericCodec` (`numeric_codec.dfy`): the twelve numeric kinds, a
  `Platform` (native byte order and word size), and generic `Encode` and
  `Decode` functions with their lemmas. The lemmas cover round trips both
  ways, window locality, the swap flag, one-byte reads and signed/unsigned
  agreement.
- `BytExtension` (`byt_extension.dfy`): one function for each of the 34
  declared methods. Each one is a thin instance of the generic codec and
  carries its own width, range and round-trip contract.

Every decoder is a function of an immutable byte sequence, so the receiver's
bytes cannot change during a decode. The model shows this by construction.

C types are mapped to kinds as on Apple targets:

- `short` is 16 bits.
- `int` and `unsigned int` are 32 bits.
- `long long` is 64 bits.
- `long` is as wide as `NSInteger`, which is 4 or 8 bytes.

## Model

| member | source | states |
|---|---|---|
| BytExtension.DataWithInteger | ByteBuffer/Headers/NSData+BYTExtension.h:20 | an NSInteger becomes exactly the platform word size, and `ToInteger` at location 0 without swapping gives the value back |
| BytExtension.DataWithUInteger | ByteBuffer/Headers/NSData+BYTExtension.h:27 | an NSUInteger becomes exactly the platform word size, and `ToUInteger` at location 0 without swapping gives the value back |
| BytExtension.DataWithShort | ByteBuffer/Headers/NSData+BYTExtension.h:34 | a short becomes exactly 2 bytes, and `ToShort` at location 0 without swapping gives the value back |
| BytExtension.DataWithInt8 | ByteBuffer/Headers/NSData+BYTExtension.h:41 | an int8_t becomes exactly 1 byte, and `ToInt8` at location 0 gives the value back |
| BytExtension.DataWithUInt8 | ByteBuffer/Headers/NSData+BYTExtension.h:48 | a uint8_t becomes exactly 1 byte, and `ToUInt8` at location 0 gives the value back |
| BytExtension.DataWithInt16 | ByteBuffer/Headers/NSData+BYTExtension.h:55 | an int16_t becomes exactly 2 bytes, and `ToInt16` at location 0 without swapping gives the value back |
| BytExtension.DataWithUInt16 | ByteBuffer/Headers/NSData+BYTExtension.h:62 | a uint16_t becomes exactly 2 bytes, and `ToUInt16` at location 0 without swapping gives the value back |
| BytExtension.DataWithInt32 | ByteBuffer/Headers/NSData+BYTExtension.h:69 | an int32_t becomes exactly 4 bytes, and `ToInt32` at location 0 without swapping gives the value back |
| BytExtension.DataWithUInt32 | ByteBuffer/Headers/NSData+BYTExtension.h:76 | a uint32_t becomes exactly 4 bytes, and `ToUInt32` at location 0 without swapping gives the value back |
| BytExtension.DataWithInt64 | ByteBuffer/Headers/NSData+BYTExtension.h:83 | an int64_t becomes exactly 8 bytes, and `ToInt64` at location 0 without swapping gives the value back |
| BytExtension.DataWithUInt64 | ByteBuffer/Headers/NSData+BYTExtension.h:90 | a uint64_t becomes exactly 8 bytes, and `ToUInt64` at location 0 without swapping gives the value back |
| BytExtension.DataWithInt | ByteBuffer/Headers/NSData+BYTExtension.h:97 | an int becomes exactly 4 bytes, and `ToInt` at location 0 without swapping gives the value back |
| BytExtension.DataWithUInt | ByteBuffer/Headers/NSData+BYTExtension.h:104 | a unsigned int becomes exactly 4 bytes, and `ToUInt` at location 0 without swapping gives the value back |
| BytExtension.DataWithLong | ByteBuffer/Headers/NSData+BYTExtension.h:111 | a long becomes exactly the platform word size, and `ToLong` at location 0 without swapping gives the value back |
| BytExtension.DataWithLongLong | ByteBuffer/Headers/NSData+BYTExtension.h:118 | a long long becomes exactly 8 bytes, and `ToLongLong` at location 0 without swapping gives the value back |
| BytExtension.DataWithFloat | ByteBuffer/Headers/NSData+BYTExtension.h:125 | a float (binary32 bit pattern) becomes exactly 4 bytes, and `ToFloat` at location 0 without swapping gives the value back |
| BytExtension.DataWithDouble | ByteBuffer/Headers/NSData+BYTExtension.h:132 | a double (binary64 bit pattern) becomes exactly 8 bytes, and `ToDouble` at location 0 without swapping gives the value back |
| BytExtension.ToInteger | ByteBuffer/Headers/NSData+BYTExtension.h:141 | defined when loc + word size <= length; the result is in NSInteger range and its native encoding is the word-size window at loc, reversed when swapByteOrder is set |
| BytExtension.ToUInteger | ByteBuffer/Headers/NSData+BYTExtension.h:148 | defined when loc + word size <= length; the result is in NSUInteger range and its native encoding is the word-size window at loc, reversed when swapByteOrder is set |
| BytExtension.ToShort | ByteBuffer/Headers/NSData+BYTExtension.h:155 | defined when loc + 2 <= length; the result is in short range and its native encoding is the 2-byte window at loc, reversed when swapByteOrder is set |
| BytExtension.ToInt8 | ByteBuffer/Headers/NSData+BYTExtension.h:162 | no swap flag; the result is in int8_t range, is the two's-complement reading of the byte at loc alone, and encodes back to that byte |
| BytExtension.ToUInt8 | ByteBuffer/Headers/NSData+BYTExtension.h:169 | no swap flag; the result is the byte at loc and encodes back to that byte |
| BytExtension.ToInt16 | ByteBuffer/Headers/NSData+BYTExtension.h:176 | defined when loc + 2 <= length; the result is in int16_t range and its native encoding is the 2-byte window at loc, reversed when swapByteOrder is set |
| BytExtension.ToUInt16 | ByteBuffer/Headers/NSData+BYTExtension.h:183 | defined when loc + 2 <= length; the result is in uint16_t range and its native encoding is the 2-byte window at loc, reversed when swapByteOrder is set |
| BytExtension.ToInt32 | ByteBuffer/Headers/NSData+BYTExtension.h:190 | defined when loc + 4 <= length; the result is in int32_t range and its native encoding is the 4-byte window at loc, reversed when swapByteOrder is set |
| BytExtension.ToUInt32 | ByteBuffer/Headers/NSData+BYTExtension.h:197 | defined when loc + 4 <= length; the result is in uint32_t range and its native encoding is the 4-byte window at loc, reversed when swapByteOrder is set |
| BytExtension.ToInt64 | ByteBuffer/Headers/NSData+BYTExtension.h:204 | defined when loc + 8 <= length; the result is in int64_t range and its native encoding is the 8-byte window at loc, reversed when swapByteOrder is set |
| BytExtension.ToUInt64 | ByteBuffer/Headers/NSData+BYTExtension.h:211 | defined when loc + 8 <= length; the result is in uint64_t range and its native encoding is the 8-byte window at loc, reversed when swapByteOrder is set |
| BytExtension.ToInt | ByteBuffer/Headers/NSData+BYTExtension.h:218 | defined when loc + 4 <= length; the result is in int range and its native encoding is the 4-byte window at loc, reversed when swapByteOrder is set |
| BytExtension.ToUInt | ByteBuffer/Headers/NSData+BYTExtension.h:225 | defined when loc + 4 <= length; the result is in unsigned int range and its native encoding is the 4-byte window at loc, reversed when swapByteOrder is set |
| BytExtension.ToLong | ByteBuffer/Headers/NSData+BYTExtension.h:232 | defined when loc + word size <= length; the result is in long range and its native encoding is the word-size window at loc, reversed when swapByteOrder is set |
| BytExtension.ToLongLong | ByteBuffer/Headers/NSData+BYTExtension.h:239 | defined when loc + 8 <= length; the result is in long long range and its native encoding is the 8-byte window at loc, reversed when swapByteOrder is set |
| BytExtension.ToFloat | ByteBuffer/Headers/NSData+BYTExtension.h:246 | defined when loc + 4 <= length; the result is a binary32 bit pattern (below 2^32) and its native encoding is the 4-byte window at loc, reversed when swapByteOrder is set |
| BytExtension.ToDouble | ByteBuffer/Headers/NSData+BYTExtension.h:253 | defined when loc + 8 <= length; the result is a binary64 bit pattern (below 2^64) and its native encoding is the 8-byte window at loc, reversed when swapByteOrder is set |
| NumericCodec.Width | ByteBuffer/Headers/NSData+BYTExtension.h:20-132 | every width is 1, 2, 4 or 8 bytes, and NSInteger/NSUInteger/long take the platform word size |
| NumericCodec.Encode | ByteBuffer/Headers/NSData+BYTExtension.h:20-132 | an encoding is exactly as long as its kind's width |
| NumericCodec.Decode | ByteBuffer/Headers/NSData+BYTExtension.h:141-253 | defined only when loc + width <= length; the result lies in its kind's range |
| NumericCodec.InRangeBounds | ByteBuffer/Headers/NSData+BYTExtension.h:20-132 | within the values a C type can hold, only signed kinds admit negative values, and every kind fits between -2^63 and 2^64-1 |
| NumericCodec.Bits | ByteBuffer/Headers/NSData+BYTExtension.h:20-132 | the in-memory bits of a value lie below 256^W; they equal the value for unsigned kinds and float bit patterns, and for signed kinds they are the value or the value plus 256^W, with the top bit set exactly for negative values |
| NumericCodec.FromBits | ByteBuffer/Headers/NSData+BYTExtension.h:141-253 | the value read from W-byte bits lies in its kind's range; it equals the bits for unsigned kinds and float bit patterns, and for signed kinds it is the bits or the bits minus 256^W, negative exactly when the top bit is set |
| NumericCodec.Arrange | ByteBuffer/Headers/NSData+BYTExtension.h:138 | the swap flag's effect on the window: same length, unchanged without the flag, byte i taken from position W-1-i with it |
| ByteSeq.ReadUnsigned | ByteBuffer/Headers/NSData+BYTExtension.h:138 | reading W bytes in the host byte order gives a number below 256^W |
| ByteSeq.WriteUnsigned | ByteBuffer/Headers/NSData+BYTExtension.h:138 | writing a number in the host byte order produces exactly W bytes |
| ByteSeq.LeBytes | ByteBuffer/Headers/NSData+BYTExtension.h:20-132 | the little-endian writer produces exactly w bytes |
| ByteSeq.BeBytes | ByteBuffer/Headers/NSData+BYTExtension.h:20-132 | the big-endian writer produces exactly w bytes |
| NumericCodec.DecodeEncode | ByteBuffer/Headers/NSData+BYTExtension.h:20-253 | round trip: decoding an encoding at location 0 without swapping gives the value back, for every kind |
| NumericCodec.EncodeDecode | ByteBuffer/Headers/NSData+BYTExtension.h:20-253 | inverse round trip: every window is the encoding of what is decoded from it (reversed first when swapping) |
| NumericCodec.DecodeReadsOnlyWindow | ByteBuffer/Headers/NSData+BYTExtension.h:134-253 | a decoder reads only the bytes in [loc, loc + width): equal windows decode equally whatever surrounds them |
| NumericCodec.DecodeSwapped | ByteBuffer/Headers/NSData+BYTExtension.h:138 | decoding with the swap flag equals decoding the reversed window without it |
| NumericCodec.SwapInvolution | ByteBuffer/Headers/NSData+BYTExtension.h:138 | swapping the reversed window restores the unswapped reading |
| NumericCodec.SwapReadsOppositeOrder | ByteBuffer/Headers/NSData+BYTExtension.h:138 | with the swap flag the window is read in the byte order opposite to the host's (little endian on a big-endian host and vice versa) |
| NumericCodec.SwapDecodesForeignEncoding | ByteBuffer/Headers/NSData+BYTExtension.h:138 | bytes encoded on a host of the opposite byte order decode to the original value with the swap flag set |
| NumericCodec.SingleByteDecode | ByteBuffer/Headers/NSData+BYTExtension.h:162-169 | a one-byte decode depends only on the byte at loc; swap flag, byte order and word size play no part |
| NumericCodec.SignedUnsignedAgree | ByteBuffer/Headers/NSData+BYTExtension.h:176-197 | the signed and unsigned readings of the same bytes agree modulo 256^W, and the signed one is the two's-complement reading of the unsigned one |
| NumericCodec.FixedRanges | ByteBuffer/Headers/NSData+BYTExtension.h:36-90 | the fixed-width kinds hold exactly the values of int8_t, uint8_t, int16_t, uint16_t, int32_t, uint32_t, int64_t and uint64_t |
| ByteSeq.Reverse | ByteBuffer/Headers/NSData+BYTExtension.h:138 | the reversed sequence has the same length and holds byte i of the original at position W-1-i |
| ByteSeq.ReverseInvolution | ByteBuffer/Headers/NSData+BYTExtension.h:138 | reversing twice gives the original bytes |
| ByteSeq.LeValue | ByteBuffer/Headers/NSData+BYTExtension.h:138 | a little-endian reading of n bytes is below 256^n |
| ByteSeq.BeValue | ByteBuffer/Headers/NSData+BYTExtension.h:138 | a big-endian reading of n bytes is below 256^n |
| ByteSeq.LeValueOfLeBytes | ByteBuffer/Headers/NSData+BYTExtension.h:138 | writing a number below 256^w in little endian and reading it back gives the number |
| ByteSeq.LeBytesOfLeValue | ByteBuffer/Headers/NSData+BYTExtension.h:138 | reading bytes in little endian and writing the number back gives the same bytes |
| ByteSeq.BeValueIsReversedLe | ByteBuffer/Headers/NSData+BYTExtension.h:138 | the big-endian reading of bytes is the little-endian reading of the reversed bytes |
| ByteSeq.BeBytesIsReversedLe | ByteBuffer/Headers/NSData+BYTExtension.h:138 | the big-endian bytes of a number are its little-endian bytes reversed |
| ByteSeq.BeValueOfBeBytes | ByteBuffer/Headers/NSData+BYTExtension.h:138 | writing a number below 256^w in big endian and reading it back gives the number |
| ByteSeq.BeBytesOfBeValue | ByteBuffer/Headers/NSData+BYTExtension.h:138 | reading bytes in big endian and writing the number back gives the same bytes |
| ByteSeq.ReadWrite | ByteBuffer/Headers/NSData+BYTExtension.h:138 | in either byte order, writing then reading gives the number back |
| ByteSeq.WriteRead | ByteBuffer/Headers/NSData+BYTExtension.h:138 | in either byte order, reading then writing gives the bytes back |
| ByteSeq.ReadReversed | ByteBuffer/Headers/NSData+BYTExtension.h:138 | reading reversed bytes is reading the original bytes in the opposite byte order |
| TwosComplement.ToSigned | ByteBuffer/Headers/NSData+BYTExtension.h:141-239 | the signed reading lies in [-256^W/2, 256^W/2), equals the unsigned number or that number minus 256^W, and is negative exactly when the top bit is set |
| TwosComplement.FromSigned | ByteBuffer/Headers/NSData+BYTExtension.h:20-118 | the stored bits of a signed value lie in [0, 256^W), equal the value or the value plus 256^W, and have the top bit set exactly for negative values |
| TwosComplement.ToSignedFromSigned | ByteBuffer/Headers/NSData+BYTExtension.h:176-197 | reading back the stored bits of a signed value gives the value |
| TwosComplement.FromSignedToSigned | ByteBuffer/Headers/NSData+BYTExtension.h:176-197 | storing the signed reading of bits gives the same bits |
| TwosComplement.ToSignedCongruent | ByteBuffer/Headers/NSData+BYTExtension.h:176-197 | the signed reading is congruent to the unsigned one modulo 256^W |
| TwosComplement.SignedRepresentativeUnique | ByteBuffer/Headers/NSData+BYTExtension.h:176-197 | two signed-range values congruent modulo 256^W are equal, so the signed reading is the only one |
| BytExtension.UInt32Example | ByteBuffer/Headers/NSData+BYTExtension.h:197 | bytes 01 02 03 04 read as uint32_t are 0x04030201 on a little-endian host and 0x01020304 with swapping, and the other way round on a big-endian host |
| BytExtension.AllOnesByteExample | ByteBuffer/Headers/NSData+BYTExtension.h:162-169 | the byte FF is -1 as int8_t and 255 as uint8_t |
| BytExtension.Int16LimitsExample | ByteBuffer/Headers/NSData+BYTExtension.h:55 | on a little-endian host int16_t -32768, 32767 and -1 encode to 00 80, FF 7F and FF FF |

## Left out

- Floating point: `float` and `double` are carried only as their IEEE 754 binary32/binary64 bit patterns (natural numbers below 2^32 and 2^64). There is no float arithmetic and no NaN comparison; the model carries every bit pattern, NaN payloads included, unchanged.
- Object creation: `NSData` allocation, `instancetype` and memory management are not modelled. Results are plain byte sequences.
- Host detection: the host byte order and the word size are a `Platform` parameter instead of run-time detection. The word size is restricted to 4 or 8.
- Out-of-range locations: the header does not say what happens when `loc` + W exceeds the length (a Foundation range exception is likely). Every decoder therefore requires `loc + W <= |data|`, and no error path is modelled.
- Integer width of `loc`: `loc` is an unbounded natural number, so wrap-around of `loc + W` in `NSUInteger` arithmetic is not modelled.
- Encoders have no swap flag: they always write native order, as declared.
- The implementation file (`NSData+BYTExtension.m`) is not part of this model. Behaviour follows the declarations and their doc comments.
- The higher-level ByteBuffer cursor and growable-buffer class is not part of this model.
