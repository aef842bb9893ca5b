/**
 * The fixed-width numeric codec behind the NSData (BYTExtension) category.
 *
 * Encoding writes a value's bytes in the host's native byte order, exactly
 * as wide as its type. Decoding takes the W bytes at a location, reverses
 * them when the swap flag is set, and reads them in the host's native
 * order as two's complement (signed kinds) or plain binary (unsigned kinds
 * and the bit patterns of the floating-point kinds).
 */
module NumericCodec {
  import opened ByteSeq
  import opened TwosComplement

  /** The numeric kinds; Float32/Float64 stand for IEEE 754 bit patterns. */
  datatype Kind =
    | Int8 | UInt8 | Int16 | UInt16 | Int32 | UInt32 | Int64 | UInt64
    | NativeInt | NativeUInt | Float32 | Float64

  /**
   * What the codec takes from the host: its native byte order and the
   * width of NSInteger, NSUInteger and long (4 bytes on 32-bit targets,
   * 8 on 64-bit ones).
   */
  datatype Platform = Platform(order: ByteOrder, wordSize: nat) {
    predicate Valid() {
      wordSize == 4 || wordSize == 8
    }
  }

  /** Number of bytes a value of kind k occupies. */
  function Width(p: Platform, k: Kind): (w: nat)
    requires p.Valid()
    ensures w == 1 || w == 2 || w == 4 || w == 8
    ensures k == NativeInt || k == NativeUInt ==> w == p.wordSize
  {
    match k
    case Int8 | UInt8 => 1
    case Int16 | UInt16 => 2
    case Int32 | UInt32 | Float32 => 4
    case Int64 | UInt64 | Float64 => 8
    case NativeInt | NativeUInt => p.wordSize
  }

  predicate IsSigned(k: Kind) {
    match k
    case Int8 | Int16 | Int32 | Int64 | NativeInt => true
    case _ => false
  }

  /** The unsigned kind of the same width as an integer kind. */
  function UnsignedOf(k: Kind): (u: Kind)
    ensures !IsSigned(u)
  {
    match k
    case Int8 => UInt8
    case Int16 => UInt16
    case Int32 => UInt32
    case Int64 => UInt64
    case NativeInt => NativeUInt
    case _ => k
  }

  /** The values a variable of kind k can hold. */
  predicate InRange(p: Platform, k: Kind, v: int)
    requires p.Valid()
  {
    if IsSigned(k) then InSignedRange(v, Width(p, k)) else 0 <= v < Pow256(Width(p, k))
  }

  /** Only signed kinds admit negative values, and every kind fits in 64-bit two's complement or unsigned. */
  lemma InRangeBounds(p: Platform, k: Kind, v: int)
    requires p.Valid() && InRange(p, k, v)
    ensures v < 0 ==> IsSigned(k)
    ensures -0x8000_0000_0000_0000 <= v <= 0xFFFF_FFFF_FFFF_FFFF
  {
    assert Pow256(8) == 0x1_0000_0000_0000_0000;
  }

  /** The unsigned number whose bytes are the in-memory representation of v. */
  function Bits(p: Platform, k: Kind, v: int): (u: nat)
    requires p.Valid() && InRange(p, k, v)
    ensures u < Pow256(Width(p, k))
    ensures !IsSigned(k) ==> u == v
    ensures IsSigned(k) ==> (u == v || u == v + Pow256(Width(p, k))) && (v < 0 <==> u >= SignBound(Width(p, k)))
  {
    if IsSigned(k) then FromSigned(v, Width(p, k)) else v
  }

  /** The value of kind k whose in-memory representation has the bits u. */
  function FromBits(p: Platform, k: Kind, u: nat): (v: int)
    requires p.Valid() && u < Pow256(Width(p, k))
    ensures InRange(p, k, v)
    ensures !IsSigned(k) ==> v == u
    ensures IsSigned(k) ==> (v == u || v == u - Pow256(Width(p, k))) && (v < 0 <==> u >= SignBound(Width(p, k)))
  {
    if IsSigned(k) then ToSigned(u, Width(p, k)) else u
  }

  lemma BitsOfFromBits(p: Platform, k: Kind, u: nat)
    requires p.Valid() && u < Pow256(Width(p, k))
    ensures Bits(p, k, FromBits(p, k, u)) == u
  {
    if IsSigned(k) {
      FromSignedToSigned(u, Width(p, k));
    }
  }

  lemma FromBitsOfBits(p: Platform, k: Kind, v: int)
    requires p.Valid() && InRange(p, k, v)
    ensures FromBits(p, k, Bits(p, k, v)) == v
  {
    if IsSigned(k) {
      ToSignedFromSigned(v, Width(p, k));
    }
  }

  /** The bytes of window in the order they are read: reversed when swap is set. */
  function Arrange(window: seq<Byte>, swap: bool): (r: seq<Byte>)
    ensures |r| == |window|
    ensures !swap ==> r == window
    ensures swap ==> forall i :: 0 <= i < |r| ==> r[i] == window[|window| - 1 - i]
  {
    if swap then Reverse(window) else window
  }

  /** A fresh byte sequence holding v in the host's native byte order. */
  function Encode(p: Platform, k: Kind, v: int): (r: seq<Byte>)
    requires p.Valid() && InRange(p, k, v)
    ensures |r| == Width(p, k)
  {
    WriteUnsigned(p.order, Bits(p, k, v), Width(p, k))
  }

  /** The value of kind k stored in data at [loc, loc + Width). */
  function Decode(p: Platform, data: seq<Byte>, loc: nat, k: Kind, swap: bool): (v: int)
    requires p.Valid() && loc + Width(p, k) <= |data|
    ensures InRange(p, k, v)
  {
    var w := Width(p, k);
    FromBits(p, k, ReadUnsigned(p.order, Arrange(data[loc..loc + w], swap)))
  }

  // ---------------------------------------------------------------------
  // Encode and Decode are inverse to each other.

  /** Decoding an encoding at location 0 without swapping gives the value back. */
  lemma DecodeEncode(p: Platform, k: Kind, v: int)
    requires p.Valid() && InRange(p, k, v)
    ensures Decode(p, Encode(p, k, v), 0, k, false) == v
  {
    var w, e := Width(p, k), Encode(p, k, v);
    assert e[0..w] == e;
    ReadWrite(p.order, Bits(p, k, v), w);
    FromBitsOfBits(p, k, v);
  }

  /** Every window is the encoding of what is decoded from it (reversed when swapping). */
  lemma EncodeDecode(p: Platform, data: seq<Byte>, loc: nat, k: Kind, swap: bool)
    requires p.Valid() && loc + Width(p, k) <= |data|
    ensures Encode(p, k, Decode(p, data, loc, k, swap)) == Arrange(data[loc..loc + Width(p, k)], swap)
  {
    var w := Width(p, k);
    var a := Arrange(data[loc..loc + w], swap);
    var u := ReadUnsigned(p.order, a);
    assert Decode(p, data, loc, k, swap) == FromBits(p, k, u);
    BitsOfFromBits(p, k, u);
    WriteRead(p.order, a);
  }

  // ---------------------------------------------------------------------
  // What a decoder reads.

  /** A decoder reads only the bytes in [loc, loc + Width). */
  lemma DecodeReadsOnlyWindow(p: Platform, data: seq<Byte>, loc: nat, data': seq<Byte>, loc': nat, k: Kind, swap: bool)
    requires p.Valid() && loc + Width(p, k) <= |data| && loc' + Width(p, k) <= |data'|
    requires data[loc..loc + Width(p, k)] == data'[loc'..loc' + Width(p, k)]
    ensures Decode(p, data, loc, k, swap) == Decode(p, data', loc', k, swap)
  {
  }

  /** With the swap flag set, a decoder reads the reversed window as if unswapped. */
  lemma DecodeSwapped(p: Platform, data: seq<Byte>, loc: nat, k: Kind)
    requires p.Valid() && loc + Width(p, k) <= |data|
    ensures Decode(p, data, loc, k, true) == Decode(p, Reverse(data[loc..loc + Width(p, k)]), 0, k, false)
  {
    var r := Reverse(data[loc..loc + Width(p, k)]);
    assert r[0..|r|] == r;
  }

  /** Swapping an already reversed window restores the unswapped reading. */
  lemma {:induction false} SwapInvolution(p: Platform, data: seq<Byte>, loc: nat, k: Kind)
    requires p.Valid() && loc + Width(p, k) <= |data|
    ensures Decode(p, Reverse(data[loc..loc + Width(p, k)]), 0, k, true) == Decode(p, data, loc, k, false)
  {
    var s := data[loc..loc + Width(p, k)];
    var r := Reverse(s);
    assert r[0..|r|] == r;
    ReverseInvolution(s);
  }

  /**
   * Setting the swap flag reads the window in the byte order opposite to
   * the host's: little endian on a big-endian host and vice versa.
   */
  lemma SwapReadsOppositeOrder(p: Platform, data: seq<Byte>, loc: nat, k: Kind)
    requires p.Valid() && loc + Width(p, k) <= |data|
    ensures Decode(p, data, loc, k, true) == Decode(p.(order := p.order.Opposite()), data, loc, k, false)
  {
    var q := p.(order := p.order.Opposite());
    var s := data[loc..loc + Width(p, k)];
    assert Width(q, k) == Width(p, k);
    var u := ReadUnsigned(p.order, Reverse(s));
    ReadReversed(p.order, s);
    assert u == ReadUnsigned(q.order, s);
    assert FromBits(p, k, u) == FromBits(q, k, u);
  }

  /**
   * Bytes encoded on a host of the opposite byte order (and the same word
   * size) are decoded correctly with the swap flag set.
   */
  lemma SwapDecodesForeignEncoding(p: Platform, k: Kind, v: int)
    requires p.Valid() && InRange(p, k, v)
    ensures Decode(p, Encode(p.(order := p.order.Opposite()), k, v), 0, k, true) == v
  {
    var q := p.(order := p.order.Opposite());
    assert q.order.Opposite() == p.order;
    assert q.(order := q.order.Opposite()) == p;
    SwapReadsOppositeOrder(p, Encode(q, k, v), 0, k);
    DecodeEncode(q, k, v);
  }

  /** A one-byte value is the byte at loc: swap flag, byte order and word size play no part. */
  lemma SingleByteDecode(p: Platform, data: seq<Byte>, loc: nat, k: Kind, swap: bool)
    requires p.Valid() && (k == Int8 || k == UInt8) && loc < |data|
    ensures Decode(p, data, loc, k, swap) == if k == UInt8 || data[loc] < 0x80 then data[loc] as int else data[loc] as int - 0x100
  {
    var s := data[loc..loc + 1];
    assert Arrange(s, swap) == [data[loc]];
    assert [data[loc]][1..] == [] && [data[loc]][..0] == [];
  }

  /**
   * The same bytes read as a signed kind and as the unsigned kind of the
   * same width agree modulo 256^W, and the signed reading is their
   * two's-complement interpretation.
   */
  lemma SignedUnsignedAgree(p: Platform, data: seq<Byte>, loc: nat, k: Kind, swap: bool)
    requires p.Valid() && IsSigned(k) && loc + Width(p, k) <= |data|
    ensures Width(p, UnsignedOf(k)) == Width(p, k)
    ensures (Decode(p, data, loc, UnsignedOf(k), swap) - Decode(p, data, loc, k, swap)) % Pow256(Width(p, k)) == 0
    ensures Decode(p, data, loc, k, swap) == ToSigned(Decode(p, data, loc, UnsignedOf(k), swap), Width(p, k))
  {
    var u := Decode(p, data, loc, UnsignedOf(k), swap);
    ToSignedCongruent(u, Width(p, k));
  }

  /** The ranges of the fixed-width kinds are those of the C types they stand for. */
  lemma FixedRanges(p: Platform, v: int)
    requires p.Valid()
    ensures InRange(p, Int8, v) <==> -0x80 <= v <= 0x7F
    ensures InRange(p, UInt8, v) <==> 0 <= v <= 0xFF
    ensures InRange(p, Int16, v) <==> -0x8000 <= v <= 0x7FFF
    ensures InRange(p, UInt16, v) <==> 0 <= v <= 0xFFFF
    ensures InRange(p, Int32, v) <==> -0x8000_0000 <= v <= 0x7FFF_FFFF
    ensures InRange(p, UInt32, v) <==> 0 <= v <= 0xFFFF_FFFF
    ensures InRange(p, Int64, v) <==> -0x8000_0000_0000_0000 <= v <= 0x7FFF_FFFF_FFFF_FFFF
    ensures InRange(p, UInt64, v) <==> 0 <= v <= 0xFFFF_FFFF_FFFF_FFFF
  {
    assert Pow256(1) == 0x100 && Pow256(2) == 0x1_0000;
    assert Pow256(4) == 0x1_0000_0000 && Pow256(8) == 0x1_0000_0000_0000_0000;
  }
}
