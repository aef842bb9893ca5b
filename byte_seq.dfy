/**
 * Byte sequences and the two fixed byte orders.
 *
 * A byte is an integer in 0..255. A W-byte sequence stands for an unsigned
 * number below 256^W, written either least significant byte first
 * (little endian) or most significant byte first (big endian). Both
 * orders are defined independently here, and lemmas tie each one to the
 * other through byte reversal.
 */
module ByteSeq {

  type Byte = b: int | 0 <= b < 0x100

  datatype ByteOrder = LittleEndian | BigEndian {
    /** The other byte order. */
    function Opposite(): (o: ByteOrder)
      ensures o != this
    {
      match this
      case LittleEndian => BigEndian
      case BigEndian => LittleEndian
    }
  }

  /** 256 to the power n: the number of distinct n-byte sequences. */
  function Pow256(n: nat): (r: nat)
    ensures r >= 1
  {
    if n == 0 then 1 else 0x100 * Pow256(n - 1)
  }

  /** The bytes of s in reverse order. */
  function Reverse(s: seq<Byte>): (r: seq<Byte>)
    ensures |r| == |s|
    ensures forall i :: 0 <= i < |s| ==> r[i] == s[|s| - 1 - i]
  {
    if s == [] then [] else [s[|s| - 1]] + Reverse(s[..|s| - 1])
  }

  lemma ReverseInvolution(s: seq<Byte>)
    ensures Reverse(Reverse(s)) == s
  {
    var r := Reverse(Reverse(s));
    assert forall i :: 0 <= i < |s| ==> r[i] == s[i];
  }

  lemma ReverseCons(x: Byte, t: seq<Byte>)
    ensures Reverse([x] + t) == Reverse(t) + [x]
  {
    var a, b := Reverse([x] + t), Reverse(t) + [x];
    assert |a| == |b|;
    assert forall i :: 0 <= i < |a| ==> a[i] == b[i];
  }

  /** The number written by s, least significant byte first. */
  function LeValue(s: seq<Byte>): (u: nat)
    ensures u < Pow256(|s|)
  {
    if s == [] then 0 else s[0] + 0x100 * LeValue(s[1..])
  }

  /** The number written by s, most significant byte first. */
  function BeValue(s: seq<Byte>): (u: nat)
    ensures u < Pow256(|s|)
  {
    if s == [] then 0 else BeValue(s[..|s| - 1]) * 0x100 + s[|s| - 1]
  }

  /** The w low-order bytes of u, least significant first. */
  function LeBytes(u: nat, w: nat): (s: seq<Byte>)
    ensures |s| == w
  {
    if w == 0 then [] else [u % 0x100] + LeBytes(u / 0x100, w - 1)
  }

  /** The w low-order bytes of u, most significant first. */
  function BeBytes(u: nat, w: nat): (s: seq<Byte>)
    ensures |s| == w
  {
    if w == 0 then [] else BeBytes(u / 0x100, w - 1) + [u % 0x100]
  }

  /** Reading a number in the given byte order. */
  function ReadUnsigned(order: ByteOrder, s: seq<Byte>): (u: nat)
    ensures u < Pow256(|s|)
  {
    match order
    case LittleEndian => LeValue(s)
    case BigEndian => BeValue(s)
  }

  /** Writing the w low-order bytes of a number in the given byte order. */
  function WriteUnsigned(order: ByteOrder, u: nat, w: nat): (s: seq<Byte>)
    ensures |s| == w
  {
    match order
    case LittleEndian => LeBytes(u, w)
    case BigEndian => BeBytes(u, w)
  }

  // ---------------------------------------------------------------------
  // Little endian: writing then reading, and reading then writing.

  lemma {:induction false} LeValueOfLeBytes(u: nat, w: nat)
    requires u < Pow256(w)
    ensures LeValue(LeBytes(u, w)) == u
  {
    if w > 0 {
      var s := LeBytes(u, w);
      assert s[1..] == LeBytes(u / 0x100, w - 1);
      assert u / 0x100 < Pow256(w - 1);
      LeValueOfLeBytes(u / 0x100, w - 1);
    }
  }

  lemma {:induction false} LeBytesOfLeValue(s: seq<Byte>)
    ensures LeBytes(LeValue(s), |s|) == s
  {
    if s != [] {
      var u := LeValue(s);
      assert u % 0x100 == s[0] && u / 0x100 == LeValue(s[1..]);
      LeBytesOfLeValue(s[1..]);
      assert s == [s[0]] + s[1..];
    }
  }

  // ---------------------------------------------------------------------
  // Big endian is little endian reversed.

  lemma {:induction false} BeValueIsReversedLe(s: seq<Byte>)
    ensures BeValue(s) == LeValue(Reverse(s))
  {
    if s != [] {
      var r := Reverse(s);
      assert r[0] == s[|s| - 1] && r[1..] == Reverse(s[..|s| - 1]);
      BeValueIsReversedLe(s[..|s| - 1]);
    }
  }

  lemma {:induction false} BeBytesIsReversedLe(u: nat, w: nat)
    ensures BeBytes(u, w) == Reverse(LeBytes(u, w))
  {
    if w > 0 {
      BeBytesIsReversedLe(u / 0x100, w - 1);
      ReverseCons(u % 0x100, LeBytes(u / 0x100, w - 1));
    }
  }

  lemma BeValueOfBeBytes(u: nat, w: nat)
    requires u < Pow256(w)
    ensures BeValue(BeBytes(u, w)) == u
  {
    BeBytesIsReversedLe(u, w);
    BeValueIsReversedLe(BeBytes(u, w));
    ReverseInvolution(LeBytes(u, w));
    LeValueOfLeBytes(u, w);
  }

  lemma BeBytesOfBeValue(s: seq<Byte>)
    ensures BeBytes(BeValue(s), |s|) == s
  {
    BeValueIsReversedLe(s);
    LeBytesOfLeValue(Reverse(s));
    BeBytesIsReversedLe(BeValue(s), |s|);
    ReverseInvolution(s);
  }

  // ---------------------------------------------------------------------
  // Either byte order.

  /** Writing u and reading it back in the same order gives u. */
  lemma ReadWrite(order: ByteOrder, u: nat, w: nat)
    requires u < Pow256(w)
    ensures ReadUnsigned(order, WriteUnsigned(order, u, w)) == u
  {
    match order
    case LittleEndian => LeValueOfLeBytes(u, w);
    case BigEndian => BeValueOfBeBytes(u, w);
  }

  /** Reading s and writing the number back in the same order gives s. */
  lemma WriteRead(order: ByteOrder, s: seq<Byte>)
    ensures WriteUnsigned(order, ReadUnsigned(order, s), |s|) == s
  {
    match order
    case LittleEndian => LeBytesOfLeValue(s);
    case BigEndian => BeBytesOfBeValue(s);
  }

  /** Reading reversed bytes is reading the original bytes in the opposite order. */
  lemma ReadReversed(order: ByteOrder, s: seq<Byte>)
    ensures ReadUnsigned(order, Reverse(s)) == ReadUnsigned(order.Opposite(), s)
  {
    BeValueIsReversedLe(s);
    BeValueIsReversedLe(Reverse(s));
    ReverseInvolution(s);
  }
}
