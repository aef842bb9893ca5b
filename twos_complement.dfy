/**
 * Two's-complement reinterpretation of a W-byte unsigned number.
 *
 * The same W bytes read as a signed type and as an unsigned type give
 * two numbers that are congruent modulo 256^W; the signed one is the
 * unique such number in [-256^W/2, 256^W/2).
 */
module TwosComplement {
  import opened ByteSeq

  /** Half of 256^w: the first unsigned number whose top bit is set. */
  function SignBound(w: nat): (b: int)
    requires w >= 1
    ensures b >= 1
    ensures 2 * b == Pow256(w)
  {
    0x80 * Pow256(w - 1)
  }

  predicate InSignedRange(v: int, w: nat)
    requires w >= 1
  {
    -SignBound(w) <= v < SignBound(w)
  }

  /** The signed reading of a w-byte unsigned number u. */
  function ToSigned(u: nat, w: nat): (v: int)
    requires w >= 1 && u < Pow256(w)
    ensures InSignedRange(v, w)
    ensures v == u || v == u - Pow256(w)
    ensures v < 0 <==> u >= SignBound(w)
  {
    if u < SignBound(w) then u else u - Pow256(w)
  }

  /** The w-byte unsigned number whose signed reading is v. */
  function FromSigned(v: int, w: nat): (u: nat)
    requires w >= 1 && InSignedRange(v, w)
    ensures u < Pow256(w)
    ensures u == v || u == v + Pow256(w)
    ensures v < 0 <==> u >= SignBound(w)
  {
    if v < 0 then v + Pow256(w) else v
  }

  lemma ToSignedFromSigned(v: int, w: nat)
    requires w >= 1 && InSignedRange(v, w)
    ensures ToSigned(FromSigned(v, w), w) == v
  {
  }

  lemma FromSignedToSigned(u: nat, w: nat)
    requires w >= 1 && u < Pow256(w)
    ensures FromSigned(ToSigned(u, w), w) == u
  {
  }

  /** 0 and m are the multiples of m in [0, m]. */
  lemma ModOfZeroOrSelf(d: int, m: int)
    requires m >= 1 && (d == 0 || d == m)
    ensures d % m == 0
  {
    var q, r := d / m, d % m;
    assert d == q * m + r && 0 <= r < m;
  }

  /** 0 is the only multiple of m strictly between -m and m. */
  lemma OnlyMultipleNearZero(d: int, m: int)
    requires m >= 1 && -m < d < m && d % m == 0
    ensures d == 0
  {
    var q := d / m;
    assert d == q * m;
  }

  /** The signed reading agrees with the unsigned one modulo 256^w. */
  lemma ToSignedCongruent(u: nat, w: nat)
    requires w >= 1 && u < Pow256(w)
    ensures (u - ToSigned(u, w)) % Pow256(w) == 0
  {
    ModOfZeroOrSelf(u - ToSigned(u, w), Pow256(w));
  }

  /**
   * Two numbers in the signed range that are congruent modulo 256^w are
   * equal: the signed reading is the only two's-complement reading.
   */
  lemma SignedRepresentativeUnique(a: int, b: int, w: nat)
    requires w >= 1 && InSignedRange(a, w) && InSignedRange(b, w)
    requires (a - b) % Pow256(w) == 0
    ensures a == b
  {
    OnlyMultipleNearZero(a - b, Pow256(w));
  }
}
