/**
 `pack_markers` of tesa_packer.c and the Python method that calls it. The C function
 puts its first 16-bit argument in bits 14 and up of a 32-bit result and the low 14 bits
 of its second argument below them; the Python side passes the id of a stable marker and
 0 for anything else, through ctypes `c_uint16` arguments.

 The C integer types are modelled as integer ranges. On these unsigned values
 `(uint32_t)s1 << 14` is `s1 * 2^14` (below 2^30, so the 32-bit shift loses nothing),
 `s2 & 0x3FFF` is `s2 mod 2^14`, and the `|` of two values whose set bits lie in
 different ranges is their sum.
 */
module Packer {
  import opened Markers
  import opened SymbolTable

  type UInt16 = x: int | 0 <= x < 0x1_0000
  type UInt32 = x: int | 0 <= x < 0x1_0000_0000

  /** The width of the field that keeps the second argument. */
  const FieldBits := 14
  const FieldSize := 0x4000

  /** `pack_markers(s1, s2)`. */
  function PackMarkers(s1: UInt16, s2: UInt16): (r: UInt32)
    ensures r % FieldSize == s2 % FieldSize
    ensures r / FieldSize == s1
    ensures r < 0x4000_0000
  {
    s1 * FieldSize + s2 % FieldSize
  }

  /**
   On 32-bit words the C expression is the arithmetic `PackMarkers` uses: the shift is a
   multiplication by 2^14, the mask a remainder, and the OR of the two disjoint fields a sum.
   */
  lemma BitwiseIsArithmetic(s1: bv16, s2: bv16)
    ensures ((s1 as bv32) << 14) | ((s2 as bv32) & 0x3FFF) == (s1 as bv32) * 0x4000 + (s2 as bv32) % 0x4000
  {
  }

  /** The top two bits of the second argument are discarded. */
  lemma PackDropsTopBits(s1: UInt16, s2: UInt16)
    ensures PackMarkers(s1, s2) == PackMarkers(s1, s2 % FieldSize)
  {
  }

  /** Packing determines the first argument and the low 14 bits of the second, and nothing more. */
  lemma PackInjective(a1: UInt16, a2: UInt16, b1: UInt16, b2: UInt16)
    ensures PackMarkers(a1, a2) == PackMarkers(b1, b2) <==> a1 == b1 && a2 % FieldSize == b2 % FieldSize
  {
  }

  /**
   ctypes `c_uint16` conversion of a Python integer: it keeps the value modulo 2^16 (two's
   complement for negatives) without reporting an overflow.
   */
  function ToUInt16(x: int): (w: UInt16)
    ensures (w - x) % 0x1_0000 == 0
  {
    x % 0x1_0000
  }

  /** Cutting to 16 bits and then to 14 is cutting to 14. */
  lemma WrapThenCut(x: int)
    ensures ToUInt16(x) % FieldSize == x % FieldSize
  {
    var q, r := x / 0x1_0000, x % 0x1_0000;
    var q2, r2 := r / FieldSize, r % FieldSize;
    assert x == FieldSize * (4 * q + q2) + r2;
  }

  /** The id the Python method passes for a marker: a stable marker's id, 0 otherwise. */
  function WireId(m: Marker): (id: int)
    ensures m.S? ==> id == m.id
    ensures m.T? ==> id == 0
  {
    if m.S? then m.id else 0
  }

  /** `TESACompressor.pack_markers(marker1, marker2)`. */
  function PackMarkerPair(m1: Marker, m2: Marker): (r: UInt32)
    ensures r / FieldSize == WireId(m1) % 0x1_0000
    ensures r % FieldSize == WireId(m2) % FieldSize
  {
    WrapThenCut(WireId(m2));
    PackMarkers(ToUInt16(WireId(m1)), ToUInt16(WireId(m2)))
  }

  /** An overflow marker packs like the stable id 0, in either position. */
  lemma OverflowPacksAsZero(k: int, m: Marker)
    ensures PackMarkerPair(T(k), m) == PackMarkerPair(S(0), m)
    ensures PackMarkerPair(m, T(k)) == PackMarkerPair(m, S(0))
  {
  }

  /**
   Stable ids below 2^14, which include every id a compressor of the default capacity
   allocates, pack to distinct values: the pair of ids is recoverable from the result.
   */
  lemma StablePairInjective(a: int, b: int, c: int, d: int)
    requires 0 <= a < FieldSize && 0 <= b < FieldSize && 0 <= c < FieldSize && 0 <= d < FieldSize
    ensures PackMarkerPair(S(a), S(b)) == PackMarkerPair(S(c), S(d)) <==> a == c && b == d
  {
  }

  /** Beyond 14 bits the second id collides: ids b and b + 2^14 pack alike. */
  lemma SecondIdCollides(m: Marker, b: int)
    ensures PackMarkerPair(m, S(b)) == PackMarkerPair(m, S(b + FieldSize))
  {
    assert (b + FieldSize) % FieldSize == b % FieldSize;
  }

  /** ctypes wrap-around: ids that agree modulo 2^16 pack alike in the first position. */
  lemma FirstIdWraps(a: int, m: Marker)
    ensures PackMarkerPair(S(a), m) == PackMarkerPair(S(a + 0x1_0000), m)
  {
    var r1, r2 := PackMarkerPair(S(a), m), PackMarkerPair(S(a + 0x1_0000), m);
    assert (a + 0x1_0000) % 0x1_0000 == a % 0x1_0000;
    assert r1 == FieldSize * (r1 / FieldSize) + r1 % FieldSize;
    assert r2 == FieldSize * (r2 / FieldSize) + r2 % FieldSize;
  }

  /**
   A compressor built with the default `max_markers` of 16384 hands out stable ids below
   2^14, so the wrapper packs any two of its stable markers to distinct words.
   */
  lemma DefaultCapacityPacksInjectively(c: Compressor, m1: Marker, m2: Marker, n1: Marker, n2: Marker)
    requires Valid(c) && c.maxMarkers == DefaultMaxMarkers
    requires m1 in c.dictionary && m2 in c.dictionary && n1 in c.dictionary && n2 in c.dictionary
    ensures PackMarkerPair(m1, m2) == PackMarkerPair(n1, n2) <==> m1 == n1 && m2 == n2
  {
    StableIdsBelowCapacity(c, m1);
    StableIdsBelowCapacity(c, m2);
    StableIdsBelowCapacity(c, n1);
    StableIdsBelowCapacity(c, n2);
    StablePairInjective(m1.id, m2.id, n1.id, n2.id);
  }
}
