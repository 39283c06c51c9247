/**
 CRC-16/XMODEM as computed by `binascii.crc_hqx(data, crc)`: polynomial 0x1021 (the
 CRC-CCITT polynomial of ITU-T V.41), bytes fed most significant bit first, no
 reflection and no final XOR; the initial register is the second argument. The
 library computes it with a 256-entry table; the bit-serial register below is the
 definition that table is derived from.
 */
module Crc16 {
  import opened Bytes

  const Polynomial: bv16 := 0x1021

  /**
   One step of the register: shift left, and when the bit shifted out is set, XOR in the
   polynomial x^16 + x^12 + x^5 + 1. The body places the shifted-out bit at positions 12,
   5 and 0; the contract states the usual branching form.
   */
  function CrcShift(crc: bv16): (r: bv16)
    ensures r == if crc & 0x8000 != 0 then (crc << 1) ^ Polynomial else crc << 1
  {
    assert crc & 0x8000 != 0 ==> crc >> 15 == 1;
    assert crc & 0x8000 == 0 ==> crc >> 15 == 0;
    (crc << 1) ^ ((crc >> 15) << 12) ^ ((crc >> 15) << 5) ^ (crc >> 15)
  }

  function CrcShifts(crc: bv16, n: nat): bv16
    decreases n
  {
    if n == 0 then crc else CrcShifts(CrcShift(crc), n - 1)
  }

  /** Feeds one byte into the register. */
  function CrcByte(crc: bv16, b: Byte): bv16 {
    CrcShifts(crc ^ ((b as bv16) << 8), 8)
  }

  /** `binascii.crc_hqx(data, crc)`: the register after feeding every byte of `data`, starting from `crc`. */
  function CrcHqx(data: seq<Byte>, crc: bv16): bv16
    decreases |data|
  {
    if |data| == 0 then crc else CrcHqx(data[1..], CrcByte(crc, data[0]))
  }

  /** The CRC-16/XMODEM check value: the CRC of the ASCII digits "123456789" from 0 is 0x31C3. */
  lemma CheckValue()
    ensures CrcHqx([49, 50, 51, 52, 53, 54, 55, 56, 57], 0) == 0x31C3
  {
    var d: seq<Byte> := [49, 50, 51, 52, 53, 54, 55, 56, 57];
    assert CrcByte(0, 49) == 0x2672;
    assert CrcByte(0x2672, 50) == 0x20B5;
    assert CrcByte(0x20B5, 51) == 0x9752;
    assert CrcByte(0x9752, 52) == 0xD789;
    assert CrcByte(0xD789, 53) == 0x546C;
    assert CrcByte(0x546C, 54) == 0x20E4;
    assert CrcByte(0x20E4, 55) == 0x86D6;
    assert CrcByte(0x86D6, 56) == 0x9015;
    assert CrcByte(0x9015, 57) == 0x31C3;
    assert d[1..] == [50, 51, 52, 53, 54, 55, 56, 57];
  }

  /** A step never maps two registers to one, because the polynomial has a constant term. */
  lemma CrcShiftInjective(a: bv16, b: bv16)
    requires CrcShift(a) == CrcShift(b)
    ensures a == b
  {
  }

  /** Any number of steps never maps two registers to one. */
  lemma {:induction false} CrcShiftsInjective(a: bv16, b: bv16, n: nat)
    requires CrcShifts(a, n) == CrcShifts(b, n)
    ensures a == b
    decreases n
  {
    if n > 0 {
      CrcShiftsInjective(CrcShift(a), CrcShift(b), n - 1);
      CrcShiftInjective(a, b);
    }
  }

  /** Feeding the same byte into two different registers gives two different registers. */
  lemma CrcByteInjective(c: bv16, d: bv16, x: Byte)
    requires CrcByte(c, x) == CrcByte(d, x)
    ensures c == d
  {
    CrcShiftsInjective(c ^ ((x as bv16) << 8), d ^ ((x as bv16) << 8), 8);
  }

  /** Feeding two different bytes into one register gives two different registers. */
  lemma CrcByteInjectiveInByte(c: bv16, x: Byte, y: Byte)
    requires CrcByte(c, x) == CrcByte(c, y)
    ensures x == y
  {
    CrcShiftsInjective(c ^ ((x as bv16) << 8), c ^ ((y as bv16) << 8), 8);
  }

  /** The CRC of a concatenation continues from the register the first part leaves. */
  lemma {:induction false} CrcHqxConcat(a: seq<Byte>, b: seq<Byte>, c: bv16)
    ensures CrcHqx(a + b, c) == CrcHqx(b, CrcHqx(a, c))
    decreases |a|
  {
    if |a| == 0 {
      assert a + b == b;
    } else {
      assert (a + b)[0] == a[0];
      assert (a + b)[1..] == a[1..] + b;
      CrcHqxConcat(a[1..], b, CrcByte(c, a[0]));
    }
  }

  /**
   The register can be driven one byte at a time, as a streaming caller of `crc_hqx` does:
   the CRC of a message is its prefix's CRC fed the last byte.
   */
  lemma CrcHqxStreaming(data: seq<Byte>, b: Byte, crc: bv16)
    ensures CrcHqx(data + [b], crc) == CrcByte(CrcHqx(data, crc), b)
  {
    CrcHqxConcat(data, [b], crc);
    assert [b][1..] == [];
  }

  /** Different starting registers stay different through any data. */
  lemma {:induction false} CrcHqxInjective(data: seq<Byte>, c: bv16, d: bv16)
    requires CrcHqx(data, c) == CrcHqx(data, d)
    ensures c == d
    decreases |data|
  {
    if |data| > 0 {
      CrcHqxInjective(data[1..], CrcByte(c, data[0]), CrcByte(d, data[0]));
      CrcByteInjective(c, d, data[0]);
    }
  }

  /**
   The CRC detects every single-byte error: two messages that differ in exactly one byte
   have different CRCs, whatever the starting register.
   */
  lemma CrcDetectsByteError(p: seq<Byte>, q: seq<Byte>, x: Byte, y: Byte, c: bv16)
    requires x != y
    ensures CrcHqx(p + [x] + q, c) != CrcHqx(p + [y] + q, c)
  {
    var start := CrcHqx(p, c);
    CrcHqxConcat(p + [x], q, c);
    CrcHqxConcat(p + [y], q, c);
    CrcHqxConcat(p, [x], c);
    CrcHqxConcat(p, [y], c);
    assert CrcHqx([x], start) == CrcByte(start, x) by {
      assert [x][1..] == [];
    }
    assert CrcHqx([y], start) == CrcByte(start, y) by {
      assert [y][1..] == [];
    }
    if CrcHqx(q, CrcByte(start, x)) == CrcHqx(q, CrcByte(start, y)) {
      CrcHqxInjective(q, CrcByte(start, x), CrcByte(start, y));
      CrcByteInjectiveInByte(start, x, y);
    }
  }
}
