/**
 `to_binary`: the version-1 frame `version | count | count x big-endian 16-bit value | CRC`,
 where the CRC is `binascii.crc_hqx(data, 0)` over every byte before it, i.e.
 CRC-16/XMODEM, appended most significant byte first.
 */
module Frame {
  import opened Wrappers
  import opened Bytes
  import opened Crc16

  const Version: Byte := 1

  /**
   `bytearray([version, count])` rejects a count above 255; `(c >> 8).to_bytes(1, 'big')`
   rejects a value whose high part is negative or above 255.
   */
  datatype FrameError = CountOverflow | ValueOverflow

  /** Every value fits the two bytes the frame gives it. */
  predicate InRange(s: seq<int>) {
    forall i :: 0 <= i < |s| ==> 0 <= s[i] < 0x1_0000
  }

  /** The bytes of the values, two per value: high byte first. */
  function Payload(s: seq<int>): (bytes: seq<Byte>)
    requires InRange(s)
    ensures |bytes| == 2 * |s|
    ensures forall i :: 0 <= i < |s| ==> bytes[2 * i] as int == s[i] / 256 && bytes[2 * i + 1] as int == s[i] % 256
  {
    if |s| == 0 then []
    else [ByteOf(s[0] / 256), ByteOf(s[0] % 256)] + Payload(s[1..])
  }

  /** The last two bytes of `f` hold the big-endian CRC-16/XMODEM of the bytes before them. */
  predicate CrcMatches(f: seq<Byte>) {
    |f| >= 2 && Word(f[|f| - 2], f[|f| - 1]) == CrcHqx(f[..|f| - 2], 0)
  }

  /** `to_binary(compressed)`. */
  function ToBinary(s: seq<int>): (r: Result<seq<Byte>, FrameError>)
    ensures |s| > 255 ==> r == Failure(CountOverflow)
    ensures |s| <= 255 && !InRange(s) ==> r == Failure(ValueOverflow)
    ensures r.Success? <==> |s| <= 255 && InRange(s)
    ensures r.Success? ==>
              var f := r.value;
              && |f| == 2 * |s| + 4
              && f[0] == Version && f[1] as int == |s|
              && (forall i :: 0 <= i < |s| ==> f[2 + 2 * i] as int * 256 + f[3 + 2 * i] as int == s[i])
              && CrcMatches(f)
  {
    if |s| > 255 then Failure(CountOverflow)
    else if !InRange(s) then Failure(ValueOverflow)
    else
      var data := [Version, ByteOf(|s|)] + Payload(s);
      var f := data + BigEndian(CrcHqx(data, 0));
      assert f[..|f| - 2] == data;
      Success(f)
  }

  /** The values carried by a payload, two bytes each, high byte first. */
  function Values(payload: seq<Byte>): (s: seq<int>)
    ensures |s| == |payload| / 2
    ensures forall i :: 0 <= i < |s| ==> s[i] == payload[2 * i] as int * 256 + payload[2 * i + 1] as int
  {
    seq(|payload| / 2, i requires 0 <= i < |payload| / 2 => payload[2 * i] as int * 256 + payload[2 * i + 1] as int)
  }

  /**
   A reader for the frame, written only as a proof aid (the component has no decoder): it
   accepts a frame of the right version, length and CRC and returns the values it carries.
   */
  function ParseFrame(f: seq<Byte>): (r: Option<seq<int>>)
    ensures r.Some? ==> CrcMatches(f) && |f| == 2 * |r.value| + 4 && f[0] == Version
  {
    if |f| < 4 || f[0] != Version || |f| != 2 * (f[1] as int) + 4 || !CrcMatches(f) then None
    else Some(Values(f[2..|f| - 2]))
  }

  /** The reader recovers exactly the values `to_binary` framed. */
  lemma FrameRoundTrip(s: seq<int>)
    requires ToBinary(s).Success?
    ensures ParseFrame(ToBinary(s).value) == Some(s)
  {
    var f := ToBinary(s).value;
    var v := Values(f[2..|f| - 2]);
    assert |v| == |s|;
    forall i | 0 <= i < |s|
      ensures v[i] == s[i]
    {
      assert f[2..|f| - 2][2 * i] == f[2 + 2 * i];
      assert f[2..|f| - 2][2 * i + 1] == f[3 + 2 * i];
    }
    assert v == s;
  }

  /** A sequence whose CRC field matches fails the check once any single byte of it is changed. */
  lemma CrcMatchesDetectsByteError(f: seq<Byte>, m: nat, y: Byte)
    requires CrcMatches(f) && m < |f| && y != f[m]
    ensures !CrcMatches(f[m := y])
  {
    var g := f[m := y];
    var n := |f| - 2;
    if m < n {
      var p, q := f[..m], f[m + 1..n];
      assert f[..n] == p + [f[m]] + q;
      assert g[..n] == p + [y] + q;
      CrcDetectsByteError(p, q, f[m], y, 0);
    } else {
      assert g[..n] == f[..n];
    }
  }

  /** Every frame `to_binary` builds (at most 255 values, each in 0..65535) is rejected by the reader once any single byte of it is changed. */
  lemma FrameDetectsByteError(s: seq<int>, m: nat, y: Byte)
    requires |s| <= 255 && InRange(s) && m < 2 * |s| + 4
    ensures y != ToBinary(s).value[m] ==> ParseFrame(ToBinary(s).value[m := y]) == None
  {
    if y != ToBinary(s).value[m] {
      CrcMatchesDetectsByteError(ToBinary(s).value, m, y);
    }
  }
}
