/**
 Markers and their integer encoding, and the delta transform applied to the encoded
 stream. A marker's low two bits are its kind (`00` stable, `01` overflow) and the
 remaining bits its id. Python's `r & 3` and `r >> 2` on arbitrary-precision integers
 coincide with Dafny's Euclidean `r % 4` and `r / 4` for every integer `r`, negative
 ones included, so they are written that way here.
 */
module Markers {
  import Text

  /** `S<id>` is a stable (dictionary) marker, `T<id>` an overflow marker. */
  datatype Marker = S(id: int) | T(id: int)

  /** The two-bit kind tag of a marker. */
  function Tag(m: Marker): (t: int)
    ensures 0 <= t < 4
  {
    if m.S? then 0 else 1
  }

  /** `(id << 2)` for stable markers, `(id << 2) | 0b01` for overflow ones. */
  function Encode(m: Marker): (v: int)
    ensures v % 4 == Tag(m) && v / 4 == m.id
  {
    4 * m.id + Tag(m)
  }

  /** Reads the tag with `v & 0b11` and the id with `v >> 2`; tag 1 is overflow, every other tag stable. */
  function Decode(v: int): (m: Marker)
    ensures Encode(m) == v - v % 4 + (if v % 4 == 1 then 1 else 0)
  {
    if v % 4 == 1 then T(v / 4) else S(v / 4)
  }

  lemma DecodeEncode(m: Marker)
    ensures Decode(Encode(m)) == m
  {
  }

  /** Exactly the values with tag bits `00` or `01` are encodings of some marker. */
  lemma EncodeDecode(v: int)
    ensures Encode(Decode(v)) == v <==> v % 4 == 0 || v % 4 == 1
  {
  }

  /** The encoding is injective: distinct markers never share an integer. */
  lemma EncodeInjective(m: Marker, n: Marker)
    requires Encode(m) == Encode(n)
    ensures m == n
  {
    DecodeEncode(m);
    DecodeEncode(n);
  }

  function EncodeAll(ms: seq<Marker>): (vs: seq<int>)
    ensures |vs| == |ms|
    ensures forall i :: 0 <= i < |ms| ==> Decode(vs[i]) == ms[i]
  {
    seq(|ms|, i requires 0 <= i < |ms| => Encode(ms[i]))
  }

  /** The literal marker name (`S<id>` or `T<id>`) shown when a marker has no dictionary entry. */
  function Name(m: Marker): (s: string)
    ensures Text.IsToken(s)
    ensures s[0] == (if m.S? then 'S' else 'T')
  {
    (if m.S? then "S" else "T") + Text.IntToString(m.id)
  }

  lemma NameInjective(m: Marker, n: Marker)
    requires Name(m) == Name(n)
    ensures m == n
  {
    assert Name(m)[1..] == Text.IntToString(m.id);
    assert Name(n)[1..] == Text.IntToString(n.id);
    Text.IntToStringInjective(m.id, n.id);
  }

  /** Delta transform: the first value is kept, every later value becomes its difference from its predecessor. */
  function ToDelta(s: seq<int>): (d: seq<int>)
    ensures |d| == |s|
    ensures |s| > 0 ==> d[0] == s[0]
    ensures forall i :: 1 <= i < |s| ==> s[i] == s[i - 1] + d[i]
  {
    seq(|s|, i requires 0 <= i < |s| => if i == 0 then s[0] else s[i] - s[i - 1])
  }

  /** Prefix-sum reconstruction, appending `last + delta` for each delta after the first. */
  function FromDelta(d: seq<int>): (r: seq<int>)
    ensures |r| == |d|
    ensures |d| > 0 ==> r[0] == d[0]
    ensures forall i :: 1 <= i < |d| ==> r[i] == r[i - 1] + d[i]
  {
    if |d| <= 1 then d
    else
      var p := FromDelta(d[..|d| - 1]);
      p + [p[|p| - 1] + d[|d| - 1]]
  }

  /** The prefix sums are the running totals of the deltas. */
  function Sum(d: seq<int>): int {
    if |d| == 0 then 0 else Sum(d[..|d| - 1]) + d[|d| - 1]
  }

  lemma {:induction false} FromDeltaIsRunningSum(d: seq<int>, i: nat)
    requires i < |d|
    ensures FromDelta(d)[i] == Sum(d[..i + 1])
  {
    if i > 0 {
      FromDeltaIsRunningSum(d, i - 1);
      assert d[..i + 1][..i] == d[..i];
    }
  }

  /** Two sequences that start alike and grow by the same differences agree at every position. */
  lemma {:induction false} SameDifferences(a: seq<int>, b: seq<int>, i: nat)
    requires i < |a| == |b| && a[0] == b[0]
    requires forall k :: 1 <= k < |a| ==> a[k] - a[k - 1] == b[k] - b[k - 1]
    ensures a[i] == b[i]
    decreases i
  {
    if i > 0 {
      SameDifferences(a, b, i - 1);
    }
  }

  /** Prefix summation undoes the delta transform, for any integer sequence. */
  lemma FromDeltaToDelta(s: seq<int>)
    ensures FromDelta(ToDelta(s)) == s
  {
    var r := FromDelta(ToDelta(s));
    if |s| > 0 {
      forall i | 0 <= i < |s|
        ensures r[i] == s[i]
      {
        SameDifferences(r, s, i);
      }
    }
  }

  /** The delta transform undoes prefix summation. */
  lemma ToDeltaFromDelta(d: seq<int>)
    ensures ToDelta(FromDelta(d)) == d
  {
    var r := FromDelta(d);
    var t := ToDelta(r);
    forall i | 0 <= i < |d|
      ensures t[i] == d[i]
    {
      if i > 0 {
        assert r[i] == r[i - 1] + d[i] && r[i] == r[i - 1] + t[i];
      }
    }
  }

  /** The two transforms are mutually inverse, so the delta stream determines the encoded stream. */
  lemma ToDeltaInjective(s: seq<int>, t: seq<int>)
    requires ToDelta(s) == ToDelta(t)
    ensures s == t
  {
    FromDeltaToDelta(s);
    FromDeltaToDelta(t);
  }
}
