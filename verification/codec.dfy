/**
 `compress` and `decompress`: whitespace tokenisation, the greedy pair test, symbol
 resolution, marker encoding and the delta transform, and their inverse.
 */
module Codec {
  import opened Wrappers
  import opened Markers
  import opened SymbolTable
  import Text

  /** `decompress` indexes the first element of its argument, which fails on an empty list. */
  datatype DecompressError = EmptyStream

  /** The pair candidate formed from two neighbouring tokens. */
  function Pair(a: string, b: string): (p: string)
    ensures ' ' in p
  {
    assert (a + " " + b)[|a|] == ' ';
    a + " " + b
  }

  /**
   The scan of `compress`: at position `i`, if a next token exists and the counter of
   the exact pair string exceeds 2, the pair is resolved as one unit and two tokens are
   consumed; otherwise the single token is resolved.
   */
  function Segment(c: Compressor, score: Score, words: seq<string>, i: nat): (r: (Compressor, seq<Marker>))
    requires i <= |words|
    ensures |r.1| <= |words| - i <= 2 * |r.1|
    ensures r.0.maxMarkers == c.maxMarkers
    decreases |words| - i
  {
    if i == |words| then (c, [])
    else if i + 1 < |words| && Count(c.frequency, Pair(words[i], words[i + 1])) > 2 then
      var (c1, m) := Resolve(c, score, Pair(words[i], words[i + 1]));
      var (c2, ms) := Segment(c1, score, words, i + 2);
      (c2, [m] + ms)
    else
      var (c1, m) := Resolve(c, score, words[i]);
      var (c2, ms) := Segment(c1, score, words, i + 1);
      (c2, [m] + ms)
  }

  /** Word-level segmentation: every token resolved on its own, in order. */
  function ResolveEach(c: Compressor, score: Score, words: seq<string>): (r: (Compressor, seq<Marker>))
    ensures |r.1| == |words|
    decreases |words|
  {
    if |words| == 0 then (c, [])
    else
      var (c1, m) := Resolve(c, score, words[0]);
      var (c2, ms) := ResolveEach(c1, score, words[1..]);
      (c2, [m] + ms)
  }

  /** `compress(text)`: returns the updated instance and the delta stream. */
  function Compress(c: Compressor, score: Score, text: string): (r: (Compressor, seq<int>))
    ensures |r.1| <= |Text.Split(text)| <= 2 * |r.1|
    ensures r.0.maxMarkers == c.maxMarkers
  {
    var (c1, ms) := Segment(c, score, Text.Split(text), 0);
    (c1, ToDelta(EncodeAll(ms)))
  }

  /** The text of each encoded value, looked up on instance `c`. */
  function SpellAll(c: Compressor, vs: seq<int>): (ts: seq<string>)
    ensures |ts| == |vs|
  {
    seq(|vs|, k requires 0 <= k < |vs| => Spell(c, Decode(vs[k])))
  }

  /**
   `decompress(deltas)`: prefix sums, decoding of each value, lookup in `temp_dict` or
   `dictionary` with the literal marker name as fallback, and a single-space join.
   */
  function Decompress(c: Compressor, deltas: seq<int>): (r: Result<string, DecompressError>)
    ensures r.Failure? <==> |deltas| == 0
  {
    if |deltas| == 0 then Failure(EmptyStream)
    else Success(Text.Join(SpellAll(c, FromDelta(deltas))))
  }

  /** No counter of a phrase containing a space exceeds 2. */
  ghost predicate NoHotPairs(c: Compressor) {
    forall p :: p in c.frequency && ' ' in p ==> c.frequency[p] <= 2
  }

  lemma InitNoHotPairs(maxMarkers: int)
    ensures NoHotPairs(Init(maxMarkers))
  {
  }

  /** Resolving a phrase without a space leaves every pair counter as it was. */
  lemma ResolveKeepsNoHotPairs(c: Compressor, score: Score, phrase: string)
    requires NoHotPairs(c) && ' ' !in phrase
    ensures NoHotPairs(Resolve(c, score, phrase).0)
  {
    var d := Resolve(c, score, phrase).0;
    forall p | p in d.frequency && ' ' in p
      ensures d.frequency[p] <= 2
    {
      assert Count(d.frequency, p) == Count(c.frequency, p);
    }
  }

  /**
   The pair branch of `compress` never fires: the only writer of a pair counter is that
   branch itself, so on an instance used only through `compress` the scan resolves the
   tokens one by one.
   */
  lemma {:induction false} SegmentIsWordByWord(c: Compressor, score: Score, words: seq<string>, i: nat)
    requires NoHotPairs(c) && Text.AllTokens(words) && i <= |words|
    ensures Segment(c, score, words, i) == ResolveEach(c, score, words[i..])
    ensures NoHotPairs(Segment(c, score, words, i).0)
    decreases |words| - i
  {
    if i < |words| {
      if i + 1 < |words| {
        var p := Pair(words[i], words[i + 1]);
        assert Count(c.frequency, p) <= 2;
      }
      assert ' ' !in words[i];
      ResolveKeepsNoHotPairs(c, score, words[i]);
      var c1 := Resolve(c, score, words[i]).0;
      SegmentIsWordByWord(c1, score, words, i + 1);
      assert words[i..][1..] == words[i + 1..];
    }
  }

  /**
   No alias fires while `words` are resolved one by one from `c`: at every step the token
   is either already bound in `reverse_dict` or scores at most 90 against every stable
   phrase known at that point.
   */
  predicate NoAliasFires(c: Compressor, score: Score, words: seq<string>)
    decreases |words|
  {
    |words| == 0 ||
    ((Position(c.reverseDict, words[0]).Some? || AliasPosition(c.reverseDict, score, words[0]).None?)
     && NoAliasFires(Resolve(c, score, words[0]).0, score, words[1..]))
  }

  /** A score that exceeds the threshold only for identical phrases never lets an alias fire. */
  lemma {:induction false} DiscriminatingNoAliasFires(c: Compressor, score: Score, words: seq<string>)
    requires Discriminating(score)
    ensures NoAliasFires(c, score, words)
    decreases |words|
  {
    if |words| > 0 {
      if Position(c.reverseDict, words[0]).None? {
        DiscriminatingNoAlias(c, score, words[0]);
      }
      DiscriminatingNoAliasFires(Resolve(c, score, words[0]).0, score, words[1..]);
    }
  }

  /** Token-by-token resolution keeps the instance consistent and only extends it, whatever the score. */
  lemma {:induction false} ResolveEachPreservesValid(c: Compressor, score: Score, words: seq<string>)
    requires Valid(c)
    ensures Valid(ResolveEach(c, score, words).0) && Extends(c, ResolveEach(c, score, words).0)
    decreases |words|
  {
    if |words| == 0 {
      assert c.reverseDict[..|c.reverseDict|] == c.reverseDict;
    } else {
      var c1 := Resolve(c, score, words[0]).0;
      ResolvePreservesValid(c, score, words[0]);
      ResolveEachPreservesValid(c1, score, words[1..]);
      ExtendsTransitive(c, c1, ResolveEach(c1, score, words[1..]).0);
    }
  }

  /** The scan of `compress`, pair branch included, keeps the instance consistent and only extends it, whatever the score. */
  lemma {:induction false} SegmentPreservesValid(c: Compressor, score: Score, words: seq<string>, i: nat)
    requires Valid(c) && i <= |words|
    ensures Valid(Segment(c, score, words, i).0) && Extends(c, Segment(c, score, words, i).0)
    decreases |words| - i
  {
    if i == |words| {
      assert c.reverseDict[..|c.reverseDict|] == c.reverseDict;
    } else if i + 1 < |words| && Count(c.frequency, Pair(words[i], words[i + 1])) > 2 {
      var p := Pair(words[i], words[i + 1]);
      var c1 := Resolve(c, score, p).0;
      ResolvePreservesValid(c, score, p);
      SegmentPreservesValid(c1, score, words, i + 2);
      ExtendsTransitive(c, c1, Segment(c1, score, words, i + 2).0);
    } else {
      var c1 := Resolve(c, score, words[i]).0;
      ResolvePreservesValid(c, score, words[i]);
      SegmentPreservesValid(c1, score, words, i + 1);
      ExtendsTransitive(c, c1, Segment(c1, score, words, i + 1).0);
    }
  }

  /**
   Across a whole `compress` call, with any score: stable ids stay 1, 2, ... within the
   capacity, and every marker bound before the call still spells the same text after it.
   */
  lemma CompressPreservesValid(c: Compressor, score: Score, text: string, m: Marker)
    requires Valid(c)
    ensures Valid(Compress(c, score, text).0) && Extends(c, Compress(c, score, text).0)
    ensures Bound(c, m) ==> Bound(Compress(c, score, text).0, m) && Spell(Compress(c, score, text).0, m) == Spell(c, m)
  {
    SegmentPreservesValid(c, score, Text.Split(text), 0);
    if Bound(c, m) {
      SpellStable(c, Compress(c, score, text).0, m);
    }
  }

  /** Resolving a phrase for which no alias fires binds it to a marker that spells it, and keeps the instance consistent. */
  lemma ResolveOneRecoverable(c: Compressor, score: Score, phrase: string)
    requires Valid(c)
    requires Position(c.reverseDict, phrase).Some? || AliasPosition(c.reverseDict, score, phrase).None?
    ensures var r := Resolve(c, score, phrase);
            Valid(r.0) && Extends(c, r.0) && Bound(r.0, r.1) && Spell(r.0, r.1) == phrase
  {
    ResolvePreservesValid(c, score, phrase);
    ResolveRecoverable(c, score, phrase);
  }

  /** Prepending a marker that spells the first word to markers that spell the rest spells all the words. */
  lemma SpellsCons(d: Compressor, m: Marker, ms: seq<Marker>, words: seq<string>)
    requires |words| == |ms| + 1
    requires Bound(d, m) && Spell(d, m) == words[0]
    requires forall k :: 0 <= k < |ms| ==> Bound(d, ms[k]) && Spell(d, ms[k]) == words[1..][k]
    ensures forall k :: 0 <= k < |words| ==> Bound(d, ([m] + ms)[k]) && Spell(d, ([m] + ms)[k]) == words[k]
  {
    forall k | 0 <= k < |words|
      ensures Bound(d, ([m] + ms)[k]) && Spell(d, ([m] + ms)[k]) == words[k]
    {
      if k > 0 {
        assert ([m] + ms)[k] == ms[k - 1];
        assert words[k] == words[1..][k - 1];
      }
    }
  }

  /**
   Resolution of tokens for which no alias fires binds every token to a marker that spells
   it, keeps the instance valid and only extends it.
   */
  lemma {:induction false} ResolveEachRecoverable(c: Compressor, score: Score, words: seq<string>)
    requires Valid(c) && NoAliasFires(c, score, words)
    ensures Valid(ResolveEach(c, score, words).0) && Extends(c, ResolveEach(c, score, words).0)
    ensures var r := ResolveEach(c, score, words);
            forall k :: 0 <= k < |words| ==> Bound(r.0, r.1[k]) && Spell(r.0, r.1[k]) == words[k]
    decreases |words|
  {
    ResolveEachPreservesValid(c, score, words);
    if |words| > 0 {
      var r1 := Resolve(c, score, words[0]);
      ResolveOneRecoverable(c, score, words[0]);
      ResolveEachRecoverable(r1.0, score, words[1..]);
      var r2 := ResolveEach(r1.0, score, words[1..]);
      SpellStable(r1.0, r2.0, r1.1);
      assert ResolveEach(c, score, words) == (r2.0, [r1.1] + r2.1);
      SpellsCons(r2.0, r1.1, r2.1, words);
    }
  }

  /** `decompress` recovers, on instance `c`, the text of every marker of an encoded stream. */
  lemma DecompressEncoded(c: Compressor, ms: seq<Marker>)
    requires |ms| > 0
    ensures Decompress(c, ToDelta(EncodeAll(ms))) == Success(Text.Join(seq(|ms|, k requires 0 <= k < |ms| => Spell(c, ms[k]))))
  {
    var vs := EncodeAll(ms);
    FromDeltaToDelta(vs);
    assert FromDelta(ToDelta(vs)) == vs;
    var spelled := SpellAll(c, vs);
    forall k | 0 <= k < |ms|
      ensures spelled[k] == Spell(c, ms[k])
    {
      assert Decode(vs[k]) == ms[k];
    }
    assert spelled == seq(|ms|, k requires 0 <= k < |ms| => Spell(c, ms[k]));
  }

  /**
   On a valid instance used only through `compress`, when no alias fires on the tokens of
   `text`, `decompress(compress(text))` on the same instance gives the tokens of `text`
   joined by single spaces, whenever `text` has a token.
   */
  lemma RoundTrip(c: Compressor, score: Score, text: string)
    requires Valid(c) && NoHotPairs(c) && NoAliasFires(c, score, Text.Split(text))
    requires !Text.AllSpace(text)
    ensures var r := Compress(c, score, text);
            Decompress(r.0, r.1) == Success(Text.Join(Text.Split(text)))
  {
    var words := Text.Split(text);
    SegmentIsWordByWord(c, score, words, 0);
    assert words[0..] == words;
    WordByWordRoundTrip(c, score, words);
  }

  /** Resolving tokens one by one, encoding them and decompressing on the resulting instance gives them back. */
  lemma WordByWordRoundTrip(c: Compressor, score: Score, words: seq<string>)
    requires Valid(c) && NoAliasFires(c, score, words) && |words| > 0
    ensures var r := ResolveEach(c, score, words);
            Decompress(r.0, ToDelta(EncodeAll(r.1))) == Success(Text.Join(words))
  {
    ResolveEachRecoverable(c, score, words);
    var (c1, ms) := ResolveEach(c, score, words);
    DecompressEncoded(c1, ms);
    assert seq(|ms|, k requires 0 <= k < |ms| => Spell(c1, ms[k])) == words;
  }

  /** Single-space separated text comes back exactly. */
  lemma RoundTripExact(c: Compressor, score: Score, ws: seq<string>)
    requires Valid(c) && NoHotPairs(c) && NoAliasFires(c, score, ws)
    requires |ws| > 0 && Text.AllTokens(ws)
    ensures var r := Compress(c, score, Text.Join(ws));
            Decompress(r.0, r.1) == Success(Text.Join(ws))
  {
    Text.SplitJoin(ws);
    RoundTrip(c, score, Text.Join(ws));
  }

  /**
   `compress` yields exactly one value per whitespace token, and no value at all for
   text that is empty or all whitespace, which `decompress` then rejects.
   */
  lemma CompressOnePerToken(c: Compressor, score: Score, text: string)
    requires NoHotPairs(c)
    ensures |Compress(c, score, text).1| == |Text.Split(text)|
    ensures NoHotPairs(Compress(c, score, text).0)
    ensures Text.AllSpace(text) <==> Decompress(c, Compress(c, score, text).1).Failure?
  {
    SegmentIsWordByWord(c, score, Text.Split(text), 0);
    assert Text.Split(text)[0..] == Text.Split(text);
  }
}
