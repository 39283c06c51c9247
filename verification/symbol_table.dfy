/**
 The compressor's symbol table and its one mutating operation, `add_to_dictionary`
 (here `Resolve`). The mutable instance becomes an immutable record threaded through
 pure functions; the fuzzy-match score is a parameter.
 */
module SymbolTable {
  import opened Wrappers
  import opened Markers

  /** `fuzz.ratio` applied to the lower-cased phrases: the new phrase first, the known one second. */
  type Score = (string, string) -> int

  /** A score strictly above this makes a new phrase an alias of a known one. */
  const AliasThreshold := 90

  /** The default `max_markers` of the constructor. */
  const DefaultMaxMarkers := 16384

  /** One item of `reverse_dict`, which is kept in insertion order. */
  datatype Entry = Entry(phrase: string, marker: Marker)

  /**
   The state of one compressor instance. `reverseDict` lists phrase-to-marker bindings in
   insertion order; `frequency` holds the counters that are not zero (a counter that is
   absent reads as zero, as with a `defaultdict(int)`).
   */
  datatype Compressor = Compressor(
    maxMarkers: int,
    dictionary: map<Marker, string>,
    reverseDict: seq<Entry>,
    tempDict: map<Marker, string>,
    nextId: int,
    nextTempId: int,
    frequency: map<string, nat>)

  function Count(frequency: map<string, nat>, p: string): nat {
    if p in frequency then frequency[p] else 0
  }

  /** Index of the first entry, at or after `from`, that satisfies `p`. */
  function FirstMatch(rd: seq<Entry>, p: Entry -> bool, from: nat): (k: Option<nat>)
    requires from <= |rd|
    ensures k.Some? ==> from <= k.value < |rd| && p(rd[k.value])
    ensures k.Some? ==> forall j :: from <= j < k.value ==> !p(rd[j])
    ensures k.None? ==> forall j :: from <= j < |rd| ==> !p(rd[j])
    decreases |rd| - from
  {
    if from == |rd| then None
    else if p(rd[from]) then Some(from)
    else FirstMatch(rd, p, from + 1)
  }

  /** Where `phrase` is bound in `reverse_dict`, if it is. */
  function Position(rd: seq<Entry>, phrase: string): (k: Option<nat>)
    ensures k.Some? ==> k.value < |rd| && rd[k.value].phrase == phrase
    ensures k.None? ==> forall j :: 0 <= j < |rd| ==> rd[j].phrase != phrase
  {
    FirstMatch(rd, (e: Entry) => e.phrase == phrase, 0)
  }

  /** The first known phrase, in insertion order, that `phrase` scores above the threshold against. */
  function AliasPosition(rd: seq<Entry>, score: Score, phrase: string): (k: Option<nat>)
    ensures k.Some? ==> k.value < |rd| && score(phrase, rd[k.value].phrase) > AliasThreshold
    ensures k.Some? ==> forall j :: 0 <= j < k.value ==> score(phrase, rd[j].phrase) <= AliasThreshold
    ensures k.None? ==> forall j :: 0 <= j < |rd| ==> score(phrase, rd[j].phrase) <= AliasThreshold
  {
    FirstMatch(rd, (e: Entry) => score(phrase, e.phrase) > AliasThreshold, 0)
  }

  /**
   The consistency the instance keeps: stable ids are 1, 2, ... in insertion order with
   no gaps, `dictionary` is the exact inverse of `reverse_dict`, at most `max_markers - 1`
   stable ids exist, and overflow ids are 1, 2, ... in `temp_dict`.
   */
  ghost predicate Valid(c: Compressor) {
    && c.nextId == |c.reverseDict| + 1
    && (c.nextId == 1 || c.nextId <= c.maxMarkers)
    && c.nextTempId >= 1
    && (forall k :: 0 <= k < |c.reverseDict| ==> c.reverseDict[k].marker == S(k + 1))
    && (forall j, k :: 0 <= j < k < |c.reverseDict| ==> c.reverseDict[j].phrase != c.reverseDict[k].phrase)
    && (forall m :: m in c.dictionary <==> m.S? && 1 <= m.id < c.nextId)
    && (forall k :: 0 <= k < |c.reverseDict| ==> c.dictionary[c.reverseDict[k].marker] == c.reverseDict[k].phrase)
    && (forall m :: m in c.tempDict <==> m.T? && 1 <= m.id < c.nextTempId)
  }

  /** A fresh instance: `TESACompressor(max_markers)`. */
  function Init(maxMarkers: int): (c: Compressor)
    ensures Valid(c) && c.maxMarkers == maxMarkers
    ensures forall p :: Count(c.frequency, p) == 0
    ensures c.nextId == 1 && c.nextTempId == 1
  {
    Compressor(maxMarkers, map[], [], map[], 1, 1, map[])
  }

  /** `d` equals `c` in everything but the frequency counters. */
  predicate SameTables(c: Compressor, d: Compressor) {
    c.(frequency := d.frequency) == d
  }

  /**
   `add_to_dictionary(phrase)`: count the phrase; return its existing stable marker; else
   the marker of the first known phrase it scores above the threshold against; else a
   new stable marker while `next_id < max_markers`; else a new overflow marker, which is
   recorded only in `temp_dict`.
   */
  function Resolve(c: Compressor, score: Score, phrase: string): (r: (Compressor, Marker))
    ensures Count(r.0.frequency, phrase) == Count(c.frequency, phrase) + 1
    ensures forall q :: q != phrase ==> Count(r.0.frequency, q) == Count(c.frequency, q)
    ensures Position(c.reverseDict, phrase).Some? ==>
              SameTables(c, r.0) && r.1 == c.reverseDict[Position(c.reverseDict, phrase).value].marker
    ensures Position(c.reverseDict, phrase).None? && AliasPosition(c.reverseDict, score, phrase).Some? ==>
              SameTables(c, r.0) && r.1 == c.reverseDict[AliasPosition(c.reverseDict, score, phrase).value].marker
    ensures Position(c.reverseDict, phrase).None? && AliasPosition(c.reverseDict, score, phrase).None? &&
            c.nextId < c.maxMarkers ==>
              && r.1 == S(c.nextId)
              && r.0.dictionary == c.dictionary[r.1 := phrase]
              && r.0.reverseDict == c.reverseDict + [Entry(phrase, r.1)]
              && r.0.nextId == c.nextId + 1
              && r.0.tempDict == c.tempDict && r.0.nextTempId == c.nextTempId
    ensures Position(c.reverseDict, phrase).None? && AliasPosition(c.reverseDict, score, phrase).None? &&
            c.nextId >= c.maxMarkers ==>
              && r.1 == T(c.nextTempId)
              && r.0.tempDict == c.tempDict[r.1 := phrase]
              && r.0.nextTempId == c.nextTempId + 1
              && r.0.dictionary == c.dictionary && r.0.reverseDict == c.reverseDict && r.0.nextId == c.nextId
    ensures r.0.maxMarkers == c.maxMarkers
  {
    var counted := c.(frequency := c.frequency[phrase := Count(c.frequency, phrase) + 1]);
    match Position(c.reverseDict, phrase)
    case Some(k) => (counted, c.reverseDict[k].marker)
    case None =>
      match AliasPosition(c.reverseDict, score, phrase)
      case Some(k) => (counted, c.reverseDict[k].marker)
      case None =>
        if c.nextId < c.maxMarkers then
          var m := S(c.nextId);
          (counted.(dictionary := c.dictionary[m := phrase],
                    reverseDict := c.reverseDict + [Entry(phrase, m)],
                    nextId := c.nextId + 1), m)
        else
          var m := T(c.nextTempId);
          (counted.(tempDict := c.tempDict[m := phrase], nextTempId := c.nextTempId + 1), m)
  }

  /** `m` has an entry in the table `decompress` consults for its kind. */
  predicate Bound(c: Compressor, m: Marker) {
    if m.T? then m in c.tempDict else m in c.dictionary
  }

  /**
   The text `decompress` shows for a marker: its `temp_dict` or `dictionary` entry, or
   the literal marker name when there is none.
   */
  function Spell(c: Compressor, m: Marker): (s: string)
    ensures !Bound(c, m) ==> s == Name(m)
  {
    if m.T? then (if m in c.tempDict then c.tempDict[m] else Name(m))
    else (if m in c.dictionary then c.dictionary[m] else Name(m))
  }

  /**
   `d` is a later state of the instance that `c` was: nothing is ever removed or rebound,
   `reverse_dict` only grows at its end, and the id cursors never go back.
   */
  ghost predicate Extends(c: Compressor, d: Compressor) {
    && d.maxMarkers == c.maxMarkers
    && |c.reverseDict| <= |d.reverseDict| && d.reverseDict[..|c.reverseDict|] == c.reverseDict
    && (forall m :: m in c.dictionary ==> m in d.dictionary && d.dictionary[m] == c.dictionary[m])
    && (forall m :: m in c.tempDict ==> m in d.tempDict && d.tempDict[m] == c.tempDict[m])
    && c.nextId <= d.nextId && c.nextTempId <= d.nextTempId
  }

  lemma ExtendsTransitive(c: Compressor, d: Compressor, e: Compressor)
    requires Extends(c, d) && Extends(d, e)
    ensures Extends(c, e)
  {
    assert e.reverseDict[..|c.reverseDict|] == e.reverseDict[..|d.reverseDict|][..|c.reverseDict|];
  }

  /** A marker's text never changes once it is bound. */
  lemma SpellStable(c: Compressor, d: Compressor, m: Marker)
    requires Extends(c, d) && Bound(c, m)
    ensures Bound(d, m) && Spell(d, m) == Spell(c, m)
  {
  }

  lemma ValidIgnoresFrequency(c: Compressor, d: Compressor)
    requires Valid(c) && SameTables(c, d)
    ensures Valid(d) && Extends(c, d)
  {
    assert d == c.(frequency := d.frequency);
  }

  lemma AllocateStablePreservesValid(c: Compressor, d: Compressor, phrase: string)
    requires Valid(c) && Position(c.reverseDict, phrase).None? && c.nextId < c.maxMarkers
    requires d.maxMarkers == c.maxMarkers
    requires d.dictionary == c.dictionary[S(c.nextId) := phrase]
    requires d.reverseDict == c.reverseDict + [Entry(phrase, S(c.nextId))]
    requires d.nextId == c.nextId + 1
    requires d.tempDict == c.tempDict && d.nextTempId == c.nextTempId
    ensures Valid(d) && Extends(c, d)
  {
    var rd := d.reverseDict;
    assert rd[..|c.reverseDict|] == c.reverseDict;
    forall j, k | 0 <= j < k < |rd|
      ensures rd[j].phrase != rd[k].phrase
    {
      if k == |c.reverseDict| {
        assert rd[j] == c.reverseDict[j];
      }
    }
    forall k | 0 <= k < |rd|
      ensures d.dictionary[rd[k].marker] == rd[k].phrase
    {
      if k < |c.reverseDict| {
        assert rd[k] == c.reverseDict[k];
      }
    }
  }

  lemma AllocateOverflowPreservesValid(c: Compressor, d: Compressor, phrase: string)
    requires Valid(c)
    requires d.maxMarkers == c.maxMarkers
    requires d.dictionary == c.dictionary && d.reverseDict == c.reverseDict && d.nextId == c.nextId
    requires d.tempDict == c.tempDict[T(c.nextTempId) := phrase]
    requires d.nextTempId == c.nextTempId + 1
    ensures Valid(d) && Extends(c, d)
  {
    assert d.reverseDict[..|c.reverseDict|] == c.reverseDict;
  }

  /** `add_to_dictionary` keeps every invariant of the instance, the capacity bound included. */
  lemma ResolvePreservesValid(c: Compressor, score: Score, phrase: string)
    requires Valid(c)
    ensures Valid(Resolve(c, score, phrase).0)
    ensures Extends(c, Resolve(c, score, phrase).0)
  {
    var r := Resolve(c, score, phrase);
    if Position(c.reverseDict, phrase).Some? || AliasPosition(c.reverseDict, score, phrase).Some? {
      ValidIgnoresFrequency(c, r.0);
    } else if c.nextId < c.maxMarkers {
      AllocateStablePreservesValid(c, r.0, phrase);
    } else {
      AllocateOverflowPreservesValid(c, r.0, phrase);
    }
  }

  /**
   Unless an alias fires, the returned marker is bound to the phrase itself, so
   `decompress` on the resulting instance shows the phrase again.
   */
  lemma ResolveRecoverable(c: Compressor, score: Score, phrase: string)
    requires Valid(c)
    requires Position(c.reverseDict, phrase).Some? || AliasPosition(c.reverseDict, score, phrase).None?
    ensures Bound(Resolve(c, score, phrase).0, Resolve(c, score, phrase).1)
    ensures Spell(Resolve(c, score, phrase).0, Resolve(c, score, phrase).1) == phrase
  {
  }

  /**
   When an alias fires, the returned marker shows the known phrase it was matched against,
   never the new phrase itself: the no-alias condition is needed for the phrase to come back.
   */
  lemma AliasSpellsKnownPhrase(c: Compressor, score: Score, phrase: string)
    requires Valid(c)
    requires Position(c.reverseDict, phrase).None? && AliasPosition(c.reverseDict, score, phrase).Some?
    ensures var k := AliasPosition(c.reverseDict, score, phrase).value;
            Spell(Resolve(c, score, phrase).0, Resolve(c, score, phrase).1) == c.reverseDict[k].phrase
    ensures Spell(Resolve(c, score, phrase).0, Resolve(c, score, phrase).1) != phrase
  {
    var k := AliasPosition(c.reverseDict, score, phrase).value;
    assert c.reverseDict[k].marker in c.dictionary;
  }

  /** Every stable marker of a consistent instance has an id from 1 up to `max_markers - 1`. */
  lemma StableIdsBelowCapacity(c: Compressor, m: Marker)
    requires Valid(c) && m in c.dictionary
    ensures m.S? && 1 <= m.id < c.maxMarkers
  {
  }

  /** An alias never fires when the score exceeds the threshold only for identical phrases. */
  ghost predicate Discriminating(score: Score) {
    forall a: string, b: string :: a != b ==> score(a, b) <= AliasThreshold
  }

  lemma DiscriminatingNoAlias(c: Compressor, score: Score, phrase: string)
    requires Discriminating(score)
    requires Position(c.reverseDict, phrase).None?
    ensures AliasPosition(c.reverseDict, score, phrase).None?
  {
  }

  /**
   A phrase bound to a stable marker keeps it: every later resolution of the phrase, on
   any later state of the instance, returns that marker and binds nothing new.
   */
  lemma StableBindingPermanent(c: Compressor, d: Compressor, score: Score, phrase: string)
    requires Valid(c) && Valid(d) && Extends(c, d)
    requires Position(c.reverseDict, phrase).Some?
    ensures Resolve(d, score, phrase).1 == c.reverseDict[Position(c.reverseDict, phrase).value].marker
    ensures SameTables(d, Resolve(d, score, phrase).0)
  {
    var k := Position(c.reverseDict, phrase).value;
    assert d.reverseDict[k] == c.reverseDict[k];
    var kd := Position(d.reverseDict, phrase);
    assert kd == Some(k);
  }

  /**
   An overflow phrase is never recorded in `reverse_dict`: resolving it again, with no
   alias in reach, hands out the next, strictly larger overflow id.
   */
  lemma OverflowNeverReused(c: Compressor, score: Score, phrase: string)
    requires Valid(c)
    requires Position(c.reverseDict, phrase).None? && AliasPosition(c.reverseDict, score, phrase).None?
    requires c.nextId >= c.maxMarkers
    ensures Resolve(c, score, phrase).1 == T(c.nextTempId)
    ensures Resolve(Resolve(c, score, phrase).0, score, phrase).1 == T(c.nextTempId + 1)
  {
  }

  /**
   With `max_markers = 2` and no similar phrases, only one stable id exists: the first
   new phrase gets `S1` and the next two get `T1` and `T2`.
   */
  lemma CapacityExample()
    ensures var score := (a: string, b: string) => 0;
            var r1 := Resolve(Init(2), score, "alpha");
            var r2 := Resolve(r1.0, score, "beta");
            var r3 := Resolve(r2.0, score, "gamma");
            r1.1 == S(1) && r2.1 == T(1) && r3.1 == T(2)
  {
    var score := (a: string, b: string) => 0;
    var c0 := Init(2);
    assert c0.reverseDict == [] && c0.nextId == 1 && c0.maxMarkers == 2;
    var r1 := Resolve(c0, score, "alpha");
    assert r1.1 == S(1) && r1.0.nextId == 2 && r1.0.maxMarkers == 2;
    assert r1.0.reverseDict == [Entry("alpha", S(1))] && r1.0.nextTempId == 1;
    var r2 := Resolve(r1.0, score, "beta");
    assert "alpha" != "beta";
    assert Position(r1.0.reverseDict, "beta").None?;
    assert AliasPosition(r1.0.reverseDict, score, "beta").None?;
    assert r2.1 == T(1) && r2.0.reverseDict == r1.0.reverseDict && r2.0.nextTempId == 2 && r2.0.nextId == 2;
    var r3 := Resolve(r2.0, score, "gamma");
    assert "alpha" != "gamma";
    assert Position(r2.0.reverseDict, "gamma").None?;
    assert AliasPosition(r2.0.reverseDict, score, "gamma").None?;
  }
}
