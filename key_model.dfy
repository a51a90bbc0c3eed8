/**
  The key model of the setlist typesetter: how a catalog row's key letter
  index and accidental count are spelt (determine_key), and the fixed
  half-tones-from-C table (htfc) that turns a spelling into a semitone offset.
 */
module KeyModel {

  /** Letter names in catalog order: index 0 is C, index 6 is B. */
  const Letters: seq<char> := ['C', 'D', 'E', 'F', 'G', 'A', 'B']

  /** Semitones above C of each natural letter, in the order of `Letters`. */
  const NaturalHalfTones: seq<int> := [0, 2, 4, 5, 7, 9, 11]

  /** The suffix determine_key appends: flat for a negative count, sharp for a positive one. */
  function AccidentalSuffix(accidentals: int): string
  {
    if accidentals < 0 then "b" else if accidentals > 0 then "#" else ""
  }

  /** The sign of an accidental count: -1 flat, 0 natural, 1 sharp. */
  function Sign(accidentals: int): int
  {
    if accidentals < 0 then -1 else if accidentals > 0 then 1 else 0
  }

  /** Python's `key.endswith('b')`: the test the resolver uses for a flat-spelled key. */
  predicate IsFlatSpelled(key: string)
  {
    |key| > 0 && key[|key| - 1] == 'b'
  }

  /**
    determine_key: a negative letter index means "no key" and spells C
    whatever the accidentals; otherwise the indexed letter followed by the
    accidental suffix. An index above 6 raises IndexError in the source.
   */
  function DetermineKey(keyIndex: int, accidentals: int): (key: string)
    requires keyIndex <= 6
    ensures keyIndex < 0 ==> key == "C"
    ensures 0 <= keyIndex ==> key == Spell(keyIndex, Sign(accidentals))
    ensures IsFlatSpelled(key) <==> 0 <= keyIndex && accidentals < 0
  {
    if keyIndex < 0 then "C" else [Letters[keyIndex]] + AccidentalSuffix(accidentals)
  }

  /** htfc: the seventeen spellings the source can look up, with their offsets from C. */
  const Htfc: map<string, int> := map[
    "C" := 0,
    "C#" := 1,
    "Db" := 1,
    "D" := 2,
    "D#" := 3,
    "Eb" := 3,
    "E" := 4,
    "F" := 5,
    "F#" := 6,
    "Gb" := 6,
    "G" := 7,
    "G#" := 8,
    "Ab" := 8,
    "A" := 9,
    "A#" := 10,
    "Bb" := 10,
    "B" := 11
  ]

  /** The keys of `Htfc`, listed once each in the source's order. */
  const Spellings: seq<string> := [
    "C", "C#", "Db", "D", "D#", "Eb", "E", "F", "F#",
    "Gb", "G", "G#", "Ab", "A", "A#", "Bb", "B"
  ]

  /**
    determine_half_tones_from_c: the table lookup. A spelling outside the
    table raises KeyError in the source, hence the precondition.
   */
  function HalfTonesFromC(key: string): (n: int)
    requires key in Htfc
    ensures 0 <= n <= 11
  {
    Htfc[key]
  }

  /** The catalog letter index of a spelling (its first character's position in `Letters`). */
  function LetterIndex(key: string): (i: int)
    requires |key| > 0 && key[0] in Letters
    ensures 0 <= i < |Letters| && Letters[i] == key[0]
  {
    if key[0] == 'C' then 0
    else if key[0] == 'D' then 1
    else if key[0] == 'E' then 2
    else if key[0] == 'F' then 3
    else if key[0] == 'G' then 4
    else if key[0] == 'A' then 5
    else 6
  }

  /** The catalog accidental count of a spelling: -1 for a trailing 'b', 1 for '#', else 0. */
  function AccidentalCount(key: string): int
  {
    if |key| == 2 && key[1] == 'b' then -1
    else if |key| == 2 && key[1] == '#' then 1
    else 0
  }

  /** No two positions of `s` hold the same element. */
  predicate Distinct<T(==)>(s: seq<T>)
  {
    forall i, j :: 0 <= i < j < |s| ==> s[i] != s[j]
  }

  lemma {:induction false} DistinctCardinality<T>(s: seq<T>)
    requires Distinct(s)
    ensures |set x | x in s| == |s|
  {
    if s != [] {
      var last := s[|s| - 1];
      var init := s[..|s| - 1];
      assert Distinct(init);
      DistinctCardinality(init);
      assert last !in init;
      assert (set x | x in s) == (set x | x in init) + {last};
    }
  }

  /** The table holds exactly the seventeen spellings of `Spellings`. */
  lemma TableSize()
    ensures Htfc.Keys == set k | k in Spellings
    ensures |Htfc| == |Spellings| == 17
  {
    assert Distinct(Spellings);
    DistinctCardinality(Spellings);
  }

  /** Every spelling in the table is encoded back by determine_key from its catalog integers. */
  lemma KeyRoundTrip(key: string)
    requires key in Htfc
    ensures |key| > 0 && key[0] in Letters
    ensures DetermineKey(LetterIndex(key), AccidentalCount(key)) == key
  {
  }

  /**
    The four spellings determine_key can produce that the table lacks (Cb, Fb,
    E#, B#), and only those, make the source's lookup fail.
   */
  lemma MissingSpellings(keyIndex: int, accidentals: int)
    requires 0 <= keyIndex <= 6
    ensures DetermineKey(keyIndex, accidentals) !in Htfc <==>
      (keyIndex == 0 && accidentals < 0) || (keyIndex == 3 && accidentals < 0) ||
      (keyIndex == 2 && accidentals > 0) || (keyIndex == 6 && accidentals > 0)
  {
  }

  /** The table agrees with pitch arithmetic: natural letter offset plus the accidental. */
  lemma TableAgreesWithPitch(keyIndex: int, accidentals: int)
    requires 0 <= keyIndex <= 6
    requires DetermineKey(keyIndex, accidentals) in Htfc
    ensures HalfTonesFromC(DetermineKey(keyIndex, accidentals)) ==
      NaturalHalfTones[keyIndex] + Sign(accidentals)
  {
  }

  /** The 21 spellings of a letter index and an accidental sign, written out as literals. */
  function Spell(keyIndex: int, sign: int): string
    requires 0 <= keyIndex <= 6 && -1 <= sign <= 1
  {
    [
      ["Cb", "C", "C#"], ["Db", "D", "D#"], ["Eb", "E", "E#"], ["Fb", "F", "F#"],
      ["Gb", "G", "G#"], ["Ab", "A", "A#"], ["Bb", "B", "B#"]
    ][keyIndex][sign + 1]
  }

  /** The five enharmonic pairs share an offset, and the table reaches all twelve pitch classes. */
  lemma EnharmonicPairs()
    ensures Htfc["C#"] == Htfc["Db"] && Htfc["D#"] == Htfc["Eb"] && Htfc["F#"] == Htfc["Gb"]
    ensures Htfc["G#"] == Htfc["Ab"] && Htfc["A#"] == Htfc["Bb"]
    ensures Htfc.Values == {0, 1, 2, 3, 4, 5, 6, 7, 8, 9, 10, 11}
  {
    var chromatic := ["C", "C#", "D", "D#", "E", "F", "F#", "G", "G#", "A", "A#", "B"];
    forall n | 0 <= n < 12 ensures n in Htfc.Values {
      assert chromatic[n] in Htfc && Htfc[chromatic[n]] == n;
    }
  }

  /** Two spellings share an offset exactly when they name the same pitch. */
  lemma SameOffsetSamePitch(a: string, b: string)
    requires a in Htfc && b in Htfc
    ensures |a| > 0 && a[0] in Letters && |b| > 0 && b[0] in Letters
    ensures HalfTonesFromC(a) == HalfTonesFromC(b) <==>
      NaturalHalfTones[LetterIndex(a)] + AccidentalCount(a) ==
      NaturalHalfTones[LetterIndex(b)] + AccidentalCount(b)
  {
    SpellingPitch(a);
    SpellingPitch(b);
  }

  /** Each table entry is its letter's natural offset plus its accidental. */
  lemma SpellingPitch(key: string)
    requires key in Htfc
    ensures |key| > 0 && key[0] in Letters
    ensures HalfTonesFromC(key) == NaturalHalfTones[LetterIndex(key)] + AccidentalCount(key)
  {
  }
}
