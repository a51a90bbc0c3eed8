/**
  The transposition resolver of the setlist typesetter: the semitone shift
  handed to chordpro for a song, from its document key to its target key.
 */
module Transpose {
  import opened KeyModel

  /**
    The shift for one song: the upward interval from the document key to the
    target key, taken into [0, 11]; when the target is spelt with a trailing
    'b' it is moved down an octave, into [-12, -1]. The flat rule applies
    even when the interval is 0, so an identical flat target gives -12.
    Python's `%` floors, Dafny's is Euclidean; they agree here because
    `(t - d) + 12` is never negative.
   */
  function ResolveShift(documentKey: string, transposeKey: string): (shift: int)
    requires documentKey in Htfc && transposeKey in Htfc
    ensures (shift - (HalfTonesFromC(transposeKey) - HalfTonesFromC(documentKey))) % 12 == 0
    ensures IsFlatSpelled(transposeKey) ==> -12 <= shift <= -1
    ensures !IsFlatSpelled(transposeKey) ==> 0 <= shift <= 11
  {
    var documentHalftones := HalfTonesFromC(documentKey);
    var transposeHalftones := HalfTonesFromC(transposeKey);
    var amount := ((transposeHalftones - documentHalftones) + 12) % 12;
    if IsFlatSpelled(transposeKey) then amount - 12 else amount
  }

  /** The window a target key's shift must fall in: [-12, -1] for flat spellings, else [0, 11]. */
  function WindowLow(transposeKey: string): int
  {
    if IsFlatSpelled(transposeKey) then -12 else 0
  }

  /**
    The shift is the only integer in the target's window that is congruent to
    the interval between the two keys: the contract above determines it.
   */
  lemma ShiftIsUnique(documentKey: string, transposeKey: string, s: int)
    requires documentKey in Htfc && transposeKey in Htfc
    requires (s - (HalfTonesFromC(transposeKey) - HalfTonesFromC(documentKey))) % 12 == 0
    requires WindowLow(transposeKey) <= s < WindowLow(transposeKey) + 12
    ensures s == ResolveShift(documentKey, transposeKey)
  {
    var r := ResolveShift(documentKey, transposeKey);
    var interval := HalfTonesFromC(transposeKey) - HalfTonesFromC(documentKey);
    assert s - interval == 12 * ((s - interval) / 12);
    assert r - interval == 12 * ((r - interval) / 12);
    assert -12 < s - r < 12;
  }

  /** Transposing to the document's own key: no shift, or an octave down for a flat spelling. */
  lemma SameKeyShift(key: string)
    requires key in Htfc
    ensures ResolveShift(key, key) == if IsFlatSpelled(key) then -12 else 0
  {
  }

  /** Enharmonic targets, one spelt with a flat and one not (C# and Db, say), give shifts exactly an octave apart. */
  lemma EnharmonicTargets(documentKey: string, plainKey: string, flatKey: string)
    requires documentKey in Htfc && plainKey in Htfc && flatKey in Htfc
    requires HalfTonesFromC(plainKey) == HalfTonesFromC(flatKey)
    requires !IsFlatSpelled(plainKey) && IsFlatSpelled(flatKey)
    ensures ResolveShift(documentKey, plainKey) == ResolveShift(documentKey, flatKey) + 12
  {
  }
}
