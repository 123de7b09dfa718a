/**
 * Matching maqamat against the selected notes (static/index.js:40-63).
 *
 * Every maqam has a list of variation masks. For each variation the
 * matcher walks the notes of the octave in order: the first note is
 * compared with the variation as given, and each later note with the
 * variation rotated once more. A note is recorded for the maqam whenever
 * the rotated variation contains every bit of the selection.
 */
module Matching {
  import opened Bits
  import opened Rotation

  /** The `null`-or-number of the source's `adjusted` variable. */
  datatype Option<T> = None | Some(value: T)

  /** The match test `(adjusted | intervalsBinary) == adjusted`. */
  predicate Covers(adjusted: Mask, selection: Mask)
  {
    Or(adjusted, selection) == adjusted
  }

  /** The notes among the first `n` that one variation matches. */
  function NotesMatchedBy(selection: Mask, notes: seq<string>, variation: Mask, n: nat): (r: set<string>)
    requires n <= |notes|
    ensures forall note :: note in r ==> note in notes[..n]
  {
    if n == 0 then {}
    else
      NotesMatchedBy(selection, notes, variation, n - 1)
      + (if Covers(RotN(variation, n - 1), selection) then {notes[n - 1]} else {})
  }

  /** The notes that at least one of the variations matches. */
  function MatchingNotes(selection: Mask, notes: seq<string>, variations: seq<Mask>): (r: set<string>)
    ensures forall note :: note in r ==> note in notes
  {
    if variations == [] then {}
    else
      MatchingNotes(selection, notes, variations[..|variations| - 1])
      + NotesMatchedBy(selection, notes, variations[|variations| - 1], |notes|)
  }

  /**
   * For every maqam, the set of notes at which one of its variations,
   * rotated to start there, covers the selection.
   */
  method FindMatchingMaqamat(intervalsBinary: Mask, notesNotations: seq<string>, maqamat: map<string, seq<Mask>>)
    returns (results: map<string, set<string>>)
    ensures results.Keys == maqamat.Keys
    ensures forall m :: m in results ==> results[m] == MatchingNotes(intervalsBinary, notesNotations, maqamat[m])
    ensures forall m :: m in results && maqamat[m] == [] ==> results[m] == {}
    ensures forall m, note :: m in results && note in results[m] ==> note in notesNotations
    ensures forall m, note :: m in results ==>
      (note in results[m] <==> exists i, j :: 0 <= i < |notesNotations| && 0 <= j < |maqamat[m]|
                                  && notesNotations[i] == note && Covers(RotN(maqamat[m][j], i), intervalsBinary))
    ensures intervalsBinary == 0 ==>
      forall m :: m in results && maqamat[m] != [] ==> results[m] == set note | note in notesNotations
  {
    results := map m | m in maqamat :: {};
    var names := maqamat.Keys;
    while names != {}
      invariant names <= maqamat.Keys
      invariant results.Keys == maqamat.Keys
      invariant forall m :: m in names ==> results[m] == {}
      invariant forall m :: m in results && m !in names ==>
        results[m] == MatchingNotes(intervalsBinary, notesNotations, maqamat[m])
      decreases names
    {
      var maqamName :| maqamName in names;
      var found := MatchMaqam(intervalsBinary, notesNotations, maqamat[maqamName], results[maqamName]);
      results := results[maqamName := found];
      names := names - {maqamName};
    }
    forall m, note | m in results {
      MatchingNotesMeaning(intervalsBinary, notesNotations, maqamat[m], note);
    }
    if intervalsBinary == 0 {
      forall m | m in results && maqamat[m] != [] {
        EmptySelectionMatchesAll(notesNotations, maqamat[m]);
      }
    }
  }

  /**
   * The body of the loop over one maqam's variations: adds to the maqam's
   * result set every note that a variation, rotated to that note, covers.
   */
  method MatchMaqam(intervalsBinary: Mask, notesNotations: seq<string>, variations: seq<Mask>, initial: set<string>)
    returns (found: set<string>)
    ensures found == initial + MatchingNotes(intervalsBinary, notesNotations, variations)
  {
    found := initial;
    for j := 0 to |variations|
      invariant found == initial + MatchingNotes(intervalsBinary, notesNotations, variations[..j])
    {
      var variation := variations[j];
      var adjusted: Option<Mask> := None;
      for i := 0 to |notesNotations|
        invariant adjusted == if i == 0 then None else Some(RotN(variation, i - 1))
        invariant found
          == initial + MatchingNotes(intervalsBinary, notesNotations, variations[..j])
           + NotesMatchedBy(intervalsBinary, notesNotations, variation, i)
      {
        if adjusted.Some? {
          adjusted := Some(RotL1(adjusted.value));
        } else {
          adjusted := Some(variation);
        }
        if Or(adjusted.value, intervalsBinary) == adjusted.value {
          found := found + {notesNotations[i]};
        }
      }
      assert variations[..j + 1][..j] == variations[..j];
    }
    assert variations[..|variations|] == variations;
  }

  /** The match test is set inclusion: every bit of the selection is a bit of `adjusted`. */
  lemma CoversIsSubset(adjusted: Mask, selection: Mask)
    ensures Covers(adjusted, selection) <==> forall k: nat :: Bit(selection, k) ==> Bit(adjusted, k)
  {
    if forall k: nat :: Bit(selection, k) ==> Bit(adjusted, k) {
      forall k: nat ensures Bit(Or(adjusted, selection), k) == Bit(adjusted, k) {
        OrBit(adjusted, selection, k);
      }
      BitsDetermine(Or(adjusted, selection), adjusted);
    } else {
      var k: nat :| Bit(selection, k) && !Bit(adjusted, k);
      OrBit(adjusted, selection, k);
    }
  }

  /** A note is matched by a variation iff it sits at an index where the rotated variation covers. */
  lemma {:induction false} NotesMatchedByMeaning(selection: Mask, notes: seq<string>, variation: Mask, n: nat, note: string)
    requires n <= |notes|
    ensures note in NotesMatchedBy(selection, notes, variation, n)
        <==> exists i :: 0 <= i < n && notes[i] == note && Covers(RotN(variation, i), selection)
  {
    if n > 0 {
      NotesMatchedByMeaning(selection, notes, variation, n - 1, note);
    }
  }

  /**
   * A note is in a maqam's result iff, at some index holding that note,
   * some variation rotated that many times covers the selection.
   */
  lemma {:induction false} MatchingNotesMeaning(selection: Mask, notes: seq<string>, variations: seq<Mask>, note: string)
    ensures note in MatchingNotes(selection, notes, variations)
        <==> exists i, j :: 0 <= i < |notes| && 0 <= j < |variations|
                && notes[i] == note && Covers(RotN(variations[j], i), selection)
  {
    if variations != [] {
      var last := |variations| - 1;
      var init := variations[..last];
      var v := variations[last];
      MatchingNotesMeaning(selection, notes, init, note);
      NotesMatchedByMeaning(selection, notes, v, |notes|, note);
      if note in MatchingNotes(selection, notes, init) {
        var i, j :| 0 <= i < |notes| && 0 <= j < |init|
          && notes[i] == note && Covers(RotN(init[j], i), selection);
        assert variations[j] == init[j];
      } else if note in NotesMatchedBy(selection, notes, v, |notes|) {
        var i :| 0 <= i < |notes| && notes[i] == note && Covers(RotN(v, i), selection);
        assert 0 <= last < |variations| && variations[last] == v;
      } else {
        forall i, j | 0 <= i < |notes| && 0 <= j < |variations| && notes[i] == note
          ensures !Covers(RotN(variations[j], i), selection)
        {
          if j < last {
            assert variations[j] == init[j];
          }
        }
      }
    }
  }

  /** With nothing selected, every maqam with a variation matches every note. */
  lemma EmptySelectionMatchesAll(notes: seq<string>, variations: seq<Mask>)
    requires variations != []
    ensures MatchingNotes(0, notes, variations) == set note | note in notes
  {
    forall note | note in notes ensures note in MatchingNotes(0, notes, variations) {
      var i :| 0 <= i < |notes| && notes[i] == note;
      forall k: nat ensures !Bit(0, k) { ZeroBit(k); }
      CoversIsSubset(RotN(variations[0], i), 0);
      MatchingNotesMeaning(0, notes, variations, note);
    }
  }

  /** Whether the note at index `n` (which owns bit 23 - n) is set in a mask. */
  predicate HasNote(x: Mask, n: nat)
    requires n < 24
  {
    Bit(x, 23 - n)
  }

  /** The note index `i` places past note `n`, around the octave. */
  function NoteAfter(n: nat, i: nat): (r: nat)
    ensures r < 24
  {
    (n + i) % 24
  }

  /** After `i` rotations, note n holds what note n + i (modulo 24) held. */
  lemma RotatedNote(variation: Mask, i: nat, n: nat)
    requires n < 24
    ensures HasNote(RotN(variation, i), n) <==> HasNote(variation, NoteAfter(n, i))
  {
    var r := i % 24;
    RotNMod(variation, i);
    RotNBit(variation, r, 23 - n);
    NoteAfterValue(n, i);
  }

  /** Reducing the rotation count modulo 24 first gives the same note. */
  lemma NoteAfterValue(n: nat, i: nat)
    requires n < 24
    ensures NoteAfter(n, i) == if n + i % 24 < 24 then n + i % 24 else n + i % 24 - 24
  {
  }

  /**
   * The test in terms of note indices: after `i` rotations the variation
   * covers the selection iff, for every selected note n, the unrotated
   * variation holds note n + i (modulo 24). The variation is thus read
   * with its first degree moved to note index (24 - i) mod 24.
   */
  lemma CoversAtNotes(selection: Mask, variation: Mask, i: nat)
    ensures Covers(RotN(variation, i), selection)
        <==> forall n :: 0 <= n < 24 && HasNote(selection, n) ==> HasNote(variation, NoteAfter(n, i))
  {
    if Covers(RotN(variation, i), selection) {
      forall n | 0 <= n < 24 && HasNote(selection, n)
        ensures HasNote(variation, NoteAfter(n, i))
      {
        CoveredNote(selection, variation, i, n);
      }
    } else {
      var n := UncoveredNote(selection, variation, i);
    }
  }

  lemma CoveredNote(selection: Mask, variation: Mask, i: nat, n: nat)
    requires Covers(RotN(variation, i), selection)
    requires n < 24 && HasNote(selection, n)
    ensures HasNote(variation, NoteAfter(n, i))
  {
    OrBit(RotN(variation, i), selection, 23 - n);
    RotatedNote(variation, i, n);
  }

  lemma UncoveredNote(selection: Mask, variation: Mask, i: nat) returns (n: nat)
    requires !Covers(RotN(variation, i), selection)
    ensures n < 24 && HasNote(selection, n) && !HasNote(variation, NoteAfter(n, i))
  {
    var rotated := RotN(variation, i);
    CoversIsSubset(rotated, selection);
    var k: nat :| Bit(selection, k) && !Bit(rotated, k);
    if k >= 24 {
      Pow2Values();
      HighBitsClear(selection, 24, k);
      assert false;
    }
    n := 23 - k;
    RotatedNote(variation, i, n);
  }
}
