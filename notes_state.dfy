/**
 * The selection state of the note picker: one boolean per quarter-tone
 * note, keyed by the bit that note owns in a mask (static/index.js:14-32
 * and 69-71). Note index n owns the bit 2^(24 - n - 1), so index 0 is the
 * top bit. The source keys the object by the decimal string of that
 * number and reads it back with `parseInt`; here the key is the number.
 */
module NotesState {
  import opened Bits

  /** The key owned by the note at index `n` of the octave. */
  function NoteKey(n: nat): (r: nat)
    requires n < 24
    ensures 1 <= r <= 0x800000
    ensures forall k: nat :: Bit(r, k) <==> k == 23 - n
  {
    Pow2Range(23 - n);
    Pow2Bits(23 - n);
    Pow2(24 - n - 1)
  }

  lemma Pow2Range(k: nat)
    requires k < 24
    ensures 1 <= Pow2(k) <= 0x800000
  {
    Pow2Values();
    if k < 23 {
      Pow2Increasing(k, 23);
    }
  }

  lemma Pow2Bits(n: nat)
    ensures forall k: nat :: Bit(Pow2(n), k) <==> k == n
  {
    forall k: nat ensures Bit(Pow2(n), k) <==> k == n {
      Pow2Bit(n, k);
    }
  }

  /** The powers 2^0 .. 2^(w-1). */
  function KeysBelow(w: nat): set<nat>
  {
    set k | 0 <= k < w :: Pow2(k)
  }

  /** The keys of a freshly made notes state: 2^0 .. 2^23. */
  function NoteKeys(): set<nat>
  {
    KeysBelow(24)
  }

  /** The note keyed `2^k` is present and selected. */
  predicate NoteSelected(state: map<nat, bool>, k: nat)
  {
    Pow2(k) in state && state[Pow2(k)]
  }

  /** The keys whose value is `true`. */
  function SelectedKeys(state: map<nat, bool>): (r: set<nat>)
    ensures forall key :: key in r <==> key in state && state[key]
    ensures r <= state.Keys && |r| <= |state|
    ensures r == {} <==> forall key :: key in state ==> !state[key]
  {
    var selected := set key | key in state && state[key];
    assert state.Keys == selected + (state.Keys - selected);
    assert forall key :: key in state && state[key] ==> key in selected;
    selected
  }

  // ---------------------------------------------------------------------
  // makeNotesState

  /** A blank selection: all 24 notes, none selected. */
  function MakeNotesState(): (state: map<nat, bool>)
    ensures state.Keys == NoteKeys() && |state| == 24
    ensures forall n :: 0 <= n < 24 ==> NoteKey(n) in state
    ensures forall key :: key in state ==> 1 <= key <= 0x800000 && !state[key]
  {
    NoteKeysShape();
    map n | 0 <= n < 24 :: NoteKey(n) := false
  }

  lemma {:induction false} KeysBelowCount(w: nat)
    ensures |KeysBelow(w)| == w
    ensures forall key :: key in KeysBelow(w) ==> key < Pow2(w)
  {
    if w > 0 {
      KeysBelowCount(w - 1);
      assert KeysBelow(w) == KeysBelow(w - 1) + {Pow2(w - 1)};
      assert Pow2(w - 1) !in KeysBelow(w - 1);
    }
  }

  /** The 24 note keys are distinct powers of two between 1 and 2^23. */
  lemma NoteKeysShape()
    ensures (set n | 0 <= n < 24 :: NoteKey(n)) == NoteKeys()
    ensures |NoteKeys()| == 24
    ensures forall key :: key in NoteKeys() ==> 1 <= key <= 0x800000
  {
    KeysBelowCount(24);
    Pow2Values();
    var byIndex := set n | 0 <= n < 24 :: NoteKey(n);
    forall key | key in byIndex ensures key in NoteKeys() {
      var n :| 0 <= n < 24 && key == NoteKey(n);
      assert key == Pow2(23 - n);
    }
    forall key | key in NoteKeys() ensures key in byIndex && key <= 0x800000 {
      var k :| 0 <= k < 24 && key == Pow2(k);
      assert NoteKey(23 - k) == key;
      if k < 23 {
        Pow2Increasing(k, 23);
      }
    }
  }

  // ---------------------------------------------------------------------
  // calculateBinaryRepr

  ghost function Pick(s: set<nat>): nat
    requires s != {}
  {
    var x :| x in s; x
  }

  /** The sum of a finite set of naturals. */
  ghost function SetSum(s: set<nat>): nat
  {
    if s == {} then 0 else var x := Pick(s); x + SetSum(s - {x})
  }

  /** The sum does not depend on which element is taken out first. */
  lemma {:induction false} SetSumRemove(s: set<nat>, y: nat)
    requires y in s
    ensures SetSum(s) == y + SetSum(s - {y})
  {
    var x := Pick(s);
    if y != x {
      SetSumRemove(s - {x}, y);
      assert s - {x} - {y} == s - {y} - {x};
      SetSumRemove(s - {y}, x);
    }
  }

  /** What the source's accumulation computes: the sum of the selected keys. */
  ghost function BinaryRepr(state: map<nat, bool>): (r: nat)
    ensures forall key :: key in state && state[key] ==> key <= r
    ensures (forall key :: key in state ==> !state[key]) ==> r == 0
  {
    SetSumBound(SelectedKeys(state));
    SetSum(SelectedKeys(state))
  }

  lemma SetSumBound(s: set<nat>)
    ensures forall y :: y in s ==> y <= SetSum(s)
  {
    forall y | y in s ensures y <= SetSum(s) {
      SetSumRemove(s, y);
    }
  }

  /**
   * Adds up the keys whose value is `true`, visiting the keys in any
   * order. On a notes state the sum is the mask of the selected notes.
   */
  method CalculateBinaryRepr(selectedNotes: map<nat, bool>) returns (result: nat)
    ensures result == BinaryRepr(selectedNotes)
    ensures (forall key :: key in selectedNotes ==> !selectedNotes[key]) ==> result == 0
    ensures selectedNotes.Keys == NoteKeys() ==>
      result < 0x1000000 && forall k: nat :: Bit(result, k) <==> k < 24 && selectedNotes[Pow2(k)]
  {
    result := 0;
    var keys := selectedNotes.Keys;
    while keys != {}
      invariant keys <= selectedNotes.Keys
      invariant result == SetSum(SelectedKeys(selectedNotes) - keys)
      decreases keys
    {
      var note :| note in keys;
      ghost var done := SelectedKeys(selectedNotes) - keys;
      if selectedNotes[note] {
        ghost var now := done + {note};
        assert now == SelectedKeys(selectedNotes) - (keys - {note});
        SetSumRemove(now, note);
        assert now - {note} == done;
        result := result + note;
      } else {
        assert done == SelectedKeys(selectedNotes) - (keys - {note});
      }
      keys := keys - {note};
    }
    assert SelectedKeys(selectedNotes) - {} == SelectedKeys(selectedNotes);
    if selectedNotes.Keys == NoteKeys() {
      BinaryReprBits(selectedNotes);
    }
  }

  /** The mask of the notes keyed 2^0 .. 2^(w-1) that are selected. */
  function MaskBelow(state: map<nat, bool>, w: nat): nat
  {
    if w == 0 then 0
    else MaskBelow(state, w - 1) + (if NoteSelected(state, w - 1) then Pow2(w - 1) else 0)
  }

  function SelectedBelow(state: map<nat, bool>, w: nat): set<nat>
  {
    set k | 0 <= k < w && NoteSelected(state, k) :: Pow2(k)
  }

  lemma {:induction false} MaskBelowBound(state: map<nat, bool>, w: nat)
    ensures MaskBelow(state, w) < Pow2(w)
  {
    if w > 0 {
      MaskBelowBound(state, w - 1);
    }
  }

  /** Bit k of the mask is set iff the note keyed 2^k (k < w) is selected. */
  lemma {:induction false} MaskBelowBit(state: map<nat, bool>, w: nat, k: nat)
    ensures Bit(MaskBelow(state, w), k) <==> k < w && NoteSelected(state, k)
  {
    if w == 0 {
      ZeroBit(k);
    } else {
      MaskBelowBound(state, w - 1);
      TopBit(MaskBelow(state, w - 1), NoteSelected(state, w - 1), w - 1, k);
      if k < w - 1 {
        MaskBelowBit(state, w - 1, k);
      }
    }
  }

  /** Extending the range by one note adds its key, which is new, if it is selected. */
  lemma SelectedBelowStep(state: map<nat, bool>, w: nat)
    requires w > 0
    ensures SelectedBelow(state, w)
         == SelectedBelow(state, w - 1) + (if NoteSelected(state, w - 1) then {Pow2(w - 1)} else {})
    ensures Pow2(w - 1) !in SelectedBelow(state, w - 1)
  {
    var below := SelectedBelow(state, w - 1);
    forall key | key in below ensures key < Pow2(w - 1) {
      var k :| 0 <= k < w - 1 && key == Pow2(k);
      Pow2Increasing(k, w - 1);
    }
  }

  /** Summing the distinct selected powers of two below 2^w gives the mask. */
  lemma {:induction false} MaskBelowSum(state: map<nat, bool>, w: nat)
    ensures SetSum(SelectedBelow(state, w)) == MaskBelow(state, w)
  {
    if w == 0 {
      assert SelectedBelow(state, 0) == {};
    } else {
      MaskBelowSum(state, w - 1);
      SelectedBelowStep(state, w);
      var s := SelectedBelow(state, w - 1);
      var p := Pow2(w - 1);
      if NoteSelected(state, w - 1) {
        assert SelectedBelow(state, w) == s + {p};
        SetSumRemove(s + {p}, p);
        assert s + {p} - {p} == s;
        assert MaskBelow(state, w) == MaskBelow(state, w - 1) + p;
      } else {
        assert SelectedBelow(state, w) == s;
      }
    }
  }

  /** The mask has one set bit per selected note. */
  lemma {:induction false} MaskBelowPopCount(state: map<nat, bool>, w: nat)
    ensures PopCount(MaskBelow(state, w)) == |SelectedBelow(state, w)|
  {
    if w == 0 {
      assert SelectedBelow(state, 0) == {};
    } else {
      MaskBelowPopCount(state, w - 1);
      SelectedBelowStep(state, w);
      if NoteSelected(state, w - 1) {
        MaskBelowBound(state, w - 1);
        PopCountTop(MaskBelow(state, w - 1), w - 1);
      }
    }
  }

  /** On a notes state, the selected keys are the selected powers below 2^24. */
  lemma SelectedKeysOfNotes(state: map<nat, bool>)
    requires state.Keys == NoteKeys()
    ensures SelectedKeys(state) == SelectedBelow(state, 24)
  {
  }

  /**
   * For a state with the keys of a fresh notes state, the sum is a
   * 24-bit mask whose bit k is set iff the note keyed 2^k is selected.
   */
  lemma BinaryReprBits(state: map<nat, bool>)
    requires state.Keys == NoteKeys()
    ensures BinaryRepr(state) < 0x1000000
    ensures forall k: nat :: Bit(BinaryRepr(state), k) <==> k < 24 && state[Pow2(k)]
  {
    SelectedKeysOfNotes(state);
    MaskBelowSum(state, 24);
    MaskBelowBound(state, 24);
    Pow2Values();
    forall k: nat ensures Bit(BinaryRepr(state), k) <==> k < 24 && state[Pow2(k)] {
      MaskBelowBit(state, 24, k);
    }
  }

  /** Different selections over the 24 notes give different masks. */
  lemma BinaryReprInjective(s1: map<nat, bool>, s2: map<nat, bool>)
    requires s1.Keys == NoteKeys() && s2.Keys == NoteKeys()
    requires BinaryRepr(s1) == BinaryRepr(s2)
    ensures s1 == s2
  {
    BinaryReprBits(s1);
    BinaryReprBits(s2);
    forall key | key in s1 ensures s1[key] == s2[key] {
      var k :| 0 <= k < 24 && key == Pow2(k);
      assert Bit(BinaryRepr(s1), k) == Bit(BinaryRepr(s2), k);
    }
  }

  // ---------------------------------------------------------------------
  // selectedAmount

  /** The number of selected notes. */
  function SelectedAmount(notes: map<nat, bool>): (r: nat)
    ensures r <= |notes|
    ensures r == 0 <==> forall key :: key in notes ==> !notes[key]
  {
    |SelectedKeys(notes)|
  }

  /** On a notes state, the count of selected notes is the mask's population count. */
  lemma SelectedAmountIsPopCount(state: map<nat, bool>)
    requires state.Keys == NoteKeys()
    ensures SelectedAmount(state) == PopCount(BinaryRepr(state))
  {
    SelectedKeysOfNotes(state);
    MaskBelowSum(state, 24);
    MaskBelowPopCount(state, 24);
  }
}
