# Maqam cheatsheet: note matcher model

This project models the note matcher in the browser script of the maqam cheatsheet site. A user picks notes on a 24-position quarter-tone octave. The script folds the selection into a 24-bit mask. It then lists, for every maqam, the notes at which one of the maqam's variation masks contains every selected note.

- Note index `n` owns the bit 2^(24 - n - 1), so note 0 is the top bit.
- A notes state maps each note's key to whether the note is selected.

The model has four modules:

- `Bits` (bits.dfy). Naturals read as bit strings: `Bit`, and JavaScript's `|` and `&` as `Or` and `And`. It also has `PopCount`, and the lemmas that tie these together.
- `Rotation` (rotation.dfy). The inline 24-bit rotate of the matcher as `RotL1`, and its iterate `RotN`. The lemmas prove it is the rotation of a 24-bit word. It is a bijection, has period 24 and keeps the number of set bits.
- `NotesState` (notes_state.dfy). `makeNotesState` as the function `MakeNotesState`, and `calculateBinaryRepr` as the method `CalculateBinaryRepr`. Its loop visits the keys in an arbitrary order and is proved against `BinaryRepr`, the sum of the selected keys. `selectedAmount` is the function `SelectedAmount`. On a state with the 24 note keys, the sum is the mask whose bit k is set exactly when the note keyed 2^k is selected. So summing the distinct powers of two gives their bitwise or. The number of selected notes is that mask's population count.
- `Matching` (matching.dfy). `findMatchingMaqamat` as the method `FindMatchingMaqamat`. Its outer loop over the maqamat calls `MatchMaqam`, which holds the two nested loops over variations and notes. Both are proved against `MatchingNotes`. `CoversIsSubset` proves that the match test is set inclusion. `CoversAtNotes` restates the test in note indices: at the note with index `i`, the selection matches when, for every selected note `n`, the unrotated variation holds note `(n + i) mod 24`. So the variation is read with its first degree at note index `(24 - i) mod 24`. The matcher records the string `notesNotations[i]` for that position. Which note that string names depends on how the page orders `notesNotations`, which this model does not include.

## Model

| member | source | states |
|---|---|---|
| Bits.Or | static/index.js:56 | defines JavaScript `a \| b` on naturals, bit by bit from the least significant; `OrBit` proves it is bitwise disjunction |
| Bits.OrBit | static/index.js:56 | bit k of `a \| b` is set iff bit k of `a` or of `b` is set |
| Bits.And | static/index.js:51 | defines JavaScript `a & b` on naturals, bit by bit from the least significant; `AndPow2` proves what it does with the power 2^23 |
| Bits.AndPow2 | static/index.js:51 | `x & 2^n` is `2^n` when bit n of `x` is set and 0 otherwise |
| Bits.PopCountTop | static/index.js:51-52 | setting a new top bit above a value adds one to its population count |
| Rotation.RotL1 | static/index.js:51-52 | one rotate step of a mask below 2^24 stays below 2^24 |
| Rotation.RotL1IsRotate | static/index.js:51-52 | the step equals `(2x) mod 2^24 + x div 2^23`, the textbook 24-bit left rotation |
| Rotation.RotL1Bit | static/index.js:51-52 | bit k of the rotated mask is bit (k - 1) mod 24 of the original |
| Rotation.RotL1PopCount | static/index.js:51-52 | the step keeps the number of set bits |
| Rotation.RotN | static/index.js:48-55 | defines the variation as compared with the note at index i: the variation itself at i = 0 and one more rotate step for each later note; `RotNBit`, `RotNPeriod` and `RotNMod` state its meaning |
| Rotation.RotNBit | static/index.js:49-55 | after i <= 24 steps, bit k holds the original bit (k - i) mod 24 |
| Rotation.RotNPeriod | static/index.js:49-55 | 24 steps give back the original mask |
| Rotation.RotNMod | static/index.js:49-55 | i steps equal i mod 24 steps |
| Rotation.RotL1Inverse | static/index.js:51-52 | 23 more steps undo one step, in both orders, so the step is a bijection on masks |
| Rotation.RotL1Injective | static/index.js:51-52 | two masks with the same rotation are equal |
| NotesState.NoteKey | static/index.js:16 | the key `2 ** (24 - n - 1)` of note n lies between 1 and 2^23 and has exactly one set bit, bit 23 - n |
| NotesState.MakeNotesState | static/index.js:14-18 | the blank state has exactly 24 keys, the powers 2^0 to 2^23 with note n keyed 2^(23 - n), each between 1 and 2^23, all false |
| NotesState.NoteKeysShape | static/index.js:14-18 | the keys produced from note indices 0..23 are the 24 distinct powers 2^0 .. 2^23, each at most 2^23 |
| NotesState.SetSumRemove | static/index.js:26-30 | the sum of the selected keys does not depend on the order in which keys are visited |
| NotesState.SelectedKeys | static/index.js:27 | the keys whose value is true: a subset of the state's keys, no more of them than keys, and empty iff no note is selected |
| NotesState.BinaryRepr | static/index.js:24-32 | the sum of the selected keys: at least each selected key, and 0 when no note is selected |
| NotesState.CalculateBinaryRepr | static/index.js:24-32 | the result is the sum of the keys whose value is true; an all-false state gives 0; on a state with the note keys the result is below 2^24 and its bit k is set iff the note keyed 2^k is selected |
| NotesState.MaskBelowBit | static/index.js:24-32 | summing the selected powers 2^0 .. 2^(w-1) sets bit k exactly for the selected notes with k < w |
| NotesState.MaskBelowSum | static/index.js:24-32 | the sum of the distinct selected powers 2^0 .. 2^(w-1) is the mask of the selected notes |
| NotesState.MaskBelowPopCount | static/index.js:24-32 | that mask has one set bit per selected note |
| NotesState.BinaryReprBits | static/index.js:24-32 | on a state with the note keys, the sum is below 2^24 and bit k is set iff the note keyed 2^k is selected |
| NotesState.BinaryReprInjective | static/index.js:24-32 | two states with the note keys and the same sum are the same state |
| NotesState.SelectedAmount | static/index.js:69-71 | the count is at most the number of notes, and it is 0 iff no note is selected |
| NotesState.SelectedAmountIsPopCount | static/index.js:69-71 | on a state with the note keys, the count equals the population count of the state's mask |
| Matching.NotesMatchedBy | static/index.js:49-58 | the notes that one variation matches among the first n are notes among the first n |
| Matching.MatchingNotes | static/index.js:46-58 | every note matched for a maqam is one of `notesNotations` |
| Matching.FindMatchingMaqamat | static/index.js:40-63 | the result has exactly the maqam names as keys; a name's set holds a note iff, at some index i holding that note, some variation rotated i times covers the selection; a maqam without variations gets the empty set; every recorded note is one of `notesNotations`; with nothing selected, every maqam with a variation gets every note |
| Matching.MatchMaqam | static/index.js:46-60 | walking the variations and the notes adds exactly the notes that a variation, rotated to that note's index, covers |
| Matching.Covers | static/index.js:56 | defines the match test `(adjusted \| intervalsBinary) == adjusted`; `CoversIsSubset` proves it is set inclusion of bits |
| Matching.CoversIsSubset | static/index.js:56 | `(adjusted \| sel) == adjusted` holds iff every bit of `sel` is a bit of `adjusted` |
| Matching.NotesMatchedByMeaning | static/index.js:49-58 | a note is matched by one variation iff at some index holding it the variation, rotated that many times, covers the selection |
| Matching.MatchingNotesMeaning | static/index.js:46-58 | a note is matched for a maqam iff some index holding it and some variation satisfy the covering test |
| Matching.EmptySelectionMatchesAll | static/index.js:56-57 | with selection 0, a maqam with at least one variation matches every note |
| Matching.RotatedNote | static/index.js:49-55 | after i rotations, note n of the mask holds what note (n + i) mod 24 held |
| Matching.CoversAtNotes | static/index.js:46-58 | the test at index i holds iff every selected note n is held by the unrotated variation at note (n + i) mod 24 |

## Left out

- `stringify` (static/index.js:5-9) is a wrapper over `JSON.stringify`, a library call with nothing to verify.
- download.py is left out: its HTTP fetch with a file cache, HTML scraping and template writing are I/O. Its interval tables are static data.
- maqamat.py loads templates, fills them in and prints. It has no domain logic.
- `parse_jins_combination`, `Jins`, `Maqam` and `get_ajnas`, which test_maqamat.py imports, are not defined in any shown source file (maqamat.py does not define them). They are not modelled.
- Masks are naturals below 2^24 (`Bits.Mask`). JavaScript applies `&`, `|` and `<<` to 32-bit integers. For values below 2^24 they agree with the operations on naturals. The behaviour on larger or negative numbers is not modelled.
- The source keys a notes state by decimal strings and reads each key back with `parseInt`. The model keys the state by the number itself.
- The source visits the keys in JavaScript's `Object.keys` order. The model visits them in an arbitrary order, and its contracts hold for every order.
- Matching.MatchMaqam: the source adds notes to the `Set` stored in `results[maqamName]`. The model passes the current set value in and stores the returned set back under the same name. Aliasing of the `Set` object is not modelled.
- Matching.FindMatchingMaqamat: the result sets and map are unordered. The insertion order of the source's `Set`s and of the `results` keys is not modelled, so neither is the order in which `stringify` prints them.
- The order of `notesNotations`, and which note each of its strings names, is set by the page outside this script. The model treats `notesNotations` as an arbitrary sequence of strings.
