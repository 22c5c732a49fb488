/**
 * The pad keyboard (`keyboard.c`): a scale is a bit mask of the tones it
 * uses; the keyboard lists those tones in a keymap and maps each of the
 * 16 pads to a MIDI note, the lower row of eight pads `split` semitones
 * above the upper one.
 */
module PadKeyboard {
  import opened Common

  /** The capacity of `t_keyboard.map`, and the width of `t_scale.notes`. */
  const MAP_SIZE: nat := 32
  /** Pads from here on are the row that gets no split. */
  const ROW_LENGTH: nat := 8

  const NOTES_IONIAN: nat := 2741
  const NOTES_AEOLIAN: nat := 1453
  const NOTES_PHRYGIAN_DOMINANT: nat := 1459
  const NOTES_MINOR_BLUES: nat := 1257

  /** `t_scale`. */
  datatype Scale = Scale(notes: nat, tones: Byte, mode: Byte)

  /** `scale_init`: mode rotation is not supported, so the mode is 0. */
  function ScaleInit(notes: nat, tones: Byte): (s: Scale)
    requires notes < TWO_32
    ensures s.notes == notes && s.tones == tones && s.mode == 0
  {
    Scale(notes, tones, 0)
  }

  /** A scale whose tones all have a bit in the 32-bit mask. */
  predicate ValidScale(s: Scale) {
    s.notes < TWO_32 && s.tones <= MAP_SIZE
  }

  /** The keymap of the first `tones` tones: in ascending order, each tone whose bit is set in `notes`. */
  function Keymap(notes: nat, tones: nat): (m: seq<nat>)
    ensures |m| <= tones
  {
    if tones == 0 then []
    else Keymap(notes, tones - 1) + (if Bit(notes, tones - 1) == 1 then [tones - 1] else [])
  }

  /** The keymap holds exactly the scale's tones below `tones`, in strictly ascending order. */
  lemma {:induction false} KeymapListsScaleTones(notes: nat, tones: nat)
    ensures forall k :: 0 <= k < |Keymap(notes, tones)| ==>
      Keymap(notes, tones)[k] < tones && Bit(notes, Keymap(notes, tones)[k]) == 1
    ensures forall k, l :: 0 <= k < l < |Keymap(notes, tones)| ==> Keymap(notes, tones)[k] < Keymap(notes, tones)[l]
    ensures forall i :: 0 <= i < tones && Bit(notes, i) == 1 ==> i in Keymap(notes, tones)
  {
    if tones > 0 {
      KeymapListsScaleTones(notes, tones - 1);
      var m0, m := Keymap(notes, tones - 1), Keymap(notes, tones);
      if Bit(notes, tones - 1) == 1 {
        assert m == m0 + [tones - 1];
        assert forall k :: 0 <= k < |m0| ==> m[k] == m0[k];
        forall k, l | 0 <= k < l < |m|
          ensures m[k] < m[l]
        {
          if l < |m0| {
            assert m[k] == m0[k] && m[l] == m0[l];
          }
        }
      } else {
        assert m == m0;
      }
    }
  }

  /** The Phrygian dominant scale over 12 tones: degrees 0, 1, 4, 5, 7, 8 and 10. */
  lemma PhrygianDominantKeymap()
    ensures Keymap(NOTES_PHRYGIAN_DOMINANT, 12) == [0, 1, 4, 5, 7, 8, 10]
  {
    var n := NOTES_PHRYGIAN_DOMINANT;
    var bits := [1, 1, 0, 0, 1, 1, 0, 1, 1, 0, 1, 0];
    var halves := [1459, 729, 364, 182, 91, 45, 22, 11, 5, 2, 1, 0];
    forall k | 0 <= k < 12
      ensures Bit(n, k) == bits[k]
    {
      HalvingBits(halves, bits, 0, k);
    }
    assert Keymap(n, 1) == [0];
    assert Keymap(n, 2) == [0, 1];
    assert Keymap(n, 3) == [0, 1];
    assert Keymap(n, 4) == [0, 1];
    assert Keymap(n, 5) == [0, 1, 4];
    assert Keymap(n, 6) == [0, 1, 4, 5];
    assert Keymap(n, 7) == [0, 1, 4, 5];
    assert Keymap(n, 8) == [0, 1, 4, 5, 7];
    assert Keymap(n, 9) == [0, 1, 4, 5, 7, 8];
    assert Keymap(n, 10) == [0, 1, 4, 5, 7, 8];
    assert Keymap(n, 11) == [0, 1, 4, 5, 7, 8, 10];
  }

  /** Reading bit k of a number off its chain of halvings and their parities. */
  lemma {:induction false} HalvingBits(halves: seq<nat>, bits: seq<nat>, i: nat, k: nat)
    requires |halves| == |bits| && i + k < |halves|
    requires forall m :: 0 <= m < |halves| - 1 ==> halves[m + 1] == halves[m] / 2
    requires forall m :: 0 <= m < |halves| ==> bits[m] == halves[m] % 2
    ensures Bit(halves[i], k) == bits[i + k]
    decreases k
  {
    if k > 0 {
      HalvingBits(halves, bits, i + 1, k - 1);
    }
  }

  /** `t_keyboard`, whose keymap `_gen_keymap` fills in place. */
  class Keyboard {
    var scale: Scale
    var octave: Byte
    var split: Byte
    var repeat: nat
    const keymap: array<Byte>

    /** The first `repeat` keymap entries are the scale's keymap. */
    predicate Valid()
      reads this, keymap
    {
      keymap.Length == MAP_SIZE && ValidScale(scale)
      && repeat == |Keymap(scale.notes, scale.tones)| && keymap[..repeat] == Keymap(scale.notes, scale.tones)
    }

    /** `keyboard_init`: octave 3, split 12, and the scale's keymap. */
    constructor (s: Scale)
      requires ValidScale(s)
      ensures Valid() && scale == s && octave == 3 && split == 12
    {
      scale := s;
      octave := 3;
      split := 12;
      keymap := new Byte[MAP_SIZE];
      repeat := 0;
      new;
      GenKeymap();
    }

    /** `_gen_keymap`: one pass over the tones, appending each one in the scale. */
    method GenKeymap()
      requires keymap.Length == MAP_SIZE && ValidScale(scale)
      modifies this, keymap
      ensures Valid()
      ensures scale == old(scale) && octave == old(octave) && split == old(split)
    {
      var j := 0;
      var i := 0;
      while i < scale.tones
        invariant scale == old(scale) && octave == old(octave) && split == old(split)
        invariant i <= scale.tones && j <= i
        invariant j == |Keymap(scale.notes, i)| && keymap[..j] == Keymap(scale.notes, i)
      {
        if Bit(scale.notes, i) == 1 {
          keymap[j] := i;
          assert keymap[..j + 1] == keymap[..j] + [i];
          j := j + 1;
        }
        i := i + 1;
      }
      repeat := j;
    }

    /** `keyboard_set_scale`: the new scale's keymap replaces the old. */
    method SetScale(s: Scale)
      requires keymap.Length == MAP_SIZE && ValidScale(s)
      modifies this, keymap
      ensures Valid() && scale == s && octave == old(octave) && split == old(split)
    {
      scale := s;
      GenKeymap();
    }

    method SetOctave(o: Byte)
      requires Valid()
      modifies this
      ensures Valid() && octave == o && scale == old(scale) && split == old(split) && repeat == old(repeat)
    {
      octave := o;
    }

    method SetSplit(s: Byte)
      requires Valid()
      modifies this
      ensures Valid() && split == s && scale == old(scale) && octave == old(octave) && repeat == old(repeat)
    {
      split := s;
    }

    /**
     * `keyboard_map_note`, computed in `uint8_t` steps as the source does;
     * the truncations compose to one reduction modulo 256 of the scale
     * degree, plus `tones` per octave, plus the split on the lower row.
     */
    function MapNote(pad: Byte): (note: Byte)
      requires keymap.Length == MAP_SIZE && 0 < repeat <= MAP_SIZE
      reads this, keymap
      ensures var p := if pad >= ROW_LENGTH then pad - ROW_LENGTH else pad;
        note == (keymap[p % repeat] + scale.tones * (octave + p / repeat) + (if pad < ROW_LENGTH then split else 0)) % 0x100
    {
      var row := pad >= ROW_LENGTH;
      var p := if row then pad - ROW_LENGTH else pad;
      var degree := if p >= repeat then p % repeat else p;
      DegreeIndex(p, repeat);
      var x := octave + p / repeat;
      var oct := x % 0x100;
      var n := (keymap[degree] + scale.tones * oct) % 0x100;
      NoteSteps(keymap[degree], scale.tones, x, split, row);
      if row then n else (n + split) % 0x100
    }
  }

  /** Reducing the pad only from `repeat` on gives its remainder, an index of the keymap. */
  lemma DegreeIndex(p: nat, repeat: nat)
    requires 0 < repeat
    ensures (if p >= repeat then p % repeat else p) == p % repeat < repeat
  {
    if p < repeat { DivUnique(p, repeat, 0, p); }
  }

  /** The `uint8_t` truncations of `keyboard_map_note` amount to one reduction modulo 256. */
  lemma NoteArithmetic(d: nat, t: nat, x: nat, s: nat)
    ensures ((d + t * (x % 0x100)) % 0x100 + s) % 0x100 == (d + t * x + s) % 0x100
  {
    WrapInside(d, t, x);
    ModOfSum(d + t * (x % 0x100), s);
    ModOfSum(d + t * x, s);
  }

  /** Both rows' `uint8_t` steps: the upper row adds no split, the lower row adds it. */
  lemma NoteSteps(d: nat, t: nat, x: nat, split: nat, row: bool)
    ensures (if row then (d + t * (x % 0x100)) % 0x100 else ((d + t * (x % 0x100)) % 0x100 + split) % 0x100)
      == (d + t * x + (if row then 0 else split)) % 0x100
  {
    NoteArithmetic(d, t, x, if row then 0 else split);
    if row {
      ModOfSum(d + t * (x % 0x100), 0);
    }
  }

  /** Adding after a reduction modulo 256 is adding before it. */
  lemma ModOfSum(x: int, s: int)
    ensures (x % 0x100 + s) % 0x100 == (x + s) % 0x100
  {
    DivAddMultiple(x % 0x100 + s, 0x100, x / 0x100);
  }

  /** Reducing a factor modulo 256 first does not change a sum modulo 256. */
  lemma WrapInside(a: nat, t: nat, x: nat)
    ensures (a + t * (x % 0x100)) % 0x100 == (a + t * x) % 0x100
  {
    var q, r := x / 0x100, x % 0x100;
    assert t * x == t * r + (t * q) * 0x100 by {
      assert x == q * 0x100 + r;
      assert t * x == t * (q * 0x100) + t * r;
      MulAssoc(t, q, 0x100);
    }
    DivAddMultiple(a + t * r, 0x100, t * q);
  }

  /** A lower-row pad plays its upper-row partner's note raised by the split. */
  lemma LowerRowIsSplitAbove(kbd: Keyboard, pad: Byte)
    requires kbd.keymap.Length == MAP_SIZE && 0 < kbd.repeat <= MAP_SIZE && pad < ROW_LENGTH
    ensures kbd.MapNote(pad) == (kbd.MapNote(pad + ROW_LENGTH) + kbd.split) % 0x100
  {
    var x := kbd.keymap[pad % kbd.repeat] + kbd.scale.tones * (kbd.octave + pad / kbd.repeat);
    DivAddMultiple(x % 0x100 + kbd.split, 0x100, x / 0x100);
  }

  /** Within a row, the pad one scale length further on plays the same degree an octave up. */
  lemma NextRepeatIsOctaveUp(kbd: Keyboard, pad: Byte)
    requires kbd.keymap.Length == MAP_SIZE && 0 < kbd.repeat <= MAP_SIZE
    requires pad < ROW_LENGTH ==> pad + kbd.repeat < ROW_LENGTH
    requires pad + kbd.repeat < 0x100
    ensures kbd.MapNote(pad + kbd.repeat) == (kbd.MapNote(pad) + kbd.scale.tones) % 0x100
  {
    var r, t, o := kbd.repeat, kbd.scale.tones, kbd.octave;
    var p := if pad >= ROW_LENGTH then pad - ROW_LENGTH else pad;
    DivAddMultiple(p, r, 1);
    var extra := if pad < ROW_LENGTH then kbd.split else 0;
    var q := o + p / r;
    var x := kbd.keymap[p % r] + t * q + extra;
    assert kbd.MapNote(pad) == x % 0x100;
    assert t * (q + 1) == t * q + t;
    assert kbd.MapNote(pad + r) == (x + t) % 0x100;
    ModOfSum(x, t);
  }

  /** On the Phrygian dominant scale the keymap repeats every 7 pads and starts on the root. */
  lemma PhrygianDominantRepeat(kbd: Keyboard)
    requires kbd.Valid() && kbd.scale == ScaleInit(NOTES_PHRYGIAN_DOMINANT, 12)
    ensures kbd.repeat == 7 && kbd.keymap[0] == 0
  {
    PhrygianDominantKeymap();
    assert kbd.keymap[..kbd.repeat][0] == 0;
  }

  /** A scale that contains its root has the root first in its keymap. */
  lemma KeymapStartsAtRoot(notes: nat, tones: nat)
    requires 0 < tones && Bit(notes, 0) == 1
    ensures |Keymap(notes, tones)| > 0 && Keymap(notes, tones)[0] == 0
  {
    KeymapListsScaleTones(notes, tones);
  }

  /**
   * On a scale that contains its root, pad 8 plays the root of the
   * keyboard's octave and pad 0 the same note raised by the split.
   */
  lemma RootPads(kbd: Keyboard)
    requires kbd.Valid() && 0 < kbd.scale.tones && Bit(kbd.scale.notes, 0) == 1
    ensures kbd.repeat > 0
    ensures kbd.MapNote(8) == (kbd.scale.tones * kbd.octave) % 0x100
    ensures kbd.MapNote(0) == (kbd.scale.tones * kbd.octave + kbd.split) % 0x100
  {
    KeymapStartsAtRoot(kbd.scale.notes, kbd.scale.tones);
    assert kbd.keymap[0] == kbd.keymap[..kbd.repeat][0];
    assert 0 / kbd.repeat == 0 && 0 % kbd.repeat == 0;
  }
}
