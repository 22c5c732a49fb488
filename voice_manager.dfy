/**
 * The polysynth's voice manager (`voice_manager.c`): six voices, each
 * free or sounding a note, allocated with a global timestamp so that the
 * oldest can be stolen.
 *
 * The specification functions below read a snapshot of the voices; the
 * `VoiceManager` class is the global structure the source updates in
 * place, and each of its methods is proved against them.
 */
module VoiceManagement {
  import opened Common

  const MAX_VOICES: nat := 6
  const INVALID_VOICE: Byte := 0xFF
  const INVALID_NOTE: Byte := 0xFF

  /** `voice_t`. */
  datatype Voice = Voice(note: Byte, timestamp: nat, active: bool, inReleaseStage: bool)

  /** The state `voice_manager_init` and `voice_manager_release_voice` leave a voice in. */
  const FREE_VOICE: Voice := Voice(INVALID_NOTE, 0, false, false)

  /** A free voice holds no note and no timestamp; timestamps are `uint32_t`. */
  predicate ValidVoice(v: Voice) {
    v.timestamp < TWO_32 && (!v.active ==> v.note == INVALID_NOTE && v.timestamp == 0)
  }

  predicate ValidVoices(vs: seq<Voice>) {
    |vs| == MAX_VOICES && forall i :: 0 <= i < |vs| ==> ValidVoice(vs[i])
  }

  /** The lowest-numbered free voice at or after `i`, or `INVALID_VOICE`. */
  function FreeVoiceFrom(vs: seq<Voice>, i: nat): (r: nat)
    requires |vs| < INVALID_VOICE
    ensures r == INVALID_VOICE ==> forall j :: i <= j < |vs| ==> vs[j].active
    ensures r != INVALID_VOICE ==> i <= r < |vs| && !vs[r].active && forall j :: i <= j < r ==> vs[j].active
    decreases |vs| - i
  {
    if i >= |vs| then INVALID_VOICE
    else if !vs[i].active then i
    else FreeVoiceFrom(vs, i + 1)
  }

  /** `voice_manager_get_free_voice`: the lowest inactive voice, or `INVALID_VOICE` when all sound. */
  function FreeVoice(vs: seq<Voice>): (r: nat)
    requires |vs| < INVALID_VOICE
    ensures r == INVALID_VOICE <==> forall j :: 0 <= j < |vs| ==> vs[j].active
    ensures r != INVALID_VOICE ==> r < |vs| && !vs[r].active && forall j :: 0 <= j < r ==> vs[j].active
  {
    FreeVoiceFrom(vs, 0)
  }

  /** The lowest-numbered voice at or after `i` sounding `note`, or `INVALID_VOICE`. */
  function VoiceByNoteFrom(vs: seq<Voice>, note: Byte, i: nat): (r: nat)
    requires |vs| < INVALID_VOICE
    ensures r == INVALID_VOICE ==> forall j :: i <= j < |vs| ==> !(vs[j].active && vs[j].note == note)
    ensures r != INVALID_VOICE ==>
      i <= r < |vs| && vs[r].active && vs[r].note == note
      && forall j :: i <= j < r ==> !(vs[j].active && vs[j].note == note)
    decreases |vs| - i
  {
    if i >= |vs| then INVALID_VOICE
    else if vs[i].active && vs[i].note == note then i
    else VoiceByNoteFrom(vs, note, i + 1)
  }

  /** `voice_manager_get_voice_by_note`: the lowest active voice holding `note`, or `INVALID_VOICE`. */
  function VoiceByNote(vs: seq<Voice>, note: Byte): (r: nat)
    requires |vs| < INVALID_VOICE
    ensures r == INVALID_VOICE <==> forall j :: 0 <= j < |vs| ==> !(vs[j].active && vs[j].note == note)
    ensures r != INVALID_VOICE ==>
      r < |vs| && vs[r].active && vs[r].note == note
      && forall j :: 0 <= j < r ==> !(vs[j].active && vs[j].note == note)
  {
    VoiceByNoteFrom(vs, note, 0)
  }

  /** `voice_manager_get_oldest_voice`: the first voice with the smallest timestamp. */
  function Oldest(vs: seq<Voice>): (r: nat)
    requires |vs| > 0
    ensures r < |vs|
    ensures forall j :: 0 <= j < |vs| ==> vs[r].timestamp <= vs[j].timestamp
    ensures forall j :: 0 <= j < r ==> vs[j].timestamp > vs[r].timestamp
  {
    if |vs| == 1 then 0
    else
      var o := Oldest(vs[..|vs| - 1]);
      assert forall j :: 0 <= j < |vs| - 1 ==> vs[..|vs| - 1][j] == vs[j];
      if vs[|vs| - 1].timestamp < vs[o].timestamp then |vs| - 1 else o
  }

  /** `voice_manager_get_active_count`: the number of active voices. */
  function ActiveCount(vs: seq<Voice>): (n: nat)
    ensures n <= |vs|
  {
    if |vs| == 0 then 0
    else ActiveCount(vs[..|vs| - 1]) + (if vs[|vs| - 1].active then 1 else 0)
  }

  /** The count is zero exactly when no voice is active, and full exactly when all are. */
  lemma {:induction false} ActiveCountExtremes(vs: seq<Voice>)
    ensures ActiveCount(vs) == 0 <==> forall j :: 0 <= j < |vs| ==> !vs[j].active
    ensures ActiveCount(vs) == |vs| <==> forall j :: 0 <= j < |vs| ==> vs[j].active
    decreases |vs|
  {
    if |vs| > 0 {
      var prefix := vs[..|vs| - 1];
      assert forall j :: 0 <= j < |vs| - 1 ==> prefix[j] == vs[j];
      ActiveCountExtremes(prefix);
    }
  }

  /** Replacing one voice changes the count by the difference in that voice's activity alone. */
  lemma {:induction false} ActiveCountUpdate(vs: seq<Voice>, i: nat, v: Voice)
    requires i < |vs|
    ensures ActiveCount(vs[i := v]) + (if vs[i].active then 1 else 0)
         == ActiveCount(vs) + (if v.active then 1 else 0)
    decreases |vs|
  {
    var last := |vs| - 1;
    var ws := vs[i := v];
    if i < last {
      assert ws[..last] == vs[..last][i := v];
      assert ws[last] == vs[last];
      ActiveCountUpdate(vs[..last], i, v);
    } else {
      assert ws[..last] == vs[..last];
    }
  }

  /** The voice `voice_manager_assign_note` writes. */
  function Assigned(note: Byte, timestamp: nat): (v: Voice)
    requires timestamp < TWO_32
    ensures ValidVoice(v) && v.active && !v.inReleaseStage && v.note == note && v.timestamp == timestamp
  {
    Voice(note, timestamp, true, false)
  }

  /** Assigning a note to a free voice adds one active voice, and the note is then found. */
  lemma AssignFreeVoice(vs: seq<Voice>, note: Byte, timestamp: nat)
    requires ValidVoices(vs) && timestamp < TWO_32 && FreeVoice(vs) != INVALID_VOICE
    ensures var vs' := vs[FreeVoice(vs) := Assigned(note, timestamp)];
      ValidVoices(vs') && ActiveCount(vs') == ActiveCount(vs) + 1 && VoiceByNote(vs', note) != INVALID_VOICE
  {
    var i := FreeVoice(vs);
    ActiveCountUpdate(vs, i, Assigned(note, timestamp));
    assert vs[i := Assigned(note, timestamp)][i].note == note;
  }

  /** Releasing the voice a note was found in removes one active voice. */
  lemma ReleaseFoundVoice(vs: seq<Voice>, note: Byte)
    requires ValidVoices(vs) && VoiceByNote(vs, note) != INVALID_VOICE
    ensures var vs' := vs[VoiceByNote(vs, note) := FREE_VOICE];
      ValidVoices(vs') && ActiveCount(vs') + 1 == ActiveCount(vs)
  {
    ActiveCountUpdate(vs, VoiceByNote(vs, note), FREE_VOICE);
  }

  /** While some voice is free, the oldest voice is a free one, since free voices have timestamp 0. */
  lemma OldestIsFreeWhenAnyFree(vs: seq<Voice>)
    requires ValidVoices(vs) && FreeVoice(vs) != INVALID_VOICE
    ensures vs[Oldest(vs)].timestamp == 0
  {
    var f := FreeVoice(vs);
    assert vs[f].timestamp == 0;
  }

  /** `g_voice_manager`, updated in place. */
  class VoiceManager {
    const voices: array<Voice>
    var globalTimestamp: nat

    predicate Valid()
      reads this, voices
    {
      voices.Length == MAX_VOICES && globalTimestamp < TWO_32 && ValidVoices(voices[..])
    }

    /** `voice_manager_init`: every voice free, and the global timestamp at 1. */
    constructor ()
      ensures Valid()
      ensures voices[..] == seq(MAX_VOICES, _ => FREE_VOICE) && globalTimestamp == 1
      ensures ActiveCount(voices[..]) == 0
    {
      voices := new Voice[MAX_VOICES];
      globalTimestamp := 0;
      new;
      var i := 0;
      while i < MAX_VOICES
        invariant 0 <= i <= MAX_VOICES
        invariant forall j :: 0 <= j < i ==> voices[j] == FREE_VOICE
      {
        voices[i] := FREE_VOICE;
        i := i + 1;
      }
      globalTimestamp := 1;
      ActiveCountExtremes(voices[..]);
    }

    method GetFreeVoice() returns (idx: Byte)
      requires Valid()
      ensures idx == FreeVoice(voices[..])
    {
      for i := 0 to MAX_VOICES
        invariant forall j :: 0 <= j < i ==> voices[j].active
      {
        if !voices[i].active {
          return i;
        }
      }
      return INVALID_VOICE;
    }

    method GetOldestVoice() returns (idx: Byte)
      requires Valid()
      ensures idx == Oldest(voices[..])
    {
      var oldest: nat := 0;
      var oldestTimestamp := voices[0].timestamp;
      for i := 1 to MAX_VOICES
        invariant oldest == Oldest(voices[..i]) && oldestTimestamp == voices[oldest].timestamp
      {
        assert voices[..i + 1][..i] == voices[..i];
        if voices[i].timestamp < oldestTimestamp {
          oldestTimestamp := voices[i].timestamp;
          oldest := i;
        }
      }
      assert voices[..MAX_VOICES] == voices[..];
      return oldest;
    }

    method GetVoiceByNote(note: Byte) returns (idx: Byte)
      requires Valid()
      ensures idx == VoiceByNote(voices[..], note)
    {
      for i := 0 to MAX_VOICES
        invariant forall j :: 0 <= j < i ==> !(voices[j].active && voices[j].note == note)
      {
        if voices[i].active && voices[i].note == note {
          return i;
        }
      }
      return INVALID_VOICE;
    }

    /**
     * `voice_manager_assign_note`: an index out of range is refused and
     * nothing changes; otherwise the voice sounds `note`, stamped with the
     * global timestamp, which advances (wrapping as a `uint32_t`).
     */
    method AssignNote(idx: Byte, note: Byte) returns (ok: bool)
      requires Valid()
      modifies this, voices
      ensures Valid()
      ensures ok <==> idx < MAX_VOICES
      ensures !ok ==> voices[..] == old(voices[..]) && globalTimestamp == old(globalTimestamp)
      ensures ok ==>
        voices[..] == old(voices[..])[idx := Assigned(note, old(globalTimestamp))]
        && globalTimestamp == (old(globalTimestamp) + 1) % TWO_32
    {
      if idx >= MAX_VOICES {
        return false;
      }
      voices[idx] := Voice(note, globalTimestamp, true, false);
      globalTimestamp := (globalTimestamp + 1) % TWO_32;
      return true;
    }

    /** `voice_manager_release_voice`: the voice is reset to free; an index out of range is refused. */
    method ReleaseVoice(idx: Byte) returns (ok: bool)
      requires Valid()
      modifies voices
      ensures Valid()
      ensures ok <==> idx < MAX_VOICES
      ensures voices[..] == if ok then old(voices[..])[idx := FREE_VOICE] else old(voices[..])
    {
      if idx >= MAX_VOICES {
        return false;
      }
      voices[idx] := FREE_VOICE;
      return true;
    }

    /** `voice_manager_release_note`: the lowest voice sounding `note` is freed, if there is one. */
    method ReleaseNote(note: Byte) returns (ok: bool)
      requires Valid()
      modifies voices
      ensures Valid()
      ensures ok <==> VoiceByNote(old(voices[..]), note) != INVALID_VOICE
      ensures voices[..] == if ok then old(voices[..])[VoiceByNote(old(voices[..]), note) := FREE_VOICE] else old(voices[..])
    {
      var idx := GetVoiceByNote(note);
      if idx != INVALID_VOICE {
        ok := ReleaseVoice(idx);
        return;
      }
      return false;
    }

    method GetActiveCount() returns (count: Byte)
      requires Valid()
      ensures count == ActiveCount(voices[..])
    {
      count := 0;
      for i := 0 to MAX_VOICES
        invariant count == ActiveCount(voices[..i])
      {
        assert voices[..i + 1][..i] == voices[..i];
        if voices[i].active {
          count := count + 1;
        }
      }
      assert voices[..MAX_VOICES] == voices[..];
    }

    /** `voice_manager_is_voice_in_release_stage`: only an active voice can be releasing. */
    function IsVoiceInReleaseStage(idx: Byte): (r: bool)
      requires Valid()
      reads this, voices
      ensures r <==> idx < MAX_VOICES && voices[idx].active && voices[idx].inReleaseStage
    {
      if idx >= MAX_VOICES then false
      else voices[idx].inReleaseStage && voices[idx].active
    }

    /** `voice_manager_set_voice_in_release_stage`: an index out of range is ignored. */
    method SetVoiceInReleaseStage(idx: Byte, state: bool)
      requires Valid()
      modifies voices
      ensures Valid()
      ensures voices[..] == if idx < MAX_VOICES then old(voices[..])[idx := old(voices[idx]).(inReleaseStage := state)] else old(voices[..])
    {
      if idx < MAX_VOICES {
        voices[idx] := voices[idx].(inReleaseStage := state);
      }
    }

    function IsVoiceActive(idx: Byte): (r: bool)
      requires Valid()
      reads this, voices
      ensures r <==> idx < MAX_VOICES && voices[idx].active
    {
      if idx >= MAX_VOICES then false else voices[idx].active
    }

    /** `voice_manager_get_voice_note`: the note of an active voice, otherwise `INVALID_NOTE`. */
    function GetVoiceNote(idx: Byte): (note: Byte)
      requires Valid()
      reads this, voices
      ensures note != INVALID_NOTE ==> idx < MAX_VOICES && voices[idx].active
      ensures idx < MAX_VOICES ==> note == voices[idx].note
    {
      if idx >= MAX_VOICES then INVALID_NOTE
      else if voices[idx].active then voices[idx].note
      else INVALID_NOTE
    }
  }
}
