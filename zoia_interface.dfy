/**
 * The ZOIA control interface (`zoia_interface.c`): encoder turns, button
 * presses and patch selection become events on the ZOIA event queue. A
 * turn event's value is a relative MIDI controller value centred on 64,
 * so one event moves the encoder by at most 63 detents either way.
 */
module ZoiaInterface {
  import opened Common

  /** `e_zoia_event`. */
  datatype EventKind = Bypass | Press | Release | Turn

  /** `t_zoia_event`. */
  datatype ZoiaEvent = ZoiaEvent(kind: EventKind, value: Byte)

  const VALUE_BACK: Byte := 42
  const VALUE_ENCODER: Byte := 127
  /** The centre of a relative turn value, and the largest step one event carries. */
  const TURN_CENTRE: nat := 64
  const MAX_STEP: nat := 63
  const HOME_BACKS: nat := 5
  const LAST_PATCH: nat := 63
  /** `zoia_encoder` takes an `int32_t`. */
  const INT32_LIMIT: int := 0x8000_0000

  /** The events `_encoder_inc` enqueues: full steps of 63 at value 127, then 64 plus the rest. */
  function IncEvents(clicks: nat): (es: seq<ZoiaEvent>)
    ensures |es| > 0
    ensures forall k :: 0 <= k < |es| ==> es[k].kind == Turn && TURN_CENTRE <= es[k].value
    decreases clicks
  {
    if clicks > MAX_STEP then [ZoiaEvent(Turn, 127)] + IncEvents(clicks - MAX_STEP)
    else [ZoiaEvent(Turn, TURN_CENTRE + clicks)]
  }

  /** The events `_encoder_dec` enqueues: full steps of 63 at value 0, then 64 minus the rest. */
  function DecEvents(clicks: nat): (es: seq<ZoiaEvent>)
    ensures |es| > 0
    ensures forall k :: 0 <= k < |es| ==> es[k].kind == Turn && es[k].value <= TURN_CENTRE
    decreases clicks
  {
    if clicks > MAX_STEP then [ZoiaEvent(Turn, 0)] + DecEvents(clicks - MAX_STEP)
    else [ZoiaEvent(Turn, TURN_CENTRE - clicks)]
  }

  /** The events `zoia_encoder` enqueues for a signed number of clicks. */
  function EncoderEvents(clicks: int): (es: seq<ZoiaEvent>)
    ensures clicks == 0 <==> es == []
  {
    if clicks > 0 then IncEvents(clicks)
    else if clicks < 0 then DecEvents(-clicks)
    else []
  }

  /** A press of `value` followed by its release. */
  function PressRelease(value: Byte): (es: seq<ZoiaEvent>)
    ensures |es| == 2 && es[0] == ZoiaEvent(Press, value) && es[1] == ZoiaEvent(Release, value)
  {
    [ZoiaEvent(Press, value), ZoiaEvent(Release, value)]
  }

  /** `n` presses and releases of the back button. */
  function BackPairs(n: nat): (es: seq<ZoiaEvent>)
    ensures |es| == 2 * n
    ensures forall k :: 0 <= k < |es| ==> es[k].kind != Turn && es[k].value == VALUE_BACK
  {
    if n == 0 then [] else BackPairs(n - 1) + PressRelease(VALUE_BACK)
  }

  /** The events of `zoia_patch_set`: home, 64 clicks down to the first patch, then the clamped index up. */
  function PatchSetEvents(patchIndex: Byte): (es: seq<ZoiaEvent>)
    ensures |es| == 2 * HOME_BACKS + 2 + (if patchIndex == 0 then 0 else 1)
    ensures forall k :: 2 * HOME_BACKS <= k < |es| ==> es[k].kind == Turn
  {
    assert |EncoderEvents(-64)| == 2 by { assert DecEvents(64 - MAX_STEP) == [ZoiaEvent(Turn, TURN_CENTRE - 1)]; }
    BackPairs(HOME_BACKS) + EncoderEvents(-64) + EncoderEvents(Min(patchIndex, LAST_PATCH))
  }

  /** How far a sequence of events turns the encoder: each turn moves it by its value less 64. */
  function Displacement(es: seq<ZoiaEvent>): (d: int)
    ensures -(TURN_CENTRE as int) * |es| <= d <= (0xFF - TURN_CENTRE) * |es|
  {
    if es == [] then 0
    else (if es[0].kind == Turn then es[0].value - TURN_CENTRE else 0) + Displacement(es[1..])
  }

  lemma {:induction false} DisplacementAppend(a: seq<ZoiaEvent>, b: seq<ZoiaEvent>)
    ensures Displacement(a + b) == Displacement(a) + Displacement(b)
    decreases |a|
  {
    if a == [] {
      assert a + b == b;
    } else {
      assert (a + b)[1..] == a[1..] + b;
      DisplacementAppend(a[1..], b);
    }
  }

  /** Positive clicks turn the encoder forward by exactly `clicks`. */
  lemma {:induction false} IncDisplacement(clicks: nat)
    ensures Displacement(IncEvents(clicks)) == clicks
    decreases clicks
  {
    if clicks > MAX_STEP {
      IncDisplacement(clicks - MAX_STEP);
      assert IncEvents(clicks)[1..] == IncEvents(clicks - MAX_STEP);
    }
  }

  /**
   * Clicks turned down move the encoder back by `clicks` plus one for every
   * full step: a full step is sent as 0, 64 detents down, while only 63
   * are taken off the count.
   */
  lemma {:induction false} DecDisplacement(clicks: nat)
    ensures Displacement(DecEvents(clicks)) == -(clicks as int) - (|DecEvents(clicks)| - 1)
    decreases clicks
  {
    if clicks > MAX_STEP {
      DecDisplacement(clicks - MAX_STEP);
      assert DecEvents(clicks)[1..] == DecEvents(clicks - MAX_STEP);
    } else {
      assert DecEvents(clicks)[1..] == [];
    }
  }

  /** 64 clicks down are sent as 0 then 63, which turn the encoder 65 detents. */
  lemma DecOvershoots()
    ensures DecEvents(64) == [ZoiaEvent(Turn, 0), ZoiaEvent(Turn, 63)]
    ensures Displacement(DecEvents(64)) == -65
  {
    DecDisplacement(64);
  }

  /** `_encoder_dec` with each full step sent as 1, 63 detents down, mirroring `_encoder_inc`. */
  function DecEventsIntended(clicks: nat): (es: seq<ZoiaEvent>)
    ensures |es| > 0
    ensures forall k :: 0 <= k < |es| ==> es[k].kind == Turn && es[k].value <= TURN_CENTRE
    decreases clicks
  {
    if clicks > MAX_STEP then [ZoiaEvent(Turn, TURN_CENTRE - MAX_STEP)] + DecEventsIntended(clicks - MAX_STEP)
    else [ZoiaEvent(Turn, TURN_CENTRE - clicks)]
  }

  /** With full steps of 63, clicks turned down move the encoder back by exactly `clicks`. */
  lemma {:induction false} DecIntendedDisplacement(clicks: nat)
    ensures Displacement(DecEventsIntended(clicks)) == -(clicks as int)
    decreases clicks
  {
    if clicks > MAX_STEP {
      DecIntendedDisplacement(clicks - MAX_STEP);
      assert DecEventsIntended(clicks)[1..] == DecEventsIntended(clicks - MAX_STEP);
    } else {
      assert DecEventsIntended(clicks)[1..] == [];
    }
  }

  /**
   * `zoia_encoder` turns the encoder forward by exactly `clicks`, and back
   * by `clicks` plus one per extra event; forward events carry at most 63
   * detents each.
   */
  lemma EncoderDisplacement(clicks: int)
    ensures clicks >= 0 ==> Displacement(EncoderEvents(clicks)) == clicks
    ensures clicks < 0 ==> Displacement(EncoderEvents(clicks)) == clicks - (|EncoderEvents(clicks)| - 1)
    ensures forall k :: 0 <= k < |EncoderEvents(clicks)| ==> EncoderEvents(clicks)[k].kind == Turn
    ensures clicks > 0 ==> forall k :: 0 <= k < |EncoderEvents(clicks)| ==>
      TURN_CENTRE < EncoderEvents(clicks)[k].value <= TURN_CENTRE + MAX_STEP
  {
    if clicks > 0 {
      IncDisplacement(clicks);
      IncSteps(clicks);
    } else if clicks < 0 {
      DecDisplacement(-clicks);
    }
  }

  /** A forward turn never asks for more than 63 detents in one event. */
  lemma {:induction false} IncSteps(clicks: nat)
    requires clicks > 0
    ensures forall k :: 0 <= k < |IncEvents(clicks)| ==> TURN_CENTRE < IncEvents(clicks)[k].value <= TURN_CENTRE + MAX_STEP
    decreases clicks
  {
    if clicks > MAX_STEP {
      IncSteps(clicks - MAX_STEP);
      assert IncEvents(clicks)[1..] == IncEvents(clicks - MAX_STEP);
    }
  }

  /** The number of events a forward turn takes: one per started block of 63 clicks. */
  lemma {:induction false} IncEventCount(clicks: nat)
    requires clicks > 0
    ensures |IncEvents(clicks)| == CeilDiv(clicks, MAX_STEP)
    decreases clicks
  {
    if clicks > MAX_STEP {
      IncEventCount(clicks - MAX_STEP);
      DivAddMultiple(clicks - MAX_STEP + MAX_STEP - 1, MAX_STEP, 1);
    } else {
      DivUnique(clicks + MAX_STEP - 1, MAX_STEP, 1, clicks - 1);
    }
  }

  /** `zoia_home` presses and releases back five times. */
  lemma {:induction false} BackPairsShape(n: nat)
    ensures |BackPairs(n)| == 2 * n
    ensures forall k :: 0 <= k < n ==>
      BackPairs(n)[2 * k] == ZoiaEvent(Press, VALUE_BACK) && BackPairs(n)[2 * k + 1] == ZoiaEvent(Release, VALUE_BACK)
  {
    if n > 0 {
      BackPairsShape(n - 1);
      assert forall k :: 0 <= k < 2 * (n - 1) ==> BackPairs(n)[k] == BackPairs(n - 1)[k];
    }
  }

  /** Pressing back turns nothing. */
  lemma {:induction false} BackPairsTurnNothing(n: nat)
    ensures Displacement(BackPairs(n)) == 0
  {
    if n > 0 {
      BackPairsTurnNothing(n - 1);
      DisplacementAppend(BackPairs(n - 1), PressRelease(VALUE_BACK));
    }
  }

  /**
   * Selecting a patch turns the encoder down 65 detents, past the first
   * patch, and then up by the index clamped to 63.
   */
  lemma PatchSetTurns(patchIndex: Byte)
    ensures Displacement(PatchSetEvents(patchIndex)) == Min(patchIndex, LAST_PATCH) - 65
  {
    var down := EncoderEvents(-64);
    DecOvershoots();
    BackPairsTurnNothing(HOME_BACKS);
    EncoderDisplacement(Min(patchIndex, LAST_PATCH));
    DisplacementAppend(BackPairs(HOME_BACKS), down);
    DisplacementAppend(BackPairs(HOME_BACKS) + down, EncoderEvents(Min(patchIndex, LAST_PATCH)));
  }

  /** The interface's static event and the events it has enqueued, in order. */
  class Interface {
    var event: ZoiaEvent
    var queue: seq<ZoiaEvent>

    constructor ()
      ensures event == ZoiaEvent(Bypass, 0) && queue == []
    {
      event := ZoiaEvent(Bypass, 0);
      queue := [];
    }

    /** `zoia_enqueue` copies the event onto the queue. */
    method Enqueue()
      modifies this
      ensures queue == old(queue) + [event] && event == old(event)
    {
      queue := queue + [event];
    }

    /** `_encoder_inc`. */
    method EncoderInc(clicks: nat)
      requires clicks < TWO_32
      modifies this
      ensures queue == old(queue) + IncEvents(clicks)
      ensures event == IncEvents(clicks)[|IncEvents(clicks)| - 1]
    {
      event := ZoiaEvent(Turn, 127);
      var rest: nat := clicks;
      while rest > MAX_STEP
        invariant rest <= clicks
        invariant old(queue) + IncEvents(clicks) == queue + IncEvents(rest)
        invariant event == ZoiaEvent(Turn, 127)
      {
        Enqueue();
        rest := rest - MAX_STEP;
      }
      event := ZoiaEvent(Turn, TURN_CENTRE + rest);
      Enqueue();
      assert queue == old(queue) + IncEvents(clicks);
      assert queue[|queue| - 1] == IncEvents(clicks)[|IncEvents(clicks)| - 1];
    }

    /** `_encoder_dec`. */
    method EncoderDec(clicks: nat)
      requires clicks < TWO_32
      modifies this
      ensures queue == old(queue) + DecEvents(clicks)
      ensures event == DecEvents(clicks)[|DecEvents(clicks)| - 1]
    {
      event := ZoiaEvent(Turn, 0);
      var rest: nat := clicks;
      while rest > MAX_STEP
        invariant rest <= clicks
        invariant old(queue) + DecEvents(clicks) == queue + DecEvents(rest)
        invariant event == ZoiaEvent(Turn, 0)
      {
        Enqueue();
        rest := rest - MAX_STEP;
      }
      event := ZoiaEvent(Turn, TURN_CENTRE - rest);
      Enqueue();
      assert queue == old(queue) + DecEvents(clicks);
      assert queue[|queue| - 1] == DecEvents(clicks)[|DecEvents(clicks)| - 1];
    }

    /** `zoia_encoder`: zero clicks enqueue nothing. */
    method Encoder(clicks: int)
      requires -INT32_LIMIT <= clicks < INT32_LIMIT
      modifies this
      ensures queue == old(queue) + EncoderEvents(clicks)
      ensures clicks == 0 ==> event == old(event)
    {
      if clicks > 0 {
        EncoderInc(clicks);
      } else if clicks < 0 {
        EncoderDec(-clicks);
      }
    }

    /** Press and release of `value`, through the static event. */
    method PressAndRelease(value: Byte)
      modifies this
      ensures queue == old(queue) + PressRelease(value) && event == ZoiaEvent(Release, value)
    {
      event := ZoiaEvent(Press, value);
      Enqueue();
      event := ZoiaEvent(Release, value);
      Enqueue();
    }

    /** `zoia_enter`: press and release the encoder. */
    method Enter()
      modifies this
      ensures queue == old(queue) + PressRelease(VALUE_ENCODER) && event == ZoiaEvent(Release, VALUE_ENCODER)
    {
      PressAndRelease(VALUE_ENCODER);
    }

    /** `zoia_back`: press and release back. */
    method Back()
      modifies this
      ensures queue == old(queue) + PressRelease(VALUE_BACK) && event == ZoiaEvent(Release, VALUE_BACK)
    {
      PressAndRelease(VALUE_BACK);
    }

    /** `zoia_home`: back, five times. */
    method Home()
      modifies this
      ensures queue == old(queue) + BackPairs(HOME_BACKS) && event == ZoiaEvent(Release, VALUE_BACK)
    {
      var i := 0;
      while i < HOME_BACKS
        invariant i <= HOME_BACKS
        invariant queue == old(queue) + BackPairs(i) && (i > 0 ==> event == ZoiaEvent(Release, VALUE_BACK))
      {
        Back();
        i := i + 1;
      }
    }

    /** `zoia_patch_set`: clamp the index to 63, go home, scroll to the first patch, then up to the index. */
    method PatchSet(patchIndex: Byte)
      modifies this
      ensures queue == old(queue) + PatchSetEvents(patchIndex)
    {
      var index := if patchIndex > LAST_PATCH then LAST_PATCH else patchIndex;
      Home();
      Encoder(-64);
      Encoder(index);
      assert index == Min(patchIndex, LAST_PATCH);
    }
  }
}
