/**
 * The panel service (`svc_panel.c`): five-byte messages to and from the
 * panel MCU.  Incoming messages are dispatched on their first byte to the
 * registered callbacks or published as events; outgoing messages set LEDs,
 * the trigger mode and the XY calibration.  The service keeps the held
 * buttons mask and the brightness last written to each LED.
 *
 * Callbacks are modelled by which slots are registered, and their
 * invocations (and the events published) by a log of `Output`s.  The MCU
 * transmit queue is the sequence of messages enqueued.
 */
module PanelService {
  import opened Common

  const MSG_LENGTH: nat := 5
  /** `LED_COUNT`: the number of LEDs and of recorded brightnesses. */
  const LED_COUNT: nat := 0x58

  /** `t_panel_event`, which is also the message id of the first six messages. */
  const BUTTON_EVENT: Byte := 0
  const ENCODER_EVENT: Byte := 1
  const KNOB_EVENT: Byte := 2
  const UNDEFINED_EVENT: Byte := 3
  const TRIGGER_EVENT: Byte := 4
  const XY_PAD_EVENT: Byte := 5
  const PANEL_ACK_EVENT: Byte := 6
  const HELD_BUTTONS_EVENT: Byte := 7

  /** `t_panel_msg_id`. */
  const MSG_ID_ACK: Byte := 0x80
  const MSG_ID_BUTTONS_LSW: Byte := 0x91
  const MSG_ID_BUTTONS_MSW: Byte := 0x92

  /** A knob message for a control at or above this index is a trigger pad in continuous mode. */
  const FIRST_TRIGGER_KNOB: Byte := 0x11

  /** The callback slots `svc_panel_register_callback` fills. */
  const CALLBACK_SLOTS: set<nat> := {1, 2, 3, 4, 5, 7}

  /** The `t_status` values `_panel_parse` returns; the ACK result is the event service's own. */
  datatype Status = Success | Warning | PanelParseError | PublishError

  /** A callback invoked or an event published. */
  datatype Output =
    | ButtonPublished(index: Byte, pressed: bool)
    | EncoderTurned(encoder: Byte, delta: int)
    | KnobMoved(knob: Byte, value: Byte)
    | Undefined
    | TriggerHit(pad: Byte, velocity: Byte, pressed: bool)
    | XyMoved(x: nat, y: nat)
    | AckPublished(version: nat)
    | ButtonsHeld(low: nat, high: nat)

  /** `(int8_t)b`. */
  function Int8(b: Byte): (v: int)
    ensures -0x80 <= v < 0x80 && (v - b) % 0x100 == 0
  {
    if b < 0x80 then b else b - 0x100
  }

  /** `msg[i] << 0x18 | msg[i+1] << 0x10 | msg[i+2] << 8 | msg[i+3]`. */
  function BigEndianWord(m: seq<Byte>, i: nat): (w: nat)
    requires i + 4 <= |m|
    ensures w < TWO_32
    ensures w / 0x100_0000 == m[i] && (w / 0x1_0000) % 0x100 == m[i + 1]
    ensures (w / 0x100) % 0x100 == m[i + 2] && w % 0x100 == m[i + 3]
  {
    var w := m[i] as int * 0x100_0000 + m[i + 1] as int * 0x1_0000 + m[i + 2] as int * 0x100 + m[i + 3] as int;
    DivAddMultiple(m[i + 3] as int, 0x100, m[i] as int * 0x1_0000 + m[i + 1] as int * 0x100 + m[i + 2] as int);
    DivAddMultiple(m[i + 2] as int, 0x100, m[i] as int * 0x100 + m[i + 1] as int);
    DivAddMultiple(m[i + 1] as int, 0x100, m[i] as int);
    DivDiv(w, 0x100, 0x100);
    DivDiv(w, 0x1_0000, 0x100);
    w
  }

  /**
   * `_panel_parse`: the status, what is invoked or published, and the new
   * held-buttons words.  `ackStatus` is what publishing the ACK event
   * returns.
   */
  function Parse(msg: seq<Byte>, registered: set<nat>, held: (nat, nat), ackStatus: Status): (r: (Status, seq<Output>, (nat, nat)))
    requires |msg| == MSG_LENGTH
    ensures var (status, out, held') := r;
      |out| <= 1
      && (msg[0] !in {0, 1, 2, 3, 4, 5, MSG_ID_ACK, MSG_ID_BUTTONS_LSW, MSG_ID_BUTTONS_MSW} ==>
            status == Warning && out == [] && held' == held)
      && (msg[0] in {1, 2, 3, 4, 5, MSG_ID_BUTTONS_LSW, MSG_ID_BUTTONS_MSW} ==> status == Success)
      && (msg[0] in {1, 3, 4, 5} ==> (out != [] <==> msg[0] as nat in registered))
      && (msg[0] == MSG_ID_ACK ==> status == ackStatus && out == [AckPublished(BigEndianWord(msg, 1))])
      && (msg[0] == BUTTON_EVENT ==> status == PanelParseError && out == [ButtonPublished(msg[1], msg[2] != 0)])
      && (msg[0] == MSG_ID_BUTTONS_LSW ==> status == Success && out == [] && held' == (BigEndianWord(msg, 1), held.1))
      && (msg[0] == MSG_ID_BUTTONS_MSW ==>
            held' == (held.0, BigEndianWord(msg, 1)) && (out != [] <==> HELD_BUTTONS_EVENT as nat in registered))
      && (msg[0] != MSG_ID_BUTTONS_LSW && msg[0] != MSG_ID_BUTTONS_MSW ==> held' == held)
  {
    var code := msg[0];
    if code == BUTTON_EVENT then
      (PanelParseError, [ButtonPublished(msg[1], msg[2] != 0)], held)
    else if code == ENCODER_EVENT then
      (Success, if ENCODER_EVENT as nat in registered then [EncoderTurned(msg[1], Int8(msg[3]))] else [], held)
    else if code == KNOB_EVENT then
      if msg[1] >= FIRST_TRIGGER_KNOB then
        (Success, if TRIGGER_EVENT as nat in registered then [TriggerHit(msg[1], msg[3], msg[4] != 0)] else [], held)
      else
        (Success, if KNOB_EVENT as nat in registered then [KnobMoved(msg[1], msg[3])] else [], held)
    else if code == UNDEFINED_EVENT then
      (Success, if UNDEFINED_EVENT as nat in registered then [Undefined] else [], held)
    else if code == TRIGGER_EVENT then
      (Success, if TRIGGER_EVENT as nat in registered then [TriggerHit(msg[1], msg[3], msg[4] != 0)] else [], held)
    else if code == XY_PAD_EVENT then
      (Success, if XY_PAD_EVENT as nat in registered
                then [XyMoved(msg[1] as int * 0x100 + msg[2] as int, msg[3] as int * 0x100 + msg[4] as int)]
                else [], held)
    else if code == MSG_ID_ACK then
      (ackStatus, [AckPublished(BigEndianWord(msg, 1))], held)
    else if code == MSG_ID_BUTTONS_LSW then
      (Success, [], (BigEndianWord(msg, 1), held.1))
    else if code == MSG_ID_BUTTONS_MSW then
      var high := BigEndianWord(msg, 1);
      (Success, if HELD_BUTTONS_EVENT as nat in registered then [ButtonsHeld(held.0, high)] else [], (held.0, high))
    else (Warning, [], held)
  }

  /** A knob message goes to the trigger callback from control 0x11 on, and to the knob callback below it. */
  lemma KnobOrTrigger(msg: seq<Byte>, held: (nat, nat), ackStatus: Status)
    requires |msg| == MSG_LENGTH && msg[0] == KNOB_EVENT
    ensures var r := Parse(msg, CALLBACK_SLOTS, held, ackStatus);
      r.0 == Success
      && r.1 == (if msg[1] >= FIRST_TRIGGER_KNOB then [TriggerHit(msg[1], msg[3], msg[4] != 0)] else [KnobMoved(msg[1], msg[3])])
  {
  }

  /**
   * The encoder callback gets the encoder and the fourth byte read as a
   * signed delta; the trigger callback gets the pad, the velocity and
   * whether the fifth byte is non-zero.
   */
  lemma EncoderAndTriggerArguments(msg: seq<Byte>, held: (nat, nat), ackStatus: Status)
    requires |msg| == MSG_LENGTH
    ensures msg[0] == ENCODER_EVENT ==>
      var out := Parse(msg, CALLBACK_SLOTS, held, ackStatus).1;
      |out| == 1 && out[0].EncoderTurned? && out[0].encoder == msg[1]
      && -0x80 <= out[0].delta < 0x80 && (out[0].delta - msg[3]) % 0x100 == 0
    ensures msg[0] == TRIGGER_EVENT ==>
      Parse(msg, CALLBACK_SLOTS, held, ackStatus).1 == [TriggerHit(msg[1], msg[3], msg[4] != 0)]
  {
  }

  /** The XY coordinates are the two big-endian 16-bit halves of the message body. */
  lemma XyCoordinates(msg: seq<Byte>, registered: set<nat>, held: (nat, nat), ackStatus: Status)
    requires |msg| == MSG_LENGTH && msg[0] == XY_PAD_EVENT && XY_PAD_EVENT as nat in registered
    ensures var r := Parse(msg, registered, held, ackStatus);
      r.1 == [XyMoved(r.1[0].x, r.1[0].y)]
      && r.1[0].x < 0x1_0000 && r.1[0].x / 0x100 == msg[1] && r.1[0].x % 0x100 == msg[2]
      && r.1[0].y < 0x1_0000 && r.1[0].y / 0x100 == msg[3] && r.1[0].y % 0x100 == msg[4]
  {
    DivAddMultiple(msg[2] as int, 0x100, msg[1] as int);
    DivAddMultiple(msg[4] as int, 0x100, msg[3] as int);
  }

  /**
   * The low word is only stored; the callback fires on the high word, and
   * reports both words that arrived.
   */
  lemma HeldButtonsReported(lsw: seq<Byte>, msw: seq<Byte>, held: (nat, nat), ackStatus: Status)
    requires |lsw| == MSG_LENGTH && |msw| == MSG_LENGTH
    requires lsw[0] == MSG_ID_BUTTONS_LSW && msw[0] == MSG_ID_BUTTONS_MSW
    ensures var (s1, out1, held1) := Parse(lsw, CALLBACK_SLOTS, held, ackStatus);
      var (s2, out2, held2) := Parse(msw, CALLBACK_SLOTS, held1, ackStatus);
      out1 == [] && out2 == [ButtonsHeld(BigEndianWord(lsw, 1), BigEndianWord(msw, 1))]
      && held2 == (BigEndianWord(lsw, 1), BigEndianWord(msw, 1))
  {
  }

  /** The message `svc_panel_set_led` enqueues. */
  function LedMessage(index: Byte, brightness: Byte): (m: seq<Byte>)
    ensures |m| == MSG_LENGTH && m[0] == 0 && m[1] == index && m[2] == brightness && m[3] == 0 && m[4] == 0
  {
    [0, index, brightness, 0, 0]
  }

  /** `svc_panel_toggle_led`'s new brightness: off if it was on, full if it was off. */
  function Toggled(brightness: Byte): (b: Byte)
    ensures b in {0, 0xFF} && (b == 0 <==> brightness != 0)
  {
    if brightness != 0 then 0 else 0xFF
  }

  /** Toggling twice leaves an LED that was off, off, and one that was on, fully on. */
  lemma ToggleTwice(brightness: Byte)
    ensures Toggled(Toggled(brightness)) == (if brightness == 0 then 0 else 0xFF)
  {
  }

  /** The two messages `svc_panel_calib_xy` enqueues: ids 0x85 and 0x86, each value big-endian. */
  function CalibMessages(xcal: nat, ycal: nat): (ms: seq<seq<Byte>>)
    requires xcal < TWO_32 && ycal < TWO_32
    ensures |ms| == 2 && |ms[0]| == MSG_LENGTH && |ms[1]| == MSG_LENGTH
    ensures ms[0][0] == 0x85 && BigEndianWord(ms[0], 1) == xcal
    ensures ms[1][0] == 0x86 && BigEndianWord(ms[1], 1) == ycal
  {
    [CalibMessage(0x85, xcal), CalibMessage(0x86, ycal)]
  }

  function CalibMessage(id: Byte, v: nat): (m: seq<Byte>)
    requires v < TWO_32
    ensures |m| == MSG_LENGTH && m[0] == id && BigEndianWord(m, 1) == v
  {
    var m := [id, v / 0x100_0000, (v / 0x1_0000) % 0x100, (v / 0x100) % 0x100, v % 0x100];
    DivDiv(v, 0x100, 0x100);
    DivDiv(v, 0x1_0000, 0x100);
    assert v == (((v / 0x100_0000) * 0x100 + (v / 0x1_0000) % 0x100) * 0x100 + (v / 0x100) % 0x100) * 0x100 + v % 0x100;
    m
  }

  /** The panel service's state, updated in place. */
  class Panel {
    const brightness: array<Byte>
    /** The static `held_buttons[2]`. */
    const held: array<nat>
    var registered: set<nat>
    var tx: seq<seq<Byte>>
    var outputs: seq<Output>

    predicate Valid()
      reads this
    {
      brightness.Length == LED_COUNT && held.Length == 2 && brightness != held as object
      && registered <= CALLBACK_SLOTS
    }

    constructor ()
      ensures Valid() && registered == {} && tx == [] && outputs == []
      ensures brightness[..] == seq(LED_COUNT, _ => 0) && held[..] == [0, 0]
      ensures fresh(brightness) && fresh(held)
    {
      brightness := new Byte[LED_COUNT](_ => 0);
      held := new nat[2](_ => 0);
      registered, tx, outputs := {}, [], [];
    }

    /** `svc_panel_register_callback`: a NULL callback, or an event without a slot, changes nothing. */
    method RegisterCallback(event: Byte, present: bool)
      requires Valid()
      modifies this
      ensures Valid()
      ensures registered == if present && event as nat in CALLBACK_SLOTS then old(registered) + {event as nat} else old(registered)
      ensures tx == old(tx) && outputs == old(outputs)
    {
      if present {
        if event == ENCODER_EVENT || event == KNOB_EVENT || event == UNDEFINED_EVENT
           || event == TRIGGER_EVENT || event == XY_PAD_EVENT || event == HELD_BUTTONS_EVENT {
          registered := registered + {event as nat};
        }
      }
    }

    /** `svc_panel_request_buttons`. */
    method RequestButtons()
      modifies this
      ensures tx == old(tx) + [[MSG_ID_BUTTONS_LSW, 0, 0, 0, 0]]
      ensures registered == old(registered) && outputs == old(outputs)
    {
      tx := tx + [[MSG_ID_BUTTONS_LSW, 0, 0, 0, 0]];
    }

    /** `svc_panel_calib_xy`: the X message, then the Y message. */
    method CalibXy(xcal: nat, ycal: nat)
      requires xcal < TWO_32 && ycal < TWO_32
      modifies this
      ensures tx == old(tx) + CalibMessages(xcal, ycal)
      ensures registered == old(registered) && outputs == old(outputs)
    {
      var m := new Byte[MSG_LENGTH];
      m[0], m[1], m[2], m[3], m[4] := 0x85, xcal / 0x100_0000, (xcal / 0x1_0000) % 0x100, (xcal / 0x100) % 0x100, xcal % 0x100;
      assert m[..] == CalibMessage(0x85, xcal);
      tx := tx + [m[..]];
      m[0], m[1], m[2], m[3], m[4] := 0x86, ycal / 0x100_0000, (ycal / 0x1_0000) % 0x100, (ycal / 0x100) % 0x100, ycal % 0x100;
      assert m[..] == CalibMessage(0x86, ycal);
      tx := tx + [m[..]];
    }

    /** `svc_panel_set_trigger_mode`: any non-zero mode is sent as 1. */
    method SetTriggerMode(mode: Byte)
      modifies this
      ensures tx == old(tx) + [[0x84, if mode != 0 then 1 else 0, 0, 0, 0]]
      ensures registered == old(registered) && outputs == old(outputs)
    {
      var normalised := mode;
      if normalised != 0 {
        normalised := 1;
      }
      tx := tx + [[0x84, normalised, 0, 0, 0]];
    }

    /** `svc_panel_set_led`: the message is sent and the brightness recorded. */
    method SetLed(index: Byte, level: Byte)
      requires Valid() && index < LED_COUNT
      modifies this, brightness
      ensures Valid()
      ensures tx == old(tx) + [LedMessage(index, level)]
      ensures brightness[..] == old(brightness[..])[index := level]
      ensures registered == old(registered) && outputs == old(outputs)
    {
      tx := tx + [[0, index, level, 0, 0]];
      brightness[index] := level;
    }

    /** `svc_panel_toggle_led`: the recorded brightness flips between off and full. */
    method ToggleLed(index: Byte)
      requires Valid() && index < LED_COUNT
      modifies this, brightness
      ensures Valid()
      ensures tx == old(tx) + [LedMessage(index, Toggled(old(brightness[index])))]
      ensures brightness[..] == old(brightness[..])[index := Toggled(old(brightness[index]))]
      ensures registered == old(registered) && outputs == old(outputs)
    {
      var level: Byte := 0;
      if brightness[index] != 0 {
        level := 0;
      } else {
        level := 0xFF;
      }
      tx := tx + [[0, index, level, 0, 0]];
      brightness[index] := level;
    }

    /** `_panel_parse` on one received message. */
    method ParseMessage(msg: seq<Byte>, ackStatus: Status) returns (status: Status)
      requires Valid() && |msg| == MSG_LENGTH
      modifies held, this
      ensures Valid()
      ensures var (s, out, h) := Parse(msg, registered, (old(held[0]), old(held[1])), ackStatus);
        status == s && outputs == old(outputs) + out && held[..] == [h.0, h.1]
      ensures registered == old(registered) && tx == old(tx)
    {
      var (s, out, h) := Parse(msg, registered, (held[0], held[1]), ackStatus);
      status := PanelParseError;
      match msg[0]
      case 0 =>
        outputs := outputs + [ButtonPublished(msg[1], msg[2] != 0)];
      case 1 =>
        if ENCODER_EVENT as nat in registered {
          outputs := outputs + [EncoderTurned(msg[1], Int8(msg[3]))];
        }
        status := Success;
      case 2 =>
        if msg[1] >= FIRST_TRIGGER_KNOB {
          if TRIGGER_EVENT as nat in registered {
            outputs := outputs + [TriggerHit(msg[1], msg[3], msg[4] != 0)];
          }
        } else if KNOB_EVENT as nat in registered {
          outputs := outputs + [KnobMoved(msg[1], msg[3])];
        }
        status := Success;
      case 3 =>
        if UNDEFINED_EVENT as nat in registered {
          outputs := outputs + [Undefined];
        }
        status := Success;
      case 4 =>
        if TRIGGER_EVENT as nat in registered {
          outputs := outputs + [TriggerHit(msg[1], msg[3], msg[4] != 0)];
        }
        status := Success;
      case 5 =>
        if XY_PAD_EVENT as nat in registered {
          var x := msg[1] as int * 0x100 + msg[2] as int;
          var y := msg[3] as int * 0x100 + msg[4] as int;
          outputs := outputs + [XyMoved(x, y)];
        }
        status := Success;
      case 0x80 =>
        outputs := outputs + [AckPublished(BigEndianWord(msg, 1))];
        status := ackStatus;
      case 0x91 =>
        held[0] := BigEndianWord(msg, 1);
        status := Success;
      case 0x92 =>
        held[1] := BigEndianWord(msg, 1);
        if HELD_BUTTONS_EVENT as nat in registered {
          outputs := outputs + [ButtonsHeld(held[0], held[1])];
        }
        status := Success;
      case _ =>
        status := Warning;
    }
  }
}
