/**
 * The MIDI byte-stream parser (`midi_fsm.c`): a state machine fed one byte
 * at a time that reassembles channel messages, hands real-time bytes on at
 * once, and collects System Exclusive bodies in an 8 KiB buffer.
 *
 * The C globals become the fields of `MidiParser`; the callbacks, which are
 * foreign code, become a log of the invocations they receive.
 * `Next` is the specification of one call of `midi_receive_byte`.
 */
module MidiFsm {
  import opened Common

  /** `SYSEX_BUFFER_LENGTH`. */
  const SYSEX_BUFFER_LENGTH: nat := 0x2000

  /** The callback-table events `EVT_SYS_REALTIME_TIMING_CLOCK` .. `EVT_CHAN_PITCH_BEND`. */
  datatype Event =
    | TimingClock | ReservedF9 | SeqStart | SeqContinue | SeqStop | ReservedFD | ActiveSense | Reset
    | NoteOff | NoteOn | PolyAftertouch | ControlChange | ProgramChange | Aftertouch | PitchBend

  /** One callback invocation: an event callback with (channel, data1, data2), or the SysEx callback with the received bytes. */
  datatype Callback =
    | EventCallback(evt: Event, channel: Byte, data1: Byte, data2: Byte)
    | SysexCallback(data: seq<Byte>)

  /** `enum PROTOCOL_STATE`. */
  datatype State =
    | WaitingForStatus | Error
    | NoteOffKey | NoteOffVelocity | NoteOnKey | NoteOnVelocity
    | PolyKey | PolyPressure | ControlNumber | ControlValue
    | ProgramNumber | AftertouchPressure | BendLsb | BendMsb
    | SysexData

  /** The four kinds of byte `midi_receive_byte` tells apart. */
  datatype ByteKind = Realtime | SystemCommon | ChannelStatus | Data

  /**
   * The classification, checked in the source's order: the real-time mask
   * 0xF8, then the system-common mask 0xF0, then the status bit 0x80.
   * `char` is unsigned on the target, so a byte is 0..255.
   */
  function Kind(b: Byte): (k: ByteKind)
    ensures k == Realtime <==> 0xF8 <= b
    ensures k == SystemCommon <==> 0xF0 <= b < 0xF8
    ensures k == ChannelStatus <==> 0x80 <= b < 0xF0
    ensures k == Data <==> b < 0x80
  {
    if b / 8 == 0x1F then Realtime
    else if b / 0x10 == 0xF then SystemCommon
    else if b / 0x80 == 1 then ChannelStatus
    else Data
  }

  /** The event a real-time status byte 0xF8 .. 0xFF raises. */
  function RealtimeEvent(b: Byte): Event
    requires 0xF8 <= b
  {
    [TimingClock, ReservedF9, SeqStart, SeqContinue, SeqStop, ReservedFD, ActiveSense, Reset][b - 0xF8]
  }

  /**
   * The state a channel status byte selects from its high nibble.  Every
   * nibble 0x8 .. 0xE has a case, so the source's `STATE_ERROR` default
   * cannot be reached with an unsigned `char`.
   */
  function ChannelState(b: Byte): (st: State)
    requires 0x80 <= b < 0xF0
    ensures st in {NoteOffKey, NoteOnKey, PolyKey, ControlNumber, ProgramNumber, AftertouchPressure, BendLsb}
  {
    var t := b / 0x10;
    if t == 0x8 then NoteOffKey
    else if t == 0x9 then NoteOnKey
    else if t == 0xA then PolyKey
    else if t == 0xB then ControlNumber
    else if t == 0xC then ProgramNumber
    else if t == 0xD then AftertouchPressure
    else BendLsb
  }

  /**
   * A snapshot of the parser's globals: state, current channel, the two
   * data bytes, the SysEx buffer and byte count, the 32-bit message
   * counter, and the callbacks invoked so far.
   */
  datatype Fsm = Fsm(
    state: State,
    channel: Byte,
    data1: Byte,
    data2: Byte,
    buffer: seq<Byte>,
    count: nat,
    counter: nat,
    log: seq<Callback>)

  predicate Valid(s: Fsm) {
    |s.buffer| == SYSEX_BUFFER_LENGTH && s.count <= SYSEX_BUFFER_LENGTH && s.counter < TWO_32
  }

  /** The power-up values of the globals. */
  function Initial(): (s: Fsm)
    ensures Valid(s) && s.state == WaitingForStatus && s.log == []
  {
    Fsm(WaitingForStatus, 0, 0, 0, seq(SYSEX_BUFFER_LENGTH, _ => 0), 0, 0, [])
  }

  /**
   * `invoke_callback` for a table event: the counter goes up (modulo 2^32,
   * an `unsigned long`), the callback sees channel and data bytes, and both
   * data bytes are cleared.
   */
  function Invoke(s: Fsm, evt: Event): (r: Fsm)
    requires Valid(s)
    ensures Valid(r)
    ensures r.log == s.log + [EventCallback(evt, s.channel, s.data1, s.data2)]
    ensures r.data1 == 0 && r.data2 == 0 && r.counter == (s.counter + 1) % TWO_32
    ensures r.state == s.state && r.channel == s.channel && r.buffer == s.buffer && r.count == s.count
  {
    s.(counter := (s.counter + 1) % TWO_32,
       log := s.log + [EventCallback(evt, s.channel, s.data1, s.data2)],
       data1 := 0, data2 := 0)
  }

  /** `invoke_callback(EVT_SYS_EXCLUSIVE)`: the SysEx callback sees the stored bytes; nothing else changes. */
  function InvokeSysex(s: Fsm): (r: Fsm)
    requires Valid(s)
    ensures Valid(r) && r.log == s.log + [SysexCallback(s.buffer[..s.count])]
    ensures r.(log := s.log) == s
  {
    s.(log := s.log + [SysexCallback(s.buffer[..s.count])])
  }

  /** `rx_status_sys_realtime_byte`. */
  function RealtimeStep(s: Fsm, b: Byte): (r: (Fsm, int))
    requires Valid(s) && 0xF8 <= b
    ensures Valid(r.0) && r.1 == 1
    ensures r.0.state == s.state && r.0.channel == s.channel && r.0.buffer == s.buffer && r.0.count == s.count
    ensures r.0.log == s.log + [EventCallback(RealtimeEvent(b), s.channel, s.data1, s.data2)]
  {
    (Invoke(s, RealtimeEvent(b)), 1)
  }

  /** `rx_status_sys_common_byte`: F0 opens a SysEx body, F7 closes it, F1 .. F6 are ignored. */
  function CommonStep(s: Fsm, b: Byte): (r: (Fsm, int))
    requires Valid(s) && 0xF0 <= b < 0xF8
    ensures Valid(r.0) && r.1 == 0
    ensures b == 0xF0 ==> r.0.state == SysexData && r.0.count == 0 && r.0.log == s.log
    ensures b == 0xF7 ==>
      r.0.state == WaitingForStatus && r.0.count == s.count
      && r.0.log == s.log + (if s.count > 0 then [SysexCallback(s.buffer[..s.count])] else [])
    ensures 0xF0 < b < 0xF7 ==> r.0 == s
  {
    if b == 0xF0 then (s.(count := 0, state := SysexData), 0)
    else if b == 0xF7 then ((if s.count != 0 then InvokeSysex(s) else s).(state := WaitingForStatus), 0)
    else (s, 0)
  }

  /** `rx_status_channel_byte`: records the channel, drops an unfinished SysEx body, and selects the state. */
  function ChannelStep(s: Fsm, b: Byte): (r: (Fsm, int))
    requires Valid(s) && 0x80 <= b < 0xF0
    ensures Valid(r.0) && r.1 == 0 && r.0.log == s.log
    ensures r.0.channel == b % 0x10 && r.0.state == ChannelState(b)
    ensures r.0.count == (if s.state == SysexData then 0 else s.count)
  {
    (s.(channel := b % 0x10,
        count := if s.state == SysexData then 0 else s.count,
        state := ChannelState(b)), 0)
  }

  /** `rx_data_byte`. */
  function DataStep(s: Fsm, b: Byte): (r: (Fsm, int))
    requires Valid(s) && b < 0x80
    ensures Valid(r.0)
    ensures r.1 == 0 ==> r.0.log == s.log
    ensures r.1 == 1 ==> |r.0.log| == |s.log| + 1 && r.0.log[..|s.log|] == s.log && r.0.log[|s.log|].EventCallback?
    ensures r.1 == 0 || r.1 == 1
    ensures s.state == SysexData ==>
      r.1 == 0
      && if s.count < SYSEX_BUFFER_LENGTH
         then r.0.state == SysexData && r.0.count == s.count + 1
              && r.0.buffer[..r.0.count] == s.buffer[..s.count] + [b]
         else r.0.state == WaitingForStatus && r.0.count == 0
  {
    match s.state
    case NoteOffKey => (s.(data1 := b, state := NoteOffVelocity), 0)
    case NoteOffVelocity => (Invoke(s.(data2 := b), NoteOff).(state := NoteOffKey), 1)
    case NoteOnKey => (s.(data1 := b, state := NoteOnVelocity), 0)
    case NoteOnVelocity => (Invoke(s.(data2 := b), NoteOn).(state := NoteOnKey), 1)
    case PolyKey => (s.(data1 := b, state := PolyPressure), 0)
    case PolyPressure => (Invoke(s.(data2 := b), PolyAftertouch).(state := PolyKey), 1)
    case ControlNumber => (s.(data1 := b, state := ControlValue), 0)
    case ControlValue => (Invoke(s.(data2 := b), ControlChange).(state := ControlNumber), 1)
    case ProgramNumber => (Invoke(s.(data1 := b, data2 := 0), ProgramChange), 1)
    case AftertouchPressure => (Invoke(s.(data1 := b, data2 := 0), Aftertouch), 1)
    case BendLsb => (s.(data1 := b, state := BendMsb), 0)
    case BendMsb => (Invoke(s.(data2 := b), PitchBend).(state := BendLsb), 1)
    case SysexData =>
      if s.count < SYSEX_BUFFER_LENGTH then
        (s.(buffer := s.buffer[s.count := b], count := s.count + 1), 0)
      else
        (s.(count := 0, state := WaitingForStatus), 0)
    case WaitingForStatus => (s.(data1 := 0, data2 := 0), 0)
    case Error => (s.(data1 := 0, data2 := 0), 0)
  }

  /**
   * `midi_receive_byte`: the new globals and the returned status.  A
   * real-time byte leaves state, channel and SysEx buffer alone and returns
   * 1; the other status bytes return 0; a data byte returns 1 exactly when
   * it completes a channel message.
   */
  function Next(s: Fsm, b: Byte): (r: (Fsm, int))
    requires Valid(s)
    ensures Valid(r.0)
    ensures Kind(b) == Realtime ==>
      r.1 == 1 && r.0.state == s.state && r.0.channel == s.channel
      && r.0.buffer == s.buffer && r.0.count == s.count
      && r.0.log == s.log + [EventCallback(RealtimeEvent(b), s.channel, s.data1, s.data2)]
    ensures b == 0xF0 ==> r.0.state == SysexData && r.0.count == 0 && r.0.log == s.log
    ensures b == 0xF7 ==>
      r.0.state == WaitingForStatus
      && r.0.log == s.log + (if s.count > 0 then [SysexCallback(s.buffer[..s.count])] else [])
    ensures Kind(b) == ChannelStatus ==>
      r.1 == 0 && r.0.channel == b % 0x10 && r.0.log == s.log
      && (s.state == SysexData ==> r.0.count == 0)
    ensures Kind(b) == Data && s.state == SysexData ==>
      r.0.log == s.log
      && if s.count < SYSEX_BUFFER_LENGTH
         then r.0.state == SysexData && r.0.count == s.count + 1
              && r.0.buffer[..r.0.count] == s.buffer[..s.count] + [b]
         else r.0.state == WaitingForStatus && r.0.count == 0
    ensures r.1 == 1 <==> |r.0.log| == |s.log| + 1 && r.0.log[|s.log|].EventCallback?
  {
    match Kind(b)
    case Realtime => RealtimeStep(s, b)
    case SystemCommon => CommonStep(s, b)
    case ChannelStatus => ChannelStep(s, b)
    case Data => DataStep(s, b)
  }

  /** Feeding a byte string to `midi_receive_byte` one byte at a time. */
  function Run(s: Fsm, bs: seq<Byte>): (r: Fsm)
    requires Valid(s)
    ensures Valid(r)
    decreases |bs|
  {
    if bs == [] then s else Run(Next(s, bs[0]).0, bs[1..])
  }

  lemma {:induction false} RunAppend(s: Fsm, xs: seq<Byte>, ys: seq<Byte>)
    requires Valid(s)
    ensures Run(s, xs + ys) == Run(Run(s, xs), ys)
    decreases |xs|
  {
    if xs == [] {
      assert xs + ys == ys;
    } else {
      assert (xs + ys)[1..] == xs[1..] + ys;
      RunAppend(Next(s, xs[0]).0, xs[1..], ys);
    }
  }

  lemma RunCons(s: Fsm, b: Byte, rest: seq<Byte>)
    requires Valid(s)
    ensures Run(s, [b] + rest) == Run(Next(s, b).0, rest)
  {
    assert ([b] + rest)[1..] == rest;
  }

  /** A SysEx body of data bytes, from F0 on, is stored in order while it fits. */
  lemma {:induction false} SysexBodyStored(s: Fsm, data: seq<Byte>)
    requires Valid(s) && s.state == SysexData && s.count + |data| <= SYSEX_BUFFER_LENGTH
    requires forall i :: 0 <= i < |data| ==> data[i] < 0x80
    ensures Run(s, data).state == SysexData
    ensures Run(s, data).count == s.count + |data|
    ensures Run(s, data).buffer[..s.count + |data|] == s.buffer[..s.count] + data
    ensures Run(s, data).log == s.log
    decreases |data|
  {
    if data != [] {
      var t := Next(s, data[0]).0;
      assert t.buffer[..t.count] == s.buffer[..s.count] + [data[0]];
      SysexBodyStored(t, data[1..]);
      assert s.buffer[..s.count] + [data[0]] + data[1..] == s.buffer[..s.count] + data;
    }
  }

  /**
   * F0, a body of 1 .. 0x2000 data bytes, F7: the SysEx callback receives
   * exactly the body, and the parser waits for a status byte again.
   */
  lemma SysexMessageDelivered(s: Fsm, data: seq<Byte>)
    requires Valid(s) && 0 < |data| <= SYSEX_BUFFER_LENGTH
    requires forall i :: 0 <= i < |data| ==> data[i] < 0x80
    ensures Run(s, [0xF0] + data + [0xF7]).log == s.log + [SysexCallback(data)]
    ensures Run(s, [0xF0] + data + [0xF7]).state == WaitingForStatus
  {
    var t := Next(s, 0xF0).0;
    assert Run(s, [0xF0]) == t;
    SysexBodyStored(t, data);
    var u := Run(t, data);
    assert u.buffer[..u.count] == data;
    assert Run(u, [0xF7]) == Next(u, 0xF7).0;
    RunAppend(s, [0xF0], data);
    RunAppend(s, [0xF0] + data, [0xF7]);
  }

  /** In the waiting state, data bytes are discarded and call nothing. */
  lemma {:induction false} WaitingIgnoresData(s: Fsm, data: seq<Byte>)
    requires Valid(s) && s.state == WaitingForStatus
    requires forall i :: 0 <= i < |data| ==> data[i] < 0x80
    ensures Run(s, data).state == WaitingForStatus && Run(s, data).log == s.log
    ensures Run(s, data).count == s.count
    decreases |data|
  {
    if data != [] {
      WaitingIgnoresData(Next(s, data[0]).0, data[1..]);
    }
  }

  /**
   * A body longer than the buffer is dropped: after F0, more than 0x2000
   * data bytes and F7, no callback has been invoked.
   */
  lemma SysexOverflowDropped(s: Fsm, data: seq<Byte>)
    requires Valid(s) && |data| > SYSEX_BUFFER_LENGTH
    requires forall i :: 0 <= i < |data| ==> data[i] < 0x80
    ensures Run(s, [0xF0] + data + [0xF7]).log == s.log
    ensures Run(s, [0xF0] + data + [0xF7]).state == WaitingForStatus
  {
    var t := Next(s, 0xF0).0;
    assert Run(s, [0xF0]) == t;
    var n := SYSEX_BUFFER_LENGTH;
    SysexBodyStored(t, data[..n]);
    var u := Run(t, data[..n]);
    var w := Next(u, data[n]).0;
    assert w.state == WaitingForStatus && w.count == 0;
    assert Run(u, data[n..]) == Run(w, data[n + 1..]);
    WaitingIgnoresData(w, data[n + 1..]);
    RunAppend(t, data[..n], data[n..]);
    assert data[..n] + data[n..] == data;
    RunAppend(s, [0xF0], data);
    RunAppend(s, [0xF0] + data, [0xF7]);
  }

  /** A channel status byte in the middle of a SysEx body discards it: a later F7 calls nothing. */
  lemma ChannelStatusAbortsSysex(s: Fsm, data: seq<Byte>, status: Byte)
    requires Valid(s) && 0 < |data| <= SYSEX_BUFFER_LENGTH && 0x80 <= status < 0xF0
    requires forall i :: 0 <= i < |data| ==> data[i] < 0x80
    ensures Run(s, [0xF0] + data + [status, 0xF7]).log == s.log
  {
    var t := Next(s, 0xF0).0;
    RunCons(s, 0xF0, data);
    SysexBodyStored(t, data);
    var u := Run(t, data);
    var v := Next(u, status).0;
    RunCons(u, status, [0xF7]);
    RunCons(v, 0xF7, []);
    assert [status] + [0xF7] == [status, 0xF7];
    RunAppend(s, [0xF0] + data, [status, 0xF7]);
  }

  /** The event a channel status byte's two-data-byte message raises, if it has two data bytes. */
  function TwoByteEvent(b: Byte): Option<Event>
    requires 0x80 <= b < 0xF0
  {
    var t := b / 0x10;
    if t == 0x8 then Some(NoteOff)
    else if t == 0x9 then Some(NoteOn)
    else if t == 0xA then Some(PolyAftertouch)
    else if t == 0xB then Some(ControlChange)
    else if t == 0xE then Some(PitchBend)
    else None
  }

  /**
   * A two-data-byte message fires its callback after the second data byte
   * and returns to the first-data state, so further pairs reuse the status
   * (running status).
   */
  lemma TwoByteMessage(s: Fsm, status: Byte, d1: Byte, d2: Byte)
    requires Valid(s) && 0x80 <= status < 0xF0 && TwoByteEvent(status).Some?
    requires d1 < 0x80 && d2 < 0x80
    ensures var t := Run(s, [status, d1, d2]);
      t.log == s.log + [EventCallback(TwoByteEvent(status).value, status % 0x10, d1, d2)]
      && t.state == ChannelState(status) && t.data1 == 0 && t.data2 == 0
    ensures var t := Run(s, [status, d1, d2]);
      Run(t, [d1, d2]).log == t.log + [EventCallback(TwoByteEvent(status).value, status % 0x10, d1, d2)]
      && Run(t, [d1, d2]).state == t.state
  {
    var a := Next(s, status).0;
    assert a.state == ChannelState(status) && a.channel == status % 0x10 && a.log == s.log by {
      assert a == ChannelStep(s, status).0;
    }
    assert PairEvent(a.state) == TwoByteEvent(status);
    DataPair(a, d1, d2);
    RunCons(s, status, [d1, d2]);
    assert [status] + [d1, d2] == [status, d1, d2];
    var t := Run(s, [status, d1, d2]);
    assert t.state == a.state && t.channel == a.channel;
    DataPair(t, d1, d2);
  }

  /** The event a pair of data bytes completes in a first-data-byte state, if that state awaits a pair. */
  function PairEvent(st: State): Option<Event> {
    match st
    case NoteOffKey => Some(NoteOff)
    case NoteOnKey => Some(NoteOn)
    case PolyKey => Some(PolyAftertouch)
    case ControlNumber => Some(ControlChange)
    case BendLsb => Some(PitchBend)
    case _ => None
  }

  /** In a state awaiting a pair, two data bytes fire its callback and come back to that state. */
  lemma DataPair(t: Fsm, d1: Byte, d2: Byte)
    requires Valid(t) && PairEvent(t.state).Some? && d1 < 0x80 && d2 < 0x80
    ensures Run(t, [d1, d2]).log == t.log + [EventCallback(PairEvent(t.state).value, t.channel, d1, d2)]
    ensures Run(t, [d1, d2]).state == t.state && Run(t, [d1, d2]).channel == t.channel
    ensures Run(t, [d1, d2]).data1 == 0 && Run(t, [d1, d2]).data2 == 0
  {
    var b := Next(t, d1).0;
    assert b.log == t.log && b.channel == t.channel && b.data1 == d1;
    RunCons(t, d1, [d2]);
    RunCons(b, d2, []);
  }

  /**
   * Program change and channel aftertouch fire on every data byte with
   * data2 = 0 and keep their state for the next byte.
   */
  lemma OneByteMessage(s: Fsm, status: Byte, d: Byte)
    requires Valid(s) && 0xC0 <= status < 0xE0 && d < 0x80
    ensures var t := Run(s, [status, d]);
      t.log == s.log + [EventCallback(if status < 0xD0 then ProgramChange else Aftertouch, status % 0x10, d, 0)]
      && t.state == ChannelState(status)
  {
    var a := Next(s, status).0;
    RunCons(s, status, [d]);
    RunCons(a, d, []);
    assert [status] + [d] == [status, d];
  }

  /** The parser's globals, updated in place by `ReceiveByte`. */
  class MidiParser {
    var state: State
    var channel: Byte
    var data1: Byte
    var data2: Byte
    const buffer: array<Byte>
    var count: nat
    var counter: nat
    var log: seq<Callback>

    predicate Valid()
      reads this
    {
      buffer.Length == SYSEX_BUFFER_LENGTH && count <= SYSEX_BUFFER_LENGTH && counter < TWO_32
    }

    ghost function Abs(): Fsm
      reads this, buffer
    {
      Fsm(state, channel, data1, data2, buffer[..], count, counter, log)
    }

    /** The zero-initialised static storage. */
    constructor ()
      ensures Valid() && Abs() == Initial()
    {
      state := WaitingForStatus;
      channel, data1, data2 := 0, 0, 0;
      buffer := new Byte[SYSEX_BUFFER_LENGTH](_ => 0);
      count, counter := 0, 0;
      log := [];
      new;
      assert buffer[..] == Initial().buffer;
    }

    /** `invoke_callback` for a table event. */
    method InvokeCallback(evt: Event)
      requires Valid()
      modifies this
      ensures Valid() && Abs() == Invoke(old(Abs()), evt)
    {
      counter := (counter + 1) % TWO_32;
      log := log + [EventCallback(evt, channel, data1, data2)];
      data1 := 0;
      data2 := 0;
    }

    /** `invoke_callback(EVT_SYS_EXCLUSIVE)`. */
    method InvokeSysexCallback()
      requires Valid()
      modifies this
      ensures Valid() && Abs() == InvokeSysex(old(Abs()))
    {
      log := log + [SysexCallback(buffer[..count])];
    }

    method RxRealtime(b: Byte) returns (status: int)
      requires Valid() && 0xF8 <= b
      modifies this
      ensures Valid() && (Abs(), status) == RealtimeStep(old(Abs()), b)
    {
      InvokeCallback(RealtimeEvent(b));
      status := 1;
    }

    method RxCommon(b: Byte) returns (status: int)
      requires Valid() && 0xF0 <= b < 0xF8
      modifies this
      ensures Valid() && (Abs(), status) == CommonStep(old(Abs()), b)
    {
      if b == 0xF0 {
        count := 0;
        state := SysexData;
      } else if b == 0xF7 {
        if count != 0 {
          InvokeSysexCallback();
        }
        state := WaitingForStatus;
      }
      status := 0;
    }

    method RxChannel(b: Byte) returns (status: int)
      requires Valid() && 0x80 <= b < 0xF0
      modifies this
      ensures Valid() && (Abs(), status) == ChannelStep(old(Abs()), b)
    {
      channel := b % 0x10;
      if state == SysexData {
        count := 0;
      }
      state := ChannelState(b);
      status := 0;
    }

    /** `rx_data_byte`; the only handler that writes the SysEx buffer. */
    method RxData(b: Byte) returns (status: int)
      requires Valid() && b < 0x80
      modifies this, buffer
      ensures Valid() && (Abs(), status) == DataStep(old(Abs()), b)
    {
      status := 0;
      match state
      case NoteOffKey =>
        data1 := b;
        state := NoteOffVelocity;
      case NoteOffVelocity =>
        data2 := b;
        InvokeCallback(NoteOff);
        state := NoteOffKey;
        status := 1;
      case NoteOnKey =>
        data1 := b;
        state := NoteOnVelocity;
      case NoteOnVelocity =>
        data2 := b;
        InvokeCallback(NoteOn);
        state := NoteOnKey;
        status := 1;
      case PolyKey =>
        data1 := b;
        state := PolyPressure;
      case PolyPressure =>
        data2 := b;
        InvokeCallback(PolyAftertouch);
        state := PolyKey;
        status := 1;
      case ControlNumber =>
        data1 := b;
        state := ControlValue;
      case ControlValue =>
        data2 := b;
        InvokeCallback(ControlChange);
        state := ControlNumber;
        status := 1;
      case ProgramNumber =>
        data1 := b;
        data2 := 0;
        InvokeCallback(ProgramChange);
        status := 1;
      case AftertouchPressure =>
        data1 := b;
        data2 := 0;
        InvokeCallback(Aftertouch);
        status := 1;
      case BendLsb =>
        data1 := b;
        state := BendMsb;
      case BendMsb =>
        data2 := b;
        InvokeCallback(PitchBend);
        state := BendLsb;
        status := 1;
      case SysexData =>
        if count < SYSEX_BUFFER_LENGTH {
          buffer[count] := b;
          count := count + 1;
        } else {
          count := 0;
          state := WaitingForStatus;
        }
      case WaitingForStatus =>
        data1 := 0;
        data2 := 0;
      case Error =>
        data1 := 0;
        data2 := 0;
    }

    /** `midi_receive_byte`: classify the byte and run its handler. */
    method ReceiveByte(b: Byte) returns (status: int)
      requires Valid()
      modifies this, buffer
      ensures Valid() && (Abs(), status) == Next(old(Abs()), b)
    {
      if b / 8 == 0x1F {
        status := RxRealtime(b);
      } else if b / 0x10 == 0xF {
        status := RxCommon(b);
      } else if b / 0x80 == 1 {
        status := RxChannel(b);
      } else {
        status := RxData(b);
      }
    }
  }

  // ---------------------------------------------------------------------
  // Real-time bytes inside a channel message
  // ---------------------------------------------------------------------

  /**
   * As written, a real-time byte between the two data bytes of a note-on
   * clears the pending key: the note-on callback receives key 0.
   */
  lemma RealtimeClearsPendingKey(s: Fsm, ch: Byte, key: Byte, vel: Byte, rt: Byte)
    requires Valid(s) && ch < 0x10 && key < 0x80 && vel < 0x80 && 0xF8 <= rt
    ensures Run(s, [0x90 + ch, key, rt, vel]).log
      == s.log + [EventCallback(RealtimeEvent(rt), ch, key, s.data2), EventCallback(NoteOn, ch, 0, vel)]
  {
    var t := Run(s, [0x90 + ch, key]);
    NoteOnKeyPending(s, ch, key);
    RealtimeThenVelocity(t, rt, vel);
    RunAppend(s, [0x90 + ch, key], [rt, vel]);
    assert [0x90 + ch, key] + [rt, vel] == [0x90 + ch, key, rt, vel];
  }

  /** A note-on status and its key leave the parser waiting for the velocity, with the key pending. */
  lemma NoteOnKeyPending(s: Fsm, ch: Byte, key: Byte)
    requires Valid(s) && ch < 0x10 && key < 0x80
    ensures Run(s, [0x90 + ch, key]).state == NoteOnVelocity && Run(s, [0x90 + ch, key]).channel == ch
    ensures Run(s, [0x90 + ch, key]).data1 == key && Run(s, [0x90 + ch, key]).data2 == s.data2
    ensures Run(s, [0x90 + ch, key]).log == s.log
  {
    var a := Next(s, 0x90 + ch).0;
    assert a.state == NoteOnKey && a.channel == ch && a.log == s.log && a.data2 == s.data2 by {
      assert a == ChannelStep(s, 0x90 + ch).0;
      assert ChannelState(0x90 + ch) == NoteOnKey;
    }
    assert Next(a, key).0 == a.(data1 := key, state := NoteOnVelocity);
    RunCons(s, 0x90 + ch, [key]);
    RunCons(a, key, []);
  }

  /** While the velocity is awaited, a real-time byte and then the velocity raise two callbacks. */
  lemma RealtimeThenVelocity(t: Fsm, rt: Byte, vel: Byte)
    requires Valid(t) && t.state == NoteOnVelocity && 0xF8 <= rt && vel < 0x80
    ensures Run(t, [rt, vel]).log
      == t.log + [EventCallback(RealtimeEvent(rt), t.channel, t.data1, t.data2), EventCallback(NoteOn, t.channel, 0, vel)]
  {
    var c := Next(t, rt).0;
    assert c == Invoke(t, RealtimeEvent(rt));
    assert Next(c, vel).0.log == c.log + [EventCallback(NoteOn, t.channel, 0, vel)];
    RunCons(t, rt, [vel]);
    RunCons(c, vel, []);
  }

  /**
   * The real-time handling the parser's own description asks for: the
   * callback runs and the counter advances, but nothing the stream's other
   * messages depend on is touched.
   */
  function RealtimeStepIntended(s: Fsm, b: Byte): (r: (Fsm, int))
    requires Valid(s) && 0xF8 <= b
    ensures Valid(r.0) && r.1 == 1
    ensures r.0.(counter := s.counter, log := s.log) == s
    ensures r.0.log == s.log + [EventCallback(RealtimeEvent(b), s.channel, s.data1, s.data2)]
  {
    (s.(counter := (s.counter + 1) % TWO_32,
        log := s.log + [EventCallback(RealtimeEvent(b), s.channel, s.data1, s.data2)]), 1)
  }

  /** `midi_receive_byte` with the corrected real-time handling. */
  function NextIntended(s: Fsm, b: Byte): (r: (Fsm, int))
    requires Valid(s)
    ensures Valid(r.0)
  {
    if Kind(b) == Realtime then RealtimeStepIntended(s, b) else Next(s, b)
  }

  /** Everything but the callback log and the message counter. */
  function Core(s: Fsm): (c: Fsm)
    ensures c.counter == 0 && c.log == []
    ensures c.(counter := s.counter, log := s.log) == s
  {
    s.(counter := 0, log := [])
  }

  /** Invoking a callback from states with the same core gives results with the same core. */
  lemma InvokeCore(s: Fsm, t: Fsm, evt: Event)
    requires Valid(s) && Valid(t) && Core(s) == Core(t)
    ensures Core(Invoke(s, evt)) == Core(Invoke(t, evt))
    ensures Invoke(s, evt).log[|s.log|..] == Invoke(t, evt).log[|t.log|..]
  {
  }

  /**
   * With the correction, a real-time byte is invisible to whatever follows
   * it: the next byte produces the same parser state, the same status and
   * the same callbacks as if the real-time byte had not arrived.
   */
  lemma RealtimeInvisible(s: Fsm, rt: Byte, x: Byte)
    requires Valid(s) && 0xF8 <= rt
    ensures var t := NextIntended(s, rt).0;
      Core(NextIntended(t, x).0) == Core(NextIntended(s, x).0)
      && NextIntended(t, x).1 == NextIntended(s, x).1
      && NextIntended(t, x).0.log[|t.log|..] == NextIntended(s, x).0.log[|s.log|..]
  {
    var t := NextIntended(s, rt).0;
    assert Core(t) == Core(s);
    if Kind(x) == Data {
      match s.state
      case NoteOffVelocity => InvokeCore(s.(data2 := x), t.(data2 := x), NoteOff);
      case NoteOnVelocity => InvokeCore(s.(data2 := x), t.(data2 := x), NoteOn);
      case PolyPressure => InvokeCore(s.(data2 := x), t.(data2 := x), PolyAftertouch);
      case ControlValue => InvokeCore(s.(data2 := x), t.(data2 := x), ControlChange);
      case ProgramNumber => InvokeCore(s.(data1 := x, data2 := 0), t.(data1 := x, data2 := 0), ProgramChange);
      case AftertouchPressure => InvokeCore(s.(data1 := x, data2 := 0), t.(data1 := x, data2 := 0), Aftertouch);
      case BendMsb => InvokeCore(s.(data2 := x), t.(data2 := x), PitchBend);
      case _ =>
    } else if Kind(x) == Realtime {
    } else if x == 0xF7 {
    }
  }

  /** With the correction, the note-on interrupted by a real-time byte keeps its key. */
  lemma RealtimeKeepsPendingKey(s: Fsm, ch: Byte, key: Byte, vel: Byte, rt: Byte)
    requires Valid(s) && ch < 0x10 && key < 0x80 && vel < 0x80 && 0xF8 <= rt
    ensures var a := NextIntended(NextIntended(s, 0x90 + ch).0, key).0;
      var c := NextIntended(NextIntended(a, rt).0, vel).0;
      c.log == s.log + [EventCallback(RealtimeEvent(rt), ch, key, s.data2), EventCallback(NoteOn, ch, key, vel)]
  {
  }
}
