/**
 * The CPU's side of the CPU-DSP link (`svc_dsp.c`): messages are framed
 * as 0xF0, type, id, payload length and the payload; the CPU sends
 * parameter and port-state requests, counts the responses it still
 * expects, and parses the DSP's responses byte by byte.
 *
 * The transmit queue (`dev_dsp_spi_tx_enqueue`) is the sequence `tx`; the
 * registered callbacks, which are foreign code, are a flag
 * each, and their invocations are recorded in `calls`.
 */
module DspService {
  import opened Common

  const MSG_START: Byte := 0xF0
  /** The size of the static receive buffer `payload[0xff]`. */
  const PAYLOAD_SIZE: nat := 0xFF

  /** `e_message_type`. */
  const MSG_TYPE_MODULE: Byte := 0
  const MSG_TYPE_SYSTEM: Byte := 1

  /** `e_module_msg_id` as the CPU declares it. */
  const MODULE_GET_PARAM_VALUE: Byte := 0
  const MODULE_SET_PARAM_VALUE: Byte := 1
  const MODULE_PARAM_VALUE: Byte := 2

  /** `e_system_msg_id` as the CPU declares it. */
  const SYSTEM_GET_PORT_STATE: Byte := 0
  const SYSTEM_PORT_STATE: Byte := 2

  /** A message on the wire: start byte, type, id, payload length, payload. */
  function Frame(msgType: Byte, msgId: Byte, payload: seq<Byte>): (f: seq<Byte>)
    requires |payload| < 0x100
    ensures |f| == |payload| + 4 && f[0] == MSG_START && f[1] == msgType && f[2] == msgId
    ensures f[3] == |payload| && f[4..] == payload
  {
    [MSG_START, msgType, msgId, |payload|] + payload
  }

  /**
   * `svc_dsp_set_module_param`'s payload: module id, parameter index
   * (16 bits each) and the value's 32-bit pattern, all little-endian.
   */
  function SetParamPayload(moduleId: nat, paramIndex: nat, value: int): (p: seq<Byte>)
    requires moduleId < 0x1_0000 && paramIndex < 0x1_0000
    ensures |p| == 8
    ensures LittleEndian(p[0..2]) == moduleId && LittleEndian(p[2..4]) == paramIndex
    ensures LittleEndian(p[4..8]) == U32(value)
  {
    Pow2ThirtyTwo();
    assert Pow2(16) == 0x1_0000 by { Pow2Add(8, 8); Pow2Add(4, 4); Pow2Add(2, 2); Pow2Add(1, 1); }
    LittleEndianRoundTrip(moduleId, 2);
    LittleEndianRoundTrip(paramIndex, 2);
    LittleEndianRoundTrip(U32(value), 4);
    var p := LittleEndianBytes(moduleId, 2) + LittleEndianBytes(paramIndex, 2) + LittleEndianBytes(U32(value), 4);
    assert p[0..2] == LittleEndianBytes(moduleId, 2) && p[2..4] == LittleEndianBytes(paramIndex, 2);
    assert p[4..8] == LittleEndianBytes(U32(value), 4);
    p
  }

  /** `svc_dsp_get_module_param`'s payload: an 8-bit module id widened to 16 bits, and the index. */
  function GetParamPayload(moduleId: Byte, paramIndex: nat): (p: seq<Byte>)
    requires paramIndex < 0x1_0000
    ensures |p| == 4 && p[1] == 0
    ensures LittleEndian(p[0..2]) == moduleId && LittleEndian(p[2..4]) == paramIndex
  {
    assert Pow2(16) == 0x1_0000 by { Pow2Add(8, 8); Pow2Add(4, 4); Pow2Add(2, 2); Pow2Add(1, 1); }
    LittleEndianRoundTrip(moduleId, 2);
    LittleEndianRoundTrip(paramIndex, 2);
    LittleEndianBytesTwo(moduleId);
    var p := LittleEndianBytes(moduleId, 2) + LittleEndianBytes(paramIndex, 2);
    assert p[0..2] == LittleEndianBytes(moduleId, 2) && p[2..4] == LittleEndianBytes(paramIndex, 2);
    p
  }

  // ---------------------------------------------------------------------
  // The receive state machine
  // ---------------------------------------------------------------------

  /** `t_msg_parse_state`. */
  datatype ParseState = ParseStart | ParseMsgType | ParseMsgId | ParsePayloadLength | ParsePayload

  /** The receiver's statics: state, type, id, length, buffer and byte count. */
  datatype Rx = Rx(state: ParseState, msgType: Byte, msgId: Byte, length: Byte, payload: seq<Byte>, count: nat)

  /** A message handed to `_handle_message`: the whole buffer goes with it, not only `length` bytes. */
  datatype Message = Message(msgType: Byte, msgId: Byte, length: Byte, payload: seq<Byte>)

  /** The count is zero outside the payload state and never passes the length inside it. */
  predicate ValidRx(r: Rx) {
    |r.payload| == PAYLOAD_SIZE
    && (r.state != ParsePayload ==> r.count == 0)
    && (r.state == ParsePayload ==> r.count <= r.length)
  }

  function InitialRx(): (r: Rx)
    ensures ValidRx(r) && r.state == ParseStart
  {
    Rx(ParseStart, 0, 0, 0, seq(PAYLOAD_SIZE, _ => 0), 0)
  }

  /**
   * `_dsp_receive`: one byte.  In the payload state a byte is stored while
   * fewer than `length` have arrived; the next byte dispatches the message
   * and is itself dropped.
   */
  function Step(r: Rx, b: Byte): (res: (Rx, Option<Message>))
    requires ValidRx(r)
    ensures ValidRx(res.0)
    ensures res.1.Some? <==> r.state == ParsePayload && r.count == r.length
    ensures res.1.Some? ==>
      res.1.value == Message(r.msgType, r.msgId, r.length, r.payload) && res.0.state == ParseStart
  {
    match r.state
    case ParseStart => (if b == MSG_START then r.(state := ParseMsgType) else r, None)
    case ParseMsgType => (r.(msgType := b, state := ParseMsgId), None)
    case ParseMsgId => (r.(msgId := b, state := ParsePayloadLength), None)
    case ParsePayloadLength => (r.(length := b, state := ParsePayload), None)
    case ParsePayload =>
      if r.count < r.length then
        (r.(payload := r.payload[r.count := b], count := r.count + 1), None)
      else
        (r.(count := 0, state := ParseStart), Some(Message(r.msgType, r.msgId, r.length, r.payload)))
  }

  /** Feeding bytes one at a time: the final state and the messages dispatched, in order. */
  function Run(r: Rx, bs: seq<Byte>): (res: (Rx, seq<Message>))
    requires ValidRx(r)
    ensures ValidRx(res.0)
    ensures forall m :: m in res.1 ==> |m.payload| == PAYLOAD_SIZE
    decreases |bs|
  {
    if bs == [] then (r, [])
    else
      var (r1, m) := Step(r, bs[0]);
      var (r2, ms) := Run(r1, bs[1..]);
      (r2, (if m.Some? then [m.value] else []) + ms)
  }

  lemma {:induction false} RunAppend(r: Rx, xs: seq<Byte>, ys: seq<Byte>)
    requires ValidRx(r)
    ensures Run(r, xs + ys).0 == Run(Run(r, xs).0, ys).0
    ensures Run(r, xs + ys).1 == Run(r, xs).1 + Run(Run(r, xs).0, ys).1
    decreases |xs|
  {
    if xs == [] {
      assert xs + ys == ys;
    } else {
      assert (xs + ys)[1..] == xs[1..] + ys;
      RunAppend(Step(r, xs[0]).0, xs[1..], ys);
    }
  }

  lemma RunCons(r: Rx, b: Byte, rest: seq<Byte>)
    requires ValidRx(r)
    ensures var (r1, m) := Step(r, b);
      Run(r, [b] + rest) == (Run(r1, rest).0, (if m.Some? then [m.value] else []) + Run(r1, rest).1)
  {
    assert ([b] + rest)[1..] == rest;
  }

  /** Before a start byte, every byte is ignored. */
  lemma {:induction false} IgnoredUntilStart(r: Rx, bs: seq<Byte>)
    requires ValidRx(r) && r.state == ParseStart && MSG_START !in bs
    ensures Run(r, bs) == (r, [])
    decreases |bs|
  {
    if bs != [] {
      assert bs[0] != MSG_START;
      assert forall x :: x in bs[1..] ==> x in bs;
      IgnoredUntilStart(r, bs[1..]);
      assert bs == [bs[0]] + bs[1..];
      RunCons(r, bs[0], bs[1..]);
      assert Run(r, [bs[0]] + bs[1..]).1 == [];
      assert Run(r, [bs[0]] + bs[1..]).0 == r;
    }
  }

  /** Payload bytes are stored in order while fewer than `length` have arrived, and nothing is dispatched. */
  lemma {:induction false} PayloadStored(r: Rx, p: seq<Byte>)
    requires ValidRx(r) && r.state == ParsePayload && r.count + |p| <= r.length
    ensures Run(r, p).0 == r.(count := r.count + |p|, payload := Run(r, p).0.payload)
    ensures Run(r, p).0.payload[..r.count + |p|] == r.payload[..r.count] + p
    ensures Run(r, p).1 == []
    decreases |p|
  {
    if p != [] {
      var r1 := r.(payload := r.payload[r.count := p[0]], count := r.count + 1);
      assert Step(r, p[0]) == (r1, None);
      assert r1.payload[..r1.count] == r.payload[..r.count] + [p[0]];
      PayloadStored(r1, p[1..]);
      assert Run(r, p).0 == Run(r1, p[1..]).0 && Run(r, p).1 == [] + Run(r1, p[1..]).1;
      assert r.payload[..r.count] + [p[0]] + p[1..] == r.payload[..r.count] + p;
    }
  }

  /**
   * A whole frame read from the start state dispatches nothing; the byte
   * after it dispatches the message, whose buffer begins with the payload,
   * and is consumed.
   */
  lemma FrameDispatchedOnNextByte(r: Rx, msgType: Byte, msgId: Byte, p: seq<Byte>, next: Byte)
    requires ValidRx(r) && r.state == ParseStart && |p| < 0x100
    ensures Run(r, Frame(msgType, msgId, p)).1 == []
    ensures var (r2, ms) := Run(r, Frame(msgType, msgId, p) + [next]);
      r2.state == ParseStart && |ms| == 1
      && ms[0].msgType == msgType && ms[0].msgId == msgId && ms[0].length == |p|
      && ms[0].payload[..|p|] == p
  {
    var header := [MSG_START, msgType, msgId, |p| as Byte];
    var r1 := r.(state := ParseMsgType);
    var r2 := r1.(msgType := msgType, state := ParseMsgId);
    var r3 := r2.(msgId := msgId, state := ParsePayloadLength);
    var r4 := r3.(length := |p|, state := ParsePayload);
    assert Run(r, header) == (r4, []) by {
      RunCons(r3, |p| as Byte, []);
      RunCons(r2, msgId, [|p| as Byte]);
      RunCons(r1, msgType, [msgId, |p| as Byte]);
      RunCons(r, MSG_START, [msgType, msgId, |p| as Byte]);
    }
    PayloadStored(r4, p);
    RunAppend(r, header, p);
    assert Frame(msgType, msgId, p) == header + p;
    var r5 := Run(r4, p).0;
    assert r5.count == |p| == r5.length && r5.state == ParsePayload;
    assert [next] == [next] + [];
    RunCons(r5, next, []);
    RunAppend(r, Frame(msgType, msgId, p), [next]);
  }

  // ---------------------------------------------------------------------
  // Message handling
  // ---------------------------------------------------------------------

  /** A callback invocation the CPU side makes. */
  datatype Callback =
    | ParamValue(moduleId: nat, paramIndex: nat, value: nat)
    | PortState(portF: nat, portG: nat, portH: nat)

  /**
   * The parameter value as written: bytes 7 and 6 shifted into the top
   * half, and byte 4 OR-ed with byte `5 << 8` (index 1280), unshifted, in
   * the bottom byte.  The shifted terms occupy bits no other term touches,
   * so for them the OR is a sum; the two unshifted bytes share bits 0-7 and
   * are OR-ed bit by bit.  `None` when index 1280 is outside the buffer,
   * which for the 255-byte receive buffer is always.
   */
  function ParamValueAsWritten(payload: seq<Byte>): (r: Option<nat>)
    requires |payload| >= 8
    ensures r.Some? <==> 5 * 0x100 < |payload|
    ensures r.Some? ==> r.value < TWO_32
    ensures r.Some? ==> r.value / 0x1_0000 == payload[6] as int + 0x100 * (payload[7] as int)
    ensures r.Some? ==> r.value / 0x100 % 0x100 == 0
  {
    if 5 * 0x100 < |payload| then
      var low := ((payload[5 * 0x100] as bv8) | (payload[4] as bv8)) as int;
      var high := payload[6] as int + 0x100 * (payload[7] as int);
      DivUnique(high * 0x1_0000 + low, 0x1_0000, high, low);
      DivUnique(high * 0x1_0000 + low, 0x100, high * 0x100, low);
      DivUnique(high * 0x100, 0x100, high, 0);
      Some((payload[7] as int) * 0x100_0000 + (payload[6] as int) * 0x1_0000 + low)
    else None
  }

  /** As written, the parameter value is read from outside the receive buffer, whatever it holds. */
  lemma ParamValueReadsOutOfBounds(payload: seq<Byte>)
    requires |payload| == PAYLOAD_SIZE
    ensures ParamValueAsWritten(payload) == None
  {
  }

  /** The parameter value the handler evidently means: bytes 4..7 little-endian. */
  function ParamValueOf(payload: seq<Byte>): (v: nat)
    requires |payload| >= 8
    ensures v < TWO_32
    ensures v % 0x1_0000 == payload[4] as int + 0x100 * (payload[5] as int)
  {
    LittleEndianWord(payload, 4);
    var low := payload[4] as int + 0x100 * (payload[5] as int);
    DivUnique(LittleEndian(payload[4..8]), 0x1_0000, payload[6] as int + 0x100 * (payload[7] as int), low);
    LittleEndian(payload[4..8])
  }

  /** Decoding a set-param payload recovers the value's 32-bit pattern. */
  lemma ParamValueOfSetPayload(moduleId: nat, paramIndex: nat, value: int)
    requires moduleId < 0x1_0000 && paramIndex < 0x1_0000
    ensures ParamValueOf(SetParamPayload(moduleId, paramIndex, value)) == U32(value)
  {
  }

  /**
   * `_handle_message`, with the value decoded as `ParamValueOf`: the
   * callbacks made, and whether the handler reports success (which
   * retires one pending response).  Only PARAM_VALUE and PORT_STATE are
   * handled; the callback runs only when one is registered.
   */
  function Handle(m: Message, paramValueCallback: bool, portStateCallback: bool): (r: (seq<Callback>, bool))
    requires |m.payload| == PAYLOAD_SIZE
    ensures r.1 <==> (m.msgType == MSG_TYPE_MODULE && m.msgId == MODULE_PARAM_VALUE)
                     || (m.msgType == MSG_TYPE_SYSTEM && m.msgId == SYSTEM_PORT_STATE)
    ensures |r.0| <= 1 && (|r.0| == 1 ==> r.1)
  {
    var p := m.payload;
    if m.msgType == MSG_TYPE_MODULE && m.msgId == MODULE_PARAM_VALUE then
      (if paramValueCallback
       then [ParamValue(LittleEndian(p[0..2]), LittleEndian(p[2..4]), ParamValueOf(p))]
       else [], true)
    else if m.msgType == MSG_TYPE_SYSTEM && m.msgId == SYSTEM_PORT_STATE then
      (if portStateCallback
       then [PortState(LittleEndian(p[0..2]), LittleEndian(p[2..4]), LittleEndian(p[4..6]))]
       else [], true)
    else ([], false)
  }

  /** `_dsp_response_required`: `uint32_t` increment. */
  function Requested(pending: nat): (r: nat)
    requires pending < TWO_32
    ensures r < TWO_32 && (pending + 1 < TWO_32 ==> r == pending + 1)
  {
    (pending + 1) % TWO_32
  }

  /** `_dsp_response_received`: decrement, but never below zero. */
  function Received(pending: nat): (r: nat)
    ensures pending > 0 ==> r == pending - 1
    ensures pending == 0 ==> r == 0
  {
    if pending > 0 then pending - 1 else pending
  }

  /** Each request followed by its response leaves the count where it was. */
  lemma RequestThenResponse(pending: nat)
    requires pending + 1 < TWO_32
    ensures Received(Requested(pending)) == pending
  {
  }

  /** A little-endian 16-bit field at `i`, assembled as the handler does. */
  function Word16(p: seq<Byte>, i: nat): (w: nat)
    requires i + 2 <= |p|
    ensures w == LittleEndian(p[i..i + 2])
  {
    LittleEndianTwo(p[i..i + 2]);
    p[i] as int + 0x100 * (p[i + 1] as int)
  }

  /** The parameter value assembled from bytes 4..7, as `ParamValueOf` specifies it. */
  method ParamValueBytes(p: seq<Byte>) returns (v: nat)
    requires |p| >= 8
    ensures v == ParamValueOf(p)
  {
    LittleEndianFour(p, 4);
    v := p[4] as int + 0x100 * (p[5] as int) + 0x1_0000 * (p[6] as int) + 0x100_0000 * (p[7] as int);
  }

  /** The CPU's link state, updated in place. */
  class DspLink {
    var state: ParseState
    var msgType: Byte
    var msgId: Byte
    var length: Byte
    const payload: array<Byte>
    var count: nat
    var pending: nat
    var paramValueCallback: bool
    var portStateCallback: bool
    var tx: seq<Byte>
    var calls: seq<Callback>

    predicate Valid()
      reads this
    {
      payload.Length == PAYLOAD_SIZE && pending < TWO_32
      && (state != ParsePayload ==> count == 0)
      && (state == ParsePayload ==> count <= length)
    }

    ghost function RxState(): Rx
      reads this, payload
    {
      Rx(state, msgType, msgId, length, payload[..], count)
    }

    constructor ()
      ensures Valid() && RxState() == InitialRx()
      ensures pending == 0 && tx == [] && calls == [] && !paramValueCallback && !portStateCallback
    {
      state := ParseStart;
      msgType, msgId, length := 0, 0, 0;
      payload := new Byte[PAYLOAD_SIZE](_ => 0);
      count := 0;
      pending := 0;
      paramValueCallback, portStateCallback := false, false;
      tx, calls := [], [];
      new;
      assert payload[..] == InitialRx().payload;
    }

    /** `_transmit_message`: the four header bytes, then `length` payload bytes in order. */
    method TransmitMessage(msgType: Byte, msgId: Byte, data: array?<Byte>, length: Byte)
      requires data == null ==> length == 0
      requires data != null ==> length <= data.Length
      modifies this
      ensures tx == old(tx) + Frame(msgType, msgId, if data == null then [] else data[..length])
      ensures unchanged(this`state, this`msgType, this`msgId, this`length, this`count)
      ensures pending == old(pending) && calls == old(calls)
      ensures paramValueCallback == old(paramValueCallback) && portStateCallback == old(portStateCallback)
    {
      ghost var sent := if data == null then [] else data[..length];
      tx := tx + [MSG_START, msgType, msgId, length];
      var i: nat := 0;
      while i < length
        invariant i <= length
        invariant tx == old(tx) + [MSG_START, msgType, msgId, length] + sent[..i]
        invariant unchanged(this`state, this`msgType, this`msgId, this`length, this`count)
        invariant unchanged(this`pending, this`calls, this`paramValueCallback, this`portStateCallback)
      {
        tx := tx + [data[i]];
        i := i + 1;
      }
      assert sent[..length] == sent;
    }

    /** `svc_dsp_set_module_param`: no response is expected. */
    method SetModuleParam(moduleId: nat, paramIndex: nat, value: int)
      requires moduleId < 0x1_0000 && paramIndex < 0x1_0000
      modifies this
      ensures tx == old(tx) + Frame(MSG_TYPE_MODULE, MODULE_SET_PARAM_VALUE, SetParamPayload(moduleId, paramIndex, value))
      ensures pending == old(pending) && calls == old(calls)
      ensures unchanged(this`state, this`count)
    {
      var p := SetParamBytes(moduleId, paramIndex, value);
      TransmitMessage(MSG_TYPE_MODULE, MODULE_SET_PARAM_VALUE, p, 8);
    }

    /** The buffer `svc_dsp_set_module_param` fills: module id, index and value, little-endian. */
    static method SetParamBytes(moduleId: nat, paramIndex: nat, value: int) returns (p: array<Byte>)
      requires moduleId < 0x1_0000 && paramIndex < 0x1_0000
      ensures fresh(p) && p[..] == SetParamPayload(moduleId, paramIndex, value)
    {
      var v := U32(value);
      p := new Byte[8];
      p[0], p[1] := moduleId % 0x100, (moduleId / 0x100) % 0x100;
      p[2], p[3] := paramIndex % 0x100, (paramIndex / 0x100) % 0x100;
      p[4], p[5] := v % 0x100, (v / 0x100) % 0x100;
      p[6], p[7] := (v / 0x1_0000) % 0x100, (v / 0x100_0000) % 0x100;
      ghost var m, i, w := LittleEndianBytes(moduleId, 2), LittleEndianBytes(paramIndex, 2), LittleEndianBytes(v, 4);
      assert SetParamPayload(moduleId, paramIndex, value) == m + i + w;
      LittleEndianBytesTwo(moduleId);
      LittleEndianBytesTwo(paramIndex);
      LittleEndianBytesFour(v);
      assert p[..] == m + i + w;
    }

    /** `svc_dsp_get_module_param`: one more response expected, then the request. */
    method GetModuleParam(moduleId: Byte, paramIndex: nat)
      requires Valid() && paramIndex < 0x1_0000
      modifies this
      ensures Valid()
      ensures pending == Requested(old(pending))
      ensures tx == old(tx) + Frame(MSG_TYPE_MODULE, MODULE_GET_PARAM_VALUE, GetParamPayload(moduleId, paramIndex))
      ensures calls == old(calls) && unchanged(this`state, this`count)
    {
      pending := (pending + 1) % TWO_32;
      var p := new Byte[4];
      p[0], p[1] := moduleId % 0x100, (moduleId / 0x100) % 0x100;
      p[2], p[3] := paramIndex % 0x100, (paramIndex / 0x100) % 0x100;
      LittleEndianBytesTwo(moduleId);
      LittleEndianBytesTwo(paramIndex);
      assert p[..] == GetParamPayload(moduleId, paramIndex);
      TransmitMessage(MSG_TYPE_MODULE, MODULE_GET_PARAM_VALUE, p, 4);
    }

    /** `svc_dsp_get_port_state`: one more response expected, then an empty request. */
    method GetPortState()
      requires Valid()
      modifies this
      ensures Valid()
      ensures pending == Requested(old(pending))
      ensures tx == old(tx) + Frame(MSG_TYPE_SYSTEM, SYSTEM_GET_PORT_STATE, [])
      ensures calls == old(calls) && unchanged(this`state, this`count)
    {
      pending := (pending + 1) % TWO_32;
      TransmitMessage(MSG_TYPE_SYSTEM, SYSTEM_GET_PORT_STATE, null, 0);
    }

    /**
     * `svc_dsp_register_callback`: only module PARAM_VALUE and system
     * PORT_STATE have a slot; `present` is false for NULL, which
     * clears the slot.
     */
    method RegisterCallback(msgType: Byte, msgId: Byte, present: bool)
      modifies this
      ensures paramValueCallback ==
        if msgType == MSG_TYPE_MODULE && msgId == MODULE_PARAM_VALUE then present else old(paramValueCallback)
      ensures portStateCallback ==
        if msgType == MSG_TYPE_SYSTEM && msgId == SYSTEM_PORT_STATE then present else old(portStateCallback)
      ensures unchanged(this`state, this`count, this`pending, this`tx, this`calls)
    {
      if msgType == MSG_TYPE_MODULE {
        if msgId == MODULE_PARAM_VALUE {
          paramValueCallback := present;
        }
      } else if msgType == MSG_TYPE_SYSTEM {
        if msgId == SYSTEM_PORT_STATE {
          portStateCallback := present;
        }
      }
    }

    /** `_handle_message` on the current statics. */
    method HandleMessage()
      requires Valid()
      modifies this
      ensures Valid()
      ensures var (cs, ok) := Handle(Message(msgType, msgId, length, payload[..]), paramValueCallback, portStateCallback);
        calls == old(calls) + cs && pending == (if ok then Received(old(pending)) else old(pending))
      ensures unchanged(this`state, this`msgType, this`msgId, this`length, this`count, this`tx)
      ensures unchanged(this`paramValueCallback, this`portStateCallback)
    {
      var p := payload[..];
      var ok := false;
      if msgType == MSG_TYPE_MODULE {
        if msgId == MODULE_PARAM_VALUE {
          if paramValueCallback {
            var value := ParamValueBytes(p);
            calls := calls + [ParamValue(Word16(p, 0), Word16(p, 2), value)];
          }
          ok := true;
        }
      } else if msgType == MSG_TYPE_SYSTEM {
        if msgId == SYSTEM_PORT_STATE {
          if portStateCallback {
            calls := calls + [PortState(Word16(p, 0), Word16(p, 2), Word16(p, 4))];
          }
          ok := true;
        }
      }
      if ok && pending > 0 {
        pending := pending - 1;
      }
    }

    /** `_dsp_receive`: one byte from the DSP. */
    method Receive(b: Byte)
      requires Valid()
      modifies this, payload
      ensures Valid()
      ensures RxState() == Step(old(RxState()), b).0
      ensures var m := Step(old(RxState()), b).1;
        if m.None? then calls == old(calls) && pending == old(pending)
        else
          var (cs, ok) := Handle(m.value, paramValueCallback, portStateCallback);
          calls == old(calls) + cs && pending == (if ok then Received(old(pending)) else old(pending))
      ensures tx == old(tx)
      ensures unchanged(this`paramValueCallback, this`portStateCallback)
    {
      match state
      case ParseStart =>
        if b == MSG_START {
          state := ParseMsgType;
        }
      case ParseMsgType =>
        msgType := b;
        state := ParseMsgId;
      case ParseMsgId =>
        msgId := b;
        state := ParsePayloadLength;
      case ParsePayloadLength =>
        length := b;
        state := ParsePayload;
      case ParsePayload =>
        if count < length {
          payload[count] := b;
          count := count + 1;
        } else {
          count := 0;
          HandleMessage();
          state := ParseStart;
        }
    }

    /**
     * The running state of `svc_dsp_task`: a received byte is parsed;
     * with none waiting, the DSP is polled only while responses are
     * pending.
     */
    method Service(received: Option<Byte>) returns (polled: bool)
      requires Valid()
      modifies this, payload
      ensures Valid()
      ensures polled <==> received.None? && old(pending) > 0
      ensures received.None? ==> RxState() == old(RxState()) && pending == old(pending) && calls == old(calls)
      ensures received.Some? ==> RxState() == Step(old(RxState()), received.value).0
    {
      polled := false;
      if received.Some? {
        Receive(received.value);
      } else if pending > 0 {
        polled := true;
      }
    }
  }
}
