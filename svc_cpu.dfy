/**
 * The DSP's side of the CPU-DSP link (`svc_cpu.c`): the same framing as
 * the CPU side, but a message is handled as soon as its last payload byte
 * arrives, and requests are answered with responses built in place.
 *
 * The module and GPIO queries the handlers make (`module_get_param`,
 * `module_get_param_name`, `per_gpio_get_port`) are foreign code and
 * become the environment `Env`; `module_set_param` calls are recorded.
 */
module CpuService {
  import opened Common
  import DspService

  /** `e_module_msg_id` as the DSP declares it. */
  const MODULE_GET_PARAM_VALUE: Byte := 0
  const MODULE_SET_PARAM_VALUE: Byte := 1
  const MODULE_PARAM_VALUE: Byte := 2
  const MODULE_GET_PARAM_NAME: Byte := 3
  const MODULE_PARAM_NAME: Byte := 4

  /** `e_system_msg_id` as the DSP declares it. */
  const SYSTEM_CHECK_READY: Byte := 0
  const SYSTEM_READY: Byte := 1
  const SYSTEM_GET_PORT_STATE: Byte := 2
  const SYSTEM_SET_PORT_STATE: Byte := 3
  const SYSTEM_PORT_STATE: Byte := 4

  /** The name buffer the handler passes to `module_get_param_name`. */
  const MAX_PARAM_NAME_LENGTH: nat := 16

  /** A NUL-terminated name that fits the name buffer, without its terminator. */
  predicate CString(s: seq<Byte>) {
    |s| < MAX_PARAM_NAME_LENGTH && 0 !in s
  }

  /** What the foreign queries answer. */
  datatype Env = Env(getParam: nat -> int, getParamName: nat -> seq<Byte>, portF: nat, portG: nat, portH: nat)

  /** Ports are 16-bit, and every parameter index names a string that fits the buffer. */
  ghost predicate ValidEnv(env: Env) {
    env.portF < 0x1_0000 && env.portG < 0x1_0000 && env.portH < 0x1_0000
    && forall i :: 0 <= i < 0x1_0000 ==> CString(env.getParamName(i))
  }

  /** A recorded `module_set_param(index, value)` call. */
  datatype SetParam = SetParam(paramIndex: nat, value: int)

  // ---------------------------------------------------------------------
  // Responses
  // ---------------------------------------------------------------------

  /** `_respond_module_param_value`: module id, index, and only the low 16 bits of the value. */
  function ParamValueResponse(moduleId: nat, paramIndex: nat, value: int): (p: seq<Byte>)
    requires moduleId < 0x1_0000 && paramIndex < 0x1_0000
    ensures |p| == 6
    ensures LittleEndian(p[0..2]) == moduleId && LittleEndian(p[2..4]) == paramIndex
    ensures LittleEndian(p[4..6]) == U32(value) % 0x1_0000
  {
    assert Pow2(16) == 0x1_0000 by { Pow2Add(8, 8); Pow2Add(4, 4); Pow2Add(2, 2); Pow2Add(1, 1); }
    LittleEndianRoundTrip(moduleId, 2);
    LittleEndianRoundTrip(paramIndex, 2);
    LittleEndianRoundTrip(U32(value) % 0x1_0000, 2);
    var p := LittleEndianBytes(moduleId, 2) + LittleEndianBytes(paramIndex, 2) + LittleEndianBytes(U32(value) % 0x1_0000, 2);
    assert p[0..2] == LittleEndianBytes(moduleId, 2) && p[2..4] == LittleEndianBytes(paramIndex, 2);
    assert p[4..6] == LittleEndianBytes(U32(value) % 0x1_0000, 2);
    p
  }

  /** `_respond_module_param_name`: module id, index, the name and a NUL, `strlen + 5` bytes. */
  function ParamNameResponse(moduleId: nat, paramIndex: nat, name: seq<Byte>): (p: seq<Byte>)
    requires moduleId < 0x1_0000 && paramIndex < 0x1_0000
    ensures |p| == |name| + 5 && p[|p| - 1] == 0 && p[4..4 + |name|] == name
    ensures LittleEndian(p[0..2]) == moduleId && LittleEndian(p[2..4]) == paramIndex
  {
    assert Pow2(16) == 0x1_0000 by { Pow2Add(8, 8); Pow2Add(4, 4); Pow2Add(2, 2); Pow2Add(1, 1); }
    LittleEndianRoundTrip(moduleId, 2);
    LittleEndianRoundTrip(paramIndex, 2);
    var p := LittleEndianBytes(moduleId, 2) + LittleEndianBytes(paramIndex, 2) + name + [0];
    assert p[0..2] == LittleEndianBytes(moduleId, 2) && p[2..4] == LittleEndianBytes(paramIndex, 2);
    assert p[4..4 + |name|] == name;
    p
  }

  /** `_respond_system_port_state`: three little-endian 16-bit port words. */
  function PortStateResponse(portF: nat, portG: nat, portH: nat): (p: seq<Byte>)
    requires portF < 0x1_0000 && portG < 0x1_0000 && portH < 0x1_0000
    ensures |p| == 6
    ensures LittleEndian(p[0..2]) == portF && LittleEndian(p[2..4]) == portG && LittleEndian(p[4..6]) == portH
  {
    assert Pow2(16) == 0x1_0000 by { Pow2Add(8, 8); Pow2Add(4, 4); Pow2Add(2, 2); Pow2Add(1, 1); }
    LittleEndianRoundTrip(portF, 2);
    LittleEndianRoundTrip(portG, 2);
    LittleEndianRoundTrip(portH, 2);
    var p := LittleEndianBytes(portF, 2) + LittleEndianBytes(portG, 2) + LittleEndianBytes(portH, 2);
    assert p[0..2] == LittleEndianBytes(portF, 2) && p[2..4] == LittleEndianBytes(portG, 2);
    assert p[4..6] == LittleEndianBytes(portH, 2);
    p
  }

  // ---------------------------------------------------------------------
  // The receive state machine
  // ---------------------------------------------------------------------

  /**
   * `_cpu_receive`: one byte.  In the payload state the byte is stored if
   * fewer than `length` have arrived, and then, once `length` have, the
   * message is handled at once.  A zero-length message is therefore
   * handled on the byte after its header, which it consumes.
   */
  function Step(r: DspService.Rx, b: Byte): (res: (DspService.Rx, Option<DspService.Message>))
    requires DspService.ValidRx(r)
    ensures DspService.ValidRx(res.0)
    ensures res.1.Some? <==> r.state == DspService.ParsePayload && r.count + 1 >= r.length
    ensures res.1.Some? ==>
      res.0.state == DspService.ParseStart && res.1.value.payload == res.0.payload
      && res.1.value == DspService.Message(r.msgType, r.msgId, r.length, res.1.value.payload)
  {
    match r.state
    case ParseStart => (if b == DspService.MSG_START then r.(state := DspService.ParseMsgType) else r, None)
    case ParseMsgType => (r.(msgType := b, state := DspService.ParseMsgId), None)
    case ParseMsgId => (r.(msgId := b, state := DspService.ParsePayloadLength), None)
    case ParsePayloadLength => (r.(length := b, state := DspService.ParsePayload), None)
    case ParsePayload =>
      var r1 := if r.count < r.length then r.(payload := r.payload[r.count := b], count := r.count + 1) else r;
      if r1.count >= r1.length then
        (r1.(count := 0, state := DspService.ParseStart), Some(DspService.Message(r.msgType, r.msgId, r.length, r1.payload)))
      else (r1, None)
  }

  function Run(r: DspService.Rx, bs: seq<Byte>): (res: (DspService.Rx, seq<DspService.Message>))
    requires DspService.ValidRx(r)
    ensures DspService.ValidRx(res.0)
    ensures forall m :: m in res.1 ==> |m.payload| == DspService.PAYLOAD_SIZE
    decreases |bs|
  {
    if bs == [] then (r, [])
    else
      var (r1, m) := Step(r, bs[0]);
      var (r2, ms) := Run(r1, bs[1..]);
      (r2, (if m.Some? then [m.value] else []) + ms)
  }

  lemma RunCons(r: DspService.Rx, b: Byte, rest: seq<Byte>)
    requires DspService.ValidRx(r)
    ensures var (r1, m) := Step(r, b);
      Run(r, [b] + rest) == (Run(r1, rest).0, (if m.Some? then [m.value] else []) + Run(r1, rest).1)
  {
    assert ([b] + rest)[1..] == rest;
  }

  lemma {:induction false} RunAppend(r: DspService.Rx, xs: seq<Byte>, ys: seq<Byte>)
    requires DspService.ValidRx(r)
    ensures Run(r, xs + ys).0 == Run(Run(r, xs).0, ys).0
    ensures Run(r, xs + ys).1 == Run(r, xs).1 + Run(Run(r, xs).0, ys).1
    decreases |xs|
  {
    if xs == [] {
      assert xs + ys == ys;
    } else {
      assert (xs + ys)[1..] == xs[1..] + ys;
      RunAppend(Step(r, xs[0]).0, xs[1..], ys);
    }
  }

  /** The header of a frame, from the start state, leaves the parser at the payload with nothing handled. */
  lemma HeaderRead(r: DspService.Rx, msgType: Byte, msgId: Byte, length: Byte)
    requires DspService.ValidRx(r) && r.state == DspService.ParseStart
    ensures Run(r, [DspService.MSG_START, msgType, msgId, length])
      == (r.(state := DspService.ParsePayload, msgType := msgType, msgId := msgId, length := length), [])
  {
    var r1 := r.(state := DspService.ParseMsgType);
    var r2 := r1.(msgType := msgType, state := DspService.ParseMsgId);
    var r3 := r2.(msgId := msgId, state := DspService.ParsePayloadLength);
    RunCons(r3, length, []);
    RunCons(r2, msgId, [length]);
    RunCons(r1, msgType, [msgId, length]);
    RunCons(r, DspService.MSG_START, [msgType, msgId, length]);
  }

  /** All but the last payload byte are stored in order, and nothing is handled. */
  lemma {:induction false} PayloadStored(r: DspService.Rx, p: seq<Byte>)
    requires DspService.ValidRx(r) && r.state == DspService.ParsePayload && r.count + |p| < r.length
    ensures Run(r, p).0 == r.(count := r.count + |p|, payload := Run(r, p).0.payload)
    ensures Run(r, p).0.payload[..r.count + |p|] == r.payload[..r.count] + p
    ensures Run(r, p).1 == []
    decreases |p|
  {
    if p != [] {
      var r1 := r.(payload := r.payload[r.count := p[0]], count := r.count + 1);
      assert Step(r, p[0]) == (r1, None);
      assert r1.payload[..r1.count] == r.payload[..r.count] + [p[0]];
      PayloadStored(r1, p[1..]);
      assert Run(r, p).0 == Run(r1, p[1..]).0 && Run(r, p).1 == [] + Run(r1, p[1..]).1;
      assert r.payload[..r.count] + [p[0]] + p[1..] == r.payload[..r.count] + p;
    }
  }

  /** A frame with a payload is handled on its last byte, with the payload at the head of the buffer. */
  lemma FrameHandledOnLastByte(r: DspService.Rx, msgType: Byte, msgId: Byte, p: seq<Byte>)
    requires DspService.ValidRx(r) && r.state == DspService.ParseStart && 0 < |p| < 0x100
    ensures var (r2, ms) := Run(r, DspService.Frame(msgType, msgId, p));
      r2.state == DspService.ParseStart && |ms| == 1
      && ms[0].msgType == msgType && ms[0].msgId == msgId && ms[0].length == |p|
      && ms[0].payload[..|p|] == p
  {
    var header := [DspService.MSG_START, msgType, msgId, |p| as Byte];
    var init := p[..|p| - 1];
    var last := p[|p| - 1];
    HeaderRead(r, msgType, msgId, |p|);
    var r4 := r.(state := DspService.ParsePayload, msgType := msgType, msgId := msgId, length := |p|);
    PayloadStored(r4, init);
    var r5 := Run(r4, init).0;
    assert r5.count == |p| - 1;
    assert [last] == [last] + [];
    RunCons(r5, last, []);
    var r6 := r5.(payload := r5.payload[|p| - 1 := last], count := |p|);
    assert r6.payload[..|p|] == r5.payload[..|p| - 1] + [last];
    assert init + [last] == p;
    RunAppend(r4, init, [last]);
    assert DspService.Frame(msgType, msgId, p) == header + p;
    RunAppend(r, header, p);
  }

  /** A zero-length frame is not handled until one more byte arrives, which it consumes. */
  lemma EmptyFrameConsumesNextByte(r: DspService.Rx, msgType: Byte, msgId: Byte, next: Byte)
    requires DspService.ValidRx(r) && r.state == DspService.ParseStart
    ensures Run(r, DspService.Frame(msgType, msgId, [])).1 == []
    ensures var (r2, ms) := Run(r, DspService.Frame(msgType, msgId, []) + [next]);
      r2.state == DspService.ParseStart && |ms| == 1 && ms[0].msgType == msgType && ms[0].msgId == msgId
      && ms[0].length == 0 && ms[0].payload == r.payload
  {
    HeaderRead(r, msgType, msgId, 0);
    var r4 := r.(state := DspService.ParsePayload, msgType := msgType, msgId := msgId, length := 0);
    assert DspService.Frame(msgType, msgId, []) == [DspService.MSG_START, msgType, msgId, 0];
    assert [next] == [next] + [];
    RunCons(r4, next, []);
    RunAppend(r, DspService.Frame(msgType, msgId, []), [next]);
  }

  // ---------------------------------------------------------------------
  // Message handling
  // ---------------------------------------------------------------------

  /** The set-param value: bytes 4..7 little-endian, read as `int32_t`. */
  function SetParamValue(payload: seq<Byte>): (v: int)
    requires |payload| >= 8
    ensures -0x8000_0000 <= v < 0x8000_0000
    ensures U32(v) == LittleEndian(payload[4..8])
  {
    Pow2ThirtyTwo();
    ToInt32(LittleEndian(payload[4..8]))
  }

  /**
   * `_handle_message`: the bytes transmitted in response and the
   * `module_set_param` calls made.  CHECK_READY falls through into
   * GET_PORT_STATE; SET_PORT_STATE, the response ids and unknown ids do
   * nothing.
   */
  function Handle(m: DspService.Message, env: Env): (r: (seq<Byte>, seq<SetParam>))
    requires |m.payload| == DspService.PAYLOAD_SIZE && ValidEnv(env)
    ensures |r.1| <= 1
    ensures |r.1| == 1 <==> m.msgType == DspService.MSG_TYPE_MODULE && m.msgId == MODULE_SET_PARAM_VALUE
    ensures r.1 != [] ==> r.0 == []
    ensures m.msgType == DspService.MSG_TYPE_SYSTEM && m.msgId in {SYSTEM_CHECK_READY, SYSTEM_GET_PORT_STATE}
      ==> r.0 == DspService.Frame(DspService.MSG_TYPE_SYSTEM, SYSTEM_PORT_STATE, PortStateResponse(env.portF, env.portG, env.portH))
    ensures r.0 != [] <==>
      (m.msgType == DspService.MSG_TYPE_MODULE && m.msgId in {MODULE_GET_PARAM_VALUE, MODULE_GET_PARAM_NAME})
      || (m.msgType == DspService.MSG_TYPE_SYSTEM && m.msgId in {SYSTEM_CHECK_READY, SYSTEM_GET_PORT_STATE})
  {
    var p := m.payload;
    var moduleId := LittleEndian(p[0..2]);
    var paramIndex := LittleEndian(p[2..4]);
    assert Pow2(16) == 0x1_0000 by { Pow2Add(8, 8); Pow2Add(4, 4); Pow2Add(2, 2); Pow2Add(1, 1); }
    if m.msgType == DspService.MSG_TYPE_MODULE then
      if m.msgId == MODULE_GET_PARAM_VALUE then
        (DspService.Frame(DspService.MSG_TYPE_MODULE, MODULE_PARAM_VALUE,
           ParamValueResponse(moduleId, paramIndex, env.getParam(paramIndex))), [])
      else if m.msgId == MODULE_SET_PARAM_VALUE then
        ([], [SetParam(paramIndex, SetParamValue(p))])
      else if m.msgId == MODULE_GET_PARAM_NAME then
        var name := env.getParamName(paramIndex);
        assert CString(name);
        (DspService.Frame(DspService.MSG_TYPE_MODULE, MODULE_PARAM_NAME, ParamNameResponse(moduleId, paramIndex, name)), [])
      else ([], [])
    else if m.msgType == DspService.MSG_TYPE_SYSTEM then
      if m.msgId == SYSTEM_CHECK_READY || m.msgId == SYSTEM_GET_PORT_STATE then
        (DspService.Frame(DspService.MSG_TYPE_SYSTEM, SYSTEM_PORT_STATE, PortStateResponse(env.portF, env.portG, env.portH)), [])
      else ([], [])
    else ([], [])
  }

  // ---------------------------------------------------------------------
  // Both sides together
  // ---------------------------------------------------------------------

  /** Two `int32_t` values with the same 32-bit pattern are equal. */
  lemma Int32Unique(a: int, b: int)
    requires -0x8000_0000 <= a < 0x8000_0000 && -0x8000_0000 <= b < 0x8000_0000
    requires U32(a) == U32(b)
    ensures a == b
  {
    assert (a - b) % TWO_32 == 0 by {
      assert (U32(a) - a) % TWO_32 == 0 && (U32(b) - b) % TWO_32 == 0;
      assert a - b == (U32(b) - b) - (U32(a) - a);
    }
  }

  /**
   * A set-param request the CPU builds reaches `module_set_param` with the
   * index and, for any `int32_t` value, the value unchanged.
   */
  lemma SetParamDelivered(moduleId: nat, paramIndex: nat, value: int, buffer: seq<Byte>, env: Env)
    requires moduleId < 0x1_0000 && paramIndex < 0x1_0000 && -0x8000_0000 <= value < 0x8000_0000
    requires |buffer| == DspService.PAYLOAD_SIZE && ValidEnv(env)
    requires buffer[..8] == DspService.SetParamPayload(moduleId, paramIndex, value)
    ensures Handle(DspService.Message(DspService.MSG_TYPE_MODULE, DspService.MODULE_SET_PARAM_VALUE, 8, buffer), env)
      == ([], [SetParam(paramIndex, value)])
  {
    var q := DspService.SetParamPayload(moduleId, paramIndex, value);
    assert buffer[2..4] == q[2..4] && buffer[4..8] == q[4..8];
    Int32Unique(SetParamValue(buffer), value);
  }

  /**
   * The CPU's port-state request (system id 0) is read by the DSP as
   * CHECK_READY, which it answers with a port-state response under id 4;
   * the CPU expects port state under id 2, so it neither reports the
   * ports nor counts the response as received.
   */
  lemma PortStateReplyUnrecognised(buffer: seq<Byte>, env: Env, cpuBuffer: seq<Byte>, paramCb: bool, portCb: bool)
    requires |buffer| == DspService.PAYLOAD_SIZE && |cpuBuffer| == DspService.PAYLOAD_SIZE && ValidEnv(env)
    ensures var reply := Handle(DspService.Message(DspService.MSG_TYPE_SYSTEM, DspService.SYSTEM_GET_PORT_STATE, 0, buffer), env).0;
      reply == DspService.Frame(DspService.MSG_TYPE_SYSTEM, SYSTEM_PORT_STATE, PortStateResponse(env.portF, env.portG, env.portH))
      && reply[2] != DspService.SYSTEM_PORT_STATE
      && DspService.Handle(DspService.Message(reply[1], reply[2], reply[3], cpuBuffer), paramCb, portCb) == ([], false)
  {
  }

  /**
   * The DSP's answer to a parameter request carries the module id and
   * index, but the CPU recovers only the low 16 bits of the value; the top
   * two bytes it reads are whatever its buffer held before.
   */
  lemma ParamValueLowBitsDelivered(moduleId: nat, paramIndex: nat, buffer: seq<Byte>, env: Env, cpuBuffer: seq<Byte>)
    requires moduleId < 0x1_0000 && paramIndex < 0x1_0000
    requires |buffer| == DspService.PAYLOAD_SIZE && ValidEnv(env)
    requires buffer[..4] == DspService.GetParamPayload(moduleId % 0x100, paramIndex) && moduleId < 0x100
    requires |cpuBuffer| == DspService.PAYLOAD_SIZE
    requires cpuBuffer[..6] == ParamValueResponse(moduleId, paramIndex, env.getParam(paramIndex))
    ensures var reply := Handle(DspService.Message(DspService.MSG_TYPE_MODULE, MODULE_GET_PARAM_VALUE, 4, buffer), env).0;
      reply == DspService.Frame(DspService.MSG_TYPE_MODULE, MODULE_PARAM_VALUE, cpuBuffer[..6])
      && DspService.Handle(DspService.Message(reply[1], reply[2], reply[3], cpuBuffer), true, false)
         == ([DspService.ParamValue(moduleId, paramIndex, DspService.ParamValueOf(cpuBuffer))], true)
      && DspService.ParamValueOf(cpuBuffer) % 0x1_0000 == U32(env.getParam(paramIndex)) % 0x1_0000
  {
    var resp := ParamValueResponse(moduleId, paramIndex, env.getParam(paramIndex));
    ParamValueRequestAnswered(moduleId, paramIndex, buffer, env);
    assert cpuBuffer[..6] == resp;
    var reply := DspService.Frame(DspService.MSG_TYPE_MODULE, MODULE_PARAM_VALUE, cpuBuffer[..6]);
    assert reply[1] == DspService.MSG_TYPE_MODULE && reply[2] == MODULE_PARAM_VALUE && reply[3] == 6;
    ParamValueResponseRead(moduleId, paramIndex, env.getParam(paramIndex), cpuBuffer);
  }

  /** The CPU answers a get-param request with the value response for the requested module and index. */
  lemma ParamValueRequestAnswered(moduleId: nat, paramIndex: nat, buffer: seq<Byte>, env: Env)
    requires moduleId < 0x100 && paramIndex < 0x1_0000
    requires |buffer| == DspService.PAYLOAD_SIZE && ValidEnv(env)
    requires buffer[..4] == DspService.GetParamPayload(moduleId, paramIndex)
    ensures Handle(DspService.Message(DspService.MSG_TYPE_MODULE, MODULE_GET_PARAM_VALUE, 4, buffer), env).0
      == DspService.Frame(DspService.MSG_TYPE_MODULE, MODULE_PARAM_VALUE, ParamValueResponse(moduleId, paramIndex, env.getParam(paramIndex)))
  {
    var q := DspService.GetParamPayload(moduleId, paramIndex);
    assert buffer[0..2] == q[0..2] && buffer[2..4] == q[2..4];
  }

  /** The DSP reads module id and index back from a value response, and the low 16 bits of the value. */
  lemma ParamValueResponseRead(moduleId: nat, paramIndex: nat, value: int, cpuBuffer: seq<Byte>)
    requires moduleId < 0x1_0000 && paramIndex < 0x1_0000
    requires |cpuBuffer| == DspService.PAYLOAD_SIZE
    requires cpuBuffer[..6] == ParamValueResponse(moduleId, paramIndex, value)
    ensures DspService.Handle(DspService.Message(DspService.MSG_TYPE_MODULE, MODULE_PARAM_VALUE, 6, cpuBuffer), true, false)
         == ([DspService.ParamValue(moduleId, paramIndex, DspService.ParamValueOf(cpuBuffer))], true)
    ensures DspService.ParamValueOf(cpuBuffer) % 0x1_0000 == U32(value) % 0x1_0000
  {
    var resp := ParamValueResponse(moduleId, paramIndex, value);
    assert cpuBuffer[0..2] == resp[0..2] && cpuBuffer[2..4] == resp[2..4] && cpuBuffer[4..6] == resp[4..6];
    LittleEndianTwo(resp[4..6]);
  }

  /** The DSP's link state, updated in place. */
  class CpuLink {
    var state: DspService.ParseState
    var msgType: Byte
    var msgId: Byte
    var length: Byte
    const payload: array<Byte>
    var count: nat
    var tx: seq<Byte>
    var sets: seq<SetParam>

    predicate Valid()
      reads this
    {
      payload.Length == DspService.PAYLOAD_SIZE
      && (state != DspService.ParsePayload ==> count == 0)
      && (state == DspService.ParsePayload ==> count <= length)
    }

    ghost function RxState(): DspService.Rx
      reads this, payload
    {
      DspService.Rx(state, msgType, msgId, length, payload[..], count)
    }

    constructor ()
      ensures Valid() && RxState() == DspService.InitialRx() && tx == [] && sets == []
    {
      state := DspService.ParseStart;
      msgType, msgId, length := 0, 0, 0;
      payload := new Byte[DspService.PAYLOAD_SIZE](_ => 0);
      count := 0;
      tx, sets := [], [];
      new;
      assert payload[..] == DspService.InitialRx().payload;
    }

    /** `_transmit_message`: the header, then the payload byte by byte. */
    method TransmitMessage(msgType: Byte, msgId: Byte, data: array?<Byte>, length: Byte)
      requires data == null ==> length == 0
      requires data != null ==> length <= data.Length
      modifies this
      ensures tx == old(tx) + DspService.Frame(msgType, msgId, if data == null then [] else data[..length])
      ensures unchanged(this`state, this`msgType, this`msgId, this`length, this`count, this`sets)
    {
      ghost var sent := if data == null then [] else data[..length];
      tx := tx + [DspService.MSG_START, msgType, msgId, length];
      var i: nat := 0;
      while i < length
        invariant i <= length
        invariant tx == old(tx) + [DspService.MSG_START, msgType, msgId, length] + sent[..i]
        invariant unchanged(this`state, this`msgType, this`msgId, this`length, this`count, this`sets)
      {
        tx := tx + [data[i]];
        i := i + 1;
      }
      assert sent[..length] == sent;
    }

    /** `_respond_module_param_value`: the six bytes built in place and sent. */
    method RespondParamValue(moduleId: nat, paramIndex: nat, value: int)
      requires moduleId < 0x1_0000 && paramIndex < 0x1_0000
      modifies this
      ensures tx == old(tx) + DspService.Frame(DspService.MSG_TYPE_MODULE, MODULE_PARAM_VALUE, ParamValueResponse(moduleId, paramIndex, value))
      ensures unchanged(this`state, this`msgType, this`msgId, this`length, this`count, this`sets)
    {
      var low := U32(value) % 0x1_0000;
      var p := new Byte[6];
      p[0], p[1] := moduleId % 0x100, (moduleId / 0x100) % 0x100;
      p[2], p[3] := paramIndex % 0x100, (paramIndex / 0x100) % 0x100;
      p[4], p[5] := low % 0x100, (low / 0x100) % 0x100;
      LittleEndianBytesTwo(moduleId);
      LittleEndianBytesTwo(paramIndex);
      LittleEndianBytesTwo(low);
      assert p[..] == ParamValueResponse(moduleId, paramIndex, value);
      TransmitMessage(DspService.MSG_TYPE_MODULE, MODULE_PARAM_VALUE, p, 6);
    }

    /** `_respond_module_param_name`: header words, the name copied in, a NUL, all sent. */
    method RespondParamName(moduleId: nat, paramIndex: nat, name: seq<Byte>)
      requires moduleId < 0x1_0000 && paramIndex < 0x1_0000 && CString(name)
      modifies this
      ensures tx == old(tx) + DspService.Frame(DspService.MSG_TYPE_MODULE, MODULE_PARAM_NAME, ParamNameResponse(moduleId, paramIndex, name))
      ensures unchanged(this`state, this`msgType, this`msgId, this`length, this`count, this`sets)
    {
      var p := ParamNameBytes(moduleId, paramIndex, name);
      TransmitMessage(DspService.MSG_TYPE_MODULE, MODULE_PARAM_NAME, p, |name| + 5);
    }

    /** The buffer `_respond_module_param_name` fills: header words, the name, a NUL. */
    static method ParamNameBytes(moduleId: nat, paramIndex: nat, name: seq<Byte>) returns (p: array<Byte>)
      requires moduleId < 0x1_0000 && paramIndex < 0x1_0000 && CString(name)
      ensures fresh(p) && p[..] == ParamNameResponse(moduleId, paramIndex, name)
    {
      var n := |name| + 5;
      p := new Byte[n];
      p[0], p[1] := moduleId % 0x100, (moduleId / 0x100) % 0x100;
      p[2], p[3] := paramIndex % 0x100, (paramIndex / 0x100) % 0x100;
      var i := 0;
      while i < |name|
        invariant i <= |name|
        invariant p[0] == moduleId % 0x100 && p[1] == (moduleId / 0x100) % 0x100
        invariant p[2] == paramIndex % 0x100 && p[3] == (paramIndex / 0x100) % 0x100
        invariant forall j :: 0 <= j < i ==> p[4 + j] == name[j]
      {
        p[4 + i] := name[i];
        i := i + 1;
      }
      p[n - 1] := 0;
      LittleEndianBytesTwo(moduleId);
      LittleEndianBytesTwo(paramIndex);
      assert p[4..4 + |name|] == name;
      assert p[..] == ParamNameResponse(moduleId, paramIndex, name);
    }

    /** `_respond_system_port_state`: three words built in place and sent. */
    method RespondPortState(portF: nat, portG: nat, portH: nat)
      requires portF < 0x1_0000 && portG < 0x1_0000 && portH < 0x1_0000
      modifies this
      ensures tx == old(tx) + DspService.Frame(DspService.MSG_TYPE_SYSTEM, SYSTEM_PORT_STATE, PortStateResponse(portF, portG, portH))
      ensures unchanged(this`state, this`msgType, this`msgId, this`length, this`count, this`sets)
    {
      var p := new Byte[6];
      p[0], p[1] := portF % 0x100, (portF / 0x100) % 0x100;
      p[2], p[3] := portG % 0x100, (portG / 0x100) % 0x100;
      p[4], p[5] := portH % 0x100, (portH / 0x100) % 0x100;
      LittleEndianBytesTwo(portF);
      LittleEndianBytesTwo(portG);
      LittleEndianBytesTwo(portH);
      assert p[..] == PortStateResponse(portF, portG, portH);
      TransmitMessage(DspService.MSG_TYPE_SYSTEM, SYSTEM_PORT_STATE, p, 6);
    }

    /** `_handle_module_set_param_value`: the value read as `int32_t`, then recorded. */
    method HandleSetParam(p: seq<Byte>)
      requires |p| >= 8
      modifies this
      ensures sets == old(sets) + [SetParam(LittleEndian(p[2..4]), SetParamValue(p))]
      ensures unchanged(this`state, this`msgType, this`msgId, this`length, this`count, this`tx)
    {
      var paramIndex := DspService.Word16(p, 2);
      var bits := p[4] as int + 0x100 * (p[5] as int) + 0x1_0000 * (p[6] as int) + 0x100_0000 * (p[7] as int);
      LittleEndianFour(p, 4);
      var value := if bits < 0x8000_0000 then bits else bits - TWO_32;
      sets := sets + [SetParam(paramIndex, value)];
    }

    /** `_handle_message` on the current statics. */
    method HandleMessage(env: Env)
      requires Valid() && ValidEnv(env)
      modifies this
      ensures Valid()
      ensures var (out, calls) := Handle(DspService.Message(msgType, msgId, length, payload[..]), env);
        tx == old(tx) + out && sets == old(sets) + calls
      ensures unchanged(this`state, this`msgType, this`msgId, this`length, this`count)
    {
      var p := payload[..];
      assert Pow2(16) == 0x1_0000 by { Pow2Add(8, 8); Pow2Add(4, 4); Pow2Add(2, 2); Pow2Add(1, 1); }
      var moduleId := DspService.Word16(p, 0);
      var paramIndex := DspService.Word16(p, 2);
      if msgType == DspService.MSG_TYPE_MODULE {
        if msgId == MODULE_GET_PARAM_VALUE {
          RespondParamValue(moduleId, paramIndex, env.getParam(paramIndex));
        } else if msgId == MODULE_SET_PARAM_VALUE {
          HandleSetParam(p);
        } else if msgId == MODULE_GET_PARAM_NAME {
          RespondParamName(moduleId, paramIndex, env.getParamName(paramIndex));
        }
      } else if msgType == DspService.MSG_TYPE_SYSTEM {
        if msgId == SYSTEM_CHECK_READY || msgId == SYSTEM_GET_PORT_STATE {
          RespondPortState(env.portF, env.portG, env.portH);
        }
      }
    }

    /** `_cpu_receive`: one byte from the CPU. */
    method Receive(b: Byte, env: Env)
      requires Valid() && ValidEnv(env)
      modifies this, payload
      ensures Valid()
      ensures RxState() == Step(old(RxState()), b).0
      ensures var m := Step(old(RxState()), b).1;
        if m.None? then tx == old(tx) && sets == old(sets)
        else
          var (out, calls) := Handle(m.value, env);
          tx == old(tx) + out && sets == old(sets) + calls
    {
      match state
      case ParseStart =>
        if b == DspService.MSG_START {
          state := DspService.ParseMsgType;
        }
      case ParseMsgType =>
        msgType := b;
        state := DspService.ParseMsgId;
      case ParseMsgId =>
        msgId := b;
        state := DspService.ParsePayloadLength;
      case ParsePayloadLength =>
        length := b;
        state := DspService.ParsePayload;
      case ParsePayload =>
        if count < length {
          payload[count] := b;
          count := count + 1;
        }
        if count >= length {
          count := 0;
          HandleMessage(env);
          state := DspService.ParseStart;
        }
    }
  }
}
