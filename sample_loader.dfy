/**
 * The wave2 app's SysEx callback (`sysex_manager.c`): every five bytes of
 * a received SysEx body are reassembled into one 32-bit sample that is
 * handed to the DSP module as a `SAMPLE_LOAD` parameter.
 */
module SampleLoader {
  import opened Common
  import HexSender

  /** The parameter the callback sets; its numeric index is defined by the wave2 module. */
  datatype ModuleParam = SampleLoad

  /** One `ft_set_module_param(module, param, value)` call. */
  datatype ParamCall = SetModuleParam(moduleId: int, param: ModuleParam, value: int)

  /**
   * The 32-bit pattern of one group: 7, 7, 7, 7 and 4 bits of the five
   * bytes at shifts 0, 7, 14, 21 and 28 (the fields are disjoint, so the
   * source's OR is a sum here).
   */
  function GroupPattern(g: seq<int>): (p: int)
    requires |g| == 5
    ensures 0 <= p < TWO_32
  {
    g[0] % 0x80 + 0x80 * (g[1] % 0x80) + 0x4000 * (g[2] % 0x80)
      + 0x20_0000 * (g[3] % 0x80) + 0x1000_0000 * (g[4] % 0x10)
  }

  /** The `int32_t` the callback reconstructs from one group. */
  function DecodeGroup(g: seq<int>): (v: int)
    requires |g| == 5
    ensures -0x8000_0000 <= v < 0x8000_0000
  {
    ToInt32(GroupPattern(g))
  }

  /**
   * The values passed on for a message of length `|m|`: nothing when the
   * message is shorter than 2 bytes, otherwise one per complete group of
   * five, group i starting at byte 5 i; a trailing partial group is ignored.
   */
  function DecodeMessage(m: seq<Byte>): (vs: seq<int>)
    ensures |m| < 2 ==> vs == []
    ensures |m| >= 2 ==> |vs| == |m| / 5
    ensures forall i :: 0 <= i < |vs| ==> 5 * i + 5 <= |m| && vs[i] == DecodeGroup(m[5 * i .. 5 * i + 5])
  {
    if |m| < 2 then []
    else seq(|m| / 5, i requires 0 <= i < |m| / 5 => DecodeGroup(m[5 * i .. 5 * i + 5]))
  }

  /**
   * `_sysex_callback(msg, length)`: `msg` is `null` or points at the FSM's
   * buffer holding `length` bytes.  The loop runs i = 1 .. length / 5 and
   * reads the group at (i - 1) * 5.
   */
  method SysexCallback(msg: array?<Byte>, length: nat) returns (calls: seq<ParamCall>)
    requires msg != null ==> length <= msg.Length
    ensures msg == null ==> calls == []
    ensures msg != null ==>
      |calls| == |DecodeMessage(msg[..length])|
      && forall i :: 0 <= i < |calls| ==> calls[i] == SetModuleParam(0, SampleLoad, DecodeMessage(msg[..length])[i])
  {
    calls := [];
    if msg == null || length < 2 {
      return;
    }
    ghost var expected := DecodeMessage(msg[..length]);
    var count := length / 5;
    var i := 1;
    while i <= count
      invariant 1 <= i <= count + 1
      invariant |calls| == i - 1
      invariant forall j :: 0 <= j < |calls| ==> calls[j] == SetModuleParam(0, SampleLoad, expected[j])
    {
      var start := (i - 1) * 5;
      var group := msg[start .. start + 5];
      assert group == msg[..length][5 * (i - 1) .. 5 * (i - 1) + 5];
      var value := DecodeGroup(group);
      calls := calls + [SetModuleParam(0, SampleLoad, value)];
      i := i + 1;
    }
  }

  /** The device recovers the low 32 bits of every value the encoder was given. */
  lemma DecodeEncodedGroup(v: int)
    ensures GroupPattern(HexSender.EncodeValue(v)) == U32(v)
    ensures DecodeGroup(HexSender.EncodeValue(v)) == ToInt32(U32(v))
  {
    var g := HexSender.EncodeValue(v);
    HexSender.EncodeValueWeights(v);
    PatternOfDigits(g);
  }

  /** On a group of digits the masks change nothing: the pattern is the group's weight. */
  lemma PatternOfDigits(g: seq<int>)
    requires HexSender.IsDigitGroup(g)
    ensures GroupPattern(g) == HexSender.Weight(g)
  {
    assert g[0] < 0x80 && g[1] < 0x80 && g[2] < 0x80 && g[3] < 0x80;
    DivUnique(g[0], 0x80, 0, g[0]);
    DivUnique(g[1], 0x80, 0, g[1]);
    DivUnique(g[2], 0x80, 0, g[2]);
    DivUnique(g[3], 0x80, 0, g[3]);
    DivUnique(g[4], 0x10, 0, g[4]);
  }

  /** On a well-formed group, encoding what the device decoded gives the group back. */
  lemma EncodeDecodedGroup(g: seq<Byte>)
    requires |g| == 5 && HexSender.IsDigitGroup(g)
    ensures HexSender.EncodeValue(GroupPattern(g)) == g
  {
    var p := GroupPattern(g);
    PatternOfDigits(g);
    var e := HexSender.EncodeValue(p);
    HexSender.EncodeValueWeights(p);
    DivUnique(p, TWO_32, 0, p);
    HexSender.DigitsUnique(e, g);
  }

  /** A payload of encoded values decodes to the values, reduced to int32. */
  lemma DecodeEncodedPayload(vs: seq<int>)
    ensures |DecodeMessage(HexSender.EncodePayload(vs))| == |vs|
    ensures forall i :: 0 <= i < |vs| ==>
      DecodeMessage(HexSender.EncodePayload(vs))[i] == ToInt32(U32(vs[i]))
  {
    var m := HexSender.EncodePayload(vs);
    if |vs| > 0 {
      assert |m| / 5 == |vs|;
      forall i | 0 <= i < |vs|
        ensures DecodeMessage(m)[i] == ToInt32(U32(vs[i]))
      {
        HexSender.EncodePayloadGroup(vs, i);
        DecodeEncodedGroup(vs[i]);
      }
    }
  }

  /**
   * A hex-file sender's body puts the manufacturer id before the groups, so
   * every group the loader reads is shifted by one byte: the first value's
   * low seven bits are the id's, and its top bits come from the first
   * encoded group's fifth byte being left out.
   */
  lemma HexFrameMisaligned(id: Byte, vs: seq<int>)
    requires |vs| > 0
    ensures |DecodeMessage([id] + HexSender.EncodePayload(vs))| == |vs|
    ensures DecodeMessage([id] + HexSender.EncodePayload(vs))[0]
      == DecodeGroup([id] + HexSender.EncodeValue(vs[0])[..4])
    ensures GroupPattern([id] + HexSender.EncodeValue(vs[0])[..4]) % 0x80 == id % 0x80
  {
    var m := [id] + HexSender.EncodePayload(vs);
    var g := [id] + HexSender.EncodeValue(vs[0])[..4];
    HexSender.EncodePayloadGroup(vs, 0);
    assert |m| / 5 == |vs|;
    assert m[0..5] == g;
    GroupPatternLowBits(g);
  }

  /** The low seven bits of a group's pattern are those of its first byte. */
  lemma GroupPatternLowBits(g: seq<int>)
    requires |g| == 5
    ensures GroupPattern(g) % 0x80 == g[0] % 0x80
  {
    var q := (g[1] % 0x80) + 0x80 * (g[2] % 0x80) + 0x4000 * (g[3] % 0x80) + 0x20_0000 * (g[4] % 0x10);
    assert GroupPattern(g) == q * 0x80 + g[0] % 0x80;
    DivUnique(GroupPattern(g), 0x80, q, g[0] % 0x80);
  }

  /** One value 0 sent after the id 0x7D reaches the DSP as 0x7D. */
  lemma HexFrameMisreadExample()
    ensures DecodeMessage([0x7D] + HexSender.EncodePayload([0])) == [0x7D]
  {
    HexFrameMisaligned(0x7D, [0]);
    assert HexSender.EncodeValue(0) == [0, 0, 0, 0, 0];
    assert GroupPattern([0x7D, 0, 0, 0, 0]) == 0x7D;
  }
}
