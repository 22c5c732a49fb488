/**
 * The WAV sender (`sysex_send_wav.py`): a mono 32-bit WAV file is read,
 * every sample is encoded as five 7-bit bytes, and the bytes go out in
 * SysEx messages of 128 samples (640 bytes) each, without a manufacturer
 * byte.
 */
module WavSender {
  import opened Common
  import opened MidiOut
  import HexSender

  const SAMPLES_PER_CHUNK: nat := 128
  const BYTES_PER_CHUNK: nat := SAMPLES_PER_CHUNK * 5

  /** An opened WAV file: its header fields and the raw frame bytes. */
  datatype WavFile = WavFile(channels: int, sampleWidth: int, frames: seq<Byte>)

  predicate IsInt32(s: int)
  {
    -0x8000_0000 <= s < 0x8000_0000
  }

  /** The little-endian `int32` stored in four bytes. */
  function Int32LE(b: seq<Byte>): (s: int)
    requires |b| == 4
    ensures IsInt32(s)
    ensures U32(s) == LittleEndian(b)
  {
    LittleEndianWord(b, 0);
    assert b[0 .. 4] == b;
    ToInt32(b[0] as int + 0x100 * (b[1] as int) + 0x1_0000 * (b[2] as int) + 0x100_0000 * (b[3] as int))
  }

  /**
   * `leer_wav_mono32`: `None` (the script exits with status 1) when the file
   * is missing, is not mono, has a sample width other than 4 bytes, or its
   * frame bytes are not a whole number of samples; otherwise the samples.
   */
  function ReadWavMono32(file: Option<WavFile>): (r: Option<seq<int>>)
    ensures r.Some? <==> file.Some? && file.value.channels == 1 && file.value.sampleWidth == 4
                         && |file.value.frames| % 4 == 0
    ensures r.Some? ==> |r.value| == |file.value.frames| / 4
    ensures r.Some? ==> forall i :: 0 <= i < |r.value| ==>
      4 * i + 4 <= |file.value.frames| && r.value[i] == Int32LE(file.value.frames[4 * i .. 4 * i + 4])
  {
    match file
    case None => None
    case Some(w) =>
      if w.channels != 1 then None
      else if w.sampleWidth != 4 then None
      else if |w.frames| % 4 != 0 then None
      else Some(seq(|w.frames| / 4, i requires 0 <= i < |w.frames| / 4 => Int32LE(w.frames[4 * i .. 4 * i + 4])))
  }

  /**
   * `codificar_muestra_a_sysex`: the five 7-bit bytes of the sample's 32-bit
   * two's-complement pattern (numpy's `>>` on an `int32` is arithmetic).
   */
  function EncodeSample(s: int): (r: seq<Byte>)
    requires IsInt32(s)
    ensures r == HexSender.EncodeValue(U32(s))
    ensures |r| == 5 && SevenBitClean(r) && r[4] < 0x10
  {
    HexSender.EncodeValueLow32(s);
    HexSender.EncodeValue(s)
  }

  /** The `for sample in samples: extend(...)` loop of `main`. */
  method EncodeSamples(samples: seq<int>) returns (data: seq<Byte>)
    requires forall i :: 0 <= i < |samples| ==> IsInt32(samples[i])
    ensures data == HexSender.EncodePayload(samples)
    ensures |data| == 5 * |samples| && SevenBitClean(data)
  {
    data := [];
    var i := 0;
    while i < |samples|
      invariant 0 <= i <= |samples|
      invariant data == HexSender.EncodePayload(samples[..i])
    {
      data := data + EncodeSample(samples[i]);
      assert samples[..i + 1][..i] == samples[..i];
      i := i + 1;
    }
    assert samples[..i] == samples;
  }

  /** The wire bytes of `mido.Message('sysex', data=chunk)`: only F0 and F7 are added. */
  function SysexMessage(chunk: seq<Byte>): (m: seq<Byte>)
    ensures |m| == |chunk| + 2 && m[0] == 0xF0 && m[|m| - 1] == 0xF7 && m[1 .. |m| - 1] == chunk
  {
    [0xF0] + chunk + [0xF7]
  }

  /** The messages `main` sends: one per 640-byte slice of the encoded data. */
  function WavMessages(data: seq<Byte>): (ms: seq<seq<Byte>>)
    ensures |ms| == |Chunks(data, BYTES_PER_CHUNK)|
  {
    var cs := Chunks(data, BYTES_PER_CHUNK);
    seq(|cs|, k requires 0 <= k < |cs| => SysexMessage(cs[k]))
  }

  /** Message k frames slice k. */
  lemma WavMessageAt(data: seq<Byte>, k: nat)
    requires k < |Chunks(data, BYTES_PER_CHUNK)|
    ensures WavMessages(data)[k] == SysexMessage(Chunks(data, BYTES_PER_CHUNK)[k])
  {
  }

  /**
   * ceil(len / 640) messages; message k carries bytes 640 k .. 640 k + 640
   * (clamped), its body is 7-bit clean and holds whole samples except
   * possibly in the last message.
   */
  lemma WavMessagesShape(data: seq<Byte>)
    requires SevenBitClean(data)
    ensures |WavMessages(data)| == CeilDiv(|data|, BYTES_PER_CHUNK)
    ensures forall k :: 0 <= k < |WavMessages(data)| ==>
      && 640 * k < |data|
      && WavMessages(data)[k] == SysexMessage(data[640 * k .. Min(640 * k + 640, |data|)])
      && SevenBitClean(WavMessages(data)[k][1 .. |WavMessages(data)[k]| - 1])
  {
    ChunksCount(data, BYTES_PER_CHUNK);
    forall k | 0 <= k < |WavMessages(data)|
      ensures 640 * k < |data|
      ensures WavMessages(data)[k] == SysexMessage(data[640 * k .. Min(640 * k + 640, |data|)])
    {
      ChunkIsSlice(data, BYTES_PER_CHUNK, k);
      WavMessageAt(data, k);
      assert k * BYTES_PER_CHUNK == 640 * k && (k + 1) * BYTES_PER_CHUNK == 640 * k + 640;
    }
  }

  /** The `for i in range(0, len(data), 640)` loop of `main`. */
  method SendChunks(port: Port, data: seq<Byte>) returns (ok: bool)
    modifies port
    ensures ok == AllAccepted(port.accepts, WavMessages(data))
    ensures port.sent == old(port.sent) + AcceptedPrefix(port.accepts, WavMessages(data))
    ensures port.isOpen == old(port.isOpen)
  {
    ghost var msgs := WavMessages(data);
    ghost var chunks := Chunks(data, BYTES_PER_CHUNK);
    ghost var k := 0;
    var i := 0;
    ok := true;
    while i < |data| && ok
      invariant |msgs| == |chunks|
      invariant 0 <= i <= |data| && 0 <= k <= |chunks|
      invariant chunks[k..] == Chunks(data[i..], BYTES_PER_CHUNK)
      invariant AllAccepted(port.accepts, msgs[..k])
      invariant port.sent == old(port.sent) + msgs[..k]
      invariant !ok ==> k < |msgs| && !port.accepts(msgs[k])
      invariant ok && i == |data| ==> k == |msgs|
      invariant port.isOpen == old(port.isOpen)
      decreases |data| - i, ok
    {
      var end := Min(i + BYTES_PER_CHUNK, |data|);
      ChunksAdvance(data, BYTES_PER_CHUNK, i, chunks, k);
      var message := SysexMessage(data[i..end]);
      assert message == msgs[k] by { WavMessageAt(data, k); }
      ok := port.Send(message);
      if ok {
        AcceptedStep(port.accepts, msgs, k);
        k := k + 1;
        i := end;
      }
    }
    AcceptedPrefixStops(port.accepts, msgs, k);
  }

  /**
   * `main` after the port has been chosen by name: a file that fails
   * validation ends the script with status 1 before the port is opened;
   * otherwise the port is opened, the messages are sent until one fails
   * (status 1) or all have gone (status 0), and the port is closed.
   */
  method Run(file: Option<WavFile>, port: Port) returns (exitStatus: int)
    requires !port.isOpen
    modifies port
    ensures !port.isOpen
    ensures ReadWavMono32(file).None? ==> exitStatus == 1 && port.sent == old(port.sent)
    ensures ReadWavMono32(file).Some? ==>
      var msgs := WavMessages(HexSender.EncodePayload(ReadWavMono32(file).value));
      && exitStatus == (if AllAccepted(port.accepts, msgs) then 0 else 1)
      && port.sent == old(port.sent) + AcceptedPrefix(port.accepts, msgs)
  {
    var samples := ReadWavMono32(file);
    if samples.None? {
      return 1;
    }
    var data := EncodeSamples(samples.value);
    port.Open();
    ghost var before := port.sent;
    var ok := SendChunks(port, data);
    ghost var log := AcceptedPrefix(port.accepts, WavMessages(data));
    assert port.sent == before + log;
    port.Close();
    assert port.sent == before + log;
    exitStatus := if ok then 0 else 1;
  }
}
