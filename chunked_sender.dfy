/**
 * The second hex-file sender (`sysex_send_2.py`): the payload is cut into
 * fixed-size slices and every slice travels in its own SysEx frame
 * carrying the manufacturer id.  Reading the file, the encoder and the
 * manufacturer-id answer are the same as in the first sender.
 */
module ChunkedSender {
  import opened Common
  import opened MidiOut
  import HexSender

  const DEFAULT_CHUNK: int := 256

  /** The frames sent for a payload: `[0xF0, id] + slice + [0xF7]` per slice. */
  function Frames(id: Byte, data: seq<Byte>, chunk: nat): (fs: seq<seq<Byte>>)
    requires chunk > 0
    ensures |fs| == |Chunks(data, chunk)|
    ensures forall k :: 0 <= k < |fs| ==> fs[k] == HexSender.FullMessage(id, Chunks(data, chunk)[k])
  {
    var cs := Chunks(data, chunk);
    seq(|cs|, k requires 0 <= k < |cs| => HexSender.FullMessage(id, cs[k]))
  }

  /** The bodies of the frames, in order. */
  function Bodies(fs: seq<seq<Byte>>): (bs: seq<seq<Byte>>)
    requires forall k :: 0 <= k < |fs| ==> |fs[k]| >= 3
    ensures |bs| == |fs|
  {
    seq(|fs|, k requires 0 <= k < |fs| => fs[k][2 .. |fs[k]| - 1])
  }

  /**
   * There are ceil(n / chunk) frames; frame k carries the manufacturer id
   * and the slice starting at k * chunk, at most `chunk` long; the slices
   * put back together are the payload.
   */
  lemma FramesShape(id: Byte, data: seq<Byte>, chunk: nat)
    requires chunk > 0
    ensures |Frames(id, data, chunk)| == CeilDiv(|data|, chunk)
    ensures forall k :: 0 <= k < |Frames(id, data, chunk)| ==>
      var f := Frames(id, data, chunk)[k];
      && k * chunk < |data|
      && f == [0xF0, id] + data[k * chunk .. Min((k + 1) * chunk, |data|)] + [0xF7]
      && |f| <= chunk + 3
    ensures Flatten(Bodies(Frames(id, data, chunk))) == data
  {
    var fs := Frames(id, data, chunk);
    var cs := Chunks(data, chunk);
    ChunksCount(data, chunk);
    forall k | 0 <= k < |fs|
      ensures k * chunk < |data|
      ensures fs[k] == [0xF0, id] + data[k * chunk .. Min((k + 1) * chunk, |data|)] + [0xF7]
    {
      ChunkIsSlice(data, chunk, k);
    }
    assert Bodies(fs) == cs;
    ChunksCover(data, chunk);
  }

  /**
   * `send_sysex_chunked`: one frame per slice, in order; the first frame
   * the port refuses ends the loop with False (a zero chunk size fails the
   * same way, on the division).
   */
  method SendSysexChunked(port: Port, data: seq<Byte>, id: Byte, chunk: nat) returns (ok: bool)
    modifies port
    ensures chunk == 0 ==> !ok && port.sent == old(port.sent)
    ensures chunk > 0 ==> ok == AllAccepted(port.accepts, Frames(id, data, chunk))
    ensures chunk > 0 ==> port.sent == old(port.sent) + AcceptedPrefix(port.accepts, Frames(id, data, chunk))
    ensures port.isOpen == old(port.isOpen)
  {
    if chunk == 0 {
      return false;
    }
    var total := |data|;
    ghost var frames := Frames(id, data, chunk);
    var numChunks := (total + chunk - 1) / chunk;
    ChunksCount(data, chunk);
    var i := 0;
    ok := true;
    while i < numChunks && ok
      invariant 0 <= i <= numChunks == |frames|
      invariant AllAccepted(port.accepts, frames[..i])
      invariant port.sent == old(port.sent) + frames[..i]
      invariant !ok ==> i < |frames| && !port.accepts(frames[i])
      invariant port.isOpen == old(port.isOpen)
      decreases numChunks - i, ok
    {
      var start := i * chunk;
      ChunkIsSlice(data, chunk, i);
      assert (i + 1) * chunk == start + chunk;
      var end := Min(start + chunk, total);
      var message := [0xF0, id] + data[start..end] + [0xF7];
      assert message == frames[i];
      ok := port.Send(message);
      if ok {
        assert frames[..i + 1] == frames[..i] + [frames[i]];
        i := i + 1;
      }
    }
    AcceptedPrefixStops(port.accepts, frames, i);
  }

  /** The chunk size: the answer when it is an integer in 32..4096, else 256. */
  function ChunkFromInput(answer: string): (c: int)
    ensures 32 <= c <= 4096
    ensures var p := HexSender.ParseDecInt(HexSender.Strip(answer));
      c == (if HexSender.Strip(answer) != [] && p.Some? && 32 <= p.value <= 4096 then p.value else DEFAULT_CHUNK)
  {
    var t := HexSender.Strip(answer);
    if t == [] then DEFAULT_CHUNK
    else
      match HexSender.ParseDecInt(t)
      case None => DEFAULT_CHUNK
      case Some(v) => if v < 32 || v > 4096 then DEFAULT_CHUNK else v
  }

  /** From the encoding to the closing of the port. */
  method SendTokens(tokens: seq<string>, idAnswer: string, chunkAnswer: string, port: Port)
    returns (ok: bool)
    requires forall k :: 0 <= k < |tokens| ==> HexSender.IsHexToken(tokens[k])
    modifies port
    ensures !port.isOpen
    ensures var frames := Frames(HexSender.ManufacturerIdFromInput(idAnswer), HexSender.FilePayload(tokens), ChunkFromInput(chunkAnswer));
      && ok == AllAccepted(port.accepts, frames)
      && port.sent == old(port.sent) + AcceptedPrefix(port.accepts, frames)
  {
    var data := HexSender.HexToSysexBytes(tokens);
    assert data == HexSender.FilePayload(tokens);
    port.Open();
    var id := HexSender.ManufacturerIdFromInput(idAnswer);
    var chunk := ChunkFromInput(chunkAnswer);
    ghost var before := port.sent;
    ok := SendSysexChunked(port, data, id, chunk);
    ghost var log := AcceptedPrefix(port.accepts, Frames(id, data, chunk));
    assert port.sent == before + log;
    port.Close();
    assert port.sent == before + log;
  }

  /**
   * `main` once the file has been read and a port chosen: nothing happens
   * when the file yields no literal; otherwise the frames are sent and the
   * port is closed.
   */
  method Run(content: Option<string>, idAnswer: string, chunkAnswer: string, port: Port)
    returns (result: Option<bool>)
    modifies port
    ensures HexSender.ParseHexFile(content).None? ==>
      result.None? && port.sent == old(port.sent) && port.isOpen == old(port.isOpen)
    ensures HexSender.ParseHexFile(content).Some? ==>
      var frames := Frames(HexSender.ManufacturerIdFromInput(idAnswer),
                           HexSender.FilePayload(HexSender.ParseHexFile(content).value),
                           ChunkFromInput(chunkAnswer));
      && !port.isOpen
      && result == Some(AllAccepted(port.accepts, frames))
      && port.sent == old(port.sent) + AcceptedPrefix(port.accepts, frames)
  {
    var tokens := HexSender.ParseHexFile(content);
    if tokens.None? {
      return None;
    }
    var ok := SendTokens(tokens.value, idAnswer, chunkAnswer, port);
    result := Some(ok);
  }
}
