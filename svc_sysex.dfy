/**
 * The kernel's Korg-format SysEx service (`svc_sysex.c`): registered as
 * the MIDI parser's SysEx callback, it checks the manufacturer byte 0x42,
 * skips the global channel, checks the three-byte product id 0x124, and
 * then runs one command: set a write address and length, write decoded
 * bytes to CPU RAM, or (with the flash write disabled) to flash.
 *
 * The static `write_address`, `write_length` and `g_decode_buffer` are the
 * fields of `SysexService`; a RAM write is recorded in `writes` instead of
 * storing through a raw address.
 */
module SysexService {
  import opened Common
  import SysexCodec

  /** `SYSEX_BUFFER_LENGTH`: both the parser's buffer and the decode buffer. */
  const BUFFER_LENGTH: nat := 0x2000

  /** The manufacturer byte the parser accepts. */
  const KORG_ID: Byte := 0x42
  /** The product id the parser accepts, three bytes big-endian. */
  const PRODUCT_ID: nat := 0x124

  /** Message ids of `t_msg_id` that `_parse_msg_body` handles. */
  const SET_WRITE_ADDRESS: Byte := 0x53
  const WRITE_CPU_RAM: Byte := 0x54
  const WRITE_FLASH: Byte := 0x56

  /** `t_sysex_parse_result`. */
  datatype ParseResult =
    | ParseManuId | ParseGlobalChannel | ParseProductId | ParseMsgBody
    | ParseError | ParseComplete

  /** One `memcpy(write_address, g_decode_buffer, write_length)`: destination, length, and the bytes copied from the decode buffer. */
  datatype MemoryWrite = RamWrite(address: nat, length: nat, data: seq<Byte>)

  /** The static state: write address and length, the decode buffer, and the RAM writes made. */
  datatype Store = Store(address: nat, length: nat, buffer: seq<Byte>, writes: seq<MemoryWrite>)

  predicate ValidStore(st: Store) {
    st.address < TWO_32 && st.length < TWO_32 && |st.buffer| == BUFFER_LENGTH
  }

  /** The three product-id bytes after manufacturer and channel, big-endian. */
  function ProductIdOf(m: seq<Byte>): (p: nat)
    requires |m| >= 5
    ensures p < 0x100_0000
    ensures p == PRODUCT_ID <==> m[2] == 0x00 && m[3] == 0x01 && m[4] == 0x24
  {
    (m[2] as int) * 0x1_0000 + (m[3] as int) * 0x100 + m[4] as int
  }

  /**
   * `sysex_decode` into the decode buffer: the decoded bytes overwrite its
   * start and the rest keeps whatever an earlier message left there.
   */
  function DecodeInto(buffer: seq<Byte>, body: seq<Byte>): (r: seq<Byte>)
    requires |body| <= |buffer|
    ensures |r| == |buffer|
    ensures var d := SysexCodec.Decode(body);
      |d| <= |body| && r[..|d|] == d && r[|d|..] == buffer[|d|..]
  {
    SysexCodec.DecodeLength(body);
    SysexCodec.Decode(body) + buffer[|SysexCodec.Decode(body)|..]
  }

  /**
   * `_parse_msg_body`: the command `id` with its encoded `body`.  An unknown
   * id, or a command whose preconditions fail, gives `ParseError`; both
   * write commands clear address and length whatever happens.
   */
  function BodyStep(st: Store, id: Byte, body: seq<Byte>): (r: (ParseResult, Store))
    requires ValidStore(st) && |body| <= BUFFER_LENGTH
    ensures ValidStore(r.1)
    ensures r.0 == ParseComplete || r.0 == ParseError
    ensures id !in {SET_WRITE_ADDRESS, WRITE_CPU_RAM, WRITE_FLASH} ==> r == (ParseError, st)
    ensures id in {WRITE_CPU_RAM, WRITE_FLASH} ==> r.1.address == 0 && r.1.length == 0
    ensures r.0 == ParseComplete <==>
      |body| != 0 && (id == SET_WRITE_ADDRESS || (id in {WRITE_CPU_RAM, WRITE_FLASH} && st.length != 0))
    ensures |r.1.writes| == |st.writes| + (if r.0 == ParseComplete && id == WRITE_CPU_RAM then 1 else 0)
    ensures r.1.writes[..|st.writes|] == st.writes
  {
    if id == SET_WRITE_ADDRESS then
      if |body| != 0 then
        var b := DecodeInto(st.buffer, body);
        Pow2ThirtyTwo();
        (ParseComplete, st.(address := LittleEndian(b[0..4]), length := LittleEndian(b[4..8]), buffer := b))
      else (ParseError, st)
    else if id == WRITE_CPU_RAM then
      if st.length != 0 && |body| != 0 then
        var b := DecodeInto(st.buffer, body);
        (ParseComplete, Store(0, 0, b, st.writes + [RamWrite(st.address, st.length, b[..Min(st.length, BUFFER_LENGTH)])]))
      else (ParseError, st.(address := 0, length := 0))
    else if id == WRITE_FLASH then
      if st.length != 0 && |body| != 0 then
        (ParseComplete, Store(0, 0, DecodeInto(st.buffer, body), st.writes))
      else (ParseError, st.(address := 0, length := 0))
    else (ParseError, st)
  }

  /** SET_WRITE_ADDRESS with a body: the decoded bytes' first two words become address and length. */
  lemma AddressStep(st: Store, body: seq<Byte>)
    requires ValidStore(st) && 0 < |body| <= BUFFER_LENGTH
    ensures var b := DecodeInto(st.buffer, body);
      BodyStep(st, SET_WRITE_ADDRESS, body)
      == (ParseComplete, st.(address := LittleEndian(b[0..4]), length := LittleEndian(b[4..8]), buffer := b))
  {
  }

  /**
   * `sysex_parse` on the `|m|` bytes the MIDI parser collected, with a
   * message too short to hold the product id treated as an error (see
   * `HeaderAsWritten` for the unguarded original).  A message that ends
   * right after the product id stops in `ParseMsgBody`.
   */
  function Parse(st: Store, m: seq<Byte>): (r: (ParseResult, Store))
    requires ValidStore(st) && |m| <= BUFFER_LENGTH
    ensures ValidStore(r.1)
    ensures |m| > 0 && m[0] != KORG_ID ==> r == (ParseError, st)
    ensures |m| >= 5 && m[0] == KORG_ID && ProductIdOf(m) != PRODUCT_ID ==> r == (ParseError, st)
    ensures r.1 != st ==> |m| > 5 && m[0] == KORG_ID && ProductIdOf(m) == PRODUCT_ID
  {
    if |m| == 0 then (ParseManuId, st)
    else if m[0] != KORG_ID then (ParseError, st)
    else if |m| == 1 then (ParseGlobalChannel, st)
    else if |m| == 2 then (ParseProductId, st)
    else if |m| < 5 then (ParseError, st)
    else if ProductIdOf(m) != PRODUCT_ID then (ParseError, st)
    else if |m| == 5 then (ParseMsgBody, st)
    else BodyStep(st, m[5], m[6..])
  }

  /** A message of three or four bytes is rejected and changes nothing. */
  lemma ShortMessageRejected(st: Store, m: seq<Byte>)
    requires ValidStore(st) && 3 <= |m| < 5
    ensures Parse(st, m) == (ParseError, st)
  {
  }

  /** The header `sysex_parse` accepts, followed by a command id and its encoded body. */
  function Command(channel: Byte, id: Byte, payload: seq<Byte>): (m: seq<Byte>)
    ensures |m| == 6 + SysexCodec.EncodedLength(|payload|)
  {
    SysexCodec.EncodeLength(payload);
    [KORG_ID, channel, 0x00, 0x01, 0x24, id] + SysexCodec.Encode(payload)
  }

  lemma CommandParts(channel: Byte, id: Byte, payload: seq<Byte>)
    ensures var m := Command(channel, id, payload);
      |m| >= 6 && m[0] == KORG_ID && ProductIdOf(m) == PRODUCT_ID && m[5] == id
      && m[6..] == SysexCodec.Encode(payload)
  {
  }

  /**
   * A SET_WRITE_ADDRESS command carrying the 8 bytes of an address and a
   * length, little-endian, sets exactly that address and length.
   */
  lemma SetWriteAddress(st: Store, channel: Byte, address: nat, length: nat)
    requires ValidStore(st) && address < TWO_32 && length < TWO_32
    ensures var payload := LittleEndianBytes(address, 4) + LittleEndianBytes(length, 4);
      var r := Parse(st, Command(channel, SET_WRITE_ADDRESS, payload));
      r.0 == ParseComplete && r.1.address == address && r.1.length == length && r.1.writes == st.writes
  {
    var payload := LittleEndianBytes(address, 4) + LittleEndianBytes(length, 4);
    var m := Command(channel, SET_WRITE_ADDRESS, payload);
    var body := SysexCodec.Encode(payload);
    CommandParts(channel, SET_WRITE_ADDRESS, payload);
    SysexCodec.EncodeLength(payload);
    SysexCodec.DecodeEncode(payload);
    assert |body| == 10;
    assert Parse(st, m) == BodyStep(st, SET_WRITE_ADDRESS, body);
    AddressStep(st, body);
    var b := DecodeInto(st.buffer, body);
    assert b[..8] == payload;
    AddressWords(b, address, length);
  }

  /** A buffer that starts with the 8 bytes of an address and a length reads them back. */
  lemma AddressWords(b: seq<Byte>, address: nat, length: nat)
    requires address < TWO_32 && length < TWO_32
    requires |b| >= 8 && b[..8] == LittleEndianBytes(address, 4) + LittleEndianBytes(length, 4)
    ensures LittleEndian(b[0..4]) == address && LittleEndian(b[4..8]) == length
  {
    assert b[0..4] == LittleEndianBytes(address, 4) by { assert b[0..4] == b[..8][0..4]; }
    assert b[4..8] == LittleEndianBytes(length, 4) by { assert b[4..8] == b[..8][4..8]; }
    Pow2ThirtyTwo();
    LittleEndianRoundTrip(address, 4);
    LittleEndianRoundTrip(length, 4);
  }

  /**
   * After a write address and length n have been set, a WRITE_CPU_RAM
   * command carrying n bytes copies exactly those bytes to the address,
   * and address and length are cleared.
   */
  lemma WriteCpuRam(st: Store, channel: Byte, data: seq<Byte>)
    requires ValidStore(st) && st.length == |data| && 0 < |data| && 6 + |SysexCodec.Encode(data)| <= BUFFER_LENGTH
    ensures var r := Parse(st, Command(channel, WRITE_CPU_RAM, data));
      r.0 == ParseComplete && r.1.address == 0 && r.1.length == 0
      && r.1.writes == st.writes + [RamWrite(st.address, |data|, data)]
  {
    var m := Command(channel, WRITE_CPU_RAM, data);
    CommandParts(channel, WRITE_CPU_RAM, data);
    SysexCodec.EncodeLength(data);
    SysexCodec.DecodeEncode(data);
    var b := DecodeInto(st.buffer, SysexCodec.Encode(data));
    assert b[..Min(st.length, BUFFER_LENGTH)] == data;
  }

  /** A WRITE_CPU_RAM with no length set (or an empty body) writes nothing, fails, and still clears the address. */
  lemma WriteWithoutAddress(st: Store, m: seq<Byte>)
    requires ValidStore(st) && 6 <= |m| <= BUFFER_LENGTH && m[0] == KORG_ID && ProductIdOf(m) == PRODUCT_ID
    requires m[5] == WRITE_CPU_RAM && (st.length == 0 || |m| == 6)
    ensures Parse(st, m) == (ParseError, st.(address := 0, length := 0))
  {
  }

  // ---------------------------------------------------------------------
  // The header loop as written
  // ---------------------------------------------------------------------

  /**
   * The header loop of `sysex_parse` exactly as written, run over the
   * MIDI parser's whole buffer `buf` with message length `n`: the state
   * it reaches and, on reaching the body, the `uint32_t` length it passes
   * to `_parse_msg_body`.  The product id is read from indices 2..4 and
   * `length -= 2` is applied even when fewer bytes remain.
   */
  function HeaderAsWritten(buf: seq<Byte>, n: nat): (r: (ParseResult, nat))
    requires |buf| == BUFFER_LENGTH && n <= BUFFER_LENGTH
    ensures r.1 < TWO_32
    ensures r.0 == ParseMsgBody <==> n >= 3 && buf[0] == KORG_ID && ProductIdOf(buf) == PRODUCT_ID
    ensures r.0 == ParseMsgBody && n >= 6 ==> r.1 == n - 6
    ensures r.0 == ParseMsgBody && n == 5 ==> r.1 == 0
    ensures r.0 == ParseMsgBody && n < 5 ==> r.1 == TWO_32 + n - 6
  {
    if n == 0 then (ParseManuId, 0)
    else if buf[0] != KORG_ID then (ParseError, 0)
    else if n == 1 then (ParseGlobalChannel, 0)
    else if n == 2 then (ParseProductId, 0)
    else if ProductIdOf(buf) != PRODUCT_ID then (ParseError, 0)
    else if (n - 5) % TWO_32 == 0 then (ParseMsgBody, 0)
    else (ParseMsgBody, (n - 6) % TWO_32)
  }

  /**
   * `sysex_parse`'s header loop as written: `length` is a `uint32_t` that
   * the product-id case decrements by two more.  It returns when the loop
   * ends or when it would call `_parse_msg_body`, with the length it would
   * pass.
   */
  method ParseHeaderAsWritten(msg: array<Byte>, n: nat) returns (state: ParseResult, bodyLength: nat)
    requires msg.Length == BUFFER_LENGTH && n <= BUFFER_LENGTH
    ensures (state, bodyLength) == HeaderAsWritten(msg[..], n)
  {
    state := ParseManuId;
    bodyLength := 0;
    var length: nat := n;
    var pos: nat := 0;
    while length != 0
      invariant length < TWO_32
      invariant state == ParseManuId ==> pos == 0 && length == n
      invariant state == ParseGlobalChannel ==> pos == 1 && length == n - 1 && n >= 1 && msg[0] == KORG_ID
      invariant state == ParseProductId ==> pos == 2 && length == n - 2 && n >= 2 && msg[0] == KORG_ID
      invariant state == ParseMsgBody ==>
        pos == 5 && length == (n - 5) % TWO_32 && n >= 3 && msg[0] == KORG_ID && ProductIdOf(msg[..]) == PRODUCT_ID
      invariant state == ParseError ==> HeaderAsWritten(msg[..], n) == (ParseError, 0)
      invariant state != ParseComplete
      decreases if state == ParseError then 0 else 6 - pos, length
    {
      length := length - 1;
      match state
      case ParseManuId =>
        state := if msg[pos] == KORG_ID then ParseGlobalChannel else ParseError;
        pos := pos + 1;
      case ParseGlobalChannel =>
        pos := pos + 1;
        state := ParseProductId;
      case ParseProductId =>
        var productId := (msg[pos] as int) * 0x1_0000 + (msg[pos + 1] as int) * 0x100 + msg[pos + 2] as int;
        pos := pos + 3;
        length := (length - 2) % TWO_32;
        state := if productId == PRODUCT_ID then ParseMsgBody else ParseError;
      case ParseMsgBody =>
        bodyLength := length;
        return;
      case ParseError =>
        length := 0;
    }
  }

  /**
   * As written, a three-byte message whose bytes 3 and 4 were left as
   * 0x01, 0x24 by a longer earlier message passes the product-id check
   * on those stale bytes, and the body is then parsed with length
   * 2^32 - 3, far beyond the 8 KiB buffer.
   */
  lemma ShortMessageOverrun(buf: seq<Byte>)
    requires |buf| == BUFFER_LENGTH && buf[0] == KORG_ID && buf[2] == 0x00 && buf[3] == 0x01 && buf[4] == 0x24
    ensures HeaderAsWritten(buf, 3) == (ParseMsgBody, TWO_32 - 3)
    ensures TWO_32 - 3 > BUFFER_LENGTH
  {
  }

  /** The service's static state, updated in place. */
  class SysexService {
    var address: nat
    var length: nat
    const buffer: array<Byte>
    var writes: seq<MemoryWrite>

    predicate Valid()
      reads this
    {
      address < TWO_32 && length < TWO_32 && buffer.Length == BUFFER_LENGTH
    }

    ghost function Abs(): Store
      reads this, buffer
    {
      Store(address, length, buffer[..], writes)
    }

    constructor ()
      ensures Valid() && Abs() == Store(0, 0, seq(BUFFER_LENGTH, _ => 0), [])
    {
      address, length := 0, 0;
      buffer := new Byte[BUFFER_LENGTH](_ => 0);
      writes := [];
      new;
      assert buffer[..] == seq(BUFFER_LENGTH, _ => 0);
    }

    /** `sysex_decode(body, g_decode_buffer, |body|)`, through a copy of the body. */
    method DecodeBody(msg: array<Byte>, start: nat, count: nat)
      requires Valid() && start + count <= msg.Length && count <= BUFFER_LENGTH && msg != buffer
      modifies buffer
      ensures buffer[..] == DecodeInto(old(buffer[..]), msg[start .. start + count])
    {
      ghost var ob := buffer[..];
      ghost var src := msg[start .. start + count];
      var body := new Byte[count];
      forall i | 0 <= i < count {
        body[i] := msg[start + i];
      }
      assert body[..count] == src;
      SysexCodec.DecodeLength(src);
      var n := SysexCodec.SysexDecode(body, buffer, count);
      assert n == |SysexCodec.Decode(src)|;
      assert buffer[..n] == SysexCodec.Decode(src);
      assert buffer[n..] == ob[n..];
      assert buffer[..] == buffer[..n] + buffer[n..];
      assert buffer[..] == DecodeInto(ob, src);
      assert msg[start .. start + count] == src;
    }

    /** The SET_WRITE_ADDRESS case of `_parse_msg_body`. */
    method SetWriteAddress(msg: array<Byte>, start: nat, count: nat) returns (result: ParseResult)
      requires Valid() && start + 1 + count <= msg.Length && count <= BUFFER_LENGTH && msg != buffer
      requires msg[start] == SET_WRITE_ADDRESS
      modifies this, buffer
      ensures Valid()
      ensures (result, Abs()) == BodyStep(old(Abs()), msg[start], msg[start + 1 .. start + 1 + count])
    {
      ghost var st := Abs();
      ghost var body := msg[start + 1 .. start + 1 + count];
      result := ParseError;
      if count != 0 {
        DecodeBody(msg, start + 1, count);
        ghost var b := DecodeInto(st.buffer, body);
        assert Abs() == st.(buffer := b);
        LoadAddress();
        result := ParseComplete;
        AddressStep(st, body);
      }
    }

    /** The address and length words read from the first 8 decoded bytes, little-endian. */
    method LoadAddress()
      requires Valid()
      modifies this
      ensures Valid() && Abs() == old(Abs()).(address := LittleEndian(buffer[0..4]), length := LittleEndian(buffer[4..8]))
    {
      ghost var b := buffer[..];
      var a := buffer[0] as int + 0x100 * (buffer[1] as int) + 0x1_0000 * (buffer[2] as int) + 0x100_0000 * (buffer[3] as int);
      var n := buffer[4] as int + 0x100 * (buffer[5] as int) + 0x1_0000 * (buffer[6] as int) + 0x100_0000 * (buffer[7] as int);
      LittleEndianWord(b, 0);
      LittleEndianWord(b, 4);
      address, length := a, n;
    }

    /** The WRITE_CPU_RAM and WRITE_FLASH cases of `_parse_msg_body`; only the first copies to RAM. */
    method Write(msg: array<Byte>, start: nat, count: nat) returns (result: ParseResult)
      requires Valid() && start + 1 + count <= msg.Length && count <= BUFFER_LENGTH && msg != buffer
      requires msg[start] == WRITE_CPU_RAM || msg[start] == WRITE_FLASH
      modifies this, buffer
      ensures Valid()
      ensures (result, Abs()) == BodyStep(old(Abs()), msg[start], msg[start + 1 .. start + 1 + count])
    {
      result := ParseError;
      if length != 0 && count != 0 {
        DecodeBody(msg, start + 1, count);
        if msg[start] == WRITE_CPU_RAM {
          writes := writes + [RamWrite(address, length, buffer[..Min(length, BUFFER_LENGTH)])];
        }
        result := ParseComplete;
      }
      address := 0;
      length := 0;
    }

    /** `_parse_msg_body(msg + start, count)`: the id at `start`, the body after it. */
    method ParseBody(msg: array<Byte>, start: nat, count: nat) returns (result: ParseResult)
      requires Valid() && start + 1 + count <= msg.Length && count <= BUFFER_LENGTH && msg != buffer
      modifies this, buffer
      ensures Valid()
      ensures (result, Abs()) == BodyStep(old(Abs()), msg[start], msg[start + 1 .. start + 1 + count])
    {
      var id := msg[start];
      if id == SET_WRITE_ADDRESS {
        result := SetWriteAddress(msg, start, count);
      } else if id == WRITE_CPU_RAM || id == WRITE_FLASH {
        result := Write(msg, start, count);
      } else {
        result := ParseError;
      }
    }

    /**
     * `sysex_parse(msg, n)` with the product-id guard: the loop consumes
     * the header byte by byte, hands the rest to `ParseBody`, and stops
     * once the state is an error or complete.
     */
    method SysexParse(msg: array<Byte>, n: nat) returns (state: ParseResult)
      requires Valid() && n <= msg.Length && n <= BUFFER_LENGTH && msg != buffer
      modifies this, buffer
      ensures Valid()
      ensures (state, Abs()) == Parse(old(Abs()), msg[..n])
    {
      ghost var st := Abs();
      ghost var m := msg[..n];
      state := ParseManuId;
      var remaining: nat := n;
      var pos: nat := 0;
      while remaining != 0
        invariant Valid() && msg[..n] == m
        invariant state == ParseManuId ==> pos == 0 && remaining == n && Abs() == st
        invariant state == ParseGlobalChannel ==> pos == 1 && remaining == n - 1 && m[0] == KORG_ID && Abs() == st
        invariant state == ParseProductId ==> pos == 2 && remaining == n - 2 && m[0] == KORG_ID && Abs() == st
        invariant state == ParseMsgBody ==>
          pos == 5 && remaining == n - 5 && m[0] == KORG_ID && ProductIdOf(m) == PRODUCT_ID && Abs() == st
        invariant state in {ParseError, ParseComplete} ==> (state, Abs()) == Parse(st, m)
        decreases remaining
      {
        remaining := remaining - 1;
        match state
        case ParseManuId =>
          state := if msg[pos] == KORG_ID then ParseGlobalChannel else ParseError;
          pos := pos + 1;
        case ParseGlobalChannel =>
          pos := pos + 1;
          state := ParseProductId;
        case ParseProductId =>
          if remaining < 2 {
            state := ParseError;
          } else {
            var productId := (msg[pos] as int) * 0x1_0000 + (msg[pos + 1] as int) * 0x100 + msg[pos + 2] as int;
            pos := pos + 3;
            remaining := remaining - 2;
            state := if productId == PRODUCT_ID then ParseMsgBody else ParseError;
          }
        case ParseMsgBody =>
          assert m[5] == msg[pos] && m[6..] == msg[pos + 1 .. pos + 1 + remaining];
          state := ParseBody(msg, pos, remaining);
        case ParseError =>
          remaining := 0;
        case ParseComplete =>
          remaining := 0;
      }
    }
  }
}
