/**
 * The 8-to-7 SysEx codec of the CPU library (`cpu/lib/sysex_codec.c`).
 *
 * Arbitrary bytes are carried in MIDI data bytes (bit 7 clear) by cutting
 * the input into blocks of seven. Each block becomes one header byte that
 * collects the seven top bits (bit k of the header is bit 7 of the k-th
 * byte), followed by the low seven bits of each byte. The decoder walks the
 * encoded stream in blocks of eight and puts the top bits back.
 *
 * The two C routines are methods over arrays, proved against the functions
 * `Encode` and `Decode`; the lemmas below those functions state what the
 * format promises: lengths, 7-bit cleanliness, where each top bit lives, and
 * that decoding undoes encoding.
 */
module SysexCodec {
  import opened Common

  /** `data >> 7` for a byte. */
  function Msb(x: Byte): (r: nat)
    ensures r < 2
  {
    x / 0x80
  }

  /** `data & 0x7f` for a byte. */
  function Low7(x: Byte): (r: Byte)
    ensures r < 0x80
  {
    x % 0x80
  }

  /** `(x >> 7) << n`: the top bit of x moved to bit n. */
  function TopBitAt(x: Byte, n: nat): nat
  {
    if x < 0x80 then 0 else Pow2(n)
  }

  /** `(bit << 7) | body`, for a bit of 0 or 1. */
  function SetBit7(bit: nat, body: Byte): (r: Byte)
    requires bit < 2
    ensures Low7(r) == Low7(body)
    ensures Msb(r) == if bit == 1 then 1 else Msb(body)
  {
    if bit == 1 && body < 0x80 then body + 0x80 else body
  }

  /** Splitting a byte into its top bit and low seven bits loses nothing. */
  lemma SetBit7Split(x: Byte)
    ensures SetBit7(Msb(x), Low7(x)) == x
  {
  }

  // ---------------------------------------------------------------------
  // The encoded format
  // ---------------------------------------------------------------------

  /** The header of a block: bit k is the top bit of byte k. */
  function HeaderOf(b: seq<Byte>): (r: nat)
    ensures r < Pow2(|b|)
  {
    if |b| == 0 then 0
    else HeaderOf(b[..|b| - 1]) + TopBitAt(b[|b| - 1], |b| - 1)
  }

  /** The low seven bits of every byte of a block. */
  function Bodies(b: seq<Byte>): (r: seq<Byte>)
    ensures |r| == |b|
  {
    seq(|b|, k requires 0 <= k < |b| => Low7(b[k]))
  }

  /** One block of one to seven bytes: its header, then its bodies. */
  function EncodeBlock(b: seq<Byte>): (r: seq<Byte>)
    requires 0 < |b| <= 7
    ensures |r| == |b| + 1
  {
    Pow2Monotone(|b|, 7);
    [HeaderOf(b)] + Bodies(b)
  }

  /** The whole encoding: consecutive blocks of seven, the last one shorter. */
  function Encode(d: seq<Byte>): (r: seq<Byte>)
    ensures |d| == 0 ==> r == []
    ensures |d| > 0 ==> |d| < |r| && r[0] == BlockHeader(d[..Min(|d|, 7)])
    decreases |d|
  {
    if |d| == 0 then []
    else if |d| <= 7 then assert d[..Min(|d|, 7)] == d; EncodeBlock(d)
    else EncodeBlock(d[..7]) + Encode(d[7..])
  }

  /** Eight bytes per full block, and one header more than the rest. */
  function EncodedLength(n: nat): nat
  {
    8 * (n / 7) + (if n % 7 == 0 then 0 else n % 7 + 1)
  }

  /** Bit j of a header is the top bit of byte j of its block. */
  lemma {:induction false} HeaderBit(b: seq<Byte>, j: nat)
    requires j < |b|
    ensures Bit(HeaderOf(b), j) == Msb(b[j])
    decreases |b|
  {
    var front := b[..|b| - 1];
    assert TopBitAt(b[|b| - 1], |b| - 1) == Msb(b[|b| - 1]) * Pow2(|b| - 1);
    BitOfSum(HeaderOf(front), Msb(b[|b| - 1]), |b| - 1, j);
    if j < |b| - 1 {
      HeaderBit(front, j);
    }
  }

  /** Header bits past the end of a short block are zero. */
  lemma HeaderBitUnused(b: seq<Byte>, j: nat)
    requires |b| <= j
    ensures Bit(HeaderOf(b), j) == 0
  {
    Pow2Monotone(|b|, j);
    BitAbove(HeaderOf(b), j);
  }

  lemma EncodeBlockClean(b: seq<Byte>)
    requires 0 < |b| <= 7
    ensures SevenBitClean(EncodeBlock(b))
  {
    Pow2Monotone(|b|, 7);
    var e := EncodeBlock(b);
    forall i | 0 <= i < |e|
      ensures 0 <= e[i] < 0x80
    {
      if i > 0 {
        assert e[i] == Low7(b[i - 1]);
      }
    }
  }

  /** Every encoded byte is a MIDI data byte. */
  lemma {:induction false} EncodeClean(d: seq<Byte>)
    ensures SevenBitClean(Encode(d))
    decreases |d|
  {
    if 0 < |d| <= 7 {
      EncodeBlockClean(d);
    } else if |d| > 7 {
      EncodeBlockClean(d[..7]);
      EncodeClean(d[7..]);
      var a, b := EncodeBlock(d[..7]), Encode(d[7..]);
      assert forall i :: 0 <= i < |b| ==> (a + b)[|a| + i] == b[i];
    }
  }

  /** The encoded length grows by 8/7 and a header for a partial block. */
  lemma {:induction false} EncodeLength(d: seq<Byte>)
    ensures |Encode(d)| == EncodedLength(|d|)
    decreases |d|
  {
    if |d| > 7 {
      EncodeLength(d[7..]);
      DivAddMultiple(|d| - 7, 7, 1);
    } else if 0 < |d| < 7 {
      DivUnique(|d|, 7, 0, |d|);
    }
  }

  /** A block's header as a byte: below 2^7 since a block has at most seven bytes. */
  function BlockHeader(b: seq<Byte>): (h: Byte)
    requires |b| <= 7
    ensures h < 0x80 && h < Pow2(|b|)
  {
    Pow2Monotone(|b|, 7);
    HeaderOf(b)
  }

  /**
   * Encoded byte k directly: position `k % 8` of block `k / 8`, which is the
   * header at position 0 and the low bits of input byte `7 * (k / 8) + p - 1`
   * at position p (0 past the end of the encoding).
   */
  function EncodedByte(d: seq<Byte>, k: nat): (r: Byte)
    ensures r < 0x80
  {
    var b, p := k / 8, k % 8;
    var len := Min(7, |d| - 7 * b);
    if len <= 0 then 0
    else if p == 0 then BlockHeader(d[7 * b..7 * b + len])
    else if p <= len then Low7(d[7 * b + p - 1])
    else 0
  }

  /** Past the first block, the encoding of `d` is that of `d[7..]`. */
  lemma EncodedByteShift(d: seq<Byte>, k: nat)
    requires |d| > 7 && k >= 8
    ensures EncodedByte(d, k) == EncodedByte(d[7..], k - 8)
  {
    var b, p := k / 8, k % 8;
    DivUnique(k - 8, 8, b - 1, p);
    var len := Min(7, |d| - 7 * b);
    if len > 0 {
      assert d[7..][7 * (b - 1)..7 * (b - 1) + len] == d[7 * b..7 * b + len];
      if 0 < p <= len {
        assert d[7..][7 * (b - 1) + p - 1] == d[7 * b + p - 1];
      }
    }
  }

  lemma EncodeBlockBytes(d: seq<Byte>, k: nat)
    requires 0 < |d| && k < 8 && k <= Min(7, |d|)
    ensures EncodeBlock(d[..Min(7, |d|)])[k] == EncodedByte(d, k)
  {
    DivUnique(k, 8, 0, k);
    assert d[0..Min(7, |d|)] == d[..Min(7, |d|)];
  }

  /** The encoding, byte by byte. */
  lemma {:induction false} EncodeBytewise(d: seq<Byte>)
    ensures |Encode(d)| == EncodedLength(|d|)
    ensures forall k :: 0 <= k < |Encode(d)| ==> Encode(d)[k] == EncodedByte(d, k)
    decreases |d|
  {
    EncodeLength(d);
    if 0 < |d| <= 7 {
      forall k | 0 <= k < |Encode(d)|
        ensures Encode(d)[k] == EncodedByte(d, k)
      {
        assert d[..Min(7, |d|)] == d;
        EncodeBlockBytes(d, k);
      }
    } else if |d| > 7 {
      EncodeBytewise(d[7..]);
      var head, rest := EncodeBlock(d[..7]), Encode(d[7..]);
      forall k | 0 <= k < |Encode(d)|
        ensures Encode(d)[k] == EncodedByte(d, k)
      {
        if k < 8 {
          assert Encode(d)[k] == head[k];
          EncodeBlockBytes(d, k);
        } else {
          assert Encode(d)[k] == rest[k - 8];
          EncodedByteShift(d, k);
        }
      }
    }
  }

  /** The bytes of block b, for a block that starts inside the input. */
  lemma BlockBytes(d: seq<Byte>, b: nat)
    requires 7 * b < |d|
    ensures EncodedByte(d, 8 * b) == HeaderOf(d[7 * b..7 * b + Min(7, |d| - 7 * b)])
    ensures forall k :: 8 * b < k <= 8 * b + Min(7, |d| - 7 * b) ==>
      EncodedByte(d, k) == Low7(d[k - b - 1])
  {
    DivUnique(8 * b, 8, b, 0);
    forall k | 8 * b < k <= 8 * b + Min(7, |d| - 7 * b)
      ensures EncodedByte(d, k) == Low7(d[k - b - 1])
    {
      DivUnique(k, 8, b, k - 8 * b);
      assert 7 * b + (k - 8 * b) - 1 == k - b - 1;
    }
  }

  // ---------------------------------------------------------------------
  // Decoding
  // ---------------------------------------------------------------------

  /**
   * What the decoder emits for input byte i: nothing for a header (every
   * eighth byte), otherwise the body with its top bit taken from the header.
   */
  function DecodeAt(s: seq<Byte>, i: nat): (r: seq<Byte>)
    requires i < |s|
    ensures |r| == if i % 8 == 0 then 0 else 1
  {
    if i % 8 == 0 then []
    else [SetBit7(Bit(s[i - i % 8], i % 8 - 1), s[i])]
  }

  /** The decoder's output: `DecodeAt` of each input byte, in order. */
  function Decode(s: seq<Byte>): (r: seq<Byte>)
    ensures |r| <= |s|
    decreases |s|
  {
    if |s| == 0 then [] else Decode(s[..|s| - 1]) + DecodeAt(s, |s| - 1)
  }

  /** Seven bytes per block of eight, one fewer for a partial block. */
  function DecodedLength(n: nat): nat
  {
    7 * (n / 8) + (if n % 8 == 0 then 0 else n % 8 - 1)
  }

  lemma DecodedLengthStep(n: nat)
    ensures DecodedLength(n + 1) == DecodedLength(n) + (if n % 8 == 0 then 0 else 1)
  {
    if n % 8 == 7 {
      DivUnique(n + 1, 8, n / 8 + 1, 0);
    } else {
      DivUnique(n + 1, 8, n / 8, n % 8 + 1);
    }
  }

  /** The decoded length drops one byte per header: n - ceil(n / 8). */
  lemma {:induction false} DecodeLength(s: seq<Byte>)
    ensures |Decode(s)| == DecodedLength(|s|)
    ensures DecodedLength(|s|) == |s| - CeilDiv(|s|, 8)
    decreases |s|
  {
    if |s| > 0 {
      DecodeLength(s[..|s| - 1]);
      DecodedLengthStep(|s| - 1);
    }
    var n := |s|;
    if n % 8 == 0 {
      DivUnique(n + 7, 8, n / 8, 7);
    } else {
      DivUnique(n + 7, 8, n / 8 + 1, n % 8 - 1);
    }
  }

  lemma DecodePrefixStep(s: seq<Byte>, i: nat)
    requires i < |s|
    ensures Decode(s[..i + 1]) == Decode(s[..i]) + DecodeAt(s, i)
  {
    assert s[..i + 1][..i] == s[..i];
  }

  /** Decoding a prefix of the input gives a prefix of the output. */
  lemma {:induction false} DecodePrefix(s: seq<Byte>, m: nat)
    requires m <= |s|
    ensures Decode(s[..m]) <= Decode(s)
    decreases |s| - m
  {
    if m == |s| {
      assert Decode(s[..m]) == Decode(s) by {
        assert s[..m] == s;
      }
    } else {
      DecodePrefix(s, m + 1);
      DecodePrefixStep(s, m);
      PrefixOfPrefix(Decode(s[..m]), DecodeAt(s, m), Decode(s));
    }
  }

  /** A prefix of a prefix is a prefix. */
  lemma PrefixOfPrefix(a: seq<Byte>, x: seq<Byte>, c: seq<Byte>)
    requires a + x <= c
    ensures a <= c
  {
    assert a == (a + x)[..|a|];
  }

  /** The output byte that input byte i (a body byte) lands on. */
  lemma DecodeIndex(s: seq<Byte>, i: nat)
    requires i < |s| && i % 8 != 0
    ensures DecodedLength(i) < |Decode(s)|
    ensures Decode(s)[DecodedLength(i)] == SetBit7(Bit(s[i - i % 8], i % 8 - 1), s[i])
  {
    DecodePrefix(s, i + 1);
    DecodePrefixStep(s, i);
    DecodeLength(s[..i]);
  }

  /** Body byte `pos` of block `b` lands on output byte 7b + pos - 1. */
  lemma DecodeBodyAt(s: seq<Byte>, b: nat, pos: nat)
    requires 0 < pos < 8 && 8 * b + pos < |s|
    ensures 7 * b + pos - 1 < |Decode(s)|
    ensures Decode(s)[7 * b + pos - 1] == SetBit7(Bit(s[8 * b], pos - 1), s[8 * b + pos])
  {
    DivUnique(8 * b + pos, 8, b, pos);
    DecodeIndex(s, 8 * b + pos);
  }

  /**
   * Output byte k directly: body `k % 7 + 1` of block `k / 7`, with its top
   * bit from that block's header (0 past the end of the input).
   */
  function DecodedByte(s: seq<Byte>, k: nat): (r: Byte)
    ensures var at := 8 * (k / 7) + k % 7 + 1;
      at < |s| ==> Low7(r) == Low7(s[at]) && Msb(r) == (if Bit(s[8 * (k / 7)], k % 7) == 1 then 1 else Msb(s[at]))
    ensures 8 * (k / 7) + k % 7 + 1 >= |s| ==> r == 0
  {
    var b, pos := k / 7, k % 7 + 1;
    if 8 * b + pos < |s| then SetBit7(Bit(s[8 * b], pos - 1), s[8 * b + pos]) else 0
  }

  /** The decoder's output, byte by byte. */
  lemma DecodeBytewise(s: seq<Byte>)
    ensures |Decode(s)| == DecodedLength(|s|)
    ensures forall k :: 0 <= k < |Decode(s)| ==> Decode(s)[k] == DecodedByte(s, k)
  {
    DecodeLength(s);
    forall k | 0 <= k < |Decode(s)|
      ensures Decode(s)[k] == DecodedByte(s, k)
    {
      DecodeByteAt(s, k);
    }
  }

  /** Output byte k of the decoder is `DecodedByte(s, k)`. */
  lemma DecodeByteAt(s: seq<Byte>, k: nat)
    requires k < DecodedLength(|s|)
    ensures k < |Decode(s)| && Decode(s)[k] == DecodedByte(s, k)
  {
    var n := |s|;
    var b, pos := k / 7, k % 7 + 1;
    DivUnique(n, 8, n / 8, n % 8);
    DivUnique(k, 7, b, pos - 1);
    assert 8 * b + pos < n;
    DecodeBodyAt(s, b, pos);
  }

  /** Body byte `pos` of block `b` is output byte `7 * b + pos - 1`, by `DecodedByte`. */
  lemma DecodedByteAt(s: seq<Byte>, b: nat, pos: nat)
    requires 0 < pos < 8 && 8 * b + pos < |s|
    ensures DecodedByte(s, 7 * b + pos - 1) == SetBit7(Bit(s[8 * b], pos - 1), s[8 * b + pos])
  {
    DivUnique(7 * b + pos - 1, 7, b, pos - 1);
  }

  /** Four blocks of seven encode to four blocks of eight, and back. */
  lemma LengthsRoundTrip(n: nat)
    ensures DecodedLength(EncodedLength(n)) == n
  {
    var q, r := n / 7, n % 7;
    if r == 0 {
      DivUnique(8 * q, 8, q, 0);
    } else {
      DivUnique(8 * q + r + 1, 8, q, r + 1);
    }
  }

  /** Byte j of a block comes back from its header bit and its body. */
  lemma RoundTripBlock(blk: seq<Byte>, j: nat)
    requires j < |blk|
    ensures SetBit7(Bit(HeaderOf(blk), j), Low7(blk[j])) == blk[j]
  {
    HeaderBit(blk, j);
    SetBit7Split(blk[j]);
  }

  /** Body `pos` of block b exists in the encoding when its input byte does. */
  lemma EncodedIndexBound(n: nat, b: nat, pos: nat)
    requires 0 < pos < 8 && 7 * b + pos - 1 < n
    ensures 8 * b + pos < EncodedLength(n) && pos <= Min(7, n - 7 * b)
  {
    var q, r := n / 7, n % 7;
    DivUnique(n, 7, q, r);
    if b < q {
      assert 8 * b + 8 <= 8 * q;
    } else {
      assert b == q;
    }
  }

  /** Input byte `7 * b + pos - 1` comes back from block b of the encoding. */
  lemma RoundTripBody(d: seq<Byte>, b: nat, pos: nat)
    requires 0 < pos < 8 && 7 * b + pos - 1 < |d|
    ensures SetBit7(Bit(EncodedByte(d, 8 * b), pos - 1), EncodedByte(d, 8 * b + pos)) == d[7 * b + pos - 1]
  {
    var blk := d[7 * b..7 * b + Min(7, |d| - 7 * b)];
    BlockAt(d, b, pos);
    RoundTripBlock(blk, pos - 1);
  }

  /** Block b of the encoding: its header and its body byte `pos`, which holds input byte `7 * b + pos - 1`. */
  lemma BlockAt(d: seq<Byte>, b: nat, pos: nat)
    requires 0 < pos < 8 && 7 * b + pos - 1 < |d|
    ensures var blk := d[7 * b..7 * b + Min(7, |d| - 7 * b)];
      pos - 1 < |blk| && blk[pos - 1] == d[7 * b + pos - 1]
      && EncodedByte(d, 8 * b) == HeaderOf(blk) && EncodedByte(d, 8 * b + pos) == Low7(blk[pos - 1])
  {
    EncodedIndexBound(|d|, b, pos);
    BlockBytes(d, b);
    assert EncodedByte(d, 8 * b + pos) == Low7(d[8 * b + pos - b - 1]);
  }

  /** Output byte k of decoding an encoding is input byte k. */
  lemma RoundTripAt(d: seq<Byte>, e: seq<Byte>, k: nat)
    requires k < |d| && |e| == EncodedLength(|d|)
    requires forall j {:trigger EncodedByte(d, j)} :: 0 <= j < |e| ==> e[j] == EncodedByte(d, j)
    ensures DecodedByte(e, k) == d[k]
  {
    var b, pos := k / 7, k % 7 + 1;
    DivUnique(k, 7, b, pos - 1);
    EncodedIndexBound(|d|, b, pos);
    RoundTripBody(d, b, pos);
    assert e[8 * b] == EncodedByte(d, 8 * b);
    assert e[8 * b + pos] == EncodedByte(d, 8 * b + pos);
  }

  /** Decoding undoes encoding, for every byte sequence. */
  lemma DecodeEncode(d: seq<Byte>)
    ensures Decode(Encode(d)) == d
  {
    var e := Encode(d);
    EncodeBytewise(d);
    DecodeBytewise(e);
    LengthsRoundTrip(|d|);
    forall k | 0 <= k < |d|
      ensures Decode(e)[k] == d[k]
    {
      RoundTripAt(d, e, k);
    }
  }

  // ---------------------------------------------------------------------
  // The C routines
  // ---------------------------------------------------------------------

  /** Output bytes `sysex_encode` writes: one header more after a full block. */
  function EncodeFootprint(n: nat): (f: nat)
    ensures f == n + n / 7 + 1
  {
    EncodedLength(n) + (if n % 7 == 0 then 1 else 0)
  }

  lemma HeaderExtend(b: seq<Byte>, x: Byte)
    ensures HeaderOf(b + [x]) == HeaderOf(b) + TopBitAt(x, |b|)
  {
    assert (b + [x])[..|b|] == b;
  }

  /**
   * `sysex_encode`: encode `in_length` bytes into `out_sysex`, returning the
   * encoded length. It also clears the header of the block after the last
   * full one, so the buffer must hold `EncodeFootprint` bytes; past that it
   * is left alone.
   */
  method SysexEncode(inData: array<Byte>, outSysex: array<Byte>, inLength: nat)
    returns (outLength: nat)
    requires inLength <= inData.Length && inData != outSysex
    requires EncodeFootprint(inLength) <= outSysex.Length
    modifies outSysex
    ensures outLength == EncodedLength(inLength)
    ensures outSysex[..outLength] == Encode(inData[..inLength])
    ensures inLength % 7 == 0 ==> outSysex[outLength] == 0
    ensures forall j :: EncodeFootprint(inLength) <= j < outSysex.Length ==> outSysex[j] == old(outSysex[j])
  {
    ghost var d := inData[..inLength];
    ghost var orig := outSysex[..];
    if inLength > 0 {
      FootprintBound(inLength, 0, 0);
    }
    outSysex[0] := 0;
    assert outSysex[..] == orig[0 := 0];
    assert EncoderState(outSysex[..], orig, d, 0, 0);
    var base: nat, count: nat, blocks: nat := EncodeBytes(inData, outSysex, inLength, orig);
    DivUnique(inLength, 7, blocks, count);
    outLength := if count == 0 then base else base + count + 1;
    EncoderDone(outSysex[..], orig, d, blocks, count);
    assert inData[..inLength] == d;
    assert outSysex[..outLength] == outSysex[..][..outLength];
  }

  /** The loop of `sysex_encode`: every input byte in turn, seven to a block. */
  method EncodeBytes(inData: array<Byte>, outSysex: array<Byte>, inLength: nat, ghost orig: seq<int>)
    returns (base: nat, count: nat, ghost blocks: nat)
    requires inLength <= inData.Length && inData != outSysex
    requires EncodeFootprint(inLength) <= outSysex.Length
    requires EncoderState(outSysex[..], orig, inData[..inLength], 0, 0)
    modifies outSysex
    ensures 7 * blocks + count == inLength && base == 8 * blocks
    ensures EncoderState(outSysex[..], orig, inData[..inLength], blocks, count)
  {
    ghost var d := inData[..inLength];
    blocks := 0;
    base, count := 0, 0;
    var i: nat := 0;
    while i < inLength
      invariant i <= inLength && i == 7 * blocks + count && base == 8 * blocks
      invariant EncoderState(outSysex[..], orig, d, blocks, count)
    {
      FootprintBound(inLength, blocks, count);
      ghost var o, b0, c0 := outSysex[..], blocks, count;
      var data := inData[i];
      assert data == d[7 * b0 + c0];
      EncoderHeaderRoom(o, orig, d, blocks, count);
      base, count := EncodeByteAt(outSysex, base, count, data, o);
      blocks := if c0 == 6 then blocks + 1 else blocks;
      i := i + 1;
      EncoderStep(o, outSysex[..], orig, d, b0, c0);
    }
  }

  /** The output buffer after one turn of the `sysex_encode` loop. */
  function NextOut(o: seq<int>, base: nat, count: nat, data: Byte): seq<int>
    requires count < 7 && base + 1 + count < |o| && (count == 6 ==> base + 8 < |o|)
  {
    var o1 := o[base := o[base] + TopBitAt(data, count)][base + 1 + count := Low7(data)];
    if count == 6 then o1[base + 8 := 0] else o1
  }

  /**
   * The body of the `sysex_encode` loop: OR the top bit into the header at
   * `base`, store the low bits, and after the seventh byte of a block move
   * `base` on by 8 and clear the next header.
   */
  method EncodeByteAt(outSysex: array<Byte>, base: nat, count: nat, data: Byte, ghost o: seq<int>)
    returns (base': nat, count': nat)
    requires o == outSysex[..]
    requires count < 7 && base + 1 + count < outSysex.Length
    requires count == 6 ==> base + 8 < outSysex.Length
    requires outSysex[base] < Pow2(count) && Pow2(count + 1) <= 0x80
    modifies outSysex
    ensures outSysex[..] == NextOut(o, base, count, data)
    ensures base' == if count == 6 then base + 8 else base
    ensures count' == if count == 6 then 0 else count + 1
  {
    // The header bit at `count` is still clear, so `|=` adds it.
    outSysex[base] := outSysex[base] + TopBitAt(data, count);
    ghost var o0 := o[base := o[base] + TopBitAt(data, count)];
    assert outSysex[..] == o0;
    outSysex[base + 1 + count] := Low7(data);
    ghost var o1 := o0[base + 1 + count := Low7(data)];
    assert outSysex[..] == o1;
    if count == 6 {
      base' := base + 8;
      outSysex[base'] := 0;
      assert outSysex[..] == o1[base' := 0];
      count' := 0;
    } else {
      base', count' := base, count + 1;
    }
  }

  /**
   * The state of `sysex_encode` after blocks `b` full blocks and `c` more
   * bytes: the finished blocks hold their final bytes, the open block its
   * header so far and `c` bodies, and nothing past that has been touched.
   */
  ghost predicate EncoderState(o: seq<int>, orig: seq<int>, d: seq<Byte>, b: nat, c: nat)
  {
    var base, i := 8 * b, 7 * b + c;
    c < 7 && i <= |d| && |o| == |orig| && base + c < |o|
    && (forall k {:trigger EncodedByte(d, k)} :: 0 <= k < base ==> o[k] == EncodedByte(d, k))
    && o[base] == HeaderOf(d[7 * b..i])
    && (forall k {:trigger OpenBody(d, b, k)} :: base < k <= base + c ==> o[k] == OpenBody(d, b, k))
    && (forall j {:trigger orig[j]} :: base + 1 + c <= j < |o| ==> o[j] == orig[j])
  }

  /** The body stored at output index k while block b is open. */
  function OpenBody(d: seq<Byte>, b: nat, k: int): Byte
  {
    if 0 <= k - b - 1 < |d| then Low7(d[k - b - 1]) else 0
  }

  /** The open header has its bit `c` still clear. */
  lemma EncoderHeaderRoom(o: seq<int>, orig: seq<int>, d: seq<Byte>, b: nat, c: nat)
    requires EncoderState(o, orig, d, b, c)
    ensures 0 <= o[8 * b] < Pow2(c) && Pow2(c + 1) <= 0x80
  {
    Pow2Monotone(c + 1, 7);
  }

  /**
   * One input byte: its top bit joins the header and its body is stored;
   * after the seventh, the block is finished and the next header cleared.
   */
  lemma EncoderStep(o: seq<int>, o': seq<int>, orig: seq<int>, d: seq<Byte>, b: nat, c: nat)
    requires EncoderState(o, orig, d, b, c) && 7 * b + c < |d|
    requires 8 * b + 1 + c < |o| && (c == 6 ==> 8 * b + 8 < |o|)
    requires o' == NextOut(o, 8 * b, c, d[7 * b + c])
    ensures c < 6 ==> EncoderState(o', orig, d, b, c + 1)
    ensures c == 6 ==> EncoderState(o', orig, d, b + 1, 0)
  {
    var i := 7 * b + c;
    var o1 := o[8 * b := o[8 * b] + TopBitAt(d[i], c)][8 * b + 1 + c := Low7(d[i])];
    OpenStep(o, o1, orig, d, b, c);
    if c == 6 {
      SealBlock(d, o1, b);
      SealStep(o1, o', orig, d, b);
    }
  }

  /** Storing one more byte of the open block. */
  lemma OpenStep(o: seq<int>, o1: seq<int>, orig: seq<int>, d: seq<Byte>, b: nat, c: nat)
    requires EncoderState(o, orig, d, b, c) && 7 * b + c < |d| && 8 * b + 1 + c < |o|
    requires o1 == o[8 * b := o[8 * b] + TopBitAt(d[7 * b + c], c)][8 * b + 1 + c := Low7(d[7 * b + c])]
    ensures |o1| == |orig|
    ensures forall k :: 0 <= k < 8 * b ==> o1[k] == EncodedByte(d, k)
    ensures o1[8 * b] == HeaderOf(d[7 * b..7 * b + c + 1])
    ensures forall k :: 8 * b < k <= 8 * b + c + 1 ==> o1[k] == OpenBody(d, b, k)
    ensures forall j :: 8 * b + 2 + c <= j < |o1| ==> o1[j] == orig[j]
  {
    HeaderGrow(d, b, c);
    forall k | 8 * b < k <= 8 * b + c + 1
      ensures o1[k] == OpenBody(d, b, k)
    {
      if k < 8 * b + c + 1 {
        assert o1[k] == o[k];
      }
    }
  }

  /** The open header after one more byte. */
  lemma HeaderGrow(d: seq<Byte>, b: nat, c: nat)
    requires 7 * b + c < |d|
    ensures HeaderOf(d[7 * b..7 * b + c + 1]) == HeaderOf(d[7 * b..7 * b + c]) + TopBitAt(d[7 * b + c], c)
  {
    var i := 7 * b + c;
    assert d[7 * b..i + 1] == d[7 * b..i] + [d[i]];
    HeaderExtend(d[7 * b..i], d[i]);
  }

  /** Closing a full block: the next header is cleared and opened empty. */
  lemma SealStep(o1: seq<int>, o': seq<int>, orig: seq<int>, d: seq<Byte>, b: nat)
    requires 7 * b + 7 <= |d| && 8 * b + 8 < |o1| && |o1| == |orig|
    requires forall k :: 0 <= k < 8 * b + 8 ==> o1[k] == EncodedByte(d, k)
    requires forall j :: 8 * b + 8 <= j < |o1| ==> o1[j] == orig[j]
    requires o' == o1[8 * b + 8 := 0]
    ensures EncoderState(o', orig, d, b + 1, 0)
  {
    assert d[7 * (b + 1)..7 * (b + 1)] == [];
    forall k | 0 <= k < 8 * (b + 1)
      ensures o'[k] == EncodedByte(d, k)
    {
      assert o'[k] == o1[k];
    }
  }

  /** When the input is used up: the encoding, and the cleared header after it. */
  lemma EncoderDone(o: seq<int>, orig: seq<int>, d: seq<Byte>, b: nat, c: nat)
    requires EncoderState(o, orig, d, b, c) && 7 * b + c == |d|
    requires EncodeFootprint(|d|) <= |o|
    ensures var len := if c == 0 then 8 * b else 8 * b + c + 1;
      && len == EncodedLength(|d|) && len <= |o|
      && o[..len] == Encode(d)
      && (c == 0 ==> o[len] == 0)
      && forall j :: EncodeFootprint(|d|) <= j < |o| ==> o[j] == orig[j]
  {
    DivUnique(|d|, 7, b, c);
    var len := if c == 0 then 8 * b else 8 * b + c + 1;
    forall k | 0 <= k < len
      ensures o[..len][k] == EncodedByte(d, k)
    {
      EncoderDoneAt(o, orig, d, b, c, k);
    }
    EncodeMatch(d, o[..len]);
  }

  /** Byte k of the finished output is encoded byte k. */
  lemma EncoderDoneAt(o: seq<int>, orig: seq<int>, d: seq<Byte>, b: nat, c: nat, k: nat)
    requires EncoderState(o, orig, d, b, c) && 7 * b + c == |d|
    requires k < (if c == 0 then 8 * b else 8 * b + c + 1) && k < |o|
    ensures o[k] == EncodedByte(d, k)
  {
    if k == 8 * b {
      BlockBytes(d, b);
      assert d[7 * b..7 * b + Min(7, |d| - 7 * b)] == d[7 * b..|d|];
    } else if k > 8 * b {
      BlockBytes(d, b);
      assert o[k] == OpenBody(d, b, k);
    }
  }

  /** A sequence that agrees with `EncodedByte` everywhere is the encoding. */
  lemma EncodeMatch(d: seq<Byte>, e: seq<int>)
    requires |e| == EncodedLength(|d|)
    requires forall k :: 0 <= k < |e| ==> e[k] == EncodedByte(d, k)
    ensures e == Encode(d)
  {
    EncodeBytewise(d);
  }

  /** A finished block of seven: the first `8 * (b + 1)` bytes are final. */
  lemma SealBlock(d: seq<Byte>, o: seq<int>, b: nat)
    requires 7 * b + 7 <= |d| && 8 * b + 8 <= |o|
    requires forall k :: 0 <= k < 8 * b ==> o[k] == EncodedByte(d, k)
    requires o[8 * b] == HeaderOf(d[7 * b..7 * b + 7])
    requires forall k :: 8 * b < k <= 8 * b + 7 ==> o[k] == OpenBody(d, b, k)
    ensures forall k :: 0 <= k < 8 * b + 8 ==> o[k] == EncodedByte(d, k)
  {
    BlockBytes(d, b);
  }

  /** The bytes `sysex_encode` touches while block `b` has `c` bytes in it. */
  lemma FootprintBound(n: nat, b: nat, c: nat)
    requires 7 * b + c < n && c < 7
    ensures 8 * b + c + 1 < EncodeFootprint(n)
    ensures c == 6 ==> 8 * b + 8 < EncodeFootprint(n)
  {
    DivUnique(n, 7, n / 7, n % 7);
  }

  /**
   * `sysex_decode`: decode `in_length` encoded bytes into `out_data`,
   * returning the decoded length; nothing past it is written.
   */
  method SysexDecode(inSysex: array<Byte>, outData: array<Byte>, inLength: nat)
    returns (count: nat)
    requires inLength <= inSysex.Length && inSysex != outData
    requires DecodedLength(inLength) <= outData.Length
    modifies outData
    ensures count == DecodedLength(inLength)
    ensures outData[..count] == Decode(inSysex[..inLength])
    ensures forall j :: count <= j < outData.Length ==> outData[j] == old(outData[j])
  {
    ghost var s := inSysex[..inLength];
    count := DecodeBytes(inSysex, outData, inLength);
    DecodeBytewise(s);
    assert outData[..count] == Decode(s);
  }

  /** The loop of `sysex_decode`: each header byte is kept, each body byte gets its top bit back. */
  method DecodeBytes(inSysex: array<Byte>, outData: array<Byte>, inLength: nat)
    returns (count: nat)
    requires inLength <= inSysex.Length && inSysex != outData
    requires DecodedLength(inLength) <= outData.Length
    modifies outData
    ensures count == DecodedLength(inLength)
    ensures forall k :: 0 <= k < count ==> outData[k] == DecodedByte(inSysex[..inLength], k)
    ensures forall j :: count <= j < outData.Length ==> outData[j] == old(outData[j])
  {
    ghost var s := inSysex[..inLength];
    ghost var blocks: nat := 0;
    ghost var pos: nat := 0;
    count := 0;
    var msbStorage: Byte := 0;
    var byteIndex: int := 0;
    var i: nat := 0;
    while i < inLength
      invariant i <= inLength && pos < 8 && i == 8 * blocks + pos
      invariant count == 7 * blocks + (if pos == 0 then 0 else pos - 1)
      invariant pos != 0 ==> msbStorage == s[8 * blocks] && byteIndex == 7 - pos
      invariant forall k :: 0 <= k < count ==> outData[k] == DecodedByte(s, k)
      invariant forall j :: count <= j < outData.Length ==> outData[j] == old(outData[j])
    {
      DivUnique(i, 8, blocks, pos);
      if i % 8 == 0 {
        msbStorage := inSysex[i];
        byteIndex := 6;
      } else {
        var body := inSysex[i];
        var shift: nat := 6 - byteIndex;
        var msb := Bit(msbStorage, shift);
        DecodedByteAt(s, blocks, pos);
        DecodedLengthBound(inLength, blocks, pos);
        byteIndex := byteIndex - 1;
        outData[count] := SetBit7(msb, body);
        count := count + 1;
      }
      i := i + 1;
      if pos == 7 {
        blocks, pos := blocks + 1, 0;
      } else {
        pos := pos + 1;
      }
    }
    DivUnique(i, 8, blocks, pos);
  }

  lemma DecodedLengthBound(n: nat, b: nat, pos: nat)
    requires 0 < pos < 8 && 8 * b + pos < n
    ensures 7 * b + pos - 1 < DecodedLength(n)
  {
    DivUnique(n, 8, n / 8, n % 8);
  }

  lemma DecodedLengthMonotone(m: nat, n: nat)
    requires m <= n
    ensures DecodedLength(m) <= DecodedLength(n)
    decreases n - m
  {
    if m < n {
      DecodedLengthStep(m);
      DecodedLengthMonotone(m + 1, n);
    }
  }
}
