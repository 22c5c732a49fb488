# Freetribe core, modelled in Dafny

Freetribe is alternative firmware for the Korg Electribe 2: an ARM CPU
(panel, display, SD card, flash, MIDI, sysex) and a Blackfin DSP (audio
modules) that talk over a framed message link. This project models the
parts of it that carry the logic:

- the host-side sysex upload scripts (hex-file sender with its whole /
  chunked / byte-by-byte fallback ladder, the per-slice chunked sender, the
  WAV sample sender) over a MIDI output port that may refuse messages;
- the 7-bit sysex codec (`sysex_codec.c`) and the sample loader that
  decodes 5-byte groups (`sysex_manager.c`);
- the MIDI byte-stream parser (`midi_fsm.c`), the CPU sysex service
  (`svc_sysex.c`), the CPU side and the DSP side of the inter-processor
  message link (`svc_dsp.c`, `svc_cpu.c`), the panel service
  (`svc_panel.c`) and the display frame buffer (`svc_display.c`);
- the SD card protocol tables (`sd_protocol.c`) and the serial NOR flash
  driver (`dev_flash.c`);
- the polysynth voice manager, the pad keyboard note map, the Zoia
  encoder/button driver of the zontar app, the system23 delay line and the
  common string and bit helpers (`utils.c`, `macros.h`).

Pure code (encoders, decoders, tables, parsers written as expressions)
becomes datatypes, functions and lemmas. Code that updates state in place
becomes classes with `modifies` clauses. Buffers the C code writes are
`array`s; logs and queues it appends to are `seq` fields. Each method is
proved against a specification function, and the properties the code
promises are proved about those functions as lemmas.

Foreign calls are parameters: the MIDI port library, the DSP's fractional
multiply and the receive callbacks. The bytes an SPI device returns are
fields or arguments.

## Model

| member | source | states |
|---|---|---|
| MidiOut.Port.constructor | dsp/src/modules/wave2/util/sysex_send.py:66 | a new port has delivered nothing and is closed |
| MidiOut.Port.Open | dsp/src/modules/wave2/util/sysex_send.py:87 | opening the port marks it open and delivers nothing |
| MidiOut.Port.Close | dsp/src/modules/wave2/util/sysex_send.py:236 | closing the port marks it closed and delivers nothing |
| MidiOut.Port.Send | dsp/src/modules/wave2/util/sysex_send.py:113 | a send succeeds exactly when the port accepts the message, and only a successful send delivers it |
| MidiOut.AcceptedPrefixIsLongest | dsp/src/modules/wave2/util/sysex_send.py:130-137 | what a loop of sends delivers is a prefix of the messages, every one accepted, and it stops at the first refusal |
| MidiOut.AcceptedPrefixAll | dsp/src/modules/wave2/util/sysex_send.py:130-143 | all messages are delivered if and only if every one is accepted |
| MidiOut.AcceptedPrefixSplit | dsp/src/modules/wave2/util/sysex_send.py:130-137 | delivering an accepted first part and then the rest is the same as delivering the whole list |
| MidiOut.AcceptedPrefixStops | dsp/src/modules/wave2/util/sysex_send.py:130-145 | a loop that stops at the first refusal has delivered exactly the accepted prefix, and it reports success if and only if it reached the end |
| MidiOut.AcceptedPrefix | dsp/src/modules/wave2/util/sysex_send.py:130-137 | the accepted prefix is no longer than the messages |
| MidiOut.AcceptedStep | dsp/src/modules/wave2/util/sysex_send.py:130-137 | one more accepted message extends a prefix of accepted messages by that message |
| HexSender.HexRun | dsp/src/modules/wave2/util/sysex_send.py:21 | the greedy run of hex digits: all hex digits, and stopped only by a non-digit or the end |
| HexSender.FindHexTokens | dsp/src/modules/wave2/util/sysex_send.py:21-22 | every literal `re.findall` returns is `0x` followed by at least one hex digit; `FindHexTokensScan` and `LeftmostScanIsFindHexTokens` show it is exactly the leftmost, greedy, non-overlapping list of matches |
| HexSender.TokenAt | dsp/src/modules/wave2/util/sysex_send.py:21 | the greedy match at a matching position is `0x` and the whole run of hex digits that follows |
| HexSender.FindHexTokensScan | dsp/src/modules/wave2/util/sysex_send.py:21-22 | the literals found are a leftmost scan: each is the greedy match at the first matching position from where the previous one ended, and no match starts after the last one ends |
| HexSender.ScanStep | dsp/src/modules/wave2/util/sysex_send.py:21-22 | two leftmost scans that resume at the same position take the same next literal there |
| HexSender.ScanEnd | dsp/src/modules/wave2/util/sysex_send.py:21-22 | two leftmost scans that resume at the same position end there together |
| HexSender.ScanUnique | dsp/src/modules/wave2/util/sysex_send.py:21-22 | a text has exactly one leftmost scan |
| HexSender.LeftmostScanIsFindHexTokens | dsp/src/modules/wave2/util/sysex_send.py:21-22 | any leftmost, greedy, non-overlapping list of matches of the text is what findall returns |
| HexSender.HexRunOfDigits | dsp/src/modules/wave2/util/sysex_send.py:21 | the digit run of hex digits followed by a non-digit is exactly those digits |
| HexSender.FindLiteralThenRest | dsp/src/modules/wave2/util/sysex_send.py:21-22 | a literal followed by a space is found whole and the scan goes on after it |
| HexSender.NoTokensIffNoMatch | dsp/src/modules/wave2/util/sysex_send.py:22-26 | findall returns nothing if and only if the pattern matches at no position |
| HexSender.ParseHexFile | dsp/src/modules/wave2/util/sysex_send.py:11-36 | an unreadable file gives None; a file gives None if and only if no literal matches; otherwise a non-empty list of literals |
| HexSender.ParseHexFileIsScan | dsp/src/modules/wave2/util/sysex_send.py:11-29 | for a readable file the result is None if and only if its leftmost scan is empty, and otherwise that scan |
| HexSender.EncodeValue | dsp/src/modules/wave2/util/sysex_send.py:45-58 | five bytes per value, each below 0x80 and the last below 0x10 |
| HexSender.EncodeValueWeights | dsp/src/modules/wave2/util/sysex_send.py:48-58 | the five bytes read as base-128 digits (the last one base 16) give back the value's low 32 bits |
| HexSender.EncodeValueLow32 | dsp/src/modules/wave2/util/sysex_send.py:58 | bits above bit 31 are dropped: a value and its low 32 bits encode alike |
| HexSender.DigitsOfWeight | dsp/src/modules/wave2/util/sysex_send.py:50-58 | each byte of a digit group is recovered from the group's weighted value |
| HexSender.DigitsUnique | dsp/src/modules/wave2/util/sysex_send.py:50-58 | two digit groups with the same value are equal, so the encoding is injective on 32-bit values |
| HexSender.EncodePayload | dsp/src/modules/wave2/util/sysex_send.py:43-60 | the payload has five 7-bit bytes per value |
| HexSender.EncodePayloadGroup | dsp/src/modules/wave2/util/sysex_send.py:45-58 | bytes 5k to 5k+4 of the payload encode value k |
| HexSender.EncodePayloadAppend | dsp/src/modules/wave2/util/sysex_send.py:45-60 | encoding a concatenation is the concatenation of the encodings |
| HexSender.TokenValues | dsp/src/modules/wave2/util/sysex_send.py:45-46 | one value per literal in file order, literal k read by `int(token, 16)`; `ScanLiteralsText` shows the values written into a file come back |
| HexSender.HexDigitValue | dsp/src/modules/wave2/util/sysex_send.py:46 | a hex digit is worth less than 16 |
| HexSender.HexDigitsValue | dsp/src/modules/wave2/util/sysex_send.py:46 | k hex digits read base 16 give a value below 16^k |
| HexSender.TokenValue | dsp/src/modules/wave2/util/sysex_send.py:46 | a literal with k digits after `0x` reads as a value below 16^k |
| HexSender.HexDigitChar | dsp/src/modules/wave2/util/sysex_send.py:46 | the lower-case digit of a value below 16 reads back as that value |
| HexSender.HexDigits | dsp/src/modules/wave2/util/sysex_send.py:46 | the hex digits of a number are a non-empty digit string |
| HexSender.HexDigitsRoundTrip | dsp/src/modules/wave2/util/sysex_send.py:46 | reading back the hex digits of n gives n |
| HexSender.TokenValueRoundTrip | dsp/src/modules/wave2/util/sysex_send.py:46 | `0x` followed by the hex digits of n is a literal the pattern matches, and it reads as n |
| HexSender.ScanLiteralsText | dsp/src/modules/wave2/util/sysex_send.py:21-46 | scanning a text of literals written from numbers and reading their values gives the numbers back, in order |
| HexSender.FilePayload | dsp/src/modules/wave2/util/sysex_send.py:180-185 | the payload of a file has five 7-bit bytes per literal |
| HexSender.HexToSysexBytes | dsp/src/modules/wave2/util/sysex_send.py:38-60 | the append loop produces the payload of the literals' values: five clean bytes per literal |
| HexSender.FullMessage | dsp/src/modules/wave2/util/sysex_send.py:104 | the framed message is F0, the manufacturer id, the payload, then F7 |
| HexSender.ChunkSize | dsp/src/modules/wave2/util/sysex_send.py:124-126 | the slice size is at least 256; above 256 it is the smaller of the maximum and a tenth of the message |
| HexSender.Singletons | dsp/src/modules/wave2/util/sysex_send.py:151-152 | one single-byte message per byte, in order |
| HexSender.LadderOrder | dsp/src/modules/wave2/util/sysex_send.py:110-163 | slices are tried only after the whole message was refused, and single bytes only after some slice was refused; total failure means some byte was refused |
| HexSender.ChunkedDeliversMessage | dsp/src/modules/wave2/util/sysex_send.py:130-143 | when the slice strategy succeeds, the delivered slices are each at most the slice size and concatenate to the framed message |
| HexSender.SendChunks | dsp/src/modules/wave2/util/sysex_send.py:130-140 | the slice loop succeeds if and only if every slice is accepted, and delivers the accepted prefix of the slices |
| HexSender.SendBytes | dsp/src/modules/wave2/util/sysex_send.py:151-156 | the byte loop succeeds if and only if every byte is accepted, and delivers the accepted prefix of single-byte messages |
| HexSender.SendLadder | dsp/src/modules/wave2/util/sysex_send.py:110-163 | the ladder fails if and only if all three strategies failed, and the port's log grows by what the strategies delivered |
| HexSender.LadderOutcome | dsp/src/modules/wave2/util/sysex_send.py:110-163 | the whole message wins if and only if the port accepts it; the slice strategy wins only when every slice is accepted, and the byte strategy only when every byte is |
| HexSender.LadderLog | dsp/src/modules/wave2/util/sysex_send.py:110-163 | everything the ladder leaves delivered was accepted by the port |
| HexSender.LadderStepWhole | dsp/src/modules/wave2/util/sysex_send.py:110-115 | an accepted whole message wins, and it is all that is delivered |
| HexSender.SendFallback | dsp/src/modules/wave2/util/sysex_send.py:124-163 | once the whole message is refused, the result and the port's log are those of the ladder's chunked and byte-by-byte steps |
| HexSender.LadderStepChunked | dsp/src/modules/wave2/util/sysex_send.py:117-143 | after the whole message is refused, all slices accepted means the slice strategy wins with every slice delivered |
| HexSender.LadderStepBytes | dsp/src/modules/wave2/util/sysex_send.py:145-163 | after a slice is refused, the ladder succeeds if and only if every byte is accepted; the log is the accepted slices followed by the accepted bytes |
| HexSender.SendSysex | dsp/src/modules/wave2/util/sysex_send.py:98-163 | `send_sysex` frames the payload, picks the slice size, and reports and logs exactly what the ladder does |
| HexSender.Strip | dsp/src/modules/wave2/util/sysex_send.py:199 | the stripped answer is no longer than the input and neither starts nor ends with a character `str.isspace` accepts |
| HexSender.StripIsTrim | dsp/src/modules/wave2/util/sysex_send.py:199 | the stripped answer is a slice of the input, and everything cut off before and after it is whitespace |
| HexSender.DropUnderscoresSpec | dsp/src/modules/wave2/util/sysex_send.py:202 | removing underscores leaves none and keeps a string without any as it is |
| HexSender.DigitsHaveNoUnderscore | dsp/src/modules/wave2/util/sysex_send.py:202 | a digit string holds no underscore and is correctly grouped when non-empty |
| HexSender.GroupedValueOfDigits | dsp/src/modules/wave2/util/sysex_send.py:202-213 | plain digits read as their value, in base 16 and, when decimal, in base 10 |
| HexSender.GroupedJoin | dsp/src/modules/wave2/util/sysex_send.py:202-213 | digits joined by one underscore read as the digits without it |
| HexSender.HexBody | dsp/src/modules/wave2/util/sysex_send.py:202 | what is left after the optional prefix is no longer than the input |
| HexSender.HexBodyUnprefixed | dsp/src/modules/wave2/util/sysex_send.py:202 | a string that starts with a digit and has no `0x` prefix is its own body |
| HexSender.HexBodyPrefixed | dsp/src/modules/wave2/util/sysex_send.py:202 | after a `0x` or `0X` prefix, and one underscore if present, the body is the digits that follow |
| HexSender.Unsigned | dsp/src/modules/wave2/util/sysex_send.py:202-213 | the text after an optional sign is no longer than the input |
| HexSender.ApplySign | dsp/src/modules/wave2/util/sysex_send.py:202-213 | a sign keeps the outcome of the magnitude, and a negative value needs a leading `-` |
| HexSender.ParseHexInt | dsp/src/modules/wave2/util/sysex_send.py:202 | an empty answer is a ValueError, and a negative value comes only from a leading `-` |
| HexSender.ParseHexOfDigits | dsp/src/modules/wave2/util/sysex_send.py:202 | hex digits without a prefix read as their value |
| HexSender.MagnitudeOfPrefixed | dsp/src/modules/wave2/util/sysex_send.py:202 | after a `0x` or `0X` prefix, with or without one underscore, the magnitude is the digits' value |
| HexSender.ParseHexOfPrefixed | dsp/src/modules/wave2/util/sysex_send.py:202 | hex digits after a `0x` or `0X` prefix read as their value |
| HexSender.ParseHexUnsigned | dsp/src/modules/wave2/util/sysex_send.py:202 | a sign-free answer reads as its magnitude, and with a leading `-` as its negation |
| HexSender.ParseFormattedHex | dsp/src/modules/wave2/util/sysex_send.py:202 | the hex digits of n read back as n, bare and after `0x` or `0X` |
| HexSender.ParseHexSkipsUnderscore | dsp/src/modules/wave2/util/sysex_send.py:202 | one underscore between hex digits is skipped |
| HexSender.ParseHexSkipsPrefixUnderscore | dsp/src/modules/wave2/util/sysex_send.py:202 | one underscore after the `0x` prefix is skipped |
| HexSender.ParseDecInt | dsp/src/modules/wave2/util/sysex_send.py:213 | an empty answer is a ValueError, and a negative value comes only from a leading `-` |
| HexSender.DecDigitValue | dsp/src/modules/wave2/util/sysex_send.py:213 | a decimal digit is worth less than 10 |
| HexSender.DecDigits | dsp/src/modules/wave2/util/sysex_send.py:213 | the decimal digits of a number are a non-empty digit string |
| HexSender.DecDigitsRoundTrip | dsp/src/modules/wave2/util/sysex_send.py:213 | reading back the decimal digits of n gives n |
| HexSender.ParseDecUnsigned | dsp/src/modules/wave2/util/sysex_send.py:213 | a sign-free answer reads as its magnitude, with a leading `+` the same, and with a leading `-` as its negation |
| HexSender.ParseFormattedDecimal | dsp/src/modules/wave2/util/sysex_send.py:213 | the decimal digits of n read back as n, bare or after `+`, and as -n after `-` |
| HexSender.ParseDecSkipsUnderscore | dsp/src/modules/wave2/util/sysex_send.py:213 | one underscore between decimal digits is skipped: `int("2_048")` is 2048 |
| HexSender.ManufacturerIdFromInput | dsp/src/modules/wave2/util/sysex_send.py:199-207 | the id is always 7-bit: 0x7D for an empty or non-hex answer, otherwise the answer's value modulo 0x80 |
| HexSender.MaxChunkFromInput | dsp/src/modules/wave2/util/sysex_send.py:210-221 | the answer when it is an integer from 256 to 8192, otherwise 1024 |
| HexSender.SendTokens | dsp/src/modules/wave2/util/sysex_send.py:197-236 | the ladder runs on the framed payload with the answers given, and the port is closed afterwards |
| HexSender.Run | dsp/src/modules/wave2/util/sysex_send.py:165-237 | nothing is sent and the port is untouched when the file yields no literal; otherwise the result and the log are the ladder's and the port ends closed |
| ChunkedSender.Frames | dsp/src/modules/wave2/util/sysex_send_2.py:79-85 | one frame per payload slice; frame k frames slice k with the manufacturer id |
| ChunkedSender.Bodies | dsp/src/modules/wave2/util/sysex_send_2.py:79-85 | one body per frame |
| ChunkedSender.FramesShape | dsp/src/modules/wave2/util/sysex_send_2.py:79-85 | there are ceil(n / size) frames; frame k carries the slice starting at k times the size, at most size + 3 bytes long; the frame bodies concatenate to the payload |
| ChunkedSender.SendSysexChunked | dsp/src/modules/wave2/util/sysex_send_2.py:74-100 | a zero size fails before anything is sent; otherwise the result is true if and only if every frame is accepted, and the accepted prefix is delivered |
| ChunkedSender.ChunkFromInput | dsp/src/modules/wave2/util/sysex_send_2.py:137-148 | the answer when it is an integer from 32 to 4096, otherwise 256 |
| ChunkedSender.SendTokens | dsp/src/modules/wave2/util/sysex_send_2.py:126-161 | the frames of the encoded payload are sent with the answers given, and the port ends closed |
| ChunkedSender.Run | dsp/src/modules/wave2/util/sysex_send_2.py:102-161 | nothing happens when the file yields no literal; otherwise the frames are sent and the port ends closed |
| WavSender.Int32LE | dsp/src/modules/wave2/util/sysex_send_wav.py:68 | four little-endian bytes read as an `int32` stay in the `int32` range, and their 32-bit pattern is the bytes' little-endian value |
| WavSender.ReadWavMono32 | dsp/src/modules/wave2/util/sysex_send_wav.py:50-77 | a file is accepted if and only if it is mono, 4-byte samples and whole samples; sample i is the little-endian `int32` at bytes 4i to 4i+3 |
| WavSender.EncodeSample | dsp/src/modules/wave2/util/sysex_send_wav.py:79-90 | a sample encodes as the five 7-bit bytes of its 32-bit two's-complement pattern |
| WavSender.EncodeSamples | dsp/src/modules/wave2/util/sysex_send_wav.py:108-111 | the encoding loop gives five clean bytes per sample, the same payload the hex sender builds |
| WavSender.SysexMessage | dsp/src/modules/wave2/util/sysex_send_wav.py:127 | a sysex message is its data between F0 and F7, with no manufacturer byte |
| WavSender.WavMessages | dsp/src/modules/wave2/util/sysex_send_wav.py:120-127 | there is one message per 640-byte slice of the encoded data |
| WavSender.WavMessageAt | dsp/src/modules/wave2/util/sysex_send_wav.py:120-127 | message k is slice k framed as a sysex message |
| WavSender.WavMessagesShape | dsp/src/modules/wave2/util/sysex_send_wav.py:120-127 | there are ceil(n / 640) messages; message k carries bytes 640k up to 640k+640 (clamped), and its body is 7-bit clean |
| WavSender.SendChunks | dsp/src/modules/wave2/util/sysex_send_wav.py:124-133 | the send loop succeeds if and only if every message is accepted, and delivers the accepted prefix |
| WavSender.Run | dsp/src/modules/wave2/util/sysex_send_wav.py:92-139 | an invalid file gives status 1 with nothing sent; otherwise status 0 if and only if every message is accepted, the accepted prefix is delivered, and the port ends closed |
| SysexCodec.Msb | cpu/lib/sysex_codec.c:71 | the top bit of a byte is 0 or 1 |
| SysexCodec.Low7 | cpu/lib/sysex_codec.c:72 | the body of a byte is below 0x80 |
| SysexCodec.SetBit7 | cpu/lib/sysex_codec.c:118-120 | putting a top bit on a body keeps the body's low seven bits and sets the top bit when asked |
| SysexCodec.SetBit7Split | cpu/lib/sysex_codec.c:71-72 | a byte is its top bit put back on its low seven bits |
| SysexCodec.HeaderOf | cpu/lib/sysex_codec.c:74 | the header of a block of n bytes is below 2^n |
| SysexCodec.EncodeBlock | cpu/lib/sysex_codec.c:69-82 | a block of one to seven bytes encodes to one byte more |
| SysexCodec.BlockHeader | cpu/lib/sysex_codec.c:74 | a block's header has one bit per byte of the block, so it is below 2^n and a MIDI data byte |
| SysexCodec.Encode | cpu/lib/sysex_codec.c:61-85 | nothing encodes to nothing; otherwise the encoding is longer than the input and starts with the first block's header |
| SysexCodec.EncodedByte | cpu/lib/sysex_codec.c:74-75 | every byte placed in the encoding is a MIDI data byte |
| SysexCodec.HeaderBit | cpu/lib/sysex_codec.c:74 | bit j of a block's header is the top bit of byte j of the block |
| SysexCodec.HeaderBitUnused | cpu/lib/sysex_codec.c:67-80 | header bits past the end of a short block are zero |
| SysexCodec.EncodeBlockClean | cpu/lib/sysex_codec.c:69-82 | every byte of an encoded block is below 0x80 |
| SysexCodec.EncodeClean | cpu/lib/sysex_codec.c:61-85 | every encoded byte is a MIDI data byte |
| SysexCodec.EncodeLength | cpu/lib/sysex_codec.c:84 | the encoded length is eight per full block plus one header more than the rest |
| SysexCodec.EncodeBytewise | cpu/lib/sysex_codec.c:69-84 | encoded byte k is the header of block k / 8 at position 0, otherwise the low bits of the matching input byte |
| SysexCodec.BlockBytes | cpu/lib/sysex_codec.c:74-75 | block b of the encoding holds the header of input block b and the low bits of its bytes |
| SysexCodec.DecodeAt | cpu/lib/sysex_codec.c:112-121 | every eighth input byte emits nothing and every other byte emits one |
| SysexCodec.Decode | cpu/lib/sysex_codec.c:105-124 | the decoding is no longer than the input |
| SysexCodec.DecodedByte | cpu/lib/sysex_codec.c:116-120 | output byte k has the low bits of its body byte and, as top bit, the header bit OR-ed into that byte's own top bit; past the input it is 0 |
| SysexCodec.DecodedLengthStep | cpu/lib/sysex_codec.c:111-121 | one more input byte adds one output byte unless it is a header |
| SysexCodec.DecodeLength | cpu/lib/sysex_codec.c:105-124 | the decoded length is n - ceil(n / 8): one byte fewer per header |
| SysexCodec.DecodePrefix | cpu/lib/sysex_codec.c:111-122 | decoding a prefix of the input gives a prefix of the output |
| SysexCodec.DecodeIndex | cpu/lib/sysex_codec.c:116-120 | a body byte lands at the output index counted so far, with its top bit from its block's header |
| SysexCodec.DecodeBodyAt | cpu/lib/sysex_codec.c:116-120 | body pos of block b lands on output byte 7b + pos - 1 with header bit pos - 1 as its top bit |
| SysexCodec.DecodeBytewise | cpu/lib/sysex_codec.c:111-123 | output byte k is body k % 7 + 1 of block k / 7 with its header bit |
| SysexCodec.LengthsRoundTrip | cpu/lib/sysex_codec.c:84-123 | decoding an encoded length gives back the original length |
| SysexCodec.RoundTripBlock | cpu/lib/sysex_codec.c:71-120 | a block's byte comes back from its header bit and its body |
| SysexCodec.RoundTripBody | cpu/lib/sysex_codec.c:74-120 | input byte 7b + pos - 1 comes back from block b of its encoding |
| SysexCodec.RoundTripAt | cpu/lib/sysex_codec.c:61-124 | output byte k of decoding an encoding is input byte k |
| SysexCodec.DecodeEncode | cpu/lib/sysex_codec.c:61-124 | decoding undoes encoding for every byte sequence |
| SysexCodec.HeaderExtend | cpu/lib/sysex_codec.c:74 | OR-ing one more top bit into the header adds it at the block's next position |
| SysexCodec.SysexEncode | cpu/lib/sysex_codec.c:61-85 | `sysex_encode` returns the encoded length, writes the encoding, clears the next header after a full last block, and leaves the rest of the buffer alone |
| SysexCodec.EncodeFootprint | cpu/lib/sysex_codec.c:67-84 | the encoder touches n bytes, one header per full block of seven, and one header more |
| SysexCodec.EncodeBytes | cpu/lib/sysex_codec.c:69-83 | the loop ends after the whole input, with the buffer in the encoder invariant for the last block |
| SysexCodec.BlockAt | cpu/lib/sysex_codec.c:74-75 | body byte pos of block b is the low bits of input byte 7b + pos - 1, and the block's header is the header of that input block |
| SysexCodec.EncodeByteAt | cpu/lib/sysex_codec.c:70-82 | one loop turn ORs the top bit into the header, stores the body, and after the seventh byte moves on by eight and clears the next header |
| SysexCodec.EncoderStep | cpu/lib/sysex_codec.c:69-83 | one loop turn keeps the encoder invariant: finished blocks final, the open block partial, the rest untouched |
| SysexCodec.EncoderDone | cpu/lib/sysex_codec.c:83-84 | when the input is used up the buffer holds the encoding, of the length returned |
| SysexCodec.SysexDecode | cpu/lib/sysex_codec.c:105-124 | `sysex_decode` returns the decoded length, writes the decoding and nothing past it |
| SysexCodec.DecodeBytes | cpu/lib/sysex_codec.c:111-123 | the loop writes `DecodedLength(n)` bytes, byte k being the one `DecodedByte` places there, and nothing past them |
| SysexCodec.DecodeByteAt | cpu/lib/sysex_codec.c:111-123 | output byte k of the decoding is `DecodedByte` k, for every k below the decoded length |
| SysexCodec.DecodedByteAt | cpu/lib/sysex_codec.c:116-120 | output byte 7b + pos - 1 is body pos of block b with header bit pos - 1 on top |
| SampleLoader.GroupPattern | cpu/src/apps/wave2/sysex_manager.c:58-66 | the five bytes' 7, 7, 7, 7 and 4 low bits placed at bits 0, 7, 14, 21 and 28 form a 32-bit pattern |
| SampleLoader.DecodeGroup | cpu/src/apps/wave2/sysex_manager.c:58-66 | the reconstructed `int32_t` is in the `int32` range |
| SampleLoader.DecodeMessage | cpu/src/apps/wave2/sysex_manager.c:10-50 | a message shorter than two bytes yields nothing; otherwise one value per complete group of five, group i at byte 5i, a trailing partial group ignored |
| SampleLoader.SysexCallback | cpu/src/apps/wave2/sysex_manager.c:6-72 | a null message sets nothing; otherwise the callback sets `SAMPLE_LOAD` of module 0 once per decoded value, in order |
| SampleLoader.DecodeEncodedGroup | cpu/src/apps/wave2/sysex_manager.c:58-66 | the loader recovers the low 32 bits of every value the host encoder was given, as an `int32` |
| SampleLoader.PatternOfDigits | cpu/src/apps/wave2/sysex_manager.c:58-66 | shifting four 7-bit digits into place and OR-ing them adds up their weights |
| SampleLoader.EncodeDecodedGroup | cpu/src/apps/wave2/sysex_manager.c:58-66 | encoding what the loader decoded from a well-formed group gives the group back |
| SampleLoader.DecodeEncodedPayload | cpu/src/apps/wave2/sysex_manager.c:30-69 | an encoded payload decodes to its values, each reduced to `int32` |
| SampleLoader.GroupPatternLowBits | cpu/src/apps/wave2/sysex_manager.c:59-60 | the low seven bits of a group's pattern are those of its first byte |
| SampleLoader.HexFrameMisaligned | cpu/src/apps/wave2/sysex_manager.c:30-66 | a hex-file sender's body, the id byte then the groups, decodes to as many values as were sent, but each read one byte early: the first value's low seven bits are the id's |
| SampleLoader.HexFrameMisreadExample | cpu/src/apps/wave2/sysex_manager.c:30-66 | the value 0 sent after the id 0x7D reaches the DSP as 0x7D |
| MidiFsm.Kind | cpu/lib/midi_fsm.c:525-544 | a byte is real-time if and only if it is at least F8, system common if and only if F0 to F7, channel status if and only if 80 to EF, data otherwise |
| MidiFsm.ChannelState | cpu/lib/midi_fsm.c:328-360 | each channel status nibble 8 to E selects the state waiting for its first data byte, so the error state is never chosen |
| MidiFsm.Initial | cpu/lib/midi_fsm.c:174-197 | the parser starts waiting for a status byte with no callback invoked |
| MidiFsm.RealtimeStep | cpu/lib/midi_fsm.c:254-289 | a real-time byte returns 1, records its callback with the current channel and data bytes, and keeps state, channel, buffer and body count |
| MidiFsm.CommonStep | cpu/lib/midi_fsm.c:292-310 | F0 opens an empty body; F7 waits again and delivers a non-empty body to the sysex callback; F1 to F6 change nothing; none returns 1 |
| MidiFsm.ChannelStep | cpu/lib/midi_fsm.c:313-363 | a channel status byte records its channel, selects the state for its kind, calls nothing, and drops an unfinished body |
| MidiFsm.DataStep | cpu/lib/midi_fsm.c:366-473 | a data byte returns 1 exactly when it fires one event callback; inside a body it is stored while the buffer has room, and the body is dropped when it is full |
| MidiFsm.Run | cpu/lib/midi_fsm.c:513-545 | feeding any byte string keeps the parser's invariant |
| MidiFsm.Invoke | cpu/lib/midi_fsm.c:212-236 | an event callback sees the channel and both data bytes; the counter advances modulo 2^32 and both data bytes are cleared; nothing else changes |
| MidiFsm.InvokeSysex | cpu/lib/midi_fsm.c:215-219 | the sysex callback sees exactly the stored bytes and nothing else changes |
| MidiFsm.Next | cpu/lib/midi_fsm.c:513-545 | one byte: real-time returns 1 and keeps state, channel and buffer; F0 opens an empty body; F7 delivers a non-empty body and waits; channel status records the channel and drops a body; a data byte is stored while the body fits and otherwise drops it; the status is 1 if and only if an event callback ran |
| MidiFsm.RunAppend | cpu/lib/midi_fsm.c:513-545 | feeding two byte strings in turn is feeding their concatenation |
| MidiFsm.RunCons | cpu/lib/midi_fsm.c:513-545 | feeding a byte and then the rest is feeding the whole string |
| MidiFsm.SysexBodyStored | cpu/lib/midi_fsm.c:451-458 | data bytes inside a sysex body are stored in order while they fit, and call nothing |
| MidiFsm.SysexMessageDelivered | cpu/lib/midi_fsm.c:295-306 | F0, a body of 1 to 0x2000 data bytes and F7 give the sysex callback exactly the body, and the parser waits again |
| MidiFsm.WaitingIgnoresData | cpu/lib/midi_fsm.c:366-473 | data bytes while waiting for a status byte are discarded and call nothing |
| MidiFsm.SysexOverflowDropped | cpu/lib/midi_fsm.c:452-460 | a body longer than the 0x2000-byte buffer is dropped: no callback at all |
| MidiFsm.ChannelStatusAbortsSysex | cpu/lib/midi_fsm.c:324-327 | a channel status byte inside a sysex body discards it, so a later F7 calls nothing |
| MidiFsm.TwoByteMessage | cpu/lib/midi_fsm.c:369-448 | a two-data-byte message fires after its second data byte with channel and both bytes, and running status repeats it |
| MidiFsm.DataPair | cpu/lib/midi_fsm.c:369-448 | in a state waiting for the first byte of a pair, two data bytes fire the pair's event with both bytes and return to that state with the data cleared |
| MidiFsm.OneByteMessage | cpu/lib/midi_fsm.c:422-437 | program change and channel aftertouch fire on each data byte with a zero second byte and keep their state |
| MidiFsm.MidiParser.constructor | cpu/lib/midi_fsm.c:174-197 | the globals start at the initial state |
| MidiFsm.MidiParser.InvokeCallback | cpu/lib/midi_fsm.c:212-236 | the globals change as `Invoke` says |
| MidiFsm.MidiParser.InvokeSysexCallback | cpu/lib/midi_fsm.c:215-219 | the globals change as `InvokeSysex` says |
| MidiFsm.MidiParser.RxRealtime | cpu/lib/midi_fsm.c:254-289 | the real-time handler matches its step function |
| MidiFsm.MidiParser.RxCommon | cpu/lib/midi_fsm.c:292-310 | the system-common handler matches its step function |
| MidiFsm.MidiParser.RxChannel | cpu/lib/midi_fsm.c:313-363 | the channel-status handler matches its step function |
| MidiFsm.MidiParser.RxData | cpu/lib/midi_fsm.c:366-473 | the data-byte handler matches its step function |
| MidiFsm.MidiParser.ReceiveByte | cpu/lib/midi_fsm.c:513-545 | `midi_receive_byte` updates the globals and returns the status as `Next` says |
| MidiFsm.RealtimeClearsPendingKey | cpu/lib/midi_fsm.c:232-233 | as written, a real-time byte between key and velocity of a note-on makes the note-on callback see key 0 |
| MidiFsm.NoteOnKeyPending | cpu/lib/midi_fsm.c:387-397 | a note-on status and a key leave the parser waiting for the velocity, with the channel and the key stored and nothing fired |
| MidiFsm.RealtimeThenVelocity | cpu/lib/midi_fsm.c:232-233 | as written, a real-time byte while the velocity is awaited fires its callback and the velocity then fires a note-on with key 0 |
| MidiFsm.RealtimeStepIntended | cpu/lib/midi_fsm.c:254-289 | the corrected real-time step runs the callback and counts it, and changes nothing else |
| MidiFsm.NextIntended | cpu/lib/midi_fsm.c:513-545 | the parser step with the corrected real-time handling keeps the parser's invariant |
| MidiFsm.InvokeCore | cpu/lib/midi_fsm.c:212-236 | invoking a callback from states that agree apart from log and counter gives states that agree, with the same new callback |
| MidiFsm.Core | cpu/lib/midi_fsm.c:212-236 | the part of the state callbacks do not log: the state with an empty log and a zero counter, from which the log and counter rebuild it |
| MidiFsm.RealtimeInvisible | cpu/lib/midi_fsm.c:513-545 | with the correction, the byte after a real-time byte gives the same state, status and callbacks as without it |
| MidiFsm.RealtimeKeepsPendingKey | cpu/lib/midi_fsm.c:383-393 | with the correction, a note-on interrupted by a real-time byte keeps its key |
| SysexService.DecodeInto | cpu/src/kernel/service/svc_sysex.c:145 | the decoded body overwrites the start of the decode buffer, no longer than the body, and the rest of the buffer keeps its old bytes |
| SysexService.BodyStep | cpu/src/kernel/service/svc_sysex.c:131-194 | an unknown id fails and changes nothing; both write commands clear address and length; a command completes if and only if its body is non-empty and (for the writes) a length was set; only a completed RAM write adds a write |
| SysexService.Parse | cpu/src/kernel/service/svc_sysex.c:68-127 | a wrong manufacturer byte or product id fails with the state unchanged, and the state changes only for a Korg message with the right product id and a command byte |
| SysexService.ShortMessageRejected | cpu/src/kernel/service/svc_sysex.c:96-108 | with the length guard, a message of three or four bytes fails and changes nothing |
| SysexService.CommandParts | cpu/src/kernel/service/svc_sysex.c:79-111 | a command message has the Korg id, the product id 0x124, its command byte at index 5 and its encoded payload after it |
| SysexService.Command | cpu/src/kernel/service/svc_sysex.c:79-111 | a command message is six header bytes followed by the encoded payload |
| SysexService.ProductIdOf | cpu/src/kernel/service/svc_sysex.c:96-108 | the three product-id bytes read big-endian are below 2^24, and equal 0x124 exactly for the bytes 0x00, 0x01, 0x24 |
| SysexService.AddressWords | cpu/src/kernel/service/svc_sysex.c:149-154 | a body that starts with an address and a length, little-endian, reads them back |
| SysexService.SetWriteAddress | cpu/src/kernel/service/svc_sysex.c:142-158 | a SET_WRITE_ADDRESS command carrying two little-endian 32-bit words sets exactly that address and length and writes nothing |
| SysexService.AddressStep | cpu/src/kernel/service/svc_sysex.c:142-158 | a non-empty SET_WRITE_ADDRESS body completes, decodes into the buffer and loads address and length from its first eight bytes |
| SysexService.WriteCpuRam | cpu/src/kernel/service/svc_sysex.c:160-171 | after a length n is set, a WRITE_CPU_RAM carrying n bytes copies exactly those bytes to the address and clears address and length |
| SysexService.WriteWithoutAddress | cpu/src/kernel/service/svc_sysex.c:160-171 | a WRITE_CPU_RAM with no length set or an empty body fails, writes nothing and still clears address and length |
| SysexService.ParseHeaderAsWritten | cpu/src/kernel/service/svc_sysex.c:68-111 | the header loop as written reaches the state and the body length that `HeaderAsWritten` gives |
| SysexService.HeaderAsWritten | cpu/src/kernel/service/svc_sysex.c:68-111 | the header reaches the body if and only if the message has at least three bytes, the Korg id and the product-id bytes 0x00 0x01 0x24 at indices 2 to 4; the body length passed on is n - 6, 0 for five bytes, and wraps to 2^32 + n - 6 below that |
| SysexService.ShortMessageOverrun | cpu/src/kernel/service/svc_sysex.c:96-111 | as written, a three-byte message over stale bytes 0x01 0x24 passes the product-id check and the body is parsed with length 2^32 - 3 |
| SysexService.SysexService.constructor | cpu/src/kernel/service/svc_sysex.c:54 | address and length start at zero with an empty write log |
| SysexService.SysexService.DecodeBody | cpu/src/kernel/service/svc_sysex.c:145 | the decode buffer changes as `DecodeInto` says |
| SysexService.SysexService.SetWriteAddress | cpu/src/kernel/service/svc_sysex.c:142-158 | the SET_WRITE_ADDRESS case matches `BodyStep` |
| SysexService.SysexService.LoadAddress | cpu/src/kernel/service/svc_sysex.c:149-154 | address and length become the little-endian words of buffer bytes 0-3 and 4-7, and nothing else changes |
| SysexService.SysexService.Write | cpu/src/kernel/service/svc_sysex.c:160-187 | the two write cases match `BodyStep` |
| SysexService.SysexService.ParseBody | cpu/src/kernel/service/svc_sysex.c:131-194 | `_parse_msg_body` returns the result and leaves the state that `BodyStep` gives |
| SysexService.SysexService.SysexParse | cpu/src/kernel/service/svc_sysex.c:68-127 | `sysex_parse` with the length guard returns the result and leaves the state that `Parse` gives |
| DspService.SetParamPayload | cpu/src/kernel/service/svc_dsp.c:245-251 | the set-param payload is 8 bytes: module id and parameter index as little-endian 16-bit words, then the value's 32-bit pattern little-endian |
| DspService.GetParamPayload | cpu/src/kernel/service/svc_dsp.c:254-265 | the get-param payload is 4 bytes: the 8-bit module id widened to 16 bits and the index, little-endian |
| DspService.InitialRx | cpu/src/kernel/service/svc_dsp.c:363-413 | the receiver starts waiting for a start byte |
| DspService.Frame | cpu/src/kernel/service/svc_dsp.c:323-336 | a frame is the start byte, the type, the id, the payload length and the payload |
| DspService.Step | cpu/src/kernel/service/svc_dsp.c:363-413 | one received byte keeps the receiver's invariant, and dispatches a message if and only if the payload state has all `length` bytes; the message is the stored header and payload and the receiver waits for a start byte again |
| DspService.Run | cpu/src/kernel/service/svc_dsp.c:363-413 | feeding bytes keeps the receiver's invariant and every dispatched message carries the full payload buffer |
| DspService.RunAppend | cpu/src/kernel/service/svc_dsp.c:363-413 | feeding two byte strings in turn is feeding their concatenation, and the messages add up |
| DspService.RunCons | cpu/src/kernel/service/svc_dsp.c:363-413 | feeding a byte and then the rest is feeding the whole string |
| DspService.IgnoredUntilStart | cpu/src/kernel/service/svc_dsp.c:377-382 | before a start byte every byte is ignored and nothing is dispatched |
| DspService.PayloadStored | cpu/src/kernel/service/svc_dsp.c:399-402 | payload bytes are stored in order while fewer than `length` have arrived, and nothing is dispatched |
| DspService.FrameDispatchedOnNextByte | cpu/src/kernel/service/svc_dsp.c:363-413 | a whole frame dispatches nothing; the byte after it dispatches the message with its type, id, length and payload, and is consumed |
| DspService.ParamValueReadsOutOfBounds | cpu/src/kernel/service/svc_dsp.c:482-483 | as written, the parameter value reads `payload[5 << 8]`, outside the receive buffer whatever it holds |
| DspService.ParamValueAsWritten | cpu/src/kernel/service/svc_dsp.c:481-483 | as written, a value exists only when index 1280 is inside the payload; its top half is bytes 6 and 7, and bits 8 to 15 are always zero, so byte 5 never reaches it |
| DspService.ParamValueOf | cpu/src/kernel/service/svc_dsp.c:482-483 | the corrected value is below 2^32 and its low 16 bits are payload bytes 4 and 5, little-endian |
| DspService.ParamValueOfSetPayload | cpu/src/kernel/service/svc_dsp.c:238-252 | the corrected value decoding recovers the 32-bit pattern a set-param payload carries |
| DspService.Handle | cpu/src/kernel/service/svc_dsp.c:415-510 | the handler reports success if and only if the message is a module PARAM_VALUE or a system PORT_STATE, and it calls at most one callback, only on success |
| DspService.Requested | cpu/src/kernel/service/svc_dsp.c:512 | expecting a response adds one to the `uint32_t` count |
| DspService.Received | cpu/src/kernel/service/svc_dsp.c:514-519 | a response takes one off the count, never below zero |
| DspService.RequestThenResponse | cpu/src/kernel/service/svc_dsp.c:512-519 | a request followed by its response leaves the count where it was |
| DspService.Word16 | cpu/src/kernel/service/svc_dsp.c:477-479 | a 16-bit field is assembled as the little-endian value of its two bytes |
| DspService.ParamValueBytes | cpu/src/kernel/service/svc_dsp.c:481-483 | the value is assembled from bytes 4 to 7 as the corrected `ParamValueOf` says |
| DspService.DspLink.constructor | cpu/src/kernel/service/svc_dsp.c:77-89 | the receiver waits for a start byte, nothing is pending, queued or called, and no callback is registered |
| DspService.DspLink.TransmitMessage | cpu/src/kernel/service/svc_dsp.c:323-336 | the queue grows by the framed message and nothing else changes |
| DspService.DspLink.SetModuleParam | cpu/src/kernel/service/svc_dsp.c:238-252 | the queue grows by the set-param frame and no response is expected |
| DspService.DspLink.SetParamBytes | cpu/src/kernel/service/svc_dsp.c:238-252 | a fresh buffer holding the module id, the index and the value, little-endian, as `SetParamPayload` lays them out |
| DspService.DspLink.GetModuleParam | cpu/src/kernel/service/svc_dsp.c:254-265 | one more response is expected and the queue grows by the get-param frame |
| DspService.DspLink.GetPortState | cpu/src/kernel/service/svc_dsp.c:271-279 | one more response is expected and the queue grows by an empty port-state request |
| DspService.DspLink.RegisterCallback | cpu/src/kernel/service/svc_dsp.c:220-235 | only the module PARAM_VALUE and system PORT_STATE slots can be set or cleared; nothing else changes |
| DspService.DspLink.HandleMessage | cpu/src/kernel/service/svc_dsp.c:415-510 | the callbacks and the pending count change as `Handle` says, and a success retires one pending response |
| DspService.DspLink.Receive | cpu/src/kernel/service/svc_dsp.c:363-413 | the receiver moves as `Step` says, and a dispatched message is handled |
| DspService.DspLink.Service | cpu/src/kernel/service/svc_dsp.c:192-204 | a waiting byte is parsed; with none, the DSP is polled if and only if responses are pending |
| CpuService.ParamValueResponse | dsp/src/kernel/service/svc_cpu.c:421-433 | the param-value response is 6 bytes: module id and index as 16-bit words, then only the low 16 bits of the value, little-endian |
| CpuService.ParamNameResponse | dsp/src/kernel/service/svc_cpu.c:435-460 | the param-name response is module id, index, the name and a NUL: the name's length plus 5 bytes |
| CpuService.PortStateResponse | dsp/src/kernel/service/svc_cpu.c:462-473 | the port-state response is the three port words, little-endian |
| CpuService.Step | dsp/src/kernel/service/svc_cpu.c:210-264 | a byte keeps the receiver's invariant; the message is handled if and only if the payload state has `length` bytes once this byte is counted; the receiver then waits for a start byte |
| CpuService.Run | dsp/src/kernel/service/svc_cpu.c:210-264 | feeding bytes keeps the receiver's invariant and every handled message carries the full payload buffer |
| CpuService.RunCons | dsp/src/kernel/service/svc_cpu.c:210-264 | feeding a byte and then the rest is feeding the whole string |
| CpuService.RunAppend | dsp/src/kernel/service/svc_cpu.c:210-264 | feeding two byte strings in turn is feeding their concatenation, and the messages add up |
| CpuService.HeaderRead | dsp/src/kernel/service/svc_cpu.c:224-244 | the four header bytes leave the receiver at the payload with type, id and length recorded and nothing handled |
| CpuService.PayloadStored | dsp/src/kernel/service/svc_cpu.c:246-250 | all but the last payload byte are stored in order and nothing is handled |
| CpuService.FrameHandledOnLastByte | dsp/src/kernel/service/svc_cpu.c:246-258 | a frame with a payload is handled on its last byte, with its type, id, length and payload |
| CpuService.EmptyFrameConsumesNextByte | dsp/src/kernel/service/svc_cpu.c:246-258 | a zero-length frame is handled only when one more byte arrives, which it consumes |
| CpuService.SetParamValue | dsp/src/kernel/service/svc_cpu.c:360-362 | the value is bytes 4 to 7 little-endian read as an `int32_t` |
| CpuService.Handle | dsp/src/kernel/service/svc_cpu.c:266-419 | only a module SET_PARAM_VALUE calls `module_set_param` and it sends nothing; CHECK_READY and GET_PORT_STATE both answer with the port state; a response is sent if and only if the message is a module get-value or get-name or a system check-ready or get-port-state |
| CpuService.Int32Unique | dsp/src/kernel/service/svc_cpu.c:360-362 | two `int32_t` values with the same 32-bit pattern are equal |
| CpuService.SetParamDelivered | dsp/src/kernel/service/svc_cpu.c:352-369 | a set-param request built by the CPU reaches `module_set_param` with its index and its `int32_t` value unchanged |
| CpuService.PortStateReplyUnrecognised | dsp/src/kernel/service/svc_cpu.c:314-319 | the CPU's port-state request is answered under an id the CPU does not recognise, so the CPU neither reports the ports nor retires the request |
| CpuService.ParamValueLowBitsDelivered | dsp/src/kernel/service/svc_cpu.c:425-427 | the CPU receives the module id, the index and only the low 16 bits of the value it asked for |
| CpuService.ParamValueRequestAnswered | dsp/src/kernel/service/svc_cpu.c:425-427 | the DSP answers a get-param request with a param-value frame for the module, the index and the value the module reports |
| CpuService.ParamValueResponseRead | cpu/src/kernel/service/svc_dsp.c:476-483 | the CPU reads a param-value reply as the module id, the index and a value whose low 16 bits are those sent |
| CpuService.CpuLink.constructor | dsp/src/kernel/service/svc_cpu.c:212-218 | the receiver waits for a start byte and nothing has been sent or set |
| CpuService.CpuLink.TransmitMessage | dsp/src/kernel/service/svc_cpu.c:194-207 | the queue grows by the framed message and nothing else changes |
| CpuService.CpuLink.RespondParamValue | dsp/src/kernel/service/svc_cpu.c:421-433 | the queue grows by the param-value frame |
| CpuService.CpuLink.RespondParamName | dsp/src/kernel/service/svc_cpu.c:435-460 | the queue grows by the param-name frame |
| CpuService.CpuLink.ParamNameBytes | dsp/src/kernel/service/svc_cpu.c:435-460 | a fresh buffer holding the module id, the index and the name as `ParamNameResponse` lays them out |
| CpuService.CpuLink.RespondPortState | dsp/src/kernel/service/svc_cpu.c:462-473 | the queue grows by the port-state frame |
| CpuService.CpuLink.HandleSetParam | dsp/src/kernel/service/svc_cpu.c:352-369 | one `module_set_param` call is recorded with the index and the `int32_t` value |
| CpuService.CpuLink.HandleMessage | dsp/src/kernel/service/svc_cpu.c:266-279 | the queue and the recorded calls grow as `Handle` says |
| CpuService.CpuLink.Receive | dsp/src/kernel/service/svc_cpu.c:210-264 | the receiver moves as `Step` says, and a completed message is handled at once |
| PanelService.Int8 | cpu/src/kernel/service/svc_panel.c:316 | `(int8_t)b` is the signed byte with the same bit pattern |
| PanelService.BigEndianWord | cpu/src/kernel/service/svc_panel.c:364 | four message bytes read most significant first give a 32-bit word whose bytes are those four |
| PanelService.Parse | cpu/src/kernel/service/svc_panel.c:302-398 | an unknown id is a warning with no effect; a button event is published and reported as a parse error; the ACK is published with its big-endian word and returns what publishing returns; encoder, knob, undefined, trigger and XY messages succeed and invoke their callback if and only if it is registered; the low held-buttons word is only stored; the high word is stored and reported if a callback is registered |
| PanelService.KnobOrTrigger | cpu/src/kernel/service/svc_panel.c:321-334 | a knob message from control 0x11 on goes to the trigger callback with the velocity and state, and below it to the knob callback with the value |
| PanelService.EncoderAndTriggerArguments | cpu/src/kernel/service/svc_panel.c:314-348 | the encoder callback gets the encoder and the fourth byte as a signed delta; the trigger callback gets the pad, the velocity and whether the fifth byte is non-zero |
| PanelService.XyCoordinates | cpu/src/kernel/service/svc_panel.c:350-357 | the XY callback receives the two big-endian 16-bit halves of the message body |
| PanelService.HeldButtonsReported | cpu/src/kernel/service/svc_panel.c:369-389 | after a low and a high held-buttons message the callback reports both words, and it fires only on the high one |
| PanelService.LedMessage | cpu/src/kernel/service/svc_panel.c:215-224 | the set-LED message is id 0, the LED index, the brightness and two zero bytes |
| PanelService.Toggled | cpu/src/kernel/service/svc_panel.c:234-248 | a toggled LED is off if it was on at any brightness, and full if it was off |
| PanelService.ToggleTwice | cpu/src/kernel/service/svc_panel.c:234-248 | toggling twice leaves an off LED off and an on LED fully on |
| PanelService.CalibMessages | cpu/src/kernel/service/svc_panel.c:177-196 | calibration sends id 0x85 with the X value then id 0x86 with the Y value, each as a big-endian word |
| PanelService.CalibMessage | cpu/src/kernel/service/svc_panel.c:177-196 | a calibration message carries its id and the value big-endian |
| PanelService.Panel.constructor | cpu/src/kernel/service/svc_panel.c:77-84 | every LED is off, no callback is registered, nothing has been sent and the held-buttons words are 0 |
| PanelService.Panel.RegisterCallback | cpu/src/kernel/service/svc_panel.c:133-166 | a callback is registered for an event with a slot; a NULL callback or an unknown event changes nothing |
| PanelService.Panel.RequestButtons | cpu/src/kernel/service/svc_panel.c:168-175 | one held-buttons request is sent and nothing else changes |
| PanelService.Panel.CalibXy | cpu/src/kernel/service/svc_panel.c:177-196 | the two calibration messages are sent in order |
| PanelService.Panel.SetTriggerMode | cpu/src/kernel/service/svc_panel.c:198-210 | message 0x84 is sent with 1 for any non-zero mode and 0 otherwise |
| PanelService.Panel.SetLed | cpu/src/kernel/service/svc_panel.c:215-224 | the LED message is sent and only that LED's recorded brightness changes |
| PanelService.Panel.ToggleLed | cpu/src/kernel/service/svc_panel.c:234-248 | the toggled brightness is sent and recorded for that LED only |
| PanelService.Panel.ParseMessage | cpu/src/kernel/service/svc_panel.c:302-398 | the status, the callbacks invoked and the held-buttons words are those `Parse` gives; registrations and the transmit queue are unchanged |
| SdProtocol.Transitions | cpu/src/kernel/device/sd_protocol.c:71-147 | every row of the card state transition table has one entry per state, each a state, inactive or invalid |
| SdProtocol.NextState | cpu/src/kernel/device/sd_protocol.c:163-167 | a command or state outside the table gives the invalid state; otherwise the table entry |
| SdProtocol.NextStateInRange | cpu/src/kernel/device/sd_protocol.c:163-167 | the next state is always a card state, inactive or invalid |
| SdProtocol.GoIdleFromAnyState | cpu/src/kernel/device/sd_protocol.c:76 | CMD0 takes a card in any state to idle |
| SdProtocol.ReadSingleBlockOnlyFromTransfer | cpu/src/kernel/device/sd_protocol.c:96 | CMD17 is valid if and only if the card is in the transfer state, and leads to sending-data |
| SdProtocol.ResponseType | cpu/src/kernel/device/sd_protocol.c:179-196 | no response exactly for CMD0, CMD4 and CMD15; a 136-bit response exactly for CMD2, CMD9 and CMD10; 48 bits otherwise |
| SdProtocol.ResponseCrc | cpu/src/kernel/device/sd_protocol.c:198-204 | the CRC is skipped exactly for the R3 responses of CMD1 and ACMD41 |
| SdProtocol.NeedData | cpu/src/kernel/device/sd_protocol.c:206-225 | the commands that read data and those that write it, each as an if-and-only-if |
| SdProtocol.NeedBusy | cpu/src/kernel/device/sd_protocol.c:227-240 | busy signalling exactly for CMD7, CMD8, CMD12, CMD28, CMD29 and CMD38 |
| SdProtocol.DataDirectionMatchesTable | cpu/src/kernel/device/sd_protocol.c:206-225 | a writing command takes a transferring card to receive-data and a reading one to sending-data, except ACMD13, which shares CMD13's row |
| SdProtocol.StateName | cpu/src/kernel/device/sd_protocol.c:169-177 | a name other than "Invalid Card State" exactly for the nine card states and the inactive state |
| SdProtocol.StateNamesDistinct | cpu/src/kernel/device/sd_protocol.c:149-177 | distinct states have distinct names |
| SdProtocol.RateUnit | cpu/src/kernel/device/sd_protocol.c:359-365 | the four transfer-rate units are multiples of 10 bit/s up to 100 Mbit/s |
| SdProtocol.TransSpeed | cpu/src/kernel/device/sd_protocol.c:347-373 | a reserved unit code gives 0; otherwise the speed is the unit over 10 times the multiplier of bits 3 to 6, and fits 32 bits |
| SdProtocol.StandardSpeeds | cpu/src/kernel/device/sd_protocol.c:347-373 | the TRAN_SPEED codes 0x32 and 0x5A give 25 MHz and 50 MHz |
| SdProtocol.DeviceSizeAsWritten | cpu/src/kernel/device/sd_protocol.c:388-405 | the product computed in `uint32_t` is below 2^32 |
| SdProtocol.DeviceSize | cpu/src/kernel/device/sd_protocol.c:388-405 | the capacity is (C_SIZE + 1) times 2^(C_SIZE_MULT + 2 + READ_BL_LEN) bytes |
| SdProtocol.DeviceSizeExactBelowFourGiB | cpu/src/kernel/device/sd_protocol.c:388-405 | below 4 GiB the computation as written gives the capacity |
| SdProtocol.FourGiBCardReportsZero | cpu/src/kernel/device/sd_protocol.c:388-405 | a 4 GiB standard-capacity card has a capacity of 2^32 bytes and the computation as written reports 0 |
| VoiceManagement.FreeVoiceFrom | cpu/src/apps/polysynth/voice_manager.c:30-40 | the first inactive voice from a position on, or the invalid voice when every later voice is active |
| VoiceManagement.FreeVoice | cpu/src/apps/polysynth/voice_manager.c:30-40 | the lowest inactive voice, and the invalid voice if and only if all voices are active |
| VoiceManagement.VoiceByNoteFrom | cpu/src/apps/polysynth/voice_manager.c:57-68 | the first active voice holding the note from a position on, or the invalid voice when none does |
| VoiceManagement.VoiceByNote | cpu/src/apps/polysynth/voice_manager.c:57-68 | the lowest active voice holding the note, and the invalid voice if and only if none does |
| VoiceManagement.Oldest | cpu/src/apps/polysynth/voice_manager.c:42-55 | a voice whose timestamp is the smallest, and no earlier voice has that timestamp |
| VoiceManagement.ActiveCount | cpu/src/apps/polysynth/voice_manager.c:112-123 | the number of active voices is at most the number of voices |
| VoiceManagement.ActiveCountExtremes | cpu/src/apps/polysynth/voice_manager.c:112-123 | the count is 0 if and only if no voice is active, and full if and only if all are |
| VoiceManagement.ActiveCountUpdate | cpu/src/apps/polysynth/voice_manager.c:112-123 | replacing one voice changes the count by that voice's change of activity alone |
| VoiceManagement.Assigned | cpu/src/apps/polysynth/voice_manager.c:76-80 | an assigned voice is active, not releasing, holds the note and the timestamp |
| VoiceManagement.AssignFreeVoice | cpu/src/apps/polysynth/voice_manager.c:70-83 | assigning a note to the free voice keeps the voices well formed, adds one active voice, and the note is then found |
| VoiceManagement.ReleaseFoundVoice | cpu/src/apps/polysynth/voice_manager.c:100-110 | releasing the voice found for a note keeps the voices well formed and removes one active voice |
| VoiceManagement.OldestIsFreeWhenAnyFree | cpu/src/apps/polysynth/voice_manager.c:42-55 | while a voice is free the oldest voice has timestamp 0, since free voices carry no timestamp |
| VoiceManagement.VoiceManager.constructor | cpu/src/apps/polysynth/voice_manager.c:14-28 | all six voices are free and the global timestamp is 1 |
| VoiceManagement.VoiceManager.GetFreeVoice | cpu/src/apps/polysynth/voice_manager.c:30-40 | the loop returns `FreeVoice` of the voices |
| VoiceManagement.VoiceManager.GetOldestVoice | cpu/src/apps/polysynth/voice_manager.c:42-55 | the loop returns `Oldest` of the voices |
| VoiceManagement.VoiceManager.GetVoiceByNote | cpu/src/apps/polysynth/voice_manager.c:57-68 | the loop returns `VoiceByNote` of the voices |
| VoiceManagement.VoiceManager.AssignNote | cpu/src/apps/polysynth/voice_manager.c:70-83 | an index out of range is refused with no change; otherwise that voice becomes `Assigned` with the global timestamp, which advances modulo 2^32 |
| VoiceManagement.VoiceManager.ReleaseVoice | cpu/src/apps/polysynth/voice_manager.c:85-98 | an index out of range is refused; otherwise only that voice becomes free |
| VoiceManagement.VoiceManager.ReleaseNote | cpu/src/apps/polysynth/voice_manager.c:100-110 | succeeds if and only if a voice holds the note, and then frees exactly the lowest such voice |
| VoiceManagement.VoiceManager.GetActiveCount | cpu/src/apps/polysynth/voice_manager.c:112-123 | the loop returns `ActiveCount` of the voices |
| VoiceManagement.VoiceManager.IsVoiceInReleaseStage | cpu/src/apps/polysynth/voice_manager.c:124-132 | true if and only if the index is in range and the voice is active and releasing |
| VoiceManagement.VoiceManager.SetVoiceInReleaseStage | cpu/src/apps/polysynth/voice_manager.c:134-139 | only the release flag of an in-range voice changes |
| VoiceManagement.VoiceManager.IsVoiceActive | cpu/src/apps/polysynth/voice_manager.c:141-148 | true if and only if the index is in range and the voice is active |
| VoiceManagement.VoiceManager.GetVoiceNote | cpu/src/apps/polysynth/voice_manager.c:150-162 | the note of an in-range voice, and a valid note only for an active voice |
| PadKeyboard.ScaleInit | cpu/src/lib/keyboard.c:61-69 | the scale holds the mask and the number of tones, with mode 0 |
| PadKeyboard.Keymap | cpu/src/lib/keyboard.c:125-138 | the keymap of the first `tones` tones has at most `tones` entries |
| PadKeyboard.KeymapListsScaleTones | cpu/src/lib/keyboard.c:125-138 | the keymap lists, strictly ascending, exactly the tones below `tones` whose bit is set in the scale's mask |
| PadKeyboard.PhrygianDominantKeymap | cpu/src/lib/keyboard.h:53 | the Phrygian dominant mask over 12 tones lists degrees 0, 1, 4, 5, 7, 8 and 10 |
| PadKeyboard.Keyboard.constructor | cpu/src/lib/keyboard.c:71-77 | octave 3, split 12, the given scale, and its keymap in the first `repeat` entries |
| PadKeyboard.Keyboard.GenKeymap | cpu/src/lib/keyboard.c:125-138 | after the loop the first `repeat` entries of the map are the scale's keymap; scale, octave and split are unchanged |
| PadKeyboard.Keyboard.SetScale | cpu/src/lib/keyboard.c:79-83 | the new scale and its keymap replace the old; octave and split are kept |
| PadKeyboard.Keyboard.SetOctave | cpu/src/lib/keyboard.c:85-88 | only the octave changes |
| PadKeyboard.Keyboard.SetSplit | cpu/src/lib/keyboard.c:90 | only the split changes |
| PadKeyboard.Keyboard.MapNote | cpu/src/lib/keyboard.c:93-121 | the note is, modulo 256, the keymap degree of the pad within its row, plus `tones` for each octave (the keyboard's, plus one per full repeat), plus the split on the lower row of pads 0 to 7 |
| PadKeyboard.NoteSteps | cpu/src/lib/keyboard.c:93-121 | wrapping the octave and the note to `uint8_t` at each step, and adding the split on the lower row, gives the sum taken modulo 256 once |
| PadKeyboard.NoteArithmetic | cpu/src/lib/keyboard.c:93-121 | the `uint8_t` truncations of the octave and of the note amount to one reduction of the sum modulo 256 |
| PadKeyboard.LowerRowIsSplitAbove | cpu/src/lib/keyboard.c:100-118 | a pad below 8 plays the note of the pad 8 above it raised by the split |
| PadKeyboard.NextRepeatIsOctaveUp | cpu/src/lib/keyboard.c:106-114 | within a row the pad one keymap length further on plays the same degree one scale length higher |
| PadKeyboard.PhrygianDominantRepeat | cpu/src/lib/keyboard.c:125-138 | on the Phrygian dominant scale the keymap repeats every 7 pads and starts at the root |
| PadKeyboard.KeymapStartsAtRoot | cpu/src/lib/keyboard.c:125-138 | a scale that contains its root has the root first in its keymap |
| PadKeyboard.RootPads | cpu/src/lib/keyboard.c:93-121 | on a scale with its root, pad 8 plays the root of the keyboard's octave and pad 0 that note raised by the split |
| ZoiaInterface.IncEvents | cpu/src/apps/zontar/zoia_interface.c:124-139 | a forward turn sends at least one event, every one a turn at 64 or above |
| ZoiaInterface.DecEvents | cpu/src/apps/zontar/zoia_interface.c:141-156 | a backward turn sends at least one event, every one a turn at 64 or below |
| ZoiaInterface.EncoderEvents | cpu/src/apps/zontar/zoia_interface.c:65-73 | a signed turn sends nothing if and only if it is zero clicks |
| ZoiaInterface.PressRelease | cpu/src/apps/zontar/zoia_interface.c:75-86 | a press of the value followed by its release |
| ZoiaInterface.BackPairs | cpu/src/apps/zontar/zoia_interface.c:88-107 | n back presses are 2n events, none a turn, all carrying the back value |
| ZoiaInterface.PatchSetEvents | cpu/src/apps/zontar/zoia_interface.c:111-120 | selecting a patch sends the ten home events, two turns down, and one turn up unless the index is 0 |
| ZoiaInterface.Displacement | cpu/src/apps/zontar/zoia_interface.c:124-156 | each event moves the encoder by at most 64 detents down and 191 up |
| ZoiaInterface.DisplacementAppend | cpu/src/apps/zontar/zoia_interface.c:124-156 | the encoder movement of two event runs in turn is the sum of their movements |
| ZoiaInterface.IncDisplacement | cpu/src/apps/zontar/zoia_interface.c:124-139 | a forward turn moves the encoder by exactly the number of clicks |
| ZoiaInterface.DecDisplacement | cpu/src/apps/zontar/zoia_interface.c:141-156 | a backward turn as written moves the encoder back by the clicks plus one detent for every full step |
| ZoiaInterface.DecOvershoots | cpu/src/apps/zontar/zoia_interface.c:141-156 | 64 clicks down are sent as 0 then 63 and move the encoder 65 detents |
| ZoiaInterface.DecEventsIntended | cpu/src/apps/zontar/zoia_interface.c:141-156 | with full steps sent as 1, a backward turn still sends turns at 64 or below |
| ZoiaInterface.DecIntendedDisplacement | cpu/src/apps/zontar/zoia_interface.c:141-156 | with full steps sent as 1, a backward turn moves the encoder back by exactly the number of clicks |
| ZoiaInterface.EncoderDisplacement | cpu/src/apps/zontar/zoia_interface.c:65-73 | a signed turn moves the encoder forward by exactly the clicks and backward by the clicks plus one per extra event; forward events carry between 1 and 63 detents |
| ZoiaInterface.IncSteps | cpu/src/apps/zontar/zoia_interface.c:129-138 | every event of a forward turn moves the encoder by 1 to 63 detents |
| ZoiaInterface.IncEventCount | cpu/src/apps/zontar/zoia_interface.c:129-138 | a forward turn sends one event per started block of 63 clicks |
| ZoiaInterface.BackPairsShape | cpu/src/apps/zontar/zoia_interface.c:88-107 | going home alternates five presses and releases of the back button |
| ZoiaInterface.BackPairsTurnNothing | cpu/src/apps/zontar/zoia_interface.c:96-107 | back presses do not move the encoder |
| ZoiaInterface.PatchSetTurns | cpu/src/apps/zontar/zoia_interface.c:111-120 | selecting a patch moves the encoder down 65 detents and then up by the index clamped to 63 |
| ZoiaInterface.Interface.constructor | cpu/src/apps/zontar/zoia_interface.c:54 | the static event is a zero bypass event and the queue is empty |
| ZoiaInterface.Interface.Enqueue | cpu/src/apps/zontar/zoia_queue.c:79-83 | the queue grows by a copy of the static event |
| ZoiaInterface.Interface.EncoderInc | cpu/src/apps/zontar/zoia_interface.c:124-139 | the queue grows by `IncEvents` and the static event is the last of them |
| ZoiaInterface.Interface.EncoderDec | cpu/src/apps/zontar/zoia_interface.c:141-156 | the queue grows by `DecEvents` and the static event is the last of them |
| ZoiaInterface.Interface.Encoder | cpu/src/apps/zontar/zoia_interface.c:65-73 | the queue grows by `EncoderEvents`; zero clicks change nothing |
| ZoiaInterface.Interface.PressAndRelease | cpu/src/apps/zontar/zoia_interface.c:75-107 | the queue grows by a press and a release of the value |
| ZoiaInterface.Interface.Enter | cpu/src/apps/zontar/zoia_interface.c:75-86 | the queue grows by a press and a release of the encoder button |
| ZoiaInterface.Interface.Back | cpu/src/apps/zontar/zoia_interface.c:96-107 | the queue grows by a press and a release of the back button |
| ZoiaInterface.Interface.Home | cpu/src/apps/zontar/zoia_interface.c:88-94 | the queue grows by five back presses and releases |
| ZoiaInterface.Interface.PatchSet | cpu/src/apps/zontar/zoia_interface.c:111-120 | the queue grows by the home presses, 64 clicks down and the clamped index up |
| DisplayService.PixelIndex | cpu/src/kernel/service/svc_display.c:142-147 | a pixel of the screen lies at column x of page y / 8, inside the 0x400-byte buffer |
| DisplayService.PixelBit | cpu/src/kernel/service/svc_display.c:145 | the bit of the byte is y modulo 8 |
| DisplayService.SetPixelBit | cpu/src/kernel/service/svc_display.c:150-153 | the chosen bit of the byte reads the new state and every other bit is kept |
| DisplayService.OtherBitKept | cpu/src/kernel/service/svc_display.c:150-153 | a byte whose other bits are kept agrees with the old byte on every other single bit |
| DisplayService.Drawn | cpu/src/kernel/service/svc_display.c:150-153 | drawing keeps the size of the frame buffer; what it changes is stated by `PutPixelEffect` |
| DisplayService.PixelsDistinct | cpu/src/kernel/service/svc_display.c:142-147 | two screen pixels that share a byte and a bit are the same pixel |
| DisplayService.OffScreenColumnWraps | cpu/src/kernel/service/svc_display.c:142-147 | column 128 of row 0, which the source does not reject, is drawn as pixel (0, 8) |
| DisplayService.PutPixelEffect | cpu/src/kernel/service/svc_display.c:140-154 | drawing a screen pixel lights or clears exactly that pixel and leaves every other screen pixel as it was |
| DisplayService.BitAfterSet | cpu/src/kernel/service/svc_display.c:145-153 | after setting or clearing bit j of a byte, bit j reads as the new state and every other bit as before |
| DisplayService.SetBitReads | cpu/src/kernel/service/svc_display.c:150-153 | the bit that was set or cleared reads the new state |
| DisplayService.Display.constructor | cpu/src/kernel/service/svc_display.c:64 | the frame buffer has 0x400 bytes, all clear |
| DisplayService.Display.PutPixel | cpu/src/kernel/service/svc_display.c:140-154 | the frame buffer becomes `Drawn` of the old buffer |
| FlashDevice.SpliceTwice | cpu/src/kernel/device/dev_flash.c:192-201 | writing one run of bytes and then another right after it is writing their concatenation |
| FlashDevice.SpliceOver | cpu/src/kernel/device/dev_flash.c:177-179 | a write over a region of the same size replaces it entirely |
| FlashDevice.SplicePatch | cpu/src/kernel/device/dev_flash.c:172-179 | reading a sector, patching it at an offset and writing it back is writing the patch alone |
| FlashDevice.SpliceSame | cpu/src/kernel/device/dev_flash.c:172-179 | writing the flash's own bytes back changes nothing |
| FlashDevice.PagesWritten | cpu/src/kernel/device/dev_flash.c:302-313 | programming pages keeps the size of the flash |
| FlashDevice.ProgramNextPage | cpu/src/kernel/device/dev_flash.c:302-313 | after i pages of a sector are programmed, page i still reads erased, and programming it gives i + 1 pages written |
| FlashDevice.AllPagesWritten | cpu/src/kernel/device/dev_flash.c:302-313 | after all sixteen pages the sector holds the data |
| FlashDevice.FillAppend | cpu/src/kernel/device/dev_flash.c:278-290 | two erased runs side by side are one erased run |
| FlashDevice.EraseMore | cpu/src/kernel/device/dev_flash.c:278-290 | erasing a run right after an erased run is erasing their union |
| FlashDevice.HeadLength | cpu/src/kernel/device/dev_flash.c:160-169 | at an unaligned address the head covers between 1 and 4095 bytes and ends on a sector boundary |
| FlashDevice.RestAfterHead | cpu/src/kernel/device/dev_flash.c:183-188 | the remaining length never grows, and is the plain difference when the head fits in `len` |
| FlashDevice.WriteAsWritten | cpu/src/kernel/device/dev_flash.c:158-216 | the write as written keeps the size of the flash |
| FlashDevice.WriteAsWrittenStores | cpu/src/kernel/device/dev_flash.c:158-216 | when the head fits in `len`, the write as written stores exactly the first `len` source bytes at `dest` and nothing else |
| FlashDevice.WriteAsWrittenOverruns | cpu/src/kernel/device/dev_flash.c:160-189 | when `len` ends before the sector does, the write as written also overwrites the flash up to the end of the sector with the source bytes that follow |
| FlashDevice.WriteOneByteOverruns | cpu/src/kernel/device/dev_flash.c:160-189 | one byte written at address 1 also programs address 2 from the next source byte |
| FlashDevice.EraseLoopToTop | cpu/src/kernel/device/dev_flash.c:278-284 | from an aligned address the full-sector loop erases every sector up to the top of the 32-bit address space |
| FlashDevice.EraseLoopIgnoresLength | cpu/src/kernel/device/dev_flash.c:278-284 | erasing one sector at 0x1000 runs the loop over 0xFFFFF sectors, and erasing from 0 runs it not at all |
| FlashDevice.EraseLoopCount | cpu/src/kernel/device/dev_flash.c:278-284 | the loop as written runs not at all exactly from an address below 0x1000, and never more than once per sector left above the address, plus one |
| FlashDevice.EraseTailLengthAsWritten | cpu/src/kernel/device/dev_flash.c:278-290 | the length left for the final `memset` is a 32-bit value congruent to `len` less one sector per loop turn |
| FlashDevice.EraseTailOverflowsBuffer | cpu/src/kernel/device/dev_flash.c:278-295 | as written, erasing more than a sector from address 0, or one sector at 0x1000, gives the final `memset` a length above the 4096-byte sector buffer |
| FlashDevice.EraseHeadAsWritten | cpu/src/kernel/device/dev_flash.c:254-276 | the head as written keeps the size of the flash |
| FlashDevice.EraseHeadOverruns | cpu/src/kernel/device/dev_flash.c:254-276 | when `len` ends before the sector does, the head as written erases bytes past `address + len` |
| FlashDevice.Flash.constructor | cpu/src/kernel/device/dev_flash.c:100 | a chip of erased sectors and a cleared sector buffer |
| FlashDevice.Flash.ReadIntoBuffer | cpu/src/kernel/device/dev_flash.c:136-156 | the first `len` buffer bytes are the flash bytes at the address, and the rest of the buffer is kept |
| FlashDevice.Flash.PatchBuffer | cpu/src/kernel/device/dev_flash.c:175 | the buffer holds the data at the offset and keeps its other bytes |
| FlashDevice.Flash.SectorErase | cpu/src/kernel/device/dev_flash.c:315-337 | the sector reads erased and the rest of the flash is kept |
| FlashDevice.Flash.PageProgram | cpu/src/kernel/device/dev_flash.c:339-363 | an erased page takes the data and the rest of the flash is kept |
| FlashDevice.Flash.SectorWrite | cpu/src/kernel/device/dev_flash.c:302-313 | the loop programs an erased sector page by page with the data |
| FlashDevice.Flash.RewriteSector | cpu/src/kernel/device/dev_flash.c:172-179 | reading, patching, erasing and programming a sector writes only the patch |
| FlashDevice.Flash.Write | cpu/src/kernel/device/dev_flash.c:158-216 | with the head limited to `len`, exactly the first `len` source bytes are stored at `dest` and the rest of the flash is kept |
| FlashDevice.Flash.WriteHead | cpu/src/kernel/device/dev_flash.c:160-189 | the unaligned head stores the first p source bytes at `dest`, p + n is `len`, and any rest starts on a sector boundary |
| FlashDevice.Flash.StoreSector | cpu/src/kernel/device/dev_flash.c:192-201 | one turn of the full-sector loop extends the stored prefix of the source by a sector |
| FlashDevice.Flash.WriteTail | cpu/src/kernel/device/dev_flash.c:192-215 | the full sectors and the partial last sector extend the stored prefix to all `len` bytes |
| FlashDevice.Flash.Verify | cpu/src/kernel/device/dev_flash.c:218-250 | true if and only if the `len` flash bytes at the address equal the first `len` bytes in RAM |
| FlashDevice.Flash.CompareBuffer | cpu/src/kernel/device/dev_flash.c:228-246 | the comparison loop keeps `verified` true if and only if it was true and every buffer byte equals the RAM byte |
| FlashDevice.Flash.Erase | cpu/src/kernel/device/dev_flash.c:252-296 | with the head limited to `len` and the loop counting the length, exactly the `len` bytes at the address read erased and the rest of the flash is kept |
| FlashDevice.Flash.EraseHead | cpu/src/kernel/device/dev_flash.c:254-276 | the unaligned head erases the first p bytes at the address, p + n is `len`, and any rest starts on a sector boundary |
| FlashDevice.Flash.EraseTail | cpu/src/kernel/device/dev_flash.c:278-295 | the full sectors and the partial last sector extend the erased prefix to all `len` bytes |
| DelayLine.Saturate | dsp/src/modules/system23/delayline.c:22 | the result is a `fract32`, equal to the value when it is one and clamped to the nearer bound otherwise |
| DelayLine.AddSat | dsp/src/modules/system23/delayline.c:31 | the saturating sum is a `fract32`: the exact sum when it fits, otherwise the bound it passed |
| DelayLine.SubSat | dsp/src/modules/system23/delayline.c:22 | the saturating difference is a `fract32`: the exact difference when it fits, otherwise the bound it passed |
| DelayLine.DryGain | dsp/src/modules/system23/delayline.c:22 | the dry gain is `FR32_MAX - mix` for a non-negative mix, so that the two gains add up to one, and `FR32_MAX` for a negative mix |
| DelayLine.Feedback | dsp/src/modules/system23/delayline.c:28 | the stored sample is a `fract32`, and equals the input plus the scaled delayed sample when that sum does not overflow |
| DelayLine.Tap | dsp/src/modules/system23/delayline.c:27-28 | one sample period rewrites the slot under the index with the feedback value and keeps every other slot |
| DelayLine.Advance | dsp/src/modules/system23/delayline.c:29 | the index steps to the next slot and wraps to 0 after the last |
| DelayLine.Run | dsp/src/modules/system23/delayline.c:25-33 | running the ring keeps its size and leaves the index inside the ring |
| DelayLine.RunAppend | dsp/src/modules/system23/delayline.c:25-33 | running two input runs in turn is running their concatenation, so successive `Process` calls, one period each, add up to one `Run` and `ReadBackAfterSize` applies to `size` calls in a row |
| DelayLine.Slot | dsp/src/modules/system23/delayline.c:29 | the slot j periods after slot i is inside the ring, and is i + j before the index wraps |
| DelayLine.ModShift | dsp/src/modules/system23/delayline.c:29 | stepping the index first and then j periods reaches the slot j + 1 periods on |
| DelayLine.RunIndex | dsp/src/modules/system23/delayline.c:25-33 | after k sample periods the index has moved k slots round the ring |
| DelayLine.RunUntouched | dsp/src/modules/system23/delayline.c:25-33 | a slot the index does not pass over keeps its sample |
| DelayLine.ReadBackAfterSize | dsp/src/modules/system23/delayline.c:25-33 | after `size` periods the index is back at the first slot written and that slot still holds what was written there, so the delay is exactly `size` samples |
| DelayLine.Delay.constructor | dsp/src/modules/system23/delayline.c:15-23 | the first `samples` slots are cleared, the index is 0, and the dry gain is the saturating `FR32_MAX - mix` |
| DelayLine.Delay.Process | dsp/src/modules/system23/delayline.c:25-33 | the ring advances by one period as `Run` says, and the output mixes the input with the sample read before its slot was overwritten |
| Macros.Hi16 | cpu/src/common/macros.h:71 | the upper half is below 2^16 and, with the lower half, rebuilds the 32-bit word |
| Macros.Lo16 | cpu/src/common/macros.h:72 | the lower half is below 2^16 |
| Macros.Combine16 | cpu/src/common/macros.h:73 | the combined word fits 32 bits, its upper half is the lower half of `high` and its lower half that of `low` |
| Macros.ShiftUp | cpu/src/common/macros.h:73 | a 32-bit shift left by 16 keeps only the lower half of the value, moved up |
| Macros.CombineSplit | cpu/src/common/macros.h:71-73 | combining the two halves of a word gives the word back |
| Macros.SplitCombine | cpu/src/common/macros.h:71-73 | splitting a word combined from two 16-bit halves gives the halves back |
| Common.Min | cpu/src/common/macros.h:81 | the smaller of two values: at most each of them and equal to one of them |
| Common.U32 | cpu/src/kernel/service/svc_sysex.c:149-154 | a cast to `uint32_t` gives the value in [0, 2^32) congruent to it modulo 2^32 |
| Common.ToInt32 | dsp/src/modules/wave2/util/sysex_send_wav.py:68 | a 32-bit pattern read as a two's-complement `int32` lies in the `int32` range and has that pattern |
| Common.LittleEndian | cpu/src/kernel/service/svc_sysex.c:149-154 | bytes packed low byte first make a value below 2^(8n) |
| Common.LittleEndianWord | cpu/src/kernel/service/svc_sysex.c:149-154 | four bytes at an index, OR-ed with shifts of 0, 8, 16 and 24, are their little-endian word, a 32-bit value |
| Common.LittleEndianRoundTrip | cpu/src/kernel/service/svc_dsp.c:238-252 | splitting a value below 2^(8n) into n bytes and packing them gives it back |
| Common.LittleEndianBytes | cpu/src/kernel/service/svc_dsp.c:245-251 | splitting a value into n bytes gives n bytes |
| Common.LittleEndianSplit | cpu/src/kernel/service/svc_dsp.c:476-483 | packing n bytes and splitting the value into n bytes gives the bytes back |
| Common.ChunksCover | dsp/src/modules/wave2/util/sysex_send_2.py:79-85 | the slices of a payload, in order, put back together are the payload |
| Common.Chunks | dsp/src/modules/wave2/util/sysex_send_2.py:79-85 | every slice is non-empty and at most `size` long |
| Common.ChunksCount | dsp/src/modules/wave2/util/sysex_send_2.py:79-85 | a payload of n bytes cut into slices of `size` gives ceil(n / size) slices |
| Common.ChunksHead | dsp/src/modules/wave2/util/sysex_send_2.py:79-85 | the first slice is the first `size` bytes (or all of them) and the others are the slices of the rest |
| StringUtils.CString | cpu/src/common/utils.c:53-60 | a C string is no longer than its buffer |
| StringUtils.CStringPrefix | cpu/src/common/utils.c:53-60 | a C string is the prefix of its buffer before the first NUL: it holds no NUL and is followed by a NUL or the end of the buffer |
| StringUtils.Copied | cpu/src/common/utils.c:53-60 | the copy keeps the size of the buffer |
| StringUtils.CopiedIsTruncation | cpu/src/common/utils.c:55-58 | the string left in the buffer is the source string cut at `length - 1` characters, shorter than `length`, and cut only when `length` runs out |
| StringUtils.CopyStops | cpu/src/common/utils.c:55-58 | the copy loop stops after exactly `CopyLength` chars: at `length - 1`, at the end of the source, or at its NUL |
| StringUtils.CopyNothing | cpu/src/common/utils.c:55 | a zero length leaves the buffer as it was |
| StringUtils.CopyString | cpu/src/common/utils.c:53-60 | the buffer becomes `Copied` of the old buffer |
| StringUtils.AppendChars | cpu/src/common/utils.c:58 | the loop copies exactly `CopyLength` chars of the source to the start of the buffer and keeps the rest |

## Left out

- MIDI transport (port listing, opening, sending, closing), `input()` prompts, `time.sleep` pacing and WAV/hex file reading are I/O: the port is the `MidiOut.Port` class, whose `accepts` predicate says which messages a send delivers, and files and answers are arguments.
- The SPI transfers and busy-wait polling of the flash chip, the SD card and the display controller are hardware I/O: the flash is a byte sequence that `SectorErase` and `PageProgram` change, and the SD card's CID and CSD registers arrive as decoded fields.
- `sdprot_get_cid` and `sdprot_get_csd` unpack register words with the `__field_xget` macro, which is not part of this model; `DeviceSize` takes the CSD fields directly.
- SdProtocol.NextState: takes the command and the state as unbounded integers. A state outside the table gives `INV` in both the source (the `cur_stat >= SDP_CNT` check of `sd_protocol.c:165`) and the model, and so does a negative command number, which the comparison with `countof` turns into a huge `size_t`.
- SysexService.BodyStep and SysexService.SysexService.Write: the `memcpy` of `svc_sysex.c:164` copies `write_length` bytes out of the 0x2000-byte `g_decode_buffer` (`svc_sysex.c:54`), and nothing bounds `write_length`, which SET_WRITE_ADDRESS loads from the message. For a length above 0x2000, say 0x3000, the copy reads past the buffer into memory this model does not hold. The model records the write with the full length but only the 0x2000 bytes the buffer holds, `buffer[..Min(length, 0x2000)]`, so it does not know the bytes written past that point.
- `svc_display_task`, `_display_init` and `svc_display_set_contrast` drive the display controller over SPI and are left out; only the frame buffer update is modelled.
- DisplayService.Display.PutPixel requires the pixel's byte inside the 0x400-byte frame buffer (`x < 128`, `y < 64`); the source does not check and writes past the buffer otherwise.
- `svc_dsp_check_ready` and the CPU's `SYSTEM_READY` case use identifiers that `svc_dsp.h` does not declare; the CPU's system messages are modelled only through the port-state ids its header does declare.
- The DSP's param-value reply carries 6 payload bytes while the CPU reads bytes 4 to 7; bytes 6 and 7 are whatever the CPU's receive buffer held, so only the low 16 bits of the value are stated as delivered (`CpuService.ParamValueLowBitsDelivered`).
- Several shifts move a byte into the sign bit of a promoted `int`, which C leaves undefined: `(int32_t)(byte5 & 0x0F) << 28` in `sysex_manager.c:65-66` for a fifth byte of 8 or more; `g_decode_buffer[3] << 24` and `g_decode_buffer[7] << 24` in `svc_sysex.c:148-154`; `payload[7] << 24` in `svc_dsp.c:482` and in `svc_cpu.c:361`; `msg[1] << 0x18` in `svc_panel.c:364`, `371` and `378`, for bytes of 0x80 and more. The model reads each as the 32-bit pattern the code evidently means: `SampleLoader.GroupPattern` then `DecodeGroup`, `Common.LittleEndianWord`, `DspService.ParamValueOf` and `ParamValueAsWritten`, `CpuService.SetParamValue`, and `PanelService.BigEndianWord`.
- `sysex_manager.c` decodes its 5-byte groups from the first byte of the message. This matches the WAV sender, which sends no manufacturer byte (`SampleLoader.DecodeEncodedPayload`), but not the hex-file senders, which put the id byte first, so that every group is read one byte early (`SampleLoader.HexFrameMisaligned`, `SampleLoader.HexFrameMisreadExample`). The loader is not changed to favour either side.
- ZoiaInterface.Interface.Enqueue: `zoia_enqueue` puts events into a ring buffer that is not part of this model; the queue is an unbounded log, so a full ring buffer dropping events is not captured.
- ZoiaInterface.Interface.EncoderDec and MidiFsm.MidiParser.ReceiveByte follow the code as written; the corrected behaviour of each is stated on the functions named under Findings.
- PadKeyboard.Keyboard.GenKeymap requires at most 32 tones, the size of the keymap array. For more, the source first evaluates `1 << i` with i of 32 or more, which C leaves undefined, before it could write past the array.
- PadKeyboard.Keyboard.MapNote requires `repeat > 0`; the source divides by `repeat`, which is 0 for a scale with no notes set.
- StringUtils.CopyString requires the buffer to hold the copy and its terminator and the source to be terminated within `length - 1` chars (`CanCopy`), as `strncat` does.
- FlashDevice.Flash.PageProgram requires the page to be erased; NOR programming only clears bits, and on an erased page that is the same as storing the data.
- FlashDevice.Flash.Write and FlashDevice.Flash.Erase model the corrected routines (see Findings); the code as written is stated by `WriteAsWritten`, `EraseLoopCount` and `EraseHeadAsWritten`.
- DelayLine: the DSP's fractional multiply `mult_fr1x32x32` is the parameter `mul`; the SDRAM region is an `array<int>` of the ring's size or more; a ring of zero samples is set up but `Valid()` only holds for a non-empty ring, because `delayline_process` takes the index modulo the size.
- HexSender.ParseHexInt: reads only the ASCII digits as 0 to 9; Python's `int(s, 16)` also reads every other Unicode decimal digit (category Nd). Signs, the `0x`/`0X` prefix and single underscores are modelled; surrounding whitespace, which `int()` skips, is already removed by `strip()`.
- HexSender.ParseDecInt: reads only the ASCII digits; Python's `int(s)` also reads every other Unicode decimal digit (category Nd). Signs and single underscores are modelled.
- HexSender.ManufacturerIdFromInput: an answer written with non-ASCII decimal digits falls back to 0x7D, where Python would read it, because it is parsed by `ParseHexInt`.
- HexSender.MaxChunkFromInput: an answer written with non-ASCII decimal digits falls back to 1024, where Python would read it, because it is parsed by `ParseDecInt`.
- ChunkedSender.ChunkFromInput: an answer written with non-ASCII decimal digits falls back to 256, where Python would read it, because it is parsed by `ParseDecInt`.
- The flash erase loop as written tests the address rather than the length. It does end: the 32-bit address wraps to 0 after every sector up to the top of the address space is erased (`FlashDevice.EraseLoopToTop`).

## Findings

| source | as written | input that shows it | evidently intended | confidence | as-written member | corrected member |
|---|---|---|---|---|---|---|
| cpu/lib/midi_fsm.c:232-233 | every callback, real-time ones included, clears both stored data bytes | note-on status, key, a real-time byte such as 0xF8, velocity: the note-on fires with key 0 | a real-time byte leaves the pending data bytes alone, since MIDI lets it appear between any two bytes | medium, not executed | MidiFsm.RealtimeClearsPendingKey | MidiFsm.NextIntended |
| cpu/src/kernel/service/svc_sysex.c:96-111 | the product-id case reads three bytes and subtracts 2 from the remaining length without checking it | a 3-byte message 0x42, channel, id byte: the length wraps to 2^32 - 3 and the body parser runs over stale buffer bytes | a message too short for the product id is rejected | high, not executed | SysexService.ShortMessageOverrun | SysexService.Parse |
| cpu/src/kernel/service/svc_dsp.c:482-483 | the value's second byte is read as `payload[5 << 8]`, index 1280 of an 8-byte payload | any param-value reply | `payload[5] << 8`, the value read little-endian from bytes 4 to 7 | high, not executed | DspService.ParamValueReadsOutOfBounds | DspService.ParamValueOf |
| cpu/src/kernel/device/sd_protocol.c:388-405 | the size is computed as a `uint32_t` product | a standard-capacity card with C_SIZE 0xFFF, C_SIZE_MULT 7 and READ_BL_LEN 11 (4 GiB) reports 0 bytes | the exact byte count | medium, not executed | SdProtocol.FourGiBCardReportsZero | SdProtocol.DeviceSize |
| cpu/src/apps/zontar/zoia_interface.c:141-156 | each full step down is sent as value 0, 64 detents, while only 63 clicks are taken off | 64 clicks down: values 0 and 63, a displacement of 65 | each full step sent as 1, 63 detents, mirroring the step up | medium, not executed | ZoiaInterface.DecOvershoots | ZoiaInterface.DecEventsIntended |
| cpu/src/kernel/device/dev_flash.c:160-189 | the head copies `SECTOR_LENGTH - offset` source bytes even when `len` is smaller | one byte written at address 1: address 2 is also programmed, from the source byte after the one given | the head copies at most `len` bytes | high, not executed | FlashDevice.WriteOneByteOverruns | FlashDevice.Flash.Write |
| cpu/src/kernel/device/dev_flash.c:278-284 | the full-sector loop tests the address instead of the length | erasing one sector at 0x1000 runs the loop over 0xFFFFF sectors | the loop runs `len >> 12` times | high, not executed | FlashDevice.EraseLoopIgnoresLength | FlashDevice.Flash.Erase |
| cpu/src/kernel/device/dev_flash.c:254-276 | the head erases `SECTOR_LENGTH - offset` bytes even when `len` is smaller | erasing 1 byte at address 1 also erases address 2 | the head erases at most `len` bytes | high, not executed | FlashDevice.EraseHeadOverruns | FlashDevice.Flash.Erase |
| cpu/src/kernel/device/dev_flash.c:278-295 | the final `memset` of the one-sector buffer is given whatever the 32-bit `len` holds after the address-driven loop | erasing 8192 bytes at address 0 (the loop does not run, `memset` gets 8192), or one sector at 0x1000 (`len` wraps round to 8192) | the tail erases less than one sector, what is left after the full sectors | high, not executed | FlashDevice.EraseTailOverflowsBuffer | FlashDevice.Flash.Erase |
