# midi-parser, modelled in Dafny

A model of `index.js` of midi-parser, a Node library with two parts:

- a streaming MIDI decoder, `Parser`, that takes in bytes one at a time and
  reports MIDI messages, system exclusive frames and lost bytes. Its only state
  is the buffer of the message in progress;
- a codec, `Parser.encodeValue` / `Parser.decodeValue` (and the string
  wrappers `encodeString` / `decodeString`), that turns each byte into a pair
  of 7-bit elements and back, for system exclusive payloads.

Files:

- `common.dfy`: `Option` (module `Wrappers`) and `byte = bv8` (module `Bytes`).
  Bit operations are on `bv8`, so the 8-bit truncation a Node buffer applies
  is the wrap-around of `bv8`.
- `midi_tables.dfy` (module `MidiTables`): the named status bytes, the
  `msgLength` and `msgEventName` tables and the byte classifiers `channelCmd`,
  `commandByte`, `systemRealTimeByte` and `dataLength`.
- `midi_parser.dfy` (module `MidiParser`): the `Event` datatype, `emitMidi`,
  `emitSysEx`, and the buffer invariant `ValidBuffer`. `Step` and `Run` are
  the specification of one byte and of a byte stream. The class `Parser` has
  the mutable `buffer` field, and its methods `WriteByte` and `Write` update
  it step by step as the source does. They are proved equal to `Step` and
  `Run`.
- `midi_stream.dfy` (module `MidiStream`): what the decoder promises, byte by
  byte and over whole streams. This covers real-time interleaving, lost
  bytes, accumulation, system exclusive framing and abandonment, the shape
  of every reported event, the name each event is reported under, and a few
  worked examples on concrete byte streams.
- `seven_bit_codec.dfy` (module `SevenBitCodec`): `Encode` / `Decode` as
  specification functions. The loops `EncodeValue` / `DecodeValue` are proved
  equal to them, and the round trips are proved in both directions.

Events are returned as a sequence in the order the source would emit them.
`Midi(cmd, channel, data)` is the event the source emits under the name
`EventName(cmd)` with arguments `channel` (`None` for `null`) and `data`.
`SysEx(manufacturer, payload)` is the `'sysex'` event. `LostByte(b)` is the
`'lost-byte'` event.

Notes on `index.js` that the model keeps:

- There is no reset operation and no cap on the system exclusive buffer. The
  buffer grows until 0xF7 or another status byte arrives.
- An empty frame 0xF0 0xF7 is reported with no manufacturer (`byts[0]` is
  `undefined`), so `SysEx.manufacturer` is an `Option`.
- The bound "buffer length minus one is at most the expected data length"
  holds only outside a system exclusive frame (`ValidBuffer`).
- 0xF7 inside a frame always closes it. So the lemmas on abandoned frames
  (`SysExAbandoned`, `MessageDecoded`) exclude 0xF7 as the interrupting
  status.

## Model

| member | source | states |
|---|---|---|
| MidiTables.StatusIsTopBit | index.js:96-98 | `commandByte`: a status byte is exactly a byte with its top bit set, and a data byte is exactly one that its low seven bits give back |
| MidiTables.LengthTable | index.js:41-58 | `msgLength`: every tabulated data byte count is at most two |
| MidiTables.NameTable | index.js:61-78 | `msgEventName`: no tabulated name is `'midi-unknown'`, `'sysex'` or `'lost-byte'` |
| MidiTables.StatusClasses | index.js:80-98 | how `channelCmd` (`IsChannelStatus`), `systemRealTimeByte` (`IsRealTime`) and `commandByte` (`IsStatus`) split the bytes: channel statuses are statuses and never real-time; real-time bytes are statuses above 0xF0, so they never open a sysex frame; the other statuses are exactly 0xF0 and 0xF2-0xF7 |
| MidiTables.Command | index.js:85-87 | a channel status's command has a zero low nibble and gives the status back when the channel nibble is or-ed in; any other status is its own command |
| MidiTables.DataLength | index.js:84-90 | at most two; the `msgLength` entry of the command, and two when there is none |
| MidiTables.EventName | index.js:162-163 | the `msgEventName` entry of the command when there is one; `'midi-unknown'` exactly when there is none |
| MidiTables.TablesAgree | index.js:41-78 | `msgLength` and `msgEventName` have the same keys; 0xF0 and 0xF7 are in neither |
| MidiTables.NamesDistinct | index.js:61-78 | two different tabulated commands have different event names |
| MidiTables.DataLengthByFamily | index.js:42-58 | two data bytes for note off/on, poly aftertouch, control change, pitch bend and song position; one for program change, channel aftertouch, time code and song select; none for tune request; two for the unlisted 0xF0, 0xF4, 0xF5, 0xF7 |
| MidiTables.EventNameByFamily | index.js:61-78 | every channel status is reported under its family's name (note-off … pitch-bend) whatever its channel; 0xF8 as timing-clock; the untabulated 0xF4, 0xF5, 0xF9, 0xFD as `'midi-unknown'` |
| MidiParser.Name | index.js:117-173 | the emitted name is `'sysex'` exactly for a sysex event and `'lost-byte'` exactly for a lost byte; a message is `'midi-unknown'` exactly when its command has no table name |
| MidiParser.EmitMidi | index.js:151-166 | the event carries the bytes after the status as data; it has a channel exactly for a channel status, and then the channel is below 16 and the command's low nibble is zero; command or-ed with the channel gives back the status |
| MidiParser.EmitSysEx | index.js:172-174 | manufacturer followed by payload gives back exactly the bytes after 0xF0; there is no manufacturer exactly when there are no bytes |
| MidiParser.Step | index.js:106-149 | one byte yields at most one event |
| MidiParser.StepKeepsValid | index.js:106-149 | one byte keeps the buffer invariant (empty, or a non-real-time status first; only data after 0xF0; otherwise fewer data bytes than the status expects) |
| MidiParser.Run | index.js:100-104 | a stream yields at most one event per byte |
| MidiParser.RunKeepsValid | index.js:100-104 | a whole stream keeps the buffer invariant |
| MidiParser.RunAppend | index.js:100-104 | writing `s` then `t` is writing `s + t`: final buffer from the first feeds the second, events concatenated in order |
| MidiParser.Parser.constructor | index.js:4-10 | a new parser has an empty buffer |
| MidiParser.Parser.WriteByte | index.js:106-149 | updates `buffer` and returns the events exactly as `Step` says, keeping the invariant, with at most one event |
| MidiParser.Parser.Write | index.js:100-104 | updates `buffer` and returns the events exactly as `Run` over the input in order, with at most one event per byte |
| MidiStream.RealTimeInterleaves | index.js:92-94 | 0xF1 or 0xF8-0xFF gives exactly one `Midi` event with no channel and no data, and the buffer is unchanged, whatever is pending |
| MidiStream.LostByteExactly | index.js:114-119 | a `LostByte(x)` event is reported exactly when the buffer is empty and a data byte `x` arrives; the buffer stays empty |
| MidiStream.StepIdle | index.js:141-147 | on an empty buffer a non-real-time status is reported at once if it expects no data, else it becomes the buffer |
| MidiStream.StepPending | index.js:141-147 | with a non-sysex message pending, any non-real-time byte (a status too) is appended; the last expected data byte reports the message and clears the buffer |
| MidiStream.AccumulatesOutsideSysEx | index.js:141-166 | outside sysex the byte is appended; when the data count is reached exactly `emitMidi` of the buffer is reported (command = the status with its channel cleared, channel present exactly for a channel status, data = the bytes after the status) and the buffer is cleared |
| MidiStream.SysExStep | index.js:121-132 | in sysex a data byte is appended with no event; 0xF7 reports `SysEx` with the buffered bytes after 0xF0 and clears the buffer |
| MidiStream.SysExAbandoned | index.js:134-147 | in sysex any other non-real-time status drops the frame with no event and acts as on an empty buffer: 0xF6 is reported at once, 0xF0 restarts a frame |
| MidiStream.SysExOnlyOnEnd | index.js:121-127 | a `SysEx` event is reported only for 0xF7 inside a frame |
| MidiStream.PendingBounded | index.js:141-147 | a pending non-sysex buffer holds at most two bytes |
| MidiStream.OpenSysEx | index.js:141-147 | 0xF0 on an empty buffer starts a frame with no event |
| MidiStream.SysExPayloadAccumulates | index.js:129-131 | inside a frame any run of data bytes is appended with no events |
| MidiStream.SysExFrameDecoded | index.js:121-131 | 0xF0, manufacturer, payload, 0xF7 gives exactly `SysEx(manufacturer, payload)` and an empty buffer |
| MidiStream.EmptySysEx | index.js:172-174 | 0xF0 0xF7 gives `SysEx` with no manufacturer and an empty payload |
| MidiStream.MessageDecodedFromIdle | index.js:141-147 | a non-real-time status other than 0xF0 with its expected number of data bytes gives exactly the one event `EmitMidi` of those bytes and an empty buffer |
| MidiStream.AbandonThenRun | index.js:134-141 | inside a frame, a stream starting with a non-real-time status other than 0xF7 behaves as on an empty buffer |
| MidiStream.MessageDecoded | index.js:134-147 | the same complete message decodes identically on an empty buffer and in the middle of a frame (not closed by it) |
| MidiStream.AbandonedSysExDecoded | index.js:121-147 | an unterminated frame then a complete message gives only the message's event |
| MidiStream.ChannelMessageDecoded | index.js:151-160 | a channel message gives command `status & 0xF0`, channel `status & 0x0F` and its data bytes |
| MidiStream.StepReportsNoRealTime | index.js:141-147 | a non-real-time byte never yields an event whose command is real-time |
| MidiStream.RealTimeTransparent | index.js:106-110 | removing the real-time bytes from any stream removes exactly their events and changes neither the other events, nor their order, nor the final buffer |
| MidiStream.StepWellFormed | index.js:106-174 | every event of a step is well formed: a channel (below 16) exactly for channel statuses, no data for real-time, exactly the expected data otherwise, 7-bit sysex bytes, lost bytes are data bytes |
| MidiStream.RunWellFormed | index.js:100-104 | every event of a stream from a valid buffer is well formed |
| MidiStream.TimeCodeDataLost | index.js:93 | 0xF1 is reported at once, so its data byte on an empty buffer is reported lost |
| MidiStream.InterleavedClockExample | index.js:106-110 | 90 40 F8 7F gives the timing clock first, then note on channel 0 with data 40 7F, reported under the names `'timing-clock'` and `'note-on'` |
| MidiStream.SysExExample | index.js:121-131 | F0 43 01 02 F7 gives `SysEx(0x43, [01, 02])` |
| MidiStream.AbandonedSysExExample | index.js:134-147 | F0 43 01 90 40 7F gives only note on channel 0 with data 40 7F |
| MidiStream.LostByteExample | index.js:114-119 | 0x40 on a new parser is reported lost |
| MidiStream.UnknownCommandExample | index.js:141-166 | F4 01 02 is one message with no channel and data 01 02, reported as `'midi-unknown'` |
| SevenBitCodec.JoinSplit | index.js:179-180 | a byte's pair is a 7-bit element and a one-bit element, and joining them gives the byte back |
| SevenBitCodec.SplitJoin | index.js:197 | a 7-bit element and a one-bit element are recovered from the byte they join into |
| SevenBitCodec.Encode | index.js:176-184 | the encoding is twice as long as the input and all its elements are below 0x80 |
| SevenBitCodec.Decode | index.js:194-201 | the decoding has half as many bytes as the input, rounded down |
| SevenBitCodec.EncodeAt | index.js:179-180 | pair `k` of the encoding is `(B[k] & 0x7F, (B[k] >> 7) & 0x7F)` |
| SevenBitCodec.DecodeAt | index.js:196-198 | byte `k` of the decoding is the low seven bits of `E[2k]` or-ed with `E[2k+1] << 7`, cut to 8 bits |
| SevenBitCodec.DecodeIgnoresTrailing | index.js:196 | a trailing unpaired element does not change the decoding |
| SevenBitCodec.DecodeEncode | index.js:176-201 | decoding the encoding of any byte sequence gives it back |
| SevenBitCodec.EncodeDecode | index.js:176-201 | encoding the decoding of any even-length sequence of (7-bit, one-bit) pairs gives it back |
| SevenBitCodec.ByteTwoHundred | index.js:176-201 | `[200]` encodes to `[72, 1]`, and `[72, 1]` decodes to `[200]` |
| SevenBitCodec.EncodeValue | index.js:176-184 | the loop builds exactly `Encode` of its input |
| SevenBitCodec.DecodeValue | index.js:194-201 | the loop builds exactly `Decode` of its input |
| SevenBitCodec.AsciiRoundTrip | index.js:189 | a string of 7-bit characters written to a buffer and read back as ASCII is unchanged |
| SevenBitCodec.EncodeString | index.js:186-192 | gives `Encode` of the buffer Node makes of the string |
| SevenBitCodec.DecodeString | index.js:203-205 | gives the ASCII reading of `Decode` of its input, half as long |
| SevenBitCodec.StringRoundTrip | index.js:186-205 | a string of 7-bit characters survives `encodeString` then `decodeString` |

## Left out

- Node's `events.EventEmitter` inheritance and the `emit` calls (index.js:1-12, 117, 166, 173) are not modelled. Events are returned in emission order; listener dispatch and the return value of `emit` are not modelled.
- `writeByte` emits before it clears the buffer (index.js:124-125, 145-146). `Step` treats each byte as one atomic step, so two things are not modelled. A `'sysex'` listener that throws (index.js:124-125) would leave the frame open with `[0xF0, …]` in `buffer`: later data bytes are appended to it, the next 0xF7 reports it again and any other status clears it (index.js:136). A message listener that throws (index.js:145-146) would leave the complete message in `buffer`; after that the strict test at index.js:144 never matches and the buffer grows without bound. A listener that calls `writeByte` again would see the buffer before it is cleared.
- `writeByte`'s return value is not modelled: the result of `emit` on the real-time path (index.js:109) and the new buffer length from `push` on the sysex data path (index.js:131). `WriteByte` returns the events instead.
- The commented-out generic `'midi'` event (index.js:168-169) is dead code.
- Input values are bytes 0-255. A JavaScript number outside that range given to `writeByte` or the codec is not modelled.
- `Parser.msg`, `Parser.msgLength` and `Parser.msgEventName` are exported objects that callers could change. They are modelled as constants. The public `buffer` field is changed only by `WriteByte` and `Write`.
- Calling `Parser()` without `new` (index.js:5-7) yields a new parser the same way as the constructor.
- EncodeString: models only a string argument. A buffer argument goes to `encodeValue` unchanged, which is `EncodeValue`.
- AsciiBytes / AsciiText: Node's `'ascii'` conversion keeps the low 8 bits of each character when writing and clears the high bit when reading. JavaScript strings are UTF-16 code units, while a Dafny `char` is a Unicode scalar value, so characters above U+FFFF are not modelled.
- Concurrency: none exists; the decoder is single-threaded and synchronous.
