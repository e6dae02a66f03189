/** What the decoder promises about single bytes and about whole streams. */
module MidiStream {
  import opened Wrappers
  import opened Bytes
  import opened MidiTables
  import opened MidiParser

  /** Data bytes only. */
  predicate AllData(s: seq<byte>) {
    forall i :: 0 <= i < |s| ==> !IsStatus(s[i])
  }

  // ---- one byte at a time ----

  /** A real-time byte (0xF8-0xFF, or 0xF1) is reported at once, with no
      channel and no data, whatever is pending, and the pending buffer is
      neither read nor changed. */
  lemma RealTimeInterleaves(buffer: seq<byte>, b: byte)
    requires IsRealTime(b)
    ensures Step(buffer, b) == StepResult(buffer, [Midi(b, None, [])])
  {
  }

  /** A data byte is reported lost exactly when nothing is pending, and then
      nothing else happens. */
  lemma LostByteExactly(buffer: seq<byte>, b: byte, x: byte)
    ensures Step(buffer, b).events == [LostByte(x)] <==> buffer == [] && !IsStatus(b) && x == b
    ensures buffer == [] && !IsStatus(b) ==> Step(buffer, b).buffer == []
  {
  }

  /** Outside a system exclusive frame every byte that is not real-time is
      appended, a status byte as much as a data byte; once the data bytes
      expected by the first byte are all in, the message is reported and the
      buffer cleared. */
  lemma AccumulatesOutsideSysEx(buffer: seq<byte>, b: byte)
    requires ValidBuffer(buffer) && !IsRealTime(b)
    requires buffer == [] ==> IsStatus(b)
    requires buffer != [] ==> buffer[0] != START_SYSEX
    ensures var pending := buffer + [b];
            var r := Step(buffer, b);
            && (|pending| - 1 == DataLength(pending[0]) ==>
                  r.buffer == [] && r.events == [EmitMidi(pending)] && r.events[0].Midi?
                  && r.events[0].cmd == Command(pending[0])
                  && Status(r.events[0]) == pending[0] && r.events[0].data == pending[1..]
                  && (r.events[0].channel.Some? <==> IsChannelStatus(pending[0])))
            && (|pending| - 1 != DataLength(pending[0]) ==> r == StepResult(pending, []))
  {
  }

  /** A status byte that is neither real-time nor a data byte, on an idle
      decoder, is reported at once if it expects no data and buffered
      otherwise. */
  lemma StepIdle(b: byte)
    requires IsStatus(b) && !IsRealTime(b)
    ensures DataLength(b) == 0 ==> Step([], b) == StepResult([], [EmitMidi([b])])
    ensures DataLength(b) != 0 ==> Step([], b) == StepResult([b], [])
  {
  }

  /** With a message pending, a byte that is not real-time is appended and
      completes the message when it is the last data byte expected. */
  lemma StepPending(buffer: seq<byte>, b: byte)
    requires buffer != [] && buffer[0] != START_SYSEX && !IsRealTime(b)
    ensures DataLength(buffer[0]) == |buffer| ==> Step(buffer, b) == StepResult([], [EmitMidi(buffer + [b])])
    ensures DataLength(buffer[0]) != |buffer| ==> Step(buffer, b) == StepResult(buffer + [b], [])
  {
    assert (buffer + [b])[0] == buffer[0];
  }

  /** Inside a system exclusive frame a data byte is kept with no event and
      0xF7 reports the frame and clears the buffer. */
  lemma SysExStep(buffer: seq<byte>, b: byte)
    requires buffer != [] && buffer[0] == START_SYSEX
    ensures !IsStatus(b) ==> Step(buffer, b) == StepResult(buffer + [b], [])
    ensures b == END_SYSEX ==>
              Step(buffer, b) == StepResult([], [EmitSysEx(buffer[1..])]) &&
              SysExBody(Step(buffer, b).events[0]) == buffer[1..]
  {
  }

  /** Inside a system exclusive frame any other status byte that is not
      real-time drops the frame without an event and is handled as if nothing
      had been pending: 0xF6 is reported at once, 0xF0 starts a new frame. */
  lemma SysExAbandoned(buffer: seq<byte>, b: byte)
    requires buffer != [] && buffer[0] == START_SYSEX
    requires IsStatus(b) && !IsRealTime(b) && b != END_SYSEX
    ensures Step(buffer, b) == Step([], b)
    ensures b == TUNE_REQ ==> Step(buffer, b) == StepResult([], [Midi(TUNE_REQ, None, [])])
    ensures b == START_SYSEX ==> Step(buffer, b) == StepResult([START_SYSEX], [])
  {
  }

  /** A `SysEx` event is only ever reported for 0xF7 closing a frame. */
  lemma SysExOnlyOnEnd(buffer: seq<byte>, b: byte)
    requires |Step(buffer, b).events| == 1 && Step(buffer, b).events[0].SysEx?
    ensures buffer != [] && buffer[0] == START_SYSEX && b == END_SYSEX
  {
  }

  /** The buffer of a message in progress never holds more than a status and
      one data byte; only a system exclusive frame grows. */
  lemma PendingBounded(buffer: seq<byte>)
    requires ValidBuffer(buffer) && buffer != [] && buffer[0] != START_SYSEX
    ensures |buffer| <= 2
  {
  }

  // ---- whole streams ----

  /** Feeding `b` then `rest`. */
  lemma RunCons(buffer: seq<byte>, b: byte, rest: seq<byte>)
    ensures Run(buffer, [b] + rest) ==
            StepResult(Run(Step(buffer, b).buffer, rest).buffer,
                       Step(buffer, b).events + Run(Step(buffer, b).buffer, rest).events)
  {
    assert ([b] + rest)[0] == b && ([b] + rest)[1..] == rest;
  }

  /** Inside a system exclusive frame, data bytes only accumulate. */
  lemma {:induction false} SysExPayloadAccumulates(buffer: seq<byte>, payload: seq<byte>)
    requires buffer != [] && buffer[0] == START_SYSEX && AllData(payload)
    ensures Run(buffer, payload) == StepResult(buffer + payload, [])
    decreases |payload|
  {
    if payload != [] {
      assert buffer + payload == (buffer + [payload[0]]) + payload[1..];
      SysExPayloadAccumulates(buffer + [payload[0]], payload[1..]);
    }
  }

  /** 0xF0 on an idle decoder opens a frame. */
  lemma OpenSysEx(rest: seq<byte>)
    ensures Run([], [START_SYSEX] + rest) == Run([START_SYSEX], rest)
  {
    StepIdle(START_SYSEX);
    RunCons([], START_SYSEX, rest);
  }

  /** A whole frame 0xF0, manufacturer, payload, 0xF7 fed to an idle decoder
      gives exactly one `SysEx` event carrying them, and leaves it idle. */
  lemma SysExFrameDecoded(manufacturer: byte, payload: seq<byte>)
    requires !IsStatus(manufacturer) && AllData(payload)
    ensures Run([], [START_SYSEX, manufacturer] + payload + [END_SYSEX]) ==
            StepResult([], [SysEx(Some(manufacturer), payload)])
  {
    var body := [manufacturer] + payload;
    var frame := [START_SYSEX] + body;
    assert Run([], frame) == StepResult(frame, []) by {
      assert AllData(body);
      SysExPayloadAccumulates([START_SYSEX], body);
      OpenSysEx(body);
    }
    assert Run(frame, [END_SYSEX]) == StepResult([], [SysEx(Some(manufacturer), payload)]) by {
      SysExStep(frame, END_SYSEX);
      RunOne(frame, END_SYSEX);
      assert frame[1..] == body && body[1..] == payload;
    }
    RunAppend([], frame, [END_SYSEX]);
    assert [START_SYSEX, manufacturer] + payload + [END_SYSEX] == frame + [END_SYSEX];
  }

  /** An empty frame 0xF0 0xF7 is reported with no manufacturer. */
  lemma EmptySysEx()
    ensures Run([], [START_SYSEX, END_SYSEX]) == StepResult([], [SysEx(None, [])])
  {
    assert Step([], START_SYSEX) == StepResult([START_SYSEX], []);
    RunOne([START_SYSEX], END_SYSEX);
    RunCons([], START_SYSEX, [END_SYSEX]);
  }

  /** A status expecting one data byte, then that byte, on an idle decoder. */
  lemma OneDataByteMessage(status: byte, d: byte)
    requires IsStatus(status) && !IsRealTime(status) && !IsStatus(d) && DataLength(status) == 1
    ensures Run([], [status, d]) == StepResult([], [EmitMidi([status, d])])
  {
    StepIdle(status);
    RunCons([], status, [d]);
    StepPending([status], d);
    assert [status] + [d] == [status, d];
    RunOne([status], d);
  }

  /** A status expecting two data bytes, then those bytes, on an idle
      decoder. */
  lemma TwoDataByteMessage(status: byte, d1: byte, d2: byte)
    requires IsStatus(status) && !IsRealTime(status) && status != START_SYSEX
    requires !IsStatus(d1) && !IsStatus(d2) && DataLength(status) == 2
    ensures Run([], [status, d1, d2]) == StepResult([], [EmitMidi([status, d1, d2])])
  {
    StepIdle(status);
    RunCons([], status, [d1, d2]);
    StepPending([status], d1);
    assert [status] + [d1] == [status, d1];
    RunCons([status], d1, [d2]);
    StepPending([status, d1], d2);
    assert [status, d1] + [d2] == [status, d1, d2];
    RunOne([status, d1], d2);
  }

  /** Inside a system exclusive frame, a status byte that is neither
      real-time nor 0xF7 starts the stream over as on an idle decoder. */
  lemma {:induction false} AbandonThenRun(buffer: seq<byte>, status: byte, rest: seq<byte>)
    requires buffer != [] && buffer[0] == START_SYSEX
    requires IsStatus(status) && !IsRealTime(status) && status != END_SYSEX
    ensures Run(buffer, [status] + rest) == Run([], [status] + rest)
  {
    SysExAbandoned(buffer, status);
    RunCons(buffer, status, rest);
    RunCons([], status, rest);
  }

  /** A status that is neither real-time nor 0xF0, followed by as many data
      bytes as it expects, gives exactly one `Midi` event for them and leaves
      an idle decoder idle. */
  lemma MessageDecodedFromIdle(status: byte, data: seq<byte>)
    requires IsStatus(status) && !IsRealTime(status) && status != START_SYSEX
    requires AllData(data) && |data| == DataLength(status)
    ensures Run([], [status] + data) == StepResult([], [EmitMidi([status] + data)])
  {
    if |data| == 0 {
      StepIdle(status);
      assert [status] + data == [status];
      RunOne([], status);
    } else if |data| == 1 {
      OneDataByteMessage(status, data[0]);
      assert [status] + data == [status, data[0]];
    } else {
      TwoDataByteMessage(status, data[0], data[1]);
      assert [status] + data == [status, data[0], data[1]];
    }
  }

  /** The same holds in the middle of a system exclusive frame, which the
      status drops silently, unless the status is the 0xF7 closing it. */
  lemma MessageDecoded(buffer: seq<byte>, status: byte, data: seq<byte>)
    requires buffer == [] || (buffer[0] == START_SYSEX && status != END_SYSEX)
    requires IsStatus(status) && !IsRealTime(status) && status != START_SYSEX
    requires AllData(data) && |data| == DataLength(status)
    ensures Run(buffer, [status] + data) == StepResult([], [EmitMidi([status] + data)])
  {
    MessageDecodedFromIdle(status, data);
    if buffer != [] {
      AbandonThenRun(buffer, status, data);
    }
  }

  /** An unterminated frame followed by a complete message: the frame is
      dropped without an event and the message reported alone. */
  lemma AbandonedSysExDecoded(payload: seq<byte>, status: byte, data: seq<byte>)
    requires AllData(payload)
    requires IsStatus(status) && !IsRealTime(status) && status != START_SYSEX && status != END_SYSEX
    requires AllData(data) && |data| == DataLength(status)
    ensures Run([], [START_SYSEX] + payload + ([status] + data)) ==
            StepResult([], [EmitMidi([status] + data)])
  {
    var frame := [START_SYSEX] + payload;
    assert Run([], frame) == StepResult(frame, []) by {
      SysExPayloadAccumulates([START_SYSEX], payload);
      OpenSysEx(payload);
    }
    MessageDecoded(frame, status, data);
    RunAppend([], frame, [status] + data);
  }

  /** A channel voice message decodes to its command (the status with the
      channel cleared), its channel (the low nibble) and its data bytes. */
  lemma ChannelMessageDecoded(status: byte, data: seq<byte>)
    requires IsChannelStatus(status)
    requires AllData(data) && |data| == DataLength(status)
    ensures Run([], [status] + data) ==
            StepResult([], [Midi(status & 0xF0, Some(status & 0x0F), data)])
  {
    MessageDecoded([], status, data);
    assert ([status] + data)[1..] == data;
  }

  /** Whether an event reports a real-time byte. */
  predicate IsRealTimeEvent(e: Event) {
    e.Midi? && IsRealTime(e.cmd)
  }

  /** `data` with its real-time bytes taken out. */
  function WithoutRealTime(data: seq<byte>): (r: seq<byte>)
    ensures |r| <= |data|
    ensures forall i :: 0 <= i < |r| ==> !IsRealTime(r[i])
  {
    if data == [] then []
    else (if IsRealTime(data[0]) then [] else [data[0]]) + WithoutRealTime(data[1..])
  }

  /** `events` with the reports of real-time bytes taken out. */
  function WithoutRealTimeEvents(events: seq<Event>): (r: seq<Event>)
    ensures |r| <= |events|
    ensures forall i :: 0 <= i < |r| ==> !IsRealTimeEvent(r[i])
  {
    if events == [] then []
    else (if IsRealTimeEvent(events[0]) then [] else [events[0]]) + WithoutRealTimeEvents(events[1..])
  }

  lemma {:induction false} WithoutRealTimeEventsAppend(a: seq<Event>, b: seq<Event>)
    ensures WithoutRealTimeEvents(a + b) == WithoutRealTimeEvents(a) + WithoutRealTimeEvents(b)
    decreases |a|
  {
    if a != [] {
      assert (a + b)[0] == a[0];
      assert (a + b)[1..] == a[1..] + b;
      WithoutRealTimeEventsAppend(a[1..], b);
    } else {
      assert a + b == b;
    }
  }

  /** A byte that is not real-time never yields a real-time report. */
  lemma StepReportsNoRealTime(buffer: seq<byte>, b: byte)
    requires ValidBuffer(buffer) && !IsRealTime(b)
    ensures WithoutRealTimeEvents(Step(buffer, b).events) == Step(buffer, b).events
  {
    var es := Step(buffer, b).events;
    if es != [] {
      assert !IsRealTimeEvent(es[0]);
      assert es[1..] == [];
    }
  }

  /** Real-time bytes are transparent: taking them out of a stream takes
      their reports out of the events and changes nothing else, neither the
      other events, nor their order, nor the final buffer. */
  lemma {:induction false} RealTimeTransparent(buffer: seq<byte>, data: seq<byte>)
    requires ValidBuffer(buffer)
    ensures Run(buffer, WithoutRealTime(data)) ==
            StepResult(Run(buffer, data).buffer, WithoutRealTimeEvents(Run(buffer, data).events))
    decreases |data|
  {
    if data != [] {
      var first := Step(buffer, data[0]);
      StepKeepsValid(buffer, data[0]);
      RealTimeTransparent(first.buffer, data[1..]);
      WithoutRealTimeEventsAppend(first.events, Run(first.buffer, data[1..]).events);
      if IsRealTime(data[0]) {
        assert WithoutRealTime(data) == WithoutRealTime(data[1..]);
        assert first.buffer == buffer;
        assert WithoutRealTimeEvents(first.events) == [];
      } else {
        var rest := WithoutRealTime(data[1..]);
        assert WithoutRealTime(data) == [data[0]] + rest;
        assert ([data[0]] + rest)[0] == data[0] && ([data[0]] + rest)[1..] == rest;
        StepReportsNoRealTime(buffer, data[0]);
      }
    }
  }

  /** The shape of every event of a well-formed stream: a message carries
      a channel below 16 only for channel statuses, a real-time report has no
      data, any other message exactly the data bytes its status expects (at
      most two); a system exclusive frame carries only data bytes. */
  predicate WellFormed(e: Event) {
    match e
    case Midi(cmd, channel, data) =>
      (channel.Some? <==> IsChannelStatus(Status(e))) &&
      (channel.Some? ==> channel.value < 16) &&
      (IsRealTime(cmd) ==> data == []) &&
      (!IsRealTime(cmd) ==> |data| == DataLength(Status(e)) && |data| <= 2)
    case SysEx(manufacturer, payload) =>
      (manufacturer.Some? ==> !IsStatus(manufacturer.value)) && AllData(payload)
    case LostByte(b) => !IsStatus(b)
  }

  lemma StepWellFormed(buffer: seq<byte>, b: byte)
    requires ValidBuffer(buffer)
    ensures forall e :: e in Step(buffer, b).events ==> WellFormed(e)
  {
    var r := Step(buffer, b);
    if r.events != [] && r.events[0].SysEx? {
      var body := buffer[1..];
      assert SysExBody(r.events[0]) == body;
      assert AllData(body);
    }
  }

  /** Every event a decoder reports from a valid state is well formed. */
  lemma {:induction false} RunWellFormed(buffer: seq<byte>, data: seq<byte>)
    requires ValidBuffer(buffer)
    ensures forall e :: e in Run(buffer, data).events ==> WellFormed(e)
    decreases |data|
  {
    if data != [] {
      StepWellFormed(buffer, data[0]);
      StepKeepsValid(buffer, data[0]);
      RunWellFormed(Step(buffer, data[0]).buffer, data[1..]);
    }
  }

  // ---- worked examples ----

  /** A timing clock inside a note on is reported first and does not disturb
      the note on. */
  lemma InterleavedClockExample()
    ensures Run([], [0x90, 0x40, 0xF8, 0x7F]) ==
            StepResult([], [Midi(TIMING_CLOCK, None, []), Midi(NOTE_ON, Some(0), [0x40, 0x7F])])
    ensures Name(Run([], [0x90, 0x40, 0xF8, 0x7F]).events[0]) == "timing-clock"
    ensures Name(Run([], [0x90, 0x40, 0xF8, 0x7F]).events[1]) == "note-on"
  {
    EventNameByFamily(0x90);
    EventNameByFamily(TIMING_CLOCK);
    var clock := Midi(TIMING_CLOCK, None, []);
    var noteOn := Midi(NOTE_ON, Some(0), [0x40, 0x7F]);
    var status: seq<byte> := [0x90];
    var pending: seq<byte> := [0x90, 0x40];
    var message: seq<byte> := [0x90, 0x40, 0x7F];
    var tail: seq<byte> := [0xF8, 0x7F];
    var stream: seq<byte> := [0x90, 0x40, 0xF8, 0x7F];
    DataLengthByFamily(0x90);
    assert Run(pending, [0x7F]) == StepResult([], [noteOn]) by {
      StepPending(pending, 0x7F);
      assert pending + [0x7F] == message;
      assert message[1..] == [0x40, 0x7F];
      RunOne(pending, 0x7F);
    }
    assert Run(pending, tail) == StepResult([], [clock, noteOn]) by {
      RealTimeInterleaves(pending, 0xF8);
      RunCons(pending, 0xF8, [0x7F]);
      assert [0xF8] + [0x7F] == tail;
    }
    assert Run(status, [0x40] + tail) == StepResult([], [clock, noteOn]) by {
      StepPending(status, 0x40);
      assert status + [0x40] == pending;
      RunCons(status, 0x40, tail);
    }
    StepIdle(0x90);
    RunCons([], 0x90, [0x40] + tail);
    assert [0x90] + ([0x40] + tail) == stream;
  }

  /** A frame with manufacturer 0x43 and payload 01 02. */
  lemma SysExExample()
    ensures Run([], [0xF0, 0x43, 0x01, 0x02, 0xF7]) ==
            StepResult([], [SysEx(Some(0x43), [0x01, 0x02])])
  {
    SysExFrameDecoded(0x43, [0x01, 0x02]);
    assert [START_SYSEX, 0x43] + [0x01, 0x02] + [END_SYSEX] == [0xF0, 0x43, 0x01, 0x02, 0xF7];
  }

  /** A note on that interrupts a frame drops it and is reported alone. */
  lemma AbandonedSysExExample()
    ensures Run([], [0xF0, 0x43, 0x01, 0x90, 0x40, 0x7F]) ==
            StepResult([], [Midi(NOTE_ON, Some(0), [0x40, 0x7F])])
  {
    var payload: seq<byte> := [0x43, 0x01];
    var data: seq<byte> := [0x40, 0x7F];
    DataLengthByFamily(0x90);
    AbandonedSysExDecoded(payload, 0x90, data);
    assert [START_SYSEX] + payload + ([0x90] + data) == [0xF0, 0x43, 0x01, 0x90, 0x40, 0x7F];
    assert ([0x90] + data)[1..] == data;
  }

  /** The time code is reported at once like a real-time byte, so the data
      byte that follows it in MIDI is never collected: on an idle decoder it
      is reported lost. */
  lemma TimeCodeDataLost(d: byte)
    requires !IsStatus(d)
    ensures Run([], [TIME_CODE, d]) == StepResult([], [Midi(TIME_CODE, None, []), LostByte(d)])
  {
    RealTimeInterleaves([], TIME_CODE);
    RunCons([], TIME_CODE, [d]);
    RunOne([], d);
  }

  /** A data byte on an idle decoder is reported lost. */
  lemma LostByteExample()
    ensures Run([], [0x40]) == StepResult([], [LostByte(0x40)])
  {
  }

  /** 0xF4 has no table entry: it is taken to carry two data bytes and is
      reported as unknown. */
  lemma UnknownCommandExample()
    ensures Run([], [0xF4, 0x01, 0x02]) == StepResult([], [Midi(0xF4, None, [0x01, 0x02])])
    ensures Name(Run([], [0xF4, 0x01, 0x02]).events[0]) == UNKNOWN_EVENT
  {
    var data: seq<byte> := [0x01, 0x02];
    DataLengthByFamily(0xF4);
    EventNameByFamily(0xF4);
    MessageDecodedFromIdle(0xF4, data);
    assert [0xF4] + data == [0xF4, 0x01, 0x02];
    assert ([0xF4] + data)[1..] == data;
  }
}
