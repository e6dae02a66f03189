/** The streaming decoder: `Parser` keeps one pending buffer and turns each
    incoming byte into at most one event (index.js:4-12, 100-174). */
module MidiParser {
  import opened Wrappers
  import opened Bytes
  import opened MidiTables

  /** What the decoder reports. The source emits these through an event
      emitter; here they are returned in order.
      - `Midi`: a complete message, reported under `EventName(cmd)` with its
        channel (channel statuses only) and its data bytes;
      - `SysEx`: a system exclusive frame, with the manufacturer byte (absent
        for an empty frame) and the rest of the payload;
      - `LostByte`: a data byte that arrived with no message pending. */
  datatype Event =
    | Midi(cmd: byte, channel: Option<byte>, data: seq<byte>)
    | SysEx(manufacturer: Option<byte>, payload: seq<byte>)
    | LostByte(b: byte)

  /** The status byte a `Midi` event was decoded from: its command with its
      channel put back into the low nibble. */
  function Status(e: Event): byte
    requires e.Midi?
  {
    e.cmd | e.channel.GetOr(0)
  }

  /** The bytes a `SysEx` event was decoded from, between 0xF0 and 0xF7. */
  function SysExBody(e: Event): seq<byte>
    requires e.SysEx?
  {
    (match e.manufacturer case None => [] case Some(m) => [m]) + e.payload
  }

  /** The name of the event the source emits: `sysex` and `lost-byte` for
      those two, the command's table name for a message, and `UNKNOWN_EVENT`
      for a command the table lacks. No message is mistaken for the other two
      kinds by its name. */
  function Name(e: Event): (name: string)
    ensures name == "sysex" <==> e.SysEx?
    ensures name == "lost-byte" <==> e.LostByte?
    ensures e.Midi? ==> (name == UNKNOWN_EVENT <==> NameTable(e.cmd).None?)
  {
    match e
    case Midi(cmd, _, _) => EventName(cmd)
    case SysEx(_, _) => "sysex"
    case LostByte(_) => "lost-byte"
  }

  /** `emitMidi`: the event for a complete message `byts`, status first. A
      channel status is split into its command and its channel; any other
      status is reported as it is, with no channel. */
  function EmitMidi(byts: seq<byte>): (e: Event)
    requires |byts| > 0
    ensures e.Midi? && e.data == byts[1..]
    ensures Status(e) == byts[0]
    ensures e.channel.Some? <==> IsChannelStatus(byts[0])
    ensures e.channel.Some? ==> e.channel.value < 16 && e.cmd & 0x0F == 0
  {
    var cmd := byts[0];
    if IsChannelStatus(cmd) then Midi(cmd & 0xF0, Some(byts[0] & 0x0F), byts[1..])
    else Midi(cmd, None, byts[1..])
  }

  /** `emitSysEx`: the event for the bytes `byts` of a frame after its 0xF0.
      The first is the manufacturer; an empty frame has none. */
  function EmitSysEx(byts: seq<byte>): (e: Event)
    ensures e.SysEx? && SysExBody(e) == byts
    ensures e.manufacturer.None? <==> byts == []
  {
    if byts == [] then SysEx(None, []) else SysEx(Some(byts[0]), byts[1..])
  }

  /** The invariant the pending buffer keeps between two bytes: it is empty,
      or it starts with a status byte that is not real-time; a system
      exclusive buffer holds only data bytes after its 0xF0, and any other
      buffer still lacks at least one of the data bytes its status expects. */
  predicate ValidBuffer(buffer: seq<byte>) {
    buffer == [] ||
    (IsStatus(buffer[0]) && !IsRealTime(buffer[0]) &&
     (buffer[0] == START_SYSEX ==> forall i :: 1 <= i < |buffer| ==> !IsStatus(buffer[i])) &&
     (buffer[0] != START_SYSEX ==> |buffer| - 1 < DataLength(buffer[0])))
  }

  /** The pending buffer and the events after one or more bytes. */
  datatype StepResult = StepResult(buffer: seq<byte>, events: seq<Event>)

  /** What `writeByte` does with `b` when the buffer holds `buffer`, in the
      source's order of tests: a real-time byte is reported at once and the
      buffer left alone; a data byte with nothing pending is lost; inside a
      system exclusive frame 0xF7 reports the frame, a data byte is kept and
      any other status drops the frame and starts over; otherwise `b` is
      appended, and the message is reported once its data bytes are all in. */
  function Step(buffer: seq<byte>, b: byte): (r: StepResult)
    ensures |r.events| <= 1
  {
    if IsRealTime(b) then
      StepResult(buffer, [EmitMidi([b])])
    else if buffer == [] && !IsStatus(b) then
      StepResult(buffer, [LostByte(b)])
    else if buffer != [] && buffer[0] == START_SYSEX && b == END_SYSEX then
      StepResult([], [EmitSysEx(buffer[1..])])
    else if buffer != [] && buffer[0] == START_SYSEX && !IsStatus(b) then
      StepResult(buffer + [b], [])
    else
      var pending := if buffer != [] && buffer[0] == START_SYSEX then [b] else buffer + [b];
      if DataLength(pending[0]) == |pending| - 1 then StepResult([], [EmitMidi(pending)])
      else StepResult(pending, [])
  }

  /** `write`: the bytes of `data` fed to `Step` in order, starting from
      `buffer`, with the events of each byte in input order. */
  function Run(buffer: seq<byte>, data: seq<byte>): (r: StepResult)
    ensures |r.events| <= |data|
    decreases |data|
  {
    if data == [] then StepResult(buffer, [])
    else
      var first := Step(buffer, data[0]);
      var rest := Run(first.buffer, data[1..]);
      StepResult(rest.buffer, first.events + rest.events)
  }

  /** Each byte keeps the buffer invariant. */
  lemma StepKeepsValid(buffer: seq<byte>, b: byte)
    requires ValidBuffer(buffer)
    ensures ValidBuffer(Step(buffer, b).buffer)
  {
  }

  /** A whole stream keeps the buffer invariant. */
  lemma {:induction false} RunKeepsValid(buffer: seq<byte>, data: seq<byte>)
    requires ValidBuffer(buffer)
    ensures ValidBuffer(Run(buffer, data).buffer)
    decreases |data|
  {
    if data != [] {
      StepKeepsValid(buffer, data[0]);
      RunKeepsValid(Step(buffer, data[0]).buffer, data[1..]);
    }
  }

  /** Feeding one byte is one step. */
  lemma RunOne(buffer: seq<byte>, b: byte)
    ensures Run(buffer, [b]) == Step(buffer, b)
  {
  }

  /** Feeding `data` to an arbitrary step function, as `Run` feeds it to
      `Step`. Facts about feeding in general are proved on this fold, where
      the body of the step is out of the way. */
  ghost function Fold(step: (seq<byte>, byte) -> StepResult, buffer: seq<byte>, data: seq<byte>): StepResult
    decreases |data|
  {
    if data == [] then StepResult(buffer, [])
    else
      var first := step(buffer, data[0]);
      var rest := Fold(step, first.buffer, data[1..]);
      StepResult(rest.buffer, first.events + rest.events)
  }

  /** `Run` is the fold of `Step`. */
  lemma {:induction false} RunIsFold(buffer: seq<byte>, data: seq<byte>)
    ensures Run(buffer, data) == Fold(Step, buffer, data)
    decreases |data|
  {
    if data != [] {
      RunIsFold(Step(buffer, data[0]).buffer, data[1..]);
    }
  }

  /** Folding over `s` then `t` is folding over `s + t`, whatever the step. */
  lemma {:induction false} FoldAppend(step: (seq<byte>, byte) -> StepResult, buffer: seq<byte>, s: seq<byte>, t: seq<byte>)
    ensures Fold(step, buffer, s + t) ==
            StepResult(Fold(step, Fold(step, buffer, s).buffer, t).buffer,
                       Fold(step, buffer, s).events + Fold(step, Fold(step, buffer, s).buffer, t).events)
    decreases |s|
  {
    if s == [] {
      assert s + t == t;
    } else {
      var first := step(buffer, s[0]);
      var middle := Fold(step, first.buffer, s[1..]);
      var last := Fold(step, middle.buffer, t);
      assert Fold(step, buffer, s + t) == StepResult(last.buffer, first.events + (middle.events + last.events)) by {
        assert (s + t)[0] == s[0] && (s + t)[1..] == s[1..] + t;
        FoldAppend(step, first.buffer, s[1..], t);
      }
      assert first.events + (middle.events + last.events) == (first.events + middle.events) + last.events;
    }
  }

  /** Feeding `s` then `t` is feeding `s + t`. */
  lemma RunAppend(buffer: seq<byte>, s: seq<byte>, t: seq<byte>)
    ensures Run(buffer, s + t) ==
            StepResult(Run(Run(buffer, s).buffer, t).buffer,
                       Run(buffer, s).events + Run(Run(buffer, s).buffer, t).events)
  {
    RunIsFold(buffer, s + t);
    RunIsFold(buffer, s);
    RunIsFold(Run(buffer, s).buffer, t);
    FoldAppend(Step, buffer, s, t);
  }

  /** A decoder: its only state is the buffer of the message in progress
      (index.js:4-10). */
  class Parser {
    var buffer: seq<byte>

    ghost predicate Valid()
      reads this
    {
      ValidBuffer(buffer)
    }

    /** A new decoder has nothing pending. */
    constructor ()
      ensures Valid() && buffer == []
    {
      buffer := [];
    }

    /** `writeByte`: takes in one byte and returns the event it completes,
        if any. */
    method WriteByte(b: byte) returns (events: seq<Event>)
      requires Valid()
      modifies this
      ensures Valid()
      ensures |events| <= 1
      ensures StepResult(buffer, events) == Step(old(buffer), b)
    {
      StepKeepsValid(buffer, b);
      if IsRealTime(b) {
        return [EmitMidi([b])];
      }
      var isCommandByte := IsStatus(b);
      if |buffer| == 0 && !isCommandByte {
        return [LostByte(b)];
      }
      if |buffer| > 0 && buffer[0] == START_SYSEX {
        if b == END_SYSEX {
          events := [EmitSysEx(buffer[1..])];
          buffer := [];
          return;
        }
        if !isCommandByte {
          buffer := buffer + [b];
          return [];
        }
        buffer := [];
      }
      buffer := buffer + [b];
      events := [];
      if DataLength(buffer[0]) == |buffer| - 1 {
        events := [EmitMidi(buffer)];
        buffer := [];
      }
    }

    /** `write`: takes in every byte of `data` in order and returns the
        events in the order they were completed. */
    method Write(data: seq<byte>) returns (events: seq<Event>)
      requires Valid()
      modifies this
      ensures Valid()
      ensures |events| <= |data|
      ensures StepResult(buffer, events) == Run(old(buffer), data)
    {
      ghost var start := buffer;
      events := [];
      for i := 0 to |data|
        invariant Valid()
        invariant StepResult(buffer, events) == Run(start, data[..i])
      {
        ghost var before := buffer;
        var more := WriteByte(data[i]);
        assert Run(before, [data[i]]) == StepResult(buffer, more) by {
          RunOne(before, data[i]);
        }
        assert data[..i + 1] == data[..i] + [data[i]];
        RunAppend(start, data[..i], [data[i]]);
        events := events + more;
      }
      assert data[..|data|] == data;
    }
  }
}
