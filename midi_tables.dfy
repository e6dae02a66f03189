/** The read-only tables and byte classifiers of the decoder: the named
    status bytes, the number of data bytes each status expects and the
    event name each status is reported under (index.js:14-98). */
module MidiTables {
  import opened Wrappers
  import opened Bytes

  // Status bytes with a name (index.js:15-37). A channel status 0x80-0xEF
  // is named by its high nibble; the low nibble is the channel.
  const NOTE_OFF: byte := 0x80
  const NOTE_ON: byte := 0x90
  const POLY_AT: byte := 0xA0
  const CTRL_CHG: byte := 0xB0
  const PROG_CHG: byte := 0xC0
  const CHAN_AT: byte := 0xD0
  const PITCH_BEND: byte := 0xE0
  const START_SYSEX: byte := 0xF0
  const TIME_CODE: byte := 0xF1
  const SONG_POS: byte := 0xF2
  const SONG_SEL: byte := 0xF3
  const TUNE_REQ: byte := 0xF6
  const END_SYSEX: byte := 0xF7
  const TIMING_CLOCK: byte := 0xF8
  const START: byte := 0xFA
  const CONTINUE: byte := 0xFB
  const STOP: byte := 0xFC
  const ACTIVE_SENS: byte := 0xFE
  const SYSTEM_RESET: byte := 0xFF

  /** Name reported for a command missing from the name table. */
  const UNKNOWN_EVENT := "midi-unknown"

  /** `channelCmd`: a channel voice status, whose low nibble is a channel. */
  predicate IsChannelStatus(b: byte) {
    0x80 <= b <= 0xEF
  }

  /** `commandByte`: a status byte, as opposed to a data byte. */
  predicate IsStatus(b: byte) {
    b >= 0x80
  }

  /** `systemRealTimeByte`: the bytes that are reported at once and never
      buffered. MIDI puts only 0xF8-0xFF in this class; the decoder adds the
      time code quarter frame 0xF1. */
  predicate IsRealTime(b: byte) {
    0xF8 <= b || b == TIME_CODE
  }

  /** The command a status byte stands for: the high nibble of a channel
      status, the byte itself otherwise. */
  function Command(status: byte): (cmd: byte)
    ensures IsChannelStatus(status) ==> cmd & 0x0F == 0 && cmd | (status & 0x0F) == status
    ensures !IsChannelStatus(status) ==> cmd == status
  {
    if IsChannelStatus(status) then status & 0xF0 else status
  }

  /** `msgLength`: the data byte counts the source tabulates, keyed by
      command; `None` where the table has no entry. */
  function LengthTable(cmd: byte): (n: Option<nat>)
    ensures n.Some? ==> n.value <= 2
  {
    match cmd
    case 0xF1 => Some(1)  // timeCode
    case 0xF8 => Some(1)  // timingClock
    case 0xF2 => Some(2)  // songPos
    case 0xF3 => Some(1)  // songSel
    case 0xF6 => Some(0)  // tuneReq
    case 0xFA => Some(0)  // start
    case 0xFB => Some(0)  // continue
    case 0xFC => Some(0)  // stop
    case 0xFE => Some(0)  // activeSens
    case 0xFF => Some(0)  // systemReset
    case 0x80 => Some(2)  // noteOff
    case 0x90 => Some(2)  // noteOn
    case 0xA0 => Some(2)  // polyAT
    case 0xB0 => Some(2)  // ctrlChg
    case 0xC0 => Some(1)  // progChg
    case 0xD0 => Some(1)  // chanAT
    case 0xE0 => Some(2)  // pitchBend
    case _ => None
  }

  /** `msgEventName`: the event names the source tabulates, keyed by
      command; `None` where the table has no entry. */
  function NameTable(cmd: byte): (n: Option<string>)
    ensures n.Some? ==> n.value != UNKNOWN_EVENT && n.value != "sysex" && n.value != "lost-byte"
  {
    match cmd
    case 0xF1 => Some("time-code")
    case 0xF8 => Some("timing-clock")
    case 0xF2 => Some("song-pointer")
    case 0xF3 => Some("song-select")
    case 0xF6 => Some("tune-request")
    case 0xFA => Some("start")
    case 0xFB => Some("continue")
    case 0xFC => Some("stop")
    case 0xFF => Some("system-reset")
    case 0xFE => Some("active-sensing")
    case 0x80 => Some("note-off")
    case 0x90 => Some("note-on")
    case 0xA0 => Some("poly-at")
    case 0xB0 => Some("control-change")
    case 0xC0 => Some("program-change")
    case 0xD0 => Some("channel-at")
    case 0xE0 => Some("pitch-bend")
    case _ => None
  }

  /** `dataLength`: how many data bytes follow `status`. A channel status is
      looked up by its command; a status missing from the table is assumed
      to take two. */
  function DataLength(status: byte): (n: nat)
    ensures n <= 2
    ensures LengthTable(Command(status)).None? ==> n == 2
    ensures LengthTable(Command(status)).Some? ==> n == LengthTable(Command(status)).value
  {
    LengthTable(Command(status)).GetOr(2)
  }

  /** The name under which a command is reported: its table entry, or
      `UNKNOWN_EVENT` when it has none. */
  function EventName(cmd: byte): (name: string)
    ensures name == UNKNOWN_EVENT <==> NameTable(cmd).None?
    ensures NameTable(cmd).Some? ==> name == NameTable(cmd).value
  {
    NameTable(cmd).GetOr(UNKNOWN_EVENT)
  }

  /** How the classifiers split the bytes: data bytes below 0x80; channel
      statuses 0x80-0xEF; real-time bytes 0xF1 and 0xF8-0xFF; and the other
      system statuses 0xF0 and 0xF2-0xF7, which are buffered like channel
      statuses. */
  lemma StatusClasses(b: byte)
    ensures IsChannelStatus(b) ==> IsStatus(b) && !IsRealTime(b)
    ensures IsRealTime(b) ==> IsStatus(b) && b > START_SYSEX
    ensures IsStatus(b) && !IsChannelStatus(b) && !IsRealTime(b) <==> b == START_SYSEX || 0xF2 <= b <= 0xF7
  {
  }

  /** A status byte is exactly a byte with its top bit set, so a data byte
      carries seven bits. */
  lemma StatusIsTopBit(b: byte)
    ensures IsStatus(b) <==> b & 0x80 != 0
    ensures !IsStatus(b) <==> b & 0x7F == b
  {
  }

  /** The two tables have the same keys: every command with a tabulated
      length has a name and vice versa; 0xF0 and 0xF7 are in neither. */
  lemma TablesAgree(cmd: byte)
    ensures LengthTable(cmd).Some? <==> NameTable(cmd).Some?
    ensures cmd == START_SYSEX || cmd == END_SYSEX ==> LengthTable(cmd).None?
  {
  }

  /** Different tabulated commands are reported under different names. */
  lemma NamesDistinct(c1: byte, c2: byte)
    requires NameTable(c1).Some? && NameTable(c2).Some? && c1 != c2
    ensures EventName(c1) != EventName(c2)
  {
  }

  /** The data byte counts by family: note off, note on, polyphonic
      aftertouch, control change and pitch bend take two; program change and
      channel aftertouch one; time code and song select one; song position
      two; tune request none; and the unlisted 0xF0, 0xF4, 0xF5 and 0xF7
      default to two. */
  lemma DataLengthByFamily(status: byte)
    ensures 0x80 <= status <= 0xBF || 0xE0 <= status <= 0xEF ==> DataLength(status) == 2
    ensures 0xC0 <= status <= 0xDF ==> DataLength(status) == 1
    ensures status == TIME_CODE || status == SONG_SEL ==> DataLength(status) == 1
    ensures status == SONG_POS ==> DataLength(status) == 2
    ensures status == TUNE_REQ ==> DataLength(status) == 0
    ensures status in {0xF0, 0xF4, 0xF5, 0xF7} ==> DataLength(status) == 2
  {
  }

  /** The event names by family: each channel command is reported under its
      own name whatever its channel, and the system statuses missing from
      the table (0xF4, 0xF5, 0xF9, 0xFD) are reported as unknown. */
  lemma EventNameByFamily(status: byte)
    ensures 0x80 <= status <= 0x8F ==> EventName(Command(status)) == "note-off"
    ensures 0x90 <= status <= 0x9F ==> EventName(Command(status)) == "note-on"
    ensures 0xA0 <= status <= 0xAF ==> EventName(Command(status)) == "poly-at"
    ensures 0xB0 <= status <= 0xBF ==> EventName(Command(status)) == "control-change"
    ensures 0xC0 <= status <= 0xCF ==> EventName(Command(status)) == "program-change"
    ensures 0xD0 <= status <= 0xDF ==> EventName(Command(status)) == "channel-at"
    ensures 0xE0 <= status <= 0xEF ==> EventName(Command(status)) == "pitch-bend"
    ensures status == TIMING_CLOCK ==> EventName(status) == "timing-clock"
    ensures status in {0xF4, 0xF5, 0xF9, 0xFD} ==> EventName(status) == UNKNOWN_EVENT
  {
  }
}
