/** The SSD1306 command set used by the driver (section 9 of the Solomon
    Systech SSD1306 datasheet), as a closed set of typed commands, each
    carrying its argument bytes, with its wire encoding and a decoder. */
module Commands {
  import opened Errors

  // Opcodes, as in ssd1306-cmds.h.
  const SET_CONTRAST_CTRL: bv8 := 0x81
  const ENTIRE_DISP_ON: bv8 := 0xA4       // output follows RAM content
  const SET_DISP_ON: bv8 := 0xAF
  const SET_DISP_OFF: bv8 := 0xAE
  const SET_MEMORY_ADDR_MODE: bv8 := 0x20
  const SET_COL_ADRS: bv8 := 0x21
  const SET_PAGE_ADRS: bv8 := 0x22
  const SET_DISP_START_LINE: bv8 := 0x40
  const SET_SEG_REMAP: bv8 := 0xA0
  const SET_MLTPLX_RATIO: bv8 := 0xA8
  const SET_COM_OUTPUT_INCR: bv8 := 0xC0
  const SET_DISP_OFFSET: bv8 := 0xD3
  const SET_COM_PINS_HW: bv8 := 0xDA
  const ENABLE_CHARGE_PUMP_REG: bv8 := 0x8D
  const ENABLE_CHARGE_PUMP: bv8 := 0x14
  const DISABLE_CHARGE_PUMP: bv8 := 0x10
  const SET_DISP_CLOCK_DEV: bv8 := 0xD5
  const NOP: bv8 := 0xE3

  datatype Command =
    | Nop
    | DisplayPower(on: bool)
    | MultiplexRatio(ratio: bv8)
    | DisplayOffset(offset: bv8)
    | StartLineZero
    | SegmentRemap
    | ComScanIncrement
    | ComPins(config: bv8)
    | Contrast(level: bv8)
    | FollowRam
    | ClockDivider(setting: bv8)
    | ChargePump(enable: bool)
    | AddressingMode(mode: bv8)
    | ColumnWindow(first: bv8, last: bv8)
    | PageWindow(first: bv8, last: bv8)

  /** The bytes the driver sends, one `send_cmd` call each, for a command. */
  function Encode(c: Command): (bytes: seq<bv8>)
    ensures 1 <= |bytes| <= 3
  {
    match c
    case Nop => [NOP]
    case DisplayPower(on) => [if on then SET_DISP_ON else SET_DISP_OFF]
    case MultiplexRatio(ratio) => [SET_MLTPLX_RATIO, ratio]
    case DisplayOffset(offset) => [SET_DISP_OFFSET, offset]
    case StartLineZero => [SET_DISP_START_LINE]
    case SegmentRemap => [SET_SEG_REMAP]
    case ComScanIncrement => [SET_COM_OUTPUT_INCR]
    case ComPins(config) => [SET_COM_PINS_HW, config]
    case Contrast(level) => [SET_CONTRAST_CTRL, level]
    case FollowRam => [ENTIRE_DISP_ON]
    case ClockDivider(setting) => [SET_DISP_CLOCK_DEV, setting]
    case ChargePump(enable) =>
      [ENABLE_CHARGE_PUMP_REG, if enable then ENABLE_CHARGE_PUMP else DISABLE_CHARGE_PUMP]
    case AddressingMode(mode) => [SET_MEMORY_ADDR_MODE, mode]
    case ColumnWindow(first, last) => [SET_COL_ADRS, first, last]
    case PageWindow(first, last) => [SET_PAGE_ADRS, first, last]
  }

  /** Reads one command, opcode first, from exactly the bytes of one step.
      The driver never decodes; this inverse of `Encode` exists to state
      that the wire encoding is unambiguous. */
  function Decode(bytes: seq<bv8>): (c: Option<Command>) {
    if |bytes| == 1 then
      var op := bytes[0];
      if op == NOP then Some(Nop)
      else if op == SET_DISP_ON then Some(DisplayPower(true))
      else if op == SET_DISP_OFF then Some(DisplayPower(false))
      else if op == SET_DISP_START_LINE then Some(StartLineZero)
      else if op == SET_SEG_REMAP then Some(SegmentRemap)
      else if op == SET_COM_OUTPUT_INCR then Some(ComScanIncrement)
      else if op == ENTIRE_DISP_ON then Some(FollowRam)
      else None
    else if |bytes| == 2 then
      var op, arg := bytes[0], bytes[1];
      if op == SET_MLTPLX_RATIO then Some(MultiplexRatio(arg))
      else if op == SET_DISP_OFFSET then Some(DisplayOffset(arg))
      else if op == SET_COM_PINS_HW then Some(ComPins(arg))
      else if op == SET_CONTRAST_CTRL then Some(Contrast(arg))
      else if op == SET_DISP_CLOCK_DEV then Some(ClockDivider(arg))
      else if op == SET_MEMORY_ADDR_MODE then Some(AddressingMode(arg))
      else if op == ENABLE_CHARGE_PUMP_REG && arg == ENABLE_CHARGE_PUMP then Some(ChargePump(true))
      else if op == ENABLE_CHARGE_PUMP_REG && arg == DISABLE_CHARGE_PUMP then Some(ChargePump(false))
      else None
    else if |bytes| == 3 then
      if bytes[0] == SET_COL_ADRS then Some(ColumnWindow(bytes[1], bytes[2]))
      else if bytes[0] == SET_PAGE_ADRS then Some(PageWindow(bytes[1], bytes[2]))
      else None
    else None
  }

  /** Every command is recovered from its encoding. */
  lemma DecodeEncode(c: Command)
    ensures Decode(Encode(c)) == Some(c)
  {
  }

  /** Whatever decodes to a command is exactly that command's encoding. */
  lemma EncodeDecode(bytes: seq<bv8>)
    ensures Decode(bytes).Some? ==> Encode(Decode(bytes).value) == bytes
  {
  }

  /** Two commands with the same encoding are the same command. */
  lemma EncodeInjective(c: Command, d: Command)
    ensures Encode(c) == Encode(d) ==> c == d
  {
    DecodeEncode(c);
    DecodeEncode(d);
  }
}
