/** The MIPI tables and the C code generators (mipi.py): the DSI
    transaction types with their argument limits and generators, the DCS
    command table with arities, helper functions and argument codecs, the
    DCS matcher and the per-type code generators. */
module Mipi {
  import opened Wrappers
  import opened Bytes
  import opened Text
  import opened Wrap
  import opened Options

  /** MIPI DSI processor-to-peripheral data types, as listed in Linux's
      `include/video/mipi_display.h`. */
  datatype Transaction =
    | VSyncStart
    | VSyncEnd
    | HSyncStart
    | HSyncEnd
    | CompressionMode
    | EndOfTransmission
    | ColorModeOff
    | ColorModeOn
    | ShutdownPeripheral
    | TurnOnPeripheral
    | GenericShortWrite0Param
    | GenericShortWrite1Param
    | GenericShortWrite2Param
    | GenericReadRequest0Param
    | GenericReadRequest1Param
    | GenericReadRequest2Param
    | DcsShortWrite
    | DcsShortWriteParam
    | DcsRead
    | ExecuteQueue
    | SetMaximumReturnPacketSize
    | NullPacket
    | BlankingPacket
    | GenericLongWrite
    | DcsLongWrite
    | PictureParameterSet
    | CompressedPixelStream
    | LooselyPackedPixelStreamYcbcr20
    | PackedPixelStreamYcbcr24
    | PackedPixelStreamYcbcr16
    | PackedPixelStream30
    | PackedPixelStream36
    | PackedPixelStreamYcbcr12
    | PackedPixelStream16
    | PackedPixelStream18
    | PixelStream3Byte18
    | PackedPixelStream24

  /** The code generator attached to a transaction type. */
  datatype Generator = Fallback | CompressionModeGen | Peripheral | GenericWrite | DcsWrite | Ignore

  /** A row of the transaction table: data type value, the maximum number
      of arguments (-1 for none given) and the generator. */
  datatype TransactionEntry = TransactionEntry(value: byte, maxArgs: int, gen: Generator)

  /** The transaction table.  Rows written without arguments in the source
      take the defaults `max_args = -1` and `_generate_fallback`. */
  function Entry(t: Transaction): TransactionEntry
  {
    match t
    case VSyncStart => TransactionEntry(0x01, -1, Fallback)
    case VSyncEnd => TransactionEntry(0x11, -1, Fallback)
    case HSyncStart => TransactionEntry(0x21, -1, Fallback)
    case HSyncEnd => TransactionEntry(0x31, -1, Fallback)
    case CompressionMode => TransactionEntry(0x07, 1, CompressionModeGen)
    case EndOfTransmission => TransactionEntry(0x08, -1, Fallback)
    case ColorModeOff => TransactionEntry(0x02, -1, Fallback)
    case ColorModeOn => TransactionEntry(0x12, -1, Fallback)
    case ShutdownPeripheral => TransactionEntry(0x22, 0, Peripheral)
    case TurnOnPeripheral => TransactionEntry(0x32, 0, Peripheral)
    case GenericShortWrite0Param => TransactionEntry(0x03, 0, GenericWrite)
    case GenericShortWrite1Param => TransactionEntry(0x13, 1, GenericWrite)
    case GenericShortWrite2Param => TransactionEntry(0x23, 2, GenericWrite)
    case GenericReadRequest0Param => TransactionEntry(0x04, -1, Fallback)
    case GenericReadRequest1Param => TransactionEntry(0x14, -1, Fallback)
    case GenericReadRequest2Param => TransactionEntry(0x24, -1, Fallback)
    case DcsShortWrite => TransactionEntry(0x05, 0, DcsWrite)
    case DcsShortWriteParam => TransactionEntry(0x15, 1, DcsWrite)
    case DcsRead => TransactionEntry(0x06, -1, Fallback)
    case ExecuteQueue => TransactionEntry(0x16, -1, Fallback)
    case SetMaximumReturnPacketSize => TransactionEntry(0x37, -1, Ignore)
    case NullPacket => TransactionEntry(0x09, -1, Ignore)
    case BlankingPacket => TransactionEntry(0x19, -1, Fallback)
    case GenericLongWrite => TransactionEntry(0x29, -1, GenericWrite)
    case DcsLongWrite => TransactionEntry(0x39, -1, DcsWrite)
    case PictureParameterSet => TransactionEntry(0x0a, -1, Fallback)
    case CompressedPixelStream => TransactionEntry(0x0b, -1, Fallback)
    case LooselyPackedPixelStreamYcbcr20 => TransactionEntry(0x0c, -1, Fallback)
    case PackedPixelStreamYcbcr24 => TransactionEntry(0x1c, -1, Fallback)
    case PackedPixelStreamYcbcr16 => TransactionEntry(0x2c, -1, Fallback)
    case PackedPixelStream30 => TransactionEntry(0x0d, -1, Fallback)
    case PackedPixelStream36 => TransactionEntry(0x1d, -1, Fallback)
    case PackedPixelStreamYcbcr12 => TransactionEntry(0x3d, -1, Fallback)
    case PackedPixelStream16 => TransactionEntry(0x0e, -1, Fallback)
    case PackedPixelStream18 => TransactionEntry(0x1e, -1, Fallback)
    case PixelStream3Byte18 => TransactionEntry(0x2e, -1, Fallback)
    case PackedPixelStream24 => TransactionEntry(0x3e, -1, Fallback)
  }

  /** The enum name of a transaction type. */
  function TransactionName(t: Transaction): string
  {
    match t
    case VSyncStart => "V_SYNC_START"
    case VSyncEnd => "V_SYNC_END"
    case HSyncStart => "H_SYNC_START"
    case HSyncEnd => "H_SYNC_END"
    case CompressionMode => "COMPRESSION_MODE"
    case EndOfTransmission => "END_OF_TRANSMISSION"
    case ColorModeOff => "COLOR_MODE_OFF"
    case ColorModeOn => "COLOR_MODE_ON"
    case ShutdownPeripheral => "SHUTDOWN_PERIPHERAL"
    case TurnOnPeripheral => "TURN_ON_PERIPHERAL"
    case GenericShortWrite0Param => "GENERIC_SHORT_WRITE_0_PARAM"
    case GenericShortWrite1Param => "GENERIC_SHORT_WRITE_1_PARAM"
    case GenericShortWrite2Param => "GENERIC_SHORT_WRITE_2_PARAM"
    case GenericReadRequest0Param => "GENERIC_READ_REQUEST_0_PARAM"
    case GenericReadRequest1Param => "GENERIC_READ_REQUEST_1_PARAM"
    case GenericReadRequest2Param => "GENERIC_READ_REQUEST_2_PARAM"
    case DcsShortWrite => "DCS_SHORT_WRITE"
    case DcsShortWriteParam => "DCS_SHORT_WRITE_PARAM"
    case DcsRead => "DCS_READ"
    case ExecuteQueue => "EXECUTE_QUEUE"
    case SetMaximumReturnPacketSize => "SET_MAXIMUM_RETURN_PACKET_SIZE"
    case NullPacket => "NULL_PACKET"
    case BlankingPacket => "BLANKING_PACKET"
    case GenericLongWrite => "GENERIC_LONG_WRITE"
    case DcsLongWrite => "DCS_LONG_WRITE"
    case PictureParameterSet => "PICTURE_PARAMETER_SET"
    case CompressedPixelStream => "COMPRESSED_PIXEL_STREAM"
    case LooselyPackedPixelStreamYcbcr20 => "LOOSELY_PACKED_PIXEL_STREAM_YCBCR20"
    case PackedPixelStreamYcbcr24 => "PACKED_PIXEL_STREAM_YCBCR24"
    case PackedPixelStreamYcbcr16 => "PACKED_PIXEL_STREAM_YCBCR16"
    case PackedPixelStream30 => "PACKED_PIXEL_STREAM_30"
    case PackedPixelStream36 => "PACKED_PIXEL_STREAM_36"
    case PackedPixelStreamYcbcr12 => "PACKED_PIXEL_STREAM_YCBCR12"
    case PackedPixelStream16 => "PACKED_PIXEL_STREAM_16"
    case PackedPixelStream18 => "PACKED_PIXEL_STREAM_18"
    case PixelStream3Byte18 => "PIXEL_STREAM_3BYTE_18"
    case PackedPixelStream24 => "PACKED_PIXEL_STREAM_24"
  }


  /** `Transaction(value)`: the type whose data type value is `v`, if any. */
  function TransactionOf(v: int): (r: Option<Transaction>)
    ensures r.Some? ==> 0 < v < 0x40
  {
    match v
    case 0x01 => Some(VSyncStart)
    case 0x02 => Some(ColorModeOff)
    case 0x03 => Some(GenericShortWrite0Param)
    case 0x04 => Some(GenericReadRequest0Param)
    case 0x05 => Some(DcsShortWrite)
    case 0x06 => Some(DcsRead)
    case 0x07 => Some(CompressionMode)
    case 0x08 => Some(EndOfTransmission)
    case 0x09 => Some(NullPacket)
    case 0x0a => Some(PictureParameterSet)
    case 0x0b => Some(CompressedPixelStream)
    case 0x0c => Some(LooselyPackedPixelStreamYcbcr20)
    case 0x0d => Some(PackedPixelStream30)
    case 0x0e => Some(PackedPixelStream16)
    case 0x11 => Some(VSyncEnd)
    case 0x12 => Some(ColorModeOn)
    case 0x13 => Some(GenericShortWrite1Param)
    case 0x14 => Some(GenericReadRequest1Param)
    case 0x15 => Some(DcsShortWriteParam)
    case 0x16 => Some(ExecuteQueue)
    case 0x19 => Some(BlankingPacket)
    case 0x1c => Some(PackedPixelStreamYcbcr24)
    case 0x1d => Some(PackedPixelStream36)
    case 0x1e => Some(PackedPixelStream18)
    case 0x21 => Some(HSyncStart)
    case 0x22 => Some(ShutdownPeripheral)
    case 0x23 => Some(GenericShortWrite2Param)
    case 0x24 => Some(GenericReadRequest2Param)
    case 0x29 => Some(GenericLongWrite)
    case 0x2c => Some(PackedPixelStreamYcbcr16)
    case 0x2e => Some(PixelStream3Byte18)
    case 0x31 => Some(HSyncEnd)
    case 0x32 => Some(TurnOnPeripheral)
    case 0x37 => Some(SetMaximumReturnPacketSize)
    case 0x39 => Some(DcsLongWrite)
    case 0x3d => Some(PackedPixelStreamYcbcr12)
    case 0x3e => Some(PackedPixelStream24)
    case _ => None
  }

  /** `is_long`: the long packet formats of `mipi_dsi_packet_format_is_long()`. */
  predicate IsLong(t: Transaction)
    ensures IsLong(t) <==> Entry(t).value % 16 >= 9
  {
    t in {NullPacket, BlankingPacket, GenericLongWrite, DcsLongWrite, PictureParameterSet, CompressedPixelStream, LooselyPackedPixelStreamYcbcr20, PackedPixelStreamYcbcr24, PackedPixelStreamYcbcr16, PackedPixelStream30, PackedPixelStream36, PackedPixelStreamYcbcr12, PackedPixelStream16, PackedPixelStream18, PixelStream3Byte18, PackedPixelStream24}
  }

  /** MIPI DCS commands known to the generator. */
  datatype DcsCommand =
    | Nop
    | SoftReset
    | EnterSleepMode
    | ExitSleepMode
    | EnterPartialMode
    | EnterNormalMode
    | ExitInvertMode
    | EnterInvertMode
    | SetGammaCurve
    | SetDisplayOff
    | SetDisplayOn
    | SetColumnAddress
    | SetPageAddress
    | WriteMemoryStart
    | WriteLut
    | ReadMemoryStart
    | SetPartialRows
    | SetPartialColumns
    | SetScrollArea
    | SetTearOff
    | SetTearOn
    | SetAddressMode
    | SetScrollStart
    | ExitIdleMode
    | EnterIdleMode
    | SetPixelFormat
    | WriteMemoryContinue
    | Set3dControl
    | ReadMemoryContinue
    | SetVsyncTiming
    | SetTearScanline
    | GetScanline
    | SetDisplayBrightness
    | WriteControlDisplay
    | WritePowerSave
    | SetCabcMinBrightness
    | ReadDdbStart
    | ReadPpsStart
    | ReadDdbContinue
    | ReadPpsContinue

  /** How the arguments of a DCS command are rendered: one hex literal per
      byte, `size`-byte integers in the given byte order, or the tear mode name. */
  datatype Codec = Hex | Int(size: nat, big: bool) | Tear

  /** A row of the DCS table: command value, the accepted argument counts
      (empty: any) and the argument codec. */
  datatype DcsEntry = DcsEntry(value: byte, nargs: seq<nat>, codec: Codec)

  /** The DCS command table. */
  function DcsEntryOf(d: DcsCommand): DcsEntry
  {
    match d
    case Nop => DcsEntry(0x00, [0], Hex)
    case SoftReset => DcsEntry(0x01, [0], Hex)
    case EnterSleepMode => DcsEntry(0x10, [0], Hex)
    case ExitSleepMode => DcsEntry(0x11, [0], Hex)
    case EnterPartialMode => DcsEntry(0x12, [0], Hex)
    case EnterNormalMode => DcsEntry(0x13, [0], Hex)
    case ExitInvertMode => DcsEntry(0x20, [0], Hex)
    case EnterInvertMode => DcsEntry(0x21, [0], Hex)
    case SetGammaCurve => DcsEntry(0x26, [1], Hex)
    case SetDisplayOff => DcsEntry(0x28, [0], Hex)
    case SetDisplayOn => DcsEntry(0x29, [0], Hex)
    case SetColumnAddress => DcsEntry(0x2a, [4], Int(2, true))
    case SetPageAddress => DcsEntry(0x2b, [4], Int(2, true))
    case WriteMemoryStart => DcsEntry(0x2c, [], Hex)
    case WriteLut => DcsEntry(0x2d, [], Hex)
    case ReadMemoryStart => DcsEntry(0x2e, [], Hex)
    case SetPartialRows => DcsEntry(0x30, [], Hex)
    case SetPartialColumns => DcsEntry(0x31, [], Hex)
    case SetScrollArea => DcsEntry(0x33, [6], Hex)
    case SetTearOff => DcsEntry(0x34, [0], Hex)
    case SetTearOn => DcsEntry(0x35, [1], Tear)
    case SetAddressMode => DcsEntry(0x36, [1], Hex)
    case SetScrollStart => DcsEntry(0x37, [2], Hex)
    case ExitIdleMode => DcsEntry(0x38, [0], Hex)
    case EnterIdleMode => DcsEntry(0x39, [0], Hex)
    case SetPixelFormat => DcsEntry(0x3a, [1], Hex)
    case WriteMemoryContinue => DcsEntry(0x3c, [], Hex)
    case Set3dControl => DcsEntry(0x3d, [], Hex)
    case ReadMemoryContinue => DcsEntry(0x3e, [], Hex)
    case SetVsyncTiming => DcsEntry(0x40, [], Hex)
    case SetTearScanline => DcsEntry(0x44, [2], Int(2, true))
    case GetScanline => DcsEntry(0x45, [], Hex)
    case SetDisplayBrightness => DcsEntry(0x51, [1, 2], Int(2, false))
    case WriteControlDisplay => DcsEntry(0x53, [1], Hex)
    case WritePowerSave => DcsEntry(0x55, [1], Hex)
    case SetCabcMinBrightness => DcsEntry(0x5e, [], Hex)
    case ReadDdbStart => DcsEntry(0xa1, [], Hex)
    case ReadPpsStart => DcsEntry(0xa2, [], Hex)
    case ReadDdbContinue => DcsEntry(0xa8, [], Hex)
    case ReadPpsContinue => DcsEntry(0xa9, [], Hex)
  }

  /** The enum name of a DCS command. */
  function DcsName(d: DcsCommand): string
  {
    match d
    case Nop => "NOP"
    case SoftReset => "SOFT_RESET"
    case EnterSleepMode => "ENTER_SLEEP_MODE"
    case ExitSleepMode => "EXIT_SLEEP_MODE"
    case EnterPartialMode => "ENTER_PARTIAL_MODE"
    case EnterNormalMode => "ENTER_NORMAL_MODE"
    case ExitInvertMode => "EXIT_INVERT_MODE"
    case EnterInvertMode => "ENTER_INVERT_MODE"
    case SetGammaCurve => "SET_GAMMA_CURVE"
    case SetDisplayOff => "SET_DISPLAY_OFF"
    case SetDisplayOn => "SET_DISPLAY_ON"
    case SetColumnAddress => "SET_COLUMN_ADDRESS"
    case SetPageAddress => "SET_PAGE_ADDRESS"
    case WriteMemoryStart => "WRITE_MEMORY_START"
    case WriteLut => "WRITE_LUT"
    case ReadMemoryStart => "READ_MEMORY_START"
    case SetPartialRows => "SET_PARTIAL_ROWS"
    case SetPartialColumns => "SET_PARTIAL_COLUMNS"
    case SetScrollArea => "SET_SCROLL_AREA"
    case SetTearOff => "SET_TEAR_OFF"
    case SetTearOn => "SET_TEAR_ON"
    case SetAddressMode => "SET_ADDRESS_MODE"
    case SetScrollStart => "SET_SCROLL_START"
    case ExitIdleMode => "EXIT_IDLE_MODE"
    case EnterIdleMode => "ENTER_IDLE_MODE"
    case SetPixelFormat => "SET_PIXEL_FORMAT"
    case WriteMemoryContinue => "WRITE_MEMORY_CONTINUE"
    case Set3dControl => "SET_3D_CONTROL"
    case ReadMemoryContinue => "READ_MEMORY_CONTINUE"
    case SetVsyncTiming => "SET_VSYNC_TIMING"
    case SetTearScanline => "SET_TEAR_SCANLINE"
    case GetScanline => "GET_SCANLINE"
    case SetDisplayBrightness => "SET_DISPLAY_BRIGHTNESS"
    case WriteControlDisplay => "WRITE_CONTROL_DISPLAY"
    case WritePowerSave => "WRITE_POWER_SAVE"
    case SetCabcMinBrightness => "SET_CABC_MIN_BRIGHTNESS"
    case ReadDdbStart => "READ_DDB_START"
    case ReadPpsStart => "READ_PPS_START"
    case ReadDdbContinue => "READ_DDB_CONTINUE"
    case ReadPpsContinue => "READ_PPS_CONTINUE"
  }

  /** The kernel helper that sends a DCS command, if there is one. */
  function DcsHelper(d: DcsCommand): Option<string>
  {
    match d
    case Nop => Some("mipi_dsi_dcs_nop_multi")
    case SoftReset => Some("mipi_dsi_dcs_soft_reset_multi")
    case EnterSleepMode => Some("mipi_dsi_dcs_enter_sleep_mode_multi")
    case ExitSleepMode => Some("mipi_dsi_dcs_exit_sleep_mode_multi")
    case EnterPartialMode => None
    case EnterNormalMode => None
    case ExitInvertMode => None
    case EnterInvertMode => None
    case SetGammaCurve => None
    case SetDisplayOff => Some("mipi_dsi_dcs_set_display_off_multi")
    case SetDisplayOn => Some("mipi_dsi_dcs_set_display_on_multi")
    case SetColumnAddress => Some("mipi_dsi_dcs_set_column_address_multi")
    case SetPageAddress => Some("mipi_dsi_dcs_set_page_address_multi")
    case WriteMemoryStart => None
    case WriteLut => None
    case ReadMemoryStart => None
    case SetPartialRows => None
    case SetPartialColumns => None
    case SetScrollArea => None
    case SetTearOff => Some("mipi_dsi_dcs_set_tear_off_multi")
    case SetTearOn => Some("mipi_dsi_dcs_set_tear_on_multi")
    case SetAddressMode => None
    case SetScrollStart => None
    case ExitIdleMode => None
    case EnterIdleMode => None
    case SetPixelFormat => Some("mipi_dsi_dcs_set_pixel_format_multi")
    case WriteMemoryContinue => None
    case Set3dControl => None
    case ReadMemoryContinue => None
    case SetVsyncTiming => None
    case SetTearScanline => Some("mipi_dsi_dcs_set_tear_scanline_multi")
    case GetScanline => None
    case SetDisplayBrightness => Some("mipi_dsi_dcs_set_display_brightness_multi")
    case WriteControlDisplay => None
    case WritePowerSave => None
    case SetCabcMinBrightness => None
    case ReadDdbStart => None
    case ReadPpsStart => None
    case ReadDdbContinue => None
    case ReadPpsContinue => None
  }


  /** `DCSCommand(value)`: the command whose value is `v`, if any. */
  function DcsCommandOf(v: int): Option<DcsCommand>
  {
    match v
    case 0x00 => Some(Nop)
    case 0x01 => Some(SoftReset)
    case 0x10 => Some(EnterSleepMode)
    case 0x11 => Some(ExitSleepMode)
    case 0x12 => Some(EnterPartialMode)
    case 0x13 => Some(EnterNormalMode)
    case 0x20 => Some(ExitInvertMode)
    case 0x21 => Some(EnterInvertMode)
    case 0x26 => Some(SetGammaCurve)
    case 0x28 => Some(SetDisplayOff)
    case 0x29 => Some(SetDisplayOn)
    case 0x2a => Some(SetColumnAddress)
    case 0x2b => Some(SetPageAddress)
    case 0x2c => Some(WriteMemoryStart)
    case 0x2d => Some(WriteLut)
    case 0x2e => Some(ReadMemoryStart)
    case 0x30 => Some(SetPartialRows)
    case 0x31 => Some(SetPartialColumns)
    case 0x33 => Some(SetScrollArea)
    case 0x34 => Some(SetTearOff)
    case 0x35 => Some(SetTearOn)
    case 0x36 => Some(SetAddressMode)
    case 0x37 => Some(SetScrollStart)
    case 0x38 => Some(ExitIdleMode)
    case 0x39 => Some(EnterIdleMode)
    case 0x3a => Some(SetPixelFormat)
    case 0x3c => Some(WriteMemoryContinue)
    case 0x3d => Some(Set3dControl)
    case 0x3e => Some(ReadMemoryContinue)
    case 0x40 => Some(SetVsyncTiming)
    case 0x44 => Some(SetTearScanline)
    case 0x45 => Some(GetScanline)
    case 0x51 => Some(SetDisplayBrightness)
    case 0x53 => Some(WriteControlDisplay)
    case 0x55 => Some(WritePowerSave)
    case 0x5e => Some(SetCabcMinBrightness)
    case 0xa1 => Some(ReadDdbStart)
    case 0xa2 => Some(ReadPpsStart)
    case 0xa8 => Some(ReadDdbContinue)
    case 0xa9 => Some(ReadPpsContinue)
    case _ => None
  }

  /** Every type is found again from its value, and only from its value:
      the table values are unique. */
  lemma TransactionOfEntry(t: Transaction)
    ensures TransactionOf(Entry(t).value) == Some(t)
  {
    match t {
      case VSyncStart | VSyncEnd | HSyncStart | HSyncEnd | CompressionMode | EndOfTransmission |
        ColorModeOff | ColorModeOn | ShutdownPeripheral | TurnOnPeripheral =>
        TransactionValues1(t, 0);
      case GenericShortWrite0Param | GenericShortWrite1Param | GenericShortWrite2Param |
        GenericReadRequest0Param | GenericReadRequest1Param | GenericReadRequest2Param |
        DcsShortWrite | DcsShortWriteParam | DcsRead | ExecuteQueue =>
        TransactionValues2(t, 0);
      case SetMaximumReturnPacketSize | NullPacket | BlankingPacket | GenericLongWrite | DcsLongWrite |
        PictureParameterSet | CompressedPixelStream | LooselyPackedPixelStreamYcbcr20 |
        PackedPixelStreamYcbcr24 | PackedPixelStreamYcbcr16 =>
        TransactionValues3(t, 0);
      case PackedPixelStream30 | PackedPixelStream36 | PackedPixelStreamYcbcr12 | PackedPixelStream16 |
        PackedPixelStream18 | PixelStream3Byte18 | PackedPixelStream24 =>
        TransactionValues4(t, 0);
    }
  }

  lemma EntryOfTransaction(v: int, t: Transaction)
    requires TransactionOf(v) == Some(t)
    ensures Entry(t).value == v
  {
    match t {
      case VSyncStart | VSyncEnd | HSyncStart | HSyncEnd | CompressionMode | EndOfTransmission |
        ColorModeOff | ColorModeOn | ShutdownPeripheral | TurnOnPeripheral =>
        TransactionValues1(t, v);
      case GenericShortWrite0Param | GenericShortWrite1Param | GenericShortWrite2Param |
        GenericReadRequest0Param | GenericReadRequest1Param | GenericReadRequest2Param |
        DcsShortWrite | DcsShortWriteParam | DcsRead | ExecuteQueue =>
        TransactionValues2(t, v);
      case SetMaximumReturnPacketSize | NullPacket | BlankingPacket | GenericLongWrite | DcsLongWrite |
        PictureParameterSet | CompressedPixelStream | LooselyPackedPixelStreamYcbcr20 |
        PackedPixelStreamYcbcr24 | PackedPixelStreamYcbcr16 =>
        TransactionValues3(t, v);
      case PackedPixelStream30 | PackedPixelStream36 | PackedPixelStreamYcbcr12 | PackedPixelStream16 |
        PackedPixelStream18 | PixelStream3Byte18 | PackedPixelStream24 =>
        TransactionValues4(t, v);
    }
  }

  lemma DcsCommandOfEntry(d: DcsCommand)
    ensures DcsCommandOf(DcsEntryOf(d).value) == Some(d)
  {
    match d {
      case Nop | SoftReset | EnterSleepMode | ExitSleepMode | EnterPartialMode | EnterNormalMode |
        ExitInvertMode | EnterInvertMode | SetGammaCurve | SetDisplayOff =>
        DcsValues1(d, 0);
      case SetDisplayOn | SetColumnAddress | SetPageAddress | WriteMemoryStart | WriteLut |
        ReadMemoryStart | SetPartialRows | SetPartialColumns | SetScrollArea | SetTearOff =>
        DcsValues2(d, 0);
      case SetTearOn | SetAddressMode | SetScrollStart | ExitIdleMode | EnterIdleMode | SetPixelFormat |
        WriteMemoryContinue | Set3dControl | ReadMemoryContinue | SetVsyncTiming =>
        DcsValues3(d, 0);
      case SetTearScanline | GetScanline | SetDisplayBrightness | WriteControlDisplay | WritePowerSave |
        SetCabcMinBrightness | ReadDdbStart | ReadPpsStart | ReadDdbContinue | ReadPpsContinue =>
        DcsValues4(d, 0);
    }
  }

  lemma DcsEntryOfCommand(v: int, d: DcsCommand)
    requires DcsCommandOf(v) == Some(d)
    ensures DcsEntryOf(d).value == v
  {
    match d {
      case Nop | SoftReset | EnterSleepMode | ExitSleepMode | EnterPartialMode | EnterNormalMode |
        ExitInvertMode | EnterInvertMode | SetGammaCurve | SetDisplayOff =>
        DcsValues1(d, v);
      case SetDisplayOn | SetColumnAddress | SetPageAddress | WriteMemoryStart | WriteLut |
        ReadMemoryStart | SetPartialRows | SetPartialColumns | SetScrollArea | SetTearOff =>
        DcsValues2(d, v);
      case SetTearOn | SetAddressMode | SetScrollStart | ExitIdleMode | EnterIdleMode | SetPixelFormat |
        WriteMemoryContinue | Set3dControl | ReadMemoryContinue | SetVsyncTiming =>
        DcsValues3(d, v);
      case SetTearScanline | GetScanline | SetDisplayBrightness | WriteControlDisplay | WritePowerSave |
        SetCabcMinBrightness | ReadDdbStart | ReadPpsStart | ReadDdbContinue | ReadPpsContinue =>
        DcsValues4(d, v);
    }
  }

  // The table lookups in both directions, checked a group of rows at a time.

  lemma TransactionValues1(t: Transaction, v: int)
    requires t.VSyncStart? || t.VSyncEnd? || t.HSyncStart? || t.HSyncEnd? || t.CompressionMode? ||
             t.EndOfTransmission? || t.ColorModeOff? || t.ColorModeOn? || t.ShutdownPeripheral? ||
             t.TurnOnPeripheral?
    ensures TransactionOf(Entry(t).value) == Some(t)
    ensures TransactionOf(v) == Some(t) ==> Entry(t).value == v
  {
  }

  lemma TransactionValues2(t: Transaction, v: int)
    requires t.GenericShortWrite0Param? || t.GenericShortWrite1Param? || t.GenericShortWrite2Param? ||
             t.GenericReadRequest0Param? || t.GenericReadRequest1Param? ||
             t.GenericReadRequest2Param? || t.DcsShortWrite? || t.DcsShortWriteParam? || t.DcsRead? ||
             t.ExecuteQueue?
    ensures TransactionOf(Entry(t).value) == Some(t)
    ensures TransactionOf(v) == Some(t) ==> Entry(t).value == v
  {
  }

  lemma TransactionValues3(t: Transaction, v: int)
    requires t.SetMaximumReturnPacketSize? || t.NullPacket? || t.BlankingPacket? ||
             t.GenericLongWrite? || t.DcsLongWrite? || t.PictureParameterSet? ||
             t.CompressedPixelStream? || t.LooselyPackedPixelStreamYcbcr20? ||
             t.PackedPixelStreamYcbcr24? || t.PackedPixelStreamYcbcr16?
    ensures TransactionOf(Entry(t).value) == Some(t)
    ensures TransactionOf(v) == Some(t) ==> Entry(t).value == v
  {
  }

  lemma TransactionValues4(t: Transaction, v: int)
    requires t.PackedPixelStream30? || t.PackedPixelStream36? || t.PackedPixelStreamYcbcr12? ||
             t.PackedPixelStream16? || t.PackedPixelStream18? || t.PixelStream3Byte18? ||
             t.PackedPixelStream24?
    ensures TransactionOf(Entry(t).value) == Some(t)
    ensures TransactionOf(v) == Some(t) ==> Entry(t).value == v
  {
  }

  lemma DcsValues1(d: DcsCommand, v: int)
    requires d.Nop? || d.SoftReset? || d.EnterSleepMode? || d.ExitSleepMode? || d.EnterPartialMode? ||
             d.EnterNormalMode? || d.ExitInvertMode? || d.EnterInvertMode? || d.SetGammaCurve? ||
             d.SetDisplayOff?
    ensures DcsCommandOf(DcsEntryOf(d).value) == Some(d)
    ensures DcsCommandOf(v) == Some(d) ==> DcsEntryOf(d).value == v
  {
  }

  lemma DcsValues2(d: DcsCommand, v: int)
    requires d.SetDisplayOn? || d.SetColumnAddress? || d.SetPageAddress? || d.WriteMemoryStart? ||
             d.WriteLut? || d.ReadMemoryStart? || d.SetPartialRows? || d.SetPartialColumns? ||
             d.SetScrollArea? || d.SetTearOff?
    ensures DcsCommandOf(DcsEntryOf(d).value) == Some(d)
    ensures DcsCommandOf(v) == Some(d) ==> DcsEntryOf(d).value == v
  {
  }

  lemma DcsValues3(d: DcsCommand, v: int)
    requires d.SetTearOn? || d.SetAddressMode? || d.SetScrollStart? || d.ExitIdleMode? ||
             d.EnterIdleMode? || d.SetPixelFormat? || d.WriteMemoryContinue? || d.Set3dControl? ||
             d.ReadMemoryContinue? || d.SetVsyncTiming?
    ensures DcsCommandOf(DcsEntryOf(d).value) == Some(d)
    ensures DcsCommandOf(v) == Some(d) ==> DcsEntryOf(d).value == v
  {
  }

  lemma DcsValues4(d: DcsCommand, v: int)
    requires d.SetTearScanline? || d.GetScanline? || d.SetDisplayBrightness? ||
             d.WriteControlDisplay? || d.WritePowerSave? || d.SetCabcMinBrightness? ||
             d.ReadDdbStart? || d.ReadPpsStart? || d.ReadDdbContinue? || d.ReadPpsContinue?
    ensures DcsCommandOf(DcsEntryOf(d).value) == Some(d)
    ensures DcsCommandOf(v) == Some(d) ==> DcsEntryOf(d).value == v
  {
  }

  /** Rows written without a generator fall back to `max_args = -1`, and
      every long packet type has no argument limit. */
  lemma TableDefaults(t: Transaction)
    ensures Entry(t).gen == Fallback ==> Entry(t).maxArgs == -1
    ensures IsLong(t) ==> Entry(t).maxArgs == -1
    ensures -1 <= Entry(t).maxArgs <= 2
  {
  }

  /** `identifier` of a DCS command. */
  function DcsIdentifier(d: DcsCommand): string
  {
    "MIPI_DCS_" + DcsName(d)
  }

  // ---------------------------------------------------------------------
  // Argument codecs

  /** `_get_params_hex`: one two-digit hex literal per byte, in order. */
  function HexParams(b: seq<byte>): (r: seq<string>)
    ensures |r| == |b|
    ensures forall i :: 0 <= i < |b| ==> r[i] == HexFill(b[i], 1) && |r[i]| == 4
  {
    seq(|b|, i requires 0 <= i < |b| => HexFill(b[i], 1))
  }

  /** `zip(*[iter(b)] * size)`: the full groups of `size` consecutive
      bytes, in order; trailing bytes that do not fill a group are dropped. */
  function Chunks(size: nat, b: seq<byte>): (r: seq<seq<byte>>)
    requires size > 0
    ensures Span(size, |r|) <= |b| < Span(size, |r|) + size
    decreases |b|
  {
    if |b| < size then [] else [b[..size]] + Chunks(size, b[size..])
  }

  /** Group `k` is the `size` bytes after the `k` groups before it. */
  lemma {:induction false} ChunksAt(size: nat, b: seq<byte>, k: nat)
    requires size > 0 && k < |Chunks(size, b)|
    ensures Span(size, k) + size <= |b|
    ensures Chunks(size, b)[k] == b[Span(size, k)..Span(size, k) + size]
    decreases k
  {
    var r := Chunks(size, b);
    assert |b| >= size;
    assert r == [b[..size]] + Chunks(size, b[size..]);
    if k > 0 {
      ChunksAt(size, b[size..], k - 1);
      assert b[size..][Span(size, k - 1)..Span(size, k - 1) + size] == b[Span(size, k)..Span(size, k) + size];
    }
  }

  /** One literal per full group of bytes. */
  function IntGroups(size: nat, big: bool, b: seq<byte>): (r: seq<string>)
    requires size > 0
    ensures |r| == |Chunks(size, b)|
    ensures forall k :: 0 <= k < |r| ==> r[k] == HexFill(FromBytes(Chunks(size, b)[k], big), size)
  {
    var cs := Chunks(size, b);
    seq(|cs|, k requires 0 <= k < |cs| => HexFill(FromBytes(cs[k], big), size))
  }

  /** Literal `k` of `IntGroups` is the value of the `k`-th group of bytes. */
  lemma IntGroupsAt(size: nat, big: bool, b: seq<byte>, k: nat)
    requires size > 0
    requires k < |IntGroups(size, big, b)|
    ensures Span(size, k) + size <= |b|
    ensures IntGroups(size, big, b)[k] == HexFill(FromBytes(b[Span(size, k)..Span(size, k) + size], big), size)
  {
    ChunksAt(size, b, k);
  }

  /** `_get_params_int(size, byteorder)`: fewer than `size` bytes make one
      literal of all of them; otherwise one literal per full group, and
      trailing bytes that do not fill a group are dropped. */
  function IntParams(size: nat, big: bool, b: seq<byte>): (r: seq<string>)
    ensures size > 0 && |b| < size ==> r == [HexFill(FromBytes(b, big), size)]
    ensures size > 0 && |b| >= size ==> r == IntGroups(size, big, b)
  {
    if size == 0 then []
    else if |b| < size then [HexFill(FromBytes(b, big), size)]
    else IntGroups(size, big, b)
  }

  /** `TearMode.get_params`: the tear mode named by the first byte; any
      other value is a ValueError. */
  function TearParams(b: seq<byte>): (r: Result<seq<string>>)
    ensures |b| == 0 ==> r == Fail(Index)
    ensures r.Ok? <==> |b| > 0 && b[0] <= 1
    ensures r.Ok? ==> |r.value| == 1 && (r.value[0] == "MIPI_DSI_DCS_TEAR_MODE_VBLANK" <==> b[0] == 0)
  {
    if |b| == 0 then Fail(Index)
    else if b[0] == 0 then Ok(["MIPI_DSI_DCS_TEAR_MODE_VBLANK"])
    else if b[0] == 1 then Ok(["MIPI_DSI_DCS_TEAR_MODE_VHBLANK"])
    else Fail(BadValue("TearMode"))
  }

  /** The command's own argument codec applied to the bytes after the command. */
  function Params(d: DcsCommand, b: seq<byte>): (r: Result<seq<string>>)
    ensures DcsEntryOf(d).codec != Tear ==> r.Ok?
    ensures DcsEntryOf(d).codec == Hex ==> r.value == HexParams(b)
    ensures DcsEntryOf(d).codec.Int? ==> r == Ok(IntParams(DcsEntryOf(d).codec.size, DcsEntryOf(d).codec.big, b))
    ensures DcsEntryOf(d).codec == Tear ==> r == TearParams(b)
  {
    match DcsEntryOf(d).codec
    case Hex => Ok(HexParams(b))
    case Int(size, big) => Ok(IntParams(size, big, b))
    case Tear => TearParams(b)
  }

  /** The commands `--dumb-dcs` still matches. */
  const DumbAllowed: set<DcsCommand> := {EnterSleepMode, ExitSleepMode, SetDisplayOn, SetDisplayOff}

  /** The argument count is checked only when the table gives any counts. */
  predicate ArityOk(d: DcsCommand, n: int)
  {
    |DcsEntryOf(d).nargs| == 0 || n in DcsEntryOf(d).nargs
  }

  /** `payload` is a well-formed use of command `d`. */
  predicate Matches(payload: seq<byte>, dumb: bool, d: DcsCommand)
  {
    && |payload| > 0
    && DcsEntryOf(d).value == payload[0]
    && (!dumb || d in DumbAllowed)
    && ArityOk(d, |payload| - 1)
    && Params(d, payload[1..]).Ok?
  }

  /** `DCSCommand.find`: the command named by the first byte, provided it
      is allowed, has a valid argument count and its arguments decode.
      Each of those checks failing yields no match; only an empty payload
      fails, on `payload[0]`. */
  function Find(payload: seq<byte>, dumb: bool): (r: Result<Option<DcsCommand>>)
    ensures r.Fail? <==> |payload| == 0
    ensures r.Ok? && r.value.Some? ==> Matches(payload, dumb, r.value.value)
    ensures forall d :: Matches(payload, dumb, d) ==> r == Ok(Some(d))
  {
    if |payload| == 0 then Fail(Index)
    else match DcsCommandOf(payload[0])
      case None =>
        NoCommandNamed(payload[0]);
        Ok(None)
      case Some(d) =>
        OnlyCommandNamed(payload[0], d);
        if dumb && d !in DumbAllowed then Ok(None)
        else if !ArityOk(d, |payload| - 1) then Ok(None)
        else match Params(d, payload[1..])
          case Ok(_) => Ok(Some(d))
          case Fail(BadValue(_)) => Ok(None)
          case Fail(e) => Fail(e)
  }

  /** A byte the table does not list is the value of no command. */
  lemma NoCommandNamed(v: int)
    requires DcsCommandOf(v).None?
    ensures forall d :: DcsEntryOf(d).value != v
  {
    forall d | DcsEntryOf(d).value == v
      ensures false
    {
      DcsCommandOfEntry(d);
    }
  }

  /** A byte the table lists is the value of that command alone. */
  lemma OnlyCommandNamed(v: int, d: DcsCommand)
    requires DcsCommandOf(v) == Some(d)
    ensures DcsEntryOf(d).value == v
    ensures forall d' :: DcsEntryOf(d').value == v ==> d' == d
  {
    DcsEntryOfCommand(v, d);
    forall d' | DcsEntryOf(d').value == v
      ensures d' == d
    {
      DcsCommandOfEntry(d');
    }
  }

  /** A byte that names no DCS command is no match. */
  lemma FindUnknown(payload: seq<byte>, dumb: bool)
    requires |payload| > 0 && DcsCommandOf(payload[0]).None?
    ensures Find(payload, dumb) == Ok(None)
  {
  }

  /** In dumb mode everything but sleep in/out and display on/off is unmatched. */
  lemma FindDumb(payload: seq<byte>, d: DcsCommand)
    requires |payload| > 0 && DcsCommandOf(payload[0]) == Some(d)
    requires d !in DumbAllowed
    ensures Find(payload, true) == Ok(None)
  {
  }

  /** A wrong argument count is no match, not an error. */
  lemma FindWrongArity(payload: seq<byte>, dumb: bool, d: DcsCommand)
    requires |payload| > 0 && DcsCommandOf(payload[0]) == Some(d)
    requires |DcsEntryOf(d).nargs| > 0 && |payload| - 1 !in DcsEntryOf(d).nargs
    ensures Find(payload, dumb) == Ok(None)
  {
    DcsEntryOfCommand(payload[0], d);
  }

  /** SET_TEAR_ON with an argument other than 0 or 1 is no match. */
  lemma FindTearOnBadMode(mode: byte, dumb: bool)
    requires mode > 1
    ensures Find([0x35, mode], dumb) == Ok(None)
  {
    assert !Matches([0x35, mode], dumb, SetTearOn) by {
      assert [0x35, mode][1..] == [mode];
    }
  }

  // ---------------------------------------------------------------------
  // Code generators

  /** A generated statement: a call of `callee` with `args`, wrapped by
      `join` with the given forced break index, or a comment line. */
  datatype Stmt = Call(callee: string, args: seq<string>, force: int) | Comment(text: string)

  /** The C text of a statement: `\t<callee>(<args>);` wrapped to 80 columns. */
  function Render(s: Stmt): string
  {
    match s
    case Call(f, args, force) => JoinWrap("\t" + f + "(", ",", ");", args, force, 80)
    case Comment(text) => text
  }

  /** A rendered call always begins with its tab, function name and parenthesis. */
  lemma RenderCallStart(f: string, args: seq<string>, force: int)
    ensures StartsWith(Render(Call(f, args, force)), "\t" + f + "(")
  {
    JoinStartsWithPrefix("\t" + f + "(", ",", ");", args, force, 80);
  }

  const Context := "&dsi_ctx"

  /** `_generate_generic_write`. */
  function GenericWriteStmt(payload: seq<byte>): Stmt
  {
    Call("mipi_dsi_generic_write_seq_multi", [Context] + HexParams(payload), 2)
  }

  /** Renaming the first hex byte keeps the rest of the arguments. */
  lemma HexParamsRenamed(payload: seq<byte>, id: string)
    requires |payload| > 0
    ensures [Context] + HexParams(payload)[0 := id] == [Context, id] + HexParams(payload[1..])
  {
    HexParamsTail(payload);
    ReplaceHead(HexParams(payload), id);
  }

  lemma HexParamsTail(b: seq<byte>)
    requires |b| > 0
    ensures HexParams(b)[1..] == HexParams(b[1..])
  {
  }

  lemma ReplaceHead<T>(xs: seq<T>, x: T)
    requires |xs| > 0
    ensures xs[0 := x] == [x] + xs[1..]
  {
    assert forall k :: 0 <= k < |xs| ==> xs[0 := x][k] == ([x] + xs[1..])[k];
  }

  /** `_generate_dcs_write`: a matched command with a helper becomes a
      helper call with decoded arguments; a matched command without one a
      raw write whose first byte is the command's name; anything else a raw
      write of every byte in hex. */
  function DcsWriteStmt(payload: seq<byte>, dumb: bool): (r: Result<Stmt>)
    ensures r.Fail? <==> |payload| == 0
    ensures Find(payload, dumb).Ok? && Find(payload, dumb).value.Some? ==>
      var d := Find(payload, dumb).value.value;
      && (DcsHelper(d).Some? ==> r == Ok(Call(DcsHelper(d).value, [Context] + Params(d, payload[1..]).value, -1)))
      && (DcsHelper(d).None? ==>
            r == Ok(Call("mipi_dsi_dcs_write_seq_multi", [Context, DcsIdentifier(d)] + HexParams(payload[1..]), 2)))
    ensures Find(payload, dumb) == Ok(None) ==>
      r == Ok(Call("mipi_dsi_dcs_write_seq_multi", [Context] + HexParams(payload), 2))
  {
    var found :- Find(payload, dumb);
    match found
    case Some(d) =>
      (match DcsHelper(d)
       case Some(m) => Ok(Call(m, [Context] + Params(d, payload[1..]).value, -1))
       case None =>
         HexParamsRenamed(payload, DcsIdentifier(d));
         Ok(Call("mipi_dsi_dcs_write_seq_multi", [Context] + HexParams(payload)[0 := DcsIdentifier(d)], 2)))
    case None => Ok(Call("mipi_dsi_dcs_write_seq_multi", [Context] + HexParams(payload), 2))
  }

  /** `Transaction.generate`: dispatch on the type's generator. */
  function Generate(t: Transaction, payload: seq<byte>, options: Options): (r: Result<Stmt>)
    ensures r.Ok? && r.value.Call? ==> |r.value.args| >= 1 && r.value.args[0] == Context
    ensures Entry(t).gen == Fallback <==> r == Fail(NotSupported(TransactionName(t)))
    ensures Entry(t).gen == Ignore ==> r == Ok(Comment("\t// WARNING: Ignoring weird " + TransactionName(t)))
    ensures Entry(t).gen == Peripheral ==> r.Ok? && r.value.Call? && r.value.args == [Context]
    ensures t == TurnOnPeripheral ==> r == Ok(Call("mipi_dsi_turn_on_peripheral_multi", [Context], -1))
    ensures t == ShutdownPeripheral ==> r == Ok(Call("mipi_dsi_shutdown_peripheral_multi", [Context], -1))
    ensures Entry(t).gen == GenericWrite ==> r == Ok(GenericWriteStmt(payload))
    ensures Entry(t).gen == DcsWrite ==> r == DcsWriteStmt(payload, options.dumbDcs)
  {
    match Entry(t).gen
    case Fallback => Fail(NotSupported(TransactionName(t)))
    case CompressionModeGen =>
      if |payload| == 0 then Fail(Index)
      else Ok(Call("mipi_dsi_compression_mode_ext_multi",
                   [Context, if payload[0] != 0 then "true" else "false", "MIPI_DSI_COMPRESSION_DSC", "0"], -1))
    case Peripheral =>
      if t == TurnOnPeripheral then Ok(Call("mipi_dsi_turn_on_peripheral_multi", [Context], -1))
      else Ok(Call("mipi_dsi_shutdown_peripheral_multi", [Context], -1))
    case GenericWrite => Ok(GenericWriteStmt(payload))
    case DcsWrite => DcsWriteStmt(payload, options.dumbDcs)
    case Ignore => Ok(Comment("\t// WARNING: Ignoring weird " + TransactionName(t)))
  }

  lemma HexOf29()
    ensures HexFill(0x29, 1) == "0x29"
    ensures HexFill(0x01, 1) == "0x01"
  {
    assert Digits(0x29 / 16, 16) == "2";
    assert Digits(0x29, 16) == "29";
    assert Digits(0x01, 16) == "1";
  }

  /** A DCS write of just SET_DISPLAY_ON becomes the kernel helper call. */
  lemma DisplayOnCall(options: Options)
    ensures Generate(DcsShortWrite, [0x29], options)
         == Ok(Call("mipi_dsi_dcs_set_display_on_multi", [Context], -1))
  {
    DisplayOnWrite(options.dumbDcs);
  }

  lemma DisplayOnWrite(dumb: bool)
    ensures DcsWriteStmt([0x29], dumb) == Ok(Call("mipi_dsi_dcs_set_display_on_multi", [Context], -1))
  {
    var p: seq<byte> := [0x29];
    DisplayOnFound(dumb);
    assert Params(SetDisplayOn, p[1..]) == Ok([]) by {
      assert p[1..] == [];
      assert HexParams([]) == [];
    }
    assert [Context] + [] == [Context];
  }

  lemma DisplayOnFound(dumb: bool)
    ensures Find([0x29], dumb) == Ok(Some(SetDisplayOn))
  {
    var p: seq<byte> := [0x29];
    assert p[1..] == [];
    assert HexParams([]) == [];
    assert Matches(p, dumb, SetDisplayOn);
  }

  lemma HexOf2901()
    ensures HexParams([0x29, 0x01]) == ["0x29", "0x01"]
  {
    HexOf29();
  }

  lemma RawDisplayOn(dumb: bool)
    ensures DcsWriteStmt([0x29, 0x01], dumb) == Ok(Call("mipi_dsi_dcs_write_seq_multi", [Context, "0x29", "0x01"], 2))
  {
    var p: seq<byte> := [0x29, 0x01];
    FindWrongArity(p, dumb, SetDisplayOn);
    HexOf2901();
    assert [Context] + ["0x29", "0x01"] == [Context, "0x29", "0x01"];
  }

  /** With one unexpected argument byte the same command is written raw. */
  lemma DisplayOnWithArgumentIsRaw(options: Options)
    ensures Generate(DcsShortWriteParam, [0x29, 0x01], options)
         == Ok(Call("mipi_dsi_dcs_write_seq_multi", [Context, "0x29", "0x01"], 2))
  {
    var p: seq<byte> := [0x29, 0x01];
    assert Entry(DcsShortWriteParam).gen == DcsWrite;
    RawDisplayOn(options.dumbDcs);
  }
}
