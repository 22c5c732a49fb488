/**
 * The SD card protocol tables (`sd_protocol.c`): the card state each
 * command leads to from each state, and each command's response format,
 * CRC check, data direction and busy signalling; and the transfer speed
 * and capacity computed from CSD register fields.
 *
 * Commands and states are plain numbers, as in the source, where an
 * application command (ACMDn) shares the number, and so the table row, of
 * CMDn.
 */
module SdProtocol {
  import Common

  /** `sdp_cur_stat_t`. */
  const IDLE: nat := 0
  const READY: nat := 1
  const IDENT: nat := 2
  const STBY: nat := 3
  const TRAN: nat := 4
  const DATA: nat := 5
  const RCV: nat := 6
  const PRG: nat := 7
  const DIS: nat := 8
  /** `SDP_CNT`: the number of states with a column in the table. */
  const STATE_COUNT: nat := 9
  const INA: nat := 16
  const INV: nat := 255

  /** A command the table does not define: every state leads to `INV`. */
  const RESERVED: seq<nat> := [INV, INV, INV, INV, INV, INV, INV, INV, INV]

  /** The number of rows of the card state transition table: commands 0..63. */
  const COMMAND_COUNT: nat := 64

  /** A row of the card state transition table: the state a command leads to from each state. */
  function Transitions(cmd: nat): (row: seq<nat>)
    requires cmd < COMMAND_COUNT
    ensures |row| == STATE_COUNT
    ensures forall i :: 0 <= i < |row| ==> row[i] < STATE_COUNT || row[i] in {INA, INV}
  {
    match cmd
    case 0 => [IDLE, IDLE, IDLE, IDLE, IDLE, IDLE, IDLE, IDLE, IDLE]
    case 1 => [READY, INV, INV, INV, INV, INV, INV, INV, INV]
    case 2 => [INV, IDENT, INV, INV, INV, INV, INV, INV, INV]
    case 3 => [INV, INV, STBY, STBY, INV, INV, INV, INV, INV]
    case 4 => [INV, INV, INV, STBY, INV, INV, INV, INV, INV]
    case 6 => [INV, INV, INV, INV, DATA, INV, INV, INV, INV]
    case 7 => [INV, INV, INV, TRAN, INV, INV, INV, INV, PRG]
    case 8 => [IDLE, INV, INV, INV, INV, INV, INV, INV, INV]
    case 9 => [INV, INV, INV, STBY, INV, INV, INV, INV, INV]
    case 10 => [INV, INV, INV, STBY, INV, INV, INV, INV, INV]
    case 12 => [INV, INV, INV, INV, INV, TRAN, PRG, INV, INV]
    case 13 => [INV, INV, INV, STBY, TRAN, DATA, RCV, PRG, DIS]
    case 15 => [INV, INV, INV, INA, INA, INA, INA, INA, INA]
    case 16 => [INV, INV, INV, INV, TRAN, INV, INV, INV, INV]
    case 17 => [INV, INV, INV, INV, DATA, INV, INV, INV, INV]
    case 18 => [INV, INV, INV, INV, DATA, INV, INV, INV, INV]
    case 22 => [INV, INV, INV, INV, DATA, INV, INV, INV, INV]
    case 23 => [INV, INV, INV, INV, TRAN, INV, INV, INV, INV]
    case 24 => [INV, INV, INV, INV, RCV, INV, INV, INV, INV]
    case 25 => [INV, INV, INV, INV, RCV, INV, INV, INV, INV]
    case 27 => [INV, INV, INV, INV, RCV, INV, INV, INV, INV]
    case 28 => [INV, INV, INV, INV, PRG, INV, INV, INV, INV]
    case 29 => [INV, INV, INV, INV, PRG, INV, INV, INV, INV]
    case 30 => [INV, INV, INV, INV, DATA, INV, INV, INV, INV]
    case 32 => [INV, INV, INV, INV, TRAN, INV, INV, INV, INV]
    case 33 => [INV, INV, INV, INV, TRAN, INV, INV, INV, INV]
    case 38 => [INV, INV, INV, INV, PRG, INV, INV, INV, INV]
    case 41 => [READY, INV, INV, INV, INV, INV, INV, INV, INV]
    case 42 => [INV, INV, INV, INV, RCV, INV, INV, INV, INV]
    case 51 => [INV, INV, INV, INV, DATA, INV, INV, INV, INV]
    case 55 => [IDLE, INV, INV, STBY, TRAN, DATA, RCV, PRG, DIS]
    case 56 => [INV, INV, INV, INV, DATA, INV, INV, INV, INV]
    case _ => RESERVED
  }

  /** `sdprot_next_stat`: the table entry, or `INV` for a command or state outside it. */
  function NextState(cmd: int, state: nat): (r: nat)
    ensures (cmd < 0 || cmd >= COMMAND_COUNT || state >= STATE_COUNT) ==> r == INV
    ensures 0 <= cmd < COMMAND_COUNT && state < STATE_COUNT ==> r == Transitions(cmd)[state]
  {
    if cmd < 0 || cmd >= COMMAND_COUNT then INV
    else if state >= STATE_COUNT then INV
    else Transitions(cmd)[state]
  }

  /** Whatever the command and state, the next state is a state, inactive or invalid. */
  lemma NextStateInRange(cmd: int, state: nat)
    ensures NextState(cmd, state) < STATE_COUNT || NextState(cmd, state) in {INA, INV}
  {
  }

  /** CMD0 resets a card in any state to idle. */
  lemma GoIdleFromAnyState(state: nat)
    requires state < STATE_COUNT
    ensures NextState(0, state) == IDLE
  {
  }

  /** A single-block read is valid only in the transfer state, and moves the card to sending-data. */
  lemma ReadSingleBlockOnlyFromTransfer(state: nat)
    ensures NextState(17, state) != INV <==> state == TRAN
    ensures NextState(17, TRAN) == DATA
  {
  }

  /** `sdcard_response_t`. */
  datatype Response = NoResponse | Response48 | Response136

  /** `sdprot_resp_type`. */
  function ResponseType(cmd: int): (r: Response)
    ensures r == NoResponse <==> cmd in {0, 4, 15}
    ensures r == Response136 <==> cmd in {2, 9, 10}
  {
    if cmd == 0 || cmd == 4 || cmd == 15 then NoResponse
    else if cmd == 2 || cmd == 9 || cmd == 10 then Response136
    else Response48
  }

  /** `sdprot_resp_crc`: the CRC is checked except on the R3 (operating conditions) responses. */
  function ResponseCrc(cmd: int): (r: nat)
    ensures r in {0, 1} && (r == 0 <==> cmd in {1, 41})
  {
    if cmd == 41 || cmd == 1 then 0 else 1
  }

  /** `sdprot_datadir_t`. */
  datatype DataDirection = NoData | ReadData | WriteData

  /** `sdprot_need_data`. */
  function NeedData(cmd: int): (r: DataDirection)
    ensures r == ReadData <==> cmd in {17, 18, 30, 56, 13, 22, 51}
    ensures r == WriteData <==> cmd in {24, 25, 27, 42}
  {
    if cmd in {17, 18, 30, 56, 13, 22, 51} then ReadData
    else if cmd in {24, 25, 27, 42} then WriteData
    else NoData
  }

  /** `sdprot_need_busy`. */
  function NeedBusy(cmd: int): (r: nat)
    ensures r in {0, 1} && (r == 1 <==> cmd in {7, 8, 12, 28, 29, 38})
  {
    if cmd in {7, 8, 12, 28, 29, 38} then 1 else 0
  }

  /**
   * The data direction agrees with the table: a command that writes data
   * takes a transferring card to receive-data, and one that reads data to
   * sending-data, except ACMD13, whose row is CMD13's.
   */
  lemma DataDirectionMatchesTable(cmd: int)
    ensures NeedData(cmd) == WriteData ==> NextState(cmd, TRAN) == RCV
    ensures NeedData(cmd) == ReadData && cmd != 13 ==> NextState(cmd, TRAN) == DATA
    ensures NeedData(13) == ReadData && NextState(13, TRAN) == TRAN
  {
  }

  /** `sdprot_stat_name`. */
  function StateName(state: int): (s: string)
    ensures (0 <= state < STATE_COUNT || state == INA) <==> s != "Invalid Card State"
  {
    if 0 <= state < STATE_COUNT then
      [ "card identification mode(Idle State)",
        "card identification mode(Ready State)",
        "card identification mode(Identification State)",
        "data transfer mode(Stand-by State)",
        "data transfer mode(Transfer State)",
        "data transfer mode(Sending-data State)",
        "data transfer mode(Receive-data State)",
        "data transfer mode(Programming State)",
        "data transfer mode(Disconnect State)" ][state]
    else if state == INA then "inactive(Inactive State)"
    else "Invalid Card State"
  }

  /** Distinct states have distinct names. */
  lemma StateNamesDistinct(a: int, b: int)
    requires 0 <= a < STATE_COUNT || a == INA
    requires 0 <= b < STATE_COUNT || b == INA
    requires a != b
    ensures StateName(a) != StateName(b)
  {
  }

  /** The transfer-rate multipliers, in tenths, indexed by bits 3..6 of TRAN_SPEED. */
  const MULTIPLIERS: seq<nat> := [0, 10, 12, 13, 15, 20, 25, 30, 35, 40, 45, 50, 55, 60, 70, 80]

  /** The transfer-rate unit, in bit/s, of bits 0..2 of TRAN_SPEED (codes above 3 are reserved). */
  function RateUnit(code: nat): (u: nat)
    requires code < 4
    ensures u % 10 == 0 && u <= 100_000_000
  {
    [100_000, 1_000_000, 10_000_000, 100_000_000][code]
  }

  /**
   * `sdprot_trans_speed`: 0 for a reserved unit code; otherwise the unit
   * times the multiplier.
   */
  function TransSpeed(tranSpeed: nat): (speed: nat)
    requires tranSpeed < 0x100
    ensures tranSpeed % 8 > 3 ==> speed == 0
    ensures tranSpeed % 8 <= 3 ==> 10 * speed == RateUnit(tranSpeed % 8) * MULTIPLIERS[(tranSpeed / 8) % 16]
    ensures speed < 0x1_0000_0000
  {
    var code := tranSpeed % 8;
    if code > 3 then 0
    else RateUnit(code) / 10 * MULTIPLIERS[(tranSpeed / 8) % 16]
  }

  /** The default-speed and high-speed codes of an SD card give 25 and 50 MHz. */
  lemma StandardSpeeds()
    ensures TransSpeed(0x32) == 25_000_000
    ensures TransSpeed(0x5A) == 50_000_000
  {
  }

  /** The CSD fields the capacity uses, at the widths the register gives them. */
  predicate CsdFields(cSize: nat, cSizeMult: nat, readBlLen: nat) {
    cSize < 0x1000 && cSizeMult < 8 && readBlLen < 16
  }

  /**
   * `sdprot_device_size` as written: blocks times block length in
   * `uint32_t`, which wraps once the capacity reaches 4 GiB.
   */
  function DeviceSizeAsWritten(cSize: nat, cSizeMult: nat, readBlLen: nat): (bytes: nat)
    requires CsdFields(cSize, cSizeMult, readBlLen)
    ensures bytes < 0x1_0000_0000
  {
    ((cSize + 1) * Common.Pow2(cSizeMult + 2) * Common.Pow2(readBlLen)) % 0x1_0000_0000
  }

  /** The capacity in bytes: (C_SIZE + 1) blocks of 2^(C_SIZE_MULT + 2) units of 2^READ_BL_LEN bytes. */
  function DeviceSize(cSize: nat, cSizeMult: nat, readBlLen: nat): (bytes: nat)
    requires CsdFields(cSize, cSizeMult, readBlLen)
    ensures bytes == (cSize + 1) * Common.Pow2(cSizeMult + 2 + readBlLen)
  {
    var units := Common.Pow2(cSizeMult + 2);
    var blockLength := Common.Pow2(readBlLen);
    Common.Pow2Add(cSizeMult + 2, readBlLen);
    Common.MulAssoc(cSize + 1, units, blockLength);
    (cSize + 1) * units * blockLength
  }

  /** Below 4 GiB the computation as written is exact. */
  lemma DeviceSizeExactBelowFourGiB(cSize: nat, cSizeMult: nat, readBlLen: nat)
    requires CsdFields(cSize, cSizeMult, readBlLen)
    requires DeviceSize(cSize, cSizeMult, readBlLen) < 0x1_0000_0000
    ensures DeviceSizeAsWritten(cSize, cSizeMult, readBlLen) == DeviceSize(cSize, cSizeMult, readBlLen)
  {
  }

  /** A 4 GiB standard-capacity card (all fields at their largest with 2048-byte blocks) reports 0 bytes. */
  lemma FourGiBCardReportsZero()
    ensures DeviceSize(0xFFF, 7, 11) == 0x1_0000_0000
    ensures DeviceSizeAsWritten(0xFFF, 7, 11) == 0
  {
    Common.Pow2Add(9, 11);
    assert Common.Pow2(9) == 512;
    assert Common.Pow2(11) == 2048;
    assert Common.Pow2(20) == Common.Pow2(9) * Common.Pow2(11);
  }
}
