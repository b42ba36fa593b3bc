// The tables the ARM selection rules are checked against: the
// data-processing operators with their opcodes, the overflow-checked
// operators, the shifts with their immediate ranges and addressing modes,
// and a sample of encodable immediates.

module ArmTables {

  import opened Bits
  import opened Instructions
  import opened ArmSelector

  /** A data-processing operator: its opcode, the opcode with swapped operands, and its flags-only test. */
  datatype Dpi = Dpi(op: BinOp, opcode: ArchOpcode, reverseOpcode: ArchOpcode, testOpcode: ArchOpcode)

  const DPIs: seq<Dpi> := [
    Dpi(Word32And, ArmAnd, ArmAnd, ArmTst),
    Dpi(Word32Or, ArmOrr, ArmOrr, ArmOrr),
    Dpi(Word32Xor, ArmEor, ArmEor, ArmTeq),
    Dpi(Int32Add, ArmAdd, ArmAdd, ArmCmn),
    Dpi(Int32Sub, ArmSub, ArmRsb, ArmCmp)]

  /** An overflow-checked operator: its opcode and the opcode with swapped operands. */
  datatype Odpi = Odpi(op: OvfOp, opcode: ArchOpcode, reverseOpcode: ArchOpcode)

  const ODPIs: seq<Odpi> := [
    Odpi(Int32AddWithOverflow, ArmAdd, ArmAdd),
    Odpi(Int32SubWithOverflow, ArmSub, ArmRsb)]

  /** A shift: the range of immediate amounts, and the modes for an immediate and a register amount. */
  datatype ShiftEntry = ShiftEntry(op: ShiftOp, iLow: int, iHigh: int, iMode: AddressingMode, rMode: AddressingMode)

  const Shifts: seq<ShiftEntry> := [
    ShiftEntry(Word32Sar, 1, 32, Operand2RAsrI, Operand2RAsrR),
    ShiftEntry(Word32Shl, 0, 31, Operand2RLslI, Operand2RLslR),
    ShiftEntry(Word32Shr, 1, 32, Operand2RLsrI, Operand2RLsrR),
    ShiftEntry(Word32Ror, 1, 31, Operand2RRorI, Operand2RRorR)]

  // The sampled immediates, in eight parts of fifteen.

  const ImmediatesPart0: set<int> := {
    -2147483617, -2147483606, -2113929216, -2080374784, -1996488704, -1879048192,
    -1459617792, -1358954496, -1342177265, -1275068414, -1073741818, -1073741777,
    -855638016, -805306368, -402653184}
  lemma ImmediatesPart0Encodable()
    ensures forall k | k in ImmediatesPart0 :: CanEncodeImmediate(k)
  {
    assert RotateLeft2(U32(-2147483617), 1) < 256;
    assert RotateLeft2(U32(-2147483606), 1) < 256;
    assert RotateLeft2(U32(-2113929216), 4) < 256;
    assert RotateLeft2(U32(-2080374784), 3) < 256;
    assert RotateLeft2(U32(-1996488704), 4) < 256;
    assert RotateLeft2(U32(-1879048192), 2) < 256;
    assert RotateLeft2(U32(-1459617792), 4) < 256;
    assert RotateLeft2(U32(-1358954496), 4) < 256;
    assert RotateLeft2(U32(-1342177265), 2) < 256;
    assert RotateLeft2(U32(-1275068414), 3) < 256;
    assert RotateLeft2(U32(-1073741818), 1) < 256;
    assert RotateLeft2(U32(-1073741777), 1) < 256;
    assert RotateLeft2(U32(-855638016), 4) < 256;
    assert RotateLeft2(U32(-805306368), 2) < 256;
    assert RotateLeft2(U32(-402653184), 3) < 256;
  }

  const ImmediatesPart1: set<int> := {
    -268435444, -16777216, 0, 35, 61, 105,
    116, 171, 245, 255, 692, 1216,
    1248, 1520, 1600}
  lemma ImmediatesPart1Encodable()
    ensures forall k | k in ImmediatesPart1 :: CanEncodeImmediate(k)
  {
    assert RotateLeft2(U32(-268435444), 2) < 256;
    assert RotateLeft2(U32(-16777216), 4) < 256;
    assert RotateLeft2(U32(0), 0) < 256;
    assert RotateLeft2(U32(35), 0) < 256;
    assert RotateLeft2(U32(61), 0) < 256;
    assert RotateLeft2(U32(105), 0) < 256;
    assert RotateLeft2(U32(116), 0) < 256;
    assert RotateLeft2(U32(171), 0) < 256;
    assert RotateLeft2(U32(245), 0) < 256;
    assert RotateLeft2(U32(255), 0) < 256;
    assert RotateLeft2(U32(692), 15) < 256;
    assert RotateLeft2(U32(1216), 13) < 256;
    assert RotateLeft2(U32(1248), 14) < 256;
    assert RotateLeft2(U32(1520), 14) < 256;
    assert RotateLeft2(U32(1600), 13) < 256;
  }

  const ImmediatesPart2: set<int> := {
    1888, 3744, 4080, 5888, 8384, 9344,
    9472, 9792, 13312, 15040, 15360, 20736,
    22272, 23296, 32000}
  lemma ImmediatesPart2Encodable()
    ensures forall k | k in ImmediatesPart2 :: CanEncodeImmediate(k)
  {
    assert RotateLeft2(U32(1888), 14) < 256;
    assert RotateLeft2(U32(3744), 14) < 256;
    assert RotateLeft2(U32(4080), 14) < 256;
    assert RotateLeft2(U32(5888), 12) < 256;
    assert RotateLeft2(U32(8384), 13) < 256;
    assert RotateLeft2(U32(9344), 13) < 256;
    assert RotateLeft2(U32(9472), 12) < 256;
    assert RotateLeft2(U32(9792), 13) < 256;
    assert RotateLeft2(U32(13312), 11) < 256;
    assert RotateLeft2(U32(15040), 13) < 256;
    assert RotateLeft2(U32(15360), 11) < 256;
    assert RotateLeft2(U32(20736), 12) < 256;
    assert RotateLeft2(U32(22272), 12) < 256;
    assert RotateLeft2(U32(23296), 12) < 256;
    assert RotateLeft2(U32(32000), 12) < 256;
  }

  const ImmediatesPart3: set<int> := {
    33536, 37120, 45824, 47872, 56320, 59392,
    65280, 72704, 101376, 147456, 161792, 164864,
    167936, 173056, 195584}
  lemma ImmediatesPart3Encodable()
    ensures forall k | k in ImmediatesPart3 :: CanEncodeImmediate(k)
  {
    assert RotateLeft2(U32(33536), 12) < 256;
    assert RotateLeft2(U32(37120), 12) < 256;
    assert RotateLeft2(U32(45824), 12) < 256;
    assert RotateLeft2(U32(47872), 12) < 256;
    assert RotateLeft2(U32(56320), 11) < 256;
    assert RotateLeft2(U32(59392), 11) < 256;
    assert RotateLeft2(U32(65280), 12) < 256;
    assert RotateLeft2(U32(72704), 11) < 256;
    assert RotateLeft2(U32(101376), 11) < 256;
    assert RotateLeft2(U32(147456), 9) < 256;
    assert RotateLeft2(U32(161792), 11) < 256;
    assert RotateLeft2(U32(164864), 11) < 256;
    assert RotateLeft2(U32(167936), 10) < 256;
    assert RotateLeft2(U32(173056), 11) < 256;
    assert RotateLeft2(U32(195584), 11) < 256;
  }

  const ImmediatesPart4: set<int> := {
    209920, 212992, 356352, 655360, 704512, 716800,
    851968, 901120, 1044480, 1523712, 2572288, 3211264,
    3588096, 3833856, 3866624}
  lemma ImmediatesPart4Encodable()
    ensures forall k | k in ImmediatesPart4 :: CanEncodeImmediate(k)
  {
    assert RotateLeft2(U32(209920), 11) < 256;
    assert RotateLeft2(U32(212992), 9) < 256;
    assert RotateLeft2(U32(356352), 10) < 256;
    assert RotateLeft2(U32(655360), 8) < 256;
    assert RotateLeft2(U32(704512), 9) < 256;
    assert RotateLeft2(U32(716800), 10) < 256;
    assert RotateLeft2(U32(851968), 8) < 256;
    assert RotateLeft2(U32(901120), 9) < 256;
    assert RotateLeft2(U32(1044480), 10) < 256;
    assert RotateLeft2(U32(1523712), 9) < 256;
    assert RotateLeft2(U32(2572288), 9) < 256;
    assert RotateLeft2(U32(3211264), 8) < 256;
    assert RotateLeft2(U32(3588096), 9) < 256;
    assert RotateLeft2(U32(3833856), 9) < 256;
    assert RotateLeft2(U32(3866624), 8) < 256;
  }

  const ImmediatesPart5: set<int> := {
    4325376, 5177344, 6488064, 7012352, 7471104, 14090240,
    16711680, 19398656, 22282240, 28573696, 30408704, 30670848,
    43253760, 54525952, 55312384}
  lemma ImmediatesPart5Encodable()
    ensures forall k | k in ImmediatesPart5 :: CanEncodeImmediate(k)
  {
    assert RotateLeft2(U32(4325376), 8) < 256;
    assert RotateLeft2(U32(5177344), 8) < 256;
    assert RotateLeft2(U32(6488064), 8) < 256;
    assert RotateLeft2(U32(7012352), 8) < 256;
    assert RotateLeft2(U32(7471104), 8) < 256;
    assert RotateLeft2(U32(14090240), 8) < 256;
    assert RotateLeft2(U32(16711680), 8) < 256;
    assert RotateLeft2(U32(19398656), 7) < 256;
    assert RotateLeft2(U32(22282240), 7) < 256;
    assert RotateLeft2(U32(28573696), 7) < 256;
    assert RotateLeft2(U32(30408704), 6) < 256;
    assert RotateLeft2(U32(30670848), 7) < 256;
    assert RotateLeft2(U32(43253760), 7) < 256;
    assert RotateLeft2(U32(54525952), 5) < 256;
    assert RotateLeft2(U32(55312384), 7) < 256;
  }

  const ImmediatesPart6: set<int> := {
    56623104, 68157440, 115343360, 131072000, 187695104, 188743680,
    195035136, 197132288, 203423744, 218103808, 267386880, 268435470,
    285212672, 402653185, 415236096}
  lemma ImmediatesPart6Encodable()
    ensures forall k | k in ImmediatesPart6 :: CanEncodeImmediate(k)
  {
    assert RotateLeft2(U32(56623104), 6) < 256;
    assert RotateLeft2(U32(68157440), 6) < 256;
    assert RotateLeft2(U32(115343360), 6) < 256;
    assert RotateLeft2(U32(131072000), 6) < 256;
    assert RotateLeft2(U32(187695104), 6) < 256;
    assert RotateLeft2(U32(188743680), 5) < 256;
    assert RotateLeft2(U32(195035136), 6) < 256;
    assert RotateLeft2(U32(197132288), 5) < 256;
    assert RotateLeft2(U32(203423744), 6) < 256;
    assert RotateLeft2(U32(218103808), 4) < 256;
    assert RotateLeft2(U32(267386880), 6) < 256;
    assert RotateLeft2(U32(268435470), 2) < 256;
    assert RotateLeft2(U32(285212672), 4) < 256;
    assert RotateLeft2(U32(402653185), 3) < 256;
    assert RotateLeft2(U32(415236096), 5) < 256;
  }

  const ImmediatesPart7: set<int> := {
    595591168, 603979776, 603979778, 629145600, 1073741835, 1073741855,
    1073741861, 1073741884, 1157627904, 1476395008, 1476395010, 1610612741,
    2030043136, 2080374785, 2097152000}
  lemma ImmediatesPart7Encodable()
    ensures forall k | k in ImmediatesPart7 :: CanEncodeImmediate(k)
  {
    assert RotateLeft2(U32(595591168), 5) < 256;
    assert RotateLeft2(U32(603979776), 3) < 256;
    assert RotateLeft2(U32(603979778), 3) < 256;
    assert RotateLeft2(U32(629145600), 5) < 256;
    assert RotateLeft2(U32(1073741835), 1) < 256;
    assert RotateLeft2(U32(1073741855), 1) < 256;
    assert RotateLeft2(U32(1073741861), 1) < 256;
    assert RotateLeft2(U32(1073741884), 1) < 256;
    assert RotateLeft2(U32(1157627904), 4) < 256;
    assert RotateLeft2(U32(1476395008), 3) < 256;
    assert RotateLeft2(U32(1476395010), 3) < 256;
    assert RotateLeft2(U32(1610612741), 2) < 256;
    assert RotateLeft2(U32(2030043136), 4) < 256;
    assert RotateLeft2(U32(2080374785), 3) < 256;
    assert RotateLeft2(U32(2097152000), 4) < 256;
  }

  const Immediates: set<int> :=
    ImmediatesPart0 + ImmediatesPart1 + ImmediatesPart2 + ImmediatesPart3
    + ImmediatesPart4 + ImmediatesPart5 + ImmediatesPart6 + ImmediatesPart7

  /** Every sampled immediate is an ARM modified immediate. */
  lemma ImmediatesEncodable()
    ensures forall k | k in Immediates :: CanEncodeImmediate(k)
  {
    ImmediatesPart0Encodable();
    ImmediatesPart1Encodable();
    ImmediatesPart2Encodable();
    ImmediatesPart3Encodable();
    ImmediatesPart4Encodable();
    ImmediatesPart5Encodable();
    ImmediatesPart6Encodable();
    ImmediatesPart7Encodable();
  }
}
