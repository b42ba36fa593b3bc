// The instructions an instruction selector emits: an architecture opcode, an
// addressing mode, a flags continuation, and input and output operands.  The
// opcodes and modes are those the ARM selection rules use.

module Instructions {

  /** ARM architecture opcodes (kArm...). */
  datatype ArchOpcode =
    | ArmAdd | ArmAnd | ArmBic | ArmBfc | ArmCmn | ArmCmp | ArmEor | ArmMla | ArmMls
    | ArmMov | ArmMul | ArmMvn | ArmOrr | ArmRsb | ArmSdiv | ArmSub | ArmTeq | ArmTst
    | ArmUbfx | ArmUdiv
    | ArmVcvtF64S32 | ArmVcvtF64U32 | ArmVcvtS32F64 | ArmVcvtU32F64 | ArmVdivF64

  /** The ARM addressing modes (kMode_...): how the flexible second operand is formed. */
  datatype AddressingMode =
    | ModeNone
    | Operand2I
    | Operand2R
    | Operand2RAsrI | Operand2RAsrR
    | Operand2RLslI | Operand2RLslR
    | Operand2RLsrI | Operand2RLsrR
    | Operand2RRorI | Operand2RRorR

  /** What the instruction does with the condition flags (kFlags_...). */
  datatype FlagsMode = FlagsNone | FlagsBranch | FlagsSet

  /** The condition a flags continuation tests. */
  datatype FlagsCondition = Equal | NotEqual | Overflow | NotOverflow

  /** The opposite condition. */
  function Negate(c: FlagsCondition): (r: FlagsCondition)
    ensures r != c
  {
    match c
    case Equal => NotEqual
    case NotEqual => Equal
    case Overflow => NotOverflow
    case NotOverflow => Overflow
  }

  lemma NegateInvolutive(c: FlagsCondition)
    ensures Negate(Negate(c)) == c
  {
  }

  /** Compare and test opcodes set flags only and define no value. */
  predicate IsCompare(op: ArchOpcode)
  {
    op == ArmCmp || op == ArmCmn || op == ArmTst || op == ArmTeq
  }

  /** Virtual registers: the parameters of the graph, and the temporaries the selector defines. */
  datatype VReg = ParamReg(index: nat) | Temp(index: nat)

  /** The allocation policy of an unallocated operand. */
  datatype Policy = AnyRegister | SameAsFirstInput

  /** The two successor blocks of a branch. */
  datatype BlockTarget = TrueBlock | FalseBlock

  /** An operand as the selector produces it: immediates carry their value. */
  datatype Operand =
    | Reg(vreg: VReg, policy: Policy)
    | Imm(value: int)
    | Label(target: BlockTarget)

  datatype Instruction<Op> = Instruction(
    opcode: ArchOpcode,
    mode: AddressingMode,
    flags: FlagsMode,
    condition: FlagsCondition,
    outputs: seq<Op>,
    inputs: seq<Op>)

  type SelectedInstruction = Instruction<Operand>
}
