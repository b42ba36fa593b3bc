// Instruction selection for ARM: the rules that turn a small graph of
// 32-bit machine operators into ARM instructions.  A graph either returns a
// value or branches on one; the selector folds constants and shifts into
// ARM's flexible second operand, fuses and-not, multiply-accumulate, bit
// field and compare-with-zero patterns, strength-reduces multiplications and
// expands division by the available CPU features.
//
// Register operands must be parameters of the graph except in the fused
// patterns; any other shape selects to None.

module ArmSelector {

  import opened Wrappers
  import opened Bits
  import opened Instructions

  // ---------------------------------------------------------------------
  // Graphs.

  datatype BinOp =
    | Word32And | Word32Or | Word32Xor | Int32Add | Int32Sub | Int32Mul
    | Int32Div | Int32UDiv | Int32Mod | Int32UMod

  datatype ShiftOp = Word32Sar | Word32Shl | Word32Shr | Word32Ror

  datatype OvfOp = Int32AddWithOverflow | Int32SubWithOverflow

  datatype Expr =
    | Parameter(index: nat)
    | Int32Constant(value: int)
    | Binary(op: BinOp, left: Expr, right: Expr)
    | Shift(shift: ShiftOp, left: Expr, right: Expr)
    | Word32Not(operand: Expr)
    | Word32Equal(left: Expr, right: Expr)
    | Projection(index: nat, node: OvfNode)

  /** An operation with overflow check: projection 0 is its value, projection 1 its overflow bit. */
  datatype OvfNode = OvfNode(op: OvfOp, left: Expr, right: Expr)

  /** `a != b`, built as the negation of an equality test. */
  function Word32NotEqual(a: Expr, b: Expr): Expr
  {
    Word32Equal(Word32Equal(a, b), Int32Constant(0))
  }

  datatype Graph = Return(value: Expr) | Branch(condition: Expr)

  datatype Features = Features(armv7: bool, sudiv: bool, mls: bool)

  const NoFeatures: Features := Features(false, false, false)

  const kMaxInt: int := 0x7fff_ffff

  // ---------------------------------------------------------------------
  // Encodable immediates: ARM's modified immediate constant (section A5.2.4
  // of the ARM Architecture Reference Manual, ARMv7-A and ARMv7-R edition)
  // is an 8-bit value rotated right by an even amount.

  /** 4^r for r in [0, 16). */
  const Pow4: seq<int> := [
    1, 4, 16, 64, 256, 1024, 4096, 16384, 65536, 262144, 1048576, 4194304,
    16777216, 67108864, 268435456, 1073741824]

  /** The word u rotated left by 2r bits. */
  function RotateLeft2(u: int, r: nat): int
    requires r < 16
  {
    (u * Pow4[r]) % Word + u / (Word / Pow4[r])
  }

  /** The bits of k, read as a word, are some 8-bit value rotated right by 2r. */
  predicate CanEncodeImmediate(k: int)
  {
    exists r | 0 <= r < 16 :: RotateLeft2(U32(k), r) < 256
  }

  // ---------------------------------------------------------------------
  // The selector's operand encodings.

  /** The immediate range and the two addressing modes of a shifted operand. */
  datatype ShiftEncoding = ShiftEncoding(low: int, high: int, immMode: AddressingMode, regMode: AddressingMode)

  function ShiftEncodingOf(op: ShiftOp): ShiftEncoding
  {
    match op
    case Word32Sar => ShiftEncoding(1, 32, Operand2RAsrI, Operand2RAsrR)
    case Word32Shl => ShiftEncoding(0, 31, Operand2RLslI, Operand2RLslR)
    case Word32Shr => ShiftEncoding(1, 32, Operand2RLsrI, Operand2RLsrR)
    case Word32Ror => ShiftEncoding(1, 31, Operand2RRorI, Operand2RRorR)
  }

  /** The opcode of an overflow-checked operation, and the one used when the operands are swapped. */
  function OvfOpcodes(op: OvfOp): (ArchOpcode, ArchOpcode)
  {
    match op
    case Int32AddWithOverflow => (ArmAdd, ArmAdd)
    case Int32SubWithOverflow => (ArmSub, ArmRsb)
  }

  /** The flags-only opcode that tests the result of a binary operation against zero. */
  function TestOpcode(op: BinOp): Option<ArchOpcode>
  {
    match op
    case Word32And => Some(ArmTst)
    case Word32Or => Some(ArmOrr)
    case Word32Xor => Some(ArmTeq)
    case Int32Add => Some(ArmCmn)
    case Int32Sub => Some(ArmCmp)
    case _ => None
  }

  function ParamOperand(i: nat): Operand
  {
    Reg(ParamReg(i), AnyRegister)
  }

  function TempOperand(t: nat): Operand
  {
    Reg(Temp(t), AnyRegister)
  }

  /** Commutative operators put a constant operand on the right. */
  predicate ConstantOnLeft(a: Expr, b: Expr)
  {
    a.Int32Constant? && !b.Int32Constant?
  }

  /**
   * The flexible second operand an expression folds into: a shift, by an
   * immediate in its range or else by a register; an encodable constant.
   * Unsupported: the shape folds but one of its registers is not a parameter.
   */
  datatype Operand2Match = NoOperand2 | Operand2(mode: AddressingMode, operands: seq<Operand>) | Unsupported

  function MatchShift(e: Expr): Operand2Match
  {
    match e
    case Shift(op, x, y) =>
      var enc := ShiftEncodingOf(op);
      if !x.Parameter? then Unsupported
      else if y.Int32Constant? && enc.low <= y.value <= enc.high then
        Operand2(enc.immMode, [ParamOperand(x.index), Imm(y.value)])
      else if y.Parameter? then
        Operand2(enc.regMode, [ParamOperand(x.index), ParamOperand(y.index)])
      else Unsupported
    case _ => NoOperand2
  }

  function MatchOperand2(e: Expr): Operand2Match
  {
    if e.Shift? then MatchShift(e)
    else if e.Int32Constant? && CanEncodeImmediate(e.value) then Operand2(Operand2I, [Imm(e.value)])
    else NoOperand2
  }

  // ---------------------------------------------------------------------
  // Flags continuations and instruction construction.

  /** What is done with the condition flags: nothing, materialise a condition, or branch on it. */
  datatype Continuation = Continuation(mode: FlagsMode, condition: FlagsCondition)

  const NoFlags: Continuation := Continuation(FlagsNone, Equal)

  function Negated(cont: Continuation): Continuation
  {
    Continuation(cont.mode, Negate(cont.condition))
  }

  /** Replace the condition by c, negated when the continuation tested for equality with zero. */
  function Overwrite(cont: Continuation, c: FlagsCondition): Continuation
  {
    Continuation(cont.mode, if cont.condition == Equal then Negate(c) else c)
  }

  /** A value opcode defines its result, a compare opcode nothing; a set continuation adds the condition. */
  function Outputs(opcode: ArchOpcode, cont: Continuation, t: nat): seq<Operand>
  {
    match (IsCompare(opcode), cont.mode == FlagsSet)
    case (true, false) => []
    case (true, true) => [TempOperand(t)]
    case (false, false) => [TempOperand(t)]
    case (false, true) => [TempOperand(t), TempOperand(t + 1)]
  }

  /** An instruction whose outputs are numbered from temporary t; a branch appends its two labels. */
  function Emit(opcode: ArchOpcode, mode: AddressingMode, cont: Continuation, inputs: seq<Operand>, t: nat): SelectedInstruction
  {
    Instruction(opcode, mode, cont.mode, cont.condition, Outputs(opcode, cont, t),
                if cont.mode == FlagsBranch then inputs + [Label(TrueBlock), Label(FalseBlock)] else inputs)
  }

  /** An instruction that defines one value, in temporary t, and leaves the flags alone. */
  function Value(opcode: ArchOpcode, mode: AddressingMode, inputs: seq<Operand>, t: nat): SelectedInstruction
  {
    Instruction(opcode, mode, FlagsNone, Equal, [TempOperand(t)], inputs)
  }

  function Single(i: Option<SelectedInstruction>): Option<seq<SelectedInstruction>>
  {
    match i
    case Some(x) => Some([x])
    case None => None
  }

  /**
   * An operation with a flexible second operand: matched on the right with
   * `opcode`, else matched on the left with `reverse`, else two registers.
   */
  function Binop(opcode: ArchOpcode, reverse: ArchOpcode, left: Expr, right: Expr, cont: Continuation): Option<SelectedInstruction>
  {
    match MatchOperand2(right)
    case Operand2(mode, ops) =>
      if left.Parameter? then Some(Emit(opcode, mode, cont, [ParamOperand(left.index)] + ops, 0)) else None
    case Unsupported => None
    case NoOperand2 =>
      match MatchOperand2(left)
      case Operand2(mode, ops) =>
        if right.Parameter? then Some(Emit(reverse, mode, cont, [ParamOperand(right.index)] + ops, 0)) else None
      case Unsupported => None
      case NoOperand2 =>
        if left.Parameter? && right.Parameter? then
          Some(Emit(opcode, Operand2R, cont, [ParamOperand(left.index), ParamOperand(right.index)], 0))
        else None
  }

  /** A shift on its own is a move with a shifted operand. */
  function ShiftMove(e: Expr, cont: Continuation): Option<SelectedInstruction>
  {
    match MatchShift(e)
    case Operand2(mode, ops) => Some(Emit(ArmMov, mode, cont, ops, 0))
    case _ => None
  }

  // ---------------------------------------------------------------------
  // Value rules.

  /** UBFX: the w-bit field of x from bit lsb. */
  function EmitUbfx(x: Expr, lsb: nat, w: nat): Option<seq<SelectedInstruction>>
  {
    if x.Parameter? then Some([Value(ArmUbfx, ModeNone, [ParamOperand(x.index), Imm(lsb), Imm(w)], 0)])
    else None
  }

  /** BFC: clear the w-bit field of x from bit lsb, in place. */
  function EmitBfc(x: Expr, lsb: nat, w: nat): Option<seq<SelectedInstruction>>
  {
    if x.Parameter? then
      Some([Instruction(ArmBfc, ModeNone, FlagsNone, Equal, [Reg(Temp(0), SameAsFirstInput)],
                        [ParamOperand(x.index), Imm(lsb), Imm(w)])])
    else None
  }

  /** BIC: x AND NOT y, with y's shift folded. */
  function EmitBic(x: Expr, y: Expr): Option<seq<SelectedInstruction>>
  {
    if !x.Parameter? then None
    else match MatchShift(y)
      case Operand2(mode, ops) => Some([Value(ArmBic, mode, [ParamOperand(x.index)] + ops, 0)])
      case Unsupported => None
      case NoOperand2 =>
        if y.Parameter? then Some([Value(ArmBic, Operand2R, [ParamOperand(x.index), ParamOperand(y.index)], 0)])
        else None
  }

  /**
   * AND with the constant mask m (a word) on ARMv7: a low mask is a field
   * extract, from the amount of a right shift of the other operand when there
   * is one; a mask whose complement is one run of ones is a field clear.
   */
  function AndWithMask(x: Expr, y: Expr, m: nat): Option<seq<SelectedInstruction>>
  {
    var width := LowMaskWidth(m);
    if width.Some? && width.value >= 1 then
      var w := width.value;
      if x.Shift? && x.shift == Word32Shr && x.right.Int32Constant? && 0 <= x.right.value <= 31 then
        if x.right.value + w <= 32 then EmitUbfx(x.left, x.right.value, w) else None
      else EmitUbfx(x, 0, w)
    else match FieldOf(Not32(m))
      case Some((lsb, w)) => EmitBfc(x, lsb, w)
      case None => Single(Binop(ArmAnd, ArmAnd, x, y, NoFlags))
  }

  function SelectAnd(a: Expr, b: Expr, f: Features): Option<seq<SelectedInstruction>>
  {
    var x := if ConstantOnLeft(a, b) then b else a;
    var y := if ConstantOnLeft(a, b) then a else b;
    if x.Word32Not? then EmitBic(y, x.operand)
    else if y.Word32Not? then EmitBic(x, y.operand)
    else if f.armv7 && y.Int32Constant? then AndWithMask(x, y, U32(y.value))
    else Single(Binop(ArmAnd, ArmAnd, x, y, NoFlags))
  }

  /** MLA: x * y + z. */
  function EmitMla(x: Expr, y: Expr, z: Expr): Option<seq<SelectedInstruction>>
  {
    if x.Parameter? && y.Parameter? && z.Parameter? then
      Some([Value(ArmMla, ModeNone, [ParamOperand(x.index), ParamOperand(y.index), ParamOperand(z.index)], 0)])
    else None
  }

  function SelectAdd(a: Expr, b: Expr): Option<seq<SelectedInstruction>>
  {
    if a.Binary? && a.op == Int32Mul then EmitMla(a.left, a.right, b)
    else if b.Binary? && b.op == Int32Mul then EmitMla(b.left, b.right, a)
    else Single(Binop(ArmAdd, ArmAdd, a, b, NoFlags))
  }

  /** z - x * y: one MLS when available, else a multiplication and a subtraction. */
  function SelectSub(a: Expr, b: Expr, f: Features): Option<seq<SelectedInstruction>>
  {
    if b.Binary? && b.op == Int32Mul && a.Parameter? && b.left.Parameter? && b.right.Parameter? then
      var x, y, z := ParamOperand(b.left.index), ParamOperand(b.right.index), ParamOperand(a.index);
      if f.mls then Some([Value(ArmMls, ModeNone, [x, y, z], 0)])
      else Some([Value(ArmMul, ModeNone, [x, y], 0), Value(ArmSub, Operand2R, [z, TempOperand(0)], 1)])
    else Single(Binop(ArmSub, ArmRsb, a, b, NoFlags))
  }

  /** x * c for c = 2^k + 1 is x + (x << k); for c = 2^k - 1 it is (x << k) - x. */
  function SelectMul(a: Expr, b: Expr): Option<seq<SelectedInstruction>>
  {
    var x := if ConstantOnLeft(a, b) then b else a;
    var y := if ConstantOnLeft(a, b) then a else b;
    if !x.Parameter? then None
    else if y.Int32Constant? && y.value > 0 && Log2Exact(y.value - 1).Some? then
      Some([Value(ArmAdd, Operand2RLslI, [ParamOperand(x.index), ParamOperand(x.index), Imm(Log2Exact(y.value - 1).value)], 0)])
    else if y.Int32Constant? && 0 < y.value < kMaxInt && Log2Exact(y.value + 1).Some? then
      Some([Value(ArmRsb, Operand2RLslI, [ParamOperand(x.index), ParamOperand(x.index), Imm(Log2Exact(y.value + 1).value)], 0)])
    else if y.Parameter? then
      Some([Value(ArmMul, ModeNone, [ParamOperand(x.index), ParamOperand(y.index)], 0)])
    else None
  }

  /**
   * Division of x by y, with the quotient in the last output: one SDIV/UDIV
   * with SUDIV, else conversion of both operands to float64, a float64
   * division and conversion back.
   */
  function DivSequence(signed: bool, x: Operand, y: Operand, f: Features): seq<SelectedInstruction>
  {
    if f.sudiv then [Value(if signed then ArmSdiv else ArmUdiv, ModeNone, [x, y], 0)]
    else
      var toFloat := if signed then ArmVcvtF64S32 else ArmVcvtF64U32;
      var fromFloat := if signed then ArmVcvtS32F64 else ArmVcvtU32F64;
      [Value(toFloat, ModeNone, [x], 0),
       Value(toFloat, ModeNone, [y], 1),
       Value(ArmVdivF64, ModeNone, [TempOperand(0), TempOperand(1)], 2),
       Value(fromFloat, ModeNone, [TempOperand(2)], 3)]
  }

  /** The temporary holding the quotient of a division sequence. */
  function QuotientTemp(f: Features): nat
  {
    if f.sudiv then 0 else 3
  }

  /** Remainder: x - (x / y) * y, by MLS when available, else a multiplication and a subtraction. */
  function ModSequence(signed: bool, x: Operand, y: Operand, f: Features): seq<SelectedInstruction>
  {
    var q := QuotientTemp(f);
    DivSequence(signed, x, y, f) +
    (if f.mls then [Value(ArmMls, ModeNone, [TempOperand(q), y, x], q + 1)]
     else [Value(ArmMul, ModeNone, [TempOperand(q), y], q + 1),
           Value(ArmSub, Operand2R, [x, TempOperand(q + 1)], q + 2)])
  }

  /** Division (quotient) or remainder of two parameters, signed or unsigned. */
  function SelectDivMod(signed: bool, quotient: bool, a: Expr, b: Expr, f: Features): Option<seq<SelectedInstruction>>
  {
    if !(a.Parameter? && b.Parameter?) then None
    else
      var x, y := ParamOperand(a.index), ParamOperand(b.index);
      if quotient then Some(DivSequence(signed, x, y, f)) else Some(ModSequence(signed, x, y, f))
  }

  function SelectBinary(op: BinOp, a: Expr, b: Expr, f: Features): Option<seq<SelectedInstruction>>
  {
    match op
    case Word32And => SelectAnd(a, b, f)
    case Word32Or => Single(Binop(ArmOrr, ArmOrr, a, b, NoFlags))
    case Word32Xor => Single(Binop(ArmEor, ArmEor, a, b, NoFlags))
    case Int32Add => SelectAdd(a, b)
    case Int32Sub => SelectSub(a, b, f)
    case Int32Mul => SelectMul(a, b)
    case Int32Div => SelectDivMod(true, true, a, b, f)
    case Int32UDiv => SelectDivMod(false, true, a, b, f)
    case Int32Mod => SelectDivMod(true, false, a, b, f)
    case Int32UMod => SelectDivMod(false, false, a, b, f)
  }

  /** A right shift of (x AND m) by lsb on ARMv7 is a field extract when m's bits from lsb up are a low mask. */
  function SelectShift(op: ShiftOp, a: Expr, b: Expr, f: Features): Option<seq<SelectedInstruction>>
  {
    if op == Word32Shr && f.armv7 && a.Binary? && a.op == Word32And && b.Int32Constant? && 0 <= b.value <= 31 then
      var x := if ConstantOnLeft(a.left, a.right) then a.right else a.left;
      var m := if ConstantOnLeft(a.left, a.right) then a.left else a.right;
      if m.Int32Constant? && LowMaskWidth(Hi(U32(m.value), b.value)).Some? && LowMaskWidth(Hi(U32(m.value), b.value)).value >= 1 then
        EmitUbfx(x, b.value, LowMaskWidth(Hi(U32(m.value), b.value)).value)
      else Single(ShiftMove(Shift(op, a, b), NoFlags))
    else Single(ShiftMove(Shift(op, a, b), NoFlags))
  }

  /** MVN: the complement of a register or of a shifted register. */
  function SelectNot(a: Expr): Option<seq<SelectedInstruction>>
  {
    match MatchShift(a)
    case Operand2(mode, ops) => Some([Value(ArmMvn, mode, ops, 0)])
    case Unsupported => None
    case NoOperand2 =>
      if a.Parameter? then Some([Value(ArmMvn, Operand2R, [ParamOperand(a.index)], 0)]) else None
  }

  /** The overflow-checked operation, in the continuation given. */
  function OvfBinop(n: OvfNode, cont: Continuation): Option<SelectedInstruction>
  {
    var (opcode, reverse) := OvfOpcodes(n.op);
    Binop(opcode, reverse, n.left, n.right, cont)
  }

  /** Projection 1 sets the overflow condition; projection 0 uses the value alone. */
  function SelectProjection(i: nat, n: OvfNode): Option<seq<SelectedInstruction>>
  {
    if i == 1 then Single(OvfBinop(n, Continuation(FlagsSet, Overflow)))
    else if i == 0 then Single(OvfBinop(n, NoFlags))
    else None
  }

  /** Both projections of one node compared: the operation defines value and overflow, then CMP. */
  function SelectBothProjections(p: Expr, q: Expr): Option<seq<SelectedInstruction>>
    requires p.Projection? && q.Projection? && p.node == q.node && {p.index, q.index} == {0, 1}
  {
    match OvfBinop(p.node, Continuation(FlagsSet, Overflow))
    case Some(ovf) =>
      Some([ovf, Emit(ArmCmp, Operand2R, Continuation(FlagsSet, Equal), [TempOperand(p.index), TempOperand(q.index)], 2)])
    case None => None
  }

  function SelectEqual(a: Expr, b: Expr): Option<seq<SelectedInstruction>>
  {
    var x := if ConstantOnLeft(a, b) then b else a;
    var y := if ConstantOnLeft(a, b) then a else b;
    if y == Int32Constant(0) then CompareZero(x, Continuation(FlagsSet, Equal))
    else if x.Projection? && y.Projection? && x.node == y.node && {x.index, y.index} == {0, 1} then
      SelectBothProjections(x, y)
    else Single(Binop(ArmCmp, ArmCmp, x, y, Continuation(FlagsSet, Equal)))
  }

  // ---------------------------------------------------------------------
  // Comparison with zero, shared by branches and by `x == 0`.

  /**
   * Code that tests v against zero under the continuation: equality tests
   * with zero are stripped, each negating the condition; a comparison, an
   * overflow bit, a data-processing operation or a shift sets the flags
   * itself; a parameter is tested against itself with TST.
   */
  function CompareZero(v: Expr, cont: Continuation): Option<seq<SelectedInstruction>>
  {
    match v
    case Word32Equal(a, b) =>
      if b == Int32Constant(0) then CompareZero(a, Negated(cont))
      else if a == Int32Constant(0) && !b.Int32Constant? then CompareZero(b, Negated(cont))
      else
        var x := if ConstantOnLeft(a, b) then b else a;
        var y := if ConstantOnLeft(a, b) then a else b;
        Single(Binop(ArmCmp, ArmCmp, x, y, Overwrite(cont, Equal)))
    case Binary(op, a, b) =>
      (match TestOpcode(op)
       case Some(t) => Single(Binop(t, t, a, b, cont))
       case None => None)
    case Shift(_, _, _) => Single(ShiftMove(v, cont))
    case Projection(i, n) =>
      if i == 1 then Single(OvfBinop(n, Overwrite(cont, Overflow))) else None
    case Parameter(i) => Some([Emit(ArmTst, Operand2R, cont, [ParamOperand(i), ParamOperand(i)], 0)])
    case _ => None
  }

  // ---------------------------------------------------------------------
  // The selector.

  function SelectValue(e: Expr, f: Features): Option<seq<SelectedInstruction>>
  {
    match e
    case Parameter(_) => Some([])
    case Int32Constant(_) => Some([])
    case Binary(op, a, b) => SelectBinary(op, a, b, f)
    case Shift(op, a, b) => SelectShift(op, a, b, f)
    case Word32Not(a) => SelectNot(a)
    case Word32Equal(a, b) => SelectEqual(a, b)
    case Projection(i, n) => SelectProjection(i, n)
  }

  /**
   * The instructions selected for a graph with the given CPU features; None
   * for shapes outside the rules above.  A branch tests its condition for
   * being nonzero.
   */
  function Select(g: Graph, f: Features): Option<seq<SelectedInstruction>>
  {
    match g
    case Return(e) => SelectValue(e, f)
    case Branch(c) => CompareZero(c, Continuation(FlagsBranch, NotEqual))
  }
}
