// What the ARM selection rules produce for the shapes the test groups
// exercise, stated for every table entry, every parameter, every encodable
// immediate and every shift amount in range rather than for samples.

module ArmSelectorProperties {

  import opened Wrappers
  import opened Bits
  import opened Instructions
  import opened ArmSelector
  import opened ArmTables

  // ---------------------------------------------------------------------
  // The selector's encodings agree with the tables.

  lemma ShiftTableAgrees(s: ShiftEntry)
    requires s in Shifts
    ensures ShiftEncodingOf(s.op) == ShiftEncoding(s.iLow, s.iHigh, s.iMode, s.rMode)
  {
  }

  lemma OdpiTableAgrees(o: Odpi)
    requires o in ODPIs
    ensures OvfOpcodes(o.op) == (o.opcode, o.reverseOpcode)
  {
  }

  lemma DpiTableAgrees(d: Dpi)
    requires d in DPIs
    ensures TestOpcode(d.op) == Some(d.testOpcode)
  {
  }

  /** Only subtraction changes opcode when its operands are swapped. */
  lemma OnlySubReverses(d: Dpi)
    requires d in DPIs
    ensures d.reverseOpcode != d.opcode <==> d.op == Int32Sub
  {
  }

  // ---------------------------------------------------------------------
  // The second operands the tests combine with a parameter.

  datatype OperandForm =
    | RegisterForm(j: nat)
    | ImmediateForm(k: int)
    | ShiftByRegister(s: ShiftEntry, j: nat, l: nat)
    | ShiftByImmediate(s: ShiftEntry, j: nat, k: int)

  predicate ValidForm(form: OperandForm)
  {
    match form
    case RegisterForm(_) => true
    case ImmediateForm(k) => CanEncodeImmediate(k)
    case ShiftByRegister(s, _, _) => s in Shifts
    case ShiftByImmediate(s, _, k) => s in Shifts && s.iLow <= k <= s.iHigh
  }

  predicate IsShiftForm(form: OperandForm)
  {
    form.ShiftByRegister? || form.ShiftByImmediate?
  }

  function FormExpr(form: OperandForm): Expr
  {
    match form
    case RegisterForm(j) => Parameter(j)
    case ImmediateForm(k) => Int32Constant(k)
    case ShiftByRegister(s, j, l) => Shift(s.op, Parameter(j), Parameter(l))
    case ShiftByImmediate(s, j, k) => Shift(s.op, Parameter(j), Int32Constant(k))
  }

  /** The addressing mode the table gives the operand. */
  function FormMode(form: OperandForm): AddressingMode
  {
    match form
    case RegisterForm(_) => Operand2R
    case ImmediateForm(_) => Operand2I
    case ShiftByRegister(s, _, _) => s.rMode
    case ShiftByImmediate(s, _, _) => s.iMode
  }

  function FormOperands(form: OperandForm): seq<Operand>
  {
    match form
    case RegisterForm(j) => [ParamOperand(j)]
    case ImmediateForm(k) => [Imm(k)]
    case ShiftByRegister(_, j, l) => [ParamOperand(j), ParamOperand(l)]
    case ShiftByImmediate(_, j, k) => [ParamOperand(j), Imm(k)]
  }

  const BranchLabels: seq<Operand> := [Label(TrueBlock), Label(FalseBlock)]

  /** A valid immediate or shift folds into the second operand with the table's mode. */
  lemma MatchForm(form: OperandForm)
    requires ValidForm(form)
    ensures form.RegisterForm? ==> MatchOperand2(FormExpr(form)) == NoOperand2
    ensures !form.RegisterForm? ==> MatchOperand2(FormExpr(form)) == Operand2(FormMode(form), FormOperands(form))
    ensures IsShiftForm(form) ==> MatchShift(FormExpr(form)) == Operand2(FormMode(form), FormOperands(form))
    ensures !IsShiftForm(form) ==> MatchShift(FormExpr(form)) == NoOperand2
  {
    if IsShiftForm(form) {
      ShiftTableAgrees(form.s);
    }
  }

  lemma BinopFoldsRight(opcode: ArchOpcode, reverse: ArchOpcode, i: nat, e: Expr, cont: Continuation)
    requires MatchOperand2(e).Operand2?
    ensures Binop(opcode, reverse, Parameter(i), e, cont)
         == Some(Emit(opcode, MatchOperand2(e).mode, cont, [ParamOperand(i)] + MatchOperand2(e).operands, 0))
  {
  }

  lemma BinopRight(opcode: ArchOpcode, reverse: ArchOpcode, i: nat, form: OperandForm, cont: Continuation)
    requires ValidForm(form)
    ensures Binop(opcode, reverse, Parameter(i), FormExpr(form), cont)
         == Some(Emit(opcode, FormMode(form), cont, [ParamOperand(i)] + FormOperands(form), 0))
  {
    if form.RegisterForm? {
      assert [ParamOperand(i)] + FormOperands(form) == [ParamOperand(i), ParamOperand(form.j)];
    } else {
      MatchForm(form);
      BinopFoldsRight(opcode, reverse, i, FormExpr(form), cont);
    }
  }

  lemma BinopLeft(opcode: ArchOpcode, reverse: ArchOpcode, i: nat, form: OperandForm, cont: Continuation)
    requires ValidForm(form) && !form.RegisterForm?
    ensures Binop(opcode, reverse, FormExpr(form), Parameter(i), cont)
         == Some(Emit(reverse, FormMode(form), cont, [ParamOperand(i)] + FormOperands(form), 0))
  {
    MatchForm(form);
  }

  // ---------------------------------------------------------------------
  // Data-processing instructions.

  /** `dpi(p_i, operand)` is one instruction: the table's opcode, the operand's mode, one output. */
  lemma DpiWithOperand(d: Dpi, i: nat, form: OperandForm, f: Features)
    requires d in DPIs && ValidForm(form) && !f.armv7
    ensures Select(Return(Binary(d.op, Parameter(i), FormExpr(form))), f)
         == Some([Instruction(d.opcode, FormMode(form), FlagsNone, Equal, [TempOperand(0)],
                              [ParamOperand(i)] + FormOperands(form))])
  {
    BinopRight(d.opcode, d.reverseOpcode, i, form, NoFlags);
  }

  /** `dpi(operand, p_i)` is the same instruction with the reverse opcode. */
  lemma DpiWithOperandOnLeft(d: Dpi, i: nat, form: OperandForm, f: Features)
    requires d in DPIs && ValidForm(form) && !form.RegisterForm? && !f.armv7
    ensures Select(Return(Binary(d.op, FormExpr(form), Parameter(i))), f)
         == Some([Instruction(d.reverseOpcode, FormMode(form), FlagsNone, Equal, [TempOperand(0)],
                              [ParamOperand(i)] + FormOperands(form))])
  {
    BinopLeft(d.opcode, d.reverseOpcode, i, form, NoFlags);
    BinopRight(d.opcode, d.reverseOpcode, i, form, NoFlags);
  }

  /** The condition after n comparisons with zero: each one negates. */
  function Parity(c: FlagsCondition, n: nat): FlagsCondition
  {
    if n % 2 == 0 then c else Negate(c)
  }

  /** `e == 0 == 0 ...`, n comparisons with zero around e. */
  function EqualZero(e: Expr, n: nat): Expr
  {
    if n == 0 then e else Word32Equal(EqualZero(e, n - 1), Int32Constant(0))
  }

  /** Comparisons with zero around a value only flip the condition of the code that tests it. */
  lemma {:induction false} CompareZeroStripsEqualZero(v: Expr, n: nat, cont: Continuation)
    ensures CompareZero(EqualZero(v, n), cont) == CompareZero(v, Continuation(cont.mode, Parity(cont.condition, n)))
  {
    if n > 0 {
      var inner := EqualZero(v, n - 1);
      assert CompareZero(EqualZero(v, n), cont) == CompareZero(inner, Negated(cont));
      CompareZeroStripsEqualZero(v, n - 1, Negated(cont));
      NegateInvolutive(cont.condition);
      assert Parity(Negate(cont.condition), n - 1) == Parity(cont.condition, n);
    }
  }

  lemma BranchIfZeroShapes(v: Expr)
    ensures EqualZero(v, 1) == Word32Equal(v, Int32Constant(0))
    ensures EqualZero(v, 2) == Word32NotEqual(v, Int32Constant(0))
  {
  }

  /**
   * Branching on `dpi(p_i, operand)` under n comparisons with zero is one
   * instruction with the table's test opcode in branch mode, testing
   * "nonzero" for even n and "zero" for odd n.
   */
  lemma DpiBranch(d: Dpi, i: nat, form: OperandForm, n: nat, f: Features)
    requires d in DPIs && ValidForm(form)
    ensures Select(Branch(EqualZero(Binary(d.op, Parameter(i), FormExpr(form)), n)), f)
         == Some([Instruction(d.testOpcode, FormMode(form), FlagsBranch, Parity(NotEqual, n),
                              if IsCompare(d.testOpcode) then [] else [TempOperand(0)],
                              [ParamOperand(i)] + FormOperands(form) + BranchLabels)])
  {
    var cont := Continuation(FlagsBranch, NotEqual);
    CompareZeroStripsEqualZero(Binary(d.op, Parameter(i), FormExpr(form)), n, cont);
    BinopRight(d.testOpcode, d.testOpcode, i, form, Continuation(FlagsBranch, Parity(NotEqual, n)));
  }

  lemma DpiBranchOnLeft(d: Dpi, i: nat, form: OperandForm, n: nat, f: Features)
    requires d in DPIs && ValidForm(form) && !form.RegisterForm?
    ensures Select(Branch(EqualZero(Binary(d.op, FormExpr(form), Parameter(i)), n)), f)
         == Some([Instruction(d.testOpcode, FormMode(form), FlagsBranch, Parity(NotEqual, n),
                              if IsCompare(d.testOpcode) then [] else [TempOperand(0)],
                              [ParamOperand(i)] + FormOperands(form) + BranchLabels)])
  {
    var cont := Continuation(FlagsBranch, NotEqual);
    CompareZeroStripsEqualZero(Binary(d.op, FormExpr(form), Parameter(i)), n, cont);
    BinopLeft(d.testOpcode, d.testOpcode, i, form, Continuation(FlagsBranch, Parity(NotEqual, n)));
  }

  // ---------------------------------------------------------------------
  // Data-processing instructions with overflow.

  /** Using the overflow bit: the table's opcode sets the overflow condition and defines value and bit. */
  lemma OvfOverflowBit(o: Odpi, i: nat, form: OperandForm, f: Features)
    requires o in ODPIs && ValidForm(form)
    ensures Select(Return(Projection(1, OvfNode(o.op, Parameter(i), FormExpr(form)))), f)
         == Some([Instruction(o.opcode, FormMode(form), FlagsSet, Overflow, [TempOperand(0), TempOperand(1)],
                              [ParamOperand(i)] + FormOperands(form))])
  {
    BinopRight(o.opcode, o.reverseOpcode, i, form, Continuation(FlagsSet, Overflow));
  }

  lemma OvfOverflowBitOnLeft(o: Odpi, i: nat, form: OperandForm, f: Features)
    requires o in ODPIs && ValidForm(form) && !form.RegisterForm?
    ensures Select(Return(Projection(1, OvfNode(o.op, FormExpr(form), Parameter(i)))), f)
         == Some([Instruction(o.reverseOpcode, FormMode(form), FlagsSet, Overflow, [TempOperand(0), TempOperand(1)],
                              [ParamOperand(i)] + FormOperands(form))])
  {
    BinopLeft(o.opcode, o.reverseOpcode, i, form, Continuation(FlagsSet, Overflow));
  }

  /** Using the value alone: no flags. */
  lemma OvfValue(o: Odpi, i: nat, form: OperandForm, f: Features)
    requires o in ODPIs && ValidForm(form)
    ensures Select(Return(Projection(0, OvfNode(o.op, Parameter(i), FormExpr(form)))), f)
         == Some([Instruction(o.opcode, FormMode(form), FlagsNone, Equal, [TempOperand(0)],
                              [ParamOperand(i)] + FormOperands(form))])
  {
    BinopRight(o.opcode, o.reverseOpcode, i, form, NoFlags);
  }

  lemma OvfValueOnLeft(o: Odpi, i: nat, form: OperandForm, f: Features)
    requires o in ODPIs && ValidForm(form) && !form.RegisterForm?
    ensures Select(Return(Projection(0, OvfNode(o.op, FormExpr(form), Parameter(i)))), f)
         == Some([Instruction(o.reverseOpcode, FormMode(form), FlagsNone, Equal, [TempOperand(0)],
                              [ParamOperand(i)] + FormOperands(form))])
  {
    BinopLeft(o.opcode, o.reverseOpcode, i, form, NoFlags);
  }

  /** Comparing value and overflow bit: one instruction defines both, then CMP compares them. */
  lemma OvfBoth(o: Odpi, i: nat, form: OperandForm, f: Features)
    requires o in ODPIs && ValidForm(form)
    ensures var n := OvfNode(o.op, Parameter(i), FormExpr(form));
      Select(Return(Word32Equal(Projection(0, n), Projection(1, n))), f)
      == Some([Instruction(o.opcode, FormMode(form), FlagsSet, Overflow, [TempOperand(0), TempOperand(1)],
                           [ParamOperand(i)] + FormOperands(form)),
               Instruction(ArmCmp, Operand2R, FlagsSet, Equal, [TempOperand(2)], [TempOperand(0), TempOperand(1)])])
  {
    BinopRight(o.opcode, o.reverseOpcode, i, form, Continuation(FlagsSet, Overflow));
  }

  lemma OvfBothOnLeft(o: Odpi, i: nat, form: OperandForm, f: Features)
    requires o in ODPIs && ValidForm(form) && !form.RegisterForm?
    ensures var n := OvfNode(o.op, FormExpr(form), Parameter(i));
      Select(Return(Word32Equal(Projection(0, n), Projection(1, n))), f)
      == Some([Instruction(o.reverseOpcode, FormMode(form), FlagsSet, Overflow, [TempOperand(0), TempOperand(1)],
                           [ParamOperand(i)] + FormOperands(form)),
               Instruction(ArmCmp, Operand2R, FlagsSet, Equal, [TempOperand(2)], [TempOperand(0), TempOperand(1)])])
  {
    BinopLeft(o.opcode, o.reverseOpcode, i, form, Continuation(FlagsSet, Overflow));
  }

  /** Branching on the overflow bit under n comparisons with zero: overflow for even n, no overflow for odd n. */
  lemma OvfBranch(o: Odpi, i: nat, form: OperandForm, n: nat, f: Features)
    requires o in ODPIs && ValidForm(form)
    ensures Select(Branch(EqualZero(Projection(1, OvfNode(o.op, Parameter(i), FormExpr(form))), n)), f)
         == Some([Instruction(o.opcode, FormMode(form), FlagsBranch, Parity(Overflow, n), [TempOperand(0)],
                              [ParamOperand(i)] + FormOperands(form) + BranchLabels)])
  {
    var cont := Continuation(FlagsBranch, NotEqual);
    CompareZeroStripsEqualZero(Projection(1, OvfNode(o.op, Parameter(i), FormExpr(form))), n, cont);
    BinopRight(o.opcode, o.reverseOpcode, i, form, Continuation(FlagsBranch, Parity(Overflow, n)));
  }

  lemma OvfBranchOnLeft(o: Odpi, i: nat, form: OperandForm, n: nat, f: Features)
    requires o in ODPIs && ValidForm(form) && !form.RegisterForm?
    ensures Select(Branch(EqualZero(Projection(1, OvfNode(o.op, FormExpr(form), Parameter(i))), n)), f)
         == Some([Instruction(o.reverseOpcode, FormMode(form), FlagsBranch, Parity(Overflow, n), [TempOperand(0)],
                              [ParamOperand(i)] + FormOperands(form) + BranchLabels)])
  {
    var cont := Continuation(FlagsBranch, NotEqual);
    CompareZeroStripsEqualZero(Projection(1, OvfNode(o.op, FormExpr(form), Parameter(i))), n, cont);
    BinopLeft(o.opcode, o.reverseOpcode, i, form, Continuation(FlagsBranch, Parity(Overflow, n)));
  }

  // ---------------------------------------------------------------------
  // Shifts.

  /** A shift alone is a MOV with the shifted operand. */
  lemma ShiftAlone(form: OperandForm, f: Features)
    requires ValidForm(form) && IsShiftForm(form)
    ensures Select(Return(FormExpr(form)), f)
         == Some([Instruction(ArmMov, FormMode(form), FlagsNone, Equal, [TempOperand(0)], FormOperands(form))])
  {
    MatchForm(form);
  }

  /**
   * Comparing a parameter with an operand, in either order, is one CMP with
   * the operand folded (an immediate, a shift, or a second register).
   */
  lemma EqualWithOperand(i: nat, form: OperandForm, f: Features)
    requires ValidForm(form) && FormExpr(form) != Int32Constant(0)
    ensures Select(Return(Word32Equal(Parameter(i), FormExpr(form))), f)
         == Some([Instruction(ArmCmp, FormMode(form), FlagsSet, Equal, [TempOperand(0)],
                              [ParamOperand(i)] + FormOperands(form))])
    ensures !form.RegisterForm? ==>
      Select(Return(Word32Equal(FormExpr(form), Parameter(i))), f)
      == Some([Instruction(ArmCmp, FormMode(form), FlagsSet, Equal, [TempOperand(0)],
                           [ParamOperand(i)] + FormOperands(form))])
  {
    var cont := Continuation(FlagsSet, Equal);
    BinopRight(ArmCmp, ArmCmp, i, form, cont);
    if !form.RegisterForm? {
      BinopLeft(ArmCmp, ArmCmp, i, form, cont);
    }
  }

  /** Comparing a parameter with zero, in either order, is TST of the parameter with itself. */
  lemma EqualZeroWithParameter(i: nat, f: Features)
    ensures Select(Return(Word32Equal(Parameter(i), Int32Constant(0))), f)
         == Some([Instruction(ArmTst, Operand2R, FlagsSet, Equal, [TempOperand(0)], [ParamOperand(i), ParamOperand(i)])])
    ensures Select(Return(Word32Equal(Int32Constant(0), Parameter(i))), f)
         == Some([Instruction(ArmTst, Operand2R, FlagsSet, Equal, [TempOperand(0)], [ParamOperand(i), ParamOperand(i)])])
  {
  }

  /** Comparing a shift with zero, in either order, is a MOV that sets the flags and defines value and condition. */
  lemma ShiftEqualZero(form: OperandForm, f: Features)
    requires ValidForm(form) && IsShiftForm(form)
    ensures Select(Return(Word32Equal(Int32Constant(0), FormExpr(form))), f)
         == Some([Instruction(ArmMov, FormMode(form), FlagsSet, Equal, [TempOperand(0), TempOperand(1)], FormOperands(form))])
    ensures Select(Return(Word32Equal(FormExpr(form), Int32Constant(0))), f)
         == Some([Instruction(ArmMov, FormMode(form), FlagsSet, Equal, [TempOperand(0), TempOperand(1)], FormOperands(form))])
  {
    MatchForm(form);
  }

  /** NOT of a parameter or of a shift is one MVN with the operand folded. */
  lemma NotOfOperand(form: OperandForm, f: Features)
    requires ValidForm(form) && (form.RegisterForm? || IsShiftForm(form))
    ensures Select(Return(Word32Not(FormExpr(form))), f)
         == Some([Instruction(ArmMvn, FormMode(form), FlagsNone, Equal, [TempOperand(0)], FormOperands(form))])
  {
    MatchForm(form);
  }

  /** AND with the NOT of a parameter or of a shift, in either order, is one BIC. */
  lemma AndWithNot(i: nat, form: OperandForm, f: Features)
    requires ValidForm(form) && (form.RegisterForm? || IsShiftForm(form))
    ensures Select(Return(Binary(Word32And, Parameter(i), Word32Not(FormExpr(form)))), f)
         == Some([Instruction(ArmBic, FormMode(form), FlagsNone, Equal, [TempOperand(0)],
                              [ParamOperand(i)] + FormOperands(form))])
    ensures Select(Return(Binary(Word32And, Word32Not(FormExpr(form)), Parameter(i))), f)
         == Some([Instruction(ArmBic, FormMode(form), FlagsNone, Equal, [TempOperand(0)],
                              [ParamOperand(i)] + FormOperands(form))])
  {
    MatchForm(form);
    if form.RegisterForm? {
      assert [ParamOperand(i)] + FormOperands(form) == [ParamOperand(i), ParamOperand(form.j)];
    }
  }

  // ---------------------------------------------------------------------
  // Multiplication, multiply-accumulate, division.

  lemma MulWithParameters(i: nat, j: nat, f: Features)
    ensures Select(Return(Binary(Int32Mul, Parameter(i), Parameter(j))), f)
         == Some([Instruction(ArmMul, ModeNone, FlagsNone, Equal, [TempOperand(0)], [ParamOperand(i), ParamOperand(j)])])
  {
  }

  /** An addition with a product on either side is one MLA: multiplicands first, addend last. */
  lemma AddWithMul(i: nat, j: nat, l: nat, f: Features)
    ensures Select(Return(Binary(Int32Add, Parameter(i), Binary(Int32Mul, Parameter(j), Parameter(l)))), f)
         == Some([Instruction(ArmMla, ModeNone, FlagsNone, Equal, [TempOperand(0)],
                              [ParamOperand(j), ParamOperand(l), ParamOperand(i)])])
    ensures Select(Return(Binary(Int32Add, Binary(Int32Mul, Parameter(j), Parameter(l)), Parameter(i))), f)
         == Some([Instruction(ArmMla, ModeNone, FlagsNone, Equal, [TempOperand(0)],
                              [ParamOperand(j), ParamOperand(l), ParamOperand(i)])])
  {
  }

  /** Subtracting a product: MUL then SUB of its result without MLS, one MLS with it. */
  lemma SubWithMul(i: nat, j: nat, l: nat, f: Features)
    ensures Select(Return(Binary(Int32Sub, Parameter(i), Binary(Int32Mul, Parameter(j), Parameter(l)))), f)
         == if f.mls then
              Some([Instruction(ArmMls, ModeNone, FlagsNone, Equal, [TempOperand(0)],
                                [ParamOperand(j), ParamOperand(l), ParamOperand(i)])])
            else
              Some([Instruction(ArmMul, ModeNone, FlagsNone, Equal, [TempOperand(0)], [ParamOperand(j), ParamOperand(l)]),
                    Instruction(ArmSub, Operand2R, FlagsNone, Equal, [TempOperand(1)], [ParamOperand(i), TempOperand(0)])])
  {
  }

  function DivOp(signed: bool): BinOp
  {
    if signed then Int32Div else Int32UDiv
  }

  function ModOp(signed: bool): BinOp
  {
    if signed then Int32Mod else Int32UMod
  }

  function ToFloat(signed: bool): ArchOpcode
  {
    if signed then ArmVcvtF64S32 else ArmVcvtF64U32
  }

  function FromFloat(signed: bool): ArchOpcode
  {
    if signed then ArmVcvtS32F64 else ArmVcvtU32F64
  }

  function HardwareDiv(signed: bool): ArchOpcode
  {
    if signed then ArmSdiv else ArmUdiv
  }

  /** Without SUDIV, division converts both operands, divides in float64 and converts the quotient back. */
  lemma DivWithoutSudiv(signed: bool, i: nat, j: nat, f: Features)
    requires !f.sudiv
    ensures Select(Return(Binary(DivOp(signed), Parameter(i), Parameter(j))), f)
         == Some([Instruction(ToFloat(signed), ModeNone, FlagsNone, Equal, [TempOperand(0)], [ParamOperand(i)]),
                  Instruction(ToFloat(signed), ModeNone, FlagsNone, Equal, [TempOperand(1)], [ParamOperand(j)]),
                  Instruction(ArmVdivF64, ModeNone, FlagsNone, Equal, [TempOperand(2)], [TempOperand(0), TempOperand(1)]),
                  Instruction(FromFloat(signed), ModeNone, FlagsNone, Equal, [TempOperand(3)], [TempOperand(2)])])
  {
  }

  /** With SUDIV, division is one SDIV or UDIV. */
  lemma DivWithSudiv(signed: bool, i: nat, j: nat, f: Features)
    requires f.sudiv
    ensures Select(Return(Binary(DivOp(signed), Parameter(i), Parameter(j))), f)
         == Some([Instruction(HardwareDiv(signed), ModeNone, FlagsNone, Equal, [TempOperand(0)], [ParamOperand(i), ParamOperand(j)])])
  {
  }

  lemma DivSequenceWithoutSudiv(signed: bool, x: Operand, y: Operand, f: Features)
    requires !f.sudiv
    ensures DivSequence(signed, x, y, f)
         == [Instruction(ToFloat(signed), ModeNone, FlagsNone, Equal, [TempOperand(0)], [x]),
             Instruction(ToFloat(signed), ModeNone, FlagsNone, Equal, [TempOperand(1)], [y]),
             Instruction(ArmVdivF64, ModeNone, FlagsNone, Equal, [TempOperand(2)], [TempOperand(0), TempOperand(1)]),
             Instruction(FromFloat(signed), ModeNone, FlagsNone, Equal, [TempOperand(3)], [TempOperand(2)])]
  {
  }

  /** Without SUDIV or MLS, the remainder is the division sequence, then MUL of quotient and divisor and SUB from the dividend. */
  lemma ModSequenceWithoutFeatures(signed: bool, x: Operand, y: Operand, f: Features)
    requires !f.sudiv && !f.mls
    ensures ModSequence(signed, x, y, f)
         == [Instruction(ToFloat(signed), ModeNone, FlagsNone, Equal, [TempOperand(0)], [x]),
             Instruction(ToFloat(signed), ModeNone, FlagsNone, Equal, [TempOperand(1)], [y]),
             Instruction(ArmVdivF64, ModeNone, FlagsNone, Equal, [TempOperand(2)], [TempOperand(0), TempOperand(1)]),
             Instruction(FromFloat(signed), ModeNone, FlagsNone, Equal, [TempOperand(3)], [TempOperand(2)]),
             Instruction(ArmMul, ModeNone, FlagsNone, Equal, [TempOperand(4)], [TempOperand(3), y]),
             Instruction(ArmSub, Operand2R, FlagsNone, Equal, [TempOperand(5)], [x, TempOperand(4)])]
  {
    DivSequenceWithoutSudiv(signed, x, y, f);
    var div := DivSequence(signed, x, y, f);
    var rest := [Instruction(ArmMul, ModeNone, FlagsNone, Equal, [TempOperand(4)], [TempOperand(3), y]),
                 Instruction(ArmSub, Operand2R, FlagsNone, Equal, [TempOperand(5)], [x, TempOperand(4)])];
    assert ModSequence(signed, x, y, f) == div + rest;
    assert div + rest == [div[0], div[1], div[2], div[3], rest[0], rest[1]];
  }

  /** Every remainder of two parameters is the remainder sequence for the features. */
  lemma SelectsRemainder(signed: bool, i: nat, j: nat, f: Features)
    ensures Select(Return(Binary(ModOp(signed), Parameter(i), Parameter(j))), f)
         == Some(ModSequence(signed, ParamOperand(i), ParamOperand(j), f))
  {
  }

  /** With SUDIV but not MLS, the remainder is the hardware division, MUL and SUB. */
  lemma ModSequenceWithSudiv(signed: bool, x: Operand, y: Operand, f: Features)
    requires f.sudiv && !f.mls
    ensures ModSequence(signed, x, y, f)
         == [Instruction(HardwareDiv(signed), ModeNone, FlagsNone, Equal, [TempOperand(0)], [x, y]),
             Instruction(ArmMul, ModeNone, FlagsNone, Equal, [TempOperand(1)], [TempOperand(0), y]),
             Instruction(ArmSub, Operand2R, FlagsNone, Equal, [TempOperand(2)], [x, TempOperand(1)])]
  {
    var div := DivSequence(signed, x, y, f);
    var rest := [Instruction(ArmMul, ModeNone, FlagsNone, Equal, [TempOperand(1)], [TempOperand(0), y]),
                 Instruction(ArmSub, Operand2R, FlagsNone, Equal, [TempOperand(2)], [x, TempOperand(1)])];
    assert ModSequence(signed, x, y, f) == div + rest;
    assert div + rest == [div[0], rest[0], rest[1]];
  }

  /** With SUDIV and MLS, the remainder is the hardware division and one MLS of quotient, divisor and dividend. */
  lemma ModSequenceWithSudivAndMls(signed: bool, x: Operand, y: Operand, f: Features)
    requires f.sudiv && f.mls
    ensures ModSequence(signed, x, y, f)
         == [Instruction(HardwareDiv(signed), ModeNone, FlagsNone, Equal, [TempOperand(0)], [x, y]),
             Instruction(ArmMls, ModeNone, FlagsNone, Equal, [TempOperand(1)], [TempOperand(0), y, x])]
  {
    var div := DivSequence(signed, x, y, f);
    var rest := [Instruction(ArmMls, ModeNone, FlagsNone, Equal, [TempOperand(1)], [TempOperand(0), y, x])];
    assert ModSequence(signed, x, y, f) == div + rest;
    assert div + rest == [div[0], rest[0]];
  }

  /** With MLS but not SUDIV, the remainder is the float64 division sequence and one MLS. */
  lemma ModSequenceWithMls(signed: bool, x: Operand, y: Operand, f: Features)
    requires !f.sudiv && f.mls
    ensures ModSequence(signed, x, y, f)
         == [Instruction(ToFloat(signed), ModeNone, FlagsNone, Equal, [TempOperand(0)], [x]),
             Instruction(ToFloat(signed), ModeNone, FlagsNone, Equal, [TempOperand(1)], [y]),
             Instruction(ArmVdivF64, ModeNone, FlagsNone, Equal, [TempOperand(2)], [TempOperand(0), TempOperand(1)]),
             Instruction(FromFloat(signed), ModeNone, FlagsNone, Equal, [TempOperand(3)], [TempOperand(2)]),
             Instruction(ArmMls, ModeNone, FlagsNone, Equal, [TempOperand(4)], [TempOperand(3), y, x])]
  {
    DivSequenceWithoutSudiv(signed, x, y, f);
    var div := DivSequence(signed, x, y, f);
    var rest := [Instruction(ArmMls, ModeNone, FlagsNone, Equal, [TempOperand(4)], [TempOperand(3), y, x])];
    assert ModSequence(signed, x, y, f) == div + rest;
    assert div + rest == [div[0], div[1], div[2], div[3], rest[0]];
  }

  /** Without SUDIV or MLS: float64 division, then MUL of quotient and divisor and SUB from the dividend. */
  lemma ModWithoutFeatures(signed: bool, i: nat, j: nat, f: Features)
    requires !f.sudiv && !f.mls
    ensures Select(Return(Binary(ModOp(signed), Parameter(i), Parameter(j))), f)
         == Some([Instruction(ToFloat(signed), ModeNone, FlagsNone, Equal, [TempOperand(0)], [ParamOperand(i)]),
                  Instruction(ToFloat(signed), ModeNone, FlagsNone, Equal, [TempOperand(1)], [ParamOperand(j)]),
                  Instruction(ArmVdivF64, ModeNone, FlagsNone, Equal, [TempOperand(2)], [TempOperand(0), TempOperand(1)]),
                  Instruction(FromFloat(signed), ModeNone, FlagsNone, Equal, [TempOperand(3)], [TempOperand(2)]),
                  Instruction(ArmMul, ModeNone, FlagsNone, Equal, [TempOperand(4)], [TempOperand(3), ParamOperand(j)]),
                  Instruction(ArmSub, Operand2R, FlagsNone, Equal, [TempOperand(5)], [ParamOperand(i), TempOperand(4)])])
  {
    SelectsRemainder(signed, i, j, f);
    ModSequenceWithoutFeatures(signed, ParamOperand(i), ParamOperand(j), f);
  }

  /** With SUDIV only: hardware division, MUL and SUB. */
  lemma ModWithSudiv(signed: bool, i: nat, j: nat, f: Features)
    requires f.sudiv && !f.mls
    ensures Select(Return(Binary(ModOp(signed), Parameter(i), Parameter(j))), f)
         == Some([Instruction(HardwareDiv(signed), ModeNone, FlagsNone, Equal, [TempOperand(0)], [ParamOperand(i), ParamOperand(j)]),
                  Instruction(ArmMul, ModeNone, FlagsNone, Equal, [TempOperand(1)], [TempOperand(0), ParamOperand(j)]),
                  Instruction(ArmSub, Operand2R, FlagsNone, Equal, [TempOperand(2)], [ParamOperand(i), TempOperand(1)])])
  {
    SelectsRemainder(signed, i, j, f);
    ModSequenceWithSudiv(signed, ParamOperand(i), ParamOperand(j), f);
  }

  /** With SUDIV and MLS: hardware division and one MLS. */
  lemma ModWithSudivAndMls(signed: bool, i: nat, j: nat, f: Features)
    requires f.sudiv && f.mls
    ensures Select(Return(Binary(ModOp(signed), Parameter(i), Parameter(j))), f)
         == Some([Instruction(HardwareDiv(signed), ModeNone, FlagsNone, Equal, [TempOperand(0)], [ParamOperand(i), ParamOperand(j)]),
                  Instruction(ArmMls, ModeNone, FlagsNone, Equal, [TempOperand(1)], [TempOperand(0), ParamOperand(j), ParamOperand(i)])])
  {
    SelectsRemainder(signed, i, j, f);
    ModSequenceWithSudivAndMls(signed, ParamOperand(i), ParamOperand(j), f);
  }

  /** With MLS only: float64 division and one MLS. */
  lemma ModWithMls(signed: bool, i: nat, j: nat, f: Features)
    requires !f.sudiv && f.mls
    ensures Select(Return(Binary(ModOp(signed), Parameter(i), Parameter(j))), f)
         == Some([Instruction(ToFloat(signed), ModeNone, FlagsNone, Equal, [TempOperand(0)], [ParamOperand(i)]),
                  Instruction(ToFloat(signed), ModeNone, FlagsNone, Equal, [TempOperand(1)], [ParamOperand(j)]),
                  Instruction(ArmVdivF64, ModeNone, FlagsNone, Equal, [TempOperand(2)], [TempOperand(0), TempOperand(1)]),
                  Instruction(FromFloat(signed), ModeNone, FlagsNone, Equal, [TempOperand(3)], [TempOperand(2)]),
                  Instruction(ArmMls, ModeNone, FlagsNone, Equal, [TempOperand(4)], [TempOperand(3), ParamOperand(j), ParamOperand(i)])])
  {
    SelectsRemainder(signed, i, j, f);
    ModSequenceWithMls(signed, ParamOperand(i), ParamOperand(j), f);
  }

  // ---------------------------------------------------------------------
  // Strength reduction of multiplication by a constant.

  /** An int32 multiplier c > 0 with c - 1 == 2^k, in either order, is one ADD of x and x shifted left by k. */
  lemma MulByConstantPlusOne(i: nat, c: int, k: nat, f: Features)
    requires 0 < c <= kMaxInt && Log2Exact(c - 1) == Some(k)
    ensures Select(Return(Binary(Int32Mul, Parameter(i), Int32Constant(c))), f)
         == Some([Instruction(ArmAdd, Operand2RLslI, FlagsNone, Equal, [TempOperand(0)],
                              [ParamOperand(i), ParamOperand(i), Imm(k)])])
    ensures Select(Return(Binary(Int32Mul, Int32Constant(c), Parameter(i))), f)
         == Some([Instruction(ArmAdd, Operand2RLslI, FlagsNone, Equal, [TempOperand(0)],
                              [ParamOperand(i), ParamOperand(i), Imm(k)])])
  {
  }

  /**
   * A multiplier 0 < c < kMaxInt with c + 1 == 2^k and c - 1 not a power of
   * two, in either order, is one RSB: x shifted left by k, minus x.
   */
  lemma MulByConstantMinusOne(i: nat, c: int, k: nat, f: Features)
    requires 0 < c < kMaxInt && Log2Exact(c - 1) == None && Log2Exact(c + 1) == Some(k)
    ensures Select(Return(Binary(Int32Mul, Parameter(i), Int32Constant(c))), f)
         == Some([Instruction(ArmRsb, Operand2RLslI, FlagsNone, Equal, [TempOperand(0)],
                              [ParamOperand(i), ParamOperand(i), Imm(k)])])
    ensures Select(Return(Binary(Int32Mul, Int32Constant(c), Parameter(i))), f)
         == Some([Instruction(ArmRsb, Operand2RLslI, FlagsNone, Equal, [TempOperand(0)],
                              [ParamOperand(i), ParamOperand(i), Imm(k)])])
  {
  }

  /** x * c for c == 2^k + 1 with k in 1..30, in either order, is ADD with x shifted left by k. */
  lemma MulByPow2Plus1(i: nat, k: nat, c: int, f: Features)
    requires 1 <= k <= 30 && c == Pow2(k) + 1
    ensures Select(Return(Binary(Int32Mul, Parameter(i), Int32Constant(c))), f)
         == Some([Instruction(ArmAdd, Operand2RLslI, FlagsNone, Equal, [TempOperand(0)],
                              [ParamOperand(i), ParamOperand(i), Imm(k)])])
    ensures Select(Return(Binary(Int32Mul, Int32Constant(c), Parameter(i))), f)
         == Some([Instruction(ArmAdd, Operand2RLslI, FlagsNone, Equal, [TempOperand(0)],
                              [ParamOperand(i), ParamOperand(i), Imm(k)])])
  {
    PlusOneGuard(k);
    Pow2Word();
    if k < 30 {
      Pow2Strict(k, 30);
    }
    MulByConstantPlusOne(i, c, k, f);
  }

  lemma PlusOneGuard(k: nat)
    ensures Pow2(k) + 1 > 0 && Log2Exact(Pow2(k) + 1 - 1) == Some(k)
  {
    Log2ExactComplete(k);
  }

  /** x * c for c == 2^k - 1 with k in 3..30, in either order, is RSB with x shifted left by k. */
  lemma MulByPow2Minus1(i: nat, k: nat, c: int, f: Features)
    requires 3 <= k <= 30 && c == Pow2(k) - 1
    ensures Select(Return(Binary(Int32Mul, Parameter(i), Int32Constant(c))), f)
         == Some([Instruction(ArmRsb, Operand2RLslI, FlagsNone, Equal, [TempOperand(0)],
                              [ParamOperand(i), ParamOperand(i), Imm(k)])])
    ensures Select(Return(Binary(Int32Mul, Int32Constant(c), Parameter(i))), f)
         == Some([Instruction(ArmRsb, Operand2RLslI, FlagsNone, Equal, [TempOperand(0)],
                              [ParamOperand(i), ParamOperand(i), Imm(k)])])
  {
    MinusOneGuard(k);
    MulByConstantMinusOne(i, c, k, f);
  }

  lemma MinusOneGuard(k: nat)
    requires 3 <= k <= 30
    ensures 0 < Pow2(k) - 1 < kMaxInt && Log2Exact(Pow2(k) - 1 - 1) == None && Log2Exact(Pow2(k) - 1 + 1) == Some(k)
  {
    Pow2AboveHalf(k);
    Pow2MinusTwoIsNotPow2(k);
    Log2ExactComplete(k);
  }

  lemma Pow2MinusTwoIsNotPow2(k: nat)
    requires 3 <= k <= 30
    ensures Log2Exact(Pow2(k) - 2) == None
  {
    Pow2AboveHalf(k);
    var n := Pow2(k) - 2;
    Pow2Gap(k, n);
  }

  lemma Pow2AboveHalf(k: nat)
    requires 3 <= k <= 30
    ensures Pow2(k - 1) < Pow2(k) - 2 && Pow2(k) < kMaxInt
  {
    var p, q := Pow2(k - 1), Pow2(k - 2);
    assert Pow2(k) == 2 * p && p == 2 * q;
    Pow2Strict(0, k - 2);
    Pow2Word();
    if k < 30 {
      Pow2Strict(k, 30);
    }
  }

  // ---------------------------------------------------------------------
  // Bit-field instructions on ARMv7.

  /** AND with a constant whose word is a low mask of width w >= 1, in either order, is UBFX at bit 0. */
  lemma AndWithLowMaskConstant(i: nat, c: int, w: nat, f: Features)
    requires f.armv7 && w >= 1 && LowMaskWidth(U32(c)) == Some(w)
    ensures Select(Return(Binary(Word32And, Parameter(i), Int32Constant(c))), f)
         == Some([Instruction(ArmUbfx, ModeNone, FlagsNone, Equal, [TempOperand(0)], [ParamOperand(i), Imm(0), Imm(w)])])
    ensures Select(Return(Binary(Word32And, Int32Constant(c), Parameter(i))), f)
         == Some([Instruction(ArmUbfx, ModeNone, FlagsNone, Equal, [TempOperand(0)], [ParamOperand(i), Imm(0), Imm(w)])])
  {
  }

  /** The constant 0xffffffff >> (32 - w) is recognised as the low mask of width w. */
  lemma LowMaskConstant(w: nat)
    requires w <= 32
    ensures LowMaskWidth(U32(S32(LowMask(w)))) == Some(w)
  {
    LowMaskIsWord(w);
    assert U32(S32(LowMask(w))) == LowMask(w);
    LowMaskWidthIff(LowMask(w), w);
  }

  /** AND with 0xffffffff >> (32 - w) for w in 1..32, in either order, is UBFX of the w low bits. */
  lemma AndWithLowMask(i: nat, w: nat, f: Features)
    requires f.armv7 && 1 <= w <= 32
    ensures Select(Return(Binary(Word32And, Parameter(i), Int32Constant(S32(LowMask(w))))), f)
         == Some([Instruction(ArmUbfx, ModeNone, FlagsNone, Equal, [TempOperand(0)], [ParamOperand(i), Imm(0), Imm(w)])])
    ensures Select(Return(Binary(Word32And, Int32Constant(S32(LowMask(w))), Parameter(i))), f)
         == Some([Instruction(ArmUbfx, ModeNone, FlagsNone, Equal, [TempOperand(0)], [ParamOperand(i), Imm(0), Imm(w)])])
  {
    LowMaskConstant(w);
    AndWithLowMaskConstant(i, S32(LowMask(w)), w, f);
  }

  /**
   * AND with a constant whose word is not a low mask but whose complement is
   * the field (lsb, w), in either order, is BFC of that field, whose output
   * reuses its first input.
   */
  lemma AndWithFieldClearConstant(i: nat, c: int, lsb: nat, w: nat, f: Features)
    requires f.armv7 && LowMaskWidth(U32(c)) == None && FieldOf(Not32(U32(c))) == Some((lsb, w))
    ensures Select(Return(Binary(Word32And, Parameter(i), Int32Constant(c))), f)
         == Some([Instruction(ArmBfc, ModeNone, FlagsNone, Equal, [Reg(Temp(0), SameAsFirstInput)],
                              [ParamOperand(i), Imm(lsb), Imm(w)])])
    ensures Select(Return(Binary(Word32And, Int32Constant(c), Parameter(i))), f)
         == Some([Instruction(ArmBfc, ModeNone, FlagsNone, Equal, [Reg(Temp(0), SameAsFirstInput)],
                              [ParamOperand(i), Imm(lsb), Imm(w)])])
  {
  }

  /** AND with ~((0xffffffff >> (32 - w)) << lsb) for lsb + w < 32, in either order, is BFC of that field. */
  lemma AndWithFieldClear(i: nat, lsb: nat, w: nat, f: Features)
    requires f.armv7 && w >= 1 && lsb + w < 32
    ensures Select(Return(Binary(Word32And, Parameter(i), Int32Constant(S32(Not32(FieldMask(lsb, w)))))), f)
         == Some([Instruction(ArmBfc, ModeNone, FlagsNone, Equal, [Reg(Temp(0), SameAsFirstInput)],
                              [ParamOperand(i), Imm(lsb), Imm(w)])])
    ensures Select(Return(Binary(Word32And, Int32Constant(S32(Not32(FieldMask(lsb, w)))), Parameter(i))), f)
         == Some([Instruction(ArmBfc, ModeNone, FlagsNone, Equal, [Reg(Temp(0), SameAsFirstInput)],
                              [ParamOperand(i), Imm(lsb), Imm(w)])])
  {
    var c := S32(Not32(FieldMask(lsb, w)));
    FieldMaskIsWord(lsb, w);
    Not32Involutive(FieldMask(lsb, w));
    assert U32(c) == Not32(FieldMask(lsb, w));
    NotFieldMaskIsNotLowMask(lsb, w);
    FieldOfIff(FieldMask(lsb, w), lsb, w);
    AndWithFieldClearConstant(i, c, lsb, w, f);
  }

  /**
   * A right shift by lsb in 0..31 of an AND with a constant whose word,
   * shifted right by lsb, is a low mask of width w >= 1, in either order,
   * is UBFX of the field at lsb.
   */
  lemma ShrOfAndWithConstant(i: nat, c: int, lsb: nat, w: nat, f: Features)
    requires f.armv7 && lsb <= 31 && w >= 1 && LowMaskWidth(Hi(U32(c), lsb)) == Some(w)
    ensures Select(Return(Shift(Word32Shr, Binary(Word32And, Parameter(i), Int32Constant(c)), Int32Constant(lsb))), f)
         == Some([Instruction(ArmUbfx, ModeNone, FlagsNone, Equal, [TempOperand(0)], [ParamOperand(i), Imm(lsb), Imm(w)])])
    ensures Select(Return(Shift(Word32Shr, Binary(Word32And, Int32Constant(c), Parameter(i)), Int32Constant(lsb))), f)
         == Some([Instruction(ArmUbfx, ModeNone, FlagsNone, Equal, [TempOperand(0)], [ParamOperand(i), Imm(lsb), Imm(w)])])
  {
  }

  /** The mask of the field of width w at bit lsb with junk bits below it. */
  function MaskWithJunk(lsb: nat, w: nat, junk: nat): nat
  {
    Join(LowMask(w), junk, lsb)
  }

  lemma MaskWithJunkFacts(lsb: nat, w: nat, junk: nat)
    requires lsb + w <= 32 && junk < Pow2(lsb)
    ensures IsWord(MaskWithJunk(lsb, w, junk))
    ensures Hi(MaskWithJunk(lsb, w, junk), lsb) == LowMask(w)
  {
    JoinHiLo(LowMask(w), junk, lsb);
    JoinBelow(LowMask(w), junk, lsb, w);
    Pow2Word();
    if lsb + w < 32 {
      Pow2Strict(w + lsb, 32);
    }
  }

  /**
   * (x AND ((0xffffffff >> (32 - w)) << lsb | junk)) >> lsb, for junk below
   * bit lsb, lsb in 0..31 and w in 1..32 - lsb, in either order of the AND,
   * is UBFX of the field at lsb.
   */
  lemma ShrOfAndWithMask(i: nat, lsb: nat, w: nat, junk: nat, c: int, f: Features)
    requires f.armv7 && lsb <= 31 && 1 <= w && lsb + w <= 32 && junk < Pow2(lsb)
    requires c == S32(MaskWithJunk(lsb, w, junk))
    ensures Select(Return(Shift(Word32Shr, Binary(Word32And, Parameter(i), Int32Constant(c)), Int32Constant(lsb))), f)
         == Some([Instruction(ArmUbfx, ModeNone, FlagsNone, Equal, [TempOperand(0)], [ParamOperand(i), Imm(lsb), Imm(w)])])
    ensures Select(Return(Shift(Word32Shr, Binary(Word32And, Int32Constant(c), Parameter(i)), Int32Constant(lsb))), f)
         == Some([Instruction(ArmUbfx, ModeNone, FlagsNone, Equal, [TempOperand(0)], [ParamOperand(i), Imm(lsb), Imm(w)])])
  {
    MaskWithJunkFacts(lsb, w, junk);
    assert U32(c) == MaskWithJunk(lsb, w, junk);
    LowMaskWidthIff(LowMask(w), w);
    ShrOfAndWithConstant(i, c, lsb, w, f);
  }


  /**
   * AND of a right shift by lsb in 0..31 with a constant whose word is a low
   * mask of width w >= 1 with lsb + w <= 32, in either order, is UBFX of the
   * field at lsb.
   */
  lemma AndOfShrWithConstant(i: nat, c: int, lsb: nat, w: nat, f: Features)
    requires f.armv7 && lsb <= 31 && w >= 1 && lsb + w <= 32 && LowMaskWidth(U32(c)) == Some(w)
    ensures var s := Shift(Word32Shr, Parameter(i), Int32Constant(lsb));
      Select(Return(Binary(Word32And, s, Int32Constant(c))), f)
      == Some([Instruction(ArmUbfx, ModeNone, FlagsNone, Equal, [TempOperand(0)], [ParamOperand(i), Imm(lsb), Imm(w)])])
    ensures var s := Shift(Word32Shr, Parameter(i), Int32Constant(lsb));
      Select(Return(Binary(Word32And, Int32Constant(c), s)), f)
      == Some([Instruction(ArmUbfx, ModeNone, FlagsNone, Equal, [TempOperand(0)], [ParamOperand(i), Imm(lsb), Imm(w)])])
  {
  }

  /** (x >> lsb) AND (0xffffffff >> (32 - w)) for lsb + w <= 32, in either order, is UBFX of the field at lsb. */
  lemma AndOfShrWithLowMask(i: nat, lsb: nat, w: nat, f: Features)
    requires f.armv7 && lsb <= 31 && 1 <= w && lsb + w <= 32
    ensures var s := Shift(Word32Shr, Parameter(i), Int32Constant(lsb));
      Select(Return(Binary(Word32And, s, Int32Constant(S32(LowMask(w))))), f)
      == Some([Instruction(ArmUbfx, ModeNone, FlagsNone, Equal, [TempOperand(0)], [ParamOperand(i), Imm(lsb), Imm(w)])])
    ensures var s := Shift(Word32Shr, Parameter(i), Int32Constant(lsb));
      Select(Return(Binary(Word32And, Int32Constant(S32(LowMask(w))), s)), f)
      == Some([Instruction(ArmUbfx, ModeNone, FlagsNone, Equal, [TempOperand(0)], [ParamOperand(i), Imm(lsb), Imm(w)])])
  {
    LowMaskConstant(w);
    AndOfShrWithConstant(i, S32(LowMask(w)), lsb, w, f);
  }

  // ---------------------------------------------------------------------
  // What the folded instructions compute: each recognition test the
  // selector applies to a constant implies that the instruction it emits
  // computes the operation it replaces, on 32-bit words.

  /** A mask recognised as a low mask of width w: AND is UBFX of the field at bit 0. */
  lemma UbfxGuardSound(x: nat, m: nat, w: nat)
    requires LowMaskWidth(m) == Some(w)
    ensures BitAnd(x, m) == Ubfx(x, 0, w)
  {
    LowMaskWidthIff(m, w);
    AndLowMaskIsUbfx(x, w);
  }

  /** A word mask whose complement is recognised as the field (lsb, w): AND is BFC of that field. */
  lemma BfcGuardSound(x: nat, m: nat, lsb: nat, w: nat)
    requires IsWord(x) && IsWord(m) && FieldOf(Not32(m)) == Some((lsb, w))
    ensures lsb + w <= 32
    ensures BitAnd(x, m) == Bfc(x, lsb, w)
  {
    FieldOfIff(Not32(m), lsb, w);
    FieldMaskFits(lsb, w);
    Not32Involutive(m);
    AndNotFieldIsBfc(x, lsb, w);
  }

  /** A mask whose bits from lsb up are recognised as a low mask of width w: (x AND m) >> lsb is UBFX at lsb. */
  lemma ShrAndGuardSound(x: nat, m: nat, lsb: nat, w: nat)
    requires LowMaskWidth(Hi(m, lsb)) == Some(w)
    ensures Hi(BitAnd(x, m), lsb) == Ubfx(x, lsb, w)
  {
    LowMaskWidthIff(Hi(m, lsb), w);
    HiLoJoin(m, lsb);
    ShrOfAndIsUbfx(x, lsb, w, Lo(m, lsb));
  }

  /** (x >> lsb) AND a mask recognised as a low mask of width w is UBFX at lsb. */
  lemma AndShrGuardSound(x: nat, m: nat, lsb: nat, w: nat)
    requires LowMaskWidth(m) == Some(w)
    ensures BitAnd(Hi(x, lsb), m) == Ubfx(x, lsb, w)
  {
    LowMaskWidthIff(m, w);
    AndOfShrIsUbfx(x, lsb, w);
  }

  /** A multiplier c with c - 1 recognised as 2^k: x * c is x + (x << k). */
  lemma AddShiftGuardSound(x: int, c: int, k: nat)
    requires Log2Exact(c - 1) == Some(k)
    ensures x * c == x + x * Pow2(k)
  {
    Log2ExactIff(c - 1, k);
    var p := Pow2(k);
    assert c == p + 1;
    MulAddOne(x, p);
  }

  /** A multiplier c with c + 1 recognised as 2^k: x * c is (x << k) - x. */
  lemma RsbShiftGuardSound(x: int, c: int, k: nat)
    requires Log2Exact(c + 1) == Some(k)
    ensures x * c == x * Pow2(k) - x
  {
    Log2ExactIff(c + 1, k);
    var p := Pow2(k);
    assert c == p - 1;
    MulAddOne(x, p - 1);
  }

  /** TST of a register with itself sets "equal" exactly when the register is zero. */
  lemma TstSelfSound(x: nat)
    ensures BitAnd(x, x) == 0 <==> x == 0
  {
    BitAndSelf(x);
  }
}

