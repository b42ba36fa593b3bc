// The instruction stream a selector test inspects: the selected
// instructions in order, the constants and immediates their operands refer
// to by index, and the virtual registers known to hold doubles or tagged
// references.  The tables are filled while the stream is built and are only
// read afterwards.

module InstructionStream {

  import opened Wrappers
  import opened Instructions

  /** A constant of the stream's tables; only 32-bit integer constants occur in the selection rules. */
  datatype Constant = Int32Constant(value: int)

  /** An operand as the stream stores it: constants and immediates by their table index. */
  datatype InstructionOperand =
    | Unallocated(vreg: VReg, policy: Policy)
    | ConstantOperand(index: int)
    | ImmediateOperand(index: int)
    | LabelOperand(target: BlockTarget)

  type StreamInstruction = Instruction<InstructionOperand>

  /** Why a lookup in the stream fails. */
  datatype LookupError =
    | MissingConstant(index: int)
    | MissingImmediate(index: int)
    | NotImmediate
    | NotUnallocated

  // ---------------------------------------------------------------------
  // Storing selected operands: each immediate gets the next free index of
  // the immediates table, in operand order.

  /** The number of immediates among `ops`. */
  function ImmediateCount(ops: seq<Operand>): (n: nat)
    ensures n <= |ops|
  {
    if ops == [] then 0
    else ImmediateCount(ops[..|ops| - 1]) + (if ops[|ops| - 1].Imm? then 1 else 0)
  }

  /** The stored form of `op`; an immediate is stored at index `next`. */
  function Encode(op: Operand, next: int): InstructionOperand
  {
    match op
    case Reg(v, p) => Unallocated(v, p)
    case Imm(_) => ImmediateOperand(next)
    case Label(t) => LabelOperand(t)
  }

  /** The stored form of `ops` when their immediates are numbered from `next` on. */
  function EncodeAll(ops: seq<Operand>, next: int): (r: seq<InstructionOperand>)
    ensures |r| == |ops|
  {
    if ops == [] then []
    else
      var init := ops[..|ops| - 1];
      EncodeAll(init, next) + [Encode(ops[|ops| - 1], next + ImmediateCount(init))]
  }

  /** The table entries the immediates of `ops` add when numbered from `next` on. */
  function Interned(ops: seq<Operand>, next: int): map<int, Constant>
  {
    if ops == [] then map[]
    else
      var init := ops[..|ops| - 1];
      var last := ops[|ops| - 1];
      if last.Imm? then Interned(init, next)[next + ImmediateCount(init) := Int32Constant(last.value)]
      else Interned(init, next)
  }

  /** The interned entries are exactly the indices next, next + 1, ... up to the immediate count. */
  lemma {:induction false} InternedKeys(ops: seq<Operand>, next: int, k: int)
    ensures k in Interned(ops, next) <==> next <= k < next + ImmediateCount(ops)
    decreases |ops|
  {
    if ops != [] {
      InternedKeys(ops[..|ops| - 1], next, k);
    }
  }

  /**
   * Storing is faithful: position j of the stored operands is the register
   * or label of ops[j] unchanged, and for an immediate it is an index whose
   * interned entry holds the immediate's value.
   */
  lemma {:induction false} EncodeAllAt(ops: seq<Operand>, next: int, j: int)
    requires 0 <= j < |ops|
    ensures ops[j].Reg? ==> EncodeAll(ops, next)[j] == Unallocated(ops[j].vreg, ops[j].policy)
    ensures ops[j].Label? ==> EncodeAll(ops, next)[j] == LabelOperand(ops[j].target)
    ensures ops[j].Imm? ==>
      var k := next + ImmediateCount(ops[..j]);
      EncodeAll(ops, next)[j] == ImmediateOperand(k)
      && k in Interned(ops, next) && Interned(ops, next)[k] == Int32Constant(ops[j].value)
    decreases |ops|
  {
    var init := ops[..|ops| - 1];
    if j < |ops| - 1 {
      EncodeAllAt(init, next, j);
      assert init[..j] == ops[..j];
      if ops[j].Imm? {
        var k := next + ImmediateCount(ops[..j]);
        InternedKeys(init, next, next + ImmediateCount(init));
        InternedKeys(ops[..j], next, k);
        ImmediateCountPrefix(init, j);
      }
    } else {
      assert init == ops[..j];
    }
  }

  /** A prefix has no more immediates than the whole, and strictly fewer when an immediate follows it. */
  lemma {:induction false} ImmediateCountPrefix(ops: seq<Operand>, j: int)
    requires 0 <= j < |ops|
    ensures ImmediateCount(ops[..j]) + (if ops[j].Imm? then 1 else 0) <= ImmediateCount(ops)
    decreases |ops|
  {
    var init := ops[..|ops| - 1];
    if j < |ops| - 1 {
      ImmediateCountPrefix(init, j);
      assert init[..j] == ops[..j];
    } else {
      assert init == ops[..j];
    }
  }

  /** Storing the prefix ops[..j + 1] is storing ops[..j], then ops[j]. */
  lemma PrefixStep(ops: seq<Operand>, j: int, next: int)
    requires 0 <= j < |ops|
    ensures var k := next + ImmediateCount(ops[..j]);
      && EncodeAll(ops[..j + 1], next) == EncodeAll(ops[..j], next) + [Encode(ops[j], k)]
      && ImmediateCount(ops[..j + 1]) == ImmediateCount(ops[..j]) + (if ops[j].Imm? then 1 else 0)
      && Interned(ops[..j + 1], next)
         == if ops[j].Imm? then Interned(ops[..j], next)[k := Int32Constant(ops[j].value)] else Interned(ops[..j], next)
  {
    assert ops[..j + 1][..j] == ops[..j];
    assert ops[..j + 1][j] == ops[j];
  }

  lemma UpdateAfterMerge(m: map<int, Constant>, n: map<int, Constant>, k: int, c: Constant)
    ensures (m + n)[k := c] == m + n[k := c]
  {
  }

  /** Adding the entries of `ops` numbered from `next` keeps every entry of a table whose keys lie below `next`. */
  lemma MergeKeeps(m: map<int, Constant>, ops: seq<Operand>, next: int)
    requires forall k :: k in m ==> k < next
    ensures forall k :: k in m ==> (m + Interned(ops, next))[k] == m[k]
    ensures forall k :: k in Interned(ops, next) ==> (m + Interned(ops, next))[k] == Interned(ops, next)[k]
  {
    forall k | k in m
      ensures (m + Interned(ops, next))[k] == m[k]
    {
      InternedKeys(ops, next, k);
    }
  }

  /** The selected operand a stored operand stands for, given the immediates table. */
  function DecodeWith(immediates: map<int, Constant>, op: InstructionOperand): (r: Option<Operand>)
    ensures r.Some? <==> !op.ConstantOperand? && (op.ImmediateOperand? ==> op.index in immediates)
  {
    match op
    case Unallocated(v, p) => Some(Reg(v, p))
    case ImmediateOperand(k) => if k in immediates then Some(Imm(immediates[k].value)) else None
    case LabelOperand(t) => Some(Label(t))
    case ConstantOperand(_) => None
  }

  function DecodeAllWith(immediates: map<int, Constant>, ops: seq<InstructionOperand>): (r: Option<seq<Operand>>)
    ensures r.Some? ==> |r.value| == |ops|
  {
    if ops == [] then Some([])
    else
      match (DecodeAllWith(immediates, ops[..|ops| - 1]), DecodeWith(immediates, ops[|ops| - 1]))
      case (Some(init), Some(last)) => Some(init + [last])
      case _ => None
  }

  /** A successful decoding decodes each stored operand on its own, position by position. */
  lemma {:induction false} DecodeAllAt(immediates: map<int, Constant>, ops: seq<InstructionOperand>, j: int)
    requires DecodeAllWith(immediates, ops).Some? && 0 <= j < |ops|
    ensures DecodeWith(immediates, ops[j]) == Some(DecodeAllWith(immediates, ops).value[j])
    decreases |ops|
  {
    var init := ops[..|ops| - 1];
    if j < |ops| - 1 {
      DecodeAllAt(immediates, init, j);
    }
  }

  /** The selected instruction a stored one stands for, given the immediates table. */
  function DecodeInstruction(immediates: map<int, Constant>, instr: StreamInstruction): Option<SelectedInstruction>
  {
    match (DecodeAllWith(immediates, instr.outputs), DecodeAllWith(immediates, instr.inputs))
    case (Some(outs), Some(ins)) =>
      Some(Instruction(instr.opcode, instr.mode, instr.flags, instr.condition, outs, ins))
    case _ => None
  }

  /** Decoding what was stored with a table holding the interned entries gives back the selected operands. */
  lemma {:induction false} DecodeEncodeAll(ops: seq<Operand>, next: int, table: map<int, Constant>)
    requires forall k :: k in Interned(ops, next) ==> k in table && table[k] == Interned(ops, next)[k]
    ensures DecodeAllWith(table, EncodeAll(ops, next)) == Some(ops)
    decreases |ops|
  {
    if ops != [] {
      var init := ops[..|ops| - 1];
      var last := ops[|ops| - 1];
      InternedGrows(ops, next);
      DecodeEncodeAll(init, next, table);
      var stored := EncodeAll(ops, next);
      assert stored[..|stored| - 1] == EncodeAll(init, next);
      DecodeLast(ops, next, table);
      assert init + [last] == ops;
    }
  }

  /** Interning one more operand keeps the entries of the ones before it. */
  lemma InternedGrows(ops: seq<Operand>, next: int)
    requires ops != []
    ensures forall k :: k in Interned(ops[..|ops| - 1], next) ==>
      k in Interned(ops, next) && Interned(ops, next)[k] == Interned(ops[..|ops| - 1], next)[k]
  {
    var init := ops[..|ops| - 1];
    forall k | k in Interned(init, next)
      ensures k in Interned(ops, next) && Interned(ops, next)[k] == Interned(init, next)[k]
    {
      InternedKeys(init, next, k);
    }
  }

  lemma DecodeLast(ops: seq<Operand>, next: int, table: map<int, Constant>)
    requires ops != []
    requires forall k :: k in Interned(ops, next) ==> k in table && table[k] == Interned(ops, next)[k]
    ensures DecodeWith(table, Encode(ops[|ops| - 1], next + ImmediateCount(ops[..|ops| - 1]))) == Some(ops[|ops| - 1])
  {
    var init, last := ops[..|ops| - 1], ops[|ops| - 1];
    var k := next + ImmediateCount(init);
    if last.Imm? {
      assert Interned(ops, next) == Interned(init, next)[k := Int32Constant(last.value)];
      assert k in Interned(ops, next);
    }
  }

  /** Decoding only looks at the entries the operands name: a larger table decodes them the same way. */
  lemma {:induction false} DecodeAllExtends(small: map<int, Constant>, large: map<int, Constant>, ops: seq<InstructionOperand>)
    requires forall k :: k in small ==> k in large && large[k] == small[k]
    requires DecodeAllWith(small, ops).Some?
    ensures DecodeAllWith(large, ops) == DecodeAllWith(small, ops)
    decreases |ops|
  {
    if ops != [] {
      DecodeAllExtends(small, large, ops[..|ops| - 1]);
    }
  }

  // ---------------------------------------------------------------------
  // The virtual registers the selected instructions define.

  /** The virtual registers among `ops`. */
  function RegsOf(ops: seq<Operand>): set<VReg>
  {
    if ops == [] then {}
    else RegsOf(ops[..|ops| - 1]) + (if ops[|ops| - 1].Reg? then {ops[|ops| - 1].vreg} else {})
  }

  /** The virtual registers the outputs of `code` define. */
  function OutputRegs(code: seq<SelectedInstruction>): set<VReg>
  {
    if code == [] then {}
    else OutputRegs(code[..|code| - 1]) + RegsOf(code[|code| - 1].outputs)
  }

  /** The registers of `rs` the first j + 1 instructions define are those of the first j and those of instruction j. */
  lemma OutputRegsStep(code: seq<SelectedInstruction>, j: int, rs: set<VReg>)
    requires 0 <= j < |code|
    ensures OutputRegs(code[..j + 1]) * rs == OutputRegs(code[..j]) * rs + RegsOf(code[j].outputs) * rs
  {
    assert code[..j + 1][..j] == code[..j];
  }

  /** A register is among `ops` exactly when some operand of `ops` is that register. */
  lemma {:induction false} RegsOfIff(ops: seq<Operand>, v: VReg)
    ensures v in RegsOf(ops) <==> exists j :: 0 <= j < |ops| && ops[j].Reg? && ops[j].vreg == v
    decreases |ops|
  {
    if ops != [] {
      var init := ops[..|ops| - 1];
      RegsOfIff(init, v);
      if v in RegsOf(init) {
        var j :| 0 <= j < |init| && init[j].Reg? && init[j].vreg == v;
        assert ops[j] == init[j];
      }
      if exists j :: 0 <= j < |ops| && ops[j].Reg? && ops[j].vreg == v {
        var j :| 0 <= j < |ops| && ops[j].Reg? && ops[j].vreg == v;
        if j < |init| {
          assert init[j] == ops[j];
        }
      }
    }
  }

  /** A register is defined by `code` exactly when it is an output register of one of its instructions. */
  lemma {:induction false} OutputRegsIff(code: seq<SelectedInstruction>, v: VReg)
    ensures v in OutputRegs(code) <==> exists i :: 0 <= i < |code| && v in RegsOf(code[i].outputs)
    decreases |code|
  {
    if code != [] {
      var init := code[..|code| - 1];
      OutputRegsIff(init, v);
      if v in OutputRegs(init) {
        var i :| 0 <= i < |init| && v in RegsOf(init[i].outputs);
        assert code[i] == init[i];
      }
      if exists i :: 0 <= i < |code| && v in RegsOf(code[i].outputs) {
        var i :| 0 <= i < |code| && v in RegsOf(code[i].outputs);
        if i < |init| {
          assert init[i] == code[i];
        }
      }
    }
  }

  class Stream {
    var constants: map<int, Constant>
    var immediates: map<int, Constant>
    var instructions: seq<StreamInstruction>
    var doubles: set<VReg>
    var references: set<VReg>
    /** The index the next interned immediate gets. */
    var nextImmediate: int

    /** Immediate indices are handed out in order, so every entry lies below the next index. */
    ghost predicate Valid()
      reads this
    {
      0 <= nextImmediate && forall k :: k in immediates ==> 0 <= k < nextImmediate
    }

    constructor ()
      ensures Valid()
      ensures constants == map[] && immediates == map[] && instructions == []
      ensures doubles == {} && references == {} && nextImmediate == 0
    {
      constants := map[];
      immediates := map[];
      instructions := [];
      doubles := {};
      references := {};
      nextImmediate := 0;
    }

    function Size(): nat
      reads this
    {
      |instructions|
    }

    /** The instruction at `index`; the index must lie within the stream. */
    function At(index: nat): StreamInstruction
      reads this
      requires index < Size()
    {
      instructions[index]
    }

    predicate IsDouble(v: VReg)
      reads this
    {
      v in doubles
    }

    predicate IsReference(v: VReg)
      reads this
    {
      v in references
    }

    /**
     * The constant an operand refers to: a constant operand is looked up in
     * the constants table, any other operand must be an immediate and is
     * looked up in the immediates table; the entry must exist.
     */
    function ToConstant(op: InstructionOperand): (r: Result<Constant, LookupError>)
      reads this
      ensures r.Success? <==> (op.ConstantOperand? && op.index in constants) || (op.ImmediateOperand? && op.index in immediates)
      ensures r.Success? && op.ConstantOperand? ==> r.value == constants[op.index]
      ensures r.Success? && op.ImmediateOperand? ==> r.value == immediates[op.index]
    {
      match op
      case ConstantOperand(k) =>
        if k in constants then Success(constants[k]) else Failure(MissingConstant(k))
      case ImmediateOperand(k) =>
        if k in immediates then Success(immediates[k]) else Failure(MissingImmediate(k))
      case _ => Failure(NotImmediate)
    }

    function ToInt32(op: InstructionOperand): (r: Result<int, LookupError>)
      reads this
      ensures r.Success? <==> ToConstant(op).Success?
      ensures r.Success? ==> r.value == ToConstant(op).value.value
    {
      match ToConstant(op)
      case Success(c) => Success(c.value)
      case Failure(e) => Failure(e)
    }

    /** The virtual register of an unallocated operand; any other kind of operand has none. */
    function ToVreg(op: InstructionOperand): (r: Result<VReg, LookupError>)
      ensures r.Success? <==> op.Unallocated?
      ensures r.Success? ==> r.value == op.vreg
      ensures r.Failure? ==> r.error == NotUnallocated
    {
      if op.Unallocated? then Success(op.vreg) else Failure(NotUnallocated)
    }

    /**
     * The test's accessors read a selected operand back from its stored
     * form: an immediate's value through ToInt32, a register's virtual
     * register through ToVreg, a label unchanged.
     */
    predicate ReadsBack(stored: InstructionOperand, op: Operand)
      reads this
    {
      match op
      case Imm(v) => ToInt32(stored) == Success(v)
      case Reg(v, p) => ToVreg(stored) == Success(v) && stored.policy == p
      case Label(t) => stored == LabelOperand(t)
    }

    /** An operand that decodes to `op` against the immediates table is read back as `op` by the accessors. */
    lemma DecodeReadsBack(stored: InstructionOperand, op: Operand)
      requires DecodeWith(immediates, stored) == Some(op)
      ensures ReadsBack(stored, op)
    {
    }

    /**
     * Every operand of a stored instruction that decodes is read back by
     * ToInt32 and ToVreg as the operand of the decoded instruction at the
     * same position.
     */
    lemma DecodedReadsBack(i: nat, j: nat)
      requires i < Size() && Decoded(i).Some?
      ensures |At(i).inputs| == |Decoded(i).value.inputs| && |At(i).outputs| == |Decoded(i).value.outputs|
      ensures j < |At(i).inputs| ==> ReadsBack(At(i).inputs[j], Decoded(i).value.inputs[j])
      ensures j < |At(i).outputs| ==> ReadsBack(At(i).outputs[j], Decoded(i).value.outputs[j])
    {
      var instr := instructions[i];
      if j < |instr.inputs| {
        DecodeAllAt(immediates, instr.inputs, j);
        DecodeReadsBack(instr.inputs[j], Decoded(i).value.inputs[j]);
      }
      if j < |instr.outputs| {
        DecodeAllAt(immediates, instr.outputs, j);
        DecodeReadsBack(instr.outputs[j], Decoded(i).value.outputs[j]);
      }
    }

    /** A stream whose instructions decode to `code` reads every operand of `code` back at its position. */
    lemma BuiltReadsBack(code: seq<SelectedInstruction>)
      requires Size() == |code| && forall i :: 0 <= i < |code| ==> Decoded(i) == Some(code[i])
      ensures forall i :: 0 <= i < |code| ==>
        |At(i).inputs| == |code[i].inputs| && |At(i).outputs| == |code[i].outputs|
      ensures forall i, j :: 0 <= i < |code| && 0 <= j < |code[i].inputs| ==> ReadsBack(At(i).inputs[j], code[i].inputs[j])
      ensures forall i, j :: 0 <= i < |code| && 0 <= j < |code[i].outputs| ==> ReadsBack(At(i).outputs[j], code[i].outputs[j])
    {
      forall i, k | 0 <= i < |code| && 0 <= k
        ensures |At(i).inputs| == |code[i].inputs| && |At(i).outputs| == |code[i].outputs|
        ensures k < |code[i].inputs| ==> ReadsBack(At(i).inputs[k], code[i].inputs[k])
        ensures k < |code[i].outputs| ==> ReadsBack(At(i).outputs[k], code[i].outputs[k])
      {
        DecodedReadsBack(i, k);
      }
    }

    /** The selected instruction the stored one at `index` stands for. */
    function Decoded(index: nat): Option<SelectedInstruction>
      reads this
      requires index < Size()
    {
      DecodeInstruction(immediates, instructions[index])
    }

    /**
     * Appends a selected instruction, interning its immediates (outputs
     * first, then inputs) into the immediates table under fresh indices.
     * The appended instruction decodes to `sel`, and every instruction
     * already in the stream decodes as before.
     */
    method Append(sel: SelectedInstruction)
      requires Valid()
      modifies this
      ensures Valid()
      ensures Size() == old(Size()) + 1
      ensures instructions[..old(Size())] == old(instructions)
      ensures Decoded(old(Size())) == Some(sel)
      ensures forall i :: 0 <= i < old(Size()) && old(Decoded(i)).Some? ==> Decoded(i) == old(Decoded(i))
      ensures constants == old(constants) && doubles == old(doubles) && references == old(references)
    {
      var base := nextImmediate;
      var outs := StoreOperands(sel.outputs);
      var ins := StoreOperands(sel.inputs);
      instructions := instructions + [Instruction(sel.opcode, sel.mode, sel.flags, sel.condition, outs, ins)];
      MergeKeeps(old(immediates), sel.outputs, base);
      MergeKeeps(old(immediates) + Interned(sel.outputs, base), sel.inputs, base + ImmediateCount(sel.outputs));
      assert Decoded(old(Size())) == Some(sel) by {
        DecodeEncodeAll(sel.outputs, base, immediates);
        DecodeEncodeAll(sel.inputs, base + ImmediateCount(sel.outputs), immediates);
      }
      forall i | 0 <= i < old(Size()) && old(Decoded(i)).Some?
        ensures Decoded(i) == old(Decoded(i))
      {
        var instr := instructions[i];
        assert instr == old(instructions[i]);
        DecodeAllExtends(old(immediates), immediates, instr.outputs);
        DecodeAllExtends(old(immediates), immediates, instr.inputs);
      }
    }

    /**
     * Stores operands, interning each immediate under the next free index;
     * the old entries of the immediates table are kept.
     */
    method StoreOperands(ops: seq<Operand>) returns (stored: seq<InstructionOperand>)
      requires Valid()
      modifies this
      ensures Valid()
      ensures stored == EncodeAll(ops, old(nextImmediate))
      ensures nextImmediate == old(nextImmediate) + ImmediateCount(ops)
      ensures immediates == old(immediates) + Interned(ops, old(nextImmediate))
      ensures constants == old(constants) && instructions == old(instructions)
      ensures doubles == old(doubles) && references == old(references)
    {
      var base := nextImmediate;
      stored := [];
      var j := 0;
      while j < |ops|
        invariant 0 <= j <= |ops|
        invariant stored == EncodeAll(ops[..j], base)
        invariant nextImmediate == base + ImmediateCount(ops[..j])
        invariant immediates == old(immediates) + Interned(ops[..j], base)
        invariant forall k :: k in immediates ==> 0 <= k < nextImmediate
        invariant constants == old(constants) && instructions == old(instructions)
        invariant doubles == old(doubles) && references == old(references)
      {
        PrefixStep(ops, j, base);
        if ops[j].Imm? {
          UpdateAfterMerge(old(immediates), Interned(ops[..j], base), nextImmediate, Int32Constant(ops[j].value));
          immediates := immediates[nextImmediate := Int32Constant(ops[j].value)];
          nextImmediate := nextImmediate + 1;
        }
        stored := stored + [Encode(ops[j], base + ImmediateCount(ops[..j]))];
        j := j + 1;
      }
      assert ops[..j] == ops;
    }

    /** Records that virtual register `v` holds a double. */
    method MarkDouble(v: VReg)
      modifies this
      ensures forall u :: IsDouble(u) <==> u == v || old(IsDouble(u))
      ensures doubles == old(doubles) + {v}
      ensures references == old(references) && constants == old(constants)
      ensures immediates == old(immediates) && instructions == old(instructions)
      ensures nextImmediate == old(nextImmediate)
    {
      doubles := doubles + {v};
    }

    /** Records that virtual register `v` holds a tagged reference. */
    method MarkReference(v: VReg)
      modifies this
      ensures forall u :: IsReference(u) <==> u == v || old(IsReference(u))
      ensures references == old(references) + {v}
      ensures doubles == old(doubles) && constants == old(constants)
      ensures immediates == old(immediates) && instructions == old(instructions)
      ensures nextImmediate == old(nextImmediate)
    {
      references := references + {v};
    }

    /**
     * Records the representation of each register among `ops`, as the
     * instruction sequence reports it: those in `doubleRegs` hold doubles,
     * those in `referenceRegs` tagged references.
     */
    method MarkOutputs(ops: seq<Operand>, doubleRegs: set<VReg>, referenceRegs: set<VReg>)
      modifies this
      ensures doubles == old(doubles) + RegsOf(ops) * doubleRegs
      ensures references == old(references) + RegsOf(ops) * referenceRegs
      ensures constants == old(constants) && immediates == old(immediates)
      ensures instructions == old(instructions) && nextImmediate == old(nextImmediate)
    {
      var j := 0;
      while j < |ops|
        invariant 0 <= j <= |ops|
        invariant doubles == old(doubles) + RegsOf(ops[..j]) * doubleRegs
        invariant references == old(references) + RegsOf(ops[..j]) * referenceRegs
        invariant constants == old(constants) && immediates == old(immediates)
        invariant instructions == old(instructions) && nextImmediate == old(nextImmediate)
      {
        assert ops[..j + 1][..j] == ops[..j];
        if ops[j].Reg? && ops[j].vreg in doubleRegs {
          MarkDouble(ops[j].vreg);
        }
        if ops[j].Reg? && ops[j].vreg in referenceRegs {
          MarkReference(ops[j].vreg);
        }
        j := j + 1;
      }
      assert ops[..j] == ops;
    }

    /** Adds the constant at index `index` of the constants table. */
    method AddConstant(index: int, c: Constant)
      modifies this
      ensures constants == old(constants)[index := c]
      ensures ToConstant(ConstantOperand(index)) == Success(c)
      ensures immediates == old(immediates) && instructions == old(instructions)
      ensures doubles == old(doubles) && references == old(references)
      ensures nextImmediate == old(nextImmediate)
    {
      constants := constants[index := c];
    }
  }

  /**
   * Builds the stream of a selected instruction sequence, in order.  The
   * registers the instructions define are marked as doubles or references
   * as the sequence's `doubleRegs` and `referenceRegs` say.
   */
  method Build(code: seq<SelectedInstruction>, doubleRegs: set<VReg>, referenceRegs: set<VReg>) returns (s: Stream)
    ensures fresh(s) && s.Valid()
    ensures s.Size() == |code|
    ensures forall i :: 0 <= i < |code| ==> s.Decoded(i) == Some(code[i])
    ensures forall i :: 0 <= i < |code| ==>
      |s.At(i).inputs| == |code[i].inputs| && |s.At(i).outputs| == |code[i].outputs|
    ensures forall i, j :: 0 <= i < |code| && 0 <= j < |code[i].inputs| ==> s.ReadsBack(s.At(i).inputs[j], code[i].inputs[j])
    ensures forall i, j :: 0 <= i < |code| && 0 <= j < |code[i].outputs| ==> s.ReadsBack(s.At(i).outputs[j], code[i].outputs[j])
    ensures forall v :: s.IsDouble(v) <==> v in doubleRegs && v in OutputRegs(code)
    ensures forall v :: s.IsReference(v) <==> v in referenceRegs && v in OutputRegs(code)
    ensures s.constants == map[]
  {
    s := new Stream();
    var j := 0;
    while j < |code|
      invariant 0 <= j <= |code|
      invariant s.Valid() && s.Size() == j
      invariant forall i :: 0 <= i < j ==> s.Decoded(i) == Some(code[i])
      invariant s.constants == map[] && s.doubles == {} && s.references == {}
    {
      s.Append(code[j]);
      j := j + 1;
    }
    ghost var instrs, imms := s.instructions, s.immediates;
    assert forall i :: 0 <= i < |code| ==> DecodeInstruction(imms, instrs[i]) == Some(code[i]);
    j := 0;
    while j < |code|
      invariant 0 <= j <= |code|
      invariant s.instructions == instrs && s.immediates == imms && s.Valid()
      invariant s.doubles == OutputRegs(code[..j]) * doubleRegs
      invariant s.references == OutputRegs(code[..j]) * referenceRegs
      invariant s.constants == map[]
    {
      OutputRegsStep(code, j, doubleRegs);
      OutputRegsStep(code, j, referenceRegs);
      s.MarkOutputs(code[j].outputs, doubleRegs, referenceRegs);
      j := j + 1;
    }
    assert code[..j] == code;
    s.BuiltReadsBack(code);
  }
}
