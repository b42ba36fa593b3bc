# ARM instruction selection, Smi change lowering and the selector's instruction stream

This project is a Dafny model of three parts of V8's TurboFan compiler, as its
unit tests pin them down. The tests check the ARM instruction selector, the
lowering of representation changes, and the `Stream` their expectations read
from. The model is an executable specification of the rules those tests
assert. Each loop over a table or a range in a test becomes a lemma
quantified over every table entry, every parameter, every encodable immediate
and every shift amount in range.

- **ARM instruction selection** (`arm_selector.dfy`, `arm_tables.dfy`,
  `arm_selector_properties.dfy`, with `instructions.dfy` and `bits.dfy`).
  `ArmSelector.Select` maps a small graph of 32-bit machine operators and a
  CPU feature set {ARMv7, SUDIV, MLS} to the list of selected instructions.
  A graph either returns a value or branches on one. The rules cover:
  - folding immediates and shifts into the flexible second operand;
  - the reverse opcode when the operands are swapped;
  - test opcodes and branches;
  - the overflow projections;
  - BIC and MVN;
  - MLA and MLS;
  - strength reduction of multiplication by 2^k ± 1;
  - UBFX and BFC;
  - TST for comparison with zero;
  - division and remainder by feature set.

  `ArmTables` holds the four tables the tests iterate over.
  `ArmSelectorProperties` proves, for every entry, what the tests expect.
  Beside those shape results, lemmas prove that each pattern's guard matches
  the arithmetic: a mask recognised as a low mask really makes AND a field
  extract, and so on.
- **Smi change lowering** (`change_lowering.dfy`). This part models:
  - the fixture's tagging arithmetic: pointer size, Smi shift and value sizes,
    the Smi range, and the heap number value offset;
  - each `Change*` lowering, for 32-bit and 64-bit words, as a datatype of
    machine-graph fragments (`Lower`);
  - an evaluator `Eval` that gives a fragment its value for one input.

  The lowerings are proved correct against a reference definition of the
  tagged form of a number (`Tagged`). The lowerings are also proved to
  round-trip through each other. A structural lemma shows that every heap
  access in a fragment is a float64 at `HeapNumberValueOffset`, with no write
  barrier.
- **The instruction stream** (`stream.dfy`). `InstructionStream.Stream` is a
  class with the fields of the test's `Stream`:
  - the instruction sequence;
  - the constants and immediates tables;
  - the double and reference register sets.

  Its lookups return a `Result` and give an explicit error where the test
  would fail an expectation. Its tables are filled in place by `Append` and
  `Build`, which intern each selected immediate under a fresh index. Both are
  proved to keep every stored instruction decodable back to the instruction
  that was selected.

## Model

| member | source | states |
|---|---|---|
| ArmSelectorProperties.DpiTableAgrees | test/compiler-unittests/arm/instruction-selector-arm-unittest.cc:32-46 | For every entry of the data-processing table, the selector's flags-only test opcode is the entry's test opcode. |
| ArmSelectorProperties.OnlySubReverses | test/compiler-unittests/arm/instruction-selector-arm-unittest.cc:32-46 | An entry's reverse opcode differs from its opcode exactly for Sub (which reverses to RSB). |
| ArmSelectorProperties.OdpiTableAgrees | test/compiler-unittests/arm/instruction-selector-arm-unittest.cc:54-68 | For every overflow-checked entry, the selector uses the entry's opcode and reverse opcode. |
| ArmSelectorProperties.ShiftTableAgrees | test/compiler-unittests/arm/instruction-selector-arm-unittest.cc:76-85 | For every shift entry, the selector's immediate range and its immediate and register addressing modes are the entry's. |
| ArmTables.ImmediatesEncodable | test/compiler-unittests/arm/instruction-selector-arm-unittest.cc:88-112 | Every sampled immediate is an ARM modified immediate: an 8-bit value rotated right by an even amount. |
| ArmSelectorProperties.MatchForm | test/compiler-unittests/arm/instruction-selector-arm-unittest.cc:137-225 | An encodable immediate, a shift by a register, or a shift by an immediate in the entry's range folds into the second operand, with the table's mode and the operands in order. A plain register does not fold. |
| ArmSelectorProperties.DpiWithOperand | test/compiler-unittests/arm/instruction-selector-arm-unittest.cc:124-225 | `dpi(p_i, operand)` selects exactly one instruction, for every table entry and every operand form, with ARMv7 off (the tests' default `m.Build()` features). It has the entry's opcode, the operand's mode, no flags, one output, and inputs p_i then the operand's registers and immediates. |
| ArmSelectorProperties.DpiWithOperandOnLeft | test/compiler-unittests/arm/instruction-selector-arm-unittest.cc:137-225 | With the immediate or shift on the left and ARMv7 off (the tests' default `m.Build()` features), the instruction is the same except that it has the reverse opcode. On ARMv7 an AND with a low-mask or field-clear immediate follows the UBFX or BFC rule instead (AndWithLowMaskConstant, AndWithFieldClearConstant). |
| ArmSelectorProperties.CompareZeroStripsEqualZero | test/compiler-unittests/arm/instruction-selector-arm-unittest.cc:373-411 | Testing `v == 0 == 0 ...` (n comparisons) is testing v with the condition negated n times. |
| ArmSelectorProperties.DpiBranch | test/compiler-unittests/arm/instruction-selector-arm-unittest.cc:228-493 | Branching on `dpi(p_i, operand)` under n comparisons with zero is one test-opcode instruction in branch mode. Its condition is NotEqual for even n and Equal for odd n. It has no output for compare opcodes, and its inputs end with the two block labels. By BranchIfZeroShapes, n = 1 and n = 2 are the tests' `Word32Equal(v, 0)` and `Word32NotEqual(v, 0)` branches. |
| ArmSelectorProperties.BranchIfZeroShapes | test/compiler-unittests/arm/instruction-selector-arm-unittest.cc:393-400 | One comparison with zero is the tests' `Word32Equal(v, 0)`, and two comparisons with zero are their `Word32NotEqual(v, 0)`, so the branch tests are the cases n = 1 and n = 2 of DpiBranch. |
| ArmSelectorProperties.DpiBranchOnLeft | test/compiler-unittests/arm/instruction-selector-arm-unittest.cc:246-493 | The same, with the immediate or shift on the left. |
| ArmSelectorProperties.OvfOverflowBit | test/compiler-unittests/arm/instruction-selector-arm-unittest.cc:507-629 | Using only projection 1 selects one instruction. It sets the Overflow condition and has two outputs. |
| ArmSelectorProperties.OvfOverflowBitOnLeft | test/compiler-unittests/arm/instruction-selector-arm-unittest.cc:523-629 | The same with the operand on the left, with the reverse opcode. |
| ArmSelectorProperties.OvfValue | test/compiler-unittests/arm/instruction-selector-arm-unittest.cc:632-747 | Using only projection 0 selects one instruction without flags and with one output. |
| ArmSelectorProperties.OvfValueOnLeft | test/compiler-unittests/arm/instruction-selector-arm-unittest.cc:647-747 | The same with the operand on the left, with the reverse opcode. |
| ArmSelectorProperties.OvfBoth | test/compiler-unittests/arm/instruction-selector-arm-unittest.cc:750-870 | Comparing both projections selects the flag-setting instruction with two outputs, then a CMP of those two outputs. The test checks only the first instruction and that there is at least one; the second instruction is this model's choice, not something the source promises. |
| ArmSelectorProperties.OvfBothOnLeft | test/compiler-unittests/arm/instruction-selector-arm-unittest.cc:766-870 | The same with the operand on the left, with the reverse opcode. As for OvfBoth, only the first instruction is what the test checks. |
| ArmSelectorProperties.OvfBranch | test/compiler-unittests/arm/instruction-selector-arm-unittest.cc:873-976 | Branching on projection 1 under n comparisons with zero is one branch-mode instruction. Its condition is Overflow for even n and NotOverflow for odd n. |
| ArmSelectorProperties.OvfBranchOnLeft | test/compiler-unittests/arm/instruction-selector-arm-unittest.cc:894-934 | The same with the operand on the left, with the reverse opcode. |
| Instructions.NegateInvolutive | test/compiler-unittests/arm/instruction-selector-arm-unittest.cc:937-976 | Negating a flags condition twice gives it back. |
| ArmSelectorProperties.ShiftAlone | test/compiler-unittests/arm/instruction-selector-arm-unittest.cc:990-1016 | A shift on its own is one MOV with the table's mode and the shift's operands. |
| ArmSelectorProperties.EqualWithOperand | test/compiler-unittests/arm/instruction-selector-arm-unittest.cc:1631-1674 | Comparing a parameter with a register, a nonzero immediate or a shift, in either order, is one CMP in set mode with condition Equal. The operand is folded with its mode. The shift group's equality tests are covered as well. |
| ArmSelectorProperties.EqualZeroWithParameter | test/compiler-unittests/arm/instruction-selector-arm-unittest.cc:1677-1704 | `p_i == 0` and `0 == p_i` are one TST whose two inputs are both p_i. |
| ArmSelectorProperties.TstSelfSound | test/compiler-unittests/arm/instruction-selector-arm-unittest.cc:1677-1704 | TST of a register with itself sets Equal exactly when the register is zero. |
| ArmSelectorProperties.ShiftEqualZero | test/compiler-unittests/arm/instruction-selector-arm-unittest.cc:1087-1121 | Comparing a shift with zero, in either order, is one flag-setting MOV. It defines the value and the condition. |
| ArmSelectorProperties.NotOfOperand | test/compiler-unittests/arm/instruction-selector-arm-unittest.cc:1124-1151 | NOT of a parameter or of a shift is one MVN with the operand folded. |
| ArmSelectorProperties.AndWithNot | test/compiler-unittests/arm/instruction-selector-arm-unittest.cc:1154-1183 | AND with the NOT of a parameter or of a shift, in either order, is one BIC with the operand folded. |
| ArmSelectorProperties.AddWithMul | test/compiler-unittests/arm/instruction-selector-arm-unittest.cc:1194-1215 | Adding a product on either side is one MLA with inputs multiplicand, multiplier, addend. |
| ArmSelectorProperties.DivWithoutSudiv | test/compiler-unittests/arm/instruction-selector-arm-unittest.cc:1218-1235 | Without SUDIV, signed or unsigned division has four instructions: both operands converted, a float64 division, the quotient converted back. Temporaries are chained. |
| ArmSelectorProperties.DivWithSudiv | test/compiler-unittests/arm/instruction-selector-arm-unittest.cc:1238-1244 | With SUDIV, division is one SDIV or UDIV of the two parameters. |
| ArmSelectorProperties.SelectsRemainder | test/compiler-unittests/arm/instruction-selector-arm-unittest.cc:1247-1312 | Every remainder of two parameters selects the remainder sequence for the feature set. |
| ArmSelectorProperties.ModWithoutFeatures | test/compiler-unittests/arm/instruction-selector-arm-unittest.cc:1247-1274 | Without features, the remainder is six instructions: the division sequence, MUL of the quotient and the divisor, and SUB of that product from the dividend. |
| ArmSelectorProperties.ModWithSudiv | test/compiler-unittests/arm/instruction-selector-arm-unittest.cc:1277-1295 | With SUDIV only, the remainder is three instructions: hardware division, MUL and SUB. |
| ArmSelectorProperties.ModWithSudivAndMls | test/compiler-unittests/arm/instruction-selector-arm-unittest.cc:1298-1312 | With SUDIV and MLS, the remainder is hardware division, then one MLS with inputs quotient, divisor, dividend. |
| ArmSelectorProperties.ModWithMls | test/compiler-unittests/arm/instruction-selector-arm-unittest.cc:1298-1312 | With MLS only (a combination the tests do not exercise), the remainder is the float64 division sequence, then one MLS. |
| ArmSelectorProperties.MulWithParameters | test/compiler-unittests/arm/instruction-selector-arm-unittest.cc:1315-1323 | A product of two parameters is one MUL. |
| ArmSelectorProperties.MulByPow2Plus1 | test/compiler-unittests/arm/instruction-selector-arm-unittest.cc:1326-1379 | For k in 1..30, x·(2^k+1) in either order is one ADD in LSL-immediate mode, with inputs x, x, k. |
| ArmSelectorProperties.MulByPow2Minus1 | test/compiler-unittests/arm/instruction-selector-arm-unittest.cc:1326-1379 | For k in 3..30, x·(2^k−1) in either order is one RSB in LSL-immediate mode, with inputs x, x, k. |
| ArmSelectorProperties.MulByConstantPlusOne | test/compiler-unittests/arm/instruction-selector-arm-unittest.cc:1326-1379 | The same ADD for every int32 multiplier 0 < c ≤ kMaxInt whose c−1 is recognised as a power of two. |
| ArmSelectorProperties.MulByConstantMinusOne | test/compiler-unittests/arm/instruction-selector-arm-unittest.cc:1326-1379 | The same RSB for every multiplier 0 < c < kMaxInt with c+1 a power of two and c−1 not a power of two. |
| ArmSelectorProperties.AddShiftGuardSound | test/compiler-unittests/arm/instruction-selector-arm-unittest.cc:1326-1379 | When c−1 is recognised as 2^k, x·c equals x + (x << k), so the ADD computes the product. |
| ArmSelectorProperties.RsbShiftGuardSound | test/compiler-unittests/arm/instruction-selector-arm-unittest.cc:1326-1379 | When c+1 is recognised as 2^k, x·c equals (x << k) − x, so the RSB computes the product. |
| Bits.Log2ExactIff | test/compiler-unittests/arm/instruction-selector-arm-unittest.cc:1326-1379 | The power-of-two recogniser returns k exactly for 2^k. |
| ArmSelectorProperties.SubWithMul | test/compiler-unittests/arm/instruction-selector-arm-unittest.cc:1382-1405 | Subtracting a product is MUL then SUB without MLS, and one MLS with it. |
| ArmSelectorProperties.AndWithLowMask | test/compiler-unittests/arm/instruction-selector-arm-unittest.cc:1505-1528 | On ARMv7, for w in 1..32, AND with 0xffffffff >> (32−w) in either order is UBFX(x, 0, w). |
| ArmSelectorProperties.AndWithLowMaskConstant | test/compiler-unittests/arm/instruction-selector-arm-unittest.cc:1505-1528 | The same UBFX for every constant whose word is recognised as a low mask of width w ≥ 1. |
| ArmSelectorProperties.UbfxGuardSound | test/compiler-unittests/arm/instruction-selector-arm-unittest.cc:1505-1528 | AND with a mask recognised as a low mask of width w is the w-bit field extract at bit 0. |
| Bits.LowMaskWidthIff | test/compiler-unittests/arm/instruction-selector-arm-unittest.cc:1505-1528 | The low-mask recogniser returns w exactly for 2^w − 1. |
| ArmSelectorProperties.AndWithFieldClear | test/compiler-unittests/arm/instruction-selector-arm-unittest.cc:1531-1566 | On ARMv7, AND with ~(mask_w << lsb) for lsb + w < 32, in either order, is BFC(lsb, w). Its output uses the same-as-first-input policy. |
| ArmSelectorProperties.AndWithFieldClearConstant | test/compiler-unittests/arm/instruction-selector-arm-unittest.cc:1531-1566 | The same BFC for every constant that is not a low mask and whose complement is recognised as the field (lsb, w). |
| ArmSelectorProperties.BfcGuardSound | test/compiler-unittests/arm/instruction-selector-arm-unittest.cc:1531-1566 | AND with a word whose complement is recognised as the field (lsb, w) clears exactly that field. |
| Bits.FieldOfIff | test/compiler-unittests/arm/instruction-selector-arm-unittest.cc:1531-1566 | The field recogniser returns (lsb, w) exactly for a run of w ≥ 1 ones starting at bit lsb. |
| ArmSelectorProperties.ShrOfAndWithMask | test/compiler-unittests/arm/instruction-selector-arm-unittest.cc:1569-1604 | On ARMv7, (x AND (mask_w << lsb plus any junk below 2^lsb)) >> lsb, in either AND order, is UBFX(x, lsb, w). |
| ArmSelectorProperties.ShrOfAndWithConstant | test/compiler-unittests/arm/instruction-selector-arm-unittest.cc:1569-1604 | The same UBFX for every constant whose bits from lsb up are recognised as a low mask of width w ≥ 1. |
| ArmSelectorProperties.ShrAndGuardSound | test/compiler-unittests/arm/instruction-selector-arm-unittest.cc:1569-1604 | For such a mask, (x AND m) >> lsb is the w-bit field of x at lsb. |
| ArmSelectorProperties.AndOfShrWithLowMask | test/compiler-unittests/arm/instruction-selector-arm-unittest.cc:1719-1746 | On ARMv7, (x >> lsb) AND (0xffffffff >> (32−w)) for lsb + w ≤ 32, in either order, is UBFX(x, lsb, w). |
| ArmSelectorProperties.AndOfShrWithConstant | test/compiler-unittests/arm/instruction-selector-arm-unittest.cc:1719-1746 | The same UBFX for every constant recognised as a low mask of width w ≥ 1 with lsb + w ≤ 32. |
| ArmSelectorProperties.AndShrGuardSound | test/compiler-unittests/arm/instruction-selector-arm-unittest.cc:1719-1746 | (x >> lsb) AND a recognised low mask of width w is the w-bit field of x at lsb. |
| InstructionStream.Stream.DecodedReadsBack | test/compiler-unittests/instruction-selector-unittest.h:127-149 | For a stored instruction that decodes, its operand counts equal the decoded ones. ToInt32 reads each stored immediate back as the selected value, through the immediates-table entry that ToConstant finds. ToVreg reads each stored register back as its virtual register, with its policy, and labels are kept. |
| InstructionStream.Stream.constructor | test/compiler-unittests/instruction-selector-unittest.h:155-159 | A new stream has empty tables, sets and instruction sequence. It stands for part of the stream filling in `StreamBuilder::Build` (instruction-selector-unittest.cc, not part of this model); the cited lines are the fields and accessors that filling sets. |
| InstructionStream.Stream.StoreOperands | test/compiler-unittests/instruction-selector-unittest.h:155-159 | Stores operands in order and interns each immediate under the next free index. The old table entries are kept and the other fields are unchanged. It stands for part of the stream filling in `StreamBuilder::Build` (instruction-selector-unittest.cc, not part of this model); the cited lines are the fields and accessors that filling sets. |
| InstructionStream.Stream.Append | test/compiler-unittests/instruction-selector-unittest.h:113-117 | The stream's size grows by one. `At` at the old size is the new instruction, which decodes back to the selected one. `At` at every earlier index is unchanged and decodes as before, and the constants and register sets are unchanged. It stands for part of the stream filling in `StreamBuilder::Build` (instruction-selector-unittest.cc, not part of this model); the cited lines are the fields and accessors that filling sets. |
| InstructionStream.Stream.MarkDouble | test/compiler-unittests/instruction-selector-unittest.h:119-121 | Afterwards IsDouble holds exactly for the marked register and the earlier ones; nothing else changes. |
| InstructionStream.Stream.MarkReference | test/compiler-unittests/instruction-selector-unittest.h:123-125 | Afterwards IsReference holds exactly for the marked register and the earlier ones; nothing else changes. |
| InstructionStream.Stream.AddConstant | test/compiler-unittests/instruction-selector-unittest.h:137-141 | Adds one constants-table entry, which the constant lookup then finds; nothing else changes. |
| InstructionStream.Stream.MarkOutputs | test/compiler-unittests/instruction-selector-unittest.h:158-159 | The registers among an instruction's outputs that the instruction sequence reports as doubles join the doubles set, and those it reports as references join the references set; the instructions and tables are unchanged. It stands for part of the stream filling in `StreamBuilder::Build` (instruction-selector-unittest.cc, not part of this model); the cited lines are the fields and accessors that filling sets. |
| InstructionStream.Build | test/compiler-unittests/instruction-selector-unittest.h:69-70 | Builds a stream whose size is the number of selected instructions: one stored instruction per selected one, in order, each decoding back to it. Every input and output of stored instruction i is read back by ToInt32 and ToVreg as the operand at the same position of the i-th selected instruction. A register is a double (a reference) in the built stream exactly when some instruction defines it as an output and the instruction sequence reports it as a double (a reference). |
| InstructionStream.DecodeEncodeAll | test/compiler-unittests/instruction-selector-unittest.h:137-148 | Operands stored with interned immediates decode, through any table that holds the interned entries, to the operands that were stored. |
| InstructionStream.InternedKeys | test/compiler-unittests/instruction-selector-unittest.h:155-156 | The interned immediates take exactly the indices from the first free one up, one per immediate. |
| InstructionStream.EncodeAllAt | test/compiler-unittests/instruction-selector-unittest.h:137-148 | Each stored operand is the register, label or immediate index of the selected operand at the same position. |
| InstructionStream.DecodeAllExtends | test/compiler-unittests/instruction-selector-unittest.h:155-156 | Decoding is unchanged when the immediates table grows. |
| ChangeLowering.PointerSize | test/compiler-unittests/change-lowering-unittest.cc:44-55 | Eight times the pointer size is the word width: 4 bytes on 32-bit words and 8 on 64-bit words. Only the word representations have one. |
| ChangeLowering.SmiRange | test/compiler-unittests/change-lowering-unittest.cc:56-80 | SmiMinValue is −2^(SmiValueSize−1) and SmiMaxValue is 2^(SmiValueSize−1) − 1. The shift amount is 1 and the range [−2^30, 2^30−1] on 32-bit words. The shift amount is 32 and the range [−2^31, 2^31−1] on 64-bit words. |
| ChangeLowering.SmiTagFits | test/compiler-unittests/change-lowering-unittest.cc:56-60 | A value is a Smi exactly when its shifted word fits a signed machine word. |
| ChangeLowering.SmiUntag | test/compiler-unittests/change-lowering-unittest.cc:56-60 | A Smi's tagged word has tag bit 0, and an arithmetic right shift by the shift amount gives the value back. |
| ChangeLowering.HeapNumberOffsetNative | test/compiler-unittests/change-lowering-unittest.cc:38-42 | When the runtime's pointers have this word's size, the offset plus the heap-object tag is the value field's offset. |
| ChangeLowering.HeapNumberOffsetScales | test/compiler-unittests/change-lowering-unittest.cc:38-42 | The untagged offset on 64-bit words is twice the one on 32-bit words. |
| ChangeLowering.Reduce | test/compiler-unittests/change-lowering-unittest.cc:188-193 | StringAdd is left unchanged and every Change operator is replaced. |
| ChangeLowering.Tagged | test/compiler-unittests/change-lowering-unittest.cc:56-60 | The reference tagged form of v stands for v. It is a Smi exactly when v is in the Smi range, otherwise a heap number. |
| ChangeLowering.BitToBoolMeaning | test/compiler-unittests/change-lowering-unittest.cc:143-156 | The phi over the branch on the bit yields the true object exactly for a nonzero bit. |
| ChangeLowering.BoolToBitMeaning | test/compiler-unittests/change-lowering-unittest.cc:159-166 | Comparing with the true object gives 1 for true and 0 for false. |
| ChangeLowering.BitRoundTrip | test/compiler-unittests/change-lowering-unittest.cc:143-166 | A bit turned into a boolean and back is the same bit. |
| ChangeLowering.Float64ToTaggedMeaning | test/compiler-unittests/change-lowering-unittest.cc:169-185 | A double always becomes a freshly allocated heap number holding it. |
| ChangeLowering.LoweringAccessesValueField | test/compiler-unittests/change-lowering-unittest.cc:169-185 | In every lowering, every store is a float64 store with no write barrier at HeapNumberValueOffset, and every load is a float64 load at that offset. |
| ChangeLowering.Int32ToTaggedMeaning | test/compiler-unittests/change-lowering-unittest.cc:213-236 | A 32-bit integer becomes its tagged form on both word widths. |
| ChangeLowering.Int32ToTagged32 | test/compiler-unittests/change-lowering-unittest.cc:213-236 | On 32-bit words the overflow arm of the self-addition allocates a heap number, and the other arm is the Smi. The doubling overflows exactly outside the Smi range. |
| ChangeLowering.Int32ToTagged64 | test/compiler-unittests/change-lowering-unittest.cc:361-370 | On 64-bit words the widening shift is the Smi of every 32-bit integer, with no branch. |
| ChangeLowering.Uint32ToTaggedMeaning | test/compiler-unittests/change-lowering-unittest.cc:317-345 | An unsigned 32-bit integer becomes its tagged form on both word widths. |
| ChangeLowering.Uint32ToSmi | test/compiler-unittests/change-lowering-unittest.cc:317-345 | At most SmiMaxValue, the comparison's true arm is taken and yields the Smi. |
| ChangeLowering.Uint32ToHeapNumber | test/compiler-unittests/change-lowering-unittest.cc:453-482 | Above SmiMaxValue, the false arm is taken and allocates a heap number holding the value. |
| ChangeLowering.SmiFromWord | test/compiler-unittests/change-lowering-unittest.cc:453-482 | The true arm's shift (widened first on 64-bit words) is the tagged word of a Smi-range value. |
| ChangeLowering.EvalTestNotSmiOnSmi | test/compiler-unittests/change-lowering-unittest.cc:267-289 | The tag test `val & kSmiTagMask` is 0 on a Smi's word. |
| ChangeLowering.EvalTestNotSmiOnHeap | test/compiler-unittests/change-lowering-unittest.cc:267-289 | The tag test is 1 on a heap number. |
| ChangeLowering.EvalChangeSmiToInt32 | test/compiler-unittests/change-lowering-unittest.cc:401-424 | The Smi arm's shift, with truncation on 64-bit words, recovers v from its tagged word for every v in the Smi range. |
| ChangeLowering.TaggedToInt32IsTaggedToUint32 | test/compiler-unittests/change-lowering-unittest.cc:267-314 | The signed and unsigned truncations of a tagged number are the same fragment. |
| ChangeLowering.TaggedToInt32Meaning | test/compiler-unittests/change-lowering-unittest.cc:267-289 | A tagged number becomes the low 32 bits of the number it stands for, as a signed word. |
| ChangeLowering.TaggedToUint32Meaning | test/compiler-unittests/change-lowering-unittest.cc:292-314 | The same result for the unsigned truncation. |
| ChangeLowering.TaggedToWord32Meaning | test/compiler-unittests/change-lowering-unittest.cc:401-450 | A Smi takes the false arm (its value), and a heap number takes the true arm (its float64 loaded and truncated). |
| ChangeLowering.TaggedToFloat64Meaning | test/compiler-unittests/change-lowering-unittest.cc:239-264 | A tagged number becomes its value as a double: the Smi's value converted, or the loaded heap number value. |
| ChangeLowering.SmiToFloat64 | test/compiler-unittests/change-lowering-unittest.cc:373-398 | On a Smi's word the Smi arm converts its value. |
| ChangeLowering.HeapNumberToFloat64 | test/compiler-unittests/change-lowering-unittest.cc:373-398 | On a heap number the other arm loads its value. |
| ChangeLowering.Int32RoundTrip | test/compiler-unittests/change-lowering-unittest.cc:213-289 | Tagging a 32-bit integer and converting back gives the integer, on both word widths. |
| ChangeLowering.Uint32RoundTrip | test/compiler-unittests/change-lowering-unittest.cc:292-345 | Tagging an unsigned 32-bit integer and converting back gives a word with the same 32 bits. |
| ChangeLowering.Float64RoundTrip | test/compiler-unittests/change-lowering-unittest.cc:169-264 | Boxing a double and converting the box back gives the double. |

## Left out

- The test framework is not modelled: parameterised tests, traced loops over tables and ranges, test instantiation, and the printers. Each loop becomes a quantified lemma.
- The graph matchers (`IsPhi`, `IsBranch`, captures) are not modelled. `Lower` builds each fragment with the node shapes the matchers require; a node used twice appears twice as the same value. The lemmas about `Eval` state what those shapes compute instead of re-matching them.
- `StreamBuilder`, `RawMachineAssembler`, the call descriptors and zone allocation are left out. They build graphs over code that is not part of this model. `StreamBuilder::Build` (instruction-selector-unittest.cc) is not modelled either; `InstructionStream.Build` stands for its filling of the stream and takes the selected instructions as input, with the instruction sequence's double and reference registers.
- InstructionStream.Build: models the default `kTargetInstructions` mode only, so the stream holds target instructions and no architecture-generic return or jump. `kAllInstructions` is not modelled. The CPU features are passed to `ArmSelector.Select` rather than to `Build`.
- The bodies of the ARM selector and of the change lowering are not part of this model. The rules are stated as the tests pin them down. Graph shapes the tests do not exercise (a constant used as a register, nested operands outside the fused patterns) select to None.
- ArmSelector.CanEncodeImmediate is a concrete predicate, ARM's modified immediate constant (section A5.2.4 of the ARM Architecture Reference Manual, ARMv7-A and ARMv7-R edition). V8's ARM selector's immediate-encodability test is not modelled.
- The selector's input is a tree (`ArmSelector.Expr`), so every node has exactly one consumer and a shared node cannot be written. The single-use condition of the MLA, MLS, BIC and UBFX fusions (the multiply, negation, AND or shift has no other consumer) is therefore not modelled. A node used twice can only be written as two equal subtrees; the model does not say what V8 selects for such a graph.
- InstructionStream.Stream.StoreOperands: gives every immediate a fresh index of the immediates table, one per occurrence; reuse of one entry by repeated references to the same immediate is not modelled.
- `InstructionStream.Constant` has only a 32-bit integer case. V8's other constant kinds (int64, float64, external references, heap objects) are not modelled, and neither is the check of the kind inside `Constant::ToInt32`.
- InstructionStream.Build: fills only the instructions, the immediates and the double and reference sets. Its constants table stays empty, because a selected operand has no constant kind and so no output names a constant; `AddConstant` models the insertion of a constant but nothing in the model calls it.
- Zero is compared against by TST rather than folded as an immediate, so EqualWithOperand excludes the constant 0.
- The random junk bits below the field in the shift-of-AND test are modelled as any value below 2^lsb.
- Floating-point semantics are not modelled (vcvt, vdiv, float64 loads, TruncateFloat64ToInt32). The model takes doubles to be integral values, so a float64 is its integer. Truncation to 32 bits wraps it modulo 2^32, and NaN, infinities and fractions are not modelled.
- The runtime call that allocates a heap number (`CEntryStub` and `Runtime::kAllocateHeapNumber`) is one `AllocateHeapNumber` node. Its effect input is the stored value.
- `HeapNumber::kValueOffset` and `kApiPointerSize` are the fields of a `HeapLayout` parameter. `kHeapObjectTag` is 1 and `kSmiTagMask` is 1, V8's values.
- Virtual registers are a datatype: parameters and numbered temporaries. The model does not use integers the stream builder would allocate.
- The stream's `operator[]` is `At`, whose precondition replaces the test's `EXPECT_LT(index, size())`. `size`, `IsDouble` and `IsReference` are plain reads of the fields.
- Instructions are stored in a sequence, not a double-ended queue of pointers. No instruction is shared between streams.
- The ARMv7/SUDIV/MLS features are a record of three booleans, not a CPU probe.
