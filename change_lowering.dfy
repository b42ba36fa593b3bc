// Lowering of the simplified representation-change operators to machine
// operators, for a word width of 32 or 64 bits.  Small integers ("Smis") are
// tagged by a left shift that leaves the low tag bit 0; every other number
// lives in a heap number, a heap object whose pointer has the low tag bit 1.
// Each Change* operator is replaced by a fragment of machine nodes, here a
// value of the Node datatype; Eval gives such a fragment its meaning for one
// value of its input, so that the lowerings can be checked against the
// tagging arithmetic and against each other.

module ChangeLowering {

  import opened Wrappers
  import opened Bits

  // ---------------------------------------------------------------------
  // Word widths and Smi tagging.

  /** Machine representations; the lowering is built for one of the word representations. */
  datatype MachineRep =
    | RepBit | RepWord8 | RepWord16 | RepWord32 | RepWord64 | RepFloat32 | RepFloat64 | RepTagged

  predicate IsWordRep(rep: MachineRep)
  {
    rep == RepWord32 || rep == RepWord64
  }

  predicate Is32(rep: MachineRep)
  {
    rep == RepWord32
  }

  const kSmiTag: int := 0
  const kSmiTagSize: nat := 1
  const kSmiTagMask: int := 1
  const kHeapObjectTag: int := 1

  /** The number of bits of a machine word. */
  function WordBits(rep: MachineRep): nat
    requires IsWordRep(rep)
  {
    if Is32(rep) then 32 else 64
  }

  /** The size of a pointer in bytes; only the word representations have one. */
  function PointerSize(rep: MachineRep): (r: nat)
    requires IsWordRep(rep)
    ensures 8 * r == WordBits(rep)
  {
    match rep
    case RepWord32 => 4
    case RepWord64 => 8
  }

  function SmiShiftSize(rep: MachineRep): nat
  {
    if Is32(rep) then 0 else 31
  }

  function SmiValueSize(rep: MachineRep): nat
  {
    if Is32(rep) then 31 else 32
  }

  /** How far a Smi's value is shifted left in its tagged word. */
  function SmiShiftAmount(rep: MachineRep): nat
  {
    kSmiTagSize + SmiShiftSize(rep)
  }

  /** 0xffffffff shifted left by SmiValueSize - 1 as an unsigned 32-bit word, read as a signed one. */
  function SmiMinValue(rep: MachineRep): int
  {
    S32(0xffff_ffff * Pow2(SmiValueSize(rep) - 1))
  }

  function SmiMaxValue(rep: MachineRep): int
  {
    -(SmiMinValue(rep) + 1)
  }

  /** The values a Smi can hold at this word width. */
  predicate IsSmi(rep: MachineRep, v: int)
  {
    SmiMinValue(rep) <= v <= SmiMaxValue(rep)
  }

  /** 2 to the power of the shift amount, the factor tagging multiplies a Smi by. */
  function SmiScale(rep: MachineRep): nat
  {
    if Is32(rep) then 2 else 0x1_0000_0000
  }

  /** The tagged word of the Smi v: v shifted left by the shift amount, tag bit 0. */
  function SmiTag(rep: MachineRep, v: int): int
  {
    v * SmiScale(rep)
  }

  const Word64: int := 0x1_0000_0000_0000_0000

  predicate IsInt64(x: int)
  {
    -0x8000_0000_0000_0000 <= x < 0x8000_0000_0000_0000
  }

  /** The unsigned 64-bit word holding the two's-complement bits of `x`. */
  function U64(x: int): (r: int)
    ensures 0 <= r < Word64
    ensures (x - r) % Word64 == 0
  {
    x % Word64
  }

  /** The signed reading of the low 64 bits of `x`. */
  function S64(x: int): (r: int)
    ensures IsInt64(r)
    ensures U64(r) == U64(x)
  {
    var u := x % Word64;
    if u < 0x8000_0000_0000_0000 then u else u - Word64
  }

  /** A signed machine word of the given representation. */
  predicate IsSignedWord(rep: MachineRep, x: int)
    requires IsWordRep(rep)
  {
    if Is32(rep) then IsInt32(x) else IsInt64(x)
  }

  /**
   * The Smi range is [-2^30, 2^30 - 1] with a shift of 1 on 32-bit words and
   * [-2^31, 2^31 - 1] with a shift of 32 on 64-bit words.
   */
  lemma SmiRange(rep: MachineRep)
    requires IsWordRep(rep)
    ensures SmiMinValue(rep) + Pow2(SmiValueSize(rep) - 1) == 0
    ensures SmiMaxValue(rep) == Pow2(SmiValueSize(rep) - 1) - 1
    ensures Is32(rep) ==> SmiShiftAmount(rep) == 1 && SmiMinValue(rep) == -0x4000_0000 && SmiMaxValue(rep) == 0x3fff_ffff
    ensures !Is32(rep) ==> SmiShiftAmount(rep) == 32 && SmiMinValue(rep) == -0x8000_0000 && SmiMaxValue(rep) == 0x7fff_ffff
    ensures Pow2(SmiShiftAmount(rep)) == SmiScale(rep)
  {
    Pow2Word();
    if Is32(rep) {
      assert 0xffff_ffff * Pow2(30) == 0x3fff_ffff_c000_0000;
    } else {
      assert 0xffff_ffff * Pow2(31) == 0x7fff_ffff_8000_0000;
    }
  }

  /** A value is a Smi exactly when its tagged word fits a signed machine word: the range is as large as tagging allows. */
  lemma SmiTagFits(rep: MachineRep, v: int)
    requires IsWordRep(rep)
    ensures IsSmi(rep, v) <==> IsSignedWord(rep, SmiTag(rep, v))
  {
    SmiRange(rep);
  }

  /** The tag bit of a tagged Smi is clear, and an arithmetic right shift by the shift amount gives the value back. */
  lemma SmiUntag(rep: MachineRep, v: int)
    requires IsWordRep(rep) && IsSmi(rep, v)
    ensures SmiTag(rep, v) % 2 == kSmiTag
    ensures (if Is32(rep) then S32(SmiTag(rep, v)) else S64(SmiTag(rep, v))) / SmiScale(rep) == v
  {
    SmiRange(rep);
    SmiTagFits(rep, v);
    var d := SmiScale(rep);
    var t := SmiTag(rep, v);
    DivModUnique(t, d, v, 0);
    DivModUnique(t, 2, v * (d / 2), 0);
    if Is32(rep) {
      SignedWordIdentity32(t);
    } else {
      SignedWordIdentity64(t);
    }
  }

  lemma SignedWordIdentity32(x: int)
    requires IsInt32(x)
    ensures S32(x) == x
  {
  }

  lemma UnsignedOfSigned(x: int)
    requires IsWord(x)
    ensures U32(S32(x)) == x
  {
  }

  lemma SignedWordIdentity64(x: int)
    requires IsInt64(x)
    ensures S64(x) == x
  {
  }

  // ---------------------------------------------------------------------
  // The offset of a heap number's value, relative to its tagged pointer.

  /** The size of a heap number's header and the pointer size the runtime's object layout is stated in. */
  datatype HeapLayout = HeapLayout(valueOffset: int, apiPointerSize: int)

  /** The value offset is a whole number of runtime pointers. */
  predicate ValidLayout(l: HeapLayout)
  {
    l.apiPointerSize > 0 && l.valueOffset >= 0 && l.valueOffset % l.apiPointerSize == 0
  }

  /** The value offset, rescaled to pointers of this word width, minus the heap-object tag of the pointer. */
  function HeapNumberValueOffset(rep: MachineRep, l: HeapLayout): int
    requires IsWordRep(rep) && ValidLayout(l)
  {
    (l.valueOffset / l.apiPointerSize) * PointerSize(rep) - kHeapObjectTag
  }

  /** When the runtime's pointers are this word width's, the offset is the value's field offset, untagged. */
  lemma HeapNumberOffsetNative(rep: MachineRep, l: HeapLayout)
    requires IsWordRep(rep) && ValidLayout(l) && l.apiPointerSize == PointerSize(rep)
    ensures HeapNumberValueOffset(rep, l) + kHeapObjectTag == l.valueOffset
  {
    var p := l.apiPointerSize;
    assert l.valueOffset == (l.valueOffset / p) * p + l.valueOffset % p;
  }

  /** The field offset on 64-bit words is twice the one on 32-bit words. */
  lemma HeapNumberOffsetScales(l: HeapLayout)
    requires ValidLayout(l)
    ensures HeapNumberValueOffset(RepWord64, l) + kHeapObjectTag == 2 * (HeapNumberValueOffset(RepWord32, l) + kHeapObjectTag)
  {
    var slots := l.valueOffset / l.apiPointerSize;
    assert HeapNumberValueOffset(RepWord64, l) == slots * 8 - kHeapObjectTag;
    assert HeapNumberValueOffset(RepWord32, l) == slots * 4 - kHeapObjectTag;
  }

  // ---------------------------------------------------------------------
  // Machine graph fragments.

  datatype MachineType = MachFloat64

  datatype WriteBarrierKind = NoWriteBarrier | FullWriteBarrier

  datatype UnaryOp =
    | ChangeInt32ToFloat64 | ChangeUint32ToFloat64
    | ChangeInt32ToInt64 | ChangeUint32ToUint64
    | TruncateFloat64ToInt32 | TruncateInt64ToInt32

  datatype BinaryOp =
    | Word32And | Word64And
    | Word32Sar | Word64Sar
    | Word32Shl | Word64Shl
    | Word32Equal | Word64Equal
    | Uint32LessThanOrEqual
    | Int32AddWithOverflow

  /**
   * A node of the machine graph with its inputs.  A node used twice (a
   * branch, a heap number) appears twice as the same value.  Allocation
   * stands for the runtime call that allocates a heap number.
   */
  datatype Node =
    | Start
    | Parameter(index: int)
    | Int32Constant(value: int)
    | TrueConstant
    | FalseConstant
    | Unary(uop: UnaryOp, input: Node)
    | Binary(bop: BinaryOp, left: Node, right: Node)
    | Projection(projection: nat, tuple: Node)
    | Branch(condition: Node, control: Node)
    | IfTrue(ofBranch: Node)
    | IfFalse(ofBranch: Node)
    | Merge(first: Node, second: Node)
    | Phi(whenFirst: Node, whenSecond: Node, merge: Node)
    | ValueEffect(effectValue: Node)
    | ControlEffect(effectControl: Node)
    | AllocateHeapNumber(effect: Node, control: Node)
    | Load(loadType: MachineType, base: Node, offset: Node, loadEffect: Node)
    | Store(storeType: MachineType, barrier: WriteBarrierKind, storeBase: Node, at: Node, stored: Node,
            storeEffect: Node, storeControl: Node)
    | Finish(finished: Node, finishEffect: Node)

  function WordEqual(rep: MachineRep, a: Node, b: Node): Node
  {
    Binary(if Is32(rep) then Word32Equal else Word64Equal, a, b)
  }

  function WordAnd(rep: MachineRep, a: Node, b: Node): Node
  {
    Binary(if Is32(rep) then Word32And else Word64And, a, b)
  }

  function WordSar(rep: MachineRep, a: Node, b: Node): Node
  {
    Binary(if Is32(rep) then Word32Sar else Word64Sar, a, b)
  }

  function SmiShiftConstant(rep: MachineRep): Node
  {
    Int32Constant(SmiShiftAmount(rep))
  }

  /** A fresh heap number holding `value`, allocated and initialised under `control`. */
  function AllocateHeapNumberWithValue(rep: MachineRep, l: HeapLayout, value: Node, control: Node): Node
    requires IsWordRep(rep) && ValidLayout(l)
  {
    var heapNumber := AllocateHeapNumber(ValueEffect(value), control);
    var store := Store(MachFloat64, NoWriteBarrier, heapNumber, Int32Constant(HeapNumberValueOffset(rep, l)),
                       value, heapNumber, control);
    Finish(heapNumber, store)
  }

  /** The value of the heap number `value` points to, read under `control`. */
  function LoadHeapNumberValue(rep: MachineRep, l: HeapLayout, value: Node, control: Node): Node
    requires IsWordRep(rep) && ValidLayout(l)
  {
    Load(MachFloat64, value, Int32Constant(HeapNumberValueOffset(rep, l)), ControlEffect(control))
  }

  /** The 32-bit value of the Smi `value`. */
  function ChangeSmiToInt32(rep: MachineRep, value: Node): Node
  {
    if Is32(rep) then WordSar(rep, value, SmiShiftConstant(rep))
    else Unary(TruncateInt64ToInt32, WordSar(rep, value, SmiShiftConstant(rep)))
  }

  /** Nonzero exactly when `value` is not a Smi. */
  function TestNotSmi(rep: MachineRep, value: Node): Node
  {
    WordAnd(rep, value, Int32Constant(kSmiTagMask))
  }

  /** The Smi of the unsigned 32-bit `value`, which is known to be in the Smi range. */
  function WordToSmi(rep: MachineRep, value: Node): Node
  {
    if Is32(rep) then Binary(Word32Shl, value, SmiShiftConstant(rep))
    else Binary(Word64Shl, Unary(ChangeUint32ToUint64, value), SmiShiftConstant(rep))
  }

  /** A two-way choice on `condition` at the start of the graph: `whenTrue` on its true arm. */
  function Diamond(whenTrue: Node, whenFalse: Node, branch: Node): Node
  {
    Phi(whenTrue, whenFalse, Merge(IfTrue(branch), IfFalse(branch)))
  }

  // ---------------------------------------------------------------------
  // The lowering.

  datatype ChangeOp =
    | ChangeBitToBool | ChangeBoolToBit
    | ChangeFloat64ToTagged | ChangeInt32ToTagged | ChangeUint32ToTagged
    | ChangeTaggedToFloat64 | ChangeTaggedToInt32 | ChangeTaggedToUint32

  /** The simplified nodes the lowering is asked about. */
  datatype SimplifiedNode =
    | Change(op: ChangeOp, value: Node)
    | StringAdd(left: Node, right: Node)

  datatype Reduction = NoChange | Replace(replacement: Node)

  function Reduce(n: SimplifiedNode, rep: MachineRep, l: HeapLayout): (r: Reduction)
    requires IsWordRep(rep) && ValidLayout(l)
    ensures r.NoChange? <==> n.StringAdd?
  {
    match n
    case StringAdd(_, _) => NoChange
    case Change(op, val) => Replace(Lower(op, val, rep, l))
  }

  function Lower(op: ChangeOp, val: Node, rep: MachineRep, l: HeapLayout): Node
    requires IsWordRep(rep) && ValidLayout(l)
  {
    match op
    case ChangeBitToBool =>
      Diamond(TrueConstant, FalseConstant, Branch(val, Start))
    case ChangeBoolToBit =>
      WordEqual(rep, val, TrueConstant)
    case ChangeFloat64ToTagged =>
      AllocateHeapNumberWithValue(rep, l, val, Start)
    case ChangeInt32ToTagged =>
      if Is32(rep) then
        var add := Binary(Int32AddWithOverflow, val, val);
        var branch := Branch(Projection(1, add), Start);
        var heapNumber := AllocateHeapNumberWithValue(rep, l, Unary(ChangeInt32ToFloat64, val), IfTrue(branch));
        Diamond(heapNumber, Projection(0, add), branch)
      else
        Binary(Word64Shl, Unary(ChangeInt32ToInt64, val), SmiShiftConstant(rep))
    case ChangeUint32ToTagged =>
      var branch := Branch(Binary(Uint32LessThanOrEqual, val, Int32Constant(SmiMaxValue(rep))), Start);
      var heapNumber := AllocateHeapNumberWithValue(rep, l, Unary(ChangeUint32ToFloat64, val), IfFalse(branch));
      Diamond(WordToSmi(rep, val), heapNumber, branch)
    case ChangeTaggedToFloat64 =>
      var branch := Branch(TestNotSmi(rep, val), Start);
      var load := LoadHeapNumberValue(rep, l, val, IfTrue(branch));
      Diamond(load, Unary(ChangeInt32ToFloat64, ChangeSmiToInt32(rep, val)), branch)
    case ChangeTaggedToInt32 =>
      TaggedToWord32(rep, l, val)
    case ChangeTaggedToUint32 =>
      TaggedToWord32(rep, l, val)
  }

  /** The 32 bits of a tagged number: the truncated heap number, or the Smi's value. */
  function TaggedToWord32(rep: MachineRep, l: HeapLayout, val: Node): Node
    requires IsWordRep(rep) && ValidLayout(l)
  {
    var branch := Branch(TestNotSmi(rep, val), Start);
    var load := LoadHeapNumberValue(rep, l, val, IfTrue(branch));
    Diamond(Unary(TruncateFloat64ToInt32, load), ChangeSmiToInt32(rep, val), branch)
  }

  // ---------------------------------------------------------------------
  // The heap accesses of a fragment.

  /**
   * Every load and store in `n` accesses a float64 at the constant offset
   * `offset`, and every store goes without a write barrier.
   */
  predicate AccessesValueField(n: Node, offset: int)
    decreases n
  {
    match n
    case Unary(_, a) => AccessesValueField(a, offset)
    case Binary(_, a, b) => AccessesValueField(a, offset) && AccessesValueField(b, offset)
    case Projection(_, a) => AccessesValueField(a, offset)
    case Branch(c, k) => AccessesValueField(c, offset) && AccessesValueField(k, offset)
    case IfTrue(b) => AccessesValueField(b, offset)
    case IfFalse(b) => AccessesValueField(b, offset)
    case Merge(a, b) => AccessesValueField(a, offset) && AccessesValueField(b, offset)
    case Phi(a, b, m) => AccessesValueField(a, offset) && AccessesValueField(b, offset) && AccessesValueField(m, offset)
    case ValueEffect(a) => AccessesValueField(a, offset)
    case ControlEffect(a) => AccessesValueField(a, offset)
    case AllocateHeapNumber(e, k) => AccessesValueField(e, offset) && AccessesValueField(k, offset)
    case Load(t, base, at, e) =>
      t == MachFloat64 && at == Int32Constant(offset)
      && AccessesValueField(base, offset) && AccessesValueField(e, offset)
    case Store(t, barrier, base, at, stored, e, k) =>
      t == MachFloat64 && barrier == NoWriteBarrier && at == Int32Constant(offset)
      && AccessesValueField(base, offset) && AccessesValueField(stored, offset)
      && AccessesValueField(e, offset) && AccessesValueField(k, offset)
    case Finish(a, e) => AccessesValueField(a, offset) && AccessesValueField(e, offset)
    case _ => true
  }

  lemma UnaryAccesses(uop: UnaryOp, a: Node, offset: int)
    requires AccessesValueField(a, offset)
    ensures AccessesValueField(Unary(uop, a), offset)
  {
  }

  lemma BinaryAccesses(bop: BinaryOp, a: Node, b: Node, offset: int)
    requires AccessesValueField(a, offset) && AccessesValueField(b, offset)
    ensures AccessesValueField(Binary(bop, a, b), offset)
  {
  }

  lemma BranchAccesses(condition: Node, offset: int)
    requires AccessesValueField(condition, offset)
    ensures AccessesValueField(Branch(condition, Start), offset)
    ensures AccessesValueField(IfTrue(Branch(condition, Start)), offset)
    ensures AccessesValueField(IfFalse(Branch(condition, Start)), offset)
  {
  }

  lemma AllocateAccesses(rep: MachineRep, l: HeapLayout, value: Node, control: Node)
    requires IsWordRep(rep) && ValidLayout(l)
    requires AccessesValueField(value, HeapNumberValueOffset(rep, l)) && AccessesValueField(control, HeapNumberValueOffset(rep, l))
    ensures AccessesValueField(AllocateHeapNumberWithValue(rep, l, value, control), HeapNumberValueOffset(rep, l))
  {
    var offset := HeapNumberValueOffset(rep, l);
    assert AccessesValueField(AllocateHeapNumber(ValueEffect(value), control), offset);
  }

  lemma LoadAccesses(rep: MachineRep, l: HeapLayout, value: Node, control: Node)
    requires IsWordRep(rep) && ValidLayout(l)
    requires AccessesValueField(value, HeapNumberValueOffset(rep, l)) && AccessesValueField(control, HeapNumberValueOffset(rep, l))
    ensures AccessesValueField(LoadHeapNumberValue(rep, l, value, control), HeapNumberValueOffset(rep, l))
  {
  }

  lemma DiamondAccesses(whenTrue: Node, whenFalse: Node, branch: Node, offset: int)
    requires AccessesValueField(whenTrue, offset) && AccessesValueField(whenFalse, offset) && AccessesValueField(branch, offset)
    ensures AccessesValueField(Diamond(whenTrue, whenFalse, branch), offset)
  {
    assert AccessesValueField(IfTrue(branch), offset) && AccessesValueField(IfFalse(branch), offset);
    assert AccessesValueField(Merge(IfTrue(branch), IfFalse(branch)), offset);
  }

  lemma SmiAccesses(rep: MachineRep, value: Node, offset: int)
    requires AccessesValueField(value, offset)
    ensures AccessesValueField(TestNotSmi(rep, value), offset)
    ensures AccessesValueField(ChangeSmiToInt32(rep, value), offset)
    ensures AccessesValueField(WordToSmi(rep, value), offset)
  {
    assert AccessesValueField(WordSar(rep, value, SmiShiftConstant(rep)), offset);
    assert AccessesValueField(Unary(ChangeUint32ToUint64, value), offset);
  }

  /**
   * Every heap access of a lowering reads or initialises the float64 value
   * of a heap number at HeapNumberValueOffset, and no store has a write barrier.
   */
  lemma LoweringAccessesValueField(op: ChangeOp, val: Node, rep: MachineRep, l: HeapLayout)
    requires IsWordRep(rep) && ValidLayout(l) && AccessesValueField(val, HeapNumberValueOffset(rep, l))
    ensures AccessesValueField(Lower(op, val, rep, l), HeapNumberValueOffset(rep, l))
  {
    var offset := HeapNumberValueOffset(rep, l);
    match op
    case ChangeBitToBool =>
      BranchAccesses(val, offset);
      DiamondAccesses(TrueConstant, FalseConstant, Branch(val, Start), offset);
    case ChangeBoolToBit =>
    case ChangeFloat64ToTagged =>
      AllocateAccesses(rep, l, val, Start);
    case ChangeInt32ToTagged =>
      Int32ToTaggedAccesses(rep, l, val);
    case ChangeUint32ToTagged =>
      Uint32ToTaggedAccesses(rep, l, val);
    case ChangeTaggedToFloat64 =>
      TaggedToFloat64Accesses(rep, l, val);
    case ChangeTaggedToInt32 =>
      TaggedToWord32Accesses(rep, l, val);
    case ChangeTaggedToUint32 =>
      TaggedToWord32Accesses(rep, l, val);
  }

  lemma Int32ToTaggedAccesses(rep: MachineRep, l: HeapLayout, val: Node)
    requires IsWordRep(rep) && ValidLayout(l) && AccessesValueField(val, HeapNumberValueOffset(rep, l))
    ensures AccessesValueField(Lower(ChangeInt32ToTagged, val, rep, l), HeapNumberValueOffset(rep, l))
  {
    var offset := HeapNumberValueOffset(rep, l);
    if Is32(rep) {
      Int32ToTaggedAccesses32(rep, l, val);
    } else {
      UnaryAccesses(ChangeInt32ToInt64, val, offset);
      BinaryAccesses(Word64Shl, Unary(ChangeInt32ToInt64, val), SmiShiftConstant(rep), offset);
    }
  }

  lemma Int32ToTaggedAccesses32(rep: MachineRep, l: HeapLayout, val: Node)
    requires IsWordRep(rep) && ValidLayout(l) && AccessesValueField(val, HeapNumberValueOffset(rep, l))
    ensures AccessesValueField(
              Diamond(AllocateHeapNumberWithValue(rep, l, Unary(ChangeInt32ToFloat64, val),
                                                  IfTrue(Branch(Projection(1, Binary(Int32AddWithOverflow, val, val)), Start))),
                      Projection(0, Binary(Int32AddWithOverflow, val, val)),
                      Branch(Projection(1, Binary(Int32AddWithOverflow, val, val)), Start)),
              HeapNumberValueOffset(rep, l))
  {
    var offset := HeapNumberValueOffset(rep, l);
    var add := Binary(Int32AddWithOverflow, val, val);
    var branch := Branch(Projection(1, add), Start);
    var asFloat := Unary(ChangeInt32ToFloat64, val);
    BinaryAccesses(Int32AddWithOverflow, val, val, offset);
    BranchAccesses(Projection(1, add), offset);
    UnaryAccesses(ChangeInt32ToFloat64, val, offset);
    AllocateAccesses(rep, l, asFloat, IfTrue(branch));
    var heapNumber := AllocateHeapNumberWithValue(rep, l, asFloat, IfTrue(branch));
    DiamondAccesses(heapNumber, Projection(0, add), branch, offset);
  }

  lemma Uint32ToTaggedAccesses(rep: MachineRep, l: HeapLayout, val: Node)
    requires IsWordRep(rep) && ValidLayout(l) && AccessesValueField(val, HeapNumberValueOffset(rep, l))
    ensures AccessesValueField(
              Diamond(WordToSmi(rep, val),
                      AllocateHeapNumberWithValue(rep, l, Unary(ChangeUint32ToFloat64, val),
                                                  IfFalse(Branch(Binary(Uint32LessThanOrEqual, val, Int32Constant(SmiMaxValue(rep))), Start))),
                      Branch(Binary(Uint32LessThanOrEqual, val, Int32Constant(SmiMaxValue(rep))), Start)),
              HeapNumberValueOffset(rep, l))
  {
    var offset := HeapNumberValueOffset(rep, l);
    var condition := Binary(Uint32LessThanOrEqual, val, Int32Constant(SmiMaxValue(rep)));
    var branch := Branch(condition, Start);
    var asFloat := Unary(ChangeUint32ToFloat64, val);
    BinaryAccesses(Uint32LessThanOrEqual, val, Int32Constant(SmiMaxValue(rep)), offset);
    BranchAccesses(condition, offset);
    UnaryAccesses(ChangeUint32ToFloat64, val, offset);
    SmiAccesses(rep, val, offset);
    AllocateAccesses(rep, l, asFloat, IfFalse(branch));
    var heapNumber := AllocateHeapNumberWithValue(rep, l, asFloat, IfFalse(branch));
    DiamondAccesses(WordToSmi(rep, val), heapNumber, branch, offset);
  }

  lemma TaggedToFloat64Accesses(rep: MachineRep, l: HeapLayout, val: Node)
    requires IsWordRep(rep) && ValidLayout(l) && AccessesValueField(val, HeapNumberValueOffset(rep, l))
    ensures AccessesValueField(
              Diamond(LoadHeapNumberValue(rep, l, val, IfTrue(Branch(TestNotSmi(rep, val), Start))),
                      Unary(ChangeInt32ToFloat64, ChangeSmiToInt32(rep, val)),
                      Branch(TestNotSmi(rep, val), Start)),
              HeapNumberValueOffset(rep, l))
  {
    var offset := HeapNumberValueOffset(rep, l);
    SmiAccesses(rep, val, offset);
    var branch := Branch(TestNotSmi(rep, val), Start);
    BranchAccesses(TestNotSmi(rep, val), offset);
    LoadAccesses(rep, l, val, IfTrue(branch));
    UnaryAccesses(ChangeInt32ToFloat64, ChangeSmiToInt32(rep, val), offset);
    var load := LoadHeapNumberValue(rep, l, val, IfTrue(branch));
    DiamondAccesses(load, Unary(ChangeInt32ToFloat64, ChangeSmiToInt32(rep, val)), branch, offset);
  }

  lemma TaggedToWord32Accesses(rep: MachineRep, l: HeapLayout, val: Node)
    requires IsWordRep(rep) && ValidLayout(l) && AccessesValueField(val, HeapNumberValueOffset(rep, l))
    ensures AccessesValueField(TaggedToWord32(rep, l, val), HeapNumberValueOffset(rep, l))
  {
    var offset := HeapNumberValueOffset(rep, l);
    SmiAccesses(rep, val, offset);
    var branch := Branch(TestNotSmi(rep, val), Start);
    BranchAccesses(TestNotSmi(rep, val), offset);
    LoadAccesses(rep, l, val, IfTrue(branch));
    var load := LoadHeapNumberValue(rep, l, val, IfTrue(branch));
    UnaryAccesses(TruncateFloat64ToInt32, load, offset);
    DiamondAccesses(Unary(TruncateFloat64ToInt32, load), ChangeSmiToInt32(rep, val), branch, offset);
  }

  /** The signed and the unsigned truncation of a tagged number are the same fragment. */
  lemma TaggedToInt32IsTaggedToUint32(val: Node, rep: MachineRep, l: HeapLayout)
    requires IsWordRep(rep) && ValidLayout(l)
    ensures Lower(ChangeTaggedToInt32, val, rep, l) == Lower(ChangeTaggedToUint32, val, rep, l)
  {
  }

  // ---------------------------------------------------------------------
  // What a fragment computes.

  /**
   * Values of the machine graph.  Doubles occur only with integral values
   * here, so a float64 is its integer; a heap number is a tagged pointer to
   * such a number; the booleans are the true and false heap objects.
   */
  datatype Value =
    | Int(bits: int)
    | Boolean(truth: bool)
    | HeapNumber(number: int)
    | Pair(first: int, second: int)
    | Control

  predicate IsHeapObject(v: Value)
  {
    v.Boolean? || v.HeapNumber?
  }

  /** Conversions; truncating an integral double to 32 bits wraps it modulo 2^32. */
  function EvalUnary(op: UnaryOp, w: int): int
  {
    match op
    case ChangeInt32ToFloat64 => S32(w)
    case ChangeUint32ToFloat64 => U32(w)
    case ChangeInt32ToInt64 => S32(w)
    case ChangeUint32ToUint64 => U32(w)
    case TruncateFloat64ToInt32 => S32(w)
    case TruncateInt64ToInt32 => S32(w)
  }

  /**
   * Machine operators on words; shifts use the low bits of their count and
   * right shifts are arithmetic.  Of a heap object's pointer only the tag
   * bit is known, so the only AND defined on it is with the tag mask.
   */
  function EvalBinary(op: BinaryOp, a: Value, b: Value): Option<Value>
  {
    match op
    case Word32And =>
      if a.Int? && b.Int? then Some(Int(BitAnd(U32(a.bits), U32(b.bits))))
      else if IsHeapObject(a) && b == Int(kSmiTagMask) then Some(Int(kHeapObjectTag))
      else None
    case Word64And =>
      if a.Int? && b.Int? then Some(Int(BitAnd(U64(a.bits), U64(b.bits))))
      else if IsHeapObject(a) && b == Int(kSmiTagMask) then Some(Int(kHeapObjectTag))
      else None
    case Word32Sar =>
      if a.Int? && b.Int? then Some(Int(S32(a.bits) / Pow2(U32(b.bits) % 32))) else None
    case Word64Sar =>
      if a.Int? && b.Int? then Some(Int(S64(a.bits) / Pow2(U64(b.bits) % 64))) else None
    case Word32Shl =>
      if a.Int? && b.Int? then Some(Int(S32(a.bits * Pow2(U32(b.bits) % 32)))) else None
    case Word64Shl =>
      if a.Int? && b.Int? then Some(Int(S64(a.bits * Pow2(U64(b.bits) % 64)))) else None
    case Word32Equal =>
      if a.Int? && b.Int? then Some(Int(if U32(a.bits) == U32(b.bits) then 1 else 0))
      else if a.Boolean? && b.Boolean? then Some(Int(if a == b then 1 else 0))
      else None
    case Word64Equal =>
      if a.Int? && b.Int? then Some(Int(if U64(a.bits) == U64(b.bits) then 1 else 0))
      else if a.Boolean? && b.Boolean? then Some(Int(if a == b then 1 else 0))
      else None
    case Uint32LessThanOrEqual =>
      if a.Int? && b.Int? then Some(Int(if U32(a.bits) <= U32(b.bits) then 1 else 0)) else None
    case Int32AddWithOverflow =>
      if a.Int? && b.Int? then
        var sum := S32(a.bits) + S32(b.bits);
        Some(Pair(S32(sum), if IsInt32(sum) then 0 else 1))
      else None
  }

  /** Whether a branch on `v` takes its true arm. */
  function Truth(v: Value): Option<bool>
  {
    match v
    case Int(w) => Some(w != 0)
    case Boolean(b) => Some(b)
    case _ => None
  }

  function ApplyUnary(op: UnaryOp, a: Option<Value>): Option<Value>
  {
    if a.Some? && a.value.Int? then Some(Int(EvalUnary(op, a.value.bits))) else None
  }

  function ApplyBinary(op: BinaryOp, a: Option<Value>, b: Option<Value>): Option<Value>
  {
    if a.Some? && b.Some? then EvalBinary(op, a.value, b.value) else None
  }

  function Project(i: nat, a: Option<Value>): Option<Value>
  {
    if a.Some? && a.value.Pair? then
      if i == 0 then Some(Int(a.value.first)) else if i == 1 then Some(Int(a.value.second)) else None
    else None
  }

  /** The value of the arm a branch on `condition` takes. */
  function Choose(condition: Option<Value>, whenTrue: Option<Value>, whenFalse: Option<Value>): Option<Value>
  {
    if condition.Some? && Truth(condition.value).Some? then
      if Truth(condition.value).value then whenTrue else whenFalse
    else None
  }

  function Box(a: Option<Value>): Option<Value>
  {
    if a.Some? && a.value.Int? then Some(HeapNumber(a.value.bits)) else None
  }

  function Unbox(a: Option<Value>): Option<Value>
  {
    if a.Some? && a.value.HeapNumber? then Some(Int(a.value.number)) else None
  }

  /** A phi over the two arms of one branch. */
  predicate IsDiamond(n: Node)
  {
    n.Phi? && n.merge.Merge? && n.merge.first.IfTrue? && n.merge.second.IfFalse?
    && n.merge.first.ofBranch.Branch? && n.merge.second.ofBranch == n.merge.first.ofBranch
  }

  /** A finished allocation whose store initialises the allocated heap number. */
  predicate IsInitialisedAllocation(n: Node)
  {
    n.Finish? && n.finished.AllocateHeapNumber? && n.finishEffect.Store?
    && n.finishEffect.storeType == MachFloat64 && n.finishEffect.storeBase == n.finished
  }

  /**
   * The value of fragment `n` when Parameter(0) holds `input`; None where
   * the fragment does not compute a value of this model.  A phi over the two
   * arms of a branch takes the value of the arm the branch condition selects;
   * a finished allocation is the heap number its store initialised.
   */
  function Eval(n: Node, input: Value): Option<Value>
    decreases n
  {
    match n
    case Start => Some(Control)
    case Parameter(i) => if i == 0 then Some(input) else None
    case Int32Constant(v) => Some(Int(v))
    case TrueConstant => Some(Boolean(true))
    case FalseConstant => Some(Boolean(false))
    case Unary(op, a) => ApplyUnary(op, Eval(a, input))
    case Binary(op, a, b) => ApplyBinary(op, Eval(a, input), Eval(b, input))
    case Projection(i, a) => Project(i, Eval(a, input))
    case Phi(first, second, merge) =>
      if IsDiamond(n) then
        Choose(Eval(merge.first.ofBranch.condition, input), Eval(first, input), Eval(second, input))
      else None
    case Finish(_, store) =>
      if IsInitialisedAllocation(n) then Box(Eval(store.stored, input)) else None
    case Load(_, base, _, _) => Unbox(Eval(base, input))
    case _ => None
  }

  // ---------------------------------------------------------------------
  // Tagged numbers.

  /** A tagged number: a Smi's tagged word, or a heap number. */
  predicate IsTagged(rep: MachineRep, t: Value)
  {
    match t
    case Int(w) => w % SmiScale(rep) == 0 && IsSmi(rep, w / SmiScale(rep))
    case HeapNumber(_) => true
    case _ => false
  }

  /** The number a tagged number stands for. */
  function Untagged(rep: MachineRep, t: Value): int
    requires IsTagged(rep, t)
  {
    if t.Int? then t.bits / SmiScale(rep) else t.number
  }

  /** The tagged form of v: a Smi when v is in the Smi range, a heap number otherwise. */
  function Tagged(rep: MachineRep, v: int): (t: Value)
    ensures IsTagged(rep, t) && Untagged(rep, t) == v
    ensures t.Int? <==> IsSmi(rep, v)
  {
    var d := SmiScale(rep);
    DivModUnique(SmiTag(rep, v), d, v, 0);
    if IsSmi(rep, v) then Int(SmiTag(rep, v)) else HeapNumber(v)
  }

  // ---------------------------------------------------------------------
  // Evaluating the building blocks.  Each lemma takes one step of Eval, so
  // that the lemmas about whole fragments only put the steps together.

  lemma EvalUnaryAt(op: UnaryOp, a: Node, input: Value, x: int)
    requires Eval(a, input) == Some(Int(x))
    ensures Eval(Unary(op, a), input) == Some(Int(EvalUnary(op, x)))
  {
  }

  lemma EvalBinaryAt(op: BinaryOp, a: Node, b: Node, input: Value, x: Value, y: Value)
    requires Eval(a, input) == Some(x) && Eval(b, input) == Some(y)
    ensures Eval(Binary(op, a, b), input) == EvalBinary(op, x, y)
  {
  }

  lemma EvalAllocate(rep: MachineRep, l: HeapLayout, value: Node, control: Node, input: Value, x: int)
    requires IsWordRep(rep) && ValidLayout(l)
    requires Eval(value, input) == Some(Int(x))
    ensures Eval(AllocateHeapNumberWithValue(rep, l, value, control), input) == Some(HeapNumber(x))
  {
  }

  lemma EvalLoad(rep: MachineRep, l: HeapLayout, control: Node, n: int)
    requires IsWordRep(rep) && ValidLayout(l)
    ensures Eval(LoadHeapNumberValue(rep, l, Parameter(0), control), HeapNumber(n)) == Some(Int(n))
  {
  }

  lemma EvalDiamond(whenTrue: Node, whenFalse: Node, condition: Node, input: Value, c: Value, taken: bool)
    requires Eval(condition, input) == Some(c) && Truth(c) == Some(taken)
    ensures Eval(Diamond(whenTrue, whenFalse, Branch(condition, Start)), input)
         == if taken then Eval(whenTrue, input) else Eval(whenFalse, input)
  {
  }



  lemma UnsignedWordIdentity(x: int)
    requires IsWord(x)
    ensures U32(x) == x
  {
  }

  /** A left shift by one on 32-bit words doubles an integer whose double fits. */
  lemma EvalShl32(a: Node, input: Value, x: int)
    requires Eval(a, input) == Some(Int(x)) && IsInt32(x * 2)
    ensures Eval(Binary(Word32Shl, a, SmiShiftConstant(RepWord32)), input) == Some(Int(SmiTag(RepWord32, x)))
  {
    EvalBinaryAt(Word32Shl, a, SmiShiftConstant(RepWord32), input, Int(x), Int(1));
    ShlArith32(x);
  }

  /** A left shift by 32 on 64-bit words multiplies a 32-bit integer by 2^32. */
  lemma EvalShl64(a: Node, input: Value, x: int)
    requires Eval(a, input) == Some(Int(x)) && IsInt32(x)
    ensures Eval(Binary(Word64Shl, a, SmiShiftConstant(RepWord64)), input) == Some(Int(SmiTag(RepWord64, x)))
  {
    EvalBinaryAt(Word64Shl, a, SmiShiftConstant(RepWord64), input, Int(x), Int(32));
    ShlArith64(x);
  }

  lemma ShlArith32(x: int)
    requires IsInt32(x * 2)
    ensures S32(x * Pow2(U32(1) % 32)) == SmiTag(RepWord32, x)
  {
    assert U32(1) % 32 == 1;
    assert Pow2(1) == 2;
    SignedWordIdentity32(x * 2);
  }

  lemma ShlArith64(x: int)
    requires IsInt32(x)
    ensures S64(x * Pow2(U64(32) % 64)) == SmiTag(RepWord64, x)
  {
    Pow2Word();
    assert U64(32) % 64 == 32;
    SignedWordIdentity64(x * Word);
  }

  lemma SarArith32(v: int)
    requires IsSmi(RepWord32, v)
    ensures S32(SmiTag(RepWord32, v)) / Pow2(U32(1) % 32) == v
  {
    SmiUntag(RepWord32, v);
    assert U32(1) % 32 == 1;
    assert Pow2(1) == 2;
  }

  lemma SarArith64(v: int)
    requires IsSmi(RepWord64, v)
    ensures S64(SmiTag(RepWord64, v)) / Pow2(U64(32) % 64) == v
  {
    SmiUntag(RepWord64, v);
    Pow2Word();
    assert U64(32) % 64 == 32;
  }

  /** The low bit of an even word is clear at either width. */
  lemma EvenLowBit(t: int)
    requires t % 2 == 0
    ensures BitAnd(U32(t), U32(kSmiTagMask)) == 0 && BitAnd(U64(t), U64(kSmiTagMask)) == 0
  {
    BitAndOne(U32(t));
    ModDouble(t % Word, 0x8000_0000);
    BitAndOne(U64(t));
    ModDouble(t % Word64, 0x8000_0000_0000_0000);
  }

  /** The overflow projection of x + x is set exactly when the sum leaves the 32-bit range. */
  lemma EvalDoubling(v: int)
    requires IsInt32(v)
    ensures Eval(Projection(0, Binary(Int32AddWithOverflow, Parameter(0), Parameter(0))), Int(v)) == Some(Int(S32(v + v)))
    ensures Eval(Projection(1, Binary(Int32AddWithOverflow, Parameter(0), Parameter(0))), Int(v))
         == Some(Int(if IsInt32(v + v) then 0 else 1))
  {
    EvalBinaryAt(Int32AddWithOverflow, Parameter(0), Parameter(0), Int(v), Int(v), Int(v));
    SignedWordIdentity32(v);
  }

  /** On 32-bit words a 32-bit integer is a Smi exactly when its double does not overflow. */
  lemma SmiDoubling(v: int)
    requires IsInt32(v)
    ensures IsInt32(v + v) <==> IsSmi(RepWord32, v)
    ensures IsInt32(v + v) ==> S32(v + v) == SmiTag(RepWord32, v)
  {
    SmiRange(RepWord32);
    if IsInt32(v + v) {
      SignedWordIdentity32(v + v);
    }
  }

  /** The comparison with the largest Smi holds exactly for the unsigned words in the Smi range. */
  lemma EvalFitsSmi(rep: MachineRep, v: int)
    requires IsWordRep(rep) && IsWord(v)
    ensures Eval(Binary(Uint32LessThanOrEqual, Parameter(0), Int32Constant(SmiMaxValue(rep))), Int(v))
         == Some(Int(if IsSmi(rep, v) then 1 else 0))
  {
    SmiRange(rep);
    UnsignedWordIdentity(v);
    UnsignedWordIdentity(SmiMaxValue(rep));
    EvalBinaryAt(Uint32LessThanOrEqual, Parameter(0), Int32Constant(SmiMaxValue(rep)), Int(v), Int(v), Int(SmiMaxValue(rep)));
  }

  lemma BitAndOne(x: nat)
    ensures BitAnd(x, 1) == x % 2
  {
    if x != 0 {
      assert BitAnd(x / 2, 0) == 0;
    }
  }

  /** The tag test is 0 on a Smi's word. */
  lemma EvalTestNotSmiOnSmi(rep: MachineRep, v: int)
    requires IsWordRep(rep) && IsSmi(rep, v)
    ensures Eval(TestNotSmi(rep, Parameter(0)), Int(SmiTag(rep, v))) == Some(Int(0))
  {
    var t := SmiTag(rep, v);
    SmiUntag(rep, v);
    EvenLowBit(t);
    EvalBinaryAt(if Is32(rep) then Word32And else Word64And, Parameter(0), Int32Constant(kSmiTagMask), Int(t), Int(t), Int(1));
  }

  /** The tag test is 1 on a heap number. */
  lemma EvalTestNotSmiOnHeap(rep: MachineRep, x: int)
    requires IsWordRep(rep)
    ensures Eval(TestNotSmi(rep, Parameter(0)), HeapNumber(x)) == Some(Int(1))
  {
  }

  /** Untagging a Smi's word gives its value. */
  lemma EvalChangeSmiToInt32(rep: MachineRep, v: int)
    requires IsWordRep(rep) && IsSmi(rep, v)
    ensures Eval(ChangeSmiToInt32(rep, Parameter(0)), Int(SmiTag(rep, v))) == Some(Int(v))
  {
    if Is32(rep) {
      SmiToInt32At32(v);
    } else {
      SmiToInt32At64(v);
    }
  }

  lemma SmiToInt32At32(v: int)
    requires IsSmi(RepWord32, v)
    ensures Eval(ChangeSmiToInt32(RepWord32, Parameter(0)), Int(SmiTag(RepWord32, v))) == Some(Int(v))
  {
    var t := SmiTag(RepWord32, v);
    EvalBinaryAt(Word32Sar, Parameter(0), SmiShiftConstant(RepWord32), Int(t), Int(t), Int(1));
    SarArith32(v);
  }

  lemma SmiToInt32At64(v: int)
    requires IsSmi(RepWord64, v)
    ensures Eval(ChangeSmiToInt32(RepWord64, Parameter(0)), Int(SmiTag(RepWord64, v))) == Some(Int(v))
  {
    SarArith64(v);
    SmiRange(RepWord64);
    SarTruncate64(SmiTag(RepWord64, v), v);
  }

  /** The 64-bit untagging of a word whose shifted value is the 32-bit integer v. */
  lemma SarTruncate64(t: int, v: int)
    requires S64(t) / Pow2(U64(32) % 64) == v && IsInt32(v)
    ensures Eval(ChangeSmiToInt32(RepWord64, Parameter(0)), Int(t)) == Some(Int(v))
  {
    var shift := WordSar(RepWord64, Parameter(0), SmiShiftConstant(RepWord64));
    EvalBinaryAt(Word64Sar, Parameter(0), SmiShiftConstant(RepWord64), Int(t), Int(t), Int(32));
    EvalUnaryAt(TruncateInt64ToInt32, shift, Int(t), v);
    SignedWordIdentity32(v);
  }

  /** A tagged number that is not a heap number is the tagged word of the Smi it stands for. */
  lemma TaggedSmi(rep: MachineRep, t: Value)
    requires IsWordRep(rep) && IsTagged(rep, t) && t.Int?
    ensures IsSmi(rep, Untagged(rep, t)) && t == Int(SmiTag(rep, Untagged(rep, t)))
  {
    DivModUnique(t.bits, SmiScale(rep), Untagged(rep, t), 0);
  }

  // ---------------------------------------------------------------------
  // What each lowering computes.

  /** Branching on a bit yields the true object exactly for a nonzero bit. */
  lemma BitToBoolMeaning(rep: MachineRep, l: HeapLayout, w: int)
    requires IsWordRep(rep) && ValidLayout(l)
    ensures Eval(Lower(ChangeBitToBool, Parameter(0), rep, l), Int(w)) == Some(Boolean(w != 0))
  {
    EvalDiamond(TrueConstant, FalseConstant, Parameter(0), Int(w), Int(w), w != 0);
  }

  /** Comparing with the true object yields the bit 1 exactly for true. */
  lemma BoolToBitMeaning(rep: MachineRep, l: HeapLayout, b: bool)
    requires IsWordRep(rep) && ValidLayout(l)
    ensures Eval(Lower(ChangeBoolToBit, Parameter(0), rep, l), Boolean(b)) == Some(Int(if b then 1 else 0))
  {
  }

  /** A double always goes into a freshly allocated heap number. */
  lemma Float64ToTaggedMeaning(rep: MachineRep, l: HeapLayout, x: int)
    requires IsWordRep(rep) && ValidLayout(l)
    ensures Eval(Lower(ChangeFloat64ToTagged, Parameter(0), rep, l), Int(x)) == Some(HeapNumber(x))
  {
    EvalAllocate(rep, l, Parameter(0), Start, Int(x), x);
  }

  /**
   * A 32-bit integer becomes its tagged form: on 32-bit words the doubling
   * overflows exactly outside the Smi range, whose arm allocates a heap
   * number; on 64-bit words every 32-bit integer is a Smi.
   */
  lemma Int32ToTaggedMeaning(rep: MachineRep, l: HeapLayout, v: int)
    requires IsWordRep(rep) && ValidLayout(l) && IsInt32(v)
    ensures Eval(Lower(ChangeInt32ToTagged, Parameter(0), rep, l), Int(v)) == Some(Tagged(rep, v))
  {
    if Is32(rep) {
      Int32ToTagged32(l, v);
    } else {
      Int32ToTagged64(l, v);
    }
  }

  lemma Int32ToTagged32(l: HeapLayout, v: int)
    requires ValidLayout(l) && IsInt32(v)
    ensures Eval(Lower(ChangeInt32ToTagged, Parameter(0), RepWord32, l), Int(v)) == Some(Tagged(RepWord32, v))
  {
    EvalDoubling(v);
    SmiDoubling(v);
    if IsInt32(v + v) {
      Int32TakesSmiArm(l, Int(v), S32(v + v));
    } else {
      SignedWordIdentity32(v);
      EvalUnaryAt(ChangeInt32ToFloat64, Parameter(0), Int(v), v);
      Int32TakesHeapArm(l, Int(v), v);
    }
  }

  /** Where the doubling does not overflow, the 32-bit lowering is the doubled word. */
  lemma Int32TakesSmiArm(l: HeapLayout, input: Value, t: int)
    requires ValidLayout(l)
    requires Eval(Projection(1, Binary(Int32AddWithOverflow, Parameter(0), Parameter(0))), input) == Some(Int(0))
    requires Eval(Projection(0, Binary(Int32AddWithOverflow, Parameter(0), Parameter(0))), input) == Some(Int(t))
    ensures Eval(Lower(ChangeInt32ToTagged, Parameter(0), RepWord32, l), input) == Some(Int(t))
  {
    var add := Binary(Int32AddWithOverflow, Parameter(0), Parameter(0));
    var branch := Branch(Projection(1, add), Start);
    var number := Unary(ChangeInt32ToFloat64, Parameter(0));
    EvalDiamond(AllocateHeapNumberWithValue(RepWord32, l, number, IfTrue(branch)), Projection(0, add),
                     Projection(1, add), input, Int(0), false);
  }

  /** Where the doubling overflows, the 32-bit lowering allocates a heap number for the converted input. */
  lemma Int32TakesHeapArm(l: HeapLayout, input: Value, x: int)
    requires ValidLayout(l)
    requires Eval(Projection(1, Binary(Int32AddWithOverflow, Parameter(0), Parameter(0))), input) == Some(Int(1))
    requires Eval(Unary(ChangeInt32ToFloat64, Parameter(0)), input) == Some(Int(x))
    ensures Eval(Lower(ChangeInt32ToTagged, Parameter(0), RepWord32, l), input) == Some(HeapNumber(x))
  {
    var add := Binary(Int32AddWithOverflow, Parameter(0), Parameter(0));
    var branch := Branch(Projection(1, add), Start);
    var number := Unary(ChangeInt32ToFloat64, Parameter(0));
    EvalAllocate(RepWord32, l, number, IfTrue(branch), input, x);
    EvalDiamond(AllocateHeapNumberWithValue(RepWord32, l, number, IfTrue(branch)), Projection(0, add),
                    Projection(1, add), input, Int(1), true);
  }

  lemma Int32ToTagged64(l: HeapLayout, v: int)
    requires ValidLayout(l) && IsInt32(v)
    ensures Eval(Lower(ChangeInt32ToTagged, Parameter(0), RepWord64, l), Int(v)) == Some(Tagged(RepWord64, v))
  {
    SmiRange(RepWord64);
    assert Tagged(RepWord64, v) == Int(SmiTag(RepWord64, v));
    Int32ShiftedToSmi(l, v);
  }

  /** On 64-bit words the widening shift is the tagged word of every 32-bit integer. */
  lemma Int32ShiftedToSmi(l: HeapLayout, v: int)
    requires ValidLayout(l) && IsInt32(v)
    ensures Eval(Lower(ChangeInt32ToTagged, Parameter(0), RepWord64, l), Int(v)) == Some(Int(SmiTag(RepWord64, v)))
  {
    SignedWordIdentity32(v);
    EvalUnaryAt(ChangeInt32ToInt64, Parameter(0), Int(v), v);
    EvalShl64(Unary(ChangeInt32ToInt64, Parameter(0)), Int(v), v);
  }

  /**
   * An unsigned 32-bit integer becomes its tagged form: the comparison with
   * the largest Smi holds exactly in the Smi range, whose arm shifts it;
   * the other arm allocates a heap number.
   */
  lemma Uint32ToTaggedMeaning(rep: MachineRep, l: HeapLayout, v: int)
    requires IsWordRep(rep) && ValidLayout(l) && IsWord(v)
    ensures Eval(Lower(ChangeUint32ToTagged, Parameter(0), rep, l), Int(v)) == Some(Tagged(rep, v))
  {
    if IsSmi(rep, v) {
      Uint32ToSmi(rep, l, v);
    } else {
      Uint32ToHeapNumber(rep, l, v);
    }
  }

  lemma Uint32ToSmi(rep: MachineRep, l: HeapLayout, v: int)
    requires IsWordRep(rep) && ValidLayout(l) && IsWord(v) && IsSmi(rep, v)
    ensures Eval(Lower(ChangeUint32ToTagged, Parameter(0), rep, l), Int(v)) == Some(Int(SmiTag(rep, v)))
  {
    EvalFitsSmi(rep, v);
    SmiFromWord(rep, l, v);
    Uint32TakesSmiArm(rep, l, Int(v), SmiTag(rep, v));
  }

  lemma Uint32ToHeapNumber(rep: MachineRep, l: HeapLayout, v: int)
    requires IsWordRep(rep) && ValidLayout(l) && IsWord(v) && !IsSmi(rep, v)
    ensures Eval(Lower(ChangeUint32ToTagged, Parameter(0), rep, l), Int(v)) == Some(HeapNumber(v))
  {
    EvalFitsSmi(rep, v);
    EvalUnaryAt(ChangeUint32ToFloat64, Parameter(0), Int(v), v);
    UnsignedWordIdentity(v);
    Uint32TakesHeapArm(rep, l, Int(v), v);
  }

  /** Where the comparison with the largest Smi holds, the unsigned lowering is its Smi arm. */
  lemma Uint32TakesSmiArm(rep: MachineRep, l: HeapLayout, input: Value, t: int)
    requires IsWordRep(rep) && ValidLayout(l)
    requires Eval(Binary(Uint32LessThanOrEqual, Parameter(0), Int32Constant(SmiMaxValue(rep))), input) == Some(Int(1))
    requires Eval(WordToSmi(rep, Parameter(0)), input) == Some(Int(t))
    ensures Eval(Lower(ChangeUint32ToTagged, Parameter(0), rep, l), input) == Some(Int(t))
  {
    var condition := Binary(Uint32LessThanOrEqual, Parameter(0), Int32Constant(SmiMaxValue(rep)));
    var number := Unary(ChangeUint32ToFloat64, Parameter(0));
    EvalDiamond(WordToSmi(rep, Parameter(0)), AllocateHeapNumberWithValue(rep, l, number, IfFalse(Branch(condition, Start))),
                condition, input, Int(1), true);
  }

  /** Where the comparison fails, the unsigned lowering allocates a heap number for the converted input. */
  lemma Uint32TakesHeapArm(rep: MachineRep, l: HeapLayout, input: Value, x: int)
    requires IsWordRep(rep) && ValidLayout(l)
    requires Eval(Binary(Uint32LessThanOrEqual, Parameter(0), Int32Constant(SmiMaxValue(rep))), input) == Some(Int(0))
    requires Eval(Unary(ChangeUint32ToFloat64, Parameter(0)), input) == Some(Int(x))
    ensures Eval(Lower(ChangeUint32ToTagged, Parameter(0), rep, l), input) == Some(HeapNumber(x))
  {
    var condition := Binary(Uint32LessThanOrEqual, Parameter(0), Int32Constant(SmiMaxValue(rep)));
    var number := Unary(ChangeUint32ToFloat64, Parameter(0));
    EvalAllocate(rep, l, number, IfFalse(Branch(condition, Start)), input, x);
    EvalDiamond(WordToSmi(rep, Parameter(0)), AllocateHeapNumberWithValue(rep, l, number, IfFalse(Branch(condition, Start))),
                condition, input, Int(0), false);
  }

  /** The Smi arm of the unsigned lowering tags an unsigned word in the Smi range. */
  lemma SmiFromWord(rep: MachineRep, l: HeapLayout, v: int)
    requires IsWordRep(rep) && IsWord(v) && IsSmi(rep, v)
    ensures Eval(WordToSmi(rep, Parameter(0)), Int(v)) == Some(Int(SmiTag(rep, v)))
  {
    SmiRange(rep);
    if Is32(rep) {
      EvalShl32(Parameter(0), Int(v), v);
    } else {
      EvalUnaryAt(ChangeUint32ToUint64, Parameter(0), Int(v), v);
      EvalShl64(Unary(ChangeUint32ToUint64, Parameter(0)), Int(v), v);
    }
  }

  /** A tagged number becomes the low 32 bits of its value: the Smi's value, or the heap number's, truncated. */
  lemma TaggedToInt32Meaning(rep: MachineRep, l: HeapLayout, t: Value)
    requires IsWordRep(rep) && ValidLayout(l) && IsTagged(rep, t)
    ensures Eval(Lower(ChangeTaggedToInt32, Parameter(0), rep, l), t) == Some(Int(S32(Untagged(rep, t))))
  {
    assert Lower(ChangeTaggedToInt32, Parameter(0), rep, l) == TaggedToWord32(rep, l, Parameter(0));
    TaggedToWord32Meaning(rep, l, t);
  }

  /** The same fragment serves unsigned results: the low 32 bits of the value. */
  lemma TaggedToUint32Meaning(rep: MachineRep, l: HeapLayout, t: Value)
    requires IsWordRep(rep) && ValidLayout(l) && IsTagged(rep, t)
    ensures Eval(Lower(ChangeTaggedToUint32, Parameter(0), rep, l), t) == Some(Int(S32(Untagged(rep, t))))
  {
    assert Lower(ChangeTaggedToUint32, Parameter(0), rep, l) == TaggedToWord32(rep, l, Parameter(0));
    TaggedToWord32Meaning(rep, l, t);
  }

  lemma TaggedToWord32Meaning(rep: MachineRep, l: HeapLayout, t: Value)
    requires IsWordRep(rep) && ValidLayout(l) && IsTagged(rep, t)
    ensures Eval(TaggedToWord32(rep, l, Parameter(0)), t) == Some(Int(S32(Untagged(rep, t))))
  {
    if t.Int? {
      TaggedSmi(rep, t);
      SmiToWord32(rep, l, Untagged(rep, t));
    } else {
      HeapNumberToWord32(rep, l, t.number);
    }
  }

  lemma SmiToWord32(rep: MachineRep, l: HeapLayout, v: int)
    requires IsWordRep(rep) && ValidLayout(l) && IsSmi(rep, v)
    ensures Eval(TaggedToWord32(rep, l, Parameter(0)), Int(SmiTag(rep, v))) == Some(Int(S32(v)))
  {
    var test := TestNotSmi(rep, Parameter(0));
    var load := LoadHeapNumberValue(rep, l, Parameter(0), IfTrue(Branch(test, Start)));
    EvalTestNotSmiOnSmi(rep, v);
    EvalChangeSmiToInt32(rep, v);
    SmiRange(rep);
    SignedWordIdentity32(v);
    EvalDiamond(Unary(TruncateFloat64ToInt32, load), ChangeSmiToInt32(rep, Parameter(0)), test,
                Int(SmiTag(rep, v)), Int(0), false);
  }

  lemma HeapNumberToWord32(rep: MachineRep, l: HeapLayout, x: int)
    requires IsWordRep(rep) && ValidLayout(l)
    ensures Eval(TaggedToWord32(rep, l, Parameter(0)), HeapNumber(x)) == Some(Int(S32(x)))
  {
    var test := TestNotSmi(rep, Parameter(0));
    var load := LoadHeapNumberValue(rep, l, Parameter(0), IfTrue(Branch(test, Start)));
    EvalTestNotSmiOnHeap(rep, x);
    EvalLoad(rep, l, IfTrue(Branch(test, Start)), x);
    EvalUnaryAt(TruncateFloat64ToInt32, load, HeapNumber(x), x);
    EvalDiamond(Unary(TruncateFloat64ToInt32, load), ChangeSmiToInt32(rep, Parameter(0)), test,
                HeapNumber(x), Int(1), true);
  }

  /** A tagged number becomes its value as a double. */
  lemma TaggedToFloat64Meaning(rep: MachineRep, l: HeapLayout, t: Value)
    requires IsWordRep(rep) && ValidLayout(l) && IsTagged(rep, t)
    ensures Eval(Lower(ChangeTaggedToFloat64, Parameter(0), rep, l), t) == Some(Int(Untagged(rep, t)))
  {
    if t.Int? {
      TaggedSmi(rep, t);
      SmiToFloat64(rep, l, Untagged(rep, t));
    } else {
      HeapNumberToFloat64(rep, l, t.number);
    }
  }

  lemma SmiToFloat64(rep: MachineRep, l: HeapLayout, v: int)
    requires IsWordRep(rep) && ValidLayout(l) && IsSmi(rep, v)
    ensures Eval(Lower(ChangeTaggedToFloat64, Parameter(0), rep, l), Int(SmiTag(rep, v))) == Some(Int(v))
  {
    EvalTestNotSmiOnSmi(rep, v);
    SmiAsFloat64(rep, v);
    Float64OfUntaggedSmi(rep, l, Int(SmiTag(rep, v)), v);
  }

  /** Where the tag test gives 0, the conversion takes the Smi arm. */
  lemma Float64OfUntaggedSmi(rep: MachineRep, l: HeapLayout, input: Value, v: int)
    requires IsWordRep(rep) && ValidLayout(l)
    requires Eval(TestNotSmi(rep, Parameter(0)), input) == Some(Int(0))
    requires Eval(Unary(ChangeInt32ToFloat64, ChangeSmiToInt32(rep, Parameter(0))), input) == Some(Int(v))
    ensures Eval(Lower(ChangeTaggedToFloat64, Parameter(0), rep, l), input) == Some(Int(v))
  {
    var test := TestNotSmi(rep, Parameter(0));
    var load := LoadHeapNumberValue(rep, l, Parameter(0), IfTrue(Branch(test, Start)));
    EvalDiamond(load, Unary(ChangeInt32ToFloat64, ChangeSmiToInt32(rep, Parameter(0))), test, input, Int(0), false);
  }

  /** The Smi arm of the float64 conversion gives the Smi's value. */
  lemma SmiAsFloat64(rep: MachineRep, v: int)
    requires IsWordRep(rep) && IsSmi(rep, v)
    ensures Eval(Unary(ChangeInt32ToFloat64, ChangeSmiToInt32(rep, Parameter(0))), Int(SmiTag(rep, v))) == Some(Int(v))
  {
    EvalChangeSmiToInt32(rep, v);
    SmiRange(rep);
    SignedWordIdentity32(v);
    EvalUnaryAt(ChangeInt32ToFloat64, ChangeSmiToInt32(rep, Parameter(0)), Int(SmiTag(rep, v)), v);
  }

  lemma HeapNumberToFloat64(rep: MachineRep, l: HeapLayout, x: int)
    requires IsWordRep(rep) && ValidLayout(l)
    ensures Eval(Lower(ChangeTaggedToFloat64, Parameter(0), rep, l), HeapNumber(x)) == Some(Int(x))
  {
    var test := TestNotSmi(rep, Parameter(0));
    var load := LoadHeapNumberValue(rep, l, Parameter(0), IfTrue(Branch(test, Start)));
    EvalTestNotSmiOnHeap(rep, x);
    EvalLoad(rep, l, IfTrue(Branch(test, Start)), x);
    EvalDiamond(load, Unary(ChangeInt32ToFloat64, ChangeSmiToInt32(rep, Parameter(0))), test, HeapNumber(x), Int(1), true);
  }

  // ---------------------------------------------------------------------
  // Round trips between the lowerings.

  /** Tagging a 32-bit integer and converting the tagged number back gives the integer, on both word widths. */
  lemma Int32RoundTrip(rep: MachineRep, l: HeapLayout, v: int)
    requires IsWordRep(rep) && ValidLayout(l) && IsInt32(v)
    ensures var t := Eval(Lower(ChangeInt32ToTagged, Parameter(0), rep, l), Int(v));
      t.Some? && Eval(Lower(ChangeTaggedToInt32, Parameter(0), rep, l), t.value) == Some(Int(v))
  {
    Int32ToTaggedMeaning(rep, l, v);
    TaggedToInt32Meaning(rep, l, Tagged(rep, v));
    SignedWordIdentity32(v);
  }

  /** Tagging an unsigned 32-bit integer and converting it back gives a word with the same 32 bits. */
  lemma Uint32RoundTrip(rep: MachineRep, l: HeapLayout, v: int)
    requires IsWordRep(rep) && ValidLayout(l) && IsWord(v)
    ensures var t := Eval(Lower(ChangeUint32ToTagged, Parameter(0), rep, l), Int(v));
      t.Some? && var back := Eval(Lower(ChangeTaggedToUint32, Parameter(0), rep, l), t.value);
      back.Some? && back.value.Int? && U32(back.value.bits) == v
  {
    Uint32ToTaggedMeaning(rep, l, v);
    TaggedToUint32Meaning(rep, l, Tagged(rep, v));
    UnsignedOfSigned(v);
  }

  /** Boxing a double and unboxing it gives the double back. */
  lemma Float64RoundTrip(rep: MachineRep, l: HeapLayout, x: int)
    requires IsWordRep(rep) && ValidLayout(l)
    ensures var t := Eval(Lower(ChangeFloat64ToTagged, Parameter(0), rep, l), Int(x));
      t.Some? && Eval(Lower(ChangeTaggedToFloat64, Parameter(0), rep, l), t.value) == Some(Int(x))
  {
    Float64ToTaggedMeaning(rep, l, x);
    TaggedToFloat64Meaning(rep, l, HeapNumber(x));
  }

  /** A bit turned into a boolean object and back is the same bit. */
  lemma BitRoundTrip(rep: MachineRep, l: HeapLayout, bit: int)
    requires IsWordRep(rep) && ValidLayout(l) && (bit == 0 || bit == 1)
    ensures var b := Eval(Lower(ChangeBitToBool, Parameter(0), rep, l), Int(bit));
      b.Some? && Eval(Lower(ChangeBoolToBit, Parameter(0), rep, l), b.value) == Some(Int(bit))
  {
    BitToBoolMeaning(rep, l, bit);
    BoolToBitMeaning(rep, l, bit != 0);
  }
}
