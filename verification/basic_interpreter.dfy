/** `OptimizationBasicInterpreter`: the transfer functions of the base lattice,
    as opcode-to-kind tables, and its merge. A null result (an instruction
    that pushes nothing) is `None`; an exception is a `Fail`. */
module OptimizationBasicInterpreter {
  import opened Wrappers
  import opened Opcodes
  import opened Insns
  import opened OptimizationBasicValues

  /** `newValue`. */
  function NewValue(t: Option<AsmType>): (r: Result<Option<BasicValue>>)
    ensures t.None? ==> r == Ok(Some(UninitializedValue))
    ensures r == Ok(None) <==> t == Some(VoidType)
    ensures r.Fail? <==> t.Some? && t.value.MethodType?
    ensures t.Some? && t.value.ArrayType? ==> r == Ok(Some(REFERENCE_VALUE))
    // every other type comes back from the value it builds
    ensures r.Ok? && r.value.Some? && t.Some? && !t.value.ArrayType? ==> TypeOf(r.value.value) == t
  {
    match t
    case None => Ok(Some(UninitializedValue))
    case Some(ty) =>
      match ty
      case VoidType => Ok(None)
      case BooleanType => Ok(Some(BooleanValue))
      case CharType => Ok(Some(CharValue))
      case ByteType => Ok(Some(ByteValue))
      case ShortType => Ok(Some(ShortValue))
      case IntType => Ok(Some(IntValue))
      case FloatType => Ok(Some(FloatValue))
      case LongType => Ok(Some(LongValue))
      case DoubleType => Ok(Some(DoubleValue))
      case ArrayType(_) => Ok(Some(REFERENCE_VALUE))
      case ObjectType(name) => Ok(Some(ObjectValue(name)))
      case MethodType(_) => Fail(InternalError)
  }

  /** Round trip: every value is rebuilt by `newValue` from its own type. */
  lemma NewValueOfTypeOf(v: BasicValue)
    ensures NewValue(TypeOf(v)) == Ok(Some(v))
  {
  }

  function Value(v: BasicValue): Result<Option<BasicValue>> { Ok(Some(v)) }

  const NoValue: Result<Option<BasicValue>> := Ok(None)

  function ObjectValueOf(internalName: string): Result<Option<BasicValue>> {
    NewValue(Some(ObjectTypeOf(internalName)))
  }

  /** The value an LDC pushes, by the runtime class of its constant. */
  function LdcValue(cst: Constant): Result<Option<BasicValue>> {
    match cst
    case LongConst => Value(LongValue)
    case BooleanConst => Value(IntValue)
    case IntegerConst => Value(IntValue)
    case ShortConst => Value(IntValue)
    case ByteConst => Value(IntValue)
    case CharacterConst => Value(IntValue)
    case FloatConst => Value(FloatValue)
    case DoubleConst => Value(DoubleValue)
    case StringConst => ObjectValueOf("java/lang/String")
    case TypeConst(t) =>
      if t.ObjectType? || t.ArrayType? then ObjectValueOf("java/lang/Class")
      else if t.MethodType? then ObjectValueOf("java/lang/invoke/MethodType")
      else Fail(IllegalLdcConstant)
    case HandleConst => ObjectValueOf("java/lang/invoke/MethodHandle")
    case OtherConst => Fail(IllegalLdcConstant)
  }

  /** `newOperation`: instructions that push a value without popping one. */
  function NewOperation(insn: Insn): Result<Option<BasicValue>> {
    if insn.LdcInsn? then LdcValue(insn.cst)
    else
      var op := insn.Opcode();
      if op == ACONST_NULL then ObjectValueOf("null")
      else if ICONST_M1 <= op <= ICONST_5 then Value(IntValue)
      else if op == LCONST_0 || op == LCONST_1 then Value(LongValue)
      else if FCONST_0 <= op <= FCONST_2 then Value(FloatValue)
      else if op == DCONST_0 || op == DCONST_1 then Value(DoubleValue)
      else if op == BIPUSH || op == SIPUSH then Value(IntValue)
      else if op == GETSTATIC && insn.FieldInsn? then NewValue(Some(insn.fieldType))
      else if op == NEW && insn.TypeInsn? then ObjectValueOf(insn.desc)
      else Fail(InternalError)
  }

  /** `unaryOperation`: instructions that pop one value. */
  function UnaryOperation(insn: Insn): Result<Option<BasicValue>> {
    var op := insn.Opcode();
    if op in {INEG, IINC, L2I, F2I, D2I, I2B, I2C, I2S} then Value(IntValue)
    else if op in {FNEG, I2F, L2F, D2F} then Value(FloatValue)
    else if op in {LNEG, I2L, F2L, D2L} then Value(LongValue)
    else if op in {DNEG, I2D, L2D, F2D} then Value(DoubleValue)
    else if IFEQ <= op <= IFLE || op == TABLESWITCH || op == LOOKUPSWITCH
         || IRETURN <= op <= ARETURN || op == PUTSTATIC then NoValue
    else if op == GETFIELD && insn.FieldInsn? then NewValue(Some(insn.fieldType))
    else if op == NEWARRAY && insn.IntOperand? then
      (if T_BOOLEAN <= insn.operand <= T_LONG then Value(REFERENCE_VALUE) else Fail(InvalidArrayType))
    else if op == ANEWARRAY && insn.TypeInsn? then Value(REFERENCE_VALUE)
    else if op == ARRAYLENGTH then Value(IntValue)
    else if op == ATHROW then NoValue
    else if op == CHECKCAST && insn.TypeInsn? then ObjectValueOf(insn.desc)
    else if op == INSTANCEOF then Value(IntValue)
    else if op in {MONITORENTER, MONITOREXIT, IFNULL, IFNONNULL} then NoValue
    else Fail(InternalError)
  }

  /** `binaryOperation`: instructions that pop two values. */
  function BinaryOperation(insn: Insn): Result<Option<BasicValue>> {
    var op := insn.Opcode();
    if op in {IALOAD, BALOAD, CALOAD, SALOAD, IADD, ISUB, IMUL, IDIV, IREM}
       || op in {ISHL, ISHR, IUSHR, IAND, IOR, IXOR} then Value(IntValue)
    else if op in {FALOAD, FADD, FSUB, FMUL, FDIV, FREM} then Value(FloatValue)
    else if op in {LALOAD, LADD, LSUB, LMUL, LDIV, LREM}
            || op in {LSHL, LSHR, LUSHR, LAND, LOR, LXOR} then Value(LongValue)
    else if op in {DALOAD, DADD, DSUB, DMUL, DDIV, DREM} then Value(DoubleValue)
    else if op == AALOAD then Value(REFERENCE_VALUE)
    else if LCMP <= op <= DCMPG then Value(IntValue)
    else if IF_ICMPEQ <= op <= IF_ACMPNE || op == PUTFIELD then NoValue
    else Fail(InternalError)
  }

  /** `merge`: equal values stay; otherwise the uninitialized value absorbs,
      two object types meet at java/lang/Object, two int-storable kinds meet
      at int, and any other pair becomes uninitialized. */
  function Merge(v: BasicValue, w: BasicValue): BasicValue {
    if v != w then
      if v == UninitializedValue || w == UninitializedValue then UninitializedValue
      else if v.ObjectValue? && w.ObjectValue? then REFERENCE_VALUE
      else if IsIntStorable(v) && IsIntStorable(w) then IntValue
      else UninitializedValue
    else v
  }

  // ---------------------------------------------------------------------
  // The tables against the JVM's opcode numbering: typed opcode families are
  // numbered int, long, float, double in turn.

  function KindAt(k: int): BasicValue
    requires 0 <= k < 4
  {
    [IntValue, LongValue, FloatValue, DoubleValue][k]
  }

  lemma ArithmeticFollowsOpcodeLayout(insn: Insn)
    requires IADD <= insn.Opcode() <= DREM
    ensures BinaryOperation(insn) == Value(KindAt((insn.Opcode() - IADD) % 4))
  {
  }

  lemma ShiftsAndLogicFollowOpcodeLayout(insn: Insn)
    requires ISHL <= insn.Opcode() <= LXOR
    ensures BinaryOperation(insn) == Value(KindAt((insn.Opcode() - ISHL) % 2))
  {
  }

  lemma NegationsFollowOpcodeLayout(insn: Insn)
    requires INEG <= insn.Opcode() <= DNEG
    ensures UnaryOperation(insn) == Value(KindAt(insn.Opcode() - INEG))
  {
  }

  /** IALOAD .. SALOAD load int, long, float, double, reference, byte, char and
      short elements; the last three are pushed as int. */
  lemma ArrayLoadsFollowOpcodeLayout(insn: Insn)
    requires IALOAD <= insn.Opcode() <= SALOAD
    ensures BinaryOperation(insn) ==
      Value([IntValue, LongValue, FloatValue, DoubleValue, REFERENCE_VALUE, IntValue, IntValue, IntValue][insn.Opcode() - IALOAD])
  {
  }

  /** I2L .. D2F come in groups of three per source kind, each listing the
      other three kinds in order: a conversion yields its target kind, never
      its source kind. */
  lemma ConversionsFollowOpcodeLayout(insn: Insn)
    requires I2L <= insn.Opcode() <= D2F
    ensures var source := (insn.Opcode() - I2L) / 3;
            var slot := (insn.Opcode() - I2L) % 3;
            var target := if slot < source then slot else slot + 1;
            target != source && UnaryOperation(insn) == Value(KindAt(target))
  {
  }

  /** Narrowing int conversions push an int, not a byte, char or short. */
  lemma NarrowingConversionsYieldInt(insn: Insn)
    requires insn.Opcode() in {I2B, I2C, I2S}
    ensures UnaryOperation(insn) == Value(IntValue)
  {
  }

  /** Comparisons push an int; two-operand branches and PUTFIELD push nothing. */
  lemma ComparisonsYieldIntOrNothing(insn: Insn)
    ensures LCMP <= insn.Opcode() <= DCMPG ==> BinaryOperation(insn) == Value(IntValue)
    ensures IF_ICMPEQ <= insn.Opcode() <= IF_ACMPNE || insn.Opcode() == PUTFIELD ==> BinaryOperation(insn) == NoValue
  {
  }

  /** One-operand branches, switches, value returns and ATHROW push nothing. */
  lemma ControlTransfersYieldNoValue(insn: Insn)
    requires || IFEQ <= insn.Opcode() <= IFLE || insn.Opcode() in {IFNULL, IFNONNULL}
             || insn.LookupSwitchInsn? || insn.TableSwitchInsn?
             || (insn.IsReturn() && insn.Opcode() != RETURN)
             || insn.Opcode() == ATHROW
    ensures UnaryOperation(insn) == NoValue
  {
  }

  /** The store opcode a constant-pushing instruction's value needs is the one
      its mnemonic's type prefix names: A for ACONST_NULL, I for ICONST_*,
      BIPUSH and SIPUSH, L, F and D for the other constants. */
  function PrefixStore(op: Opcode): Opcode
    requires ACONST_NULL <= op <= SIPUSH
  {
    if op == ACONST_NULL then ASTORE
    else if op <= ICONST_5 || op >= BIPUSH then ISTORE
    else if op <= LCONST_1 then LSTORE
    else if op <= FCONST_2 then FSTORE
    else DSTORE
  }

  lemma ConstantsMatchTypePrefix(insn: Insn)
    requires ACONST_NULL <= insn.Opcode() <= SIPUSH
    ensures NewOperation(insn).Ok? && NewOperation(insn).value.Some?
    ensures var v := NewOperation(insn).value.value;
            v != UninitializedValue && StoreOpcodeFor(TypeOf(v).value) == PrefixStore(insn.Opcode())
  {
  }

  /** An LDC of a boolean, short, byte or char constant pushes an int. */
  lemma LdcOfSmallIntegralYieldsInt(insn: Insn)
    requires insn.LdcInsn? && insn.cst in {BooleanConst, ShortConst, ByteConst, CharacterConst, IntegerConst}
    ensures NewOperation(insn) == Value(IntValue)
  {
  }

  // ---------------------------------------------------------------------
  // Merge laws.

  lemma MergeIdempotent(v: BasicValue)
    ensures Merge(v, v) == v
  {
  }

  /** Every branch condition is symmetric, so merge is. */
  lemma MergeCommutative(v: BasicValue, w: BasicValue)
    ensures Merge(v, w) == Merge(w, v)
  {
  }

  /** The merge-relevant class of a value: 0 uninitialized, 1 object,
      2 stored with ISTORE, 3 long, float or double. */
  function MergeClass(v: BasicValue): (c: nat)
    ensures c == 0 <==> v == UninitializedValue
    ensures c == 1 <==> v.ObjectValue?
    ensures c == 2 <==> IsIntStorable(v)
    ensures c <= 3
  {
    IntStorableKinds(v);
    if v == UninitializedValue then 0
    else if v.ObjectValue? then 1
    else if IsIntStorable(v) then 2
    else 3
  }

  /** Merge of two different values depends only on their classes. */
  lemma MergeByClass(v: BasicValue, w: BasicValue)
    ensures Merge(v, w) ==
      if v == w then v
      else if MergeClass(v) == MergeClass(w) == 1 then REFERENCE_VALUE
      else if MergeClass(v) == MergeClass(w) == 2 then IntValue
      else UninitializedValue
  {
  }

  lemma MergeAssociative(u: BasicValue, v: BasicValue, w: BasicValue)
    ensures Merge(Merge(u, v), w) == Merge(u, Merge(v, w))
  {
    MergeByClass(u, v);
    MergeByClass(v, w);
    MergeByClass(Merge(u, v), w);
    MergeByClass(u, Merge(v, w));
    assert MergeClass(REFERENCE_VALUE) == 1;
    assert MergeClass(IntValue) == 2;
    assert MergeClass(UninitializedValue) == 0;
  }

  lemma MergeWithUninitialized(v: BasicValue)
    ensures Merge(v, UninitializedValue) == UninitializedValue
    ensures Merge(UninitializedValue, v) == UninitializedValue
  {
  }

  /** The outcome of merging two different values. */
  lemma MergeOfDistinct(v: BasicValue, w: BasicValue)
    requires v != w && v != UninitializedValue && w != UninitializedValue
    ensures v.ObjectValue? && w.ObjectValue? ==> Merge(v, w) == REFERENCE_VALUE
    ensures IsIntStorable(v) && IsIntStorable(w) ==> Merge(v, w) == IntValue
    ensures !(v.ObjectValue? && w.ObjectValue?) && !(IsIntStorable(v) && IsIntStorable(w)) ==>
      Merge(v, w) == UninitializedValue
  {
  }

  /** Merging `w` into an existing slot `v` leaves it unchanged exactly when
      `v` already stands for `w`: equal, uninitialized, java/lang/Object over an
      object type, or int over an int-storable kind. */
  lemma MergeKeepsExisting(v: BasicValue, w: BasicValue)
    ensures Merge(v, w) == v <==>
      || v == w
      || v == UninitializedValue
      || (v == REFERENCE_VALUE && w.ObjectValue?)
      || (v == IntValue && IsIntStorable(w))
  {
  }

  /** Height of a value above the top of the lattice. */
  function Height(v: BasicValue): nat {
    if v == UninitializedValue then 0
    else if v == IntValue || v == REFERENCE_VALUE then 1
    else 2
  }

  /** Each change a merge makes to a slot moves it strictly up a lattice of
      height two, so a slot changes at most twice and the fixed point terminates. */
  lemma MergeClimbs(v: BasicValue, w: BasicValue)
    ensures Merge(v, w) != v ==> Height(Merge(v, w)) < Height(v)
  {
  }
}
