/** `OptimizationBasicValue`: the abstract value of the base lattice. Ten
    singletons, plus a value per object type that `newValue` builds for a
    class other than java/lang/Object. Equality is equality of the carried
    type; the class-sensitive part of `equals` lives with each wrapper domain. */
module OptimizationBasicValues {
  import opened Wrappers
  import opened Opcodes
  import opened Insns

  datatype BasicValue =
    | UninitializedValue
    | IntValue | FloatValue | LongValue | DoubleValue
    | BooleanValue | CharValue | ByteValue | ShortValue
    | ObjectValue(internalName: string)

  const OBJECT_CLASS: string := "java/lang/Object"
  const REFERENCE_VALUE: BasicValue := ObjectValue(OBJECT_CLASS)

  /** `getType()`: the uninitialized value carries no type; every other value
      carries a primitive value type or an object type, never void, an array
      or a method type. */
  function TypeOf(v: BasicValue): (t: Option<AsmType>)
    ensures t.None? <==> v == UninitializedValue
    ensures t.Some? ==> !(t.value.VoidType? || t.value.ArrayType? || t.value.MethodType?)
    ensures t.Some? && t.value.ObjectType? <==> v.ObjectValue?
  {
    match v
    case UninitializedValue => None
    case IntValue => Some(IntType)
    case FloatValue => Some(FloatType)
    case LongValue => Some(LongType)
    case DoubleValue => Some(DoubleType)
    case BooleanValue => Some(BooleanType)
    case CharValue => Some(CharType)
    case ByteValue => Some(ByteType)
    case ShortValue => Some(ShortType)
    case ObjectValue(name) => Some(ObjectType(name))
  }

  /** `equals`: two values are equal exactly when their types are equal. */
  lemma EqualIffSameType(v: BasicValue, w: BasicValue)
    ensures v == w <==> TypeOf(v) == TypeOf(w)
  {
  }

  /** The store instruction a value of this type needs (`Type.getOpcode(ISTORE)`),
      for the types a value can carry. */
  function StoreOpcodeFor(t: AsmType): (op: Opcode)
    requires !(t.VoidType? || t.MethodType?)
    ensures IsStoreOpcode(op)
  {
    match t
    case BooleanType => ISTORE
    case CharType => ISTORE
    case ByteType => ISTORE
    case ShortType => ISTORE
    case IntType => ISTORE
    case FloatType => FSTORE
    case LongType => LSTORE
    case DoubleType => DSTORE
    case ArrayType(_) => ASTORE
    case ObjectType(_) => ASTORE
  }

  /** Values an int variable can hold: int, boolean, char, byte and short. */
  predicate IsIntStorable(v: BasicValue) {
    v != UninitializedValue && StoreOpcodeFor(TypeOf(v).value) == ISTORE
  }

  lemma IntStorableKinds(v: BasicValue)
    ensures IsIntStorable(v) <==> v in {IntValue, BooleanValue, CharValue, ByteValue, ShortValue}
  {
  }

  /** Operand-stack words a value occupies: two for long and double. */
  function Size(v: BasicValue): nat {
    if v == LongValue || v == DoubleValue then 2 else 1
  }
}
