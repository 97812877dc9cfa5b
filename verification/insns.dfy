/** The instruction list the optimiser works on, reduced to what the passes
    look at: the node class, the opcode and the operands. A jump, switch or
    try/catch target is the index of its label in the same list. */
module Insns {
  import opened Opcodes

  /** A JVM type as the optimiser sees it; descriptors are kept as text and
      never parsed. */
  datatype AsmType =
    | VoidType | BooleanType | CharType | ByteType | ShortType
    | IntType | FloatType | LongType | DoubleType
    | ArrayType(descriptor: string)
    | ObjectType(internalName: string)
    | MethodType(descriptor: string)

  /** The type of an internal class name: a name starting with '[' denotes an array. */
  function ObjectTypeOf(internalName: string): (t: AsmType)
    ensures t.ArrayType? || t == ObjectType(internalName)
    ensures t.ArrayType? <==> |internalName| > 0 && internalName[0] == '['
  {
    if |internalName| > 0 && internalName[0] == '[' then ArrayType(internalName)
    else ObjectType(internalName)
  }

  /** The runtime class of an LDC constant. */
  datatype Constant =
    | IntegerConst | BooleanConst | ShortConst | ByteConst | CharacterConst
    | LongConst | FloatConst | DoubleConst
    | StringConst
    | TypeConst(asmType: AsmType)
    | HandleConst
    | OtherConst

  datatype Insn =
    | ZeroOperand(opcode: Opcode)                 // an operand-less InsnNode
    | IntOperand(opcode: Opcode, operand: int)    // BIPUSH, SIPUSH, NEWARRAY
    | VarInsn(opcode: Opcode, varIndex: nat)
    | IincInsn(varIndex: nat, increment: int)
    | TypeInsn(opcode: Opcode, desc: string)      // NEW, ANEWARRAY, CHECKCAST, INSTANCEOF
    | FieldInsn(opcode: Opcode, fieldType: AsmType)
    | MethodInsn(opcode: Opcode)                  // invocations; descriptors not modelled
    | JumpInsn(opcode: Opcode, target: nat)
    | LdcInsn(cst: Constant)
    | TableSwitchInsn(dflt: nat, labels: seq<nat>)
    | LookupSwitchInsn(dflt: nat, labels: seq<nat>)
    | LabelNode
    | LineNumberNode(line: nat)
    | FrameNode
  {
    /** `getOpcode()`: pseudo-instructions answer -1. */
    function Opcode(): Opcode {
      match this
      case ZeroOperand(op) => op
      case IntOperand(op, _) => op
      case VarInsn(op, _) => op
      case IincInsn(_, _) => IINC
      case TypeInsn(op, _) => op
      case FieldInsn(op, _) => op
      case MethodInsn(op) => op
      case JumpInsn(op, _) => op
      case LdcInsn(_) => LDC
      case TableSwitchInsn(_, _) => TABLESWITCH
      case LookupSwitchInsn(_, _) => LOOKUPSWITCH
      case LabelNode => -1
      case LineNumberNode(_) => -1
      case FrameNode => -1
    }

    /** Labels, line numbers and stack-map frames are bookkeeping; everything else
        has a runtime effect. */
    predicate IsMeaningful() {
      !(LabelNode? || LineNumberNode? || FrameNode?)
    }

    predicate IsReturn() { IsReturnOpcode(Opcode()) }

    predicate IsLoad() { VarInsn? && IsLoadOpcode(opcode) }

    predicate IsStore() { VarInsn? && IsStoreOpcode(opcode) }

    /** A store or an IINC: the instructions that define a local variable. */
    predicate IsDefinition() { IsStore() || IincInsn? }

    /** The node classes ASM builds for the variable opcodes: a `VarInsnNode`
        carries exactly the loads, the stores and RET, and an `IincInsnNode`
        exactly IINC. */
    predicate WellBuilt() {
      && (VarInsn? <==> IsLoadOpcode(Opcode()) || IsStoreOpcode(Opcode()) || Opcode() == RET)
      && (IincInsn? <==> Opcode() == IINC)
    }
  }

  /** On nodes ASM builds, the node-class tests of the model agree with the
      opcode-only tests `isLoadOperation` and `isStoreOperation`. */
  lemma WellBuiltOpcodeTests(insn: Insn)
    requires insn.WellBuilt()
    ensures insn.IsLoad() <==> IsLoadOpcode(insn.Opcode())
    ensures insn.IsStore() <==> IsStoreOpcode(insn.Opcode())
    ensures insn.IsDefinition() <==> IsStoreOpcode(insn.Opcode()) || insn.Opcode() == IINC
  {
  }

  /** A try/catch table entry; `start`, `end` and `handler` are label indices and
      the protected range is [start, end). */
  datatype TryCatchBlock = TryCatchBlock(start: nat, end: nat, handler: nat)
}
