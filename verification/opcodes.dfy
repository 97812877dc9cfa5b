/** The JVM opcode numbers the optimiser mentions, with the numeric values of
    chapter 6 of the Java Virtual Machine Specification, and the opcode
    classifications the passes use. */
module Opcodes {

  type Opcode = int

  const ACONST_NULL: Opcode := 1
  const ICONST_M1: Opcode := 2
  const ICONST_0: Opcode := 3
  const ICONST_5: Opcode := 8
  const LCONST_0: Opcode := 9
  const LCONST_1: Opcode := 10
  const FCONST_0: Opcode := 11
  const FCONST_2: Opcode := 13
  const DCONST_0: Opcode := 14
  const DCONST_1: Opcode := 15
  const BIPUSH: Opcode := 16
  const SIPUSH: Opcode := 17
  const LDC: Opcode := 18
  const ILOAD: Opcode := 21
  const LLOAD: Opcode := 22
  const FLOAD: Opcode := 23
  const DLOAD: Opcode := 24
  const ALOAD: Opcode := 25
  const IALOAD: Opcode := 46
  const LALOAD: Opcode := 47
  const FALOAD: Opcode := 48
  const DALOAD: Opcode := 49
  const AALOAD: Opcode := 50
  const BALOAD: Opcode := 51
  const CALOAD: Opcode := 52
  const SALOAD: Opcode := 53
  const ISTORE: Opcode := 54
  const LSTORE: Opcode := 55
  const FSTORE: Opcode := 56
  const DSTORE: Opcode := 57
  const ASTORE: Opcode := 58
  const POP: Opcode := 87
  const POP2: Opcode := 88
  const DUP: Opcode := 89
  const DUP2: Opcode := 92
  const IADD: Opcode := 96
  const LADD: Opcode := 97
  const FADD: Opcode := 98
  const DADD: Opcode := 99
  const ISUB: Opcode := 100
  const LSUB: Opcode := 101
  const FSUB: Opcode := 102
  const DSUB: Opcode := 103
  const IMUL: Opcode := 104
  const LMUL: Opcode := 105
  const FMUL: Opcode := 106
  const DMUL: Opcode := 107
  const IDIV: Opcode := 108
  const LDIV: Opcode := 109
  const FDIV: Opcode := 110
  const DDIV: Opcode := 111
  const IREM: Opcode := 112
  const LREM: Opcode := 113
  const FREM: Opcode := 114
  const DREM: Opcode := 115
  const INEG: Opcode := 116
  const LNEG: Opcode := 117
  const FNEG: Opcode := 118
  const DNEG: Opcode := 119
  const ISHL: Opcode := 120
  const LSHL: Opcode := 121
  const ISHR: Opcode := 122
  const LSHR: Opcode := 123
  const IUSHR: Opcode := 124
  const LUSHR: Opcode := 125
  const IAND: Opcode := 126
  const LAND: Opcode := 127
  const IOR: Opcode := 128
  const LOR: Opcode := 129
  const IXOR: Opcode := 130
  const LXOR: Opcode := 131
  const IINC: Opcode := 132
  const I2L: Opcode := 133
  const I2F: Opcode := 134
  const I2D: Opcode := 135
  const L2I: Opcode := 136
  const L2F: Opcode := 137
  const L2D: Opcode := 138
  const F2I: Opcode := 139
  const F2L: Opcode := 140
  const F2D: Opcode := 141
  const D2I: Opcode := 142
  const D2L: Opcode := 143
  const D2F: Opcode := 144
  const I2B: Opcode := 145
  const I2C: Opcode := 146
  const I2S: Opcode := 147
  const LCMP: Opcode := 148
  const DCMPG: Opcode := 152
  const IFEQ: Opcode := 153
  const IFLE: Opcode := 158
  const IF_ICMPEQ: Opcode := 159
  const IF_ACMPNE: Opcode := 166
  const GOTO: Opcode := 167
  const JSR: Opcode := 168
  const RET: Opcode := 169
  const TABLESWITCH: Opcode := 170
  const LOOKUPSWITCH: Opcode := 171
  const IRETURN: Opcode := 172
  const ARETURN: Opcode := 176
  const RETURN: Opcode := 177
  const GETSTATIC: Opcode := 178
  const PUTSTATIC: Opcode := 179
  const GETFIELD: Opcode := 180
  const PUTFIELD: Opcode := 181
  const NEW: Opcode := 187
  const NEWARRAY: Opcode := 188
  const ANEWARRAY: Opcode := 189
  const ARRAYLENGTH: Opcode := 190
  const ATHROW: Opcode := 191
  const CHECKCAST: Opcode := 192
  const INSTANCEOF: Opcode := 193
  const MONITORENTER: Opcode := 194
  const MONITOREXIT: Opcode := 195
  const IFNULL: Opcode := 198
  const IFNONNULL: Opcode := 199

  /** Element codes of NEWARRAY (T_BOOLEAN .. T_LONG). */
  const T_BOOLEAN: int := 4
  const T_LONG: int := 11

  /** The *RETURN family: IRETURN, LRETURN, FRETURN, DRETURN, ARETURN, RETURN. */
  predicate IsReturnOpcode(op: Opcode) { IRETURN <= op <= RETURN }

  /** ILOAD, LLOAD, FLOAD, DLOAD, ALOAD. */
  predicate IsLoadOpcode(op: Opcode) { ILOAD <= op <= ALOAD }

  /** ISTORE, LSTORE, FSTORE, DSTORE, ASTORE. */
  predicate IsStoreOpcode(op: Opcode) { ISTORE <= op <= ASTORE }

  /** Operand-stack words a POP / POP2 discards. */
  function PopWords(op: Opcode): nat
    requires op == POP || op == POP2
  {
    if op == POP2 then 2 else 1
  }
}
