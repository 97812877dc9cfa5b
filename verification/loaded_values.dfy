/** `LoadedValue` and `LoadedValueInterpreter`: the value domain of the
    redundant-store pass. A stack value pushed by a load or a DUP remembers the
    instruction that pushed it, so a dead store can take that instruction out
    together with itself. Instructions are named by snapshot index. */
module LoadedValues {
  import opened Wrappers
  import opened Opcodes
  import opened Insns
  import opened OptimizationBasicValues
  import Base = OptimizationBasicInterpreter

  datatype LvValue =
    | Plain(value: BasicValue)
    /** `LoadedValue(insn, wrappedValue)` with its mutable `dupInsn`. */
    | Loaded(insn: nat, wrapped: LvValue, dupInsn: Option<nat>)
  {
    /** `basicValue`: the base value under every wrapper. */
    function BasicValueOf(): BasicValue {
      match this
      case Plain(v) => v
      case Loaded(_, w, _) => w.BasicValueOf()
    }

    /** `dupInsnOrThis`: the DUP that copied this value if there was one,
        otherwise the instruction that pushed it. */
    function DupInsnOrThis(): (k: nat)
      requires Loaded?
      ensures k == insn || Some(k) == dupInsn
      ensures dupInsn.Some? ==> k == dupInsn.value
    {
      match dupInsn
      case Some(d) => d
      case None => insn
    }
  }

  /** `equals`, for both runtime classes: a loaded value equals another loaded
      value pushed by the same instruction; a plain value equals a plain value
      of the same type. A plain value never equals a loaded one, whatever they
      carry. */
  predicate Equals(v: LvValue, w: LvValue) {
    match v
    case Loaded(i, _, _) => w.Loaded? && w.insn == i
    case Plain(b) => w.Plain? && w.value == b
  }

  lemma EqualsIsEquivalence(u: LvValue, v: LvValue, w: LvValue)
    ensures Equals(v, v)
    ensures Equals(v, w) ==> Equals(w, v)
    ensures Equals(u, v) && Equals(v, w) ==> Equals(u, w)
  {
  }

  /** Two loaded values are equal exactly when they share the pushing
      instruction, whatever they wrap; two plain values exactly when their
      types are equal; no value of one class equals one of the other. */
  lemma EqualsCharacterisation(v: LvValue, w: LvValue)
    ensures v.Loaded? && w.Loaded? ==> (Equals(v, w) <==> v.insn == w.insn)
    ensures v.Plain? && w.Plain? ==> (Equals(v, w) <==> TypeOf(v.value) == TypeOf(w.value))
    ensures v.Plain? != w.Plain? ==> !Equals(v, w)
  {
    if v.Plain? && w.Plain? {
      EqualIffSameType(v.value, w.value);
    }
  }

  /** The two values a copy produces: the original, which a DUP marks with
      itself as `dupInsn`, and the value pushed as the copy. */
  datatype Copied = Copied(original: LvValue, pushed: LvValue)

  predicate IsDup(insn: Insn) {
    insn.Opcode() == DUP || insn.Opcode() == DUP2
  }

  /** `LoadedValueInterpreter.copyOperation` for the instruction at snapshot
      index `index`. A load or a DUP pushes a loaded value tagged with itself;
      a DUP also records itself on the value it copies; any other copy
      (a store, for instance) hands its value on unchanged. */
  function CopyOperation(index: nat, insn: Insn, value: LvValue): (r: Copied)
    ensures insn.IsLoad() || IsDup(insn) ==>
              r.pushed.Loaded? && r.pushed.insn == index && r.pushed.dupInsn == None && r.pushed.wrapped == r.original
    ensures !(insn.IsLoad() || IsDup(insn)) ==> r.pushed == value
    // the wrappers are transparent to the base lattice
    ensures r.pushed.BasicValueOf() == value.BasicValueOf()
    ensures r.original.BasicValueOf() == value.BasicValueOf()
    // only a DUP changes the original, and only its recorded DUP
    ensures Equals(r.original, value)
    ensures r.original != value <==> IsDup(insn) && !insn.IsLoad() && value.Loaded? && value.dupInsn != Some(index)
    ensures r.original != value ==> r.original == value.(dupInsn := Some(index))
  {
    if insn.IsLoad() then Copied(value, Loaded(index, value, None))
    else if IsDup(insn) then
      var marked := if value.Loaded? then value.(dupInsn := Some(index)) else value;
      Copied(marked, Loaded(index, marked, None))
    else Copied(value, value)
  }

  /** `LoadedValueInterpreter.merge` with `LoadedValue.merge`: two loaded
      values from the same instruction stay loaded and share a recorded DUP;
      any other pair involving a loaded value collapses to the first loaded
      argument's base value; two plain values use the base merge. */
  function Merge(v: LvValue, w: LvValue): (r: LvValue)
    ensures r.Loaded? <==> v.Loaded? && Equals(v, w)
    ensures r.Loaded? ==> r.insn == v.insn && r.wrapped == v.wrapped
    ensures r.Loaded? ==> (r.dupInsn.Some? <==> v.dupInsn.Some? || w.dupInsn.Some?)
    ensures r.Loaded? && v.dupInsn.Some? ==> r.dupInsn == v.dupInsn
    ensures r.Plain? && v.Loaded? ==> r.value == v.BasicValueOf()
    ensures r.Plain? && v.Plain? && w.Loaded? ==> r.value == w.BasicValueOf()
    ensures v.Plain? && w.Plain? ==> r == Plain(Base.Merge(v.value, w.value))
  {
    if v.Loaded? && Equals(v, w) then
      v.(dupInsn := if v.dupInsn.Some? then v.dupInsn else w.dupInsn)
    else if v.Loaded? then Plain(v.BasicValueOf())
    else if w.Loaded? then Plain(w.BasicValueOf())
    else Plain(Base.Merge(v.value, w.value))
  }

  /** Merge is idempotent, as the base merge is. */
  lemma MergeIdempotent(v: LvValue)
    ensures Merge(v, v) == v
  {
    if v.Plain? {
      Base.MergeIdempotent(v.value);
    }
  }

  /** Merging keeps the base value of a loaded slot when it stays loaded. */
  lemma MergeKeepsBaseWhenLoaded(v: LvValue, w: LvValue)
    requires Merge(v, w).Loaded?
    ensures Merge(v, w).BasicValueOf() == v.BasicValueOf()
    ensures Equals(Merge(v, w), v) && Equals(Merge(v, w), w)
  {
  }

  /** Unlike the base merge, a mismatch involving a loaded value keeps the
      loaded side's base value rather than meeting the two: merging a loaded
      int with a plain float gives int, where the base merge gives the
      uninitialized value. */
  lemma MergeCollapseIgnoresOtherSide()
    ensures var loaded := Loaded(0, Plain(IntValue), None);
            && Merge(loaded, Plain(FloatValue)) == Plain(IntValue)
            && Base.Merge(IntValue, FloatValue) == UninitializedValue
  {
  }
}
