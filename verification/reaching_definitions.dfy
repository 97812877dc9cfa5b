/** `ReachingDefinitionsValue` and `VariablesCopyPropagationInterpreter`: the
    value domain of copy propagation. A local written by a store or an IINC
    carries the set of definition sites (snapshot indices) that may have
    written it, with the base value stored there. */
module ReachingDefinitions {
  import opened Wrappers
  import opened Opcodes
  import opened Insns
  import opened OptimizationBasicValues
  import Base = OptimizationBasicInterpreter

  /** A definition-index set is never empty: it starts as one index and only grows. */
  type DefSet = s: set<nat> | s != {} witness {0}

  /** The base value is a `BasicValue`, so it is never itself a
      reaching-definitions value: nested wrappers are unwrapped on construction. */
  datatype ReachingValue = ReachingValue(definitionIndices: DefSet, basicValue: BasicValue)

  datatype RdValue =
    | Plain(value: BasicValue)
    | Reaching(rv: ReachingValue)
  {
    /** The base value under the wrapper, if any. */
    function BasicValueOf(): BasicValue {
      match this
      case Plain(v) => v
      case Reaching(r) => r.basicValue
    }
  }

  /** The least element of a non-empty set. */
  ghost function Least(s: set<nat>): (d: nat)
    requires s != {}
    ensures d in s && forall e :: e in s ==> d <= e
    decreases |s|
  {
    var x :| x in s;
    var rest := s - {x};
    assert forall e :: e in s ==> e == x || e in rest;
    if rest == {} then x
    else
      var m := Least(rest);
      if x < m then x else m
  }

  /** `definitionIndices.first()`. The source takes whichever element its hash
      set yields first; the model takes the least. */
  function First(s: DefSet): (d: nat)
    ensures d in s && forall e :: e in s ==> d <= e
  {
    assert Least(s) in s;
    var d :| d in s && forall e :: e in s ==> d <= e; d
  }

  /** `createByDefinitionIndex`: a single definition, storing the base value
      of `stored`. */
  function CreateByDefinitionIndex(definitionIndex: nat, stored: RdValue): (r: ReachingValue)
    ensures r.definitionIndices == {definitionIndex} && First(r.definitionIndices) == definitionIndex
    ensures r.basicValue == stored.BasicValueOf()
  {
    ReachingValue({definitionIndex}, stored.BasicValueOf())
  }

  /** Storing a value that already carries definitions keeps only its base
      value: re-wrapping never nests. */
  lemma CreateUnwrapsNested(d: nat, e: nat, v: RdValue)
    ensures CreateByDefinitionIndex(d, Reaching(CreateByDefinitionIndex(e, v))).basicValue == v.BasicValueOf()
  {
  }

  /** `equals`, for both runtime classes: a reaching-definitions value equals
      one with the same index set and an equal base value; a plain value
      equals a plain value of the same type; the classes never mix. */
  predicate Equals(v: RdValue, w: RdValue) {
    match v
    case Reaching(r) =>
      w.Reaching? && r.definitionIndices == w.rv.definitionIndices && r.basicValue == w.rv.basicValue
    case Plain(b) => w.Plain? && TypeOf(w.value) == TypeOf(b)
  }

  /** Equality is exactly equality of the modelled values. */
  lemma EqualsIsStructural(v: RdValue, w: RdValue)
    ensures Equals(v, w) <==> v == w
  {
    if v.Plain? && w.Plain? {
      EqualIffSameType(v.value, w.value);
    }
  }

  /** `VariablesCopyPropagationInterpreter.merge` with
      `ReachingDefinitionsValue.merge`: two reaching-definitions values give
      the first with the union of both index sets; a mixed pair or two plain
      values meet in the base lattice. */
  function Merge(v: RdValue, w: RdValue): (r: RdValue)
    ensures r.Reaching? <==> v.Reaching? && w.Reaching?
    ensures r.Reaching? ==> r.rv.definitionIndices == v.rv.definitionIndices + w.rv.definitionIndices
    ensures r.Reaching? ==> r.rv.basicValue == v.rv.basicValue
    ensures r.Plain? ==> r.value == Base.Merge(v.BasicValueOf(), w.BasicValueOf())
  {
    if v.Reaching? && w.Reaching? then
      if Equals(v, w) then v
      else Reaching(ReachingValue(v.rv.definitionIndices + w.rv.definitionIndices, v.rv.basicValue))
    else if v.Reaching? then Plain(Base.Merge(v.rv.basicValue, w.value))
    else if w.Reaching? then Plain(Base.Merge(v.value, w.rv.basicValue))
    else Plain(Base.Merge(v.value, w.value))
  }

  /** A merged value holds every definition of both inputs. */
  lemma MergeContainsBoth(v: RdValue, w: RdValue)
    requires v.Reaching? && w.Reaching?
    ensures v.rv.definitionIndices <= Merge(v, w).rv.definitionIndices
    ensures w.rv.definitionIndices <= Merge(v, w).rv.definitionIndices
  {
  }

  /** Merge laws: idempotent; the index sets of the result do not depend on
      argument order; merging in a value whose definitions are already there
      changes nothing. */
  lemma MergeLaws(u: RdValue, v: RdValue, w: RdValue)
    ensures Merge(v, v) == v
    ensures v.Reaching? && w.Reaching? ==>
      Merge(v, w).rv.definitionIndices == Merge(w, v).rv.definitionIndices
    ensures u.Reaching? && v.Reaching? && w.Reaching? ==>
      Merge(Merge(u, v), w).rv.definitionIndices == Merge(u, Merge(v, w)).rv.definitionIndices
    ensures v.Reaching? && w.Reaching? && w.rv.definitionIndices <= v.rv.definitionIndices ==> Merge(v, w) == v
  {
    if v.Plain? {
      Base.MergeIdempotent(v.value);
    }
  }

  /** `copyOperation`: a store defines its variable with a single-index value
      naming the store; every other copy hands its value on. */
  function CopyOperation(index: nat, insn: Insn, value: RdValue): (r: RdValue)
    ensures insn.IsStore() ==> r.Reaching? && r.rv.definitionIndices == {index}
    ensures !insn.IsStore() ==> r == value
    ensures r.BasicValueOf() == value.BasicValueOf()
  {
    if insn.IsStore() then Reaching(CreateByDefinitionIndex(index, value)) else value
  }

  /** `unaryOperation`: IINC defines its variable with a single-index value
      naming itself and keeping the variable's base value; any other
      instruction is the base interpreter's, its result plain. */
  function UnaryOperation(index: nat, insn: Insn, value: RdValue): (r: Result<Option<RdValue>>)
    ensures insn.Opcode() == IINC ==>
      r.Ok? && r.value.Some? && r.value.value.Reaching?
      && r.value.value.rv.definitionIndices == {index} && r.value.value.rv.basicValue == value.BasicValueOf()
    ensures insn.Opcode() != IINC ==>
      && (r.Ok? <==> Base.UnaryOperation(insn).Ok?)
      && (r.Ok? ==> (r.value.None? <==> Base.UnaryOperation(insn).value.None?))
      && (r.Ok? && r.value.Some? ==> r.value.value == Plain(Base.UnaryOperation(insn).value.value))
  {
    if insn.Opcode() == IINC then Ok(Some(Reaching(CreateByDefinitionIndex(index, value))))
    else
      match Base.UnaryOperation(insn)
      case Fail(e) => Fail(e)
      case Ok(None) => Ok(None)
      case Ok(Some(b)) => Ok(Some(Plain(b)))
  }

  /** `getVarIndex`: the variable written by the instruction at the first
      definition index; anything but a variable instruction or an IINC there
      is an assertion failure. */
  function GetVarIndex(insns: seq<Insn>, v: ReachingValue): (r: Result<nat>)
    requires forall d :: d in v.definitionIndices ==> d < |insns|
    ensures var insn := insns[First(v.definitionIndices)];
            && (r.Ok? <==> insn.VarInsn? || insn.IincInsn?)
            && (r.Ok? ==> r.value == insn.varIndex)
            && (r.Fail? ==> r.error == UnexpectedVarOperation)
  {
    match insns[First(v.definitionIndices)]
    case VarInsn(_, x) => Ok(x)
    case IincInsn(x, _) => Ok(x)
    case _ => Fail(UnexpectedVarOperation)
  }

  /** Every index names a store or an IINC. */
  predicate AtDefinitions(insns: seq<Insn>, v: ReachingValue) {
    forall d :: d in v.definitionIndices ==> d < |insns| && insns[d].IsDefinition()
  }

  /** Every index names a store or an IINC of variable `x`. */
  predicate DefinesVariable(insns: seq<Insn>, v: ReachingValue, x: nat) {
    forall d :: d in v.definitionIndices ==> d < |insns| && insns[d].IsDefinition() && insns[d].varIndex == x
  }

  /** What the analyzer keeps true of a local `x`: the value a store of `x`
      puts there names that store alone, and it names `x`. */
  lemma StoreDefinesItsVariable(insns: seq<Insn>, i: nat, value: RdValue)
    requires i < |insns| && insns[i].IsStore()
    ensures var r := CopyOperation(i, insns[i], value);
            r.Reaching? && DefinesVariable(insns, r.rv, insns[i].varIndex)
  {
  }

  /** Likewise for IINC, the other instruction that defines a variable. */
  lemma IincDefinesItsVariable(insns: seq<Insn>, i: nat, value: RdValue)
    requires i < |insns| && insns[i].IincInsn?
    ensures var r := UnaryOperation(i, insns[i], value);
            r.Ok? && r.value.Some? && r.value.value.Reaching? && DefinesVariable(insns, r.value.value.rv, insns[i].varIndex)
  {
  }

  /** A merge of two values that both define only `x` defines only `x`:
      the union of the index sets keeps every index a definition of `x`. */
  lemma MergeKeepsDefinesVariable(insns: seq<Insn>, v: RdValue, w: RdValue, x: nat)
    requires v.Reaching? && w.Reaching?
    requires DefinesVariable(insns, v.rv, x) && DefinesVariable(insns, w.rv, x)
    ensures Merge(v, w).Reaching? && DefinesVariable(insns, Merge(v, w).rv, x)
  {
    var r := Merge(v, w).rv;
    forall d | d in r.definitionIndices
      ensures d < |insns| && insns[d].IsDefinition() && insns[d].varIndex == x
    {
      assert d in v.rv.definitionIndices || d in w.rv.definitionIndices;
    }
  }

  /** On values the analyzer builds `getVarIndex` never fails, and when all
      definitions write one variable it answers that variable, whichever
      index the set yields first. */
  lemma GetVarIndexAtDefinitions(insns: seq<Insn>, v: ReachingValue, x: nat)
    requires AtDefinitions(insns, v)
    ensures GetVarIndex(insns, v).Ok?
    ensures DefinesVariable(insns, v, x) ==>
      GetVarIndex(insns, v) == Ok(x) && forall d :: d in v.definitionIndices ==> insns[d].varIndex == x
  {
  }
}
