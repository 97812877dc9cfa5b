/** `RedundantStoreMethodTransformer`: a store whose variable is dead right
    after it is taken out. When the stored value was pushed by a load (or
    copied by a DUP) on straight-line code just before, that instruction goes
    too; otherwise the store becomes a pop of the same width. A store whose
    variable is read once by the very next load and is dead after that load
    disappears together with the load, leaving the value on the stack.

    The edits are decided on the instruction snapshot and applied afterwards.
    Liveness is an input: `alive[k]` is the set of variables live on entry to
    instruction `k`. Frames are the loaded-value analyzer's, one per
    instruction, `None` where the analyzer never arrived. */
module RedundantStoreElimination {
  import opened Wrappers
  import opened Opcodes
  import opened Insns
  import opened OptimizationBasicValues
  import opened Frames
  import opened LoadedValues
  import opened SnapshotEdits
  import opened DataFlowGraph

  type LvFrames = seq<Option<Frame<LvValue>>>

  /** `getAppropriatePopOperation`: POP2 for LSTORE and DSTORE, POP otherwise. */
  function AppropriatePop(store: Insn): (pop: Insn)
    requires store.IsStore()
    ensures pop.ZeroOperand? && (pop.opcode == POP || pop.opcode == POP2)
    ensures pop.opcode == POP2 <==> store.opcode in {LSTORE, DSTORE}
  {
    ZeroOperand(if store.opcode == LSTORE || store.opcode == DSTORE then POP2 else POP)
  }

  /** The pop discards exactly the words the store would have taken: for any
      value the store's opcode is the right one for, the pop's width is the
      value's size. */
  lemma PopMatchesStoredWidth(store: Insn, v: BasicValue)
    requires store.IsStore() && v != UninitializedValue
    requires StoreOpcodeFor(TypeOf(v).value) == store.opcode
    ensures PopWords(AppropriatePop(store).opcode) == Size(v)
  {
  }

  /** `isSafeToRemoveLoad`: the pushing instruction comes strictly before the
      store, and no jump or label lies from it up to the store. */
  predicate IsSafeToRemoveLoad(insns: seq<Insn>, load: nat, store: nat)
    requires store < |insns|
  {
    load < store && forall k :: load <= k < store ==> !(insns[k].JumpInsn? || insns[k].LabelNode?)
  }

  /** Why the window matters: when every branch target is a label, every
      instruction after the pushing one up to the store is entered only from
      the instruction before it, so the pushed value reaches the store along
      that one straight path. */
  lemma SafeWindowIsStraightLine(insns: seq<Insn>, tcbs: seq<TryCatchBlock>, load: nat, store: nat, i: nat, k: nat)
    requires TargetsAreLabels(insns, tcbs) && store < |insns| && insns[store].IsStore()
    requires IsSafeToRemoveLoad(insns, load, store)
    requires load < k <= store && i < |insns| && k in EdgesOf(insns, tcbs)[i]
    ensures i == k - 1
  {
    OnlyLabelsAreJoinPoints(insns, tcbs, i, k);
  }

  /** What the pass relies on: one frame and one liveness set per instruction;
      a store is never the last instruction (code cannot fall off its end),
      and a reached store finds its value on the stack. */
  predicate Shaped(insns: seq<Insn>, alive: seq<set<nat>>, frames: LvFrames) {
    && |alive| == |insns| && |frames| == |insns|
    && forall i :: 0 <= i < |insns| && insns[i].IsStore() ==>
         i + 1 < |insns| && (frames[i].Some? ==> |frames[i].value.stack| > 0)
  }

  /** `loadedFrames?.get(index)?.getStackTop()`. */
  function StoredValue(frames: LvFrames, i: nat): Option<LvValue>
    requires i < |frames| && (frames[i].Some? ==> |frames[i].value.stack| > 0)
  {
    if frames[i].Some? then Some(frames[i].value.StackTop()) else None
  }

  /** The decision taken at one instruction. */
  datatype StoreEdit =
    | Keep
    | RemoveWith(partner: nat)   // remove the store and the instruction `partner`
    | ReplaceWithPop(pop: Insn)

  /** Branch 1: the variable is dead after the store. */
  predicate DeadAfter(insns: seq<Insn>, alive: seq<set<nat>>, frames: LvFrames, i: nat)
    requires Shaped(insns, alive, frames) && i < |insns| && insns[i].IsStore()
  {
    insns[i].varIndex !in alive[i + 1]
  }

  /** Branch 1 can take the pushing instruction out too. */
  predicate LoadRemovable(insns: seq<Insn>, alive: seq<set<nat>>, frames: LvFrames, i: nat)
    requires Shaped(insns, alive, frames) && i < |insns| && insns[i].IsStore()
  {
    var top := StoredValue(frames, i);
    top.Some? && top.value.Loaded? && IsSafeToRemoveLoad(insns, top.value.insn, i)
  }

  /** Branch 2: live after the store, dead after the next instruction, which
      is a load. */
  predicate ReadOnceByNext(insns: seq<Insn>, alive: seq<set<nat>>, frames: LvFrames, i: nat)
    requires Shaped(insns, alive, frames) && i < |insns| && insns[i].IsStore()
  {
    && i + 2 < |insns|
    && insns[i].varIndex !in alive[i + 2]
    && insns[i + 1].IsLoad()
  }

  /** The body of the loop in `transform`, for the instruction at `i`. */
  function EditAt(insns: seq<Insn>, alive: seq<set<nat>>, frames: LvFrames, i: nat): (e: StoreEdit)
    requires Shaped(insns, alive, frames) && i < |insns|
    ensures !insns[i].IsStore() ==> e == Keep
  {
    if !insns[i].IsStore() then Keep
    else if DeadAfter(insns, alive, frames, i) then
      if LoadRemovable(insns, alive, frames, i) then RemoveWith(StoredValue(frames, i).value.DupInsnOrThis())
      else ReplaceWithPop(AppropriatePop(insns[i]))
    else if ReadOnceByNext(insns, alive, frames, i) then RemoveWith(i + 1)
    else Keep
  }

  /** Every removed instruction: the stores that go, and their partners. */
  function Removed(insns: seq<Insn>, alive: seq<set<nat>>, frames: LvFrames): set<nat>
    requires Shaped(insns, alive, frames)
  {
    var stores := set i: nat | i < |insns| && EditAt(insns, alive, frames, i).RemoveWith?;
    stores + set i: nat | i < |insns| && i in stores :: EditAt(insns, alive, frames, i).partner
  }

  function Replacements(insns: seq<Insn>, alive: seq<set<nat>>, frames: LvFrames): map<nat, Insn>
    requires Shaped(insns, alive, frames)
  {
    map i: nat | i < |insns| && EditAt(insns, alive, frames, i).ReplaceWithPop? :: EditAt(insns, alive, frames, i).pop
  }

  /** `RedundantStoreMethodTransformer.transform`: the surviving snapshot
      instructions in order, each store that became a pop replaced by it. */
  function Transform(insns: seq<Insn>, alive: seq<set<nat>>, frames: LvFrames): (r: seq<Insn>)
    requires Shaped(insns, alive, frames)
    ensures var ks := Kept(|insns|, Removed(insns, alive, frames));
            && |r| == |ks|
            && forall j :: 0 <= j < |ks| ==> r[j] == Edited(insns, Replacements(insns, alive, frames), ks[j])
  {
    ApplyKeepsSurvivors(insns, Removed(insns, alive, frames), Replacements(insns, alive, frames));
    Apply(insns, Removed(insns, alive, frames), Replacements(insns, alive, frames))
  }

  // ---------------------------------------------------------------------
  // The fate of each store.

  /** A store whose variable is dead after it never stays as it was: it is
      removed, or it becomes the pop of its width. */
  lemma DeadStoreNeverKept(insns: seq<Insn>, alive: seq<set<nat>>, frames: LvFrames, i: nat)
    requires Shaped(insns, alive, frames) && i < |insns| && insns[i].IsStore()
    requires DeadAfter(insns, alive, frames, i)
    ensures i in Removed(insns, alive, frames) ||
            Edited(insns, Replacements(insns, alive, frames), i) == AppropriatePop(insns[i])
    ensures i !in Removed(insns, alive, frames) ==> Edited(insns, Replacements(insns, alive, frames), i) != insns[i]
  {
    if !LoadRemovable(insns, alive, frames, i) {
      assert EditAt(insns, alive, frames, i).ReplaceWithPop?;
    } else {
      assert EditAt(insns, alive, frames, i).RemoveWith?;
    }
  }

  /** A removable load goes with the store: the recorded DUP if there is one,
      otherwise the instruction that pushed the value. */
  lemma RemovableLoadGoesWithStore(insns: seq<Insn>, alive: seq<set<nat>>, frames: LvFrames, i: nat)
    requires Shaped(insns, alive, frames) && i < |insns| && insns[i].IsStore()
    requires DeadAfter(insns, alive, frames, i) && LoadRemovable(insns, alive, frames, i)
    ensures var top := StoredValue(frames, i).value;
            && i in Removed(insns, alive, frames)
            && top.DupInsnOrThis() in Removed(insns, alive, frames)
            && (top.dupInsn.None? ==> top.insn in Removed(insns, alive, frames))
  {
    assert EditAt(insns, alive, frames, i).RemoveWith?;
  }

  /** Otherwise a dead store is replaced by its pop, whatever its value. */
  lemma UnremovableLoadLeavesPop(insns: seq<Insn>, alive: seq<set<nat>>, frames: LvFrames, i: nat)
    requires Shaped(insns, alive, frames) && i < |insns| && insns[i].IsStore()
    requires DeadAfter(insns, alive, frames, i) && !LoadRemovable(insns, alive, frames, i)
    ensures Replacements(insns, alive, frames)[i] == AppropriatePop(insns[i])
  {
    assert EditAt(insns, alive, frames, i).ReplaceWithPop?;
  }

  /** Branch 2 removes the store and the load after it. */
  lemma StoreThenLoadBothGo(insns: seq<Insn>, alive: seq<set<nat>>, frames: LvFrames, i: nat)
    requires Shaped(insns, alive, frames) && i < |insns| && insns[i].IsStore()
    requires !DeadAfter(insns, alive, frames, i) && ReadOnceByNext(insns, alive, frames, i)
    ensures i in Removed(insns, alive, frames) && i + 1 in Removed(insns, alive, frames)
  {
    assert EditAt(insns, alive, frames, i) == RemoveWith(i + 1);
  }

  /** The code checks only that a load follows, not which variable it reads.
      Under liveness that follows the load's transfer (live before it is at
      most what it reads plus what is live after it), the load reads the
      stored variable. */
  lemma ReadOnceLoadReadsStoredVariable(insns: seq<Insn>, alive: seq<set<nat>>, frames: LvFrames, i: nat)
    requires Shaped(insns, alive, frames) && i < |insns| && insns[i].IsStore()
    requires !DeadAfter(insns, alive, frames, i) && ReadOnceByNext(insns, alive, frames, i)
    requires alive[i + 1] <= {insns[i + 1].varIndex} + alive[i + 2]
    ensures insns[i + 1].varIndex == insns[i].varIndex
  {
  }

  // ---------------------------------------------------------------------
  // Under the analyzer's frames: partners are earlier loads and DUPs.

  predicate IsCopyAt(insns: seq<Insn>, k: nat) {
    k < |insns| && (insns[k].IsLoad() || IsDup(insns[k]))
  }

  /** A loaded value stored at a reached store was pushed by an earlier load
      or DUP, and a DUP it records is an earlier DUP. */
  predicate PartnersAreCopies(insns: seq<Insn>, alive: seq<set<nat>>, frames: LvFrames)
    requires Shaped(insns, alive, frames)
  {
    forall i :: 0 <= i < |insns| && insns[i].IsStore() && StoredValue(frames, i).Some? && StoredValue(frames, i).value.Loaded? ==>
      var v := StoredValue(frames, i).value;
      && v.insn < i && IsCopyAt(insns, v.insn)
      && (v.dupInsn.Some? ==> v.dupInsn.value < i && IsCopyAt(insns, v.dupInsn.value) && IsDup(insns[v.dupInsn.value]))
  }

  /** With the analyzer's frames the instruction removed with a store is a
      load or a DUP. */
  lemma PartnerIsCopy(insns: seq<Insn>, alive: seq<set<nat>>, frames: LvFrames, s: nat)
    requires Shaped(insns, alive, frames) && PartnersAreCopies(insns, alive, frames)
    requires s < |insns| && EditAt(insns, alive, frames, s).RemoveWith?
    ensures IsCopyAt(insns, EditAt(insns, alive, frames, s).partner)
  {
    assert insns[s].IsStore();
  }

  /** With the analyzer's frames the pass touches nothing but stores, loads
      and DUPs: it removes only those and replaces only stores, by pops. Every
      other instruction survives unchanged. */
  lemma OnlyStoresAndTheirCopiesChange(insns: seq<Insn>, alive: seq<set<nat>>, frames: LvFrames, k: nat)
    requires Shaped(insns, alive, frames) && PartnersAreCopies(insns, alive, frames) && k < |insns|
    ensures k in Removed(insns, alive, frames) ==> insns[k].IsStore() || IsCopyAt(insns, k)
    ensures k in Replacements(insns, alive, frames) ==>
      insns[k].IsStore() && Replacements(insns, alive, frames)[k] == AppropriatePop(insns[k])
    ensures !insns[k].IsStore() && !IsCopyAt(insns, k) ==>
      k in Kept(|insns|, Removed(insns, alive, frames)) && Edited(insns, Replacements(insns, alive, frames), k) == insns[k]
  {
    var removed := Removed(insns, alive, frames);
    if k in removed && !insns[k].IsStore() {
      var i: nat :| i < |insns| && EditAt(insns, alive, frames, i).RemoveWith? && EditAt(insns, alive, frames, i).partner == k;
      assert insns[i].IsStore();
    }
    if !insns[k].IsStore() && !IsCopyAt(insns, k) {
      KeptComplete(|insns|, removed, k);
    }
  }

  /** With the analyzer's frames a store never doubles as another store's
      partner, so each store's fate is exactly its own decision: removed
      exactly when its variable is dead after it and the load can go, or when
      the next load reads it once; replaced by its pop exactly when its
      variable is dead after it and the load cannot go; otherwise unchanged. */
  lemma StoreFate(insns: seq<Insn>, alive: seq<set<nat>>, frames: LvFrames, i: nat)
    requires Shaped(insns, alive, frames) && PartnersAreCopies(insns, alive, frames)
    requires i < |insns| && insns[i].IsStore()
    ensures i in Removed(insns, alive, frames) <==>
      (DeadAfter(insns, alive, frames, i) && LoadRemovable(insns, alive, frames, i)) ||
      (!DeadAfter(insns, alive, frames, i) && ReadOnceByNext(insns, alive, frames, i))
    ensures i in Replacements(insns, alive, frames) <==>
      DeadAfter(insns, alive, frames, i) && !LoadRemovable(insns, alive, frames, i)
    ensures i in Kept(|insns|, Removed(insns, alive, frames)) && Edited(insns, Replacements(insns, alive, frames), i) == insns[i] <==>
      !DeadAfter(insns, alive, frames, i) && !ReadOnceByNext(insns, alive, frames, i)
  {
    var removed := Removed(insns, alive, frames);
    forall s: nat | s < |insns| && EditAt(insns, alive, frames, s).RemoveWith?
      ensures EditAt(insns, alive, frames, s).partner != i
    {
      PartnerIsCopy(insns, alive, frames, s);
    }
    if i !in removed {
      KeptComplete(|insns|, removed, i);
    }
  }

  // ---------------------------------------------------------------------
  // Small methods.

  /** `int x = 0; return x;` */
  function ReturnInsns(): seq<Insn> {
    [ZeroOperand(ICONST_0), VarInsn(ISTORE, 0), VarInsn(ILOAD, 0), ZeroOperand(IRETURN)]
  }

  function ReturnAlive(): seq<set<nat>> {
    [{}, {}, {0}, {}]
  }

  /** The loaded-value analyzer's frames for `ReturnInsns`. */
  function ReturnFrames(): LvFrames {
    var u, n := Plain(UninitializedValue), Plain(IntValue);
    [Some(Frame([u], [])), Some(Frame([u], [n])), Some(Frame([n], [])), Some(Frame([n], [Loaded(2, n, None)]))]
  }

  lemma StoreThenReturnEdits()
    ensures Shaped(ReturnInsns(), ReturnAlive(), ReturnFrames())
    ensures forall i :: 0 <= i < 4 ==>
      EditAt(ReturnInsns(), ReturnAlive(), ReturnFrames(), i) == if i == 1 then RemoveWith(2) else Keep
  {
    var insns, alive, frames := ReturnInsns(), ReturnAlive(), ReturnFrames();
    assert Shaped(insns, alive, frames);
    assert !DeadAfter(insns, alive, frames, 1) && ReadOnceByNext(insns, alive, frames, 1);
  }

  /** The store is read once by the next load, so both go and the constant
      is returned straight from the stack. */
  lemma StoreThenReturnScenario()
    ensures var insns, alive, frames := ReturnInsns(), ReturnAlive(), ReturnFrames();
            && Shaped(insns, alive, frames)
            && Transform(insns, alive, frames) == [ZeroOperand(ICONST_0), ZeroOperand(IRETURN)]
  {
    var insns, alive, frames := ReturnInsns(), ReturnAlive(), ReturnFrames();
    StoreThenReturnEdits();
    var stores := set i: nat | i < |insns| && EditAt(insns, alive, frames, i).RemoveWith?;
    assert stores == {1};
    assert Removed(insns, alive, frames) == {1, 2};
    assert Replacements(insns, alive, frames) == map[];
    assert Kept(3, {1, 2}) == [0];
    assert Kept(4, {1, 2}) == [0, 3];
  }

  /** `y = x` with `y` never read again. */
  function CopyInsns(): seq<Insn> {
    [VarInsn(ILOAD, 0), VarInsn(ISTORE, 1), ZeroOperand(RETURN)]
  }

  function CopyAlive(): seq<set<nat>> {
    [{0}, {}, {}]
  }

  /** The loaded-value analyzer's frames for `CopyInsns`. */
  function CopyFrames(): LvFrames {
    var n := Plain(IntValue);
    var loaded := Loaded(0, n, None);
    [Some(Frame([n, n], [])), Some(Frame([n, n], [loaded])), Some(Frame([n, loaded], []))]
  }

  lemma DeadCopyEdits()
    ensures Shaped(CopyInsns(), CopyAlive(), CopyFrames())
    ensures forall i :: 0 <= i < 3 ==>
      EditAt(CopyInsns(), CopyAlive(), CopyFrames(), i) == if i == 1 then RemoveWith(0) else Keep
  {
    var insns, alive, frames := CopyInsns(), CopyAlive(), CopyFrames();
    assert Shaped(insns, alive, frames);
    assert DeadAfter(insns, alive, frames, 1) && LoadRemovable(insns, alive, frames, 1);
  }

  /** The dead copy loses both its load and its store. */
  lemma DeadCopyScenario()
    ensures var insns, alive, frames := CopyInsns(), CopyAlive(), CopyFrames();
            && Shaped(insns, alive, frames)
            && Transform(insns, alive, frames) == [ZeroOperand(RETURN)]
  {
    var insns, alive, frames := CopyInsns(), CopyAlive(), CopyFrames();
    DeadCopyEdits();
    var stores := set i: nat | i < |insns| && EditAt(insns, alive, frames, i).RemoveWith?;
    assert stores == {1};
    assert Removed(insns, alive, frames) == {0, 1};
    assert Replacements(insns, alive, frames) == map[];
    assert Kept(2, {0, 1}) == [];
    assert Kept(3, {0, 1}) == [2];
  }

  /** A store of a computed long: `long z = x + x;` with `z` never read. A
      long takes two local slots; the second holds the uninitialized value. */
  function LongInsns(): seq<Insn> {
    [VarInsn(LLOAD, 0), VarInsn(LLOAD, 0), ZeroOperand(LADD), VarInsn(LSTORE, 2), ZeroOperand(RETURN)]
  }

  function LongAlive(): seq<set<nat>> {
    [{0}, {0}, {}, {}, {}]
  }

  /** The loaded-value analyzer's frames for `LongInsns`. */
  function LongFrames(): LvFrames {
    var u, n := Plain(UninitializedValue), Plain(LongValue);
    var locals := [n, u, u, u];
    [Some(Frame(locals, [])), Some(Frame(locals, [Loaded(0, n, None)])),
     Some(Frame(locals, [Loaded(0, n, None), Loaded(1, n, None)])), Some(Frame(locals, [n])),
     Some(Frame([n, u, n, u], []))]
  }

  lemma DeadComputedStoreEdits()
    ensures Shaped(LongInsns(), LongAlive(), LongFrames())
    ensures forall i :: 0 <= i < 5 ==>
      EditAt(LongInsns(), LongAlive(), LongFrames(), i) == if i == 3 then ReplaceWithPop(ZeroOperand(POP2)) else Keep
  {
    var insns, alive, frames := LongInsns(), LongAlive(), LongFrames();
    assert Shaped(insns, alive, frames);
    assert DeadAfter(insns, alive, frames, 3) && !LoadRemovable(insns, alive, frames, 3);
  }

  /** The dead store becomes POP2 and nothing else changes. */
  lemma DeadComputedStoreScenario()
    ensures var insns, alive, frames := LongInsns(), LongAlive(), LongFrames();
            && Shaped(insns, alive, frames)
            && Transform(insns, alive, frames) ==
               [VarInsn(LLOAD, 0), VarInsn(LLOAD, 0), ZeroOperand(LADD), ZeroOperand(POP2), ZeroOperand(RETURN)]
  {
    var insns, alive, frames := LongInsns(), LongAlive(), LongFrames();
    DeadComputedStoreEdits();
    assert Removed(insns, alive, frames) == {};
    assert Replacements(insns, alive, frames) == map[3 := ZeroOperand(POP2)];
    ApplySingleReplacement(insns, 3, ZeroOperand(POP2));
  }

  /** Two stores can name the same partner: `x = 0; y = x;` with neither
      read again. The load of `x` is the next instruction after the store to
      `x`, which is dead after it, so branch 2 takes the load; the store to
      `y` is dead after it and stores that load's value, so branch 1 takes the
      same load. */
  function SharedInsns(): seq<Insn> {
    [ZeroOperand(ICONST_0), VarInsn(ISTORE, 1), VarInsn(ILOAD, 1), VarInsn(ISTORE, 2), ZeroOperand(RETURN)]
  }

  function SharedAlive(): seq<set<nat>> {
    [{}, {}, {1}, {}, {}]
  }

  /** The loaded-value analyzer's frames for `SharedInsns`. */
  function SharedFrames(): LvFrames {
    var u, n := Plain(UninitializedValue), Plain(IntValue);
    var loaded := Loaded(2, n, None);
    [Some(Frame([u, u, u], [])), Some(Frame([u, u, u], [n])), Some(Frame([u, n, u], [])),
     Some(Frame([u, n, u], [loaded])), Some(Frame([u, n, loaded], []))]
  }

  lemma SharedPartnerEdits()
    ensures Shaped(SharedInsns(), SharedAlive(), SharedFrames())
    ensures forall i :: 0 <= i < 5 ==>
      EditAt(SharedInsns(), SharedAlive(), SharedFrames(), i) == if i == 1 || i == 3 then RemoveWith(2) else Keep
  {
    var insns, alive, frames := SharedInsns(), SharedAlive(), SharedFrames();
    assert Shaped(insns, alive, frames);
    assert !DeadAfter(insns, alive, frames, 1) && ReadOnceByNext(insns, alive, frames, 1);
    assert DeadAfter(insns, alive, frames, 3) && LoadRemovable(insns, alive, frames, 3);
  }

  /** Both stores and their one shared partner are removed, and on the
      snapshot the constant is left on the stack for the return. */
  lemma SharedPartnerScenario()
    ensures var insns, alive, frames := SharedInsns(), SharedAlive(), SharedFrames();
            && Shaped(insns, alive, frames)
            && EditAt(insns, alive, frames, 1) == RemoveWith(2)
            && EditAt(insns, alive, frames, 3) == RemoveWith(2)
            && Removed(insns, alive, frames) == {1, 2, 3}
            && Transform(insns, alive, frames) == [ZeroOperand(ICONST_0), ZeroOperand(RETURN)]
  {
    var insns, alive, frames := SharedInsns(), SharedAlive(), SharedFrames();
    SharedPartnerEdits();
    var stores := set i: nat | i < |insns| && EditAt(insns, alive, frames, i).RemoveWith?;
    assert stores == {1, 3};
    assert Removed(insns, alive, frames) == {1, 2, 3};
    assert Replacements(insns, alive, frames) == map[];
    assert Kept(4, {1, 2, 3}) == [0];
    assert Kept(5, {1, 2, 3}) == [0, 4];
  }
}
