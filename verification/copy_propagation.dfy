/** `VariablesCopyPropagationMethodTransformer` and its resolver: a load of a
    variable whose value was copied, through a chain of stores of loaded
    values, from an earlier definition is redirected to the variable that
    definition wrote, provided that variable still holds exactly that
    definition at the load. */
module CopyPropagation {
  import opened Wrappers
  import opened Opcodes
  import opened Insns
  import opened Frames
  import opened ReachingDefinitions
  import opened SnapshotEdits
  import Reachability

  type RdFrames = seq<Option<Frame<RdValue>>>

  /** `propagatedReachingDefinitions`: per definition index, the resolved
      definitions, or `None` while unresolved. */
  type Memo = seq<Option<ReachingValue>>

  predicate ValueAtDefinitions(insns: seq<Insn>, v: RdValue) {
    v.Reaching? ==> AtDefinitions(insns, v.rv)
  }

  /** A frame of the analyzer at instruction `k`: every variable any
      instruction names is a slot of it, a store finds its value on the stack,
      and every definition index in it names a store or an IINC. */
  predicate FrameFits(insns: seq<Insn>, k: nat, f: Frame<RdValue>)
    requires k < |insns|
  {
    && (forall j :: 0 <= j < |insns| && (insns[j].VarInsn? || insns[j].IincInsn?) ==> insns[j].varIndex < |f.locals|)
    && (insns[k].IsStore() ==> |f.stack| > 0)
    && (forall i :: 0 <= i < |f.locals| ==> ValueAtDefinitions(insns, f.locals[i]))
    && (forall i :: 0 <= i < |f.stack| ==> ValueAtDefinitions(insns, f.stack[i]))
  }

  /** One frame per instruction, each fitting it. */
  predicate WellFormed(insns: seq<Insn>, frames: RdFrames) {
    && |frames| == |insns|
    && forall k :: 0 <= k < |insns| && frames[k].Some? ==> FrameFits(insns, k, frames[k].value)
  }

  /** The value a reached store takes off the stack. */
  function StoredValue(insns: seq<Insn>, frames: RdFrames, d: nat): (v: RdValue)
    requires WellFormed(insns, frames) && d < |insns| && insns[d].IsStore() && frames[d].Some?
    ensures ValueAtDefinitions(insns, v)
  {
    frames[d].value.StackTop()
  }

  // ---------------------------------------------------------------------
  // Copy chains.

  /** Definition `d` stores a value that carries the single definition `e`:
      the variable `d` writes is a copy of the one `e` wrote. */
  ghost predicate CopyStep(insns: seq<Insn>, frames: RdFrames, d: nat, e: nat)
    requires WellFormed(insns, frames)
  {
    && d < |insns| && insns[d].IsStore() && frames[d].Some?
    && StoredValue(insns, frames, d).Reaching?
    && StoredValue(insns, frames, d).rv.definitionIndices == {e}
  }

  /** The `k`-th link of the chain `ds` is a copy step. */
  ghost predicate LinkAt(insns: seq<Insn>, frames: RdFrames, ds: seq<nat>, k: nat)
    requires WellFormed(insns, frames)
  {
    k + 1 < |ds| && CopyStep(insns, frames, ds[k], ds[k + 1])
  }

  ghost predicate IsCopyChain(insns: seq<Insn>, frames: RdFrames, ds: seq<nat>)
    requires WellFormed(insns, frames)
  {
    && |ds| > 0
    && forall k: nat :: k < |ds| - 1 ==> LinkAt(insns, frames, ds, k)
  }

  /** Where a chain may stop: at a definition `p` names alone, or at a
      store of the value `p`. */
  ghost predicate ChainEnd(insns: seq<Insn>, frames: RdFrames, e: nat, p: ReachingValue)
    requires WellFormed(insns, frames)
  {
    || p.definitionIndices == {e}
    || (e < |insns| && insns[e].IsStore() && frames[e].Some? && StoredValue(insns, frames, e) == Reaching(p))
  }

  /** Following stores of copied values back from definition `d` arrives at
      the definitions `p`. */
  ghost predicate PropagatesTo(insns: seq<Insn>, frames: RdFrames, d: nat, p: ReachingValue)
    requires WellFormed(insns, frames)
  {
    exists ds :: IsCopyChain(insns, frames, ds) && ds[0] == d && ChainEnd(insns, frames, ds[|ds| - 1], p)
  }

  lemma PrependCopyStep(insns: seq<Insn>, frames: RdFrames, d: nat, e: nat, p: ReachingValue)
    requires WellFormed(insns, frames) && CopyStep(insns, frames, d, e) && PropagatesTo(insns, frames, e, p)
    ensures PropagatesTo(insns, frames, d, p)
  {
    var ds :| IsCopyChain(insns, frames, ds) && ds[0] == e && ChainEnd(insns, frames, ds[|ds| - 1], p);
    var ds' := [d] + ds;
    forall k: nat | k < |ds'| - 1 ensures LinkAt(insns, frames, ds', k) {
      if k > 0 {
        assert LinkAt(insns, frames, ds, k - 1);
      }
    }
    assert ds'[|ds'| - 1] == ds[|ds| - 1];
  }

  /** Every resolved entry is reached from its own definition, and names
      definitions only. */
  ghost predicate MemoSound(insns: seq<Insn>, frames: RdFrames, memo: Memo)
    requires WellFormed(insns, frames)
  {
    forall i :: 0 <= i < |memo| ==> EntrySound(insns, frames, memo, i)
  }

  /** The entry at `i` is reached from definition `i`, and names
      definitions only. */
  ghost predicate EntrySound(insns: seq<Insn>, frames: RdFrames, memo: Memo, i: nat)
    requires WellFormed(insns, frames) && i < |memo|
  {
    memo[i].Some? ==> PropagatesTo(insns, frames, i, memo[i].value) && AtDefinitions(insns, memo[i].value)
  }

  /** A sound memo stays sound when an entry is set to definitions its
      index propagates to. */
  lemma EntryUpdateSound(insns: seq<Insn>, frames: RdFrames, m: Memo, d: nat, p: ReachingValue)
    requires WellFormed(insns, frames) && MemoSound(insns, frames, m) && d < |m|
    requires PropagatesTo(insns, frames, d, p) && AtDefinitions(insns, p)
    ensures MemoSound(insns, frames, m[d := Some(p)])
  {
    var m' := m[d := Some(p)];
    forall i | 0 <= i < |m'| ensures EntrySound(insns, frames, m', i) {
      if i != d {
        assert EntrySound(insns, frames, m, i);
      }
    }
  }

  /** A provisional entry: a definition resolves at least to itself. */
  lemma ProvisionalEntrySound(insns: seq<Insn>, frames: RdFrames, m: Memo, v: ReachingValue, d: nat)
    requires WellFormed(insns, frames) && MemoSound(insns, frames, m) && d < |m|
    requires v.definitionIndices == {d} && AtDefinitions(insns, v)
    ensures MemoSound(insns, frames, m[d := Some(v)])
  {
    assert IsCopyChain(insns, frames, [d]);
    EntryUpdateSound(insns, frames, m, d, v);
  }

  function Unresolved(memo: Memo): set<nat> {
    set i: nat | i < |memo| && memo[i].None?
  }

  lemma SingleIndex(s: DefSet)
    requires |s| == 1
    ensures s == {First(s)}
  {
    var d := First(s);
    if s != {d} {
      Reachability.StrictSubsetSmaller({d}, s);
    }
  }

  datatype Resolution = Resolution(result: ReachingValue, memo: Memo)

  /** `getPropagatedDefinitions`. Several definitions resolve to themselves
      and leave the memo alone. A single definition answers its memo entry if
      it has one. Otherwise it is entered provisionally as itself, which stops
      a cyclic chain when it comes back round; an IINC, an unreached store or
      a store of a value without definitions resolves to itself; any other
      store resolves as the value it stores, and the answer is remembered. */
  function Resolve(insns: seq<Insn>, frames: RdFrames, memo: Memo, definitions: ReachingValue): (res: Resolution)
    requires WellFormed(insns, frames) && |memo| == |insns| && MemoSound(insns, frames, memo)
    requires AtDefinitions(insns, definitions)
    ensures |res.memo| == |memo| && MemoSound(insns, frames, res.memo) && AtDefinitions(insns, res.result)
    ensures forall i :: 0 <= i < |memo| && memo[i].Some? ==> res.memo[i] == memo[i]
    ensures |definitions.definitionIndices| > 1 ==> res == Resolution(definitions, memo)
    ensures var d := First(definitions.definitionIndices);
            |definitions.definitionIndices| == 1 ==>
              && res.memo[d] == Some(res.result)
              && PropagatesTo(insns, frames, d, res.result)
              && (memo[d].Some? ==> res == Resolution(memo[d].value, memo))
    decreases |Unresolved(memo)|
  {
    var defs := definitions.definitionIndices;
    if |defs| > 1 then Resolution(definitions, memo)
    else
      var d := First(defs);
      if memo[d].Some? then
        assert EntrySound(insns, frames, memo, d);
        Resolution(memo[d].value, memo)
      else
        SingleIndex(defs);
        assert IsCopyChain(insns, frames, [d]);
        ProvisionalEntrySound(insns, frames, memo, definitions, d);
        var provisional := memo[d := Some(definitions)];
        if insns[d].Opcode() == IINC || frames[d].None? then Resolution(definitions, provisional)
        else
          var stored := StoredValue(insns, frames, d);
          if !stored.Reaching? then Resolution(definitions, provisional)
          else
            assert Unresolved(provisional) < Unresolved(memo) by {
              assert d in Unresolved(memo) - Unresolved(provisional);
            }
            Reachability.StrictSubsetSmaller(Unresolved(provisional), Unresolved(memo));
            var sub := Resolve(insns, frames, provisional, stored.rv);
            assert PropagatesTo(insns, frames, d, sub.result) by {
              if |stored.rv.definitionIndices| > 1 {
                assert ChainEnd(insns, frames, d, sub.result);
              } else {
                SingleIndex(stored.rv.definitionIndices);
                PrependCopyStep(insns, frames, d, First(stored.rv.definitionIndices), sub.result);
              }
            }
            EntryUpdateSound(insns, frames, sub.memo, d, sub.result);
            Resolution(sub.result, sub.memo[d := Some(sub.result)])
  }

  function EmptyMemo(n: nat): (memo: Memo)
    ensures |memo| == n && forall i :: 0 <= i < n ==> memo[i].None?
  {
    seq(n, _ => None)
  }

  /** One step of a chain: a single unresolved definition `d` storing the
      value `w` is entered provisionally, `w` is resolved, and the answer
      replaces the provisional entry. */
  lemma ResolveFollowsStore(insns: seq<Insn>, frames: RdFrames, m: Memo, v: ReachingValue, d: nat, w: ReachingValue)
    requires WellFormed(insns, frames) && |m| == |insns| && MemoSound(insns, frames, m)
    requires v.definitionIndices == {d} && AtDefinitions(insns, v) && m[d].None?
    requires insns[d].IsStore() && frames[d].Some? && StoredValue(insns, frames, d) == Reaching(w)
    ensures MemoSound(insns, frames, m[d := Some(v)])
    ensures var sub := Resolve(insns, frames, m[d := Some(v)], w);
            Resolve(insns, frames, m, v) == Resolution(sub.result, sub.memo[d := Some(sub.result)])
  {
    ProvisionalEntrySound(insns, frames, m, v, d);
    assert First(v.definitionIndices) == d;
  }

  /** A store of the variable's own value around a loop: the chain comes
      back to the definition it started from, finds the provisional entry,
      and stops there with the value that entered it. */
  lemma CopyCycleResolvesToItself(insns: seq<Insn>, frames: RdFrames, m: Memo, v: ReachingValue, w: ReachingValue, d: nat)
    requires WellFormed(insns, frames) && |m| == |insns| && MemoSound(insns, frames, m)
    requires v.definitionIndices == {d} && AtDefinitions(insns, v) && m[d].None?
    requires insns[d].IsStore() && frames[d].Some? && StoredValue(insns, frames, d) == Reaching(w)
    requires w.definitionIndices == {d}
    ensures Resolve(insns, frames, m, v) == Resolution(v, m[d := Some(v)])
  {
    ProvisionalEntrySound(insns, frames, m, v, d);
  }

  /** A store of a value that several definitions reach, as after a join,
      ends the chain: the store resolves to that value, which kt:44 hands
      back unchanged, and is memoised with it. */
  lemma ResolveStoreOfJoin(insns: seq<Insn>, frames: RdFrames, m: Memo, v: ReachingValue, d: nat, w: ReachingValue)
    requires WellFormed(insns, frames) && |m| == |insns| && MemoSound(insns, frames, m)
    requires v.definitionIndices == {d} && AtDefinitions(insns, v) && m[d].None?
    requires insns[d].IsStore() && frames[d].Some? && StoredValue(insns, frames, d) == Reaching(w)
    requires |w.definitionIndices| > 1
    ensures Resolve(insns, frames, m, v) == Resolution(w, m[d := Some(w)])
  {
    ResolveFollowsStore(insns, frames, m, v, d, w);
    assert m[d := Some(v)][d := Some(w)] == m[d := Some(w)];
  }

  /** A definition the resolver does not look behind: an IINC, a store the
      analyzer never reached, or a store of a value without definitions. */
  predicate OriginalDefinition(insns: seq<Insn>, frames: RdFrames, e: nat)
    requires WellFormed(insns, frames)
  {
    && e < |insns| && insns[e].IsDefinition()
    && (insns[e].Opcode() == IINC || frames[e].None? || !StoredValue(insns, frames, e).Reaching?)
  }

  /** A single unresolved original definition resolves to itself and is
      remembered as such, whatever the rest of the memo holds. */
  lemma ResolveOriginalDefinition(insns: seq<Insn>, frames: RdFrames, m: Memo, v: ReachingValue, d: nat)
    requires WellFormed(insns, frames) && |m| == |insns| && MemoSound(insns, frames, m)
    requires AtDefinitions(insns, v) && v.definitionIndices == {d}
    requires m[d].None? && OriginalDefinition(insns, frames, d)
    ensures Resolve(insns, frames, m, v) == Resolution(v, m[d := Some(v)])
  {
    assert First(v.definitionIndices) == d;
  }

  /** A chain of copies from the single definition `v` names that visits
      no definition twice, has nothing memoised in `m` and ends at an
      original definition. */
  ghost predicate FreshChain(insns: seq<Insn>, frames: RdFrames, m: Memo, v: ReachingValue, ds: seq<nat>)
    requires WellFormed(insns, frames) && |m| == |insns|
  {
    && IsCopyChain(insns, frames, ds)
    && AtDefinitions(insns, v) && v.definitionIndices == {ds[0]}
    && (forall a, b :: 0 <= a < b < |ds| ==> ds[a] != ds[b])
    && (forall a :: 0 <= a < |ds| ==> ds[a] < |m| && m[ds[a]].None?)
    && OriginalDefinition(insns, frames, ds[|ds| - 1])
  }

  /** What walking the chain `ds` from `v` leaves: the answer names the
      last definition alone, is the value the last copy stored, and is
      remembered for every definition on the way. */
  ghost predicate WalkedChain(insns: seq<Insn>, frames: RdFrames, ds: seq<nat>, v: ReachingValue, res: Resolution)
    requires WellFormed(insns, frames) && IsCopyChain(insns, frames, ds)
  {
    && res.result.definitionIndices == {ds[|ds| - 1]}
    && (|ds| == 1 ==> res.result == v)
    && (|ds| > 1 ==>
          assert LinkAt(insns, frames, ds, |ds| - 2);
          res.result == StoredValue(insns, frames, ds[|ds| - 2]).rv)
    && forall a :: 0 <= a < |ds| ==> ds[a] < |res.memo| && res.memo[ds[a]] == Some(res.result)
  }

  /** Entering the first copy of a fresh chain leaves a fresh chain. */
  lemma FreshChainTail(insns: seq<Insn>, frames: RdFrames, m: Memo, v: ReachingValue, ds: seq<nat>)
    requires WellFormed(insns, frames) && |m| == |insns| && FreshChain(insns, frames, m, v, ds) && |ds| > 1
    ensures CopyStep(insns, frames, ds[0], ds[1])
    ensures FreshChain(insns, frames, m[ds[0] := Some(v)], StoredValue(insns, frames, ds[0]).rv, ds[1..])
  {
    assert LinkAt(insns, frames, ds, 0);
    var rest := ds[1..];
    forall k: nat | k < |rest| - 1 ensures LinkAt(insns, frames, rest, k) {
      assert LinkAt(insns, frames, ds, k + 1);
    }
    forall a | 0 <= a < |rest| ensures rest[a] != ds[0] {
      assert rest[a] == ds[a + 1];
    }
    assert rest[|rest| - 1] == ds[|ds| - 1];
  }

  /** The walk of a chain is the walk of its tail, with the first
      definition entered last. */
  lemma WalkedChainStep(insns: seq<Insn>, frames: RdFrames, ds: seq<nat>, v: ReachingValue, sub: Resolution)
    requires WellFormed(insns, frames) && IsCopyChain(insns, frames, ds) && |ds| > 1
    requires CopyStep(insns, frames, ds[0], ds[1]) && IsCopyChain(insns, frames, ds[1..])
    requires WalkedChain(insns, frames, ds[1..], StoredValue(insns, frames, ds[0]).rv, sub)
    requires |sub.memo| == |insns|
    ensures WalkedChain(insns, frames, ds, v, Resolution(sub.result, sub.memo[ds[0] := Some(sub.result)]))
  {
    var rest := ds[1..];
    var memo := sub.memo[ds[0] := Some(sub.result)];
    forall a | 0 < a < |ds| ensures ds[a] < |memo| && memo[ds[a]] == Some(sub.result) {
      assert ds[a] == rest[a - 1];
    }
    assert rest[|rest| - 1] == ds[|ds| - 1];
    if |rest| > 1 {
      assert rest[|rest| - 2] == ds[|ds| - 2];
    }
  }

  /** Completeness of the resolver: along a chain of copies that visits no
      definition twice, has nothing memoised yet and ends at an original
      definition, resolution walks the whole chain. It answers the value
      naming that last definition (the value the last copy stored) and
      remembers it for every definition on the way. */
  lemma {:induction false} ResolveFollowsChain(insns: seq<Insn>, frames: RdFrames, m: Memo, v: ReachingValue, ds: seq<nat>)
    requires WellFormed(insns, frames) && |m| == |insns| && MemoSound(insns, frames, m)
    requires FreshChain(insns, frames, m, v, ds)
    ensures WalkedChain(insns, frames, ds, v, Resolve(insns, frames, m, v))
    decreases |ds|
  {
    var d := ds[0];
    if |ds| == 1 {
      ResolveOriginalDefinition(insns, frames, m, v, d);
    } else {
      FreshChainTail(insns, frames, m, v, ds);
      var w := StoredValue(insns, frames, d).rv;
      ResolveFollowsStore(insns, frames, m, v, d, w);
      ResolveFollowsChain(insns, frames, m[d := Some(v)], w, ds[1..]);
      WalkedChainStep(insns, frames, ds, v, Resolve(insns, frames, m[d := Some(v)], w));
    }
  }

  // ---------------------------------------------------------------------
  // The scan.

  /** The definitions a variable's reaching value resolves to. */
  ghost predicate Resolves(insns: seq<Insn>, frames: RdFrames, v: ReachingValue, p: ReachingValue)
    requires WellFormed(insns, frames)
  {
    if |v.definitionIndices| > 1 then p == v
    else PropagatesTo(insns, frames, First(v.definitionIndices), p)
  }

  /** What a rewrite of the instruction at `k` to `out` promises: `k` is a
      reached load of a variable holding reaching definitions; `out` is the
      same load of a different variable `c`; `c` is the variable written by
      the definitions that value resolves to, and at `k` it holds exactly
      those definitions. */
  ghost predicate RewrittenSoundly(insns: seq<Insn>, frames: RdFrames, k: nat, out: Insn)
    requires WellFormed(insns, frames) && k < |insns|
  {
    && insns[k].IsLoad() && frames[k].Some?
    && var f := frames[k].value;
       var x := insns[k].varIndex;
       && x < |f.locals| && f.locals[x].Reaching?
       && out.VarInsn? && out.opcode == insns[k].opcode
       && out.varIndex != x && out.varIndex < |f.locals|
       && exists p: ReachingValue ::
            && Resolves(insns, frames, f.locals[x].rv, p)
            && f.locals[out.varIndex] == Reaching(p)
            && GetVarIndex(insns, p) == Ok(out.varIndex)
  }

  datatype Decision = Decision(memo: Memo, rewrite: Option<Insn>)

  /** The body of the loop in `transform` for the instruction at `k`. Only a
      reached load of a variable holding reaching definitions is looked at;
      it is rewritten exactly when the candidate variable differs and still
      holds the propagated definitions. */
  function LoadDecision(insns: seq<Insn>, frames: RdFrames, memo: Memo, k: nat): (r: Decision)
    requires WellFormed(insns, frames) && |memo| == |insns| && MemoSound(insns, frames, memo) && k < |insns|
    ensures |r.memo| == |insns| && MemoSound(insns, frames, r.memo)
    ensures !(insns[k].IsLoad() && frames[k].Some? && frames[k].value.locals[insns[k].varIndex].Reaching?) ==>
      r == Decision(memo, None)
  {
    var insn := insns[k];
    if !(insn.IsLoad() && frames[k].Some?) then Decision(memo, None)
    else
      var f := frames[k].value;
      var x := insn.varIndex;
      var stored := f.locals[x];
      if !stored.Reaching? then Decision(memo, None)
      else
        var res := Resolve(insns, frames, memo, stored.rv);
        var p := res.result;
        GetVarIndexAtDefinitions(insns, p, 0);
        var c := GetVarIndex(insns, p).value;
        var candidate := f.locals[c];
        if c != x && candidate.Reaching? && Equals(candidate, Reaching(p)) then
          Decision(res.memo, Some(VarInsn(insn.opcode, c)))
        else Decision(res.memo, None)
  }

  /** Soundness of the loop body: a load is only ever redirected to another
      variable holding exactly the definitions its value resolves to. */
  lemma LoadDecisionSound(insns: seq<Insn>, frames: RdFrames, memo: Memo, k: nat)
    requires WellFormed(insns, frames) && |memo| == |insns| && MemoSound(insns, frames, memo) && k < |insns|
    ensures var r := LoadDecision(insns, frames, memo, k);
            r.rewrite.Some? ==> RewrittenSoundly(insns, frames, k, r.rewrite.value)
  {
    var r := LoadDecision(insns, frames, memo, k);
    if r.rewrite.Some? {
      var f := frames[k].value;
      var stored := f.locals[insns[k].varIndex];
      var p := Resolve(insns, frames, memo, stored.rv).result;
      GetVarIndexAtDefinitions(insns, p, 0);
      var c := GetVarIndex(insns, p).value;
      EqualsIsStructural(f.locals[c], Reaching(p));
      assert Resolves(insns, frames, stored.rv, p) by {
        if |stored.rv.definitionIndices| == 1 {
          SingleIndex(stored.rv.definitionIndices);
        }
      }
    }
  }

  /** The scan from instruction `k` on, threading the memo in order; the
      rewrites are collected, not applied. */
  function Scan(insns: seq<Insn>, frames: RdFrames, memo: Memo, k: nat): (rewrites: map<nat, Insn>)
    requires WellFormed(insns, frames) && |memo| == |insns| && MemoSound(insns, frames, memo) && k <= |insns|
    ensures forall j :: j in rewrites ==> k <= j < |insns|
    decreases |insns| - k
  {
    if k == |insns| then map[]
    else
      var decision := LoadDecision(insns, frames, memo, k);
      var rest := Scan(insns, frames, decision.memo, k + 1);
      if decision.rewrite.Some? then rest[k := decision.rewrite.value] else rest
  }

  /** Every rewrite the scan records is sound. */
  lemma {:induction false} ScanSound(insns: seq<Insn>, frames: RdFrames, memo: Memo, k: nat)
    requires WellFormed(insns, frames) && |memo| == |insns| && MemoSound(insns, frames, memo) && k <= |insns|
    ensures forall j :: j in Scan(insns, frames, memo, k) ==> RewrittenSoundly(insns, frames, j, Scan(insns, frames, memo, k)[j])
    decreases |insns| - k
  {
    if k < |insns| {
      var decision := LoadDecision(insns, frames, memo, k);
      var rest := Scan(insns, frames, decision.memo, k + 1);
      LoadDecisionSound(insns, frames, memo, k);
      ScanSound(insns, frames, decision.memo, k + 1);
      var rewrites := Scan(insns, frames, memo, k);
      forall j | j in rewrites ensures RewrittenSoundly(insns, frames, j, rewrites[j]) {
        if j != k {
          assert j in rest && rewrites[j] == rest[j];
        }
      }
    }
  }

  /** `VariablesCopyPropagationMethodTransformer.transform`: every instruction
      stays in place; the only changes are loads redirected, keeping their
      opcode, to another variable that holds the same resolved definitions. */
  function Transform(insns: seq<Insn>, frames: RdFrames): (r: seq<Insn>)
    requires WellFormed(insns, frames)
    ensures |r| == |insns|
    ensures forall k :: 0 <= k < |insns| ==> r[k] == insns[k] || RewrittenSoundly(insns, frames, k, r[k])
  {
    var rewrites := Scan(insns, frames, EmptyMemo(|insns|), 0);
    ScanSound(insns, frames, EmptyMemo(|insns|), 0);
    ApplyWithoutRemovals(insns, rewrites);
    Apply(insns, {}, rewrites)
  }

  /** The memo the scan hands to instruction `j` when it starts at `k`. */
  function MemoAt(insns: seq<Insn>, frames: RdFrames, memo: Memo, k: nat, j: nat): (m: Memo)
    requires WellFormed(insns, frames) && |memo| == |insns| && MemoSound(insns, frames, memo) && k <= j <= |insns|
    ensures |m| == |insns| && MemoSound(insns, frames, m)
    decreases j - k
  {
    if j == k then memo
    else MemoAt(insns, frames, LoadDecision(insns, frames, memo, k).memo, k + 1, j)
  }

  /** The rewrite a map of rewrites records at `j`, if any. */
  function RewriteAt(rewrites: map<nat, Insn>, j: nat): Option<Insn> {
    if j in rewrites then Some(rewrites[j]) else None
  }

  /** The decision the scan started at `k` takes at `j`. */
  function DecisionAt(insns: seq<Insn>, frames: RdFrames, memo: Memo, k: nat, j: nat): Decision
    requires WellFormed(insns, frames) && |memo| == |insns| && MemoSound(insns, frames, memo) && k <= j < |insns|
    decreases j - k
  {
    var decision := LoadDecision(insns, frames, memo, k);
    if j == k then decision else DecisionAt(insns, frames, decision.memo, k + 1, j)
  }

  /** One step of the scan: what it records at a later index `j` is what
      the scan from the next instruction, given the updated memo, records
      there; at `k` itself it records the decision taken there. */
  lemma ScanStep(insns: seq<Insn>, frames: RdFrames, memo: Memo, k: nat, j: nat)
    requires WellFormed(insns, frames) && |memo| == |insns| && MemoSound(insns, frames, memo) && k <= j < |insns|
    ensures var decision := LoadDecision(insns, frames, memo, k);
            && (j == k ==> RewriteAt(Scan(insns, frames, memo, k), j) == decision.rewrite)
            && (j > k ==> RewriteAt(Scan(insns, frames, memo, k), j) == RewriteAt(Scan(insns, frames, decision.memo, k + 1), j))
  {
    var decision := LoadDecision(insns, frames, memo, k);
    assert k !in Scan(insns, frames, decision.memo, k + 1);
  }

  /** The scan records a rewrite at `j` exactly when the loop body decides
      one there, given the memo the earlier instructions left. */
  lemma {:induction false} ScanRecordsDecisions(insns: seq<Insn>, frames: RdFrames, memo: Memo, k: nat, j: nat)
    requires WellFormed(insns, frames) && |memo| == |insns| && MemoSound(insns, frames, memo) && k <= j < |insns|
    ensures RewriteAt(Scan(insns, frames, memo, k), j) == DecisionAt(insns, frames, memo, k, j).rewrite
    decreases j - k
  {
    ScanStep(insns, frames, memo, k, j);
    var decision := LoadDecision(insns, frames, memo, k);
    if j > k {
      ScanRecordsDecisions(insns, frames, decision.memo, k + 1, j);
      assert DecisionAt(insns, frames, memo, k, j) == DecisionAt(insns, frames, decision.memo, k + 1, j);
    } else {
      assert DecisionAt(insns, frames, memo, k, j) == decision;
    }
  }

  /** The decision at `j` is the loop body's at `j`, run on the memo the
      scan has threaded up to `j`. */
  lemma {:induction false} DecisionAtUsesThreadedMemo(insns: seq<Insn>, frames: RdFrames, memo: Memo, k: nat, j: nat)
    requires WellFormed(insns, frames) && |memo| == |insns| && MemoSound(insns, frames, memo) && k <= j < |insns|
    ensures DecisionAt(insns, frames, memo, k, j) == LoadDecision(insns, frames, MemoAt(insns, frames, memo, k, j), j)
    decreases j - k
  {
    if j > k {
      DecisionAtUsesThreadedMemo(insns, frames, LoadDecision(insns, frames, memo, k).memo, k + 1, j);
    }
  }

  /** The converse of soundness for one load: with `p` the definitions the
      loaded variable's value resolves to and `c` the variable they write,
      the load is redirected to `c` exactly when `c` is another variable that
      still holds exactly `p`. */
  lemma LoadDecisionRewritesExactly(insns: seq<Insn>, frames: RdFrames, memo: Memo, k: nat)
    requires WellFormed(insns, frames) && |memo| == |insns| && MemoSound(insns, frames, memo) && k < |insns|
    requires insns[k].IsLoad() && frames[k].Some? && frames[k].value.locals[insns[k].varIndex].Reaching?
    ensures var f := frames[k].value;
            var x := insns[k].varIndex;
            var res := Resolve(insns, frames, memo, f.locals[x].rv);
            var r := LoadDecision(insns, frames, memo, k);
            && r.memo == res.memo
            && GetVarIndex(insns, res.result).Ok?
            && var c := GetVarIndex(insns, res.result).value;
               && c < |f.locals|
               && (r.rewrite.Some? <==> c != x && f.locals[c] == Reaching(res.result))
               && (r.rewrite.Some? ==> r.rewrite.value == VarInsn(insns[k].opcode, c))
  {
    var f := frames[k].value;
    var res := Resolve(insns, frames, memo, f.locals[insns[k].varIndex].rv);
    GetVarIndexAtDefinitions(insns, res.result, 0);
    var c := GetVarIndex(insns, res.result).value;
    EqualsIsStructural(f.locals[c], Reaching(res.result));
  }

  /** What the whole pass does at each index: the instruction is replaced
      exactly by the rewrite the loop body decides there, with the memo the
      scan has built up to it; nothing else changes. */
  lemma TransformFollowsDecisions(insns: seq<Insn>, frames: RdFrames, k: nat)
    requires WellFormed(insns, frames) && k < |insns|
    ensures var decision := LoadDecision(insns, frames, MemoAt(insns, frames, EmptyMemo(|insns|), 0, k), k);
            Transform(insns, frames)[k] == if decision.rewrite.Some? then decision.rewrite.value else insns[k]
  {
    var rewrites := Scan(insns, frames, EmptyMemo(|insns|), 0);
    ScanRecordsDecisions(insns, frames, EmptyMemo(|insns|), 0, k);
    DecisionAtUsesThreadedMemo(insns, frames, EmptyMemo(|insns|), 0, k);
    ApplyWithoutRemovals(insns, rewrites);
    assert Transform(insns, frames)[k] == Edited(insns, rewrites, k);
  }

  /** Both directions for a reached load `k` of `x` holding reaching
      definitions: the pass redirects it exactly when the variable `c` its
      definitions resolve to is another variable still holding exactly those
      resolved definitions, and then to `c` with the same opcode. */
  lemma TransformRewritesLoad(insns: seq<Insn>, frames: RdFrames, k: nat)
    requires WellFormed(insns, frames) && k < |insns|
    requires insns[k].IsLoad() && frames[k].Some? && frames[k].value.locals[insns[k].varIndex].Reaching?
    ensures var f := frames[k].value;
            var x := insns[k].varIndex;
            var memo := MemoAt(insns, frames, EmptyMemo(|insns|), 0, k);
            var p := Resolve(insns, frames, memo, f.locals[x].rv).result;
            && GetVarIndex(insns, p).Ok?
            && var c := GetVarIndex(insns, p).value;
               && c < |f.locals|
               && (Transform(insns, frames)[k] != insns[k] <==> c != x && f.locals[c] == Reaching(p))
               && (Transform(insns, frames)[k] != insns[k] ==> Transform(insns, frames)[k] == VarInsn(insns[k].opcode, c))
  {
    var memo := MemoAt(insns, frames, EmptyMemo(|insns|), 0, k);
    TransformFollowsDecisions(insns, frames, k);
    LoadDecisionRewritesExactly(insns, frames, memo, k);
  }

  /** Each local `x` holding reaching definitions holds only definitions of
      `x`. Frames built with value semantics keep this: the transfer
      functions establish and preserve it
      (ReachingDefinitions.StoreDefinesItsVariable, IincDefinesItsVariable
      and MergeKeepsDefinesVariable). The source's merge grows a shared value
      in place and can break it (InPlaceMergeBreaksOwnDefinitions). */
  predicate LocalsHoldOwnDefinitions(insns: seq<Insn>, frames: RdFrames)
    requires |frames| == |insns|
  {
    forall k, x :: 0 <= k < |insns| && frames[k].Some? && 0 <= x < |frames[k].value.locals| && frames[k].value.locals[x].Reaching? ==>
      DefinesVariable(insns, frames[k].value.locals[x].rv, x)
  }

  /** Under that invariant the pass only ever redirects loads that a single
      definition reaches. */
  lemma RewritesFollowSingleDefinitions(insns: seq<Insn>, frames: RdFrames, k: nat)
    requires WellFormed(insns, frames) && LocalsHoldOwnDefinitions(insns, frames) && k < |insns|
    requires Transform(insns, frames)[k] != insns[k]
    ensures insns[k].IsLoad() && frames[k].Some?
    ensures |frames[k].value.locals[insns[k].varIndex].rv.definitionIndices| == 1
  {
    SeveralDefinitionsNeverRewritten(insns, frames, k, Transform(insns, frames)[k]);
  }

  /** Loads whose variable several definitions reach are never rewritten,
      when a variable's definitions all write that variable: they resolve to themselves, whose variable is the one
      loaded. */
  lemma SeveralDefinitionsNeverRewritten(insns: seq<Insn>, frames: RdFrames, k: nat, out: Insn)
    requires WellFormed(insns, frames) && k < |insns| && RewrittenSoundly(insns, frames, k, out)
    requires var x := insns[k].varIndex;
             DefinesVariable(insns, frames[k].value.locals[x].rv, x)
    ensures |frames[k].value.locals[insns[k].varIndex].rv.definitionIndices| == 1
  {
    var x := insns[k].varIndex;
    var v := frames[k].value.locals[x].rv;
    if |v.definitionIndices| > 1 {
      GetVarIndexAtDefinitions(insns, v, x);
    }
  }

  // ---------------------------------------------------------------------
  // The resolver's own example.

  /** ICONST_0; ISTORE 0; ILOAD 0; ISTORE 1; ILOAD 1; ISTORE 2; RETURN. */
  function ExampleInsns(): seq<Insn> {
    [ ZeroOperand(ICONST_0), VarInsn(ISTORE, 0), VarInsn(ILOAD, 0), VarInsn(ISTORE, 1)
    , VarInsn(ILOAD, 1), VarInsn(ISTORE, 2), ZeroOperand(RETURN) ]
  }

  /** The analyzer's frames for the example, on a static method with three
      local slots. */
  function ExampleFrames(): RdFrames {
    var u := Plain(OptimizationBasicValues.UninitializedValue);
    var i := Plain(OptimizationBasicValues.IntValue);
    var r1 := Reaching(ReachingValue({1}, OptimizationBasicValues.IntValue));
    var r3 := Reaching(ReachingValue({3}, OptimizationBasicValues.IntValue));
    var r5 := Reaching(ReachingValue({5}, OptimizationBasicValues.IntValue));
    [ Some(Frame([u, u, u], []))
    , Some(Frame([u, u, u], [i]))
    , Some(Frame([r1, u, u], []))
    , Some(Frame([r1, u, u], [r1]))
    , Some(Frame([r1, r3, u], []))
    , Some(Frame([r1, r3, u], [r3]))
    , Some(Frame([r1, r3, r5], [])) ]
  }

  lemma ExampleWellFormed()
    ensures WellFormed(ExampleInsns(), ExampleFrames())
  {
    var insns := ExampleInsns();
    var frames := ExampleFrames();
    forall k | 0 <= k < |insns| && frames[k].Some?
      ensures FrameFits(insns, k, frames[k].value)
    {
      var f := frames[k].value;
      assert forall j :: 0 <= j < |insns| && (insns[j].VarInsn? || insns[j].IincInsn?) ==> insns[j].varIndex < 3;
      assert forall i :: 0 <= i < |f.locals| ==> ValueAtDefinitions(insns, f.locals[i]);
    }
  }

  const One := ReachingValue({1}, OptimizationBasicValues.IntValue)
  const Three := ReachingValue({3}, OptimizationBasicValues.IntValue)
  const Five := ReachingValue({5}, OptimizationBasicValues.IntValue)

  /** Definition 1 stores a constant, so it resolves to itself. */
  lemma ExampleResolvesOne(m: Memo)
    requires WellFormed(ExampleInsns(), ExampleFrames()) && |m| == 7 && MemoSound(ExampleInsns(), ExampleFrames(), m)
    requires m[1].None?
    ensures Resolve(ExampleInsns(), ExampleFrames(), m, One) == Resolution(One, m[1 := Some(One)])
  {
    assert First(One.definitionIndices) == 1;
    assert StoredValue(ExampleInsns(), ExampleFrames(), 1).Plain?;
  }

  /** Definition 3 stores the value of definition 1, and resolves to it. */
  lemma ExampleResolvesThree(m: Memo)
    requires WellFormed(ExampleInsns(), ExampleFrames()) && |m| == 7 && MemoSound(ExampleInsns(), ExampleFrames(), m)
    requires m[3].None? && m[1].None?
    ensures Resolve(ExampleInsns(), ExampleFrames(), m, Three) == Resolution(One, m[3 := Some(One)][1 := Some(One)])
  {
    ExampleThreeStoresOne();
    ResolveFollowsStore(ExampleInsns(), ExampleFrames(), m, Three, 3, One);
    var provisional := m[3 := Some(Three)];
    ExampleResolvesOne(provisional);
    ProvisionalOverwrittenOnce(m, 3, Some(Three), Some(One), 1);
  }

  /** Once definition 1 is resolved, definition 3 takes its memo entry. */
  lemma ExampleResolvesThreeThroughMemo(m: Memo)
    requires WellFormed(ExampleInsns(), ExampleFrames()) && |m| == 7 && MemoSound(ExampleInsns(), ExampleFrames(), m)
    requires m[3].None? && m[1] == Some(One)
    ensures Resolve(ExampleInsns(), ExampleFrames(), m, Three) == Resolution(One, m[3 := Some(One)])
  {
    ExampleThreeStoresOne();
    ResolveFollowsStore(ExampleInsns(), ExampleFrames(), m, Three, 3, One);
    var provisional := m[3 := Some(Three)];
    assert First(One.definitionIndices) == 1;
    assert Resolve(ExampleInsns(), ExampleFrames(), provisional, One) == Resolution(One, provisional);
    assert provisional[3 := Some(One)] == m[3 := Some(One)];
  }

  /** Definition 5 stores the value of definition 3. */
  lemma ExampleResolvesFive(m: Memo)
    requires WellFormed(ExampleInsns(), ExampleFrames()) && |m| == 7 && MemoSound(ExampleInsns(), ExampleFrames(), m)
    requires m[5].None? && m[3].None? && m[1].None?
    ensures Resolve(ExampleInsns(), ExampleFrames(), m, Five) ==
            Resolution(One, m[5 := Some(One)][3 := Some(One)][1 := Some(One)])
  {
    ExampleFiveStoresThree();
    ResolveFollowsStore(ExampleInsns(), ExampleFrames(), m, Five, 5, Three);
    var provisional := m[5 := Some(Five)];
    ExampleResolvesThree(provisional);
    ProvisionalOverwritten(m, 5, Some(Five), Some(One), 3, 1);
  }

  /** Sequence-update helpers for the example: a provisional entry written
      over later is as if never written. */
  lemma ProvisionalOverwrittenOnce<T>(m: seq<T>, d: nat, p: T, x: T, i: nat)
    requires d < |m| && i < |m| && d != i
    ensures m[d := p][i := x][d := x] == m[d := x][i := x]
  {
    var lhs := m[d := p][i := x][d := x];
    var rhs := m[d := x][i := x];
    assert forall k :: 0 <= k < |m| ==> lhs[k] == rhs[k];
  }

  lemma ProvisionalOverwritten<T>(m: seq<T>, d: nat, p: T, x: T, i: nat, j: nat)
    requires d < |m| && i < |m| && j < |m| && d != i && d != j
    ensures m[d := p][i := x][j := x][d := x] == m[d := x][i := x][j := x]
  {
    var lhs := m[d := p][i := x][j := x][d := x];
    var rhs := m[d := x][i := x][j := x];
    assert forall k :: 0 <= k < |m| ==> lhs[k] == rhs[k];
  }

  lemma ExampleThreeStoresOne()
    requires WellFormed(ExampleInsns(), ExampleFrames())
    ensures AtDefinitions(ExampleInsns(), Three) && ExampleInsns()[3].IsStore() && ExampleFrames()[3].Some?
    ensures StoredValue(ExampleInsns(), ExampleFrames(), 3) == Reaching(One)
  {
  }

  lemma ExampleFiveStoresThree()
    requires WellFormed(ExampleInsns(), ExampleFrames())
    ensures AtDefinitions(ExampleInsns(), Five) && ExampleInsns()[5].IsStore() && ExampleFrames()[5].Some?
    ensures StoredValue(ExampleInsns(), ExampleFrames(), 5) == Reaching(Three)
  {
  }

  /** The resolver's comment: starting from nothing, definitions 5, 3 and 1
      all resolve to definition 1, and each is remembered. */
  lemma ResolverCommentExample()
    ensures WellFormed(ExampleInsns(), ExampleFrames())
    ensures var res := Resolve(ExampleInsns(), ExampleFrames(), EmptyMemo(7), Five);
            && res.result == One
            && res.memo[1] == Some(One) && res.memo[3] == Some(One) && res.memo[5] == Some(One)
  {
    ExampleWellFormed();
    ExampleResolvesFive(EmptyMemo(7));
  }

  lemma ExampleNonLoadsUntouched(m: Memo, k: nat)
    requires WellFormed(ExampleInsns(), ExampleFrames()) && |m| == 7 && MemoSound(ExampleInsns(), ExampleFrames(), m)
    requires k in {0, 1, 3, 5, 6}
    ensures LoadDecision(ExampleInsns(), ExampleFrames(), m, k) == Decision(m, None)
  {
    assert !ExampleInsns()[k].IsLoad();
  }

  lemma ExampleLoadOfZero(m: Memo)
    requires WellFormed(ExampleInsns(), ExampleFrames()) && |m| == 7 && MemoSound(ExampleInsns(), ExampleFrames(), m)
    requires m[1].None?
    ensures LoadDecision(ExampleInsns(), ExampleFrames(), m, 2) == Decision(m[1 := Some(One)], None)
  {
    assert ExampleFrames()[2].value.locals[0] == Reaching(One);
    ExampleResolvesOne(m);
    GetVarIndexAtDefinitions(ExampleInsns(), One, 0);
    assert GetVarIndex(ExampleInsns(), One) == Ok(0);
  }

  lemma ExampleLoadOfOne(m: Memo)
    requires WellFormed(ExampleInsns(), ExampleFrames()) && |m| == 7 && MemoSound(ExampleInsns(), ExampleFrames(), m)
    requires m[3].None? && m[1] == Some(One)
    ensures LoadDecision(ExampleInsns(), ExampleFrames(), m, 4) == Decision(m[3 := Some(One)], Some(VarInsn(ILOAD, 0)))
  {
    assert ExampleFrames()[4].value.locals[1] == Reaching(Three);
    assert ExampleFrames()[4].value.locals[0] == Reaching(One);
    ExampleResolvesThreeThroughMemo(m);
    GetVarIndexAtDefinitions(ExampleInsns(), One, 0);
    assert GetVarIndex(ExampleInsns(), One) == Ok(0);
  }

  /** After the load of variable 1 nothing else is rewritten. */
  lemma ExampleScanTail(m: Memo)
    requires WellFormed(ExampleInsns(), ExampleFrames()) && |m| == 7 && MemoSound(ExampleInsns(), ExampleFrames(), m)
    ensures Scan(ExampleInsns(), ExampleFrames(), m, 5) == map[]
  {
    ExampleNonLoadsUntouched(m, 5);
    ExampleNonLoadsUntouched(m, 6);
    assert Scan(ExampleInsns(), ExampleFrames(), m, 7) == map[];
    assert Scan(ExampleInsns(), ExampleFrames(), m, 6) == map[];
  }

  lemma ExampleScanFromLoadOfOne(m: Memo)
    requires WellFormed(ExampleInsns(), ExampleFrames()) && |m| == 7 && MemoSound(ExampleInsns(), ExampleFrames(), m)
    requires m[3].None? && m[1] == Some(One)
    ensures Scan(ExampleInsns(), ExampleFrames(), m, 3) == map[4 := VarInsn(ILOAD, 0)]
  {
    ExampleNonLoadsUntouched(m, 3);
    ExampleLoadOfOne(m);
    ExampleScanTail(m[3 := Some(One)]);
    assert Scan(ExampleInsns(), ExampleFrames(), m, 4) == map[4 := VarInsn(ILOAD, 0)];
  }

  /** So the load of variable 1 becomes a load of variable 0, while the load
      of variable 0, already the earliest copy, is left alone. */
  lemma ExampleScan()
    ensures WellFormed(ExampleInsns(), ExampleFrames())
    ensures Scan(ExampleInsns(), ExampleFrames(), EmptyMemo(7), 0) == map[4 := VarInsn(ILOAD, 0)]
  {
    var insns := ExampleInsns();
    var frames := ExampleFrames();
    ExampleWellFormed();
    var m0 := EmptyMemo(7);
    var m2 := m0[1 := Some(One)];
    ExampleNonLoadsUntouched(m0, 0);
    ExampleNonLoadsUntouched(m0, 1);
    ExampleLoadOfZero(m0);
    ProvisionalEntrySound(insns, frames, m0, One, 1);
    ExampleScanFromLoadOfOne(m2);
    var rewrite := map[4 := VarInsn(ILOAD, 0)];
    assert Scan(insns, frames, m0, 2) == rewrite;
    assert Scan(insns, frames, m0, 1) == rewrite;
  }

  lemma CopyPropagationCommentExample()
    ensures WellFormed(ExampleInsns(), ExampleFrames())
    ensures Transform(ExampleInsns(), ExampleFrames()) == ExampleInsns()[4 := VarInsn(ILOAD, 0)]
  {
    ExampleScan();
    ApplySingleReplacement(ExampleInsns(), 4, VarInsn(ILOAD, 0));
  }

  // ---------------------------------------------------------------------
  // The in-place merge of reaching definitions.

  /** `y = c != 0 ? b : a; return y + y` on a static method with `c` in
      local 0, `a` in 1, `b` in 2 and `y` in 3: ICONST_2; ISTORE 1; ICONST_3;
      ISTORE 2; ILOAD 0; IFEQ 8; ILOAD 2; GOTO 10; L; ILOAD 1; L; ISTORE 3;
      ILOAD 3; ILOAD 3; IADD; IRETURN. */
  function JoinInsns(): seq<Insn> {
    [ ZeroOperand(ICONST_0 + 2), VarInsn(ISTORE, 1), ZeroOperand(ICONST_0 + 3), VarInsn(ISTORE, 2)
    , VarInsn(ILOAD, 0), JumpInsn(IFEQ, 8), VarInsn(ILOAD, 2), JumpInsn(GOTO, 10)
    , LabelNode, VarInsn(ILOAD, 1), LabelNode, VarInsn(ISTORE, 3)
    , VarInsn(ILOAD, 3), VarInsn(ILOAD, 3), ZeroOperand(IADD), ZeroOperand(IRETURN) ]
  }

  /** Both definitions of `y`'s source: the store of `a` and the store of `b`. */
  const Grown := ReachingValue({1, 3}, OptimizationBasicValues.IntValue)

  /** The store of `y`. */
  const Eleven := ReachingValue({11}, OptimizationBasicValues.IntValue)

  /** The locals before instruction `k` when local 1 holds `a` from the
      store of `a` on. */
  function JoinLocals(a: ReachingValue, k: int): seq<RdValue> {
    var u := Plain(OptimizationBasicValues.UninitializedValue);
    [ Plain(OptimizationBasicValues.IntValue)
    , if k < 2 then u else Reaching(a)
    , if k < 4 then u else Reaching(Three)
    , if k < 12 then u else Reaching(Eleven) ]
  }

  /** The stack before instruction `k`: the join at 10 has `{1, 3}` on it,
      and the store of `y` at 11 takes it. */
  function JoinStack(k: int): seq<RdValue> {
    var i := Plain(OptimizationBasicValues.IntValue);
    if k == 1 || k == 3 || k == 5 || k == 15 then [i]
    else if k == 7 then [Reaching(Three)]
    else if k == 10 || k == 11 then [Reaching(Grown)]
    else if k == 13 then [Reaching(Eleven)]
    else if k == 14 then [Reaching(Eleven), Reaching(Eleven)]
    else []
  }

  function JoinFrames(a: ReachingValue): RdFrames {
    seq(16, k => Some(Frame(JoinLocals(a, k), JoinStack(k))))
  }

  lemma JoinWellFormed(a: ReachingValue)
    requires a.definitionIndices <= {1, 3}
    ensures WellFormed(JoinInsns(), JoinFrames(a))
  {
    forall k | 0 <= k < 16
      ensures FrameFits(JoinInsns(), k, Frame(JoinLocals(a, k), JoinStack(k)))
    {
      JoinFrameFits(a, k);
    }
  }

  lemma JoinFrameFits(a: ReachingValue, k: nat)
    requires a.definitionIndices <= {1, 3} && k < 16
    ensures FrameFits(JoinInsns(), k, Frame(JoinLocals(a, k), JoinStack(k)))
  {
    JoinVariables();
    JoinValuesAtDefinitions(a);
  }

  lemma JoinVariables()
    ensures forall j :: 0 <= j < |JoinInsns()| && (JoinInsns()[j].VarInsn? || JoinInsns()[j].IincInsn?) ==> JoinInsns()[j].varIndex < 4
  {
    var insns := JoinInsns();
    forall j | 0 <= j < |insns| && (insns[j].VarInsn? || insns[j].IincInsn?)
      ensures insns[j].varIndex < 4
    {
    }
  }

  lemma JoinValuesAtDefinitions(a: ReachingValue)
    requires a.definitionIndices <= {1, 3}
    ensures AtDefinitions(JoinInsns(), a) && AtDefinitions(JoinInsns(), Three)
    ensures AtDefinitions(JoinInsns(), Grown) && AtDefinitions(JoinInsns(), Eleven)
  {
    assert JoinInsns()[1].IsDefinition() && JoinInsns()[3].IsDefinition() && JoinInsns()[11].IsDefinition();
  }

  /** Wherever the join's value meets the store of `y`, `y` resolves to it:
      it has two definitions, which kt:44 hands back unchanged. */
  lemma JoinResolvesEleven(a: ReachingValue, m: Memo)
    requires WellFormed(JoinInsns(), JoinFrames(a))
    requires |m| == |JoinInsns()| && MemoSound(JoinInsns(), JoinFrames(a), m) && m[11].None?
    ensures Resolve(JoinInsns(), JoinFrames(a), m, Eleven).result == Grown
  {
    var insns, frames := JoinInsns(), JoinFrames(a);
    assert StoredValue(insns, frames, 11) == Reaching(Grown);
    assert AtDefinitions(insns, Eleven);
    assert {1} < Grown.definitionIndices;
    ResolveStoreOfJoin(insns, frames, m, Eleven, 11, Grown);
  }

  /** As written, `merge` adds the other value's definitions to the
      receiver and returns the receiver (VariablesCopyPropagationInterpreter.kt:48-51),
      and a load hands on the very value it read. ASM's worklist takes the
      jump target 8 before the fall-through 6, so the join at 10 first holds
      local 1's own value on its stack; merging `b` into it grows that shared
      value, and local 1 then holds `{1, 3}` wherever it is seen. These are
      the frames that leaves: local 1 names the store of `b` to variable 2. */
  lemma InPlaceMergeBreaksOwnDefinitions()
    ensures WellFormed(JoinInsns(), JoinFrames(Grown))
    ensures !DefinesVariable(JoinInsns(), Grown, 1)
    ensures !LocalsHoldOwnDefinitions(JoinInsns(), JoinFrames(Grown))
  {
    JoinWellFormed(Grown);
    assert 3 in Grown.definitionIndices && JoinInsns()[3].varIndex == 2;
    assert JoinFrames(Grown)[12].value.locals[1] == Reaching(Grown);
  }

  /** On those frames the load of `y` at 12 is redirected to local 1,
      although `y`'s value also comes from the store of `b`: when `c != 0`
      the rewritten load reads `a` where `y` holds `b`. No load
      before 12 reads a value naming the store of `y`, so the scan reaches
      12 with that entry unresolved. */
  lemma InPlaceMergeRedirectsLoad(m: Memo)
    requires WellFormed(JoinInsns(), JoinFrames(Grown))
    requires |m| == |JoinInsns()| && MemoSound(JoinInsns(), JoinFrames(Grown), m) && m[11].None?
    ensures LoadDecision(JoinInsns(), JoinFrames(Grown), m, 12).rewrite == Some(VarInsn(ILOAD, 1))
  {
    var insns, frames := JoinInsns(), JoinFrames(Grown);
    JoinResolvesEleven(Grown, m);
    assert frames[12].value == Frame(JoinLocals(Grown, 12), JoinStack(12));
    LoadDecisionRewritesExactly(insns, frames, m, 12);
    assert First(Grown.definitionIndices) == 1;
  }

  /** With `Merge` returning a new value, the join's `{1, 3}` is the model's
      merge of the two branches' values and lives on the stack alone: local
      1 keeps `{1}`, and every local holds only its own definitions. */
  lemma ValueMergeKeepsOwnDefinitions()
    ensures JoinFrames(One)[10].value.stack[0] == ReachingDefinitions.Merge(Reaching(One), Reaching(Three))
    ensures WellFormed(JoinInsns(), JoinFrames(One))
    ensures LocalsHoldOwnDefinitions(JoinInsns(), JoinFrames(One))
  {
    JoinWellFormed(One);
    var insns, frames := JoinInsns(), JoinFrames(One);
    assert Three != One by { assert 3 !in One.definitionIndices; }
    assert DefinesVariable(insns, One, 1) && DefinesVariable(insns, Three, 2) && DefinesVariable(insns, Eleven, 3);
    forall k, x | 0 <= k < |insns| && frames[k].Some? && 0 <= x < |frames[k].value.locals| && frames[k].value.locals[x].Reaching?
      ensures DefinesVariable(insns, frames[k].value.locals[x].rv, x)
    {
      assert frames[k].value.locals == JoinLocals(One, k);
    }
  }

  /** ...and the load of `y` stays: `y` resolves to `{1, 3}`, whose first
      definition writes local 1, but local 1 no longer holds those
      definitions. */
  lemma ValueMergeKeepsLoad(m: Memo)
    requires WellFormed(JoinInsns(), JoinFrames(One))
    requires |m| == |JoinInsns()| && MemoSound(JoinInsns(), JoinFrames(One), m) && m[11].None?
    ensures LoadDecision(JoinInsns(), JoinFrames(One), m, 12).rewrite.None?
  {
    var insns, frames := JoinInsns(), JoinFrames(One);
    JoinResolvesEleven(One, m);
    assert frames[12].value == Frame(JoinLocals(One, 12), JoinStack(12));
    LoadDecisionRewritesExactly(insns, frames, m, 12);
    assert First(Grown.definitionIndices) == 1;
    assert One != Grown by { assert 3 !in One.definitionIndices; }
  }

  /** Whenever every local holds only its own definitions, a redirected load
      reads a variable that every one of its resolved definitions writes. */
  lemma RedirectedLoadReadsOwnDefinitions(insns: seq<Insn>, frames: RdFrames, memo: Memo, k: nat)
    requires WellFormed(insns, frames) && |memo| == |insns| && MemoSound(insns, frames, memo) && k < |insns|
    requires LocalsHoldOwnDefinitions(insns, frames)
    requires insns[k].IsLoad() && frames[k].Some? && frames[k].value.locals[insns[k].varIndex].Reaching?
    ensures var r := LoadDecision(insns, frames, memo, k);
            var res := Resolve(insns, frames, memo, frames[k].value.locals[insns[k].varIndex].rv);
            r.rewrite.Some? ==> DefinesVariable(insns, res.result, r.rewrite.value.varIndex)
  {
    LoadDecisionRewritesExactly(insns, frames, memo, k);
  }
}
