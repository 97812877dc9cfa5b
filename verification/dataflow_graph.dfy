/** The control-flow graph builder: one successor list per instruction index,
    built from the instruction list and its try/catch table. */
module DataFlowGraph {
  import opened Opcodes
  import opened Insns

  /** `edges`: the successor indices of every instruction, in insertion order. */
  type Graph = seq<seq<nat>>

  /** The source reads start, end and handler labels through `indexOf`, so they
      must belong to the list. */
  predicate ValidTryCatch(n: nat, tcb: TryCatchBlock) {
    tcb.start < n && tcb.end < n && tcb.handler < n
  }

  predicate ValidTryCatchTable(n: nat, tcbs: seq<TryCatchBlock>) {
    forall k :: 0 <= k < |tcbs| ==> ValidTryCatch(n, tcbs[k])
  }

  /** Whether `tcb` protects instruction `i`: its range is [start, end). */
  predicate Covers(tcb: TryCatchBlock, i: nat) {
    tcb.start <= i < tcb.end
  }

  /** Reference definition: the handlers protecting `i`, in declaration order. */
  function HandlersAt(tcbs: seq<TryCatchBlock>, i: nat): (hs: seq<nat>)
    ensures |hs| <= |tcbs|
  {
    if |tcbs| == 0 then []
    else
      var last := tcbs[|tcbs| - 1];
      HandlersAt(tcbs[..|tcbs| - 1], i) + (if Covers(last, i) then [last.handler] else [])
  }

  /** A handler protects `i` exactly when some block covering `i` names it. */
  lemma {:induction false} HandlersAtMembership(tcbs: seq<TryCatchBlock>, i: nat, h: nat)
    ensures h in HandlersAt(tcbs, i) <==>
            exists k :: 0 <= k < |tcbs| && Covers(tcbs[k], i) && tcbs[k].handler == h
  {
    if |tcbs| > 0 {
      var front := tcbs[..|tcbs| - 1];
      HandlersAtMembership(front, i, h);
      if h in HandlersAt(front, i) {
        var k :| 0 <= k < |front| && Covers(front[k], i) && front[k].handler == h;
        assert tcbs[k] == front[k];
      }
      if exists k :: 0 <= k < |tcbs| && Covers(tcbs[k], i) && tcbs[k].handler == h {
        var k :| 0 <= k < |tcbs| && Covers(tcbs[k], i) && tcbs[k].handler == h;
        if k < |front| {
          assert front[k] == tcbs[k];
        }
      }
    }
  }

  /** Overlapping blocks accumulate their handlers in declaration order: the
      handlers of a table split in two are those of the first part followed by
      those of the second. */
  lemma {:induction false} HandlersAtAppend(a: seq<TryCatchBlock>, b: seq<TryCatchBlock>, i: nat)
    ensures HandlersAt(a + b, i) == HandlersAt(a, i) + HandlersAt(b, i)
    decreases |b|
  {
    if |b| == 0 {
      assert a + b == a;
    } else {
      var b' := b[..|b| - 1];
      assert (a + b)[..|a + b| - 1] == a + b';
      assert (a + b)[|a + b| - 1] == b[|b| - 1];
      HandlersAtAppend(a, b', i);
    }
  }

  /** `buildExceptionHandlers`: for every block, in declaration order, append its
      handler to the list of every index of its range. An index no block covers
      gets the empty list (the source leaves it null, which `build` treats alike). */
  method BuildExceptionHandlers(n: nat, tcbs: seq<TryCatchBlock>) returns (handlers: seq<seq<nat>>)
    requires ValidTryCatchTable(n, tcbs)
    ensures |handlers| == n
    ensures forall i :: 0 <= i < n ==> handlers[i] == HandlersAt(tcbs, i)
  {
    handlers := seq(n, _ => []);
    var t := 0;
    while t < |tcbs|
      invariant 0 <= t <= |tcbs|
      invariant |handlers| == n
      invariant forall i :: 0 <= i < n ==> handlers[i] == HandlersAt(tcbs[..t], i)
    {
      var tcb := tcbs[t];
      assert ValidTryCatch(n, tcb);
      var index := tcb.start;
      while index < tcb.end
        invariant tcb.start <= index
        invariant index <= tcb.end || index == tcb.start
        invariant |handlers| == n
        invariant forall i :: 0 <= i < n ==>
          handlers[i] == HandlersAt(tcbs[..t], i) + (if tcb.start <= i < index then [tcb.handler] else [])
      {
        handlers := handlers[index := handlers[index] + [tcb.handler]];
        index := index + 1;
      }
      assert tcbs[..t + 1][..t] == tcbs[..t];
      assert tcbs[..t + 1][t] == tcb;
      t := t + 1;
    }
    assert tcbs[..|tcbs|] == tcbs;
  }

  /** Edges other than exception edges, in the order `build` adds them. A target
      that is not in the list (`next` of the last instruction) is skipped. */
  function NormalSuccessors(insns: seq<Insn>, i: nat): seq<nat>
    requires i < |insns|
  {
    var next := if i + 1 < |insns| then [i + 1] else [];
    match insns[i]
    case JumpInsn(op, target) => (if op != GOTO then next else []) + [target]
    case LookupSwitchInsn(dflt, labels) => [dflt] + labels
    case TableSwitchInsn(dflt, labels) => [dflt] + labels
    case _ => if insns[i].Opcode() != ATHROW then next else []
  }

  /** The successor list of `i`: a return gets none at all, since the loop
      continues before the handler edges are added. */
  function Successors(insns: seq<Insn>, tcbs: seq<TryCatchBlock>, i: nat): seq<nat>
    requires i < |insns|
  {
    if insns[i].IsReturn() then [] else NormalSuccessors(insns, i) + HandlersAt(tcbs, i)
  }

  function EdgesOf(insns: seq<Insn>, tcbs: seq<TryCatchBlock>): (g: Graph)
    ensures |g| == |insns|
  {
    seq(|insns|, i requires 0 <= i < |insns| => Successors(insns, tcbs, i))
  }

  /** `DataFlowGraph.build`. */
  method Build(insns: seq<Insn>, tcbs: seq<TryCatchBlock>) returns (g: Graph)
    requires ValidTryCatchTable(|insns|, tcbs)
    ensures |g| == |insns|
    ensures g == EdgesOf(insns, tcbs)
  {
    var handlers := BuildExceptionHandlers(|insns|, tcbs);
    var edges: Graph := [];
    var i := 0;
    while i < |insns|
      invariant 0 <= i <= |insns|
      invariant |edges| == i
      invariant forall j :: 0 <= j < i ==> edges[j] == Successors(insns, tcbs, j)
    {
      var out: seq<nat> := [];
      if !insns[i].IsReturn() {
        out := NormalSuccessors(insns, i) + handlers[i];
      }
      edges := edges + [out];
      i := i + 1;
    }
    g := edges;
  }

  /** `getSuccessorsIndices`. */
  function SuccessorsIndices(g: Graph, i: nat): seq<nat>
    requires i < |g|
  {
    g[i]
  }

  lemma ReturnHasNoSuccessors(insns: seq<Insn>, tcbs: seq<TryCatchBlock>, i: nat)
    requires i < |insns| && insns[i].IsReturn()
    ensures EdgesOf(insns, tcbs)[i] == []
    ensures forall k :: 0 <= k < |tcbs| && Covers(tcbs[k], i) ==> tcbs[k].handler !in EdgesOf(insns, tcbs)[i]
  {
  }

  /** GOTO goes only to its target; any other jump also falls through when an
      instruction follows. */
  lemma JumpSuccessors(insns: seq<Insn>, tcbs: seq<TryCatchBlock>, i: nat)
    requires i < |insns| && insns[i].JumpInsn? && !insns[i].IsReturn()
    ensures insns[i].opcode == GOTO ==>
      EdgesOf(insns, tcbs)[i] == [insns[i].target] + HandlersAt(tcbs, i)
    ensures insns[i].opcode != GOTO && i + 1 < |insns| ==>
      EdgesOf(insns, tcbs)[i] == [i + 1, insns[i].target] + HandlersAt(tcbs, i)
    ensures insns[i].opcode != GOTO && i + 1 == |insns| ==>
      EdgesOf(insns, tcbs)[i] == [insns[i].target] + HandlersAt(tcbs, i)
  {
  }

  /** A switch goes to its default and then every case label, never falling through. */
  lemma SwitchSuccessors(insns: seq<Insn>, tcbs: seq<TryCatchBlock>, i: nat)
    requires i < |insns| && (insns[i].LookupSwitchInsn? || insns[i].TableSwitchInsn?)
    ensures EdgesOf(insns, tcbs)[i] == [insns[i].dflt] + insns[i].labels + HandlersAt(tcbs, i)
  {
  }

  /** ATHROW has only its exception edges; any other plain instruction also gets
      an edge to the next index, if there is one. */
  lemma PlainSuccessors(insns: seq<Insn>, tcbs: seq<TryCatchBlock>, i: nat)
    requires i < |insns| && !insns[i].IsReturn()
    requires !(insns[i].JumpInsn? || insns[i].LookupSwitchInsn? || insns[i].TableSwitchInsn?)
    ensures insns[i].Opcode() == ATHROW ==> EdgesOf(insns, tcbs)[i] == HandlersAt(tcbs, i)
    ensures insns[i].Opcode() != ATHROW && i + 1 < |insns| ==>
      EdgesOf(insns, tcbs)[i] == [i + 1] + HandlersAt(tcbs, i)
    ensures insns[i].Opcode() != ATHROW && i + 1 == |insns| ==>
      EdgesOf(insns, tcbs)[i] == HandlersAt(tcbs, i)
  {
  }

  /** Every non-return instruction has an edge to the handler of every block
      covering it; an instruction no block covers gets no exception edge. */
  lemma ExceptionEdges(insns: seq<Insn>, tcbs: seq<TryCatchBlock>, i: nat)
    requires i < |insns| && !insns[i].IsReturn()
    ensures forall k :: 0 <= k < |tcbs| && Covers(tcbs[k], i) ==> tcbs[k].handler in EdgesOf(insns, tcbs)[i]
    ensures (forall k :: 0 <= k < |tcbs| ==> !Covers(tcbs[k], i)) ==>
      EdgesOf(insns, tcbs)[i] == NormalSuccessors(insns, i)
  {
    forall k | 0 <= k < |tcbs| && Covers(tcbs[k], i)
      ensures tcbs[k].handler in EdgesOf(insns, tcbs)[i]
    {
      HandlersAtMembership(tcbs, i, tcbs[k].handler);
    }
    if forall k :: 0 <= k < |tcbs| ==> !Covers(tcbs[k], i) {
      if HandlersAt(tcbs, i) != [] {
        HandlersAtMembership(tcbs, i, HandlersAt(tcbs, i)[0]);
      }
    }
  }

  /** Both directions: `j` is a successor of a non-return `i` exactly when it is
      a control-flow successor or the handler of a block covering `i`. */
  lemma SuccessorCharacterisation(insns: seq<Insn>, tcbs: seq<TryCatchBlock>, i: nat, j: nat)
    requires i < |insns| && !insns[i].IsReturn()
    ensures j in EdgesOf(insns, tcbs)[i] <==>
      j in NormalSuccessors(insns, i) ||
      exists k :: 0 <= k < |tcbs| && Covers(tcbs[k], i) && tcbs[k].handler == j
  {
    HandlersAtMembership(tcbs, i, j);
  }

  /** Every jump, switch and handler target lies in the list. */
  predicate TargetsInList(insns: seq<Insn>, tcbs: seq<TryCatchBlock>) {
    && ValidTryCatchTable(|insns|, tcbs)
    && (forall i :: 0 <= i < |insns| && insns[i].JumpInsn? ==> insns[i].target < |insns|)
    && (forall i :: 0 <= i < |insns| && (insns[i].LookupSwitchInsn? || insns[i].TableSwitchInsn?) ==>
          insns[i].dflt < |insns| && forall t :: t in insns[i].labels ==> t < |insns|)
  }

  /** In a method node every jump, switch and handler target is a label. */
  predicate TargetsAreLabels(insns: seq<Insn>, tcbs: seq<TryCatchBlock>) {
    && TargetsInList(insns, tcbs)
    && (forall i :: 0 <= i < |insns| && insns[i].JumpInsn? ==> insns[insns[i].target].LabelNode?)
    && (forall i :: 0 <= i < |insns| && (insns[i].LookupSwitchInsn? || insns[i].TableSwitchInsn?) ==>
          insns[insns[i].dflt].LabelNode? && forall t :: t in insns[i].labels ==> insns[t].LabelNode?)
    && (forall k :: 0 <= k < |tcbs| ==> insns[tcbs[k].handler].LabelNode?)
  }

  /** An instruction that is not a label is entered only by falling through
      from the instruction before it. */
  lemma {:induction false} OnlyLabelsAreJoinPoints(insns: seq<Insn>, tcbs: seq<TryCatchBlock>, i: nat, j: nat)
    requires TargetsAreLabels(insns, tcbs)
    requires i < |insns| && j < |insns| && !insns[j].LabelNode?
    requires j in EdgesOf(insns, tcbs)[i]
    ensures j == i + 1
  {
    assert !insns[i].IsReturn();
    SuccessorCharacterisation(insns, tcbs, i, j);
  }

  predicate Closed(g: Graph) {
    forall i, j :: 0 <= i < |g| && j in g[i] ==> j < |g|
  }

  /** An edge out of `i` leads into the list when every target lies in it. */
  lemma EdgeInList(insns: seq<Insn>, tcbs: seq<TryCatchBlock>, i: nat, j: nat)
    requires TargetsInList(insns, tcbs) && i < |insns| && j in EdgesOf(insns, tcbs)[i]
    ensures j < |insns|
  {
    SuccessorCharacterisation(insns, tcbs, i, j);
    if j !in NormalSuccessors(insns, i) {
      var k :| 0 <= k < |tcbs| && Covers(tcbs[k], i) && tcbs[k].handler == j;
      assert ValidTryCatch(|insns|, tcbs[k]);
    }
  }

  /** When every target is in the list, every edge stays inside the graph. */
  lemma EdgesStayInList(insns: seq<Insn>, tcbs: seq<TryCatchBlock>)
    requires TargetsInList(insns, tcbs)
    ensures Closed(EdgesOf(insns, tcbs))
  {
    var g := EdgesOf(insns, tcbs);
    forall i, j | 0 <= i < |g| && j in g[i]
      ensures j < |g|
    {
      EdgeInList(insns, tcbs, i, j);
    }
  }
}
