/** Dead-code elimination: the frames are computed once on the original list;
    then every meaningful instruction whose frame is null (never reached) is
    removed. Labels, line numbers and stack-map frames always stay. */
module DeadCodeElimination {
  import opened Wrappers
  import opened Insns
  import opened SnapshotEdits
  import opened DataFlowGraph
  import opened Reachability

  /** `insnsArray.zip(frames)` pairs up the common prefix of the two arrays. */
  predicate IsDead<F>(insns: seq<Insn>, frames: seq<Option<F>>, i: nat) {
    i < |insns| && i < |frames| && frames[i].None? && insns[i].IsMeaningful()
  }

  function DeadIndices<F>(insns: seq<Insn>, frames: seq<Option<F>>): set<nat> {
    set i: nat | i < |insns| && IsDead(insns, frames, i)
  }

  /** `DeadCodeEliminationMethodTransformer.transform`: the result is exactly the
      instructions that are reached or are bookkeeping, in their original
      order; nothing is inserted or rewritten. */
  function Transform<F>(insns: seq<Insn>, frames: seq<Option<F>>): (r: seq<Insn>)
    ensures var ks := Kept(|insns|, DeadIndices(insns, frames));
            && |r| == |ks|
            && (forall j :: 0 <= j < |ks| ==> r[j] == insns[ks[j]])
            && (forall j :: 0 <= j < |ks| ==> !IsDead(insns, frames, ks[j]))
  {
    ApplyKeepsSurvivors(insns, DeadIndices(insns, frames), map[]);
    Apply(insns, DeadIndices(insns, frames), map[])
  }

  /** Both directions: an instruction survives exactly when it has a frame or
      is not meaningful. */
  lemma SurvivesIffReachedOrBookkeeping<F>(insns: seq<Insn>, frames: seq<Option<F>>, i: nat)
    requires i < |insns| && |frames| == |insns|
    ensures i in Kept(|insns|, DeadIndices(insns, frames)) <==> frames[i].Some? || !insns[i].IsMeaningful()
  {
    if frames[i].Some? || !insns[i].IsMeaningful() {
      KeptComplete(|insns|, DeadIndices(insns, frames), i);
    }
  }

  /** The frames of the survivors, looked up by their snapshot index. */
  function SurvivorFrames<F>(frames: seq<Option<F>>, ks: seq<nat>): (fs: seq<Option<F>>)
    requires forall j :: 0 <= j < |ks| ==> ks[j] < |frames|
    ensures |fs| == |ks|
  {
    seq(|ks|, j requires 0 <= j < |ks| => frames[ks[j]])
  }

  /** Running the pass again, with every survivor keeping its frame, removes
      nothing. */
  lemma TransformIdempotent<F>(insns: seq<Insn>, frames: seq<Option<F>>)
    requires |frames| == |insns|
    ensures var ks := Kept(|insns|, DeadIndices(insns, frames));
            var r := Transform(insns, frames);
            Transform(r, SurvivorFrames(frames, ks)) == r
  {
    var ks := Kept(|insns|, DeadIndices(insns, frames));
    var r := Transform(insns, frames);
    var fs := SurvivorFrames(frames, ks);
    assert DeadIndices(r, fs) == {} by {
      forall j: nat | j < |r|
        ensures !IsDead(r, fs, j)
      {
        assert r[j] == insns[ks[j]] && fs[j] == frames[ks[j]];
      }
    }
    ApplyNothing(r);
  }

  /** The pass driven by reachability over the control-flow graph: a frame is
      null exactly at an instruction no path of edges reaches from the entry. */
  method EliminateUnreachable(insns: seq<Insn>, tcbs: seq<TryCatchBlock>) returns (r: seq<Insn>)
    requires TargetsInList(insns, tcbs)
    ensures var ks := Kept(|insns|, set i: nat | i < |insns| && !Reachable(EdgesOf(insns, tcbs), i) && insns[i].IsMeaningful());
            |r| == |ks| && forall j :: 0 <= j < |ks| ==> r[j] == insns[ks[j]]
  {
    var g := Build(insns, tcbs);
    EdgesStayInList(insns, tcbs);
    var reached := ReachableFromEntry(g);
    var frames: seq<Option<()>> := seq(|insns|, i requires 0 <= i < |insns| => if reached[i] then Some(()) else None);
    assert DeadIndices(insns, frames) ==
           set i: nat | i < |insns| && !Reachable(EdgesOf(insns, tcbs), i) && insns[i].IsMeaningful();
    r := Transform(insns, frames);
  }
}
