/** Which instructions the control-flow graph reaches from the entry
    instruction, computed by a worklist. This stands in for the null/non-null
    pattern of the analyzer's frame array; the two can differ, because the
    graph gives a return no handler edge where the analyzer keeps one. */
module Reachability {
  import opened DataFlowGraph

  /** A path of graph edges that starts at the entry instruction 0. */
  ghost predicate IsEntryPath(g: Graph, p: seq<nat>) {
    && |p| > 0
    && p[0] == 0
    && (forall k :: 0 <= k < |p| ==> p[k] < |g|)
    && (forall k :: 0 <= k < |p| - 1 ==> p[k + 1] in g[p[k]])
  }

  ghost predicate Reachable(g: Graph, i: nat) {
    exists p :: IsEntryPath(g, p) && p[|p| - 1] == i
  }

  lemma ExtendPath(g: Graph, p: seq<nat>, s: nat)
    requires IsEntryPath(g, p) && s < |g| && s in g[p[|p| - 1]]
    ensures IsEntryPath(g, p + [s])
  {
  }

  /** The marked indices are closed under edges. */
  predicate ClosedUnder(g: Graph, reached: seq<bool>)
    requires |reached| == |g|
  {
    forall i, s :: 0 <= i < |g| && reached[i] && s in g[i] ==> s < |g| && reached[s]
  }

  /** A set of indices that holds the entry and is closed under edges holds
      every instruction on an entry path. */
  lemma {:induction false} ClosedSetHoldsPath(g: Graph, reached: seq<bool>, p: seq<nat>)
    requires |reached| == |g| && |g| > 0 && reached[0]
    requires ClosedUnder(g, reached)
    requires IsEntryPath(g, p)
    ensures reached[p[|p| - 1]]
    decreases |p|
  {
    if |p| > 1 {
      var front := p[..|p| - 1];
      assert IsEntryPath(g, front);
      ClosedSetHoldsPath(g, reached, front);
      assert p[|p| - 1] in g[front[|front| - 1]];
    }
  }

  lemma StrictSubsetSmaller(a: set<nat>, b: set<nat>)
    requires a < b
    ensures |a| < |b|
  {
    var x :| x in b - a;
    assert b == a + (b - a);
    assert x in b - a;
  }

  function Unreached(reached: seq<bool>): set<nat> {
    set i: nat | i < |reached| && !reached[i]
  }

  /** Visit the successors of `u`: mark each one not yet marked and push it
      on the worklist. */
  method Visit(g: Graph, reached: seq<bool>, work: seq<nat>, u: nat) returns (reached': seq<bool>, work': seq<nat>)
    requires Closed(g) && |reached| == |g| && u < |g| && reached[u]
    requires forall i :: 0 <= i < |g| && reached[i] ==> Reachable(g, i)
    ensures |reached'| == |g| && |work| <= |work'| && work'[..|work|] == work
    ensures forall s :: s in g[u] ==> reached'[s]
    ensures forall i :: 0 <= i < |g| && reached[i] ==> reached'[i]
    ensures forall i :: 0 <= i < |g| && reached'[i] ==> Reachable(g, i)
    ensures forall k :: |work| <= k < |work'| ==> work'[k] < |g| && reached'[work'[k]]
    ensures forall i :: 0 <= i < |g| && reached'[i] && !reached[i] ==> i in work'
    ensures Unreached(reached') <= Unreached(reached)
    ensures Unreached(reached') == Unreached(reached) ==> work' == work
  {
    reached', work' := reached, work;
    var succs := g[u];
    forall t | 0 <= t < |succs|
      ensures succs[t] < |g|
    {
      assert succs[t] in g[u];
    }
    var k := 0;
    while k < |succs|
      invariant 0 <= k <= |succs|
      invariant |reached'| == |g| && |work| <= |work'| && work'[..|work|] == work
      invariant forall t :: 0 <= t < k ==> reached'[succs[t]]
      invariant forall i :: 0 <= i < |g| && reached[i] ==> reached'[i]
      invariant forall i :: 0 <= i < |g| && reached'[i] ==> Reachable(g, i)
      invariant forall j :: |work| <= j < |work'| ==> work'[j] < |g| && reached'[work'[j]]
      invariant forall i :: 0 <= i < |g| && reached'[i] && !reached[i] ==> i in work'
      invariant Unreached(reached') <= Unreached(reached)
      invariant Unreached(reached') == Unreached(reached) ==> work' == work
    {
      var s := succs[k];
      assert s in g[u];
      if !reached'[s] {
        ghost var p :| IsEntryPath(g, p) && p[|p| - 1] == u;
        ExtendPath(g, p, s);
        ghost var prior := Unreached(reached');
        assert s in prior;
        reached' := reached'[s := true];
        assert Unreached(reached') == prior - {s};
        work' := work' + [s];
      }
      k := k + 1;
    }
    forall s | s in g[u]
      ensures reached'[s]
    {
      var t :| 0 <= t < |succs| && succs[t] == s;
    }
  }

  /** Worklist reachability from the entry instruction: `reached[i]` holds
      exactly when some path of edges leads from instruction 0 to `i`. */
  method ReachableFromEntry(g: Graph) returns (reached: seq<bool>)
    requires Closed(g)
    ensures |reached| == |g|
    ensures forall i :: 0 <= i < |g| ==> (reached[i] <==> Reachable(g, i))
  {
    if |g| == 0 {
      return [];
    }
    reached := seq(|g|, i => i == 0);
    assert IsEntryPath(g, [0]);
    var work: seq<nat> := [0];
    while |work| > 0
      invariant |reached| == |g| && reached[0]
      invariant forall k :: 0 <= k < |work| ==> work[k] < |g| && reached[work[k]]
      invariant forall i :: 0 <= i < |g| && reached[i] ==> Reachable(g, i)
      invariant forall i, s :: 0 <= i < |g| && reached[i] && i !in work && s in g[i] ==> reached[s]
      decreases |Unreached(reached)|, |work|
    {
      var u := work[|work| - 1];
      ghost var before := Unreached(reached);
      ghost var pending := work;
      work := work[..|work| - 1];
      ghost var reached0 := reached;
      ghost var work0 := work;
      reached, work := Visit(g, reached, work, u);
      forall k | 0 <= k < |work|
        ensures work[k] < |g| && reached[work[k]]
      {
        if k < |work0| {
          assert work[k] == work0[k] == pending[k];
        }
      }
      forall i, s | 0 <= i < |g| && reached[i] && i !in work && s in g[i]
        ensures reached[s]
      {
        if i != u {
          assert reached0[i];
          assert forall x :: x in work0 ==> x in work by {
            forall x | x in work0 ensures x in work {
              var j :| 0 <= j < |work0| && work0[j] == x;
              assert work[j] == x;
            }
          }
        }
      }
      if Unreached(reached) != before {
        StrictSubsetSmaller(Unreached(reached), before);
      }
    }
    assert ClosedUnder(g, reached);
    forall i | 0 <= i < |g| && Reachable(g, i)
      ensures reached[i]
    {
      ghost var p :| IsEntryPath(g, p) && p[|p| - 1] == i;
      ClosedSetHoldsPath(g, reached, p);
    }
  }
}
