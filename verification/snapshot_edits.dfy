/** The passes decide their edits on a snapshot of the instruction list and
    apply them afterwards: removals by snapshot index and replacements of single
    instructions. Applying keeps every other instruction, in order. */
module SnapshotEdits {

  /** The snapshot indices that survive when `removed` are taken out. */
  function Kept(n: nat, removed: set<nat>): (ks: seq<nat>)
    ensures forall j :: 0 <= j < |ks| ==> ks[j] < n && ks[j] !in removed
    ensures forall j, k :: 0 <= j < k < |ks| ==> ks[j] < ks[k]
  {
    if n == 0 then []
    else Kept(n - 1, removed) + (if n - 1 in removed then [] else [n - 1])
  }

  /** Every index outside `removed` survives. */
  lemma {:induction false} KeptComplete(n: nat, removed: set<nat>, i: nat)
    requires i < n && i !in removed
    ensures i in Kept(n, removed)
  {
    if i < n - 1 {
      KeptComplete(n - 1, removed, i);
    }
  }

  /** The instruction that stands at snapshot index `i` after replacements. */
  function Edited<T>(xs: seq<T>, replaced: map<nat, T>, i: nat): T
    requires i < |xs|
  {
    if i in replaced then replaced[i] else xs[i]
  }

  /** Remove the `removed` indices and replace the `replaced` ones. */
  function Apply<T>(xs: seq<T>, removed: set<nat>, replaced: map<nat, T>): (r: seq<T>)
  {
    if |xs| == 0 then []
    else
      var n := |xs| - 1;
      Apply(xs[..n], removed, replaced) + (if n in removed then [] else [Edited(xs, replaced, n)])
  }

  /** The result is exactly the surviving snapshot instructions, in snapshot
      order, each replaced where a replacement was recorded. */
  lemma {:induction false} ApplyKeepsSurvivors<T>(xs: seq<T>, removed: set<nat>, replaced: map<nat, T>)
    ensures var ks := Kept(|xs|, removed);
            var r := Apply(xs, removed, replaced);
            |r| == |ks| && forall j :: 0 <= j < |ks| ==> r[j] == Edited(xs, replaced, ks[j])
  {
    if |xs| > 0 {
      var n := |xs| - 1;
      var front := xs[..n];
      ApplyKeepsSurvivors(front, removed, replaced);
      var ks0 := Kept(n, removed);
      var r0 := Apply(front, removed, replaced);
      var tail := if n in removed then [] else [Edited(xs, replaced, n)];
      var ktail := if n in removed then [] else [n];
      assert Kept(|xs|, removed) == ks0 + ktail;
      assert Apply(xs, removed, replaced) == r0 + tail;
      forall j | 0 <= j < |ks0|
        ensures r0[j] == Edited(xs, replaced, ks0[j])
      {
        assert Edited(front, replaced, ks0[j]) == Edited(xs, replaced, ks0[j]);
      }
    }
  }

  /** With nothing removed, applying keeps every index and changes only the
      replaced ones. */
  lemma ApplyWithoutRemovals<T>(xs: seq<T>, replaced: map<nat, T>)
    ensures var r := Apply(xs, {}, replaced);
            |r| == |xs| && forall i :: 0 <= i < |xs| ==> r[i] == Edited(xs, replaced, i)
  {
    KeptAll(|xs|);
    ApplyKeepsSurvivors(xs, {}, replaced);
  }

  /** A single replacement with nothing removed is a sequence update. */
  lemma ApplySingleReplacement<T>(xs: seq<T>, k: nat, x: T)
    requires k < |xs|
    ensures Apply(xs, {}, map[k := x]) == xs[k := x]
  {
    ApplyWithoutRemovals(xs, map[k := x]);
  }

  lemma {:induction false} KeptAll(n: nat)
    ensures Kept(n, {}) == seq(n, i => i)
  {
    if n > 0 {
      KeptAll(n - 1);
    }
  }

  /** Nothing removed and nothing replaced: the list is unchanged. */
  lemma ApplyNothing<T>(xs: seq<T>)
    ensures Apply(xs, {}, map[]) == xs
  {
    ApplyWithoutRemovals(xs, map[]);
  }
}
