/** Maximum bipartite matching by augmenting paths. */
module MaxBipartiteMatch {
  import opened Bipartite
  import opened MatchMatrices

  /** The right nodes the search has not marked yet. */
  ghost function Unseen(seen: seq<bool>): set<int> {
    set r | 0 <= r < |seen| && !seen[r]
  }

  ghost predicate NewlySeenClosed(g: Graph, right: seq<int>, before: seq<bool>, seen: seq<bool>)
    requires |right| == |before| == |seen| == g.rhs
  {
    forall d :: 0 <= d < |seen| && seen[d] && !before[d] ==>
      right[d] != UNUSED && forall r :: g.Edge(right[d], r) ==> seen[r]
  }

  /** What a failed search from `l` leaves behind: all that l reaches is marked, and so is
    all that the partner of each newly marked node reaches. */
  ghost predicate RanDry(g: Graph, right: seq<int>, l: int, before: seq<bool>, seen: seq<bool>)
    requires |right| == |before| == |seen| == g.rhs
  {
    && (forall r :: g.Edge(l, r) ==> seen[r])
    && NewlySeenClosed(g, right, before, seen)
  }

  /** An augmenting path that keeps to unmarked right nodes. */
  ghost predicate FreshPath(g: Graph, right: seq<int>, l: int, p: seq<int>, seen: seq<bool>)
    requires |seen| == g.rhs
  {
    && AugmentingPath(g, right, l, p)
    && Distinct(p)
    && forall r :: r in p ==> 0 <= r < |seen| && !seen[r]
  }

  /** What holds after the left nodes below n have been visited once: those still
    without a partner are exhausted by a closed set of right nodes. */
  ghost predicate SinglePass(g: Graph, left: seq<int>, right: seq<int>, n: int, dead: set<int>) {
    && Closed(g, right, dead)
    && n <= |left|
    && forall l :: 0 <= l < n && left[l] == UNUSED ==> Exhausted(g, l, dead)
  }

  lemma SinglePassAdvances(g: Graph, left: seq<int>, right: seq<int>, l: int, p: seq<int>, dead: set<int>)
    requires g.WellFormed() && MutuallyReferent(g, left, right)
    requires SinglePass(g, left, right, l, dead)
    requires AugmentingPath(g, right, l, p) && Distinct(p) && left[l] == UNUSED
    ensures var left', right' := FlipLeft(g, left, right, l, p), FlipRight(g, right, l, p);
      && MutuallyReferent(g, left', right')
      && SinglePass(g, left', right', l + 1, dead)
      && forall x :: l < x < |left| && left[x] == UNUSED ==> left'[x] == UNUSED
  {
    var left', right' := FlipLeft(g, left, right, l, p), FlipRight(g, right, l, p);
    FlipKeepsMatching(g, left, right, l, p);
    FlipKeepsClosed(g, left, right, l, p, dead);
    assert forall x :: 0 <= x < |left| ==> (x in Partnered(left') <==> x in Partnered(left) || x == l);
  }

  /** A failed search adds the nodes it marked to the closed set. */
  lemma DrySearchExtends(g: Graph, left: seq<int>, right: seq<int>, l: int, seen: seq<bool>, dead: set<int>)
      returns (dead': set<int>)
    requires |right| == |seen| == g.rhs && 0 <= l < |left|
    requires SinglePass(g, left, right, l, dead)
    requires RanDry(g, right, l, seq(g.rhs, _ => false), seen)
    ensures SinglePass(g, left, right, l + 1, dead')
  {
    dead' := dead + set r | 0 <= r < |seen| && seen[r];
  }

  /** The linked pairs in the order of their left nodes. */
  function Linked(left: seq<int>): (pairs: seq<(int, int)>) {
    if left == [] then []
    else
      var n := |left| - 1;
      Linked(left[..n]) + (if left[n] == UNUSED then [] else [(n, left[n])])
  }

  ghost function Pairs(s: seq<(int, int)>): set<(int, int)> {
    set e | e in s
  }

  lemma {:induction false} LinkedIsOrdered(left: seq<int>)
    ensures var s := Linked(left);
      && (forall i :: 0 <= i < |s| ==> 0 <= s[i].0 < |left| && left[s[i].0] != UNUSED && s[i].1 == left[s[i].0])
      && (forall i, j :: 0 <= i < j < |s| ==> s[i].0 < s[j].0)
  {
    if left != [] {
      var rest := left[..|left| - 1];
      LinkedIsOrdered(rest);
      assert forall l :: 0 <= l < |rest| ==> rest[l] == left[l];
      assert Linked(left) == Linked(rest) || Linked(left) == Linked(rest) + [(|rest|, left[|rest|])];
    }
  }

  lemma {:induction false} LinkedIsComplete(left: seq<int>)
    ensures |Linked(left)| == |Partnered(left)|
  {
    if left != [] {
      var n := |left| - 1;
      LinkedIsComplete(left[..n]);
      if left[n] != UNUSED {
        assert Partnered(left) == Partnered(left[..n]) + {n};
      } else {
        assert Partnered(left) == Partnered(left[..n]);
      }
    }
  }

  lemma {:induction false} OrderedPairsAreDistinct(s: seq<(int, int)>)
    requires forall i, j :: 0 <= i < j < |s| ==> s[i].0 < s[j].0
    ensures |Pairs(s)| == |s|
  {
    if s != [] {
      var n := |s| - 1;
      OrderedPairsAreDistinct(s[..n]);
      assert Pairs(s) == Pairs(s[..n]) + {s[n]};
    }
  }

  lemma LinkedIsMatching(g: Graph, left: seq<int>, right: seq<int>)
    requires MutuallyReferent(g, left, right)
    ensures var s := Linked(left);
      && IsMatching(g, Pairs(s))
      && (forall i, j :: 0 <= i < j < |s| ==> s[i].0 < s[j].0)
      && |Pairs(s)| == |s| == |Partnered(left)|
  {
    LinkedIsOrdered(left);
    LinkedIsComplete(left);
    OrderedPairsAreDistinct(Linked(left));
  }

  class MaxBipartiteMatchState {
    const graph: MatchMatrix
    const left: array<int>
    const right: array<int>

    ghost predicate Valid()
      reads graph.matched, left, right
    {
      && graph.Valid()
      && left != right
      && MutuallyReferent(graph.Value(), left[..], right[..])
    }

    constructor (graph: MatchMatrix)
      requires graph.Valid()
      ensures Valid() && this.graph == graph && fresh(left) && fresh(right)
      ensures forall l :: 0 <= l < left.Length ==> left[l] == UNUSED
      ensures forall r :: 0 <= r < right.Length ==> right[r] == UNUSED
    {
      this.graph := graph;
      left := new int[graph.numElements](_ => UNUSED);
      right := new int[graph.numMatchers](_ => UNUSED);
    }

    /** Depth-first search from ilhs for a right node without a partner.  On failure nothing
      but `seen` has changed; on success the arrays are those of the flow pushed along
      `path`, which leaves right_[left_[ilhs]] stale until the caller overwrites it. */
    method TryAugment(ilhs: nat, seen: array<bool>) returns (ok: bool, ghost path: seq<int>)
      requires Valid() && ilhs < left.Length && seen.Length == right.Length
      requires seen != graph.matched
      requires left[ilhs] == UNUSED || seen[left[ilhs]]
      modifies left, right, seen
      ensures forall r :: 0 <= r < seen.Length && old(seen[r]) ==> seen[r]
      ensures !ok ==> left[..] == old(left[..]) && right[..] == old(right[..])
      ensures !ok ==> RanDry(graph.Value(), right[..], ilhs, old(seen[..]), seen[..])
      ensures ok ==> FreshPath(graph.Value(), old(right[..]), ilhs, path, old(seen[..]))
      ensures ok ==> left[..] == FlipLeft(graph.Value(), old(left[..]), old(right[..]), ilhs, path)
      ensures ok ==> right[..] == FlipRight(graph.Value(), old(right[..]), ilhs, path)
      decreases Unseen(seen[..])
    {
      ghost var g, left0, right0, seen0 := graph.Value(), left[..], right[..], seen[..];
      path := [];
      for irhs := 0 to graph.numMatchers
        invariant left[..] == left0 && right[..] == right0
        invariant forall r :: 0 <= r < seen.Length && seen0[r] ==> seen[r]
        invariant forall r :: 0 <= r < irhs && g.Edge(ilhs, r) ==> seen[r]
        invariant NewlySeenClosed(g, right0, seen0, seen[..])
      {
        if seen[irhs] { continue; }
        if !graph.HasEdge(ilhs, irhs) { continue; }
        ghost var seen1 := seen[..];
        seen[irhs] := true;
        ghost var seen2 := seen[..];
        assert irhs in Unseen(seen1) && Unseen(seen2) == Unseen(seen1) - {irhs};
        assert Unseen(seen1) <= Unseen(seen0);
        var free := right[irhs] == UNUSED;
        if !free {
          ghost var j := right[irhs];
          free, path := TryAugment(right[irhs], seen);
          if free {
            assert ([irhs] + path)[1..] == path;
            path := [irhs] + path;
            assert FreshPath(g, right0, ilhs, path, seen0);
          }
        } else {
          path := [irhs];
        }
        if free {
          left[ilhs] := irhs;
          right[irhs] := ilhs;
          return true, path;
        }
      }
      return false, path;
    }

    /** Returns a matching that no other matching of the graph outnumbers. */
    method Compute() returns (result: seq<(int, int)>)
      requires Valid()
      requires forall l :: 0 <= l < left.Length ==> left[l] == UNUSED
      modifies left, right
      ensures Valid()
      ensures forall i, j :: 0 <= i < j < |result| ==> result[i].0 < result[j].0
      ensures IsMatching(graph.Value(), Pairs(result)) && |Pairs(result)| == |result|
      ensures forall m :: IsMatching(graph.Value(), m) ==> |m| <= |result|
    {
      ghost var g := graph.Value();
      ghost var dead: set<int> := {};
      for ilhs := 0 to graph.numElements
        invariant Valid()
        invariant forall l :: ilhs <= l < left.Length ==> left[l] == UNUSED
        invariant SinglePass(g, left[..], right[..], ilhs, dead)
      {
        assert left[ilhs] == UNUSED;
        var seen := new bool[graph.numMatchers](_ => false);
        assert seen[..] == seq(graph.numMatchers, _ => false);
        ghost var left0, right0 := left[..], right[..];
        var ok, path := TryAugment(ilhs, seen);
        if ok {
          SinglePassAdvances(g, left0, right0, ilhs, path, dead);
        } else {
          dead := DrySearchExtends(g, left0, right0, ilhs, seen[..], dead);
        }
      }
      result := [];
      for ilhs := 0 to left.Length
        invariant result == Linked(left[..ilhs])
      {
        assert left[..ilhs + 1][..ilhs] == left[..ilhs];
        var irhs := left[ilhs];
        if irhs == UNUSED { continue; }
        result := result + [(ilhs, irhs)];
      }
      assert left[..left.Length] == left[..];
      LinkedIsMatching(g, left[..], right[..]);
      forall m | IsMatching(g, m)
        ensures |m| <= |result|
      {
        CoverBoundsMatchings(g, left[..], right[..], dead, m);
      }
    }
  }

  /** A search that starts with no node marked fails only when there is no path. */
  lemma DrySearchMeansNoPath(g: Graph, right: seq<int>, l: int, before: seq<bool>, seen: seq<bool>)
    requires |right| == |before| == |seen| == g.rhs
    requires forall r :: 0 <= r < |before| ==> !before[r]
    requires RanDry(g, right, l, before, seen)
    ensures !exists p :: AugmentingPath(g, right, l, p)
  {
    ExhaustedHasNoPath(g, right, l, set r | 0 <= r < |seen| && seen[r]);
  }
}
