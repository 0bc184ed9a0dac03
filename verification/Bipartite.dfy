/** Bipartite graphs, matchings and augmenting paths as plain values.

  The left side holds the elements, the right side the matchers.  A matching
  state is a pair of sequences `left` and `right` that refer to each other, as
  in `MaxBipartiteMatchState`; -1 plays the part of `kUnused`.
 */
module Bipartite {

  const UNUSED := -1

  /** `rows[l][r]` says whether element l satisfies matcher r. */
  datatype Graph = Graph(rhs: nat, rows: seq<seq<bool>>) {
    ghost predicate WellFormed() {
      forall l :: 0 <= l < |rows| ==> |rows[l]| == rhs
    }

    predicate Edge(l: int, r: int) {
      0 <= l < |rows| && 0 <= r < |rows[l]| && r < rhs && rows[l][r]
    }
  }

  /** A set of edges in which no left and no right node occurs twice. */
  ghost predicate IsMatching(g: Graph, m: set<(int, int)>) {
    && (forall e :: e in m ==> g.Edge(e.0, e.1))
    && (forall e, f :: e in m && f in m && (e.0 == f.0 || e.1 == f.1) ==> e == f)
  }

  ghost predicate InRange(g: Graph, left: seq<int>, right: seq<int>) {
    && |left| == |g.rows|
    && |right| == g.rhs
    && (forall l :: 0 <= l < |left| ==> left[l] == UNUSED || g.Edge(l, left[l]))
    && (forall r :: 0 <= r < |right| ==> right[r] == UNUSED || 0 <= right[r] < |left|)
  }

  /** Every entry of `left` and `right` is unused or the two refer to each other. */
  ghost predicate MutuallyReferent(g: Graph, left: seq<int>, right: seq<int>) {
    && InRange(g, left, right)
    && (forall l :: 0 <= l < |left| && left[l] != UNUSED ==> right[left[l]] == l)
    && (forall r :: 0 <= r < |right| && right[r] != UNUSED ==> left[right[r]] == r)
  }

  /** The state half way through unwinding a search that started at node l:
    right node `stale` may still name l although l has already moved on. */
  ghost predicate ReferentExcept(g: Graph, left: seq<int>, right: seq<int>, stale: int) {
    && InRange(g, left, right)
    && (forall l :: 0 <= l < |left| && left[l] != UNUSED ==> right[left[l]] == l)
    && (forall r :: 0 <= r < |right| && r != stale && right[r] != UNUSED ==> left[right[r]] == r)
  }

  // ---------------------------------------------------------- augmenting paths

  ghost predicate Distinct(p: seq<int>) {
    forall i, j :: 0 <= i < j < |p| ==> p[i] != p[j]
  }

  /** The right nodes of a path in the residual graph from left node l to a right
    node that has no partner. */
  ghost predicate AugmentingPath(g: Graph, right: seq<int>, l: int, p: seq<int>)
    decreases |p|
  {
    && |p| > 0
    && |right| == g.rhs
    && g.Edge(l, p[0])
    && (if |p| == 1 then right[p[0]] == UNUSED
        else right[p[0]] != UNUSED && AugmentingPath(g, right, right[p[0]], p[1..]))
  }

  /** Pushing flow along the path: the far end is linked first, as the recursion
    unwinds, and each node is then relinked by its caller. */
  ghost function FlipLeft(g: Graph, left: seq<int>, right: seq<int>, l: int, p: seq<int>): (r: seq<int>)
    requires AugmentingPath(g, right, l, p) && InRange(g, left, right)
    ensures |r| == |left|
    decreases |p|
  {
    if |p| == 1 then left[l := p[0]]
    else FlipLeft(g, left, right, right[p[0]], p[1..])[l := p[0]]
  }

  ghost function FlipRight(g: Graph, right: seq<int>, l: int, p: seq<int>): (r: seq<int>)
    requires AugmentingPath(g, right, l, p)
    ensures |r| == |right|
    decreases |p|
  {
    if |p| == 1 then right[p[0] := l]
    else FlipRight(g, right, right[p[0]], p[1..])[p[0] := l]
  }

  /** Everything the caller of a successful search relies on, for a start node l
    whose old partner (if any) is not on the path. */
  ghost predicate Flipped(g: Graph, left: seq<int>, right: seq<int>, left': seq<int>, right': seq<int>,
                          l: int, p: seq<int>)
    requires InRange(g, left, right) && 0 <= l < |left| && |p| > 0
  {
    && ReferentExcept(g, left', right', left[l])
    && left'[l] == p[0]
    && (forall x :: 0 <= x < |left| && x != l ==> (left'[x] == UNUSED <==> left[x] == UNUSED))
    && (forall x :: 0 <= x < |left| && x != l && left[x] !in p ==> left'[x] == left[x])
    && (forall r :: 0 <= r < |right| && r !in p ==> right'[r] == right[r])
    && (forall r :: 0 <= r < |right| && r != p[|p| - 1] ==> (right'[r] == UNUSED <==> right[r] == UNUSED))
    && 0 <= p[|p| - 1] < |right|
    && right[p[|p| - 1]] == UNUSED && right'[p[|p| - 1]] != UNUSED
  }

  lemma {:induction false} FlipRelinks(g: Graph, left: seq<int>, right: seq<int>, l: int, p: seq<int>)
    requires g.WellFormed() && MutuallyReferent(g, left, right)
    requires AugmentingPath(g, right, l, p) && Distinct(p) && left[l] !in p
    ensures Flipped(g, left, right, FlipLeft(g, left, right, l, p), FlipRight(g, right, l, p), l, p)
    decreases |p|
  {
    if |p| > 1 {
      var j, q := right[p[0]], p[1..];
      assert forall r :: r in p <==> r == p[0] || r in q;
      assert p[0] !in q by {
        assert forall i :: 0 <= i < |q| ==> q[i] == p[i + 1];
      }
      assert left[j] == p[0];
      FlipRelinks(g, left, right, j, q);
      assert q[|q| - 1] == p[|p| - 1];
      var left1, right1 := FlipLeft(g, left, right, j, q), FlipRight(g, right, j, q);
      assert left1[l] == left[l];
    }
  }

  lemma {:induction false} PathInRange(g: Graph, right: seq<int>, l: int, p: seq<int>)
    requires AugmentingPath(g, right, l, p)
    ensures forall r :: r in p ==> 0 <= r < |right|
    decreases |p|
  {
    if |p| > 1 {
      PathInRange(g, right, right[p[0]], p[1..]);
      assert p == [p[0]] + p[1..];
    }
  }

  /** The nodes of one side that have a partner. */
  ghost function Partnered(side: seq<int>): (s: set<int>)
    ensures forall i :: i in s <==> 0 <= i < |side| && side[i] != UNUSED
  {
    set i | 0 <= i < |side| && side[i] != UNUSED
  }

  /** A successful augmentation from a free left node keeps the two sides mutually
    referent, adds exactly l and one right node, and frees nobody. */
  lemma FlipKeepsMatching(g: Graph, left: seq<int>, right: seq<int>, l: int, p: seq<int>)
    requires g.WellFormed() && MutuallyReferent(g, left, right)
    requires AugmentingPath(g, right, l, p) && Distinct(p) && left[l] == UNUSED
    ensures
      var left', right' := FlipLeft(g, left, right, l, p), FlipRight(g, right, l, p);
      && MutuallyReferent(g, left', right')
      && Partnered(left') == Partnered(left) + {l}
      && exists r :: 0 <= r < |right| && right[r] == UNUSED && Partnered(right') == Partnered(right) + {r}
  {
    PathInRange(g, right, l, p);
    FlipRelinks(g, left, right, l, p);
    var left', right' := FlipLeft(g, left, right, l, p), FlipRight(g, right, l, p);
    var r := p[|p| - 1];
    assert Partnered(right') == Partnered(right) + {r};
  }

  // ------------------------------------------------------- dead ends and covers

  /** Every edge out of l ends in `dead`. */
  ghost predicate Exhausted(g: Graph, l: int, dead: set<int>) {
    forall r :: g.Edge(l, r) ==> r in dead
  }

  /** A set of right nodes all of whose partners lead back into the set, so that no
    search that enters it gets out. */
  ghost predicate Closed(g: Graph, right: seq<int>, dead: set<int>) {
    && |right| == g.rhs
    && forall d :: d in dead ==> 0 <= d < |right| && right[d] != UNUSED && Exhausted(g, right[d], dead)
  }

  lemma {:induction false} PathAvoidsClosed(g: Graph, right: seq<int>, l: int, p: seq<int>, dead: set<int>)
    requires AugmentingPath(g, right, l, p) && Closed(g, right, dead)
    ensures forall r :: r in p ==> r !in dead
    decreases |p|
  {
    if |p| > 1 {
      PathAvoidsClosed(g, right, right[p[0]], p[1..], dead);
      assert p[1] == p[1..][0] && g.Edge(right[p[0]], p[1]);
    }
  }

  /** Augmenting from elsewhere does not open up a closed set. */
  lemma FlipKeepsClosed(g: Graph, left: seq<int>, right: seq<int>, l: int, p: seq<int>, dead: set<int>)
    requires g.WellFormed() && MutuallyReferent(g, left, right) && Closed(g, right, dead)
    requires AugmentingPath(g, right, l, p) && Distinct(p) && left[l] == UNUSED
    ensures Closed(g, FlipRight(g, right, l, p), dead)
  {
    PathInRange(g, right, l, p);
    PathAvoidsClosed(g, right, l, p, dead);
    FlipRelinks(g, left, right, l, p);
    var right' := FlipRight(g, right, l, p);
    assert forall d :: d in dead ==> right'[d] == right[d];
  }

  lemma ExhaustedHasNoPath(g: Graph, right: seq<int>, l: int, dead: set<int>)
    requires Closed(g, right, dead) && Exhausted(g, l, dead)
    ensures !exists q :: AugmentingPath(g, right, l, q)
  {
    forall q: seq<int>
      ensures !AugmentingPath(g, right, l, q)
    {
      if |q| > 0 && q[0] in q && AugmentingPath(g, right, l, q) {
        PathAvoidsClosed(g, right, l, q, dead);
      }
    }
  }

  /** Why one pass over the left nodes is enough: once the search from l has run dry,
    l is exhausted by a closed set, there is no augmenting path from l, and this
    remains so after an augmentation along any path from any other node. */
  lemma FailedStaysFailed(g: Graph, left: seq<int>, right: seq<int>, l: int, dead: set<int>, l': int, p: seq<int>)
    requires g.WellFormed() && MutuallyReferent(g, left, right)
    requires Closed(g, right, dead) && Exhausted(g, l, dead)
    requires AugmentingPath(g, right, l', p) && Distinct(p) && left[l'] == UNUSED
    ensures !exists q :: AugmentingPath(g, right, l, q)
    ensures Closed(g, FlipRight(g, right, l', p), dead)
    ensures !exists q :: AugmentingPath(g, FlipRight(g, right, l', p), l, q)
  {
    ExhaustedHasNoPath(g, right, l, dead);
    FlipKeepsClosed(g, left, right, l', p, dead);
    ExhaustedHasNoPath(g, FlipRight(g, right, l', p), l, dead);
  }

  lemma {:induction false} InjectionBound<T(!new), U>(m: set<T>, f: map<T, U>, s: set<U>)
    requires m <= f.Keys
    requires forall e :: e in m ==> f[e] in s
    requires forall e, e' :: e in m && e' in m && f[e] == f[e'] ==> e == e'
    ensures |m| <= |s|
    decreases |m|
  {
    if m != {} {
      var e :| e in m;
      InjectionBound(m - {e}, f, s - {f[e]});
    }
  }

  /** If every left node has a partner or is exhausted by the closed set `dead`, no
    matching has more edges than there are left nodes with a partner.  Each edge
    of a rival matching is charged to one of them: to the partner of its right
    node if that node is dead, and to its own left node otherwise. */
  lemma CoverBoundsMatchings(g: Graph, left: seq<int>, right: seq<int>, dead: set<int>, m: set<(int, int)>)
    requires MutuallyReferent(g, left, right) && Closed(g, right, dead)
    requires forall l :: 0 <= l < |left| && left[l] == UNUSED ==> Exhausted(g, l, dead)
    requires IsMatching(g, m)
    ensures |m| <= |Partnered(left)|
  {
    var charge := map e | e in m :: if e.1 in dead then right[e.1] else e.0;
    assert forall e :: e in m ==> g.Edge(e.0, e.1);
    assert forall d, r :: d in dead && g.Edge(right[d], r) ==> r in dead;
    assert forall e, f :: e in m && f in m && charge[e] == charge[f] ==> e == f;
    InjectionBound(m, charge, Partnered(left));
  }
}
