/** Prerequisite graphs as values: transitive prerequisites and the two shortcuts that
  the expectation code takes when it walks them. */
module PrerequisiteGraphs {

  /** `pre` gives the immediate prerequisites; `rank` witnesses that there is no cycle. */
  datatype Dag<!T> = Dag(pre: map<T, set<T>>, rank: map<T, nat>) {

    ghost predicate Acyclic() {
      && rank.Keys == pre.Keys
      && forall e, p {:trigger p in pre[e]} :: e in pre && p in pre[e] ==> p in pre && rank[p] < rank[e]
    }

    /** The transitive prerequisites of e. */
    ghost function Closure(e: T): (s: set<T>)
      requires Acyclic() && e in pre
      ensures pre[e] <= s <= pre.Keys
      decreases rank[e]
    {
      pre[e] + set p, q | p in pre[e] && q in Closure(p) :: q
    }

    /** A set that contains the prerequisites of each of its members. */
    ghost predicate DownClosed(s: set<T>) {
      forall e, p {:trigger p in pre[e]} :: e in s && e in pre && p in pre[e] ==> p in s
    }

    lemma {:induction false} ClosureTransitive(e: T, p: T, q: T)
      requires Acyclic() && e in pre && p in Closure(e) && q in Closure(p)
      ensures q in Closure(e)
      decreases rank[e]
    {
      if p !in pre[e] {
        var x :| x in pre[e] && p in Closure(x);
        ClosureTransitive(x, p, q);
      }
    }

    /** Nothing is its own prerequisite. */
    lemma {:induction false} ClosureHasLowerRank(e: T, q: T)
      requires Acyclic() && e in pre && q in Closure(e)
      ensures rank[q] < rank[e]
      decreases rank[e]
    {
      if q !in pre[e] {
        var p :| p in pre[e] && q in Closure(p);
        ClosureHasLowerRank(p, q);
      }
    }

    lemma {:induction false} DownClosedHoldsClosure(s: set<T>, e: T)
      requires Acyclic() && DownClosed(s) && e in pre && e in s
      ensures Closure(e) <= s
      decreases rank[e]
    {
      forall p | p in pre[e]
        ensures Closure(p) <= s
      {
        DownClosedHoldsClosure(s, p);
      }
    }

    lemma ClosureIsDownClosed(e: T)
      requires Acyclic() && e in pre
      ensures DownClosed(Closure(e))
    {
      forall p, q | p in Closure(e) && q in pre[p]
        ensures q in Closure(e)
      {
        ClosureTransitive(e, p, q);
      }
    }

    lemma DownClosedAdd(s: set<T>, e: T)
      requires Acyclic() && DownClosed(s) && e in pre
      ensures DownClosed(s + Closure(e)) && DownClosed(s + Closure(e) + {e})
    {
      ClosureIsDownClosed(e);
    }

    /** The unsatisfied prerequisites found when the walk goes on past a satisfied
      prerequisite only if that one is in `open`. */
    ghost function Nearest(e: T, satisfied: set<T>, open: set<T>): (s: set<T>)
      requires Acyclic() && e in pre
      decreases rank[e]
    {
      (pre[e] - satisfied)
      + set p, q | p in pre[e] && p in satisfied && p in open && q in Nearest(p, satisfied, open) :: q
    }

    /** Whatever the walk reports is an unsatisfied transitive prerequisite. */
    lemma {:induction false} NearestIsSound(e: T, satisfied: set<T>, open: set<T>)
      requires Acyclic() && e in pre
      ensures Nearest(e, satisfied, open) <= Closure(e) - satisfied
      decreases rank[e]
    {
      forall p | p in pre[e]
        ensures Nearest(p, satisfied, open) <= Closure(p) - satisfied
      {
        NearestIsSound(p, satisfied, open);
      }
    }

    /** A way down from e, from prerequisite to prerequisite: all it passes are satisfied and
      in `open`, and the one it ends at is not satisfied. */
    ghost predicate IsWay(e: T, way: seq<T>, satisfied: set<T>, open: set<T>)
      decreases |way|
    {
      && way != [] && e in pre && way[0] in pre[e]
      && if |way| == 1 then way[0] !in satisfied
         else way[0] in satisfied && way[0] in open && IsWay(way[0], way[1..], satisfied, open)
    }

    lemma {:induction false} NearestHasWay(e: T, q: T, satisfied: set<T>, open: set<T>) returns (way: seq<T>)
      requires Acyclic() && e in pre && q in Nearest(e, satisfied, open)
      ensures IsWay(e, way, satisfied, open) && way[|way| - 1] == q
      decreases rank[e]
    {
      if q in pre[e] && q !in satisfied {
        way := [q];
      } else {
        var p :| p in pre[e] && p in satisfied && p in open && q in Nearest(p, satisfied, open);
        var rest := NearestHasWay(p, q, satisfied, open);
        way := [p] + rest;
        assert way[1..] == rest;
      }
    }

    lemma {:induction false} WayIsNearest(e: T, way: seq<T>, satisfied: set<T>, open: set<T>)
      requires Acyclic() && IsWay(e, way, satisfied, open)
      ensures way[|way| - 1] in Nearest(e, satisfied, open)
      decreases |way|
    {
      if |way| > 1 {
        WayIsNearest(way[0], way[1..], satisfied, open);
      }
    }

    /** The walk reports just the unsatisfied prerequisites at the end of such ways. */
    lemma NearestIffWay(e: T, q: T, satisfied: set<T>, open: set<T>)
      requires Acyclic() && e in pre
      ensures q in Nearest(e, satisfied, open) <==> exists way :: IsWay(e, way, satisfied, open) && way[|way| - 1] == q
    {
      if q in Nearest(e, satisfied, open) {
        var way := NearestHasWay(e, q, satisfied, open);
      }
      forall way | IsWay(e, way, satisfied, open)
        ensures way[|way| - 1] in Nearest(e, satisfied, open)
      {
        WayIsNearest(e, way, satisfied, open);
      }
    }

    /** The condition under which the walk may stop at a satisfied prerequisite that has
      been called: everything below such a prerequisite is satisfied. */
    ghost predicate SettledOnceCalled(satisfied: set<T>, uncalled: set<T>)
      requires Acyclic()
    {
      forall p :: p in pre && p in satisfied && p !in uncalled ==> Closure(p) <= satisfied
    }

    /** The shortcut finds exactly what the full walk finds. */
    lemma {:induction false} ShortcutFindsTheSame(e: T, satisfied: set<T>, uncalled: set<T>)
      requires Acyclic() && e in pre && SettledOnceCalled(satisfied, uncalled)
      ensures Nearest(e, satisfied, uncalled) == Nearest(e, satisfied, pre.Keys)
      decreases rank[e]
    {
      forall p | p in pre[e] && p in satisfied
        ensures p in uncalled ==> Nearest(p, satisfied, uncalled) == Nearest(p, satisfied, pre.Keys)
        ensures p !in uncalled ==> Nearest(p, satisfied, pre.Keys) == {}
      {
        if p in uncalled {
          ShortcutFindsTheSame(p, satisfied, uncalled);
        } else {
          NearestIsSound(p, satisfied, pre.Keys);
        }
      }
      assert Nearest(e, satisfied, uncalled) <= Nearest(e, satisfied, pre.Keys);
      assert Nearest(e, satisfied, pre.Keys) <= Nearest(e, satisfied, uncalled);
    }

    lemma NearestHolds(e: T, p: T, satisfied: set<T>)
      requires Acyclic() && e in pre && p in pre[e]
      ensures p !in satisfied ==> p in Nearest(e, satisfied, pre.Keys)
      ensures p in satisfied ==> Nearest(p, satisfied, pre.Keys) <= Nearest(e, satisfied, pre.Keys)
    {
    }

    /** The full walk finds nothing exactly when all transitive prerequisites are satisfied. */
    lemma {:induction false} FullWalkIsComplete(e: T, satisfied: set<T>)
      requires Acyclic() && e in pre
      ensures Nearest(e, satisfied, pre.Keys) == {} <==> Closure(e) <= satisfied
      decreases rank[e]
    {
      NearestIsSound(e, satisfied, pre.Keys);
      if Nearest(e, satisfied, pre.Keys) == {} {
        forall p | p in pre[e]
          ensures p in satisfied && Closure(p) <= satisfied
        {
          NearestHolds(e, p, satisfied);
          FullWalkIsComplete(p, satisfied);
        }
      }
    }

    /** So the shortcut finds nothing exactly when all transitive prerequisites are satisfied. */
    lemma ShortcutDecides(e: T, satisfied: set<T>, uncalled: set<T>)
      requires Acyclic() && e in pre && SettledOnceCalled(satisfied, uncalled)
      ensures Nearest(e, satisfied, uncalled) == {} <==> Closure(e) <= satisfied
      ensures Nearest(e, satisfied, uncalled) <= Closure(e) - satisfied
    {
      ShortcutFindsTheSame(e, satisfied, uncalled);
      FullWalkIsComplete(e, satisfied);
      NearestIsSound(e, satisfied, uncalled);
    }

    /** The graph after a new node has been given its prerequisites. */
    ghost function Extend(e: T, ps: set<T>, r: nat): (g: Dag<T>) {
      Dag(pre[e := ps], rank[e := r])
    }

    lemma ExtendHasRanks(e: T, ps: set<T>, r: nat)
      requires Acyclic() && e !in pre && ps <= pre.Keys
      requires forall x :: x in pre ==> rank[x] < r
      ensures Extend(e, ps, r).Acyclic()
      ensures forall x :: x in Extend(e, ps, r).pre ==> Extend(e, ps, r).rank[x] < r + 1
    {
      var g := Extend(e, ps, r);
      assert g.rank.Keys == g.pre.Keys == pre.Keys + {e};
    }

    lemma {:induction false} ExtendKeepsClosure(e: T, ps: set<T>, r: nat, x: T)
      requires Acyclic() && e !in pre && ps <= pre.Keys && x in pre
      requires Extend(e, ps, r).Acyclic()
      ensures Extend(e, ps, r).Closure(x) == Closure(x)
      decreases rank[x]
    {
      forall p | p in pre[x]
        ensures Extend(e, ps, r).Closure(p) == Closure(p)
      {
        ExtendKeepsClosure(e, ps, r, p);
      }
    }

    /** A new node above all others leaves the graph acyclic and every closure as it was. */
    lemma ExtendIsAcyclic(e: T, ps: set<T>, r: nat)
      requires Acyclic() && e !in pre && ps <= pre.Keys
      requires forall x :: x in pre ==> rank[x] < r
      ensures Extend(e, ps, r).Acyclic()
      ensures forall x :: x in pre ==> Extend(e, ps, r).Closure(x) == Closure(x)
    {
      ExtendHasRanks(e, ps, r);
      var g := Extend(e, ps, r);
      forall x | x in pre
        ensures g.Closure(x) == Closure(x)
      {
        ExtendKeepsClosure(e, ps, r, x);
      }
    }
  }

  /** Without that condition the shortcut can miss an unsatisfied prerequisite: 2 needs 1,
    which needs 0; 1 is satisfied and has been called, 0 is not satisfied. */
  lemma ShortcutCanMiss() returns (g: Dag<int>, e: int, satisfied: set<int>, uncalled: set<int>)
    ensures g.Acyclic() && e in g.pre
    ensures g.Nearest(e, satisfied, uncalled) == {}
    ensures !(g.Closure(e) <= satisfied)
  {
    g, e, satisfied, uncalled := Dag(map[0 := {}, 1 := {0}, 2 := {1}], map[0 := 0, 1 := 1, 2 := 2]), 2, {1}, {0, 2};
    assert g.Acyclic() && 0 in g.Closure(1) && 0 in g.Closure(2);
  }
}
