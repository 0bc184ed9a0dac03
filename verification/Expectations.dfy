/** Expectations, their retirement, and the search for unsatisfied prerequisites. */
module Expectations {
  import opened PrerequisiteGraphs

  /** How many calls are allowed. */
  datatype Cardinality = Cardinality(min: nat, max: nat) {

    static function Between(min: int, max: int): (c: Cardinality)
      ensures c.min <= c.max
      ensures min >= 0 ==> c.min == min
      ensures min < 0 ==> c.min == 0
      ensures max >= 0 && max >= min ==> c.max == max
      ensures max < 0 || max < min ==> c.max == c.min
    {
      var lo := if min >= 0 then min else 0;
      Cardinality(lo, if max >= lo then max else lo)
    }

    predicate IsSatisfiedByCallCount(n: nat) {
      min <= n <= max
    }

    predicate IsSaturatedByCallCount(n: nat) {
      n >= max
    }
  }

  type Expectations = Dag<ExpectationBase>

  lemma TakeOut<T>(all: set<T>, todo: set<T>, x: T)
    requires x in todo && todo <= all
    ensures all - (todo - {x}) == all - todo + {x}
  {
  }

  class ExpectationBase {
    const cardinality: Cardinality
    const retiresOnSaturation: bool
    const matches: string -> bool
    var immediatePrerequisites: set<ExpectationBase>
    var callCount: nat
    var retired: bool

    constructor (cardinality: Cardinality, retiresOnSaturation: bool, matches: string -> bool)
      ensures immediatePrerequisites == {} && callCount == 0 && !retired
      ensures this.cardinality == cardinality
      ensures this.retiresOnSaturation == retiresOnSaturation && this.matches == matches
    {
      this.cardinality := cardinality;
      this.retiresOnSaturation := retiresOnSaturation;
      this.matches := matches;
      immediatePrerequisites, callCount, retired := {}, 0, false;
    }

    predicate IsSatisfied()
      reads this`callCount
    {
      cardinality.IsSatisfiedByCallCount(callCount)
    }

    predicate IsSaturated()
      reads this`callCount
    {
      cardinality.IsSaturatedByCallCount(callCount)
    }

    method Retire()
      modifies this`retired
      ensures retired
    {
      retired := true;
    }

    /** Retires exactly the transitive prerequisites.  The early return and the skipping of
      retired prerequisites lose nothing because the retired expectations are down-closed. */
    method RetireAllPreRequisites(ghost g: Expectations)
      requires g.Acyclic() && this in g.pre && Reflects(g) && g.DownClosed(Retired(g))
      modifies g.pre.Keys`retired
      ensures Retired(g) == old(Retired(g)) + g.Closure(this)
      ensures g.DownClosed(Retired(g))
      decreases g.rank[this], 0
    {
      if retired {
        g.DownClosedHoldsClosure(Retired(g), this);
        return;
      }
      ghost var before := Retired(g);
      var todo := immediatePrerequisites;
      ClosureOfNone(g);
      while todo != {}
        invariant todo <= g.pre[this]
        invariant Retired(g) == before + ClosureOfAll(g, g.pre[this] - todo)
        invariant g.DownClosed(Retired(g))
        decreases todo
      {
        var prerequisite :| prerequisite in todo;
        ClosureOfAllAdd(g, g.pre[this] - todo, prerequisite);
        TakeOut(g.pre[this], todo, prerequisite);
        prerequisite.RetireWithPreRequisites(g);
        todo := todo - {prerequisite};
      }
      ClosureOfImmediate(g, this);
    }

    /** The body of the loop above: skips a prerequisite that has retired already. */
    method RetireWithPreRequisites(ghost g: Expectations)
      requires g.Acyclic() && this in g.pre && Reflects(g) && g.DownClosed(Retired(g))
      modifies g.pre.Keys`retired
      ensures Retired(g) == old(Retired(g)) + g.Closure(this) + {this}
      ensures g.DownClosed(Retired(g))
      decreases g.rank[this], 1
    {
      g.DownClosedAdd(Retired(g), this);
      if !retired {
        RetireAllPreRequisites(g);
        Retire();
      } else {
        g.DownClosedHoldsClosure(Retired(g), this);
      }
      assert Retired(g) == old(Retired(g)) + g.Closure(this) + {this};
    }

    /** The last step of handling a call. */
    method RetireIfSaturated(ghost g: Expectations)
      requires this in g.pre
      modifies this`retired
      ensures Retired(g) == old(Retired(g)) + (if retiresOnSaturation && callCount >= cardinality.max then {this} else {})
    {
      ghost var before := Retired(g);
      if retiresOnSaturation && IsSaturated() {
        Retire();
        assert Retired(g) == before + {this};
      }
    }

    /** Accounts for a call this expectation handles; true when the call is excessive. */
    method GetActionForArguments(ghost g: Expectations) returns (excessive: bool)
      requires g.Acyclic() && this in g.pre && Reflects(g) && g.DownClosed(Retired(g))
      modifies this`callCount, g.pre.Keys`retired
      ensures excessive <==> old(callCount) >= cardinality.max
      ensures callCount == old(callCount) + 1
      ensures Retired(g) == old(Retired(g)) + if excessive then {} else
        g.Closure(this) + (if retiresOnSaturation && callCount >= cardinality.max then {this} else {})
    {
      ghost var before := Retired(g);
      if IsSaturated() {
        callCount := callCount + 1;
        assert Retired(g) == before;
        return true;
      }
      callCount := callCount + 1;
      assert Retired(g) == before;
      RetireAllPreRequisites(g);
      RetireIfSaturated(g);
      return false;
    }

    method AllPrerequisitesAreSatisfied(ghost g: Expectations) returns (all: bool)
      requires g.Acyclic() && this in g.pre && Reflects(g)
      ensures all <==> g.Closure(this) <= Satisfied(g)
      decreases g.rank[this]
    {
      var todo := immediatePrerequisites;
      while todo != {}
        invariant todo <= g.pre[this]
        invariant ClosureOfAll(g, g.pre[this] - todo) <= Satisfied(g)
        decreases todo
      {
        var it :| it in todo;
        var below := false;
        if it.IsSatisfied() {
          below := it.AllPrerequisitesAreSatisfied(g);
        }
        assert below <==> g.Closure(it) + {it} <= Satisfied(g);
        if !below {
          assert it in g.Closure(this) && g.Closure(it) <= g.Closure(this);
          return false;
        }
        ClosureOfAllAdd(g, g.pre[this] - todo, it);
        TakeOut(g.pre[this], todo, it);
        todo := todo - {it};
      }
      assert ClosureOfAll(g, g.pre[this]) == g.Closure(this);
      return true;
    }

    /** Adds the unsatisfied prerequisites nearest to this expectation. */
    method FindUnsatisfiedPrerequisites(result: ExpectationSet, ghost g: Expectations)
      requires g.Acyclic() && this in g.pre && Reflects(g)
      modifies result
      ensures result.expectations == old(result.expectations + g.Nearest(this, Satisfied(g), Uncalled(g)))
      decreases g.rank[this], 0
    {
      ghost var sat, open := Satisfied(g), Uncalled(g);
      var todo := immediatePrerequisites;
      while todo != {}
        invariant todo <= g.pre[this]
        invariant result.expectations == old(result.expectations) + NearestAmong(g, g.pre[this] - todo, sat, open)
        decreases todo
      {
        var it :| it in todo;
        it.FindUnsatisfiedFrom(result, g);
        TakeOut(g.pre[this], todo, it);
        NearestAmongAdd(g, g.pre[this] - todo, it, sat, open);
        todo := todo - {it};
      }
      assert NearestAmong(g, g.pre[this], sat, open) == g.Nearest(this, sat, open);
    }

    /** The body of the loop above: adds this prerequisite if it is unsatisfied, and goes on
      below it if it is satisfied but has not been called. */
    method FindUnsatisfiedFrom(result: ExpectationSet, ghost g: Expectations)
      requires g.Acyclic() && this in g.pre && Reflects(g)
      modifies result
      ensures result.expectations == old(result.expectations + NearestFrom(g, this, Satisfied(g), Uncalled(g)))
      decreases g.rank[this], 1
    {
      if IsSatisfied() {
        if callCount == 0 {
          FindUnsatisfiedPrerequisites(result, g);
        }
      } else {
        result.Add(this);
      }
    }
  }

  class ExpectationSet {
    var expectations: set<ExpectationBase>

    constructor ()
      ensures expectations == {}
    {
      expectations := {};
    }

    method Add(e: ExpectationBase)
      modifies this
      ensures expectations == old(expectations) + {e}
    {
      expectations := expectations + {e};
    }
  }

  // ------------------------------------------------------------- the heap as values

  /** The heap holds the graph g. */
  ghost predicate Reflects(g: Expectations)
    reads g.pre.Keys`immediatePrerequisites
  {
    forall e :: e in g.pre ==> e.immediatePrerequisites == g.pre[e]
  }

  ghost function Retired(g: Expectations): set<ExpectationBase>
    reads g.pre.Keys`retired
  {
    set e | e in g.pre && e.retired
  }

  ghost function Satisfied(g: Expectations): set<ExpectationBase>
    reads g.pre.Keys`callCount
  {
    set e | e in g.pre && e.cardinality.min <= e.callCount <= e.cardinality.max
  }

  ghost function Uncalled(g: Expectations): set<ExpectationBase>
    reads g.pre.Keys`callCount
  {
    set e | e in g.pre && e.callCount == 0
  }

  ghost function ClosureOfAll(g: Expectations, ps: set<ExpectationBase>): set<ExpectationBase>
    requires g.Acyclic() && ps <= g.pre.Keys
  {
    ps + set p, q | p in ps && q in g.Closure(p) :: q
  }

  lemma ClosureOfNone(g: Expectations)
    requires g.Acyclic()
    ensures ClosureOfAll(g, {}) == {}
  {
  }

  lemma ClosureOfImmediate(g: Expectations, e: ExpectationBase)
    requires g.Acyclic() && e in g.pre
    ensures ClosureOfAll(g, g.pre[e] - {}) == ClosureOfAll(g, g.pre[e]) == g.Closure(e)
  {
    assert g.pre[e] - {} == g.pre[e];
  }

  lemma ClosureOfAllAdd(g: Expectations, ps: set<ExpectationBase>, p: ExpectationBase)
    requires g.Acyclic() && ps <= g.pre.Keys && p in g.pre
    ensures ClosureOfAll(g, ps + {p}) == ClosureOfAll(g, ps) + g.Closure(p) + {p}
  {
  }

  ghost function NearestAmong(g: Expectations, ps: set<ExpectationBase>, satisfied: set<ExpectationBase>,
                              open: set<ExpectationBase>): set<ExpectationBase>
    requires g.Acyclic() && ps <= g.pre.Keys
  {
    (ps - satisfied)
    + set p, q | p in ps && p in satisfied && p in open && q in g.Nearest(p, satisfied, open) :: q
  }

  /** What one immediate prerequisite contributes to the walk. */
  ghost function NearestFrom(g: Expectations, p: ExpectationBase, satisfied: set<ExpectationBase>,
                             open: set<ExpectationBase>): set<ExpectationBase>
    requires g.Acyclic() && p in g.pre
  {
    if p !in satisfied then {p} else if p in open then g.Nearest(p, satisfied, open) else {}
  }

  lemma NearestAmongAdd(g: Expectations, ps: set<ExpectationBase>, p: ExpectationBase,
                        satisfied: set<ExpectationBase>, open: set<ExpectationBase>)
    requires g.Acyclic() && ps <= g.pre.Keys && p in g.pre
    ensures NearestAmong(g, ps + {p}, satisfied, open)
      == NearestAmong(g, ps, satisfied, open) + NearestFrom(g, p, satisfied, open)
  {
  }
}
