/** Runs of a program that sets expectations and makes mock calls, as values: what the
  order of the handled calls promises. */
module CallLogs {
  import opened PrerequisiteGraphs
  import opened Expectations

  /** The expectations strictly below each expectation. */
  type Below = map<ExpectationBase, set<ExpectationBase>>

  /** `below` lists the transitive prerequisites of the graph. */
  ghost predicate Lists(below: Below, g: Expectations) {
    && g.Acyclic()
    && below.Keys == g.pre.Keys
    && forall e {:trigger g.Closure(e)} :: e in g.pre ==> below[e] == g.Closure(e)
  }

  ghost function Listing(g: Expectations): (below: Below)
    requires g.Acyclic()
    ensures Lists(below, g)
  {
    map e | e in g.pre :: g.Closure(e)
  }

  /** A new expectation above all others leaves what is below the others as it was. */
  lemma ExtendListing(g: Expectations, below: Below, e: ExpectationBase, ps: set<ExpectationBase>, r: nat)
      returns (below': Below)
    requires Lists(below, g) && e !in g.pre && ps <= g.pre.Keys
    requires forall x :: x in g.pre ==> g.rank[x] < r
    ensures Lists(below', g.Extend(e, ps, r))
    ensures forall x :: x in below ==> x in below' && below'[x] == below[x]
  {
    g.ExtendIsAcyclic(e, ps, r);
    var g' := g.Extend(e, ps, r);
    below' := Listing(g');
    forall x | x in below
      ensures x in below' && below'[x] == below[x]
    {
      assert g'.Closure(x) == g.Closure(x);
    }
  }

  /** How often e occurs in a log of handled calls. */
  ghost function Count(calls: seq<ExpectationBase>, e: ExpectationBase): nat {
    multiset(calls)[e]
  }

  lemma CountAppended(calls: seq<ExpectationBase>, e: ExpectationBase)
    ensures forall x :: Count(calls + [e], x) == Count(calls, x) + if x == e then 1 else 0
  {
  }

  /** The expectations whose calls in the log are as many as they allow. */
  ghost function SatisfiedBy(known: set<ExpectationBase>, calls: seq<ExpectationBase>): set<ExpectationBase> {
    set e | e in known && e.cardinality.min <= Count(calls, e) <= e.cardinality.max
  }

  ghost function UncalledBy(known: set<ExpectationBase>, calls: seq<ExpectationBase>): set<ExpectationBase> {
    set e | e in known && Count(calls, e) == 0
  }

  /** A log in which an expectation handles a call only while all its transitive
    prerequisites have been called an allowed number of times. */
  ghost predicate PrerequisitesFirst(below: Below, calls: seq<ExpectationBase>) {
    calls == [] ||
    var rest, e := calls[..|calls| - 1], calls[|calls| - 1];
    PrerequisitesFirst(below, rest) && e in below && below[e] <= SatisfiedBy(below.Keys, rest)
  }

  /** When p, a prerequisite of e, may handle a call after e has: e allows no call, so that
    calling it retires nothing, and p can have been called often enough without retiring. */
  ghost predicate MayComeBack(p: ExpectationBase, e: ExpectationBase) {
    && e.cardinality.max == 0
    && p.cardinality.min <= p.cardinality.max
    && (p.cardinality.min == 0 || p.cardinality.min < p.cardinality.max || !p.retiresOnSaturation)
  }

  /** A log in which no transitive prerequisite of an expectation that has handled a call
    handles one later, but for those that may come back. */
  ghost predicate NeverBack(below: Below, calls: seq<ExpectationBase>) {
    calls == [] ||
    var rest, e := calls[..|calls| - 1], calls[|calls| - 1];
    NeverBack(below, rest) && forall x :: x in rest && x in below && e in below[x] ==> MayComeBack(e, x)
  }

  /** The same two properties, read off at any point of the log. */
  lemma {:induction false} PrerequisitesFirstAt(below: Below, calls: seq<ExpectationBase>, i: nat)
    requires PrerequisitesFirst(below, calls) && i < |calls|
    ensures calls[i] in below && below[calls[i]] <= SatisfiedBy(below.Keys, calls[..i])
    decreases |calls|
  {
    var n := |calls| - 1;
    if i < n {
      assert calls[..n][..i] == calls[..i];
      PrerequisitesFirstAt(below, calls[..n], i);
    }
  }

  lemma {:induction false} NeverBackAt(below: Below, calls: seq<ExpectationBase>, i: nat, j: nat)
    requires NeverBack(below, calls) && i < j < |calls| && calls[i] in below
    ensures calls[j] in below[calls[i]] ==> MayComeBack(calls[j], calls[i])
    decreases |calls|
  {
    var n := |calls| - 1;
    if j < n {
      NeverBackAt(below, calls[..n], i, j);
    } else {
      assert calls[..n][i] in calls[..n];
    }
  }

  /** An expectation that has taken a call it allows has its prerequisites settled: they
    are retired, and satisfied for good. */
  ghost predicate CallsAreSettled(below: Below, retired: set<ExpectationBase>, calls: seq<ExpectationBase>) {
    forall e :: e in calls && e in below && e.cardinality.max > 0 ==>
      below[e] <= retired && below[e] <= SatisfiedBy(below.Keys, calls)
  }

  /** An expectation that retires on saturation has retired once it is saturated by a call. */
  ghost predicate SaturatedAreRetired(retired: set<ExpectationBase>, calls: seq<ExpectationBase>) {
    forall e :: e in calls && e.retiresOnSaturation && e.cardinality.max > 0 && Count(calls, e) >= e.cardinality.max
      ==> e in retired
  }

  /** What every reachable state satisfies. */
  ghost predicate Reachable(g: Expectations, below: Below, retired: set<ExpectationBase>, calls: seq<ExpectationBase>) {
    && Lists(below, g)
    && g.DownClosed(retired)
    && CallsAreSettled(below, retired, calls)
    && SaturatedAreRetired(retired, calls)
    && PrerequisitesFirst(below, calls)
    && NeverBack(below, calls)
  }

  /** Who may handle the next call. */
  ghost predicate MayHandle(below: Below, retired: set<ExpectationBase>, calls: seq<ExpectationBase>,
                            e: ExpectationBase)
  {
    e in below && e !in retired && below[e] <= SatisfiedBy(below.Keys, calls)
  }

  lemma CountGrows(calls: seq<ExpectationBase>, i: nat, e: ExpectationBase)
    requires i <= |calls|
    ensures Count(calls[..i], e) <= Count(calls, e)
  {
    assert calls == calls[..i] + calls[i..];
  }

  /** The prerequisites of a handler have been called at least as often as they must. */
  lemma CalledEnough(below: Below, calls: seq<ExpectationBase>, x: ExpectationBase, p: ExpectationBase)
    requires PrerequisitesFirst(below, calls) && x in calls && x in below && p in below[x]
    ensures p.cardinality.min <= p.cardinality.max && Count(calls, p) >= p.cardinality.min
  {
    var i :| 0 <= i < |calls| && calls[i] == x;
    PrerequisitesFirstAt(below, calls, i);
    CountGrows(calls, i, p);
  }

  lemma LogStaysOrdered(below: Below, retired: set<ExpectationBase>, calls: seq<ExpectationBase>, e: ExpectationBase)
    requires CallsAreSettled(below, retired, calls) && SaturatedAreRetired(retired, calls)
    requires PrerequisitesFirst(below, calls) && NeverBack(below, calls)
    requires MayHandle(below, retired, calls, e)
    ensures PrerequisitesFirst(below, calls + [e]) && NeverBack(below, calls + [e])
  {
    assert (calls + [e])[..|calls|] == calls;
    forall x | x in calls && x in below && e in below[x]
      ensures MayComeBack(e, x)
    {
      CalledEnough(below, calls, x, e);
    }
  }

  /** The call does not disturb what is settled: e is below no expectation that is. */
  lemma CallKeepsSettled(below: Below, retired: set<ExpectationBase>, calls: seq<ExpectationBase>, e: ExpectationBase,
                         retired': set<ExpectationBase>)
    requires CallsAreSettled(below, retired, calls) && MayHandle(below, retired, calls, e)
    requires e !in below[e] && retired <= retired'
    requires Count(calls, e) >= e.cardinality.max || below[e] <= retired'
    ensures CallsAreSettled(below, retired', calls + [e])
  {
    forall x | x in calls + [e] && x in below && x.cardinality.max > 0
      ensures below[x] <= retired' && below[x] <= SatisfiedBy(below.Keys, calls + [e])
    {
      assert x in calls || x == e;
      assert Count(calls, e) > 0 ==> e in calls;
      assert e !in below[x];
      assert forall p :: p in below[x] ==> Count(calls + [e], p) == Count(calls, p);
    }
  }

  /** A call that is not excessive retires everything below its expectation, and the
    expectation as well if it asked for that and is now saturated. */
  ghost function RetiredByCall(g: Expectations, retired: set<ExpectationBase>, calls: seq<ExpectationBase>,
                               e: ExpectationBase): set<ExpectationBase>
    requires g.Acyclic() && e in g.pre
  {
    var n := Count(calls, e);
    var itself := if e.retiresOnSaturation && n + 1 >= e.cardinality.max then {e} else {};
    if n >= e.cardinality.max then retired else retired + g.Closure(e) + itself
  }

  lemma CallRetiresKnown(g: Expectations, retired: set<ExpectationBase>, calls: seq<ExpectationBase>, e: ExpectationBase)
    requires g.Acyclic() && e in g.pre && retired <= g.pre.Keys
    ensures RetiredByCall(g, retired, calls, e) <= g.pre.Keys
  {
  }

  lemma CallRetiresSaturated(g: Expectations, retired: set<ExpectationBase>, calls: seq<ExpectationBase>,
                             e: ExpectationBase)
    requires g.Acyclic() && e in g.pre && e !in retired && SaturatedAreRetired(retired, calls)
    ensures SaturatedAreRetired(RetiredByCall(g, retired, calls, e), calls + [e])
  {
    CountAppended(calls, e);
    forall x | x in calls + [e] && x.retiresOnSaturation && x.cardinality.max > 0
               && Count(calls + [e], x) >= x.cardinality.max
      ensures x in RetiredByCall(g, retired, calls, e)
    {
      assert Count(calls, x) > 0 ==> x in calls;
    }
  }

  /** Handling a call leads from a reachable state to a reachable state. */
  lemma CallStaysReachable(g: Expectations, below: Below, retired: set<ExpectationBase>, calls: seq<ExpectationBase>,
                           e: ExpectationBase)
    requires Reachable(g, below, retired, calls) && MayHandle(below, retired, calls, e)
    ensures Reachable(g, below, RetiredByCall(g, retired, calls, e), calls + [e])
  {
    LogStaysOrdered(below, retired, calls, e);
    CallRetiresSaturated(g, retired, calls, e);
    g.DownClosedAdd(retired, e);
    if e in g.Closure(e) { g.ClosureHasLowerRank(e, e); }
    assert retired + g.Closure(e) + {} == retired + g.Closure(e);
    CallKeepsSettled(below, retired, calls, e, RetiredByCall(g, retired, calls, e));
  }

  lemma {:induction false} LogIsKept(below: Below, below': Below, calls: seq<ExpectationBase>)
    requires PrerequisitesFirst(below, calls) && NeverBack(below, calls)
    requires forall x :: x in below ==> x in below' && below'[x] == below[x]
    ensures forall x :: x in calls ==> x in below
    ensures PrerequisitesFirst(below', calls) && NeverBack(below', calls)
  {
    if calls != [] {
      var rest := calls[..|calls| - 1];
      LogIsKept(below, below', rest);
      assert SatisfiedBy(below.Keys, rest) <= SatisfiedBy(below'.Keys, rest);
    }
  }

  lemma {:induction false} NewExpectationKeepsLog(below: Below, below': Below, retired: set<ExpectationBase>,
                                                  calls: seq<ExpectationBase>)
    requires CallsAreSettled(below, retired, calls) && PrerequisitesFirst(below, calls) && NeverBack(below, calls)
    requires forall x :: x in below ==> x in below' && below'[x] == below[x]
    ensures CallsAreSettled(below', retired, calls)
    ensures forall x :: x in calls ==> x in below
    ensures PrerequisitesFirst(below', calls) && NeverBack(below', calls)
  {
    LogIsKept(below, below', calls);
    assert SatisfiedBy(below.Keys, calls) <= SatisfiedBy(below'.Keys, calls);
  }

  /** So does a new expectation above all others. */
  lemma NewExpectationStaysReachable(g: Expectations, below: Below, retired: set<ExpectationBase>,
                                     calls: seq<ExpectationBase>, e: ExpectationBase, ps: set<ExpectationBase>, r: nat)
      returns (below': Below)
    requires Reachable(g, below, retired, calls) && e !in g.pre && ps <= g.pre.Keys && retired <= g.pre.Keys
    requires forall x :: x in g.pre ==> g.rank[x] < r
    ensures Reachable(g.Extend(e, ps, r), below', retired, calls)
    ensures forall x :: x in below ==> x in below' && below'[x] == below[x]
    ensures Count(calls, e) == 0
  {
    below' := ExtendListing(g, below, e, ps, r);
    NewExpectationKeepsLog(below, below', retired, calls);
  }

  // ------------------------------------------------------------- runs, as values

  /** The history of a program: expectations set and calls handled, in any order. */
  datatype Run = Start | Expect(before: Run, e: ExpectationBase, ps: set<ExpectationBase>)
                       | Handle(before: Run, e: ExpectationBase)
  {
    ghost function Size(): nat {
      match this
      case Start => 0
      case Expect(before, _, _) => before.Size() + 1
      case Handle(before, _) => before.Size()
    }

    ghost function Graph(): Expectations {
      match this
      case Start => Dag(map[], map[])
      case Expect(before, e, ps) => before.Graph().Extend(e, ps, before.Size())
      case Handle(before, _) => before.Graph()
    }

    ghost function Log(): seq<ExpectationBase> {
      match this
      case Start => []
      case Expect(before, _, _) => before.Log()
      case Handle(before, e) => before.Log() + [e]
    }

    /** New expectations depend on existing ones only; a call goes to an expectation that is
      active and has all its prerequisites satisfied. */
    ghost predicate Legal()
      decreases this, 0
      ensures Legal() ==> Graph().Acyclic() && forall x :: x in Graph().pre ==> Graph().rank[x] < Size()
    {
      match this
      case Start => true
      case Expect(before, e, ps) =>
        before.Legal() && e !in before.Graph().pre && ps <= before.Graph().pre.Keys
        && (before.Graph().ExtendHasRanks(e, ps, before.Size()); true)
      case Handle(before, e) =>
        before.Legal() && e in before.Graph().pre && before.MayHandle(e)
    }

    /** The expectations retired so far. */
    ghost function Retirees(): (s: set<ExpectationBase>)
      requires Legal()
      decreases this, 1
    {
      match this
      case Start => {}
      case Expect(before, _, _) => before.Retirees()
      case Handle(before, e) =>
        RetiredByCall(before.Graph(), before.Retirees(), before.Log(), e)
    }

    ghost predicate MayHandle(e: ExpectationBase)
      requires Legal()
      decreases this, 2
    {
      e in Graph().pre && e !in Retirees() && Graph().Closure(e) <= SatisfiedBy(Graph().pre.Keys, Log())
    }
  }

  /** Every legal run leads to a state in which the order is respected. */
  lemma {:induction false} RunIsReachable(run: Run) returns (below: Below)
    requires run.Legal()
    ensures Reachable(run.Graph(), below, run.Retirees(), run.Log())
    ensures run.Retirees() <= run.Graph().pre.Keys
  {
    match run
    case Start =>
      below := map[];
    case Expect(before, e, ps) =>
      below := RunIsReachable(before);
      below := NewExpectationStaysReachable(before.Graph(), below, before.Retirees(), before.Log(), e, ps, before.Size());
    case Handle(before, e) =>
      below := RunIsReachable(before);
      assert below[e] == before.Graph().Closure(e);
      CallRetiresKnown(before.Graph(), before.Retirees(), before.Log(), e);
      CallStaysReachable(before.Graph(), below, before.Retirees(), before.Log(), e);
  }

  /** Over every run: an expectation handles a call only after each of its transitive
    prerequisites has been called an allowed number of times, and after it has handled a
    call none of them handles another, but for those that may come back. */
  lemma CallsRespectTheOrder(run: Run, i: nat)
    requires run.Legal() && i < |run.Log()|
    ensures run.Log()[i] in run.Graph().pre
    ensures run.Graph().Closure(run.Log()[i]) <= SatisfiedBy(run.Graph().pre.Keys, run.Log()[..i])
    ensures forall j :: i < j < |run.Log()| && run.Log()[j] in run.Graph().Closure(run.Log()[i])
              ==> MayComeBack(run.Log()[j], run.Log()[i])
  {
    var below := RunIsReachable(run);
    PrerequisitesFirstAt(below, run.Log(), i);
    assert below[run.Log()[i]] == run.Graph().Closure(run.Log()[i]);
    forall j | i < j < |run.Log()| && run.Log()[j] in below[run.Log()[i]]
      ensures MayComeBack(run.Log()[j], run.Log()[i])
    {
      NeverBackAt(below, run.Log(), i, j);
    }
  }

  /** In this run p, a prerequisite of e, handles a call after e has. */
  ghost predicate ComesBack(run: Run, p: ExpectationBase, e: ExpectationBase)
    requires run.Legal()
  {
    && e in run.Graph().pre && p in run.Graph().Closure(e)
    && exists i, j :: 0 <= i < j < |run.Log()| && run.Log()[i] == e && run.Log()[j] == p
  }

  /** One handled call, step by step. */
  lemma HandleStep(run: Run, e: ExpectationBase)
    requires run.Legal() && run.MayHandle(e)
    ensures Handle(run, e).Legal()
    ensures Handle(run, e).Retirees() == RetiredByCall(run.Graph(), run.Retirees(), run.Log(), e)
  {
    CountAppended(run.Log(), e);
  }

  /** A call in excess retires nothing. */
  lemma Excess(run: Run, e: ExpectationBase) returns (run': Run)
    requires run.Legal() && run.MayHandle(e) && Count(run.Log(), e) >= e.cardinality.max
    ensures run' == Handle(run, e) && run'.Legal()
    ensures run'.Retirees() == run.Retirees() && run'.Log() == run.Log() + [e] && run'.Graph() == run.Graph()
  {
    run' := Handle(run, e);
    HandleStep(run, e);
  }

  /** p and then e, which comes after p, are set. */
  ghost function TwoExpected(p: ExpectationBase, e: ExpectationBase): Run {
    Expect(Expect(Start, p, {}), e, {p})
  }

  lemma TwoExpectedIsLegal(p: ExpectationBase, e: ExpectationBase)
    requires p != e
    ensures var run := TwoExpected(p, e);
      && run.Legal() && run.Graph().pre.Keys == {p, e} && run.Log() == [] && run.Retirees() == {}
      && run.Graph().Closure(p) == {} && run.Graph().Closure(e) == {p}
  {
    var first := Expect(Start, p, {});
    assert Start.Graph() == Dag(map[], map[]) && first.Graph().pre == map[p := {}];
    assert first.Legal() && first.Log() == [] && first.Retirees() == {};
  }

  /** p is called n times without retiring. */
  lemma {:induction false} CalledFirst(p: ExpectationBase, e: ExpectationBase, n: nat) returns (run: Run)
    requires p != e && MayComeBack(p, e) && n <= p.cardinality.min
    ensures run.Legal() && run.Graph() == TwoExpected(p, e).Graph()
    ensures run.Graph().pre.Keys == {p, e} && run.Graph().Closure(p) == {} && run.Graph().Closure(e) == {p}
    ensures run.Retirees() == {} && |run.Log()| == n && Count(run.Log(), p) == n && Count(run.Log(), e) == 0
  {
    TwoExpectedIsLegal(p, e);
    if n == 0 {
      run := TwoExpected(p, e);
    } else {
      var before := CalledFirst(p, e, n - 1);
      run := Handle(before, p);
      HandleStep(before, p);
      CountAppended(before.Log(), p);
    }
  }

  /** p is called as often as it must, then e, and then p again. */
  lemma RunThatComesBack(p: ExpectationBase, e: ExpectationBase) returns (run: Run)
    requires p != e && MayComeBack(p, e)
    ensures run.Legal() && ComesBack(run, p, e)
  {
    var n := p.cardinality.min;
    var called := CalledFirst(p, e, n);
    assert p in SatisfiedBy({p, e}, called.Log());
    var excess := Excess(called, e);
    run := Handle(excess, p);
    HandleStep(excess, p);
    assert run.Log() == called.Log() + [e] + [p];
    assert run.Log()[n] == e && run.Log()[n + 1] == p;
  }

  /** Just when a prerequisite comes back in some run. */
  lemma ComesBackIff(p: ExpectationBase, e: ExpectationBase)
    ensures (exists run: Run :: run.Legal() && ComesBack(run, p, e)) <==> p != e && MayComeBack(p, e)
  {
    forall run: Run | run.Legal() && ComesBack(run, p, e)
      ensures p != e && MayComeBack(p, e)
    {
      run.Graph().ClosureHasLowerRank(e, p);
      var i, j :| 0 <= i < j < |run.Log()| && run.Log()[i] == e && run.Log()[j] == p;
      CallsRespectTheOrder(run, i);
    }
    if p != e && MayComeBack(p, e) {
      var run := RunThatComesBack(p, e);
      assert run.Legal() && ComesBack(run, p, e);
    }
  }

  /** The comment "we never retire an expectation until we have retired all its
    pre-requisites" holds over every run. */
  lemma RetireesAreDownClosed(run: Run)
    requires run.Legal()
    ensures run.Graph().DownClosed(run.Retirees()) && run.Retirees() <= run.Graph().pre.Keys
  {
    var below := RunIsReachable(run);
  }

  lemma RunIsSettled(run: Run)
    requires run.Legal()
    ensures var known := run.Graph().pre.Keys;
      run.Graph().SettledOnceCalled(SatisfiedBy(known, run.Log()), UncalledBy(known, run.Log()))
  {
    var g, satisfied := run.Graph(), SatisfiedBy(run.Graph().pre.Keys, run.Log());
    var below := RunIsReachable(run);
    forall p | p in g.pre && p in satisfied && Count(run.Log(), p) > 0
      ensures g.Closure(p) <= satisfied
    {
      assert p in run.Log() && below[p] == g.Closure(p);
    }
  }

  /** In every run the walk of FindUnsatisfiedPrerequisites, which stops at a satisfied
    prerequisite that has been called, finds something exactly when some transitive
    prerequisite is not satisfied. */
  lemma UnsatisfiedAreFound(run: Run, e: ExpectationBase)
    requires run.Legal() && e in run.Graph().pre
    ensures var g, known := run.Graph(), run.Graph().pre.Keys;
      var satisfied := SatisfiedBy(known, run.Log());
      var found := g.Nearest(e, satisfied, UncalledBy(known, run.Log()));
      found <= g.Closure(e) - satisfied && (found == {} <==> g.Closure(e) <= satisfied)
  {
    RunIsSettled(run);
    var known := run.Graph().pre.Keys;
    run.Graph().ShortcutDecides(e, SatisfiedBy(known, run.Log()), UncalledBy(known, run.Log()));
  }

  /** Calls are handled by expectations that have been set. */
  lemma CallsAreKnown(run: Run)
    requires run.Legal()
    ensures forall e :: e in run.Log() ==> e in run.Graph().pre
    ensures forall e :: e !in run.Graph().pre ==> Count(run.Log(), e) == 0
  {
    var below := RunIsReachable(run);
    LogIsKept(below, below, run.Log());
  }

  // ------------------------------------------------------- how many calls, and who retires

  /** The calls of e that were not excessive. */
  ghost function Accepted(run: Run, e: ExpectationBase): nat {
    match run
    case Start => 0
    case Expect(before, _, _) => Accepted(before, e)
    case Handle(before, x) =>
      Accepted(before, e) + if x == e && Count(before.Log(), e) < e.cardinality.max then 1 else 0
  }

  /** Over every run an expectation accepts its calls up to its maximum and no more. */
  lemma {:induction false} AcceptedUpToMax(run: Run, e: ExpectationBase)
    ensures var n := Count(run.Log(), e);
      Accepted(run, e) == if n < e.cardinality.max then n else e.cardinality.max
  {
    match run
    case Start =>
    case Expect(before, _, _) => AcceptedUpToMax(before, e);
    case Handle(before, x) =>
      AcceptedUpToMax(before, e);
      CountAppended(before.Log(), x);
  }

  /** An expectation is retired by a call of its own just if it retires on saturation and
    the call is its last allowed one. */
  lemma RetiresItselfAtMax(run: Run, e: ExpectationBase)
    requires run.Legal() && run.MayHandle(e)
    ensures Handle(run, e).Legal()
    ensures e in Handle(run, e).Retirees() <==> e.retiresOnSaturation && Count(run.Log(), e) + 1 == e.cardinality.max
  {
    HandleStep(run, e);
    if e in run.Graph().Closure(e) { run.Graph().ClosureHasLowerRank(e, e); }
    if e.retiresOnSaturation && Count(run.Log(), e) >= e.cardinality.max > 0 {
      var below := RunIsReachable(run);
    }
  }

  /** x is below an expectation that has accepted one of these calls. */
  ghost predicate IsPassed(g: Expectations, calls: seq<ExpectationBase>, x: ExpectationBase)
    requires g.Acyclic()
  {
    exists i :: 0 <= i < |calls| && calls[i] in g.pre
      && Count(calls[..i], calls[i]) < calls[i].cardinality.max && x in g.Closure(calls[i])
  }

  lemma PassedByCall(g: Expectations, calls: seq<ExpectationBase>, e: ExpectationBase, x: ExpectationBase)
    requires g.Acyclic() && e in g.pre
    ensures IsPassed(g, calls + [e], x) <==>
      IsPassed(g, calls, x) || (Count(calls, e) < e.cardinality.max && x in g.Closure(e))
  {
    var more := calls + [e];
    assert more[..|calls|] == calls && more[|calls|] == e;
    assert forall i :: 0 <= i < |calls| ==> more[i] == calls[i] && more[..i] == calls[..i];
  }

  lemma PassedInLarger(g: Expectations, g': Expectations, calls: seq<ExpectationBase>, x: ExpectationBase)
    requires g.Acyclic() && g'.Acyclic() && forall y :: y in calls ==> y in g.pre
    requires forall y :: y in g.pre ==> y in g'.pre && g'.Closure(y) == g.Closure(y)
    ensures IsPassed(g', calls, x) <==> IsPassed(g, calls, x)
  {
  }

  /** Who is retired after a run: those below an expectation that has accepted a call, and
    those that retire on saturation and have been called as often as they allow. */
  lemma {:induction false} RetireesAre(run: Run, x: ExpectationBase)
    requires run.Legal()
    ensures x in run.Retirees() <==>
      || IsPassed(run.Graph(), run.Log(), x)
      || (x.retiresOnSaturation && 0 < x.cardinality.max <= Count(run.Log(), x))
  {
    match run
    case Start =>
    case Expect(before, e, ps) =>
      RetireesAre(before, x);
      CallsAreKnown(before);
      before.Graph().ExtendIsAcyclic(e, ps, before.Size());
      PassedInLarger(before.Graph(), run.Graph(), before.Log(), x);
    case Handle(before, e) =>
      RetireesAre(before, x);
      PassedByCall(before.Graph(), before.Log(), e, x);
      CountAppended(before.Log(), e);
      HandleStep(before, e);
  }
}
