/** Mock functions and sequences on the heap: setting an expectation and calling a mock
  function are the two steps of the runs in CallLogs. */
module MockFunctions {
  import opened PrerequisiteGraphs
  import opened Expectations
  import opened CallLogs

  /** The expectations added to a sequence, the newest last. */
  datatype Members = Nobody | Then(before: Members, newest: ExpectationBase) {
    ghost function Last(): (e: ExpectationBase?) {
      if Nobody? then null else newest
    }

    ghost function All(): set<ExpectationBase> {
      if Nobody? then {} else before.All() + {newest}
    }

    /** The sequence once had just these members. */
    ghost predicate Began(first: Members) {
      this == first || (Then? && before.Began(first))
    }
  }

  /** Sequences are handles: copies share the last expectation, so one object stands for all. */
  class Sequence {
    var lastExpectation: ExpectationBase?
    ghost var members: Members

    constructor ()
      ensures lastExpectation == null && members == Nobody
    {
      lastExpectation, members := null, Nobody;
    }

    ghost predicate LastIsLast()
      reads this
    {
      lastExpectation == members.Last()
    }

    method AddExpectation(expectation: ExpectationBase)
      requires LastIsLast()
      modifies this, expectation`immediatePrerequisites
      ensures LastIsLast() && lastExpectation == expectation
      ensures members == if old(lastExpectation) == expectation then old(members) else Then(old(members), expectation)
      ensures expectation.immediatePrerequisites == old(expectation.immediatePrerequisites)
        + (if old(lastExpectation) == null || old(lastExpectation) == expectation then {} else {old(lastExpectation)})
    {
      if lastExpectation != expectation {
        if lastExpectation != null {
          expectation.immediatePrerequisites := expectation.immediatePrerequisites + {lastExpectation};
        }
        lastExpectation := expectation;
        members := Then(members, expectation);
      }
    }
  }

  /** The heap holds this graph, with these expectations retired and these calls counted. */
  ghost predicate Mirrors(g: Expectations, retired: set<ExpectationBase>, calls: seq<ExpectationBase>)
    reads g.pre.Keys
  {
    && Reflects(g)
    && Retired(g) == retired
    && forall e :: e in g.pre ==> e.callCount == Count(calls, e)
  }

  /** A new expectation does not disturb the others. */
  lemma NewExpectationIsMirrored(run: Run, e: ExpectationBase)
    requires run.Legal() && Mirrors(run.Graph(), run.Retirees(), run.Log())
    requires e !in run.Graph().pre && e.callCount == 0 && !e.retired && e.immediatePrerequisites <= run.Graph().pre.Keys
    ensures var run' := Expect(run, e, e.immediatePrerequisites);
      && run'.Legal() && Mirrors(run'.Graph(), run'.Retirees(), run'.Log())
      && run'.Graph().pre == run.Graph().pre[e := e.immediatePrerequisites]
      && run'.Graph().pre.Keys == run.Graph().pre.Keys + {e}
  {
    CallsAreKnown(run);
    var run' := Expect(run, e, e.immediatePrerequisites);
    assert run'.Graph().pre == run.Graph().pre[e := e.immediatePrerequisites];
    assert Retired(run'.Graph()) == Retired(run.Graph());
  }

  /** Passes a call on to the expectation that handles it. */
  method PassOn(exp: ExpectationBase, ghost g: Expectations, ghost retired: set<ExpectationBase>,
                ghost calls: seq<ExpectationBase>) returns (excessive: bool)
    requires g.Acyclic() && exp in g.pre && Mirrors(g, retired, calls) && g.DownClosed(retired)
    modifies g.pre.Keys`callCount, g.pre.Keys`retired
    ensures Mirrors(g, RetiredByCall(g, retired, calls, exp), calls + [exp])
    ensures excessive <==> Count(calls, exp) >= exp.cardinality.max
  {
    CountAppended(calls, exp);
    excessive := exp.GetActionForArguments(g);
  }

  /** The same, as a step of a run. */
  method TakeCall(exp: ExpectationBase, ghost run: Run, ghost g: Expectations) returns (excessive: bool)
    requires run.Legal() && run.MayHandle(exp) && g == run.Graph() && Mirrors(g, run.Retirees(), run.Log())
    modifies g.pre.Keys`callCount, g.pre.Keys`retired
    ensures Handle(run, exp).Legal() && Mirrors(g, Handle(run, exp).Retirees(), Handle(run, exp).Log())
    ensures excessive <==> Count(run.Log(), exp) >= exp.cardinality.max
  {
    RetireesAreDownClosed(run);
    HandleStep(run, exp);
    excessive := PassOn(exp, g, run.Retirees(), run.Log());
  }

  lemma MirroredSatisfied(g: Expectations, retired: set<ExpectationBase>, calls: seq<ExpectationBase>)
    requires Mirrors(g, retired, calls)
    ensures Satisfied(g) == SatisfiedBy(g.pre.Keys, calls) && Uncalled(g) == UncalledBy(g.pre.Keys, calls)
  {
  }

  lemma SearchDecides(exp: ExpectationBase, run: Run, g: Expectations)
    requires run.Legal() && g == run.Graph() && exp in g.pre && Mirrors(g, run.Retirees(), run.Log())
    ensures var satisfied, found := SatisfiedBy(g.pre.Keys, run.Log()), g.Nearest(exp, Satisfied(g), Uncalled(g));
      found <= g.Closure(exp) - satisfied && (found == {} <==> g.Closure(exp) <= satisfied)
  {
    MirroredSatisfied(g, run.Retirees(), run.Log());
    UnsatisfiedAreFound(run, exp);
  }

  /** In every state of a run the search reports something exactly when some transitive
    prerequisite is not satisfied, and nothing but such prerequisites. */
  method FindUnsatisfied(exp: ExpectationBase, ghost run: Run, ghost g: Expectations)
      returns (unsatisfied: set<ExpectationBase>)
    requires run.Legal() && g == run.Graph() && exp in g.pre && Mirrors(g, run.Retirees(), run.Log())
    ensures var satisfied := SatisfiedBy(g.pre.Keys, run.Log());
      unsatisfied <= g.Closure(exp) - satisfied && (unsatisfied == {} <==> g.Closure(exp) <= satisfied)
  {
    SearchDecides(exp, run, g);
    var result := new ExpectationSet();
    exp.FindUnsatisfiedPrerequisites(result, g);
    unsatisfied := result.expectations;
  }

  datatype Explanation =
    IsRetired | ArgumentsDiffer | Unsatisfied(prerequisites: set<ExpectationBase>) | CallMatches

  /** The expectations that may handle a call with these arguments. */
  ghost function Takers(run: Run, args: string): set<ExpectationBase>
    requires run.Legal()
  {
    set e | e in run.Graph().pre && run.MayHandle(e) && e.matches(args)
  }

  /** The last of the first n expectations of the list that is one of these. */
  ghost function Newest(takers: set<ExpectationBase>, list: seq<ExpectationBase>, n: nat): (e: ExpectationBase?)
    requires n <= |list|
  {
    if n == 0 then null else if list[n - 1] in takers then list[n - 1] else Newest(takers, list, n - 1)
  }

  lemma NewestStep(takers: set<ExpectationBase>, list: seq<ExpectationBase>, n: nat)
    requires n < |list|
    ensures Newest(takers, list, n + 1) == if list[n] in takers then list[n] else Newest(takers, list, n)
  {
  }

  lemma {:induction false} NewestIsLast(takers: set<ExpectationBase>, list: seq<ExpectationBase>, n: nat)
    requires n <= |list|
    ensures var e := Newest(takers, list, n);
      if e == null then forall i :: 0 <= i < n ==> list[i] !in takers
      else e in takers && exists i :: 0 <= i < n && list[i] == e && forall j :: i < j < n ==> list[j] !in takers
  {
    if n > 0 {
      NewestIsLast(takers, list, n - 1);
    }
  }

  ghost predicate AllIn(lists: seq<seq<ExpectationBase>>, known: set<ExpectationBase>) {
    forall f, e :: 0 <= f < |lists| && e in lists[f] ==> e in known
  }

  lemma AllInAppend(lists: seq<seq<ExpectationBase>>, known: set<ExpectationBase>, f: nat, e: ExpectationBase)
    requires AllIn(lists, known) && f < |lists| && e in known
    ensures AllIn(lists[f := lists[f] + [e]], known)
  {
  }

  type Prerequisites = map<ExpectationBase, set<ExpectationBase>>

  /** Each member of a sequence has the member before it as a prerequisite. */
  ghost predicate InLine(pre: Prerequisites, members: Members) {
    members.Then? ==>
      && InLine(pre, members.before) && members.newest in pre
      && (members.before.Then? ==> members.before.newest in pre[members.newest])
  }

  /** The first n of these sequences, and all of them. */
  ghost function AmongFirst(sequences: seq<Sequence>, n: nat): set<Sequence>
    requires n <= |sequences|
  {
    if n == 0 then {} else AmongFirst(sequences, n - 1) + {sequences[n - 1]}
  }

  ghost function Among(sequences: seq<Sequence>): set<Sequence> {
    AmongFirst(sequences, |sequences|)
  }

  lemma {:induction false} AmongFirstHolds(sequences: seq<Sequence>, n: nat)
    requires n <= |sequences|
    ensures forall s :: s in AmongFirst(sequences, n) <==> s in sequences[..n]
  {
    if n > 0 {
      AmongFirstHolds(sequences, n - 1);
      assert sequences[..n] == sequences[..n - 1] + [sequences[n - 1]];
    }
  }

  lemma AmongHolds(sequences: seq<Sequence>)
    ensures forall s :: s in Among(sequences) <==> s in sequences
  {
    AmongFirstHolds(sequences, |sequences|);
    assert sequences[..|sequences|] == sequences;
  }

  /** The last expectations of some of the sequences. */
  ghost function Chosen(lasts: map<Sequence, ExpectationBase?>, chosen: set<Sequence>): (ps: set<ExpectationBase>) {
    set s | s in chosen && s in lasts && lasts[s] != null :: lasts[s]
  }

  lemma ChosenAdd(lasts: map<Sequence, ExpectationBase?>, chosen: set<Sequence>, s: Sequence)
    requires s in lasts
    ensures Chosen(lasts, chosen + {s}) == Chosen(lasts, chosen) + if lasts[s] == null then {} else {lasts[s]}
  {
  }

  lemma {:induction false} InLineGrows(pre: Prerequisites, e: ExpectationBase, ps: set<ExpectationBase>, members: Members)
    requires InLine(pre, members) && (e in pre ==> pre[e] <= ps)
    ensures InLine(pre[e := ps], members)
    ensures members.All() <= pre.Keys
  {
    if members.Then? {
      InLineGrows(pre, e, ps, members.before);
    }
  }

  lemma InLineAdd(pre: Prerequisites, members: Members, e: ExpectationBase)
    requires InLine(pre, members) && e in pre
    ensures var last := if members.Then? then {members.newest} else {};
      last <= pre.Keys && InLine(pre[e := pre[e] + last], Then(members, e))
  {
    InLineGrows(pre, e, pre[e] + if members.Then? then {members.newest} else {}, members);
  }

  class Mocks {
    /** The expectations of each mock function, oldest first. */
    var expectations: seq<seq<ExpectationBase>>
    const sequences: set<Sequence>
    /** What has happened so far, and the graph of all expectations set. */
    ghost var run: Run
    ghost var g: Expectations

    /** The heap is in the state that the run leads to. */
    ghost predicate InState()
      requires run.Legal()
      reads `expectations, `run, `g, g.pre.Keys
    {
      && g == run.Graph()
      && Mirrors(g, run.Retirees(), run.Log())
      && AllIn(expectations, g.pre.Keys)
    }

    /** All sequences are in line under these prerequisites. */
    ghost predicate SequencesInLine(pre: Prerequisites)
      reads sequences
    {
      forall s :: s in sequences ==> s.LastIsLast() && InLine(pre, s.members)
    }

    ghost predicate Valid()
      reads this, sequences, g.pre.Keys
    {
      run.Legal() && InState() && SequencesInLine(g.pre)
    }

    constructor (functions: nat, sequences: set<Sequence>)
      requires forall s :: s in sequences ==> s.lastExpectation == null && s.members == Nobody
      ensures Valid() && run == Start
      ensures |expectations| == functions && this.sequences == sequences
    {
      expectations := seq(functions, _ => []);
      this.sequences := sequences;
      run, g := Start, Dag(map[], map[]);
    }

    /** One InSequence clause of a new expectation e. */
    method InSequence(s: Sequence, e: ExpectationBase, ghost g: Expectations)
      requires s in sequences && e !in g.pre && e.immediatePrerequisites <= g.pre.Keys
      requires SequencesInLine(g.pre[e := e.immediatePrerequisites])
      modifies s, e`immediatePrerequisites
      ensures SequencesInLine(g.pre[e := e.immediatePrerequisites]) && e.immediatePrerequisites <= g.pre.Keys
      ensures s.lastExpectation == e
      ensures s.members == if old(s.lastExpectation) == e then old(s.members) else Then(old(s.members), e)
      ensures e.immediatePrerequisites == old(e.immediatePrerequisites)
        + (if old(s.lastExpectation) == null || old(s.lastExpectation) == e then {} else {old(s.lastExpectation)})
    {
      ghost var pre := g.pre[e := e.immediatePrerequisites];
      InLineAdd(pre, s.members, e);
      s.AddExpectation(e);
      ghost var ps := e.immediatePrerequisites;
      forall t | t in sequences && t.members == old(t.members)
        ensures InLine(g.pre[e := ps], t.members)
      {
        InLineGrows(pre, e, ps, t.members);
        assert pre[e := ps] == g.pre[e := ps];
      }
      assert pre[e := ps] == g.pre[e := ps];
    }

    /** The last expectation of each sequence, if it has any. */
    ghost function Lasts(): (lasts: map<Sequence, ExpectationBase?>)
      reads sequences
    {
      map s | s in sequences :: s.lastExpectation
    }

    /** e has been added to these sequences and to no others. */
    ghost predicate Joined(e: ExpectationBase, chosen: set<Sequence>, members: map<Sequence, Members>,
                           lasts: map<Sequence, ExpectationBase?>)
      requires sequences <= members.Keys && sequences <= lasts.Keys
      reads sequences
    {
      forall s :: s in sequences ==>
        && s.members == (if s in chosen then Then(members[s], e) else members[s])
        && s.lastExpectation == if s in chosen then e else lasts[s]
    }

    /** One more InSequence clause, as one more sequence that e has been added to. */
    method JoinSequence(s: Sequence, e: ExpectationBase, ghost g: Expectations, ghost joined: set<Sequence>,
                        ghost members: map<Sequence, Members>,
                        ghost lasts: map<Sequence, ExpectationBase?>)
      requires sequences <= members.Keys && sequences <= lasts.Keys && (forall t :: t in lasts ==> lasts[t] != e)
      requires s in sequences && e !in g.pre && SequencesInLine(g.pre[e := e.immediatePrerequisites]) && Joined(e, joined, members, lasts)
      requires e.immediatePrerequisites == Chosen(lasts, joined) <= g.pre.Keys
      modifies s, e`immediatePrerequisites
      ensures SequencesInLine(g.pre[e := e.immediatePrerequisites]) && Joined(e, joined + {s}, members, lasts)
      ensures e.immediatePrerequisites == Chosen(lasts, joined + {s}) <= g.pre.Keys
    {
      assert s in joined <==> s.lastExpectation == e;
      ChosenAdd(lasts, joined, s);
      assert s in joined ==> joined + {s} == joined;
      InSequence(s, e, g);
    }

    /** The first n InSequence clauses. */
    method JoinSequences(e: ExpectationBase, inSequences: seq<Sequence>, n: nat, ghost g: Expectations,
                         ghost members: map<Sequence, Members>,
                         ghost lasts: map<Sequence, ExpectationBase?>)
      requires sequences <= members.Keys && sequences <= lasts.Keys && (forall t :: t in lasts ==> lasts[t] != e)
      requires (forall s :: s in inSequences ==> s in sequences) && e !in g.pre && n <= |inSequences|
      requires SequencesInLine(g.pre[e := e.immediatePrerequisites]) && Joined(e, {}, members, lasts) && e.immediatePrerequisites == {}
      modifies sequences, e`immediatePrerequisites
      ensures SequencesInLine(g.pre[e := e.immediatePrerequisites]) && Joined(e, AmongFirst(inSequences, n), members, lasts)
      ensures e.immediatePrerequisites == Chosen(lasts, AmongFirst(inSequences, n)) <= g.pre.Keys
    {
      if n > 0 {
        JoinSequences(e, inSequences, n - 1, g, members, lasts);
        JoinSequence(inSequences[n - 1], e, g, AmongFirst(inSequences, n - 1), members, lasts);
      }
    }

    /** The InSequence clauses of a new expectation e. */
    method AddToSequences(e: ExpectationBase, inSequences: seq<Sequence>, ghost g: Expectations)
      requires SequencesInLine(g.pre) && e !in g.pre && e.immediatePrerequisites == {}
      requires forall s :: s in inSequences ==> s in sequences
      modifies sequences, e`immediatePrerequisites
      ensures SequencesInLine(g.pre[e := e.immediatePrerequisites])
      ensures e.immediatePrerequisites == Chosen(old(Lasts()), Among(inSequences)) <= g.pre.Keys
      ensures forall s :: s in sequences ==> s.members == if s in inSequences then Then(old(s.members), e) else old(s.members)
    {
      forall s | s in sequences
        ensures InLine(g.pre[e := {}], s.members) && s.lastExpectation != e
      {
        InLineGrows(g.pre, e, {}, s.members);
      }
      AmongHolds(inSequences);
      JoinSequences(e, inSequences, |inSequences|, g, map s | s in sequences :: s.members, Lasts());
    }

    /** The After clause of a new expectation e. */
    method After(e: ExpectationBase, after: set<ExpectationBase>, ghost g: Expectations)
      requires SequencesInLine(g.pre[e := e.immediatePrerequisites]) && after <= g.pre.Keys
      modifies e`immediatePrerequisites
      ensures SequencesInLine(g.pre[e := e.immediatePrerequisites])
      ensures e.immediatePrerequisites == old(e.immediatePrerequisites) + after
    {
      ghost var pre := g.pre[e := e.immediatePrerequisites];
      e.immediatePrerequisites := e.immediatePrerequisites + after;
      ghost var ps := e.immediatePrerequisites;
      forall t | t in sequences
        ensures InLine(g.pre[e := ps], t.members)
      {
        InLineGrows(pre, e, ps, t.members);
        assert pre[e := ps] == g.pre[e := ps];
      }
    }

    /** The clauses that order a new expectation e. */
    method Describe(e: ExpectationBase, inSequences: seq<Sequence>, after: set<ExpectationBase>, ghost g: Expectations)
      requires run.Legal() && InState() && this.g == g
      requires SequencesInLine(g.pre) && e !in g.pre && e.immediatePrerequisites == {}
      requires (forall s :: s in inSequences ==> s in sequences) && after <= g.pre.Keys
      modifies sequences, e`immediatePrerequisites
      ensures InState()
      ensures SequencesInLine(g.pre[e := e.immediatePrerequisites]) && e.immediatePrerequisites <= g.pre.Keys
      ensures e.immediatePrerequisites == after + Chosen(old(Lasts()), Among(inSequences))
      ensures forall s :: s in sequences ==> s.members == if s in inSequences then Then(old(s.members), e) else old(s.members)
    {
      AddToSequences(e, inSequences, g);
      After(e, after, g);
    }

    /** From now on a new expectation belongs to the run. */
    ghost method Record(e: ExpectationBase)
      requires run.Legal() && InState()
      requires e !in g.pre && e.callCount == 0 && !e.retired && e.immediatePrerequisites <= g.pre.Keys
      modifies `run, `g
      ensures run == Expect(old(run), e, e.immediatePrerequisites)
      ensures g.pre == old(g).pre[e := e.immediatePrerequisites]
      ensures run.Legal() && InState()
    {
      NewExpectationIsMirrored(run, e);
      run := Expect(run, e, e.immediatePrerequisites);
      g := run.Graph();
    }

    /** Enters an expectation in the list of its mock function. */
    method Register(f: nat, e: ExpectationBase)
      requires run.Legal() && InState() && f < |expectations| && e in g.pre
      modifies `expectations
      ensures InState() && expectations == old(expectations)[f := old(expectations)[f] + [e]]
    {
      AllInAppend(expectations, g.pre.Keys, f, e);
      expectations := expectations[f := expectations[f] + [e]];
    }

    /** EXPECT_CALL(...).InSequence(...).After(...): a new expectation, put in some sequences.
      Its prerequisites are the expectations named and the last ones of those sequences. */
    method ExpectCall(f: nat, cardinality: Cardinality, retiresOnSaturation: bool, matches: string -> bool,
                      inSequences: seq<Sequence>, after: set<ExpectationBase>) returns (e: ExpectationBase)
      requires Valid() && f < |expectations|
      requires forall s :: s in inSequences ==> s in sequences
      requires after <= g.pre.Keys
      modifies `expectations, `run, `g, sequences
      ensures Valid() && fresh(e)
      ensures e.cardinality == cardinality && e.retiresOnSaturation == retiresOnSaturation && e.matches == matches
      ensures run == Expect(old(run), e, e.immediatePrerequisites)
      ensures expectations == old(expectations)[f := old(expectations)[f] + [e]]
      ensures e.immediatePrerequisites == after + Chosen(old(Lasts()), Among(inSequences))
      ensures forall s :: s in sequences ==> s.members == if s in inSequences then Then(old(s.members), e) else old(s.members)
    {
      e := new ExpectationBase(cardinality, retiresOnSaturation, matches);
      Describe(e, inSequences, after, g);
      Record(e);
      Register(f, e);
    }

    /** Whether the expectation takes a call with these arguments now. */
    method ShouldHandleArguments(exp: ExpectationBase, args: string) returns (b: bool)
      requires run.Legal() && InState() && exp in g.pre
      ensures b <==> exp in Takers(run, args)
    {
      MirroredSatisfied(g, run.Retirees(), run.Log());
      b := !exp.retired;
      if b {
        b := exp.AllPrerequisitesAreSatisfied(g);
      }
      b := b && exp.matches(args);
    }

    /** Why an expectation does not take a call with these arguments, if it does not. */
    method ExplainMatchResult(exp: ExpectationBase, args: string) returns (why: Explanation)
      requires run.Legal() && InState() && exp in g.pre
      ensures match why
        case IsRetired => exp in run.Retirees()
        case ArgumentsDiffer => exp !in run.Retirees() && !exp.matches(args)
        case Unsatisfied(ps) =>
          && exp !in run.Retirees() && exp.matches(args)
          && ps != {} && ps <= run.Graph().Closure(exp) - SatisfiedBy(run.Graph().pre.Keys, run.Log())
        case CallMatches => exp in Takers(run, args)
    {
      if exp.retired { return IsRetired; }
      if !exp.matches(args) { return ArgumentsDiffer; }
      MirroredSatisfied(g, run.Retirees(), run.Log());
      var all := exp.AllPrerequisitesAreSatisfied(g);
      if all { return CallMatches; }
      var unsatisfied := FindUnsatisfied(exp, run, g);
      return Unsatisfied(unsatisfied);
    }

    /** The newest expectation of the mock function that takes the call, if any. */
    method FindMatchingExpectationLocked(f: nat, args: string) returns (exp: ExpectationBase?)
      requires run.Legal() && InState() && f < |expectations|
      ensures exp == Newest(Takers(run, args), expectations[f], |expectations[f]|)
    {
      var list := expectations[f];
      ghost var takers := Takers(run, args);
      var i := |list|;
      assert forall e :: e in list ==> e in g.pre;
      while i > 0
        invariant 0 <= i <= |list|
        invariant Newest(takers, list, |list|) == Newest(takers, list, i)
      {
        i := i - 1;
        var takes := ShouldHandleArguments(list[i], args);
        NewestStep(takers, list, i);
        assert takes <==> list[i] in takers;
        if takes {
          return list[i];
        }
      }
      return null;
    }

    /** Passes the call on to the expectation. */
    method HandleCall(exp: ExpectationBase) returns (excessive: bool)
      requires Valid() && run.MayHandle(exp)
      modifies `run, g.pre.Keys`callCount, g.pre.Keys`retired
      ensures Valid() && run == Handle(old(run), exp)
      ensures excessive <==> Count(old(run).Log(), exp) >= exp.cardinality.max
    {
      excessive := TakeCall(exp, run, g);
      run := Handle(run, exp);
    }

    /** A call of a mock function: the expectation that handled it, if any did, and whether
      the call was one too many. */
    method Invoke(f: nat, args: string) returns (exp: ExpectationBase?, excessive: bool)
      requires Valid() && f < |expectations|
      modifies `run, g.pre.Keys`callCount, g.pre.Keys`retired
      ensures Valid()
      ensures exp == Newest(Takers(old(run), args), expectations[f], |expectations[f]|)
      ensures run == if exp == null then old(run) else Handle(old(run), exp)
      ensures exp != null ==> (excessive <==> Count(old(run).Log(), exp) >= exp.cardinality.max)
    {
      exp := FindMatchingExpectationLocked(f, args);
      excessive := false;
      if exp != null {
        NewestIsLast(Takers(run, args), expectations[f], |expectations[f]|);
        excessive := HandleCall(exp);
      }
    }
  }

  /** All earlier members of a sequence are transitive prerequisites of a later one. */
  lemma {:induction false} EarlierMembersArePrerequisites(g: Expectations, members: Members, upTo: Members)
    requires g.Acyclic() && InLine(g.pre, members) && members.Began(upTo) && upTo.Then?
    ensures upTo.newest in g.pre && upTo.before.All() <= g.Closure(upTo.newest)
    decreases members, upTo
  {
    if members != upTo {
      EarlierMembersArePrerequisites(g, members.before, upTo);
    } else if upTo.before.Then? {
      var last := upTo.before.newest;
      EarlierMembersArePrerequisites(g, upTo.before, upTo.before);
      forall x | x in upTo.before.before.All()
        ensures x in g.Closure(upTo.newest)
      {
        g.ClosureTransitive(upTo.newest, last, x);
      }
    }
  }
}
