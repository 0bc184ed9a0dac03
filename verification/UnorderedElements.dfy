/** FindPairing, its row/column pre-check, and UnorderedElementsAre as a whole. */
module UnorderedElements {
  import opened Bipartite
  import opened MatchMatrices
  import opened MaxBipartiteMatch

  /** Every matcher r gets an element f[r] of its own that satisfies it. */
  ghost predicate IsPairing(g: Graph, f: seq<int>) {
    && |f| == g.rhs
    && Distinct(f)
    && forall r :: 0 <= r < |f| ==> g.Edge(f[r], r)
  }

  ghost predicate HasPairing(g: Graph) {
    exists f :: IsPairing(g, f)
  }

  /** Element l satisfies one of the first n matchers. */
  ghost predicate RowCovered(g: Graph, l: int, n: int) {
    exists r :: r < n && g.Edge(l, r)
  }

  /** Matcher r is satisfied by one of the first n elements. */
  ghost predicate ColumnCovered(g: Graph, r: int, n: int) {
    exists l :: l < n && g.Edge(l, r)
  }

  /** Every element satisfies some matcher and every matcher is satisfied by some element. */
  ghost predicate AllCovered(g: Graph) {
    && (forall l :: 0 <= l < |g.rows| ==> RowCovered(g, l, g.rhs))
    && (forall r :: 0 <= r < g.rhs ==> ColumnCovered(g, r, |g.rows|))
  }

  // ------------------------------------------------ matchings and pairings

  ghost function PairingEdges(f: seq<int>): set<(int, int)> {
    set r | 0 <= r < |f| :: (f[r], r)
  }

  lemma {:induction false} PairingEdgesCount(f: seq<int>)
    ensures |PairingEdges(f)| == |f|
  {
    if f != [] {
      var n := |f| - 1;
      PairingEdgesCount(f[..n]);
      assert PairingEdges(f) == PairingEdges(f[..n]) + {(f[n], n)};
    }
  }

  lemma PairingIsMatching(g: Graph, f: seq<int>)
    requires IsPairing(g, f)
    ensures IsMatching(g, PairingEdges(f)) && |PairingEdges(f)| == g.rhs
  {
    PairingEdgesCount(f);
    var m := PairingEdges(f);
    forall e, e' | e in m && e' in m && (e.0 == e'.0 || e.1 == e'.1)
      ensures e == e'
    {
      assert f[e.1] == e.0 && f[e'.1] == e'.0;
    }
  }

  ghost function Range(n: nat): (s: set<int>)
    ensures forall i :: i in s <==> 0 <= i < n
    ensures |s| == n
  {
    if n == 0 then {} else Range(n - 1) + {n - 1}
  }

  ghost function Rights(m: set<(int, int)>): set<int> {
    set e | e in m :: e.1
  }

  ghost function Lefts(m: set<(int, int)>): set<int> {
    set e | e in m :: e.0
  }

  lemma {:induction false} MatchingImages(g: Graph, m: set<(int, int)>)
    requires IsMatching(g, m)
    ensures |Rights(m)| == |m| && |Lefts(m)| == |m|
    decreases |m|
  {
    if m != {} {
      var e :| e in m;
      var m' := m - {e};
      MatchingImages(g, m');
      assert Rights(m) == Rights(m') + {e.1} && Lefts(m) == Lefts(m') + {e.0};
      assert e.1 !in Rights(m') && e.0 !in Lefts(m');
    }
  }

  lemma SubsetOfEqualSize<T>(a: set<T>, b: set<T>)
    requires a <= b && |a| == |b|
    ensures a == b
  {
    assert b == a + (b - a);
  }

  lemma SubsetSize<T>(a: set<T>, b: set<T>)
    requires a <= b
    ensures |a| <= |b|
  {
    assert b == a + (b - a);
  }

  /** No matching is larger than a side of the graph; one as large as the right side
    pairs every matcher. */
  lemma MatchingWithinSides(g: Graph, m: set<(int, int)>)
    requires IsMatching(g, m)
    ensures |m| <= g.rhs && |m| <= |g.rows|
    ensures |m| == g.rhs ==> Rights(m) == Range(g.rhs)
    ensures |m| == |g.rows| ==> Lefts(m) == Range(|g.rows|)
  {
    MatchingImages(g, m);
    SubsetSize(Rights(m), Range(g.rhs));
    SubsetSize(Lefts(m), Range(|g.rows|));
    if |m| == g.rhs { SubsetOfEqualSize(Rights(m), Range(g.rhs)); }
    if |m| == |g.rows| { SubsetOfEqualSize(Lefts(m), Range(|g.rows|)); }
  }

  ghost function LeftOf(m: set<(int, int)>, r: int): (l: int)
    ensures r in Rights(m) ==> (l, r) in m
  {
    if r in Rights(m) then (var e :| e in m && e.1 == r; e.0) else UNUSED
  }

  lemma FullMatchingIsPairing(g: Graph, m: set<(int, int)>)
    requires IsMatching(g, m) && |m| == g.rhs
    ensures HasPairing(g)
  {
    MatchingWithinSides(g, m);
    assert forall r :: 0 <= r < g.rhs ==> r in Rights(m);
    var f := seq(g.rhs, r requires 0 <= r < g.rhs => LeftOf(m, r));
    assert forall r :: 0 <= r < g.rhs ==> (f[r], r) in m;
    assert IsPairing(g, f);
  }

  // ------------------------------------------------------ the pre-check

  lemma LeftIsCovered(g: Graph, m: set<(int, int)>, l: int)
    requires IsMatching(g, m) && l in Lefts(m)
    ensures RowCovered(g, l, g.rhs)
  {
    var e :| e in m && e.0 == l;
    assert g.Edge(l, e.1);
  }

  /** A perfect pairing of equally many elements and matchers covers every node. */
  lemma PairingCovers(g: Graph)
    requires HasPairing(g) && |g.rows| == g.rhs
    ensures AllCovered(g)
  {
    var f :| IsPairing(g, f);
    PairingIsMatching(g, f);
    MatchingWithinSides(g, PairingEdges(f));
    forall l | 0 <= l < |g.rows|
      ensures RowCovered(g, l, g.rhs)
    {
      LeftIsCovered(g, PairingEdges(f), l);
    }
    forall r | 0 <= r < g.rhs
      ensures ColumnCovered(g, r, |g.rows|)
    {
      assert g.Edge(f[r], r);
    }
  }

  ghost function Diagonal(lhs: nat, rhs: nat): (g: Graph)
    ensures g.WellFormed() && |g.rows| == lhs && g.rhs == rhs
    ensures forall l, r :: g.Edge(l, r) <==> 0 <= l < lhs && 0 <= r < rhs && l == r
  {
    Graph(rhs, seq(lhs, l => seq(rhs, r => l == r)))
  }

  /** The pre-check may be run before FindPairing exactly on shapes with no more
    elements than matchers; on any other shape it rejects a matrix that has a pairing. */
  lemma PreCheckIsSafeIffNoExtraElements(lhs: nat, rhs: nat)
    ensures lhs <= rhs <==>
      forall g: Graph :: g.WellFormed() && |g.rows| == lhs && g.rhs == rhs && HasPairing(g) ==> AllCovered(g)
  {
    if lhs <= rhs {
      forall g: Graph | g.WellFormed() && |g.rows| == lhs && g.rhs == rhs && HasPairing(g)
        ensures AllCovered(g)
      {
        var f :| IsPairing(g, f);
        PairingIsMatching(g, f);
        MatchingWithinSides(g, PairingEdges(f));
        PairingCovers(g);
      }
    } else {
      var g := Diagonal(lhs, rhs);
      var f := seq(rhs, r => r);
      assert IsPairing(g, f);
      assert !RowCovered(g, rhs, g.rhs);
    }
  }

  // -------------------------------------------------------------- methods

  method FindMaxBipartiteMatching(g: MatchMatrix) returns (result: seq<(int, int)>)
    requires g.Valid()
    ensures IsMatching(g.Value(), Pairs(result)) && |Pairs(result)| == |result|
    ensures forall m :: IsMatching(g.Value(), m) ==> |m| <= |result|
  {
    var state := new MaxBipartiteMatchState(g);
    result := state.Compute();
  }

  /** True exactly when the matchers can be given distinct elements that satisfy them. */
  method FindPairing(matrix: MatchMatrix) returns (result: bool)
    requires matrix.Valid()
    ensures result <==> HasPairing(matrix.Value())
  {
    var matches := FindMaxBipartiteMatching(matrix);
    ghost var g := matrix.Value();
    result := |matches| == matrix.numMatchers;
    if result {
      FullMatchingIsPairing(g, Pairs(matches));
    } else {
      MatchingWithinSides(g, Pairs(matches));
      forall f | IsPairing(g, f)
        ensures false
      {
        PairingIsMatching(g, f);
      }
    }
  }

  /** The marks after the cells before (l, n) in row-major order have been looked at. */
  ghost predicate Marked(g: Graph, elementMatched: seq<bool>, matcherMatched: seq<bool>, l: int, n: int) {
    && |elementMatched| == |g.rows| && |matcherMatched| == g.rhs
    && (forall i :: 0 <= i < |g.rows| ==>
         elementMatched[i] == if i < l then RowCovered(g, i, g.rhs) else i == l && RowCovered(g, i, n))
    && (forall r :: 0 <= r < g.rhs ==> matcherMatched[r] == ColumnCovered(g, r, if r < n then l + 1 else l))
  }

  lemma MarkedStep(g: Graph, elementMatched: seq<bool>, matcherMatched: seq<bool>, l: int, n: int)
    requires g.WellFormed() && Marked(g, elementMatched, matcherMatched, l, n)
    requires 0 <= l < |g.rows| && 0 <= n < g.rhs
    ensures Marked(g, elementMatched[l := elementMatched[l] || g.Edge(l, n)],
                      matcherMatched[n := matcherMatched[n] || g.Edge(l, n)], l, n + 1)
  {
    assert RowCovered(g, l, n + 1) <==> RowCovered(g, l, n) || g.Edge(l, n);
    assert ColumnCovered(g, n, l + 1) <==> ColumnCovered(g, n, l) || g.Edge(l, n);
  }

  lemma MarkedRow(g: Graph, elementMatched: seq<bool>, matcherMatched: seq<bool>, l: int)
    requires Marked(g, elementMatched, matcherMatched, l, g.rhs) && 0 <= l < |g.rows|
    ensures Marked(g, elementMatched, matcherMatched, l + 1, 0)
  {
    assert !RowCovered(g, l + 1, 0);
  }

  /** The answer of the pre-check: no row and no column of the matrix is empty. */
  method VerifyAllElementsAndMatchersAreMatched(matrix: MatchMatrix) returns (result: bool)
    requires matrix.Valid()
    ensures result <==> AllCovered(matrix.Value())
  {
    ghost var g := matrix.Value();
    var elementMatched := new bool[matrix.numElements](_ => false);
    var matcherMatched := new bool[matrix.numMatchers](_ => false);
    for ilhs := 0 to matrix.numElements
      invariant matrix.Value() == g
      invariant Marked(g, elementMatched[..], matcherMatched[..], ilhs, 0)
    {
      for irhs := 0 to matrix.numMatchers
        invariant matrix.Value() == g
        invariant Marked(g, elementMatched[..], matcherMatched[..], ilhs, irhs)
      {
        var matched := matrix.HasEdge(ilhs, irhs);
        MarkedStep(g, elementMatched[..], matcherMatched[..], ilhs, irhs);
        elementMatched[ilhs] := elementMatched[ilhs] || matched;
        matcherMatched[irhs] := matcherMatched[irhs] || matched;
      }
      MarkedRow(g, elementMatched[..], matcherMatched[..], ilhs);
    }
    ghost var rows, columns := elementMatched[..], matcherMatched[..];
    assert forall l :: 0 <= l < |g.rows| ==> rows[l] == RowCovered(g, l, g.rhs);
    assert forall r :: 0 <= r < g.rhs ==> columns[r] == ColumnCovered(g, r, |g.rows|);
    result := true;
    for mi := 0 to matcherMatched.Length
      invariant result <==> forall r :: 0 <= r < mi ==> columns[r]
    {
      if matcherMatched[mi] { continue; }
      result := false;
    }
    for ei := 0 to elementMatched.Length
      invariant result <==> ((forall r :: 0 <= r < g.rhs ==> columns[r]) && (forall l :: 0 <= l < ei ==> rows[l]))
    {
      if elementMatched[ei] { continue; }
      result := false;
    }
  }

  ghost predicate IsPermutation(f: seq<int>, n: nat) {
    |f| == n && Distinct(f) && forall r :: 0 <= r < n ==> 0 <= f[r] < n
  }

  ghost predicate EachMatches<E>(elements: seq<E>, matchers: seq<E -> bool>, f: seq<int>) {
    && |f| == |matchers|
    && forall r :: 0 <= r < |f| ==> 0 <= f[r] < |elements| && matchers[r](elements[f[r]])
  }

  /** Whether elements and matchers are equally many and can be put in one-to-one
    correspondence: what UnorderedElementsAre promises. */
  ghost predicate SomePermutationMatches<E>(elements: seq<E>, matchers: seq<E -> bool>) {
    && |elements| == |matchers|
    && exists f: seq<int> :: IsPermutation(f, |elements|) && EachMatches(elements, matchers, f)
  }

  ghost function VerdictsOn<E>(e: E, matchers: seq<E -> bool>): (v: seq<bool>)
    ensures |v| == |matchers|
  {
    seq(|matchers|, r requires 0 <= r < |matchers| => matchers[r](e))
  }

  /** The verdicts of all matchers on all elements, element by element. */
  ghost function Verdicts<E>(elements: seq<E>, matchers: seq<E -> bool>): (v: seq<bool>)
    ensures |v| == Offset(|elements|, |matchers|)
  {
    if elements == [] then []
    else Verdicts(elements[..|elements| - 1], matchers) + VerdictsOn(elements[|elements| - 1], matchers)
  }

  lemma {:induction false} VerdictAt<E>(elements: seq<E>, matchers: seq<E -> bool>, l: nat, r: nat)
    requires l < |elements| && r < |matchers|
    ensures Offset(l, |matchers|) + r < |Verdicts(elements, matchers)|
    ensures Verdicts(elements, matchers)[Offset(l, |matchers|) + r] == matchers[r](elements[l])
    decreases |elements|
  {
    OffsetFits(l, |elements|, |matchers|);
    if l < |elements| - 1 {
      VerdictAt(elements[..|elements| - 1], matchers, l, r);
    }
  }

  method CollectVerdicts<E>(elements: seq<E>, matchers: seq<E -> bool>) returns (didMatch: seq<bool>)
    ensures didMatch == Verdicts(elements, matchers)
  {
    didMatch := [];
    for ilhs := 0 to |elements|
      invariant didMatch == Verdicts(elements[..ilhs], matchers)
    {
      for irhs := 0 to |matchers|
        invariant didMatch == Verdicts(elements[..ilhs], matchers) + VerdictsOn(elements[ilhs], matchers)[..irhs]
      {
        didMatch := didMatch + [matchers[irhs](elements[ilhs])];
      }
      assert elements[..ilhs + 1][..ilhs] == elements[..ilhs];
    }
    assert elements[..|elements|] == elements;
  }

  /** Copies the verdicts into the matrix, consuming them in row-major order. */
  method FillMatrix(matrix: MatchMatrix, didMatch: seq<bool>)
    requires matrix.Valid() && |didMatch| == matrix.matched.Length
    modifies matrix.matched
    ensures matrix.matched[..] == didMatch
  {
    var next := 0;
    for ilhs := 0 to matrix.numElements
      invariant next == Offset(ilhs, matrix.numMatchers) <= |didMatch|
      invariant forall i :: 0 <= i < next ==> matrix.matched[i] == didMatch[i]
    {
      OffsetFits(ilhs, matrix.numElements, matrix.numMatchers);
      for irhs := 0 to matrix.numMatchers
        invariant next == Offset(ilhs, matrix.numMatchers) + irhs <= |didMatch|
        invariant forall i :: 0 <= i < next ==> matrix.matched[i] == didMatch[i]
      {
        ghost var before := matrix.matched[..];
        matrix.SetEdge(ilhs, irhs, didMatch[next]);
        assert forall i :: 0 <= i < next ==> matrix.matched[..][i] == before[i];
        next := next + 1;
      }
    }
  }

  lemma VerdictsAreEdges<E>(elements: seq<E>, matchers: seq<E -> bool>)
    ensures forall l, r :: 0 <= l < |elements| && 0 <= r < |matchers| ==>
      ToGraph(|elements|, |matchers|, Verdicts(elements, matchers)).Edge(l, r) == matchers[r](elements[l])
  {
    forall l, r | 0 <= l < |elements| && 0 <= r < |matchers|
      ensures ToGraph(|elements|, |matchers|, Verdicts(elements, matchers)).Edge(l, r) == matchers[r](elements[l])
    {
      VerdictAt(elements, matchers, l, r);
    }
  }

  /** Asks every matcher about every element and puts the answers in a matrix. */
  method AnalyzeElements<E>(elements: seq<E>, matchers: seq<E -> bool>) returns (matrix: MatchMatrix)
    ensures fresh(matrix) && fresh(matrix.matched) && matrix.Valid()
    ensures matrix.numElements == |elements| && matrix.numMatchers == |matchers|
    ensures forall l, r :: 0 <= l < |elements| && 0 <= r < |matchers|
              ==> matrix.Value().Edge(l, r) == matchers[r](elements[l])
  {
    var didMatch := CollectVerdicts(elements, matchers);
    matrix := new MatchMatrix(|elements|, |matchers|);
    FillMatrix(matrix, didMatch);
    VerdictsAreEdges(elements, matchers);
  }

  lemma PairingIsPermutation<E>(elements: seq<E>, matchers: seq<E -> bool>, g: Graph)
    requires g.WellFormed() && |g.rows| == |elements| == |matchers| == g.rhs
    requires forall l, r :: 0 <= l < |elements| && 0 <= r < |matchers| ==> g.Edge(l, r) == matchers[r](elements[l])
    ensures HasPairing(g) <==> SomePermutationMatches(elements, matchers)
  {
    if HasPairing(g) {
      var f :| IsPairing(g, f);
      assert forall r :: 0 <= r < |f| ==> g.Edge(f[r], r);
      assert IsPermutation(f, |elements|) && EachMatches(elements, matchers, f);
    }
    if SomePermutationMatches(elements, matchers) {
      var f: seq<int> :| IsPermutation(f, |elements|) && EachMatches(elements, matchers, f);
      assert IsPairing(g, f);
    }
  }

  /** UnorderedElementsAre: true exactly when some permutation of the elements satisfies
    the matchers one by one. */
  method MatchAndExplain<E>(elements: seq<E>, matchers: seq<E -> bool>) returns (result: bool)
    ensures result <==> SomePermutationMatches(elements, matchers)
  {
    var matrix := AnalyzeElements(elements, matchers);
    ghost var g := matrix.Value();
    var actualCount := matrix.numElements;
    if actualCount == 0 && matchers == [] {
      assert IsPermutation([], 0) && EachMatches(elements, matchers, []);
      return true;
    }
    if actualCount != |matchers| {
      return false;
    }
    PairingIsPermutation(elements, matchers, g);
    result := VerifyAllElementsAndMatchersAreMatched(matrix);
    if result {
      result := FindPairing(matrix);
    } else if HasPairing(g) {
      PairingCovers(g);
    }
  }
}
