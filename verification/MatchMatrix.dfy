/** The connectivity matrix of elements and matchers, and its odometer. */
module MatchMatrices {
  import opened Bipartite
  import opened BinaryNumbers

  /** Offsets of a row-major layout, by repeated addition. */
  function Offset(l: nat, cols: nat): nat {
    if l == 0 then 0 else Offset(l - 1, cols) + cols
  }

  lemma {:induction false} OffsetIsProduct(l: nat, cols: nat)
    ensures Offset(l, cols) == l * cols
  {
    if l > 0 {
      OffsetIsProduct(l - 1, cols);
      assert l * cols == (l - 1) * cols + cols;
    }
  }

  /** Cells of one row lie before those of the next. */
  lemma {:induction false} OffsetFits(l: nat, rows: nat, cols: nat)
    requires l < rows
    ensures Offset(l, cols) + cols == Offset(l + 1, cols) <= Offset(rows, cols)
    decreases rows - l
  {
    if l + 1 < rows {
      OffsetFits(l + 1, rows, cols);
    }
  }

  /** Row-major cells as a graph. */
  function ToGraph(rows: nat, cols: nat, cells: seq<bool>): (g: Graph)
    requires |cells| == Offset(rows, cols)
    ensures g.WellFormed() && g.rhs == cols && |g.rows| == rows
    ensures forall l, r :: 0 <= l < rows && 0 <= r < cols ==>
      Offset(l, cols) + r < |cells| && g.Edge(l, r) == cells[Offset(l, cols) + r]
  {
    assert forall l :: 0 <= l < rows ==> Offset(l, cols) + cols <= |cells| by {
      forall l | 0 <= l < rows ensures Offset(l, cols) + cols <= |cells| { OffsetFits(l, rows, cols); }
    }
    Graph(cols, seq(rows, l requires 0 <= l < rows && Offset(l, cols) + cols <= |cells| =>
      cells[Offset(l, cols)..Offset(l, cols) + cols]))
  }

  ghost predicate Cleared(before: seq<bool>, now: seq<bool>, k: int) {
    && |before| == |now|
    && 0 <= k <= |before|
    && (forall i :: 0 <= i < k ==> before[i] && !now[i])
    && (forall i :: k <= i < |now| ==> now[i] == before[i])
  }

  class MatchMatrix {
    const numElements: nat
    const numMatchers: nat
    const matched: array<bool>

    ghost predicate Valid()
    {
      matched.Length == Offset(numElements, numMatchers)
    }

    /** The matrix as a graph. */
    ghost function Value(): (g: Graph)
      requires Valid()
      reads matched
      ensures g.WellFormed() && g.rhs == numMatchers && |g.rows| == numElements
    {
      ToGraph(numElements, numMatchers, matched[..])
    }

    constructor (numElements: nat, numMatchers: nat)
      ensures Valid() && fresh(matched)
      ensures this.numElements == numElements && this.numMatchers == numMatchers
      ensures forall i :: 0 <= i < matched.Length ==> !matched[i]
    {
      this.numElements := numElements;
      this.numMatchers := numMatchers;
      OffsetIsProduct(numElements, numMatchers);
      this.matched := new bool[numElements * numMatchers](_ => false);
    }

    function SpaceIndex(ilhs: nat, irhs: nat): (i: nat)
      requires Valid() && ilhs < numElements && irhs < numMatchers
      ensures i == Offset(ilhs, numMatchers) + irhs < matched.Length
    {
      OffsetIsProduct(ilhs, numMatchers);
      OffsetFits(ilhs, numElements, numMatchers);
      ilhs * numMatchers + irhs
    }

    function HasEdge(ilhs: nat, irhs: nat): (b: bool)
      requires Valid() && ilhs < numElements && irhs < numMatchers
      reads matched
      ensures b == Value().Edge(ilhs, irhs)
    {
      matched[SpaceIndex(ilhs, irhs)]
    }

    method SetEdge(ilhs: nat, irhs: nat, b: bool)
      requires Valid() && ilhs < numElements && irhs < numMatchers
      modifies matched
      ensures Offset(ilhs, numMatchers) + irhs < matched.Length
      ensures matched[..] == old(matched[..])[Offset(ilhs, numMatchers) + irhs := b]
    {
      matched[SpaceIndex(ilhs, irhs)] := b;
    }

    /** Adds one to the number the cells spell; returns false when it wrapped to zero. */
    method NextGraph() returns (more: bool)
      requires Valid()
      modifies matched
      ensures var n := LittleEndian(old(matched[..]));
        LittleEndian(matched[..]) == if n + 1 < Pow2(matched.Length) then n + 1 else 0
      ensures more <==> LittleEndian(matched[..]) != 0
    {
      ghost var before := matched[..];
      LittleEndianBound(before);
      for ilhs := 0 to numElements
        invariant Cleared(before, matched[..], Offset(ilhs, numMatchers))
      {
        OffsetFits(ilhs, numElements, numMatchers);
        for irhs := 0 to numMatchers
          invariant Cleared(before, matched[..], Offset(ilhs, numMatchers) + irhs)
        {
          var b := SpaceIndex(ilhs, irhs);
          if !matched[b] {
            matched[b] := true;
            Carry(before, matched[..], b);
            LittleEndianBound(matched[..]);
            return true;
          }
          matched[b] := false;
        }
      }
      Carry(before, matched[..], matched.Length);
      return false;
    }

    /** The loop of the exhaustive test: starting from the empty graph it meets every
      configuration of the edges exactly once before NextGraph returns false. */
    method VisitAllGraphs() returns (visited: seq<seq<bool>>)
      requires Valid() && forall i :: 0 <= i < matched.Length ==> !matched[i]
      modifies matched
      ensures forall i, j :: 0 <= i < j < |visited| ==> visited[i] != visited[j]
      ensures forall cells :: cells in visited <==> |cells| == matched.Length
      ensures forall i :: 0 <= i < matched.Length ==> !matched[i]
    {
      var more := true;
      visited := [];
      ZeroCells(matched[..]);
      while more
        invariant forall i :: 0 <= i < |visited| ==> |visited[i]| == matched.Length && LittleEndian(visited[i]) == i
        invariant LittleEndian(matched[..]) == if more then |visited| else 0
        invariant if more then |visited| < Pow2(matched.Length) else |visited| == Pow2(matched.Length)
        decreases more, Pow2(matched.Length) - |visited|
      {
        LittleEndianBound(matched[..]);
        visited := visited + [matched[..]];
        more := NextGraph();
      }
      forall cells: seq<bool> | |cells| == matched.Length
        ensures cells in visited
      {
        LittleEndianBound(cells);
        LittleEndianInjective(cells, visited[LittleEndian(cells)]);
      }
      ghost var zero := seq(matched.Length, _ => false);
      ZeroCells(zero);
      LittleEndianInjective(matched[..], zero);
    }
  }
}
