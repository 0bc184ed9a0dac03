/** Numbers as rows of binary digits, least significant digit first. */
module BinaryNumbers {

  function Pow2(n: nat): (p: nat)
    ensures p >= 1
  {
    if n == 0 then 1 else 2 * Pow2(n - 1)
  }

  /** The number whose binary digits are the cells, least significant cell first. */
  function LittleEndian(cells: seq<bool>): nat {
    if cells == [] then 0 else (if cells[0] then 1 else 0) + 2 * LittleEndian(cells[1..])
  }

  lemma {:induction false} LittleEndianBound(cells: seq<bool>)
    ensures LittleEndian(cells) < Pow2(|cells|)
  {
    if cells != [] {
      LittleEndianBound(cells[1..]);
    }
  }

  /** A matrix of given size is determined by its number. */
  lemma {:induction false} LittleEndianInjective(a: seq<bool>, b: seq<bool>)
    requires |a| == |b| && LittleEndian(a) == LittleEndian(b)
    ensures a == b
  {
    if a != [] {
      assert a[0] == b[0];
      LittleEndianInjective(a[1..], b[1..]);
      assert a == [a[0]] + a[1..] && b == [b[0]] + b[1..];
    }
  }

  lemma {:induction false} ZeroCells(cells: seq<bool>)
    requires forall i :: 0 <= i < |cells| ==> !cells[i]
    ensures LittleEndian(cells) == 0
  {
    if cells != [] {
      ZeroCells(cells[1..]);
    }
  }

  /** Clearing the k leading ones and setting the cell after them adds one; when all
    cells were one, the number was the largest and wraps round to zero. */
  lemma {:induction false} Carry(old_: seq<bool>, new_: seq<bool>, k: nat)
    requires |old_| == |new_| && k <= |old_|
    requires forall i :: 0 <= i < k ==> old_[i] && !new_[i]
    requires k < |old_| ==> !old_[k] && new_[k] && old_[k + 1..] == new_[k + 1..]
    ensures k < |old_| ==> LittleEndian(new_) == LittleEndian(old_) + 1
    ensures k == |old_| ==> LittleEndian(new_) == 0 && LittleEndian(old_) == Pow2(|old_|) - 1
  {
    if k > 0 {
      if k < |old_| {
        assert old_[1..][k..] == old_[k + 1..] && new_[1..][k..] == new_[k + 1..];
      }
      Carry(old_[1..], new_[1..], k - 1);
    }
  }
}
