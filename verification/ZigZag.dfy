/** The ZigZag encoding of signed integers: numbers of small magnitude and either sign
  become small unsigned numbers, which take few bytes as varints.  A machine word is the
  row of its bits, two or more: the source has the functions at 32 and at 64 bits. */
module ZigZag {
  import opened BinaryNumbers

  type Word = w: seq<bool> | |w| > 1 witness [false, false]

  function Unsigned(w: Word): nat { LittleEndian(w) }

  predicate Negative(w: Word) { w[|w| - 1] }

  /** Two's complement. */
  function Signed(w: Word): int {
    LittleEndian(w) - if Negative(w) then Pow2(|w|) else 0
  }

  // ------------------------------------------------------------- machine operations

  function Fill(b: bool, n: nat): (w: seq<bool>)
    ensures |w| == n
  {
    seq(n, _ => b)
  }

  function ShiftLeft(w: Word, spaces: nat): (r: Word)
    requires spaces < |w|
    ensures |r| == |w|
  {
    Fill(false, spaces) + w[..|w| - spaces]
  }

  function ArithmeticRightShift(w: Word, spaces: nat): (r: Word)
    requires spaces < |w|
    ensures |r| == |w|
  {
    w[spaces..] + Fill(Negative(w), spaces)
  }

  function LogicalRightShift(w: Word, spaces: nat): (r: Word)
    requires spaces < |w|
    ensures |r| == |w|
  {
    w[spaces..] + Fill(false, spaces)
  }

  function Xor(v: Word, w: Word): (r: Word)
    requires |v| == |w|
    ensures |r| == |w|
  {
    seq(|w|, i requires 0 <= i < |w| => v[i] != w[i])
  }

  function LowestBit(w: Word): (r: Word)
    ensures |r| == |w|
  {
    [w[0]] + Fill(false, |w| - 1)
  }

  function Not(w: seq<bool>): (r: seq<bool>)
    ensures |r| == |w|
  {
    seq(|w|, i requires 0 <= i < |w| => !w[i])
  }

  /** One more, modulo the width. */
  function Increment(w: seq<bool>): (r: seq<bool>)
    ensures |r| == |w|
  {
    if w == [] then [] else if w[0] then [false] + Increment(w[1..]) else [true] + w[1..]
  }

  function Negate(w: Word): (r: Word)
    ensures |r| == |w|
  {
    Increment(Not(w))
  }

  // -------------------------------------------------------------------- the encoding

  function Encode(n: Word): (r: Word)
    ensures |r| == |n|
  {
    Xor(ShiftLeft(n, 1), ArithmeticRightShift(n, |n| - 1))
  }

  function Decode(n: Word): (r: Word)
    ensures |r| == |n|
  {
    Xor(LogicalRightShift(n, 1), Negate(LowestBit(n)))
  }

  lemma {:induction false} CarryRunsThrough(ones: seq<bool>)
    requires forall i :: 0 <= i < |ones| ==> ones[i]
    ensures forall i :: 0 <= i < |ones| ==> !Increment(ones)[i]
  {
    if ones != [] { CarryRunsThrough(ones[1..]); }
  }

  /** Minus a number that is 0 or 1 has all bits equal. */
  lemma NegatedBitFills(n: Word)
    ensures Negate(LowestBit(n)) == Fill(n[0], |n|)
  {
    CarryRunsThrough(Fill(true, |n|));
    assert !n[0] ==> Not(LowestBit(n)) == Fill(true, |n|);
    assert n[0] ==> Not(LowestBit(n))[1..] == Fill(true, |n| - 1);
  }

  /** Encoding and decoding are inverses, on all words. */
  lemma RoundTrips(n: Word)
    ensures Decode(Encode(n)) == n && Encode(Decode(n)) == n
  {
    NegatedBitFills(Encode(n));
    NegatedBitFills(n);
  }

  lemma {:induction false} Complement(w: seq<bool>)
    ensures LittleEndian(Not(w)) == Pow2(|w|) - 1 - LittleEndian(w)
  {
    if w != [] {
      assert Not(w)[1..] == Not(w[1..]);
      Complement(w[1..]);
    }
  }

  /** The top bit weighs half of what lies beyond the word. */
  lemma {:induction false} TopBit(w: seq<bool>)
    requires w != []
    ensures LittleEndian(w) == LittleEndian(w[..|w| - 1]) + if w[|w| - 1] then Pow2(|w| - 1) else 0
  {
    if |w| > 1 {
      TopBit(w[1..]);
      assert w[1..][..|w| - 2] == w[..|w| - 1][1..];
    }
  }

  /** Non-negative numbers become the even numbers and negative ones the odd numbers. */
  lemma EncodingAlternates(n: Word)
    ensures Unsigned(Encode(n)) == if Signed(n) >= 0 then 2 * Signed(n) else -2 * Signed(n) - 1
    ensures Signed(n) >= 0 <==> !Negative(n)
  {
    var low := n[..|n| - 1];
    TopBit(n);
    LittleEndianBound(low);
    Complement(low);
    assert Encode(n)[0] == Negative(n);
    assert Encode(n)[1..] == if Negative(n) then Not(low) else low;
  }

  /** A number fits j bits signed exactly when its encoding fits j bits unsigned. */
  lemma SmallStaysSmall(n: Word, j: nat)
    requires 0 < j
    ensures 0 - Pow2(j - 1) <= Signed(n) < Pow2(j - 1) <==> Unsigned(Encode(n)) < Pow2(j)
  {
    EncodingAlternates(n);
  }
}
