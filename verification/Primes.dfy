/** The prime tables of the samples and their agreement.  Integers are unbounded. */
module Primes {

  predicate Divides(d: int, n: int)
    requires d != 0
  {
    n % d == 0
  }

  /** Primality, independent of any of the ways in which it is tested. */
  ghost predicate IsPrimeNumber(n: int) {
    n >= 2 && forall d :: 2 <= d < n ==> !Divides(d, n)
  }

  /** No divisor of n lies in [2, bound). */
  ghost predicate NoDivisorBelow(n: int, bound: int) {
    forall d :: 2 <= d < bound ==> !Divides(d, n)
  }

  // ------------------------------------------------------------ divisibility

  lemma Distributes(d: int, a: int)
    ensures d * (a + 1) == d * a + d
  {
  }

  lemma {:induction false} MulGrows(d: int, a: int, k: int)
    requires d > 0 && k >= 1
    ensures d * a + d <= d * (a + k)
    decreases k
  {
    if k == 1 {
      Distributes(d, a);
    } else {
      MulGrows(d, a, k - 1);
      Distributes(d, a + k - 1);
    }
  }

  lemma MulStrict(d: int, a: int, b: int)
    requires d > 0
    ensures a < b ==> d * a + d <= d * b
  {
    if a < b {
      MulGrows(d, a, b - a);
    }
  }

  lemma DividesFactor(d: int, q: int)
    requires d > 0
    ensures Divides(d, d * q)
  {
    var k, r := (d * q) / d, (d * q) % d;
    assert d * q == d * k + r && 0 <= r < d;
    MulStrict(d, k, q);
    MulStrict(d, q, k);
  }

  lemma QuotientExact(d: int, n: int)
    requires d > 0 && Divides(d, n)
    ensures n == d * (n / d)
  {
  }

  lemma MulAssociates(a: int, b: int, c: int)
    ensures a * b * c == a * (b * c)
  {
  }

  lemma DividesTransitive(d: int, e: int, n: int)
    requires d > 0 && e > 0 && Divides(d, e) && Divides(e, n)
    ensures Divides(d, n)
  {
    QuotientExact(d, e);
    QuotientExact(e, n);
    assert n == d * ((e / d) * (n / e)) by { MulAssociates(d, e / d, n / e); }
    DividesFactor(d, (e / d) * (n / e));
  }

  lemma DividesDifference(d: int, a: int, b: int)
    requires d > 0 && Divides(d, a) && Divides(d, b)
    ensures Divides(d, a - b)
  {
    QuotientExact(d, a);
    QuotientExact(d, b);
    assert a - b == d * (a / d - b / d);
    DividesFactor(d, a / d - b / d);
  }

  lemma MulMonotone(a: int, b: int, c: int, d: int)
    requires 0 <= a <= c && 0 <= b <= d
    ensures a * b <= c * d
  {
    assert a * b <= c * b;
    assert c * b <= c * d;
  }

  /** The other factor is a divisor as well. */
  lemma Cofactor(n: int, d: int)
    requires 2 <= d < n && Divides(d, n)
    ensures 2 <= n / d < n && Divides(n / d, n) && n == d * (n / d)
  {
    QuotientExact(d, n);
    var q := n / d;
    MulStrict(d, q, 2);
    MulStrict(d, q, 1);
    MulMonotone(2, q, d, q);
    DividesFactor(q, d);
  }

  /** A number without divisors up to its square root is prime. */
  lemma NoSmallDivisor(n: int, bound: int)
    requires n >= 2 && bound >= 1 && bound * bound > n && NoDivisorBelow(n, bound)
    ensures IsPrimeNumber(n)
  {
    forall d | 2 <= d < n
      ensures !Divides(d, n)
    {
      if Divides(d, n) {
        Cofactor(n, d);
        if bound <= d {
          var q := n / d;
          if bound <= q { MulMonotone(bound, bound, d, q); }
        }
      }
    }
  }

  // ------------------------------------------------- there is always a next prime

  lemma {:induction false} PrimeDivisor(n: int) returns (p: int)
    requires n >= 2
    ensures IsPrimeNumber(p) && p <= n && Divides(p, n)
    decreases n
  {
    if IsPrimeNumber(n) {
      p := n;
      assert n == n * 1;
      DividesFactor(n, 1);
    } else {
      var d :| 2 <= d < n && Divides(d, n);
      p := PrimeDivisor(d);
      DividesTransitive(p, d, n);
    }
  }

  ghost function Factorial(n: nat): (f: int)
    ensures f >= 1
  {
    if n == 0 then 1 else MulMonotone(1, 1, n, Factorial(n - 1)); n * Factorial(n - 1)
  }

  lemma {:induction false} DividesFactorial(d: int, n: nat)
    requires 1 <= d <= n
    ensures Divides(d, Factorial(n))
  {
    if d == n {
      DividesFactor(n, Factorial(n - 1));
    } else {
      DividesFactorial(d, n - 1);
      assert Factorial(n) == Factorial(n - 1) * n;
      DividesFactor(Factorial(n - 1), n);
      DividesTransitive(d, Factorial(n - 1), Factorial(n));
    }
  }

  /** Euclid's theorem: a prime divisor of n! + 1 exceeds n. */
  lemma PrimeAbove(n: nat) returns (p: int)
    ensures IsPrimeNumber(p) && p > n
  {
    p := PrimeDivisor(Factorial(n) + 1);
    if p <= n {
      DividesFactorial(p, n);
      DividesDifference(p, Factorial(n) + 1, Factorial(n));
      assert false;
    }
  }

  /** q is the smallest prime greater than p. */
  ghost predicate IsNextPrime(p: int, q: int) {
    IsPrimeNumber(q) && q > p && forall r :: p < r < q ==> !IsPrimeNumber(r)
  }

  // ------------------------------------------------------------- the three tests

  lemma EvenDivisor(d: int, n: int)
    requires d > 0 && Divides(2, d) && Divides(d, n)
    ensures Divides(2, n)
  {
    DividesTransitive(2, d, n);
  }

  lemma SquareAboveQuotient(n: int, i: int)
    requires i > 0 && n >= 0 && i > n / i
    ensures i * i > n
  {
    MulMonotone(i, n / i, i, i - 1);
    Distributes(i, i - 1);
  }

  lemma QuotientBelow(n: int, i: int)
    requires 2 <= i <= n / i
    ensures i < n
  {
    MulMonotone(i, 2, i, n / i);
  }

  /** Trial division by 2 and by odd numbers only. */
  method IsPrime(n: int) returns (b: bool)
    ensures b <==> IsPrimeNumber(n)
  {
    if n <= 1 { return false; }
    if n % 2 == 0 {
      assert Divides(2, n);
      return n == 2;
    }
    var i := 3;
    while true
      invariant 3 <= i && i % 2 == 1 && NoDivisorBelow(n, i)
      decreases n - i
    {
      if i > n / i { break; }
      QuotientBelow(n, i);
      if n % i == 0 {
        assert Divides(i, n);
        return false;
      }
      assert !Divides(i + 1, n) by {
        assert Divides(2, i + 1) && !Divides(2, n);
        if Divides(i + 1, n) { EvenDivisor(i + 1, n); }
      }
      i := i + 2;
    }
    SquareAboveQuotient(n, i);
    NoSmallDivisor(n, i);
    return true;
  }

  class OnTheFlyPrimeTable {
    constructor () {}

    method IsPrime(n: int) returns (b: bool)
      ensures b <==> IsPrimeNumber(n)
    {
      if n <= 1 { return false; }
      var i := 2;
      while i * i <= n
        invariant 2 <= i <= n + 1 && NoDivisorBelow(n, i)
        decreases n - i
      {
        MulMonotone(i, 2, i, i);
        if n % i == 0 {
          assert Divides(i, n);
          return false;
        }
        i := i + 1;
      }
      NoSmallDivisor(n, i);
      return true;
    }

    /** The next prime, for every p that is not negative; for a negative p the loop is not
      entered and -1 comes back although 2 is the next prime. */
    method GetNextPrime(p: int) returns (q: int)
      ensures IsNextPrime(p, q) <==> p >= 0
      ensures p < 0 ==> q == -1
    {
      var n := p + 1;
      ghost var bound := 0;
      if p >= 0 { bound := PrimeAbove(p); }
      while n > 0
        invariant p >= 0 ==> p < n <= bound && forall r :: p < r < n ==> !IsPrimeNumber(r)
        invariant p < 0 ==> n <= 0
        decreases bound - n
      {
        var prime := IsPrime(n);
        if prime { return n; }
        n := n + 1;
      }
      return -1;
    }
  }

  /** The sieve after all numbers below i have been dealt with: n is still marked. */
  ghost predicate Survives(n: int, i: int) {
    n >= 2 && forall d :: 2 <= d < i && d < n ==> !Divides(d, n)
  }

  lemma CompositeAddsNothing(i: int, n: int)
    requires 2 <= i && !Survives(i, i)
    ensures Survives(n, i) <==> Survives(n, i + 1)
  {
    var e :| 2 <= e < i && Divides(e, i);
    if i < n && Divides(i, n) {
      DividesTransitive(e, i, n);
    }
  }

  /** Between two successive multiples of i there is no further one. */
  lemma MultiplesAreSpaced(i: int, m: int, n: int)
    requires i > 0 && i * m <= n < i * m + i && Divides(i, n)
    ensures n == i * m
  {
    QuotientExact(i, n);
    MulStrict(i, m, n / i);
    MulStrict(i, n / i, m);
  }

  lemma NoMultipleBelowDouble(i: int, k: int)
    requires 0 < i < k < 2 * i
    ensures !Divides(i, k)
  {
    if Divides(i, k) {
      MultiplesAreSpaced(i, 1, k);
    }
  }

  /** What the table promises for p. */
  ghost predicate IsTableAnswer(p: int, size: int, r: int) {
    if exists x :: p < x < size && IsPrimeNumber(x) then IsNextPrime(p, r) && r < size else r == -1
  }

  class PreCalculatedPrimeTable {
    const isPrimeSize: int
    const isPrime: array<bool>

    ghost predicate Valid()
      reads isPrime
    {
      isPrime.Length == isPrimeSize && forall k :: 0 <= k < isPrimeSize ==> (isPrime[k] <==> IsPrimeNumber(k))
    }

    /** Marks all multiples of i (except i itself) as non-prime. */
    static method MarkMultiples(isPrime: array<bool>, max: int, i: int)
      requires 2 <= i <= max && isPrime.Length == max + 1
      requires forall k :: 0 <= k <= max ==> (isPrime[k] <==> Survives(k, i))
      modifies isPrime
      ensures forall k :: 0 <= k <= max ==> (isPrime[k] <==> Survives(k, i + 1))
    {
      var j := 2 * i;
      ghost var m := 2;
      forall k | i < k < j ensures !Divides(i, k) { NoMultipleBelowDouble(i, k); }
      while j <= max
        invariant j == i * m && m >= 2
        invariant forall k :: 0 <= k <= max ==> (isPrime[k] <==> Survives(k, i) && !(i < k < j && Divides(i, k)))
        decreases max - j
      {
        DividesFactor(i, m);
        forall k | j <= k < j + i && Divides(i, k) ensures k == j { MultiplesAreSpaced(i, m, k); }
        Distributes(i, m);
        isPrime[j] := false;
        j := j + i;
        m := m + 1;
      }
    }

    /** The sieve marks exactly the primes. */
    static method CalculatePrimesUpTo(isPrime: array<bool>, max: int)
      requires max >= 1 && isPrime.Length == max + 1
      modifies isPrime
      ensures forall k :: 0 <= k <= max ==> (isPrime[k] <==> IsPrimeNumber(k))
    {
      for k := 0 to isPrime.Length
        invariant forall x :: 0 <= x < k ==> isPrime[x]
      {
        isPrime[k] := true;
      }
      isPrime[0], isPrime[1] := false, false;
      for i := 2 to max + 1
        invariant forall k :: 0 <= k <= max ==> (isPrime[k] <==> Survives(k, i))
      {
        if !isPrime[i] {
          forall k | 0 <= k <= max ensures Survives(k, i) <==> Survives(k, i + 1) { CompositeAddsNothing(i, k); }
          continue;
        }
        MarkMultiples(isPrime, max, i);
      }
    }

    constructor (max: int)
      requires max >= 1
      ensures Valid() && isPrimeSize == max + 1 && fresh(isPrime)
    {
      isPrimeSize := max + 1;
      isPrime := new bool[max + 1];
      new;
      CalculatePrimesUpTo(isPrime, max);
    }

    method IsPrime(n: int) returns (b: bool)
      requires Valid()
      ensures b <==> IsPrimeNumber(n) && n < isPrimeSize
    {
      b := 0 <= n && n < isPrimeSize && isPrime[n];
    }

    /** The next prime if the table holds it, and -1 exactly when it does not. */
    method GetNextPrime(p: int) returns (q: int)
      requires Valid() && p >= -1
      ensures IsTableAnswer(p, isPrimeSize, q)
    {
      var n := p + 1;
      while n < isPrimeSize
        invariant p < n && forall r :: p < r < n && r < isPrimeSize ==> !IsPrimeNumber(r)
        decreases isPrimeSize - n
      {
        if isPrime[n] { return n; }
        n := n + 1;
      }
      return -1;
    }
  }

  /** Whatever meets the promise of the interface is the same number. */
  lemma NextPrimeIsUnique(p: int, q: int, r: int)
    requires IsNextPrime(p, q) && IsNextPrime(p, r)
    ensures q == r
  {
  }

  /** The two tables agree on the next prime up to the capacity of the second. */
  lemma TablesAgree(p: int, size: int, q: int, r: int)
    requires IsNextPrime(p, q) && IsTableAnswer(p, size, r)
    ensures r == if q < size then q else -1
  {
    if q < size {
      assert IsPrimeNumber(q);
      NextPrimeIsUnique(p, q, r);
    }
  }
}
