/**
  The prime tables: trial division, the sieve, and the two combined. They agree with
  each other because each agrees with the definition of a prime number.
 */
module PrimeTables {
  import opened PrimeNumbers

  // ---- trial division ------------------------------------------------------------------

  /** No divisor below i. */
  ghost predicate NoDivisorBelow(n: nat, i: nat) {
    forall d: nat :: 2 <= d < i ==> !Divides(d, n)
  }

  lemma TriedEnough(n: nat, i: nat)
    requires n >= 2 && NoDivisorBelow(n, i) && i * i > n
    ensures Prime(n)
  {
    if !Prime(n) {
      var d := SmallDivisor(n);
      SquaresGrow(i, d);
    }
  }

  class OnTheFlyPrimeTable {
    constructor () {}

    method IsPrime(n: int) returns (isPrime: bool)
      ensures isPrime <==> Prime(n)
    {
      if n <= 1 {
        return false;
      }
      var i := 2;
      while i * i <= n
        invariant i >= 2 && NoDivisorBelow(n, i)
        decreases n - i
      {
        assert i * i >= 2 * i;
        if n % i == 0 {
          assert Divides(i, n);
          return false;
        }
        i := i + 1;
      }
      TriedEnough(n, i);
      return true;
    }

    /** The loop has no bound; it ends because there is always another prime. */
    method GetNextPrime(p: int) returns (next: int)
      ensures if p < 0 then next == -1 else IsNextPrime(p, next)
    {
      if p < 0 {
        return -1;
      }
      ghost var bound := PrimeAbove(p);
      var n := p + 1;
      while true
        invariant p < n <= bound && forall k :: p < k < n ==> !Prime(k)
        decreases bound - n
      {
        var isPrime := IsPrime(n);
        if isPrime {
          return n;
        }
        n := n + 1;
      }
    }
  }

  lemma OddHasNoEvenDivisor(n: nat, d: nat)
    requires n % 2 == 1 && d >= 2 && d % 2 == 0
    ensures !Divides(d, n)
  {
    if Divides(d, n) {
      assert Divides(2, d);
      DividesTransitive(2, d, n);
    }
  }

  lemma QuotientBelow(n: nat, i: nat)
    requires i > 0
    ensures i > n / i <==> i * i > n
  {
    var q, r := n / i, n % i;
    assert n == i * q + r;
    if i > q {
      Spread(i, i, q);
    } else {
      SquareBelow(i, q);
    }
  }

  /** Trial division by two and then by odd numbers only. */
  method IsPrime(n: int) returns (isPrime: bool)
    ensures isPrime <==> Prime(n)
  {
    if n <= 1 {
      return false;
    }
    if n % 2 == 0 {
      assert Divides(2, n);
      return n == 2;
    }
    var i := 3;
    while true
      invariant i >= 3 && i % 2 == 1 && NoDivisorBelow(n, i)
      decreases n - i
    {
      QuotientBelow(n, i);
      if i > n / i {
        break;
      }
      assert i * i >= 3 * i;
      if n % i == 0 {
        assert Divides(i, n);
        return false;
      }
      OddHasNoEvenDivisor(n, i + 1);
      assert NoDivisorBelow(n, i + 2) by {
        assert !Divides(i, n) && !Divides(i + 1, n);
      }
      i := i + 2;
    }
    TriedEnough(n, i);
    return true;
  }

  // ---- the sieve -----------------------------------------------------------------------------

  /** What the sieve leaves standing when candidates below i are done: nothing up to the
      root of n divides it. */
  ghost predicate Unmarked(n: int, i: nat) {
    n >= 2 && forall d: nat :: 2 <= d < i && d * d <= n ==> !Divides(d, n)
  }

  lemma UnmarkedIsPrime(n: int, i: nat)
    requires i * i > n
    ensures Unmarked(n, i) <==> Prime(n)
  {
    if Prime(n) {
      forall d: nat | 2 <= d < i && d * d <= n ensures !Divides(d, n) {
        assert d * d >= 2 * d;
      }
    } else if n >= 2 {
      var d := SmallDivisor(n);
      SquaresGrow(i, d);
    }
  }

  lemma UnmarkedNext(n: int, i: nat)
    requires i >= 2
    ensures Unmarked(n, i + 1) <==> Unmarked(n, i) && !(i * i <= n && Divides(i, n))
  {
  }

  /** Candidates that are marked can be skipped: a smaller divisor has marked their multiples. */
  lemma CompositeMarksNothing(n: int, i: nat)
    requires i >= 2 && !Unmarked(i, i)
    ensures Unmarked(n, i + 1) <==> Unmarked(n, i)
  {
    UnmarkedNext(n, i);
    if Unmarked(n, i) && i * i <= n && Divides(i, n) {
      var d: nat :| 2 <= d < i && d * d <= i && Divides(d, i);
      DividesTransitive(d, i, n);
      SquaresGrow(d, i);
      assert false;
    }
  }

  /** Even candidates after two can be skipped, too. */
  lemma EvenMarksNothing(n: int, i: nat)
    requires i > 2 && i % 2 == 0
    ensures Unmarked(n, i + 1) <==> Unmarked(n, i)
  {
    assert Divides(2, i) && 2 * 2 <= i;
    CompositeMarksNothing(n, i);
  }

  lemma MultiplesApart(i: nat, m: nat, n: nat)
    requires i > 0 && i * m <= n < i * m + i && Divides(i, n)
    ensures n == i * m
  {
    SameQuotient(i, m, n - i * m, n / i, 0);
  }

  class PreCalculatedPrimeTable {
    const isPrimeSize: int
    const isPrime: array<bool>

    /** The table says which numbers up to its maximum are prime. */
    ghost predicate Valid()
      reads isPrime
    {
      && isPrimeSize == isPrime.Length > 1
      && forall n :: 0 <= n < isPrimeSize ==> (isPrime[n] <==> Prime(n))
    }

    constructor (max: int)
      requires max >= 1
      ensures Valid() && fresh(isPrime) && isPrimeSize == max + 1
    {
      var size := if max + 1 > 1 then max + 1 else 1;
      isPrimeSize := size;
      isPrime := new bool[size];
      new;
      CalculatePrimesUpTo(isPrimeSize - 1);
    }

    method CalculatePrimesUpTo(max: int)
      requires max >= 1 && isPrimeSize == isPrime.Length == max + 1
      modifies isPrime
      ensures Valid()
    {
      forall n | 0 <= n < isPrimeSize {
        isPrime[n] := true;
      }
      isPrime[0], isPrime[1] := false, false;
      var i := 2;
      while i * i <= max
        invariant i == 2 || (i > 2 && i % 2 == 1)
        invariant forall n :: 0 <= n <= max ==> (isPrime[n] <==> Unmarked(n, i))
        decreases max - i
      {
        assert i * i >= 2 * i;
        if isPrime[i] {
          MarkMultiples(max, i);
        } else {
          forall n | 0 <= n <= max ensures isPrime[n] <==> Unmarked(n, i + 1) {
            CompositeMarksNothing(n, i);
          }
        }
        if i % 2 == 1 {
          forall n | 0 <= n <= max ensures isPrime[n] <==> Unmarked(n, i + 2) {
            EvenMarksNothing(n, i + 1);
          }
        }
        i := i + (i % 2 + 1);
      }
      forall n | 0 <= n <= max ensures isPrime[n] <==> Prime(n) {
        UnmarkedIsPrime(n, i);
      }
    }

    /** Marks the multiples of i from its square on; smaller ones are marked already. */
    method MarkMultiples(max: int, i: int)
      requires i >= 2 && isPrime.Length == max + 1
      requires forall n :: 0 <= n <= max ==> (isPrime[n] <==> Unmarked(n, i))
      modifies isPrime
      ensures forall n :: 0 <= n <= max ==> (isPrime[n] <==> Unmarked(n, i + 1))
    {
      var j := i * i;
      ghost var m := i;
      while j <= max
        invariant m >= i && j == i * m
        invariant forall n :: 0 <= n <= max ==> (isPrime[n] <==> Unmarked(n, i) && !(i * i <= n < j && Divides(i, n)))
        decreases max - j
      {
        isPrime[j] := false;
        QuotientOf(i, m, j);
        forall n | j <= n < j + i && Divides(i, n) ensures n == j {
          MultiplesApart(i, m, n);
        }
        j := j + i;
        m := m + 1;
      }
      forall n | 0 <= n <= max ensures isPrime[n] <==> Unmarked(n, i + 1) {
        UnmarkedNext(n, i);
      }
    }

    method IsPrime(n: int) returns (r: bool)
      requires Valid()
      ensures r <==> n < isPrimeSize && Prime(n)
    {
      r := 0 <= n && n < isPrimeSize && isPrime[n];
    }

    /** The next prime, if the table reaches that far. */
    method GetNextPrime(p: int) returns (next: int)
      requires Valid() && p >= -1
      ensures if next == -1 then forall k :: p < k < isPrimeSize ==> !Prime(k)
              else next < isPrimeSize && IsNextPrime(p, next)
    {
      var n := p + 1;
      while n < isPrimeSize
        invariant n > p && forall k :: p < k < n && k < isPrimeSize ==> !Prime(k)
      {
        if isPrime[n] {
          return n;
        }
        n := n + 1;
      }
      return -1;
    }
  }

  // ---- both combined ----------------------------------------------------------------------------

  class HybridPrimeTable {
    const onTheFlyImpl: OnTheFlyPrimeTable
    const precalcImpl: PreCalculatedPrimeTable?
    const maxPrecalculated: int

    ghost predicate Valid()
      reads if precalcImpl == null then {} else {precalcImpl.isPrime}
    {
      precalcImpl != null ==> precalcImpl.Valid() && precalcImpl.isPrimeSize == maxPrecalculated + 1
    }

    constructor (forceOnTheFly: bool, maxPrecalculated: int)
      requires forceOnTheFly || maxPrecalculated >= 1
      ensures Valid() && this.maxPrecalculated == maxPrecalculated && (precalcImpl == null <==> forceOnTheFly)
    {
      onTheFlyImpl := new OnTheFlyPrimeTable();
      if forceOnTheFly {
        precalcImpl := null;
      } else {
        precalcImpl := new PreCalculatedPrimeTable(maxPrecalculated);
      }
      this.maxPrecalculated := maxPrecalculated;
    }

    /** Whichever implementation is asked, the answer is the same. */
    method IsPrime(n: int) returns (r: bool)
      requires Valid()
      ensures r <==> Prime(n)
    {
      if precalcImpl != null && n < maxPrecalculated {
        r := precalcImpl.IsPrime(n);
      } else {
        r := onTheFlyImpl.IsPrime(n);
      }
    }

    /** Only below zero, where nothing is searched for on the fly, does the table show. */
    method GetNextPrime(p: int) returns (next: int)
      requires Valid() && (precalcImpl == null || p >= -1)
      ensures p >= 0 ==> IsNextPrime(p, next)
      ensures p < 0 ==> next == if precalcImpl != null && maxPrecalculated >= 2 then 2 else -1
    {
      next := -1;
      if precalcImpl != null && p < maxPrecalculated {
        next := precalcImpl.GetNextPrime(p);
      }
      TwoIsPrime();
      if next == -1 {
        next := onTheFlyImpl.GetNextPrime(p);
      }
    }
  }

  lemma TwoIsPrime()
    ensures IsNextPrime(-1, 2)
  {
  }
}
