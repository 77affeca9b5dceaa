/**
  Prime numbers: small divisors, prime divisors, and that there are always more primes.
 */
module PrimeNumbers {

  predicate Divides(d: nat, n: nat)
    requires d > 0
  {
    n % d == 0
  }

  ghost predicate Prime(n: int) {
    n >= 2 && forall d: nat :: 2 <= d < n ==> !Divides(d, n)
  }

  /** q is the least prime number greater than p. */
  ghost predicate IsNextPrime(p: int, q: int) {
    p < q && Prime(q) && forall k :: p < k < q ==> !Prime(k)
  }

  lemma NextPrimeIsUnique(p: int, q: int, r: int)
    requires IsNextPrime(p, q) && IsNextPrime(p, r)
    ensures q == r
  {
  }

  // ---- divisors --------------------------------------------------------------------

  lemma QuotientOf(d: nat, q: nat, n: nat)
    requires d > 0 && n == d * q
    ensures Divides(d, n) && n / d == q
  {
    assert n == d * q + 0;
    UniqueQuotient(d, q, 0, n);
  }

  lemma UniqueQuotient(d: nat, q: int, r: nat, n: int)
    requires r < d && n == d * q + r
    ensures n / d == q && n % d == r
  {
    SameQuotient(d, q, r, n / d, n % d);
  }

  lemma SameQuotient(d: nat, q: int, r: nat, q': int, r': nat)
    requires r < d && r' < d && d * q + r == d * q' + r'
    ensures q == q' && r == r'
  {
    if q > q' {
      Spread(d, q, q');
    } else if q < q' {
      Spread(d, q', q);
    }
  }

  lemma Spread(d: nat, a: int, b: int)
    requires a > b
    ensures d * a >= d * b + d
  {
    var k: nat := a - b - 1;
    assert d * a == d * (b + 1 + k) == d * b + d + d * k;
  }

  lemma DividesTransitive(a: nat, b: nat, c: nat)
    requires a > 0 && b > 0 && Divides(a, b) && Divides(b, c)
    ensures Divides(a, c)
  {
    var q, r := b / a, c / b;
    assert b == a * q && c == b * r;
    assert c == a * (q * r);
    QuotientOf(a, q * r, c);
  }

  lemma DividesDifference(d: nat, a: nat, b: nat)
    requires d > 0 && a <= b && Divides(d, a) && Divides(d, b)
    ensures Divides(d, b - a)
  {
    var q, r := a / d, b / d;
    assert b - a == d * (r - q);
    UniqueQuotient(d, r - q, 0, b - a);
  }

  lemma SquaresGrow(a: nat, b: nat)
    ensures a <= b <==> a * a <= b * b
  {
    if a <= b {
      assert a * a <= a * b <= b * b;
    } else {
      assert b * b <= a * b < a * a;
    }
  }

  lemma CoDivisor(d: nat, n: nat) returns (q: nat)
    requires 2 <= d < n && Divides(d, n)
    ensures q >= 2 && n == d * q && Divides(q, n)
  {
    q := n / d;
    assert n == d * q;
    assert q != 0 && q != 1;
    QuotientOf(q, d, n);
  }

  lemma SquareBelow(a: nat, b: nat)
    requires a <= b
    ensures a * a <= a * b
  {
  }

  /** A number that is not prime has a divisor up to its square root. */
  lemma SmallDivisor(n: nat) returns (d: nat)
    requires n >= 2 && !Prime(n)
    ensures 2 <= d && d * d <= n && Divides(d, n)
  {
    d :| 2 <= d < n && Divides(d, n);
    var q := CoDivisor(d, n);
    hide *;
    if d <= q {
      SquareBelow(d, q);
    } else {
      SquareBelow(q, d);
      d := q;
    }
  }

  lemma {:induction false} PrimeDivisor(n: nat) returns (p: nat)
    requires n >= 2
    ensures Prime(p) && Divides(p, n)
    decreases n
  {
    if Prime(n) {
      p := n;
    } else {
      var d: nat :| 2 <= d < n && Divides(d, n);
      p := PrimeDivisor(d);
      DividesTransitive(p, d, n);
    }
  }

  function Factorial(n: nat): (f: nat)
    ensures f > 0
  {
    if n == 0 then 1 else n * Factorial(n - 1)
  }

  lemma {:induction false} DividesFactorial(d: nat, n: nat)
    requires 0 < d <= n
    ensures Divides(d, Factorial(n))
  {
    if d == n {
      QuotientOf(d, Factorial(n - 1), Factorial(n));
    } else {
      DividesFactorial(d, n - 1);
      var q := Factorial(n - 1) / d;
      assert Factorial(n) == d * (n * q);
      QuotientOf(d, n * q, Factorial(n));
    }
  }

  /** There is a prime above every number. */
  lemma PrimeAbove(n: nat) returns (p: nat)
    ensures Prime(p) && p > n
  {
    p := PrimeDivisor(Factorial(n) + 1);
    if p <= n {
      DividesFactorial(p, n);
      DividesDifference(p, Factorial(n), Factorial(n) + 1);
      assert false;
    }
  }
}
