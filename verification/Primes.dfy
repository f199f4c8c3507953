/**
 The two primality tests of the benchmark, and the prime-counting function its score is
 compared with.
 */
module Primes {
  predicate Divides(d: nat, n: nat)
    requires d > 0
  {
    n % d == 0
  }

  predicate IsPrime(n: nat) {
    n >= 2 && forall d {:trigger Divides(d, n)} :: 2 <= d < n ==> !Divides(d, n)
  }

  /** The number of primes in [2, n]. */
  function Pi(n: nat): nat {
    if n < 2 then 0 else Pi(n - 1) + if IsPrime(n) then 1 else 0
  }

  /** Where the trial loop stops: at the first divisor from i on, or at sup. */
  function LoopEnd(n: nat, i: nat, sup: nat): (e: nat)
    requires i >= 2
    ensures e >= i && (e < sup ==> Divides(e, n)) && (e == i || e <= sup)
    ensures forall d {:trigger Divides(d, n)} :: i <= d < e ==> !Divides(d, n)
    decreases sup - i
  {
    if i < sup && n % i != 0 then LoopEnd(n, i + 1, sup) else i
  }

  function SlowVerdict(n: nat): bool {
    n == LoopEnd(n, 2, n)
  }

  function FastVerdict(n: nat, sup: nat): bool {
    n % LoopEnd(n, 2, sup) != 0
  }

  method TrialLoop(n: nat, sup: nat) returns (i: nat)
    ensures i == LoopEnd(n, 2, sup) && i >= 2
  {
    i := 2;
    while i < sup && n % i != 0
      invariant i >= 2 && LoopEnd(n, i, sup) == LoopEnd(n, 2, sup)
      decreases sup - i
    {
      i := i + 1;
    }
  }

  /** Slow mode: the trial loop runs up to the number itself. */
  method SlowTest(n: nat) returns (prime: bool)
    ensures prime == IsPrime(n)
  {
    var i := TrialLoop(n, n);
    prime := n == i;
    SlowDecides(n);
  }

  /** Fast mode: the trial loop runs up to a bound, which stands for the truncated square root. */
  method FastTest(n: nat, sup: nat) returns (prime: bool)
    requires n >= 3 && Admissible(n, sup)
    ensures prime == IsPrime(n)
  {
    var i := TrialLoop(n, sup);
    prime := n % i != 0;
    FastDecides(n, sup);
  }

  lemma SlowDecides(n: nat)
    ensures SlowVerdict(n) == IsPrime(n)
  {
    if n >= 2 {
      var e := LoopEnd(n, 2, n);
      if e < n {
        assert Divides(e, n);
      }
    }
  }

  /** n has a divisor in [2, max(2, bound)]. */
  ghost predicate HasDivisorUpTo(n: nat, bound: nat) {
    exists d {:trigger Divides(d, n)} :: 2 <= d && (d == 2 || d <= bound) && Divides(d, n)
  }

  /**
   For which bounds the fast test is right: a prime must lie above the bound, a composite
   must have a divisor that the loop reaches.
   */
  lemma FastRightIff(n: nat, sup: nat)
    requires n >= 3
    ensures FastVerdict(n, sup) == IsPrime(n) <==>
      if IsPrime(n) then sup < n else HasDivisorUpTo(n, sup)
  {
    var e := LoopEnd(n, 2, sup);
    if IsPrime(n) {
      if e < n {
        assert !Divides(e, n);
      } else if sup >= n {
        assert e == n || Divides(n, n);
        NoDivisorPast(n, sup);
      }
    } else if HasDivisorUpTo(n, sup) {
      var d :| 2 <= d && (d == 2 || d <= sup) && Divides(d, n);
      assert e <= d;
      if e == sup {
        assert d == e;
      }
    } else {
      assert Divides(e, n) ==> HasDivisorUpTo(n, sup);
    }
  }

  lemma NoDivisorPast(n: nat, sup: nat)
    requires n >= 2 && sup >= n
    ensures LoopEnd(n, 2, sup) <= n
  {
    assert Divides(n, n);
  }

  /** The bound lies between the integer square root and the number. */
  predicate Admissible(n: nat, sup: nat) {
    sup < n && n < (sup + 1) * (sup + 1)
  }

  /** The truncated square root is such a bound. */
  lemma RootAdmissible(n: nat, root: nat)
    requires n >= 2 && root * root <= n < (root + 1) * (root + 1)
    ensures Admissible(n, root)
  {
    if root >= n {
      Product(root, root, n, 2);
    }
  }

  /** A composite number has a divisor that is no larger than its square root. */
  lemma SmallDivisor(n: nat, sup: nat)
    requires n >= 3 && Admissible(n, sup) && !IsPrime(n)
    ensures HasDivisorUpTo(n, sup)
  {
    var d :| 2 <= d < n && Divides(d, n);
    var q := n / d;
    assert n == d * q;
    if d > sup {
      OneIsSmall(d, q, sup);
      DivisorOf(q, d, n);
    }
  }

  lemma OneIsSmall(d: nat, q: nat, sup: nat)
    requires d * q < (sup + 1) * (sup + 1)
    ensures d <= sup || q <= sup
  {
    if d > sup && q > sup {
      Product(d, q, sup + 1, sup + 1);
      assert false;
    }
  }

  lemma DivisorOf(q: nat, d: nat, n: nat)
    requires n == d * q && 2 <= d < n
    ensures 2 <= q && Divides(q, n)
  {
    Multiple(d, q);
  }

  lemma Multiple(d: nat, q: nat)
    requires q > 0
    ensures (d * q) % q == 0
  {
    var k, r := d * q / q, d * q % q;
    assert (d - k) * q == r;
    if d - k >= 1 {
      Product(d - k, q, 1, q);
    } else if d - k <= -1 {
      Product(k - d, q, 1, q);
    }
  }

  lemma Product(a: nat, b: nat, c: nat, d: nat)
    requires a >= c && b >= d
    ensures a * b >= c * d
  {
  }

  lemma FastDecides(n: nat, sup: nat)
    requires n >= 3 && Admissible(n, sup)
    ensures FastVerdict(n, sup) == IsPrime(n)
  {
    if !IsPrime(n) {
      SmallDivisor(n, sup);
    }
    FastRightIff(n, sup);
  }

  /** Both modes give the same answer, whatever admissible bound the fast one uses. */
  lemma ModesAgree(n: nat, sup: nat)
    requires n >= 3 && Admissible(n, sup)
    ensures SlowVerdict(n) == FastVerdict(n, sup)
  {
    SlowDecides(n);
    FastDecides(n, sup);
  }
}
