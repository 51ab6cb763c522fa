/** The prime sieve of filter_prime.c, whose marking loop is guarded by dp[i * i]. */
module Sieve {
  function Times(q: nat, d: nat): nat { q * d }

  ghost predicate Divides(d: nat, n: nat) {
    exists q: nat :: Times(q, d) == n
  }

  ghost predicate Prime(n: nat) {
    n >= 2 && forall d: nat | Divides(d, n) :: d == 1 || d == n
  }

  // ---- Divisibility ----

  lemma DividesMultiple(d: nat, n: nat, k: nat)
    requires Divides(d, n)
    ensures Divides(d, k * n)
  {
    var q: nat :| Times(q, d) == n;
    assert Times(k * q, d) == k * n by {
      Associate(k, q, d);
    }
  }

  lemma Associate(a: nat, b: nat, c: nat)
    ensures (a * b) * c == a * (b * c)
  {
  }

  lemma DividesDifference(d: nat, m: nat, n: nat)
    requires Divides(d, m) && Divides(d, n) && n <= m
    ensures Divides(d, m - n)
  {
    var q: nat :| Times(q, d) == m;
    var r: nat :| Times(r, d) == n;
    if q >= r {
      assert Times(q - r, d) == m - n;
    } else {
      assert r * d == q * d + (r - q) * d;
      assert Times(0, d) == m - n;
    }
  }

  lemma DividesTransitive(a: nat, b: nat, c: nat)
    requires Divides(a, b) && Divides(b, c)
    ensures Divides(a, c)
  {
    var q: nat :| Times(q, b) == c;
    DividesMultiple(a, b, q);
  }

  lemma DivisorBound(d: nat, n: nat)
    requires Divides(d, n) && n > 0
    ensures 1 <= d <= n
  {
  }

  lemma Monotone(a: nat, b: nat, c: nat)
    requires a <= b
    ensures a * c <= b * c
  {
  }

  // ---- Euclid's lemma ----

  // The least positive m with d | m * b.
  lemma {:induction false} LeastMultiplier(d: nat, b: nat, m: nat) returns (least: nat)
    requires m > 0 && Divides(d, m * b)
    ensures 0 < least <= m && Divides(d, least * b)
    ensures forall r: nat | 0 < r < least :: !Divides(d, Times(r, b))
    decreases m
  {
    if r: nat :| 0 < r < m && Divides(d, Times(r, b)) {
      least := LeastMultiplier(d, b, r);
    } else {
      least := m;
    }
  }

  // It divides every such multiplier.
  lemma LeastDivides(d: nat, b: nat, least: nat, x: nat)
    requires 0 < least && Divides(d, least * b) && Divides(d, x * b)
    requires forall r: nat | 0 < r < least :: !Divides(d, Times(r, b))
    ensures Divides(least, x)
  {
    var q, r := x / least, x % least;
    assert x == q * least + r;
    DividesMultiple(d, least * b, q);
    Associate(q, least, b);
    Distribute(q * least, r, b);
    DividesDifference(d, x * b, (q * least) * b);
    assert Times(r, b) == x * b - (q * least) * b;
    assert r == 0;
    assert Times(q, least) == x;
  }

  lemma Distribute(a: nat, b: nat, c: nat)
    ensures (a + b) * c == a * c + b * c
  {
  }

  lemma Euclid(p: nat, a: nat, b: nat)
    requires Prime(p) && Divides(p, a * b) && a > 0
    ensures Divides(p, a) || Divides(p, b)
  {
    var m := LeastMultiplier(p, b, a);
    assert Times(b, p) == p * b;
    LeastDivides(p, b, m, p);
    LeastDivides(p, b, m, a);
    assert m == 1 ==> m * b == b;
  }

  // ---- Prime factors ----

  // A number that is not prime has a prime factor no larger than its square root.
  lemma SmallPrimeFactor(n: nat) returns (p: nat)
    requires n >= 2 && !Prime(n)
    ensures Prime(p) && Divides(p, n) && p * p <= n && p < n
  {
    var d: nat :| Divides(d, n) && d != 1 && d != n;
    DivisorBound(d, n);
    p := LeastFactor(n, d);
    forall e: nat | Divides(e, p) ensures e == 1 || e == p {
      DivisorBound(e, p);
      DividesTransitive(e, p, n);
    }
    var q: nat :| Times(q, p) == n;
    assert Times(p, q) == n && Divides(q, n);
    DivisorBound(q, n);
    Monotone(p, q, p);
  }

  lemma {:induction false} LeastFactor(n: nat, d: nat) returns (p: nat)
    requires n >= 2 && 2 <= d && Divides(d, n)
    ensures 2 <= p <= d && Divides(p, n)
    ensures forall e: nat | Divides(e, n) && e >= 2 :: e >= p
    decreases d
  {
    if e: nat :| Divides(e, n) && 2 <= e < d {
      p := LeastFactor(n, e);
    } else {
      p := d;
    }
  }

  // ---- What the table holds ----

  // k has been crossed out by a prime below i.
  ghost predicate Crossed(k: nat, i: nat) {
    exists q: nat :: CrossedBy(k, q) && q < i
  }

  ghost predicate CrossedBy(k: nat, q: nat) {
    Prime(q) && q * q <= k && Divides(q, k)
  }

  // The guard dp[i * i] == 1 holds exactly when i is prime.
  lemma GuardIsPrime(i: nat)
    requires i >= 2
    ensures Crossed(i * i, i) <==> !Prime(i)
  {
    if Prime(i) && Crossed(i * i, i) {
      var q: nat :| CrossedBy(i * i, q) && q < i;
      Euclid(q, i, i);
      assert false;
    }
    if !Prime(i) {
      var p := SmallPrimeFactor(i);
      DividesMultiple(p, i, i);
      assert i * i >= p * p by {
        Monotone(p, i, p);
        Monotone(p, i, i);
      }
      assert CrossedBy(i * i, p);
    }
  }

  // When the square of i has passed the end, exactly the primes are left.
  lemma LeftArePrimes(k: nat, i: nat)
    requires 2 <= k < i * i
    ensures !Crossed(k, i) <==> Prime(k)
  {
    if !Prime(k) {
      var p := SmallPrimeFactor(k);
      if p >= i {
        Monotone(i, p, i);
        Monotone(i, p, p);
        assert false;
      }
      assert CrossedBy(k, p);
    }
  }

  // Between consecutive multiples of i nothing is divisible by i.
  lemma Gap(i: nat, m: nat, k: nat)
    requires m * i < k < m * i + i
    ensures !Divides(i, k)
  {
    if Divides(i, k) {
      var q: nat :| Times(q, i) == k;
      Distribute(m, 1, i);
      if q <= m {
        Monotone(q, m, i);
      } else {
        Monotone(m + 1, q, i);
      }
      assert false;
    }
  }

  // The inner loop of the sieve: crosses out i * i, i * i + i, ...
  method CrossMultiples(dp: array<int>, i: nat)
    requires Prime(i) && i * i < dp.Length
    modifies dp
    ensures forall k | 2 <= k < dp.Length :: dp[k] == if CrossedBy(k, i) then 0 else old(dp[k])
  {
    var j := i * i;
    ghost var m := i;
    while j < dp.Length
      invariant j == m * i && i * i <= j
      invariant forall k | 2 <= k < dp.Length :: dp[k] == if k < j && CrossedBy(k, i) then 0 else old(dp[k])
      decreases dp.Length - j
    {
      dp[j] := 0;
      assert Times(m, i) == j && CrossedBy(j, i);
      forall k: nat | j < k < j + i ensures !CrossedBy(k, i) {
        Gap(i, m, k);
      }
      Distribute(m, 1, i);
      j := j + i;
      m := m + 1;
    }
  }

  // The marking loop: what it leaves are the primes.
  method MarkAll(n: nat) returns (dp: array<int>)
    requires n >= 3
    ensures dp.Length == n && forall k | 2 <= k < n :: dp[k] == if Prime(k) then 1 else 0
  {
    dp := new int[n];
    for i := 2 to n
      invariant forall k | 2 <= k < i :: dp[k] == 1
    {
      dp[i] := 1;
    }
    var i := 2;
    while i * i < n
      invariant 2 <= i
      invariant forall k | 2 <= k < n :: dp[k] == if Crossed(k, i) then 0 else 1
      decreases n - i
    {
      hide Prime, CrossedBy;
      GuardIsPrime(i);
      if dp[i * i] == 1 {
        CrossMultiples(dp, i);
      } else {
        assert forall k: nat :: !CrossedBy(k, i) by {
          OnlyPrimesCross(i);
        }
      }
      assert forall k: nat :: Crossed(k, i + 1) <==> Crossed(k, i) || CrossedBy(k, i);
      Monotone(2, i, i);
      i := i + 1;
    }
    forall k | 2 <= k < n ensures !Crossed(k, i) <==> Prime(k) {
      LeftArePrimes(k, i);
    }
  }

  lemma OnlyPrimesCross(i: nat)
    requires !Prime(i)
    ensures forall k: nat :: !CrossedBy(k, i)
  {
  }

  method CountPrimes(n: int) returns (ans: int)
    ensures ans == |set k: nat | k < n && Prime(k)|
  {
    if n < 3 {
      assert (set k: nat | k < n && Prime(k)) == {};
      return 0;
    }
    var dp := MarkAll(n);
    ans := 0;
    var i := 2;
    assert (set k: nat | k < 2 && Prime(k)) == {};
    while i < n
      invariant 2 <= i <= n && ans == |set k: nat | k < i && Prime(k)|
    {
      ghost var below := set k: nat | k < i && Prime(k);
      assert (set k: nat | k < i + 1 && Prime(k)) == if Prime(i) then below + {i} else below;
      if dp[i] == 1 {
        ans := ans + 1;
      }
      i := i + 1;
    }
  }
}
