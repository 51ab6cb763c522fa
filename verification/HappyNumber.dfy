/** Both happy-number tests of happynumber_to_cycle_quetion.c: the one that keeps every number seen
    and the one that walks the orbit at two speeds. */
module HappyNumber {
  import opened CInt

  // The sum of the squares of the decimal digits.
  function DigitSquares(n: nat): nat {
    if n == 0 then 0 else (n % 10) * (n % 10) + DigitSquares(n / 10)
  }

  // The number written with these digits, the last one first.
  function Written(digits: seq<nat>): nat {
    if digits == [] then 0 else digits[0] + 10 * Written(digits[1..])
  }

  function SumOfSquares(s: seq<nat>): nat {
    if s == [] then 0 else s[0] * s[0] + SumOfSquares(s[1..])
  }

  // Whatever decimal digits a number is written with, their squares are summed.
  lemma {:induction false} SquaresOfDigits(digits: seq<nat>)
    requires forall d <- digits :: d <= 9
    ensures DigitSquares(Written(digits)) == SumOfSquares(digits)
  {
    if digits != [] {
      var d, rest := digits[0], digits[1..];
      assert d in digits && forall e <- rest :: e in digits;
      SquaresOfDigits(rest);
      LastDigit(d, Written(rest));
      assert DigitSquares(d + 10 * Written(rest)) == d * d + DigitSquares(Written(rest));
    }
  }

  lemma LastDigit(d: nat, n: nat)
    requires d <= 9
    ensures (d + 10 * n) % 10 == d && (d + 10 * n) / 10 == n
  {
  }

  // Every number is written with some.
  lemma {:induction false} DigitsOf(n: nat) returns (digits: seq<nat>)
    ensures (forall d <- digits :: d <= 9) && Written(digits) == n
  {
    if n == 0 {
      digits := [];
    } else {
      var rest := DigitsOf(n / 10);
      digits := [n % 10] + rest;
    }
  }

  function Abs(n: int): nat {
    if n < 0 then -n else n
  }

  method GetSq(n: int) returns (sum: int)
    ensures sum == DigitSquares(Abs(n))
  {
    sum := 0;
    var k := n;
    while k != 0
      invariant sum + DigitSquares(Abs(k)) == DigitSquares(Abs(n))
      decreases Abs(k)
    {
      var sq := Remainder(k, 10);
      assert sq == if k < 0 then -(Abs(k) % 10) else Abs(k) % 10;
      assert sq * sq == (Abs(k) % 10) * (Abs(k) % 10);
      sum := sum + sq * sq;
      k := Quotient(k, 10);
    }
  }

  // ---- The orbit of n ----

  function Orbit(n: int, k: nat): int {
    if k == 0 then n else DigitSquares(Abs(Orbit(n, k - 1)))
  }

  // The definition the problem gives: the process ends in 1.
  ghost predicate Happy(n: int) {
    exists k: nat :: Orbit(n, k) == 1
  }

  lemma {:induction false} OrbitSplits(n: int, j: nat, k: nat)
    ensures Orbit(Orbit(n, j), k) == Orbit(n, j + k)
    decreases k
  {
    if k > 0 {
      OrbitSplits(n, j, k - 1);
    }
  }

  lemma {:induction false} OneStays(n: int, j: nat, k: nat)
    requires Orbit(n, j) == 1
    ensures Orbit(n, j + k) == 1
  {
    if k > 0 {
      OneStays(n, j, k - 1);
      assert DigitSquares(1) == 1;
    }
  }

  // ---- The orbit is bounded ----

  lemma {:induction false} SquaresGrowSlowly(n: nat)
    ensures DigitSquares(n) <= n + 72
    ensures n >= 160 ==> DigitSquares(n) <= n
  {
    var q, r := n / 10, n % 10;
    DigitBound(r);
    if q >= 10 {
      SquaresGrowSlowly(q);
      assert DigitSquares(n) == r * r + DigitSquares(q);
    } else {
      DigitBound(q);
      TwoDigits(n);
    }
  }

  lemma TwoDigits(n: nat)
    requires n < 100
    ensures DigitSquares(n) == (n % 10) * (n % 10) + (n / 10) * (n / 10)
  {
  }

  lemma DigitBound(d: nat)
    requires d <= 9
    ensures d * d <= 10 * d && d * d - d <= 72
  {
  }

  function Bound(n: int): nat {
    if Abs(n) < 232 then 232 else Abs(n)
  }

  lemma {:induction false} OrbitBounded(n: int, k: nat)
    ensures Abs(Orbit(n, k)) <= Bound(n) && (k > 0 ==> Orbit(n, k) >= 0)
  {
    if k > 0 {
      OrbitBounded(n, k - 1);
      SquaresGrowSlowly(Abs(Orbit(n, k - 1)));
    }
  }

  // ---- The orbit runs into a cycle ----

  // More entries than values: two entries are equal.
  lemma {:induction false} Collision(s: seq<int>, b: nat) returns (i: nat, j: nat)
    requires |s| > b && forall k | 0 <= k < |s| :: 0 <= s[k] < b
    ensures i < j < |s| && s[i] == s[j]
    decreases b
  {
    assert 0 <= s[0] < b;
    if k :| 0 <= k < |s| && s[k] == b - 1 {
      if m :| 0 <= m < |s| && m != k && s[m] == b - 1 {
        i, j := if m < k then m else k, if m < k then k else m;
      } else {
        i, j := Collision(s[..k] + s[k + 1..], b - 1);
        i, j := if i < k then i else i + 1, if j < k then j else j + 1;
      }
    } else {
      i, j := Collision(s, b - 1);
    }
  }

  // From i on, the orbit has period p.
  lemma {:induction false} Periodic(n: int, i: nat, p: nat, laps: nat, k: nat)
    requires Orbit(n, i) == Orbit(n, i + p) && k >= i
    ensures Orbit(n, k) == Orbit(n, k + laps * p)
    decreases laps
  {
    hide DigitSquares;
    if laps == 0 {
      assert laps * p == 0;
    } else {
      Periodic(n, i, p, laps - 1, k);
      OneMoreLap(laps, p);
      var before := k + (laps - 1) * p;
      OrbitSplits(n, i, before - i);
      OrbitSplits(n, i + p, before - i);
    }
  }

  lemma OneMoreLap(laps: nat, p: nat)
    requires laps > 0
    ensures laps * p == (laps - 1) * p + p && (laps - 1) * p >= 0
  {
  }

  // A place where the slow walk and the fast walk meet.
  lemma MeetingPoint(n: int) returns (k: nat)
    ensures k > 0 && Orbit(n, k) == Orbit(n, 2 * k)
  {
    hide Orbit, Bound;
    var terms := seq(Bound(n) + 2, k requires k >= 0 => Orbit(n, k + 1));
    forall k | 0 <= k < |terms| ensures 0 <= terms[k] < Bound(n) + 1 {
      OrbitBounded(n, k + 1);
    }
    var i, j := Collision(terms, Bound(n) + 1);
    k := (i + 1) * (j - i);
    Meets(n, i + 1, j - i);
  }

  // Once the orbit has come back after p steps, k is a place if it is a multiple of p not before that.
  lemma Meets(n: int, i: nat, p: nat)
    requires i > 0 && p > 0 && Orbit(n, i) == Orbit(n, i + p)
    ensures i * p > 0 && Orbit(n, i * p) == Orbit(n, 2 * (i * p))
  {
    hide Orbit;
    AtLeastFactor(i, p);
    Periodic(n, i, p, i, i * p);
  }

  lemma AtLeastFactor(a: nat, b: nat)
    requires b > 0
    ensures a * b >= a
  {
  }

  // If the walks met at k, the cycle they are on is that of 1 exactly when the orbit reaches 1.
  lemma MeetingDecides(n: int, k: nat)
    requires k > 0 && Orbit(n, k) == Orbit(n, 2 * k)
    ensures Orbit(n, 2 * k) == 1 <==> Happy(n)
  {
    if Happy(n) {
      var m: nat :| Orbit(n, m) == 1;
      Periodic(n, k, k, m, k);
      AtLeastFactor(m, k);
      OneStays(n, m, k + m * k - m);
    }
  }

  // ---- The two programs ----

  method IsHappyByCycle(n: int) returns (r: bool)
    ensures r <==> Happy(n)
  {
    ghost var meeting := MeetingPoint(n);
    var slow, fast := n, n;
    ghost var k := 0;
    while true
      invariant slow == Orbit(n, k) && fast == Orbit(n, 2 * k) && k < meeting
      decreases meeting - k
    {
      slow := GetSq(slow);
      fast := GetSq(fast);
      fast := GetSq(fast);
      k := k + 1;
      assert fast == Orbit(n, 2 * k) by {
        assert Orbit(n, 2 * k) == DigitSquares(Abs(Orbit(n, 2 * k - 1)));
      }
      if slow == fast {
        break;
      }
    }
    MeetingDecides(n, k);
    return fast == 1;
  }

  // The list of numbers seen; its nodes never change once made.
  datatype Seen = Nil | Cons(val: int, next: Seen)

  function Values(s: Seen): set<int> {
    match s
    case Nil => {}
    case Cons(v, next) => {v} + Values(next)
  }

  method IsDuplicate(n: int, head: Seen) returns (r: bool, head': Seen)
    ensures r <==> n in Values(head)
    ensures head' == if r then head else Cons(n, head)
  {
    var p := head;
    while p.Cons?
      invariant n in Values(head) <==> n in Values(p)
      decreases p
    {
      if p.val == n {
        return true, head;
      }
      p := p.next;
    }
    return false, Cons(n, head);
  }

  lemma {:induction false} AtMost(values: set<int>, n: nat)
    requires forall v <- values :: 0 <= v < n
    ensures |values| <= n
  {
    if n > 0 {
      AtMost(values - {n - 1}, n - 1);
    } else {
      assert forall v :: v !in values;
    }
  }

  // The numbers seen are terms of the orbit, each within its bound.
  ghost predicate SeenTerms(n: int, k: nat, seen: set<int>) {
    forall v <- seen :: 0 <= v <= Bound(n) && exists j: nat :: 1 <= j <= k && Orbit(n, j) == v
  }

  lemma SeenNone(n: int)
    ensures SeenTerms(n, 0, {})
  {
  }

  lemma SeenAt(n: int, k: nat, seen: set<int>, v: int) returns (j: nat)
    requires SeenTerms(n, k, seen)
    ensures |seen| <= Bound(n) + 1
    ensures v in seen ==> 1 <= j <= k && Orbit(n, j) == v
  {
    AtMost(seen, Bound(n) + 1);
    j := 0;
    if v in seen {
      j :| 1 <= j <= k && Orbit(n, j) == v;
    }
  }

  lemma SeenGrows(n: int, k: nat, m: int, seen: set<int>)
    requires SeenTerms(n, k, seen) && m == Orbit(n, k + 1) && m !in seen && 0 <= m <= Bound(n)
    ensures SeenTerms(n, k + 1, {m} + seen) && |{m} + seen| == |seen| + 1
  {
  }

  // Stops at the first 1 or the first number seen twice.
  method IsHappyBySeen(n: int) returns (r: bool)
    ensures r <==> Happy(n)
  {
    hide DigitSquares, SeenTerms, Bound;
    var m, p := n, Nil;
    ghost var k: nat := 0;
    SeenNone(n);
    while m != 1
      invariant m == Orbit(n, k) && SeenTerms(n, k, Values(p))
      invariant forall j: nat | j < k :: Orbit(n, j) != 1
      decreases Bound(n) + 1 - |Values(p)|
    {
      m := GetSq(m);
      OrbitBounded(n, k + 1);
      ghost var seen := Values(p);
      ghost var j := SeenAt(n, k, seen, m);
      var dup;
      dup, p := IsDuplicate(m, p);
      if dup {
        NeverOne(n, j, k + 1);
        return false;
      }
      SeenGrows(n, k, m, seen);
      k := k + 1;
      j := SeenAt(n, k, Values(p), m);
    }
    return true;
  }

  // A repeated value before any 1 means there is never a 1.
  lemma NeverOne(n: int, j: nat, k: nat)
    requires 1 <= j < k && Orbit(n, j) == Orbit(n, k)
    requires forall i: nat | i < k :: Orbit(n, i) != 1
    ensures !Happy(n)
  {
    if Happy(n) {
      var m: nat :| Orbit(n, m) == 1;
      var p := k - j;
      Periodic(n, j, p, m, j);
      AtLeastFactor(m, p);
      OneStays(n, m, j + m * p - m);
    }
  }
}
