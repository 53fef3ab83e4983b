/** circus::prime::detail: a process-wide cache of the primes up to 541,
  * filled once by a Sieve of Eratosthenes and searched by bisection, and
  * 6k +/- 1 trial division for larger values. Values are C ints; the model
  * uses unbounded integers. */
module PrimeDetail {

  /** k0: the largest cached prime. */
  const K0: int := 541

  // ---------------------------------------------------------------------
  // Arithmetic helpers

  lemma MulNonneg(a: int, b: int)
    requires a >= 0 && b >= 0
    ensures a * b >= 0
  {
  }

  lemma MulMono(a: int, b: int, c: int)
    requires 0 <= a <= b && c >= 0
    ensures a * c <= b * c
  {
    MulNonneg(b - a, c);
    assert b * c - a * c == (b - a) * c;
  }

  lemma MulAtLeast(p: int, t: int)
    requires p > 0 && t >= 1
    ensures p * t >= p
  {
    MulNonneg(p, t - 1);
    assert p * t == p * (t - 1) + p;
  }

  lemma MulAtMost(p: int, t: int)
    requires p > 0 && t <= -1
    ensures p * t <= -p
  {
    MulAtLeast(p, -t);
    assert p * t == -(p * (-t));
  }

  /** Quotient and remainder are unique. */
  lemma ModUnique(x: int, p: int, q: int, r: int)
    requires p > 0 && 0 <= r < p && x == p * q + r
    ensures x % p == r && x / p == q
  {
    var q', r' := x / p, x % p;
    assert x == p * q' + r';
    assert p * (q - q') == r' - r;
    if q - q' >= 1 {
      MulAtLeast(p, q - q');
    } else if q - q' <= -1 {
      MulAtMost(p, q - q');
    }
  }

  lemma ModOfMultiple(p: int, q: int)
    requires p > 0
    ensures (p * q) % p == 0
  {
    ModUnique(p * q, p, q, 0);
  }

  /** Between two consecutive multiples of i there is no multiple of i. */
  lemma ModGap(j: int, i: int, x: int)
    requires i > 0 && j % i == 0 && j < x < j + i
    ensures x % i != 0
  {
    var q := j / i;
    assert j == i * q;
    ModUnique(x, i, q, x - j);
  }

  lemma ModNext(j: int, i: int)
    requires i > 0 && j % i == 0
    ensures (j + i) % i == 0
  {
    var q := j / i;
    assert j + i == i * (q + 1);
    ModOfMultiple(i, q + 1);
  }

  lemma DivTrans(a: int, b: int, c: int)
    requires a > 0 && b > 0 && b % a == 0 && c % b == 0
    ensures c % a == 0
  {
    var s, t := b / a, c / b;
    assert b == a * s;
    assert c == b * t;
    assert c == a * (s * t);
    ModOfMultiple(a, s * t);
  }

  lemma ModDiff(a: int, b: int, d: int)
    requires d > 0 && a % d == 0 && b % d == 0
    ensures (a - b) % d == 0
  {
    var s, t := a / d, b / d;
    assert a - b == d * (s - t);
    ModOfMultiple(d, s - t);
  }

  // ---------------------------------------------------------------------
  // Primality

  predicate IsPrime(n: int)
  {
    n >= 2 && forall d | 2 <= d < n :: n % d != 0
  }

  /** The least divisor of n that is at least k. */
  function LeastDivisorFrom(n: int, k: int): (d: int)
    requires 2 <= k <= n
    ensures k <= d <= n && n % d == 0
    ensures forall e | k <= e < d :: n % e != 0
    decreases n - k
  {
    if n % k == 0 then k else LeastDivisorFrom(n, k + 1)
  }

  /** The least divisor d >= 2 of n is prime, and when n is composite it
    * satisfies d * d <= n. */
  lemma LeastDivisor(n: int) returns (d: int)
    requires n >= 2
    ensures 2 <= d <= n && n % d == 0 && IsPrime(d)
    ensures forall e | 2 <= e < d :: n % e != 0
    ensures !IsPrime(n) ==> d * d <= n
  {
    d := LeastDivisorFrom(n, 2);
    forall e | 2 <= e < d
      ensures d % e != 0
    {
      if d % e == 0 {
        DivTrans(e, d, n);
      }
    }
    if !IsPrime(n) {
      var e :| 2 <= e < n && n % e == 0;
      CofactorBound(n, d);
    }
  }

  /** A least divisor d < n of n is at most its cofactor n / d. */
  lemma CofactorBound(n: int, d: int)
    requires 2 <= d < n && n % d == 0
    requires forall e | 2 <= e < d :: n % e != 0
    ensures d * d <= n
  {
    var f := n / d;
    assert n == d * f;
    if f < 1 {
      MulMono(0, d, -f);
    }
    assert f >= 2;
    assert n == f * d;
    ModOfMultiple(f, d);
    assert d <= f;
    MulMono(d, f, d);
  }

  lemma EvenNotPrime(n: int)
    requires n > 2 && n % 2 == 0
    ensures !IsPrime(n)
  {
  }

  /** The candidates j tried by is_impl: 5, 11, 17, ... (6k - 1 for k >= 1);
    * j + 2 runs over 7, 13, 19, ... (6k + 1). */
  function Cand(k: nat): int
  {
    6 * k + 5
  }

  /** A candidate whose square is at most i lies below i. */
  lemma CandBelow(i: int, k: nat)
    requires Cand(k) * Cand(k) <= i
    ensures Cand(k) < i
  {
    MulMono(5, Cand(k), Cand(k));
  }

  /** What the loop of is_impl decides from candidate Cand(k) on: it stops
    * with true once Cand(k) * Cand(k) > i, and with false at the first
    * candidate pair that divides i. */
  ghost predicate TrialFrom(i: int, k: nat)
    decreases if Cand(k) < i then i - Cand(k) else 0
  {
    Cand(k) * Cand(k) > i ||
    (i % Cand(k) != 0 && i % (Cand(k) + 2) != 0 && (CandBelow(i, k); TrialFrom(i, k + 1)))
  }

  /** What is_impl decides: no factor 3, then the candidate loop. */
  ghost predicate TrialPrime(i: int)
  {
    i % 3 != 0 && TrialFrom(i, 0)
  }

  /** The loop accepts exactly when no candidate pair j, j + 2 from Cand(k)
    * on with j * j <= i divides i. */
  lemma {:induction false} TrialFromAll(i: int, k: nat)
    ensures TrialFrom(i, k) <==>
      forall q: nat | k <= q && Cand(q) * Cand(q) <= i :: i % Cand(q) != 0 && i % (Cand(q) + 2) != 0
    decreases if Cand(k) < i then i - Cand(k) else 0
  {
    if Cand(k) * Cand(k) > i {
      forall q: nat | k <= q
        ensures Cand(q) * Cand(q) > i
      {
        MulMono(Cand(k), Cand(q), Cand(k));
        MulMono(Cand(k), Cand(q), Cand(q));
      }
    } else {
      CandBelow(i, k);
      TrialFromAll(i, k + 1);
    }
  }

  /** An odd number that is not a multiple of 3 is 6k + 1 or 6k + 5. */
  lemma SixResidue(d: int)
    requires d % 2 != 0 && d % 3 != 0
    ensures d % 6 == 1 || d % 6 == 5
  {
  }

  /** A prime above 3 survives the trial division. */
  lemma PrimePassesTrial(i: int)
    requires i >= 5 && IsPrime(i)
    ensures TrialPrime(i)
  {
    TrialFromAll(i, 0);
    forall k: nat | Cand(k) * Cand(k) <= i
      ensures i % Cand(k) != 0 && i % (Cand(k) + 2) != 0
    {
      var c := Cand(k);
      MulMono(5, c, c);
      assert 2 <= c < c + 2 < i;
    }
  }

  /** An odd composite is caught by the trial division: its least divisor
    * d satisfies d * d <= i and is 3 or of the form 6k +/- 1. */
  lemma CompositeFailsTrial(i: int)
    requires i >= 5 && i % 2 == 1 && !IsPrime(i)
    ensures !TrialPrime(i)
  {
    if i % 3 != 0 {
      var k := CompositeWitness(i);
      TrialFromAll(i, 0);
    }
  }

  /** The candidate pair that catches an odd composite with no factor 3. */
  lemma CompositeWitness(i: int) returns (k: nat)
    requires i >= 5 && i % 2 == 1 && i % 3 != 0 && !IsPrime(i)
    ensures Cand(k) * Cand(k) <= i && (i % Cand(k) == 0 || i % (Cand(k) + 2) == 0)
  {
    var d := LeastDivisor(i);
    if d % 2 == 0 {
      DivTrans(2, d, i);
    }
    if d % 3 == 0 {
      DivTrans(3, d, i);
    }
    SixResidue(d);
    if d % 6 == 5 {
      k := CandOf(d, 5);
    } else {
      k := CandOf(d, 1);
      var c := Cand(k);
      MulMono(c, d, c);
      MulMono(c, d, d);
    }
  }

  /** The candidate index of d = 6q + 5 (r == 5) or d = 6q + 1 (r == 1). */
  lemma CandOf(d: int, r: int) returns (k: nat)
    requires d >= 2 && d % 6 == r && (r == 5 || r == 1)
    ensures Cand(k) == (if r == 5 then d else d - 2)
  {
    var q := d / 6;
    assert d == 6 * q + r;
    k := if r == 5 then q else q - 1;
  }

  /** 6k +/- 1 trial division is exact for odd i >= 5. (For i == 3 it is a
    * false negative.) */
  lemma TrialDivision(i: int)
    requires i >= 5 && i % 2 == 1
    ensures TrialPrime(i) <==> IsPrime(i)
  {
    if IsPrime(i) {
      PrimePassesTrial(i);
    } else {
      CompositeFailsTrial(i);
    }
  }

  /** 541 is prime: k0 is itself cached. */
  lemma PrimeK0()
    ensures IsPrime(K0)
  {
    forall k: nat | Cand(k) * Cand(k) <= K0
      ensures K0 % Cand(k) != 0 && K0 % (Cand(k) + 2) != 0
    {
      if k >= 4 {
        MulMono(29, Cand(k), Cand(k));
        MulMono(29, Cand(k), 29);
      } else {
        assert k == 0 || k == 1 || k == 2 || k == 3;
      }
    }
    TrialDivision(K0);
  }

  function Fact(n: nat): (r: nat)
    ensures r >= 1
  {
    if n == 0 then 1 else n * Fact(n - 1)
  }

  lemma {:induction false} FactDivisible(n: nat, d: int)
    requires 1 <= d <= n
    ensures Fact(n) % d == 0
  {
    if d == n {
      ModOfMultiple(n, Fact(n - 1));
    } else {
      FactDivisible(n - 1, d);
      var q := Fact(n - 1) / d;
      assert Fact(n - 1) == d * q;
      assert Fact(n) == d * (n * q);
      ModOfMultiple(d, n * q);
    }
  }

  /** Euclid: there is a prime above every n. This is what makes the upward
    * search terminate. */
  lemma PrimeAbove(n: nat) returns (p: int)
    ensures p > n && IsPrime(p)
  {
    var m := Fact(n) + 1;
    p := LeastDivisor(m);
    if p <= n {
      FactDivisible(n, p);
      ModDiff(m, Fact(n), p);
    }
  }

  // ---------------------------------------------------------------------
  // The cache contents

  /** The primes in [2, n], in increasing order. */
  function PrimesUpTo(n: int): seq<int>
    decreases n
  {
    if n < 2 then [] else PrimesUpTo(n - 1) + (if IsPrime(n) then [n] else [])
  }

  /** The primes up to n, each once, strictly increasing. */
  lemma {:induction false} PrimesUpToSpec(n: int)
    ensures forall x :: x in PrimesUpTo(n) <==> 2 <= x <= n && IsPrime(x)
    ensures forall a, b | 0 <= a < b < |PrimesUpTo(n)| :: PrimesUpTo(n)[a] < PrimesUpTo(n)[b]
    decreases n
  {
    if n >= 2 {
      PrimesUpToSpec(n - 1);
      var p := PrimesUpTo(n - 1);
      forall a | 0 <= a < |p|
        ensures p[a] < n
      {
        assert p[a] in p;
      }
    }
  }

  lemma {:induction false} PrimesUpToStartsAtTwo(n: int)
    requires n >= 2
    ensures |PrimesUpTo(n)| > 0 && PrimesUpTo(n)[0] == 2
    decreases n
  {
    if n > 2 {
      PrimesUpToStartsAtTwo(n - 1);
    } else {
      assert IsPrime(2);
    }
  }

  /** The cache as init leaves it. */
  function Table(): (r: seq<int>)
    ensures |r| > 0 && r[0] == 2 && r[|r| - 1] == K0
  {
    PrimesUpToStartsAtTwo(K0);
    PrimeK0();
    PrimesUpTo(K0)
  }

  /** The cache holds exactly the primes from 2 to 541 ... */
  lemma TableMembers()
    ensures forall x :: x in Table() <==> 2 <= x <= K0 && IsPrime(x)
  {
    PrimesUpToSpec(K0);
  }

  /** ... in increasing order. */
  lemma TableSorted()
    ensures forall a, b | 0 <= a < b < |Table()| :: Table()[a] < Table()[b]
  {
    PrimesUpToSpec(K0);
  }

  // ---------------------------------------------------------------------
  // The sieve

  /** p strikes x: p * p <= x and p divides x. */
  predicate StruckBy(x: int, p: int)
    requires p > 0
  {
    p * p <= x && x % p == 0
  }

  /** x has been struck by some p in [2, i). */
  predicate StruckBelow(x: int, i: int)
    decreases i
  {
    i > 2 && (StruckBelow(x, i - 1) || StruckBy(x, i - 1))
  }

  lemma {:induction false} StruckBelowOnlyComposites(x: int, i: int)
    requires x >= 2 && StruckBelow(x, i)
    ensures !IsPrime(x)
    decreases i
  {
    if StruckBelow(x, i - 1) {
      StruckBelowOnlyComposites(x, i - 1);
    } else {
      var p := i - 1;
      MulAtLeast(p, p);
      assert 2 <= p < x && x % p == 0;
    }
  }

  lemma {:induction false} StruckBelowMono(x: int, p: int, i: int)
    requires 2 <= p < i && StruckBy(x, p)
    ensures StruckBelow(x, i)
    decreases i
  {
    if p < i - 1 {
      StruckBelowMono(x, p, i - 1);
    }
  }

  /** After the marking loops have run for every i up to k0, the unmarked
    * numbers in [2, k0] are exactly the primes. */
  lemma SieveClassifies(x: int)
    requires 2 <= x <= K0
    ensures StruckBelow(x, K0 + 1) <==> !IsPrime(x)
  {
    if StruckBelow(x, K0 + 1) {
      StruckBelowOnlyComposites(x, K0 + 1);
    } else if !IsPrime(x) {
      var d := LeastDivisor(x);
      StruckBelowMono(x, d, K0 + 1);
    }
  }

  /** The first element at least i, and the last element at most i. */
  ghost predicate LeastPrimeAtLeast(i: int, r: int)
  {
    IsPrime(r) && r >= i && forall x | i <= x < r :: !IsPrime(x)
  }

  ghost predicate GreatestPrimeAtMost(i: int, r: int)
  {
    IsPrime(r) && r <= i && forall x | r < x <= i :: !IsPrime(x)
  }

  /** nearest(i, m, dir): for dir == 1, array[m] is the first entry above i
    * (the entry before it, or array[0] when m == 0, is below i); otherwise
    * array[m] is the last entry below i. For dir != 1 the source reads
    * array[m + 1] even when m is the last index, so a caller must not get
    * there with array[m] < i. */
  function Nearest(a: seq<int>, i: int, m: int, dir: int): bool
    requires 0 <= m < |a|
    requires dir != 1 && a[m] < i ==> m + 1 < |a|
  {
    if dir == 1 then a[if m > 0 then m - 1 else 0] < i && a[m] > i
    else a[m] < i && a[m + 1] > i
  }

  /** In a strictly increasing sequence nothing lies strictly between two
    * neighbours. */
  lemma GapNotIn(t: seq<int>, m: int, x: int)
    requires forall a, b | 0 <= a < b < |t| :: t[a] < t[b]
    requires 0 < m < |t| && t[m - 1] < x < t[m]
    ensures x !in t
  {
    forall k | 0 <= k < |t|
      ensures t[k] != x
    {
      if k < m - 1 {
        assert t[k] < t[m - 1];
      } else if k > m {
        assert t[m] < t[k];
      }
    }
  }

  lemma NearestUp(i: int, m: int)
    requires 0 < m < |Table()| && Table()[m - 1] < i < Table()[m]
    ensures LeastPrimeAtLeast(i, Table()[m])
  {
    TableSorted();
    TableMembers();
    var t := Table();
    assert t[m - 1] in t && t[m] in t;
    forall x | i <= x < t[m]
      ensures !IsPrime(x)
    {
      GapNotIn(t, m, x);
    }
  }

  lemma NearestDown(i: int, m: int)
    requires 0 <= m && m + 1 < |Table()| && Table()[m] < i < Table()[m + 1]
    ensures GreatestPrimeAtMost(i, Table()[m])
  {
    TableSorted();
    TableMembers();
    var t := Table();
    assert t[m] in t && t[m + 1] in t;
    forall x | t[m] < x <= i
      ensures !IsPrime(x)
    {
      GapNotIn(t, m + 1, x);
    }
  }

  lemma HitIsExact(i: int, m: int)
    requires 0 <= m < |Table()| && Table()[m] == i
    ensures IsPrime(i) && LeastPrimeAtLeast(i, i) && GreatestPrimeAtMost(i, i)
  {
    TableMembers();
    assert Table()[m] in Table();
  }

  /** The inner loop of init(): mark j = i * i, i * i + i, ... up to k0. */
  method Strike(a: array<int>, i: int)
    requires a.Length == K0 && i >= 2
    requires forall k | 0 <= k < K0 :: a[k] == (if StruckBelow(k + 1, i) then 1 else 0)
    modifies a
    ensures forall k | 0 <= k < K0 :: a[k] == (if StruckBelow(k + 1, i + 1) then 1 else 0)
  {
    var j := i * i;
    ModOfMultiple(i, i);
    while j <= K0
      invariant j >= i * i && j % i == 0
      invariant forall k | 0 <= k < K0 ::
        a[k] == (if StruckBelow(k + 1, i) || (StruckBy(k + 1, i) && k + 1 < j) then 1 else 0)
      decreases K0 - j
    {
      a[j - 1] := 1;
      ModNext(j, i);
      forall k | 0 <= k < K0
        ensures a[k] == (if StruckBelow(k + 1, i) || (StruckBy(k + 1, i) && k + 1 < j + i) then 1 else 0)
      {
        if j < k + 1 < j + i {
          ModGap(j, i, k + 1);
        }
      }
      j := j + i;
    }
  }

  // ---------------------------------------------------------------------
  // The cache object

  /** The process-wide vector `array`: empty until the first lookup, then
    * the sieve's output for good. */
  class Cache {
    var primes: seq<int>

    ghost predicate Valid()
      reads this
    {
      primes == [] || primes == Table()
    }

    constructor ()
      ensures primes == []
    {
      primes := [];
    }

    /** init(): strike the multiples of each i from i * i in a local table
      * a[0..k0), then append every unstruck number in [2, k0]. */
    method Init()
      modifies this
      ensures primes == old(primes) + Table()
    {
      var a := new int[K0](_ => 0);
      var i := 2;
      while i <= K0
        invariant 2 <= i <= K0 + 1
        invariant forall k | 0 <= k < K0 :: a[k] == (if StruckBelow(k + 1, i) then 1 else 0)
        invariant primes == old(primes)
      {
        Strike(a, i);
        i := i + 1;
      }
      ghost var before := primes;
      i := 2;
      while i <= K0
        invariant 2 <= i <= K0 + 1
        invariant forall k | 0 <= k < K0 :: a[k] == (if StruckBelow(k + 1, K0 + 1) then 1 else 0)
        invariant primes == before + PrimesUpTo(i - 1)
      {
        SieveClassifies(i);
        assert a[i - 1] == 0 <==> IsPrime(i);
        if a[i - 1] == 0 {
          primes := primes + [i];
        }
        i := i + 1;
      }
    }

    /** bsearch(i, dir, exact). The size is read before the cache is filled,
      * so the call that fills it searches nothing and returns 0. With
      * `match`, the result is i when i is cached and 0 otherwise; without
      * it, the first probe that hits i or satisfies Nearest decides. */
    method BSearch(i: int, dir: int, exact: bool) returns (res: int)
      modifies this
      requires Valid()
      requires exact || dir == 1 || i <= K0
      ensures primes == Table()
      ensures old(primes) == [] ==> res == 0
      ensures old(primes) != [] && exact ==> res == (if 2 <= i <= K0 && IsPrime(i) then i else 0)
      ensures old(primes) != [] && !exact && i < 2 ==> res == 0
      ensures old(primes) != [] && !exact && 2 <= i <= K0 && dir == 1 ==> LeastPrimeAtLeast(i, res)
      ensures old(primes) != [] && !exact && 2 <= i <= K0 && dir != 1 ==> GreatestPrimeAtMost(i, res)
      ensures old(primes) != [] && !exact && i > K0 && dir == 1 ==> res == 0
    {
      var size := |primes|;
      if size == 0 {
        Init();
        return 0;
      }
      ghost var t := TargetIndex(i, dir, exact);
      var l, r := 0, size - 1;
      while r >= l
        invariant primes == Table()
        invariant 0 <= l && r < size && l <= r + 1
        invariant 0 <= t ==> l <= t <= r
        decreases r - l
      {
        var m := (l + r) / 2;
        if primes[m] == i || (!exact && Nearest(primes, i, m, dir)) {
          ResultAt(i, dir, exact, m);
          return primes[m];
        }
        if 0 <= t {
          ProbeMiss(i, dir, exact, t, m);
        }
        if primes[m] < i {
          l := m + 1;
        } else {
          r := m - 1;
        }
      }
      return 0;
    }

    /** bsearch as evidently intended: the cache is filled before the
      * search, so the call that fills it answers like every later one. */
    method BSearchCorrected(i: int, dir: int, exact: bool) returns (res: int)
      modifies this
      requires Valid()
      requires exact || dir == 1 || i <= K0
      ensures primes == Table()
      ensures exact ==> res == (if 2 <= i <= K0 && IsPrime(i) then i else 0)
      ensures !exact && i < 2 ==> res == 0
      ensures !exact && 2 <= i <= K0 && dir == 1 ==> LeastPrimeAtLeast(i, res)
      ensures !exact && 2 <= i <= K0 && dir != 1 ==> GreatestPrimeAtMost(i, res)
      ensures !exact && i > K0 && dir == 1 ==> res == 0
    {
      if primes == [] {
        Init();
      }
      res := BSearch(i, dir, exact);
    }

    /** find(i, dir), called for a non-prime i with dir == 1 (next) or
      * dir == -1 (previous): 2 for i <= 2, the trial-division search above
      * k0, the cache otherwise. */
    method Find(i: int, dir: int) returns (r: int)
      modifies this
      requires Valid() && (dir == 1 || dir == -1)
      ensures i <= 2 || i > K0 ==> primes == old(primes)
      ensures 2 < i <= K0 ==> primes == Table()
      ensures i <= 2 ==> r == 2
      ensures i > K0 && dir == 1 ==> LeastPrimeAtLeast(i + 1, r)
      ensures i > K0 && dir == -1 ==> GreatestPrimeAtMost(i, r)
      ensures 2 < i <= K0 && old(primes) == [] ==> r == 0
      ensures 2 < i <= K0 && old(primes) != [] && dir == 1 ==> LeastPrimeAtLeast(i, r)
      ensures 2 < i <= K0 && old(primes) != [] && dir == -1 ==> GreatestPrimeAtMost(i, r)
    {
      if i <= 2 {
        return 2;
      }
      if i > K0 {
        r := Search(i, dir);
        return;
      }
      r := BSearch(i, dir, false);
    }
  }

  /** Whatever probe m makes bsearch return on a filled cache, array[m] is
    * the promised answer. */
  lemma ResultAt(i: int, dir: int, exact: bool, m: int)
    requires 0 <= m < |Table()|
    requires exact || dir == 1 || i <= K0
    requires Table()[m] == i || (!exact && Nearest(Table(), i, m, dir))
    ensures exact ==> Table()[m] == (if 2 <= i <= K0 && IsPrime(i) then i else 0)
    ensures !exact && i < 2 ==> Table()[m] == 0
    ensures !exact && 2 <= i <= K0 && dir == 1 ==> LeastPrimeAtLeast(i, Table()[m])
    ensures !exact && 2 <= i <= K0 && dir != 1 ==> GreatestPrimeAtMost(i, Table()[m])
    ensures !exact && i > K0 && dir == 1 ==> Table()[m] == 0
  {
    TableMembers();
    var T := Table();
    assert T[m] in T;
    if T[m] == i {
      HitIsExact(i, m);
    } else if dir == 1 {
      assert m > 0;
      assert T[m - 1] in T;
      NearestUp(i, m);
    } else {
      NearestDown(i, m);
    }
  }

  /** A probe m that does not decide lies on the side of the target t that
    * the comparison of array[m] with i says. */
  lemma ProbeMiss(i: int, dir: int, exact: bool, t: int, m: int)
    requires 0 <= t < |Table()| && 0 <= m < |Table()|
    requires exact || dir == 1 || i <= K0
    requires Table()[t] == i || (!exact && Nearest(Table(), i, t, dir))
    requires !(Table()[m] == i || (!exact && Nearest(Table(), i, m, dir)))
    ensures Table()[m] < i ==> m < t
    ensures Table()[m] >= i ==> t < m
  {
    TableSorted();
  }

  /** In a sorted run from below i to at least i, the first entry at least
    * i has its predecessor below i. */
  lemma FirstAtLeast(s: seq<int>, i: int) returns (k: int)
    requires |s| > 0 && s[0] < i <= s[|s| - 1]
    ensures 0 < k < |s| && s[k - 1] < i <= s[k]
  {
    k := |s| - 1;
    while s[k - 1] >= i
      invariant 0 < k < |s| && i <= s[k]
      decreases k
    {
      k := k - 1;
    }
  }

  /** The probe bsearch is bound to stop at on a filled cache, or -1 when
    * it must fall through and return 0. */
  lemma TargetIndex(i: int, dir: int, exact: bool) returns (t: int)
    requires exact || dir == 1 || i <= K0
    ensures -1 <= t < |Table()|
    ensures 0 <= t ==> Table()[t] == i || (!exact && Nearest(Table(), i, t, dir))
    ensures t == -1 ==> !(2 <= i <= K0 && IsPrime(i)) && (exact || i < 2 || (dir == 1 && i > K0))
  {
    TableMembers();
    var T := Table();
    if i in T {
      t :| 0 <= t < |T| && T[t] == i;
    } else if exact || i < 2 || (dir == 1 && i > K0) {
      t := -1;
    } else {
      var k := FirstAtLeast(T, i);
      t := if dir == 1 then k else k - 1;
    }
  }

  // ---------------------------------------------------------------------
  // Beyond the cache

  /** Trial division beyond the cache. */
  method IsImpl(i: int) returns (r: bool)
    requires i > 0
    ensures r == TrialPrime(i)
    ensures i >= 5 && i % 2 == 1 ==> (r <==> IsPrime(i))
  {
    if i >= 5 && i % 2 == 1 {
      TrialDivision(i);
    }
    if i % 3 == 0 {
      return false;
    }
    var j := 5;
    ghost var k: nat := 0;
    while j * j <= i
      invariant j == Cand(k)
      invariant TrialPrime(i) == TrialFrom(i, k)
      decreases i - j
    {
      CandBelow(i, k);
      if i % j == 0 || i % (j + 2) == 0 {
        return false;
      }
      j := j + 6;
      k := k + 1;
    }
    return true;
  }

  /** No prime lies strictly between lo and hi. */
  ghost predicate NoPrimeBetween(lo: int, hi: int)
  {
    forall x | lo < x < hi :: !IsPrime(x)
  }

  /** search(i, dir) for i > k0: step through the odd numbers from the
    * first one past i (dir == 1) or from i itself or the odd number below
    * it (dir == -1) until trial division accepts one. Upwards the search
    * stops at the latest at a prime above i (Euclid), downwards at k0. */
  method Search(i: int, dir: int) returns (r: int)
    requires i > K0 && (dir == 1 || dir == -1)
    ensures dir == 1 ==> LeastPrimeAtLeast(i + 1, r)
    ensures dir == -1 ==> GreatestPrimeAtMost(i, r)
  {
    SearchStart(i, dir);
    if dir == 1 {
      r := SearchUp(i, i + i % 2 + dir);
    } else {
      r := SearchDown(i, i + i % 2 + dir);
    }
  }

  /** The loop of search for dir == 1, from the odd candidate j. */
  method SearchUp(i: int, j: int) returns (r: int)
    requires i > K0 && j % 2 == 1 && i < j && NoPrimeBetween(i, j)
    ensures LeastPrimeAtLeast(i + 1, r)
  {
    ghost var p := PrimeAbove(i);
    SearchBound(i, j, p);
    var c := j;
    while true
      invariant c % 2 == 1 && i < c <= p && NoPrimeBetween(i, c)
      decreases p - c
    {
      var b := IsImpl(c);
      if b {
        SearchFound(i, 1, c);
        return c;
      }
      SearchStep(i, 1, c, p);
      c := c + 2;
    }
  }

  /** The loop of search for dir == -1, from the odd candidate j. */
  method SearchDown(i: int, j: int) returns (r: int)
    requires i > K0 && j % 2 == 1 && K0 <= j <= i && NoPrimeBetween(j, i + 1)
    ensures GreatestPrimeAtMost(i, r)
  {
    var c := j;
    while true
      invariant c % 2 == 1 && K0 <= c <= i && NoPrimeBetween(c, i + 1)
      decreases c
    {
      var b := IsImpl(c);
      if b {
        SearchFound(i, -1, c);
        return c;
      }
      SearchStep(i, -1, c, 0);
      c := c - 2;
    }
  }

  /** A prime above i bounds the upward search. */
  lemma SearchBound(i: int, j: int, p: int)
    requires i < j && NoPrimeBetween(i, j) && p > i && IsPrime(p)
    ensures j <= p
  {
  }

  /** The first candidate is odd and everything it skips is composite. */
  lemma SearchStart(i: int, dir: int)
    requires i > K0 && (dir == 1 || dir == -1)
    ensures var j := i + i % 2 + dir;
      && j % 2 == 1
      && (dir == 1 ==> i < j && NoPrimeBetween(i, j))
      && (dir == -1 ==> K0 <= j <= i && NoPrimeBetween(j, i + 1))
  {
    if i % 2 == 1 && dir == 1 {
      EvenNotPrime(i + 1);
    }
    if i % 2 == 0 && dir == -1 {
      EvenNotPrime(i);
    }
  }

  /** An accepted candidate is the answer. */
  lemma SearchFound(i: int, dir: int, j: int)
    requires i > K0 && (dir == 1 || dir == -1) && IsPrime(j)
    requires dir == 1 ==> i < j && NoPrimeBetween(i, j)
    requires dir == -1 ==> j <= i && NoPrimeBetween(j, i + 1)
    ensures dir == 1 ==> LeastPrimeAtLeast(i + 1, j)
    ensures dir == -1 ==> GreatestPrimeAtMost(i, j)
  {
  }

  /** A rejected odd candidate j and the even number past it are composite,
    * so the invariant moves on by two. */
  lemma SearchStep(i: int, dir: int, j: int, p: int)
    requires i > K0 && (dir == 1 || dir == -1) && j % 2 == 1 && !IsPrime(j)
    requires dir == 1 ==> i < j <= p && IsPrime(p) && NoPrimeBetween(i, j)
    requires dir == -1 ==> K0 <= j <= i && NoPrimeBetween(j, i + 1)
    ensures dir == 1 ==> i < j + 2 <= p && NoPrimeBetween(i, j + 2)
    ensures dir == -1 ==> K0 <= j - 2 && NoPrimeBetween(j - 2, i + 1)
  {
    if dir == 1 {
      EvenNotPrime(j + 1);
    } else {
      PrimeK0();
      EvenNotPrime(j - 1);
    }
  }
}
