/** circus::prime: primality test and next/previous prime on top of the
  * cache in PrimeDetail. The process-wide cache is passed explicitly. */
module Prime {
  import opened PrimeDetail

  /** is(i): false for i < 2 and for even i > 2; the cache (exact lookup)
    * below k0; trial division from k0 on. The exact lookup that fills an
    * empty cache answers false, whatever i is. */
  method Is(c: Cache, i: int) returns (r: bool)
    modifies c
    requires c.Valid()
    ensures c.Valid()
    ensures 2 <= i < K0 && (i == 2 || i % 2 == 1) ==> c.primes == Table()
    ensures !(2 <= i < K0 && (i == 2 || i % 2 == 1)) ==> c.primes == old(c.primes)
    ensures old(c.primes) == [] && 2 <= i < K0 && (i == 2 || i % 2 == 1) ==> !r
    ensures !(old(c.primes) == [] && 2 <= i < K0 && (i == 2 || i % 2 == 1)) ==> (r <==> IsPrime(i))
  {
    if i < 2 || (i > 2 && i % 2 == 0) {
      if i > 2 {
        EvenNotPrime(i);
      }
      return false;
    }
    if i < K0 {
      var found := c.BSearch(i, 0, true);
      return found != 0;
    }
    r := IsImpl(i);
  }

  /** is(i) over the corrected lookup: the answer is primality itself,
    * on the first call as on every later one. */
  method IsCorrected(c: Cache, i: int) returns (r: bool)
    modifies c
    requires c.Valid()
    ensures c.Valid()
    ensures r <==> IsPrime(i)
  {
    if i < 2 || (i > 2 && i % 2 == 0) {
      if i > 2 {
        EvenNotPrime(i);
      }
      return false;
    }
    if i < K0 {
      var found := c.BSearchCorrected(i, 0, true);
      return found != 0;
    }
    r := IsImpl(i);
  }

  /** The first is(3) of a process answers false although 3 is prime; the
    * corrected lookup answers true. */
  method FirstCallExample() returns (r: bool, corrected: bool)
    ensures !r && corrected
  {
    var c := new Cache();
    r := Is(c, 3);
    var d := new Cache();
    assert IsPrime(3);
    corrected := IsCorrected(d, 3);
  }

  /** next(i, dir): 0 unless dir is 1 or -1; i itself when is(i) says it is
    * prime; otherwise find(i, dir). On a filled cache this is the least
    * prime at least i (dir == 1) or the greatest prime at most i
    * (dir == -1), where below 2 the answer is 2 in both directions. The
    * first call, on an empty cache, returns 0 for an even i in (2, k0). */
  method Next(c: Cache, i: int, dir: int) returns (r: int)
    modifies c
    requires c.Valid()
    ensures c.Valid()
    ensures old(c.primes) != [] ==> c.primes == old(c.primes)
    ensures dir != 1 && dir != -1 ==> r == 0 && c.primes == old(c.primes)
    ensures (dir == 1 || dir == -1) && old(c.primes) == [] && 2 < i < K0 && i % 2 == 0 ==> r == 0
    ensures (dir == 1 || dir == -1) && !(old(c.primes) == [] && 2 < i < K0 && i % 2 == 0) ==>
      && (dir == 1 ==> LeastPrimeAtLeast(i, r))
      && (dir == -1 && i < 2 ==> r == 2)
      && (dir == -1 && i >= 2 ==> GreatestPrimeAtMost(i, r))
  {
    if dir != 1 && dir != -1 {
      return 0;
    }
    ghost var before := c.primes;
    var p := Is(c, i);
    if p {
      PrimeIsItsOwnNeighbour(i);
      return i;
    }
    PrimeK0();
    assert 2 < i <= K0 && !(before == [] && i % 2 == 0) ==> c.primes != [];
    r := c.Find(i, dir);
    if i <= 2 {
      TwoIsNearest(i);
    } else if i > K0 && dir == 1 {
      LeastPrimeFromNext(i, r);
    }
  }

  lemma PrimeIsItsOwnNeighbour(i: int)
    requires IsPrime(i)
    ensures LeastPrimeAtLeast(i, i) && GreatestPrimeAtMost(i, i)
  {
  }

  /** No prime lies below 2. */
  lemma TwoIsNearest(i: int)
    requires i <= 2
    ensures LeastPrimeAtLeast(i, 2)
    ensures i == 2 ==> GreatestPrimeAtMost(i, 2)
  {
    assert IsPrime(2);
  }

  lemma LeastPrimeFromNext(i: int, r: int)
    requires !IsPrime(i) && LeastPrimeAtLeast(i + 1, r)
    ensures LeastPrimeAtLeast(i, r)
  {
  }
}
