/** The exported C entry points of the native library: each builds
  * basic_string objects from UTF-16 buffers (keeping every other byte),
  * applies a length guard and makes one call. Results of type size_t are
  * cast to int, which turns npos into -1. The prime entry points share
  * the process-wide prime cache, passed here as a parameter. */
module Api {
  import opened Text
  import Farmx
  import Numerics
  import PrimeDetail
  import Prime

  const INT_MAX: int := 0x7fff_ffff

  /** The (int) cast of a size_t result: npos becomes -1, an index below
    * 2^31 is kept. */
  function ToInt(r: nat): (v: int)
    requires r == NPOS || r <= INT_MAX
    ensures r == NPOS ==> v == -1
    ensures r != NPOS ==> v == r
  {
    if r == NPOS then -1 else r
  }

  /** The buffer holds a UTF-16 string of n characters with n a
    * non-negative int. */
  predicate Buffer(str: seq<bv8>, n: nat)
  {
    n <= INT_MAX && 2 * n <= |str| + 1
  }

  /** Contains(str, n, str1, n1): -1 when either length is 0, else the
    * first index of str whose byte occurs anywhere in str1. */
  method Contains(str: seq<bv8>, n: nat, str1: seq<bv8>, n1: nat) returns (r: int)
    requires Buffer(str, n) && Buffer(str1, n1)
    ensures r == -1 <==> forall k | 0 <= k < n :: Narrow(str, n)[k] !in Narrow(str1, n1)
    ensures r != -1 ==> 0 <= r < n && Narrow(str, n)[r] in Narrow(str1, n1)
    ensures r != -1 ==> forall k | 0 <= k < r :: Narrow(str, n)[k] !in Narrow(str1, n1)
  {
    if n == 0 || n1 == 0 {
      return -1;
    }
    var a := new BasicString(str, n);
    var b := new BasicString(str1, n1);
    var i := a.First(b.Contents(), 0);
    FirstFromIsLeast(a.Contents(), b.Contents(), true, 0);
    r := ToInt(i);
  }

  /** Equals: false for different lengths, else compare() == 0. */
  method Equals(str: seq<bv8>, n: nat, str1: seq<bv8>, n1: nat) returns (r: bool)
    requires Buffer(str, n) && Buffer(str1, n1)
    ensures r <==> Narrow(str, n) == Narrow(str1, n1)
  {
    if n != n1 {
      return false;
    }
    var a := new BasicString(str, n);
    var b := new BasicString(str1, n1);
    CompareZeroIffEqual(a.Contents(), b.Contents());
    r := Compare(a.Contents(), b.Contents()) == 0;
  }

  /** FirstNotOf: the first index of str whose byte does not occur in
    * str1, with no length guard. */
  method FirstNotOf(str: seq<bv8>, n: nat, str1: seq<bv8>, n1: nat) returns (r: int)
    requires Buffer(str, n) && Buffer(str1, n1)
    ensures r == -1 <==> forall k | 0 <= k < n :: Narrow(str, n)[k] in Narrow(str1, n1)
    ensures r != -1 ==> 0 <= r < n && Narrow(str, n)[r] !in Narrow(str1, n1)
    ensures r != -1 ==> forall k | 0 <= k < r :: Narrow(str, n)[k] in Narrow(str1, n1)
  {
    var a := new BasicString(str, n);
    var b := new BasicString(str1, n1);
    var i := a.FirstNotOf(b.Contents(), 0);
    FirstFromIsLeast(a.Contents(), b.Contents(), false, 0);
    r := ToInt(i);
  }

  /** Hash(str, n, hash): false with hash untouched for n == 0, else true
    * with hash set to the FarmHash digest of the narrowed bytes. */
  method Hash(str: seq<bv8>, n: nat, hash: bv64) returns (ok: bool, hash': bv64)
    requires Buffer(str, n)
    ensures ok <==> n > 0
    ensures !ok ==> hash' == hash
    ensures ok ==> hash' == Farmx.Hash64(Narrow(str, n))
  {
    if n == 0 {
      return false, hash;
    }
    var a := new BasicString(str, n);
    return true, a.Hash();
  }

  /** IsNumeric(str, n, s, d): false for n == 0 (flags untouched), else
    * numerics::is on the narrowed bytes. */
  method IsNumeric(str: seq<bv8>, n: nat, s: bool, d: bool) returns (o: Numerics.Outcome)
    requires Buffer(str, n)
    ensures o.numeric <==> n > 0 && Numerics.Numeral(Narrow(str, n))
    ensures !o.numeric ==> o.signed == s && o.decimal == d
    ensures o.numeric ==> (o.signed <==> s || Narrow(str, n)[0] == Numerics.MINUS)
    ensures o.numeric ==> (o.decimal <==> d || Numerics.DOT in Narrow(str, n))
  {
    if n == 0 {
      return Numerics.Outcome(false, s, d);
    }
    var a := new BasicString(str, n);
    o := Numerics.Is(a.Contents(), s, d);
    Numerics.IsAcceptsNumerals(a.Contents(), s, d);
    Numerics.IsFlags(a.Contents(), s, d);
  }

  /** Last: -1 when either length is 0, else the last index of str whose
    * byte occurs in str1. */
  method Last(str: seq<bv8>, n: nat, str1: seq<bv8>, n1: nat) returns (r: int)
    requires Buffer(str, n) && Buffer(str1, n1)
    ensures r == -1 <==> forall k | 0 <= k < n :: Narrow(str, n)[k] !in Narrow(str1, n1)
    ensures r != -1 ==> 0 <= r < n && Narrow(str, n)[r] in Narrow(str1, n1)
    ensures r != -1 ==> forall k | r < k < n :: Narrow(str, n)[k] !in Narrow(str1, n1)
  {
    if n == 0 || n1 == 0 {
      return -1;
    }
    var a := new BasicString(str, n);
    var b := new BasicString(str1, n1);
    var i := a.Last(b.Contents(), NPOS);
    LastFromIsGreatest(a.Contents(), b.Contents(), true, n - 1);
    r := ToInt(i);
  }

  /** LastNotOf: the last index of str whose byte does not occur in str1.
    * There is no length guard; last_not_of needs a non-empty string. */
  method LastNotOf(str: seq<bv8>, n: nat, str1: seq<bv8>, n1: nat) returns (r: int)
    requires Buffer(str, n) && Buffer(str1, n1) && n > 0
    ensures r == -1 <==> forall k | 0 <= k < n :: Narrow(str, n)[k] in Narrow(str1, n1)
    ensures r != -1 ==> 0 <= r < n && Narrow(str, n)[r] !in Narrow(str1, n1)
    ensures r != -1 ==> forall k | r < k < n :: Narrow(str, n)[k] in Narrow(str1, n1)
  {
    var a := new BasicString(str, n);
    var b := new BasicString(str1, n1);
    var i := a.LastNotOf(b.Contents(), NPOS);
    LastFromIsGreatest(a.Contents(), b.Contents(), false, n - 1);
    r := ToInt(i);
  }

  /** IsPrime(i) == prime::is(i). */
  method IsPrime(c: PrimeDetail.Cache, i: int) returns (r: bool)
    modifies c
    requires c.Valid()
    ensures c.Valid()
    ensures old(c.primes) != [] ==> (r <==> PrimeDetail.IsPrime(i))
  {
    r := Prime.Is(c, i);
  }

  /** NextPrime(i) == prime::next(i, 1): on a filled cache the least prime
    * at least i. */
  method NextPrime(c: PrimeDetail.Cache, i: int) returns (r: int)
    modifies c
    requires c.Valid()
    ensures c.Valid()
    ensures old(c.primes) != [] ==> c.primes == old(c.primes)
    ensures old(c.primes) != [] ==> PrimeDetail.LeastPrimeAtLeast(i, r)
  {
    r := Prime.Next(c, i, 1);
  }

  /** PreviousPrime(i) == prime::next(i, -1): on a filled cache the
    * greatest prime at most i, and 2 below 2. */
  method PreviousPrime(c: PrimeDetail.Cache, i: int) returns (r: int)
    modifies c
    requires c.Valid()
    ensures c.Valid()
    ensures old(c.primes) != [] && i < 2 ==> r == 2
    ensures old(c.primes) != [] && i >= 2 ==> PrimeDetail.GreatestPrimeAtMost(i, r)
  {
    r := Prime.Next(c, i, -1);
  }
}
