/** Circus.Collections.Set<T>: an unordered container of unique elements
  * kept in separate chains. The bucket array has a prime length, taken
  * from the process-wide prime cache; a node records the hash of its
  * element. Elements are compared with ==, and the element hash is the
  * constant `hash` (see Chains.KeyHash). */
module Set {
  import opened Chains
  import PrimeDetail
  import Api

  type Chain<T> = seq<Node<T, ()>>

  /** The private Swap(Array, size) helper: a fresh copy of a bucket
    * array. */
  method CopyBuckets<T>(source: array<Chain<T>>) returns (r: array<Chain<T>>)
    ensures fresh(r) && r[..] == source[..]
  {
    r := new Chain<T>[source.Length](j requires 0 <= j < source.Length reads source => source[j]);
  }

  /** One Add of InitializeFrom: the elements track the members of the
    * prefix added so far, and their number grows with each new one. */
  lemma AddStep<T>(e: multiset<T>, e': multiset<T>, p: seq<T>, x: T, added: bool)
    requires forall v :: v in e <==> v in p
    requires added <==> x !in e
    requires e' == e + (if added then multiset{x} else multiset{})
    ensures forall v :: v in e' <==> v in p + [x]
    ensures |e'| == |e| + (if added then 1 else 0)
  {
  }

  class Set<T(==, !new)> {
    var buckets: array<Chain<T>>
    var count: int
    var capacity: int
    const offset: int
    const hash: T -> nat
    /** default(T). */
    const dflt: T
    const cache: PrimeDetail.Cache

    /** Every node is in the bucket its hash selects, carries the hash of
      * its element and no element is stored twice; Count is at least the
      * number of nodes (Remove may lose nodes without counting them); the
      * prime cache is filled. */
    ghost predicate Valid()
      reads this, buckets, cache
    {
      && WellFormed(buckets[..], hash)
      && |Flatten(buckets[..])| <= count
      && capacity >= 2
      && cache.Valid() && cache.primes != []
    }

    /** The stored elements; each has multiplicity one. */
    ghost function Elements(): multiset<T>
      reads this, buckets
    {
      KeyBag(buckets[..])
    }

    /** Set(capacity, offset, comparer): InitializeCore(capacity) then
      * Initialize(). The string hash is used when T is string and the
      * comparer is the default one. */
    constructor (capacity: int, offset: int, isString: bool, defaultComparer: bool,
                 digest: T -> Option<bv64>, code: T -> bv32, dflt: T, cache: PrimeDetail.Cache)
      requires cache.Valid() && cache.primes != []
      modifies cache
      ensures Valid() && fresh(buckets) && Elements() == multiset{} && count == 0
      ensures forall i | 0 <= i < buckets.Length :: buckets[i] == []
      ensures capacity == 5 ==> this.capacity == 5
      ensures capacity != 5 ==> PrimeDetail.LeastPrimeAtLeast(capacity, this.capacity)
      ensures buckets.Length == this.capacity
      ensures forall k :: hash(k) == KeyHash(isString && defaultComparer, digest(k), code(k))
      ensures this.offset == offset && this.dflt == dflt && this.cache == cache
    {
      var flag := isString && defaultComparer;
      this.offset := offset;
      this.hash := k => KeyHash(flag, digest(k), code(k));
      this.dflt := dflt;
      this.cache := cache;
      var c := capacity;
      if c != 5 {
        c := Api.NextPrime(cache, c);
      }
      this.capacity := c;
      new;
      Initialize();
    }

    /** Set(offset, array, comparer) for a Set source: the flag (here the
      * hash), the capacity, the buckets and Count are copied. */
    constructor FromSet(offset: int, other: Set<T>)
      requires other.Valid()
      ensures Valid() && fresh(buckets)
      ensures buckets[..] == other.buckets[..] && count == other.count && Elements() == other.Elements()
      ensures capacity == other.capacity && hash == other.hash && cache == other.cache
      ensures this.offset == offset
    {
      this.offset := offset;
      this.hash := other.hash;
      this.dflt := other.dflt;
      this.cache := other.cache;
      capacity := other.capacity;
      var a := CopyBuckets(other.buckets);
      buckets := a;
      count := other.count;
    }

    /** Set(offset, array, comparer) for any other source: capacity 5, then
      * Add of each element in order. */
    constructor FromSeq(offset: int, s: seq<T>, isString: bool, defaultComparer: bool,
                        digest: T -> Option<bv64>, code: T -> bv32, dflt: T, cache: PrimeDetail.Cache)
      requires cache.Valid() && cache.primes != []
      modifies cache
      ensures Valid() && fresh(buckets) && capacity == 5
      ensures forall v :: v in Elements() <==> v in s
      ensures count == |Elements()|
      ensures forall k :: hash(k) == KeyHash(isString && defaultComparer, digest(k), code(k))
      ensures this.offset == offset && this.cache == cache
    {
      var flag := isString && defaultComparer;
      this.offset := offset;
      this.hash := k => KeyHash(flag, digest(k), code(k));
      this.dflt := dflt;
      this.cache := cache;
      capacity := 5;
      new;
      InitializeFrom(s);
    }

    /** Initialize(array) for a source that is not a Set: Capacity empty
      * buckets, then Add of each element in order. */
    method InitializeFrom(s: seq<T>)
      requires capacity >= 2 && cache.Valid() && cache.primes != []
      modifies this, cache
      ensures Valid() && fresh(buckets) && capacity == old(capacity)
      ensures forall v :: v in Elements() <==> v in s
      ensures count == |Elements()|
    {
      Initialize();
      var i := 0;
      while i < |s|
        invariant 0 <= i <= |s|
        invariant Valid() && fresh(buckets) && capacity == old(capacity)
        invariant forall v :: v in Elements() <==> v in s[..i]
        invariant count == |Elements()|
      {
        ghost var e := Elements();
        Snoc(s, i);
        var added := Add(s[i]);
        AddStep(e, Elements(), s[..i], s[i], added);
        i := i + 1;
      }
      assert s[..i] == s;
    }

    /** Initialize(): Capacity empty buckets and Count 0. */
    method Initialize()
      requires capacity >= 2 && cache.Valid() && cache.primes != []
      modifies this
      ensures Valid() && fresh(buckets) && buckets.Length == capacity
      ensures count == 0 && Elements() == multiset{} && capacity == old(capacity)
      ensures forall i | 0 <= i < buckets.Length :: buckets[i] == []
    {
      buckets := new Chain<T>[capacity](_ => []);
      count := 0;
      assert buckets[..] == EmptyBuckets(capacity);
      EmptyWellFormed<T, ()>(capacity, hash);
    }

    /** GetBucketInfo: the element's hash and the bucket it selects. */
    function GetBucketInfo(key: T): (r: Bucket)
      reads this
      requires buckets.Length > 0
      ensures r.hash == hash(key) && r.index < buckets.Length
    {
      Bucket(hash(key), BucketOf(hash(key), buckets.Length))
    }

    /** Find: walk the chain of the element's bucket to the first node
      * holding it. */
    method Find(value: T) returns (found: bool, index: nat, bucket: Bucket)
      requires Valid()
      ensures bucket == GetBucketInfo(value)
      ensures found <==> value in Elements()
      ensures found <==> value in KeysOf(buckets[bucket.index])
      ensures found ==> index == Position(buckets[bucket.index], value)
    {
      bucket := GetBucketInfo(value);
      var chain := buckets[bucket.index];
      KeyInBucket(buckets[..], hash, value);
      InKeysOf(chain, value);
      index := 0;
      while index < |chain|
        invariant index <= |chain|
        invariant forall j | 0 <= j < index :: chain[j].key != value
      {
        if chain[index].key == value {
          assert Position(chain, value) == index;
          return true, index, bucket;
        }
        index := index + 1;
      }
      found := false;
    }

    /** Contains: Find's verdict. */
    method Contains(value: T) returns (r: bool)
      requires Valid()
      ensures r <==> value in Elements()
    {
      var i, b;
      r, i, b := Find(value);
    }

    /** this[value]: the value itself when present, else default(T). */
    method Item(value: T) returns (r: T)
      requires Valid()
      ensures value in Elements() ==> r == value
      ensures value !in Elements() ==> r == dflt
    {
      var found := Contains(value);
      r := if found then value else dflt;
    }

    /** Add: false when present; otherwise prepend a node to the element's
      * bucket, count it, and grow to NextPrime(Size + Offset) buckets when
      * Count reaches Size. */
    method Add(value: T) returns (r: bool)
      requires Valid()
      modifies this, buckets, cache
      ensures Valid() && capacity == old(capacity)
      ensures r <==> value !in old(Elements())
      ensures Elements() == old(Elements()) + (if r then multiset{value} else multiset{})
      ensures count == old(count) + (if r then 1 else 0)
      ensures !r ==> buckets == old(buckets) && buckets[..] == old(buckets[..])
      ensures r && count != old(buckets.Length) ==>
        buckets == old(buckets) && buckets[..] == Push(old(buckets[..]), Node(hash(value), value, ()))
      ensures r && count == old(buckets.Length) ==>
        fresh(buckets) && PrimeDetail.LeastPrimeAtLeast(old(buckets.Length) + offset, buckets.Length)
      ensures buckets == old(buckets) || fresh(buckets)
    {
      var found, _, bucket := Find(value);
      if found {
        return false;
      }
      ghost var before := buckets[..];
      var x := Node(bucket.hash, value, ());
      PushWellFormed(before, x, hash);
      buckets[bucket.index] := [x] + buckets[bucket.index];
      assert buckets[..] == Push(before, x);
      count := count + 1;
      if count == buckets.Length {
        ResizeCore(buckets.Length + offset);
      }
      r := true;
    }

    /** ResizeCore: NextPrime(size) new buckets, each old chain pushed
      * node by node from its head, bucket by bucket. */
    method ResizeCore(size: int)
      requires Valid()
      modifies this, cache
      ensures Valid() && fresh(buckets) && count == old(count) && capacity == old(capacity)
      ensures PrimeDetail.LeastPrimeAtLeast(size, buckets.Length)
      ensures buckets[..] == Rehash(old(buckets[..]), EmptyBuckets(buckets.Length))
      ensures Bag(buckets[..]) == Bag(old(buckets[..])) && Elements() == old(Elements())
    {
      var n := Api.NextPrime(cache, size);
      var nb := RehashInto(buckets, n);
      RehashWellFormed(buckets[..], n, hash);
      buckets := nb;
    }

    /** Remove as written: the bucket head becomes the found node's
      * successor, so the nodes before it in the chain are lost, and Count
      * drops by one. */
    method Remove(value: T) returns (r: bool)
      requires Valid()
      modifies this, buckets
      ensures Valid() && buckets == old(buckets) && capacity == old(capacity)
      ensures r <==> value in old(Elements())
      ensures !r ==> buckets[..] == old(buckets[..]) && count == old(count)
      ensures r ==> count == old(count) - 1
      ensures r ==> value in KeysOf(old(buckets[GetBucketInfo(value).index]))
      ensures r ==>
        var c := old(buckets[GetBucketInfo(value).index]);
        var p := Position(c, value);
        && buckets[..] == old(buckets[..])[GetBucketInfo(value).index := c[p + 1..]]
        && Elements() + multiset(KeysOf(c[..p + 1])) == old(Elements())
        && (p == 0 ==> Elements() == old(Elements()) - multiset{value})
    {
      var found, index, bucket := Find(value);
      if !found {
        return false;
      }
      ghost var before := buckets[..];
      DropThrough(before, hash, bucket.index, index);
      var chain := buckets[bucket.index];
      buckets[bucket.index] := chain[index + 1..];
      assert buckets[..] == before[bucket.index := chain[index + 1..]];
      if index == 0 {
        assert KeysOf(chain[..1]) == [value];
      }
      count := count - 1;
      r := true;
    }

    /** Remove as evidently intended: only the found node is unlinked. */
    method RemoveExact(value: T) returns (r: bool)
      requires Valid()
      modifies this, buckets
      ensures Valid() && buckets == old(buckets) && capacity == old(capacity)
      ensures r <==> value in old(Elements())
      ensures Elements() == old(Elements()) - multiset{value}
      ensures count == old(count) - (if r then 1 else 0)
      ensures !r ==> buckets[..] == old(buckets[..])
    {
      var found, index, bucket := Find(value);
      if !found {
        return false;
      }
      ghost var before := buckets[..];
      CutAt(before, hash, bucket.index, index);
      var chain := buckets[bucket.index];
      buckets[bucket.index] := chain[..index] + chain[index + 1..];
      assert buckets[..] == before[bucket.index := chain[..index] + chain[index + 1..]];
      count := count - 1;
      r := true;
    }

    /** Reserve as written: ResizeCore(Size + (size - Size - Count)), that
      * is NextPrime(size - Count) buckets, which shrinks the table when
      * size is small. */
    method Reserve(size: int)
      requires Valid()
      modifies this, cache
      ensures Valid() && fresh(buckets) && count == old(count) && Elements() == old(Elements())
      ensures PrimeDetail.LeastPrimeAtLeast(size - old(count), buckets.Length)
    {
      ResizeCore(buckets.Length + (size - buckets.Length - count));
    }

    /** Reserve as Vector.Reserve does it: grow only when fewer than size
      * free buckets remain, to Count + size. */
    method ReserveCorrected(size: int)
      requires Valid()
      modifies this, cache
      ensures Valid() && count == old(count) && Elements() == old(Elements())
      ensures size > old(buckets.Length) - old(count) ==> fresh(buckets) && PrimeDetail.LeastPrimeAtLeast(old(count) + size, buckets.Length)
      ensures size <= old(buckets.Length) - old(count) ==> buckets == old(buckets)
      ensures buckets.Length - count >= size
    {
      var free := buckets.Length - count;
      if size > free {
        ResizeCore(buckets.Length + (size - free));
      }
    }

    /** Resize: ignored below Count, else ResizeCore(size). */
    method Resize(size: int)
      requires Valid()
      modifies this, cache
      ensures Valid() && count == old(count) && Elements() == old(Elements())
      ensures size < old(count) ==> buckets == old(buckets)
      ensures size >= old(count) ==> fresh(buckets) && PrimeDetail.LeastPrimeAtLeast(size, buckets.Length)
    {
      if size < count {
        return;
      }
      ResizeCore(size);
    }

    /** Trim: NextPrime(Count) buckets unless empty. */
    method Trim()
      requires Valid()
      modifies this, cache
      ensures Valid() && count == old(count) && Elements() == old(Elements())
      ensures old(count) <= 0 ==> buckets == old(buckets)
      ensures old(count) > 0 ==> fresh(buckets) && PrimeDetail.LeastPrimeAtLeast(count, buckets.Length)
    {
      if count > 0 {
        ResizeCore(count);
      }
    }

    /** Clear(trim): nothing when Count is 0; else Capacity new buckets
      * (trim) or every bucket emptied in place. */
    method Clear(trim: bool)
      requires Valid()
      modifies this, buckets
      ensures Valid() && capacity == old(capacity)
      ensures old(count) > 0 ==> count == 0 && Elements() == multiset{}
      ensures old(count) > 0 && trim ==> fresh(buckets) && buckets.Length == capacity
      ensures old(count) > 0 && !trim ==> buckets == old(buckets)
      ensures old(count) <= 0 ==> buckets == old(buckets) && buckets[..] == old(buckets[..]) && count == old(count)
      ensures Elements() == multiset{}
    {
      if count > 0 {
        if trim {
          Initialize();
        } else {
          Empty();
        }
      } else {
        assert |KeysOf(Flatten(buckets[..]))| == 0;
      }
    }

    /** Array.Clear(array, 0, Size) and Count = 0. */
    method Empty()
      requires Valid()
      modifies this, buckets
      ensures Valid() && buckets == old(buckets) && capacity == old(capacity)
      ensures count == 0 && Elements() == multiset{}
    {
      forall j | 0 <= j < buckets.Length {
        buckets[j] := [];
      }
      assert buckets[..] == EmptyBuckets(buckets.Length);
      EmptyWellFormed<T, ()>(buckets.Length, hash);
      count := 0;
    }

    /** Swap: each set gets a copy of the other's buckets and its Count.
      * The sets keep their own hash, so they stay valid when the hashes
      * agree. */
    method Swap(other: Set<T>)
      requires Valid() && other.Valid()
      modifies this, other
      ensures buckets[..] == old(other.buckets[..]) && count == old(other.count)
      ensures other.buckets[..] == old(buckets[..]) && other.count == old(count)
      ensures fresh(buckets) && fresh(other.buckets)
      ensures hash == other.hash ==> Valid() && other.Valid()
    {
      var num := count;
      var a := CopyBuckets(buckets);
      buckets := CopyBuckets(other.buckets);
      count := other.count;
      other.buckets := a;
      other.count := num;
    }

    /** ToArray: Count slots filled with the elements in enumeration
      * order; slots beyond the stored nodes keep default(T). */
    method ToArray() returns (a: array<T>)
      requires Valid()
      ensures fresh(a)
      ensures a[..] == KeysOf(Flatten(buckets[..])) + seq(count - |Flatten(buckets[..])|, _ => dflt)
    {
      ghost var bs := buckets[..];
      ghost var all := Flatten(bs);
      a := new T[count](_ => dflt);
      var num := 0;
      var i := 0;
      while i < buckets.Length
        invariant 0 <= i <= buckets.Length
        invariant num == |Flatten(bs[..i])| <= |all|
        invariant a[..num] == KeysOf(Flatten(bs[..i]))
        invariant a[num..] == seq(count - num, _ => dflt)
      {
        FlattenPrefix(bs, i);
        FlattenPrefixLength(bs, i + 1);
        KeysOfConcat(Flatten(bs[..i]), bs[i]);
        ConstantTail(a[num..], |bs[i]|, dflt);
        num := WriteKeys(a, num, buckets[i]);
        i := i + 1;
      }
      assert bs[..i] == bs;
      assert a[..] == a[..num] + a[num..];
    }
  }

  /** Remove as written: with every element in bucket 0, adding 1 and
    * then 2 gives the chain 2, 1; removing 1 then loses 2 as well, while
    * Count still says 1. */
  method RemoveLosesEarlierExample(cache: PrimeDetail.Cache) returns (s: Set<int>)
    requires cache.Valid() && cache.primes != []
    modifies cache
    ensures s.Valid() && s.count == 1 && s.Elements() == multiset{}
  {
    s := new Set(5, 5, false, false, _ => None, _ => 0, 0, cache);
    var a := s.Add(1);
    var b := s.Add(2);
    assert s.buckets[0] == [Node(0, 2, ()), Node(0, 1, ())];
    var c := s.Remove(1);
  }

  /** RemoveExact on the same table keeps 2. */
  method RemoveExactExample(cache: PrimeDetail.Cache) returns (s: Set<int>)
    requires cache.Valid() && cache.primes != []
    modifies cache
    ensures s.Valid() && s.count == 1 && s.Elements() == multiset{2}
  {
    s := new Set(5, 5, false, false, _ => None, _ => 0, 0, cache);
    var a := s.Add(1);
    var b := s.Add(2);
    var c := s.RemoveExact(1);
  }

  /** Reserve as written: three elements in five buckets, Reserve(3)
    * shrinks the table to NextPrime(0) == 2 buckets. */
  method ReserveShrinksExample(cache: PrimeDetail.Cache) returns (s: Set<int>)
    requires cache.Valid() && cache.primes != []
    modifies cache
    ensures s.Valid() && s.count == 3 && s.buckets.Length == 2
  {
    s := new Set(5, 5, false, false, _ => None, _ => 0, 0, cache);
    var a := s.Add(1);
    var b := s.Add(2);
    var c := s.Add(3);
    s.Reserve(3);
    assert PrimeDetail.IsPrime(2);
  }

  /** ReserveCorrected on the same table leaves room for three more. */
  method ReserveCorrectedExample(cache: PrimeDetail.Cache) returns (s: Set<int>)
    requires cache.Valid() && cache.primes != []
    modifies cache
    ensures s.Valid() && s.count == 3 && s.buckets.Length >= 6
  {
    s := new Set(5, 5, false, false, _ => None, _ => 0, 0, cache);
    var a := s.Add(1);
    var b := s.Add(2);
    var c := s.Add(3);
    s.ReserveCorrected(3);
  }
}
