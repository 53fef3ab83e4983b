/** Circus.Collections.Map<T, U>: an unordered container of key/value
  * pairs with unique keys, kept in separate chains exactly like Set<T>.
  * Keys are compared with ==, and the key hash is the constant `hash`
  * (see Chains.KeyHash). A node's value is updated in place by
  * AddOrUpdate; the model stores the updated node in its chain. */
module Map {
  import opened Chains
  import PrimeDetail
  import Api

  type Chain<T, U> = seq<Node<T, U>>

  /** The private Swap(Array, size) helper: a fresh copy of a bucket
    * array. */
  method CopyBuckets<T, U>(source: array<Chain<T, U>>) returns (r: array<Chain<T, U>>)
    ensures fresh(r) && r[..] == source[..]
  {
    r := new Chain<T, U>[source.Length](j requires 0 <= j < source.Length reads source => source[j]);
  }

  class Map<T(==, !new), U(!new)> {
    var buckets: array<Chain<T, U>>
    var count: int
    var capacity: int
    const offset: int
    const hash: T -> nat
    /** default(T) and default(U). */
    const dfltKey: T
    const dflt: U
    const cache: PrimeDetail.Cache

    /** The Set invariant: placed, hashed, distinct keys, Count at least
      * the number of nodes, a filled prime cache. */
    ghost predicate Valid()
      reads this, buckets, cache
    {
      && WellFormed(buckets[..], hash)
      && |Flatten(buckets[..])| <= count
      && capacity >= 2
      && cache.Valid() && cache.primes != []
    }

    /** The stored keys; each has multiplicity one. */
    ghost function Keys(): multiset<T>
      reads this, buckets
    {
      KeyBag(buckets[..])
    }

    /** The map sends key to value. */
    ghost predicate Has(key: T, value: U)
      reads this, buckets
    {
      Node(hash(key), key, value) in Bag(buckets[..])
    }

    /** Map(capacity, offset, comparer): InitializeCore(capacity) then
      * Initialize(). */
    constructor (capacity: int, offset: int, isString: bool, defaultComparer: bool,
                 digest: T -> Option<bv64>, code: T -> bv32, dfltKey: T, dflt: U, cache: PrimeDetail.Cache)
      requires cache.Valid() && cache.primes != []
      modifies cache
      ensures Valid() && fresh(buckets) && Keys() == multiset{} && count == 0
      ensures forall i | 0 <= i < buckets.Length :: buckets[i] == []
      ensures capacity == 5 ==> this.capacity == 5
      ensures capacity != 5 ==> PrimeDetail.LeastPrimeAtLeast(capacity, this.capacity)
      ensures buckets.Length == this.capacity
      ensures forall k :: hash(k) == KeyHash(isString && defaultComparer, digest(k), code(k))
      ensures this.offset == offset && this.dflt == dflt && this.cache == cache
    {
      var flag := isString && defaultComparer;
      this.offset := offset;
      this.hash := k => KeyHash(flag, digest(k), code(k));
      this.dfltKey := dfltKey;
      this.dflt := dflt;
      this.cache := cache;
      var c := capacity;
      if c != 5 {
        c := Api.NextPrime(cache, c);
      }
      this.capacity := c;
      new;
      Initialize();
    }

    /** Map(offset, array, comparer): capacity 5, then Add of each pair in
      * order; a later pair with a key already added is ignored. */
    constructor FromSeq(offset: int, s: seq<(T, U)>, isString: bool, defaultComparer: bool,
                        digest: T -> Option<bv64>, code: T -> bv32, dfltKey: T, dflt: U, cache: PrimeDetail.Cache)
      requires cache.Valid() && cache.primes != []
      modifies cache
      ensures Valid() && fresh(buckets) && capacity == 5
      ensures forall k :: k in Keys() <==> k in FirstsOf(s)
      ensures forall i | 0 <= i < |s| && FirstPair(s, i) :: Has(s[i].0, s[i].1)
      ensures count == |Keys()|
      ensures forall k :: hash(k) == KeyHash(isString && defaultComparer, digest(k), code(k))
      ensures this.offset == offset && this.cache == cache
    {
      var flag := isString && defaultComparer;
      this.offset := offset;
      this.hash := k => KeyHash(flag, digest(k), code(k));
      this.dfltKey := dfltKey;
      this.dflt := dflt;
      this.cache := cache;
      capacity := 5;
      new;
      InitializeFrom(s);
    }

    /** Initialize(array): Capacity empty buckets, then Add of each pair
      * in order. */
    method InitializeFrom(s: seq<(T, U)>)
      requires capacity >= 2 && cache.Valid() && cache.primes != []
      modifies this, cache
      ensures Valid() && fresh(buckets) && capacity == old(capacity)
      ensures forall k :: k in Keys() <==> k in FirstsOf(s)
      ensures forall i | 0 <= i < |s| && FirstPair(s, i) :: Has(s[i].0, s[i].1)
      ensures count == |Keys()|
    {
      Initialize();
      var i := 0;
      while i < |s|
        invariant 0 <= i <= |s|
        invariant Valid() && fresh(buckets) && capacity == old(capacity)
        invariant forall k :: k in Keys() <==> k in FirstsOf(s[..i])
        invariant forall j | 0 <= j < i && FirstPair(s, j) :: Has(s[j].0, s[j].1)
        invariant count == |Keys()|
      {
        AddPair(s, i);
        i := i + 1;
      }
      assert s[..i] == s;
    }

    /** One step of InitializeFrom: Add of the pair s[i]. */
    method AddPair(s: seq<(T, U)>, i: nat)
      requires Valid() && i < |s|
      requires forall k :: k in Keys() <==> k in FirstsOf(s[..i])
      requires forall j | 0 <= j < i && FirstPair(s, j) :: Has(s[j].0, s[j].1)
      requires count == |Keys()|
      modifies this, buckets, cache
      ensures Valid() && capacity == old(capacity)
      ensures buckets == old(buckets) || fresh(buckets)
      ensures forall k :: k in Keys() <==> k in FirstsOf(s[..i + 1])
      ensures forall j | 0 <= j < i + 1 && FirstPair(s, j) :: Has(s[j].0, s[j].1)
      ensures count == |Keys()|
    {
      ghost var e := Keys();
      assert FirstsOf(s[..i + 1]) == FirstsOf(s[..i]) + [s[i].0];
      FirstPairIsNew(s, i);
      forall j | 0 <= j < i && FirstPair(s, j) ensures s[j].0 in e {
        assert FirstsOf(s[..i])[j] == s[j].0;
      }
      ghost var b := Bag(buckets[..]);
      label before:
      var added := Add(s[i].0, s[i].1);
      AddStep(e, Keys(), FirstsOf(s[..i]), s[i].0, added);
      if added {
        forall k, v | k != s[i].0
          ensures Node(hash(k), k, v) in Bag(buckets[..]) <==> Node(hash(k), k, v) in b
        {
          assert Has(k, v) <==> old@before(Has(k, v));
        }
      }
      FirstValuesStep(s, i, hash, b, Bag(buckets[..]), added);
    }

    /** Initialize(): Capacity empty buckets and Count 0. */
    method Initialize()
      requires capacity >= 2 && cache.Valid() && cache.primes != []
      modifies this
      ensures Valid() && fresh(buckets) && buckets.Length == capacity
      ensures count == 0 && Keys() == multiset{} && capacity == old(capacity)
      ensures forall i | 0 <= i < buckets.Length :: buckets[i] == []
    {
      buckets := new Chain<T, U>[capacity](_ => []);
      count := 0;
      assert buckets[..] == EmptyBuckets(capacity);
      EmptyWellFormed<T, U>(capacity, hash);
    }

    /** GetBucketInfo: the key's hash and the bucket it selects. */
    function GetBucketInfo(key: T): (r: Bucket)
      reads this
      requires buckets.Length > 0
      ensures r.hash == hash(key) && r.index < buckets.Length
    {
      Bucket(hash(key), BucketOf(hash(key), buckets.Length))
    }

    /** Find: walk the chain of the key's bucket to the first node holding
      * it. */
    method Find(key: T) returns (found: bool, index: nat, bucket: Bucket)
      requires Valid()
      ensures bucket == GetBucketInfo(key)
      ensures found <==> key in Keys()
      ensures found <==> key in KeysOf(buckets[bucket.index])
      ensures found ==> index == Position(buckets[bucket.index], key)
    {
      bucket := GetBucketInfo(key);
      var chain := buckets[bucket.index];
      KeyInBucket(buckets[..], hash, key);
      InKeysOf(chain, key);
      index := 0;
      while index < |chain|
        invariant index <= |chain|
        invariant forall j | 0 <= j < index :: chain[j].key != key
      {
        if chain[index].key == key {
          assert Position(chain, key) == index;
          return true, index, bucket;
        }
        index := index + 1;
      }
      found := false;
    }

    /** The node Find reaches is the key's node. */
    lemma FoundNode(key: T, b: nat, p: nat)
      requires Valid() && b < buckets.Length && p < |buckets[b]| && buckets[b][p].key == key
      ensures buckets[b][p] in Bag(buckets[..])
      ensures Has(key, buckets[b][p].value)
    {
      InFlatten(buckets[..], buckets[b][p]);
      assert buckets[b][p] in buckets[..][b];
    }

    /** A key has at most one value. */
    lemma HasUnique(key: T, v: U, w: U)
      requires Valid() && Has(key, v) && Has(key, w)
      ensures v == w
    {
      KeyUnique(buckets[..], Node(hash(key), key, v), Node(hash(key), key, w));
    }

    /** A key is stored exactly when it has a value. */
    lemma KeyHasValue(key: T)
      requires Valid()
      ensures key in Keys() <==> exists v :: Has(key, v)
    {
      KeyHasNode(buckets[..], key);
      if key in Keys() {
        var x :| x in Bag(buckets[..]) && x.key == key;
        NodeHashed(buckets[..], hash, x);
        assert Has(key, x.value);
      }
      if exists v :: Has(key, v) {
        var v :| Has(key, v);
        assert Node(hash(key), key, v).key == key;
      }
    }

    /** Contains: Find's verdict. */
    method Contains(key: T) returns (r: bool)
      requires Valid()
      ensures r <==> key in Keys()
    {
      var i, b;
      r, i, b := Find(key);
    }

    /** Get(key, out value): true with the stored value, or false with
      * default(U). This is also the indexer's getter. */
    method Get(key: T) returns (found: bool, value: U)
      requires Valid()
      ensures found <==> key in Keys()
      ensures found ==> Has(key, value)
      ensures !found ==> value == dflt
    {
      var index, bucket;
      found, index, bucket := Find(key);
      if found {
        value := buckets[bucket.index][index].value;
        FoundNode(key, bucket.index, index);
      } else {
        value := dflt;
      }
    }

    /** Add(key, value): insert when the key is absent; an existing value
      * is left as it is. */
    method Add(key: T, value: U) returns (r: bool)
      requires Valid()
      modifies this, buckets, cache
      ensures Valid() && capacity == old(capacity)
      ensures r <==> key !in old(Keys())
      ensures !r ==> buckets == old(buckets) && buckets[..] == old(buckets[..]) && count == old(count)
      ensures r ==> Keys() == old(Keys()) + multiset{key} && count == old(count) + 1
      ensures r ==> Has(key, value) && forall k, v | k != key :: Has(k, v) <==> old(Has(k, v))
      ensures key !in old(Keys()) && count != old(buckets.Length) ==>
        buckets == old(buckets) && buckets[..] == Push(old(buckets[..]), Node(hash(key), key, value))
      ensures key !in old(Keys()) && count == old(buckets.Length) ==>
        fresh(buckets) && PrimeDetail.LeastPrimeAtLeast(old(buckets.Length) + offset, buckets.Length)
      ensures buckets == old(buckets) || fresh(buckets)
    {
      r := AddCore(key, value, false);
    }

    /** AddOrUpdate: the key now has the value; other keys keep theirs. */
    method AddOrUpdate(key: T, value: U)
      requires Valid()
      modifies this, buckets, cache
      ensures Valid() && capacity == old(capacity)
      ensures Has(key, value)
      ensures forall k, v | k != key :: Has(k, v) <==> old(Has(k, v))
      ensures Keys() == old(Keys()) + (if key in old(Keys()) then multiset{} else multiset{key})
      ensures count == old(count) + (if key in old(Keys()) then 0 else 1)
      ensures buckets == old(buckets) || fresh(buckets)
    {
      var _ := AddCore(key, value, true);
    }

    /** The private Add(key, value, update): an existing key gets the value
      * when update is set (true) or is left alone (false); a new key is
      * inserted (true). */
    method AddCore(key: T, value: U, update: bool) returns (r: bool)
      requires Valid()
      modifies this, buckets, cache
      ensures Valid() && capacity == old(capacity)
      ensures r <==> update || key !in old(Keys())
      ensures key in old(Keys()) && !update ==> buckets == old(buckets) && buckets[..] == old(buckets[..]) && count == old(count)
      ensures key in old(Keys()) && update ==> buckets == old(buckets) && count == old(count) && Keys() == old(Keys())
      ensures key in old(Keys()) && update ==> Has(key, value) && forall k, v | k != key :: Has(k, v) <==> old(Has(k, v))
      ensures key !in old(Keys()) ==> Bag(buckets[..]) == old(Bag(buckets[..])) + multiset{Node(hash(key), key, value)}
      ensures key !in old(Keys()) ==> Keys() == old(Keys()) + multiset{key} && count == old(count) + 1
      ensures key !in old(Keys()) ==> Has(key, value) && forall k, v | k != key :: Has(k, v) <==> old(Has(k, v))
      ensures key !in old(Keys()) && count != old(buckets.Length) ==>
        buckets == old(buckets) && buckets[..] == Push(old(buckets[..]), Node(hash(key), key, value))
      ensures key !in old(Keys()) && count == old(buckets.Length) ==>
        fresh(buckets) && PrimeDetail.LeastPrimeAtLeast(old(buckets.Length) + offset, buckets.Length)
      ensures buckets == old(buckets) || fresh(buckets)
    {
      var found, index, bucket := Find(key);
      if found {
        if update {
          SetValue(key, value, bucket.index, index);
          return true;
        }
        return false;
      }
      r := Insert(key, value, bucket);
    }

    /** AddOrUpdate's in-place step: node.Value = value on the node Find
      * reached. */
    method SetValue(key: T, value: U, b: nat, p: nat)
      requires Valid() && b < buckets.Length && p < |buckets[b]| && buckets[b][p].key == key
      modifies buckets
      ensures Valid() && Keys() == old(Keys())
      ensures buckets[..] == old(buckets[..])[b := old(buckets[b])[p := old(buckets[b][p]).(value := value)]]
      ensures Has(key, value) && forall k, v | k != key :: Has(k, v) <==> old(Has(k, v))
    {
      ghost var before := buckets[..];
      ghost var x: Node<T, U> := before[b][p];
      FoundNode(key, b, p);
      var chain := buckets[b];
      SetValueAt(before, hash, b, p, value);
      buckets[b] := chain[p := chain[p].(value := value)];
      assert buckets[..] == before[b := before[b][p := x.(value := value)]];
      UpdateKeepsOthers(before, buckets[..], x, value);
    }

    /** The nodes after an in-place update: x swapped for x with value v,
      * so every pair of another key is as before. */
    lemma UpdateKeepsOthers(bs: seq<seq<Node<T, U>>>, bs': seq<seq<Node<T, U>>>, x: Node<T, U>, v: U)
      requires x in Bag(bs) && Bag(bs') + multiset{x} == Bag(bs) + multiset{x.(value := v)}
      ensures x.(value := v) in Bag(bs')
      ensures forall k, w | k != x.key :: Node(hash(k), k, w) in Bag(bs') <==> Node(hash(k), k, w) in Bag(bs)
    {
      var y' := x.(value := v);
      if y' != x {
        assert (Bag(bs') + multiset{x})[y'] == Bag(bs')[y'];
      }
      forall k, w | k != x.key
        ensures Node(hash(k), k, w) in Bag(bs') <==> Node(hash(k), k, w) in Bag(bs)
      {
        var y := Node(hash(k), k, w);
        assert (Bag(bs') + multiset{x})[y] == Bag(bs')[y];
        assert (Bag(bs) + multiset{y'})[y] == Bag(bs)[y];
      }
    }

    /** The nodes after an insertion: x is new, so every pair of another
      * key is as before. */
    lemma AddKeepsOthers(bs: seq<seq<Node<T, U>>>, bs': seq<seq<Node<T, U>>>, x: Node<T, U>)
      requires Bag(bs') == Bag(bs) + multiset{x}
      ensures x in Bag(bs')
      ensures forall k, w | k != x.key :: Node(hash(k), k, w) in Bag(bs') <==> Node(hash(k), k, w) in Bag(bs)
    {
      forall k, w | k != x.key
        ensures Node(hash(k), k, w) in Bag(bs') <==> Node(hash(k), k, w) in Bag(bs)
      {
        var y := Node(hash(k), k, w);
        assert (Bag(bs) + multiset{x})[y] == Bag(bs)[y];
      }
    }

    /** The nodes after an unlink: x is gone, so every pair of another
      * key is as before. */
    lemma RemoveKeepsOthers(bs: seq<seq<Node<T, U>>>, bs': seq<seq<Node<T, U>>>, x: Node<T, U>)
      requires Bag(bs') + multiset{x} == Bag(bs)
      ensures forall k, w | k != x.key :: Node(hash(k), k, w) in Bag(bs') <==> Node(hash(k), k, w) in Bag(bs)
    {
      forall k, w | k != x.key
        ensures Node(hash(k), k, w) in Bag(bs') <==> Node(hash(k), k, w) in Bag(bs)
      {
        var y := Node(hash(k), k, w);
        assert (Bag(bs') + multiset{x})[y] == Bag(bs')[y];
      }
    }

    /** The private Add(key, value, bucket): prepend a node, count it, and
      * grow to NextPrime(Size + Offset) buckets when Count reaches Size. */
    method Insert(key: T, value: U, bucket: Bucket) returns (r: bool)
      requires Valid() && key !in Keys() && bucket == GetBucketInfo(key)
      modifies this, buckets, cache
      ensures Valid() && capacity == old(capacity) && r
      ensures Bag(buckets[..]) == old(Bag(buckets[..])) + multiset{Node(hash(key), key, value)}
      ensures Keys() == old(Keys()) + multiset{key} && count == old(count) + 1
      ensures Has(key, value) && forall k, v | k != key :: Has(k, v) <==> old(Has(k, v))
      ensures count != old(buckets.Length) ==>
        buckets == old(buckets) && buckets[..] == Push(old(buckets[..]), Node(hash(key), key, value))
      ensures count == old(buckets.Length) ==>
        fresh(buckets) && PrimeDetail.LeastPrimeAtLeast(old(buckets.Length) + offset, buckets.Length)
      ensures buckets == old(buckets) || fresh(buckets)
    {
      ghost var before := buckets[..];
      var x := Node(bucket.hash, key, value);
      PushWellFormed(before, x, hash);
      buckets[bucket.index] := [x] + buckets[bucket.index];
      assert buckets[..] == Push(before, x);
      count := count + 1;
      if count == buckets.Length {
        ResizeCore(buckets.Length + offset);
      }
      r := true;
      AddKeepsOthers(before, buckets[..], x);
    }

    /** GetOrAdd: the stored value, untouched, or the given value after
      * inserting it. */
    method GetOrAdd(key: T, value: U) returns (r: U)
      requires Valid()
      modifies this, buckets, cache
      ensures Valid() && capacity == old(capacity)
      ensures key in old(Keys()) ==> old(Has(key, r)) && buckets == old(buckets) && buckets[..] == old(buckets[..]) && count == old(count)
      ensures key !in old(Keys()) ==> r == value && Has(key, value)
      ensures key !in old(Keys()) ==> Bag(buckets[..]) == old(Bag(buckets[..])) + multiset{Node(hash(key), key, value)}
      ensures key !in old(Keys()) ==> Keys() == old(Keys()) + multiset{key} && count == old(count) + 1
      ensures buckets == old(buckets) || fresh(buckets)
    {
      var found, index, bucket := Find(key);
      if found {
        r := buckets[bucket.index][index].value;
        FoundNode(key, bucket.index, index);
      } else {
        var _ := Insert(key, value, bucket);
        r := value;
      }
    }

    /** this[key] = value: Add(key, value, false), so an existing key keeps
      * its old value. */
    method SetItem(key: T, value: U)
      requires Valid()
      modifies this, buckets, cache
      ensures Valid()
      ensures key in old(Keys()) ==> buckets == old(buckets) && buckets[..] == old(buckets[..])
      ensures key !in old(Keys()) ==> Has(key, value)
      ensures Keys() == old(Keys()) + (if key in old(Keys()) then multiset{} else multiset{key})
      ensures count == old(count) + (if key in old(Keys()) then 0 else 1)
      ensures forall k, v | k != key :: Has(k, v) <==> old(Has(k, v))
    {
      var _ := AddCore(key, value, false);
      if key !in old(Keys()) {
        assert Node(hash(key), key, value) in Bag(buckets[..]);
      }
    }

    /** The indexer's setter as a dictionary setter: AddOrUpdate. */
    method SetItemCorrected(key: T, value: U)
      requires Valid()
      modifies this, buckets, cache
      ensures Valid() && Has(key, value)
      ensures forall k, v | k != key :: Has(k, v) <==> old(Has(k, v))
    {
      AddOrUpdate(key, value);
    }

    /** ResizeCore: NextPrime(size) new buckets, each old chain pushed
      * node by node from its head, bucket by bucket. */
    method ResizeCore(size: int)
      requires Valid()
      modifies this, cache
      ensures Valid() && fresh(buckets) && count == old(count) && capacity == old(capacity)
      ensures PrimeDetail.LeastPrimeAtLeast(size, buckets.Length)
      ensures buckets[..] == Rehash(old(buckets[..]), EmptyBuckets(buckets.Length))
      ensures Bag(buckets[..]) == Bag(old(buckets[..])) && Keys() == old(Keys())
    {
      var n := Api.NextPrime(cache, size);
      var nb := RehashInto(buckets, n);
      RehashWellFormed(buckets[..], n, hash);
      buckets := nb;
    }

    /** Remove as written: the bucket head becomes the found node's
      * successor, so the nodes before it in the chain are lost, and Count
      * drops by one. */
    method Remove(key: T) returns (r: bool)
      requires Valid()
      modifies this, buckets
      ensures Valid() && buckets == old(buckets) && capacity == old(capacity)
      ensures r <==> key in old(Keys())
      ensures !r ==> buckets[..] == old(buckets[..]) && count == old(count)
      ensures r ==> count == old(count) - 1
      ensures r ==> key in KeysOf(old(buckets[GetBucketInfo(key).index]))
      ensures r ==>
        var c := old(buckets[GetBucketInfo(key).index]);
        var p := Position(c, key);
        && buckets[..] == old(buckets[..])[GetBucketInfo(key).index := c[p + 1..]]
        && Keys() + multiset(KeysOf(c[..p + 1])) == old(Keys())
        && (p == 0 ==> Keys() == old(Keys()) - multiset{key})
    {
      var found, index, bucket := Find(key);
      if !found {
        return false;
      }
      ghost var before := buckets[..];
      DropThrough(before, hash, bucket.index, index);
      var chain := buckets[bucket.index];
      buckets[bucket.index] := chain[index + 1..];
      assert buckets[..] == before[bucket.index := chain[index + 1..]];
      if index == 0 {
        assert KeysOf(chain[..1]) == [key];
      }
      count := count - 1;
      r := true;
    }

    /** Remove as evidently intended: only the found node is unlinked, and
      * every other pair stays. */
    method RemoveExact(key: T) returns (r: bool)
      requires Valid()
      modifies this, buckets
      ensures Valid() && buckets == old(buckets) && capacity == old(capacity)
      ensures r <==> key in old(Keys())
      ensures Keys() == old(Keys()) - multiset{key}
      ensures forall k, v | k != key :: Has(k, v) <==> old(Has(k, v))
      ensures count == old(count) - (if r then 1 else 0)
      ensures !r ==> buckets[..] == old(buckets[..])
    {
      var found, index, bucket := Find(key);
      if !found {
        return false;
      }
      Unlink(key, bucket.index, index);
      r := true;
    }

    /** RemoveExact's unlinking step: the node Find reached leaves its
      * chain and Count drops by one. */
    method Unlink(key: T, b: nat, p: nat)
      requires Valid() && b < buckets.Length && p < |buckets[b]| && buckets[b][p].key == key
      modifies this, buckets
      ensures Valid() && buckets == old(buckets) && capacity == old(capacity)
      ensures buckets[..] == old(buckets[..])[b := old(buckets[b])[..p] + old(buckets[b])[p + 1..]]
      ensures Keys() == old(Keys()) - multiset{key} && count == old(count) - 1
      ensures forall k, v | k != key :: Has(k, v) <==> old(Has(k, v))
    {
      ghost var before := buckets[..];
      ghost var x := before[b][p];
      CutAt(before, hash, b, p);
      var chain := buckets[b];
      buckets[b] := chain[..p] + chain[p + 1..];
      assert buckets[..] == before[b := chain[..p] + chain[p + 1..]];
      RemoveKeepsOthers(before, buckets[..], x);
      count := count - 1;
    }

    /** Reserve as written: NextPrime(size - Count) buckets. */
    method Reserve(size: int)
      requires Valid()
      modifies this, cache
      ensures Valid() && fresh(buckets) && count == old(count) && Bag(buckets[..]) == old(Bag(buckets[..]))
      ensures PrimeDetail.LeastPrimeAtLeast(size - old(count), buckets.Length)
    {
      ResizeCore(buckets.Length + (size - buckets.Length - count));
    }

    /** Reserve as Vector.Reserve does it: grow only when fewer than size
      * free buckets remain, to Count + size. */
    method ReserveCorrected(size: int)
      requires Valid()
      modifies this, cache
      ensures Valid() && count == old(count) && Bag(buckets[..]) == old(Bag(buckets[..]))
      ensures size > old(buckets.Length) - old(count) ==> fresh(buckets) && PrimeDetail.LeastPrimeAtLeast(old(count) + size, buckets.Length)
      ensures size <= old(buckets.Length) - old(count) ==> buckets == old(buckets)
      ensures buckets.Length - count >= size
    {
      var free := buckets.Length - count;
      if size > free {
        ResizeCore(buckets.Length + (size - free));
      }
    }

    /** Resize: ignored below Count, else ResizeCore(size). */
    method Resize(size: int)
      requires Valid()
      modifies this, cache
      ensures Valid() && count == old(count) && Bag(buckets[..]) == old(Bag(buckets[..]))
      ensures size < old(count) ==> buckets == old(buckets)
      ensures size >= old(count) ==> fresh(buckets) && PrimeDetail.LeastPrimeAtLeast(size, buckets.Length)
    {
      if size < count {
        return;
      }
      ResizeCore(size);
    }

    /** Trim: NextPrime(Count) buckets unless empty. */
    method Trim()
      requires Valid()
      modifies this, cache
      ensures Valid() && count == old(count) && Bag(buckets[..]) == old(Bag(buckets[..]))
      ensures old(count) <= 0 ==> buckets == old(buckets)
      ensures old(count) > 0 ==> fresh(buckets) && PrimeDetail.LeastPrimeAtLeast(count, buckets.Length)
    {
      if count > 0 {
        ResizeCore(count);
      }
    }

    /** Clear(trim): nothing when Count is 0; else Capacity new buckets
      * (trim) or every bucket emptied in place. */
    method Clear(trim: bool)
      requires Valid()
      modifies this, buckets
      ensures Valid() && capacity == old(capacity) && Keys() == multiset{}
      ensures old(count) > 0 ==> count == 0
      ensures old(count) > 0 && trim ==> fresh(buckets) && buckets.Length == capacity
      ensures old(count) > 0 && !trim ==> buckets == old(buckets)
      ensures old(count) <= 0 ==> buckets == old(buckets) && buckets[..] == old(buckets[..]) && count == old(count)
    {
      if count > 0 {
        if trim {
          Initialize();
        } else {
          Empty();
        }
      } else {
        assert |KeysOf(Flatten(buckets[..]))| == 0;
      }
    }

    /** Array.Clear(array, 0, Size) and Count = 0. */
    method Empty()
      requires Valid()
      modifies this, buckets
      ensures Valid() && buckets == old(buckets) && capacity == old(capacity)
      ensures count == 0 && Keys() == multiset{}
    {
      forall j | 0 <= j < buckets.Length {
        buckets[j] := [];
      }
      assert buckets[..] == EmptyBuckets(buckets.Length);
      EmptyWellFormed<T, U>(buckets.Length, hash);
      count := 0;
    }

    /** Swap: each map gets a copy of the other's buckets and its Count;
      * they stay valid when their hashes agree. */
    method Swap(other: Map<T, U>)
      requires Valid() && other.Valid()
      modifies this, other
      ensures buckets[..] == old(other.buckets[..]) && count == old(other.count)
      ensures other.buckets[..] == old(buckets[..]) && other.count == old(count)
      ensures fresh(buckets) && fresh(other.buckets)
      ensures hash == other.hash ==> Valid() && other.Valid()
    {
      var num := count;
      var a := CopyBuckets(buckets);
      buckets := CopyBuckets(other.buckets);
      count := other.count;
      other.buckets := a;
      other.count := num;
    }

    /** Keys() and Values(): the enumerations, bucket by bucket from each
      * chain's head. */
    function KeySequence(): seq<T>
      reads this, buckets
    {
      KeysOf(Flatten(buckets[..]))
    }

    function ValueSequence(): seq<U>
      reads this, buckets
    {
      ValuesOf(Flatten(buckets[..]))
    }

    /** The two enumerations run in step: the i-th key has the i-th value,
      * they hold every key once, and no key twice. */
    lemma EnumerationsAgree()
      requires Valid()
      ensures |KeySequence()| == |ValueSequence()|
      ensures forall i | 0 <= i < |KeySequence()| :: Has(KeySequence()[i], ValueSequence()[i])
      ensures multiset(KeySequence()) == Keys()
      ensures forall i, j | 0 <= i < j < |KeySequence()| :: KeySequence()[i] != KeySequence()[j]
    {
      var f := Flatten(buckets[..]);
      forall i | 0 <= i < |f| ensures Has(KeySequence()[i], ValueSequence()[i]) {
        assert f[i] in Bag(buckets[..]);
        NodeHashed(buckets[..], hash, f[i]);
        assert f[i] == Node(hash(f[i].key), f[i].key, f[i].value);
      }
      forall i, j | 0 <= i < j < |KeySequence()| ensures KeySequence()[i] != KeySequence()[j] {
        if KeySequence()[i] == KeySequence()[j] {
          assert multiset(KeySequence())[KeySequence()[i]] == Keys()[KeySequence()[i]] <= 1;
          TwoPositions(KeySequence(), i, j);
          assert false;
        }
      }
    }

    /** ToArray: Count slots filled with the pairs in enumeration order;
      * slots beyond the stored nodes keep the default pair. */
    method ToArray() returns (a: array<(T, U)>)
      requires Valid()
      ensures fresh(a)
      ensures a[..] == PairsOf(Flatten(buckets[..])) + seq(count - |Flatten(buckets[..])|, _ => (dfltKey, dflt))
    {
      ghost var bs := buckets[..];
      ghost var all := Flatten(bs);
      a := new (T, U)[count](_ => (dfltKey, dflt));
      var num := 0;
      var i := 0;
      while i < buckets.Length
        invariant 0 <= i <= buckets.Length
        invariant num == |Flatten(bs[..i])| <= |all|
        invariant a[..num] == PairsOf(Flatten(bs[..i]))
        invariant a[num..] == seq(count - num, _ => (dfltKey, dflt))
      {
        FlattenPrefix(bs, i);
        FlattenPrefixLength(bs, i + 1);
        PairsOfConcat(Flatten(bs[..i]), bs[i]);
        ConstantTail(a[num..], |bs[i]|, (dfltKey, dflt));
        num := WritePairs(a, num, buckets[i]);
        i := i + 1;
      }
      assert bs[..i] == bs;
      assert a[..] == a[..num] + a[num..];
    }
  }

  /** The keys of a sequence of pairs, in order. */
  function FirstsOf<T, U>(s: seq<(T, U)>): seq<T>
  {
    seq(|s|, i requires 0 <= i < |s| => s[i].0)
  }

  /** Pair i is the first pair in s with its key. */
  predicate FirstPair<T(==), U>(s: seq<(T, U)>, i: nat)
    requires i < |s|
  {
    forall j | 0 <= j < i :: s[j].0 != s[i].0
  }

  /** Pair i is the first with its key exactly when that key is not among
    * the keys before it. */
  lemma FirstPairIsNew<T, U>(s: seq<(T, U)>, i: nat)
    requires i < |s|
    ensures FirstPair(s, i) <==> s[i].0 !in FirstsOf(s[..i])
  {
    if !FirstPair(s, i) {
      var j :| 0 <= j < i && s[j].0 == s[i].0;
      assert FirstsOf(s[..i])[j] == s[i].0;
    }
  }

  /** One Add of InitializeFrom, on values: each key first seen in s[..i + 1]
    * maps to the value of its first pair. */
  lemma FirstValuesStep<T, U>(s: seq<(T, U)>, i: nat, h: T -> nat, b: multiset<Node<T, U>>,
                              b': multiset<Node<T, U>>, added: bool)
    requires i < |s|
    requires forall j | 0 <= j < i && FirstPair(s, j) :: Node(h(s[j].0), s[j].0, s[j].1) in b
    requires added <==> FirstPair(s, i)
    requires added ==> Node(h(s[i].0), s[i].0, s[i].1) in b'
    requires added ==> forall k, v | k != s[i].0 :: Node(h(k), k, v) in b' <==> Node(h(k), k, v) in b
    requires !added ==> b' == b
    ensures forall j | 0 <= j < i + 1 && FirstPair(s, j) :: Node(h(s[j].0), s[j].0, s[j].1) in b'
  {
    forall j | 0 <= j < i + 1 && FirstPair(s, j)
      ensures Node(h(s[j].0), s[j].0, s[j].1) in b'
    {
      if j < i && added {
        assert s[j].0 != s[i].0;
      }
    }
  }

  /** One Add of InitializeFrom: the keys track those of the prefix added
    * so far, and their number grows with each new one. */
  lemma AddStep<T>(e: multiset<T>, e': multiset<T>, p: seq<T>, x: T, added: bool)
    requires forall k :: k in e <==> k in p
    requires added <==> x !in e
    requires e' == e + (if added then multiset{x} else multiset{})
    ensures forall k :: k in e' <==> k in p + [x]
    ensures |e'| == |e| + (if added then 1 else 0)
  {
  }

  /** A map whose keys all hash to 0, after adding 1 and then 2: both
    * sit in bucket 0, 2 at the head of the chain. */
  method TwoInBucketZero(cache: PrimeDetail.Cache) returns (m: Map<int, int>)
    requires cache.Valid() && cache.primes != []
    modifies cache
    ensures fresh(m) && fresh(m.buckets) && m.Valid() && m.cache == cache
    ensures m.count == 2 && m.buckets.Length == 5 && forall k :: m.hash(k) == 0
    ensures m.buckets[0] == [Node(0, 2, 20), Node(0, 1, 10)] && m.Keys() == multiset{1, 2}
  {
    m := new Map(5, 5, false, false, _ => None, _ => 0, 0, 0, cache);
    var a := m.Add(1, 10);
    assert m.buckets[0] == [Node(0, 1, 10)];
    var b := m.Add(2, 20);
  }

  /** Remove as written on that map: removing 1 loses 2 as well. */
  method RemoveLosesEarlierExample(cache: PrimeDetail.Cache) returns (m: Map<int, int>)
    requires cache.Valid() && cache.primes != []
    modifies cache
    ensures m.Valid() && m.count == 1 && m.Keys() == multiset{}
  {
    m := TwoInBucketZero(cache);
    ghost var chain := m.buckets[0];
    assert KeysOf(chain)[1] == 1;
    assert Position(chain, 1) == 1 && KeysOf(chain[..2]) == [2, 1];
    var c := m.Remove(1);
    assert m.Keys() + multiset{2, 1} == multiset{1, 2};
  }

  /** RemoveExact on that map keeps 2 with its value. */
  method RemoveExactExample(cache: PrimeDetail.Cache) returns (m: Map<int, int>)
    requires cache.Valid() && cache.primes != []
    modifies cache
    ensures m.Valid() && m.count == 1 && m.Keys() == multiset{2} && m.Has(2, 20)
  {
    m := TwoInBucketZero(cache);
    assert m.Has(2, 20) by {
      assert m.buckets[..][0][0] == Node(0, 2, 20);
      m.FoundNode(2, 0, 0);
    }
    var c := m.RemoveExact(1);
  }

  /** The indexer's setter as written: assigning 20 to a present key
    * keeps 10. */
  method SetItemKeepsOldExample(cache: PrimeDetail.Cache) returns (m: Map<int, int>)
    requires cache.Valid() && cache.primes != []
    modifies cache
    ensures m.Valid() && m.Has(1, 10) && !m.Has(1, 20)
  {
    m := new Map(5, 5, false, false, _ => None, _ => 0, 0, 0, cache);
    m.AddOrUpdate(1, 10);
    m.SetItem(1, 20);
    assert m.Has(1, 10);
    if m.Has(1, 20) {
      m.HasUnique(1, 10, 20);
    }
  }

  /** SetItemCorrected on the same map stores 20. */
  method SetItemCorrectedExample(cache: PrimeDetail.Cache) returns (m: Map<int, int>)
    requires cache.Valid() && cache.primes != []
    modifies cache
    ensures m.Valid() && m.Has(1, 20) && !m.Has(1, 10)
  {
    m := new Map(5, 5, false, false, _ => None, _ => 0, 0, 0, cache);
    var a := m.Add(1, 10);
    m.SetItemCorrected(1, 20);
    if m.Has(1, 10) {
      m.HasUnique(1, 10, 20);
    }
  }
}
