/** The chained buckets shared by Circus.Collections.Set<T> and
  * Map<T, U>: an array of singly linked node lists, each node carrying the
  * hash of its key. A chain is modelled as the sequence of its nodes from
  * the head, so prepending a node is `[x] + chain`, and a node's Next is
  * the following element. A Set node carries the unit value. */
module Chains {

  datatype Node<K, V> = Node(hash: nat, key: K, value: V)

  /** The nodes in enumeration order: bucket 0 from its head, then bucket
    * 1, and so on. */
  function Flatten<K, V>(bs: seq<seq<Node<K, V>>>): seq<Node<K, V>>
  {
    if |bs| == 0 then [] else Flatten(bs[..|bs| - 1]) + bs[|bs| - 1]
  }

  /** The keys of a node sequence, in order. */
  function KeysOf<K, V>(ns: seq<Node<K, V>>): seq<K>
  {
    seq(|ns|, i requires 0 <= i < |ns| => ns[i].key)
  }

  /** The values of a node sequence, in order. */
  function ValuesOf<K, V>(ns: seq<Node<K, V>>): seq<V>
  {
    seq(|ns|, i requires 0 <= i < |ns| => ns[i].value)
  }

  /** Every stored node, with multiplicity. */
  ghost function Bag<K, V>(bs: seq<seq<Node<K, V>>>): multiset<Node<K, V>>
  {
    multiset(Flatten(bs))
  }

  /** Every stored key, with multiplicity. */
  ghost function KeyBag<K, V>(bs: seq<seq<Node<K, V>>>): multiset<K>
  {
    multiset(KeysOf(Flatten(bs)))
  }

  /** Every node sits in the bucket its hash selects. */
  ghost predicate Placed<K, V>(bs: seq<seq<Node<K, V>>>)
  {
    forall i, j | 0 <= i < |bs| && 0 <= j < |bs[i]| :: bs[i][j].hash % |bs| == i
  }

  /** Every node carries the hash of its key. */
  ghost predicate Hashed<K, V>(bs: seq<seq<Node<K, V>>>, h: K -> nat)
  {
    forall i, j | 0 <= i < |bs| && 0 <= j < |bs[i]| :: bs[i][j].hash == h(bs[i][j].key)
  }

  /** No key is stored twice. */
  ghost predicate Distinct<K(!new), V>(bs: seq<seq<Node<K, V>>>)
  {
    forall k :: KeyBag(bs)[k] <= 1
  }

  /** The invariant of the bucket array of a Set or a Map. */
  ghost predicate WellFormed<K(!new), V>(bs: seq<seq<Node<K, V>>>, h: K -> nat)
  {
    |bs| > 0 && Placed(bs) && Hashed(bs, h) && Distinct(bs)
  }

  /** GetBucketInfo: the bucket a hash selects. */
  function BucketOf(hash: nat, size: nat): (r: nat)
    requires size > 0
    ensures r < size
  {
    hash % size
  }

  lemma KeysOfConcat<K, V>(a: seq<Node<K, V>>, b: seq<Node<K, V>>)
    ensures KeysOf(a + b) == KeysOf(a) + KeysOf(b)
  {
  }

  lemma {:induction false} FlattenConcat<K, V>(a: seq<seq<Node<K, V>>>, b: seq<seq<Node<K, V>>>)
    ensures Flatten(a + b) == Flatten(a) + Flatten(b)
  {
    if |b| == 0 {
      assert a + b == a;
    } else {
      var init, last := b[..|b| - 1], b[|b| - 1];
      FlattenConcat(a, init);
      assert (a + b)[..|a + b| - 1] == a + init;
      assert (a + b)[|a + b| - 1] == last;
      calc {
        Flatten(a + b);
        Flatten(a + init) + last;
        Flatten(a) + Flatten(init) + last;
        Flatten(a) + (Flatten(init) + last);
      }
    }
  }

  /** The nodes before bucket h, bucket h, and the nodes after it. */
  lemma FlattenSplit<K, V>(bs: seq<seq<Node<K, V>>>, h: nat)
    requires h < |bs|
    ensures Flatten(bs) == Flatten(bs[..h]) + bs[h] + Flatten(bs[h + 1..])
  {
    FlattenPrefix(bs, h);
    SplitAt(bs, h + 1);
    FlattenConcat(bs[..h + 1], bs[h + 1..]);
  }

  lemma FlattenPrefix<K, V>(bs: seq<seq<Node<K, V>>>, h: nat)
    requires h < |bs|
    ensures Flatten(bs[..h + 1]) == Flatten(bs[..h]) + bs[h]
  {
    assert bs[..h + 1][..h] == bs[..h];
  }

  lemma Snoc<T>(s: seq<T>, i: nat)
    requires i < |s|
    ensures s[..i + 1] == s[..i] + [s[i]]
  {
  }

  lemma ConstantTail<T>(x: seq<T>, n: nat, v: T)
    requires x == seq(|x|, _ => v) && n <= |x|
    ensures x[n..] == seq(|x| - n, _ => v)
  {
  }

  lemma SplitAt<T>(s: seq<T>, h: nat)
    requires h <= |s|
    ensures s == s[..h] + s[h..]
  {
  }

  /** Replacing bucket h by c swaps its nodes for those of c. */
  lemma FlattenUpdate<K, V>(bs: seq<seq<Node<K, V>>>, h: nat, c: seq<Node<K, V>>)
    requires h < |bs|
    ensures Flatten(bs[h := c]) == Flatten(bs[..h]) + c + Flatten(bs[h + 1..])
  {
    FlattenSplit(bs[h := c], h);
    assert bs[h := c][..h] == bs[..h];
    assert bs[h := c][h + 1..] == bs[h + 1..];
  }

  /** A node is stored exactly when some bucket holds it. */
  lemma {:induction false} InFlatten<K, V>(bs: seq<seq<Node<K, V>>>, x: Node<K, V>)
    ensures x in Flatten(bs) <==> exists i | 0 <= i < |bs| :: x in bs[i]
  {
    if |bs| > 0 {
      var init := bs[..|bs| - 1];
      InFlatten(init, x);
      if exists i | 0 <= i < |init| :: x in init[i] {
        var i :| 0 <= i < |init| && x in init[i];
        assert x in bs[i];
      }
    }
  }

  lemma InKeysOf<K, V>(ns: seq<Node<K, V>>, k: K)
    ensures k in KeysOf(ns) <==> exists j | 0 <= j < |ns| :: ns[j].key == k
  {
    if exists j | 0 <= j < |ns| :: ns[j].key == k {
      var j :| 0 <= j < |ns| && ns[j].key == k;
      assert KeysOf(ns)[j] == k;
    }
  }

  /** In a well-formed table a key can only be in the bucket its hash
    * selects, so looking there decides membership. */
  lemma KeyInBucket<K, V>(bs: seq<seq<Node<K, V>>>, h: K -> nat, k: K)
    requires |bs| > 0 && Placed(bs) && Hashed(bs, h)
    ensures k in KeyBag(bs) <==> k in KeysOf(bs[h(k) % |bs|])
  {
    var b := h(k) % |bs|;
    InKeysOf(Flatten(bs), k);
    if k in KeyBag(bs) {
      var j :| 0 <= j < |Flatten(bs)| && Flatten(bs)[j].key == k;
      var x := Flatten(bs)[j];
      InFlatten(bs, x);
      var i :| 0 <= i < |bs| && x in bs[i];
      var m :| 0 <= m < |bs[i]| && bs[i][m] == x;
      InKeysOf(bs[i], k);
    }
    if k in KeysOf(bs[b]) {
      InKeysOf(bs[b], k);
      var m :| 0 <= m < |bs[b]| && bs[b][m].key == k;
      InFlatten(bs, bs[b][m]);
      assert bs[b][m] in Flatten(bs);
      var j :| 0 <= j < |Flatten(bs)| && Flatten(bs)[j] == bs[b][m];
      assert KeysOf(Flatten(bs))[j] == k;
    }
  }

  /** Prepending node x to the bucket its hash selects: what Add does and
    * what each step of ResizeCore does. */
  function Push<K, V>(nb: seq<seq<Node<K, V>>>, x: Node<K, V>): (r: seq<seq<Node<K, V>>>)
    requires |nb| > 0
    ensures |r| == |nb|
  {
    var b := BucketOf(x.hash, |nb|);
    nb[b := [x] + nb[b]]
  }

  /** The nodes after Push: x heads its bucket. */
  lemma PushFlatten<K, V>(nb: seq<seq<Node<K, V>>>, x: Node<K, V>)
    requires |nb| > 0
    ensures var b := BucketOf(x.hash, |nb|);
      && Flatten(Push(nb, x)) == Flatten(nb[..b]) + ([x] + nb[b]) + Flatten(nb[b + 1..])
      && Flatten(nb) == Flatten(nb[..b]) + nb[b] + Flatten(nb[b + 1..])
  {
    var b := BucketOf(x.hash, |nb|);
    FlattenSplit(nb, b);
    FlattenUpdate(nb, b, [x] + nb[b]);
  }

  /** Push adds exactly x. */
  lemma PushBag<K, V>(nb: seq<seq<Node<K, V>>>, x: Node<K, V>)
    requires |nb| > 0
    ensures Bag(Push(nb, x)) == Bag(nb) + multiset{x}
  {
    PushFlatten(nb, x);
  }

  /** Push adds exactly x's key. */
  lemma PushKeyBag<K, V>(nb: seq<seq<Node<K, V>>>, x: Node<K, V>)
    requires |nb| > 0
    ensures KeyBag(Push(nb, x)) == KeyBag(nb) + multiset{x.key}
  {
    var b := BucketOf(x.hash, |nb|);
    var pre, post := Flatten(nb[..b]), Flatten(nb[b + 1..]);
    PushFlatten(nb, x);
    KeysOfConcat(pre + ([x] + nb[b]), post);
    KeysOfConcat(pre, [x] + nb[b]);
    KeysOfConcat([x], nb[b]);
    KeysOfConcat(pre + nb[b], post);
    KeysOfConcat(pre, nb[b]);
  }

  /** Push keeps every node placed and hashed when x is hashed. */
  lemma PushShape<K, V>(nb: seq<seq<Node<K, V>>>, x: Node<K, V>, h: K -> nat)
    requires |nb| > 0 && Placed(nb) && Hashed(nb, h) && x.hash == h(x.key)
    ensures Placed(Push(nb, x)) && Hashed(Push(nb, x), h)
  {
    var r: seq<seq<Node<K, V>>> := Push(nb, x);
    var b := BucketOf(x.hash, |nb|);
    forall i, j | 0 <= i < |r| && 0 <= j < |r[i]|
      ensures r[i][j].hash % |r| == i && r[i][j].hash == h(r[i][j].key)
    {
      if i == b && j > 0 {
        assert r[i][j] == nb[b][j - 1];
      }
    }
  }

  /** ResizeCore's inner loop: the nodes of one chain pushed from its head
    * on. */
  function PushAll<K, V>(nb: seq<seq<Node<K, V>>>, c: seq<Node<K, V>>): (r: seq<seq<Node<K, V>>>)
    requires |nb| > 0
    ensures |r| == |nb|
  {
    if |c| == 0 then nb else Push(PushAll(nb, c[..|c| - 1]), c[|c| - 1])
  }

  /** ResizeCore's outer loop: every chain pushed, bucket by bucket. */
  function Rehash<K, V>(bs: seq<seq<Node<K, V>>>, nb: seq<seq<Node<K, V>>>): (r: seq<seq<Node<K, V>>>)
    requires |nb| > 0
    ensures |r| == |nb|
  {
    if |bs| == 0 then nb else PushAll(Rehash(bs[..|bs| - 1], nb), bs[|bs| - 1])
  }

  /** n empty buckets. */
  function EmptyBuckets<K, V>(n: nat): (r: seq<seq<Node<K, V>>>)
    ensures |r| == n && Bag(r) == multiset{} && KeyBag(r) == multiset{}
    ensures forall i | 0 <= i < n :: r[i] == []
  {
    if n == 0 then [] else EmptyBuckets(n - 1) + [[]]
  }

  /** Pushing a chain adds exactly its nodes. */
  lemma {:induction false} PushAllBag<K, V>(nb: seq<seq<Node<K, V>>>, c: seq<Node<K, V>>)
    requires |nb| > 0
    ensures Bag(PushAll(nb, c)) == Bag(nb) + multiset(c)
  {
    if |c| > 0 {
      var init := c[..|c| - 1];
      PushAllBag(nb, init);
      PushBag(PushAll(nb, init), c[|c| - 1]);
      assert c == init + [c[|c| - 1]];
    }
  }

  /** Pushing a chain adds exactly its keys. */
  lemma {:induction false} PushAllKeyBag<K, V>(nb: seq<seq<Node<K, V>>>, c: seq<Node<K, V>>)
    requires |nb| > 0
    ensures KeyBag(PushAll(nb, c)) == KeyBag(nb) + multiset(KeysOf(c))
  {
    if |c| > 0 {
      var init := c[..|c| - 1];
      PushAllKeyBag(nb, init);
      PushKeyBag(PushAll(nb, init), c[|c| - 1]);
      assert c == init + [c[|c| - 1]];
      KeysOfConcat(init, [c[|c| - 1]]);
    }
  }

  /** Pushing a chain of placed, hashed nodes keeps the table placed and
    * hashed. */
  lemma {:induction false} PushAllShape<K, V>(nb: seq<seq<Node<K, V>>>, c: seq<Node<K, V>>, h: K -> nat)
    requires |nb| > 0 && Placed(nb) && Hashed(nb, h)
    requires forall j | 0 <= j < |c| :: c[j].hash == h(c[j].key)
    ensures Placed(PushAll(nb, c)) && Hashed(PushAll(nb, c), h)
  {
    if |c| > 0 {
      PushAllShape(nb, c[..|c| - 1], h);
      PushShape(PushAll(nb, c[..|c| - 1]), c[|c| - 1], h);
    }
  }

  /** Rehashing loses and duplicates nothing: the new table holds the old
    * nodes and keys besides its own. */
  lemma {:induction false} RehashBag<K, V>(bs: seq<seq<Node<K, V>>>, nb: seq<seq<Node<K, V>>>)
    requires |nb| > 0
    ensures Bag(Rehash(bs, nb)) == Bag(nb) + Bag(bs)
    ensures KeyBag(Rehash(bs, nb)) == KeyBag(nb) + KeyBag(bs)
  {
    if |bs| > 0 {
      var init := bs[..|bs| - 1];
      RehashBag(init, nb);
      PushAllBag(Rehash(init, nb), bs[|bs| - 1]);
      PushAllKeyBag(Rehash(init, nb), bs[|bs| - 1]);
      KeysOfConcat(Flatten(init), bs[|bs| - 1]);
    }
  }

  /** Rehashing hashed nodes into a placed, hashed table keeps it placed
    * and hashed. */
  lemma {:induction false} RehashShape<K, V>(bs: seq<seq<Node<K, V>>>, nb: seq<seq<Node<K, V>>>, h: K -> nat)
    requires |nb| > 0 && Placed(nb) && Hashed(nb, h) && Hashed(bs, h)
    ensures Placed(Rehash(bs, nb)) && Hashed(Rehash(bs, nb), h)
  {
    if |bs| > 0 {
      var init: seq<seq<Node<K, V>>> := bs[..|bs| - 1];
      assert Hashed(init, h) by {
        forall i, j | 0 <= i < |init| && 0 <= j < |init[i]|
          ensures init[i][j].hash == h(init[i][j].key)
        {
          assert init[i] == bs[i];
        }
      }
      RehashShape(init, nb, h);
      var last := bs[|bs| - 1];
      assert forall j | 0 <= j < |last| :: last[j].hash == h(last[j].key) by {
        forall j | 0 <= j < |last| ensures last[j].hash == h(last[j].key) {
          assert last[j] == bs[|bs| - 1][j];
        }
      }
      PushAllShape(Rehash(init, nb), last, h);
    }
  }

  /** Rehashing a well-formed table into n empty buckets gives a
    * well-formed table with the same nodes. */
  lemma RehashWellFormed<K(!new), V>(bs: seq<seq<Node<K, V>>>, n: nat, h: K -> nat)
    requires n > 0 && Hashed(bs, h) && Distinct(bs)
    ensures WellFormed(Rehash(bs, EmptyBuckets(n)), h)
    ensures Bag(Rehash(bs, EmptyBuckets(n))) == Bag(bs)
    ensures KeyBag(Rehash(bs, EmptyBuckets(n))) == KeyBag(bs)
  {
    var e: seq<seq<Node<K, V>>> := EmptyBuckets(n);
    RehashBag(bs, e);
    RehashShape(bs, e, h);
  }

  /** n empty buckets form a well-formed table. */
  lemma EmptyWellFormed<K(!new), V>(n: nat, h: K -> nat)
    requires n > 0
    ensures WellFormed(EmptyBuckets<K, V>(n), h)
  {
  }

  /** GetBucketInfo's result: the hash and the bucket it selects. */
  datatype Bucket = Bucket(hash: nat, index: nat)

  /** Find's search: the first position of a key in a chain. */
  function Position<K(==), V>(c: seq<Node<K, V>>, k: K): (r: nat)
    requires k in KeysOf(c)
    ensures r < |c| && c[r].key == k
    ensures forall j | 0 <= j < r :: c[j].key != k
  {
    InKeysOf(c, k);
    if c[0].key == k then 0
    else
      assert k in KeysOf(c[1..]) by {
        var j :| 0 <= j < |c| && c[j].key == k;
        InKeysOf(c[1..], k);
        assert c[1..][j - 1].key == k;
      }
      1 + Position(c[1..], k)
  }

  /** Bucket b = u + v + w with its middle v swapped for v': the nodes
    * change by exactly v and v'. */
  lemma SpliceBag<K, V>(bs: seq<seq<Node<K, V>>>, b: nat, u: seq<Node<K, V>>, v: seq<Node<K, V>>, v': seq<Node<K, V>>, w: seq<Node<K, V>>)
    requires b < |bs| && bs[b] == u + v + w
    ensures Bag(bs[b := u + v' + w]) + multiset(v) == Bag(bs) + multiset(v')
  {
    FlattenSplit(bs, b);
    FlattenUpdate(bs, b, u + v' + w);
  }

  /** The keys change by exactly those of v and v'. */
  lemma SpliceKeyBag<K, V>(bs: seq<seq<Node<K, V>>>, b: nat, u: seq<Node<K, V>>, v: seq<Node<K, V>>, v': seq<Node<K, V>>, w: seq<Node<K, V>>)
    requires b < |bs| && bs[b] == u + v + w
    ensures KeyBag(bs[b := u + v' + w]) + multiset(KeysOf(v)) == KeyBag(bs) + multiset(KeysOf(v'))
  {
    var pre, post := Flatten(bs[..b]), Flatten(bs[b + 1..]);
    FlattenSplit(bs, b);
    FlattenUpdate(bs, b, u + v' + w);
    SpliceKeys(pre, u, v, w, post);
    SpliceKeys(pre, u, v', w, post);
  }

  lemma SpliceKeys<K, V>(pre: seq<Node<K, V>>, u: seq<Node<K, V>>, v: seq<Node<K, V>>, w: seq<Node<K, V>>, post: seq<Node<K, V>>)
    ensures multiset(KeysOf(pre + (u + v + w) + post))
      == multiset(KeysOf(pre)) + multiset(KeysOf(u)) + multiset(KeysOf(v)) + multiset(KeysOf(w)) + multiset(KeysOf(post))
  {
    KeysOfConcat(pre + (u + v + w), post);
    KeysOfConcat(pre, u + v + w);
    KeysOfConcat(u + v, w);
    KeysOfConcat(u, v);
  }

  /** A bucket replaced by nodes taken from it stays placed and hashed. */
  lemma ReplaceShape<K, V>(bs: seq<seq<Node<K, V>>>, b: nat, c: seq<Node<K, V>>, h: K -> nat)
    requires b < |bs| && Placed(bs) && Hashed(bs, h)
    requires forall j | 0 <= j < |c| :: c[j].hash % |bs| == b && c[j].hash == h(c[j].key)
    ensures Placed(bs[b := c]) && Hashed(bs[b := c], h)
  {
  }

  /** Losing keys keeps them distinct. */
  lemma DistinctShrinks<K(!new), V>(bs: seq<seq<Node<K, V>>>, bs': seq<seq<Node<K, V>>>, m: multiset<K>)
    requires Distinct(bs) && KeyBag(bs') + m == KeyBag(bs)
    ensures Distinct(bs')
  {
    forall k ensures KeyBag(bs')[k] <= 1 {
      assert (KeyBag(bs') + m)[k] == KeyBag(bs')[k] + m[k];
    }
  }

  /** The nodes of the first b buckets come first. */
  lemma FlattenPrefixLength<K, V>(bs: seq<seq<Node<K, V>>>, b: nat)
    requires b <= |bs|
    ensures |Flatten(bs[..b])| <= |Flatten(bs)|
  {
    SplitAt(bs, b);
    FlattenConcat(bs[..b], bs[b..]);
  }

  /** Add's step: pushing a hashed node with a new key onto a well-formed
    * table keeps it well-formed and adds one node and its key. */
  lemma PushWellFormed<K(!new), V>(nb: seq<seq<Node<K, V>>>, x: Node<K, V>, h: K -> nat)
    requires WellFormed(nb, h) && x.hash == h(x.key) && x.key !in KeyBag(nb)
    ensures WellFormed(Push(nb, x), h)
    ensures Bag(Push(nb, x)) == Bag(nb) + multiset{x}
    ensures KeyBag(Push(nb, x)) == KeyBag(nb) + multiset{x.key}
    ensures |Flatten(Push(nb, x))| == |Flatten(nb)| + 1
  {
    PushBag(nb, x);
    PushKeyBag(nb, x);
    PushShape(nb, x, h);
    var r := Push(nb, x);
    forall k ensures KeyBag(r)[k] <= 1 {
      assert KeyBag(r)[k] == KeyBag(nb)[k] + multiset{x.key}[k];
    }
    assert |Bag(r)| == |Bag(nb)| + 1;
  }

  /** Remove as written on bucket b: the chain is cut after position p, so
    * the first p + 1 nodes go. */
  lemma DropThrough<K(!new), V>(bs: seq<seq<Node<K, V>>>, h: K -> nat, b: nat, p: nat)
    requires WellFormed(bs, h) && b < |bs| && p < |bs[b]|
    ensures WellFormed(bs[b := bs[b][p + 1..]], h)
    ensures KeyBag(bs[b := bs[b][p + 1..]]) + multiset(KeysOf(bs[b][..p + 1])) == KeyBag(bs)
    ensures |Flatten(bs[b := bs[b][p + 1..]])| + p + 1 == |Flatten(bs)|
  {
    var c := bs[b];
    var rest := c[p + 1..];
    assert c == [] + c[..p + 1] + rest;
    assert [] + [] + rest == rest;
    SpliceBag(bs, b, [], c[..p + 1], [], rest);
    SpliceKeyBag(bs, b, [], c[..p + 1], [], rest);
    DropShape(bs, h, b, p);
    DistinctShrinks(bs, bs[b := rest], multiset(KeysOf(c[..p + 1])));
    assert |Bag(bs[b := rest])| + p + 1 == |Bag(bs)|;
  }

  lemma DropShape<K, V>(bs: seq<seq<Node<K, V>>>, h: K -> nat, b: nat, p: nat)
    requires |bs| > 0 && Placed(bs) && Hashed(bs, h) && b < |bs| && p < |bs[b]|
    ensures Placed(bs[b := bs[b][p + 1..]]) && Hashed(bs[b := bs[b][p + 1..]], h)
  {
    var rest := bs[b][p + 1..];
    assert forall j | 0 <= j < |rest| :: rest[j] == bs[b][p + 1 + j];
    ReplaceShape(bs, b, rest, h);
  }

  /** Remove as intended on bucket b: only the node at position p goes. */
  lemma CutAt<K(!new), V>(bs: seq<seq<Node<K, V>>>, h: K -> nat, b: nat, p: nat)
    requires WellFormed(bs, h) && b < |bs| && p < |bs[b]|
    ensures WellFormed(bs[b := bs[b][..p] + bs[b][p + 1..]], h)
    ensures Bag(bs[b := bs[b][..p] + bs[b][p + 1..]]) + multiset{bs[b][p]} == Bag(bs)
    ensures KeyBag(bs[b := bs[b][..p] + bs[b][p + 1..]]) + multiset{bs[b][p].key} == KeyBag(bs)
    ensures |Flatten(bs[b := bs[b][..p] + bs[b][p + 1..]])| + 1 == |Flatten(bs)|
  {
    var c := bs[b];
    var u, w := c[..p], c[p + 1..];
    assert c == u + [c[p]] + w;
    assert u + [] + w == u + w;
    SpliceBag(bs, b, u, [c[p]], [], w);
    SpliceKeyBag(bs, b, u, [c[p]], [], w);
    CutShape(bs, h, b, p);
    assert KeysOf([c[p]]) == [c[p].key];
    DistinctShrinks(bs, bs[b := u + w], multiset{c[p].key});
    assert |Bag(bs[b := u + w])| + 1 == |Bag(bs)|;
  }

  lemma CutShape<K, V>(bs: seq<seq<Node<K, V>>>, h: K -> nat, b: nat, p: nat)
    requires |bs| > 0 && Placed(bs) && Hashed(bs, h) && b < |bs| && p < |bs[b]|
    ensures Placed(bs[b := bs[b][..p] + bs[b][p + 1..]]) && Hashed(bs[b := bs[b][..p] + bs[b][p + 1..]], h)
  {
    var c := bs[b][..p] + bs[b][p + 1..];
    assert forall j | 0 <= j < |c| :: c[j] == bs[b][if j < p then j else j + 1];
    ReplaceShape(bs, b, c, h);
  }

  /** A node's value overwritten in place: same keys, same shape, and the
    * node swapped for its updated copy. */
  lemma SetValueAt<K(!new), V>(bs: seq<seq<Node<K, V>>>, h: K -> nat, b: nat, p: nat, v: V)
    requires WellFormed(bs, h) && b < |bs| && p < |bs[b]|
    ensures WellFormed(bs[b := bs[b][p := bs[b][p].(value := v)]], h)
    ensures Bag(bs[b := bs[b][p := bs[b][p].(value := v)]]) + multiset{bs[b][p]}
      == Bag(bs) + multiset{bs[b][p].(value := v)}
    ensures KeyBag(bs[b := bs[b][p := bs[b][p].(value := v)]]) == KeyBag(bs)
    ensures |Flatten(bs[b := bs[b][p := bs[b][p].(value := v)]])| == |Flatten(bs)|
  {
    var c := bs[b];
    var y := c[p].(value := v);
    var u, w := c[..p], c[p + 1..];
    assert c == u + [c[p]] + w;
    assert c[p := y] == u + [y] + w;
    SpliceBag(bs, b, u, [c[p]], [y], w);
    SpliceKeyBag(bs, b, u, [c[p]], [y], w);
    assert KeysOf([c[p]]) == KeysOf([y]);
    var r := bs[b := c[p := y]];
    assert KeyBag(r) == KeyBag(bs) by {
      var m := multiset(KeysOf([y]));
      assert KeyBag(r) + m == KeyBag(bs) + m;
      forall k ensures KeyBag(r)[k] == KeyBag(bs)[k] {
        assert (KeyBag(r) + m)[k] == KeyBag(r)[k] + m[k];
        assert (KeyBag(bs) + m)[k] == KeyBag(bs)[k] + m[k];
      }
    }
    assert |Flatten(r)| == |KeyBag(r)| == |KeyBag(bs)| == |Flatten(bs)|;
    assert forall j | 0 <= j < |c[p := y]| :: c[p := y][j].hash == c[j].hash && c[p := y][j].key == c[j].key;
    ReplaceShape(bs, b, c[p := y], h);
  }

  /** ResizeCore's inner loop: every node of c pushed onto nb, from the
    * head of the chain on. */
  method PushChain<K, V>(nb: array<seq<Node<K, V>>>, c: seq<Node<K, V>>)
    requires nb.Length > 0
    modifies nb
    ensures nb[..] == PushAll(old(nb[..]), c)
  {
    ghost var start := nb[..];
    var k := 0;
    while k < |c|
      invariant 0 <= k <= |c|
      invariant nb[..] == PushAll(start, c[..k])
    {
      var node := c[k];
      var num := BucketOf(node.hash, nb.Length);
      nb[num] := [Node(node.hash, node.key, node.value)] + nb[num];
      assert c[..k + 1][..k] == c[..k];
      k := k + 1;
    }
    assert c[..k] == c;
  }

  /** ToArray's inner loop: the keys of c written from slot num on. */
  method WriteKeys<K, V>(a: array<K>, num: nat, c: seq<Node<K, V>>) returns (next: nat)
    requires num + |c| <= a.Length
    modifies a
    ensures next == num + |c|
    ensures a[..next] == old(a[..num]) + KeysOf(c)
    ensures a[next..] == old(a[num..])[|c|..]
  {
    next := num;
    var k := 0;
    while k < |c|
      invariant 0 <= k <= |c| && next == num + k
      invariant a[..next] == old(a[..num]) + KeysOf(c[..k])
      invariant a[num + |c|..] == old(a[num + |c|..])
    {
      a[next] := c[k].key;
      KeysOfConcat(c[..k], [c[k]]);
      assert c[..k + 1] == c[..k] + [c[k]];
      next := next + 1;
      k := k + 1;
    }
    assert c[..k] == c;
  }

  /** ResizeCore's loops: n new buckets, then every chain of bs pushed,
    * bucket by bucket. */
  method RehashInto<K, V>(bs: array<seq<Node<K, V>>>, n: nat) returns (nb: array<seq<Node<K, V>>>)
    requires n > 0
    ensures fresh(nb) && nb.Length == n
    ensures nb[..] == Rehash(bs[..], EmptyBuckets(n))
  {
    nb := new seq<Node<K, V>>[n](_ => []);
    ghost var e := nb[..];
    assert e == EmptyBuckets(n);
    var i := 0;
    while i < bs.Length
      invariant 0 <= i <= bs.Length
      invariant fresh(nb) && nb.Length == n
      invariant nb[..] == Rehash(bs[..i], e)
    {
      PushChain(nb, bs[i]);
      assert bs[..i + 1][..i] == bs[..i];
      i := i + 1;
    }
    assert bs[..i] == bs[..];
  }

  /** A value that occurs at two positions occurs twice. */
  lemma TwoPositions<T>(s: seq<T>, i: nat, j: nat)
    requires i < j < |s| && s[i] == s[j]
    ensures multiset(s)[s[i]] >= 2
  {
    SplitAt(s, j);
    assert s[i] == s[..j][i];
    assert s[j] == s[j..][0];
  }

  /** In a table with distinct keys, a key has one node. */
  lemma KeyUnique<K(!new), V>(bs: seq<seq<Node<K, V>>>, x: Node<K, V>, y: Node<K, V>)
    requires Distinct(bs) && x in Bag(bs) && y in Bag(bs) && x.key == y.key
    ensures x == y
  {
    var f := Flatten(bs);
    if x != y {
      var i :| 0 <= i < |f| && f[i] == x;
      var j :| 0 <= j < |f| && f[j] == y;
      var ks := KeysOf(f);
      assert ks[i] == ks[j] == x.key && i != j;
      assert multiset(ks)[x.key] == KeyBag(bs)[x.key] <= 1;
      if i < j {
        TwoPositions(ks, i, j);
      } else {
        TwoPositions(ks, j, i);
      }
      assert false;
    }
  }

  /** A stored node carries its key's hash. */
  lemma NodeHashed<K, V>(bs: seq<seq<Node<K, V>>>, h: K -> nat, x: Node<K, V>)
    requires Hashed(bs, h) && x in Bag(bs)
    ensures x.hash == h(x.key)
  {
    InFlatten(bs, x);
    var i :| 0 <= i < |bs| && x in bs[i];
    var j :| 0 <= j < |bs[i]| && bs[i][j] == x;
  }

  /** A key is stored exactly when a node holds it. */
  lemma KeyHasNode<K, V>(bs: seq<seq<Node<K, V>>>, k: K)
    ensures k in KeyBag(bs) <==> exists x | x in Bag(bs) :: x.key == k
  {
    var f := Flatten(bs);
    InKeysOf(f, k);
    if k in KeyBag(bs) {
      var j :| 0 <= j < |f| && f[j].key == k;
      assert f[j] in Bag(bs);
    }
    if exists x | x in Bag(bs) :: x.key == k {
      var x :| x in Bag(bs) && x.key == k;
      var j :| 0 <= j < |f| && f[j] == x;
    }
  }

  /** The key/value pairs of a node sequence, in order. */
  function PairsOf<K, V>(ns: seq<Node<K, V>>): seq<(K, V)>
  {
    seq(|ns|, i requires 0 <= i < |ns| => (ns[i].key, ns[i].value))
  }

  lemma PairsOfConcat<K, V>(a: seq<Node<K, V>>, b: seq<Node<K, V>>)
    ensures PairsOf(a + b) == PairsOf(a) + PairsOf(b)
  {
  }

  /** Map.ToArray's inner loop: the pairs of c written from slot num on. */
  method WritePairs<K, V>(a: array<(K, V)>, num: nat, c: seq<Node<K, V>>) returns (next: nat)
    requires num + |c| <= a.Length
    modifies a
    ensures next == num + |c|
    ensures a[..next] == old(a[..num]) + PairsOf(c)
    ensures a[next..] == old(a[num..])[|c|..]
  {
    next := num;
    var k := 0;
    while k < |c|
      invariant 0 <= k <= |c| && next == num + k
      invariant a[..next] == old(a[..num]) + PairsOf(c[..k])
      invariant a[num + |c|..] == old(a[num + |c|..])
    {
      a[next] := (c[k].key, c[k].value);
      PairsOfConcat(c[..k], [c[k]]);
      assert c[..k + 1] == c[..k] + [c[k]];
      next := next + 1;
      k := k + 1;
    }
    assert c[..k] == c;
  }

  /** GetHashCode() & int.MaxValue: the hash of a key that is not a string
    * under the default comparer. */
  function ObjectHash(code: bv32): nat
  {
    (code & 0x7fff_ffff) as nat
  }

  /** (ulong) of a 32-bit int hash code: sign extension to 64 bits. */
  function SignExtended(code: bv32): nat
  {
    if code < 0x8000_0000 then code as nat else code as nat + 0xffff_ffff_0000_0000
  }

  /** StringInfo.GetHash: the FarmHash digest when the native call gives
    * one (it gives none for the empty string), else the string's
    * GetHashCode() widened to ulong. */
  function StringHash(digest: Option<bv64>, code: bv32): nat
  {
    match digest
    case Some(d) => d as nat
    case None => SignExtended(code)
  }

  /** GetBucketInfo's hash: StringInfo.GetHash when the container uses
    * the string comparer (flag), else ObjectHash. */
  function KeyHash(flag: bool, digest: Option<bv64>, code: bv32): nat
  {
    if flag then StringHash(digest, code) else ObjectHash(code)
  }

  datatype Option<T> = None | Some(value: T)
}
