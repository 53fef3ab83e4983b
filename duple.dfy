/** Circus.Duple<T>: an ordered pair of two values of the same type, with
  * lexicographic comparison, component-wise equality and a hash that
  * combines the component hashes. Comparer<T>.Default is the parameter
  * `cmp` and the component hash function is the parameter `h`; int hash
  * codes are 32-bit words (bv32), whose addition wraps around as C#'s
  * unchecked int addition does. */
module Duple {

  datatype Duple<T> = Duple(first: T, second: T)

  /** this[index]: First for 0, Second for 1, default(T) otherwise. */
  function At<T>(d: Duple<T>, index: int, dflt: T): (r: T)
    ensures index == 0 ==> r == d.first
    ensures index == 1 ==> r == d.second
    ensures index != 0 && index != 1 ==> r == dflt
  {
    if index == 0 then d.first else if index == 1 then d.second else dflt
  }

  /** Empty: (default, default). */
  function Empty<T>(dflt: T): (r: Duple<T>)
    ensures At(r, 0, dflt) == dflt && At(r, 1, dflt) == dflt
  {
    Duple(dflt, dflt)
  }

  /** (uint)((x << 5) | (int)((uint)x >> 27)). */
  function RotateLeft5(x: bv32): bv32
  {
    (x << 5) | (x >> 27)
  }

  /** The shift pair is a left rotation by 5. */
  lemma RotateLeft5IsRotation(x: bv32)
    ensures RotateLeft5(x) == x.RotateLeft(5)
  {
  }

  /** (int)rotl(x, 5) + x, with wrap-around. */
  function Spread(x: bv32): bv32
  {
    RotateLeft5(x) + x
  }

  /** The second hash mixed into the spread first one. */
  function Mix(s: bv32, y: bv32): bv32
  {
    s ^ y
  }

  /** Combine(x, y) = ((int)rotl(x, 5) + x) ^ y with wrap-around. */
  function Combine(x: bv32, y: bv32): bv32
  {
    Mix(Spread(x), y)
  }

  // Proof helpers: xor facts about Mix with the spread hash kept abstract.
  // Stated over Spread(x) itself, they exhaust the solver on the rotation
  // and the sum.
  lemma MixCancel(s: bv32, y: bv32)
    ensures Mix(s, y) ^ y == s
  {
  }

  lemma MixSecond(s: bv32, y: bv32)
    ensures Mix(s, y) ^ Mix(s, 0) == y
  {
  }

  /** The second hash is mixed in by xor, so xor-ing it out again leaves
    * the wrapped sum of the rotated first hash and the first hash. */
  lemma CombineRecoversSum(x: bv32, y: bv32)
    ensures Combine(x, y) ^ y == Spread(x)
  {
    MixCancel(Spread(x), y);
  }

  /** Combining with 0 leaves the sum, so two combines of the same first
    * hash differ by exactly the second. */
  lemma CombineRecoversSecond(x: bv32, y: bv32)
    ensures Combine(x, y) ^ Combine(x, 0) == y
  {
    MixSecond(Spread(x), y);
  }

  /** For a fixed first hash, different second hashes never collide. */
  lemma CombineInjective(x: bv32, y: bv32, z: bv32)
    ensures Combine(x, y) == Combine(x, z) <==> y == z
  {
    MixCancel(Spread(x), y);
    MixCancel(Spread(x), z);
  }

  /** GetHashCode: Combine of the component hashes. */
  function HashCode<T>(d: Duple<T>, h: T -> bv32): bv32
  {
    Combine(h(d.first), h(d.second))
  }

  /** Equals: both components equal. */
  predicate Equals<T(==)>(a: Duple<T>, b: Duple<T>)
  {
    a.first == b.first && a.second == b.second
  }

  /** Equal duples hash alike, for every component hash function. */
  lemma EqualsIsEquality<T>(a: Duple<T>, b: Duple<T>, h: T -> bv32)
    ensures Equals(a, b) <==> a == b
    ensures Equals(a, b) ==> HashCode(a, h) == HashCode(b, h)
  {
  }

  /** CompareTo: the comparison of First, or of Second on a tie. */
  function CompareTo<T>(a: Duple<T>, b: Duple<T>, cmp: (T, T) -> int): int
  {
    var num := cmp(a.first, b.first);
    if num != 0 then num else cmp(a.second, b.second)
  }

  /** A comparer whose zero is equality and whose sign flips with its
    * arguments. */
  ghost predicate Comparer<T(!new)>(cmp: (T, T) -> int)
  {
    && (forall x, y :: cmp(x, y) == 0 <==> x == y)
    && (forall x, y :: cmp(x, y) < 0 <==> cmp(y, x) > 0)
  }

  /** A transitive comparer. */
  ghost predicate Transitive<T(!new)>(cmp: (T, T) -> int)
  {
    forall x, y, z :: cmp(x, y) < 0 && cmp(y, z) < 0 ==> cmp(x, z) < 0
  }

  /** The strict lexicographic order on pairs induced by cmp. */
  ghost predicate LexLess<T>(a: Duple<T>, b: Duple<T>, cmp: (T, T) -> int)
  {
    cmp(a.first, b.first) < 0 || (a.first == b.first && cmp(a.second, b.second) < 0)
  }

  /** Over a comparer, CompareTo is zero exactly on equal duples, flips
    * sign with its arguments, and is negative exactly in lexicographic
    * order. */
  lemma CompareToIsLexicographic<T(!new)>(a: Duple<T>, b: Duple<T>, cmp: (T, T) -> int)
    requires Comparer(cmp)
    ensures CompareTo(a, b, cmp) == 0 <==> a == b
    ensures CompareTo(a, b, cmp) < 0 <==> CompareTo(b, a, cmp) > 0
    ensures CompareTo(a, b, cmp) < 0 <==> LexLess(a, b, cmp)
  {
    assert cmp(a.first, b.first) == 0 <==> cmp(b.first, a.first) == 0;
  }

  /** Over a transitive comparer, CompareTo is transitive. */
  lemma CompareToTransitive<T(!new)>(a: Duple<T>, b: Duple<T>, c: Duple<T>, cmp: (T, T) -> int)
    requires Comparer(cmp) && Transitive(cmp)
    requires CompareTo(a, b, cmp) < 0 && CompareTo(b, c, cmp) < 0
    ensures CompareTo(a, c, cmp) < 0
  {
    CompareToIsLexicographic(a, b, cmp);
    CompareToIsLexicographic(b, c, cmp);
    CompareToIsLexicographic(a, c, cmp);
  }
}
