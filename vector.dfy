/** Circus.Collections.Vector<T>: a contiguous dynamic array with a fixed
  * initial capacity and a fixed growth offset. The backing array is a
  * Dafny array; Count is a field. default(T) is the constant `dflt` given
  * at construction, and the equality comparer is `==`. Every slot at or
  * beyond Count holds the default value, which is what Contains observes
  * when it scans the whole backing array. */
module Vector {

  /** s with v inserted at index i. */
  function Inserted<T>(s: seq<T>, i: nat, v: T): (r: seq<T>)
    requires i <= |s|
    ensures |r| == |s| + 1 && r[i] == v
    ensures forall k | 0 <= k < i :: r[k] == s[k]
    ensures forall k | i < k < |r| :: r[k] == s[k - 1]
  {
    s[..i] + [v] + s[i..]
  }

  /** s without the element at index i. */
  function Removed<T>(s: seq<T>, i: nat): (r: seq<T>)
    requires i < |s|
    ensures |r| == |s| - 1
    ensures forall k | 0 <= k < i :: r[k] == s[k]
    ensures forall k | i <= k < |r| :: r[k] == s[k + 1]
  {
    s[..i] + s[i + 1..]
  }

  /** s in the opposite order. */
  function Reversed<T>(s: seq<T>): (r: seq<T>)
    ensures |r| == |s|
    ensures forall k | 0 <= k < |s| :: r[k] == s[|s| - 1 - k]
  {
    seq(|s|, k requires 0 <= k < |s| => s[|s| - 1 - k])
  }

  /** s with t inserted at index i. */
  function InsertedRange<T>(s: seq<T>, i: nat, t: seq<T>): (r: seq<T>)
    requires i <= |s|
    ensures |r| == |s| + |t|
    ensures forall k | 0 <= k < i :: r[k] == s[k]
    ensures forall k | i <= k < i + |t| :: r[k] == t[k - i]
    ensures forall k | i + |t| <= k < |r| :: r[k] == s[k - |t|]
  {
    s[..i] + t + s[i..]
  }

  /** The elements after the range insertion as written: below Count - 1
    * the old elements move right; otherwise nothing moves and t is written
    * over the array, whose unused tail holds d. */
  function InsertedRangeAsWritten<T>(s: seq<T>, i: nat, t: seq<T>, d: T): (r: seq<T>)
    requires i <= |s|
    ensures |r| == |s| + |t|
  {
    if i < |s| - 1 then InsertedRange(s, i, t)
    else
      var padded := s + seq(|t|, _ => d);
      padded[..i] + t + padded[i + |t|..]
  }

  /** The bounds test of RemoveAt(index, n) as written. */
  predicate RangeAcceptedAsWritten(index: int, n: nat, count: nat)
  {
    !(index < 0 || index + n > count - 1)
  }

  /** Inserting a one-element range is inserting that element. */
  lemma InsertedRangeSingleton<T>(s: seq<T>, i: nat, v: T)
    requires i <= |s|
    ensures InsertedRange(s, i, [v]) == Inserted(s, i, v)
  {
  }

  /** The range insertion as written agrees with the intended one except
    * at index Count - 1 with a non-empty range, where the last old element
    * is lost and default(T) appears at the end instead. */
  lemma InsertCollectionLosesLast<T>(s: seq<T>, i: nat, t: seq<T>, d: T)
    requires i <= |s|
    ensures i != |s| - 1 || |t| == 0 ==> InsertedRangeAsWritten(s, i, t, d) == InsertedRange(s, i, t)
    ensures i == |s| - 1 && |t| > 0 ==>
      InsertedRangeAsWritten(s, i, t, d)[|s| + |t| - 1] == d &&
      InsertedRange(s, i, t)[|s| + |t| - 1] == s[|s| - 1]
  {
    if i >= |s| - 1 {
      var padded := s + seq(|t|, _ => d);
      var r := InsertedRangeAsWritten(s, i, t, d);
      if i == |s| || |t| == 0 {
        assert forall k | 0 <= k < |r| :: r[k] == InsertedRange(s, i, t)[k];
      } else {
        assert r[|s| + |t| - 1] == padded[|s| + |t| - 1];
      }
    }
  }

  /** Concretely: inserting [3] at index 1 of [1, 2] gives [1, 3, 0]
    * (default 0) instead of [1, 3, 2]. */
  lemma InsertCollectionExample()
    ensures InsertedRangeAsWritten([1, 2], 1, [3], 0) == [1, 3, 0]
    ensures InsertedRange([1, 2], 1, [3]) == [1, 3, 2]
  {
    assert ([1, 2] + seq(1, _ => 0))[..1] + [3] + ([1, 2] + seq(1, _ => 0))[2..] == [1, 3, 0];
  }

  /** The guard as written rejects every range that ends at Count, which
    * the intended bound index + n <= Count accepts. */
  lemma RangeGuardRejectsTail(index: nat, n: nat, count: nat)
    requires index + n == count
    ensures !RangeAcceptedAsWritten(index, n, count)
  {
  }

  /** Removing what was just inserted gives the original sequence back. */
  lemma RemoveUndoesInsert<T>(s: seq<T>, i: nat, v: T)
    requires i <= |s|
    ensures Removed(Inserted(s, i, v), i) == s
  {
    var r := Removed(Inserted(s, i, v), i);
    assert forall k | 0 <= k < |s| :: r[k] == s[k] by {
      forall k | 0 <= k < |s| ensures r[k] == s[k] {
        if k >= i {
          assert r[k] == Inserted(s, i, v)[k + 1];
        }
      }
    }
  }

  /** Reversal is an involution. */
  lemma ReversedTwice<T>(s: seq<T>)
    ensures Reversed(Reversed(s)) == s
  {
    var r := Reversed(Reversed(s));
    assert forall k | 0 <= k < |s| :: r[k] == s[k] by {
      forall k | 0 <= k < |s| ensures r[k] == s[k] {
        assert r[k] == Reversed(s)[|s| - 1 - k];
      }
    }
  }

  /** Every slot of a from n on holds d. */
  ghost predicate TailIs<T>(a: seq<T>, n: nat, d: T)
  {
    forall k | n <= k < |a| :: a[k] == d
  }

  /** a with the slots [index, n) moved c slots right (what
    * Array.Copy(array, index, array, index + c, n - index) leaves); the
    * slots [index, index + c) keep their old values. */
  function ShiftedRight<T>(a: seq<T>, index: nat, n: nat, c: nat): (r: seq<T>)
    requires index <= n && n + c <= |a|
    ensures |r| == |a|
    ensures forall k | 0 <= k < index + c :: r[k] == a[k]
    ensures forall k | index + c <= k < n + c :: r[k] == a[k - c]
    ensures forall k | n + c <= k < |a| :: r[k] == a[k]
  {
    seq(|a|, k requires 0 <= k < |a| => if index + c <= k < n + c then a[k - c] else a[k])
  }

  /** a with t written over [index, index + |t|). */
  function Written<T>(a: seq<T>, index: nat, t: seq<T>): (r: seq<T>)
    requires index + |t| <= |a|
    ensures |r| == |a|
    ensures forall k | 0 <= k < index :: r[k] == a[k]
    ensures forall k | index <= k < index + |t| :: r[k] == t[k - index]
    ensures forall k | index + |t| <= k < |a| :: r[k] == a[k]
  {
    a[..index] + t + a[index + |t|..]
  }

  /** A one-slot shift right of [index, n) and a store of v at index leave
    * the insertion in the first n + 1 slots and default(T) after them. */
  lemma {:induction false} InsertStep<T>(a0: seq<T>, n: nat, index: nat, v: T, d: T)
    requires n < |a0| && index <= n && TailIs(a0, n, d)
    ensures ShiftedRight(a0, index, n, 1)[index := v][..n + 1] == Inserted(a0[..n], index, v)
    ensures TailIs(ShiftedRight(a0, index, n, 1)[index := v], n + 1, d)
  {
    var a := ShiftedRight(a0, index, n, 1);
    var w := a[index := v];
    var r := w[..n + 1];
    var e := Inserted(a0[..n], index, v);
    forall k | 0 <= k < n + 1 ensures r[k] == e[k] {
      if k < index {
        assert r[k] == a0[k];
      } else if k > index {
        assert r[k] == a0[k - 1] == a0[..n][k - 1];
      }
    }
    assert r == e;
    forall k | n + 1 <= k < |w| ensures w[k] == d {
      assert w[k] == a0[k];
    }
  }

  /** A shift right by |t| of [index, n) and t written at index leave the
    * range insertion in the first n + |t| slots. */
  lemma {:induction false} InsertRangeStep<T>(a0: seq<T>, n: nat, index: nat, t: seq<T>, d: T)
    requires n + |t| <= |a0| && index <= n && TailIs(a0, n, d)
    ensures Written(ShiftedRight(a0, index, n, |t|), index, t)[..n + |t|] == InsertedRange(a0[..n], index, t)
    ensures TailIs(Written(ShiftedRight(a0, index, n, |t|), index, t), n + |t|, d)
  {
    var a2 := Written(ShiftedRight(a0, index, n, |t|), index, t);
    var r := a2[..n + |t|];
    var e := InsertedRange(a0[..n], index, t);
    forall k | 0 <= k < n + |t| ensures r[k] == e[k] {
      if k >= index + |t| {
        assert e[k] == a0[..n][k - |t|];
      }
    }
  }

  /** t written at index with nothing moved leaves the as-written range
    * insertion in the first n + |t| slots, when index is at least n - 1. */
  lemma {:induction false} OverwriteStep<T>(a0: seq<T>, n: nat, index: nat, t: seq<T>, d: T)
    requires n + |t| <= |a0| && index <= n && TailIs(a0, n, d)
    ensures index >= n - 1 ==> Written(a0, index, t)[..n + |t|] == InsertedRangeAsWritten(a0[..n], index, t, d)
    ensures TailIs(Written(a0, index, t), n + |t|, d)
  {
    var a2 := Written(a0, index, t);
    if index >= n - 1 {
      var r := a2[..n + |t|];
      var s := a0[..n];
      var padded := s + seq(|t|, _ => d);
      var e := padded[..index] + t + padded[index + |t|..];
      assert e == InsertedRangeAsWritten(s, index, t, d);
      forall k | 0 <= k < n + |t| ensures r[k] == e[k] {
        if k < index {
          assert e[k] == padded[k];
        } else if k >= index + |t| {
          assert e[k] == padded[k];
        }
      }
    }
  }

  /** The array after a shift left by c of the elements after [index,
    * index + c) and a clear of the c vacated slots. */
  lemma {:induction false} RemoveRangeStep<T>(a0: seq<T>, a2: seq<T>, m: nat, index: nat, c: nat, d: T)
    requires m + c <= |a0| == |a2| && index <= m && TailIs(a0, m + c, d)
    requires forall k | 0 <= k < index :: a2[k] == a0[k]
    requires forall k | index <= k < m :: a2[k] == a0[k + c]
    requires forall k | m <= k < m + c :: a2[k] == d
    requires forall k | m + c <= k < |a2| :: a2[k] == a0[k]
    ensures a2[..m] == a0[..m + c][..index] + a0[..m + c][index + c..]
    ensures TailIs(a2, m, d)
  {
    var r := a2[..m];
    var e := a0[..m + c][..index] + a0[..m + c][index + c..];
    forall k | 0 <= k < m ensures r[k] == e[k] {
      if k >= index {
        assert e[k] == a0[..m + c][k + c];
      }
    }
  }

  /** An array whose first n slots hold those of a0 in the opposite order
    * holds Reversed(a0[..n]) there. */
  /** a0 with its first and last i elements of [0, n) swapped into
    * reversed position, as Reverse leaves the array after i swaps. */
  ghost function PartlyReversed<T>(a0: seq<T>, n: nat, i: nat): (r: seq<T>)
    requires n <= |a0| && 2 * i <= n
    ensures |r| == |a0|
  {
    seq(|a0|, k requires 0 <= k < |a0| =>
      if k < i || n - i <= k < n then a0[n - 1 - k] else a0[k])
  }

  /** One swap of Reverse extends the reversed border by one. */
  lemma ReverseStep<T>(a0: seq<T>, n: nat, i: nat)
    requires n <= |a0| && 2 * i + 2 <= n
    ensures var a := PartlyReversed(a0, n, i);
      a[i := a[n - 1 - i]][n - 1 - i := a[i]] == PartlyReversed(a0, n, i + 1)
  {
  }

  /** Once the border meets in the middle, [0, n) is reversed and the
    * rest is untouched. */
  lemma ReverseDone<T>(a0: seq<T>, n: nat, i: nat)
    requires n <= |a0| && 2 * i <= n <= 2 * i + 1
    ensures PartlyReversed(a0, n, i)[..n] == Reversed(a0[..n])
    ensures PartlyReversed(a0, n, i)[n..] == a0[n..]
  {
    var a := PartlyReversed(a0, n, i);
    var r := Reversed(a0[..n]);
    forall k | 0 <= k < n ensures a[..n][k] == r[k] {
      assert r[k] == a0[..n][n - 1 - k];
    }
  }

  class Vector<T(==)> {
    var arr: array<T>
    var count: nat
    const capacity: nat
    const offset: int
    const dflt: T

    /** Count never exceeds Size, and the unused tail holds default(T). */
    ghost predicate Valid()
      reads this, arr
    {
      count <= arr.Length &&
      forall k | count <= k < arr.Length :: arr[k] == dflt
    }

    /** The elements [0, Count) in order. */
    function Elements(): seq<T>
      reads this, arr
      requires count <= arr.Length
    {
      arr[..count]
    }

    /** Vector(capacity, offset): an empty vector with Size == capacity. */
    constructor (capacity: nat, offset: int, dflt: T)
      ensures Valid() && fresh(arr) && Elements() == [] && arr.Length == capacity
      ensures this.capacity == capacity && this.offset == offset && this.dflt == dflt
    {
      this.capacity := capacity;
      this.offset := offset;
      this.dflt := dflt;
      arr := new T[capacity](_ => dflt);
      count := 0;
    }

    /** Vector(capacity, offset, fill): Count == Size == capacity, every
      * element a copy of fill. */
    constructor Fill(capacity: nat, offset: int, dflt: T, fill: T)
      ensures Valid() && fresh(arr) && arr.Length == capacity && count == capacity
      ensures forall k | 0 <= k < capacity :: Elements()[k] == fill
      ensures this.capacity == capacity && this.offset == offset && this.dflt == dflt
    {
      this.capacity := capacity;
      this.offset := offset;
      this.dflt := dflt;
      var a := new T[capacity](_ => dflt);
      for i := 0 to capacity
        invariant forall k | 0 <= k < i :: a[k] == fill
      {
        a[i] := fill;
      }
      arr := a;
      count := capacity;
    }

    /** Vector(offset, array): capacity 5. A collection is copied into an
      * array of exactly its size; any other enumerable is added element by
      * element into an array of 5 slots that grows by offset. With an
      * offset of 0 or less the sixth Add throws; `ok` is false exactly then,
      * and `v` is the vector as the exception leaves it. */
    static method FromEnumerable(offset: int, s: seq<T>, dflt: T, collection: bool)
      returns (ok: bool, v: Vector<T>)
      ensures fresh(v) && fresh(v.arr) && v.Valid()
      ensures v.capacity == 5 && v.offset == offset && v.dflt == dflt
      ensures ok <==> collection || offset > 0 || |s| <= 5
      ensures ok ==> v.Elements() == s
      ensures ok && collection ==> v.arr.Length == |s|
      ensures !ok ==> v.Elements() == s[..5]
    {
      if collection {
        v := new Vector.Copied(offset, s, dflt);
        return true, v;
      }
      v := new Vector(5, offset, dflt);
      for i := 0 to |s|
        invariant fresh(v) && fresh(v.arr) && v.Valid() && v.Elements() == s[..i]
        invariant v.capacity == 5 && v.offset == offset && v.dflt == dflt
        invariant offset <= 0 ==> v.arr.Length == 5
      {
        var added, _ := v.Add(s[i]);
        if !added {
          return false, v;
        }
      }
      assert s[..|s|] == s;
      return true, v;
    }

    /** The ICollection branch of Initialize(array): an array of exactly the
      * collection's size holding its elements, with capacity 5. */
    constructor Copied(offset: int, s: seq<T>, dflt: T)
      ensures Valid() && fresh(arr) && Elements() == s && arr.Length == |s|
      ensures this.capacity == 5 && this.offset == offset && this.dflt == dflt
    {
      capacity := 5;
      this.offset := offset;
      this.dflt := dflt;
      arr := new T[|s|](k requires 0 <= k < |s| => s[k]);
      count := |s|;
    }

    /** A fresh array of `size` slots holding the first n elements, the
      * rest default(T) (the private Copy helper). */
    method CopyPrefix(size: nat, n: nat) returns (a: array<T>)
      requires n <= arr.Length && n <= size
      ensures fresh(a) && a.Length == size && a[..n] == arr[..n]
      ensures forall k | n <= k < size :: a[k] == dflt
    {
      a := new T[size](_ => dflt);
      for i := 0 to n
        invariant forall k | 0 <= k < i :: a[k] == arr[k]
        invariant forall k | n <= k < size :: a[k] == dflt
      {
        a[i] := arr[i];
      }
    }

    /** Add: appends, returning the old Count; a full array first grows to
      * Size + Offset. With an offset of 0 or less a full array cannot grow:
      * `new T[Size + Offset]` or the copy into it throws, or, for offset 0,
      * the store at Count does. `ok` is false exactly then, and the elements
      * are as they were. */
    method Add(value: T) returns (ok: bool, r: nat)
      requires Valid()
      modifies this, arr
      ensures Valid() && r == old(count)
      ensures ok <==> old(count) < old(arr.Length) || offset > 0
      ensures ok ==> Elements() == old(Elements()) + [value]
      ensures !ok ==> Elements() == old(Elements()) && arr.Length == old(arr.Length)
      ensures arr == old(arr) || fresh(arr)
      ensures old(count) < old(arr.Length) ==> arr == old(arr)
      ensures ok && old(count) == old(arr.Length) ==> fresh(arr) && arr.Length == old(arr.Length) + offset
    {
      var num := count;
      if num == arr.Length {
        if arr.Length + offset < num {
          return false, num;
        }
        arr := CopyPrefix(arr.Length + offset, num);
        if num == arr.Length {
          return false, num;
        }
      }
      arr[num] := value;
      count := count + 1;
      return true, num;
    }

    /** At: bounds-checked read. */
    method At(index: int) returns (ok: bool, value: T)
      requires Valid()
      ensures ok <==> 0 <= index < count
      ensures ok ==> value == Elements()[index]
      ensures !ok ==> value == dflt
    {
      if index < 0 || index > count - 1 {
        return false, dflt;
      }
      return true, arr[index];
    }

    /** Clear(trim): with elements, either reallocates Capacity slots (trim)
      * or clears every slot of the array in place; an empty vector is left
      * alone. */
    method Clear(trim: bool)
      requires Valid()
      modifies this, arr
      ensures Valid() && Elements() == []
      ensures old(count) == 0 ==> arr == old(arr) && arr[..] == old(arr[..])
      ensures old(count) > 0 && trim ==> arr.Length == capacity
      ensures old(count) > 0 && !trim ==> arr == old(arr)
    {
      if count > 0 {
        if trim {
          arr := new T[capacity](_ => dflt);
          count := 0;
        } else {
          for i := 0 to arr.Length
            invariant arr == old(arr)
            invariant forall k | 0 <= k < i :: arr[k] == dflt
          {
            arr[i] := dflt;
          }
          count := 0;
        }
      }
    }

    /** Contains: scans the whole backing array, so the default value is
      * also found in an unused slot. */
    method Contains(value: T) returns (found: bool, index: int)
      requires Valid()
      ensures found <==> value in arr[..]
      ensures found ==> 0 <= index < arr.Length && arr[index] == value && value !in arr[..index]
      ensures !found ==> index == -1
      ensures found <==> value in Elements() || (value == dflt && count < arr.Length)
    {
      index := -1;
      for i := 0 to arr.Length
        invariant value !in arr[..i]
      {
        if arr[i] == value {
          index := i;
          assert arr[..i + 1] == arr[..i] + [arr[i]];
          assert value in Elements() || count <= i;
          return true, index;
        }
        assert arr[..i + 1] == arr[..i] + [arr[i]];
      }
      assert arr[..] == arr[..arr.Length];
      if count < arr.Length {
        assert arr[count] == dflt;
      }
      found := false;
    }

    /** Array.Copy(array, index, array, index + c, Count - index): the
      * elements [index, Count) move c slots right. */
    method ShiftRightBy(index: nat, c: nat)
      requires index <= count && count + c <= arr.Length
      modifies arr
      ensures forall k | 0 <= k < index :: arr[k] == old(arr[k])
      ensures forall k | index + c <= k < count + c :: arr[k] == old(arr[k - c])
      ensures forall k | count + c <= k < arr.Length :: arr[k] == old(arr[k])
      ensures arr[..] == ShiftedRight(old(arr[..]), index, count, c)
    {
      var j := count;
      while j > index
        invariant index <= j <= count
        invariant forall k | 0 <= k < j + c :: arr[k] == old(arr[k])
        invariant forall k | j + c <= k < count + c :: arr[k] == old(arr[k - c])
        invariant forall k | count + c <= k < arr.Length :: arr[k] == old(arr[k])
      {
        arr[j - 1 + c] := arr[j - 1];
        j := j - 1;
      }
      assert forall k | 0 <= k < arr.Length :: arr[k] == ShiftedRight(old(arr[..]), index, count, c)[k];
    }

    /** collection.CopyTo(array, index): t is written over [index,
      * index + |t|). */
    method WriteAt(index: nat, t: seq<T>)
      requires index + |t| <= arr.Length
      modifies arr
      ensures forall k | 0 <= k < index :: arr[k] == old(arr[k])
      ensures forall k | index <= k < index + |t| :: arr[k] == t[k - index]
      ensures forall k | index + |t| <= k < arr.Length :: arr[k] == old(arr[k])
      ensures arr[..] == Written(old(arr[..]), index, t)
    {
      for j := 0 to |t|
        invariant forall k | 0 <= k < index :: arr[k] == old(arr[k])
        invariant forall k | index <= k < index + j :: arr[k] == t[k - index]
        invariant forall k | index + j <= k < arr.Length :: arr[k] == old(arr[k])
      {
        arr[index + j] := t[j];
      }
      assert forall k | 0 <= k < arr.Length :: arr[k] == Written(old(arr[..]), index, t)[k];
    }

    /** Insert(index, value): no bounds check beyond index <= Count;
      * reserves one slot, shifts [index, Count) right and stores value. */
    method Insert(index: nat, value: T)
      requires Valid() && index <= count
      modifies this, arr
      ensures Valid() && Elements() == Inserted(old(Elements()), index, value)
      ensures old(count) < old(arr.Length) ==> arr == old(arr)
      ensures old(count) == old(arr.Length) ==> fresh(arr) && arr.Length == old(count) + 1
    {
      Reserve(1);
      Place(index, value);
    }

    /** The part of Insert after Reserve: a free slot exists. */
    method Place(index: nat, value: T)
      requires Valid() && index <= count < arr.Length
      modifies this, arr
      ensures Valid() && arr == old(arr) && Elements() == Inserted(old(Elements()), index, value)
    {
      ghost var a0 := arr[..];
      assert TailIs(a0, count, dflt);
      if index < count {
        ShiftRightBy(index, 1);
      } else {
        assert a0 == ShiftedRight(a0, index, count, 1);
      }
      arr[index] := value;
      count := count + 1;
      assert arr[..] == ShiftedRight(a0, index, count - 1, 1)[index := value];
      InsertStep(a0, count - 1, index, value, dflt);
      assert a0[..count - 1] == old(Elements());
    }

    /** InsertAt: rejects index < 0 or index > Count and then changes
      * nothing. */
    method InsertAt(index: int, value: T) returns (ok: bool)
      requires Valid()
      modifies this, arr
      ensures Valid()
      ensures ok <==> 0 <= index <= old(count)
      ensures ok ==> Elements() == Inserted(old(Elements()), index, value)
      ensures !ok ==> arr == old(arr) && count == old(count) && arr[..] == old(arr[..])
    {
      if index < 0 || index > count {
        return false;
      }
      Insert(index, value);
      return true;
    }

    /** Insert(index, collection) as written: the shift is guarded by
      * index < Count - 1, so an insertion at Count - 1 writes over the last
      * element instead of moving it. */
    method InsertCollection(index: nat, t: seq<T>)
      requires Valid() && index <= count
      modifies this, arr
      ensures Valid() && Elements() == InsertedRangeAsWritten(old(Elements()), index, t, dflt)
    {
      Reserve(|t|);
      PlaceRange(index, t, index < count - 1);
    }

    /** Insert(index, collection) with the shift guarded by index < Count:
      * t lands at index and every old element is kept. */
    method InsertCollectionCorrected(index: nat, t: seq<T>)
      requires Valid() && index <= count
      modifies this, arr
      ensures Valid() && Elements() == InsertedRange(old(Elements()), index, t)
    {
      Reserve(|t|);
      ghost var before := Elements();
      PlaceRange(index, t, index < count);
      if index == |before| {
        InsertCollectionLosesLast(before, index, t, dflt);
      }
    }

    /** The part of a range insertion after Reserve: when shift, the
      * elements [index, Count) move |t| slots right; then t is copied in at
      * index. */
    method PlaceRange(index: nat, t: seq<T>, shift: bool)
      requires Valid() && index <= count && count + |t| <= arr.Length
      requires shift ==> index < count
      modifies this, arr
      ensures Valid() && arr == old(arr)
      ensures shift ==> Elements() == InsertedRange(old(Elements()), index, t)
      ensures !shift && index >= old(count) - 1 ==> Elements() == InsertedRangeAsWritten(old(Elements()), index, t, dflt)
    {
      ghost var a0 := arr[..];
      assert TailIs(a0, count, dflt);
      if shift {
        ShiftRightBy(index, |t|);
        WriteAt(index, t);
        InsertRangeStep(a0, count, index, t, dflt);
      } else {
        WriteAt(index, t);
        OverwriteStep(a0, count, index, t, dflt);
      }
      assert a0[..count] == old(Elements());
      count := count + |t|;
    }

    /** Array.Copy(array, index + c, array, index, Count - index) with Count
      * already lowered by c: the elements after the gap move c slots left. */
    method ShiftLeftBy(index: nat, c: nat)
      requires index <= count && count + c <= arr.Length
      modifies arr
      ensures forall k | 0 <= k < index :: arr[k] == old(arr[k])
      ensures forall k | index <= k < count :: arr[k] == old(arr[k + c])
      ensures forall k | count <= k < arr.Length :: arr[k] == old(arr[k])
    {
      for j := index to count
        invariant forall k | 0 <= k < index :: arr[k] == old(arr[k])
        invariant forall k | index <= k < j :: arr[k] == old(arr[k + c])
        invariant forall k | j <= k < arr.Length :: arr[k] == old(arr[k])
      {
        arr[j] := arr[j + c];
      }
    }

    /** Array.Clear(array, from, c). */
    method ClearRange(from: nat, c: nat)
      requires from + c <= arr.Length
      modifies arr
      ensures forall k | 0 <= k < from :: arr[k] == old(arr[k])
      ensures forall k | from <= k < from + c :: arr[k] == dflt
      ensures forall k | from + c <= k < arr.Length :: arr[k] == old(arr[k])
    {
      for j := from to from + c
        invariant forall k | 0 <= k < from :: arr[k] == old(arr[k])
        invariant forall k | from <= k < j :: arr[k] == dflt
        invariant forall k | j <= k < arr.Length :: arr[k] == old(arr[k])
      {
        arr[j] := dflt;
      }
    }

    /** Remove(index): no bounds check beyond index < Count; shifts the
      * later elements left and clears the vacated slot. */
    method Remove(index: nat)
      requires Valid() && index < count
      modifies this, arr
      ensures Valid() && arr == old(arr)
      ensures Elements() == Removed(old(Elements()), index)
    {
      ghost var before := Elements();
      ghost var a0 := arr[..];
      count := count - 1;
      ShiftLeftBy(index, 1);
      ghost var a1 := arr[..];
      assert forall k | index <= k < count :: a1[k] == a0[k + 1];
      arr[count] := dflt;
      assert Elements() == a1[..count];
      assert forall k | 0 <= k < count :: a1[k] == Removed(before, index)[k];
    }

    /** RemoveAt: rejects an index outside [0, Count) and then changes
      * nothing. */
    method RemoveAt(index: int) returns (ok: bool)
      requires Valid()
      modifies this, arr
      ensures Valid() && arr == old(arr)
      ensures ok <==> 0 <= index < old(count)
      ensures ok ==> Elements() == Removed(old(Elements()), index)
      ensures !ok ==> count == old(count) && arr[..] == old(arr[..])
    {
      if index < 0 || index > count - 1 {
        return false;
      }
      Remove(index);
      return true;
    }

    /** Remove(index, n): drops the n elements starting at index, shifting
      * the rest left and clearing the n vacated slots. */
    method RemoveRange(index: nat, n: nat)
      requires Valid() && index + n <= count
      modifies this, arr
      ensures Valid() && arr == old(arr)
      ensures Elements() == old(Elements())[..index] + old(Elements())[index + n..]
    {
      ghost var a0 := arr[..];
      ghost var before := a0[..count];
      assert before == Elements();
      assert TailIs(a0, count, dflt);
      count := count - n;
      ShiftLeftBy(index, n);
      ClearRange(count, n);
      RemoveRangeStep(a0, arr[..], count, index, n, dflt);
      assert Elements() == before[..index] + before[index + n..];
    }

    /** RemoveAt(index, n) as written: accepts only ranges that end before
      * the last element. */
    method RemoveRangeAt(index: int, n: nat) returns (ok: bool)
      requires Valid()
      modifies this, arr
      ensures Valid() && arr == old(arr)
      ensures ok <==> RangeAcceptedAsWritten(index, n, old(count))
      ensures ok ==> Elements() == old(Elements())[..index] + old(Elements())[index + n..]
      ensures !ok ==> count == old(count) && arr[..] == old(arr[..])
    {
      if index < 0 || index + n > count - 1 {
        return false;
      }
      RemoveRange(index, n);
      return true;
    }

    /** RemoveAt(index, n) with the bound index + n <= Count: every range
      * inside [0, Count) is accepted. */
    method RemoveRangeAtCorrected(index: int, n: nat) returns (ok: bool)
      requires Valid()
      modifies this, arr
      ensures Valid() && arr == old(arr)
      ensures ok <==> 0 <= index && index + n <= old(count)
      ensures ok ==> Elements() == old(Elements())[..index] + old(Elements())[index + n..]
      ensures !ok ==> count == old(count) && arr[..] == old(arr[..])
    {
      if index < 0 || index + n > count {
        return false;
      }
      RemoveRange(index, n);
      return true;
    }

    /** Reserve(size): makes room for size more elements, growing to
      * Count + size only when Size - Count < size. */
    method Reserve(size: int)
      requires Valid()
      modifies this
      ensures Valid() && Elements() == old(Elements())
      ensures arr.Length - count >= size
      ensures size <= old(arr.Length) - old(count) ==> arr == old(arr)
      ensures size > old(arr.Length) - old(count) ==> fresh(arr) && arr.Length == old(count) + size
    {
      var num := arr.Length - count;
      if size > num {
        Resize(arr.Length + (size - num));
      }
    }

    /** Resize(size): Size becomes size; a size not above Count truncates
      * Count to size, a larger one keeps every element. */
    method Resize(size: nat)
      requires Valid()
      modifies this
      ensures Valid() && fresh(arr) && arr.Length == size
      ensures size <= old(count) ==> Elements() == old(Elements())[..size]
      ensures size > old(count) ==> Elements() == old(Elements())
    {
      var num := size;
      if num > count {
        num := count;
      } else {
        count := size;
      }
      arr := CopyPrefix(size, num);
    }

    /** Trim: Size becomes Count, elements kept. */
    method Trim()
      requires Valid()
      modifies this
      ensures Valid() && arr.Length == count && Elements() == old(Elements())
      ensures old(arr.Length) == old(count) ==> arr == old(arr)
      ensures old(arr.Length) > old(count) ==> fresh(arr)
    {
      if arr.Length > count {
        Resize(count);
      }
    }

    /** Reverse: reverses [0, Count) in place. */
    method Reverse()
      requires Valid()
      modifies arr
      ensures Valid()
      ensures Elements() == Reversed(old(Elements()))
    {
      ghost var a0 := arr[..];
      var i, j := 0, count;
      while i + 1 < j
        invariant 0 <= i <= j <= count && i + j == count
        invariant arr[..] == PartlyReversed(a0, count, i)
      {
        j := j - 1;
        ReverseStep(a0, count, i);
        SwapAt(i, j);
        i := i + 1;
      }
      ReverseDone(a0, count, i);
      assert arr[..] == arr[..count] + arr[count..];
      assert TailIs(arr[..], count, dflt);
      assert a0[..count] == old(Elements());
    }

    /** Exchanges the elements in slots i and j. */
    method SwapAt(i: nat, j: nat)
      requires i < arr.Length && j < arr.Length
      modifies arr
      ensures arr[..] == old(arr[..])[i := old(arr[j])][j := old(arr[i])]
    {
      arr[i], arr[j] := arr[j], arr[i];
    }

    /** Swap: each vector receives a copy of the other's array and count. */
    method Swap(other: Vector<T>)
      requires Valid() && other.Valid() && other.dflt == dflt
      modifies this, other
      ensures Valid() && other.Valid()
      ensures Elements() == old(other.Elements()) && arr.Length == old(other.arr.Length)
      ensures other.Elements() == old(Elements()) && other.arr.Length == old(arr.Length)
    {
      var num := count;
      var mine := CopyPrefix(arr.Length, arr.Length);
      var theirs := other.CopyPrefix(other.arr.Length, other.arr.Length);
      arr := theirs;
      count := other.count;
      other.arr := mine;
      other.count := num;
    }

    /** ToArray: a fresh array of exactly the elements [0, Count). */
    method ToArray() returns (a: array<T>)
      requires Valid()
      ensures fresh(a) && a[..] == Elements()
    {
      a := CopyPrefix(count, count);
    }
  }
}
