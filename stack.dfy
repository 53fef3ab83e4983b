/** Circus.Collections.Stack<T>: a last-in-first-out container over a
  * contiguous array, implemented like Vector<T>. default(T) is the
  * constant `dflt` given at construction and the comparer is `==`. The
  * documented shrink back to Capacity after the last Pop never happens:
  * Reclaim reports whether the count before its decrement was 0, which is
  * false whenever Pop calls it, so Reset is never reached. */
module Stack {
  import opened Vector

  class Stack<T(==)> {
    var arr: array<T>
    var count: nat
    const capacity: nat
    const offset: int
    const dflt: T

    /** Count never exceeds Size, and the unused tail holds default(T). */
    ghost predicate Valid()
      reads this, arr
    {
      count <= arr.Length &&
      forall k | count <= k < arr.Length :: arr[k] == dflt
    }

    /** The elements [0, Count), bottom first. */
    function Elements(): seq<T>
      reads this, arr
      requires count <= arr.Length
    {
      arr[..count]
    }

    /** Stack(capacity, offset): empty, with Size == capacity. */
    constructor (capacity: nat, offset: int, dflt: T)
      ensures Valid() && Elements() == [] && arr.Length == capacity
      ensures this.capacity == capacity && this.offset == offset && this.dflt == dflt
    {
      this.capacity := capacity;
      this.offset := offset;
      this.dflt := dflt;
      arr := new T[capacity](_ => dflt);
      count := 0;
    }

    /** A fresh array of `size` slots holding the first n elements, the
      * rest default(T) (the private Copy helper). */
    method CopyPrefix(size: nat, n: nat) returns (a: array<T>)
      requires n <= arr.Length && n <= size
      ensures fresh(a) && a.Length == size && a[..n] == arr[..n]
      ensures forall k | n <= k < size :: a[k] == dflt
    {
      a := new T[size](_ => dflt);
      for i := 0 to n
        invariant forall k | 0 <= k < i :: a[k] == arr[k]
        invariant forall k | n <= k < size :: a[k] == dflt
      {
        a[i] := arr[i];
      }
    }

    /** Push: stores at Count, growing a full array to Size + Offset first,
      * and returns true. With an offset of 0 or less a full array cannot
      * grow and Push throws instead (as Vector's Add does); `r` is false
      * exactly then, and the elements are as they were. */
    method Push(value: T) returns (r: bool)
      requires Valid()
      modifies this, arr
      ensures Valid()
      ensures r <==> old(count) < old(arr.Length) || offset > 0
      ensures r ==> Elements() == old(Elements()) + [value]
      ensures !r ==> Elements() == old(Elements()) && arr.Length == old(arr.Length)
      ensures arr == old(arr) || fresh(arr)
      ensures old(count) < old(arr.Length) ==> arr == old(arr)
      ensures r && old(count) == old(arr.Length) ==> fresh(arr) && arr.Length == old(arr.Length) + offset
    {
      var num := count;
      if num == arr.Length {
        if arr.Length + offset < num {
          return false;
        }
        arr := CopyPrefix(arr.Length + offset, num);
        if num == arr.Length {
          return false;
        }
      }
      arr[num] := value;
      count := count + 1;
      return true;
    }

    /** Reclaim(index): clears the slot and decrements Count, reporting
      * whether the count BEFORE the decrement was 0. Pop calls it on the
      * top slot, so the report is always false. */
    method Reclaim(index: nat) returns (r: bool)
      requires Valid() && index + 1 == count
      modifies this, arr
      ensures Valid() && arr == old(arr)
      ensures r <==> old(count) == 0
      ensures Elements() == old(Elements())[..index]
    {
      arr[index] := dflt;
      r := count == 0;
      count := count - 1;
    }

    /** Reset: reallocates Capacity slots when Size exceeds Capacity. It is
      * meant for an empty stack. */
    method Reset() returns (r: bool)
      requires Valid() && count == 0
      modifies this
      ensures Valid() && r && count == 0
      ensures old(arr.Length) > capacity ==> fresh(arr) && arr.Length == capacity
      ensures old(arr.Length) <= capacity ==> arr == old(arr)
    {
      if arr.Length > capacity {
        arr := new T[capacity](_ => dflt);
      }
      return true;
    }

    /** Pop: false with default(T) on an empty stack; otherwise the top
      * element, its slot cleared and Count decremented. The array is never
      * shrunk. */
    method Pop() returns (ok: bool, value: T)
      requires Valid()
      modifies this, arr
      ensures Valid() && arr == old(arr)
      ensures ok <==> old(count) > 0
      ensures !ok ==> value == dflt && count == old(count) && arr[..] == old(arr[..])
      ensures ok ==> value == old(Elements())[old(count) - 1]
      ensures ok ==> Elements() == old(Elements())[..old(count) - 1]
    {
      if count > 0 {
        var num := count - 1;
        value := arr[num];
        var emptied := Reclaim(num);
        // `emptied && Reset()`: emptied is false here, so Reset is not called
        ok := !emptied;
        return;
      }
      value := dflt;
      ok := false;
    }

    /** Peek: the element at Count - 1, state unchanged. On an empty stack
      * the read of array[-1] throws; `ok` is false exactly then. */
    method Peek() returns (ok: bool, value: T)
      requires Valid()
      ensures ok <==> count > 0
      ensures ok ==> value == Elements()[count - 1]
      ensures !ok ==> value == dflt
    {
      if count == 0 {
        return false, dflt;
      }
      value := arr[count - 1];
      ok := true;
    }

    /** Array.Copy(array, index + 1, array, index, Count - index) with Count
      * already decremented. */
    method ShiftLeft(index: nat)
      requires index <= count && count + 1 <= arr.Length
      modifies arr
      ensures forall k | 0 <= k < index :: arr[k] == old(arr[k])
      ensures forall k | index <= k < count :: arr[k] == old(arr[k + 1])
      ensures forall k | count <= k < arr.Length :: arr[k] == old(arr[k])
    {
      for j := index to count
        invariant forall k | 0 <= k < index :: arr[k] == old(arr[k])
        invariant forall k | index <= k < j :: arr[k] == old(arr[k + 1])
        invariant forall k | j <= k < arr.Length :: arr[k] == old(arr[k])
      {
        arr[j] := arr[j + 1];
      }
    }

    /** Remove(index): shifts the later elements left and clears the last
      * slot; no bounds check beyond index < Count. */
    method Remove(index: nat)
      requires Valid() && index < count
      modifies this, arr
      ensures Valid() && arr == old(arr)
      ensures Elements() == Removed(old(Elements()), index)
    {
      ghost var before := Elements();
      ghost var a0 := arr[..];
      count := count - 1;
      ShiftLeft(index);
      ghost var a1 := arr[..];
      assert forall k | index <= k < count :: a1[k] == a0[k + 1];
      arr[count] := dflt;
      assert Elements() == a1[..count];
      assert forall k | 0 <= k < count :: a1[k] == Removed(before, index)[k];
    }

    /** RemoveAt: rejects an index outside [0, Count) and then changes
      * nothing. */
    method RemoveAt(index: int) returns (ok: bool)
      requires Valid()
      modifies this, arr
      ensures Valid() && arr == old(arr)
      ensures ok <==> 0 <= index < old(count)
      ensures ok ==> Elements() == Removed(old(Elements()), index)
      ensures !ok ==> count == old(count) && arr[..] == old(arr[..])
    {
      if index < 0 || index > count - 1 {
        return false;
      }
      Remove(index);
      return true;
    }

    /** Reserve(size): room for size more elements, growing to Count + size
      * only when Size - Count < size. */
    method Reserve(size: int)
      requires Valid()
      modifies this
      ensures Valid() && Elements() == old(Elements())
      ensures arr.Length - count >= size
      ensures size <= old(arr.Length) - old(count) ==> arr == old(arr)
      ensures size > old(arr.Length) - old(count) ==> fresh(arr) && arr.Length == old(count) + size
    {
      var num := arr.Length - count;
      if size > num {
        Resize(arr.Length + (size - num));
      }
    }

    /** Resize(size): Size becomes size; a size not above Count truncates
      * to the bottom size elements. */
    method Resize(size: nat)
      requires Valid()
      modifies this
      ensures Valid() && fresh(arr) && arr.Length == size
      ensures size <= old(count) ==> Elements() == old(Elements())[..size]
      ensures size > old(count) ==> Elements() == old(Elements())
    {
      var num := size;
      if num > count {
        num := count;
      } else {
        count := size;
      }
      arr := CopyPrefix(size, num);
    }

    /** Trim: Size becomes Count, elements kept. */
    method Trim()
      requires Valid()
      modifies this
      ensures Valid() && arr.Length == count && Elements() == old(Elements())
    {
      if arr.Length > count {
        Resize(count);
      }
    }

    /** Clear(trim): as Vector's. */
    method Clear(trim: bool)
      requires Valid()
      modifies this, arr
      ensures Valid() && Elements() == []
      ensures old(count) == 0 ==> arr == old(arr) && arr[..] == old(arr[..])
      ensures old(count) > 0 && trim ==> arr.Length == capacity
      ensures old(count) > 0 && !trim ==> arr == old(arr)
    {
      if count > 0 {
        if trim {
          arr := new T[capacity](_ => dflt);
          count := 0;
        } else {
          for i := 0 to arr.Length
            invariant arr == old(arr)
            invariant forall k | 0 <= k < i :: arr[k] == dflt
          {
            arr[i] := dflt;
          }
          count := 0;
        }
      }
    }

    /** Contains: scans the whole backing array, so the default value is
      * also found in an unused slot. */
    method Contains(value: T) returns (found: bool, index: int)
      requires Valid()
      ensures found <==> value in arr[..]
      ensures found ==> 0 <= index < arr.Length && arr[index] == value && value !in arr[..index]
      ensures !found ==> index == -1
      ensures found <==> value in Elements() || (value == dflt && count < arr.Length)
    {
      index := -1;
      for i := 0 to arr.Length
        invariant value !in arr[..i]
      {
        if arr[i] == value {
          index := i;
          assert arr[..i + 1] == arr[..i] + [arr[i]];
          assert value in Elements() || count <= i;
          return true, index;
        }
        assert arr[..i + 1] == arr[..i] + [arr[i]];
      }
      assert arr[..] == arr[..arr.Length];
      if count < arr.Length {
        assert arr[count] == dflt;
      }
      found := false;
    }

    /** ToArray: a fresh array of exactly the elements [0, Count). */
    method ToArray() returns (a: array<T>)
      requires Valid()
      ensures fresh(a) && a[..] == Elements()
    {
      a := CopyPrefix(count, count);
    }
  }

  /** Push(v) then Pop yields v and restores the elements (LIFO). A Push
    * that throws ends the sequence there, with the elements unchanged. */
  method PushThenPop<T(==)>(s: Stack<T>, v: T) returns (pushed: bool, ok: bool, w: T)
    requires s.Valid()
    modifies s, s.arr
    ensures s.Valid() && s.Elements() == old(s.Elements())
    ensures pushed <==> old(s.count) < old(s.arr.Length) || s.offset > 0
    ensures pushed ==> ok && w == v
  {
    pushed := s.Push(v);
    if !pushed {
      return pushed, false, s.dflt;
    }
    ok, w := s.Pop();
  }
}
