/** circus::text::basic_string: a byte string narrowed from a UTF-16 buffer,
  * NUL-terminated, with character-class searches, a Boyer-Moore-like
  * substring search, a three-way comparison and a FarmHash digest. Indices
  * are size_type values; NPOS is size_type(-1). */
module Text {
  import Farmx
  import Farmhash

  const NPOS: nat := 0xffff_ffff_ffff_ffff

  function Min(a: nat, b: nat): nat
  {
    if a <= b then a else b
  }

  // ---------------------------------------------------------------------
  // Construction: narrowing a UTF-16 buffer

  /** The bytes the constructor keeps from the UTF-16 buffer s: every other
    * byte, starting with the first (the low byte of each little-endian code
    * unit). Only bytes up to 2(n-1) are read. */
  function Narrow(s: seq<bv8>, n: nat): (r: seq<bv8>)
    requires 2 * n <= |s| + 1
    ensures |r| == n
  {
    seq(n, i requires 0 <= i < n => s[2 * i])
  }

  /** The little-endian UTF-16 encoding of text whose code units are all
    * below 256 (Latin-1). */
  function Widen(t: seq<bv8>): (r: seq<bv8>)
    ensures |r| == 2 * |t|
  {
    if |t| == 0 then [] else [t[0], 0] + Widen(t[1..])
  }

  lemma WidenAt(t: seq<bv8>, i: nat)
    requires i < |t|
    ensures Widen(t)[2 * i] == t[i] && Widen(t)[2 * i + 1] == 0
    decreases i
  {
    if i > 0 {
      WidenAt(t[1..], i - 1);
      assert Widen(t) == [t[0], 0] + Widen(t[1..]);
    }
  }

  /** Narrowing undoes widening: Latin-1 text survives the constructor. */
  lemma {:induction false} NarrowWiden(t: seq<bv8>)
    ensures Narrow(Widen(t), |t|) == t
  {
    forall i | 0 <= i < |t|
      ensures Narrow(Widen(t), |t|)[i] == t[i]
    {
      WidenAt(t, i);
    }
  }

  // ---------------------------------------------------------------------
  // Character-class searches (find_first_of / find_last_of semantics)

  /** The smallest i >= from with (h[i] in s) == want, or NPOS. */
  function FirstFrom(h: seq<bv8>, s: seq<bv8>, want: bool, from: nat): nat
    decreases |h| - from
  {
    if from >= |h| then NPOS
    else if (h[from] in s) == want then from
    else FirstFrom(h, s, want, from + 1)
  }

  /** The largest i <= from with (h[i] in s) == want, or NPOS. */
  function LastFrom(h: seq<bv8>, s: seq<bv8>, want: bool, from: nat): nat
    requires from < |h|
    decreases from
  {
    if (h[from] in s) == want then from
    else if from == 0 then NPOS
    else LastFrom(h, s, want, from - 1)
  }

  /** first(s, pos, n): NPOS when pos > length, else the first index from
    * pos on whose byte occurs in s. */
  function FirstIn(h: seq<bv8>, s: seq<bv8>, pos: nat): nat
  {
    if pos > |h| then NPOS else FirstFrom(h, s, true, pos)
  }

  /** first_not_of(s, pos, n): NPOS unless pos < length, else the first
    * index from pos on whose byte does not occur in s. */
  function FirstNotIn(h: seq<bv8>, s: seq<bv8>, pos: nat): nat
  {
    if pos < |h| then FirstFrom(h, s, false, pos) else NPOS
  }

  /** last(s, pos, n): NPOS for an empty set, else the last index at or
    * before min(pos, length - 1) whose byte occurs in s. The source reads
    * out of bounds on an empty haystack with a non-empty set. */
  function LastIn(h: seq<bv8>, s: seq<bv8>, pos: nat): nat
    requires |s| > 0 ==> |h| > 0
  {
    if |s| > 0 then LastFrom(h, s, true, Min(pos, |h| - 1)) else NPOS
  }

  /** last_not_of(s, pos, n): the last index at or before
    * min(pos, length - 1) whose byte does not occur in s. */
  function LastNotIn(h: seq<bv8>, s: seq<bv8>, pos: nat): nat
    requires |h| > 0
  {
    LastFrom(h, s, false, Min(pos, |h| - 1))
  }

  /** FirstFrom finds the least hit at or after `from`, and NPOS means none. */
  lemma {:induction false} FirstFromIsLeast(h: seq<bv8>, s: seq<bv8>, want: bool, from: nat)
    requires |h| < NPOS
    ensures var r := FirstFrom(h, s, want, from);
            && (r == NPOS <==> forall j | from <= j < |h| :: (h[j] in s) != want)
            && (r != NPOS ==> from <= r < |h| && (h[r] in s) == want)
            && (r != NPOS ==> forall j | from <= j < r :: (h[j] in s) != want)
    decreases |h| - from
  {
    if from < |h| && (h[from] in s) != want {
      FirstFromIsLeast(h, s, want, from + 1);
    }
  }

  /** LastFrom finds the greatest hit at or before `from`, and NPOS means none. */
  lemma {:induction false} LastFromIsGreatest(h: seq<bv8>, s: seq<bv8>, want: bool, from: nat)
    requires from < |h| < NPOS
    ensures var r := LastFrom(h, s, want, from);
            && (r == NPOS <==> forall j | 0 <= j <= from :: (h[j] in s) != want)
            && (r != NPOS ==> r <= from && (h[r] in s) == want)
            && (r != NPOS ==> forall j | r < j <= from :: (h[j] in s) != want)
    decreases from
  {
    if (h[from] in s) != want && from > 0 {
      LastFromIsGreatest(h, s, want, from - 1);
    }
  }

  // ---------------------------------------------------------------------
  // Substring search

  /** s occurs in h at index i. */
  predicate MatchAt(h: seq<bv8>, s: seq<bv8>, i: nat)
  {
    i + |s| <= |h| && forall t | 0 <= t < |s| :: h[i + t] == s[t]
  }

  /** The Boyer-Moore skip for the last byte of s: the smallest k in
    * 1..|s|-1 with s[|s|-1-k] == s[|s|-1], or |s| when there is none. */
  function Skip(s: seq<bv8>): nat
    requires |s| > 0
  {
    SkipFrom(s, 1)
  }

  function SkipFrom(s: seq<bv8>, k: nat): nat
    requires 1 <= k <= |s|
    decreases |s| - k
  {
    if k <= |s| - 1 && s[|s| - 1 - k] != s[|s| - 1] then SkipFrom(s, k + 1) else k
  }

  lemma {:induction false} SkipFromIsLeast(s: seq<bv8>, k: nat)
    requires 1 <= k <= |s|
    requires forall q | |s| - 1 - k < q < |s| - 1 :: s[q] != s[|s| - 1]
    ensures k <= SkipFrom(s, k) <= |s|
    ensures forall q | |s| - 1 - SkipFrom(s, k) < q < |s| - 1 :: s[q] != s[|s| - 1]
    ensures SkipFrom(s, k) < |s| ==> s[|s| - 1 - SkipFrom(s, k)] == s[|s| - 1]
    decreases |s| - k
  {
    if k <= |s| - 1 && s[|s| - 1 - k] != s[|s| - 1] {
      SkipFromIsLeast(s, k + 1);
    }
  }

  /** The skip is the distance from the last byte back to its previous
    * occurrence in s, or |s| when the last byte occurs only once. */
  lemma SkipIsLeast(s: seq<bv8>)
    requires |s| > 0
    ensures 1 <= Skip(s) <= |s|
    ensures forall q | |s| - 1 - Skip(s) < q < |s| - 1 :: s[q] != s[|s| - 1]
    ensures Skip(s) < |s| ==> s[|s| - 1 - Skip(s)] == s[|s| - 1]
  {
    SkipFromIsLeast(s, 1);
  }

  /** Advancing by the skip never jumps over a match: once the byte of h
    * aligned with the last byte of s equals that byte, none of the next
    * Skip(s) - 1 positions can be a match. */
  lemma SkipNeverPassesMatch(h: seq<bv8>, s: seq<bv8>, i: nat)
    requires |s| > 0 && i + |s| <= |h|
    requires h[i + |s| - 1] == s[|s| - 1]
    ensures forall j | i < j < i + Skip(s) :: !MatchAt(h, s, j)
  {
    SkipIsLeast(s);
    forall j | i < j < i + Skip(s)
      ensures !MatchAt(h, s, j)
    {
      var t := |s| - 1 - (j - i);
      assert s[t] != s[|s| - 1];
    }
  }

  // ---------------------------------------------------------------------
  // Comparison

  /** traits_type::compare over the first n bytes: the sign of the first
    * differing (unsigned) byte, or 0. char_traits fixes only the sign; the
    * values -1, 0 and 1 are this model's choice. */
  function TraitsCompare(a: seq<bv8>, b: seq<bv8>, n: nat): (r: int)
    requires n <= |a| && n <= |b|
    ensures -1 <= r <= 1
    decreases n
  {
    if n == 0 then 0
    else if a[0] < b[0] then -1
    else if a[0] > b[0] then 1
    else TraitsCompare(a[1..], b[1..], n - 1)
  }

  /** compare(str): the byte comparison of the common prefix, then the
    * lengths decide. */
  function Compare(a: seq<bv8>, b: seq<bv8>): (r: int)
    ensures -1 <= r <= 1
  {
    var n := Min(|a|, |b|);
    var t := TraitsCompare(a, b, n);
    if t != 0 then t else if |a| > |b| then 1 else if |a| < |b| then -1 else 0
  }

  lemma {:induction false} TraitsCompareZero(a: seq<bv8>, b: seq<bv8>, n: nat)
    requires n <= |a| && n <= |b|
    ensures TraitsCompare(a, b, n) == 0 <==> a[..n] == b[..n]
    ensures TraitsCompare(a, b, n) == -TraitsCompare(b, a, n)
    decreases n
  {
    if n > 0 {
      TraitsCompareZero(a[1..], b[1..], n - 1);
      assert a[..n] == [a[0]] + a[1..][..n - 1];
      assert b[..n] == [b[0]] + b[1..][..n - 1];
    }
  }

  /** compare is 0 exactly for equal strings, and swapping the operands
    * negates it. */
  lemma CompareZeroIffEqual(a: seq<bv8>, b: seq<bv8>)
    ensures Compare(a, b) == 0 <==> a == b
    ensures Compare(a, b) == -Compare(b, a)
  {
    var n := Min(|a|, |b|);
    TraitsCompareZero(a, b, n);
    if |a| == |b| {
      assert a == a[..n] && b == b[..n];
    }
  }

  /** At the first difference k within the common prefix, compare is the
    * sign of a[k] - b[k] (bytes compared unsigned). */
  lemma {:induction false} CompareAtFirstDifference(a: seq<bv8>, b: seq<bv8>, k: nat)
    requires k < |a| && k < |b| && a[k] != b[k]
    requires forall j | 0 <= j < k :: a[j] == b[j]
    ensures Compare(a, b) == (if a[k] < b[k] then -1 else 1)
  {
    TraitsCompareAt(a, b, Min(|a|, |b|), k);
  }

  lemma {:induction false} TraitsCompareAt(a: seq<bv8>, b: seq<bv8>, n: nat, k: nat)
    requires n <= |a| && n <= |b| && k < n && a[k] != b[k]
    requires forall j | 0 <= j < k :: a[j] == b[j]
    ensures TraitsCompare(a, b, n) == (if a[k] < b[k] then -1 else 1)
    decreases k
  {
    if k > 0 {
      TraitsCompareAt(a[1..], b[1..], n - 1, k - 1);
    }
  }

  // ---------------------------------------------------------------------
  // traitsLength

  /** The length of a C string: the index of its first NUL byte. */
  function CLength(s: seq<bv8>, from: nat): (r: nat)
    requires from <= |s| && 0 in s[from..]
    ensures from <= r < |s| && s[r] == 0
    ensures forall j | from <= j < r :: s[j] != 0
    decreases |s| - from
  {
    if s[from] == 0 then from
    else
      assert s[from..] == [s[from]] + s[from + 1..];
      CLength(s, from + 1)
  }

  /** traitsLength(s): strlen(s), or 0 for a null pointer (None). */
  function TraitsLength(s: Option<seq<bv8>>): (r: nat)
    requires s.Some? ==> 0 in s.value
    ensures s.None? ==> r == 0
    ensures s.Some? ==> r < |s.value| && s.value[r] == 0 && forall j | 0 <= j < r :: s.value[j] != 0
  {
    if s.None? then 0 else assert s.value[0..] == s.value; CLength(s.value, 0)
  }

  datatype Option<T> = None | Some(value: T)

  // ---------------------------------------------------------------------
  // The string object

  class BasicString {
    /** size_: the number of bytes, excluding the terminator. */
    const size: nat
    /** data_: size bytes followed by a NUL terminator. */
    const data: array<bv8>

    ghost predicate Valid()
      reads data
    {
      data.Length == size + 1 && size < NPOS && data[size] == 0
    }

    /** The bytes of the string, without the terminator. */
    function Contents(): seq<bv8>
      reads data
      requires Valid()
    {
      data[..size]
    }

    /** basic_string(s, n) with init(s): keeps byte 2i of the UTF-16
      * buffer for each i < n and appends a NUL. The buffer must reach byte
      * 2(n-1), and size + 1 must not overflow for the allocation. */
    constructor (s: seq<bv8>, n: nat)
      requires n < NPOS && 2 * n <= |s| + 1
      ensures Valid() && size == n
      ensures Contents() == Narrow(s, n)
      ensures fresh(data)
    {
      size := n;
      var a := new bv8[n + 1];
      var i := 0;
      while i < n
        invariant 0 <= i <= n
        invariant forall k | 0 <= k < i :: a[k] == s[2 * k]
      {
        a[i] := s[2 * i];
        i := i + 1;
      }
      a[n] := 0;
      data := a;
    }

    /** hash(): the FarmHash digest of the bytes, terminator excluded. */
    function Hash(): (r: bv64)
      reads data
      requires Valid()
      ensures r == Farmx.Hash64(Contents())
    {
      Farmhash.Hash64(data[..], size)
    }

    /** first(s, pos, n) */
    method First(s: seq<bv8>, pos: nat) returns (r: nat)
      requires Valid()
      ensures r == FirstIn(Contents(), s, pos)
    {
      if pos > size {
        return NPOS;
      }
      var i := pos;
      while i != size
        invariant pos <= i <= size
        invariant FirstFrom(Contents(), s, true, i) == FirstFrom(Contents(), s, true, pos)
        decreases size - i
      {
        if data[i] in s {
          return i;
        }
        i := i + 1;
      }
      return NPOS;
    }

    /** first_not_of(s, pos, n) */
    method FirstNotOf(s: seq<bv8>, pos: nat) returns (r: nat)
      requires Valid()
      ensures r == FirstNotIn(Contents(), s, pos)
    {
      if pos < size {
        var i := pos;
        while i != size
          invariant pos <= i <= size
          invariant FirstFrom(Contents(), s, false, i) == FirstFrom(Contents(), s, false, pos)
          decreases size - i
        {
          if data[i] !in s {
            return i;
          }
          i := i + 1;
        }
      }
      return NPOS;
    }

    /** last(s, pos, n); the haystack must not be empty when s is not. */
    method Last(s: seq<bv8>, pos: nat) returns (r: nat)
      requires Valid()
      requires |s| > 0 ==> size > 0
      ensures r == LastIn(Contents(), s, pos)
    {
      if |s| > 0 {
        var p := Min(pos, size - 1);
        var i: nat := p;
        while true
          invariant i <= p
          invariant LastFrom(Contents(), s, true, i) == LastFrom(Contents(), s, true, p)
          decreases i
        {
          if data[i] in s {
            return i;
          }
          if i == 0 {
            break;
          }
          i := i - 1;
        }
      }
      return NPOS;
    }

    /** last_not_of(s, pos, n); the haystack must not be empty. */
    method LastNotOf(s: seq<bv8>, pos: nat) returns (r: nat)
      requires Valid()
      requires size > 0
      ensures r == LastNotIn(Contents(), s, pos)
    {
      var p := Min(pos, size - 1);
      var i: nat := p;
      while true
        invariant i <= p
        invariant LastFrom(Contents(), s, false, i) == LastFrom(Contents(), s, false, p)
        decreases i
      {
        if data[i] !in s {
          return i;
        }
        if i == 0 {
          break;
        }
        i := i - 1;
      }
      return NPOS;
    }

    /** find(s, pos, n): the first occurrence of s at or after pos. Each
      * candidate is tested on its last byte first; after a mismatch the
      * search advances by the lazily computed Skip(s). */
    method Find(s: seq<bv8>, pos: nat) returns (r: nat)
      requires Valid()
      ensures r != NPOS ==> pos <= r && MatchAt(Contents(), s, r)
      ensures r != NPOS ==> forall j | pos <= j < r :: !MatchAt(Contents(), s, j)
      ensures r == NPOS ==> forall j | pos <= j :: !MatchAt(Contents(), s, j)
    {
      var n := |s|;
      // pos + n cannot wrap in unbounded arithmetic, so one test covers both
      // of the source's guards.
      if n + pos > size {
        return NPOS;
      }
      if n == 0 {
        return pos;
      }
      var f := n - 1;
      var last := s[f];
      var skip := 0;
      var i := pos;
      var end := size - f;
      while i < end
        invariant pos <= i <= size
        invariant skip == 0 || skip == Skip(s)
        invariant forall j | pos <= j < i :: !MatchAt(Contents(), s, j)
        decreases size - i
      {
        while data[i + f] != last
          invariant pos <= i < end
          invariant forall j | pos <= j < i :: !MatchAt(Contents(), s, j)
          decreases end - i
        {
          i := i + 1;
          if i == end {
            return NPOS;
          }
        }
        var j := 0;
        while true
          invariant 0 <= j < n
          invariant pos <= i < end && data[i + f] == last
          invariant forall t | 0 <= t < j :: data[i + t] == s[t]
          decreases n - j
        {
          if data[i + j] != s[j] {
            if skip == 0 {
              skip := ComputeSkip(s);
            }
            SkipIsLeast(s);
            SkipNeverPassesMatch(Contents(), s, i);
            assert !MatchAt(Contents(), s, i) by {
              assert Contents()[i + j] != s[j];
            }
            i := i + skip;
            break;
          }
          j := j + 1;
          if j == n {
            assert MatchAt(Contents(), s, i);
            return i;
          }
        }
      }
      return NPOS;
    }
  }

  /** The lazy skip computation inside find. */
  method ComputeSkip(s: seq<bv8>) returns (skip: nat)
    requires |s| > 0
    ensures skip == Skip(s)
  {
    var f := |s| - 1;
    skip := 1;
    while skip <= f && s[f - skip] != s[f]
      invariant 1 <= skip <= |s|
      invariant SkipFrom(s, skip) == Skip(s)
      decreases |s| - skip
    {
      skip := skip + 1;
    }
  }
}
