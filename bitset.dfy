/** Circus.Collections.BitSet: a container of bits packed into 32-bit int
  * words. A C# int word is a bv32 here; `|=`, `&=` and `~` are the same
  * bit operations on both. Bit i lives in word i / 32 (C#'s division,
  * truncating toward zero) at position i % 32 (C#'s remainder, which a
  * shift count masks with 31, so it equals the non-negative remainder
  * Dafny's % computes). The private helpers Get, Set, Fill, Insert and
  * Initialize are modelled as they are written; several of them are not
  * what the class documentation promises, and the corrected variants
  * stand beside them. */
module BitSet {

  /** 1 << p on an int word; C# masks a shift count to its low five bits,
    * so the position is a bv5. */
  function Mask(p: bv5): bv32
  {
    1 << p
  }

  /** Whether bit p of the word is set. */
  function TestBit(x: bv32, p: bv5): bool
  {
    x & Mask(p) != 0
  }

  /** The word with bit p or-ed in (value) or cleared (!value). */
  function WithBit(x: bv32, p: bv5, value: bool): bv32
  {
    if value then x | Mask(p) else x & !Mask(p)
  }

  /** WithBit changes bit p to value and leaves every other bit. */
  lemma WithBitBits(x: bv32, p: bv5, value: bool, q: bv5)
    ensures p == q ==> TestBit(WithBit(x, p, value), q) == value
    ensures p != q ==> TestBit(WithBit(x, p, value), q) == TestBit(x, q)
  {
    if value {
      SetBitBv(x, p, q);
    } else {
      ClearBitBv(x, p, q);
    }
  }

  lemma SetBitBv(x: bv32, p: bv5, q: bv5)
    ensures ((x | Mask(p)) & Mask(q) != 0) == (p == q || x & Mask(q) != 0)
  {
  }

  lemma ClearBitBv(x: bv32, p: bv5, q: bv5)
    ensures ((x & !Mask(p)) & Mask(q) != 0) == (p != q && x & Mask(q) != 0)
  {
  }

  /** The shift count of a bit position in [0, 32). */
  function Pos(k: nat): bv5
    requires k < 32
  {
    k as bv5
  }

  /** Distinct positions are distinct shift counts. */
  lemma PosInjective(a: nat, b: nat)
    requires a < 32 && b < 32
    ensures Pos(a) == Pos(b) <==> a == b
  {
    RoundTrip(a);
    RoundTrip(b);
  }

  lemma RoundTrip(a: nat)
    requires a < 32
    ensures Pos(a) as int == a
  {
  }

  /** C#'s int division by 32, which truncates toward zero. */
  function WordOf(i: int): int
  {
    if i >= 0 then i / 32 else -((-i) / 32)
  }

  /** Get(index) on the words: bit index % 32 of word index / 32. An index
    * in (-32, 0) falls in word 0. */
  function Bit(ws: seq<bv32>, i: int): bool
    requires 0 <= WordOf(i) < |ws|
  {
    TestBit(ws[WordOf(i)], Pos(i % 32))
  }

  /** The non-negative bit position an index in (-32, 32 * |ws|) reaches. */
  function Canonical(i: int): int
  {
    if i >= 0 then i else i + 32
  }

  /** An index in (-32, 0) reads the same bit as index + 32. */
  lemma NegativeIndexAliases(ws: seq<bv32>, i: int)
    requires -32 < i < 0 && |ws| > 0
    ensures 0 <= WordOf(i) < |ws| && Bit(ws, i) == Bit(ws, i + 32) && Canonical(i) == i + 32
  {
  }

  /** Below Size, the word index `index / 32` (truncated) of an array of n
    * words is out of range exactly for an index of -32 or less, or for a
    * negative index when there are no words. */
  lemma WordInRange(index: int, size: int, n: nat)
    requires size <= 32 * n && index < size
    ensures 0 <= WordOf(index) < n <==> index > -32 && n > 0
  {
  }

  /** GetSize(size) = (size - 1) / 32 + 1: the fewest words that hold size
    * bits, and at least one. */
  function GetSize(size: nat): (r: nat)
    ensures r >= 1 && size <= 32 * r
    ensures size > 0 ==> 32 * (r - 1) < size
  {
    WordOf(size - 1) + 1
  }

  /** Every size of two or more bits takes fewer words than bits, so
    * Swap's copy of Size words runs past the word array. */
  lemma FewerWordsThanBits(n: nat)
    requires n >= 2
    ensures GetSize(n) < n
  {
  }

  /** The words after Set(i, value): word i / 32 with bit i % 32 or-ed in
    * or cleared. */
  function SetBitIn(ws: seq<bv32>, i: int, value: bool): (r: seq<bv32>)
    requires 0 <= WordOf(i) < |ws|
    ensures |r| == |ws|
  {
    ws[WordOf(i) := WithBit(ws[WordOf(i)], Pos(i % 32), value)]
  }

  lemma IndexFact(i: int, j: int)
    requires 0 <= WordOf(i) && 0 <= j && j / 32 == WordOf(i)
    ensures j == Canonical(i) <==> i % 32 == j % 32
  {
  }

  /** Setting bit i changes bit i (by its non-negative position) and no
    * other. */
  lemma SetBitInBits(ws: seq<bv32>, i: int, value: bool, j: int)
    requires 0 <= WordOf(i) < |ws| && 0 <= j < 32 * |ws|
    ensures Bit(SetBitIn(ws, i, value), j) == (if j == Canonical(i) then value else Bit(ws, j))
  {
    if j / 32 == WordOf(i) {
      WithBitBits(ws[WordOf(i)], Pos(i % 32), value, Pos(j % 32));
      PosInjective(i % 32, j % 32);
      IndexFact(i, j);
    }
  }

  /** The first n bits of the words. */
  function BitsOf(ws: seq<bv32>, n: nat): (r: seq<bool>)
    requires n <= 32 * |ws|
    ensures |r| == n
  {
    seq(n, j requires 0 <= j < n => Bit(ws, j))
  }

  /** Setting bit i below n changes exactly entry i of the first n bits. */
  lemma SetBitInBitsOf(ws: seq<bv32>, i: nat, value: bool, n: nat)
    requires i < n <= 32 * |ws|
    ensures BitsOf(SetBitIn(ws, i, value), n) == BitsOf(ws, n)[i := value]
  {
    forall j | 0 <= j < n
      ensures BitsOf(SetBitIn(ws, i, value), n)[j] == BitsOf(ws, n)[i := value][j]
    {
      SetBitInBits(ws, i, value, j);
    }
  }

  /** One step of filling a from index on: writing a[k] at index + k
    * extends the written prefix of a by one and keeps the other bits. */
  lemma FillStep(before: seq<bool>, prev: seq<bool>, cur: seq<bool>, index: nat, a: seq<bool>, k: nat)
    requires |prev| == |before| && index + |a| <= |before| && k < |a|
    requires forall j | 0 <= j < |before| && !(index <= j < index + k) :: prev[j] == before[j]
    requires forall j | index <= j < index + k :: prev[j] == a[j - index]
    requires cur == prev[index + k := a[k]]
    ensures forall j | 0 <= j < |before| && !(index <= j < index + k + 1) :: cur[j] == before[j]
    ensures forall j | index <= j < index + k + 1 :: cur[j] == a[j - index]
  {
  }

  /** Words extended with zero words keep their bits and add unset ones. */
  lemma ExtendedBits(ws: seq<bv32>, grown: seq<bv32>, j: int)
    requires |ws| <= |grown| && grown[..|ws|] == ws
    requires forall k | |ws| <= k < |grown| :: grown[k] == 0
    requires 0 <= j < 32 * |grown|
    ensures Bit(grown, j) == (j < 32 * |ws| && Bit(ws, j))
  {
    if j < 32 * |ws| {
      SameWordSameBit(ws, grown, j);
    } else {
      ZeroWordNoBit(grown, j);
    }
  }

  lemma SameWordSameBit(ws: seq<bv32>, vs: seq<bv32>, j: int)
    requires 0 <= j < 32 * |ws| && j < 32 * |vs| && vs[j / 32] == ws[j / 32]
    ensures Bit(vs, j) == Bit(ws, j)
  {
  }

  lemma ZeroWordNoBit(vs: seq<bv32>, j: int)
    requires 0 <= j < 32 * |vs| && vs[j / 32] == 0
    ensures !Bit(vs, j)
  {
  }

  /** In the integer 1 only the bit at position 0 is set. */
  lemma OneWord(vs: seq<bv32>, j: int)
    requires 0 <= j < 32 * |vs| && vs[j / 32] == 1
    ensures Bit(vs, j) == (j % 32 == 0)
  {
    PosInjective(j % 32, 0);
    OneBit(Pos(j % 32));
  }

  lemma OneBit(p: bv5)
    ensures TestBit(1, p) == (p == 0)
  {
  }

  class BitSet {
    var words: array<bv32>
    var size: int

    /** Size is a bit count that the words can hold. */
    ghost predicate Valid()
      reads this
    {
      0 <= size <= 32 * words.Length
    }

    /** The bits [0, Size). */
    function Bits(): (r: seq<bool>)
      reads this, words
      requires Valid()
      ensures |r| == size
    {
      BitsOf(words[..], size)
    }

    /** Get(index): bit index % 32 of word index / 32; the word must exist. */
    function Get(index: int): bool
      reads this, words
      requires 0 <= WordOf(index) < words.Length
    {
      Bit(words[..], index)
    }

    /** BitSet(size, value), and BitSet() == BitSet(4, false) and
      * BitSet(size) == BitSet(size, false): Initialize(size), then
      * Fill(0, value), which sets every word to the integer 1 when value is
      * true, so only the bits at multiples of 32 are set. */
    constructor (n: nat, value: bool)
      ensures Valid() && fresh(words) && size == n && words.Length == GetSize(n)
      ensures forall k | 0 <= k < words.Length :: words[k] == (if value then 1 else 0)
      ensures forall j | 0 <= j < n :: Get(j) == (value && j % 32 == 0)
    {
      words := new bv32[GetSize(n)](_ => 0);
      size := n;
      new;
      FillWords(0, value);
      forall j | 0 <= j < n
        ensures Get(j) == (value && j % 32 == 0)
      {
        if value {
          OneWord(words[..], j);
        } else {
          ZeroWordNoBit(words[..], j);
        }
      }
    }

    /** BitSet(size, value) as documented: size bits, each equal to value. */
    constructor Filled(n: nat, value: bool)
      ensures Valid() && fresh(words) && words.Length == GetSize(n)
      ensures Bits() == seq(n, _ => value)
    {
      words := new bv32[GetSize(n)](_ => 0);
      size := n;
      new;
      FillCorrected(0, value);
    }

    /** BitSet(set): copies the word array and leaves Size at 0, so the
      * copy has no bits. */
    constructor Copy(other: BitSet)
      ensures Valid() && fresh(words) && words[..] == other.words[..]
      ensures size == 0 && Bits() == []
    {
      var n := other.words.Length;
      var a := new bv32[n](_ => 0);
      forall k | 0 <= k < n {
        a[k] := other.words[k];
      }
      words := a;
      size := 0;
    }

    /** BitSet(set) as documented: the same words and the same Size, so the
      * same bits in the same order. */
    constructor CopyCorrected(other: BitSet)
      requires other.Valid()
      ensures Valid() && fresh(words) && words[..] == other.words[..]
      ensures size == other.size && Bits() == other.Bits()
    {
      var n := other.words.Length;
      var a := new bv32[n](_ => 0);
      forall k | 0 <= k < n {
        a[k] := other.words[k];
      }
      words := a;
      size := other.size;
      new;
      assert words[..] == other.words[..];
    }

    /** BitSet(params bool[] array): Size is the array's length and bit i
      * is array[i]. */
    constructor FromArray(a: seq<bool>)
      ensures Valid() && fresh(words) && words.Length == GetSize(|a|)
      ensures Bits() == a
      ensures forall j | |a| <= j < 32 * words.Length :: !Get(j)
    {
      words := new bv32[GetSize(|a|)](_ => 0);
      size := |a|;
      new;
      forall j | 0 <= j < 32 * words.Length
        ensures !Get(j)
      {
        ZeroWordNoBit(words[..], j);
      }
      FillBits(0, |a|, a);
    }

    /** Initialize(size): GetSize(size) zero words and Size == size. */
    method Initialize(n: nat)
      modifies this
      ensures Valid() && fresh(words) && size == n && words.Length == GetSize(n)
      ensures forall k | 0 <= k < words.Length :: words[k] == 0
    {
      words := new bv32[GetSize(n)](_ => 0);
      size := n;
    }

    /** Set(index, value): or-in or clear bit index % 32 of word index / 32;
      * every other bit keeps its value. */
    method Set(index: int, value: bool)
      requires 0 <= WordOf(index) < words.Length
      modifies words
      ensures words[..] == SetBitIn(old(words[..]), index, value)
      ensures forall j | 0 <= j < 32 * words.Length ::
        Get(j) == (if j == Canonical(index) then value else old(Get(j)))
    {
      ghost var ws := words[..];
      var w := WordOf(index);
      if value {
        words[w] := words[w] | Mask(Pos(index % 32));
      } else {
        words[w] := words[w] & !Mask(Pos(index % 32));
      }
      assert words[..] == SetBitIn(ws, index, value);
      forall j | 0 <= j < 32 * words.Length
        ensures Get(j) == (if j == Canonical(index) then value else Bit(ws, j))
      {
        SetBitInBits(ws, index, value, j);
      }
    }

    /** Fill(index, count, array): for every i in [index, count) with
      * array[i] set, or-in bit i. The same i indexes the array and the
      * bits. */
    method FillBits(index: nat, count: int, a: seq<bool>)
      requires index >= count || (count <= |a| && count <= 32 * words.Length)
      modifies words
      ensures forall j | 0 <= j < 32 * words.Length ::
        Get(j) == (old(Get(j)) || (index <= j < count && a[j]))
    {
      var i := index;
      while i < count
        invariant index <= i && (index < count ==> i <= count) && (index >= count ==> i == index)
        invariant forall j | 0 <= j < 32 * words.Length ::
          Get(j) == (old(Get(j)) || (index <= j < i && a[j]))
      {
        if a[i] {
          Set(i, true);
        }
        i := i + 1;
      }
    }

    /** Fill(index, count, array) as intended: bit index + k takes
      * array[k] for every k, set or unset; the other bits keep theirs. */
    method FillBitsCorrected(index: nat, a: seq<bool>)
      requires Valid() && index + |a| <= size
      modifies words
      ensures Valid()
      ensures forall j | 0 <= j < size ::
        Bits()[j] == if index <= j < index + |a| then a[j - index] else old(Bits())[j]
    {
      ghost var before := Bits();
      for k := 0 to |a|
        invariant forall j | 0 <= j < size && !(index <= j < index + k) :: Bits()[j] == before[j]
        invariant forall j | index <= j < index + k :: Bits()[j] == a[j - index]
      {
        ghost var ws, prev := words[..], Bits();
        Set(index + k, a[k]);
        SetBitInBitsOf(ws, index + k, a[k], size);
        FillStep(before, prev, Bits(), index, a, k);
      }
    }

    /** Fill(index, value): every WORD from index on becomes the integer 1
      * (value) or 0 (!value); index is a bit count used as a word index. */
    method FillWords(index: nat, value: bool)
      modifies words
      ensures forall k | 0 <= k < words.Length ::
        words[k] == (if k >= index then (if value then 1 else 0) else old(words[k]))
    {
      var i := index;
      while i < words.Length
        invariant forall k | 0 <= k < words.Length ::
          words[k] == (if index <= k < i then (if value then 1 else 0) else old(words[k]))
      {
        words[i] := if value then 1 else 0;
        i := i + 1;
      }
    }

    /** Fill(index, value) as intended: every bit from index up to Size
      * becomes value; the bits below index keep theirs. */
    method FillCorrected(index: nat, value: bool)
      requires Valid() && index <= size
      modifies words
      ensures Valid()
      ensures forall j | 0 <= j < size :: Bits()[j] == if j < index then old(Bits())[j] else value
    {
      ghost var before := Bits();
      for i := index to size
        invariant forall j | 0 <= j < size :: Bits()[j] == if index <= j < i then value else before[j]
      {
        ghost var ws := words[..];
        ghost var b0 := Bits();
        Set(i, value);
        SetBitInBitsOf(ws, i, value, size);
        assert Bits() == b0[i := value];
      }
    }

    /** Insert(count): returns the old Size. When Size + count exceeds the
      * number of WORDS, the words are copied into GetSize(Size + count)
      * words and Size grows by count; otherwise nothing changes, Size
      * included. Array.Copy throws when the new array is shorter than the
      * old one (as after the copy constructor, whose Size is 0); `ok` is
      * false exactly then, and nothing has changed. */
    method Insert(count: nat) returns (ok: bool, num: int)
      requires Valid()
      modifies this
      ensures Valid() && num == old(size)
      ensures ok <==> !(old(size) + count > old(words.Length) && GetSize(old(size) + count) < old(words.Length))
      ensures !ok ==> words == old(words) && size == old(size)
      ensures ok && old(size) + count > old(words.Length) ==>
        && fresh(words) && words.Length == GetSize(old(size) + count)
        && size == old(size) + count
        && words[..old(words.Length)] == old(words[..])
        && forall k | old(words.Length) <= k < words.Length :: words[k] == 0
      ensures old(size) + count <= old(words.Length) ==> words == old(words) && size == old(size)
    {
      num := size;
      var n := size + count;
      if n > words.Length {
        if GetSize(n) < words.Length {
          return false, num;
        }
        var a := new bv32[GetSize(n)](_ => 0);
        forall k | 0 <= k < words.Length {
          a[k] := words[k];
        }
        words := a;
        size := n;
      }
      return true, num;
    }

    /** Insert as documented: Size always grows by count, and the words
      * grow to GetSize(Size + count) only when they cannot hold it. */
    method InsertCorrected(count: nat) returns (num: int)
      requires Valid()
      modifies this
      ensures Valid() && num == old(size) && size == old(size) + count
      ensures words == old(words) || fresh(words)
      ensures Bits()[..old(size)] == old(Bits())
    {
      ghost var ws := words[..];
      num := size;
      var n := size + count;
      if n > 32 * words.Length {
        var a := new bv32[GetSize(n)](_ => 0);
        forall k | 0 <= k < words.Length {
          a[k] := words[k];
        }
        words := a;
      }
      size := n;
      forall j | 0 <= j < num
        ensures Bits()[j] == Bit(ws, j)
      {
        SameWordSameBit(ws, words[..], j);
      }
    }

    /** Add(count, value), and Add() == Add(1) and Add(count) ==
      * Add(count, false): Insert(count), then Fill(old Size, value). The
      * bits below the old Size keep their values. When Insert throws, `ok`
      * is false and nothing has changed. */
    method Add(count: nat, value: bool) returns (ok: bool)
      requires Valid()
      modifies this, words
      ensures Valid()
      ensures ok <==> !(old(size) + count > old(words.Length) && GetSize(old(size) + count) < old(words.Length))
      ensures !ok ==> words == old(words) && size == old(size) && words[..] == old(words[..])
      ensures ok && old(size) + count > old(words.Length) ==>
        fresh(words) && words.Length == GetSize(old(size) + count) && size == old(size) + count
      ensures old(size) + count <= old(words.Length) ==> words == old(words) && size == old(size)
      ensures ok ==> forall k | 0 <= k < words.Length ::
        words[k] == (if k >= old(size) then (if value then 1 else 0)
                     else if k < old(words.Length) then old(words[k]) else 0)
      ensures Bits()[..old(size)] == old(Bits())
    {
      ghost var ws := words[..];
      var num;
      ok, num := Insert(count);
      if !ok {
        return;
      }
      FillWords(num, value);
      forall j | 0 <= j < num
        ensures Bits()[j] == Bit(ws, j)
      {
        SameWordSameBit(ws, words[..], j);
      }
    }

    /** Add(count, value) as documented: count bits equal to value are
      * appended. */
    method AddCorrected(count: nat, value: bool)
      requires Valid()
      modifies this, words
      ensures Valid() && Bits() == old(Bits()) + seq(count, _ => value)
    {
      ghost var before := Bits();
      var num := InsertCorrected(count);
      FillCorrected(num, value);
      assert forall j | 0 <= j < size :: Bits()[j] == (before + seq(count, _ => value))[j];
    }

    /** Add(params bool[] array): Insert(|array|), then Fill(old Size,
      * |array|, array): bits i in [old Size, |array|) take array[i], so an
      * array no longer than the old Size adds only unset bits. When Insert
      * throws, `ok` is false and nothing has changed. */
    method AddArray(a: seq<bool>) returns (ok: bool)
      requires Valid()
      modifies this, words
      ensures Valid()
      ensures ok <==> !(old(size) + |a| > old(words.Length) && GetSize(old(size) + |a|) < old(words.Length))
      ensures !ok ==> words == old(words) && size == old(size) && words[..] == old(words[..])
      ensures ok && old(size) + |a| > old(words.Length) ==>
        fresh(words) && words.Length == GetSize(old(size) + |a|) && size == old(size) + |a|
      ensures old(size) + |a| <= old(words.Length) ==> words == old(words) && size == old(size)
      ensures ok ==> forall j | 0 <= j < 32 * old(words.Length) ::
        Get(j) == (old(Get(j)) || (old(size) <= j < |a| && a[j]))
      ensures ok ==> forall j | 32 * old(words.Length) <= j < 32 * words.Length ::
        Get(j) == (old(size) <= j < |a| && a[j])
      ensures Bits()[..old(size)] == old(Bits())
    {
      ghost var ws := words[..];
      var index;
      ok, index := Insert(|a|);
      if !ok {
        return;
      }
      ghost var grown := words[..];
      forall j | 0 <= j < 32 * words.Length
        ensures Bit(grown, j) == (j < 32 * |ws| && Bit(ws, j))
      {
        ExtendedBits(ws, grown, j);
      }
      FillBits(index, |a|, a);
      forall j | 0 <= j < index
        ensures Bits()[j] == Bit(ws, j)
      {
        assert Get(j) == Bit(grown, j);
      }
    }

    /** Add(params bool[] array) as documented: the array's bits are
      * appended in order. */
    method AddArrayCorrected(a: seq<bool>)
      requires Valid()
      modifies this, words
      ensures Valid() && Bits() == old(Bits()) + a
    {
      ghost var before := Bits();
      var index := InsertCorrected(|a|);
      FillBitsCorrected(index, a);
      assert forall j | 0 <= j < size :: Bits()[j] == (before + a)[j];
    }

    /** At(index, out value): true with Get(index) when index < Size,
      * otherwise false with false. There is no lower bound: an index in
      * (-32, 0) is accepted and reads bit index + 32. The read throws when
      * the word index `index / 32` (truncated) is out of range: for -32 and
      * below, and for any negative index on a set with no words (as the
      * as-written Swap of two empty sets leaves). `thrown` is true exactly
      * then, with `ok` and `value` false. */
    method At(index: int) returns (thrown: bool, ok: bool, value: bool)
      requires Valid()
      ensures thrown <==> index < size && (index <= -32 || words.Length == 0)
      ensures ok <==> index < size && !thrown
      ensures ok && index >= 0 ==> value == Bits()[index]
      ensures ok && index < 0 ==> 32 <= 32 * words.Length && value == Get(index + 32)
      ensures !ok ==> !value
    {
      if index < size {
        WordInRange(index, size, words.Length);
        if !(0 <= WordOf(index) < words.Length) {
          return true, false, false;
        }
        if index < 0 {
          NegativeIndexAliases(words[..], index);
        }
        return false, true, Get(index);
      }
      return false, false, false;
    }

    /** At with the lower bound the documentation promises. */
    method AtCorrected(index: int) returns (ok: bool, value: bool)
      requires Valid()
      ensures ok <==> 0 <= index < size
      ensures ok ==> value == Bits()[index]
      ensures !ok ==> !value
    {
      if 0 <= index < size {
        return true, Get(index);
      }
      return false, false;
    }

    /** SetAt(index, value): sets the bit and returns true when
      * index < Size; changes nothing and returns false otherwise. Like At
      * it has no lower bound: an index in (-32, 0) writes bit index + 32.
      * The write throws where At's read does; `thrown` is true exactly then,
      * and nothing has changed. */
    method SetAt(index: int, value: bool) returns (thrown: bool, ok: bool)
      requires Valid()
      modifies words
      ensures Valid()
      ensures thrown <==> index < size && (index <= -32 || words.Length == 0)
      ensures ok <==> index < size && !thrown
      ensures !ok ==> words[..] == old(words[..])
      ensures ok ==> forall j | 0 <= j < 32 * words.Length ::
        Get(j) == (if j == Canonical(index) then value else old(Get(j)))
    {
      if index < size {
        WordInRange(index, size, words.Length);
        if !(0 <= WordOf(index) < words.Length) {
          return true, false;
        }
        Set(index, value);
        return false, true;
      }
      return false, false;
    }

    /** SetAt with the lower bound: bit index becomes value, all others
      * keep theirs. */
    method SetAtCorrected(index: int, value: bool) returns (ok: bool)
      requires Valid()
      modifies words
      ensures Valid()
      ensures ok <==> 0 <= index < size
      ensures !ok ==> words[..] == old(words[..])
      ensures ok ==> Bits() == old(Bits())[index := value]
    {
      ok := 0 <= index < size;
      if ok {
        ghost var before := Bits();
        ghost var ws := words[..];
        Set(index, value);
        SetBitInBitsOf(ws, index, value, size);
      }
    }

    /** Any (the private Find): whether some bit in [0, Size) is set. */
    method Any() returns (r: bool)
      requires Valid()
      ensures r <==> true in Bits()
    {
      for i := 0 to size
        invariant true !in Bits()[..i]
      {
        if Get(i) {
          assert Bits()[i];
          return true;
        }
        assert Bits()[..i + 1] == Bits()[..i] + [Bits()[i]];
      }
      assert Bits()[..size] == Bits();
      return false;
    }

    /** ToArray: a fresh array of Get(0) ... Get(Size - 1). */
    method ToArray() returns (a: array<bool>)
      requires Valid()
      ensures fresh(a) && a[..] == Bits()
    {
      a := new bool[size](_ => false);
      for i := 0 to size
        invariant forall k | 0 <= k < i :: a[k] == Bits()[k]
      {
        a[i] := Get(i);
      }
    }

    /** Swap(set): each side receives a copy of the other's first Size
      * WORDS and the other's Size. Copying Size words out of a word array
      * that holds Size bits throws unless Size is at most the number of
      * words; `ok` is false exactly then, and neither set has changed. */
    method Swap(other: BitSet) returns (ok: bool)
      requires Valid() && other.Valid()
      modifies this, other
      ensures ok <==> old(size) <= old(words.Length) && old(other.size) <= old(other.words.Length)
      ensures !ok ==> words == old(words) && size == old(size)
      ensures !ok ==> other.words == old(other.words) && other.size == old(other.size)
      ensures ok ==> fresh(words) && fresh(other.words)
      ensures ok ==> words[..] == old(other.words[..other.size]) && size == old(other.size)
      ensures ok ==> other.words[..] == old(words[..size]) && other.size == old(size)
      ensures Valid() && other.Valid()
    {
      var num := size;
      if num > words.Length {
        return false;
      }
      var mine := CopyWords(words, num);
      if other.size > other.words.Length {
        return false;
      }
      var theirs := CopyWords(other.words, other.size);
      words := theirs;
      other.words := mine;
      size := other.size;
      other.size := num;
      return true;
    }

    /** Swap as intended: the word arrays and sizes are exchanged whole. */
    method SwapCorrected(other: BitSet)
      requires Valid() && other.Valid()
      modifies this, other
      ensures words == old(other.words) && size == old(other.size)
      ensures other.words == old(words) && other.size == old(size)
      ensures Valid() && other.Valid()
    {
      var num, mine := size, words;
      words, size := other.words, other.size;
      other.words, other.size := mine, num;
    }
  }

  /** Swap's private helper: a fresh array of the first n words. */
  method CopyWords(source: array<bv32>, n: nat) returns (a: array<bv32>)
    requires n <= source.Length
    ensures fresh(a) && a[..] == source[..n]
  {
    a := new bv32[n](_ => 0);
    forall k | 0 <= k < n {
      a[k] := source[k];
    }
  }

  /** BitSet(40, true) leaves bit 1 unset. */
  method FilledExample() returns (ok: bool, value: bool)
    ensures ok && !value
  {
    var b := new BitSet(40, true);
    var thrown;
    thrown, ok, value := b.At(1);
  }

  /** BitSet(0).Add() leaves Size at 0: one bit does not exceed the one
    * word the empty set already has. */
  method AddToEmptyExample() returns (n: int)
    ensures n == 0
  {
    var b := new BitSet(0, false);
    var added := b.Add(1, false);
    n := b.size;
  }

  /** Add(array) on a set of three bits appends only unset bits for an
    * array of three set bits: bits i in [3, 3) are filled. */
  method AddArrayExample() returns (bits: seq<bool>)
    ensures bits == [true, true, true, false, false, false]
  {
    var b := new BitSet.FromArray([true, true, true]);
    assert b.words.Length == 1;
    var added := b.AddArray([true, true, true]);
    assert forall j | 3 <= j < 6 :: !b.Get(j);
    bits := b.Bits();
    assert bits[..3] == [true, true, true] && |bits| == 6;
    assert bits[3] == b.Get(3) && bits[4] == b.Get(4) && bits[5] == b.Get(5);
    assert bits == bits[..3] + [bits[3], bits[4], bits[5]];
  }

  /** At(-1) on an empty set reports success. */
  method AtNegativeExample() returns (ok: bool)
    ensures ok
  {
    var b := new BitSet(0, false);
    var thrown, v;
    thrown, ok, v := b.At(-1);
  }

  /** The copy constructor yields an empty set however many bits the
    * original has. */
  method CopyExample() returns (n: int, m: int)
    ensures n == 3 && m == 0
  {
    var b := new BitSet.FromArray([true, false, true]);
    var c := new BitSet.Copy(b);
    n, m := b.size, c.size;
  }

  /** The copy of a 40-bit set has two words and Size 0, so Add(3) asks
    * for GetSize(3) = 1 word and Array.Copy of two words into it throws. */
  method CopyThenAddExample() returns (ok: bool, w: int)
    ensures !ok && w == 2
  {
    var b := new BitSet(40, false);
    var c := new BitSet.Copy(b);
    ok := c.Add(3, false);
    w := c.words.Length;
  }

  /** At(-1) on the wordless set that the as-written Swap of two empty
    * sets leaves throws. */
  method SwapThenAtExample() returns (thrown: bool)
    ensures thrown
  {
    var b := new BitSet(0, false);
    var c := new BitSet(0, false);
    var swapped := b.Swap(c);
    var ok, v;
    thrown, ok, v := b.At(-1);
  }

  /** Swap on two sets of 40 bits copies 40 words out of arrays of two,
    * so it throws. */
  method SwapExample() returns (n: int, w: int, ok: bool)
    ensures n == 40 && w == 2 && !ok
  {
    var b := new BitSet(40, false);
    var c := new BitSet(40, false);
    n, w := b.size, b.words.Length;
    ok := b.Swap(c);
  }
}
