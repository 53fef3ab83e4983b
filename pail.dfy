/** Circus.Collections.Pail<T>: a Vector<T> built by static Create
  * methods that filter (or filter and convert) a source enumerable and
  * then trim the result. A Pail is modelled as the Vector it is; the
  * source enumerable is a sequence, `collection` says whether it is an
  * ICollection, and the predicates are total functions (the delegate's
  * out parameter becomes an Option). The overloads without an offset pass
  * 5. */
module Pail {
  import opened Vector
  import Text

  /** The elements of s satisfying p, in order. */
  function Filter<T>(s: seq<T>, p: T -> bool): seq<T>
  {
    if |s| == 0 then []
    else Filter(s[..|s| - 1], p) + (if p(s[|s| - 1]) then [s[|s| - 1]] else [])
  }

  /** The outputs of f that are present, in source order. */
  function Select<U, T>(s: seq<U>, f: U -> Text.Option<T>): seq<T>
  {
    if |s| == 0 then []
    else Select(s[..|s| - 1], f) + (if f(s[|s| - 1]).Some? then [f(s[|s| - 1]).value] else [])
  }

  /** Filter keeps exactly the elements satisfying p and never grows. */
  lemma {:induction false} FilterMembers<T>(s: seq<T>, p: T -> bool)
    ensures |Filter(s, p)| <= |s|
    ensures forall x :: x in Filter(s, p) <==> x in s && p(x)
  {
    if |s| > 0 {
      FilterMembers(s[..|s| - 1], p);
      assert s == s[..|s| - 1] + [s[|s| - 1]];
    }
  }

  /** Select keeps exactly the present outputs and never grows. */
  lemma {:induction false} SelectMembers<U, T>(s: seq<U>, f: U -> Text.Option<T>)
    ensures |Select(s, f)| <= |s|
    ensures forall y :: y in Select(s, f) <==> exists x | x in s :: f(x) == Text.Some(y)
  {
    if |s| > 0 {
      var init := s[..|s| - 1];
      SelectMembers(init, f);
      assert s == init + [s[|s| - 1]];
      forall y ensures y in Select(s, f) <==> exists x | x in s :: f(x) == Text.Some(y) {
        if exists x | x in s :: f(x) == Text.Some(y) {
          var x :| x in s && f(x) == Text.Some(y);
          if x != s[|s| - 1] {
            assert x in init;
          }
        }
      }
    }
  }

  /** Select with a function that keeps what p accepts is Filter. */
  lemma {:induction false} SelectGeneralisesFilter<T>(s: seq<T>, p: T -> bool, f: T -> Text.Option<T>)
    requires forall x :: f(x) == if p(x) then Text.Some(x) else Text.None
    ensures Select(s, f) == Filter(s, p)
  {
    if |s| > 0 {
      SelectGeneralisesFilter(s[..|s| - 1], p, f);
      var last := s[|s| - 1];
      assert f(last) == if p(last) then Text.Some(last) else Text.None;
    }
  }

  /** Initialize(offset, array): capacity is the collection's Count, or 5
    * for any other enumerable. */
  method Initialize<T(==)>(offset: int, n: nat, dflt: T, collection: bool) returns (v: Vector<T>)
    ensures fresh(v) && fresh(v.arr) && v.Valid() && v.Elements() == []
    ensures v.capacity == (if collection then n else 5) && v.arr.Length == v.capacity
    ensures v.offset == offset && v.dflt == dflt
  {
    v := new Vector(if collection then n else 5, offset, dflt);
  }

  /** Create(offset, array, predicate): the elements satisfying the
    * predicate, in source order, trimmed. For an enumerable that is not a
    * collection and an offset of 0 or less, the Add of a sixth kept element
    * throws; `ok` is false exactly then, and `v` holds the five elements
    * added before it. */
  method Create<T(==)>(offset: int, s: seq<T>, p: T -> bool, dflt: T, collection: bool)
    returns (ok: bool, v: Vector<T>)
    ensures fresh(v) && v.Valid()
    ensures v.capacity == (if collection then |s| else 5) && v.offset == offset
    ensures ok <==> collection || offset > 0 || |Filter(s, p)| <= 5
    ensures ok ==> v.Elements() == Filter(s, p) && v.arr.Length == v.count
    ensures !ok ==> v.Elements() == Filter(s, p)[..5]
  {
    v := Initialize(offset, |s|, dflt, collection);
    for i := 0 to |s|
      invariant fresh(v) && fresh(v.arr) && v.Valid()
      invariant v.capacity == (if collection then |s| else 5) && v.offset == offset
      invariant v.Elements() == Filter(s[..i], p)
      invariant collection ==> v.arr.Length == |s|
      invariant !collection && offset <= 0 ==> v.arr.Length == 5
    {
      assert s[..i + 1][..i] == s[..i];
      FilterMembers(s[..i], p);
      FilterPrefix(s, p, i + 1);
      if p(s[i]) {
        var added, _ := v.Add(s[i]);
        if !added {
          FilterOverflow(s, p, i);
          return false, v;
        }
      }
    }
    assert s[..|s|] == s;
    v.Trim();
    return true, v;
  }

  /** Create<U>(offset, array, predicate): the outputs the predicate
    * produced, in source order, trimmed. It throws on a sixth output as
    * Create does; `ok` is false exactly then. */
  method CreateSelect<U, T(==)>(offset: int, s: seq<U>, f: U -> Text.Option<T>, dflt: T, collection: bool)
    returns (ok: bool, v: Vector<T>)
    ensures fresh(v) && v.Valid()
    ensures v.capacity == (if collection then |s| else 5) && v.offset == offset
    ensures ok <==> collection || offset > 0 || |Select(s, f)| <= 5
    ensures ok ==> v.Elements() == Select(s, f) && v.arr.Length == v.count
    ensures !ok ==> v.Elements() == Select(s, f)[..5]
  {
    v := Initialize(offset, |s|, dflt, collection);
    for i := 0 to |s|
      invariant fresh(v) && fresh(v.arr) && v.Valid()
      invariant v.capacity == (if collection then |s| else 5) && v.offset == offset
      invariant v.Elements() == Select(s[..i], f)
      invariant collection ==> v.arr.Length == |s|
      invariant !collection && offset <= 0 ==> v.arr.Length == 5
    {
      assert s[..i + 1][..i] == s[..i];
      SelectMembers(s[..i], f);
      SelectPrefix(s, f, i + 1);
      var r := f(s[i]);
      if r.Some? {
        var added, _ := v.Add(r.value);
        if !added {
          SelectOverflow(s, f, i);
          return false, v;
        }
      }
    }
    assert s[..|s|] == s;
    v.Trim();
    return true, v;
  }

  /** Create(pail): a copy with the same elements in the same order. */
  method Copy<T(==)>(p: Vector<T>) returns (v: Vector<T>)
    requires p.Valid()
    ensures fresh(v) && v.Valid()
    ensures v.Elements() == p.Elements() && v.arr.Length == p.count
  {
    var copied;
    copied, v := Vector.FromEnumerable(5, p.Elements(), p.dflt, true);
  }

  /** Filtering a prefix of s gives a prefix of filtering s. */
  lemma {:induction false} FilterPrefix<T>(s: seq<T>, p: T -> bool, i: nat)
    requires i <= |s|
    ensures Filter(s[..i], p) <= Filter(s, p)
    decreases |s| - i
  {
    if i < |s| {
      FilterPrefix(s, p, i + 1);
      assert s[..i + 1][..i] == s[..i];
      var a, b, c := Filter(s[..i], p), Filter(s[..i + 1], p), Filter(s, p);
      assert a <= b;
      assert b == c[..|b|];
      assert a == c[..|a|];
    } else {
      assert s[..i] == s;
    }
  }

  /** A sixth element kept at index i means more than five are kept, and
    * the five before it are the first five kept. */
  lemma FilterOverflow<T>(s: seq<T>, p: T -> bool, i: nat)
    requires i < |s| && |Filter(s[..i], p)| == 5 && p(s[i])
    ensures |Filter(s, p)| > 5 && Filter(s[..i], p) == Filter(s, p)[..5]
  {
    assert s[..i + 1][..i] == s[..i];
    FilterPrefix(s, p, i);
    FilterPrefix(s, p, i + 1);
  }

  /** The same for Select. */
  lemma SelectOverflow<U, T>(s: seq<U>, f: U -> Text.Option<T>, i: nat)
    requires i < |s| && |Select(s[..i], f)| == 5 && f(s[i]).Some?
    ensures |Select(s, f)| > 5 && Select(s[..i], f) == Select(s, f)[..5]
  {
    assert s[..i + 1][..i] == s[..i];
    SelectPrefix(s, f, i);
    SelectPrefix(s, f, i + 1);
  }

  /** The same for Select. */
  lemma {:induction false} SelectPrefix<U, T>(s: seq<U>, f: U -> Text.Option<T>, i: nat)
    requires i <= |s|
    ensures Select(s[..i], f) <= Select(s, f)
    decreases |s| - i
  {
    if i < |s| {
      SelectPrefix(s, f, i + 1);
      assert s[..i + 1][..i] == s[..i];
      var a, b, c := Select(s[..i], f), Select(s[..i + 1], f), Select(s, f);
      assert a <= b;
      assert b == c[..|b|];
      assert a == c[..|a|];
    } else {
      assert s[..i] == s;
    }
  }
}
