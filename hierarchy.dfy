/** Circus.Wpf.Data.HierarchicalCollectionCache: the filter state of a
  * hierarchical collection. Register flattens the source forest into a
  * Map<int, Node> under consecutive keys taken from a running index;
  * Filter marks a node Accept when its item matches the predicate and
  * then accepts every ancestor of a match. The Map is modelled by its
  * nodes in key order: the keys held are index - |nodes| .. index - 1. */
module Hierarchy {
  import Chains

  /** The parent item Register is given: null for a top-level item. */
  datatype Parent<I> = Top | Under(item: I)

  datatype Node<I> = Node(accept: bool, item: I, parent: int)

  /** children(x) stands for IsChildren(x): the items of the collection
    * property the type's HierarchicalCollection attribute names, or none.
    * rank bounds the depth below an item: the object graph is a forest of
    * finite depth, or Register would not return. */
  ghost predicate Ranked<I(!new)>(children: I -> seq<I>, rank: I -> nat)
  {
    forall x, c | c in children(x) :: rank(c) < rank(x)
  }

  /** The (parent item, item) pairs Register(p, x) visits, in pre-order. */
  ghost function Visit<I(!new)>(children: I -> seq<I>, rank: I -> nat, p: Parent<I>, x: I): seq<(Parent<I>, I)>
    requires Ranked(children, rank)
    decreases rank(x) + 1, 0
  {
    [(p, x)] + VisitAll(children, rank, Under(x), children(x), rank(x))
  }

  /** The pairs visited for each item of s in turn. */
  ghost function VisitAll<I(!new)>(children: I -> seq<I>, rank: I -> nat, p: Parent<I>, s: seq<I>, bound: nat): seq<(Parent<I>, I)>
    requires Ranked(children, rank) && forall y | y in s :: rank(y) < bound
    decreases bound, |s|
  {
    if s == [] then []
    else VisitAll(children, rank, p, s[..|s| - 1], bound) + Visit(children, rank, p, s[|s| - 1])
  }

  /** A rank above every item of s. */
  ghost function Bound<I>(rank: I -> nat, s: seq<I>): (b: nat)
    ensures forall y | y in s :: rank(y) < b
  {
    if s == [] then 0
    else
      var b := Bound(rank, s[1..]);
      assert forall y | y in s :: y == s[0] || y in s[1..];
      if rank(s[0]) < b then b else rank(s[0]) + 1
  }

  function Items<I>(ns: seq<Node<I>>): seq<I>
  {
    seq(|ns|, j requires 0 <= j < |ns| => ns[j].item)
  }

  function Parents<I>(ns: seq<Node<I>>): seq<int>
  {
    seq(|ns|, j requires 0 <= j < |ns| => ns[j].parent)
  }

  function Seconds<I>(pairs: seq<(Parent<I>, I)>): seq<I>
  {
    seq(|pairs|, j requires 0 <= j < |pairs| => pairs[j].1)
  }

  /** Every parent key is -1 or the key of an earlier node. */
  ghost predicate WellParented(ps: seq<int>, base: int)
  {
    forall j | 0 <= j < |ps| :: ps[j] == -1 || base <= ps[j] < base + j
  }

  /** The position of the first node holding x, or |ns|. */
  function FirstHolding<I(==)>(ns: seq<Node<I>>, x: I): (k: nat)
    ensures k <= |ns| && forall j | 0 <= j < k :: ns[j].item != x
    ensures k < |ns| ==> ns[k].item == x
  {
    if ns == [] then 0
    else if ns[0].item == x then 0
    else 1 + FirstHolding(ns[1..], x)
  }

  /** GetParent's answer for nodes keyed from base: the key of the first
    * node, in key order, holding the parent item; -1 for a top-level item
    * or an item no node holds. */
  function ParentKey<I(==)>(ns: seq<Node<I>>, base: int, p: Parent<I>): (r: int)
    requires base >= 0
    ensures r == -1 <==> p.Top? || forall j | 0 <= j < |ns| :: ns[j].item != p.item
    ensures r != -1 ==> base <= r < base + |ns| && ns[r - base].item == p.item
    ensures r != -1 ==> forall j | 0 <= j < r - base :: ns[j].item != p.item
  {
    if p.Top? then -1
    else
      var k := FirstHolding(ns, p.item);
      if k == |ns| then -1 else base + k
  }

  /** The nodes Register appends for the visited pairs, in order: each is
    * accepted, holds its item, and has the parent key GetParent finds
    * among the nodes before it. */
  function Enroll<I(==)>(ns: seq<Node<I>>, base: int, pairs: seq<(Parent<I>, I)>): (r: seq<Node<I>>)
    requires base >= 0
    ensures |r| == |ns| + |pairs| && r[..|ns|] == ns
    ensures forall j | 0 <= j < |pairs| ::
      r[|ns| + j] == Node(true, pairs[j].1, ParentKey(r[..|ns| + j], base, pairs[j].0))
    decreases |pairs|
  {
    if pairs == [] then ns
    else
      var ns' := ns + [Node(true, pairs[0].1, ParentKey(ns, base, pairs[0].0))];
      var r := Enroll(ns', base, pairs[1..]);
      assert r[..|ns|] == r[..|ns'|][..|ns|];
      assert forall j | 1 <= j < |pairs| :: r[|ns| + j] == r[|ns'| + (j - 1)] && pairs[j] == pairs[1..][j - 1];
      r
  }

  lemma {:induction false} EnrollConcat<I>(ns: seq<Node<I>>, base: int, a: seq<(Parent<I>, I)>, c: seq<(Parent<I>, I)>)
    requires base >= 0
    ensures Enroll(ns, base, a + c) == Enroll(Enroll(ns, base, a), base, c)
    decreases |a|
  {
    if a == [] {
      assert a + c == c;
    } else {
      var ns' := ns + [Node(true, a[0].1, ParentKey(ns, base, a[0].0))];
      assert (a + c)[0] == a[0] && (a + c)[1..] == a[1..] + c;
      EnrollConcat(ns', base, a[1..], c);
    }
  }

  /** Register keeps parent keys pointing backwards. */
  lemma EnrollWellParented<I>(ns: seq<Node<I>>, base: int, pairs: seq<(Parent<I>, I)>)
    requires base >= 0 && WellParented(Parents(ns), base)
    ensures WellParented(Parents(Enroll(ns, base, pairs)), base)
  {
    var r := Enroll(ns, base, pairs);
    forall j | 0 <= j < |r| ensures Parents(r)[j] == -1 || base <= Parents(r)[j] < base + j {
      if j < |ns| {
        assert r[j] == r[..|ns|][j] == ns[j];
        assert Parents(ns)[j] == ns[j].parent;
      } else {
        var k := j - |ns|;
        assert r[j] == Node(true, pairs[k].1, ParentKey(r[..|ns| + k], base, pairs[k].0));
      }
    }
  }

  /** Every pair with a parent item names an item of the context or of an
    * earlier pair. */
  ghost predicate RootedIn<I>(ctx: seq<I>, pairs: seq<(Parent<I>, I)>)
  {
    forall j | 0 <= j < |pairs| && pairs[j].0.Under? :: pairs[j].0.item in ctx + Seconds(pairs[..j])
  }

  lemma RootedConcat<I>(ctx: seq<I>, a: seq<(Parent<I>, I)>, b: seq<(Parent<I>, I)>)
    requires RootedIn(ctx, a) && RootedIn(ctx + Seconds(a), b)
    ensures RootedIn(ctx, a + b)
  {
    var s := a + b;
    forall j | 0 <= j < |s| && s[j].0.Under? ensures s[j].0.item in ctx + Seconds(s[..j]) {
      if j < |a| {
        assert s[..j] == a[..j];
        assert s[j] == a[j];
      } else {
        var k := j - |a|;
        assert s[j] == b[k];
        assert s[..j] == a + b[..k];
        assert Seconds(a + b[..k]) == Seconds(a) + Seconds(b[..k]);
        assert ctx + Seconds(s[..j]) == (ctx + Seconds(a)) + Seconds(b[..k]);
      }
    }
  }

  lemma RootedWider<I>(ctx: seq<I>, ctx': seq<I>, pairs: seq<(Parent<I>, I)>)
    requires RootedIn(ctx, pairs) && forall x | x in ctx :: x in ctx'
    ensures RootedIn(ctx', pairs)
  {
  }

  /** In pre-order, a child comes after a node holding its parent item. */
  lemma {:induction false} VisitRooted<I(!new)>(children: I -> seq<I>, rank: I -> nat, ctx: seq<I>, p: Parent<I>, x: I)
    requires Ranked(children, rank) && (p.Under? ==> p.item in ctx)
    ensures RootedIn(ctx, Visit(children, rank, p, x))
    decreases rank(x) + 1, 0
  {
    var head := [(p, x)];
    assert RootedIn(ctx, head) by {
      assert head[..0] == [];
    }
    assert Seconds(head) == [x];
    VisitAllRooted(children, rank, ctx + [x], Under(x), children(x), rank(x));
    RootedConcat(ctx, head, VisitAll(children, rank, Under(x), children(x), rank(x)));
  }

  lemma {:induction false} VisitAllRooted<I(!new)>(children: I -> seq<I>, rank: I -> nat, ctx: seq<I>, p: Parent<I>, s: seq<I>, bound: nat)
    requires Ranked(children, rank) && forall y | y in s :: rank(y) < bound
    requires p.Under? ==> p.item in ctx
    ensures RootedIn(ctx, VisitAll(children, rank, p, s, bound))
    decreases bound, |s|
  {
    if s != [] {
      var front := VisitAll(children, rank, p, s[..|s| - 1], bound);
      VisitAllRooted(children, rank, ctx, p, s[..|s| - 1], bound);
      VisitRooted(children, rank, ctx, p, s[|s| - 1]);
      RootedWider(ctx, ctx + Seconds(front), Visit(children, rank, p, s[|s| - 1]));
      RootedConcat(ctx, front, Visit(children, rank, p, s[|s| - 1]));
    }
  }

  /** Register gives -1 exactly to the nodes visited with a null parent: a
    * child's parent item is always held by an earlier node. */
  lemma EnrollParents<I>(ns: seq<Node<I>>, base: int, pairs: seq<(Parent<I>, I)>)
    requires base >= 0 && RootedIn(Items(ns), pairs)
    ensures forall j | 0 <= j < |pairs| :: Enroll(ns, base, pairs)[|ns| + j].parent == -1 <==> pairs[j].0.Top?
  {
    var r := Enroll(ns, base, pairs);
    forall j | 0 <= j < |pairs| ensures r[|ns| + j].parent == -1 <==> pairs[j].0.Top? {
      var pre := r[..|ns| + j];
      if pairs[j].0.Under? {
        var x := pairs[j].0.item;
        assert x in Items(ns) + Seconds(pairs[..j]);
        assert Items(pre) == Items(ns) + Seconds(pairs[..j]) by {
          forall q | 0 <= q < |pre| ensures Items(pre)[q] == (Items(ns) + Seconds(pairs[..j]))[q] {
            if q < |ns| {
              assert pre[q] == r[..|ns|][q];
            } else {
              assert pre[q] == r[|ns| + (q - |ns|)];
            }
          }
        }
        var q :| 0 <= q < |pre| && Items(pre)[q] == x;
        assert pre[q].item == x;
      }
    }
  }

  /** The pairs visited below an item all carry a parent item. */
  lemma {:induction false} VisitUnder<I(!new)>(children: I -> seq<I>, rank: I -> nat, p: Parent<I>, x: I)
    requires Ranked(children, rank) && p.Under?
    ensures forall j | 0 <= j < |Visit(children, rank, p, x)| :: Visit(children, rank, p, x)[j].0.Under?
    decreases rank(x) + 1, 0
  {
    VisitAllUnder(children, rank, Under(x), children(x), rank(x));
  }

  lemma {:induction false} VisitAllUnder<I(!new)>(children: I -> seq<I>, rank: I -> nat, p: Parent<I>, s: seq<I>, bound: nat)
    requires Ranked(children, rank) && forall y | y in s :: rank(y) < bound
    requires p.Under?
    ensures forall j | 0 <= j < |VisitAll(children, rank, p, s, bound)| :: VisitAll(children, rank, p, s, bound)[j].0.Under?
    decreases bound, |s|
  {
    if s != [] {
      VisitAllUnder(children, rank, p, s[..|s| - 1], bound);
      VisitUnder(children, rank, p, s[|s| - 1]);
    }
  }

  /** The items of the pairs visited with a null parent. */
  function TopItems<I>(pairs: seq<(Parent<I>, I)>): seq<I>
  {
    if pairs == [] then []
    else TopItems(pairs[..|pairs| - 1]) + (if pairs[|pairs| - 1].0.Top? then [pairs[|pairs| - 1].1] else [])
  }

  lemma {:induction false} TopItemsConcat<I>(a: seq<(Parent<I>, I)>, b: seq<(Parent<I>, I)>)
    ensures TopItems(a + b) == TopItems(a) + TopItems(b)
    decreases |b|
  {
    if b == [] {
      assert a + b == a;
    } else {
      assert (a + b)[..|a + b| - 1] == a + b[..|b| - 1];
      TopItemsConcat(a, b[..|b| - 1]);
    }
  }

  lemma {:induction false} TopItemsUnder<I>(pairs: seq<(Parent<I>, I)>)
    requires forall j | 0 <= j < |pairs| :: pairs[j].0.Under?
    ensures TopItems(pairs) == []
    decreases |pairs|
  {
    if pairs != [] {
      TopItemsUnder(pairs[..|pairs| - 1]);
    }
  }

  /** Register(source) visits the items of source, in order, as its
    * top-level items. */
  lemma {:induction false} VisitAllTops<I(!new)>(children: I -> seq<I>, rank: I -> nat, s: seq<I>, bound: nat)
    requires Ranked(children, rank) && forall y | y in s :: rank(y) < bound
    ensures TopItems(VisitAll(children, rank, Top, s, bound)) == s
    decreases |s|
  {
    if s != [] {
      var x := s[|s| - 1];
      var below := VisitAll(children, rank, Under(x), children(x), rank(x));
      VisitAllTops(children, rank, s[..|s| - 1], bound);
      VisitAllUnder(children, rank, Under(x), children(x), rank(x));
      TopItemsUnder(below);
      var head: seq<(Parent<I>, I)> := [(Top, x)];
      TopItemsConcat(head, below);
      assert TopItems(head) == [x] by {
        assert head[..0] == [];
      }
      TopItemsConcat(VisitAll(children, rank, Top, s[..|s| - 1], bound), Visit(children, rank, Top, x));
      assert s == s[..|s| - 1] + [x];
    }
  }

  /** Node a is node d or one of its ancestors (positions in key order). */
  ghost predicate AncestorOrSelf(ps: seq<int>, base: int, a: int, d: nat)
    requires WellParented(ps, base) && d < |ps|
    decreases d
  {
    a == d || (ps[d] != -1 && AncestorOrSelf(ps, base, a, ps[d] - base))
  }

  /** The parent of an ancestor is an ancestor. */
  lemma {:induction false} AncestorStep(ps: seq<int>, base: int, a: nat, d: nat)
    requires WellParented(ps, base) && a < |ps| && d < |ps|
    requires AncestorOrSelf(ps, base, a, d) && ps[a] != -1
    ensures AncestorOrSelf(ps, base, ps[a] - base, d)
    decreases d
  {
    if a != d {
      AncestorStep(ps, base, a, ps[d] - base);
    }
  }

  /** The node at position j is top-level or its parent is accepted. */
  ghost predicate ParentAccepted<I>(ns: seq<Node<I>>, base: int, j: nat)
    requires j < |ns|
  {
    ns[j].parent == -1 || (base <= ns[j].parent < base + |ns| && ns[ns[j].parent - base].accept)
  }

  /** Every accepted node other than cur and the matches still pending has
    * its parent accepted. */
  ghost predicate ClosedBut<I>(ns: seq<Node<I>>, base: int, pending: seq<int>, cur: int)
  {
    forall j | 0 <= j < |ns| && ns[j].accept :: base + j in pending || j == cur || ParentAccepted(ns, base, j)
  }

  /** The node at position j is accepted. */
  ghost predicate Accepted<I>(ns: seq<Node<I>>, j: int)
  {
    0 <= j < |ns| && ns[j].accept
  }

  /** Every accepted node is a match or an ancestor of one. */
  ghost predicate Sourced<I>(ns: seq<Node<I>>, ps: seq<int>, base: int, matches: seq<int>)
    requires WellParented(ps, base) && |ps| == |ns|
  {
    forall j | Accepted(ns, j) ::
      exists m | 0 <= m < |ns| && base + m in matches :: AncestorOrSelf(ps, base, j, m)
  }

  /** Every match is accepted. */
  ghost predicate Kept<I>(ns: seq<Node<I>>, base: int, matches: seq<int>)
  {
    forall j | 0 <= j < |ns| && base + j in matches :: ns[j].accept
  }

  /** One step of an ancestor walk: accepting the parent q of cur keeps
    * the walk's invariants and moves the exemption to q. */
  lemma PromoteStep<I>(ns: seq<Node<I>>, ps: seq<int>, base: int, matches: seq<int>, pending: seq<int>, cur: nat, d: nat, q: nat)
    requires base >= 0 && WellParented(ps, base) && Parents(ns) == ps
    requires cur < |ns| && d < |ns| && q < |ns| && ns[cur].accept && ps[cur] == base + q
    requires AncestorOrSelf(ps, base, cur, d) && base + d in matches
    requires ClosedBut(ns, base, pending, cur) && Sourced(ns, ps, base, matches) && Kept(ns, base, matches)
    ensures var ns' := ns[q := ns[q].(accept := true)];
      && Parents(ns') == ps && ns'[q].accept && AncestorOrSelf(ps, base, q, d)
      && ClosedBut(ns', base, pending, q) && Sourced(ns', ps, base, matches) && Kept(ns', base, matches)
  {
    var ns' := ns[q := ns[q].(accept := true)];
    assert Parents(ns') == ps by {
      assert forall j | 0 <= j < |ns| :: ns'[j].parent == ns[j].parent;
    }
    AncestorStep(ps, base, cur, d);
    assert ns[cur].parent == ps[cur];
    PromoteClosed(ns, base, pending, cur, q);
    PromoteSourced(ns, ps, base, matches, d, q);
  }

  lemma PromoteClosed<I>(ns: seq<Node<I>>, base: int, pending: seq<int>, cur: nat, q: nat)
    requires cur < |ns| && q < |ns| && ns[cur].parent == base + q
    requires ClosedBut(ns, base, pending, cur)
    ensures ClosedBut(ns[q := ns[q].(accept := true)], base, pending, q)
  {
    var ns' := ns[q := ns[q].(accept := true)];
    forall j | 0 <= j < |ns'| && ns'[j].accept ensures base + j in pending || j == q || ParentAccepted(ns', base, j) {
      if j != q {
        assert ns'[j] == ns[j];
        if ns[j].parent != -1 && j != cur && base + j !in pending {
          assert ParentAccepted(ns, base, j);
          assert ns'[ns[j].parent - base].accept;
        }
      }
    }
  }

  lemma PromoteSourced<I>(ns: seq<Node<I>>, ps: seq<int>, base: int, matches: seq<int>, d: nat, q: nat)
    requires WellParented(ps, base) && |ps| == |ns| && d < |ns| && q < |ns|
    requires AncestorOrSelf(ps, base, q, d) && base + d in matches
    requires Sourced(ns, ps, base, matches) && Kept(ns, base, matches)
    ensures Sourced(ns[q := ns[q].(accept := true)], ps, base, matches)
    ensures Kept(ns[q := ns[q].(accept := true)], base, matches)
  {
    var ns' := ns[q := ns[q].(accept := true)];
    forall j | Accepted(ns', j)
      ensures exists m | 0 <= m < |ns'| && base + m in matches :: AncestorOrSelf(ps, base, j, m)
    {
      if j != q {
        assert ns'[j] == ns[j];
        assert Accepted(ns, j);
      }
    }
    forall j | 0 <= j < |ns'| && base + j in matches ensures ns'[j].accept {
      if j != q {
        assert ns'[j] == ns[j];
      }
    }
  }

  /** When the accepted nodes are closed under parents, every ancestor of
    * an accepted node is accepted. */
  lemma {:induction false} ClosedUpwards<I>(ns: seq<Node<I>>, base: int, a: int, d: nat)
    requires WellParented(Parents(ns), base) && d < |ns| && ns[d].accept
    requires ClosedBut(ns, base, [], -1)
    requires AncestorOrSelf(Parents(ns), base, a, d)
    ensures 0 <= a < |ns| && ns[a].accept
    decreases d
  {
    if a != d {
      assert Parents(ns)[d] == ns[d].parent;
      assert ParentAccepted(ns, base, d);
      ClosedUpwards(ns, base, a, ns[d].parent - base);
    }
  }

  /** The accepted nodes are exactly the given matches and their ancestors. */
  ghost predicate AcceptedExactly<I>(ns: seq<Node<I>>, base: int, matches: seq<int>)
    requires WellParented(Parents(ns), base)
  {
    forall j | 0 <= j < |ns| ::
      ns[j].accept <==> exists m | 0 <= m < |ns| && base + m in matches :: AncestorOrSelf(Parents(ns), base, j, m)
  }

  /** Once every walk is done, the accepted nodes are exactly the matches
    * and their ancestors. */
  lemma Settled<I>(ns: seq<Node<I>>, base: int, matches: seq<int>)
    requires WellParented(Parents(ns), base)
    requires Kept(ns, base, matches) && Sourced(ns, Parents(ns), base, matches) && ClosedBut(ns, base, [], -1)
    ensures AcceptedExactly(ns, base, matches)
  {
    forall j, m | 0 <= j < |ns| && 0 <= m < |ns| && base + m in matches && AncestorOrSelf(Parents(ns), base, j, m)
      ensures ns[j].accept
    {
      ClosedUpwards(ns, base, j, m);
    }
    forall j | 0 <= j < |ns| && ns[j].accept
      ensures exists m | 0 <= m < |ns| && base + m in matches :: AncestorOrSelf(Parents(ns), base, j, m)
    {
      assert Accepted(ns, j);
    }
  }

  /** The keys of the items satisfying p, in key order, for items keyed
    * from base. */
  function MatchKeys<I>(xs: seq<I>, base: int, p: I -> bool): (r: seq<int>)
    ensures forall k :: k in r <==> base <= k < base + |xs| && p(xs[k - base])
    ensures forall i, j | 0 <= i < j < |r| :: r[i] < r[j]
  {
    if xs == [] then []
    else
      var n := |xs| - 1;
      var front := MatchKeys(xs[..n], base, p);
      assert forall j | 0 <= j < n :: xs[..n][j] == xs[j];
      assert forall i | 0 <= i < |front| :: front[i] in front;
      front + (if p(xs[n]) then [base + n] else [])
  }

  /** The accepted nodes are exactly the nodes whose items satisfy p and
    * their ancestors. */
  ghost predicate AcceptedFor<I>(ns: seq<Node<I>>, base: int, p: I -> bool)
    requires WellParented(Parents(ns), base)
  {
    forall j | 0 <= j < |ns| ::
      ns[j].accept <==> exists m | 0 <= m < |ns| && p(ns[m].item) :: AncestorOrSelf(Parents(ns), base, j, m)
  }

  /** When the matches are the keys of the items satisfying p, the accepted
    * nodes are exactly those items' nodes and their ancestors. */
  lemma AcceptedByPredicate<I>(ns: seq<Node<I>>, base: int, p: I -> bool)
    requires WellParented(Parents(ns), base)
    requires AcceptedExactly(ns, base, MatchKeys(Items(ns), base, p))
    ensures AcceptedFor(ns, base, p)
  {
    var keys := MatchKeys(Items(ns), base, p);
    forall m | 0 <= m < |ns| ensures base + m in keys <==> p(ns[m].item) {
      assert Items(ns)[m] == ns[m].item;
    }
  }

  /** The items of the nodes not accepted, in key order. */
  function Rejected<I>(ns: seq<Node<I>>): (r: seq<I>)
    ensures |r| <= |ns|
    ensures forall j | 0 <= j < |ns| && !ns[j].accept :: ns[j].item in r
    ensures forall x | x in r :: exists j | 0 <= j < |ns| && !ns[j].accept :: ns[j].item == x
  {
    if ns == [] then []
    else
      var front := Rejected(ns[..|ns| - 1]);
      assert forall j | 0 <= j < |ns| - 1 :: ns[..|ns| - 1][j] == ns[j];
      front + (if ns[|ns| - 1].accept then [] else [ns[|ns| - 1].item])
  }

  lemma RejectedLast<I>(ns: seq<Node<I>>)
    requires ns != []
    ensures |Rejected(ns)| == |Rejected(ns[..|ns| - 1])| + (if ns[|ns| - 1].accept then 0 else 1)
  {
  }

  lemma MatchKeysLast<I>(xs: seq<I>, base: int, p: I -> bool)
    requires xs != []
    ensures |MatchKeys(xs, base, p)| == |MatchKeys(xs[..|xs| - 1], base, p)| + (if p(xs[|xs| - 1]) then 1 else 0)
  {
  }

  /** When every match is accepted, the rejected nodes are among the
    * nodes that are not direct matches. */
  lemma {:induction false} RejectedWithinExcluded<I>(ns: seq<Node<I>>, base: int, p: I -> bool)
    requires forall j | 0 <= j < |ns| :: p(ns[j].item) ==> ns[j].accept
    ensures |Rejected(ns)| + |MatchKeys(Items(ns), base, p)| <= |ns|
    decreases |ns|
  {
    if ns != [] {
      var n := |ns| - 1;
      var front := ns[..n];
      assert forall j | 0 <= j < |front| :: front[j] == ns[j];
      assert Items(ns)[..n] == Items(front);
      RejectedWithinExcluded(front, base, p);
      RejectedLast(ns);
      MatchKeysLast(Items(ns), base, p);
      assert Items(ns)[n] == ns[n].item;
    }
  }

  /** ns' holds the nodes of ns, with only their accept flags changed. */
  ghost predicate SameShape<I>(ns: seq<Node<I>>, ns': seq<Node<I>>)
  {
    |ns'| == |ns| && forall j | 0 <= j < |ns'| :: ns'[j] == ns[j].(accept := ns'[j].accept)
  }

  class Cache<I(==, !new)> {
    /** The Map<int, Node>'s nodes in key order. */
    var nodes: seq<Node<I>>
    /** The next key to hand out. */
    var index: int
    /** Count: the number of direct matches of the last Match. */
    var count: int
    var filter: Chains.Option<I -> bool>
    const children: I -> seq<I>
    ghost const rank: I -> nat

    /** The key of nodes[0]. */
    function Base(): int
      reads this
    {
      index - |nodes|
    }

    ghost predicate Valid()
      reads this
    {
      Ranked(children, rank) && Base() >= 0 && WellParented(Parents(nodes), Base())
    }

    /** Excluded: the number of nodes minus Count. */
    function Excluded(): int
      reads this
    {
      |nodes| - count
    }

    constructor (children: I -> seq<I>, ghost rank: I -> nat)
      requires Ranked(children, rank)
      ensures Valid() && nodes == [] && index == 0 && count == 0 && filter == Chains.None
      ensures this.children == children && this.rank == rank
    {
      this.children := children;
      this.rank := rank;
      nodes := [];
      index := 0;
      count := 0;
      filter := Chains.None;
    }

    /** Filter: remember the predicate, register the source when the map
      * is empty, then accept the matches and their ancestors. */
    method Filter(source: seq<I>, p: I -> bool)
      requires Valid()
      modifies this
      ensures Valid() && filter == Chains.Some(p)
      ensures old(nodes) == [] ==>
        Base() == old(index) && SameShape(Enroll([], old(index), VisitAll(children, rank, Top, source, Bound(rank, source))), nodes)
      ensures old(nodes) != [] ==> index == old(index) && SameShape(old(nodes), nodes)
      ensures count == |MatchKeys(Items(nodes), Base(), p)|
      ensures AcceptedFor(nodes, Base(), p)
      ensures |Rejected(nodes)| <= Excluded()
    {
      filter := Chains.Some(p);
      if |nodes| == 0 {
        Register(source);
      }
      Refresh(p);
    }

    /** Update(Match()): accept the matches of p and their ancestors. */
    method Refresh(p: I -> bool)
      requires Valid()
      modifies this
      ensures Valid() && index == old(index) && filter == old(filter) && SameShape(old(nodes), nodes)
      ensures count == |MatchKeys(Items(nodes), Base(), p)|
      ensures AcceptedFor(nodes, Base(), p)
      ensures |Rejected(nodes)| <= Excluded()
    {
      ghost var registered := nodes;
      var matched := Match(p);
      Update(matched);
      assert Items(nodes) == Items(registered);
      assert SameShape(registered, nodes) by {
        forall j | 0 <= j < |nodes| ensures nodes[j] == registered[j].(accept := nodes[j].accept) {
          assert Items(nodes)[j] == Items(registered)[j];
          assert Parents(nodes)[j] == Parents(registered)[j];
        }
      }
      AcceptedByPredicate(nodes, Base(), p);
      RejectedWithinExcluded(nodes, Base(), p);
    }

    /** Filtered, the enumeration: the items of the nodes not accepted, in
      * key order. */
    method Filtered() returns (r: seq<I>)
      ensures r == Rejected(nodes)
    {
      r := [];
      var j := 0;
      while j < |nodes|
        invariant 0 <= j <= |nodes|
        invariant r == Rejected(nodes[..j])
      {
        assert nodes[..j + 1][..j] == nodes[..j];
        if !nodes[j].accept {
          r := r + [nodes[j].item];
        }
        j := j + 1;
      }
      assert nodes[..j] == nodes;
    }

    /** GetParent: the key of the first node, in key order, holding the
      * parent item, or -1. */
    method GetParent(parent: Parent<I>) returns (r: int)
      requires Valid()
      ensures r == ParentKey(nodes, Base(), parent)
    {
      if parent.Under? {
        var j := 0;
        while j < |nodes|
          invariant 0 <= j <= |nodes|
          invariant forall q | 0 <= q < j :: nodes[q].item != parent.item
        {
          if nodes[j].item == parent.item {
            return Base() + j;
          }
          j := j + 1;
        }
      }
      return -1;
    }

    /** Invalidate: Clear(true) on the map; the running index is kept. */
    method Invalidate()
      requires Valid()
      modifies this
      ensures Valid() && nodes == [] && index == old(index)
      ensures count == old(count) && filter == old(filter)
    {
      nodes := [];
    }

    /** Match: every node's Accept becomes the predicate on its item; the
      * keys of the matches are collected in key order, and Count is their
      * number. */
    method Match(p: I -> bool) returns (r: seq<int>)
      requires Valid()
      modifies this
      ensures Valid() && index == old(index) && filter == old(filter)
      ensures |nodes| == |old(nodes)| && Parents(nodes) == Parents(old(nodes))
      ensures forall j | 0 <= j < |nodes| :: nodes[j] == old(nodes)[j].(accept := p(old(nodes)[j].item))
      ensures Items(nodes) == Items(old(nodes))
      ensures r == MatchKeys(Items(nodes), Base(), p) && count == |r|
    {
      ghost var start := nodes;
      r := [];
      var j := 0;
      while j < |nodes|
        invariant 0 <= j <= |nodes| == |start| && index == old(index) && filter == old(filter)
        invariant forall q | 0 <= q < j :: nodes[q] == start[q].(accept := p(start[q].item))
        invariant forall q | j <= q < |nodes| :: nodes[q] == start[q]
        invariant r == MatchKeys(Items(start)[..j], Base(), p)
      {
        assert Items(start)[..j + 1][..j] == Items(start)[..j];
        var num := p(nodes[j].item);
        if num {
          r := r + [Base() + j];
        }
        nodes := nodes[j := nodes[j].(accept := num)];
        j := j + 1;
      }
      assert Items(start)[..j] == Items(start) == Items(nodes);
      assert Parents(nodes) == Parents(start);
      assert Base() == old(Base());
      assert WellParented(Parents(nodes), Base());
      count := |r|;
    }

    /** Register(source): Register(null, item) for each item in turn. */
    method Register(source: seq<I>)
      requires Valid()
      modifies this
      ensures Valid() && Base() == old(Base())
      ensures count == old(count) && filter == old(filter)
      ensures nodes == Enroll(old(nodes), Base(), VisitAll(children, rank, Top, source, Bound(rank, source)))
    {
      ghost var b := Bound(rank, source);
      ghost var base := Base();
      var i := 0;
      while i < |source|
        invariant 0 <= i <= |source|
        invariant Valid() && Base() == base
        invariant count == old(count) && filter == old(filter)
        invariant nodes == Enroll(old(nodes), base, VisitAll(children, rank, Top, source[..i], b))
      {
        assert source[..i + 1][..i] == source[..i];
        ghost var done := VisitAll(children, rank, Top, source[..i], b);
        ghost var v := Visit(children, rank, Top, source[i]);
        RegisterItem(Top, source[i]);
        EnrollConcat(old(nodes), base, done, v);
        assert VisitAll(children, rank, Top, source[..i + 1], b) == done + v;
        i := i + 1;
      }
      assert source[..i] == source;
    }

    /** Register(parent, item): a node for item under the next key, with
      * GetParent(parent) as its parent key, then each child registered
      * with item as its parent. */
    method RegisterItem(parent: Parent<I>, item: I)
      requires Valid()
      modifies this
      ensures Valid() && Base() == old(Base())
      ensures count == old(count) && filter == old(filter)
      ensures nodes == Enroll(old(nodes), Base(), Visit(children, rank, parent, item))
      decreases rank(item), 1
    {
      var key := GetParent(parent);
      ghost var b := Base();
      nodes := nodes + [Node(true, item, key)];
      index := index + 1;
      assert nodes == Enroll(old(nodes), b, [(parent, item)]);
      EnrollWellParented(old(nodes), b, [(parent, item)]);
      RegisterChildren(item);
      EnrollConcat(old(nodes), b, [(parent, item)], VisitAll(children, rank, Under(item), children(item), rank(item)));
    }

    /** The loop of Register(parent, item): each child of item registered,
      * in order, with item as its parent. */
    method RegisterChildren(item: I)
      requires Valid()
      modifies this
      ensures Valid() && Base() == old(Base())
      ensures count == old(count) && filter == old(filter)
      ensures nodes == Enroll(old(nodes), Base(), VisitAll(children, rank, Under(item), children(item), rank(item)))
      decreases rank(item), 0
    {
      ghost var b := Base();
      var kids := children(item);
      var i := 0;
      while i < |kids|
        invariant 0 <= i <= |kids|
        invariant Valid() && Base() == b
        invariant count == old(count) && filter == old(filter)
        invariant nodes == Enroll(old(nodes), b, VisitAll(children, rank, Under(item), kids[..i], rank(item)))
      {
        assert kids[..i + 1][..i] == kids[..i];
        ghost var done := VisitAll(children, rank, Under(item), kids[..i], rank(item));
        ghost var v := Visit(children, rank, Under(item), kids[i]);
        RegisterItem(Under(item), kids[i]);
        EnrollConcat(old(nodes), b, done, v);
        assert VisitAll(children, rank, Under(item), kids[..i + 1], rank(item)) == done + v;
        i := i + 1;
      }
      assert kids[..i] == kids;
    }

    /** Update(matches): for each match, last first, accept the ancestors
      * up to the first one already accepted. Called right after Match, so
      * the accepted nodes are exactly the matches. */
    method Update(matches: seq<int>)
      requires Valid()
      requires forall k | k in matches :: Base() <= k < index
      requires forall j | 0 <= j < |nodes| :: nodes[j].accept <==> Base() + j in matches
      modifies this
      ensures Valid() && index == old(index) && count == old(count) && filter == old(filter)
      ensures |nodes| == |old(nodes)| && Parents(nodes) == Parents(old(nodes)) && Items(nodes) == Items(old(nodes))
      ensures AcceptedExactly(nodes, Base(), matches)
    {
      ghost var ps := Parents(nodes);
      ghost var xs := Items(nodes);
      ghost var b := Base();
      forall j | Accepted(nodes, j)
        ensures exists m | 0 <= m < |nodes| && b + m in matches :: AncestorOrSelf(ps, b, j, m)
      {
        assert AncestorOrSelf(ps, b, j, j);
      }
      assert matches[..|matches|] == matches;
      var t := |matches|;
      while t > 0
        invariant 0 <= t <= |matches|
        invariant Valid() && index == old(index) && count == old(count) && filter == old(filter)
        invariant Base() == b && Parents(nodes) == ps && Items(nodes) == xs
        invariant Kept(nodes, b, matches) && Sourced(nodes, ps, b, matches)
        invariant ClosedBut(nodes, b, matches[..t], -1)
      {
        t := t - 1;
        assert matches[t] in matches;
        nodes := Climb(nodes, Base(), matches, t, ps);
      }
      assert matches[..t] == [];
      Settled(nodes, Base(), matches);
    }
  }

  /** One walk of Update, on the nodes in key order: from the match
    * matches[t] up through the ancestors not yet accepted, stopping at the
    * root or at the first accepted one. */
  method Climb<I>(ns: seq<Node<I>>, base: int, matches: seq<int>, t: nat, ghost ps: seq<int>) returns (r: seq<Node<I>>)
    requires base >= 0 && WellParented(ps, base) && Parents(ns) == ps && t < |matches|
    requires base <= matches[t] < base + |ns|
    requires Kept(ns, base, matches) && Sourced(ns, ps, base, matches)
    requires ClosedBut(ns, base, matches[..t + 1], -1)
    ensures Parents(r) == ps && Items(r) == Items(ns)
    ensures Kept(r, base, matches) && Sourced(r, ps, base, matches)
    ensures ClosedBut(r, base, matches[..t], -1)
  {
    var i := matches[t];
    ghost var d := i - base;
    assert ClosedBut(ns, base, matches[..t], d) by {
      assert matches[..t + 1] == matches[..t] + [i];
    }
    ghost var cur := d;
    assert base + d == matches[t] && matches[t] in matches;
    assert ns[d].accept;
    r := ns;
    var num := r[i - base].parent;
    while num != -1 && !r[num - base].accept
      invariant Parents(r) == ps && Items(r) == Items(ns)
      invariant 0 <= cur < |r| && r[cur].accept && num == ps[cur]
      invariant AncestorOrSelf(ps, base, cur, d) && base + d in matches
      invariant Kept(r, base, matches) && Sourced(r, ps, base, matches)
      invariant ClosedBut(r, base, matches[..t], cur)
      decreases num + 1
    {
      var q := num - base;
      assert base <= ps[cur] < base + cur;
      PromoteStep(r, ps, base, matches, matches[..t], cur, d, q);
      r := r[q := r[q].(accept := true)];
      assert Items(r) == Items(ns);
      cur := q;
      num := r[q].parent;
      assert Parents(r)[q] == num;
    }
    assert Parents(r)[cur] == r[cur].parent;
    assert ParentAccepted(r, base, cur);
  }
}
