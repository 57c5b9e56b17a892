/**
 * What the queries of `TreeNode` compute on a well-formed arena: the
 * preorder listing is exactly the subtree, once each node; the visible
 * listing is the part not hidden under a collapsed node; search finds the
 * first match in preorder; levels count parent links.
 */
module TreeFacts {
  import opened Wrappers
  import opened TreeNode

  // ---------------------------------------------------------------------
  // Parent chains
  // ---------------------------------------------------------------------

  lemma {:induction false} DescendsDepth<T>(m: Nodes<T>, depth: map<Ref, nat>, x: Ref, a: Ref)
    requires Leveled(m, depth) && x in m && Descends(m, depth, x, a)
    ensures a in m && depth[a] <= depth[x]
    ensures x != a ==> depth[a] < depth[x]
    decreases depth[x]
  {
    if x != a {
      DescendsDepth(m, depth, m[x].parent.value, a);
    }
  }

  lemma {:induction false} DescendsTrans<T>(m: Nodes<T>, depth: map<Ref, nat>, x: Ref, y: Ref, a: Ref)
    requires Leveled(m, depth) && x in m && y in m
    requires Descends(m, depth, x, y) && Descends(m, depth, y, a)
    ensures Descends(m, depth, x, a)
    decreases depth[x]
  {
    if x != y {
      DescendsTrans(m, depth, m[x].parent.value, y, a);
    }
  }

  /** The ancestors of a node form a chain. */
  lemma {:induction false} DescendsChain<T>(m: Nodes<T>, depth: map<Ref, nat>, x: Ref, a: Ref, b: Ref)
    requires Leveled(m, depth) && x in m
    requires Descends(m, depth, x, a) && Descends(m, depth, x, b)
    ensures a in m && b in m
    ensures Descends(m, depth, a, b) || Descends(m, depth, b, a)
    decreases depth[x]
  {
    DescendsDepth(m, depth, x, a);
    DescendsDepth(m, depth, x, b);
    if x != a && x != b {
      DescendsChain(m, depth, m[x].parent.value, a, b);
    }
  }

  /** Two distinct children of one node have disjoint subtrees. */
  lemma SiblingSubtreesDisjoint<T>(m: Nodes<T>, depth: map<Ref, nat>, p: Ref, c: Ref, d: Ref, x: Ref)
    requires Leveled(m, depth) && Linked(m) && p in m
    requires c in m[p].children && d in m[p].children && c != d && x in m
    ensures !(Descends(m, depth, x, c) && Descends(m, depth, x, d))
  {
    if Descends(m, depth, x, c) && Descends(m, depth, x, d) {
      DescendsChain(m, depth, x, c, d);
      if Descends(m, depth, c, d) {
        DescendsDepth(m, depth, p, d);
      } else {
        DescendsDepth(m, depth, p, c);
      }
    }
  }

  /** A node strictly below `n` lies below one of `n`'s children. */
  lemma {:induction false} ChildOnPath<T>(m: Nodes<T>, depth: map<Ref, nat>, x: Ref, n: Ref) returns (c: Ref)
    requires Leveled(m, depth) && Linked(m) && x in m && n in m
    requires Descends(m, depth, x, n) && x != n
    ensures c in m[n].children && c in m && Descends(m, depth, x, c)
    decreases depth[x]
  {
    var p := m[x].parent.value;
    if p == n {
      c := x;
    } else {
      c := ChildOnPath(m, depth, p, n);
    }
  }

  // ---------------------------------------------------------------------
  // The full preorder listing
  // ---------------------------------------------------------------------

  lemma {:induction false} ForestMembers<T>(m: Nodes<T>, rank: map<Ref, nat>, cs: seq<Ref>, above: nat, x: Ref)
    requires Ranked(m, rank) && forall c | c in cs :: c in m && rank[c] < above
    ensures x in PreorderAll(m, rank, cs, above) <==> exists i | 0 <= i < |cs| :: x in Preorder(m, rank, cs[i])
  {
    if cs != [] {
      ForestMembers(m, rank, cs[1..], above, x);
      if x in PreorderAll(m, rank, cs[1..], above) {
        var i :| 0 <= i < |cs[1..]| && x in Preorder(m, rank, cs[1..][i]);
        assert x in Preorder(m, rank, cs[i + 1]);
      }
      if exists i | 0 <= i < |cs| :: x in Preorder(m, rank, cs[i]) {
        var i :| 0 <= i < |cs| && x in Preorder(m, rank, cs[i]);
        if i > 0 {
          assert x in Preorder(m, rank, cs[1..][i - 1]);
        }
      }
    }
  }

  /** `arrayTreeNode()` lists exactly the nodes of the subtree. */
  lemma {:induction false} PreorderMembers<T>(m: Nodes<T>, rank: map<Ref, nat>, depth: map<Ref, nat>, n: Ref)
    requires Wf(m, rank, depth) && n in m
    ensures forall x :: x in Preorder(m, rank, n) <==> x in m && Descends(m, depth, x, n)
    decreases rank[n]
  {
    var cs := m[n].children;
    forall x
      ensures x in Preorder(m, rank, n) <==> x in m && Descends(m, depth, x, n)
    {
      if x in Preorder(m, rank, n) && x != n {
        ForestMembers(m, rank, cs, rank[n], x);
        var i :| 0 <= i < |cs| && x in Preorder(m, rank, cs[i]);
        PreorderMembers(m, rank, depth, cs[i]);
        assert Descends(m, depth, cs[i], n);
        DescendsTrans(m, depth, x, cs[i], n);
      }
      if x in m && Descends(m, depth, x, n) && x != n {
        var c := ChildOnPath(m, depth, x, n);
        PreorderMembers(m, rank, depth, c);
        var i :| 0 <= i < |cs| && cs[i] == c;
        ForestMembers(m, rank, cs, rank[n], x);
      }
    }
  }

  lemma NoDupConcat<X>(a: seq<X>, b: seq<X>)
    requires NoDup(a) && NoDup(b) && forall x | x in a :: x !in b
    ensures NoDup(a + b)
  {
    forall i, j | 0 <= i < j < |a + b|
      ensures (a + b)[i] != (a + b)[j]
    {
      if j < |a| {
      } else if i >= |a| {
        assert (a + b)[i] == b[i - |a|] && (a + b)[j] == b[j - |a|];
      } else {
        assert (a + b)[i] in a && (a + b)[j] in b;
      }
    }
  }

  /** No node appears twice in `arrayTreeNode()`. */
  lemma {:induction false} PreorderNoDup<T>(m: Nodes<T>, rank: map<Ref, nat>, depth: map<Ref, nat>, n: Ref)
    requires Wf(m, rank, depth) && n in m
    ensures NoDup(Preorder(m, rank, n))
    decreases rank[n], 1, 0
  {
    var cs := m[n].children;
    ForestNoDup(m, rank, depth, n, cs, rank[n]);
    RootNotInForest(m, rank, depth, n);
    NoDupConcat([n], PreorderAll(m, rank, cs, rank[n]));
  }

  /** A node is not listed among the listings of its own children. */
  lemma RootNotInForest<T>(m: Nodes<T>, rank: map<Ref, nat>, depth: map<Ref, nat>, n: Ref)
    requires Wf(m, rank, depth) && n in m
    ensures forall x | x in [n] :: x !in PreorderAll(m, rank, m[n].children, rank[n])
  {
    var cs := m[n].children;
    if n in PreorderAll(m, rank, cs, rank[n]) {
      ForestMembers(m, rank, cs, rank[n], n);
      var i :| 0 <= i < |cs| && n in Preorder(m, rank, cs[i]);
      PreorderMembers(m, rank, depth, cs[i]);
      DescendsDepth(m, depth, n, cs[i]);
    }
  }

  lemma {:induction false} ForestNoDup<T>(m: Nodes<T>, rank: map<Ref, nat>, depth: map<Ref, nat>, p: Ref, cs: seq<Ref>, above: nat)
    requires Wf(m, rank, depth) && p in m
    requires NoDup(cs) && forall c | c in cs :: c in m[p].children && c in m && rank[c] < above
    ensures NoDup(PreorderAll(m, rank, cs, above))
    decreases above, 0, |cs|
  {
    if cs != [] {
      var tail := cs[1..];
      assert NoDup(tail) by {
        forall i, j | 0 <= i < j < |tail| ensures tail[i] != tail[j] {
          assert tail[i] == cs[i + 1] && tail[j] == cs[j + 1];
        }
      }
      PreorderNoDup(m, rank, depth, cs[0]);
      ForestNoDup(m, rank, depth, p, tail, above);
      forall x | x in Preorder(m, rank, cs[0])
        ensures x !in PreorderAll(m, rank, tail, above)
      {
        if x in PreorderAll(m, rank, tail, above) {
          ForestMembers(m, rank, tail, above, x);
          var i :| 0 <= i < |tail| && x in Preorder(m, rank, tail[i]);
          PreorderMembers(m, rank, depth, cs[0]);
          PreorderMembers(m, rank, depth, tail[i]);
          assert tail[i] == cs[i + 1];
          SiblingSubtreesDisjoint(m, depth, p, cs[0], tail[i], x);
        }
      }
      NoDupConcat(Preorder(m, rank, cs[0]), PreorderAll(m, rank, tail, above));
    }
  }

  ghost function Elems<X>(s: seq<X>): set<X> {
    set x | x in s
  }

  lemma {:induction false} NoDupCard<X>(s: seq<X>)
    requires NoDup(s)
    ensures |Elems(s)| == |s|
  {
    if s != [] {
      var tail := s[1..];
      assert NoDup(tail) by {
        forall i, j | 0 <= i < j < |tail| ensures tail[i] != tail[j] {
          assert tail[i] == s[i + 1] && tail[j] == s[j + 1];
        }
      }
      NoDupCard(tail);
      assert Elems(s) == {s[0]} + Elems(tail);
      assert s[0] !in tail;
    }
  }

  /** The length of `arrayTreeNode()` is the number of nodes in the subtree. */
  lemma PreorderSize<T>(m: Nodes<T>, rank: map<Ref, nat>, depth: map<Ref, nat>, n: Ref)
    requires Wf(m, rank, depth) && n in m
    ensures |Preorder(m, rank, n)| == |Subtree(m, depth, n)|
  {
    PreorderMembers(m, rank, depth, n);
    PreorderNoDup(m, rank, depth, n);
    var all := Preorder(m, rank, n);
    NoDupCard(all);
    var listed := Elems(all);
    assert listed == Subtree(m, depth, n) by {
      forall x ensures x in listed <==> x in Subtree(m, depth, n) {
      }
    }
  }

  // ---------------------------------------------------------------------
  // The visible listing
  // ---------------------------------------------------------------------

  /** `x` is shown below `n`: walking up from `x` to `n`, no node above `x` is collapsed. */
  ghost predicate ShownUnder<T>(m: Nodes<T>, depth: map<Ref, nat>, x: Ref, n: Ref)
    requires Leveled(m, depth) && x in m
    decreases depth[x]
  {
    x == n ||
    (m[x].parent.Some? && !m[m[x].parent.value].hidden && ShownUnder(m, depth, m[x].parent.value, n))
  }

  lemma {:induction false} ShownUnderTrans<T>(m: Nodes<T>, depth: map<Ref, nat>, x: Ref, y: Ref, n: Ref)
    requires Leveled(m, depth) && x in m && y in m
    requires ShownUnder(m, depth, x, y) && ShownUnder(m, depth, y, n)
    ensures ShownUnder(m, depth, x, n)
    decreases depth[x]
  {
    if x != y {
      ShownUnderTrans(m, depth, m[x].parent.value, y, n);
    }
  }

  lemma {:induction false} ShownUnderDescends<T>(m: Nodes<T>, depth: map<Ref, nat>, x: Ref, n: Ref)
    requires Leveled(m, depth) && x in m && ShownUnder(m, depth, x, n)
    ensures Descends(m, depth, x, n)
    decreases depth[x]
  {
    if x != n {
      ShownUnderDescends(m, depth, m[x].parent.value, n);
    }
  }

  lemma {:induction false} VisibleAllMembers<T>(m: Nodes<T>, rank: map<Ref, nat>, cs: seq<Ref>, above: nat, x: Ref)
    requires Ranked(m, rank) && forall c | c in cs :: c in m && rank[c] < above
    ensures x in VisibleAll(m, rank, cs, above) <==> exists i | 0 <= i < |cs| :: x in Visible(m, rank, cs[i])
  {
    if cs != [] {
      VisibleAllMembers(m, rank, cs[1..], above, x);
      if x in VisibleAll(m, rank, cs[1..], above) {
        var i :| 0 <= i < |cs[1..]| && x in Visible(m, rank, cs[1..][i]);
        assert x in Visible(m, rank, cs[i + 1]);
      }
      if exists i | 0 <= i < |cs| :: x in Visible(m, rank, cs[i]) {
        var i :| 0 <= i < |cs| && x in Visible(m, rank, cs[i]);
        if i > 0 {
          assert x in Visible(m, rank, cs[1..][i - 1]);
        }
      }
    }
  }

  /** The visible listing of a visible node is part of the visible listing. */
  lemma {:induction false} VisibleNested<T>(m: Nodes<T>, rank: map<Ref, nat>, n: Ref, p: Ref)
    requires Ranked(m, rank) && n in m && p in Visible(m, rank, n)
    ensures forall x | x in Visible(m, rank, p) :: x in Visible(m, rank, n)
    decreases rank[n]
  {
    if p != n {
      var cs := m[n].children;
      VisibleAllMembers(m, rank, cs, rank[n], p);
      var i :| 0 <= i < |cs| && p in Visible(m, rank, cs[i]);
      VisibleNested(m, rank, cs[i], p);
      forall x | x in Visible(m, rank, cs[i])
        ensures x in Visible(m, rank, n)
      {
        VisibleAllMembers(m, rank, cs, rank[n], x);
      }
    }
  }

  lemma {:induction false} VisibleIsShown<T>(m: Nodes<T>, rank: map<Ref, nat>, depth: map<Ref, nat>, n: Ref, x: Ref)
    requires Wf(m, rank, depth) && n in m && x in Visible(m, rank, n)
    ensures ShownUnder(m, depth, x, n)
    decreases rank[n]
  {
    if x != n {
      var cs := m[n].children;
      VisibleAllMembers(m, rank, cs, rank[n], x);
      var i :| 0 <= i < |cs| && x in Visible(m, rank, cs[i]);
      VisibleIsShown(m, rank, depth, cs[i], x);
      assert ShownUnder(m, depth, cs[i], n);
      ShownUnderTrans(m, depth, x, cs[i], n);
    }
  }

  lemma {:induction false} ShownIsVisible<T>(m: Nodes<T>, rank: map<Ref, nat>, depth: map<Ref, nat>, n: Ref, x: Ref)
    requires Wf(m, rank, depth) && n in m && x in m && ShownUnder(m, depth, x, n)
    ensures x in Visible(m, rank, n)
    decreases depth[x]
  {
    if x != n {
      var p := m[x].parent.value;
      ShownIsVisible(m, rank, depth, n, p);
      VisibleNested(m, rank, n, p);
      var cs := m[p].children;
      var i :| 0 <= i < |cs| && cs[i] == x;
      VisibleAllMembers(m, rank, cs, rank[p], x);
    }
  }

  /**
   * `arrayTreeNodeWithoutHiddenChildren()` lists exactly the nodes of the
   * subtree that no collapsed node between them and the receiver hides.
   */
  lemma VisibleMembers<T>(m: Nodes<T>, rank: map<Ref, nat>, depth: map<Ref, nat>, n: Ref)
    requires Wf(m, rank, depth) && n in m
    ensures forall x :: x in Visible(m, rank, n) <==> x in m && ShownUnder(m, depth, x, n)
  {
    forall x
      ensures x in Visible(m, rank, n) <==> x in m && ShownUnder(m, depth, x, n)
    {
      if x in Visible(m, rank, n) {
        VisibleIsShown(m, rank, depth, n, x);
      }
      if x in m && ShownUnder(m, depth, x, n) {
        ShownIsVisible(m, rank, depth, n, x);
      }
    }
  }

  lemma {:induction false} ShownBelowIsOpen<T>(m: Nodes<T>, depth: map<Ref, nat>, n: Ref, h: Ref, x: Ref)
    requires Leveled(m, depth) && x in m && h in m
    requires ShownUnder(m, depth, x, n) && Descends(m, depth, x, h) && Descends(m, depth, h, n) && x != h
    ensures !m[h].hidden
    decreases depth[x]
  {
    if x == n {
      DescendsDepth(m, depth, x, h);
      DescendsDepth(m, depth, h, n);
    } else {
      var p := m[x].parent.value;
      if p != h {
        ShownBelowIsOpen(m, depth, n, h, p);
      }
    }
  }

  /**
   * A collapsed node of the receiver's subtree hides all of its own
   * descendants from `arrayTreeNodeWithoutHiddenChildren()`.
   */
  lemma HiddenHidesDescendants<T>(m: Nodes<T>, rank: map<Ref, nat>, depth: map<Ref, nat>, n: Ref, h: Ref)
    requires Wf(m, rank, depth) && n in m && h in m && Descends(m, depth, h, n) && m[h].hidden
    ensures forall x | x in m && x != h && Descends(m, depth, x, h) :: x !in Visible(m, rank, n)
    ensures h in Visible(m, rank, n) <==> ShownUnder(m, depth, h, n)
  {
    VisibleMembers(m, rank, depth, n);
    forall x | x in m && x != h && Descends(m, depth, x, h)
      ensures x !in Visible(m, rank, n)
    {
      if x in Visible(m, rank, n) {
        ShownBelowIsOpen(m, depth, n, h, x);
      }
    }
  }

  lemma {:induction false} SubseqConcat<X>(a1: seq<X>, b1: seq<X>, a2: seq<X>, b2: seq<X>)
    requires IsSubseq(a1, b1) && IsSubseq(a2, b2)
    ensures IsSubseq(a1 + a2, b1 + b2)
    decreases |b1|
  {
    if b1 == [] {
      assert a1 == [];
      assert a1 + a2 == a2 && b1 + b2 == b2;
    } else if a1 != [] && a1[0] == b1[0] && IsSubseq(a1[1..], b1[1..]) {
      SubseqConcat(a1[1..], b1[1..], a2, b2);
      assert (a1 + a2)[1..] == a1[1..] + a2 && (b1 + b2)[1..] == b1[1..] + b2;
    } else {
      SubseqConcat(a1, b1[1..], a2, b2);
      assert (b1 + b2)[1..] == b1[1..] + b2;
    }
  }

  /** The visible listing keeps the order of the full listing. */
  lemma {:induction false} VisibleIsSubseq<T>(m: Nodes<T>, rank: map<Ref, nat>, n: Ref)
    requires Ranked(m, rank) && n in m
    ensures IsSubseq(Visible(m, rank, n), Preorder(m, rank, n))
    decreases rank[n], 1, 0
  {
    var cs := m[n].children;
    var rest := PreorderAll(m, rank, cs, rank[n]);
    if m[n].hidden {
      assert IsSubseq([n], [n] + rest) by {
        assert ([n] + rest)[1..] == rest;
      }
    } else {
      VisibleAllIsSubseq(m, rank, cs, rank[n]);
      assert IsSubseq([n] + VisibleAll(m, rank, cs, rank[n]), [n] + rest) by {
        assert ([n] + rest)[1..] == rest;
        assert ([n] + VisibleAll(m, rank, cs, rank[n]))[1..] == VisibleAll(m, rank, cs, rank[n]);
      }
    }
  }

  lemma {:induction false} VisibleAllIsSubseq<T>(m: Nodes<T>, rank: map<Ref, nat>, cs: seq<Ref>, above: nat)
    requires Ranked(m, rank) && forall c | c in cs :: c in m && rank[c] < above
    ensures IsSubseq(VisibleAll(m, rank, cs, above), PreorderAll(m, rank, cs, above))
    decreases above, 0, |cs|
  {
    if cs != [] {
      VisibleIsSubseq(m, rank, cs[0]);
      VisibleAllIsSubseq(m, rank, cs[1..], above);
      SubseqConcat(Visible(m, rank, cs[0]), Preorder(m, rank, cs[0]),
                   VisibleAll(m, rank, cs[1..], above), PreorderAll(m, rank, cs[1..], above));
    }
  }

  /** With no collapsed node in the subtree both listings coincide. */
  lemma {:induction false} NothingHiddenShowsAll<T>(m: Nodes<T>, rank: map<Ref, nat>, n: Ref)
    requires Ranked(m, rank) && n in m
    requires forall x | x in Preorder(m, rank, n) :: !m[x].hidden
    ensures Visible(m, rank, n) == Preorder(m, rank, n)
    decreases rank[n], 1, 0
  {
    NothingHiddenShowsAllOf(m, rank, m[n].children, rank[n]);
  }

  lemma {:induction false} NothingHiddenShowsAllOf<T>(m: Nodes<T>, rank: map<Ref, nat>, cs: seq<Ref>, above: nat)
    requires Ranked(m, rank) && forall c | c in cs :: c in m && rank[c] < above
    requires forall x | x in PreorderAll(m, rank, cs, above) :: !m[x].hidden
    ensures VisibleAll(m, rank, cs, above) == PreorderAll(m, rank, cs, above)
    decreases above, 0, |cs|
  {
    if cs != [] {
      NothingHiddenShowsAll(m, rank, cs[0]);
      NothingHiddenShowsAllOf(m, rank, cs[1..], above);
    }
  }

  // ---------------------------------------------------------------------
  // Search
  // ---------------------------------------------------------------------

  /** The element of `xs` at an optional position. */
  function At(xs: seq<Ref>, k: Option<nat>): Option<Ref>
    requires k.Some? ==> k.value < |xs|
  {
    if k.Some? then Some(xs[k.value]) else None
  }

  /** A first position in `a + b` is one in `a`, or else one in `b` shifted past `a`. */
  lemma {:induction false} FirstIndexWithIdAppend<T>(m: Nodes<T>, a: seq<Ref>, b: seq<Ref>, id: Id)
    requires forall x | x in a :: x in m
    requires forall x | x in b :: x in m
    ensures FirstIndexWithId(m, a, id).Some? ==> FirstIndexWithId(m, a + b, id) == FirstIndexWithId(m, a, id)
    ensures FirstIndexWithId(m, a, id).None? && FirstIndexWithId(m, b, id).Some? ==> FirstIndexWithId(m, a + b, id) == Some(|a| + FirstIndexWithId(m, b, id).value)
    ensures FirstIndexWithId(m, a, id).None? && FirstIndexWithId(m, b, id).None? ==> FirstIndexWithId(m, a + b, id).None?
  {
    if a == [] {
      assert a + b == b;
    } else {
      assert (a + b)[0] == a[0] && (a + b)[1..] == a[1..] + b;
      if m[a[0]].id != id {
        FirstIndexWithIdAppend(m, a[1..], b, id);
      }
    }
  }

  lemma {:induction false} FirstIndexWithIdConcat<T>(m: Nodes<T>, a: seq<Ref>, b: seq<Ref>, id: Id)
    requires forall x | x in a :: x in m
    requires forall x | x in b :: x in m
    ensures At(a + b, FirstIndexWithId(m, a + b, id)) ==
            if FirstIndexWithId(m, a, id).Some? then At(a, FirstIndexWithId(m, a, id))
            else At(b, FirstIndexWithId(m, b, id))
  {
    var ka, kb := FirstIndexWithId(m, a, id), FirstIndexWithId(m, b, id);
    FirstIndexWithIdAppend(m, a, b, id);
    if ka.Some? {
      assert (a + b)[ka.value] == a[ka.value];
    } else if kb.Some? {
      assert (a + b)[|a| + kb.value] == b[kb.value];
    }
  }

  /**
   * `search(id:)` returns the first node of `arrayTreeNode()` that carries
   * the id, and nil exactly when no node of the listing carries it.
   */
  lemma {:induction false} SearchFindsFirst<T>(m: Nodes<T>, rank: map<Ref, nat>, n: Ref, id: Id)
    requires Ranked(m, rank) && n in m
    ensures Search(m, rank, n, id) == At(Preorder(m, rank, n), FirstIndexWithId(m, Preorder(m, rank, n), id))
    decreases rank[n], 1, 0
  {
    var cs := m[n].children;
    var rest := PreorderAll(m, rank, cs, rank[n]);
    SearchAllFindsFirst(m, rank, cs, id, rank[n]);
    FirstIndexWithIdConcat(m, [n], rest, id);
    assert [n] + rest == Preorder(m, rank, n);
  }

  lemma {:induction false} SearchAllFindsFirst<T>(m: Nodes<T>, rank: map<Ref, nat>, cs: seq<Ref>, id: Id, above: nat)
    requires Ranked(m, rank) && forall c | c in cs :: c in m && rank[c] < above
    ensures SearchAll(m, rank, cs, id, above) ==
            At(PreorderAll(m, rank, cs, above), FirstIndexWithId(m, PreorderAll(m, rank, cs, above), id))
    decreases above, 0, |cs|
  {
    if cs != [] {
      SearchFindsFirst(m, rank, cs[0], id);
      SearchAllFindsFirst(m, rank, cs[1..], id, above);
      FirstIndexWithIdConcat(m, Preorder(m, rank, cs[0]), PreorderAll(m, rank, cs[1..], above), id);
    }
  }

  /** A first position in `a + b` is one in `a`, or else one in `b` shifted past `a`. */
  lemma {:induction false} FirstIndexWithValueAppend<T>(m: Nodes<T>, a: seq<Ref>, b: seq<Ref>, v: T)
    requires forall x | x in a :: x in m
    requires forall x | x in b :: x in m
    ensures FirstIndexWithValue(m, a, v).Some? ==> FirstIndexWithValue(m, a + b, v) == FirstIndexWithValue(m, a, v)
    ensures FirstIndexWithValue(m, a, v).None? && FirstIndexWithValue(m, b, v).Some? ==> FirstIndexWithValue(m, a + b, v) == Some(|a| + FirstIndexWithValue(m, b, v).value)
    ensures FirstIndexWithValue(m, a, v).None? && FirstIndexWithValue(m, b, v).None? ==> FirstIndexWithValue(m, a + b, v).None?
  {
    if a == [] {
      assert a + b == b;
    } else {
      assert (a + b)[0] == a[0] && (a + b)[1..] == a[1..] + b;
      if m[a[0]].value != v {
        FirstIndexWithValueAppend(m, a[1..], b, v);
      }
    }
  }

  lemma {:induction false} FirstIndexWithValueConcat<T>(m: Nodes<T>, a: seq<Ref>, b: seq<Ref>, v: T)
    requires forall x | x in a :: x in m
    requires forall x | x in b :: x in m
    ensures At(a + b, FirstIndexWithValue(m, a + b, v)) ==
            if FirstIndexWithValue(m, a, v).Some? then At(a, FirstIndexWithValue(m, a, v))
            else At(b, FirstIndexWithValue(m, b, v))
  {
    var ka, kb := FirstIndexWithValue(m, a, v), FirstIndexWithValue(m, b, v);
    FirstIndexWithValueAppend(m, a, b, v);
    if ka.Some? {
      assert (a + b)[ka.value] == a[ka.value];
    } else if kb.Some? {
      assert (a + b)[|a| + kb.value] == b[kb.value];
    }
  }

  /** `search(value:)` returns the first node of `arrayTreeNode()` holding the value, nil if none does. */
  lemma {:induction false} SearchValueFindsFirst<T>(m: Nodes<T>, rank: map<Ref, nat>, n: Ref, v: T)
    requires Ranked(m, rank) && n in m
    ensures SearchValue(m, rank, n, v) == At(Preorder(m, rank, n), FirstIndexWithValue(m, Preorder(m, rank, n), v))
    decreases rank[n], 1, 0
  {
    var cs := m[n].children;
    var rest := PreorderAll(m, rank, cs, rank[n]);
    SearchValueAllFindsFirst(m, rank, cs, v, rank[n]);
    FirstIndexWithValueConcat(m, [n], rest, v);
    assert [n] + rest == Preorder(m, rank, n);
  }

  lemma {:induction false} SearchValueAllFindsFirst<T>(m: Nodes<T>, rank: map<Ref, nat>, cs: seq<Ref>, v: T, above: nat)
    requires Ranked(m, rank) && forall c | c in cs :: c in m && rank[c] < above
    ensures SearchValueAll(m, rank, cs, v, above) ==
            At(PreorderAll(m, rank, cs, above), FirstIndexWithValue(m, PreorderAll(m, rank, cs, above), v))
    decreases above, 0, |cs|
  {
    if cs != [] {
      SearchValueFindsFirst(m, rank, cs[0], v);
      SearchValueAllFindsFirst(m, rank, cs[1..], v, above);
      FirstIndexWithValueConcat(m, Preorder(m, rank, cs[0]), PreorderAll(m, rank, cs[1..], above), v);
    }
  }

  /** With unique ids, `search(id:)` finds a node of the subtree exactly when it carries the id. */
  lemma SearchUniqueId<T>(m: Nodes<T>, rank: map<Ref, nat>, depth: map<Ref, nat>, n: Ref, x: Ref)
    requires Wf(m, rank, depth) && UniqueIds(m) && n in m && x in m
    ensures Search(m, rank, n, m[x].id) == if Descends(m, depth, x, n) then Some(x) else None
  {
    SearchFindsFirst(m, rank, n, m[x].id);
    PreorderMembers(m, rank, depth, n);
    var all := Preorder(m, rank, n);
    var k := FirstIndexWithId(m, all, m[x].id);
    if Descends(m, depth, x, n) {
      var i :| 0 <= i < |all| && all[i] == x;
    }
  }

  /**
   * `search(id:)` returns a node of the subtree, and returns nil exactly
   * when no node of the subtree carries the id.
   */
  lemma SearchInSubtree<T>(m: Nodes<T>, rank: map<Ref, nat>, depth: map<Ref, nat>, n: Ref, id: Id)
    requires Wf(m, rank, depth) && n in m
    ensures Search(m, rank, n, id).Some? ==> Descends(m, depth, Search(m, rank, n, id).value, n)
    ensures Search(m, rank, n, id).None? <==> forall x | x in m && Descends(m, depth, x, n) :: m[x].id != id
  {
    SearchFindsFirst(m, rank, n, id);
    PreorderMembers(m, rank, depth, n);
    var all := Preorder(m, rank, n);
    var k := FirstIndexWithId(m, all, id);
    if k.None? {
      forall x | x in m && Descends(m, depth, x, n) ensures m[x].id != id {
        var i :| 0 <= i < |all| && all[i] == x;
      }
    } else {
      assert all[k.value] in m && Descends(m, depth, all[k.value], n);
    }
  }

  // ---------------------------------------------------------------------
  // Levels
  // ---------------------------------------------------------------------

  /** A child's level is one more than its parent's. */
  lemma ChildLevel<T>(m: Nodes<T>, depth: map<Ref, nat>, n: Ref, c: Ref)
    requires Leveled(m, depth) && Linked(m) && n in m && c in m[n].children
    ensures c in m && Level(m, depth, c) == Level(m, depth, n) + 1
  {
  }

  /** `level` is 0 exactly for a node without parent, and the walk up takes at most `depth[n]` steps. */
  lemma {:induction false} LevelBounds<T>(m: Nodes<T>, depth: map<Ref, nat>, n: Ref)
    requires Leveled(m, depth) && n in m
    ensures Level(m, depth, n) == 0 <==> m[n].parent.None?
    ensures Level(m, depth, n) <= depth[n]
    decreases depth[n]
  {
    if m[n].parent.Some? {
      LevelBounds(m, depth, m[n].parent.value);
    }
  }

  /** Every node of a subtree is at least as deep as its root, and deeper unless it is the root. */
  lemma {:induction false} LevelBelow<T>(m: Nodes<T>, depth: map<Ref, nat>, x: Ref, n: Ref)
    requires Leveled(m, depth) && x in m && Descends(m, depth, x, n)
    ensures n in m && Level(m, depth, n) <= Level(m, depth, x)
    ensures x != n ==> Level(m, depth, n) < Level(m, depth, x)
    decreases depth[x]
  {
    if x != n {
      LevelBelow(m, depth, m[x].parent.value, n);
    }
  }

  lemma {:induction false} WithLevelConcat<T>(m: Nodes<T>, depth: map<Ref, nat>, a: seq<Ref>, b: seq<Ref>, k: int)
    requires Leveled(m, depth)
    requires forall x | x in a :: x in m
    requires forall x | x in b :: x in m
    ensures WithLevel(m, depth, a + b, k) == WithLevel(m, depth, a, k) + WithLevel(m, depth, b, k)
  {
    if a == [] {
      assert a + b == b;
    } else {
      assert (a + b)[0] == a[0] && (a + b)[1..] == a[1..] + b;
      WithLevelConcat(m, depth, a[1..], b, k);
      if Level(m, depth, a[0]) == k {
        SeqAssoc([a[0]], WithLevel(m, depth, a[1..], k), WithLevel(m, depth, b, k));
      }
    }
  }

  /** The filter keeps each element at the level as often as it occurs, and no other element. */
  lemma {:induction false} WithLevelCount<T>(m: Nodes<T>, depth: map<Ref, nat>, xs: seq<Ref>, k: int, x: Ref)
    requires Leveled(m, depth) && (forall y | y in xs :: y in m) && x in m
    ensures multiset(WithLevel(m, depth, xs, k))[x] == if Level(m, depth, x) == k then multiset(xs)[x] else 0
  {
    if xs != [] {
      WithLevelCount(m, depth, xs[1..], k, x);
      assert xs == [xs[0]] + xs[1..];
    }
  }

  lemma SeqAssoc<X>(a: seq<X>, b: seq<X>, c: seq<X>)
    ensures a + (b + c) == (a + b) + c
  {
  }

  lemma WithLevelNone<T>(m: Nodes<T>, depth: map<Ref, nat>, xs: seq<Ref>, k: int)
    requires Leveled(m, depth)
    requires forall x | x in xs :: x in m && Level(m, depth, x) != k
    ensures WithLevel(m, depth, xs, k) == []
  {
  }

  /** `allchildrenInLevel(level + 1)` are exactly the node's children, in their order. */
  lemma NextLevelIsChildren<T>(m: Nodes<T>, rank: map<Ref, nat>, depth: map<Ref, nat>, n: Ref)
    requires Wf(m, rank, depth) && n in m
    ensures AllChildrenInLevel(m, rank, depth, n, Level(m, depth, n) + 1) == m[n].children
  {
    ListingNextLevel(m, rank, depth, n);
  }

  /** The listing of `n` filtered to the level below `n` is the children of `n`. */
  lemma ListingNextLevel<T>(m: Nodes<T>, rank: map<Ref, nat>, depth: map<Ref, nat>, n: Ref)
    requires Wf(m, rank, depth) && n in m
    ensures WithLevel(m, depth, Preorder(m, rank, n), Level(m, depth, n) + 1) == m[n].children
  {
    var k := Level(m, depth, n) + 1;
    var cs := m[n].children;
    WithLevelConcat(m, depth, [n], PreorderAll(m, rank, cs, rank[n]), k);
    assert [n] + PreorderAll(m, rank, cs, rank[n]) == Preorder(m, rank, n);
    WithLevelNone(m, depth, [n], k);
    ChildrenAtLevel(m, rank, depth, n, cs, rank[n]);
  }

  lemma {:induction false} ChildrenAtLevel<T>(m: Nodes<T>, rank: map<Ref, nat>, depth: map<Ref, nat>, n: Ref, cs: seq<Ref>, above: nat)
    requires Wf(m, rank, depth) && n in m
    requires forall c | c in cs :: c in m[n].children && c in m && rank[c] < above
    ensures WithLevel(m, depth, PreorderAll(m, rank, cs, above), Level(m, depth, n) + 1) == cs
  {
    var k := Level(m, depth, n) + 1;
    if cs != [] {
      var c := cs[0];
      ChildAtLevel(m, rank, depth, n, c);
      assert PreorderAll(m, rank, cs, above) == Preorder(m, rank, c) + PreorderAll(m, rank, cs[1..], above);
      WithLevelConcat(m, depth, Preorder(m, rank, c), PreorderAll(m, rank, cs[1..], above), k);
      ChildrenAtLevel(m, rank, depth, n, cs[1..], above);
    }
  }

  /** Of the listing of a child of `n`, only the child itself is one level below `n`. */
  lemma ChildAtLevel<T>(m: Nodes<T>, rank: map<Ref, nat>, depth: map<Ref, nat>, n: Ref, c: Ref)
    requires Wf(m, rank, depth) && n in m && c in m[n].children
    ensures WithLevel(m, depth, Preorder(m, rank, c), Level(m, depth, n) + 1) == [c]
  {
    var k := Level(m, depth, n) + 1;
    var below := PreorderAll(m, rank, m[c].children, rank[c]);
    BelowChildrenDeeper(m, rank, depth, n, c);
    WithLevelNone(m, depth, below, k);
    WithLevelConcat(m, depth, [c], below, k);
    assert [c] + below == Preorder(m, rank, c);
    ChildLevel(m, depth, n, c);
  }

  /** No node listed below a child `c` of `n` is one level below `n`. */
  lemma BelowChildrenDeeper<T>(m: Nodes<T>, rank: map<Ref, nat>, depth: map<Ref, nat>, n: Ref, c: Ref)
    requires Wf(m, rank, depth) && n in m && c in m[n].children
    ensures forall x | x in PreorderAll(m, rank, m[c].children, rank[c]) :: x in m && Level(m, depth, x) != Level(m, depth, n) + 1
  {
    forall x | x in PreorderAll(m, rank, m[c].children, rank[c])
      ensures x in m && Level(m, depth, x) != Level(m, depth, n) + 1
    {
      BelowChildDeeper(m, rank, depth, n, c, x);
    }
  }

  /** A node listed below a child `c` of `n` is at least two levels below `n`. */
  lemma BelowChildDeeper<T>(m: Nodes<T>, rank: map<Ref, nat>, depth: map<Ref, nat>, n: Ref, c: Ref, x: Ref)
    requires Wf(m, rank, depth) && n in m && c in m[n].children
    requires x in PreorderAll(m, rank, m[c].children, rank[c])
    ensures x in m && Level(m, depth, x) != Level(m, depth, n) + 1
  {
    ForestMembers(m, rank, m[c].children, rank[c], x);
    var i :| 0 <= i < |m[c].children| && x in Preorder(m, rank, m[c].children[i]);
    var d := m[c].children[i];
    PreorderMembers(m, rank, depth, d);
    LevelBelow(m, depth, x, d);
    ChildLevel(m, depth, n, c);
    ChildLevel(m, depth, c, d);
  }
}
