/**
 * The extensions of `TreeNode<TaskModel>`: the completion flags that
 * cascade down to descendants or are recomputed up the parent links, as
 * methods that update the node objects of an arena; and the builders that
 * turn task records into node objects.
 */
module TaskTree {
  import opened Wrappers
  import opened TreeNode
  import opened TreeFacts
  import opened TreeEdit
  import opened TreeArena
  import opened TaskModel

  // ---------------------------------------------------------------------
  // Completion flags
  // ---------------------------------------------------------------------

  /** Every node of `cs` is in the arena and completed. */
  predicate AllDone(m: Nodes<Task>, cs: seq<Ref>) {
    forall c | c in cs :: c in m && m[c].value.isCompleted
  }

  /** The flag of `x` is the AND of its children's flags. */
  predicate Consistent(m: Nodes<Task>, x: Ref)
    requires x in m
  {
    m[x].value.isCompleted == AllDone(m, m[x].children)
  }

  /** `r` is `m` with some `isCompleted` flags changed and nothing else. */
  ghost predicate FlagsOnly(m: Nodes<Task>, r: Nodes<Task>) {
    r.Keys == m.Keys && forall y | y in m :: r[y] == m[y].(value := m[y].value.(isCompleted := r[y].value.isCompleted))
  }

  /** `x.value.isCompleted = b`. */
  function WithFlag(m: Nodes<Task>, x: Ref, b: bool): (r: Nodes<Task>)
    requires x in m
    ensures r.Keys == m.Keys && r[x].value.isCompleted == b
  {
    m[x := m[x].(value := m[x].value.(isCompleted := b))]
  }

  lemma WithFlagFlagsOnly(m: Nodes<Task>, x: Ref, b: bool)
    requires x in m
    ensures FlagsOnly(m, WithFlag(m, x, b))
    ensures forall y | y in m && y != x :: WithFlag(m, x, b)[y] == m[y]
  {
  }

  /** `y` is a proper ancestor of `x`. */
  ghost predicate Above(m: Nodes<Task>, depth: map<Ref, nat>, x: Ref, y: Ref)
    requires Leveled(m, depth) && x in m
  {
    y != x && Descends(m, depth, x, y)
  }

  lemma FlagsOnlyTrans(m1: Nodes<Task>, m2: Nodes<Task>, m3: Nodes<Task>)
    requires FlagsOnly(m1, m2) && FlagsOnly(m2, m3)
    ensures FlagsOnly(m1, m3)
  {
  }

  /** Changing flags keeps the arena well-formed and every parent chain. */
  lemma FlagsOnlyWf(m: Nodes<Task>, r: Nodes<Task>, rank: map<Ref, nat>, depth: map<Ref, nat>)
    requires Wf(m, rank, depth) && FlagsOnly(m, r)
    ensures Wf(r, rank, depth)
  {
    assert SameLinks(m, r) by {
      forall y | y in m ensures r[y].parent == m[y].parent && r[y].children == m[y].children {
      }
    }
    SameLinksWf(m, r, rank, depth);
  }

  lemma FlagsOnlyDescends(m: Nodes<Task>, r: Nodes<Task>, depth: map<Ref, nat>, x: Ref, a: Ref)
    requires Leveled(m, depth) && FlagsOnly(m, r) && x in m
    ensures Leveled(r, depth) && Descends(r, depth, x, a) == Descends(m, depth, x, a)
  {
    forall y | y in r ensures r[y].parent == m[y].parent {
    }
    assert Leveled(r, depth) by {
      forall y | y in r
        ensures y in depth && (r[y].parent.Some? ==> r[y].parent.value in r && r[y].parent.value in depth && depth[r[y].parent.value] < depth[y])
      {
        assert r[y].parent == m[y].parent;
      }
    }
    DescendsUnchangedUp(m, depth, r, depth, x, a);
  }

  /** The proper ancestors of a node are its parent and the parent's proper ancestors. */
  lemma AboveStep(m: Nodes<Task>, depth: map<Ref, nat>, x: Ref, p: Ref, y: Ref)
    requires Leveled(m, depth) && x in m && m[x].parent == Some(p)
    ensures Above(m, depth, x, y) == (y == p || Above(m, depth, p, y))
  {
    if Descends(m, depth, p, y) {
      DescendsDepth(m, depth, p, y);
    }
  }

  /** A child is never a proper ancestor of its parent. */
  lemma ChildNotAbove(m: Nodes<Task>, depth: map<Ref, nat>, p: Ref, c: Ref)
    requires Leveled(m, depth) && Linked(m) && p in m && c in m[p].children
    ensures c != p && !Above(m, depth, p, c)
  {
    if Descends(m, depth, p, c) {
      DescendsDepth(m, depth, p, c);
    }
  }

  /** A sibling of `x`, or `x` itself, is never a proper ancestor of `x`. */
  lemma SiblingNotAbove(m: Nodes<Task>, depth: map<Ref, nat>, x: Ref, q: Ref, c: Ref)
    requires Leveled(m, depth) && x in m && c in m && m[x].parent == Some(q) && m[c].parent == Some(q)
    ensures !Above(m, depth, x, c)
  {
    AboveStep(m, depth, x, q, c);
    if Descends(m, depth, q, c) {
      DescendsDepth(m, depth, q, c);
    }
  }

  // ---------------------------------------------------------------------
  // makeSelfCompleted
  // ---------------------------------------------------------------------

  /**
   * After `makeSelfCompleted`, the flag of `x` is the AND of its children's
   * flags (true for a childless node).
   */
  lemma SelfCompletedConsistent(m: Nodes<Task>, rank: map<Ref, nat>, x: Ref)
    requires Ranked(m, rank) && x in m
    ensures var r := WithFlag(m, x, AllDone(m, m[x].children));
      Consistent(r, x) && (m[x].children == [] ==> r[x].value.isCompleted)
  {
    var r := WithFlag(m, x, AllDone(m, m[x].children));
    forall c | c in m[x].children ensures c != x && r[c] == m[c] {
    }
  }

  /** `x.makeSelfCompleted()`. */
  method MakeSelfCompleted(a: Arena<Task>, x: Ref)
    requires a.Valid() && x in a.nodes
    modifies a
    ensures a.Valid() && a.rank == old(a.rank) && a.depth == old(a.depth) && a.next == old(a.next)
    ensures a.nodes == WithFlag(old(a.nodes), x, AllDone(old(a.nodes), old(a.nodes)[x].children))
  {
    var cs := a.nodes[x].children;
    var i := 0;
    while i < |cs|
      invariant 0 <= i <= |cs| && a.nodes == old(a.nodes)
      invariant forall k | 0 <= k < i :: a.nodes[cs[k]].value.isCompleted
    {
      if !a.nodes[cs[i]].value.isCompleted {
        a.SetValue(x, a.nodes[x].value.(isCompleted := false));
        return;
      }
      i := i + 1;
    }
    a.SetValue(x, a.nodes[x].value.(isCompleted := true));
  }

  // ---------------------------------------------------------------------
  // makeChildrenCompleted
  // ---------------------------------------------------------------------

  /** The proper descendants of `x`. */
  ghost function Below(m: Nodes<Task>, depth: map<Ref, nat>, x: Ref): set<Ref>
    requires Leveled(m, depth)
  {
    set y | y in m && y != x && Descends(m, depth, y, x)
  }

  /** `c` and its proper descendants. */
  ghost function Under(m: Nodes<Task>, depth: map<Ref, nat>, c: Ref): set<Ref>
    requires Leveled(m, depth)
  {
    set y | y in m && Descends(m, depth, y, c)
  }

  /** The nodes of the subtrees of `cs[..i]`. */
  ghost function BelowFirst(m: Nodes<Task>, depth: map<Ref, nat>, cs: seq<Ref>, i: nat): set<Ref>
    requires Leveled(m, depth) && i <= |cs|
  {
    set y | y in m && exists k | 0 <= k < i :: Descends(m, depth, y, cs[k])
  }

  /** `m` with the flag of every node of `s` set to `b`. */
  ghost function Flagged(m: Nodes<Task>, s: set<Ref>, b: bool): Nodes<Task> {
    map y | y in m :: if y in s then m[y].(value := m[y].value.(isCompleted := b)) else m[y]
  }

  lemma FlaggedFlagsOnly(m: Nodes<Task>, s: set<Ref>, b: bool)
    ensures FlagsOnly(m, Flagged(m, s, b))
  {
  }

  lemma NoneFlagged(m: Nodes<Task>, s: set<Ref>, b: bool)
    requires s == {}
    ensures Flagged(m, s, b) == m
  {
  }

  /** Flagging `s` and then `t` is flagging their union. */
  lemma FlaggedTwice(m: Nodes<Task>, s: set<Ref>, t: set<Ref>, b: bool)
    ensures Flagged(Flagged(m, s, b), t, b) == Flagged(m, s + t, b)
  {
    var r, u := Flagged(Flagged(m, s, b), t, b), Flagged(m, s + t, b);
    forall y | y in m ensures r[y] == u[y] {
    }
    assert r.Keys == u.Keys;
  }

  /** Changing flags changes neither the subtree of `c` nor the nodes below it. */
  lemma UnderUnchanged(m: Nodes<Task>, r: Nodes<Task>, depth: map<Ref, nat>, c: Ref)
    requires Leveled(m, depth) && FlagsOnly(m, r)
    ensures Leveled(r, depth) && Under(r, depth, c) == Under(m, depth, c) && Below(r, depth, c) == Below(m, depth, c)
  {
    forall y | y in m ensures Leveled(r, depth) && Descends(r, depth, y, c) == Descends(m, depth, y, c) {
      FlagsOnlyDescends(m, r, depth, y, c);
    }
  }

  /** The proper descendants of `x` are the subtrees of its children. */
  lemma BelowFirstAll(m: Nodes<Task>, rank: map<Ref, nat>, depth: map<Ref, nat>, x: Ref)
    requires Wf(m, rank, depth) && x in m
    ensures BelowFirst(m, depth, m[x].children, |m[x].children|) == Below(m, depth, x)
  {
    var cs := m[x].children;
    forall y | y in m
      ensures y in BelowFirst(m, depth, cs, |cs|) <==> y in Below(m, depth, x)
    {
      if y in Below(m, depth, x) {
        var c := ChildOnPath(m, depth, y, x);
        var k :| 0 <= k < |cs| && cs[k] == c;
      }
      if y in BelowFirst(m, depth, cs, |cs|) {
        var k :| 0 <= k < |cs| && Descends(m, depth, y, cs[k]);
        assert Descends(m, depth, cs[k], x);
        DescendsTrans(m, depth, y, cs[k], x);
        DescendsDepth(m, depth, y, cs[k]);
      }
    }
  }

  /** The subtrees of `cs[..i + 1]` are those of `cs[..i]` and the subtree of `cs[i]`. */
  lemma BelowFirstStep(m: Nodes<Task>, depth: map<Ref, nat>, cs: seq<Ref>, i: nat)
    requires Leveled(m, depth) && i < |cs|
    ensures BelowFirst(m, depth, cs, i + 1) == BelowFirst(m, depth, cs, i) + Under(m, depth, cs[i])
  {
    forall y | y in BelowFirst(m, depth, cs, i + 1) && y !in BelowFirst(m, depth, cs, i)
      ensures y in Under(m, depth, cs[i])
    {
      var k :| 0 <= k < i + 1 && Descends(m, depth, y, cs[k]);
      assert k == i;
    }
  }

  /** The flag of `c`, then the proper descendants of `c`: the subtree of `c` flagged. */
  lemma SubtreeStep(m: Nodes<Task>, depth: map<Ref, nat>, c: Ref, b: bool)
    requires Leveled(m, depth) && c in m
    ensures var m1 := WithFlag(m, c, b);
      Leveled(m1, depth) && Flagged(m1, Below(m1, depth, c), b) == Flagged(m, Under(m, depth, c), b)
  {
    var m1 := WithFlag(m, c, b);
    WithFlagFlagsOnly(m, c, b);
    UnderUnchanged(m, m1, depth, c);
    assert Under(m, depth, c) == {c} + Below(m, depth, c);
    assert m1 == Flagged(m, {c}, b);
    FlaggedTwice(m, {c}, Below(m, depth, c), b);
  }

  /** One more child of `x` handled: the subtrees of `cs[..i + 1]` flagged. */
  lemma ChildrenStep(m: Nodes<Task>, depth: map<Ref, nat>, cs: seq<Ref>, i: nat, b: bool)
    requires Leveled(m, depth) && i < |cs|
    ensures var m1 := Flagged(m, BelowFirst(m, depth, cs, i), b);
      Leveled(m1, depth) && Flagged(m1, Under(m1, depth, cs[i]), b) == Flagged(m, BelowFirst(m, depth, cs, i + 1), b)
  {
    var s := BelowFirst(m, depth, cs, i);
    FlaggedFlagsOnly(m, s, b);
    UnderUnchanged(m, Flagged(m, s, b), depth, cs[i]);
    BelowFirstStep(m, depth, cs, i);
    FlaggedTwice(m, s, Under(m, depth, cs[i]), b);
  }

  /**
   * The body of the loop of `makeChildrenCompleted` for one child `c`: the
   * flag of `c`, then `c.makeChildrenCompleted`, flag the subtree of `c`.
   */
  method CompleteSubtree(a: Arena<Task>, c: Ref, b: bool)
    requires a.Valid() && c in a.nodes
    modifies a
    ensures a.Valid() && a.rank == old(a.rank) && a.depth == old(a.depth) && a.next == old(a.next)
    ensures a.nodes == Flagged(old(a.nodes), Under(old(a.nodes), old(a.depth), c), b)
    decreases a.rank[c], 1
  {
    ghost var m0 := a.nodes;
    SubtreeStep(m0, a.depth, c, b);
    a.SetValue(c, a.nodes[c].value.(isCompleted := b));
    MakeChildrenCompleted(a, c, b);
  }

  /** `x.makeChildrenCompleted(isCompleted: b)`: the flag of every proper descendant of `x` becomes `b`. */
  method MakeChildrenCompleted(a: Arena<Task>, x: Ref, b: bool)
    requires a.Valid() && x in a.nodes
    modifies a
    ensures a.Valid() && a.rank == old(a.rank) && a.depth == old(a.depth) && a.next == old(a.next)
    ensures a.nodes == Flagged(old(a.nodes), Below(old(a.nodes), old(a.depth), x), b)
    decreases a.rank[x], 0
  {
    ghost var m0, rank0, depth0 := a.nodes, a.rank, a.depth;
    var cs := a.nodes[x].children;
    var i := 0;
    NoneFlagged(m0, BelowFirst(m0, depth0, cs, 0), b);
    while i < |cs|
      invariant 0 <= i <= |cs| && a.Valid()
      invariant a.rank == rank0 && a.depth == depth0 && a.next == old(a.next)
      invariant a.nodes == Flagged(m0, BelowFirst(m0, depth0, cs, i), b)
    {
      ChildrenStep(m0, depth0, cs, i, b);
      CompleteSubtree(a, cs[i], b);
      i := i + 1;
    }
    BelowFirstAll(m0, rank0, depth0, x);
  }

  // ---------------------------------------------------------------------
  // makeParentCompleted
  // ---------------------------------------------------------------------

  lemma WithFlagWf(m: Nodes<Task>, rank: map<Ref, nat>, depth: map<Ref, nat>, x: Ref, b: bool)
    requires Wf(m, rank, depth) && x in m
    ensures Wf(WithFlag(m, x, b), rank, depth)
  {
    WithFlagFlagsOnly(m, x, b);
    FlagsOnlyWf(m, WithFlag(m, x, b), rank, depth);
  }

  /**
   * The arena `makeParentCompleted` leaves behind: the parent's flag
   * becomes the AND of its children's flags, then the same for the
   * parent's parent, up to a node without parent.
   */
  ghost function Propagated(m: Nodes<Task>, depth: map<Ref, nat>, x: Ref): (r: Nodes<Task>)
    requires Leveled(m, depth) && x in m
    ensures r.Keys == m.Keys
    decreases depth[x]
  {
    match ParentOf(m, x)
    case None => m
    case Some(p) =>
      var m1 := WithFlag(m, p, AllDone(m, m[p].children));
      WithFlagFlagsOnly(m, p, AllDone(m, m[p].children));
      FlagsOnlyDescends(m, m1, depth, p, p);
      Propagated(m1, depth, p)
  }

  /** Propagation from `x` changes only flags, and only those of proper ancestors of `x`. */
  lemma {:induction false} PropagatedFrame(m: Nodes<Task>, depth: map<Ref, nat>, x: Ref)
    requires Leveled(m, depth) && x in m
    ensures var r := Propagated(m, depth, x);
      FlagsOnly(m, r) && forall y | y in m && !Above(m, depth, x, y) :: r[y] == m[y]
    decreases depth[x]
  {
    match ParentOf(m, x)
    case None =>
    case Some(p) =>
      var m1 := WithFlag(m, p, AllDone(m, m[p].children));
      WithFlagFlagsOnly(m, p, AllDone(m, m[p].children));
      FlagsOnlyDescends(m, m1, depth, p, p);
      PropagatedFrame(m1, depth, p);
      var r := Propagated(m1, depth, p);
      FlagsOnlyTrans(m, m1, r);
      forall y | y in m && !Above(m, depth, x, y) ensures r[y] == m[y] {
        AboveStep(m, depth, x, p, y);
        FlagsOnlyDescends(m, m1, depth, p, y);
      }
  }

  /** After propagation from `x`, the flag of the parent of `x` is the AND of its children's flags. */
  lemma ParentConsistent(m: Nodes<Task>, rank: map<Ref, nat>, depth: map<Ref, nat>, x: Ref, p: Ref)
    requires Wf(m, rank, depth) && x in m && ParentOf(m, x) == Some(p)
    ensures Consistent(Propagated(m, depth, x), p)
  {
    var m1 := WithFlag(m, p, AllDone(m, m[p].children));
    WithFlagWf(m, rank, depth, p, AllDone(m, m[p].children));
    WithFlagFlagsOnly(m, p, AllDone(m, m[p].children));
    PropagatedFrame(m1, depth, p);
    var r := Propagated(m1, depth, p);
    forall c | c in m[p].children ensures r[c] == m[c] {
      ChildNotAbove(m1, depth, p, c);
    }
    assert r[p] == m1[p];
  }

  /**
   * `makeParentCompleted` from `x`: afterwards every proper ancestor of `x`
   * carries the AND of its children's flags.
   */
  lemma {:induction false} PropagatedConsistent(m: Nodes<Task>, rank: map<Ref, nat>, depth: map<Ref, nat>, x: Ref)
    requires Wf(m, rank, depth) && x in m
    ensures forall y | y in m && Above(m, depth, x, y) :: Consistent(Propagated(m, depth, x), y)
    decreases depth[x]
  {
    match ParentOf(m, x)
    case None =>
      forall y | y in m ensures !Above(m, depth, x, y) {
      }
    case Some(p) =>
      var m1 := WithFlag(m, p, AllDone(m, m[p].children));
      WithFlagWf(m, rank, depth, p, AllDone(m, m[p].children));
      WithFlagFlagsOnly(m, p, AllDone(m, m[p].children));
      PropagatedConsistent(m1, rank, depth, p);
      ParentConsistent(m, rank, depth, x, p);
      forall y | y in m && Above(m, depth, x, y) ensures y == p || Above(m1, depth, p, y) {
        AboveStep(m, depth, x, p, y);
        FlagsOnlyDescends(m, m1, depth, p, y);
      }
  }

  /** `makeParentCompleted` changes only flags and keeps the arena well-formed. */
  lemma PropagatedWf(m: Nodes<Task>, rank: map<Ref, nat>, depth: map<Ref, nat>, x: Ref)
    requires Wf(m, rank, depth) && x in m
    ensures FlagsOnly(m, Propagated(m, depth, x)) && Wf(Propagated(m, depth, x), rank, depth)
  {
    PropagatedFrame(m, depth, x);
    FlagsOnlyWf(m, Propagated(m, depth, x), rank, depth);
  }

  /** One level of `PropagatedIgnoresAbove`: both maps write the same flag into the parent `q` of `p`. */
  lemma IgnoresAboveStep(m1: Nodes<Task>, m2: Nodes<Task>, rank: map<Ref, nat>, depth: map<Ref, nat>, p: Ref, q: Ref)
    requires Wf(m1, rank, depth) && p in m1 && FlagsOnly(m1, m2) && ParentOf(m1, p) == Some(q)
    requires forall y | y in m1 && !Above(m1, depth, p, y) :: m2[y] == m1[y]
    ensures AllDone(m2, m2[q].children) == AllDone(m1, m1[q].children)
    ensures Wf(WithFlag(m1, q, AllDone(m1, m1[q].children)), rank, depth)
    ensures FlagsOnly(WithFlag(m1, q, AllDone(m1, m1[q].children)), WithFlag(m2, q, AllDone(m1, m1[q].children)))
    ensures forall y | y in m1 && !Above(WithFlag(m1, q, AllDone(m1, m1[q].children)), depth, q, y) ::
              WithFlag(m2, q, AllDone(m1, m1[q].children))[y] == WithFlag(m1, q, AllDone(m1, m1[q].children))[y]
  {
    forall c | c in m1[q].children ensures m2[c] == m1[c] {
      SiblingNotAbove(m1, depth, p, q, c);
    }
    var v := AllDone(m1, m1[q].children);
    assert AllDone(m2, m2[q].children) == v;
    var n1, n2 := WithFlag(m1, q, v), WithFlag(m2, q, v);
    WithFlagWf(m1, rank, depth, q, v);
    WithFlagFlagsOnly(m1, q, v);
    WithFlagFlagsOnly(m2, q, v);
    assert FlagsOnly(n1, n2);
    forall y | y in n1 && !Above(n1, depth, q, y) ensures n2[y] == n1[y] {
      FlagsOnlyDescends(m1, n1, depth, q, y);
      AboveStep(m1, depth, p, q, y);
    }
  }

  /** Propagation from `p` does not read the flags of `p`'s proper ancestors. */
  lemma {:induction false} PropagatedIgnoresAbove(m1: Nodes<Task>, m2: Nodes<Task>, rank: map<Ref, nat>, depth: map<Ref, nat>, p: Ref)
    requires Wf(m1, rank, depth) && p in m1 && FlagsOnly(m1, m2)
    requires forall y | y in m1 && !Above(m1, depth, p, y) :: m2[y] == m1[y]
    ensures Leveled(m2, depth) && Propagated(m1, depth, p) == Propagated(m2, depth, p)
    decreases depth[p]
  {
    FlagsOnlyWf(m1, m2, rank, depth);
    assert m2[p] == m1[p];
    match ParentOf(m1, p)
    case None =>
      forall y | y in m1 ensures m2[y] == m1[y] {
        assert !Above(m1, depth, p, y);
      }
      assert m2 == m1;
    case Some(q) =>
      var v := AllDone(m1, m1[q].children);
      IgnoresAboveStep(m1, m2, rank, depth, p, q);
      var n1, n2 := WithFlag(m1, q, v), WithFlag(m2, q, v);
      PropagatedIgnoresAbove(n1, n2, rank, depth, q);
  }

  /**
   * What a round of the loop of `makeParentCompleted` may have left in
   * `before`: nothing yet, or one propagation from `p` after flagging `p`;
   * either way only flags of `p` and its proper ancestors differ from `m`.
   */
  ghost predicate EarlierRound(m: Nodes<Task>, rank: map<Ref, nat>, depth: map<Ref, nat>, p: Ref, before: Nodes<Task>)
    requires Leveled(m, depth) && p in m
  {
    Wf(before, rank, depth) && FlagsOnly(m, before) && forall y | y in m && y != p && !Above(m, depth, p, y) :: before[y] == m[y]
  }

  lemma Rounds(m: Nodes<Task>, rank: map<Ref, nat>, depth: map<Ref, nat>, p: Ref, before: Nodes<Task>)
    requires Wf(m, rank, depth) && p in m && Leveled(WithFlag(m, p, true), depth)
    requires before == m || before == Propagated(WithFlag(m, p, true), depth, p)
    ensures EarlierRound(m, rank, depth, p, before)
  {
    var m1 := WithFlag(m, p, true);
    if before != m {
      WithFlagFlagsOnly(m, p, true);
      WithFlagWf(m, rank, depth, p, true);
      PropagatedWf(m1, rank, depth, p);
      PropagatedFrame(m1, depth, p);
      FlagsOnlyTrans(m, m1, before);
      forall y | y in m && y != p && !Above(m, depth, p, y) ensures before[y] == m[y] {
        FlagsOnlyDescends(m, m1, depth, p, y);
      }
    }
  }

  /** An earlier round leaves the children of `p` as they were. */
  lemma RoundKeepsChildren(m: Nodes<Task>, rank: map<Ref, nat>, depth: map<Ref, nat>, p: Ref, before: Nodes<Task>)
    requires Wf(m, rank, depth) && p in m && Leveled(WithFlag(m, p, true), depth)
    requires before == m || before == Propagated(WithFlag(m, p, true), depth, p)
    ensures forall c | c in m[p].children :: c in before && before[c] == m[c]
  {
    Rounds(m, rank, depth, p, before);
    forall c | c in m[p].children ensures c in before && before[c] == m[c] {
      ChildNotAbove(m, depth, p, c);
    }
  }

  /**
   * Flagging `p` over an earlier round and propagating from `p` ends the
   * same as flagging `p` in the original arena and propagating once.
   */
  lemma RoundStep(m: Nodes<Task>, rank: map<Ref, nat>, depth: map<Ref, nat>, p: Ref, before: Nodes<Task>, f: bool)
    requires Wf(m, rank, depth) && p in m && Leveled(WithFlag(m, p, true), depth)
    requires before == m || before == Propagated(WithFlag(m, p, true), depth, p)
    ensures p in before && Leveled(WithFlag(before, p, f), depth) && Leveled(WithFlag(m, p, f), depth)
    ensures Propagated(WithFlag(before, p, f), depth, p) == Propagated(WithFlag(m, p, f), depth, p)
  {
    Rounds(m, rank, depth, p, before);
    var w0, w1 := WithFlag(m, p, f), WithFlag(before, p, f);
    WithFlagWf(m, rank, depth, p, f);
    WithFlagWf(before, rank, depth, p, f);
    WithFlagFlagsOnly(m, p, f);
    WithFlagFlagsOnly(before, p, f);
    assert FlagsOnly(w0, w1);
    forall y | y in w0 && !Above(w0, depth, p, y) ensures w1[y] == w0[y] {
      FlagsOnlyDescends(m, w0, depth, p, y);
    }
    PropagatedIgnoresAbove(w0, w1, rank, depth, p);
  }

  /**
   * Round `i` of the loop of `makeParentCompleted`: the child it reads is
   * as in `m`, and whichever flag it writes to `p`, it ends as one write
   * to `m` followed by one propagation.
   */
  lemma Round(m: Nodes<Task>, rank: map<Ref, nat>, depth: map<Ref, nat>, p: Ref, before: Nodes<Task>, i: nat)
    requires Wf(m, rank, depth) && p in m && Leveled(WithFlag(m, p, true), depth) && i < |m[p].children|
    requires before == m || before == Propagated(WithFlag(m, p, true), depth, p)
    ensures m[p].children[i] in m && m[p].children[i] in before && before[m[p].children[i]] == m[m[p].children[i]]
    ensures p in before
    ensures Leveled(WithFlag(before, p, false), depth) && Leveled(WithFlag(m, p, false), depth)
    ensures Propagated(WithFlag(before, p, false), depth, p) == Propagated(WithFlag(m, p, false), depth, p)
    ensures Leveled(WithFlag(before, p, true), depth)
    ensures Propagated(WithFlag(before, p, true), depth, p) == Propagated(WithFlag(m, p, true), depth, p)
  {
    RoundKeepsChildren(m, rank, depth, p, before);
    assert m[p].children[i] in m[p].children;
    RoundStep(m, rank, depth, p, before, false);
    RoundStep(m, rank, depth, p, before, true);
  }

  lemma AllDoneStep(m: Nodes<Task>, cs: seq<Ref>, i: nat)
    requires i < |cs| && AllDone(m, cs[..i]) && cs[i] in m && m[cs[i]].value.isCompleted
    ensures AllDone(m, cs[..i + 1])
  {
    assert cs[..i + 1] == cs[..i] + [cs[i]];
  }

  /** A child not completed makes the whole list not done. */
  lemma NotAllDone(m: Nodes<Task>, cs: seq<Ref>, i: nat)
    requires i < |cs| && cs[i] in m && !m[cs[i]].value.isCompleted
    ensures !AllDone(m, cs)
  {
    assert cs[i] in cs;
  }

  /** The prefix that covers the whole list. */
  lemma AllDoneFull(m: Nodes<Task>, cs: seq<Ref>, i: nat)
    requires i == |cs| && AllDone(m, cs[..i])
    ensures AllDone(m, cs)
  {
    assert cs[..i] == cs;
  }

  /** The write `parent.value.isCompleted = f` followed by `parent.makeParentCompleted()`. */
  method RecomputeParent(a: Arena<Task>, p: Ref, f: bool)
    requires a.Valid() && p in a.nodes
    modifies a
    ensures a.Valid() && a.rank == old(a.rank) && a.depth == old(a.depth) && a.next == old(a.next)
    ensures Leveled(WithFlag(old(a.nodes), p, f), old(a.depth))
    ensures a.nodes == Propagated(WithFlag(old(a.nodes), p, f), old(a.depth), p)
    decreases a.depth[p], 1
  {
    a.SetValue(p, a.nodes[p].value.(isCompleted := f));
    MakeParentCompleted(a, p);
  }

  /**
   * `x.makeParentCompleted()`: the arena ends as one bottom-up
   * recomputation of the flags of the proper ancestors of `x`.
   */
  method MakeParentCompleted(a: Arena<Task>, x: Ref)
    requires a.Valid() && x in a.nodes
    modifies a
    ensures a.Valid() && a.rank == old(a.rank) && a.depth == old(a.depth) && a.next == old(a.next)
    ensures a.nodes == Propagated(old(a.nodes), old(a.depth), x)
    decreases a.depth[x], 0
  {
    match ParentOf(a.nodes, x)
    case None =>
    case Some(p) =>
      assert x in a.nodes[p].children;
      CompleteParent(a, p);
  }

  /**
   * The loop of `makeParentCompleted` over the children of the parent
   * `p`: each round writes the flag of `p` and propagates from `p`,
   * stopping at the first child not completed.
   */
  method CompleteParent(a: Arena<Task>, p: Ref)
    requires a.Valid() && p in a.nodes && a.nodes[p].children != []
    modifies a
    ensures a.Valid() && a.rank == old(a.rank) && a.depth == old(a.depth) && a.next == old(a.next)
    ensures Leveled(WithFlag(old(a.nodes), p, AllDone(old(a.nodes), old(a.nodes)[p].children)), old(a.depth))
    ensures a.nodes == Propagated(WithFlag(old(a.nodes), p, AllDone(old(a.nodes), old(a.nodes)[p].children)), old(a.depth), p)
    decreases a.depth[p], 2
  {
    ghost var m0, rank0, depth0 := a.nodes, a.rank, a.depth;
    assert Wf(m0, rank0, depth0);
    WithFlagWf(m0, rank0, depth0, p, true);
    WithFlagWf(m0, rank0, depth0, p, false);
    var cs := a.nodes[p].children;
    var i := 0;
    while i < |cs|
      invariant 0 <= i <= |cs| && a.Valid()
      invariant a.rank == rank0 && a.depth == depth0 && a.next == old(a.next)
      invariant AllDone(m0, cs[..i])
      invariant i == 0 ==> a.nodes == m0
      invariant i > 0 ==> a.nodes == Propagated(WithFlag(m0, p, true), depth0, p)
    {
      Round(m0, rank0, depth0, p, a.nodes, i);
      if !a.nodes[cs[i]].value.isCompleted {
        RecomputeParent(a, p, false);
        NotAllDone(m0, cs, i);
        return;
      }
      RecomputeParent(a, p, true);
      AllDoneStep(m0, cs, i);
      i := i + 1;
    }
    AllDoneFull(m0, cs, i);
  }

  // ---------------------------------------------------------------------
  // makeSelfAndParentCompleted
  // ---------------------------------------------------------------------

  /**
   * After `makeSelfAndParentCompleted`, `x` and each of its proper
   * ancestors carry the AND of their children's flags.
   */
  lemma SelfAndParentConsistent(m: Nodes<Task>, rank: map<Ref, nat>, depth: map<Ref, nat>, x: Ref)
    requires Wf(m, rank, depth) && x in m
    ensures Leveled(WithFlag(m, x, AllDone(m, m[x].children)), depth)
    ensures var r := Propagated(WithFlag(m, x, AllDone(m, m[x].children)), depth, x);
      Consistent(r, x) && forall y | y in m && Above(m, depth, x, y) :: Consistent(r, y)
  {
    var m1 := WithFlag(m, x, AllDone(m, m[x].children));
    WithFlagWf(m, rank, depth, x, AllDone(m, m[x].children));
    WithFlagFlagsOnly(m, x, AllDone(m, m[x].children));
    PropagatedConsistent(m1, rank, depth, x);
    PropagatedFrame(m1, depth, x);
    var r := Propagated(m1, depth, x);
    forall y | y in m ensures Above(m1, depth, x, y) == Above(m, depth, x, y) {
      FlagsOnlyDescends(m, m1, depth, x, y);
    }
    forall c | c in m[x].children ensures r[c] == m[c] {
      ChildNotAbove(m1, depth, x, c);
    }
    assert r[x] == m1[x];
  }

  /** `makeSelfAndParentCompleted` changes only the flags of `x` and of its proper ancestors. */
  lemma SelfAndParentFrame(m: Nodes<Task>, rank: map<Ref, nat>, depth: map<Ref, nat>, x: Ref)
    requires Wf(m, rank, depth) && x in m
    ensures Leveled(WithFlag(m, x, AllDone(m, m[x].children)), depth)
    ensures var r := Propagated(WithFlag(m, x, AllDone(m, m[x].children)), depth, x);
      FlagsOnly(m, r) && forall y | y in m && y != x && !Above(m, depth, x, y) :: r[y] == m[y]
  {
    var m1 := WithFlag(m, x, AllDone(m, m[x].children));
    WithFlagWf(m, rank, depth, x, AllDone(m, m[x].children));
    WithFlagFlagsOnly(m, x, AllDone(m, m[x].children));
    PropagatedFrame(m1, depth, x);
    FlagsOnlyTrans(m, m1, Propagated(m1, depth, x));
    forall y | y in m ensures Above(m1, depth, x, y) == Above(m, depth, x, y) {
      FlagsOnlyDescends(m, m1, depth, x, y);
    }
  }

  /** `x.makeSelfAndParentCompleted()`. */
  method MakeSelfAndParentCompleted(a: Arena<Task>, x: Ref)
    requires a.Valid() && x in a.nodes
    modifies a
    ensures a.Valid() && a.rank == old(a.rank) && a.depth == old(a.depth) && a.next == old(a.next)
    ensures Leveled(WithFlag(old(a.nodes), x, AllDone(old(a.nodes), old(a.nodes)[x].children)), old(a.depth))
    ensures a.nodes == Propagated(WithFlag(old(a.nodes), x, AllDone(old(a.nodes), old(a.nodes)[x].children)), old(a.depth), x)
  {
    MakeSelfCompleted(a, x);
    MakeParentCompleted(a, x);
  }
}
