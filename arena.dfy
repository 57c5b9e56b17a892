/**
 * The invariant an arena of node objects keeps between the methods of
 * `TreeNode`, and one lemma per method saying that the method's edit of
 * the arena keeps it.
 */
module ArenaInvariant {
  import opened Wrappers
  import opened TreeNode
  import opened TreeEdit

  /** The invariant of an arena: well-formed, and every address below the next unused one. */
  ghost predicate ArenaOk<T>(m: Nodes<T>, rank: map<Ref, nat>, depth: map<Ref, nat>, next: Ref) {
    Wf(m, rank, depth) && forall r | r in m :: r < next
  }

  /** A fresh node object at the next unused address keeps the invariant. */
  lemma FreshOk<T>(m: Nodes<T>, rank: map<Ref, nat>, depth: map<Ref, nat>, next: Ref, id: Id, value: T, hidden: bool)
    requires ArenaOk(m, rank, depth, next)
    ensures next !in m
    ensures ArenaOk(m[next := Node(id, value, hidden, None, [])], rank[next := 0], depth[next := 0], next + 1)
    ensures UniqueIds(m) && (forall y | y in m :: m[y].id != id) ==> UniqueIds(m[next := Node(id, value, hidden, None, [])])
  {
    FreshWf(m, rank, depth, next, Node(id, value, hidden, None, []));
  }

  /** Assigning the stored value of a node keeps the invariant. */
  lemma ValueOk<T>(m: Nodes<T>, rank: map<Ref, nat>, depth: map<Ref, nat>, next: Ref, n: Ref, v: T)
    requires ArenaOk(m, rank, depth, next) && n in m
    ensures ArenaOk(m[n := m[n].(value := v)], rank, depth, next)
    ensures UniqueIds(m) ==> UniqueIds(m[n := m[n].(value := v)])
  {
    SameLinksWf(m, m[n := m[n].(value := v)], rank, depth);
  }

  /** Assigning the hidden flag of a node keeps the invariant. */
  lemma HiddenOk<T>(m: Nodes<T>, rank: map<Ref, nat>, depth: map<Ref, nat>, next: Ref, n: Ref, h: bool)
    requires ArenaOk(m, rank, depth, next) && n in m
    ensures ArenaOk(m[n := m[n].(hidden := h)], rank, depth, next)
    ensures UniqueIds(m) ==> UniqueIds(m[n := m[n].(hidden := h)])
  {
    SameLinksWf(m, m[n := m[n].(hidden := h)], rank, depth);
  }

  /** `addChild` keeps the invariant, under new measures. */
  lemma AttachOk<T>(m: Nodes<T>, rank: map<Ref, nat>, depth: map<Ref, nat>, next: Ref, p: Ref, c: Ref)
    returns (rank2: map<Ref, nat>, depth2: map<Ref, nat>)
    requires ArenaOk(m, rank, depth, next) && CanAttach(m, depth, p, c)
    ensures ArenaOk(WithChild(m, p, c), rank2, depth2, next)
    ensures UniqueIds(m) ==> UniqueIds(WithChild(m, p, c))
  {
    rank2, depth2 := AttachMeasures(m, rank, depth, p, c);
  }

  /**
   * Where the loop of `addChildren` stands after `i` of the children `cs`
   * have been appended to `p`: the arena is the original `m0` with those
   * children appended, and each child still to come can be attached.
   */
  ghost predicate Adding<T>(m0: Nodes<T>, m: Nodes<T>, depth: map<Ref, nat>, p: Ref, cs: seq<Ref>, i: nat) {
    && i <= |cs| && p in m0 && (forall c | c in cs :: c in m0)
    && m == WithChildren(m0, p, cs[..i])
    && Leveled(m, depth)
    && (forall k | i <= k < |cs| :: CanAttach(m, depth, p, cs[k]))
    && (UniqueIds(m0) ==> UniqueIds(m))
  }

  lemma AddingStart<T>(m0: Nodes<T>, depth: map<Ref, nat>, p: Ref, cs: seq<Ref>)
    requires Leveled(m0, depth) && p in m0 && forall c | c in cs :: CanAttach(m0, depth, p, c)
    ensures Adding(m0, m0, depth, p, cs, 0)
  {
    assert cs[..0] == [];
  }

  lemma AddingNext<T>(m0: Nodes<T>, m: Nodes<T>, depth: map<Ref, nat>, p: Ref, cs: seq<Ref>, i: nat)
    requires Adding(m0, m, depth, p, cs, i) && i < |cs|
    ensures Leveled(m, depth) && CanAttach(m, depth, p, cs[i])
  {
  }

  lemma AddingStep<T>(m0: Nodes<T>, m: Nodes<T>, depth: map<Ref, nat>, r: Nodes<T>, depth2: map<Ref, nat>, p: Ref, cs: seq<Ref>, i: nat)
    requires Adding(m0, m, depth, p, cs, i) && i < |cs| && NoDup(cs)
    requires r == WithChild(m, p, cs[i]) && Leveled(r, depth2) && (UniqueIds(m) ==> UniqueIds(r))
    ensures Adding(m0, r, depth2, p, cs, i + 1)
  {
    AttachKeepsRest(m, depth, r, depth2, p, cs, i);
    WithChildrenStep(m0, p, cs, i);
  }

  lemma AddingDone<T>(m0: Nodes<T>, m: Nodes<T>, depth: map<Ref, nat>, p: Ref, cs: seq<Ref>)
    requires Adding(m0, m, depth, p, cs, |cs|)
    ensures m == WithChildren(m0, p, cs) && (forall c | c in cs :: c in m0)
    ensures UniqueIds(m0) ==> UniqueIds(m)
  {
    assert cs[..|cs|] == cs;
  }

  /** Moving one child of a node keeps the invariant. */
  lemma ReorderOk<T>(m: Nodes<T>, rank: map<Ref, nat>, depth: map<Ref, nat>, next: Ref, p: Ref, i: nat, j: nat)
    requires ArenaOk(m, rank, depth, next) && p in m && i < |m[p].children| && j <= |m[p].children|
    ensures ArenaOk(Reordered(m, p, i, j), rank, depth, next)
    ensures UniqueIds(m) ==> UniqueIds(Reordered(m, p, i, j))
  {
    ReorderedWf(m, rank, depth, p, i, j);
  }

  /** Placing `f` in front of `t` keeps the invariant. */
  lemma PlaceOk<T>(m: Nodes<T>, rank: map<Ref, nat>, depth: map<Ref, nat>, next: Ref, f: Ref, t: Ref)
    requires ArenaOk(m, rank, depth, next) && f in m && t in m
    ensures ArenaOk(PlacedBefore(m, f, t), rank, depth, next)
    ensures UniqueIds(m) ==> UniqueIds(PlacedBefore(m, f, t))
  {
    match ParentOf(m, t) {
      case Some(q) =>
        var cs := m[q].children;
        var fi, ti := FirstIndexWithId(m, cs, m[f].id), FirstIndexWithId(m, cs, m[t].id);
        if fi.Some? && ti.Some? {
          assert PlacedBefore(m, f, t) == Reordered(m, q, fi.value, ti.value);
          ReorderOk(m, rank, depth, next, q, fi.value, ti.value);
        } else {
          assert PlacedBefore(m, f, t) == m;
        }
      case None =>
        assert PlacedBefore(m, f, t) == m;
    }
  }

  /** Detaching a node keeps the invariant and the ids unique. */
  lemma DetachOk<T>(m: Nodes<T>, rank: map<Ref, nat>, depth: map<Ref, nat>, next: Ref, x: Ref)
    requires ArenaOk(m, rank, depth, next) && UniqueIds(m) && x in m
    ensures ArenaOk(Detached(m, x), rank, depth, next) && UniqueIds(Detached(m, x))
  {
    DetachedWf(m, rank, depth, x);
  }
}

/**
 * The node objects of a `TreeNode` program and the methods of `TreeNode`
 * that update them in place. Each method performs the program's
 * statements on the arena and is proved to leave the arena described by
 * the matching edit of `TreeEdit`; the ghost measures are carried along
 * so that the arena stays well-formed.
 */
module TreeArena {
  import opened Wrappers
  import opened TreeNode
  import opened TreeEdit
  import opened ArenaInvariant

  class Arena<T> {
    /** Every node object, by address. */
    var nodes: Nodes<T>
    /** The next unused address. */
    var next: Ref
    ghost var rank: map<Ref, nat>
    ghost var depth: map<Ref, nat>

    ghost predicate Valid()
      reads this
    {
      ArenaOk(nodes, rank, depth, next)
    }

    constructor ()
      ensures Valid() && nodes == map[]
    {
      nodes := map[];
      next := 0;
      rank := map[];
      depth := map[];
    }

    /** `TreeNode(value:id:isHidden:)`: a fresh node object without parent or children. */
    method NewNode(id: Id, value: T, hidden: bool) returns (n: Ref)
      requires Valid()
      modifies this
      ensures Valid()
      ensures n == old(next) && next == n + 1 && n !in old(nodes)
      ensures nodes == old(nodes)[n := Node(id, value, hidden, None, [])]
      ensures rank == old(rank)[n := 0] && depth == old(depth)[n := 0]
      ensures UniqueIds(old(nodes)) && (forall y | y in old(nodes) :: old(nodes)[y].id != id) ==> UniqueIds(nodes)
    {
      n := next;
      FreshOk(nodes, rank, depth, next, id, value, hidden);
      nodes := nodes[n := Node(id, value, hidden, None, [])];
      next := next + 1;
      rank := rank[n := 0];
      depth := depth[n := 0];
    }

    /** Assigning the stored `value` of a node. */
    method SetValue(n: Ref, v: T)
      requires Valid() && n in nodes
      modifies this
      ensures Valid() && (UniqueIds(old(nodes)) ==> UniqueIds(nodes))
      ensures rank == old(rank) && depth == old(depth) && next == old(next)
      ensures nodes == old(nodes)[n := old(nodes)[n].(value := v)]
    {
      ValueOk(nodes, rank, depth, next, n, v);
      nodes := nodes[n := nodes[n].(value := v)];
    }

    /** Assigning `isHidden` of a node. */
    method SetHidden(n: Ref, h: bool)
      requires Valid() && n in nodes
      modifies this
      ensures Valid() && (UniqueIds(old(nodes)) ==> UniqueIds(nodes))
      ensures rank == old(rank) && depth == old(depth) && next == old(next)
      ensures nodes == old(nodes)[n := old(nodes)[n].(hidden := h)]
    {
      HiddenOk(nodes, rank, depth, next, n, h);
      nodes := nodes[n := nodes[n].(hidden := h)];
    }

    /** `p.addChild(c)`. */
    method AddChild(p: Ref, c: Ref)
      requires Valid() && CanAttach(nodes, depth, p, c)
      modifies this
      ensures Valid() && nodes == WithChild(old(nodes), p, c) && next == old(next)
      ensures UniqueIds(old(nodes)) ==> UniqueIds(nodes)
    {
      ghost var rank2, depth2 := AttachOk(nodes, rank, depth, next, p, c);
      nodes, rank, depth := WithChild(nodes, p, c), rank2, depth2;
    }

    /** `p.addChildren(cs)`. */
    method AddChildren(p: Ref, cs: seq<Ref>)
      requires Valid() && p in nodes && NoDup(cs) && forall c | c in cs :: CanAttach(nodes, depth, p, c)
      modifies this
      ensures forall c | c in cs :: c in old(nodes)
      ensures Valid() && nodes == WithChildren(old(nodes), p, cs) && next == old(next)
      ensures UniqueIds(old(nodes)) ==> UniqueIds(nodes)
    {
      AddingStart(nodes, depth, p, cs);
      var i := 0;
      while i < |cs|
        invariant 0 <= i <= |cs| && Valid() && Adding(old(nodes), nodes, depth, p, cs, i)
        invariant next == old(next)
      {
        AddingNext(old(nodes), nodes, depth, p, cs, i);
        ghost var before, d0 := nodes, depth;
        AddChild(p, cs[i]);
        AddingStep(old(nodes), before, d0, nodes, depth, p, cs, i);
        i := i + 1;
      }
      AddingDone(old(nodes), nodes, depth, p, cs);
    }

    /** `p.moveChildren(fromOffsets: [i], toOffset: j)`. */
    method MoveChildren(p: Ref, i: nat, j: nat)
      requires Valid() && p in nodes && i < |nodes[p].children| && j <= |nodes[p].children|
      modifies this
      ensures Valid() && nodes == Reordered(old(nodes), p, i, j)
      ensures rank == old(rank) && depth == old(depth) && next == old(next)
      ensures UniqueIds(old(nodes)) ==> UniqueIds(nodes)
    {
      ReorderOk(nodes, rank, depth, next, p, i, j);
      nodes := nodes[p := nodes[p].(children := MoveOffset(nodes[p].children, i, j))];
    }

    /** `x.parent?.children.removeAll(where: { $0.id == x.id })`, then `x.parent = nil`. */
    method Detach(x: Ref)
      requires Valid() && UniqueIds(nodes) && x in nodes
      modifies this
      ensures Valid() && UniqueIds(nodes) && nodes == Detached(old(nodes), x)
      ensures rank == old(rank) && depth == old(depth) && next == old(next)
    {
      DetachOk(nodes, rank, depth, next, x);
      match ParentOf(nodes, x) {
        case Some(p) =>
          nodes := nodes[p := nodes[p].(children := WithoutId(nodes, nodes[p].children, nodes[x].id))];
        case None =>
      }
      nodes := nodes[x := nodes[x].(parent := None)];
    }

    /** `self.removeChildWithID(id)`. */
    method RemoveChildWithID(self: Ref, id: Id) returns (item: Option<Ref>)
      requires Valid() && UniqueIds(nodes) && self in nodes
      modifies this
      ensures Valid() && UniqueIds(nodes)
      ensures rank == old(rank) && depth == old(depth) && next == old(next)
      ensures (nodes, item) == RemovedById(old(nodes), old(rank), self, id)
    {
      item := Search(nodes, rank, self, id);
      if item.Some? {
        Detach(item.value);
      }
    }

    /** `self.removeChildrenWithIDs(ids)`. */
    method RemoveChildrenWithIDs(self: Ref, ids: seq<Id>) returns (items: seq<Option<Ref>>)
      requires Valid() && UniqueIds(nodes) && self in nodes
      modifies this
      ensures Valid() && UniqueIds(nodes)
      ensures rank == old(rank) && depth == old(depth) && next == old(next)
      ensures (nodes, items) == RemovedEach(old(nodes), old(rank), self, ids)
    {
      items := [];
      var i := 0;
      while i < |ids|
        invariant 0 <= i <= |ids| && Valid() && UniqueIds(nodes) && self in nodes
        invariant rank == old(rank) && depth == old(depth) && next == old(next)
        invariant (nodes, items) == RemovedEach(old(nodes), rank, self, ids[..i])
      {
        ghost var before := nodes;
        var item := RemoveChildWithID(self, ids[i]);
        RemovedEachStep(old(nodes), rank, self, ids, i, before, items);
        items := items + [item];
        i := i + 1;
      }
      assert ids[..|ids|] == ids;
    }

    /** The reordering that ends `move(fromID:toID:)`. */
    method PlaceBefore(f: Ref, t: Ref)
      requires Valid() && f in nodes && t in nodes
      modifies this
      ensures Valid() && nodes == PlacedBefore(old(nodes), f, t)
      ensures rank == old(rank) && depth == old(depth) && next == old(next)
      ensures UniqueIds(old(nodes)) ==> UniqueIds(nodes)
    {
      PlaceOk(nodes, rank, depth, next, f, t);
      nodes := PlacedBefore(nodes, f, t);
    }

    /** `self.move(fromID:toID:)`. */
    method Move(self: Ref, fromID: Id, toID: Id)
      requires Valid() && UniqueIds(nodes) && self in nodes
      requires MoveAcyclic(nodes, rank, depth, self, fromID, toID)
      modifies this
      ensures Valid() && UniqueIds(nodes) && next == old(next)
      ensures nodes == Moved(old(nodes), old(rank), self, fromID, toID)
    {
      var from := Search(nodes, rank, self, fromID);
      var to := Search(nodes, rank, self, toID);
      if from.Some? && to.Some? {
        var f, t := from.value, to.value;
        assert Moved(nodes, rank, self, fromID, toID) == MovedNode(nodes, f, t);
        if ParentId(nodes, f) == ParentId(nodes, t) {
          PlaceBefore(f, t);
        } else {
          if nodes[t].parent.Some? {
            MovedAcrossSteps(nodes, rank, depth, self, fromID, toID);
          }
          Detach(f);
          match ParentOf(nodes, t) {
            case Some(q) => AddChild(q, f);
            case None =>
          }
          PlaceBefore(f, t);
        }
      }
    }
  }
}
