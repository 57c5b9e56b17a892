/**
 * The builders of `TaskModel.swift` that turn task records into node
 * objects: `asTreeNode()` of one record, `buildTreeNode(with:)`, and
 * `asTreeNode()` of an identified array, which hangs one node per record
 * under a new root.
 */
module TaskTreeBuilder {
  import opened Wrappers
  import opened TreeNode
  import opened TreeFacts
  import opened TreeEdit
  import opened TreeArena
  import opened TaskModel

  /** `model.asTreeNode()`: a new node object holding the record under the record's id. */
  method AsTreeNode(a: Arena<Task>, t: Task) returns (n: Ref)
    requires a.Valid()
    modifies a
    ensures a.Valid() && n == old(a.next) && a.next == n + 1 && n !in old(a.nodes)
    ensures a.nodes == old(a.nodes)[n := AsNode(t)]
  {
    n := a.NewNode(t.id, t, false);
  }

  /**
   * `buildTreeNode(with: t)`: walks up the `parentID` links inside the
   * array and returns a new, childless node for the topmost ancestor.
   */
  method BuildTreeNode(a: Arena<Task>, arr: seq<Task>, t: Task, ghost ord: map<Id, nat>) returns (n: Ref)
    requires a.Valid() && Acyclic(arr, ord)
    modifies a
    ensures a.Valid() && n == old(a.next) && a.next == n + 1 && n !in old(a.nodes)
    ensures a.nodes == old(a.nodes)[n := AsNode(TopAncestor(arr, t, ord))]
    decreases if t in arr then 0 else 1, if t in arr then ord[t.id] else 0
  {
    match ParentIn(arr, t)
    case Some(parent) =>
      n := BuildTreeNode(a, arr, parent, ord);
    case None =>
      n := AsTreeNode(a, t);
  }

  // ---------------------------------------------------------------------
  // The shape of the tree built from an array
  // ---------------------------------------------------------------------

  /** References in strictly increasing order: children in the order they were added. */
  ghost predicate Increasing(s: seq<Ref>) {
    forall i, j | 0 <= i < j < |s| :: s[i] < s[j]
  }

  /**
   * Node `root + 1 + j` as the builder leaves it for `arr[j]`: it holds the
   * record `Placed` chooses, and hangs under the root when `ToRoot` says so,
   * else under an earlier node carrying the record's `parentID`.
   */
  ghost predicate NodeFor(m: Nodes<Task>, root: Ref, arr: seq<Task>, ord: map<Id, nat>, j: nat)
    requires Acyclic(arr, ord) && j < |arr|
  {
    var n, t := root + 1 + j, Chosen(arr, ord, arr[j], Placed(arr, ord, j));
    && n in m && m[n].id == t.id && m[n].value == t && !m[n].hidden
    && m[n].parent.Some? && m[n].parent.value in m
    && if ToRoot(arr, ord, j) then m[n].parent.value == root
       else root < m[n].parent.value < n && Some(m[m[n].parent.value].id) == arr[j].parentID
  }

  /**
   * The arena after the builder has handled `arr[..i]`, starting from `m0`:
   * the earlier node objects are untouched, `root` holds the default
   * record, and the nodes `root + 1 + j` are those of `NodeFor`, each with
   * its children in the order they were added.
   */
  ghost predicate Built(m: Nodes<Task>, m0: Nodes<Task>, root: Ref, rootId: Id, rootTaskId: Id,
                        arr: seq<Task>, ord: map<Id, nat>, i: nat)
    requires Acyclic(arr, ord) && i <= |arr|
  {
    && (forall y | y in m0 :: y < root && y in m && m[y] == m0[y])
    && (forall y | y in m :: y in m0 || root <= y <= root + i)
    && (forall y | root <= y <= root + i :: y in m && Increasing(m[y].children))
    && root in m && m[root].id == rootId && m[root].value == DefaultTask(rootTaskId)
    && !m[root].hidden && m[root].parent.None?
    && (forall j | 0 <= j < i :: NodeFor(m, root, arr, ord, j))
  }

  /** Every node of the builder hangs, through earlier nodes, below the root. */
  lemma {:induction false} UnderRoot(m: Nodes<Task>, m0: Nodes<Task>, depth: map<Ref, nat>, root: Ref, rootId: Id, rootTaskId: Id,
                                     arr: seq<Task>, ord: map<Id, nat>, i: nat, j: nat)
    requires Acyclic(arr, ord) && j < i <= |arr| && Leveled(m, depth)
    requires Built(m, m0, root, rootId, rootTaskId, arr, ord, i)
    ensures root + 1 + j in m && Descends(m, depth, root + 1 + j, root)
    decreases j
  {
    assert NodeFor(m, root, arr, ord, j);
    var q := m[root + 1 + j].parent.value;
    if q != root {
      UnderRoot(m, m0, depth, root, rootId, rootTaskId, arr, ord, i, q - root - 1);
    }
  }

  /** Walking up from a node object that was there before never reaches a node that was not. */
  lemma {:induction false} OldNotUnder(m0: Nodes<Task>, d0: map<Ref, nat>, m: Nodes<Task>, d: map<Ref, nat>, y: Ref, r: Ref)
    requires Leveled(m0, d0) && Leveled(m, d) && y in m0 && r !in m0
    requires forall z | z in m0 :: z in m && m[z] == m0[z]
    ensures !Descends(m, d, y, r)
    decreases d0[y]
  {
    if m0[y].parent.Some? {
      OldNotUnder(m0, d0, m, d, m0[y].parent.value, r);
    }
  }

  /** A childless node is nobody's ancestor but its own. */
  lemma LeafNotAbove(m: Nodes<Task>, depth: map<Ref, nat>, q: Ref, n: Ref)
    requires Leveled(m, depth) && Linked(m) && q in m && n in m && m[n].children == [] && q != n
    ensures !Descends(m, depth, q, n)
  {
    if Descends(m, depth, q, n) {
      var c := ChildOnPath(m, depth, q, n);
    }
  }

  /**
   * `rootTreeNode.search(id: pid)` from the root finding a node with an id
   * other than the root's: a node below the root, so not an earlier one.
   */
  lemma FoundIsNew(m: Nodes<Task>, m0: Nodes<Task>, rank: map<Ref, nat>, depth: map<Ref, nat>, d0: map<Ref, nat>,
                   root: Ref, pid: Id, q: Ref)
    requires Wf(m, rank, depth) && Leveled(m0, d0) && root in m && root !in m0
    requires forall z | z in m0 :: z in m && m[z] == m0[z]
    requires pid != m[root].id && Search(m, rank, root, pid) == Some(q)
    ensures q in m && q !in m0 && q != root && m[q].id == pid
  {
    SearchInSubtree(m, rank, depth, root, pid);
    if q in m0 {
      OldNotUnder(m0, d0, m, depth, q, root);
    }
  }

  /** A node built for an earlier record carrying `pid`: `pid` is the id of a record already wrapped. */
  lemma FoundPlaced(m: Nodes<Task>, root: Ref, arr: seq<Task>, ord: map<Id, nat>, i: nat, j: nat, pid: Id)
    requires Acyclic(arr, ord) && j < i <= |arr| && NodeFor(m, root, arr, ord, j) && m[root + 1 + j].id == pid
    ensures pid in Ids(Placed(arr, ord, i))
  {
    PlacedAt(arr, ord, i, j);
    var t := Placed(arr, ord, i)[j];
    assert t in Placed(arr, ord, i) && t.id == pid;
  }

  /**
   * `rootTreeNode.search(id: pid)` finding a node: it is one built for an
   * earlier record, so `pid` is the id of a record already wrapped.
   */
  lemma SearchFound(m: Nodes<Task>, m0: Nodes<Task>, rank: map<Ref, nat>, depth: map<Ref, nat>, d0: map<Ref, nat>,
                    root: Ref, rootId: Id, rootTaskId: Id, arr: seq<Task>, ord: map<Id, nat>, i: nat, pid: Id, q: Ref)
    requires Acyclic(arr, ord) && i < |arr| && Wf(m, rank, depth) && Leveled(m0, d0)
    requires Built(m, m0, root, rootId, rootTaskId, arr, ord, i)
    requires pid != rootId && Search(m, rank, root, pid) == Some(q)
    ensures root < q <= root + i && q in m && m[q].id == pid
    ensures pid in Ids(Placed(arr, ord, i))
  {
    FoundIsNew(m, m0, rank, depth, d0, root, pid, q);
    var j := q - root - 1;
    assert NodeFor(m, root, arr, ord, j);
    FoundPlaced(m, root, arr, ord, i, j, pid);
  }

  /**
   * `rootTreeNode.search(id: pid)` finding nothing: no record wrapped so
   * far carries `pid`.
   */
  lemma SearchMissed(m: Nodes<Task>, m0: Nodes<Task>, rank: map<Ref, nat>, depth: map<Ref, nat>,
                     root: Ref, rootId: Id, rootTaskId: Id, arr: seq<Task>, ord: map<Id, nat>, i: nat, pid: Id)
    requires Acyclic(arr, ord) && i < |arr| && Wf(m, rank, depth)
    requires Built(m, m0, root, rootId, rootTaskId, arr, ord, i)
    requires Search(m, rank, root, pid) == None
    ensures pid !in Ids(Placed(arr, ord, i))
  {
    SearchInSubtree(m, rank, depth, root, pid);
    forall t | t in Placed(arr, ord, i) ensures t.id != pid {
      var j :| 0 <= j < i && Placed(arr, ord, i)[j] == t;
      PlacedAt(arr, ord, i, j);
      UnderRoot(m, m0, depth, root, rootId, rootTaskId, arr, ord, i, j);
      assert NodeFor(m, root, arr, ord, j);
    }
  }

  /** What one step of the builder does: a new node `n` holding `t`, appended to the children of `p`. */
  ghost predicate Stepped(m: Nodes<Task>, m2: Nodes<Task>, n: Ref, p: Ref, t: Task) {
    && n !in m && p in m && m2.Keys == m.Keys + {n}
    && m2[n] == AsNode(t).(parent := Some(p))
    && m2[p] == m[p].(children := m[p].children + [n])
    && forall y | y in m && y != p :: m2[y] == m[y]
  }

  lemma SteppedByAttach(m: Nodes<Task>, n: Ref, p: Ref, t: Task)
    requires n !in m && p in m
    ensures Stepped(m, WithChild(m[n := AsNode(t)], p, n), n, p, t)
  {
  }

  /** Appending a reference above all the others keeps the order increasing. */
  lemma IncreasingSnoc(s: seq<Ref>, n: Ref)
    requires Increasing(s) && forall c | c in s :: c < n
    ensures Increasing(s + [n])
  {
    forall i, j | 0 <= i < j < |s + [n]| ensures (s + [n])[i] < (s + [n])[j] {
      if j == |s| {
        assert s[i] in s;
      }
    }
  }

  /** After one step, the nodes of the earlier steps and the earlier node objects are as they were. */
  lemma StepFrame(m: Nodes<Task>, m2: Nodes<Task>, m0: Nodes<Task>, root: Ref, rootId: Id, rootTaskId: Id,
                  arr: seq<Task>, ord: map<Id, nat>, i: nat, p: Ref, t: Task)
    requires Acyclic(arr, ord) && i < |arr| && ChildrenKnown(m)
    requires Built(m, m0, root, rootId, rootTaskId, arr, ord, i)
    requires root <= p <= root + i && Stepped(m, m2, root + 1 + i, p, t)
    ensures forall y | y in m0 :: y < root && y in m2 && m2[y] == m0[y]
    ensures forall y | y in m2 :: y in m0 || root <= y <= root + i + 1
    ensures forall y | root <= y <= root + i + 1 :: y in m2 && Increasing(m2[y].children)
    ensures root in m2 && m2[root].id == rootId && m2[root].value == DefaultTask(rootTaskId)
    ensures !m2[root].hidden && m2[root].parent.None?
  {
    var n := root + 1 + i;
    forall c | c in m[p].children ensures c < n {
      assert c in m;
    }
    IncreasingSnoc(m[p].children, n);
  }

  /** After one step, the node `NodeFor` describes for an earlier record is still as it was. */
  lemma StepKeepsNode(m: Nodes<Task>, m2: Nodes<Task>, root: Ref, arr: seq<Task>, ord: map<Id, nat>, n: Ref, p: Ref, t: Task, j: nat)
    requires Acyclic(arr, ord) && j < |arr| && NodeFor(m, root, arr, ord, j) && Stepped(m, m2, n, p, t)
    ensures NodeFor(m2, root, arr, ord, j)
  {
    var q := m[root + 1 + j].parent.value;
    assert m2[q].id == m[q].id;
    assert m2[root + 1 + j] == m[root + 1 + j] || m2[root + 1 + j] == m[root + 1 + j].(children := m2[root + 1 + j].children);
  }

  /** One step of the loop of `IdentifiedArray.asTreeNode()` keeps `Built`, one record further. */
  lemma BuiltStep(m: Nodes<Task>, m2: Nodes<Task>, m0: Nodes<Task>, root: Ref, rootId: Id, rootTaskId: Id,
                  arr: seq<Task>, ord: map<Id, nat>, i: nat, p: Ref, t: Task)
    requires Acyclic(arr, ord) && i < |arr| && ChildrenKnown(m)
    requires Built(m, m0, root, rootId, rootTaskId, arr, ord, i)
    requires t == Chosen(arr, ord, arr[i], Placed(arr, ord, i))
    requires ToRoot(arr, ord, i) ==> p == root
    requires !ToRoot(arr, ord, i) ==> root < p <= root + i && p in m && Some(m[p].id) == arr[i].parentID
    requires Stepped(m, m2, root + 1 + i, p, t)
    ensures Built(m2, m0, root, rootId, rootTaskId, arr, ord, i + 1)
  {
    StepFrame(m, m2, m0, root, rootId, rootTaskId, arr, ord, i, p, t);
    forall j | 0 <= j <= i ensures NodeFor(m2, root, arr, ord, j) {
      if j < i {
        StepKeepsNode(m, m2, root, arr, ord, root + 1 + i, p, t, j);
      } else {
        StepMakesNode(m, m2, root, arr, ord, i, p, t);
      }
    }
  }

  /** The node one step adds is the one `NodeFor` describes for its record. */
  lemma StepMakesNode(m: Nodes<Task>, m2: Nodes<Task>, root: Ref, arr: seq<Task>, ord: map<Id, nat>, i: nat, p: Ref, t: Task)
    requires Acyclic(arr, ord) && i < |arr|
    requires t == Chosen(arr, ord, arr[i], Placed(arr, ord, i))
    requires ToRoot(arr, ord, i) ==> p == root
    requires !ToRoot(arr, ord, i) ==> root < p <= root + i && p in m && Some(m[p].id) == arr[i].parentID
    requires Stepped(m, m2, root + 1 + i, p, t)
    ensures NodeFor(m2, root, arr, ord, i)
  {
    assert m2[p].id == m[p].id;
  }

  /** The arena right after the root is made: `Built` for no records yet. */
  lemma BuiltStart(m: Nodes<Task>, m0: Nodes<Task>, root: Ref, rootId: Id, rootTaskId: Id, arr: seq<Task>, ord: map<Id, nat>)
    requires Acyclic(arr, ord) && root !in m0 && forall y | y in m0 :: y < root
    requires m == m0[root := Node(rootId, DefaultTask(rootTaskId), false, None, [])]
    ensures Built(m, m0, root, rootId, rootTaskId, arr, ord, 0)
  {
  }

  /** Once every record is handled, every node built hangs below the root. */
  lemma AllUnderRoot(m: Nodes<Task>, m0: Nodes<Task>, depth: map<Ref, nat>, root: Ref, rootId: Id, rootTaskId: Id,
                     arr: seq<Task>, ord: map<Id, nat>)
    requires Acyclic(arr, ord) && Leveled(m, depth)
    requires Built(m, m0, root, rootId, rootTaskId, arr, ord, |arr|)
    ensures forall y | root < y <= root + |arr| :: y in m && Descends(m, depth, y, root)
  {
    forall y | root < y <= root + |arr| ensures y in m && Descends(m, depth, y, root) {
      UnderRoot(m, m0, depth, root, rootId, rootTaskId, arr, ord, |arr|, y - root - 1);
    }
  }

  /**
   * The first half of the loop body of `IdentifiedArray.asTreeNode()` for
   * `arr[i]`: `search(id:)` for the parent id, and the new node for the
   * record, together with the node it is to be added to.
   */
  method NewItemNode(a: Arena<Task>, root: Ref, rootId: Id, rootTaskId: Id, arr: seq<Task>, i: nat,
                     ghost ord: map<Id, nat>, ghost m0: Nodes<Task>, ghost d0: map<Ref, nat>) returns (n: Ref, p: Ref)
    requires Acyclic(arr, ord) && i < |arr| && a.Valid() && a.next == root + 1 + i && Leveled(m0, d0)
    requires Built(a.nodes, m0, root, rootId, rootTaskId, arr, ord, i)
    requires forall u | u in arr :: u.parentID != Some(rootId)
    modifies a
    ensures a.Valid() && n == root + 1 + i && a.next == n + 1 && n !in old(a.nodes)
    ensures a.nodes == old(a.nodes)[n := AsNode(Chosen(arr, ord, arr[i], Placed(arr, ord, i)))]
    ensures ToRoot(arr, ord, i) ==> p == root
    ensures !ToRoot(arr, ord, i) ==> root < p <= root + i && p in old(a.nodes) && Some(old(a.nodes)[p].id) == arr[i].parentID
  {
    ghost var m := a.nodes;
    var item := arr[i];
    match item.parentID {
      case None =>
        n := AsTreeNode(a, item);
        p := root;
      case Some(pid) =>
        var found := Search(a.nodes, a.rank, root, pid);
        match found {
          case Some(q) =>
            SearchFound(m, m0, a.rank, a.depth, d0, root, rootId, rootTaskId, arr, ord, i, pid, q);
            n := AsTreeNode(a, item);
            p := q;
          case None =>
            SearchMissed(m, m0, a.rank, a.depth, root, rootId, rootTaskId, arr, ord, i, pid);
            n := BuildTreeNode(a, arr, item, ord);
            p := root;
        }
    }
  }

  /**
   * The body of the loop of `IdentifiedArray.asTreeNode()` for `arr[i]`:
   * the new node of `NewItemNode`, then `addChild` of it to the node found,
   * or to the root.
   */
  method PlaceItem(a: Arena<Task>, root: Ref, rootId: Id, rootTaskId: Id, arr: seq<Task>, i: nat,
                   ghost ord: map<Id, nat>, ghost m0: Nodes<Task>, ghost d0: map<Ref, nat>)
    requires Acyclic(arr, ord) && i < |arr| && a.Valid() && a.next == root + 1 + i && Leveled(m0, d0)
    requires Built(a.nodes, m0, root, rootId, rootTaskId, arr, ord, i)
    requires forall u | u in arr :: u.parentID != Some(rootId)
    modifies a
    ensures a.Valid() && a.next == root + 2 + i
    ensures Built(a.nodes, m0, root, rootId, rootTaskId, arr, ord, i + 1)
  {
    ghost var m := a.nodes;
    assert ChildrenKnown(m);
    var n, p := NewItemNode(a, root, rootId, rootTaskId, arr, i, ord, m0, d0);
    ghost var t := Chosen(arr, ord, arr[i], Placed(arr, ord, i));
    LeafNotAbove(a.nodes, a.depth, p, n);
    ghost var mn := a.nodes;
    a.AddChild(p, n);
    WithChildFrame(mn, p, n);
    SteppedByAttach(m, n, p, t);
    BuiltStep(m, a.nodes, m0, root, rootId, rootTaskId, arr, ord, i, p, t);
  }

  /**
   * `IdentifiedArray.asTreeNode()`: a new root holding the default record,
   * and one new node per record of the array, in array order. A record
   * whose parent id is already in the tree is appended to the first node
   * `search(id:)` finds with that id; any other record hangs under the
   * root, wrapped as itself when it has no parent id and as its topmost
   * ancestor otherwise. Every node built ends up below the root.
   */
  method ArrayAsTreeNode(a: Arena<Task>, arr: seq<Task>, rootId: Id, rootTaskId: Id, ghost ord: map<Id, nat>) returns (root: Ref)
    requires a.Valid() && Acyclic(arr, ord)
    requires forall u | u in arr :: u.parentID != Some(rootId)
    modifies a
    ensures a.Valid() && root == old(a.next) && a.next == root + 1 + |arr|
    ensures Built(a.nodes, old(a.nodes), root, rootId, rootTaskId, arr, ord, |arr|)
    ensures forall y | root < y < a.next :: y in a.nodes && Descends(a.nodes, a.depth, y, root)
  {
    ghost var m0, d0 := a.nodes, a.depth;
    assert Leveled(m0, d0);
    root := a.NewNode(rootId, DefaultTask(rootTaskId), false);
    BuiltStart(a.nodes, m0, root, rootId, rootTaskId, arr, ord);
    var i := 0;
    while i < |arr|
      invariant 0 <= i <= |arr| && a.Valid() && a.next == root + 1 + i
      invariant Built(a.nodes, m0, root, rootId, rootTaskId, arr, ord, i)
    {
      PlaceItem(a, root, rootId, rootTaskId, arr, i, ord, m0, d0);
      i := i + 1;
    }
    AllUnderRoot(a.nodes, m0, a.depth, root, rootId, rootTaskId, arr, ord);
  }

  // ---------------------------------------------------------------------
  // The finished tree
  // ---------------------------------------------------------------------

  /**
   * The children of the root are exactly the nodes built for the records
   * `ToRoot` sends there, in array order.
   */
  lemma RootChildren(m: Nodes<Task>, m0: Nodes<Task>, root: Ref, rootId: Id, rootTaskId: Id, arr: seq<Task>, ord: map<Id, nat>)
    requires Acyclic(arr, ord) && Linked(m) && Linked(m0)
    requires Built(m, m0, root, rootId, rootTaskId, arr, ord, |arr|)
    ensures Increasing(m[root].children)
    ensures forall c | c in m[root].children :: root < c <= root + |arr|
    ensures forall j | 0 <= j < |arr| :: root + 1 + j in m[root].children <==> ToRoot(arr, ord, j)
  {
    forall c | c in m[root].children ensures root < c <= root + |arr| {
      assert m[c].parent == Some(root);
    }
    forall j | 0 <= j < |arr| ensures root + 1 + j in m[root].children <==> ToRoot(arr, ord, j) {
      assert NodeFor(m, root, arr, ord, j);
    }
  }

  /** When parents come first, node `root + 1 + j` holds `arr[j]` itself. */
  lemma NodeHolds(m: Nodes<Task>, m0: Nodes<Task>, root: Ref, rootId: Id, rootTaskId: Id, arr: seq<Task>, ord: map<Id, nat>, j: nat)
    requires Acyclic(arr, ord) && ParentsFirst(arr) && j < |arr|
    requires Built(m, m0, root, rootId, rootTaskId, arr, ord, |arr|)
    ensures root + 1 + j in m && m[root + 1 + j].value == arr[j] && m[root + 1 + j].id == arr[j].id
  {
    assert NodeFor(m, root, arr, ord, j);
    ParentsFirstPlacesAll(arr, ord, j + 1);
    PlacedAt(arr, ord, j + 1, j);
    assert Placed(arr, ord, j + 1)[j] == arr[..j + 1][j] == arr[j];
  }

  /** When parents come first, a record whose parent is not in the array hangs under the root. */
  lemma TopRecordUnderRoot(m: Nodes<Task>, m0: Nodes<Task>, root: Ref, rootId: Id, rootTaskId: Id, arr: seq<Task>, ord: map<Id, nat>, j: nat)
    requires Acyclic(arr, ord) && ParentsFirst(arr) && j < |arr| && ParentIn(arr, arr[j]).None?
    requires Built(m, m0, root, rootId, rootTaskId, arr, ord, |arr|)
    ensures root + 1 + j in m && m[root + 1 + j].parent == Some(root)
  {
    assert NodeFor(m, root, arr, ord, j);
    ParentsFirstPlacesAll(arr, ord, j);
  }

  /**
   * When parents come first and ids are unique, the node built for a record
   * whose parent is `arr[k]` hangs under the node built for `arr[k]`.
   */
  lemma ChildUnderParent(m: Nodes<Task>, m0: Nodes<Task>, root: Ref, rootId: Id, rootTaskId: Id, arr: seq<Task>, ord: map<Id, nat>, j: nat, k: nat)
    requires Acyclic(arr, ord) && ParentsFirst(arr) && Identified(arr) && j < |arr| && k < |arr|
    requires ParentIn(arr, arr[j]) == Some(arr[k])
    requires Built(m, m0, root, rootId, rootTaskId, arr, ord, |arr|)
    ensures k < j && root + 1 + j in m && m[root + 1 + j].parent == Some(root + 1 + k)
  {
    assert NodeFor(m, root, arr, ord, j);
    ParentsFirstPlacesAll(arr, ord, j);
    assert arr[..j][k] == arr[k];
    assert !ToRoot(arr, ord, j);
    var q := m[root + 1 + j].parent.value;
    var i := q - root - 1;
    NodeHolds(m, m0, root, rootId, rootTaskId, arr, ord, i);
    assert arr[i].id == arr[k].id;
  }

  /**
   * When parents come first and ids are unique, the level of the node
   * built for `arr[j]` is one more than `levelOn` of the record: the root
   * is at level 0 and every hop up the `parentID` links is one node up.
   */
  lemma {:induction false} BuiltLevel(m: Nodes<Task>, depth: map<Ref, nat>, m0: Nodes<Task>, root: Ref, rootId: Id, rootTaskId: Id,
                                      arr: seq<Task>, ord: map<Id, nat>, j: nat)
    requires Acyclic(arr, ord) && ParentsFirst(arr) && Identified(arr) && j < |arr| && Leveled(m, depth)
    requires Built(m, m0, root, rootId, rootTaskId, arr, ord, |arr|)
    ensures root + 1 + j in m && Level(m, depth, root + 1 + j) == LevelOn(arr[j], Some(arr), ord) + 1
    decreases j
  {
    match ParentIn(arr, arr[j]) {
      case None =>
        TopRecordUnderRoot(m, m0, root, rootId, rootTaskId, arr, ord, j);
      case Some(parent) =>
        var k :| 0 <= k < |arr| && arr[k] == parent;
        ChildUnderParent(m, m0, root, rootId, rootTaskId, arr, ord, j, k);
        BuiltLevel(m, depth, m0, root, rootId, rootTaskId, arr, ord, k);
    }
  }
}
