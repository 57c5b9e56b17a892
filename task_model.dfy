/**
 * The task records of the application (`TaskModel`) as values, and the
 * pure rules over a flat, identified array of them: looking a record up
 * by id, `levelOn`, the topmost ancestor `buildTreeNode(with:)` ends at,
 * and which record each step of `IdentifiedArray.asTreeNode()` wraps in a
 * new node.
 */
module TaskModel {
  import opened Wrappers
  import opened TreeNode

  /** `TaskModel`: a task, optionally placed under the task with id `parentID`. */
  datatype Task = Task(id: Id, name: string, isCompleted: bool, parentID: Option<Id>)

  /** `TaskModel()`: the empty task, under the id the program draws at random. */
  function DefaultTask(id: Id): (t: Task)
    ensures t.id == id && t.name == "" && !t.isCompleted && t.parentID.None?
  {
    Task(id, "", false, None)
  }

  /** `asTreeNode()`: the record of the node object that holds a task under the task's id. */
  function AsNode(t: Task): (r: Node<Task>)
    ensures r.id == t.id && r.value == t && !r.hidden && r.parent.None? && r.children == []
  {
    Node(t.id, t, false, None, [])
  }

  /** An identified array holds each id at most once. */
  ghost predicate Identified(arr: seq<Task>) {
    forall i, j | 0 <= i < j < |arr| :: arr[i].id != arr[j].id
  }

  /** `array[id: id]`: the task of the array that carries the id. */
  function Lookup(arr: seq<Task>, id: Id): (r: Option<Task>)
    ensures r.Some? ==> r.value in arr && r.value.id == id
    ensures r.None? <==> forall t | t in arr :: t.id != id
  {
    if arr == [] then None
    else if arr[0].id == id then Some(arr[0])
    else Lookup(arr[1..], id)
  }

  /** In an identified array, lookup finds the one task with the id. */
  lemma {:induction false} LookupIdentified(arr: seq<Task>, i: nat)
    requires Identified(arr) && i < |arr|
    ensures Lookup(arr, arr[i].id) == Some(arr[i])
  {
    if i > 0 {
      assert arr[0].id != arr[i].id;
      assert Identified(arr[1..]) by {
        forall a, b | 0 <= a < b < |arr[1..]| ensures arr[1..][a].id != arr[1..][b].id {
          assert arr[a + 1].id != arr[b + 1].id;
        }
      }
      LookupIdentified(arr[1..], i - 1);
    }
  }

  /** The parent record of `t` in the array, looked up through its `parentID`. */
  function ParentIn(arr: seq<Task>, t: Task): (r: Option<Task>)
    ensures r.Some? <==> t.parentID.Some? && exists u | u in arr :: u.id == t.parentID.value
    ensures r.Some? ==> r.value in arr && Some(r.value.id) == t.parentID
  {
    match t.parentID
    case None => None
    case Some(p) => Lookup(arr, p)
  }

  /**
   * The `parentID` links among the records of the array are acyclic: a
   * parent found in the array has a smaller `ord` than its child.
   */
  ghost predicate Acyclic(arr: seq<Task>, ord: map<Id, nat>) {
    forall t | t in arr ::
      t.id in ord && (ParentIn(arr, t).Some? ==> ParentIn(arr, t).value.id in ord && ord[ParentIn(arr, t).value.id] < ord[t.id])
  }

  /** `levelOn(tasks)`: the number of `parentID` hops from `t` that stay inside the array. */
  function LevelOn(t: Task, tasks: Option<seq<Task>>, ghost ord: map<Id, nat>): (r: nat)
    requires tasks.Some? ==> Acyclic(tasks.value, ord)
    decreases if tasks.Some? && t in tasks.value then 0 else 1, if tasks.Some? && t in tasks.value then ord[t.id] else 0
  {
    if tasks.None? then 0
    else
      match ParentIn(tasks.value, t)
      case Some(parent) => 1 + LevelOn(parent, tasks, ord)
      case None => 0
  }

  /**
   * The record `buildTreeNode(with: t)` wraps: walking up the `parentID`
   * links inside the array until a record whose parent is not there.
   */
  function TopAncestor(arr: seq<Task>, t: Task, ghost ord: map<Id, nat>): (r: Task)
    requires Acyclic(arr, ord)
    ensures r == t || r in arr
    ensures ParentIn(arr, r).None?
    decreases if t in arr then 0 else 1, if t in arr then ord[t.id] else 0
  {
    match ParentIn(arr, t)
    case Some(parent) => TopAncestor(arr, parent, ord)
    case None => t
  }

  /** The record reached from `t` after `k` `parentID` hops inside the array, if the walk lasts that long. */
  function Hops(arr: seq<Task>, t: Task, k: nat): Option<Task>
    decreases k
  {
    if k == 0 then Some(t)
    else
      match ParentIn(arr, t)
      case Some(parent) => Hops(arr, parent, k - 1)
      case None => None
  }

  /**
   * `levelOn` is the length of the walk up the `parentID` links: after
   * exactly that many hops the walk is at the topmost ancestor, and it
   * cannot go one hop further.
   */
  lemma {:induction false} LevelOnIsWalkLength(arr: seq<Task>, t: Task, ord: map<Id, nat>)
    requires Acyclic(arr, ord)
    ensures Hops(arr, t, LevelOn(t, Some(arr), ord)) == Some(TopAncestor(arr, t, ord))
    ensures Hops(arr, t, LevelOn(t, Some(arr), ord) + 1) == None
    decreases if t in arr then 0 else 1, if t in arr then ord[t.id] else 0
  {
    match ParentIn(arr, t)
    case Some(parent) =>
      LevelOnIsWalkLength(arr, parent, ord);
    case None =>
  }

  /** `levelOn` without an array, or for a task whose parent is not in it, is 0; a parent in it adds one. */
  lemma LevelOnZero(arr: seq<Task>, t: Task, ord: map<Id, nat>)
    requires Acyclic(arr, ord)
    ensures LevelOn(t, None, ord) == 0
    ensures LevelOn(t, Some(arr), ord) == 0 <==> TopAncestor(arr, t, ord) == t
  {
    match ParentIn(arr, t)
    case Some(parent) =>
      assert parent in arr && ParentIn(arr, TopAncestor(arr, t, ord)).None?;
      assert TopAncestor(arr, t, ord) != t;
    case None =>
  }

  /**
   * `levelOn` is positive exactly when the parent is found in the array,
   * and for a record of the array it never exceeds the record's place in
   * the acyclic order, so the recursion ends.
   */
  lemma {:induction false} LevelOnBounds(arr: seq<Task>, t: Task, ord: map<Id, nat>)
    requires Acyclic(arr, ord)
    ensures LevelOn(t, Some(arr), ord) > 0 <==> ParentIn(arr, t).Some?
    ensures t in arr ==> LevelOn(t, Some(arr), ord) <= ord[t.id]
    decreases if t in arr then 0 else 1, if t in arr then ord[t.id] else 0
  {
    match ParentIn(arr, t)
    case Some(parent) => LevelOnBounds(arr, parent, ord);
    case None =>
  }

  // ---------------------------------------------------------------------
  // The array builder, on values
  // ---------------------------------------------------------------------

  /** The ids carried by the records of `ts`. */
  ghost function Ids(ts: seq<Task>): set<Id> {
    set t | t in ts :: t.id
  }

  /**
   * Whether `IdentifiedArray.asTreeNode()` hangs the node built for
   * `arr[i]` directly under the root: the record names no parent, or no
   * node built for the first `i` records carries that parent id.
   */
  ghost predicate ToRoot(arr: seq<Task>, ord: map<Id, nat>, i: nat)
    requires Acyclic(arr, ord) && i < |arr|
  {
    arr[i].parentID.None? || arr[i].parentID.value !in Ids(Placed(arr, ord, i))
  }

  /**
   * The record held by each node `IdentifiedArray.asTreeNode()` builds for
   * the first `k` records: the record itself when it has no parent or its
   * parent has a node already, and otherwise the record's topmost
   * ancestor (the node `buildTreeNode(with:)` returns).
   */
  ghost function Placed(arr: seq<Task>, ord: map<Id, nat>, k: nat): (r: seq<Task>)
    requires Acyclic(arr, ord) && k <= |arr|
    ensures |r| == k
    decreases k
  {
    if k == 0 then []
    else
      var before := Placed(arr, ord, k - 1);
      before + [Chosen(arr, ord, arr[k - 1], before)]
  }

  /** The record wrapped for `item` once the records `before` have nodes. */
  ghost function Chosen(arr: seq<Task>, ord: map<Id, nat>, item: Task, before: seq<Task>): (r: Task)
    requires Acyclic(arr, ord)
    ensures r == item || r == TopAncestor(arr, item, ord)
  {
    if item.parentID.None? || item.parentID.value in Ids(before) then item else TopAncestor(arr, item, ord)
  }

  /** Later steps leave earlier choices alone: entry `j` is chosen once the first `j` records have nodes. */
  lemma {:induction false} PlacedAt(arr: seq<Task>, ord: map<Id, nat>, i: nat, j: nat)
    requires Acyclic(arr, ord) && j < i <= |arr|
    ensures Placed(arr, ord, i)[j] == Chosen(arr, ord, arr[j], Placed(arr, ord, j))
    decreases i
  {
    var before := Placed(arr, ord, i - 1);
    assert Placed(arr, ord, i) == before + [Chosen(arr, ord, arr[i - 1], before)];
    if j < i - 1 {
      PlacedAt(arr, ord, i - 1, j);
    }
  }

  /** Each node the builder makes holds its own record or the topmost ancestor of that record. */
  lemma PlacedChoices(arr: seq<Task>, ord: map<Id, nat>, k: nat)
    requires Acyclic(arr, ord) && k <= |arr|
    ensures forall i | 0 <= i < k :: Placed(arr, ord, k)[i] == arr[i] || Placed(arr, ord, k)[i] == TopAncestor(arr, arr[i], ord)
  {
    forall i | 0 <= i < k
      ensures Placed(arr, ord, k)[i] == arr[i] || Placed(arr, ord, k)[i] == TopAncestor(arr, arr[i], ord)
    {
      PlacedAt(arr, ord, k, i);
    }
  }

  /** Every record whose parent is in the array comes after that parent. */
  ghost predicate ParentsFirst(arr: seq<Task>) {
    forall i, j | 0 <= i < |arr| && 0 <= j < |arr| && arr[i].parentID == Some(arr[j].id) :: j < i
  }

  /**
   * When parents come first, every record is wrapped in a node of its own:
   * the builder places exactly the records of the array, in order.
   */
  lemma {:induction false} ParentsFirstPlacesAll(arr: seq<Task>, ord: map<Id, nat>, k: nat)
    requires Acyclic(arr, ord) && ParentsFirst(arr) && k <= |arr|
    ensures Placed(arr, ord, k) == arr[..k]
    decreases k
  {
    if k > 0 {
      ParentsFirstPlacesAll(arr, ord, k - 1);
      var item, before := arr[k - 1], arr[..k - 1];
      assert Chosen(arr, ord, item, before) == item by {
        if item.parentID.Some? && item.parentID.value !in Ids(before) {
          ParentNotYetPlaced(arr, k - 1);
        }
      }
      assert arr[..k] == before + [item];
    }
  }

  /** When parents come first, a parent id without a record before `arr[i]` has no record at all. */
  lemma ParentNotYetPlaced(arr: seq<Task>, i: nat)
    requires ParentsFirst(arr) && i < |arr| && arr[i].parentID.Some? && arr[i].parentID.value !in Ids(arr[..i])
    ensures ParentIn(arr, arr[i]).None?
  {
    var p := arr[i].parentID.value;
    forall j | 0 <= j < |arr| ensures arr[j].id != p {
      assert arr[j].id == p ==> j < i;
      assert j < i ==> arr[..i][j] == arr[j] && arr[j].id in Ids(arr[..i]);
    }
  }

  /**
   * A record listed before its parent is lost: for `[B, A]` with `A` the
   * parent of `B`, the builder wraps `A` twice and `B` never.
   */
  lemma ChildBeforeParentIsLost(a: Task, b: Task)
    requires a.parentID.None? && b.parentID == Some(a.id) && a.id != b.id
    ensures var ord := map[a.id := 0, b.id := 1];
      Acyclic([b, a], ord) && Placed([b, a], ord, 2) == [a, a]
  {
    var arr, ord := [b, a], map[a.id := 0, b.id := 1];
    assert Lookup(arr, a.id) == Some(a) by {
      assert Lookup(arr[1..], a.id) == Some(a);
    }
    assert ParentIn(arr, b) == Some(a);
    assert Acyclic(arr, ord);
    assert TopAncestor(arr, b, ord) == a;
    assert Placed(arr, ord, 1) == [a] by {
      assert Ids(Placed(arr, ord, 0)) == {};
    }
  }
}
