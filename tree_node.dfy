/**
 * The generic ownership tree `TreeNode<T>`: node records, the structural
 * invariants that tie parents and children together, and the read-only
 * queries (preorder listings, search, level).
 *
 * The objects of the program are modelled as an arena: a map from the
 * address of a node object (`Ref`) to its record. A node's `id` is a field
 * of the record, as in the program, so two objects may carry the same id.
 */
module TreeNode {
  import opened Wrappers

  /** A node identifier (a UUID in the program); only equality is used. */
  type Id(==, !new)

  /** The address of a node object. */
  type Ref = nat

  /** The stored fields of one node object. The parent is a weak link. */
  datatype Node<T> = Node(id: Id, value: T, hidden: bool, parent: Option<Ref>, children: seq<Ref>)

  type Nodes<T> = map<Ref, Node<T>>

  ghost predicate NoDup<X>(s: seq<X>) {
    forall i, j | 0 <= i < j < |s| :: s[i] != s[j]
  }

  /** `a` is `b` with some elements left out, the rest in their order. */
  ghost predicate IsSubseq<X>(a: seq<X>, b: seq<X>)
    decreases |b|
  {
    a == [] || (b != [] && ((a[0] == b[0] && IsSubseq(a[1..], b[1..])) || IsSubseq(a, b[1..])))
  }

  /** Every child has a smaller rank than its parent: the children links are acyclic. */
  ghost predicate Ranked<T>(m: Nodes<T>, rank: map<Ref, nat>) {
    forall r | r in m ::
      r in rank && forall c | c in m[r].children :: c in m && c in rank && rank[c] < rank[r]
  }

  /** Every parent has a smaller depth than its child: the parent links are acyclic. */
  ghost predicate Leveled<T>(m: Nodes<T>, depth: map<Ref, nat>) {
    forall r | r in m ::
      r in depth &&
      (m[r].parent.Some? ==>
        m[r].parent.value in m && m[r].parent.value in depth && depth[m[r].parent.value] < depth[r])
  }

  /** Parent and children agree: a child lists its parent, a parent lists each child exactly once. */
  ghost predicate Linked<T>(m: Nodes<T>) {
    forall r | r in m ::
      && (m[r].parent.Some? ==> m[r].parent.value in m && r in m[m[r].parent.value].children)
      && NoDup(m[r].children)
      && forall c | c in m[r].children :: c in m && m[c].parent == Some(r)
  }

  /** The structural invariant of a well-formed arena of trees. */
  ghost predicate Wf<T>(m: Nodes<T>, rank: map<Ref, nat>, depth: map<Ref, nat>) {
    Ranked(m, rank) && Leveled(m, depth) && Linked(m)
  }

  /** No two node objects carry the same id. */
  ghost predicate UniqueIds<T>(m: Nodes<T>) {
    forall x, y | x in m && y in m && x != y :: m[x].id != m[y].id
  }

  /** `x` is `a` or lies below `a`: `a` is met walking up the parent links from `x`. */
  ghost predicate Descends<T>(m: Nodes<T>, depth: map<Ref, nat>, x: Ref, a: Ref)
    requires Leveled(m, depth) && x in m
    decreases depth[x]
  {
    x == a || (m[x].parent.Some? && Descends(m, depth, m[x].parent.value, a))
  }

  /**
   * The parent a node's weak `parent` reference reaches: a link to an
   * object that is not in the arena reads as nil.
   */
  function ParentOf<T>(m: Nodes<T>, x: Ref): (r: Option<Ref>)
    requires x in m
    ensures r.Some? ==> r.value in m && m[x].parent == r
    ensures r.None? <==> m[x].parent.None? || m[x].parent.value !in m
  {
    if m[x].parent.Some? && m[x].parent.value in m then m[x].parent else None
  }

  /** The nodes of the subtree rooted at `n`. */
  ghost function Subtree<T>(m: Nodes<T>, depth: map<Ref, nat>, n: Ref): set<Ref>
    requires Leveled(m, depth)
  {
    set x | x in m && Descends(m, depth, x, n)
  }

  // ---------------------------------------------------------------------
  // Queries
  // ---------------------------------------------------------------------

  /** `arrayTreeNode()`: the node, then each child's listing in child order. */
  function Preorder<T>(m: Nodes<T>, ghost rank: map<Ref, nat>, n: Ref): (r: seq<Ref>)
    requires Ranked(m, rank) && n in m
    ensures |r| > 0 && r[0] == n
    ensures forall x | x in r :: x in m
    decreases rank[n], 1, 0
  {
    [n] + PreorderAll(m, rank, m[n].children, rank[n])
  }

  /** The listings of the nodes `cs`, one after the other. */
  function PreorderAll<T>(m: Nodes<T>, ghost rank: map<Ref, nat>, cs: seq<Ref>, ghost above: nat): (r: seq<Ref>)
    requires Ranked(m, rank)
    requires forall c | c in cs :: c in m && rank[c] < above
    ensures forall x | x in r :: x in m
    decreases above, 0, |cs|
  {
    if cs == [] then [] else Preorder(m, rank, cs[0]) + PreorderAll(m, rank, cs[1..], above)
  }

  /** `arrayTreeNodeWithoutHiddenChildren()`: a hidden node contributes itself but not its descendants. */
  function Visible<T>(m: Nodes<T>, ghost rank: map<Ref, nat>, n: Ref): (r: seq<Ref>)
    requires Ranked(m, rank) && n in m
    ensures |r| > 0 && r[0] == n
    ensures forall x | x in r :: x in m
    decreases rank[n], 1, 0
  {
    [n] + if m[n].hidden then [] else VisibleAll(m, rank, m[n].children, rank[n])
  }

  function VisibleAll<T>(m: Nodes<T>, ghost rank: map<Ref, nat>, cs: seq<Ref>, ghost above: nat): (r: seq<Ref>)
    requires Ranked(m, rank)
    requires forall c | c in cs :: c in m && rank[c] < above
    ensures forall x | x in r :: x in m
    decreases above, 0, |cs|
  {
    if cs == [] then [] else Visible(m, rank, cs[0]) + VisibleAll(m, rank, cs[1..], above)
  }

  /** `arrayTreeNodeWithoutRootTreeNode()`: the full listing without its first element. */
  function PreorderWithoutRoot<T>(m: Nodes<T>, ghost rank: map<Ref, nat>, n: Ref): (r: seq<Ref>)
    requires Ranked(m, rank) && n in m
    ensures r == PreorderAll(m, rank, m[n].children, rank[n])
    ensures |r| == |Preorder(m, rank, n)| - 1
  {
    var all := Preorder(m, rank, n);
    all[1..]
  }

  /** `arrayTreeNodeWithoutHiddenChildrenandRoot()`: the visible listing without its first element. */
  function VisibleWithoutRoot<T>(m: Nodes<T>, ghost rank: map<Ref, nat>, n: Ref): (r: seq<Ref>)
    requires Ranked(m, rank) && n in m
    ensures r == if m[n].hidden then [] else VisibleAll(m, rank, m[n].children, rank[n])
    ensures |r| == |Visible(m, rank, n)| - 1
  {
    var all := Visible(m, rank, n);
    all[1..]
  }

  /** `search(id:)`: depth-first, the node itself before its children, first match wins. */
  function Search<T>(m: Nodes<T>, ghost rank: map<Ref, nat>, n: Ref, id: Id): (r: Option<Ref>)
    requires Ranked(m, rank) && n in m
    ensures r.Some? ==> r.value in m && m[r.value].id == id
    decreases rank[n], 1, 0
  {
    if m[n].id == id then Some(n) else SearchAll(m, rank, m[n].children, id, rank[n])
  }

  function SearchAll<T>(m: Nodes<T>, ghost rank: map<Ref, nat>, cs: seq<Ref>, id: Id, ghost above: nat): (r: Option<Ref>)
    requires Ranked(m, rank)
    requires forall c | c in cs :: c in m && rank[c] < above
    ensures r.Some? ==> r.value in m && m[r.value].id == id
    decreases above, 0, |cs|
  {
    if cs == [] then None
    else
      var found := Search(m, rank, cs[0], id);
      if found.Some? then found else SearchAll(m, rank, cs[1..], id, above)
  }

  /** `search(value:)`: as `Search`, comparing payloads. */
  function SearchValue<T(==)>(m: Nodes<T>, ghost rank: map<Ref, nat>, n: Ref, v: T): (r: Option<Ref>)
    requires Ranked(m, rank) && n in m
    ensures r.Some? ==> r.value in m && m[r.value].value == v
    decreases rank[n], 1, 0
  {
    if v == m[n].value then Some(n) else SearchValueAll(m, rank, m[n].children, v, rank[n])
  }

  function SearchValueAll<T(==)>(m: Nodes<T>, ghost rank: map<Ref, nat>, cs: seq<Ref>, v: T, ghost above: nat): (r: Option<Ref>)
    requires Ranked(m, rank)
    requires forall c | c in cs :: c in m && rank[c] < above
    ensures r.Some? ==> r.value in m && m[r.value].value == v
    decreases above, 0, |cs|
  {
    if cs == [] then None
    else
      var found := SearchValue(m, rank, cs[0], v);
      if found.Some? then found else SearchValueAll(m, rank, cs[1..], v, above)
  }

  /**
   * `firstIndex(where: { $0.id == id })`: the first position in `xs` of a
   * node with this id. Also the reference against which `Search` is proved.
   */
  function FirstIndexWithId<T>(m: Nodes<T>, xs: seq<Ref>, id: Id): (r: Option<nat>)
    requires forall x | x in xs :: x in m
    ensures r.None? <==> forall k | 0 <= k < |xs| :: m[xs[k]].id != id
    ensures r.Some? ==> r.value < |xs| && m[xs[r.value]].id == id
    ensures r.Some? ==> forall k | 0 <= k < r.value :: m[xs[k]].id != id
  {
    if xs == [] then None
    else if m[xs[0]].id == id then Some(0)
    else
      var rest := FirstIndexWithId(m, xs[1..], id);
      if rest.Some? then Some(rest.value + 1) else None
  }

  /** The first position in `xs` of a node holding payload `v`. */
  function FirstIndexWithValue<T(==)>(m: Nodes<T>, xs: seq<Ref>, v: T): (r: Option<nat>)
    requires forall x | x in xs :: x in m
    ensures r.None? <==> forall k | 0 <= k < |xs| :: m[xs[k]].value != v
    ensures r.Some? ==> r.value < |xs| && m[xs[r.value]].value == v
    ensures r.Some? ==> forall k | 0 <= k < r.value :: m[xs[k]].value != v
  {
    if xs == [] then None
    else if m[xs[0]].value == v then Some(0)
    else
      var rest := FirstIndexWithValue(m, xs[1..], v);
      if rest.Some? then Some(rest.value + 1) else None
  }

  /** `level`: the number of parent links above the node. */
  function Level<T>(m: Nodes<T>, ghost depth: map<Ref, nat>, n: Ref): (r: nat)
    requires Leveled(m, depth) && n in m
    decreases depth[n]
  {
    if m[n].parent.Some? then 1 + Level(m, depth, m[n].parent.value) else 0
  }

  /** The nodes of `xs` whose level is `k`, in order. */
  function WithLevel<T>(m: Nodes<T>, ghost depth: map<Ref, nat>, xs: seq<Ref>, k: int): (r: seq<Ref>)
    requires Leveled(m, depth) && forall x | x in xs :: x in m
    ensures forall x | x in r :: x in xs && Level(m, depth, x) == k
    ensures forall x | x in xs && Level(m, depth, x) == k :: x in r
    ensures IsSubseq(r, xs)
  {
    if xs == [] then []
    else if Level(m, depth, xs[0]) == k then [xs[0]] + WithLevel(m, depth, xs[1..], k)
    else WithLevel(m, depth, xs[1..], k)
  }

  /** `allchildrenInLevel(k)`: the full listing filtered to the nodes of level `k`. */
  function AllChildrenInLevel<T>(m: Nodes<T>, ghost rank: map<Ref, nat>, ghost depth: map<Ref, nat>, n: Ref, k: int): (r: seq<Ref>)
    requires Ranked(m, rank) && Leveled(m, depth) && n in m
    ensures forall x :: x in r <==> x in Preorder(m, rank, n) && Level(m, depth, x) == k
    ensures IsSubseq(r, Preorder(m, rank, n))
  {
    WithLevel(m, depth, Preorder(m, rank, n), k)
  }
}
