/**
 * The in-place edits of `TreeNode`, each stated as the new arena it
 * produces from the old one: `addChild`, `removeAll(where:)` on a
 * parent's children followed by clearing the parent link, a single-offset
 * `moveChildren`, `removeChildWithID`, `removeChildrenWithIDs` and
 * `move(fromID:toID:)`. The lemmas say what each edit keeps and changes.
 */
module TreeEdit {
  import opened Wrappers
  import opened TreeNode
  import opened TreeFacts

  // ---------------------------------------------------------------------
  // Sequence edits
  // ---------------------------------------------------------------------

  /** `children.removeAll(where: { $0.id == id })`. */
  function WithoutId<T>(m: Nodes<T>, cs: seq<Ref>, id: Id): (r: seq<Ref>)
    requires forall c | c in cs :: c in m
    ensures forall c :: c in r <==> c in cs && m[c].id != id
    ensures NoDup(cs) ==> NoDup(r)
  {
    if cs == [] then []
    else
      var rest := WithoutId(m, cs[1..], id);
      NoDupTail(cs);
      if m[cs[0]].id == id then rest else [cs[0]] + rest
  }

  /** Dropping the head keeps a sequence free of repeats, and the head is not in the rest. */
  lemma NoDupTail<X>(s: seq<X>)
    requires s != []
    ensures NoDup(s) ==> NoDup(s[1..]) && s[0] !in s[1..]
  {
    if NoDup(s) {
      forall i, j | 0 <= i < j < |s[1..]| ensures s[1..][i] != s[1..][j] {
        assert s[1..][i] == s[i + 1] && s[1..][j] == s[j + 1];
      }
    }
  }

  function RemoveAt<X>(s: seq<X>, i: nat): (r: seq<X>)
    requires i < |s|
  {
    s[..i] + s[i + 1..]
  }

  /** Removing past the head keeps the head in front. */
  lemma RemoveAtCons<X>(s: seq<X>, k: nat)
    requires 0 < k < |s|
    ensures RemoveAt(s, k) == [s[0]] + RemoveAt(s[1..], k - 1)
  {
    assert s[..k] == [s[0]] + s[1..][..k - 1];
    assert s[k + 1..] == s[1..][k..];
  }

  function InsertAt<X>(s: seq<X>, k: nat, x: X): (r: seq<X>)
    requires k <= |s|
  {
    s[..k] + [x] + s[k..]
  }

  /**
   * Foundation's `move(fromOffsets: [i], toOffset: j)`: the element at `i`
   * goes in front of the element that was at `j` (to the end when `j` is
   * the length).
   */
  function MoveOffset<X>(s: seq<X>, i: nat, j: nat): (r: seq<X>)
    requires i < |s| && j <= |s|
    ensures |r| == |s| && r[MovedTo(i, j)] == s[i]
  {
    if j <= i then s[..j] + [s[i]] + s[j..i] + s[i + 1..]
    else s[..i] + s[i + 1..j] + [s[i]] + s[j..]
  }

  /** Where the moved element ends up. */
  function MovedTo(i: nat, j: nat): nat {
    if j <= i then j else j - 1
  }

  /** `MoveOffset` is removing the element and inserting it again in front of the old `s[j]`. */
  lemma MoveOffsetIsRemoveInsert<X>(s: seq<X>, i: nat, j: nat)
    requires i < |s| && j <= |s|
    ensures MovedTo(i, j) <= |RemoveAt(s, i)|
    ensures MoveOffset(s, i, j) == InsertAt(RemoveAt(s, i), MovedTo(i, j), s[i])
  {
    var rest := RemoveAt(s, i);
    var k := MovedTo(i, j);
    if j <= i {
      assert rest[..k] == s[..j];
      assert rest[k..] == s[j..i] + s[i + 1..];
    } else {
      assert rest[..k] == s[..i] + s[i + 1..j];
      assert rest[k..] == s[j..];
    }
  }

  /** Moving the last element in front of position `j` inserts it there. */
  lemma MoveLastIsInsert<X>(s: seq<X>, x: X, j: nat)
    requires j <= |s|
    ensures MoveOffset(s + [x], |s|, j) == InsertAt(s, j, x)
  {
    var t := s + [x];
    assert t[..j] == s[..j] && t[j..|s|] == s[j..] && t[|s| + 1..] == [];
  }

  /** A single-offset move permutes the sequence and puts the element in front of the old `s[j]`. */
  lemma MoveOffsetFacts<X>(s: seq<X>, i: nat, j: nat)
    requires i < |s| && j <= |s|
    ensures |MoveOffset(s, i, j)| == |s|
    ensures multiset(MoveOffset(s, i, j)) == multiset(s)
    ensures MoveOffset(s, i, j)[MovedTo(i, j)] == s[i]
    ensures j < |s| && j != i ==> MoveOffset(s, i, j)[MovedTo(i, j) + 1] == s[j]
  {
    if j <= i {
      MoveBackFacts(s, i, j);
    } else {
      MoveForwardFacts(s, i, j);
    }
  }

  lemma MoveBackFacts<X>(s: seq<X>, i: nat, j: nat)
    requires j <= i < |s|
    ensures |MoveOffset(s, i, j)| == |s|
    ensures multiset(MoveOffset(s, i, j)) == multiset(s)
    ensures MoveOffset(s, i, j)[j] == s[i]
    ensures j != i ==> MoveOffset(s, i, j)[j + 1] == s[j]
  {
    var a, b, c := s[..j], s[j..i], s[i + 1..];
    assert MoveOffset(s, i, j) == a + [s[i]] + b + c;
    assert s == a + b + [s[i]] + c;
    MultisetSwap(a, [s[i]], b, c);
  }

  lemma MoveForwardFacts<X>(s: seq<X>, i: nat, j: nat)
    requires i < j <= |s|
    ensures |MoveOffset(s, i, j)| == |s|
    ensures multiset(MoveOffset(s, i, j)) == multiset(s)
    ensures MoveOffset(s, i, j)[j - 1] == s[i]
    ensures j < |s| ==> MoveOffset(s, i, j)[j] == s[j]
  {
    var a, b, c := s[..i], s[i + 1..j], s[j..];
    assert MoveOffset(s, i, j) == a + b + [s[i]] + c;
    assert s == a + [s[i]] + b + c;
    MultisetSwap(a, b, [s[i]], c);
  }

  /** Swapping two adjacent blocks keeps the multiset. */
  lemma MultisetSwap<X>(a: seq<X>, b: seq<X>, c: seq<X>, d: seq<X>)
    ensures multiset(a + b + c + d) == multiset(a + c + b + d)
  {
    calc {
      multiset(a + b + c + d);
      multiset(a) + multiset(b) + multiset(c) + multiset(d);
      multiset(a + c + b + d);
    }
  }

  lemma {:induction false} NoDupCount<X>(s: seq<X>, x: X)
    requires NoDup(s)
    ensures multiset(s)[x] <= 1
  {
    if s != [] {
      var tail := s[1..];
      assert NoDup(tail) by {
        forall i, j | 0 <= i < j < |tail| ensures tail[i] != tail[j] {
          assert tail[i] == s[i + 1] && tail[j] == s[j + 1];
        }
      }
      NoDupCount(tail, x);
      assert s == [s[0]] + tail;
      assert s[0] !in tail;
    }
  }

  /** A permutation of a sequence without duplicates has none. */
  lemma PermutationKeepsNoDup<X>(s: seq<X>, r: seq<X>)
    requires NoDup(s) && multiset(r) == multiset(s)
    ensures NoDup(r)
  {
    forall a, b | 0 <= a < b < |r|
      ensures r[a] != r[b]
    {
      if r[a] == r[b] {
        var x := r[a];
        assert r == r[..b] + r[b..];
        assert x in r[..b] && x in r[b..];
        assert multiset(r)[x] == multiset(r[..b])[x] + multiset(r[b..])[x];
        NoDupCount(s, x);
      }
    }
  }

  // ---------------------------------------------------------------------
  // Arena edits
  // ---------------------------------------------------------------------

  /** Every child link points at a node of the arena. */
  ghost predicate ChildrenKnown<T>(m: Nodes<T>) {
    forall y | y in m :: forall c | c in m[y].children :: c in m
  }

  /** A new node object, without parent or children, keeps the arena well-formed. */
  lemma FreshWf<T>(m: Nodes<T>, rank: map<Ref, nat>, depth: map<Ref, nat>, n: Ref, node: Node<T>)
    requires Wf(m, rank, depth) && n !in m && node.parent.None? && node.children == []
    ensures Wf(m[n := node], rank[n := 0], depth[n := 0])
    ensures UniqueIds(m) && (forall y | y in m :: m[y].id != node.id) ==> UniqueIds(m[n := node])
  {
    var r := m[n := node];
    forall y | y in r
      ensures y in rank[n := 0] && forall c | c in r[y].children :: c in r && c in rank[n := 0] && rank[n := 0][c] < rank[n := 0][y]
    {
      if y != n {
        forall c | c in r[y].children ensures c != n {
          assert c in m;
        }
      }
    }
    forall y | y in r
      ensures r[y].parent.Some? ==> r[y].parent.value in r && y in r[r[y].parent.value].children
      ensures NoDup(r[y].children)
      ensures forall c | c in r[y].children :: c in r && r[c].parent == Some(y)
    {
      if y != n {
        forall c | c in r[y].children ensures c != n {
          assert c in m;
        }
        if m[y].parent.Some? {
          assert m[y].parent.value != n;
        }
      }
    }
    forall y | y in r && r[y].parent.Some?
      ensures r[y].parent.value in r && r[y].parent.value in depth[n := 0] && depth[n := 0][r[y].parent.value] < depth[n := 0][y]
    {
      assert y != n;
      assert m[y].parent.value != n;
    }
  }

  /** `addChild(c)` on `p`: `c` is appended to `p`'s children and its parent becomes `p`. */
  function WithChild<T>(m: Nodes<T>, p: Ref, c: Ref): (r: Nodes<T>)
    requires p in m && c in m
    ensures r.Keys == m.Keys
    ensures r[c].parent == Some(p) && c in r[p].children
  {
    var m1 := m[p := m[p].(children := m[p].children + [c])];
    m1[c := m1[c].(parent := Some(p))]
  }

  /** `addChild` keeps every id and adds no child other than `c`. */
  lemma WithChildFrame<T>(m: Nodes<T>, p: Ref, c: Ref)
    requires p in m && c in m
    ensures forall y | y in WithChild(m, p, c) :: WithChild(m, p, c)[y].id == m[y].id
    ensures forall y | y in WithChild(m, p, c) :: forall d | d in WithChild(m, p, c)[y].children :: d in m[y].children || d == c
  {
  }

  /** `addChildren(cs)` on `p`: `addChild` for each node of `cs` in turn. */
  function WithChildren<T>(m: Nodes<T>, p: Ref, cs: seq<Ref>): (r: Nodes<T>)
    requires p in m && forall c | c in cs :: c in m
    ensures r.Keys == m.Keys
    decreases |cs|
  {
    if cs == [] then m else WithChild(WithChildren(m, p, cs[..|cs| - 1]), p, cs[|cs| - 1])
  }

  /**
   * `x.parent?.children.removeAll(where: { $0.id == x.id })` followed by
   * `x.parent = nil`.
   */
  function Detached<T>(m: Nodes<T>, x: Ref): (r: Nodes<T>)
    requires x in m && ChildrenKnown(m)
    ensures r.Keys == m.Keys && r[x].parent.None?
    ensures forall y | y in r :: r[y].id == m[y].id
    ensures forall y | y in r :: forall c | c in r[y].children :: c in m[y].children
  {
    var m1 :=
      match ParentOf(m, x)
      case Some(p) => m[p := m[p].(children := WithoutId(m, m[p].children, m[x].id))]
      case None => m;
    m1[x := m1[x].(parent := None)]
  }

  /** `moveChildren(fromOffsets: [i], toOffset: j)` on `p`. */
  function Reordered<T>(m: Nodes<T>, p: Ref, i: nat, j: nat): (r: Nodes<T>)
    requires p in m && i < |m[p].children| && j <= |m[p].children|
    ensures r.Keys == m.Keys
    ensures forall y | y in r :: r[y].id == m[y].id
  {
    m[p := m[p].(children := MoveOffset(m[p].children, i, j))]
  }

  // ---------------------------------------------------------------------
  // Detaching
  // ---------------------------------------------------------------------

  /** With unique ids, removing by id removes exactly the one node that carries it. */
  lemma {:induction false} WithoutIdRemovesOne<T>(m: Nodes<T>, cs: seq<Ref>, k: nat)
    requires UniqueIds(m) && NoDup(cs) && k < |cs| && forall c | c in cs :: c in m
    ensures WithoutId(m, cs, m[cs[k]].id) == RemoveAt(cs, k)
  {
    var x := cs[k];
    NoDupTail(cs);
    if k == 0 {
      WithoutIdKeepsAll(m, cs[1..], m[x].id);
      assert RemoveAt(cs, 0) == cs[1..];
    } else {
      assert cs[0] != x && m[cs[0]].id != m[x].id;
      assert cs[1..][k - 1] == x;
      WithoutIdRemovesOne(m, cs[1..], k - 1);
      RemoveAtCons(cs, k);
    }
  }

  /** Removing an id nobody in `cs` carries changes nothing. */
  lemma {:induction false} WithoutIdKeepsAll<T>(m: Nodes<T>, cs: seq<Ref>, id: Id)
    requires forall c | c in cs :: c in m && m[c].id != id
    ensures WithoutId(m, cs, id) == cs
  {
    if cs != [] {
      assert cs[0] in cs && forall c | c in cs[1..] :: c in cs;
      WithoutIdKeepsAll(m, cs[1..], id);
      assert [cs[0]] + cs[1..] == cs;
    }
  }

  /** Where the node sits among its parent's children. */
  function IndexIn(cs: seq<Ref>, x: Ref): (k: nat)
    requires x in cs
    ensures k < |cs| && cs[k] == x
  {
    if cs[0] == x then 0 else 1 + IndexIn(cs[1..], x)
  }

  /**
   * Detaching a node (`removeChildWithID` once the node is found) keeps the
   * arena well-formed under the same measures. The node loses its parent,
   * its old parent loses exactly that child in place, every other link,
   * every id, payload and hidden flag stays.
   */
  lemma DetachedWf<T>(m: Nodes<T>, rank: map<Ref, nat>, depth: map<Ref, nat>, x: Ref)
    requires Wf(m, rank, depth) && UniqueIds(m) && x in m
    ensures var r := Detached(m, x);
      && Wf(r, rank, depth) && UniqueIds(r)
      && r[x].parent == None
      && (forall y | y in m :: r[y].id == m[y].id && r[y].value == m[y].value && r[y].hidden == m[y].hidden)
      && (forall y | y in m && y != x :: r[y].parent == m[y].parent)
      && (forall y | y in m && Some(y) != m[x].parent :: r[y].children == m[y].children)
      && (m[x].parent.Some? ==>
            var p := m[x].parent.value;
            r[p].children == RemoveAt(m[p].children, IndexIn(m[p].children, x)))
  {
    var r := Detached(m, x);
    DetachedShape(m, depth, x);
    DetachedLinked(m, depth, r, x);
    DetachedFields(m, rank, depth, r, x);
    SameIdsUnique(m, r);
  }

  lemma DetachedFields<T>(m: Nodes<T>, rank: map<Ref, nat>, depth: map<Ref, nat>, r: Nodes<T>, x: Ref)
    requires Wf(m, rank, depth) && x in m && DetachShape(m, r, x)
    requires forall y | y in m :: forall c | c in r[y].children :: c in m[y].children
    requires forall y | y in m :: r[y].parent.Some? ==> r[y].parent == m[y].parent
    ensures Ranked(r, rank) && Leveled(r, depth)
    ensures r[x].parent == None
    ensures forall y | y in m :: r[y].id == m[y].id && r[y].value == m[y].value && r[y].hidden == m[y].hidden
    ensures forall y | y in m && y != x :: r[y].parent == m[y].parent
    ensures forall y | y in m && Some(y) != m[x].parent :: r[y].children == m[y].children
  {
    forall y | y in m
      ensures r[y].id == m[y].id && r[y].value == m[y].value && r[y].hidden == m[y].hidden
      ensures y != x ==> r[y].parent == m[y].parent
      ensures Some(y) != m[x].parent ==> r[y].children == m[y].children
    {
    }
  }

  /** Node by node, what `Detached` leaves. */
  ghost predicate DetachShape<T>(m: Nodes<T>, r: Nodes<T>, x: Ref)
    requires x in m && Linked(m)
  {
    && r.Keys == m.Keys
    && r[x] == m[x].(parent := None)
    && (m[x].parent.Some? ==>
          var p := m[x].parent.value;
          x in m[p].children && r[p] == m[p].(children := RemoveAt(m[p].children, IndexIn(m[p].children, x))))
    && forall y | y in m && y != x && Some(y) != m[x].parent :: r[y] == m[y]
  }

  lemma DetachedShape<T>(m: Nodes<T>, depth: map<Ref, nat>, x: Ref)
    requires Leveled(m, depth) && Linked(m) && UniqueIds(m) && x in m
    ensures DetachShape(m, Detached(m, x), x)
  {
    assert ChildrenKnown(m);
    var r := Detached(m, x);
    if m[x].parent.Some? {
      var p := m[x].parent.value;
      var cs := m[p].children;
      assert p != x;
      WithoutIdRemovesOne(m, cs, IndexIn(cs, x));
      assert r[p] == m[p].(children := RemoveAt(cs, IndexIn(cs, x)));
    } else {
      assert r == m[x := m[x].(parent := None)];
    }
  }

  lemma RemoveAtMembers<X>(s: seq<X>, k: nat, c: X)
    requires NoDup(s) && k < |s|
    ensures c in RemoveAt(s, k) <==> c in s && c != s[k]
    ensures NoDup(RemoveAt(s, k))
  {
    var r := RemoveAt(s, k);
    forall i, j | 0 <= i < j < |r| ensures r[i] != r[j] {
      var i' := if i < k then i else i + 1;
      var j' := if j < k then j else j + 1;
      assert r[i] == s[i'] && r[j] == s[j'];
    }
    if c in r {
      var i :| 0 <= i < |r| && r[i] == c;
      var i' := if i < k then i else i + 1;
      assert s[i'] == c;
    }
    if c in s && c != s[k] {
      var i :| 0 <= i < |s| && s[i] == c;
      assert i != k;
      if i < k {
        assert r[i] == c;
      } else {
        assert r[i - 1] == c;
      }
    }
  }

  /** An arena with the same nodes carrying the same ids keeps ids unique. */
  lemma SameIdsUnique<T>(m: Nodes<T>, r: Nodes<T>)
    requires UniqueIds(m) && r.Keys == m.Keys && forall y | y in m :: r[y].id == m[y].id
    ensures UniqueIds(r)
  {
  }

  lemma DetachedLinked<T>(m: Nodes<T>, depth: map<Ref, nat>, r: Nodes<T>, x: Ref)
    requires Leveled(m, depth) && Linked(m) && x in m && DetachShape(m, r, x)
    ensures Linked(r)
    ensures forall y | y in m :: forall c | c in r[y].children :: c in m[y].children
    ensures forall y | y in m :: r[y].parent.Some? ==> r[y].parent == m[y].parent
  {
    forall y | y in r
      ensures r[y].parent.Some? ==> r[y].parent.value in r && y in r[r[y].parent.value].children
      ensures NoDup(r[y].children)
      ensures forall c | c in r[y].children :: c in m[y].children && c in r && r[c].parent == Some(y)
    {
      DetachedLinkedAt(m, depth, r, x, y);
    }
  }

  lemma DetachedLinkedAt<T>(m: Nodes<T>, depth: map<Ref, nat>, r: Nodes<T>, x: Ref, y: Ref)
    requires Leveled(m, depth) && Linked(m) && x in m && y in m && DetachShape(m, r, x)
    ensures r[y].parent.Some? ==> r[y].parent == m[y].parent && r[y].parent.value in r && y in r[r[y].parent.value].children
    ensures NoDup(r[y].children)
    ensures forall c | c in r[y].children :: c in m[y].children && c in r && r[c].parent == Some(y)
  {
    var op := m[x].parent;
    if y == x {
      forall c | c in r[y].children ensures r[c].parent == Some(y) {
        assert m[c].parent == Some(x);
        assert op != Some(c);
      }
    } else if op == Some(y) {
      var cs := m[y].children;
      var k := IndexIn(cs, x);
      assert r[y].children == RemoveAt(cs, k);
      RemoveAtMembers(cs, k, x);
      forall c | c in r[y].children ensures c in cs && r[c].parent == Some(y) {
        RemoveAtMembers(cs, k, c);
        assert m[c].parent == Some(y);
        assert c != y;
      }
      if m[y].parent.Some? {
        var q := m[y].parent.value;
        assert q != x;
        assert q != y;
        assert r[q] == m[q];
      }
    } else {
      assert r[y] == m[y];
      if m[y].parent.Some? {
        var q := m[y].parent.value;
        assert y in m[q].children;
        if op == Some(q) {
          var cs := m[q].children;
          RemoveAtMembers(cs, IndexIn(cs, x), y);
        }
      }
      forall c | c in r[y].children ensures r[c].parent == Some(y) {
        assert m[c].parent == Some(y);
        assert c != x;
      }
    }
  }

  // ---------------------------------------------------------------------
  // Attaching
  // ---------------------------------------------------------------------

  /** Ranks after hanging the subtree of `c` under another node: everything outside it moves up. */
  ghost function Reranked<T>(m: Nodes<T>, rank: map<Ref, nat>, depth: map<Ref, nat>, c: Ref): map<Ref, nat>
    requires Leveled(m, depth) && c in rank
  {
    map x | x in rank :: if x in m && Descends(m, depth, x, c) then rank[x] else rank[x] + rank[c] + 1
  }

  /** Depths after hanging the subtree of `c` under `p`: the subtree moves below `p`. */
  ghost function Redepthed<T>(m: Nodes<T>, depth: map<Ref, nat>, p: Ref, c: Ref): map<Ref, nat>
    requires Leveled(m, depth) && p in depth
  {
    map x | x in depth :: if x in m && Descends(m, depth, x, c) then depth[x] + depth[p] + 1 else depth[x]
  }

  /** Node by node, what `WithChild` leaves. */
  ghost predicate AttachShape<T>(m: Nodes<T>, r: Nodes<T>, p: Ref, c: Ref)
    requires p in m && c in m
  {
    && r.Keys == m.Keys
    && r[p] == m[p].(children := m[p].children + [c])
    && r[c] == m[c].(parent := Some(p))
    && forall y | y in m && y != p && y != c :: r[y] == m[y]
  }

  /** What attaching needs: `c` is a root and `p` is not inside the subtree of `c`. */
  ghost predicate CanAttach<T>(m: Nodes<T>, depth: map<Ref, nat>, p: Ref, c: Ref)
    requires Leveled(m, depth)
  {
    p in m && c in m && m[c].parent.None? && !Descends(m, depth, p, c)
  }

  /**
   * `addChild`: hanging a root `c` under a node `p` outside its subtree
   * keeps the arena well-formed, under measures that put the subtree of
   * `c` below `p`. Only `p`'s children (one more, at the end) and the
   * parent of `c` change.
   */
  lemma AttachWf<T>(m: Nodes<T>, rank: map<Ref, nat>, depth: map<Ref, nat>, p: Ref, c: Ref)
    returns (rank2: map<Ref, nat>, depth2: map<Ref, nat>)
    requires Wf(m, rank, depth) && CanAttach(m, depth, p, c)
    ensures rank2 == Reranked(m, rank, depth, c) && depth2 == Redepthed(m, depth, p, c)
    ensures var r := WithChild(m, p, c);
      && Wf(r, rank2, depth2)
      && (UniqueIds(m) ==> UniqueIds(r))
      && r[p].children == m[p].children + [c]
      && r[c].parent == Some(p)
      && (forall y | y in m :: r[y].id == m[y].id && r[y].value == m[y].value && r[y].hidden == m[y].hidden)
      && (forall y | y in m && y != c :: r[y].parent == m[y].parent)
      && (forall y | y in m && y != p :: r[y].children == m[y].children)
  {
    var r := WithChild(m, p, c);
    WithChildShape(m, depth, p, c);
    rank2, depth2 := Reranked(m, rank, depth, c), Redepthed(m, depth, p, c);
    AttachShapeWf(m, rank, depth, r, p, c);
  }

  lemma WithChildShape<T>(m: Nodes<T>, depth: map<Ref, nat>, p: Ref, c: Ref)
    requires Leveled(m, depth) && CanAttach(m, depth, p, c)
    ensures p != c && AttachShape(m, WithChild(m, p, c), p, c)
  {
    assert Descends(m, depth, c, c);
  }

  /** `AttachWf` for any arena `r` of the shape `WithChild` leaves. */
  lemma AttachShapeWf<T>(m: Nodes<T>, rank: map<Ref, nat>, depth: map<Ref, nat>, r: Nodes<T>, p: Ref, c: Ref)
    requires Wf(m, rank, depth) && CanAttach(m, depth, p, c) && p != c && AttachShape(m, r, p, c)
    ensures Wf(r, Reranked(m, rank, depth, c), Redepthed(m, depth, p, c))
    ensures UniqueIds(m) ==> UniqueIds(r)
    ensures forall y | y in m :: r[y].id == m[y].id && r[y].value == m[y].value && r[y].hidden == m[y].hidden
    ensures forall y | y in m && y != c :: r[y].parent == m[y].parent
    ensures forall y | y in m && y != p :: r[y].children == m[y].children
  {
    AttachRanked(m, rank, depth, r, p, c);
    AttachLeveled(m, depth, r, p, c);
    AttachLinked(m, depth, r, p, c);
    AttachShapeFields(m, r, p, c);
  }

  /** The shape `WithChild` leaves changes no id, payload or hidden flag, and only the two links. */
  lemma AttachShapeFields<T>(m: Nodes<T>, r: Nodes<T>, p: Ref, c: Ref)
    requires p in m && c in m && p != c && AttachShape(m, r, p, c)
    ensures UniqueIds(m) ==> UniqueIds(r)
    ensures forall y | y in m :: r[y].id == m[y].id && r[y].value == m[y].value && r[y].hidden == m[y].hidden
    ensures forall y | y in m && y != c :: r[y].parent == m[y].parent
    ensures forall y | y in m && y != p :: r[y].children == m[y].children
  {
    forall y | y in m
      ensures r[y].id == m[y].id && r[y].value == m[y].value && r[y].hidden == m[y].hidden
      ensures y != c ==> r[y].parent == m[y].parent
      ensures y != p ==> r[y].children == m[y].children
    {
    }
  }

  lemma AttachLinked<T>(m: Nodes<T>, depth: map<Ref, nat>, r: Nodes<T>, p: Ref, c: Ref)
    requires Leveled(m, depth) && Linked(m) && CanAttach(m, depth, p, c) && p != c && AttachShape(m, r, p, c)
    ensures Linked(r)
  {
    forall y | y in r
      ensures r[y].parent.Some? ==> r[y].parent.value in r && y in r[r[y].parent.value].children
      ensures NoDup(r[y].children)
      ensures forall d | d in r[y].children :: d in r && r[d].parent == Some(y)
    {
      AttachLinkedAt(m, depth, r, p, c, y);
    }
  }

  /** Measures under which the arena after `addChild` is well-formed. */
  lemma AttachMeasures<T>(m: Nodes<T>, rank: map<Ref, nat>, depth: map<Ref, nat>, p: Ref, c: Ref)
    returns (rank2: map<Ref, nat>, depth2: map<Ref, nat>)
    requires Wf(m, rank, depth) && CanAttach(m, depth, p, c)
    ensures Wf(WithChild(m, p, c), rank2, depth2)
    ensures UniqueIds(m) ==> UniqueIds(WithChild(m, p, c))
  {
    rank2, depth2 := AttachWf(m, rank, depth, p, c);
  }

  lemma AttachRanked<T>(m: Nodes<T>, rank: map<Ref, nat>, depth: map<Ref, nat>, r: Nodes<T>, p: Ref, c: Ref)
    requires Wf(m, rank, depth) && CanAttach(m, depth, p, c) && p != c && AttachShape(m, r, p, c)
    ensures Ranked(r, Reranked(m, rank, depth, c))
  {
    var rank2 := Reranked(m, rank, depth, c);
    forall y, d | y in r && d in r[y].children
      ensures d in r && d in rank2 && rank2[d] < rank2[y]
    {
      if y == p && d == c {
        assert Descends(m, depth, c, c);
      } else {
        assert d in m[y].children;
        assert m[d].parent == Some(y);
        assert Descends(m, depth, d, c) <==> d == c || Descends(m, depth, y, c);
      }
    }
  }

  lemma AttachLeveled<T>(m: Nodes<T>, depth: map<Ref, nat>, r: Nodes<T>, p: Ref, c: Ref)
    requires Leveled(m, depth) && CanAttach(m, depth, p, c) && p != c && AttachShape(m, r, p, c)
    ensures Leveled(r, Redepthed(m, depth, p, c))
  {
    var depth2 := Redepthed(m, depth, p, c);
    forall y | y in r && r[y].parent.Some?
      ensures r[y].parent.value in r && r[y].parent.value in depth2
      ensures depth2[r[y].parent.value] < depth2[y]
    {
      if y != c {
        var q := m[y].parent.value;
        assert r[y].parent == m[y].parent;
        assert Descends(m, depth, y, c) <==> Descends(m, depth, q, c);
      } else {
        assert Descends(m, depth, c, c);
      }
    }
  }

  lemma AttachLinkedAt<T>(m: Nodes<T>, depth: map<Ref, nat>, r: Nodes<T>, p: Ref, c: Ref, y: Ref)
    requires Leveled(m, depth) && Linked(m) && CanAttach(m, depth, p, c) && p != c && AttachShape(m, r, p, c)
    requires y in m
    ensures r[y].parent.Some? ==> r[y].parent.value in r && y in r[r[y].parent.value].children
    ensures NoDup(r[y].children)
    ensures forall d | d in r[y].children :: d in r && r[d].parent == Some(y)
  {
    if y == p {
      var cs := m[p].children;
      assert c !in cs;
      forall i, j | 0 <= i < j < |cs + [c]| ensures (cs + [c])[i] != (cs + [c])[j] {
      }
      forall d | d in r[y].children ensures r[d].parent == Some(y) {
        if d != c {
          assert m[d].parent == Some(p);
          assert d != p;
        }
      }
      if m[p].parent.Some? {
        var q := m[p].parent.value;
        assert Descends(m, depth, c, c);
        assert Descends(m, depth, p, c) == Descends(m, depth, q, c);
        assert q != c;
        assert q != p;
      }
    } else if y == c {
      forall d | d in r[y].children ensures r[d].parent == Some(y) {
        assert m[d].parent == Some(c);
        assert Descends(m, depth, d, c);
        assert d != p;
        assert d != c;
      }
    } else {
      if m[y].parent.Some? {
        var q := m[y].parent.value;
        assert y in m[q].children;
      }
      forall d | d in r[y].children ensures r[d].parent == Some(y) {
        assert m[d].parent == Some(y);
        assert d != c;
      }
    }
  }

  // ---------------------------------------------------------------------
  // Reordering
  // ---------------------------------------------------------------------

  /**
   * `moveChildren`: reordering a node's children keeps the arena
   * well-formed under the same measures; the children are permuted and
   * nothing else changes.
   */
  lemma ReorderedWf<T>(m: Nodes<T>, rank: map<Ref, nat>, depth: map<Ref, nat>, p: Ref, i: nat, j: nat)
    requires Wf(m, rank, depth) && p in m && i < |m[p].children| && j <= |m[p].children|
    ensures var r := Reordered(m, p, i, j);
      && Wf(r, rank, depth)
      && (UniqueIds(m) ==> UniqueIds(r))
      && multiset(r[p].children) == multiset(m[p].children)
      && |r[p].children| == |m[p].children|
      && r[p].children[MovedTo(i, j)] == m[p].children[i]
      && (forall y | y in m :: r[y].id == m[y].id && r[y].value == m[y].value && r[y].hidden == m[y].hidden)
      && (forall y | y in m :: r[y].parent == m[y].parent)
      && (forall y | y in m && y != p :: r[y].children == m[y].children)
  {
    var r := Reordered(m, p, i, j);
    var cs := m[p].children;
    assert r[p] == m[p].(children := r[p].children);
    assert forall y | y in m && y != p :: r[y] == m[y];
    MoveOffsetFacts(cs, i, j);
    PermutationKeepsNoDup(cs, r[p].children);
    forall c ensures c in r[p].children <==> c in cs {
      assert c in r[p].children <==> c in multiset(r[p].children);
    }
    ReorderedLinked(m, r, p);
    ReorderedMeasures(m, rank, depth, r, p);
  }

  lemma ReorderedMeasures<T>(m: Nodes<T>, rank: map<Ref, nat>, depth: map<Ref, nat>, r: Nodes<T>, p: Ref)
    requires Ranked(m, rank) && Leveled(m, depth) && p in m && r.Keys == m.Keys
    requires r[p] == m[p].(children := r[p].children)
    requires forall c :: c in r[p].children <==> c in m[p].children
    requires forall y | y in m && y != p :: r[y] == m[y]
    ensures Ranked(r, rank) && Leveled(r, depth)
    ensures forall y | y in m :: r[y].id == m[y].id && r[y].value == m[y].value && r[y].hidden == m[y].hidden
    ensures forall y | y in m :: r[y].parent == m[y].parent
  {
    forall y | y in r
      ensures r[y].id == m[y].id && r[y].value == m[y].value && r[y].hidden == m[y].hidden
      ensures r[y].parent == m[y].parent
      ensures forall c | c in r[y].children :: c in m[y].children
    {
    }
  }

  /** Replacing one node's children by the same children in another order keeps the links consistent. */
  lemma ReorderedLinked<T>(m: Nodes<T>, r: Nodes<T>, p: Ref)
    requires Linked(m) && p in m && r.Keys == m.Keys
    requires r[p] == m[p].(children := r[p].children) && NoDup(r[p].children)
    requires forall c :: c in r[p].children <==> c in m[p].children
    requires forall y | y in m && y != p :: r[y] == m[y]
    ensures Linked(r)
  {
    forall y | y in r
      ensures r[y].parent.Some? ==> r[y].parent.value in r && y in r[r[y].parent.value].children
      ensures NoDup(r[y].children)
      ensures forall c | c in r[y].children :: c in r && r[c].parent == Some(y)
    {
      ReorderedLinkedAt(m, r, p, y);
    }
  }

  lemma ReorderedLinkedAt<T>(m: Nodes<T>, r: Nodes<T>, p: Ref, y: Ref)
    requires Linked(m) && p in m && r.Keys == m.Keys && y in m
    requires r[p] == m[p].(children := r[p].children) && NoDup(r[p].children)
    requires forall c :: c in r[p].children <==> c in m[p].children
    requires forall y | y in m && y != p :: r[y] == m[y]
    ensures r[y].parent.Some? ==> r[y].parent.value in r && y in r[r[y].parent.value].children
    ensures NoDup(r[y].children)
    ensures forall c | c in r[y].children :: c in r && r[c].parent == Some(y)
  {
    assert r[y].parent == m[y].parent;
    if m[y].parent.Some? {
      assert y in m[m[y].parent.value].children;
    }
    forall c | c in r[y].children ensures c in r && r[c].parent == Some(y) {
      assert c in m[y].children;
      assert r[c].parent == m[c].parent;
    }
  }

  /** `r` has the nodes of `m` with the same parent and children links. */
  ghost predicate SameLinks<T>(m: Nodes<T>, r: Nodes<T>) {
    r.Keys == m.Keys && forall y | y in m :: r[y].parent == m[y].parent && r[y].children == m[y].children
  }

  /** Changing only payloads or hidden flags keeps the arena well-formed under the same measures. */
  lemma SameLinksWf<T>(m: Nodes<T>, r: Nodes<T>, rank: map<Ref, nat>, depth: map<Ref, nat>)
    requires Wf(m, rank, depth) && SameLinks(m, r)
    ensures Wf(r, rank, depth)
  {
    assert Ranked(r, rank) by {
      forall y | y in r
        ensures y in rank && forall c | c in r[y].children :: c in r && c in rank && rank[c] < rank[y]
      {
        assert r[y].children == m[y].children;
      }
    }
    assert Leveled(r, depth) by {
      forall y | y in r
        ensures y in depth && (r[y].parent.Some? ==> r[y].parent.value in r && r[y].parent.value in depth && depth[r[y].parent.value] < depth[y])
      {
        assert r[y].parent == m[y].parent;
      }
    }
    forall y | y in r
      ensures r[y].parent.Some? ==> r[y].parent.value in r && y in r[r[y].parent.value].children
      ensures NoDup(r[y].children)
      ensures forall c | c in r[y].children :: c in r && r[c].parent == Some(y)
    {
      assert r[y].parent == m[y].parent && r[y].children == m[y].children;
      if r[y].parent.Some? {
        assert r[r[y].parent.value].children == m[m[y].parent.value].children;
      }
      forall c | c in r[y].children ensures r[c].parent == Some(y) {
        assert r[c].parent == m[c].parent;
      }
    }
  }

  // ---------------------------------------------------------------------
  // Frames
  // ---------------------------------------------------------------------

  /**
   * An edit that only clears or keeps parent links cannot put a node
   * below a node it was not below before.
   */
  lemma {:induction false} DescendsShrink<T>(m1: Nodes<T>, d1: map<Ref, nat>, m2: Nodes<T>, d2: map<Ref, nat>, x: Ref, a: Ref)
    requires Leveled(m1, d1) && Leveled(m2, d2) && x in m2 && m2.Keys == m1.Keys
    requires forall y | y in m2 && m2[y].parent.Some? :: m2[y].parent == m1[y].parent
    ensures Descends(m2, d2, x, a) ==> Descends(m1, d1, x, a)
    decreases d2[x]
  {
    if x != a && m2[x].parent.Some? {
      DescendsShrink(m1, d1, m2, d2, m2[x].parent.value, a);
    }
  }

  /** The listing of `n` only reads the children links of the nodes it lists. */
  lemma {:induction false} PreorderFrame<T>(m1: Nodes<T>, rank1: map<Ref, nat>, m2: Nodes<T>, rank2: map<Ref, nat>, n: Ref)
    requires Ranked(m1, rank1) && Ranked(m2, rank2) && n in m1
    requires forall y | y in Preorder(m1, rank1, n) :: y in m2 && m2[y].children == m1[y].children
    ensures Preorder(m2, rank2, n) == Preorder(m1, rank1, n)
    decreases rank1[n], 1
  {
    assert n in Preorder(m1, rank1, n);
    PreorderAllFrame(m1, rank1, m2, rank2, m1[n].children, rank1[n], rank2[n]);
  }

  lemma {:induction false} PreorderAllFrame<T>(m1: Nodes<T>, rank1: map<Ref, nat>, m2: Nodes<T>, rank2: map<Ref, nat>,
                                               cs: seq<Ref>, above1: nat, above2: nat)
    requires Ranked(m1, rank1) && Ranked(m2, rank2)
    requires forall c | c in cs :: c in m1 && rank1[c] < above1
    requires forall c | c in cs :: c in m2 && rank2[c] < above2
    requires forall y | y in PreorderAll(m1, rank1, cs, above1) :: y in m2 && m2[y].children == m1[y].children
    ensures PreorderAll(m2, rank2, cs, above2) == PreorderAll(m1, rank1, cs, above1)
    decreases above1, 0, |cs|
  {
    if cs != [] {
      PreorderFrame(m1, rank1, m2, rank2, cs[0]);
      PreorderAllFrame(m1, rank1, m2, rank2, cs[1..], above1, above2);
    }
  }

  /** The listing of a forest splits where the forest does. */
  lemma {:induction false} PreorderAllConcat<T>(m: Nodes<T>, rank: map<Ref, nat>, a: seq<Ref>, b: seq<Ref>, above: nat)
    requires Ranked(m, rank) && forall c | c in a + b :: c in m && rank[c] < above
    ensures PreorderAll(m, rank, a + b, above) == PreorderAll(m, rank, a, above) + PreorderAll(m, rank, b, above)
  {
    if a == [] {
      assert a + b == b;
    } else {
      assert (a + b)[0] == a[0] && (a + b)[1..] == a[1..] + b;
      PreorderAllConcat(m, rank, a[1..], b, above);
      var head := Preorder(m, rank, a[0]);
      assert PreorderAll(m, rank, a + b, above) == head + PreorderAll(m, rank, a[1..] + b, above);
      assert PreorderAll(m, rank, a, above) == head + PreorderAll(m, rank, a[1..], above);
    }
  }

  /**
   * After `p.addChild(c)` the listing of `p` is its old listing followed
   * by the listing of `c`.
   */
  lemma AttachPreorder<T>(m: Nodes<T>, rank: map<Ref, nat>, depth: map<Ref, nat>, p: Ref, c: Ref)
    returns (rank2: map<Ref, nat>, depth2: map<Ref, nat>)
    requires Wf(m, rank, depth) && CanAttach(m, depth, p, c)
    ensures Wf(WithChild(m, p, c), rank2, depth2)
    ensures Preorder(WithChild(m, p, c), rank2, p) == Preorder(m, rank, p) + Preorder(m, rank, c)
  {
    var r := WithChild(m, p, c);
    rank2, depth2 := Reranked(m, rank, depth, c), Redepthed(m, depth, p, c);
    assert Wf(r, rank2, depth2) by {
      var _, _ := AttachWf(m, rank, depth, p, c);
    }
    WithChildShape(m, depth, p, c);
    AttachForest(m, rank, depth, r, rank2, p, c);
    var before := PreorderAll(m, rank, m[p].children, rank[p]);
    assert Preorder(m, rank, p) == [p] + before;
    assert Preorder(r, rank2, p) == [p] + (before + Preorder(m, rank, c));
    SeqAssoc([p], before, Preorder(m, rank, c));
  }

  /** After `p.addChild(c)` the listing of the children of `p` is the old one followed by that of `c`. */
  lemma AttachForest<T>(m: Nodes<T>, rank: map<Ref, nat>, depth: map<Ref, nat>,
                        r: Nodes<T>, rank2: map<Ref, nat>, p: Ref, c: Ref)
    requires Wf(m, rank, depth) && CanAttach(m, depth, p, c) && Ranked(r, rank2)
    requires p != c && AttachShape(m, r, p, c) && p in rank2
    ensures forall d | d in r[p].children :: d in r && rank2[d] < rank2[p]
    ensures PreorderAll(r, rank2, r[p].children, rank2[p]) == PreorderAll(m, rank, m[p].children, rank[p]) + Preorder(m, rank, c)
  {
    var cs := m[p].children;
    assert r[p].children == cs + [c];
    AttachKeepsSiblings(m, rank, depth, r, rank2, p, c);
    AttachKeepsSibling(m, rank, depth, r, rank2, p, c, c);
    PreorderAllConcat(r, rank2, cs, [c], rank2[p]);
    assert PreorderAll(r, rank2, [c], rank2[p]) == Preorder(r, rank2, c) + PreorderAll(r, rank2, [], rank2[p]);
  }

  lemma AttachKeepsSiblings<T>(m: Nodes<T>, rank: map<Ref, nat>, depth: map<Ref, nat>,
                               r: Nodes<T>, rank2: map<Ref, nat>, p: Ref, c: Ref)
    requires Wf(m, rank, depth) && CanAttach(m, depth, p, c) && Ranked(r, rank2)
    requires p != c && AttachShape(m, r, p, c) && p in rank2
    ensures forall d | d in m[p].children :: d in r && rank2[d] < rank2[p]
    ensures PreorderAll(r, rank2, m[p].children, rank2[p]) == PreorderAll(m, rank, m[p].children, rank[p])
  {
    var cs := m[p].children;
    assert forall d | d in cs :: d in r[p].children;
    forall d | d in cs ensures Preorder(r, rank2, d) == Preorder(m, rank, d) {
      AttachKeepsSibling(m, rank, depth, r, rank2, p, c, d);
    }
    PreorderAllSplit(m, rank, r, rank2, cs, rank[p], rank2[p]);
  }

  /** The listing of a child of `p`, or of `c`, does not change when `c` is hung under `p`. */
  lemma AttachKeepsSibling<T>(m: Nodes<T>, rank: map<Ref, nat>, depth: map<Ref, nat>,
                              r: Nodes<T>, rank2: map<Ref, nat>, p: Ref, c: Ref, d: Ref)
    requires Wf(m, rank, depth) && CanAttach(m, depth, p, c) && Ranked(r, rank2)
    requires p != c && AttachShape(m, r, p, c) && p in rank2
    requires d in m[p].children || d == c
    requires d in m[p].children ==> rank2[d] < rank2[p]
    ensures Preorder(r, rank2, d) == Preorder(m, rank, d)
  {
    PreorderMembers(m, rank, depth, d);
    assert d in m[p].children ==> m[d].parent == Some(p);
    forall y | y in Preorder(m, rank, d) ensures y in m && y != p {
      DescendsDepth(m, depth, y, d);
    }
    forall y | y in Preorder(m, rank, d) ensures y in r && r[y].children == m[y].children {
      assert y in m && y != p;
    }
    PreorderFrame(m, rank, r, rank2, d);
  }

  /** Forest listings agree when the listing of every tree in the forest agrees. */
  lemma {:induction false} PreorderAllSplit<T>(m1: Nodes<T>, rank1: map<Ref, nat>, m2: Nodes<T>, rank2: map<Ref, nat>,
                                               cs: seq<Ref>, above1: nat, above2: nat)
    requires Ranked(m1, rank1) && Ranked(m2, rank2)
    requires forall c | c in cs :: c in m1 && rank1[c] < above1
    requires forall c | c in cs :: c in m2 && rank2[c] < above2
    requires forall d | d in cs :: Preorder(m2, rank2, d) == Preorder(m1, rank1, d)
    ensures PreorderAll(m2, rank2, cs, above2) == PreorderAll(m1, rank1, cs, above1)
  {
    if cs != [] {
      PreorderAllSplit(m1, rank1, m2, rank2, cs[1..], above1, above2);
    }
  }

  // ---------------------------------------------------------------------
  // removeChildWithID, removeChildrenWithIDs, move(fromID:toID:)
  // ---------------------------------------------------------------------

  /**
   * `removeChildWithID(id)` called on `self`: the first node of the
   * listing of `self` with this id is detached and returned.
   */
  function RemovedById<T>(m: Nodes<T>, ghost rank: map<Ref, nat>, self: Ref, id: Id): (r: (Nodes<T>, Option<Ref>))
    requires Ranked(m, rank) && self in m
    ensures r.0.Keys == m.Keys && Ranked(r.0, rank)
    ensures forall y | y in m :: r.0[y].id == m[y].id
    ensures r.1.Some? ==> r.1.value in m && m[r.1.value].id == id && r.0[r.1.value].parent.None?
    ensures r.1.None? ==> r.0 == m
  {
    match Search(m, rank, self, id)
    case None => (m, None)
    case Some(x) => (Detached(m, x), Some(x))
  }

  /**
   * `removeChildrenWithIDs(ids)`: `removeChildWithID` for each id in turn,
   * collecting one result per id.
   */
  function RemovedEach<T>(m: Nodes<T>, ghost rank: map<Ref, nat>, self: Ref, ids: seq<Id>): (r: (Nodes<T>, seq<Option<Ref>>))
    requires Ranked(m, rank) && self in m
    ensures r.0.Keys == m.Keys && Ranked(r.0, rank) && |r.1| == |ids|
    decreases |ids|
  {
    if ids == [] then (m, [])
    else
      var earlier := RemovedEach(m, rank, self, ids[..|ids| - 1]);
      var last := RemovedById(earlier.0, rank, self, ids[|ids| - 1]);
      (last.0, earlier.1 + [last.1])
  }

  /** One more removal extends `RemovedEach` by one entry. */
  lemma RemovedEachStep<T>(m: Nodes<T>, rank: map<Ref, nat>, self: Ref, ids: seq<Id>, i: nat,
                           m1: Nodes<T>, items: seq<Option<Ref>>)
    requires Ranked(m, rank) && self in m && i < |ids|
    requires (m1, items) == RemovedEach(m, rank, self, ids[..i])
    ensures self in m1 && Ranked(m1, rank)
    ensures var last := RemovedById(m1, rank, self, ids[i]);
      RemovedEach(m, rank, self, ids[..i + 1]) == (last.0, items + [last.1])
  {
    assert ids[..i + 1][..i] == ids[..i];
  }

  /** `node.parent?.id`. */
  function ParentId<T>(m: Nodes<T>, x: Ref): (r: Option<Id>)
    requires x in m
  {
    match ParentOf(m, x)
    case Some(p) => Some(m[p].id)
    case None => None
  }

  /** `node.parent?.id` is nil exactly without a live parent, and otherwise the parent's id. */
  lemma ParentIdOf<T>(m: Nodes<T>, x: Ref)
    requires x in m
    ensures ParentId(m, x).Some? <==> m[x].parent.Some? && m[x].parent.value in m
    ensures ParentId(m, x).Some? ==> ParentId(m, x) == Some(m[m[x].parent.value].id)
  {
  }

  /**
   * The last step of `move(fromID:toID:)`: within the parent of `t`, the
   * first child carrying the id of `f` is moved in front of the first
   * child carrying the id of `t`.
   */
  function PlacedBefore<T>(m: Nodes<T>, f: Ref, t: Ref): (r: Nodes<T>)
    requires ChildrenKnown(m) && f in m && t in m
    ensures r.Keys == m.Keys
    ensures ParentOf(m, t).None? ==> r == m
  {
    match ParentOf(m, t)
    case None => m
    case Some(q) =>
      var cs := m[q].children;
      var fi, ti := FirstIndexWithId(m, cs, m[f].id), FirstIndexWithId(m, cs, m[t].id);
      if fi.Some? && ti.Some? then Reordered(m, q, fi.value, ti.value) else m
  }

  /**
   * `move(fromID:toID:)` called on `self`. When the two nodes found share a
   * parent id the parent's children are reordered; otherwise the node
   * `f` is detached, appended to the parent of `t` (if `t` has one) and
   * then placed in front of `t`.
   */
  function Moved<T>(m: Nodes<T>, ghost rank: map<Ref, nat>, self: Ref, fromID: Id, toID: Id): (r: Nodes<T>)
    requires Ranked(m, rank) && self in m
    ensures r.Keys == m.Keys
    ensures Search(m, rank, self, fromID).None? || Search(m, rank, self, toID).None? ==> r == m
  {
    var from, to := Search(m, rank, self, fromID), Search(m, rank, self, toID);
    if from.None? || to.None? then m else MovedNode(m, from.value, to.value)
  }

  /** `move(fromID:toID:)` once both nodes are found. */
  function MovedNode<T>(m: Nodes<T>, f: Ref, t: Ref): (r: Nodes<T>)
    requires ChildrenKnown(m) && f in m && t in m
    ensures r.Keys == m.Keys
  {
    if ParentId(m, f) == ParentId(m, t) then PlacedBefore(m, f, t)
    else
      var m1 := Detached(m, f);
      var m2 := match ParentOf(m1, t) case Some(q) => WithChild(m1, q, f) case None => m1;
      PlacedBefore(m2, f, t)
  }

  /**
   * Cutting the parent link of `x`: walking up from `y` now stops at `x`.
   * So `y` is below `a` afterwards exactly when it was before and, if the
   * walk passed through `x`, `a` lies on the part of the walk up to `x`.
   */
  lemma {:induction false} DescendsAfterDetach<T>(m: Nodes<T>, r: Nodes<T>, depth: map<Ref, nat>, x: Ref, y: Ref, a: Ref)
    requires Leveled(m, depth) && Leveled(r, depth) && r.Keys == m.Keys && x in m && y in m
    requires r[x].parent.None? && forall z | z in m && z != x :: r[z].parent == m[z].parent
    ensures Descends(r, depth, y, a) <==>
      Descends(m, depth, y, a) && (Descends(m, depth, y, x) ==> a in m && Descends(m, depth, a, x))
    decreases depth[y]
  {
    if y == a {
    } else if y == x {
      if a in m && Descends(m, depth, a, x) && Descends(m, depth, x, a) {
        DescendsDepth(m, depth, a, x);
        DescendsDepth(m, depth, x, a);
      }
    } else if m[y].parent.Some? {
      DescendsAfterDetach(m, r, depth, x, m[y].parent.value, a);
    }
  }

  /**
   * `removeChildWithID(id)` on `self` keeps the arena well-formed. It
   * returns nil exactly when no node listed under `self` carries the id.
   * Otherwise the node returned was listed under `self`, its own subtree
   * is intact, and `self` now lists everything it listed before except
   * that subtree.
   */
  lemma RemovedByIdFacts<T>(m: Nodes<T>, rank: map<Ref, nat>, depth: map<Ref, nat>, self: Ref, id: Id)
    requires Wf(m, rank, depth) && UniqueIds(m) && self in m
    ensures var (r, item) := RemovedById(m, rank, self, id);
      && Wf(r, rank, depth) && UniqueIds(r)
      && (item.None? <==> forall y | y in Preorder(m, rank, self) :: m[y].id != id)
      && (forall y | y in m && m[y].parent.None? :: r[y].parent.None?)
      && (forall y | y in Preorder(r, rank, self) :: y in Preorder(m, rank, self))
      && (item.Some? ==>
            var x := item.value;
            && x in Preorder(m, rank, self)
            && Preorder(r, rank, x) == Preorder(m, rank, x)
            && (x != self ==> forall y :: y in Preorder(r, rank, self) <==>
                                y in Preorder(m, rank, self) && y !in Preorder(m, rank, x)))
  {
    var (r, item) := RemovedById(m, rank, self, id);
    var listed := Preorder(m, rank, self);
    SearchFindsFirst(m, rank, self, id);
    assert item.None? <==> forall y | y in listed :: m[y].id != id by {
      if item.None? {
        assert FirstIndexWithId(m, listed, id).None?;
      } else {
        var k := FirstIndexWithId(m, listed, id);
        assert listed[k.value] in listed;
      }
    }
    if item.Some? {
      var x := item.value;
      assert x == listed[FirstIndexWithId(m, listed, id).value];
      DetachedWf(m, rank, depth, x);
      RemovedSubtree(m, rank, depth, r, self, x);
    }
  }

  lemma RemovedSubtree<T>(m: Nodes<T>, rank: map<Ref, nat>, depth: map<Ref, nat>, r: Nodes<T>, self: Ref, x: Ref)
    requires Wf(m, rank, depth) && self in m && x in m && x in Preorder(m, rank, self)
    requires Wf(r, rank, depth) && r.Keys == m.Keys && r[x].parent == None
    requires forall y | y in m && y != x :: r[y].parent == m[y].parent
    requires forall y | y in m && Some(y) != m[x].parent :: r[y].children == m[y].children
    ensures Preorder(r, rank, x) == Preorder(m, rank, x)
    ensures forall y | y in m && m[y].parent.None? :: r[y].parent.None?
    ensures forall y | y in Preorder(r, rank, self) :: y in Preorder(m, rank, self)
    ensures x != self ==> forall y :: y in Preorder(r, rank, self) <==>
                            y in Preorder(m, rank, self) && y !in Preorder(m, rank, x)
  {
    RemovedSubtreeIntact(m, rank, depth, r, x);
    RemovedListing(m, rank, depth, r, self, x);
    DetachKeepsRoots(m, r, x);
  }

  /** Cutting only the parent link of `x` leaves every root a root. */
  lemma DetachKeepsRoots<T>(m: Nodes<T>, r: Nodes<T>, x: Ref)
    requires r.Keys == m.Keys && x in m && r[x].parent == None
    requires forall y | y in m && y != x :: r[y].parent == m[y].parent
    ensures forall y | y in m && m[y].parent.None? :: r[y].parent.None?
  {
  }

  lemma RemovedSubtreeIntact<T>(m: Nodes<T>, rank: map<Ref, nat>, depth: map<Ref, nat>, r: Nodes<T>, x: Ref)
    requires Wf(m, rank, depth) && x in m
    requires Ranked(r, rank) && r.Keys == m.Keys
    requires forall y | y in m && Some(y) != m[x].parent :: r[y].children == m[y].children
    ensures Preorder(r, rank, x) == Preorder(m, rank, x)
  {
    PreorderMembers(m, rank, depth, x);
    forall y | y in Preorder(m, rank, x) ensures y in r && r[y].children == m[y].children {
      DescendsDepth(m, depth, y, x);
    }
    PreorderFrame(m, rank, r, rank, x);
  }

  lemma RemovedListing<T>(m: Nodes<T>, rank: map<Ref, nat>, depth: map<Ref, nat>, r: Nodes<T>, self: Ref, x: Ref)
    requires Wf(m, rank, depth) && self in m && x in m && x in Preorder(m, rank, self)
    requires Wf(r, rank, depth) && r.Keys == m.Keys && r[x].parent == None
    requires forall y | y in m && y != x :: r[y].parent == m[y].parent
    ensures forall y | y in Preorder(r, rank, self) :: y in Preorder(m, rank, self)
    ensures x != self ==> forall y :: y in Preorder(r, rank, self) <==>
                            y in Preorder(m, rank, self) && y !in Preorder(m, rank, x)
  {
    PreorderMembers(m, rank, depth, self);
    PreorderMembers(m, rank, depth, x);
    PreorderMembers(r, rank, depth, self);
    assert x != self ==> !Descends(m, depth, self, x) by {
      if x != self && Descends(m, depth, self, x) {
        DescendsDepth(m, depth, self, x);
        DescendsDepth(m, depth, x, self);
      }
    }
    forall y
      ensures y in Preorder(r, rank, self) ==> y in Preorder(m, rank, self)
      ensures x != self ==> (y in Preorder(r, rank, self) <==> y in Preorder(m, rank, self) && y !in Preorder(m, rank, x))
    {
      if y in m {
        DescendsAfterDetach(m, r, depth, x, y, self);
      }
    }
  }

  /**
   * What one entry of `removeChildrenWithIDs` promises about its own id,
   * stated against the arena `m` before the whole call and the arena `r`
   * after it: nil when no node listed under `self` carried the id, and
   * otherwise a node with that id that was listed under `self` and is a
   * root in `r`.
   */
  ghost predicate RemovalOk<T>(m: Nodes<T>, r: Nodes<T>, rank: map<Ref, nat>, self: Ref, id: Id, item: Option<Ref>)
    requires Ranked(m, rank) && self in m
  {
    && ((forall y | y in Preorder(m, rank, self) :: m[y].id != id) ==> item.None?)
    && (item.Some? ==>
          && item.value in Preorder(m, rank, self) && m[item.value].id == id
          && item.value in r && r[item.value].parent.None?)
  }

  /** Every entry of `items` keeps the promise of `RemovalOk` for the id at its index. */
  ghost predicate AllRemovalOk<T>(m: Nodes<T>, r: Nodes<T>, rank: map<Ref, nat>, self: Ref, ids: seq<Id>, items: seq<Option<Ref>>)
    requires Ranked(m, rank) && self in m && |items| == |ids|
  {
    forall k | 0 <= k < |ids| :: RemovalOk(m, r, rank, self, ids[k], items[k])
  }

  /** Entries made earlier stay valid across a later removal, which keeps every root a root. */
  lemma RemovalOkExtend<T>(m: Nodes<T>, m1: Nodes<T>, r: Nodes<T>, rank: map<Ref, nat>,
                           self: Ref, ids: seq<Id>, earlier: seq<Option<Ref>>, last: Option<Ref>)
    requires Ranked(m, rank) && self in m
    requires r.Keys == m1.Keys && |ids| == |earlier| + 1
    requires AllRemovalOk(m, m1, rank, self, ids[..|earlier|], earlier)
    requires RemovalOk(m, r, rank, self, ids[|earlier|], last)
    requires forall y | y in m1 && m1[y].parent.None? :: r[y].parent.None?
    ensures AllRemovalOk(m, r, rank, self, ids, earlier + [last])
  {
    forall k | 0 <= k < |ids| ensures RemovalOk(m, r, rank, self, ids[k], (earlier + [last])[k]) {
      if k < |earlier| {
        assert ids[..|earlier|][k] == ids[k];
        assert RemovalOk(m, m1, rank, self, ids[k], earlier[k]);
      }
    }
  }

  /** The arena after `removeChildrenWithIDs` is well-formed, keeps every root a root and lists no new node under `self`. */
  lemma {:induction false} RemovedEachKeeps<T>(m: Nodes<T>, rank: map<Ref, nat>, depth: map<Ref, nat>, self: Ref, ids: seq<Id>)
    requires Wf(m, rank, depth) && UniqueIds(m) && self in m
    ensures var r := RemovedEach(m, rank, self, ids).0;
      && Wf(r, rank, depth) && UniqueIds(r)
      && (forall y | y in m :: r[y].id == m[y].id)
      && (forall y | y in m && m[y].parent.None? :: r[y].parent.None?)
      && (forall y | y in Preorder(r, rank, self) :: y in Preorder(m, rank, self))
    decreases |ids|
  {
    if ids != [] {
      var n := |ids| - 1;
      RemovedEachKeeps(m, rank, depth, self, ids[..n]);
      RemovedByIdFacts(RemovedEach(m, rank, self, ids[..n]).0, rank, depth, self, ids[n]);
    }
  }

  /** Every entry of `removeChildrenWithIDs` keeps the promise of `RemovalOk`. */
  lemma {:induction false} RemovedEachFound<T>(m: Nodes<T>, rank: map<Ref, nat>, depth: map<Ref, nat>, self: Ref, ids: seq<Id>)
    requires Wf(m, rank, depth) && UniqueIds(m) && self in m
    ensures var (r, items) := RemovedEach(m, rank, self, ids);
      AllRemovalOk(m, r, rank, self, ids, items)
    decreases |ids|
  {
    if ids != [] {
      var n := |ids| - 1;
      RemovedEachFound(m, rank, depth, self, ids[..n]);
      RemovedEachKeeps(m, rank, depth, self, ids[..n]);
      var earlier := RemovedEach(m, rank, self, ids[..n]);
      RemovalOkNext(m, earlier.0, earlier.1, rank, depth, self, ids);
    }
  }

  /** One more `removeChildWithID` after the entries `items` keeps every entry's promise. */
  lemma RemovalOkNext<T>(m: Nodes<T>, m1: Nodes<T>, items: seq<Option<Ref>>, rank: map<Ref, nat>, depth: map<Ref, nat>,
                         self: Ref, ids: seq<Id>)
    requires Ranked(m, rank) && self in m
    requires Wf(m1, rank, depth) && UniqueIds(m1) && self in m1
    requires forall y | y in Preorder(m1, rank, self) :: y in Preorder(m, rank, self)
    requires forall y | y in m :: y in m1 && m1[y].id == m[y].id
    requires |ids| == |items| + 1
    requires AllRemovalOk(m, m1, rank, self, ids[..|items|], items)
    ensures var last := RemovedById(m1, rank, self, ids[|items|]);
      AllRemovalOk(m, last.0, rank, self, ids, items + [last.1])
  {
    var last := RemovedById(m1, rank, self, ids[|items|]);
    RemovedByIdFacts(m1, rank, depth, self, ids[|items|]);
    RemovalOkExtend(m, m1, last.0, rank, self, ids, items, last.1);
  }

  /**
   * `removeChildrenWithIDs(ids)` keeps the arena well-formed and returns
   * one entry per id, in order. An entry is nil when no node listed under
   * `self` carried that id to begin with; a node returned was listed under
   * `self`, is a root afterwards and is no longer listed under `self`
   * (unless it is `self`).
   */
  lemma RemovedEachFacts<T>(m: Nodes<T>, rank: map<Ref, nat>, depth: map<Ref, nat>, self: Ref, ids: seq<Id>)
    requires Wf(m, rank, depth) && UniqueIds(m) && self in m
    ensures var (r, items) := RemovedEach(m, rank, self, ids);
      && Wf(r, rank, depth) && UniqueIds(r) && |items| == |ids|
      && forall k | 0 <= k < |ids| ::
           && RemovalOk(m, r, rank, self, ids[k], items[k])
           && (items[k].Some? && items[k].value != self ==> items[k].value !in Preorder(r, rank, self))
  {
    var (r, items) := RemovedEach(m, rank, self, ids);
    RemovedEachKeeps(m, rank, depth, self, ids);
    RemovedEachFound(m, rank, depth, self, ids);
    PreorderMembers(r, rank, depth, self);
    forall k | 0 <= k < |ids| && items[k].Some? && items[k].value != self
      ensures items[k].value !in Preorder(r, rank, self)
    {
      assert RemovalOk(m, r, rank, self, ids[k], items[k]);
      assert !Descends(r, depth, items[k].value, self);
    }
  }

  /** With unique ids and no repeated node, the first index of a node's id is its index. */
  lemma FirstIndexUnique<T>(m: Nodes<T>, xs: seq<Ref>, k: nat)
    requires UniqueIds(m) && NoDup(xs) && k < |xs| && forall x | x in xs :: x in m
    ensures FirstIndexWithId(m, xs, m[xs[k]].id) == Some(k)
  {
    var r := FirstIndexWithId(m, xs, m[xs[k]].id);
    assert r.Some?;
    assert xs[r.value] == xs[k];
  }

  /** The nodes `move(fromID:toID:)` finds under `self`, when it finds both. */
  ghost predicate BothFound<T>(m: Nodes<T>, rank: map<Ref, nat>, self: Ref, fromID: Id, toID: Id)
    requires Ranked(m, rank) && self in m
  {
    Search(m, rank, self, fromID).Some? && Search(m, rank, self, toID).Some?
  }

  /**
   * `move(fromID:toID:)` between two children of one parent `q`: it is
   * `moveChildren` on `q` from the index of the moved node to the index of
   * the target (see `ReorderedChildFacts` for what that does).
   */
  lemma MovedSameParent<T>(m: Nodes<T>, rank: map<Ref, nat>, depth: map<Ref, nat>, self: Ref, fromID: Id, toID: Id)
    requires Wf(m, rank, depth) && UniqueIds(m) && self in m && BothFound(m, rank, self, fromID, toID)
    requires var f, t := Search(m, rank, self, fromID).value, Search(m, rank, self, toID).value;
      ParentId(m, f) == ParentId(m, t) && m[t].parent.Some?
    ensures var f, t := Search(m, rank, self, fromID).value, Search(m, rank, self, toID).value;
      var q := m[t].parent.value;
      var cs := m[q].children;
      && m[f].parent == Some(q) && f in cs && t in cs
      && Moved(m, rank, self, fromID, toID) == Reordered(m, q, IndexIn(cs, f), IndexIn(cs, t))
  {
    var f, t := Search(m, rank, self, fromID).value, Search(m, rank, self, toID).value;
    var q := m[t].parent.value;
    var cs := m[q].children;
    assert t in cs;
    assert m[f].parent == Some(q);
    assert f in cs;
    var i, j := IndexIn(cs, f), IndexIn(cs, t);
    FirstIndexUnique(m, cs, i);
    FirstIndexUnique(m, cs, j);
  }

  /**
   * Moving child `f` of `q` in front of child `t`: only the children of `q`
   * change, they are permuted, `f` ends up right in front of `t`, and the
   * arena stays well-formed with unique ids.
   */
  lemma ReorderedChildFacts<T>(m: Nodes<T>, rank: map<Ref, nat>, depth: map<Ref, nat>, q: Ref, f: Ref, t: Ref)
    requires Wf(m, rank, depth) && UniqueIds(m) && q in m && f in m[q].children && t in m[q].children
    ensures var cs := m[q].children;
      var r := Reordered(m, q, IndexIn(cs, f), IndexIn(cs, t));
      && r == m[q := m[q].(children := MoveOffset(cs, IndexIn(cs, f), IndexIn(cs, t)))]
      && Wf(r, rank, depth) && UniqueIds(r)
      && multiset(r[q].children) == multiset(cs)
      && (f != t ==>
            var k := MovedTo(IndexIn(cs, f), IndexIn(cs, t));
            k + 1 < |r[q].children| && r[q].children[k] == f && r[q].children[k + 1] == t)
  {
    var cs := m[q].children;
    ReorderedWf(m, rank, depth, q, IndexIn(cs, f), IndexIn(cs, t));
    if f != t {
      ReorderedAdjacent(m, q, f, t);
    }
  }

  /** Moving child `f` of `q` in front of another child `t` leaves `f` right before `t`. */
  lemma ReorderedAdjacent<T>(m: Nodes<T>, q: Ref, f: Ref, t: Ref)
    requires q in m && f in m[q].children && t in m[q].children && f != t
    ensures var cs := m[q].children;
      var k, r := MovedTo(IndexIn(cs, f), IndexIn(cs, t)), Reordered(m, q, IndexIn(cs, f), IndexIn(cs, t));
      k + 1 < |r[q].children| && r[q].children[k] == f && r[q].children[k + 1] == t
  {
    var cs := m[q].children;
    MoveOffsetFacts(cs, IndexIn(cs, f), IndexIn(cs, t));
  }

  /**
   * `move(fromID:toID:)` when the target has no parent and the parent ids
   * differ: the target is `self`, and the node moved is only detached, so
   * it is no longer listed under `self`.
   */
  lemma MovedOntoRoot<T>(m: Nodes<T>, rank: map<Ref, nat>, depth: map<Ref, nat>, self: Ref, fromID: Id, toID: Id)
    requires Wf(m, rank, depth) && UniqueIds(m) && self in m && BothFound(m, rank, self, fromID, toID)
    requires var f, t := Search(m, rank, self, fromID).value, Search(m, rank, self, toID).value;
      ParentId(m, f) != ParentId(m, t) && m[t].parent.None?
    ensures var f, t := Search(m, rank, self, fromID).value, Search(m, rank, self, toID).value;
      var r := Moved(m, rank, self, fromID, toID);
      && t == self && f != self
      && r == Detached(m, f)
      && Wf(r, rank, depth) && UniqueIds(r)
      && r[f].parent.None?
      && f !in Preorder(r, rank, self)
  {
    var f := Search(m, rank, self, fromID).value;
    MovedOntoRootShape(m, rank, depth, self, fromID, toID);
    DetachedNotListed(m, rank, depth, self, f);
  }

  lemma MovedOntoRootShape<T>(m: Nodes<T>, rank: map<Ref, nat>, depth: map<Ref, nat>, self: Ref, fromID: Id, toID: Id)
    requires Wf(m, rank, depth) && self in m && BothFound(m, rank, self, fromID, toID)
    requires var f, t := Search(m, rank, self, fromID).value, Search(m, rank, self, toID).value;
      ParentId(m, f) != ParentId(m, t) && m[t].parent.None?
    ensures var f, t := Search(m, rank, self, fromID).value, Search(m, rank, self, toID).value;
      t == self && f != self && Moved(m, rank, self, fromID, toID) == Detached(m, f)
  {
    var f, t := Search(m, rank, self, fromID).value, Search(m, rank, self, toID).value;
    FoundIsListed(m, rank, depth, self, fromID);
    FoundIsListed(m, rank, depth, self, toID);
    assert t == self;
    MovedNodeOntoRoot(m, f, t);
  }

  /** Both nodes found, different parent ids and a target without parent: the move only detaches. */
  lemma MovedNodeOntoRoot<T>(m: Nodes<T>, f: Ref, t: Ref)
    requires ChildrenKnown(m) && f in m && t in m && ParentId(m, f) != ParentId(m, t) && m[t].parent.None?
    ensures MovedNode(m, f, t) == Detached(m, f)
  {
    assert Detached(m, f)[t].parent.None?;
  }

  /** A node other than `self` that is detached is no longer listed under `self`. */
  lemma DetachedNotListed<T>(m: Nodes<T>, rank: map<Ref, nat>, depth: map<Ref, nat>, self: Ref, f: Ref)
    requires Wf(m, rank, depth) && UniqueIds(m) && self in m && f in m && f != self
    ensures var r := Detached(m, f);
      Wf(r, rank, depth) && UniqueIds(r) && r[f].parent.None? && f !in Preorder(r, rank, self)
  {
    DetachedWf(m, rank, depth, f);
    PreorderMembers(Detached(m, f), rank, depth, self);
  }

  /** A node `search(id:)` finds lies in the subtree searched. */
  lemma FoundIsListed<T>(m: Nodes<T>, rank: map<Ref, nat>, depth: map<Ref, nat>, n: Ref, id: Id)
    requires Wf(m, rank, depth) && n in m && Search(m, rank, n, id).Some?
    ensures Search(m, rank, n, id).value in Preorder(m, rank, n)
    ensures Descends(m, depth, Search(m, rank, n, id).value, n)
  {
    var listed := Preorder(m, rank, n);
    SearchFindsFirst(m, rank, n, id);
    assert Search(m, rank, n, id).value == listed[FirstIndexWithId(m, listed, id).value];
    PreorderMembers(m, rank, depth, n);
  }

  /** What `move(fromID:toID:)` needs to keep the parent links acyclic: the target is not inside the subtree moved. */
  ghost predicate MoveAcyclic<T>(m: Nodes<T>, rank: map<Ref, nat>, depth: map<Ref, nat>, self: Ref, fromID: Id, toID: Id)
    requires Ranked(m, rank) && Leveled(m, depth) && self in m
  {
    BothFound(m, rank, self, fromID, toID) ==>
      var f, t := Search(m, rank, self, fromID).value, Search(m, rank, self, toID).value;
      f == t || !Descends(m, depth, t, f)
  }

  /**
   * `move(fromID:toID:)` to a node `t` under another parent `q`: the moved
   * node `f` leaves its old parent's children, enters those of `q` right
   * in front of `t`, and takes its whole subtree along. The arena stays
   * well-formed (under new measures) and no other link changes.
   */
  lemma MovedAcross<T>(m: Nodes<T>, rank: map<Ref, nat>, depth: map<Ref, nat>, self: Ref, fromID: Id, toID: Id)
    returns (rank2: map<Ref, nat>, depth2: map<Ref, nat>)
    requires Wf(m, rank, depth) && UniqueIds(m) && self in m && BothFound(m, rank, self, fromID, toID)
    requires MoveAcyclic(m, rank, depth, self, fromID, toID)
    requires var f, t := Search(m, rank, self, fromID).value, Search(m, rank, self, toID).value;
      ParentId(m, f) != ParentId(m, t) && m[t].parent.Some?
    ensures var f, t := Search(m, rank, self, fromID).value, Search(m, rank, self, toID).value;
      var q := m[t].parent.value;
      var cs := m[q].children;
      var r := Moved(m, rank, self, fromID, toID);
      && Wf(r, rank2, depth2) && UniqueIds(r)
      && r[f].parent == Some(q)
      && t in cs && r[q].children == InsertAt(cs, IndexIn(cs, t), f)
      && (m[f].parent.Some? ==>
            var p := m[f].parent.value;
            p != q && r[p].children == RemoveAt(m[p].children, IndexIn(m[p].children, f)))
      && (forall y | y in m && y != q && Some(y) != m[f].parent :: r[y].children == m[y].children)
      && (forall y | y in m && y != f :: r[y].parent == m[y].parent)
      && (forall y | y in m :: r[y].id == m[y].id && r[y].value == m[y].value && r[y].hidden == m[y].hidden)
      && Preorder(r, rank2, f) == Preorder(m, rank, f)
  {
    var f, t := Search(m, rank, self, fromID).value, Search(m, rank, self, toID).value;
    var q := m[t].parent.value;
    var cs := m[q].children;
    var j := IndexIn(cs, t);
    MovedAcrossSteps(m, rank, depth, self, fromID, toID);
    var m1 := Detached(m, f);
    DetachedWf(m, rank, depth, f);
    var m2 := WithChild(m1, q, f);
    rank2, depth2 := AttachWf(m1, rank, depth, q, f);
    var r := Reordered(m2, q, |cs|, j);
    ReorderedWf(m2, rank2, depth2, q, |cs|, j);
    MoveLastIsInsert(cs, f, j);
    MovedKeepsSubtree(m, rank, depth, r, rank2, f, q);
  }

  /** The three edits `move(fromID:toID:)` makes when the parents differ. */
  lemma MovedAcrossSteps<T>(m: Nodes<T>, rank: map<Ref, nat>, depth: map<Ref, nat>, self: Ref, fromID: Id, toID: Id)
    requires Wf(m, rank, depth) && UniqueIds(m) && self in m && BothFound(m, rank, self, fromID, toID)
    requires MoveAcyclic(m, rank, depth, self, fromID, toID)
    requires var f, t := Search(m, rank, self, fromID).value, Search(m, rank, self, toID).value;
      ParentId(m, f) != ParentId(m, t) && m[t].parent.Some?
    ensures var f, t := Search(m, rank, self, fromID).value, Search(m, rank, self, toID).value;
      var q := m[t].parent.value;
      var cs := m[q].children;
      var m1 := Detached(m, f);
      && f != t && t in cs && f !in cs && Some(q) != m[f].parent && q != f
      && Wf(m1, rank, depth) && m1[q].children == cs && CanAttach(m1, depth, q, f)
      && Moved(m, rank, self, fromID, toID) == Reordered(WithChild(m1, q, f), q, |cs|, IndexIn(cs, t))
      && !Descends(m, depth, q, f)
  {
    var f, t := Search(m, rank, self, fromID).value, Search(m, rank, self, toID).value;
    var q := m[t].parent.value;
    var cs := m[q].children;
    assert f != t;
    assert t in cs;
    assert Some(q) != m[f].parent;
    var m1 := Detached(m, f);
    DetachedWf(m, rank, depth, f);
    assert m1[q].children == cs && m1[t].parent == Some(q);
    assert Descends(m, depth, t, f) == Descends(m, depth, q, f);
    assert CanAttach(m1, depth, q, f) by {
      DescendsShrink(m, depth, m1, depth, q, f);
    }
    assert f !in cs && q != f && NoDup(cs) && ChildrenKnown(m);
    MovedAcrossIs(m, rank, self, fromID, toID, f, t, q);
  }

  lemma MovedAcrossIs<T>(m: Nodes<T>, rank: map<Ref, nat>, self: Ref, fromID: Id, toID: Id, f: Ref, t: Ref, q: Ref)
    requires Ranked(m, rank) && ChildrenKnown(m) && UniqueIds(m) && self in m && BothFound(m, rank, self, fromID, toID)
    requires f == Search(m, rank, self, fromID).value && t == Search(m, rank, self, toID).value
    requires q in m && ParentId(m, f) != ParentId(m, t) && m[t].parent == Some(q)
    requires f != t && q != f && t in m[q].children && f !in m[q].children && NoDup(m[q].children)
    requires Detached(m, f)[q].children == m[q].children && Detached(m, f)[t].parent == Some(q)
    ensures Moved(m, rank, self, fromID, toID) ==
              Reordered(WithChild(Detached(m, f), q, f), q, |m[q].children|, IndexIn(m[q].children, t))
  {
    assert Moved(m, rank, self, fromID, toID) == MovedNode(m, f, t);
    MovedNodeAcross(m, f, t, q);
  }

  lemma MovedNodeAcross<T>(m: Nodes<T>, f: Ref, t: Ref, q: Ref)
    requires ChildrenKnown(m) && UniqueIds(m) && f in m && t in m && q in m
    requires ParentId(m, f) != ParentId(m, t) && m[t].parent == Some(q)
    requires f != t && q != f && t in m[q].children && f !in m[q].children && NoDup(m[q].children)
    requires Detached(m, f)[q].children == m[q].children && Detached(m, f)[t].parent == Some(q)
    ensures MovedNode(m, f, t) ==
              Reordered(WithChild(Detached(m, f), q, f), q, |m[q].children|, IndexIn(m[q].children, t))
  {
    var cs := m[q].children;
    var m1 := Detached(m, f);
    assert ParentOf(m1, t) == Some(q);
    var m2 := WithChild(m1, q, f);
    WithChildFrame(m1, q, f);
    var j := IndexIn(cs, t);
    assert m2[q].children == cs + [f];
    assert m2[t].parent == Some(q);
    assert ParentOf(m2, t) == Some(q);
    assert UniqueIds(m2);
    var xs := cs + [f];
    assert NoDup(xs) by {
      forall a, b | 0 <= a < b < |xs| ensures xs[a] != xs[b] {
        if b == |cs| {
          assert xs[a] in cs;
        } else {
          assert xs[a] == cs[a] && xs[b] == cs[b];
        }
      }
    }
    assert xs[|cs|] == f && xs[j] == t;
    FirstIndexUnique(m2, xs, |cs|);
    FirstIndexUnique(m2, xs, j);
    PlacedBeforeIs(m2, f, t, q, |cs|, j);
    assert MovedNode(m, f, t) == PlacedBefore(m2, f, t);
  }

  lemma PlacedBeforeIs<T>(m: Nodes<T>, f: Ref, t: Ref, q: Ref, i: nat, j: nat)
    requires ChildrenKnown(m) && f in m && t in m && ParentOf(m, t) == Some(q)
    requires FirstIndexWithId(m, m[q].children, m[f].id) == Some(i)
    requires FirstIndexWithId(m, m[q].children, m[t].id) == Some(j)
    ensures i < |m[q].children| && j < |m[q].children|
    ensures PlacedBefore(m, f, t) == Reordered(m, q, i, j)
  {
  }

  /** The subtree of the moved node keeps its shape: only `q` and the old parent change children. */
  lemma MovedKeepsSubtree<T>(m: Nodes<T>, rank: map<Ref, nat>, depth: map<Ref, nat>,
                             r: Nodes<T>, rank2: map<Ref, nat>, f: Ref, q: Ref)
    requires Wf(m, rank, depth) && Ranked(r, rank2) && r.Keys == m.Keys && f in m && q in m
    requires !Descends(m, depth, q, f)
    requires forall y | y in m && y != q && Some(y) != m[f].parent :: r[y].children == m[y].children
    ensures Preorder(r, rank2, f) == Preorder(m, rank, f)
  {
    PreorderMembers(m, rank, depth, f);
    forall y | y in Preorder(m, rank, f) ensures y in r && r[y].children == m[y].children {
      DescendsDepth(m, depth, y, f);
    }
    PreorderFrame(m, rank, r, rank2, f);
  }

  /** `r` is a well-formed arena with unique ids over the same nodes as `m`, carrying the same ids, payloads and hidden flags. */
  ghost predicate SameNodes<T>(m: Nodes<T>, r: Nodes<T>, rank: map<Ref, nat>, depth: map<Ref, nat>) {
    && Wf(r, rank, depth) && UniqueIds(r) && r.Keys == m.Keys
    && forall y | y in m :: r[y].id == m[y].id && r[y].value == m[y].value && r[y].hidden == m[y].hidden
  }

  /**
   * Whatever case of `move(fromID:toID:)` applies, the arena stays
   * well-formed (under new measures), ids stay unique and no node's id,
   * payload or hidden flag changes.
   */
  lemma MovedWf<T>(m: Nodes<T>, rank: map<Ref, nat>, depth: map<Ref, nat>, self: Ref, fromID: Id, toID: Id)
    returns (rank2: map<Ref, nat>, depth2: map<Ref, nat>)
    requires Wf(m, rank, depth) && UniqueIds(m) && self in m && MoveAcyclic(m, rank, depth, self, fromID, toID)
    ensures SameNodes(m, Moved(m, rank, self, fromID, toID), rank2, depth2)
  {
    rank2, depth2 := rank, depth;
    if BothFound(m, rank, self, fromID, toID) {
      var f, t := Search(m, rank, self, fromID).value, Search(m, rank, self, toID).value;
      if ParentId(m, f) == ParentId(m, t) {
        MovedSameParentWf(m, rank, depth, self, fromID, toID);
      } else if m[t].parent.Some? {
        rank2, depth2 := MovedAcrossWf(m, rank, depth, self, fromID, toID);
      } else {
        MovedOntoRootWf(m, rank, depth, self, fromID, toID);
      }
    }
  }

  lemma MovedSameParentWf<T>(m: Nodes<T>, rank: map<Ref, nat>, depth: map<Ref, nat>, self: Ref, fromID: Id, toID: Id)
    requires Wf(m, rank, depth) && UniqueIds(m) && self in m && BothFound(m, rank, self, fromID, toID)
    requires var f, t := Search(m, rank, self, fromID).value, Search(m, rank, self, toID).value;
      ParentId(m, f) == ParentId(m, t)
    ensures SameNodes(m, Moved(m, rank, self, fromID, toID), rank, depth)
  {
    var f, t := Search(m, rank, self, fromID).value, Search(m, rank, self, toID).value;
    if m[t].parent.Some? {
      MovedSameParent(m, rank, depth, self, fromID, toID);
      ReorderedSameNodes(m, rank, depth, m[t].parent.value, f, t);
    } else {
      MovedSameParentTopIsNoop(m, rank, depth, self, fromID, toID);
      SameNodesRefl(m, rank, depth);
    }
  }

  lemma ReorderedSameNodes<T>(m: Nodes<T>, rank: map<Ref, nat>, depth: map<Ref, nat>, q: Ref, f: Ref, t: Ref)
    requires Wf(m, rank, depth) && UniqueIds(m) && q in m && f in m[q].children && t in m[q].children
    ensures SameNodes(m, Reordered(m, q, IndexIn(m[q].children, f), IndexIn(m[q].children, t)), rank, depth)
  {
    ReorderedChildFacts(m, rank, depth, q, f, t);
  }

  lemma SameNodesRefl<T>(m: Nodes<T>, rank: map<Ref, nat>, depth: map<Ref, nat>)
    requires Wf(m, rank, depth) && UniqueIds(m)
    ensures SameNodes(m, m, rank, depth)
  {
  }

  /** Both nodes found without a parent: `move(fromID:toID:)` changes nothing. */
  lemma MovedSameParentTopIsNoop<T>(m: Nodes<T>, rank: map<Ref, nat>, depth: map<Ref, nat>, self: Ref, fromID: Id, toID: Id)
    requires Wf(m, rank, depth) && self in m && BothFound(m, rank, self, fromID, toID)
    requires var f, t := Search(m, rank, self, fromID).value, Search(m, rank, self, toID).value;
      ParentId(m, f) == ParentId(m, t) && m[t].parent.None?
    ensures Moved(m, rank, self, fromID, toID) == m
  {
    var f, t := Search(m, rank, self, fromID).value, Search(m, rank, self, toID).value;
    assert Moved(m, rank, self, fromID, toID) == MovedNode(m, f, t);
    assert PlacedBefore(m, f, t) == m;
  }

  lemma MovedAcrossWf<T>(m: Nodes<T>, rank: map<Ref, nat>, depth: map<Ref, nat>, self: Ref, fromID: Id, toID: Id)
    returns (rank2: map<Ref, nat>, depth2: map<Ref, nat>)
    requires Wf(m, rank, depth) && UniqueIds(m) && self in m && BothFound(m, rank, self, fromID, toID)
    requires MoveAcyclic(m, rank, depth, self, fromID, toID)
    requires var f, t := Search(m, rank, self, fromID).value, Search(m, rank, self, toID).value;
      ParentId(m, f) != ParentId(m, t) && m[t].parent.Some?
    ensures SameNodes(m, Moved(m, rank, self, fromID, toID), rank2, depth2)
  {
    rank2, depth2 := MovedAcross(m, rank, depth, self, fromID, toID);
  }

  lemma MovedOntoRootWf<T>(m: Nodes<T>, rank: map<Ref, nat>, depth: map<Ref, nat>, self: Ref, fromID: Id, toID: Id)
    requires Wf(m, rank, depth) && UniqueIds(m) && self in m && BothFound(m, rank, self, fromID, toID)
    requires var f, t := Search(m, rank, self, fromID).value, Search(m, rank, self, toID).value;
      ParentId(m, f) != ParentId(m, t) && m[t].parent.None?
    ensures SameNodes(m, Moved(m, rank, self, fromID, toID), rank, depth)
  {
    var f := Search(m, rank, self, fromID).value;
    MovedOntoRoot(m, rank, depth, self, fromID, toID);
    DetachedWf(m, rank, depth, f);
  }

  // ---------------------------------------------------------------------
  // addChildren
  // ---------------------------------------------------------------------

  /**
   * `addChildren(cs)` appends `cs` to the children of `p`, in order, and
   * makes `p` the parent of each; no other node changes.
   */
  lemma {:induction false} WithChildrenFacts<T>(m: Nodes<T>, p: Ref, cs: seq<Ref>)
    requires p in m && p !in cs && forall c | c in cs :: c in m
    ensures var r := WithChildren(m, p, cs);
      && r[p] == m[p].(children := m[p].children + cs)
      && (forall c | c in cs :: r[c] == m[c].(parent := Some(p)))
      && (forall y | y in m && y != p && y !in cs :: r[y] == m[y])
    decreases |cs|
  {
    if cs != [] {
      var front := cs[..|cs| - 1];
      assert forall c | c in front :: c in cs;
      WithChildrenFacts(m, p, front);
      WithChildStepFacts(m, WithChildren(m, p, front), WithChildren(m, p, cs), p, cs);
    }
  }

  /** The step of `WithChildrenFacts`: from the shape for all of `cs` but its last element to the shape for `cs`. */
  lemma WithChildStepFacts<T>(m: Nodes<T>, m1: Nodes<T>, r: Nodes<T>, p: Ref, cs: seq<Ref>)
    requires p in m && p !in cs && cs != [] && m1.Keys == m.Keys && forall d | d in cs :: d in m
    requires m1[p] == m[p].(children := m[p].children + cs[..|cs| - 1])
    requires forall d | d in cs[..|cs| - 1] :: m1[d] == m[d].(parent := Some(p))
    requires forall y | y in m && y != p && y !in cs[..|cs| - 1] :: m1[y] == m[y]
    requires r == WithChild(m1, p, cs[|cs| - 1])
    ensures r[p] == m[p].(children := m[p].children + cs)
    ensures forall d | d in cs :: r[d] == m[d].(parent := Some(p))
    ensures forall y | y in m && y != p && y !in cs :: r[y] == m[y]
  {
    var front, c := cs[..|cs| - 1], cs[|cs| - 1];
    assert cs == front + [c];
    assert m[p].children + front + [c] == m[p].children + cs;
    assert forall d | d in cs :: d in front || d == c;
  }

  /** Which depth map is used to walk up the parent links does not matter. */
  lemma {:induction false} DescendsAnyDepth<T>(m: Nodes<T>, d1: map<Ref, nat>, d2: map<Ref, nat>, x: Ref, a: Ref)
    requires Leveled(m, d1) && Leveled(m, d2) && x in m
    ensures Descends(m, d1, x, a) == Descends(m, d2, x, a)
    decreases d1[x]
  {
    if x != a && m[x].parent.Some? {
      DescendsAnyDepth(m, d1, d2, m[x].parent.value, a);
    }
  }

  /** The walk up from `x` only reads the parent links of the nodes it passes. */
  lemma {:induction false} DescendsUnchangedUp<T>(m1: Nodes<T>, d1: map<Ref, nat>, m2: Nodes<T>, d2: map<Ref, nat>, x: Ref, a: Ref)
    requires Leveled(m1, d1) && Leveled(m2, d2) && x in m1 && m2.Keys == m1.Keys
    requires forall y | y in m1 && Descends(m1, d1, x, y) :: m2[y].parent == m1[y].parent
    ensures Descends(m2, d2, x, a) == Descends(m1, d1, x, a)
    decreases d1[x]
  {
    assert Descends(m1, d1, x, x);
    if x != a && m1[x].parent.Some? {
      var q := m1[x].parent.value;
      forall y | y in m1 && Descends(m1, d1, q, y) ensures m2[y].parent == m1[y].parent {
        assert Descends(m1, d1, x, y);
      }
      DescendsUnchangedUp(m1, d1, m2, d2, q, a);
    }
  }

  /** Hanging one root under `p` leaves every other root free to be hung under `p`. */
  lemma AttachKeepsCanAttach<T>(m: Nodes<T>, depth: map<Ref, nat>, r: Nodes<T>, depth2: map<Ref, nat>, p: Ref, c: Ref, d: Ref)
    requires Leveled(m, depth) && CanAttach(m, depth, p, c) && CanAttach(m, depth, p, d) && c != d
    requires r == WithChild(m, p, c) && Leveled(r, depth2)
    ensures CanAttach(r, depth2, p, d)
  {
    assert p != d by {
      assert Descends(m, depth, d, d);
    }
    forall y | y in m && Descends(m, depth, p, y) ensures r[y].parent == m[y].parent {
      assert y != c;
    }
    DescendsUnchangedUp(m, depth, r, depth2, p, d);
  }

  /** After hanging `cs[i]` under `p`, the later nodes of `cs` can still be hung under `p`. */
  lemma AttachKeepsRest<T>(m: Nodes<T>, depth: map<Ref, nat>, r: Nodes<T>, depth2: map<Ref, nat>, p: Ref, cs: seq<Ref>, i: nat)
    requires Leveled(m, depth) && NoDup(cs) && i < |cs|
    requires forall k | i <= k < |cs| :: CanAttach(m, depth, p, cs[k])
    requires p in m && cs[i] in m && r == WithChild(m, p, cs[i]) && Leveled(r, depth2)
    ensures forall k | i < k < |cs| :: CanAttach(r, depth2, p, cs[k])
  {
    forall k | i < k < |cs| ensures CanAttach(r, depth2, p, cs[k]) {
      AttachKeepsCanAttach(m, depth, r, depth2, p, cs[i], cs[k]);
    }
  }

  /** `addChildren` on one more node is one more `addChild`. */
  lemma WithChildrenStep<T>(m: Nodes<T>, p: Ref, cs: seq<Ref>, i: nat)
    requires p in m && (forall c | c in cs :: c in m) && i < |cs|
    ensures WithChildren(m, p, cs[..i + 1]) == WithChild(WithChildren(m, p, cs[..i]), p, cs[i])
  {
    assert cs[..i + 1][..i] == cs[..i];
  }
}
