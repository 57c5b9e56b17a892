# Multi-level task tree, modelled in Dafny

This project models the core of the multi-level task list app. That core has three parts:

- the generic `TreeNode<T>` class, with its children lists, weak parent links, listings, search and edits;
- the `TaskModel` record, with its conversion into a tree and the completion flags propagated through the tree;
- the bounds-checked `subscript(safe:)` that the app adds to mutable collections.

## How the model is built

- **The heap of node objects is an arena.** `TreeNode.Nodes<T>` maps an address (`Ref`) to a `Node` record. The record holds `id`, `value`, `hidden` (the source's `isHiddenChildren`), `parent` and `children`.
  - The class `TreeArena.Arena` holds that map as a field. Each `TreeNode` method that changes objects in place is an `Arena` method with a `modifies` clause.
  - Each such method is proved against a function on the old map. The facts about that function are lemmas in `TreeEdit`.
- **The object graph's shape is described by ghost maps.** The `rank` and `depth` maps say that both the child links and the parent links are acyclic (`TreeNode.Wf`).
  - `Linked` says the two kinds of link agree, and a parent lists each child once.
  - Detached subtrees stay in the arena as parentless nodes. A detached node object is returned by `removeChildWithID` and can be attached again.
- **Ids are an abstract type with equality.** This type stands in for `UUID`. Ids are a field, not the address, so duplicate ids are expressible. The array builder can produce them (see below).
- **The recursive queries are functions.** `arrayTreeNode*`, `search`, `level` and `allchildrenInLevel` read a node and its subtree.
- **`TaskModel` is a datatype.** The methods that build trees and set flags work on an `Arena<Task>`.
- **The array builder has a quirk.** With every parent listed before its children, `IdentifiedArray.asTreeNode()` holds exactly the array's records. Otherwise, when a record comes before its parent, `buildTreeNode` wraps only the topmost ancestor, so the record itself gets no node. If that ancestor is listed later, it is wrapped a second time. `TaskModel.ChildBeforeParentIsLost` states this model-level outcome for a two-record array; the Dafny contains no concrete run.

## Model

| member | source | states |
|---|---|---|
| TreeNode.ParentOf | multi-level-tca-swiftui/TreeNode.swift:14 | the weak `parent` reference reads as the recorded parent when that object is in the arena, and as nil exactly when there is no recorded parent or it is not in the arena |
| TreeNode.Preorder | multi-level-tca-swiftui/TreeNode.swift:138-145 | the listing is non-empty, starts with the node itself and holds only arena nodes |
| TreeNode.PreorderAll | multi-level-tca-swiftui/TreeNode.swift:141-143 | the loop over the children, each child's listing appended in turn, holds only arena nodes |
| TreeNode.PreorderWithoutRoot | multi-level-tca-swiftui/TreeNode.swift:148-152 | the listing without its head is the children's listings concatenated, one shorter than the full listing |
| TreeNode.Visible | multi-level-tca-swiftui/TreeNode.swift:155-164 | the collapsed listing is non-empty, starts with the node itself and holds only arena nodes |
| TreeNode.VisibleAll | multi-level-tca-swiftui/TreeNode.swift:158-162 | the loop over the children of an open node, each child's collapsed listing appended, holds only arena nodes |
| TreeNode.VisibleWithoutRoot | multi-level-tca-swiftui/TreeNode.swift:167-171 | empty for a collapsed node, otherwise the children's collapsed listings; one shorter than the collapsed listing |
| TreeNode.Search | multi-level-tca-swiftui/TreeNode.swift:205-215 | a node found by id is an arena node that carries the id |
| TreeNode.SearchAll | multi-level-tca-swiftui/TreeNode.swift:209-213 | the loop over the children returns an arena node carrying the id, if any child's search finds one |
| TreeNode.SearchValue | multi-level-tca-swiftui/TreeNode.swift:191-201 | a node found by value is an arena node that holds the value |
| TreeNode.SearchValueAll | multi-level-tca-swiftui/TreeNode.swift:195-199 | the loop over the children returns an arena node holding the value, if any child's search finds one |
| TreeNode.FirstIndexWithId | multi-level-tca-swiftui/TreeNode.swift:117-118 | nil exactly when no element carries the id; otherwise an in-range position carrying it, with none before it |
| TreeNode.FirstIndexWithValue | multi-level-tca-swiftui/TreeNode.swift:191-201 | the first position holding a value: nil exactly when none does, otherwise in range with none before it |
| TreeFacts.LevelBounds | multi-level-tca-swiftui/TreeNode.swift:173-181 | `level` (TreeNode.Level) is 0 exactly for a node without parent, and is bounded by the depth measure, so the walk up ends |
| TreeNode.WithLevel | multi-level-tca-swiftui/TreeNode.swift:186 | the filter keeps exactly the elements at the level, as a subsequence of the input |
| TreeFacts.WithLevelCount | multi-level-tca-swiftui/TreeNode.swift:186 | each element at the level is kept as often as it occurs, and every other element is dropped |
| TreeNode.AllChildrenInLevel | multi-level-tca-swiftui/TreeNode.swift:185-187 | exactly the listed nodes at the given level, as a subsequence of the listing |
| TreeFacts.PreorderMembers | multi-level-tca-swiftui/TreeNode.swift:138-145 | the listing holds exactly the nodes that descend from the node |
| TreeFacts.PreorderNoDup | multi-level-tca-swiftui/TreeNode.swift:138-145 | no node is listed twice |
| TreeFacts.PreorderSize | multi-level-tca-swiftui/TreeNode.swift:138-145 | the listing is as long as the subtree is large |
| TreeFacts.VisibleMembers | multi-level-tca-swiftui/TreeNode.swift:155-164 | the collapsed listing holds exactly the nodes with no collapsed node strictly between them and the root |
| TreeFacts.HiddenHidesDescendants | multi-level-tca-swiftui/TreeNode.swift:158 | the proper descendants of a collapsed node are not listed, and the collapsed node itself is listed exactly when it is shown |
| TreeFacts.VisibleIsSubseq | multi-level-tca-swiftui/TreeNode.swift:155-164 | the collapsed listing is the full listing with some entries dropped, in order |
| TreeFacts.NothingHiddenShowsAll | multi-level-tca-swiftui/TreeNode.swift:155-164 | with no node collapsed the two listings coincide |
| TreeFacts.FirstIndexWithIdAppend | multi-level-tca-swiftui/TreeNode.swift:117-118 | a first match in `a + b` is the first in `a`, else the first in `b` shifted past `a`, else none |
| TreeFacts.SearchFindsFirst | multi-level-tca-swiftui/TreeNode.swift:205-215 | `search(id:)` returns the first node of the listing that carries the id, nil when none does |
| TreeFacts.SearchAllFindsFirst | multi-level-tca-swiftui/TreeNode.swift:209-213 | the loop over the children returns the first match of their concatenated listings |
| TreeFacts.SearchValueFindsFirst | multi-level-tca-swiftui/TreeNode.swift:191-201 | `search(value:)` returns the first node of the listing that holds the value |
| TreeFacts.SearchValueAllFindsFirst | multi-level-tca-swiftui/TreeNode.swift:195-199 | the loop over the children returns the first value match of their listings |
| TreeFacts.SearchUniqueId | multi-level-tca-swiftui/TreeNode.swift:205-215 | with unique ids, searching for a node's id finds that node exactly when it is in the subtree |
| TreeFacts.SearchInSubtree | multi-level-tca-swiftui/TreeNode.swift:205-215 | a found node is in the subtree, and nil means no node of the subtree carries the id |
| TreeFacts.ChildLevel | multi-level-tca-swiftui/TreeNode.swift:173-181 | a child's level is its parent's plus one |
| TreeFacts.LevelBelow | multi-level-tca-swiftui/TreeNode.swift:173-181 | a descendant is at least as deep as its ancestor, strictly deeper when it is another node |
| TreeFacts.DescendsDepth | multi-level-tca-swiftui/TreeNode.swift:14 | walking up the parent links strictly decreases the depth measure |
| TreeFacts.NextLevelIsChildren | multi-level-tca-swiftui/TreeNode.swift:185-187 | the nodes of the subtree one level below the node are exactly its children, in order |
| TreeEdit.WithChild | multi-level-tca-swiftui/TreeNode.swift:50-53 | `addChild` keeps the arena's addresses, links the child to the parent and lists it among the parent's children |
| TreeEdit.WithChildFrame | multi-level-tca-swiftui/TreeNode.swift:50-53 | `addChild` keeps every id and adds no child other than the one appended |
| TreeEdit.AttachWf | multi-level-tca-swiftui/TreeNode.swift:50-53 | attaching a parentless node outside the parent's ancestry keeps the arena well-formed and the ids unique; the parent's children gain the node at the end; nothing else changes |
| TreeEdit.AttachPreorder | multi-level-tca-swiftui/TreeNode.swift:50-53 | after `addChild` the parent's listing is its old listing followed by the child's |
| TreeEdit.WithChildren | multi-level-tca-swiftui/TreeNode.swift:55-59 | `addChildren` keeps the arena's addresses; its effect on each node is `TreeEdit.WithChildrenFacts` |
| TreeEdit.WithChildrenFacts | multi-level-tca-swiftui/TreeNode.swift:55-59 | `addChildren` appends all the nodes in order, sets each one's parent and changes nothing else |
| TreeEdit.MoveOffset | multi-level-tca-swiftui/TreeNode.swift:63-65 | a one-offset move keeps the length and puts the moved element at its new position |
| TreeEdit.MoveOffsetIsRemoveInsert | multi-level-tca-swiftui/TreeNode.swift:63-65 | a one-element `move(fromOffsets:toOffset:)` removes the element and reinserts it in front of the old target element |
| TreeEdit.MoveOffsetFacts | multi-level-tca-swiftui/TreeNode.swift:63-65 | the move is a permutation, puts the element at its new position and immediately before the old target element |
| TreeEdit.WithoutId | multi-level-tca-swiftui/TreeNode.swift:80 | `removeAll(where:)` keeps exactly the elements with another id, and keeps a list without repeats free of repeats |
| TreeEdit.WithoutIdRemovesOne | multi-level-tca-swiftui/TreeNode.swift:80 | with unique ids, removing by a child's id removes just that position |
| TreeEdit.WithoutIdKeepsAll | multi-level-tca-swiftui/TreeNode.swift:80 | removing an id nobody carries changes nothing |
| TreeEdit.Detached | multi-level-tca-swiftui/TreeNode.swift:80-81 | detaching keeps the addresses and ids, clears the node's parent and adds no child anywhere |
| TreeEdit.DetachedWf | multi-level-tca-swiftui/TreeNode.swift:80-81 | detaching keeps the arena well-formed and the ids unique; only the node's parent link and its old parent's list change, by removing its position |
| TreeEdit.Reordered | multi-level-tca-swiftui/TreeNode.swift:63-65 | reordering a node's children keeps the addresses and ids |
| TreeEdit.RemovedById | multi-level-tca-swiftui/TreeNode.swift:78-85 | the node returned carries the id and is now a root; nil leaves the arena unchanged |
| TreeEdit.RemovedByIdFacts | multi-level-tca-swiftui/TreeNode.swift:78-85 | nil exactly when no listed node carries the id; otherwise the returned node's subtree is unchanged and leaves the listing of `self` |
| TreeEdit.RemovedEach | multi-level-tca-swiftui/TreeNode.swift:88-95 | one result per id, and the addresses are kept |
| TreeEdit.RemovedEachStep | multi-level-tca-swiftui/TreeNode.swift:90-93 | each round appends the result of one `removeChildWithID` |
| TreeEdit.RemovedEachKeeps | multi-level-tca-swiftui/TreeNode.swift:88-95 | the arena stays well-formed with unique ids; roots stay roots and nothing joins the listing of `self` |
| TreeEdit.RemovedEachFacts | multi-level-tca-swiftui/TreeNode.swift:88-95 | every result is nil exactly when no node listed under `self` carried its id, else a node carrying it that is no longer listed |
| TreeEdit.Moved | multi-level-tca-swiftui/TreeNode.swift:113-132 | `move(fromID:toID:)` keeps the addresses, and does nothing when either id is not found |
| TreeEdit.MovedNode | multi-level-tca-swiftui/TreeNode.swift:115-130 | the move once both nodes are found keeps the arena's addresses; each branch's effect is stated by `MovedSameParent`, `MovedAcross` and `MovedOntoRoot` |
| TreeEdit.ParentIdOf | multi-level-tca-swiftui/TreeNode.swift:115 | `parent?.id` is nil exactly without a live parent, and otherwise the parent's id |
| TreeEdit.MovedSameParent | multi-level-tca-swiftui/TreeNode.swift:115-120 | with equal parent ids the move reorders the common parent's children, from the mover's to the target's position |
| TreeEdit.MovedSameParentTopIsNoop | multi-level-tca-swiftui/TreeNode.swift:115-120 | with equal parent ids and no parent, nothing changes |
| TreeEdit.ReorderedChildFacts | multi-level-tca-swiftui/TreeNode.swift:119 | only the parent's children change, by a permutation that puts the mover right in front of the target |
| TreeEdit.MovedOntoRoot | multi-level-tca-swiftui/TreeNode.swift:121-124 | moving next to a parentless target only detaches the mover, which leaves the listing |
| TreeEdit.MovedAcross | multi-level-tca-swiftui/TreeNode.swift:121-130 | the mover leaves its old parent's list, is inserted right in front of the target under the target's parent, keeps its subtree, and nothing else changes |
| TreeEdit.PlacedBefore | multi-level-tca-swiftui/TreeNode.swift:125-129 | the closing reorder keeps the arena's addresses and does nothing when the target has no parent |
| TreeEdit.PlacedBeforeIs | multi-level-tca-swiftui/TreeNode.swift:125-129 | the final reorder moves child `i` to offset `j`, the first positions of the two ids |
| TreeEdit.MovedWf | multi-level-tca-swiftui/TreeNode.swift:113-132 | without a cycle, the move keeps the arena well-formed, the ids unique, and every node's id, value and hidden flag |
| ArenaInvariant.FreshOk | multi-level-tca-swiftui/TreeNode.swift:17-28 | a fresh parentless node at the next address keeps the arena invariant, and unique ids when its id is new |
| ArenaInvariant.AttachOk | multi-level-tca-swiftui/TreeNode.swift:50-53 | `addChild` keeps the arena invariant under new measures |
| ArenaInvariant.ReorderOk | multi-level-tca-swiftui/TreeNode.swift:63-65 | reordering children keeps the arena invariant |
| ArenaInvariant.PlaceOk | multi-level-tca-swiftui/TreeNode.swift:125-129 | the reordering at the end of `move` keeps the arena invariant |
| ArenaInvariant.DetachOk | multi-level-tca-swiftui/TreeNode.swift:80-81 | detaching keeps the arena invariant and unique ids |
| TreeArena.Arena.NewNode | multi-level-tca-swiftui/TreeNode.swift:17-28 | a new parentless, childless node object at a fresh address; nothing else changes |
| TreeArena.Arena.SetValue | multi-level-tca-swiftui/TreeNode.swift:11 | assigning `value` changes that node's value only |
| TreeArena.Arena.SetHidden | multi-level-tca-swiftui/TreeNode.swift:13 | assigning `isHiddenChildren` changes that node's flag only |
| TreeArena.Arena.AddChild | multi-level-tca-swiftui/TreeNode.swift:50-53 | the arena becomes `WithChild` of the old one, and stays valid |
| TreeArena.Arena.AddChildren | multi-level-tca-swiftui/TreeNode.swift:55-59 | the loop ends with `WithChildren` of the old arena, with no node object allocated |
| TreeArena.Arena.MoveChildren | multi-level-tca-swiftui/TreeNode.swift:63-65 | the arena becomes `Reordered` of the old one |
| TreeArena.Arena.Detach | multi-level-tca-swiftui/TreeNode.swift:80-81 | the arena becomes `Detached` of the old one |
| TreeArena.Arena.RemoveChildWithID | multi-level-tca-swiftui/TreeNode.swift:78-85 | the arena and the result are `RemovedById` of the old arena |
| TreeArena.Arena.RemoveChildrenWithIDs | multi-level-tca-swiftui/TreeNode.swift:88-95 | the loop ends with the arena and the results of `RemovedEach`, with no node object allocated |
| TreeArena.Arena.PlaceBefore | multi-level-tca-swiftui/TreeNode.swift:125-129 | the arena becomes `PlacedBefore` of the old one |
| TreeArena.Arena.Move | multi-level-tca-swiftui/TreeNode.swift:113-132 | the arena becomes `Moved` of the old one, valid with unique ids, with no node object allocated |
| TaskModel.DefaultTask | multi-level-tca-swiftui/TaskModel.swift:11-16 | the default record: empty name, not completed, no parent |
| TaskModel.AsNode | multi-level-tca-swiftui/TaskModel.swift:27-29 | the node record carries the task's id and the task, with no parent or children |
| TaskModel.Lookup | multi-level-tca-swiftui/TaskModel.swift:36 | `array[id:]` returns a record of the array with that id, nil when there is none |
| TaskModel.LookupIdentified | multi-level-tca-swiftui/TaskModel.swift:36 | in an identified array, looking up a record's id returns that record |
| TaskModel.ParentIn | multi-level-tca-swiftui/TaskModel.swift:36 | the parent record is found exactly when `parentID` is set and some record carries it |
| TaskModel.LevelOnBounds | multi-level-tca-swiftui/TaskModel.swift:33-42 | `levelOn` (TaskModel.LevelOn) is positive exactly when the parent is found in the array, and never exceeds the record's place in the acyclic order |
| TaskModel.LevelOnIsWalkLength | multi-level-tca-swiftui/TaskModel.swift:33-42 | `levelOn` is the number of `parentID` hops that stay inside the array |
| TaskModel.LevelOnZero | multi-level-tca-swiftui/TaskModel.swift:33-42 | no array gives 0, and 0 means the record has no parent in the array |
| TaskModel.TopAncestor | multi-level-tca-swiftui/TaskModel.swift:63-70 | the record `buildTreeNode` returns is the record itself or one of the array, and has no parent in the array |
| TaskModel.Chosen | multi-level-tca-swiftui/TaskModel.swift:49-58 | each loop round wraps the record itself or its topmost ancestor |
| TaskModel.PlacedAt | multi-level-tca-swiftui/TaskModel.swift:49-59 | a later round leaves the choices made for earlier records alone |
| TaskModel.PlacedChoices | multi-level-tca-swiftui/TaskModel.swift:47-70 | each node built holds its own record or that record's topmost ancestor |
| TaskModel.ParentsFirstPlacesAll | multi-level-tca-swiftui/TaskModel.swift:47-61 | when parents come first, the builder wraps exactly the array's records, in order |
| TaskModel.ParentNotYetPlaced | multi-level-tca-swiftui/TaskModel.swift:50-55 | when parents come first, a parent id not yet wrapped has no record in the array |
| TaskModel.ChildBeforeParentIsLost | multi-level-tca-swiftui/TaskModel.swift:47-70 | for `[B, A]`, with `A` the parent of `B`, `A` is wrapped twice and `B` never |
| TaskTreeBuilder.AsTreeNode | multi-level-tca-swiftui/TaskModel.swift:27-29 | a new node object for the record, at a fresh address |
| TaskTreeBuilder.BuildTreeNode | multi-level-tca-swiftui/TaskModel.swift:63-70 | one new childless node holding the topmost ancestor of the record |
| TaskTreeBuilder.SearchFound | multi-level-tca-swiftui/TaskModel.swift:51-52 | a parent id found by `search(id:)` below the root is the node of an earlier record, carrying that id |
| TaskTreeBuilder.SearchMissed | multi-level-tca-swiftui/TaskModel.swift:53-55 | a parent id `search(id:)` misses belongs to no record wrapped so far |
| TaskTreeBuilder.BuiltStep | multi-level-tca-swiftui/TaskModel.swift:49-59 | one round of the loop extends the description of the built tree by one record |
| TaskTreeBuilder.NewItemNode | multi-level-tca-swiftui/TaskModel.swift:50-57 | the node made for record `i` and the node it goes under (the found parent or the root) |
| TaskTreeBuilder.PlaceItem | multi-level-tca-swiftui/TaskModel.swift:49-58 | one loop round keeps the arena valid and the built-tree description |
| TaskTreeBuilder.ArrayAsTreeNode | multi-level-tca-swiftui/TaskModel.swift:47-61 | a new root holding the default record and one node per record, each below the root |
| TaskTreeBuilder.AllUnderRoot | multi-level-tca-swiftui/TaskModel.swift:47-61 | every node built hangs below the root |
| TaskTreeBuilder.RootChildren | multi-level-tca-swiftui/TaskModel.swift:47-61 | the root's children are exactly the nodes of the records sent to the root, in array order |
| TaskTreeBuilder.NodeHolds | multi-level-tca-swiftui/TaskModel.swift:47-61 | when parents come first, the node for each record holds that record and its id |
| TaskTreeBuilder.TopRecordUnderRoot | multi-level-tca-swiftui/TaskModel.swift:50-57 | when parents come first, a record whose parent is not in the array hangs under the root |
| TaskTreeBuilder.ChildUnderParent | multi-level-tca-swiftui/TaskModel.swift:50-52 | when parents come first and ids are unique, a record's node hangs under its parent's node |
| TaskTreeBuilder.BuiltLevel | multi-level-tca-swiftui/TaskModel.swift:47-61 | when parents come first and ids are unique, a node's tree level is `levelOn` of its record plus one |
| TaskTree.WithFlag | multi-level-tca-swiftui/TaskModel.swift:77 | writing `isCompleted` of one node sets that flag |
| TaskTree.SelfCompletedConsistent | multi-level-tca-swiftui/TaskModel.swift:96-104 | afterwards the node's flag is the AND of its children's flags, true for a leaf |
| TaskTree.MakeSelfCompleted | multi-level-tca-swiftui/TaskModel.swift:96-104 | the node's flag becomes "all children completed", and nothing else changes |
| TaskTree.CompleteSubtree | multi-level-tca-swiftui/TaskModel.swift:76-79 | one round flags the child and all of its descendants |
| TaskTree.MakeChildrenCompleted | multi-level-tca-swiftui/TaskModel.swift:75-80 | exactly the proper descendants get the given flag |
| TaskTree.FlaggedTwice | multi-level-tca-swiftui/TaskModel.swift:76-79 | flagging two sets one after the other is flagging their union |
| TaskTree.Propagated | multi-level-tca-swiftui/TaskModel.swift:82-94 | propagation keeps the addresses |
| TaskTree.PropagatedFrame | multi-level-tca-swiftui/TaskModel.swift:82-94 | `makeParentCompleted` changes only flags, and only those of proper ancestors |
| TaskTree.ParentConsistent | multi-level-tca-swiftui/TaskModel.swift:83-92 | afterwards the parent's flag is the AND of its children's flags |
| TaskTree.PropagatedConsistent | multi-level-tca-swiftui/TaskModel.swift:82-94 | afterwards every proper ancestor's flag is the AND of its children's flags |
| TaskTree.PropagatedWf | multi-level-tca-swiftui/TaskModel.swift:82-94 | propagation keeps the arena well-formed |
| TaskTree.PropagatedIgnoresAbove | multi-level-tca-swiftui/TaskModel.swift:82-94 | propagation from a node does not depend on its ancestors' old flags |
| TaskTree.RoundStep | multi-level-tca-swiftui/TaskModel.swift:84-91 | a round over an earlier round ends as one flag write and one propagation |
| TaskTree.Round | multi-level-tca-swiftui/TaskModel.swift:84-91 | each round reads an untouched child and, whichever flag it writes, ends as a single write and propagation |
| TaskTree.RecomputeParent | multi-level-tca-swiftui/TaskModel.swift:86-87 | writing the parent's flag and recursing is one propagation from the parent |
| TaskTree.CompleteParent | multi-level-tca-swiftui/TaskModel.swift:84-92 | the loop with its early return ends as one write of "all children completed" and one propagation |
| TaskTree.MakeParentCompleted | multi-level-tca-swiftui/TaskModel.swift:82-94 | the arena ends as one bottom-up recomputation of the ancestors' flags |
| TaskTree.SelfAndParentConsistent | multi-level-tca-swiftui/TaskModel.swift:106-109 | afterwards the node and all its proper ancestors carry the AND of their children's flags |
| TaskTree.SelfAndParentFrame | multi-level-tca-swiftui/TaskModel.swift:106-109 | only the flags of the node and its proper ancestors change |
| TaskTree.MakeSelfAndParentCompleted | multi-level-tca-swiftui/TaskModel.swift:106-109 | the node's own recomputation followed by propagation from it |
| SafeIndex.SafeGet | multi-level-tca-swiftui/TaskApp.swift:38-40 | an element exactly when the index is in range, and it is the element there |
| SafeIndex.Assigned | multi-level-tca-swiftui/TaskApp.swift:41-45 | the length is kept, other indices are kept, an in-range index with a value gets the value, anything else changes nothing |
| SafeIndex.SafeSet | multi-level-tca-swiftui/TaskApp.swift:41-45 | the array's elements become `Assigned` of the old ones |
| SafeIndex.GetAfterSet | multi-level-tca-swiftui/TaskApp.swift:36-47 | reading back gives the value set, the old element for nil, nothing out of range |
| SafeIndex.GetOtherAfterSet | multi-level-tca-swiftui/TaskApp.swift:36-47 | setting one index leaves what is read at every other index |
| SafeIndex.SetWhatWasGot | multi-level-tca-swiftui/TaskApp.swift:36-47 | setting what was read changes nothing |
| SafeIndex.SetTwice | multi-level-tca-swiftui/TaskApp.swift:41-45 | of two writes to one index only the second is kept |

## Left out

- `TreeNode.with` (TreeNode.swift:43-46) and `TaskModel.with` (TaskModel.swift:19-23): they apply a caller's closure to the object or to a copy, so they have no behaviour of their own to model.
- `removeChild` and `removeChildren` (TreeNode.swift:69-75): one-line forwarders to the id versions, which are modelled.
- `remove(value:)` (TreeNode.swift:99-109): not modelled. Its loop runs over the children while the recursive calls remove entries from those same arrays, and its `removeAll(where:)` on values can drop siblings without clearing their parent links.
- `==`, `description`, `Codable` and the UI / TCA layers: not modelled; they do not take part in the tree's logic.
- UUID generation: `UUID()` is random. The ids of the builder's root node and root record are parameters (`rootId`, `rootTaskId`).
- `moveChildren` with an `IndexSet` of several offsets: only the one-element sets that `move(fromID:toID:)` uses are modelled.
- The arena never frees node objects. A node object no longer referenced stays in the map, where the weak parent links of the source would see nil after deallocation.
- TreeArena.Arena.NewNode: models only the initializer's defaults `parent: nil` and `children: []`. The initializer never stores its `parent` argument, and never links a `children` argument back to the new node, so either argument would break `Linked`.
- TreeArena.Arena.AddChild: requires `CanAttach`, meaning the child is parentless and not an ancestor of the parent. The source does not guard this. Attaching a node that still has a parent would leave it in two children lists.
- TreeArena.Arena.AddChildren: requires `CanAttach` for each node and no repeated node, for the same reason.
- TreeArena.Arena.RemoveChildWithID, TreeArena.Arena.RemoveChildrenWithIDs, TreeArena.Arena.Detach: require unique ids. With duplicate ids, `removeAll(where:)` would also drop a sibling carrying the same id while that sibling's parent link stays, and the arena invariant would no longer hold.
- TreeArena.Arena.Move: requires unique ids and `MoveAcyclic`, meaning the target's parent is not inside the mover's subtree. The source has no such guard; without it the move would create a cycle.
- TaskModel.LevelOn, TaskModel.TopAncestor, TaskTreeBuilder.ArrayAsTreeNode: require the `parentID` links to be acyclic, witnessed by a ghost order on the ids. On a cycle the Swift recursion never ends.
- TaskTreeBuilder.ArrayAsTreeNode: requires that no record names the fresh root id as its parent, so that `search(id:)` never returns the root.
- TaskTreeBuilder.BuildTreeNode: the node pairs made on line 65 are unreachable as soon as they are made, and the model does not allocate them. The model's addresses therefore advance by one per record.
- The trees the builder produces can carry duplicate ids when a child comes before its parent (see `TaskModel.ChildBeforeParentIsLost`). The id-based edits above are only proved for trees with unique ids.
- TaskTree.MakeParentCompleted: only the final state is modelled. The source repeats the whole upward walk once per completed child; the work those extra walks do is not measured.
- SafeIndex.SafeGet, SafeIndex.SafeSet: cover a zero-based collection indexed by integers only. Other `MutableCollection` index types are not modelled.
