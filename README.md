# Scene-graph traversal engines

This project models the two traversal engines of an arena-backed scene graph.
Every non-root node lives in a generational arena. Each node records its value,
the first and last slots of its child list, and its next sibling. The root value
sits inline in the graph with its own child range. A node identifier is either
`Root` or `Branch(slot)`.

- **Read iterator** (`IterWithIndex`): a depth-first preorder walk over the
  proper descendants of a start node. It yields each node's identifier with its
  value. It works on an explicit stack. Each call pops one frame, pushes the
  popped node's next sibling and then its first child, and yields the popped
  node.
- **Mutable predicate iterator** (`IterMutPredicate`): a preorder walk whose
  frames hold (parent identifier, candidate slot). For every admitted node it
  yields the pair (parent, node). A rejected node is dropped together with its
  whole subtree, but its siblings are still visited. If the root is rejected,
  nothing at all is yielded. Frames under the root test the root again each
  time.

The arena is a `map<Idx, Node<T>>`, and a stale slot is one the map does not
hold. `WellFormed` says that every first-child and next-sibling link resolves.
It also requires a rank that strictly decreases along those links, so the
structure is finite and acyclic. `IsTree` adds that no slot is the target of
two links: the root's first-child link and every entry's first-child and
next-sibling links each name a different slot, which is how attaching a node
hangs it in exactly one place. From this it is proved that a walk lists every
slot at most once.

There are two specifications of the walk order. `Walk` and `Pruned` describe
what one stack frame and the frames of its later siblings yield. `Pre`/`PreForest`
and `PrunedPre`/`PrunedForest`/`PrunedTree` are the textbook definitions: a node,
then the preorders of its children in sibling order, optionally filtered by the
predicate. Lemmas prove the two views equal. Each iterator is a class with a
`stacks: seq<...>` field whose top is the last element. Its ghost `Remaining()`
is the concatenation of the frames' specifications, top frame first. `Next`
proves that the item it yields is the head of `Remaining()` and that the tail is
what remains afterwards.

## Model

| member | source | states |
|---|---|---|
| `Tree.FirstChildOf` | src/iter_mut_predicate.rs:18-21 | the start's first child: from the root's range for `Root`, from the arena entry for a live `Branch`, none for a stale `Branch`; it always resolves in a well-formed graph |
| `Tree.Chain` | src/iter_with_index.rs:29-32 | following `next_sibling` from a slot gives only live slots ranked no higher than that slot, so a sibling chain is finite |
| `Tree.ChildrenOf` | src/iter_mut_predicate.rs:75-80 | a node's children are live slots ranked strictly below the node, so no node is its own child |
| `Tree.ChainClosed` | src/iter_mut_predicate.rs:59-61 | the sibling of a member of a parent's child chain is in the same chain, so a pushed sibling frame stays under the right parent |
| `Tree.Walk` | src/iter_with_index.rs:24-40 | the frame view of preorder, a node then its subtree then its later siblings, yields only live slots ranked no higher than the frame's slot |
| `Tree.WalkIsPreorder` | src/iter_with_index.rs:29-37 | pushing the sibling before the first child gives exactly the textbook preorder: each node, then its children's preorders in sibling order |
| `Tree.DescendantsArePreorder` | src/iter_with_index.rs:14-15 | a walk started at a node yields its children's preorders; for a live node this is its own preorder minus the node itself |
| `Tree.StartNotDescendant` | src/iter_with_index.rs:14-15 | the start node is never yielded from itself, and a leaf start yields the empty sequence |
| `Tree.SubWalk` | src/iter_with_index.rs:34-37 | the walk from any node met in a walk is contained in that walk, counting multiplicity |
| `Tree.LinkInsideWalk` | src/iter_with_index.rs:28-35 | in a tree, every slot met in the walk from a link is named by that link or by a link whose owner the same walk meets |
| `Tree.OnlyLinkInsideWalk` | src/iter_with_index.rs:28-35 | in a tree, any link naming a slot met in a walk is that walk's own link or starts at a node the walk meets |
| `Tree.SubtreeApartFromSiblings` | src/iter_with_index.rs:28-35 | in a tree, the slots below a node and the slots reached through its later siblings are disjoint |
| `Tree.WalkOnceStep` | src/iter_with_index.rs:28-35 | a walk whose child part and sibling part are each duplicate-free is duplicate-free in a tree |
| `Tree.WalkOnce` | src/iter_with_index.rs:24-40 | in a tree, the walk from any link lists every slot at most once |
| `Tree.DescendantsOnce` | src/iter_with_index.rs:24-40 | in a tree, a traversal from the root or from any node lists every descendant exactly once; the root case is derived from the link structure, not assumed |
| `IterWithIndex.PendingPush` | src/iter_with_index.rs:30-31 | pushing a frame puts that frame's walk in front of everything already pending |
| `IterWithIndex.PendingPushLink` | src/iter_with_index.rs:34-36 | pushing the frame for an optional link adds that link's walk in front, or nothing when there is no link |
| `IterWithIndex.PushesExpandFrame` | src/iter_with_index.rs:26-39 | popping a frame and pushing its sibling and then its first child leaves exactly the frame's walk minus its own node pending |
| `IterWithIndex.SceneGraphIterWithIndex.constructor` | src/iter_with_index.rs:12-18 | one frame for the first entry of the given child range, or an empty stack when the range is absent; it will yield the walk from that child |
| `IterWithIndex.SceneGraphIterWithIndex.Next` | src/iter_with_index.rs:24-40 | returns none exactly when the stack is empty; otherwise it pops the top frame, pushes the sibling frame and then the first-child frame, and yields a live `Branch` with its arena value, which is the head of what remained |
| `IterWithIndex.IterFromNodeWithIndex` | src/iter_with_index.rs:12-17 | a stale `Branch` start fails with `NodeNotFound`; otherwise the new iterator will yield exactly the start's proper descendants |
| `PrunedOrder.Pruned` | src/iter_mut_predicate.rs:37-85 | the frame view of the pruned walk yields only candidates that appear in the unpruned walk of the same frame |
| `PrunedOrder.PrunedIsPrunedPreorder` | src/iter_mut_predicate.rs:58-80 | under an admitted parent the frame view equals the textbook filter: a rejected node is dropped with its subtree, and its siblings' filtered subtrees follow in order |
| `PrunedOrder.PrunedFromRootIsPrunedTree` | src/iter_mut_predicate.rs:42-47 | from the root the iterator yields exactly the tree filtered by the predicate, and nothing at all when the root is rejected |
| `PrunedOrder.AlwaysTrueMatchesWalk` | src/iter_mut_predicate.rs:114-146 | with a predicate that admits everything, the yielded children are exactly the read iterator's preorder walk |
| `PrunedOrder.VisitsAreAdmittedEdges` | src/iter_mut_predicate.rs:51-82 | every yielded pair is a real parent/child edge whose child satisfies the predicate; a `Branch` parent is a different slot from the child; a `Root` parent satisfies the predicate; a nested parent was itself admitted |
| `PrunedOrder.RejectedSubtreePruned` | src/iter_mut_predicate.rs:63-67 | in a tree, a rejected node is never yielded and neither is any of its descendants, even those that satisfy the predicate |
| `IterMutPredicate.GetDisjoint` | src/iter_mut_predicate.rs:51-54 | the paired lookup of two different slots: each result is present exactly when its slot is live, and is then that slot's arena entry; `Next` proves both present, so the two `unwrap`s cannot fail |
| `IterMutPredicate.ParentDisjoint` | src/iter_mut_predicate.rs:51-54 | a frame's candidate is live, and a `Branch` parent is live and a different slot, which is what the paired mutable lookup requires |
| `IterMutPredicate.PendingPushLink` | src/iter_mut_predicate.rs:59-61 | pushing the frame for an optional link under a parent adds that frame's pruned walk in front, and its walk size to the work bound |
| `IterMutPredicate.DropUnderRejectedRoot` | src/iter_mut_predicate.rs:42-47 | a frame under a rejected root yields nothing and is dropped before any sibling or child frame is pushed |
| `IterMutPredicate.ExpandFrame` | src/iter_mut_predicate.rs:58-82 | a whole step under an admitted parent: after the sibling push, a rejected candidate leaves what the sibling frame and the rest yield; an admitted one, after its first-child push, leaves exactly what remained minus its own pair |
| `IterMutPredicate.PushSibling` | src/iter_mut_predicate.rs:58-80 | after the sibling frame is pushed under the same parent, a rejected candidate leaves only that sibling's work; an admitted one yields its pair, then its own subtree, then its siblings |
| `IterMutPredicate.SceneGraphIterMutPredicate.constructor` | src/iter_mut_predicate.rs:15-31 | one frame (start, first child of start) when the start has children; none otherwise, including a stale `Branch` start |
| `IterMutPredicate.SceneGraphIterMutPredicate.FrameNodes` | src/iter_mut_predicate.rs:40-55 | a popped frame resolves to nothing exactly when its parent is a rejected root; otherwise to its candidate's arena entry, through the paired lookup under a `Branch` parent |
| `IterMutPredicate.SceneGraphIterMutPredicate.Next` | src/iter_mut_predicate.rs:37-85 | returns none exactly when nothing remains, and then the stack is empty; otherwise it yields the head of what remained: a parent/child edge whose child satisfies the predicate, whose `Branch` parent differs from the child, and whose `Root` parent satisfies the predicate |
| `Scenarios.EmptyIteration` | src/iter_with_index.rs:62-76 | the read walk from a root without children yields nothing, and neither does the walk from a leaf start |
| `Scenarios.EmptyVisit` | src/iter_mut_predicate.rs:107-112 | the predicate walk of a root without children yields nothing |
| `Scenarios.NormalIteration` | src/iter_with_index.rs:78-92 | the read walk over two root children and one grandchild yields first child, second child, grandchild |
| `Scenarios.NormalVisit` | src/iter_mut_predicate.rs:114-130 | the predicate walk with an always-true predicate visits first child, second child, grandchild on the same tree |
| `Scenarios.StaggerIteration` | src/iter_with_index.rs:94-106 | the read walk yields a chain of single children top-down |
| `Scenarios.StaggerVisit` | src/iter_mut_predicate.rs:132-146 | the predicate walk with an always-true predicate yields the same chain top-down |
| `Scenarios.StaggerIterationFromBranch` | src/iter_with_index.rs:108-122 | a walk started at a branch yields its two children in attachment order and not the branch itself |
| `Scenarios.SingleIteration` | src/iter_with_index.rs:124-135 | the read walk of a tree with a single child yields that child only |
| `Scenarios.SingleVisit` | src/iter_mut_predicate.rs:148-160 | the predicate walk of a tree with a single child yields that child only, with the root as its parent |
| `Scenarios.VisitsNoneWhenRootDoesNotMatch` | src/iter_mut_predicate.rs:162-169 | a rejected root with one child yields nothing, although the child would be admitted |
| `Scenarios.VisitsOnlyMatchingNodes` | src/iter_mut_predicate.rs:171-188 | yields "Child 1", "Child of child 1", "Child 3": the rejected "Child 2" is pruned together with its admitted child |
| `Scenarios.CollectWithIndex` | src/iter_with_index.rs:87-89 | draining the read iterator into a vector gives, in order, exactly the identifiers it still had to yield, each with its arena value, and leaves nothing pending |
| `Scenarios.CollectVisits` | src/iter_mut_predicate.rs:183-185 | draining the predicate iterator gives exactly the pairs it still had to yield, in order, and leaves nothing pending |
| `Scenarios.ChildNames` | src/iter_mut_predicate.rs:185 | one name per visit, in order: the name of that visit's child |
| `Scenarios.NormalIterationDriver` | src/iter_with_index.rs:78-92 | collecting the read iterator started at the root of the normal tree gives (first child, "First Child"), (second child, "Second Child"), (grandchild, "First Grandchild") |
| `Scenarios.VisitsOnlyMatchingNodesDriver` | src/iter_mut_predicate.rs:171-188 | collecting the predicate iterator over the conditional tree and taking the children's names gives "Child 1", "Child of child 1", "Child 3" |

## Left out

- The lifetime extension through raw pointers (src/iter_mut_predicate.rs:69-73) and Rust's borrow rules. The mutable pair is modelled as the two locations it grants, `Visit(parent, child)`, and the model proves that a `Branch` parent and its child are different slots.
- Mutation of values by the caller through the returned pair between calls. The graph is fixed for the iterator's lifetime. The root predicate is still evaluated again on every frame whose parent is the root, as the source does.
- Generation counters and slot reuse of the arena. A slot is live exactly when the map holds it.
- The `unwrap` and indexing panics (src/iter_mut_predicate.rs:48, src/iter_mut_predicate.rs:54, src/iter_with_index.rs:15, src/iter_with_index.rs:31, src/iter_with_index.rs:35). They are preconditions, and `WellFormed` together with the frame invariants discharges them. The paired mutable lookup is `GetDisjoint`. It requires the two slots to differ and returns none for a stale slot, and the model proves that both results are present.
- The `attach` API, `SceneGraph::new` and the library's `iter_from_node_with_index` are not part of this model. The test trees are written directly as arenas, and `IterFromNodeWithIndex` is a thin stand-in for the entry point that reports `NodeNotFound`.
- The `last` field of a child range is carried but not constrained, because neither traversal reads it.
- The predicate is assumed total and pure, a Dafny function `T -> bool`. A predicate that panics, does not terminate or keeps state is not modelled. A stateful predicate could answer the repeated root test differently.
- `IterMutPredicate.SceneGraphIterMutPredicate.Next` states the new stack only through `Remaining()`, not frame by frame, because the loop may drop any number of frames before it yields.
