# PATL vertex: a verified model of the trie navigation cursor

PATL (Practical Algorithm Template Library) stores an ordered associative
container as a binary PATRICIA trie. Its navigation cursor, the *vertex*,
stands on one edge of the trie: a node `q` and the side `qid` (0 or 1) of the
edge taken from it. Sorted iteration, reverse iteration and prefix-bounded
pre-order scans are all built from a handful of cursor loops (`descend`,
`move_subtree`, `move`) over three structural primitives (`iterate`,
`ascend`, `toggle`) and a few pure queries (`limited`, `next_skip`,
`operator<`).

This project models that cursor in Dafny and proves that its loops perform
an in-order (side 0 before side 1) walk over the leaves.

- `tries.dfy` (module `Tries`): the trie (`Leaf(key)` or `Node(skip, child0, child1)`),
  paths of sides below a node, the reference leaf orders `LeavesFrom(t, d)`,
  and the path-level effect of `descend` and `move_subtree`, with the proof
  that a trie-level move reaches the next leaf.
- `edges.dfy` (module `Edges`): the container (`Empty` or `Rooted(trie)`)
  and its edges, named by the sides taken from a virtual header: the root
  hangs off side 0 of the header (`RootEdge == [0]`), and side 1 of the
  header is the one-past-the-end sentinel (`EndEdge == [1]`). Every cursor
  operation is specified here as a function of the edge, and the theorems
  about traversals are stated here: forward and backward moves follow
  `InOrder`, a full traversal visits each leaf once, and `operator<` is a
  strict total order.
- `vertex.dfy` (module `Vertices`): class `Vertex`. Its fields are the
  borrowed container (`cont`, constant) and the edge (`path`, which the
  loops update in place). Its methods are the source's `while` loops, with
  invariants, and the range builders, which copy the cursor and move the
  copy. Each method's postcondition ties the new edge to the specification
  function in `Edges`, except `PreorderEnd`, whose result comes from the
  `nextSubtree` parameter.

How the source maps onto the model:
- `get_q()` is non-null exactly when the container is `Rooted`. In an empty
  container the only cursors are `(null, 0)` and `(null, 1)`, that is,
  `[0]` and `[1]`.
- `get_qtag()` holds when the edge does not lead to an internal node. That
  covers leaf edges, the end sentinel, and the root edge of an empty
  container.
- `iterate(s)` appends `s` to the path, `ascend()` drops the last side, and
  `toggle()` flips the last side. At the header, `toggle()` crosses between
  the root edge and the end sentinel.
- `compact()` packs an identity of `q` (0 for null) with `qid` in the low
  bit. A node's address is not visible to the model, so a binary code of the
  node's position stands in for it. The model claims only what holds for
  any injective addressing:
  - the word is 0 exactly for a null `q` with `qid == 0`;
  - `operator<` is a strict total order on the edges of one container.

## Model

| member | source | states |
|---|---|---|
| `Vertices.Vertex.constructor` | uxn/patl/impl/vertex.hpp:51-54 | builds a cursor on the given container and edge |
| `Vertices.Vertex.Copy` | uxn/patl/impl/vertex.hpp:101-108 | the copy `vtx(*this)` is a new cursor on the same container and edge |
| `Vertices.Vertex.FromCompact` | uxn/patl/impl/vertex.hpp:56-59 | the `(cont, qq)` constructor stands on the edge the compact word `qq` names, for the words a cursor of that container can carry |
| `Edges.DecodeUid` | uxn/patl/impl/vertex.hpp:56-59 | reads a node code back into a position whose code is that same number |
| `Edges.CompactEdge` | uxn/patl/impl/vertex.hpp:56-59 | the decoded edge's side is the word's low bit; for a word below 2 in an empty container, or of at least 2 in a non-empty one, the decoded edge's compact word is that word |
| `Edges.CompactRoundTrip` | uxn/patl/impl/vertex.hpp:56-59 | decoding the compact word of an existing edge gives back that edge, so `this_t(cont, v.compact())` is `v` |
| `Vertices.Vertex.Qid` | uxn/patl/impl/vertex.hpp:123 | `get_qid()` is the low bit of `compact()` |
| `Vertices.Vertex.QTag` | uxn/patl/impl/vertex.hpp:181 | `get_qtag()` holds exactly when the edge leads to no node or to a leaf |
| `Vertices.Vertex.HasQ` | uxn/patl/impl/vertex.hpp:113 | `get_q()` is non-null exactly when `compact()` has a bit set above the low bit |
| `Vertices.Vertex.Compact` | uxn/patl/impl/vertex.hpp:104 | `compact()` is 0 exactly when `get_q()` is null and `qid` is 0 |
| `Vertices.Vertex.Iterate` | uxn/patl/impl/vertex.hpp:183 | `iterate(s)`, allowed only off leaf edges, extends the edge by side `s` to the `s` child of the node it led to |
| `Vertices.Vertex.Ascend` | uxn/patl/impl/vertex.hpp:217 | `ascend()` below the header returns to the parent edge, which leads to an internal node |
| `Vertices.Vertex.Toggle` | uxn/patl/impl/vertex.hpp:218 | `toggle()` moves to the sibling edge and keeps the cursor on an existing edge |
| `Edges.Toggled` | uxn/patl/impl/vertex.hpp:218 | the toggled edge keeps the length and the parent of the edge and flips its side |
| `Edges.ToggleInvolution` | uxn/patl/impl/vertex.hpp:218 | toggling twice returns to the same edge |
| `Edges.IterateEdge` | uxn/patl/impl/vertex.hpp:183 | from an edge that is not a leaf edge, `iterate(s)` reaches an existing edge leading to the `s` child |
| `Edges.AscendEdge` | uxn/patl/impl/vertex.hpp:217 | below the header, the parent edge exists and leads to an internal node |
| `Edges.ToggleEdge` | uxn/patl/impl/vertex.hpp:218 | the sibling of an existing edge exists |
| `Edges.At` | uxn/patl/impl/vertex.hpp:170 | `get_p()`: the root edge leads to the root (none in an empty container), and the end sentinel leads to no node |
| `Vertices.Vertex.Skip` | uxn/patl/impl/vertex.hpp:162-165 | `skip()` is the skip of the internal node `q` the edge leaves |
| `Edges.SkipAt` | uxn/patl/impl/vertex.hpp:162-165 | the node an edge below the header leaves is an internal node, and `skip()` is its skip |
| `Vertices.Vertex.NextSkip` | uxn/patl/impl/vertex.hpp:167-171 | `next_skip()`, only off leaf edges, is the skip of the internal node the edge leads to |
| `Edges.NextSkipAt` | uxn/patl/impl/vertex.hpp:167-171 | off leaf edges, the edge leads to an internal node whose skip is the result |
| `Vertices.Vertex.Limited` | uxn/patl/impl/vertex.hpp:173-176 | `limited(limit)` holds exactly when `get_qtag()` holds or `next_skip() >= limit` |
| `Edges.LimitedAt` | uxn/patl/impl/vertex.hpp:173-176 | an edge is limited exactly when it does not lead to an internal node whose skip is below `limit` |
| `Edges.LimitedMonotone` | uxn/patl/impl/vertex.hpp:173-176 | `limited(b)` implies `limited(a)` for every `a <= b` |
| `Tries.Spine` | uxn/patl/impl/vertex.hpp:178-184 | descending on side `s` takes only `s` steps, ends on a leaf, and takes none exactly from a leaf |
| `Edges.DescendPath` | uxn/patl/impl/vertex.hpp:178-184 | `descend<s>()` takes only `s` steps, and none exactly when it starts on a leaf edge |
| `Edges.DescendStep` | uxn/patl/impl/vertex.hpp:182-183 | off a leaf edge, the remaining descent is one `iterate(s)` followed by the descent from the child edge |
| `Edges.DescendReachesLeaf` | uxn/patl/impl/vertex.hpp:178-184 | `descend<s>()` ends on an existing leaf edge; from a real edge, `descend<0>` ends on the subtree's first leaf and `descend<1>` on its last |
| `Tries.LeavesFromEnds` | uxn/patl/impl/vertex.hpp:178-184 | the first leaf in side-`d`-first order is reached by descending on `d`, the last by descending on the other side |
| `Vertices.Vertex.Descend` | uxn/patl/impl/vertex.hpp:178-184 | the loop ends on a leaf edge, and the new edge is the old edge extended by exactly the descent path |
| `Vertices.Vertex.DescendWith` | uxn/patl/impl/vertex.hpp:185-193 | same end state as `descend<s>()`; the callback runs once before each `iterate`, so the number of calls equals the number of steps, and call `i` sees the cursor after `i` steps |
| `Tries.LimitedSpine` | uxn/patl/impl/vertex.hpp:195-201 | the bounded descent is a prefix of the unbounded one and stops on a limited edge, at once if the start is limited |
| `Tries.LimitedSpineStopsAtFirst` | uxn/patl/impl/vertex.hpp:199-200 | every edge the bounded descent passes before it stops is not limited |
| `Tries.LimitedSpineMonotone` | uxn/patl/impl/vertex.hpp:195-201 | with a smaller limit the bounded descent stops no later |
| `Edges.DescendLimitedPath` | uxn/patl/impl/vertex.hpp:195-201 | `descend<s>(limit)` takes a prefix of the steps of `descend<s>()`, and none exactly when the start edge is limited |
| `Edges.DescendLimitedStep` | uxn/patl/impl/vertex.hpp:199-200 | on an edge that is not limited, the edge is not a leaf edge and the remaining descent is one `iterate(s)` followed by the descent from the child |
| `Edges.DescendLimitedStopsAtFirst` | uxn/patl/impl/vertex.hpp:195-201 | `descend<s>(limit)` ends on an existing limited edge, and no edge it passes on the way is limited |
| `Edges.DescendLimitedMonotone` | uxn/patl/impl/vertex.hpp:195-201 | with a smaller limit, the bounded descent takes a prefix of the steps it takes with a larger one |
| `Vertices.Vertex.DescendLimited` | uxn/patl/impl/vertex.hpp:195-201 | the loop ends with `limited(limit)` true, and the new edge is the old edge extended by exactly the bounded descent path |
| `Vertices.Vertex.DescendLimitedWith` | uxn/patl/impl/vertex.hpp:202-210 | same end state as `descend<s>(limit)`; one callback per `iterate`, and call `i` sees the cursor after `i` steps |
| `Tries.MoveSubtreePath` | uxn/patl/impl/vertex.hpp:212-219 | `move_subtree<s>()` gives a non-empty edge no longer than the start, whose side is `s` |
| `Tries.MoveSubtreePathShape` | uxn/patl/impl/vertex.hpp:212-219 | the result keeps the path up to the last step on side `1-s`, flips that step to `s`, and every step ascended over was an `s` step |
| `Vertices.AscendKeepsTurn` | uxn/patl/impl/vertex.hpp:216-217 | while the side is `s` and a `1-s` step lies above, the edge is below the header, and one `ascend()` keeps the same final result |
| `Tries.MoveSubtreePrefix` | uxn/patl/impl/vertex.hpp:212-219 | `move_subtree` never ascends above its turning point, so the path above that point is carried along unchanged |
| `Tries.MoveSubtreeOverRun` | uxn/patl/impl/vertex.hpp:212-219 | from a `1-s` step followed by a run of `s` steps, `move_subtree<s>` lands on the sibling of that `1-s` step |
| `Tries.MoveSubtreeSkipsRun` | uxn/patl/impl/vertex.hpp:212-219 | appending a run of `s` steps below the start does not change where `move_subtree<s>` lands |
| `Vertices.Vertex.MoveSubtree` | uxn/patl/impl/vertex.hpp:212-219 | the loop ascends exactly while `qid == s` and then toggles; afterwards `qid == s` and the edge is `MoveSubtreePath` of the start |
| `Vertices.Vertex.MoveSubtreeWith` | uxn/patl/impl/vertex.hpp:220-229 | same end state as `move_subtree<s>()`; one callback after each `ascend`, so there are as many calls as ascents, and call `i` sees the cursor `i+1` levels up |
| `Tries.MoveInChild` | uxn/patl/impl/vertex.hpp:231-237 | a move that starts below one child of a node and turns below it stays below that child |
| `Tries.MoveAcrossNode` | uxn/patl/impl/vertex.hpp:231-237 | a move from the last leaf below one child of a node reaches the first leaf below the other child |
| `Tries.SuccessorInTrie` | uxn/patl/impl/vertex.hpp:231-237 | inside a trie, `move<s>` from the k-th leaf in side-`(1-s)`-first order reaches the (k+1)-th leaf |
| `Tries.PredecessorInTrie` | uxn/patl/impl/vertex.hpp:231-237 | inside a trie, `move<0>()` from the (k+1)-th leaf in ascending order reaches the k-th |
| `Edges.MovePath` | uxn/patl/impl/vertex.hpp:231-237 | the edge `move_subtree<s>()` reaches is a prefix of the result of `move<s>()`, so the move only descends from there |
| `Edges.MoveSubtreeEdge` | uxn/patl/impl/vertex.hpp:212-219 | `move_subtree<s>()` from an existing edge stays on an existing edge |
| `Edges.MoveReachesLeaf` | uxn/patl/impl/vertex.hpp:231-237 | `move<s>()` from an existing edge ends on an existing leaf edge |
| `Tries.MoveIn` | uxn/patl/impl/vertex.hpp:231-237 | inside one trie, `move<s>()` keeps the edge `move_subtree<s>()` reaches and only descends from there |
| `Edges.MoveBelowRoot` | uxn/patl/impl/vertex.hpp:231-237 | below the root edge, the container-level move is the trie-level move |
| `Tries.LeavesReversed` | uxn/patl/impl/vertex.hpp:231-237 | the side-1-first leaf order is exactly the reverse of the ascending order, which makes `move<0>` the mirror of `move<1>` |
| `Tries.LeavesAreLeafPaths` | uxn/patl/impl/vertex.hpp:231-237 | the reference order lists exactly the paths that end on a leaf |
| `Tries.LeavesDistinct` | uxn/patl/impl/vertex.hpp:231-237 | the reference order lists no leaf twice |
| `Edges.InOrder` | uxn/patl/impl/vertex.hpp:81-89 | the traversal has one entry per leaf of the container, then the end sentinel |
| `Edges.InOrderIsLeafEdges` | uxn/patl/impl/vertex.hpp:231-237 | an edge is in the traversal exactly when it is the end sentinel or leads to a leaf |
| `Edges.InOrderDistinct` | uxn/patl/impl/vertex.hpp:231-237 | no edge appears twice in the traversal |
| `Edges.MoveForward` | uxn/patl/impl/vertex.hpp:231-237 | `move<1>()` from the k-th leaf edge reaches the (k+1)-th, and from the last leaf it reaches the end sentinel |
| `Edges.MoveBackward` | uxn/patl/impl/vertex.hpp:231-237 | `move<0>()` from the end sentinel reaches the last leaf, and from the (k+1)-th leaf it reaches the k-th |
| `Edges.MoveBackwardInside` | uxn/patl/impl/vertex.hpp:231-237 | between two leaves, `move<0>()` from the (k+1)-th leaf edge reaches the k-th |
| `Edges.MoveBackwardFromEnd` | uxn/patl/impl/vertex.hpp:231-237 | `move<0>()` from the end sentinel of a non-empty container reaches the last leaf edge |
| `Vertices.Vertex.Move` | uxn/patl/impl/vertex.hpp:231-237 | the cursor ends on a leaf edge; `move<1>` from a traversal entry reaches the next entry, and `move<0>` the previous one |
| `Edges.AdvanceAlongInOrder` | uxn/patl/impl/vertex.hpp:231-237 | `n` forward steps from the j-th traversal entry reach the (j+n)-th |
| `Edges.TraversalFromRoot` | uxn/patl/impl/vertex.hpp:101-119 | from the root edge, `postorder_begin` is the first entry and `postorder_end` is the end sentinel; k forward steps reach the k-th entry, and `Size` steps reach `postorder_end`; on an empty container begin equals end |
| `Edges.PostorderBeginPath` | uxn/patl/impl/vertex.hpp:101-109 | `postorder_begin()` ends on an existing leaf edge |
| `Edges.PostorderEndPath` | uxn/patl/impl/vertex.hpp:111-119 | `postorder_end()` ends on an existing leaf edge |
| `Edges.PreorderBeginPath` | uxn/patl/impl/vertex.hpp:121-125 | `preorder_begin()` stays on an existing edge: the same edge in a non-empty container, the end sentinel in an empty one |
| `Edges.PreorderBeginLimitedPath` | uxn/patl/impl/vertex.hpp:126-134 | `preorder_begin(limit)` ends on an existing edge on which `limited(limit)` holds |
| `Edges.PostorderBeginSubtree` | uxn/patl/impl/vertex.hpp:101-109 | from an edge into the trie, `postorder_begin` is the first leaf of that subtree |
| `Edges.PostorderEndSkipsSubtree` | uxn/patl/impl/vertex.hpp:111-119 | from an edge into the trie, `postorder_end` is the entry after the subtree's last leaf |
| `Vertices.Vertex.PostorderBegin` | uxn/patl/impl/vertex.hpp:101-109 | gives a cursor on a leaf edge: `descend<0>` of a copy when `compact()` is nonzero, otherwise the toggled copy; the cursor itself does not change |
| `Vertices.Vertex.PostorderEnd` | uxn/patl/impl/vertex.hpp:111-119 | gives a cursor on a leaf edge: `move<1>` of a copy when `get_q()` is non-null, otherwise the toggled copy; the cursor itself does not change |
| `Vertices.Vertex.PreorderBegin` | uxn/patl/impl/vertex.hpp:121-125 | gives a cursor on the same node with the same side, or side 1 when the node is null |
| `Vertices.Vertex.PreorderBeginLimited` | uxn/patl/impl/vertex.hpp:126-134 | gives a cursor on which `limited(limit)` holds: `descend<0>(limit)` of a copy when `compact()` is nonzero, otherwise the toggled copy |
| `Vertices.Vertex.PreorderEnd` | uxn/patl/impl/vertex.hpp:136-150 | gives the edge after `next_subtree()` when `get_q()` is non-null, otherwise the toggled cursor |
| `Vertices.Vertex.Begin` | uxn/patl/impl/vertex.hpp:81-84 | `begin()` is the cursor of `postorder_begin()`; from the root edge, the first traversal entry |
| `Vertices.Vertex.End` | uxn/patl/impl/vertex.hpp:86-89 | `end()` is the cursor of `postorder_end()`; from the root edge, the end sentinel |
| `Vertices.Vertex.RBegin` | uxn/patl/impl/vertex.hpp:91-94 | `rbegin()` wraps the cursor of `end()` |
| `Vertices.Vertex.REnd` | uxn/patl/impl/vertex.hpp:96-99 | `rend()` wraps the cursor of `begin()` |
| `Edges.Encode` | uxn/patl/impl/vertex.hpp:61-64 | the code standing in for a node's address is never 0, the value reserved for null |
| `Edges.EncodeInjective` | uxn/patl/impl/vertex.hpp:61-64 | different node positions get different codes |
| `Edges.CompactWord` | uxn/patl/impl/vertex.hpp:61-64 | the low bit of `compact()` is `qid`, and the word is 0 exactly for a null `q` with `qid == 0` |
| `Edges.CompactInjective` | uxn/patl/impl/vertex.hpp:61-64 | two edges of one container with the same compact word are the same edge |
| `Edges.Precedes` | uxn/patl/impl/vertex.hpp:61-64 | `operator<` never holds between an edge and itself, and a side-0 edge comes before its side-1 sibling |
| `Vertices.Vertex.Less` | uxn/patl/impl/vertex.hpp:61-64 | `a < b` holds exactly when `a.compact() < b.compact()`, and only between different edges |
| `Edges.PrecedesIsStrictTotalOrder` | uxn/patl/impl/vertex.hpp:61-64 | `operator<` is irreflexive and transitive, and it orders any two distinct edges one way or the other |
| `Vertices.LessIsStrictTotalOrder` | uxn/patl/impl/vertex.hpp:61-64 | between two cursors on one container, `operator<` is irreflexive and holds one way or the other exactly when their edges differ |

## Left out

- The trie-access layer (the `Algorithm` base class) is not part of this model. Its primitives `iterate`, `ascend`, `toggle`, `compact`, `get_qtag`, `get_q` and `get_p` are modelled abstractly on the path of sides. The tagged-pointer representation and node storage are not modelled.
- `node_q_uid` and `node_p_uid` expose raw addresses and are not modelled. `compact()` uses a positional code in place of an address.
- `get_prefix`, `parent_key`, `parent_value` and `get_parent_id` concern keys, values and the `prefix` type, which are foreign to the cursor's navigation. They are not modelled.
- The order of keys is not modelled. Bit comparison of keys is external, so the model proves the structural 0-before-1 leaf order and not ascending keys.
- The iterator wrappers (`const_iterator`, the reverse iterators, the pre- and post-order iterators) are not modelled. Each builder returns the cursor that the iterator would wrap.
- `Vertices.Vertex.RBegin`, `Vertices.Vertex.REnd`: return the wrapped cursor only. The reverse iterator's dereference of the element before it is not modelled.
- `Vertices.Vertex.PreorderEnd`: the pre-order iterator's `next_subtree()` is not part of this model. It is passed in as the function `nextSubtree`, so the result is stated only in terms of that function.
- `Vertices.Vertex.DescendWith`, `Vertices.Vertex.DescendLimitedWith`, `Vertices.Vertex.MoveSubtreeWith`: the callback is modelled by the list of cursor positions it is called with. What a callback does with the cursor is not modelled.
- `Vertices.Vertex.PostorderEnd`, `Vertices.Vertex.End`, `Vertices.Vertex.RBegin`: require a side-0 step on the edge when `get_q()` is non-null, because `move<1>()` from the end sentinel of a non-empty container would ascend above the header. The source leaves that case undefined.
- `Vertices.Vertex.Move`, `Vertices.Vertex.MoveSubtree`, `Vertices.Vertex.MoveSubtreeWith`: require a step on side `1-s` above the cursor, for the same reason. The source's loop would otherwise ascend past the header.
- `Vertices.Vertex.Skip`: requires an edge below the header. The header is virtual in this model and has no skip.
- `Vertices.Vertex.Less`: requires both cursors to borrow the same container. The source compares compact words of any two cursors, but the stand-in codes do not order nodes of different containers the way addresses would.
- `Vertices.Vertex.FromCompact`: requires a word of at least 2 on a non-empty container. A cursor with a null `q` on a non-empty container has no edge in this model, so the words 0 and 1 there are not represented.
- The default constructor, which copies a trie-access object, is not modelled. A cursor is always built on a container and an edge.
- `vertex_generic` (the mutable cursor) repeats the const cursor with non-const result types. One model covers both.
- The stray text at uxn/patl/impl/vertex.hpp:371, inside the mutable `preorder_end`, is not modelled. The const version at lines 136-150 is the one modelled.
- Concurrency and iterator invalidation are not modelled. The container a cursor borrows is immutable here.
