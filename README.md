# Maze kd-tree and occlusion culling, in Dafny

This project models the visibility machinery of the maze renderer: the
kd-tree built over the tiles of the maze, the traversals over it, and the
three ways `render` decides which tiles to draw. The renderer is the
`MazeApp` of maze/MazeApp.hpp and maze/MazeApp.cpp. The project also models
the earlier standalone kd-tree of Tests/main.cpp and its six-point example.

The parts, module by module:

- **Grid** (`initProcess`): decodes the maze image into grid cells and looks
  cells up with `GetCell`. It also fills the render queue with one tile per
  cell, two world units apart and centred on the origin.
- **Sorting** and **KdBuild** (`kdTree`):
  - the tiles are sorted in place along axis `depth % 2`;
  - the run is split at index n/2, with the border at the middle element, or
    at the mean of the two middle elements for an even count;
  - both halves are copied out and built one level deeper;
  - both children are pointed back at the new node.
- **Bounds** (`calcBorders`): the root gets the square [-32, 32] x [-32, 32].
  Every other interior node gets its parent's rectangle with one side moved
  to the parent's border.
- **KdNode**: `Node` is a heap object. This module also holds the two
  traversal templates, `inOrder` and `frontToBack`, given as the visiting
  orders `InOrder` and `FrontToBack`.
- **PullUpPass** (`pullUp`): invisibility climbs the parent chain while the
  sibling on the way is hidden too.
- **Occlusion** (`OcclusionQuery`): a query is an oracle over a GPU clock.
- **Passes**: the `inOrder` and `frontToBack` passes of `render` and
  `keyPressEvent`. These are: show all, hide a subtree, clear the drawn
  flags, frustum culling, no culling, and the simple occlusion culler.
- **VQueue**, **ChcWalk**, **ChcDrain**, **ChcLoop** and **ChcPrimary**:
  coherent hierarchical culling (CHC).
  - The V-queue pass reads back last frame's queries.
  - The primary front-to-back pass draws the visible leaves it reaches and
    queues a query for every invisible node it reaches.
  - The drain loop resolves the I-queue until it is empty. At that point
    every leaf is drawn exactly when it is visible.
- **Keys** (`keyPressEvent`): the mode switches.
- **App** (`MazeApp`): a class holding the grid, the tree, the modes and the
  two query queues. It provides `initProcess`, `render` for one view, and
  `keyPressEvent`.
- **StandaloneKdTree** (Tests/main.cpp): the tree is a value. The module
  proves that it is built at the median. When no two tiles share a
  coordinate, the tree does not depend on how the unstable sort orders ties.
  `main` builds the tree over six tiles and prints it.

Tile positions are integers (`Point(int, int)`). Borders and node bounds can
be half integers, so they are `real`.

The GPU enters as parameters:
- `samplesPassed` says whether a node's box passes the depth test;
- `latency` says after how many polls an answer arrives;
- `inFrustum` says whether a leaf's bounding sphere meets the frustum.

Polling a query advances a clock, so every spin loop and the drain provably
terminate.

The V-queue loop of `render` (maze/MazeApp.cpp:275-290) erases the entry at
index `i` and then increments `i`. So it reads back only the entries at even
positions and keeps the odd ones for the next frame. The model follows this
as written: see `VQueue.EvensOf`, `VQueue.OddsOf` and `App.ReadBackVQueue`.

Where the code and the general design of the system differ, the model
follows the code, except for the two defects listed under "## Findings":
there the model records the code as written and the rest of the model
(`App.MazeApp.Render`, `App.MazeApp.InitProcess`) uses the corrected form.
Otherwise:
- the sort is `std::sort`, which is not stable, so the contracts promise only
  a sorted permutation;
- the root square is fixed at [-32, 32] and is not sized to the grid;
- the decoder never assigns the coin or door cell types; a colour other than
  white, red, green or black leaves its cell unassigned (`None`);
- the standalone `kdTree` of Tests/main.cpp takes the element at n/2 as the
  border even for an even count, so over the six points the root border is 7
  and not 6;
- the V-queue is read back at the start of the next frame, not interleaved
  with the I-queue drain.

## Model

| member | source | states |
|---|---|---|
| Grid.CellOfColour | maze/MazeApp.cpp:50-58 | A pixel decodes to a cell exactly when it is white, red, green or black, and then to the cell drawn in that colour. Any other colour leaves the cell unassigned. |
| Grid.ColourRoundTrip | maze/MazeApp.cpp:50-58 | Decoding the colour of empty, wall, finish or spawn gives that cell type back. |
| Grid.DecodeGrid | maze/MazeApp.cpp:42-59 | Cell k of the decoded grid is decided by the three channel bytes at `channels * k`. Every byte read lies inside the image. |
| Grid.TilePosition | maze/MazeApp.cpp:66-68 | The column and row are recovered from a tile's x and y. |
| Grid.TilePositionInjective | maze/MazeApp.cpp:66-68 | Different cells get different tile positions. |
| Grid.CellIndexInRange | maze/MazeApp.hpp:287-290 | `GetCell`'s index `row * w + col` lies inside a `w * h` grid for every row below h and column below w. |
| Grid.CellIndexDivMod | maze/MazeApp.hpp:287-290 | The row and column of a row-major index are its quotient and remainder by the width. |
| Grid.RenderQueueAt | maze/MazeApp.cpp:63-72 | Entry `row * w + col` of the render queue is the tile of that cell: its position and its `GetCell` type. |
| Grid.FillRenderQueue | maze/MazeApp.cpp:63-72 | With rows running to the height and columns to the width, the fill loop builds the render queue: one tile per cell, in row-major order. |
| Grid.TileInRoot | maze/MazeApp.cpp:66-67 | In a maze at most 33 cells wide and high, every tile lies inside the root square of `calcBorders`. |
| Grid.RenderQueueInRoot | maze/MazeApp.cpp:722-725 | In a maze at most 33 cells wide and high, every tile of the render queue lies inside the root square. |
| Grid.FillIndicesAsWritten | maze/MazeApp.cpp:63-69 | The cell indices the fill loop reads as written: one per cell, rows running to the width and columns to the height. |
| Grid.AsWrittenReadsPastEnd | maze/MazeApp.cpp:63-69 | In a maze wider than it is high, the last read of the loop as written lies past the end of the grid. |
| Grid.AsWrittenCounterexample | maze/MazeApp.cpp:63-69 | In a maze two cells wide and one high, the loop as written reads index 2 of a two-cell grid. |
| Sorting.Insert | maze/MazeApp.cpp:677-683 | Inserting into a sorted run keeps it sorted and adds exactly the one element. |
| Sorting.InsertionSort | maze/MazeApp.cpp:677-683 | A sorted permutation of the input, standing in for `std::sort`. |
| Sorting.SortInPlace | Tests/main.cpp:54-60 | After sorting, the array is sorted by the key and holds the same elements. |
| KdBuild.SortAlong | maze/MazeApp.cpp:677-683 | After sorting, the vector is in non-decreasing order on the axis and holds the same tiles. |
| KdBuild.BorderSeparates | maze/MazeApp.cpp:684-703 | On a sorted run, the border (the middle element, or the mean of the two middle elements) is at or above every tile of the first half and at or below every tile of the second half. |
| KdBuild.TreeOverLeaves | maze/MazeApp.cpp:663-674 | A kd-tree over n tiles has n leaves. Over one tile it is a single leaf holding that tile. |
| KdBuild.KdTree | maze/MazeApp.cpp:661-716 | The result is a kd-tree over the input tiles: null for none, leaves holding exactly the tiles, every interior node separating its leaves on axis `depth % 2` with its left child holding half its tiles, rounded down. For two or more tiles the vector is left sorted along the root's axis, and the root's border is the median of the sorted vector, with the left child holding its first n/2 tiles and the right child the rest. It is all new, leaves are visible, interior nodes are hidden, nothing is drawn, the children are wired, the root has no parent, and the vector keeps its tiles. |
| KdBuild.BuildInterior | maze/MazeApp.cpp:675-716 | For two or more tiles, the root is an interior node on axis `depth % 2`. Its border is the one computed from the sorted vector, and its children are built over the first n/2 tiles and the rest. |
| KdBuild.BuildChildren | maze/MazeApp.cpp:705-715 | Building both halves of a sorted run and joining them gives a kd-tree split at the middle of the run. |
| KdBuild.Split | maze/MazeApp.cpp:675-706 | Sorts the vector, gives the border of the sorted run, and copies out its two halves as new vectors. |
| KdBuild.CopyRange | maze/MazeApp.cpp:705-706 | A new vector holding exactly the chosen range. |
| KdBuild.Join | maze/MazeApp.cpp:685-714 | A new interior node with the given axis, depth, border and children. Both children point back at it, and the whole subtree is in its freshly built state. |
| KdBuild.Adopt | maze/MazeApp.cpp:708-714 | Both children point back at the node, and the subtree is in its freshly built state. |
| KdBuild.JoinOver | maze/MazeApp.cpp:684-715 | An interior node over the built halves of a sorted run is a kd-tree over the run, split at its median. |
| KdBuild.JoinOrdered | maze/MazeApp.cpp:690-707 | The border of a sorted run separates the leaves built over its two halves. |
| KdBuild.JoinLeafData | maze/MazeApp.cpp:705-711 | An interior node's leaves hold exactly the tiles of both halves. |
| KdBuild.WiredJoin | maze/MazeApp.cpp:708-714 | Pointing both children back at their new parent wires the whole subtree. |
| KdNode.Node.Leaf | maze/MazeApp.cpp:666-673 | A new leaf holds its tile and depth. It is visible, not drawn, and has no parent and no children. |
| KdNode.Node.Interior | maze/MazeApp.cpp:685-689 | A new interior node has the given axis, depth, border and children. It is hidden, not drawn and has no parent. |
| KdNode.SubtreeValid | maze/MazeApp.hpp:41-56 | Every node of a well-formed subtree roots a nested, well-formed subtree that is strictly deeper. |
| KdNode.LeafCount | maze/MazeApp.cpp:663-674 | A subtree has as many leaves as tiles, and a non-null one has at least one. |
| KdNode.InOrderWithin | maze/MazeApp.hpp:211-219 | `inOrder` visits only nodes of the subtree. |
| KdNode.InOrderVisitsEachOnce | maze/MazeApp.hpp:211-219 | `inOrder` visits every node of the subtree, each exactly once. |
| KdNode.InOrderSymmetric | maze/MazeApp.hpp:211-219 | `inOrder` visits a node after everything in its left subtree and before everything in its right subtree. |
| KdNode.FrontToBackUnfold | maze/MazeApp.hpp:189-209 | The walk is the node, then, unless the visitor stopped, the near subtree and then the far one. The two children are disjoint and together with the node make up the subtree. |
| KdNode.FrontToBackWithin | maze/MazeApp.hpp:189-209 | `frontToBack` visits only nodes of the subtree. |
| KdNode.FrontToBackVisitsOnce | maze/MazeApp.hpp:189-209 | `frontToBack` visits each node at most once and the root first. It visits nothing exactly when the tree is null. |
| KdNode.FrontToBackParentFirst | maze/MazeApp.hpp:189-209 | Every node is visited before all of its descendants. |
| KdNode.FrontToBackEarlyStop | maze/MazeApp.hpp:202-208 | When the visitor answers true at a node, nothing strictly below that node is visited. |
| KdNode.FrontToBackChildOrder | maze/MazeApp.hpp:195-208 | At every interior node, the left subtree is visited wholly before the right one exactly when the viewer's coordinate on the node's axis is below the border. Otherwise the right subtree comes first. |
| KdNode.FrontToBackReaches | maze/MazeApp.hpp:189-209 | Every node is visited, or lies below a visited node at which the visitor stopped. |
| KdNode.FrontToBackCoversInOrder | maze/MazeApp.hpp:189-219 | With a visitor that never stops, `frontToBack` visits exactly the nodes `inOrder` visits. |
| Bounds.ChildRect | maze/MazeApp.cpp:729-754 | A child's rectangle is its parent's rectangle with one side replaced by the border: the maximum for the left child, the minimum for the right child, on the parent's axis; the opposite side on that axis is kept. The other axis is unchanged. |
| Bounds.CalcBorders | maze/MazeApp.cpp:718-760 | Every interior node of the subtree gets the rectangle reached by clamping along its path from the starting node, and that rectangle's centre. Leaves are untouched. |
| Bounds.SetBounds | maze/MazeApp.cpp:720-757 | A node gets the root square when it has no parent. Otherwise it gets its parent's rectangle clamped at the parent's border on its side. Its centre is the middle of that rectangle. |
| Bounds.WiredChildren | maze/MazeApp.cpp:708-714 | Below a wired interior node, both children are wired and point back at it. |
| Bounds.BoundsOfNode | maze/MazeApp.cpp:718-760 | After the pass, each interior node's fields hold its path rectangle and its centre. |
| Bounds.RectAtChild | maze/MazeApp.cpp:729-754 | A child's path rectangle is its parent's path rectangle clamped at the parent's border. |
| Bounds.TilesInside | maze/MazeApp.cpp:718-760 | On a kd-tree whose tiles lie in the root rectangle, every node's tiles lie inside that node's rectangle. |
| Bounds.RectsNest | maze/MazeApp.cpp:728-754 | Every node's rectangle is non-empty, and each child's rectangle lies inside its parent's. |
| Bounds.KdOrderedBelow | maze/MazeApp.cpp:690-715 | Every node of a kd-tree separates its own leaves. |
| Bounds.BordersOfBuiltTree | maze/MazeApp.cpp:74-75 | After `calcBorders` on a kd-tree inside the root square, every interior node holds a non-empty rectangle containing its tiles and its interior children's rectangles, and holds its centre. |
| PullUpPass.ParentIn | maze/MazeApp.cpp:708-714 | A node's parent, found from the root down, is null only for the root. Otherwise it is the interior node one level up that has the node as a child. |
| PullUpPass.WiredParent | maze/MazeApp.cpp:708-714 | In a wired tree, every node's `parent` field is its parent. |
| PullUpPass.PullUp | maze/MazeApp.cpp:773-789 | The nodes `Climb` names become hidden and no other flag changes. `Climb` names the parent, and then whatever the parent's own climb hides, while the node and its sibling are both hidden. |
| PullUpPass.ClimbIsAncestors | maze/MazeApp.cpp:773-789 | `pullUp` hides only interior, strict ancestors of its starting node. |
| PullUpPass.ClimbChildrenHidden | maze/MazeApp.cpp:776-786 | Every node `pullUp` hides has both children hidden afterwards. |
| PullUpPass.ClimbFromVisible | maze/MazeApp.cpp:775-776 | From a visible node or from the root, `pullUp` hides nothing. |
| Occlusion.OcclusionQuery.constructor | maze/MazeApp.hpp:94-98 | A query is bound to its node for its lifetime, and its answer arrives a fixed number of polls later. |
| Occlusion.OcclusionQuery.IsAvailable | maze/MazeApp.hpp:163-168 | Polling takes one tick and reports whether the answer had arrived. |
| Passes.ShowAll | maze/MazeApp.cpp:591-593 | Every node of the subtree becomes visible. |
| Passes.HideSubtree | maze/MazeApp.cpp:284-286 | Every node of the subtree becomes hidden. |
| Passes.ClearRendered | maze/MazeApp.cpp:270-272 | No node of the subtree is marked drawn. |
| Passes.FrustumCull | maze/MazeApp.cpp:298-324 | Every leaf is visible exactly when it is in the frustum. Interior nodes keep their flag. |
| Passes.Occlude | maze/MazeApp.cpp:281-287 | The visible set after an occluded answer: the node, its subtree and the ancestors `pullUp` names are hidden. |
| Passes.NoCulling | maze/MazeApp.cpp:518-553 | A node becomes drawn exactly when it was drawn already or is a visible leaf. |
| Passes.SimpleOcclusion | maze/MazeApp.cpp:447-517 | A node becomes drawn exactly when it was drawn already or is a leaf whose query passed. |
| VQueue.EvensOf | maze/MazeApp.cpp:275-290 | The entries the V-queue loop reads back: those at positions 0, 2, 4, and so on, in order. |
| VQueue.OddsOf | maze/MazeApp.cpp:275-290 | The entries the V-queue loop keeps: those at positions 1, 3, 5, and so on, in order. |
| VQueue.EvensOddsPartition | maze/MazeApp.cpp:275-290 | Every query is either read back or kept, exactly once. |
| VQueue.PassRound | maze/MazeApp.cpp:288-289 | After i rounds, index i of the shrunken queue holds entry 2i of the original queue, and erasing it gives the queue of the next round. |
| VQueue.FoldAllPassed | maze/MazeApp.cpp:279-280 | When every query read back passed, the pass only makes their nodes visible. |
| VQueue.FoldLocality | maze/MazeApp.cpp:275-290 | The pass leaves alone every node that is neither above nor below a queried node. |
| ChcWalk.VisibleLeaves | maze/MazeApp.cpp:331-369 | The nodes the primary visitor draws are exactly the visible leaves of the walk. |
| ChcWalk.HiddenOf | maze/MazeApp.cpp:370-375 | The nodes the primary visitor queues for this frame are exactly the invisible nodes of the walk. |
| ChcWalk.WalkSplit | maze/MazeApp.hpp:202-204 | A walk that does not stop at a node draws and queues the node's own share first, then the near subtree's, then the far subtree's. |
| ChcWalk.LeafWalk | maze/MazeApp.cpp:331-375 | A walk reaching a leaf draws it when it is visible and queues it otherwise. |
| ChcWalk.WalkStopped | maze/MazeApp.hpp:194-208 | A walk that stops at a node visits only that node. |
| ChcWalk.DrawnDescend | maze/MazeApp.cpp:328-330 | Below a visible interior node, the walk draws what the near child's walk and then the far child's walk draw. |
| ChcWalk.HiddenDescend | maze/MazeApp.cpp:328-330 | Below a visible node, the walk queues what the near child's walk and then the far child's walk queue. |
| ChcWalk.DrawnRoot | maze/MazeApp.cpp:327-376 | The walk from a node draws that node exactly when it is a visible leaf. |
| ChcWalk.DrawnInChild | maze/MazeApp.cpp:327-376 | A node below a child is drawn by the parent's walk exactly when the child's walk draws it. |
| ChcWalk.PrimaryQueueDisjoint | maze/MazeApp.cpp:370-375 | The nodes the primary pass queues are distinct nodes of the tree with pairwise disjoint subtrees. |
| ChcWalk.PrimaryCoverage | maze/MazeApp.cpp:327-376 | Every leaf is drawn by the primary pass or lies below a queued node, and never both. |
| ChcWalk.OccludedEffect | maze/MazeApp.cpp:432-441 | Hiding an occluded node only hides: nothing in its subtree stays visible, and every node it hides is in the subtree or an interior ancestor of the node. |
| ChcDrain.PrimaryEstablishes | maze/MazeApp.cpp:327-378 | The state the primary pass leaves satisfies the drain invariant. |
| ChcDrain.StepVisibleLeaf | maze/MazeApp.cpp:382-418 | Drawing a queued leaf whose query passed, marking it visible and dequeuing it keeps the drain invariant. |
| ChcDrain.StepVisibleInterior | maze/MazeApp.cpp:419-430 | Marking a passed interior node visible and replacing it in the queue by its two children keeps the drain invariant. |
| ChcDrain.StepOccluded | maze/MazeApp.cpp:432-441 | Hiding an occluded node, its subtree and the `pullUp` ancestors, and dequeuing it, keeps the drain invariant. |
| ChcDrain.DrainFinished | maze/MazeApp.cpp:378-446 | Once the queue is empty: every leaf is drawn exactly when it is visible; a drawn leaf was drawn by the primary pass or passed its own query; a leaf not drawn lies below a node found occluded. |
| ChcDrain.PendingTick | maze/MazeApp.cpp:442-444 | Polling never raises the termination measure, and lowers it when the polled query was still waiting. |
| ChcDrain.PendingRemove | maze/MazeApp.cpp:417-418 | Dequeuing a query and queuing others changes the measure by exactly their shares. |
| ChcDrain.PendingPair | maze/MazeApp.cpp:421-427 | The two child queries weigh exactly what their parent's weight reserved for them. |
| ChcLoop.SplitQuery | maze/MazeApp.cpp:419-430 | Replacing an interior node's query by queries for its two children keeps the queue well formed, puts the children at the end, and lowers the measure. |
| ChcLoop.ResolveVisibleLeaf | maze/MazeApp.cpp:382-418 | The passed leaf is added to the drawn set and the visible set, with no other flag changed, and its query is erased. The queue stays well formed, the drain invariant holds, and the measure drops. |
| ChcLoop.MarkDrawn | maze/MazeApp.cpp:415-416 | A drawn leaf is added to both the drawn set and the visible set, and no other flag changes. |
| ChcLoop.ResolveVisibleInterior | maze/MazeApp.cpp:419-430 | The passed interior node is added to the visible set, and the drawn set is unchanged. Its query is replaced by its children's queries at the end of the queue. The drain invariant holds and the measure drops. |
| ChcLoop.MarkVisible | maze/MazeApp.cpp:423 | The node is added to the visible set, and no other flag changes. |
| ChcLoop.ResolveOccluded | maze/MazeApp.cpp:432-441 | The new visible set is `Occluded` of the old one: the node, its subtree and the ancestors `pullUp` hides are removed. The drawn set is unchanged, and the query is erased. The drain invariant holds and the measure drops. |
| ChcLoop.ResolveAnswered | maze/MazeApp.cpp:382-441 | An answered query is resolved by its outcome. If it passed, its node joins the visible set and, for a leaf, the drawn set. If it failed, the visible set becomes `Occluded` and the drawn set is unchanged. The queue loses the query and gains the children of a passed interior node. |
| ChcLoop.DrainStep | maze/MazeApp.cpp:380-444 | One poll. An unanswered query is skipped (the iterator moves on) and no flag changes. An answered one is resolved as `ResolveAnswered` states and erased (the iterator stays). Either way the measure drops. |
| ChcLoop.DrainQueue | maze/MazeApp.cpp:378-446 | The drain terminates with the I-queue empty and the drain invariant holding. |
| ChcPrimary.Walk | maze/MazeApp.cpp:327-376 | The V-queue gains the visible leaves of the walk and the I-queue its invisible nodes, both in walk order. Exactly those visible leaves become drawn. |
| ChcPrimary.Descend | maze/MazeApp.cpp:328-330 | At a visible interior node, the walk goes on into the near child and then the far child. |
| ChcPrimary.DrawLeaf | maze/MazeApp.cpp:331-369 | A visible leaf is queued on the V-queue and drawn, and the walk stops there. |
| ChcPrimary.QueueHidden | maze/MazeApp.cpp:370-375 | An invisible node is queued on the I-queue, and the walk stops there. |
| ChcPrimary.Primary | maze/MazeApp.cpp:327-376 | Over the whole tree, the primary pass leaves the I-queue and the drawn leaves satisfying the drain invariant. |
| ChcPrimary.Cull | maze/MazeApp.cpp:325-446 | After CHC the I-queue is empty; every leaf is drawn exactly when it is visible; a drawn leaf was drawn by the primary pass or passed its query; every undrawn leaf lies below an occluded node. |
| App.BuildKdTree | maze/MazeApp.cpp:74-75 | The tree is a kd-tree over the render queue, with the root's bounds assigned by `calcBorders`. |
| App.AwaitResult | maze/MazeApp.cpp:276-278 | The spin loop ends at the first poll at or after the time the answer is ready. |
| App.ResolveVQuery | maze/MazeApp.cpp:276-287 | After one read-back: the node is visible if samples passed, and otherwise the node, its subtree and the `pullUp` ancestors are hidden. |
| App.ReadBackVQueue | maze/MazeApp.cpp:275-290 | The loop keeps exactly the odd-position entries. The visible set is that of reading back the even-position entries in order. |
| App.ReadBackRound | maze/MazeApp.cpp:276-289 | One round reads back entry 2i of the original queue and erases it. |
| App.MazeApp.InitProcess | maze/MazeApp.cpp:38-75 | Builds the render queue, a kd-tree over it with bounds, all modes off and empty queues. |
| App.MazeApp.VQueuePass | maze/MazeApp.cpp:274-290 | The V-queue keeps its odd entries, and its even entries are read back. |
| App.MazeApp.ChcPass | maze/MazeApp.cpp:325-446 | The CHC postconditions of `ChcPrimary.Cull` on the app's tree and queues. |
| App.MazeApp.PrepareFrame | maze/MazeApp.cpp:270-324 | Nothing is drawn, the V-queue is read back, and with frustum culling on every leaf is visible exactly when it is in the frustum. |
| App.MazeApp.Render | maze/MazeApp.cpp:175-558 | The debug window changes nothing. With CHC on, leaves are drawn exactly when visible after culling. With the simple culler, exactly the leaves whose query passes are drawn. With no culling, exactly the visible leaves are drawn. |
| App.MazeApp.SwitchModes | maze/MazeApp.cpp:583-632 | The modes change as `Keys.KeyStep` says. |
| App.MazeApp.KeyPressEvent | maze/MazeApp.cpp:581-633 | The modes change as `KeyStep` says. P, O and F make every node visible, and other keys change no flag. |
| Keys.KeyStep | maze/MazeApp.cpp:581-633 | P and O toggle their culler and switch the other one off. A digit 1–9 sets that debug level and 0 sets 10. The mode invariant is kept. |
| Keys.RunKeepsModesInv | maze/MazeApp.cpp:588-622 | Under any key sequence, the two occlusion cullers are never both on, and the debug level stays within [0, 10]. |
| Keys.ModesInvFromStart | maze/MazeApp.hpp:246-250 | The invariant holds from the initial modes on. |
| Keys.ToggleTwice | maze/MazeApp.cpp:588-607 | Pressing P, O or F twice restores that culler's flag. |
| View.ViewOf | maze/MazeApp.hpp:196-201 | The corrected ground point compares world x on axis 0 and world z on axis 1. |
| View.NearChildHoldsEye | maze/MazeApp.hpp:196-208 | With the corrected view, the walk first enters the child on the eye's side of the border. |
| View.AsWrittenIgnoresDepth | maze/MazeApp.hpp:199-201 | As written, the order on axis 1 does not depend on the eye's world z. |
| View.AsWrittenEntersFarSide | maze/MazeApp.hpp:199-201 | An eye at height 1.7 and z = 20, in front of a node on axis 1 with border 5: as written, the walk enters the far (left) child first. |
| StandaloneKdTree.KdTree | Tests/main.cpp:40-75 | The result is a median-split tree over the tiles (a permutation of them). The vector is left sorted and holds the same tiles. |
| StandaloneKdTree.BuildSorted | Tests/main.cpp:61-75 | On a sorted vector, the border is the element at n/2, and the halves are built one level deeper. |
| StandaloneKdTree.BuiltOverReordered | Tests/main.cpp:54-60 | What is built over a run is built over any reordering of it. |
| StandaloneKdTree.CopyRange | Tests/main.cpp:70-71 | A new vector holding exactly the chosen range. |
| StandaloneKdTree.SplitBuilt | Tests/main.cpp:61-73 | An interior node over the built halves of a sorted run is built over the run. |
| StandaloneKdTree.SortedSplits | Tests/main.cpp:61-71 | A sorted run splits at n/2, with the element there as the border. |
| StandaloneKdTree.PrintTreeLeaves | Tests/main.cpp:87-100 | `printTree` prints exactly the leaves' tiles, left to right. |
| StandaloneKdTree.FreeTreeOrder | Tests/main.cpp:77-85 | `freeTree` makes as many deletions as the tree has nodes; every deletion is of a node of the tree, every node of the tree is deleted, and the node passed in is deleted last. |
| StandaloneKdTree.FreeChildrenFirst | Tests/main.cpp:77-85 | `freeTree` deletes each interior node only after both of its children have been deleted. |
| StandaloneKdTree.HasLeaf | Tests/main.cpp:42-51 | A non-null tree has a leaf. |
| StandaloneKdTree.SplitsAgree | Tests/main.cpp:61-71 | Two splits of the same spread tiles have the same halves and border. |
| StandaloneKdTree.BuildDeterminate | Tests/main.cpp:40-75 | When no two tiles share a coordinate, any two trees built over the same tiles are equal. |
| StandaloneKdTree.SixPointScenario | Tests/main.cpp:106-128 | Over the six tiles of `main`, the tree has border 7 on axis 0 and prints (2,3), (4,7), (5,4), (8,1), (7,2), (9,6). |
| StandaloneKdTree.SixPointTreeSplits | Tests/main.cpp:106-127 | The expected six-point tree is a median split. |
| StandaloneKdTree.SixPointsSpread | Tests/main.cpp:106-117 | No two of the six tiles share a coordinate. |
| StandaloneKdTree.SixPointMain | Tests/main.cpp:103-133 | `main` builds the expected tree and prints its tiles. |

## Left out

- Loading the maze image from disk, OpenGL set-up, shaders, buffers and every draw call. Drawing a tile is modelled as setting its `renderedThisFrame` flag.
- The debug window's drawing of node bounds (maze/MazeApp.cpp:198-264): it only draws, so `Render` leaves all state unchanged for it.
- The loop over the views of a frame: `Render` models one view.
- The float frustum tests of the leaves' bounding spheres: they are the `inFrustum` oracle.
- The GPU's answer to a query, and the depth test that decides it: they are the `samplesPassed` and `latency` oracles.
- The query started by `OcclusionQuery::start` (drawing the node's box) and the query ids.
- The spin loop of the simple culler (maze/MazeApp.cpp:488-491): its answer is `samplesPassed`.
- `freeTree` and `exitProcess` freeing memory: Dafny has no deallocation. `FreeTreeOrder` states the order of deletions for the standalone tree.
- Fields the source leaves indeterminate (an unassigned grid cell, a leaf's axis and border): they are `None` or fixed values in the model.
- Iterator invalidation and the deletion of query objects when they are erased.
- The empty-maze case after `initProcess`: `Render` returns at once when the tree is null.
- `update`, `wantExit`, serialization, `main` of maze/MazeApp.cpp, `keyReleaseEvent` and mouse and device events: they move the camera or talk to the VR framework, not the culling.
- Floating-point rounding: positions are integers and borders and bounds are exact reals.
- Passes.NoCulling: states which leaves are drawn, not the order they are drawn in.
- Passes.SimpleOcclusion: states which leaves are drawn, not the order they are drawn in.
- KdBuild.KdTree: promises the leaves hold the input tiles as a multiset, not a particular order of ties, because `std::sort` is not stable.
- StandaloneKdTree.KdTree: promises the leaves are a permutation of the tiles, not a particular order of ties, for the same reason.
- App.MazeApp.Render: walks the tree with the ground point (eye x, eye z), the corrected `frontToBack` of the first finding, so on axis-1 nodes its traversal order can differ from the code's comparison of the eye's y.
- App.MazeApp.InitProcess: builds the render queue with the corrected row-major fill of the second finding, so for a maze that is not square it does not reproduce the code's swapped loop bounds (tiles at other positions, or a read past the grid when the maze is wider than high).
- Occlusion.OcclusionQuery.IsAvailable: the GPU's latency is a fixed number of polls, not wall-clock time.

## Findings

| source | as written | input that shows it | evidently intended | confidence | as-written member | corrected member |
|---|---|---|---|---|---|---|
| maze/MazeApp.hpp:199-201 | on axis 1 `frontToBack` compares the eye's y, its height, with the border; tiles are placed at world (x, 1, y), so the split axis 1 is world z | an eye at height 1.7 and world z = 20 in front of a node on axis 1 with border 5: the walk enters the left child (tiles at z ≤ 5) first | compare the eye's z on axis 1 | medium, not executed | View.AsWrittenEntersFarSide | View.NearChildHoldsEye |
| maze/MazeApp.cpp:63-64 | the fill loop runs rows up to `gridWidth` and columns up to `gridHeight` | a maze two cells wide and one high: `GetCell(1, 0)` reads index 2 of a two-cell grid | rows up to `gridHeight`, columns up to `gridWidth` | high, not executed | Grid.AsWrittenCounterexample | Grid.FillRenderQueue |
