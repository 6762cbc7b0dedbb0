/**
 * `MazeApp` of maze/MazeApp.hpp and maze/MazeApp.cpp: the maze grid, the
 * kd-tree over its tiles, the mode flags and the two occlusion-query queues,
 * with `initProcess`, `keyPressEvent` and the culling part of `render`.
 *
 * The GPU is an oracle (module Occlusion): `samplesPassed` says whether a
 * node's box would pass the depth test this frame, `latency` after how many
 * polls a query issued for it answers, and `inFrustum` whether a leaf's
 * bounding sphere meets the view frustum.
 */
module App {
  import opened Geometry
  import opened Seqs
  import opened KdNode
  import opened KdBuild
  import opened Bounds
  import opened PullUpPass
  import opened ChcWalk
  import opened ChcDrain
  import opened Occlusion
  import opened VQueue
  import opened Keys
  import opened Grid
  import opened Passes
  import opened View
  import opened ChcLoop
  import ChcPrimary

  /** The visible set after frustum culling: every leaf visible exactly when it is in the frustum. */
  ghost function FrustumSet(R: Node, vis: set<Node>, inFrustum: Node -> bool): set<Node>
  {
    (vis - LeavesOf(R)) + set l | l in LeavesOf(R) && inFrustum(l)
  }

  /**
   * The visible set the culling of a frame starts from: the V-queue pass
   * has read back the queries at the even positions of `queue`, and then,
   * with frustum culling on, every leaf is visible exactly when it is in
   * the frustum.
   */
  ghost function FrameVisible(R: Node, vis: set<Node>, queue: seq<OcclusionQuery>, frustumCulling: bool, inFrustum: Node -> bool): set<Node>
    requires R.Valid() && InTree(R, queue)
  {
    var readBack := FoldResolve(R, vis, EvensOf(queue));
    if frustumCulling then FrustumSet(R, readBack, inFrustum) else readBack
  }

  /**
   * The end of `initProcess`: `kdTree` over the render queue (a copy of the
   * queue, which it sorts in place) and `calcBorders` on the root.
   */
  method BuildKdTree(queue: seq<RenderObject>) returns (root: Node?)
    ensures KdTreeOver(root, queue, 0)
    ensures root != null ==> root.parent == null && HasBounds(root, RootRect)
    ensures fresh(NodesOf(root)) && FreshState(root)
  {
    var objects := new RenderObject[|queue|](k requires 0 <= k < |queue| => queue[k]);
    assert objects[..] == queue;
    root := KdTree(objects, 0);
    CalcBorders(root);
  }

  /**
   * The spin loop of the V-queue pass: polls `q` until its answer has
   * arrived.  The poll that finds the answer is the first one at or after
   * the time the answer is ready.
   */
  method AwaitResult(q: OcclusionQuery)
    modifies q.gpu`clock
    ensures q.gpu.clock == (if old(q.gpu.clock) >= q.readyAt then old(q.gpu.clock) else q.readyAt) + 1
  {
    ghost var start := q.gpu.clock;
    var available := q.IsAvailable();
    while !available
      invariant start < q.gpu.clock
      invariant available <==> q.gpu.clock - 1 >= q.readyAt
      invariant q.gpu.clock == start + 1 || q.gpu.clock - 1 <= q.readyAt
      decreases q.readyAt + 1 - q.gpu.clock
    {
      available := q.IsAvailable();
    }
  }

  /**
   * One round of the V-queue pass: waits for the answer of `q`, then marks
   * its node visible when samples passed and otherwise hides it, its
   * subtree and the ancestors `pullUp` hides.
   */
  method ResolveVQuery(ghost R: Node, q: OcclusionQuery)
    requires R.Valid() && Wired(R) && R.parent == null && q.node in R.Repr
    modifies q.gpu`clock, R.Repr`visible
    ensures VisibleSet(R.Repr) == ResolveOne(R, old(VisibleSet(R.Repr)), q)
  {
    AwaitResult(q);
    var node := q.GetNode();
    if q.GetResult() {
      ghost var vis := VisibleSet(R.Repr);
      node.visible := true;
      assert VisibleSet(R.Repr) == vis + {node};
    } else {
      Occlude(R, node);
    }
  }

  /**
   * The loop of the V-queue pass over the queue `queue`: it erases the
   * entry at index `i` and then increments `i`, so it reads back the
   * queries at the even positions of the queue, in order, and keeps those
   * at the odd positions for the next frame.
   */
  method ReadBackVQueue(ghost R: Node, queue: seq<OcclusionQuery>, gpu: Gpu) returns (kept: seq<OcclusionQuery>)
    requires R.Valid() && Wired(R) && R.parent == null && InTree(R, queue)
    requires forall q :: q in queue ==> q.gpu == gpu
    modifies gpu`clock, R.Repr`visible
    ensures kept == OddsOf(queue)
    ensures VisibleSet(R.Repr) == FoldResolve(R, old(VisibleSet(R.Repr)), EvensOf(queue))
  {
    ghost var vis0 := VisibleSet(R.Repr);
    kept := queue;
    var i := 0;
    while i < |kept|
      invariant ReadBackState(R, vis0, queue, kept, i)
      decreases |queue| - i
    {
      kept := ReadBackRound(R, vis0, queue, kept, i, gpu);
      i := i + 1;
    }
    assert queue[..|queue|] == queue;
  }

  /**
   * The state of the V-queue pass after `i` rounds: the entries at the even
   * positions before index 2i have been read back and erased, the others
   * remain in order.
   */
  ghost predicate ReadBackState(R: Node, vis0: set<Node>, queue: seq<OcclusionQuery>, kept: seq<OcclusionQuery>, i: nat)
    reads R`parent, R.Repr`visible, Below(R)`parent
  {
    && R.Valid() && Wired(R) && R.parent == null && InTree(R, queue)
    && 2 * i <= |queue| + 1
    && kept == OddsOf(queue[..Reached(i, |queue|)]) + queue[Reached(i, |queue|)..]
    && InTree(R, EvensOf(queue[..Reached(i, |queue|)]))
    && VisibleSet(R.Repr) == FoldResolve(R, vis0, EvensOf(queue[..Reached(i, |queue|)]))
  }

  /** One round of the loop of the V-queue pass: reads back the entry at index `i` and erases it. */
  method ReadBackRound(ghost R: Node, ghost vis0: set<Node>, queue: seq<OcclusionQuery>, kept: seq<OcclusionQuery>, i: nat, gpu: Gpu)
      returns (kept': seq<OcclusionQuery>)
    requires ReadBackState(R, vis0, queue, kept, i) && i < |kept|
    requires forall q :: q in queue ==> q.gpu == gpu
    modifies gpu`clock, R.Repr`visible
    ensures ReadBackState(R, vis0, queue, kept', i + 1)
  {
    assert 2 * i < |queue|;
    PassRound(queue, i);
    ghost var resolved := EvensOf(queue[..2 * i]);
    var q := kept[i];
    assert q == queue[2 * i] && q in queue;
    FoldResolveSnoc(R, vis0, resolved, q);
    ResolveVQuery(R, q);
    kept' := kept[..i] + kept[i + 1..];
  }

  class MazeApp {
    const mazeGrid: seq<GridCell>
    const gridWidth: nat
    const gridHeight: nat
    const kdTreeRoot: Node?
    const gpu: Gpu

    var wantExit: bool
    var frustumCulling: bool
    var occlusionCullingCHC: bool
    var occlusionCulling: bool
    var chcDebug: bool
    var debugLevel: int
    var vQueries: seq<OcclusionQuery>
    var iQueries: seq<OcclusionQuery>

    /** The nodes of the kd-tree. */
    ghost function Nodes(): set<Node>
    {
      NodesOf(kdTreeRoot)
    }

    /** The flags and the debug level `keyPressEvent` changes. */
    function CurrentModes(): Modes
      reads this`wantExit, this`frustumCulling, this`occlusionCullingCHC, this`occlusionCulling, this`chcDebug, this`debugLevel
    {
      Modes(wantExit, frustumCulling, occlusionCullingCHC, occlusionCulling, chcDebug, debugLevel)
    }

    /**
     * The state of the tree and of the kept queries: the grid matches its
     * size, the kd-tree is well formed and wired with a parentless root,
     * and every query kept for the next frame is bound to a node of the
     * tree and to the GPU.
     */
    ghost predicate TreeState()
      reads this`vQueries, Nodes()`parent
    {
      && |mazeGrid| == gridWidth * gridHeight
      && Tree(kdTreeRoot) && Wired(kdTreeRoot)
      && (kdTreeRoot != null ==> kdTreeRoot.parent == null)
      && (forall q :: q in vQueries ==> q.node in Nodes() && q.gpu == gpu)
    }

    /** Between frames no query of the current frame is pending, and the modes keep their invariant. */
    ghost predicate Valid()
      reads this`vQueries, this`iQueries, Nodes()`parent
      reads this`wantExit, this`frustumCulling, this`occlusionCullingCHC, this`occlusionCulling, this`chcDebug, this`debugLevel
    {
      TreeState() && iQueries == [] && ModesInv(CurrentModes())
    }

    /**
     * `initProcess`, from the decoded grid on: fills the render queue,
     * builds the kd-tree over it and assigns the bounds.  All modes start
     * off and both queues empty.
     */
    constructor InitProcess(grid: seq<GridCell>, width: nat, height: nat)
      requires |grid| == width * height
      ensures Valid()
      ensures mazeGrid == grid && gridWidth == width && gridHeight == height
      ensures KdTreeOver(kdTreeRoot, RenderQueue(grid, width, height), 0)
      ensures kdTreeRoot != null ==> HasBounds(kdTreeRoot, RootRect)
      ensures fresh(Nodes()) && FreshState(kdTreeRoot)
      ensures CurrentModes() == InitialModes() && vQueries == []
    {
      var queue := FillRenderQueue(grid, width, height);
      var root := BuildKdTree(queue);
      mazeGrid := grid;
      gridWidth := width;
      gridHeight := height;
      kdTreeRoot := root;
      gpu := new Gpu();
      wantExit := false;
      frustumCulling := false;
      occlusionCullingCHC := false;
      occlusionCulling := false;
      chcDebug := false;
      debugLevel := 0;
      vQueries := [];
      iQueries := [];
    }

    /** The V-queue pass at the start of `render` (see `ReadBackVQueue`). */
    method VQueuePass()
      requires Valid() && kdTreeRoot != null
      modifies this`vQueries, gpu`clock, Nodes()`visible
      ensures Valid()
      ensures vQueries == OddsOf(old(vQueries))
      ensures VisibleSet(Nodes()) == FoldResolve(kdTreeRoot, old(VisibleSet(Nodes())), EvensOf(old(vQueries)))
    {
      vQueries := ReadBackVQueue(kdTreeRoot, vQueries, gpu);
    }

    /**
     * Coherent hierarchical culling: the primary pass, then the drain of
     * the queries it issued for invisible nodes.  Afterwards every leaf is
     * drawn exactly when it is visible, a drawn leaf was drawn by the
     * primary pass or passed its own query, and a leaf not drawn lies below
     * a node found occluded.  The queries for the visible leaves the
     * primary pass drew are kept for the next frame.
     */
    method ChcPass(view: Vec2, samplesPassed: Node -> bool, latency: Node -> nat)
      requires Valid() && kdTreeRoot != null
      requires forall m :: m in Nodes() ==> !m.renderedThisFrame
      modifies this`vQueries, this`iQueries, gpu`clock, Nodes()`visible, Nodes()`renderedThisFrame
      ensures Valid()
      ensures QueryNodes(vQueries) == QueryNodes(old(vQueries)) + VisibleLeaves(PrimaryWalk(kdTreeRoot, view, old(VisibleSet(Nodes()))), old(VisibleSet(Nodes())))
      ensures forall l :: l in LeavesOf(kdTreeRoot) ==> (l.renderedThisFrame <==> l.visible)
      ensures forall m :: m in Nodes() && m.renderedThisFrame ==>
        m.isLeaf && (m in PrimaryDrawn(kdTreeRoot, view, old(VisibleSet(Nodes()))) || samplesPassed(m))
      ensures forall l :: l in LeavesOf(kdTreeRoot) && !l.renderedThisFrame ==> Culled(kdTreeRoot, l, samplesPassed)
    {
      vQueries, iQueries := ChcPrimary.Cull(kdTreeRoot, vQueries, gpu, view, samplesPassed, latency);
    }

    /**
     * The part of `render` before the culling proper: every node is marked
     * not drawn, the V-queue pass reads back half the kept queries, and
     * with frustum culling on every leaf is made visible exactly when it is
     * in the frustum.
     */
    method PrepareFrame(inFrustum: Node -> bool)
      requires Valid() && kdTreeRoot != null
      modifies this`vQueries, gpu`clock, Nodes()`visible, Nodes()`renderedThisFrame
      ensures Valid()
      ensures vQueries == OddsOf(old(vQueries))
      ensures VisibleSet(Nodes()) == FrameVisible(kdTreeRoot, old(VisibleSet(Nodes())), old(vQueries), frustumCulling, inFrustum)
      ensures forall m :: m in Nodes() ==> !m.renderedThisFrame
    {
      ClearRendered(kdTreeRoot);
      VQueuePass();
      if frustumCulling {
        ghost var readBack := VisibleSet(Nodes());
        FrustumCull(kdTreeRoot, inFrustum);
        assert VisibleSet(Nodes()) == FrustumSet(kdTreeRoot, readBack, inFrustum);
      }
    }

    /**
     * `render` for one view.  The debug window only draws.  Otherwise the
     * frame is prepared and then culled by coherent hierarchical culling,
     * by the simple occlusion culler or not at all, as the modes say.
     * `eye` is the navigation position; the culling compares its ground
     * point with the splitting borders.
     */
    method Render(debugWindow: bool, eye: Vec3, inFrustum: Node -> bool, samplesPassed: Node -> bool, latency: Node -> nat)
      requires Valid()
      modifies this`vQueries, this`iQueries, gpu`clock, Nodes()`visible, Nodes()`renderedThisFrame
      ensures Valid()
      ensures debugWindow || kdTreeRoot == null ==>
        vQueries == old(vQueries) && forall m :: m in Nodes() ==> m.visible == old(m.visible) && m.renderedThisFrame == old(m.renderedThisFrame)
      ensures !debugWindow && kdTreeRoot != null && occlusionCullingCHC ==>
        && QueryNodes(vQueries) == QueryNodes(OddsOf(old(vQueries))) + VisibleLeaves(
             PrimaryWalk(kdTreeRoot, ViewOf(eye), FrameVisible(kdTreeRoot, old(VisibleSet(Nodes())), old(vQueries), frustumCulling, inFrustum)),
             FrameVisible(kdTreeRoot, old(VisibleSet(Nodes())), old(vQueries), frustumCulling, inFrustum))
        && (forall l :: l in LeavesOf(kdTreeRoot) ==> (l.renderedThisFrame <==> l.visible))
        && (forall m :: m in Nodes() && m.renderedThisFrame ==>
              (m.isLeaf && (m in PrimaryDrawn(kdTreeRoot, ViewOf(eye), FrameVisible(kdTreeRoot, old(VisibleSet(Nodes())), old(vQueries), frustumCulling, inFrustum))
                            || samplesPassed(m))))
        && (forall l :: l in LeavesOf(kdTreeRoot) && !l.renderedThisFrame ==> Culled(kdTreeRoot, l, samplesPassed))
      ensures !debugWindow && kdTreeRoot != null && !occlusionCullingCHC ==>
        && vQueries == OddsOf(old(vQueries))
        && VisibleSet(Nodes()) == FrameVisible(kdTreeRoot, old(VisibleSet(Nodes())), old(vQueries), frustumCulling, inFrustum)
      ensures !debugWindow && kdTreeRoot != null && !occlusionCullingCHC && occlusionCulling ==>
        forall m :: m in Nodes() ==> (m.renderedThisFrame <==> m.isLeaf && samplesPassed(m))
      ensures !debugWindow && kdTreeRoot != null && !occlusionCullingCHC && !occlusionCulling ==>
        forall m :: m in Nodes() ==> (m.renderedThisFrame <==> m.isLeaf && m.visible)
    {
      if debugWindow || kdTreeRoot == null {
        return;
      }
      PrepareFrame(inFrustum);
      var view := ViewOf(eye);
      if occlusionCullingCHC {
        ChcPass(view, samplesPassed, latency);
      } else if occlusionCulling {
        SimpleOcclusion(kdTreeRoot, view, samplesPassed);
      } else {
        NoCulling(kdTreeRoot, view);
      }
    }

    /**
     * The `switch` of `keyPressEvent` on the modes: they change as `KeyStep`
     * says.
     */
    method SwitchModes(key: int)
      modifies this`wantExit, this`frustumCulling, this`occlusionCullingCHC, this`occlusionCulling
      modifies this`chcDebug, this`debugLevel
      ensures CurrentModes() == KeyStep(old(CurrentModes()), key)
    {
      if key == KeyEscape {
        wantExit := true;
      } else if key == KeyP {
        if occlusionCulling {
          occlusionCulling := false;
        }
        occlusionCullingCHC := !occlusionCullingCHC;
      } else if key == KeyO {
        if occlusionCullingCHC {
          occlusionCullingCHC := false;
        }
        occlusionCulling := !occlusionCulling;
      } else if key == KeyF {
        frustumCulling := !frustumCulling;
      } else if key == KeyG {
        chcDebug := false;
      } else if key == KeyPlus {
        debugLevel := debugLevel + 1;
        if debugLevel > 10 {
          debugLevel := 10;
        }
        chcDebug := true;
      } else if key == KeyMinus {
        debugLevel := debugLevel - 1;
        if debugLevel < 0 {
          debugLevel := 0;
        }
        chcDebug := true;
      }
      if Key0 < key <= Key9 {
        debugLevel := key - Key0;
        chcDebug := true;
      }
      if key == Key0 {
        debugLevel := 10;
        chcDebug := true;
      }
    }

    /**
     * `keyPressEvent`: the modes change as `KeyStep` says, and P, O and F
     * mark every node of the tree visible again.
     */
    method KeyPressEvent(key: int)
      requires Valid()
      modifies this`wantExit, this`frustumCulling, this`occlusionCullingCHC, this`occlusionCulling
      modifies this`chcDebug, this`debugLevel, Nodes()`visible
      ensures Valid()
      ensures CurrentModes() == KeyStep(old(CurrentModes()), key)
      ensures ResetsVisibility(key) ==> forall m :: m in Nodes() ==> m.visible
      ensures !ResetsVisibility(key) ==> forall m :: m in Nodes() ==> m.visible == old(m.visible)
    {
      SwitchModes(key);
      if ResetsVisibility(key) {
        ShowAll(kdTreeRoot);
      }
    }
  }
}
