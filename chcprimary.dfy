/**
 * The primary pass of coherent hierarchical culling in `render` of
 * maze/MazeApp.cpp, and the whole CHC branch of `render` built on it.
 *
 * The primary pass walks the kd-tree front to back with a visitor that
 * descends below visible interior nodes, draws each visible leaf it reaches
 * and issues a query for it on the V-queue, and issues a query on the
 * I-queue for each invisible node it reaches.  The two queues are passed in
 * and handed back as values; the nodes' flags change in place.
 */
module ChcPrimary {
  import opened Geometry
  import opened Seqs
  import opened KdNode
  import opened PullUpPass
  import opened ChcWalk
  import opened ChcDrain
  import opened Occlusion
  import opened ChcLoop

  /** Every query of `qs` is issued on `gpu` for a node of the tree rooted at `R`. */
  ghost predicate IssuedIn(R: Node, qs: seq<OcclusionQuery>, gpu: Gpu)
  {
    forall q :: q in qs ==> q.node in R.Repr && q.gpu == gpu
  }

  /**
   * The primary pass over the subtree of `n`: the V-queue gains a query for
   * each visible leaf of the walk and the I-queue one for each invisible
   * node of the walk, both in walk order, and exactly the visible leaves of
   * the walk become drawn.  `V` is the set of visible nodes, which the pass
   * does not change.
   */
  method Walk(ghost R: Node, n: Node?, view: Vec2, ghost V: set<Node>, gpu: Gpu, samplesPassed: Node -> bool, latency: Node -> nat,
              vq: seq<OcclusionQuery>, iq: seq<OcclusionQuery>)
    returns (vq': seq<OcclusionQuery>, iq': seq<OcclusionQuery>)
    requires R.Valid() && Tree(n) && NodesOf(n) <= R.Repr
    requires forall m :: m in NodesOf(n) ==> (m.visible <==> m in V)
    requires IssuedIn(R, vq, gpu) && QueueOk(R, iq, gpu, samplesPassed)
    modifies NodesOf(n)`renderedThisFrame
    ensures IssuedIn(R, vq', gpu) && QueueOk(R, iq', gpu, samplesPassed)
    ensures QueryNodes(vq') == QueryNodes(vq) + VisibleLeaves(FrontToBack(n, view, ChcStop(V)), V)
    ensures QueryNodes(iq') == QueryNodes(iq) + HiddenOf(FrontToBack(n, view, ChcStop(V)), V)
    ensures forall m :: m in NodesOf(n) ==>
      (m.renderedThisFrame <==> old(m.renderedThisFrame) || m in VisibleLeaves(FrontToBack(n, view, ChcStop(V)), V))
    decreases NodesOf(n), 1
  {
    if n == null {
      return vq, iq;
    }
    if n.visible && !n.isLeaf {
      vq', iq' := Descend(R, n, view, V, gpu, samplesPassed, latency, vq, iq);
    } else if n.visible && n.isLeaf {
      vq' := DrawLeaf(R, n, view, V, gpu, samplesPassed, latency, vq);
      iq' := iq;
    } else {
      iq' := QueueHidden(R, n, view, V, gpu, samplesPassed, latency, iq);
      vq' := vq;
    }
  }

  /** The visitor finds a visible interior node and answers "go on": the walk descends, near child first. */
  method Descend(ghost R: Node, n: Node, view: Vec2, ghost V: set<Node>, gpu: Gpu, samplesPassed: Node -> bool, latency: Node -> nat,
                 vq: seq<OcclusionQuery>, iq: seq<OcclusionQuery>)
    returns (vq': seq<OcclusionQuery>, iq': seq<OcclusionQuery>)
    requires R.Valid() && n.Valid() && n.Repr <= R.Repr
    requires forall m :: m in n.Repr ==> (m.visible <==> m in V)
    requires IssuedIn(R, vq, gpu) && QueueOk(R, iq, gpu, samplesPassed)
    requires n.visible && !n.isLeaf
    modifies n.Repr`renderedThisFrame
    ensures IssuedIn(R, vq', gpu) && QueueOk(R, iq', gpu, samplesPassed)
    ensures QueryNodes(vq') == QueryNodes(vq) + VisibleLeaves(FrontToBack(n, view, ChcStop(V)), V)
    ensures QueryNodes(iq') == QueryNodes(iq) + HiddenOf(FrontToBack(n, view, ChcStop(V)), V)
    ensures forall m :: m in n.Repr ==>
      (m.renderedThisFrame <==> old(m.renderedThisFrame) || m in VisibleLeaves(FrontToBack(n, view, ChcStop(V)), V))
    decreases n.Repr, 0
  {
    ghost var stop := ChcStop(V);
    DrawnRoot(n, view, stop, V);
    DrawnDescend(n, view, stop, V);
    HiddenDescend(n, view, stop, V);
    var positive := Along(view, n.axis) < n.border;
    var first, second := if positive then n.left else n.right, if positive then n.right else n.left;
    assert first == NearChild(n, view) && second == FarChild(n, view);
    ghost var nearDrawn, farDrawn := VisibleLeaves(FrontToBack(first, view, stop), V), VisibleLeaves(FrontToBack(second, view, stop), V);
    ghost var nearHidden, farHidden := HiddenOf(FrontToBack(first, view, stop), V), HiddenOf(FrontToBack(second, view, stop), V);
    var vq1, iq1 := Walk(R, first, view, V, gpu, samplesPassed, latency, vq, iq);
    vq', iq' := Walk(R, second, view, V, gpu, samplesPassed, latency, vq1, iq1);
    AppendTwice(QueryNodes(vq), QueryNodes(vq1), QueryNodes(vq'), nearDrawn, farDrawn);
    AppendTwice(QueryNodes(iq), QueryNodes(iq1), QueryNodes(iq'), nearHidden, farHidden);
    forall m | m in n.Repr
      ensures m.renderedThisFrame <==> old(m.renderedThisFrame) || m in VisibleLeaves(FrontToBack(n, view, stop), V)
    {
      if m in first.Repr {
        DrawnInChild(n, view, stop, V, m);
        assert m !in second.Repr;
      } else if m in second.Repr {
        DrawnInChild(n, view, stop, V, m);
      }
    }
  }

  /** The visitor finds a visible leaf: it issues a query for the next frame, draws the leaf and stops. */
  method DrawLeaf(ghost R: Node, n: Node, view: Vec2, ghost V: set<Node>, gpu: Gpu, samplesPassed: Node -> bool, latency: Node -> nat,
                  vq: seq<OcclusionQuery>)
    returns (vq': seq<OcclusionQuery>)
    requires R.Valid() && n.Valid() && n.Repr <= R.Repr
    requires forall m :: m in n.Repr ==> (m.visible <==> m in V)
    requires IssuedIn(R, vq, gpu)
    requires n.visible && n.isLeaf
    modifies n`renderedThisFrame
    ensures IssuedIn(R, vq', gpu)
    ensures QueryNodes(vq') == QueryNodes(vq) + VisibleLeaves(FrontToBack(n, view, ChcStop(V)), V)
    ensures HiddenOf(FrontToBack(n, view, ChcStop(V)), V) == []
    ensures forall m :: m in n.Repr ==>
      (m.renderedThisFrame <==> old(m.renderedThisFrame) || m in VisibleLeaves(FrontToBack(n, view, ChcStop(V)), V))
  {
    WalkStopped(n, view, ChcStop(V), V);
    var query := new OcclusionQuery(n, gpu, samplesPassed(n), latency(n));
    QueryNodesConcat(vq, [query]);
    assert QueryNodes([query]) == [n];
    vq' := vq + [query];
    n.renderedThisFrame := true;
  }

  /** The visitor finds an invisible node: it issues a query for this frame and stops. */
  method QueueHidden(ghost R: Node, n: Node, view: Vec2, ghost V: set<Node>, gpu: Gpu, samplesPassed: Node -> bool, latency: Node -> nat,
                     iq: seq<OcclusionQuery>)
    returns (iq': seq<OcclusionQuery>)
    requires R.Valid() && n.Valid() && n.Repr <= R.Repr
    requires forall m :: m in n.Repr ==> (m.visible <==> m in V)
    requires QueueOk(R, iq, gpu, samplesPassed)
    requires !n.visible
    ensures QueueOk(R, iq', gpu, samplesPassed)
    ensures QueryNodes(iq') == QueryNodes(iq) + HiddenOf(FrontToBack(n, view, ChcStop(V)), V)
    ensures VisibleLeaves(FrontToBack(n, view, ChcStop(V)), V) == []
  {
    WalkStopped(n, view, ChcStop(V), V);
    var query := new OcclusionQuery(n, gpu, samplesPassed(n), latency(n));
    QueryNodesConcat(iq, [query]);
    assert QueryNodes([query]) == [n];
    iq' := iq + [query];
  }

  /**
   * The primary pass over the whole tree rooted at `R`, with no leaf drawn
   * yet and an empty I-queue: it leaves the I-queue and the drawn leaves in
   * the state the drain starts from.
   */
  method Primary(R: Node, vq: seq<OcclusionQuery>, gpu: Gpu, view: Vec2, samplesPassed: Node -> bool, latency: Node -> nat)
    returns (vq': seq<OcclusionQuery>, iq: seq<OcclusionQuery>)
    requires R.Valid() && IssuedIn(R, vq, gpu)
    requires forall m :: m in R.Repr ==> !m.renderedThisFrame
    modifies R.Repr`renderedThisFrame
    ensures IssuedIn(R, vq', gpu) && QueueOk(R, iq, gpu, samplesPassed)
    ensures QueryNodes(vq') == QueryNodes(vq) + VisibleLeaves(PrimaryWalk(R, view, VisibleSet(R.Repr)), VisibleSet(R.Repr))
    ensures Draining(R, iq, samplesPassed, PrimaryDrawn(R, view, VisibleSet(R.Repr)))
  {
    ghost var V := VisibleSet(R.Repr);
    ghost var P := PrimaryDrawn(R, view, V);
    vq', iq := Walk(R, R, view, V, gpu, samplesPassed, latency, vq, []);
    assert RenderedSet(R.Repr) == P;
    assert VisibleSet(R.Repr) == V;
    assert QueryNodes(iq) == HiddenOf(PrimaryWalk(R, view, V), V);
    PrimaryEstablishes(R, view, V, samplesPassed);
  }

  /**
   * Coherent hierarchical culling over the tree rooted at `R` with no leaf
   * drawn yet: the primary pass, then the drain of the queries it issued
   * for invisible nodes, which leaves the I-queue empty.  Afterwards every
   * leaf is drawn exactly when it is visible, a drawn leaf was drawn by the
   * primary pass or passed its own query, and a leaf not drawn lies below
   * a node found occluded.  The V-queue gains the queries for the visible
   * leaves the primary pass drew.
   */
  method Cull(R: Node, vq: seq<OcclusionQuery>, gpu: Gpu, view: Vec2, samplesPassed: Node -> bool, latency: Node -> nat)
    returns (vq': seq<OcclusionQuery>, iq': seq<OcclusionQuery>)
    requires R.Valid() && Wired(R) && R.parent == null
    requires IssuedIn(R, vq, gpu)
    requires forall m :: m in R.Repr ==> !m.renderedThisFrame
    modifies gpu`clock, R.Repr`visible, R.Repr`renderedThisFrame
    ensures IssuedIn(R, vq', gpu) && iq' == []
    ensures QueryNodes(vq') == QueryNodes(vq) + VisibleLeaves(PrimaryWalk(R, view, old(VisibleSet(R.Repr))), old(VisibleSet(R.Repr)))
    ensures forall l :: l in LeavesOf(R) ==> (l.renderedThisFrame <==> l.visible)
    ensures forall m :: m in R.Repr && m.renderedThisFrame ==>
      m.isLeaf && (m in PrimaryDrawn(R, view, old(VisibleSet(R.Repr))) || samplesPassed(m))
    ensures forall l :: l in LeavesOf(R) && !l.renderedThisFrame ==> Culled(R, l, samplesPassed)
  {
    ghost var P := PrimaryDrawn(R, view, VisibleSet(R.Repr));
    var iq;
    vq', iq := Primary(R, vq, gpu, view, samplesPassed, latency);
    assert Wired(R);
    iq' := DrainQueue(R, iq, gpu, samplesPassed, latency, P);
    ghost var rend := RenderedSet(R.Repr);
    DrainFinished(R, VisibleSet(R.Repr), rend, samplesPassed, P);
    assert forall m :: m in R.Repr && m.renderedThisFrame ==> m in rend;
  }
}
