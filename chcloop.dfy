/**
 * The I-queue loop of coherent hierarchical culling in `render` of
 * maze/MazeApp.cpp: while queries of the current frame are pending, it
 * walks the queue, skips each query whose answer has not arrived and
 * resolves each one whose answer has, erasing it from the queue.
 *
 * The queue is passed in and handed back as a value; the methods change
 * the nodes' flags in place and advance the GPU's clock with every poll.
 * `samplesPassed` and `latency` are the GPU oracle of module Occlusion.
 */
module ChcLoop {
  import opened Seqs
  import opened KdNode
  import opened PullUpPass
  import opened ChcWalk
  import opened ChcDrain
  import opened Occlusion
  import opened Passes

  /**
   * Every pending query is issued on `gpu` for the root of a subtree of the
   * tree rooted at `R`, and answers what `samplesPassed` says of its node.
   */
  ghost predicate QueueOk(R: Node, qs: seq<OcclusionQuery>, gpu: Gpu, samplesPassed: Node -> bool)
  {
    && R.Valid()
    && (forall q :: q in qs ==> q.node in R.Repr)
    && BoundTo(qs, gpu) && Answers(qs, samplesPassed) && AllValid(qs)
  }

  /** The drain invariant of the queued nodes, the visible set and the drawn set of the tree rooted at `R`. */
  ghost predicate Draining(R: Node, qs: seq<OcclusionQuery>, samplesPassed: Node -> bool, P: set<Node>)
    reads R.Repr`visible, R.Repr`renderedThisFrame
  {
    DrainInv(R, QueryNodes(qs), VisibleSet(R.Repr), RenderedSet(R.Repr), samplesPassed, P)
  }

  /** Dequeuing one query and queuing others keeps every query issued for the tree and answering the oracle. */
  lemma QueueOkRemove(R: Node, qs: seq<OcclusionQuery>, i: int, extra: seq<OcclusionQuery>, gpu: Gpu, samplesPassed: Node -> bool)
    requires QueueOk(R, qs, gpu, samplesPassed) && QueueOk(R, extra, gpu, samplesPassed) && 0 <= i < |qs|
    ensures QueueOk(R, qs[..i] + qs[i + 1..] + extra, gpu, samplesPassed)
  {
    var rest := qs[..i] + qs[i + 1..] + extra;
    assert forall q :: q in rest ==> q in qs || q in extra;
  }

  /**
   * Replacing the query at `i`, issued for an interior node, by fresh
   * queries for the node's two children keeps the queue well formed, puts
   * the children at its end and lowers the termination measure.
   */
  lemma SplitQuery(R: Node, qs: seq<OcclusionQuery>, i: int, ql: OcclusionQuery, qr: OcclusionQuery, gpu: Gpu, samplesPassed: Node -> bool, latency: Node -> nat, clock: nat)
    requires QueueOk(R, qs, gpu, samplesPassed) && 0 <= i < |qs| && !qs[i].node.isLeaf
    requires ql.node == qs[i].node.left && qr.node == qs[i].node.right
    requires ql.gpu == gpu && qr.gpu == gpu
    requires ql.samplesPassed == samplesPassed(ql.node) && qr.samplesPassed == samplesPassed(qr.node)
    requires ql.readyAt == clock + latency(ql.node) && qr.readyAt == clock + latency(qr.node)
    ensures QueueOk(R, qs[..i] + qs[i + 1..] + [ql, qr], gpu, samplesPassed)
    ensures QueryNodes(qs[..i] + qs[i + 1..] + [ql, qr]) == QueryNodes(qs)[..i] + QueryNodes(qs)[i + 1..] + [ql.node, qr.node]
    ensures Pending(qs[..i] + qs[i + 1..] + [ql, qr], clock, latency) < Pending(qs, clock, latency)
  {
    var n := qs[i].node;
    assert n.Valid() && n in R.Repr;
    SubtreeValid(R, n);
    assert QueueOk(R, [ql, qr], gpu, samplesPassed);
    QueueOkRemove(R, qs, i, [ql, qr], gpu, samplesPassed);
    PendingPair(ql, qr, clock, latency);
    PendingRemove(qs, i, [ql, qr], clock, latency);
    QueryNodesRemove(qs, i, [ql, qr]);
    assert QueryNodes([ql, qr]) == [ql.node, qr.node];
  }

  /** A query whose node is a leaf and whose samples passed: the leaf is drawn, marked visible and dequeued. */
  method ResolveVisibleLeaf(ghost R: Node, qs: seq<OcclusionQuery>, i: nat, gpu: Gpu, samplesPassed: Node -> bool, latency: Node -> nat, ghost P: set<Node>)
    returns (rest: seq<OcclusionQuery>)
    requires QueueOk(R, qs, gpu, samplesPassed) && Draining(R, qs, samplesPassed, P) && i < |qs|
    requires qs[i].node.isLeaf && qs[i].samplesPassed
    modifies qs[i].node`renderedThisFrame, qs[i].node`visible
    ensures VisibleSet(R.Repr) == old(VisibleSet(R.Repr)) + {qs[i].node}
    ensures RenderedSet(R.Repr) == old(RenderedSet(R.Repr)) + {qs[i].node}
    ensures rest == qs[..i] + qs[i + 1..]
    ensures QueueOk(R, rest, gpu, samplesPassed) && Draining(R, rest, samplesPassed, P)
    ensures Pending(rest, gpu.clock, latency) < Pending(qs, gpu.clock, latency)
  {
    var node := qs[i].GetNode();
    ghost var vis, rend := VisibleSet(R.Repr), RenderedSet(R.Repr);
    MarkDrawn(R, node);
    ghost var nodes := QueryNodes(qs);
    StepVisibleLeaf(R, nodes, i, vis, rend, samplesPassed, P);
    QueueOkRemove(R, qs, i, [], gpu, samplesPassed);
    PendingRemove(qs, i, [], gpu.clock, latency);
    rest := qs[..i] + qs[i + 1..];
    assert rest + [] == rest;
    QueryNodesErase(qs, i);
    assert QueryNodes(rest) == nodes[..i] + nodes[i + 1..];
  }

  /** Draws a leaf found visible: it is marked drawn and visible, and no other flag changes. */
  method MarkDrawn(ghost R: Node, node: Node)
    requires node in R.Repr
    modifies node`renderedThisFrame, node`visible
    ensures VisibleSet(R.Repr) == old(VisibleSet(R.Repr)) + {node}
    ensures RenderedSet(R.Repr) == old(RenderedSet(R.Repr)) + {node}
  {
    node.renderedThisFrame := true;
    node.visible := true;
  }

  /** Shows an interior node found visible: only its `visible` flag changes. */
  method MarkVisible(ghost R: Node, node: Node)
    requires node in R.Repr
    modifies node`visible
    ensures VisibleSet(R.Repr) == old(VisibleSet(R.Repr)) + {node}
    ensures RenderedSet(R.Repr) == old(RenderedSet(R.Repr))
  {
    node.visible := true;
  }

  /**
   * A query whose node is interior and whose samples passed: the node is
   * marked visible, queries for its two children are issued and queued at
   * the end, and its own query is dequeued.
   */
  method ResolveVisibleInterior(ghost R: Node, qs: seq<OcclusionQuery>, i: nat, gpu: Gpu, samplesPassed: Node -> bool, latency: Node -> nat, ghost P: set<Node>)
    returns (rest: seq<OcclusionQuery>)
    requires QueueOk(R, qs, gpu, samplesPassed) && Draining(R, qs, samplesPassed, P) && i < |qs|
    requires !qs[i].node.isLeaf && qs[i].samplesPassed
    modifies qs[i].node`visible
    ensures VisibleSet(R.Repr) == old(VisibleSet(R.Repr)) + {qs[i].node}
    ensures RenderedSet(R.Repr) == old(RenderedSet(R.Repr))
    ensures QueryNodes(rest) == QueryNodes(qs)[..i] + QueryNodes(qs)[i + 1..] + [qs[i].node.left, qs[i].node.right]
    ensures QueueOk(R, rest, gpu, samplesPassed) && Draining(R, rest, samplesPassed, P)
    ensures Pending(rest, gpu.clock, latency) < Pending(qs, gpu.clock, latency)
  {
    var node := qs[i].GetNode();
    assert node.Valid();
    var queryLeft := new OcclusionQuery(node.left, gpu, samplesPassed(node.left), latency(node.left));
    var queryRight := new OcclusionQuery(node.right, gpu, samplesPassed(node.right), latency(node.right));
    ghost var vis := VisibleSet(R.Repr);
    MarkVisible(R, node);
    ghost var nodes := QueryNodes(qs);
    StepVisibleInterior(R, nodes, i, vis, RenderedSet(R.Repr), samplesPassed, P);
    SplitQuery(R, qs, i, queryLeft, queryRight, gpu, samplesPassed, latency, gpu.clock);
    rest := qs[..i] + qs[i + 1..] + [queryLeft, queryRight];
  }

  /**
   * A query whose samples did not pass: the node is hidden together with
   * its subtree and the ancestors `pullUp` hides, and it is dequeued.
   */
  method ResolveOccluded(ghost R: Node, qs: seq<OcclusionQuery>, i: nat, gpu: Gpu, samplesPassed: Node -> bool, latency: Node -> nat, ghost P: set<Node>)
    returns (rest: seq<OcclusionQuery>)
    requires QueueOk(R, qs, gpu, samplesPassed) && Draining(R, qs, samplesPassed, P) && i < |qs|
    requires Wired(R) && R.parent == null && !qs[i].samplesPassed
    modifies R.Repr`visible
    ensures VisibleSet(R.Repr) == Occluded(R, old(VisibleSet(R.Repr)), qs[i].node)
    ensures RenderedSet(R.Repr) == old(RenderedSet(R.Repr))
    ensures rest == qs[..i] + qs[i + 1..]
    ensures QueueOk(R, rest, gpu, samplesPassed) && Draining(R, rest, samplesPassed, P)
    ensures Pending(rest, gpu.clock, latency) < Pending(qs, gpu.clock, latency)
  {
    var node := qs[i].GetNode();
    ghost var vis := VisibleSet(R.Repr);
    Occlude(R, node);
    ghost var nodes := QueryNodes(qs);
    StepOccluded(R, nodes, i, vis, RenderedSet(R.Repr), samplesPassed, P);
    QueueOkRemove(R, qs, i, [], gpu, samplesPassed);
    PendingRemove(qs, i, [], gpu.clock, latency);
    rest := qs[..i] + qs[i + 1..];
    assert rest + [] == rest;
    QueryNodesErase(qs, i);
    assert QueryNodes(rest) == nodes[..i] + nodes[i + 1..];
  }

  /**
   * The answer of a query that has arrived: a passed leaf is drawn, a
   * passed interior node is shown and replaced by its children, and an
   * occluded node is hidden with its subtree and `pullUp` ancestors.  The
   * query is erased and the termination measure drops.
   */
  method ResolveAnswered(ghost R: Node, qs: seq<OcclusionQuery>, i: nat, gpu: Gpu, samplesPassed: Node -> bool, latency: Node -> nat, ghost P: set<Node>)
    returns (rest: seq<OcclusionQuery>)
    requires DrainState(R, qs, gpu, samplesPassed, P) && i < |qs|
    modifies R.Repr`visible, R.Repr`renderedThisFrame
    ensures DrainState(R, rest, gpu, samplesPassed, P)
    ensures Pending(rest, gpu.clock, latency) < Pending(qs, gpu.clock, latency)
    ensures QueryNodes(rest) == QueryNodes(qs)[..i] + QueryNodes(qs)[i + 1..]
      + (if qs[i].samplesPassed && !qs[i].node.isLeaf then [qs[i].node.left, qs[i].node.right] else [])
    ensures qs[i].samplesPassed ==>
      && VisibleSet(R.Repr) == old(VisibleSet(R.Repr)) + {qs[i].node}
      && RenderedSet(R.Repr) == old(RenderedSet(R.Repr)) + (if qs[i].node.isLeaf then {qs[i].node} else {})
    ensures !qs[i].samplesPassed ==>
      && VisibleSet(R.Repr) == Occluded(R, old(VisibleSet(R.Repr)), qs[i].node)
      && RenderedSet(R.Repr) == old(RenderedSet(R.Repr))
  {
    var q := qs[i];
    if q.GetResult() {
      if q.GetNode().isLeaf {
        rest := ResolveVisibleLeaf(R, qs, i, gpu, samplesPassed, latency, P);
        QueryNodesErase(qs, i);
      } else {
        rest := ResolveVisibleInterior(R, qs, i, gpu, samplesPassed, latency, P);
      }
    } else {
      rest := ResolveOccluded(R, qs, i, gpu, samplesPassed, latency, P);
      QueryNodesErase(qs, i);
    }
  }

  /**
   * One step of the walk over the queue: polls the query at `i`, which
   * takes one tick.  If its answer had not arrived the walk moves on to
   * `i + 1` and no flag changes; otherwise the query is resolved and
   * erased, and the walk goes on at `i`, where the next entry now stands.
   * Either way the termination measure drops.
   */
  method DrainStep(ghost R: Node, qs: seq<OcclusionQuery>, i: nat, gpu: Gpu, samplesPassed: Node -> bool, latency: Node -> nat, ghost P: set<Node>)
    returns (rest: seq<OcclusionQuery>, next: nat)
    requires DrainState(R, qs, gpu, samplesPassed, P) && i < |qs|
    modifies gpu`clock, R.Repr`visible, R.Repr`renderedThisFrame
    ensures DrainState(R, rest, gpu, samplesPassed, P)
    ensures next <= |rest|
    ensures Pending(rest, gpu.clock, latency) < Pending(qs, old(gpu.clock), latency)
    ensures old(gpu.clock) < qs[i].readyAt ==> rest == qs && next == i + 1
    ensures old(gpu.clock) < qs[i].readyAt ==>
      VisibleSet(R.Repr) == old(VisibleSet(R.Repr)) && RenderedSet(R.Repr) == old(RenderedSet(R.Repr))
    ensures old(gpu.clock) >= qs[i].readyAt ==> next == i
    ensures old(gpu.clock) >= qs[i].readyAt ==>
      QueryNodes(rest) == QueryNodes(qs)[..i] + QueryNodes(qs)[i + 1..]
        + (if qs[i].samplesPassed && !qs[i].node.isLeaf then [qs[i].node.left, qs[i].node.right] else [])
    ensures old(gpu.clock) >= qs[i].readyAt && qs[i].samplesPassed ==>
      && VisibleSet(R.Repr) == old(VisibleSet(R.Repr)) + {qs[i].node}
      && RenderedSet(R.Repr) == old(RenderedSet(R.Repr)) + (if qs[i].node.isLeaf then {qs[i].node} else {})
    ensures old(gpu.clock) >= qs[i].readyAt && !qs[i].samplesPassed ==>
      && VisibleSet(R.Repr) == Occluded(R, old(VisibleSet(R.Repr)), qs[i].node)
      && RenderedSet(R.Repr) == old(RenderedSet(R.Repr))
  {
    var q := qs[i];
    assert q in qs;
    PendingTick(qs, gpu.clock, latency, i);
    var available := q.IsAvailable();
    if available {
      rest := ResolveAnswered(R, qs, i, gpu, samplesPassed, latency, P);
      next := i;
    } else {
      rest, next := qs, i + 1;
    }
  }

  /** The state the drain loop keeps: the queue and drain invariants over a wired root tree. */
  ghost predicate DrainState(R: Node, qs: seq<OcclusionQuery>, gpu: Gpu, samplesPassed: Node -> bool, P: set<Node>)
    reads R`parent, Below(R)`parent, R.Repr`visible, R.Repr`renderedThisFrame
  {
    QueueOk(R, qs, gpu, samplesPassed) && Draining(R, qs, samplesPassed, P) && Wired(R) && R.parent == null
  }

  /**
   * The drain: `while` queries are pending, walk the queue once.  Every
   * step lowers the termination measure, so the drain ends, and then the
   * drain invariant holds of the empty queue.
   */
  method DrainQueue(ghost R: Node, qs: seq<OcclusionQuery>, gpu: Gpu, samplesPassed: Node -> bool, latency: Node -> nat, ghost P: set<Node>)
    returns (rest: seq<OcclusionQuery>)
    requires QueueOk(R, qs, gpu, samplesPassed) && Draining(R, qs, samplesPassed, P)
    requires Wired(R) && R.parent == null
    modifies gpu`clock, R.Repr`visible, R.Repr`renderedThisFrame
    ensures rest == [] && Draining(R, [], samplesPassed, P)
  {
    rest := qs;
    while rest != []
      invariant DrainState(R, rest, gpu, samplesPassed, P)
      decreases Pending(rest, gpu.clock, latency)
    {
      ghost var before := Pending(rest, gpu.clock, latency);
      ghost var stepped := false;
      var i: nat := 0;
      while i < |rest|
        invariant DrainState(R, rest, gpu, samplesPassed, P)
        invariant i <= |rest|
        invariant stepped ==> Pending(rest, gpu.clock, latency) < before
        invariant !stepped ==> i == 0 && rest != [] && Pending(rest, gpu.clock, latency) == before
        decreases Pending(rest, gpu.clock, latency)
      {
        rest, i := DrainStep(R, rest, i, gpu, samplesPassed, latency, P);
        stepped := true;
      }
    }
  }
}
