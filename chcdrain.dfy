/**
 * The I-queue drain of coherent hierarchical culling in `render` of
 * maze/MazeApp.cpp, as an invariant over the nodes still queued, the
 * visible set and the set of leaves drawn this frame.
 *
 * The invariant says: the queued nodes are distinct nodes of the tree with
 * disjoint subtrees; no leaf below a queued node has been drawn; every other
 * leaf is visible exactly when it has been drawn; a drawn leaf was drawn by
 * the primary pass (the set `P`) or its own query passed; and an undrawn
 * leaf that is no longer queued lies below a node whose query failed.  Each
 * of the three ways the drain resolves a query keeps the invariant, so once
 * the queue is empty every leaf is drawn exactly when it is visible.
 *
 * `Pending` is the termination measure: the polls still needed before each
 * queued answer arrives, plus a weight for each queued node that pays for
 * the queries its descendants may still cause.
 */
module ChcDrain {
  import opened Geometry
  import opened Seqs
  import opened KdNode
  import opened PullUpPass
  import opened ChcWalk
  import opened Occlusion

  /** Leaf `l` lies below a node of the queue `qs`. */
  ghost predicate Queued(qs: seq<Node>, l: Node)
  {
    exists a :: a in qs && l in a.Repr
  }

  /** Leaf `l` lies below a node of the tree whose box the GPU reports as occluded. */
  ghost predicate Culled(R: Node, l: Node, samplesPassed: Node -> bool)
  {
    exists m :: m in R.Repr && l in m.Repr && !samplesPassed(m)
  }

  /** The drain invariant (see the module comment). */
  ghost predicate DrainInv(R: Node, qs: seq<Node>, vis: set<Node>, rend: set<Node>, samplesPassed: Node -> bool, P: set<Node>)
  {
    && R.Valid()
    && (forall a :: a in qs ==> a in R.Repr)
    && NoDup(qs)
    && (forall a, b :: a in qs && b in qs && a != b ==> a.Repr !! b.Repr)
    && rend <= LeavesOf(R)
    && (forall l :: l in LeavesOf(R) && Queued(qs, l) ==> l !in rend)
    && (forall l :: l in LeavesOf(R) && !Queued(qs, l) ==> (l in vis <==> l in rend))
    && (forall l :: l in rend ==> l in P || samplesPassed(l))
    && (forall l :: l in LeavesOf(R) && !Queued(qs, l) && l !in rend ==> Culled(R, l, samplesPassed))
  }

  /** The leaves the primary pass draws when `V` is the visible set. */
  ghost function PrimaryDrawn(R: Node, view: Vec2, V: set<Node>): set<Node>
    requires R.Valid()
  {
    set l | l in VisibleLeaves(PrimaryWalk(R, view, V), V)
  }

  /**
   * The state the primary pass leaves, when no leaf had been drawn before
   * it, satisfies the drain invariant with the invisible nodes it queued.
   */
  lemma PrimaryEstablishes(R: Node, view: Vec2, V: set<Node>, samplesPassed: Node -> bool)
    requires R.Valid()
    ensures DrainInv(R, HiddenOf(PrimaryWalk(R, view, V), V), V, PrimaryDrawn(R, view, V), samplesPassed, PrimaryDrawn(R, view, V))
  {
    var w := PrimaryWalk(R, view, V);
    var qs, rend := HiddenOf(w, V), PrimaryDrawn(R, view, V);
    PrimaryQueueDisjoint(R, view, V);
    PrimaryCoverage(R, view, V);
    FrontToBackWithin(R, view, ChcStop(V));
    assert rend <= LeavesOf(R);
    forall l | l in LeavesOf(R) && Queued(qs, l)
      ensures l !in rend
    {
      var a :| a in qs && l in a.Repr;
    }
    forall l | l in LeavesOf(R) && !Queued(qs, l)
      ensures l in rend && l in V
    {
    }
  }

  /** Resolving a queued leaf whose query passed: it is drawn, made visible and dequeued. */
  lemma StepVisibleLeaf(R: Node, qs: seq<Node>, i: int, vis: set<Node>, rend: set<Node>, samplesPassed: Node -> bool, P: set<Node>)
    requires DrainInv(R, qs, vis, rend, samplesPassed, P) && 0 <= i < |qs|
    requires qs[i].isLeaf && samplesPassed(qs[i])
    ensures DrainInv(R, qs[..i] + qs[i + 1..], vis + {qs[i]}, rend + {qs[i]}, samplesPassed, P)
  {
    var n, qs' := qs[i], qs[..i] + qs[i + 1..];
    RemoveAt(qs, i);
    SubtreeValid(R, n);
    assert n in LeavesOf(R);
    forall l | l in LeavesOf(R) && Queued(qs', l)
      ensures Queued(qs, l) && l != n
    {
      var a :| a in qs' && l in a.Repr;
    }
    forall l | l in LeavesOf(R) && !Queued(qs', l) && l != n
      ensures !Queued(qs, l)
    {
      forall a | a in qs
        ensures l !in a.Repr
      {
        if a != n {
          assert a in qs';
        }
      }
    }
  }

  /** Resolving a queued interior node whose query passed: it is made visible and replaced by its two children. */
  lemma StepVisibleInterior(R: Node, qs: seq<Node>, i: int, vis: set<Node>, rend: set<Node>, samplesPassed: Node -> bool, P: set<Node>)
    requires DrainInv(R, qs, vis, rend, samplesPassed, P) && 0 <= i < |qs|
    requires !qs[i].isLeaf
    ensures qs[i].Valid()
    ensures DrainInv(R, qs[..i] + qs[i + 1..] + [qs[i].left, qs[i].right], vis + {qs[i]}, rend, samplesPassed, P)
  {
    var n, rest := qs[i], qs[..i] + qs[i + 1..];
    var qs' := rest + [n.left, n.right];
    RemoveAt(qs, i);
    SubtreeValid(R, n);
    SubtreeValid(R, n.left);
    SubtreeValid(R, n.right);
    forall a | a in rest
      ensures a.Repr !! n.Repr && a != n.left && a != n.right
    {
      SubtreeValid(R, a);
    }
    NoDupConcat(rest, [n.left, n.right]);
    forall a | a in qs'
      ensures a in R.Repr
    {
    }
    forall a, b | a in qs' && b in qs' && a != b
      ensures a.Repr !! b.Repr
    {
    }
    forall l | l in LeavesOf(R)
      ensures Queued(qs', l) <==> Queued(qs, l)
    {
      if Queued(qs', l) {
        var a :| a in qs' && l in a.Repr;
        if a == n.left || a == n.right {
          assert n in qs && l in n.Repr;
        }
      }
      if Queued(qs, l) {
        var a :| a in qs && l in a.Repr;
        if a == n {
          assert l in n.left.Repr || l in n.right.Repr;
        } else {
          assert a in qs';
        }
      }
    }
  }

  /** Resolving a queued node whose query failed: it, its subtree and the ancestors `pullUp` names are hidden, and it is dequeued. */
  lemma StepOccluded(R: Node, qs: seq<Node>, i: int, vis: set<Node>, rend: set<Node>, samplesPassed: Node -> bool, P: set<Node>)
    requires DrainInv(R, qs, vis, rend, samplesPassed, P) && 0 <= i < |qs|
    requires !samplesPassed(qs[i])
    ensures DrainInv(R, qs[..i] + qs[i + 1..], Occluded(R, vis, qs[i]), rend, samplesPassed, P)
  {
    var n, qs' := qs[i], qs[..i] + qs[i + 1..];
    var vis' := Occluded(R, vis, n);
    RemoveAt(qs, i);
    OccludedEffect(R, vis, n);
    forall l | l in LeavesOf(R) && Queued(qs', l)
      ensures Queued(qs, l)
    {
      var a :| a in qs' && l in a.Repr;
    }
    forall l | l in LeavesOf(R) && !Queued(qs', l)
      ensures l in vis' <==> l in rend
      ensures l !in rend ==> Culled(R, l, samplesPassed)
    {
      if l in n.Repr {
        assert Queued(qs, l);
      } else {
        forall a | a in qs
          ensures l !in a.Repr
        {
          if a != n {
            assert a in qs';
          }
        }
      }
    }
  }

  /**
   * Once the queue is empty: every leaf is drawn exactly when it is
   * visible, every drawn leaf was drawn by the primary pass or passed its
   * own query, and every leaf not drawn lies below a node found occluded.
   */
  lemma DrainFinished(R: Node, vis: set<Node>, rend: set<Node>, samplesPassed: Node -> bool, P: set<Node>)
    requires DrainInv(R, [], vis, rend, samplesPassed, P)
    ensures forall l :: l in LeavesOf(R) ==> (l in rend <==> l in vis)
    ensures forall l :: l in rend ==> l in LeavesOf(R) && (l in P || samplesPassed(l))
    ensures forall l :: l in LeavesOf(R) && l !in rend ==> Culled(R, l, samplesPassed)
  {
    forall l | l in LeavesOf(R)
      ensures !Queued([], l)
    {
    }
  }

  // ---------------------------------------------------------------------
  // The termination measure

  /**
   * What a queued node may still cost the drain: one step for itself and,
   * for an interior node, the wait and the cost of querying each child.
   */
  ghost function Weight(n: Node, latency: Node -> nat): (w: nat)
    requires n.Valid()
    ensures w >= 1
    decreases n.Repr
  {
    if n.isLeaf then 1
    else 1 + latency(n.left) + Weight(n.left, latency) + latency(n.right) + Weight(n.right, latency)
  }

  /** The polls still needed before the answer of `q` arrives. */
  ghost function Wait(q: OcclusionQuery, clock: nat): nat
  {
    if q.readyAt > clock then q.readyAt - clock else 0
  }

  /** Every query of `qs` is issued for the root of a well-formed subtree. */
  ghost predicate AllValid(qs: seq<OcclusionQuery>)
  {
    forall q :: q in qs ==> q.node.Valid()
  }

  /** The drain's termination measure for the queue `qs` at time `clock`. */
  ghost function Pending(qs: seq<OcclusionQuery>, clock: nat, latency: Node -> nat): nat
    requires AllValid(qs)
  {
    if qs == [] then 0
    else Wait(qs[0], clock) + Weight(qs[0].node, latency) + Pending(qs[1..], clock, latency)
  }

  /** The measure of a queue made of two parts is the sum of theirs. */
  lemma {:induction false} PendingConcat(a: seq<OcclusionQuery>, b: seq<OcclusionQuery>, clock: nat, latency: Node -> nat)
    requires AllValid(a) && AllValid(b)
    ensures AllValid(a + b)
    ensures Pending(a + b, clock, latency) == Pending(a, clock, latency) + Pending(b, clock, latency)
  {
    if a != [] {
      assert (a + b)[0] == a[0] && (a + b)[1..] == a[1..] + b;
      PendingConcat(a[1..], b, clock, latency);
    } else {
      assert a + b == b;
    }
  }

  /**
   * A poll never raises the measure, and lowers it when the query at `k` was
   * still waiting.
   */
  lemma {:induction false} PendingTick(qs: seq<OcclusionQuery>, clock: nat, latency: Node -> nat, k: int)
    requires AllValid(qs) && 0 <= k < |qs|
    ensures Pending(qs, clock + 1, latency) + (if qs[k].readyAt > clock then 1 else 0) <= Pending(qs, clock, latency)
  {
    if k == 0 {
      if |qs| > 1 {
        PendingTick(qs[1..], clock, latency, 0);
      }
    } else {
      PendingTick(qs[1..], clock, latency, k - 1);
    }
  }

  /**
   * Dequeuing the query at `i` and queuing `extra` changes the measure by the
   * removed query's share and the measure of `extra`.
   */
  lemma PendingRemove(qs: seq<OcclusionQuery>, i: int, extra: seq<OcclusionQuery>, clock: nat, latency: Node -> nat)
    requires AllValid(qs) && AllValid(extra) && 0 <= i < |qs|
    ensures AllValid(qs[..i] + qs[i + 1..] + extra)
    ensures Pending(qs[..i] + qs[i + 1..] + extra, clock, latency) + Wait(qs[i], clock) + Weight(qs[i].node, latency)
         == Pending(qs, clock, latency) + Pending(extra, clock, latency)
  {
    assert qs == qs[..i] + ([qs[i]] + qs[i + 1..]);
    assert AllValid(qs[..i]) && AllValid(qs[i + 1..]);
    PendingConcat([qs[i]], qs[i + 1..], clock, latency);
    PendingConcat(qs[..i], [qs[i]] + qs[i + 1..], clock, latency);
    PendingConcat(qs[..i], qs[i + 1..], clock, latency);
    PendingConcat(qs[..i] + qs[i + 1..], extra, clock, latency);
  }

  /**
   * The two queries issued for the children of a node found visible, at the
   * time they are issued, weigh what the node's weight reserved for them.
   */
  lemma PendingPair(ql: OcclusionQuery, qr: OcclusionQuery, clock: nat, latency: Node -> nat)
    requires ql.node.Valid() && qr.node.Valid()
    requires ql.readyAt == clock + latency(ql.node) && qr.readyAt == clock + latency(qr.node)
    ensures AllValid([ql, qr])
    ensures Pending([ql, qr], clock, latency) == latency(ql.node) + Weight(ql.node, latency) + latency(qr.node) + Weight(qr.node, latency)
  {
    assert [ql, qr][1..] == [qr] && [qr][1..] == [];
    assert Pending([qr], clock, latency) == Wait(qr, clock) + Weight(qr.node, latency) + Pending([], clock, latency);
    assert Pending([ql, qr], clock, latency) == Wait(ql, clock) + Weight(ql.node, latency) + Pending([qr], clock, latency);
  }

  /** The nodes of a queue after dequeuing at `i` and queuing `extra`. */
  lemma QueryNodesRemove(qs: seq<OcclusionQuery>, i: int, extra: seq<OcclusionQuery>)
    requires 0 <= i < |qs|
    ensures QueryNodes(qs[..i] + qs[i + 1..] + extra) == QueryNodes(qs)[..i] + QueryNodes(qs)[i + 1..] + QueryNodes(extra)
  {
  }

  /** The nodes of a queue after dequeuing at `i`. */
  lemma QueryNodesErase(qs: seq<OcclusionQuery>, i: int)
    requires 0 <= i < |qs|
    ensures QueryNodes(qs[..i] + qs[i + 1..]) == QueryNodes(qs)[..i] + QueryNodes(qs)[i + 1..]
  {
  }
}
