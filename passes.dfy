/**
 * The per-node passes of `render` and `keyPressEvent` in maze/MazeApp.cpp,
 * each an `inOrder` or `frontToBack` walk whose visitor changes a flag.
 *
 * The `inOrder` passes are recursive methods that visit the left subtree,
 * the node and the right subtree; the `frontToBack` passes visit the node
 * and then the near and the far subtree, in the order `FrontToBack` of
 * module KdNode describes.
 */
module Passes {
  import opened Geometry
  import opened KdNode
  import opened PullUpPass
  import opened ChcWalk

  /** The `inOrder` pass of `keyPressEvent` that marks every node visible. */
  method ShowAll(n: Node?)
    requires Tree(n)
    modifies NodesOf(n)`visible
    ensures forall m :: m in NodesOf(n) ==> m.visible
    decreases NodesOf(n)
  {
    if n == null {
      return;
    }
    ShowAll(n.left);
    n.visible := true;
    ShowAll(n.right);
  }

  /** The `inOrder` pass that hides every node of the subtree of an occluded node. */
  method HideSubtree(n: Node?)
    requires Tree(n)
    modifies NodesOf(n)`visible
    ensures forall m :: m in NodesOf(n) ==> !m.visible
    decreases NodesOf(n)
  {
    if n == null {
      return;
    }
    HideSubtree(n.left);
    n.visible := false;
    HideSubtree(n.right);
  }

  /** The `inOrder` pass at the start of a frame that marks every node as not yet drawn. */
  method ClearRendered(n: Node?)
    requires Tree(n)
    modifies NodesOf(n)`renderedThisFrame
    ensures forall m :: m in NodesOf(n) ==> !m.renderedThisFrame
    decreases NodesOf(n)
  {
    if n == null {
      return;
    }
    ClearRendered(n.left);
    n.renderedThisFrame := false;
    ClearRendered(n.right);
  }

  /**
   * The frustum-culling pass: every leaf is made visible exactly when its
   * bounding sphere meets the view frustum, which `inFrustum` decides;
   * interior nodes keep their flag.
   */
  method FrustumCull(n: Node?, inFrustum: Node -> bool)
    requires Tree(n)
    modifies NodesOf(n)`visible
    ensures forall m :: m in NodesOf(n) && m.isLeaf ==> m.visible == inFrustum(m)
    ensures forall m :: m in NodesOf(n) && !m.isLeaf ==> m.visible == old(m.visible)
    decreases NodesOf(n)
  {
    if n == null {
      return;
    }
    FrustumCull(n.left, inFrustum);
    if n.isLeaf {
      n.visible := inFrustum(n);
    }
    FrustumCull(n.right, inFrustum);
  }

  /**
   * What both query loops of `render` do with a node found occluded: hide
   * it, let `pullUp` hide the ancestors that are now hidden on both sides,
   * and hide its whole subtree.
   */
  method Occlude(ghost R: Node, node: Node)
    requires R.Valid() && Wired(R) && R.parent == null && node in R.Repr
    modifies R.Repr`visible
    ensures VisibleSet(R.Repr) == Occluded(R, old(VisibleSet(R.Repr)), node)
  {
    ghost var vis := VisibleSet(R.Repr);
    SubtreeValid(R, node);
    node.visible := false;
    assert VisibleSet(R.Repr) == vis - {node};
    PullUp(R, node);
    ghost var afterPullUp := VisibleSet(R.Repr);
    HideSubtree(node);
    assert VisibleSet(R.Repr) == afterPullUp - node.Repr;
  }

  /**
   * The renderer without occlusion culling: a front-to-back walk that never
   * stops and draws every leaf whose `visible` flag is set.
   */
  method NoCulling(n: Node?, view: Vec2)
    requires Tree(n)
    modifies NodesOf(n)`renderedThisFrame
    ensures forall m :: m in NodesOf(n) ==> (m.renderedThisFrame <==> old(m.renderedThisFrame) || (m.isLeaf && m.visible))
    decreases NodesOf(n)
  {
    if n == null {
      return;
    }
    if n.isLeaf && n.visible {
      n.renderedThisFrame := true;
    }
    var positive := Along(view, n.axis) < n.border;
    if positive {
      NoCulling(n.left, view);
      NoCulling(n.right, view);
    } else {
      NoCulling(n.right, view);
      NoCulling(n.left, view);
    }
  }

  /**
   * The simple occlusion culler: a front-to-back walk that never stops and
   * draws every leaf whose box passes its occlusion query, as
   * `samplesPassed` answers.
   */
  method SimpleOcclusion(n: Node?, view: Vec2, samplesPassed: Node -> bool)
    requires Tree(n)
    modifies NodesOf(n)`renderedThisFrame
    ensures forall m :: m in NodesOf(n) ==> (m.renderedThisFrame <==> old(m.renderedThisFrame) || (m.isLeaf && samplesPassed(m)))
    decreases NodesOf(n)
  {
    if n == null {
      return;
    }
    if n.isLeaf {
      var visible := samplesPassed(n);
      if visible {
        n.renderedThisFrame := true;
      }
    }
    var positive := Along(view, n.axis) < n.border;
    if positive {
      SimpleOcclusion(n.left, view, samplesPassed);
      SimpleOcclusion(n.right, view, samplesPassed);
    } else {
      SimpleOcclusion(n.right, view, samplesPassed);
      SimpleOcclusion(n.left, view, samplesPassed);
    }
  }
}
