/**
 * `pullUp` of maze/MazeApp.cpp: once a node is found hidden, invisibility is
 * propagated up the parent chain for as long as the sibling on the way is
 * hidden too.
 *
 * The parent chain is followed through the `parent` pointers as in the
 * source.  The specification `Climb` follows the same chain structurally
 * from the root of the tree (`ParentIn`), and `WiredParent` shows that the
 * two agree on a wired tree.
 */
module PullUpPass {
  import opened KdNode

  /** The parent of `n` inside the tree rooted at `R`, found from the root down (null for `R` itself). */
  ghost function ParentIn(R: Node, n: Node): (p: Node?)
    requires R.Valid() && n in R.Repr
    ensures p == null <==> n == R
    ensures p != null ==> p in R.Repr && p.Valid() && !p.isLeaf && (n == p.left || n == p.right)
    ensures p != null ==> p.depth + 1 == n.depth && p.depth >= R.depth
    decreases R.Repr
  {
    if n == R then null
    else if n == R.left || n == R.right then R
    else if n in R.left.Repr then ParentIn(R.left, n)
    else ParentIn(R.right, n)
  }

  /** The other child of `n`'s parent. */
  ghost function SiblingIn(R: Node, n: Node): Node
    requires R.Valid() && n in R.Repr && n != R
  {
    var p := ParentIn(R, n);
    if p.left == n then p.right else p.left
  }

  /**
   * The nodes `pullUp(n)` hides when `vis` is the set of visible nodes: if
   * `n` and its sibling are both hidden, the parent, and then whatever the
   * parent's own climb hides once the parent is hidden; nothing otherwise.
   */
  ghost function Climb(R: Node, n: Node, vis: set<Node>): set<Node>
    requires R.Valid() && n in R.Repr
    decreases n.depth
  {
    if n == R then {}
    else
      var p := ParentIn(R, n);
      if n !in vis && SiblingIn(R, n) !in vis then {p} + Climb(R, p, vis - {p}) else {}
  }

  /** On a wired tree whose root has no parent, the `parent` field is `ParentIn`. */
  lemma {:induction false} WiredParent(R: Node, n: Node)
    requires R.Valid() && Wired(R) && R.parent == null && n in R.Repr
    ensures n.parent == ParentIn(R, n)
  {
    if n != R {
      var p := ParentIn(R, n);
      assert n in Below(R);
    }
  }

  /**
   * `pullUp(node)` inside the tree rooted at `R`: the nodes `Climb` names are
   * hidden, and no other flag changes.
   */
  method PullUp(ghost R: Node, node: Node?)
    requires R.Valid() && Wired(R) && R.parent == null
    requires node != null ==> node in R.Repr
    modifies R.Repr`visible
    ensures VisibleSet(R.Repr) == old(VisibleSet(R.Repr)) - (if node == null then {} else Climb(R, node, old(VisibleSet(R.Repr))))
    decreases if node == null then 0 else node.depth
  {
    if node == null {
      return;
    }
    WiredParent(R, node);
    if node.parent == null {
      return;
    }
    if !node.visible {
      var parent := node.parent;
      SubtreeValid(R, parent);
      ghost var vis := VisibleSet(R.Repr);
      assert node !in vis;
      if parent.left == node {
        if !parent.right.visible {
          assert parent.right !in vis && SiblingIn(R, node) == parent.right;
          parent.visible := false;
          assert VisibleSet(R.Repr) == vis - {parent};
          PullUp(R, parent);
        } else {
          assert parent.right in vis;
        }
      } else {
        if !parent.left.visible {
          assert parent.left !in vis && SiblingIn(R, node) == parent.left;
          parent.visible := false;
          assert VisibleSet(R.Repr) == vis - {parent};
          PullUp(R, parent);
        } else {
          assert parent.left in vis;
        }
      }
    }
  }

  /** `pullUp` hides only interior strict ancestors of the node it starts from. */
  lemma {:induction false} ClimbIsAncestors(R: Node, n: Node, vis: set<Node>)
    requires R.Valid() && n in R.Repr
    ensures forall m :: m in Climb(R, n, vis) ==> m in R.Repr && m.Valid() && !m.isLeaf && n in m.Repr && m != n
    decreases n.depth
  {
    if n != R {
      var p := ParentIn(R, n);
      if n !in vis && SiblingIn(R, n) !in vis {
        ClimbIsAncestors(R, p, vis - {p});
        forall m | m in Climb(R, p, vis - {p})
          ensures n in m.Repr && m != n
        {
          SubtreeValid(m, p);
        }
      }
    }
  }

  /**
   * Every node `pullUp` hides has both children hidden afterwards: the
   * invariant that a node is hidden only when nothing below it is seen.
   */
  lemma {:induction false} ClimbChildrenHidden(R: Node, n: Node, vis: set<Node>)
    requires R.Valid() && n in R.Repr && n !in vis
    ensures forall m :: m in Climb(R, n, vis) ==> m.left !in vis - Climb(R, n, vis) && m.right !in vis - Climb(R, n, vis)
    decreases n.depth
  {
    if n != R {
      var p := ParentIn(R, n);
      if SiblingIn(R, n) !in vis {
        ClimbChildrenHidden(R, p, vis - {p});
      }
    }
  }

  /** `pullUp` from a visible node, or from the root, hides nothing. */
  lemma ClimbFromVisible(R: Node, n: Node, vis: set<Node>)
    requires R.Valid() && n in R.Repr && (n in vis || n == R)
    ensures Climb(R, n, vis) == {}
  {
  }
}
