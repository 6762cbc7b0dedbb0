/**
 * `calcBorders` of maze/MazeApp.cpp: the top-down pass that gives every
 * interior node of the kd-tree the axis-aligned rectangle of the ground plane
 * it covers, together with the rectangle's centre.  The root gets the fixed
 * square [-32, 32] x [-32, 32]; every other interior node copies its parent's
 * rectangle and clamps one side to the parent's border.  Leaves are skipped.
 */
module Bounds {
  import opened Geometry
  import opened KdNode
  import opened KdBuild

  /** An axis-aligned rectangle of the ground plane. */
  datatype Rect = Rect(xMin: real, xMax: real, yMin: real, yMax: real)

  /** The rectangle the root of the tree is given. */
  const RootRect := Rect(-32.0, 32.0, -32.0, 32.0)

  /** The centre coordinate the source computes from a minimum and a maximum. */
  function Mid(lo: real, hi: real): real
  {
    lo + (hi - lo) / 2.0
  }

  /**
   * The rectangle of a child of an interior node on `axis` with `border`
   * whose own rectangle is `r`: the left child's maximum, or the right
   * child's minimum, on that axis becomes the border.
   */
  function ChildRect(axis: nat, border: real, r: Rect, isLeft: bool): (c: Rect)
    ensures axis == 0 ==> c.yMin == r.yMin && c.yMax == r.yMax
    ensures axis != 0 ==> c.xMin == r.xMin && c.xMax == r.xMax
    ensures isLeft ==> (if axis == 0 then c.xMax else c.yMax) == border
    ensures !isLeft ==> (if axis == 0 then c.xMin else c.yMin) == border
    ensures isLeft ==> (if axis == 0 then c.xMin == r.xMin else c.yMin == r.yMin)
    ensures !isLeft ==> (if axis == 0 then c.xMax == r.xMax else c.yMax == r.yMax)
  {
    if axis == 0 then
      if isLeft then r.(xMax := border) else r.(xMin := border)
    else
      if isLeft then r.(yMax := border) else r.(yMin := border)
  }

  /** The rectangle the bound fields of `m` describe. */
  function RectOf(m: Node): Rect
    reads m`xMin, m`xMax, m`yMin, m`yMax
  {
    Rect(m.xMin, m.xMax, m.yMin, m.yMax)
  }

  /** The interior nodes of the subtree rooted at `n`: the nodes `calcBorders` writes. */
  ghost function Interiors(n: Node?): set<Node>
  {
    set m | m in NodesOf(n) && !m.isLeaf
  }

  /**
   * The rectangle `calcBorders` gives node `m` of the subtree rooted at `n`
   * when `n` itself gets `r`: follow the path from `n` down to `m`, clamping
   * at every step.
   */
  ghost function RectAt(n: Node, r: Rect, m: Node): Rect
    requires n.Valid() && m in n.Repr
    decreases n.Repr
  {
    if m == n || n.isLeaf then r
    else if m in n.left.Repr then RectAt(n.left, ChildRect(n.axis, n.border, r, true), m)
    else RectAt(n.right, ChildRect(n.axis, n.border, r, false), m)
  }

  /**
   * Every interior node of the subtree rooted at `n` holds the rectangle it
   * gets when `n` gets `r`, and the centre of that rectangle.
   */
  ghost predicate HasBounds(n: Node?, r: Rect)
    requires Tree(n)
    reads NodesOf(n)`xMin, NodesOf(n)`xMax, NodesOf(n)`yMin, NodesOf(n)`yMax
    reads NodesOf(n)`centerX, NodesOf(n)`centerY
    decreases NodesOf(n)
  {
    n == null || n.isLeaf ||
    (&& RectOf(n) == r
     && n.centerX == Mid(r.xMin, r.xMax) && n.centerY == Mid(r.yMin, r.yMax)
     && HasBounds(n.left, ChildRect(n.axis, n.border, r, true))
     && HasBounds(n.right, ChildRect(n.axis, n.border, r, false)))
  }

  /** `n` hangs under an interior node that has it as a child. */
  ghost predicate UnderParent(n: Node)
    reads n`parent
  {
    n.parent != null ==> n.parent.Valid() && !n.parent.isLeaf && (n == n.parent.left || n == n.parent.right)
  }

  /**
   * The rectangle `calcBorders` gives a node when it reaches it: the root
   * square without a parent, otherwise the parent's rectangle clamped at the
   * parent's border on the side the node hangs.
   */
  ghost function EntryRect(n: Node): Rect
    reads n`parent, if n.parent == null then {} else {n.parent}
  {
    if n.parent == null then RootRect
    else ChildRect(n.parent.axis, n.parent.border, RectOf(n.parent), n.parent.left == n)
  }

  /**
   * `calcBorders(root)`: writes the bounds and centre of every interior node
   * of the subtree, parents before children, and touches no leaf.
   */
  method CalcBorders(root: Node?)
    requires Tree(root) && Wired(root)
    requires root != null ==> UnderParent(root)
    modifies Interiors(root)`xMin, Interiors(root)`xMax, Interiors(root)`yMin, Interiors(root)`yMax
    modifies Interiors(root)`centerX, Interiors(root)`centerY
    ensures root != null ==> HasBounds(root, old(EntryRect(root)))
    decreases NodesOf(root)
  {
    if root == null || root.isLeaf {
      return;
    }
    SetBounds(root);
    WiredChildren(root);
    CalcBorders(root.left);
    CalcBorders(root.right);
  }

  /**
   * The per-node step of `calcBorders` on an interior node: the root square
   * without a parent, otherwise the parent's bounds with one side replaced
   * by the parent's border; then the centre.
   */
  method SetBounds(root: Node)
    requires UnderParent(root)
    modifies root`xMin, root`xMax, root`yMin, root`yMax, root`centerX, root`centerY
    ensures RectOf(root) == old(EntryRect(root))
    ensures root.centerX == Mid(root.xMin, root.xMax) && root.centerY == Mid(root.yMin, root.yMax)
  {
    if root.parent == null {
      root.xMin := -32.0;
      root.xMax := 32.0;
      root.yMin := -32.0;
      root.yMax := 32.0;
    } else {
      var parent := root.parent;
      if parent.axis == 0 {
        if parent.left == root {
          root.xMax := parent.border;
          root.xMin := parent.xMin;
          root.yMax := parent.yMax;
          root.yMin := parent.yMin;
        } else {
          root.xMax := parent.xMax;
          root.xMin := parent.border;
          root.yMax := parent.yMax;
          root.yMin := parent.yMin;
        }
      } else {
        if parent.left == root {
          root.xMax := parent.xMax;
          root.xMin := parent.xMin;
          root.yMax := parent.border;
          root.yMin := parent.yMin;
        } else {
          root.xMax := parent.xMax;
          root.xMin := parent.xMin;
          root.yMax := parent.yMax;
          root.yMin := parent.border;
        }
      }
    }
    root.centerX := root.xMin + (root.xMax - root.xMin) / 2.0;
    root.centerY := root.yMin + (root.yMax - root.yMin) / 2.0;
  }

  /** Below a wired interior node both children are wired and point back at it. */
  lemma WiredChildren(n: Node)
    requires n.Valid() && !n.isLeaf && Wired(n)
    ensures Wired(n.left) && Wired(n.right)
    ensures n.left.parent == n && n.right.parent == n
    ensures UnderParent(n.left) && UnderParent(n.right)
  {
    forall m, c | m in NodesOf(n.left) && c in Below(n.left) && !m.isLeaf && (c == m.left || c == m.right)
      ensures c.parent == m
    {
      SubtreeValid(n.left, m);
    }
    forall m, c | m in NodesOf(n.right) && c in Below(n.right) && !m.isLeaf && (c == m.left || c == m.right)
      ensures c.parent == m
    {
      SubtreeValid(n.right, m);
    }
  }

  /** What `HasBounds` says about one node: its fields hold `RectAt`, and its centre. */
  lemma {:induction false} BoundsOfNode(n: Node, r: Rect, m: Node)
    requires n.Valid() && HasBounds(n, r) && m in Interiors(n)
    ensures RectOf(m) == RectAt(n, r, m)
    ensures m.centerX == Mid(m.xMin, m.xMax) && m.centerY == Mid(m.yMin, m.yMax)
    decreases n.Repr
  {
    if m != n {
      if m in n.left.Repr {
        BoundsOfNode(n.left, ChildRect(n.axis, n.border, r, true), m);
      } else {
        BoundsOfNode(n.right, ChildRect(n.axis, n.border, r, false), m);
      }
    }
  }

  // ---------------------------------------------------------------------
  // What the rectangles mean on a kd-tree built by `kdTree`

  /** A tile position lies inside the closed rectangle. */
  predicate InRect(p: Point, r: Rect)
  {
    r.xMin <= p.x as real <= r.xMax && r.yMin <= p.y as real <= r.yMax
  }

  /** Every tile of `s` lies inside the rectangle. */
  predicate AllInRect(s: seq<RenderObject>, r: Rect)
  {
    forall x :: x in s ==> InRect(x.position, r)
  }

  /** `inner` lies inside `outer`. */
  predicate Within(inner: Rect, outer: Rect)
  {
    outer.xMin <= inner.xMin && inner.xMax <= outer.xMax && outer.yMin <= inner.yMin && inner.yMax <= outer.yMax
  }

  /** The rectangle is not empty: each minimum is at most its maximum. */
  predicate Proper(r: Rect)
  {
    r.xMin <= r.xMax && r.yMin <= r.yMax
  }

  /** The rectangle of a child is its parent's rectangle clamped at the parent's border. */
  lemma {:induction false} RectAtChild(n: Node, r: Rect, m: Node)
    requires n.Valid() && m in n.Repr && !m.isLeaf
    ensures m.left in n.Repr && m.right in n.Repr
    ensures RectAt(n, r, m.left) == ChildRect(m.axis, m.border, RectAt(n, r, m), true)
    ensures RectAt(n, r, m.right) == ChildRect(m.axis, m.border, RectAt(n, r, m), false)
    decreases n.Repr
  {
    SubtreeValid(n, m);
    if m != n {
      if m in n.left.Repr {
        RectAtChild(n.left, ChildRect(n.axis, n.border, r, true), m);
      } else {
        RectAtChild(n.right, ChildRect(n.axis, n.border, r, false), m);
      }
    }
  }

  /**
   * On a kd-tree whose tiles all lie in `r`, the tiles under every node lie
   * in the rectangle that node gets.
   */
  lemma {:induction false} TilesInside(n: Node, r: Rect, m: Node)
    requires n.Valid() && KdOrdered(n) && AllInRect(LeafData(n), r) && m in n.Repr
    ensures m.Valid() && AllInRect(LeafData(m), RectAt(n, r, m))
    decreases n.Repr
  {
    SubtreeValid(n, m);
    if m != n {
      var rl, rr := ChildRect(n.axis, n.border, r, true), ChildRect(n.axis, n.border, r, false);
      assert LeafData(n) == LeafData(n.left) + LeafData(n.right);
      if m in n.left.Repr {
        assert AllInRect(LeafData(n.left), rl) by {
          forall x | x in LeafData(n.left) ensures InRect(x.position, rl) {
            assert x in LeafData(n);
          }
        }
        TilesInside(n.left, rl, m);
      } else {
        assert AllInRect(LeafData(n.right), rr) by {
          forall x | x in LeafData(n.right) ensures InRect(x.position, rr) {
            assert x in LeafData(n);
          }
        }
        TilesInside(n.right, rr, m);
      }
    }
  }

  /**
   * On a kd-tree whose tiles all lie in `r`, every node's rectangle is
   * proper, and an interior node's border lies inside it, so both children's
   * rectangles nest inside their parent's.
   */
  lemma RectsNest(n: Node, r: Rect, m: Node)
    requires n.Valid() && KdOrdered(n) && AllInRect(LeafData(n), r) && m in n.Repr
    ensures Proper(RectAt(n, r, m))
    ensures !m.isLeaf ==> m.left in n.Repr && m.right in n.Repr
    ensures !m.isLeaf ==> Within(RectAt(n, r, m.left), RectAt(n, r, m)) && Within(RectAt(n, r, m.right), RectAt(n, r, m))
  {
    SubtreeValid(n, m);
    TilesInside(n, r, m);
    LeafCount(m);
    assert LeafData(m)[0] in LeafData(m);
    if !m.isLeaf {
      RectAtChild(n, r, m);
      KdOrderedBelow(n, m);
      LeafCount(m.left);
      LeafCount(m.right);
      var x, y := LeafData(m.left)[0], LeafData(m.right)[0];
      assert x in LeafData(m) && y in LeafData(m);
      assert Coord(x.position, m.axis) as real <= m.border <= Coord(y.position, m.axis) as real;
    }
  }

  /** Every node of a kd-tree separates its own leaves. */
  lemma {:induction false} KdOrderedBelow(n: Node, m: Node)
    requires n.Valid() && KdOrdered(n) && m in n.Repr
    ensures m.Valid() && KdOrdered(m)
    decreases n.Repr
  {
    if m != n {
      if m in n.left.Repr {
        KdOrderedBelow(n.left, m);
      } else {
        KdOrderedBelow(n.right, m);
      }
    }
  }

  /**
   * After `calcBorders` on the root of a kd-tree whose tiles all lie in the
   * root square, every interior node's fields hold a proper rectangle that
   * contains the node's tiles and, for an interior child, the child's
   * rectangle.
   */
  lemma BordersOfBuiltTree(root: Node, m: Node)
    requires root.Valid() && KdOrdered(root) && AllInRect(LeafData(root), RootRect)
    requires HasBounds(root, RootRect) && m in Interiors(root)
    ensures m.Valid() && Proper(RectOf(m)) && AllInRect(LeafData(m), RectOf(m))
    ensures m.centerX == Mid(m.xMin, m.xMax) && m.centerY == Mid(m.yMin, m.yMax)
    ensures !m.left.isLeaf ==> Within(RectOf(m.left), RectOf(m))
    ensures !m.right.isLeaf ==> Within(RectOf(m.right), RectOf(m))
  {
    BoundsOfNode(root, RootRect, m);
    TilesInside(root, RootRect, m);
    RectsNest(root, RootRect, m);
    SubtreeValid(root, m);
    if !m.left.isLeaf {
      BoundsOfNode(root, RootRect, m.left);
    }
    if !m.right.isLeaf {
      BoundsOfNode(root, RootRect, m.right);
    }
  }
}
