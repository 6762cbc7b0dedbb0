/**
 * The kd-tree node of maze/MazeApp.hpp and the two traversal templates
 * `inOrder` and `frontToBack`.
 *
 * A `Node` is a heap object as in the source.  The fields that the source
 * never changes after a node is built (its tile, axis, depth, border,
 * children and leaf flag) are `const`; the fields it does change are `var`:
 * the parent back-pointer (wired once by `kdTree`), the per-frame flags
 * `visible` and `renderedThisFrame`, and the bounds written by `calcBorders`.
 * The ghost `Repr` is the set of nodes of the subtree rooted at the node.
 */
module KdNode {
  import opened Geometry
  import opened Seqs

  class Node {
    const data: RenderObject
    const axis: nat
    const depth: nat
    const border: real
    const left: Node?
    const right: Node?
    const isLeaf: bool
    ghost const Repr: set<Node>

    var parent: Node?
    var visible: bool
    var renderedThisFrame: bool
    var xMin: real
    var xMax: real
    var yMin: real
    var yMax: real
    var centerX: real
    var centerY: real

    /**
     * The subtree is a strict binary tree: a leaf has no children, an
     * interior node has two children with disjoint subtrees one level deeper.
     */
    ghost predicate Valid()
      decreases Repr
    {
      && this in Repr
      && (isLeaf ==> left == null && right == null && Repr == {this})
      && (!isLeaf ==>
            && left != null && right != null
            && left.Repr < Repr && right.Repr < Repr
            && this !in left.Repr && this !in right.Repr
            && left.Repr !! right.Repr
            && Repr == {this} + left.Repr + right.Repr
            && left.depth == depth + 1 && right.depth == depth + 1
            && left.Valid() && right.Valid())
    }

    /** A fresh leaf for one tile: visible, not yet drawn, no parent and no children. */
    constructor Leaf(data: RenderObject, depth: nat)
      ensures Valid() && isLeaf && Repr == {this}
      ensures this.data == data && this.depth == depth
      ensures left == null && right == null && parent == null
      ensures visible && !renderedThisFrame
    {
      this.data := data;
      this.axis := 0;
      this.depth := depth;
      this.border := 0.0;
      this.left := null;
      this.right := null;
      this.isLeaf := true;
      this.Repr := {this};
      this.parent := null;
      this.visible := true;
      this.renderedThisFrame := false;
    }

    /** A fresh interior node over two built subtrees: invisible, not yet drawn, no parent. */
    constructor Interior(axis: nat, depth: nat, border: real, left: Node, right: Node)
      requires left.Valid() && right.Valid() && left.Repr !! right.Repr
      requires left.depth == depth + 1 && right.depth == depth + 1
      ensures Valid() && !isLeaf
      ensures this.axis == axis && this.depth == depth && this.border == border
      ensures this.left == left && this.right == right
      ensures Repr == {this} + left.Repr + right.Repr
      ensures parent == null && !visible && !renderedThisFrame
    {
      this.data := RenderObject(Point(0, 0), Empty);
      this.axis := axis;
      this.depth := depth;
      this.border := border;
      this.left := left;
      this.right := right;
      this.isLeaf := false;
      this.Repr := {this} + left.Repr + right.Repr;
      this.parent := null;
      this.visible := false;
      this.renderedThisFrame := false;
    }
  }

  /** The nodes of the subtree rooted at `n` (none for a null pointer). */
  ghost function NodesOf(n: Node?): set<Node>
  {
    if n == null then {} else n.Repr
  }

  /** `n` is null or the root of a well-formed subtree. */
  ghost predicate Tree(n: Node?)
  {
    n != null ==> n.Valid()
  }

  /** The leaves of the subtree rooted at `n`. */
  ghost function LeavesOf(n: Node?): set<Node>
  {
    set m | m in NodesOf(n) && m.isLeaf
  }

  /** The nodes of `S` whose `visible` flag is set. */
  ghost function VisibleSet(S: set<Node>): set<Node>
    reads S`visible
  {
    set m | m in S && m.visible
  }

  /** The nodes of `S` drawn in the current frame. */
  ghost function RenderedSet(S: set<Node>): set<Node>
    reads S`renderedThisFrame
  {
    set m | m in S && m.renderedThisFrame
  }

  /** The nodes strictly below `n`. */
  ghost function Below(n: Node?): set<Node>
  {
    if n == null then {} else n.Repr - {n}
  }

  /**
   * Every child's `parent` pointer points back at its parent.  The root's
   * own `parent` is not part of this: a subtree stays wired when it is hung
   * under a new parent.
   */
  ghost predicate Wired(n: Node?)
    reads Below(n)`parent
  {
    forall m, c :: m in NodesOf(n) && c in Below(n) && !m.isLeaf && (c == m.left || c == m.right) ==> c.parent == m
  }

  /** The order in which `inOrder` (maze/MazeApp.hpp) applies its visitor. */
  function InOrder(n: Node?): (r: seq<Node>)
    requires Tree(n)
    decreases NodesOf(n)
  {
    if n == null then [] else InOrder(n.left) + [n] + InOrder(n.right)
  }

  /** The tiles of the leaves of `n`, left to right. */
  function LeafData(n: Node?): (r: seq<RenderObject>)
    requires Tree(n)
    decreases NodesOf(n)
  {
    if n == null then []
    else if n.isLeaf then [n.data]
    else LeafData(n.left) + LeafData(n.right)
  }

  /**
   * The order in which `frontToBack` (maze/MazeApp.hpp) applies a visitor
   * that answers `stop`: the node first, then, unless the visitor asked to
   * stop, the child on the viewer's side of the border before the other one.
   * `view` is the viewer's position on the ground plane.
   */
  function FrontToBack(n: Node?, view: Vec2, stop: Node -> bool): (r: seq<Node>)
    requires Tree(n)
    decreases NodesOf(n)
  {
    if n == null then []
    else
      var positive := Along(view, n.axis) < n.border;
      if !stop(n) && positive then
        [n] + FrontToBack(n.left, view, stop) + FrontToBack(n.right, view, stop)
      else if !stop(n) && !positive then
        [n] + FrontToBack(n.right, view, stop) + FrontToBack(n.left, view, stop)
      else
        [n]
  }

  // ---------------------------------------------------------------------
  // Facts about the shape of a valid subtree

  /** Every node of a valid subtree roots a valid subtree of its own, nested inside. */
  lemma {:induction false} SubtreeValid(n: Node, m: Node)
    requires n.Valid() && m in n.Repr
    ensures m.Valid() && m.Repr <= n.Repr && m.depth >= n.depth
    ensures m != n ==> m.depth > n.depth && n !in m.Repr
    decreases n.Repr
  {
    if m != n {
      if m in n.left.Repr {
        SubtreeValid(n.left, m);
      } else {
        SubtreeValid(n.right, m);
      }
    }
  }

  /** A subtree has as many leaves as it has tiles, and a non-null one has at least one. */
  lemma {:induction false} LeafCount(n: Node?)
    requires Tree(n)
    ensures |LeavesOf(n)| == |LeafData(n)|
    ensures n != null ==> |LeafData(n)| >= 1
    decreases NodesOf(n)
  {
    if n != null && !n.isLeaf {
      LeafCount(n.left);
      LeafCount(n.right);
      assert LeavesOf(n) == LeavesOf(n.left) + LeavesOf(n.right);
      assert LeavesOf(n.left) !! LeavesOf(n.right);
    } else if n != null {
      assert LeavesOf(n) == {n};
    }
  }

  // ---------------------------------------------------------------------
  // inOrder

  /** `inOrder` applies its visitor only to nodes of the subtree. */
  lemma {:induction false} InOrderWithin(n: Node?)
    requires Tree(n)
    ensures forall m :: m in InOrder(n) ==> m in NodesOf(n)
    decreases NodesOf(n)
  {
    if n != null {
      InOrderWithin(n.left);
      InOrderWithin(n.right);
    }
  }

  /** `inOrder` applies its visitor to every node of the subtree exactly once. */
  lemma {:induction false} InOrderVisitsEachOnce(n: Node?)
    requires Tree(n)
    ensures forall m :: m in InOrder(n) ==> m in NodesOf(n)
    ensures forall m :: m in NodesOf(n) ==> m in InOrder(n)
    ensures NoDup(InOrder(n))
    decreases NodesOf(n)
  {
    if n != null {
      var l, r := InOrder(n.left), InOrder(n.right);
      InOrderVisitsEachOnce(n.left);
      InOrderVisitsEachOnce(n.right);
      NoDupConcat(l, [n]);
      forall x | x in l + [n]
        ensures x !in r
      {
        if x in l {
          assert x in NodesOf(n.left);
        }
      }
      NoDupConcat(l + [n], r);
    }
  }

  /** Where the elements of a left, middle, right concatenation come from. */
  lemma PositionInConcat(s: seq<Node>, l: seq<Node>, n: Node, r: seq<Node>, i: int)
    requires s == l + [n] + r && 0 <= i < |s|
    ensures i < |l| ==> s[i] == l[i] && s[i] in l
    ensures i == |l| ==> s[i] == n
    ensures i > |l| ==> s[i] == r[i - |l| - 1] && s[i] in r
  {
  }

  /** `inOrder` visits a node after its whole left subtree and before its whole right subtree. */
  lemma {:induction false} InOrderSymmetric(n: Node?, m: Node, i: int, j: int)
    requires Tree(n) && m in NodesOf(n) && m.Valid() && !m.isLeaf
    requires 0 <= i < |InOrder(n)| && 0 <= j < |InOrder(n)| && InOrder(n)[j] == m
    ensures InOrder(n)[i] in m.left.Repr ==> i < j
    ensures InOrder(n)[i] in m.right.Repr ==> j < i
    decreases NodesOf(n)
  {
    var s, l, r := InOrder(n), InOrder(n.left), InOrder(n.right);
    InOrderWithin(n.left);
    InOrderWithin(n.right);
    PositionInConcat(s, l, n, r, i);
    PositionInConcat(s, l, n, r, j);
    if m != n {
      if m in n.left.Repr {
        SubtreeValid(n.left, m);
        assert j < |l|;
        InOrderSymmetric(n.left, m, if i < |l| then i else 0, j);
      } else {
        SubtreeValid(n.right, m);
        assert j > |l|;
        InOrderSymmetric(n.right, m, if i > |l| then i - |l| - 1 else 0, j - |l| - 1);
      }
    }
  }

  // ---------------------------------------------------------------------
  // frontToBack

  /** The child `frontToBack` descends into first: the one on the viewer's side of the border. */
  function NearChild(n: Node, view: Vec2): Node?
  {
    if Along(view, n.axis) < n.border then n.left else n.right
  }

  /** The child `frontToBack` descends into second. */
  function FarChild(n: Node, view: Vec2): Node?
  {
    if Along(view, n.axis) < n.border then n.right else n.left
  }

  /** A visitor that never asks to stop (the plain renderer and the simple occlusion culler). */
  function NeverStop(): Node -> bool
  {
    (m: Node) => false
  }

  /** The walk is the node itself followed, unless the visitor stopped, by the near and then the far subtree. */
  lemma FrontToBackUnfold(n: Node, view: Vec2, stop: Node -> bool)
    requires n.Valid()
    ensures NearChild(n, view) == n.left || NearChild(n, view) == n.right
    ensures FarChild(n, view) == (if NearChild(n, view) == n.left then n.right else n.left)
    ensures Tree(NearChild(n, view)) && Tree(FarChild(n, view))
    ensures NodesOf(NearChild(n, view)) !! NodesOf(FarChild(n, view))
    ensures n !in NodesOf(NearChild(n, view)) && n !in NodesOf(FarChild(n, view))
    ensures NodesOf(NearChild(n, view)) + NodesOf(FarChild(n, view)) + {n} == n.Repr
    ensures FrontToBack(n, view, stop) ==
      if stop(n) then [n]
      else [n] + FrontToBack(NearChild(n, view), view, stop) + FrontToBack(FarChild(n, view), view, stop)
  {
  }

  /** `frontToBack` visits only nodes of the subtree. */
  lemma {:induction false} FrontToBackWithin(n: Node?, view: Vec2, stop: Node -> bool)
    requires Tree(n)
    ensures forall m :: m in FrontToBack(n, view, stop) ==> m in NodesOf(n)
    decreases NodesOf(n)
  {
    if n != null {
      FrontToBackUnfold(n, view, stop);
      if !stop(n) {
        FrontToBackWithin(NearChild(n, view), view, stop);
        FrontToBackWithin(FarChild(n, view), view, stop);
      }
    }
  }

  /** `frontToBack` visits only nodes of the subtree, each at most once, the root first. */
  lemma {:induction false} FrontToBackVisitsOnce(n: Node?, view: Vec2, stop: Node -> bool)
    requires Tree(n)
    ensures forall m :: m in FrontToBack(n, view, stop) ==> m in NodesOf(n)
    ensures NoDup(FrontToBack(n, view, stop))
    ensures n == null <==> FrontToBack(n, view, stop) == []
    ensures n != null ==> FrontToBack(n, view, stop)[0] == n
    decreases NodesOf(n)
  {
    if n != null {
      FrontToBackUnfold(n, view, stop);
      if !stop(n) {
        var a, b := NearChild(n, view), FarChild(n, view);
        var fa, fb := FrontToBack(a, view, stop), FrontToBack(b, view, stop);
        FrontToBackVisitsOnce(a, view, stop);
        FrontToBackVisitsOnce(b, view, stop);
        forall x | x in [n] + fa
          ensures x !in fb
        {
          if x in fa {
            assert x in NodesOf(a);
          }
        }
        NoDupConcat([n], fa);
        NoDupConcat([n] + fa, fb);
      }
    }
  }

  /** Where a position of `[n] + fa + fb` points. */
  lemma PositionInWalk(s: seq<Node>, n: Node, fa: seq<Node>, fb: seq<Node>, i: int)
    requires s == [n] + fa + fb && 0 <= i < |s|
    ensures i == 0 ==> s[i] == n
    ensures 0 < i <= |fa| ==> s[i] == fa[i - 1] && s[i] in fa
    ensures i > |fa| ==> s[i] == fb[i - 1 - |fa|] && s[i] in fb
  {
  }

  /** The visitor is applied to a node before it is applied to any of the node's descendants. */
  lemma {:induction false} FrontToBackParentFirst(n: Node?, view: Vec2, stop: Node -> bool, i: int, j: int)
    requires Tree(n)
    requires 0 <= i < |FrontToBack(n, view, stop)| && 0 <= j < |FrontToBack(n, view, stop)|
    requires FrontToBack(n, view, stop)[j] in FrontToBack(n, view, stop)[i].Repr
    ensures i <= j
    decreases NodesOf(n), 1
  {
    if i != 0 {
      var s := FrontToBack(n, view, stop);
      FrontToBackUnfold(n, view, stop);
      var a, b := NearChild(n, view), FarChild(n, view);
      var fa, fb := FrontToBack(a, view, stop), FrontToBack(b, view, stop);
      assert s == [n] + fa + fb;
      FrontToBackWithin(a, view, stop);
      FrontToBackWithin(b, view, stop);
      PositionInWalk(s, n, fa, fb, i);
      PositionInWalk(s, n, fa, fb, j);
      if i <= |fa| {
        ParentFirstInPart(a, b, n, s[i], s[j]);
        ParentFirstDescend(a, view, stop, s, 1, i, j);
      } else {
        ParentFirstInPart(b, a, n, s[i], s[j]);
        ParentFirstDescend(b, view, stop, s, 1 + |fa|, i, j);
      }
    }
  }

  /** Moves the parent-first question into the child walk that starts at offset `k` of `s`. */
  lemma {:induction false} ParentFirstDescend(c: Node?, view: Vec2, stop: Node -> bool, s: seq<Node>, k: int, i: int, j: int)
    requires Tree(c)
    requires 0 <= k && k + |FrontToBack(c, view, stop)| <= |s|
    requires s[k..k + |FrontToBack(c, view, stop)|] == FrontToBack(c, view, stop)
    requires k <= i < k + |FrontToBack(c, view, stop)| && k <= j < k + |FrontToBack(c, view, stop)|
    requires s[j] in s[i].Repr
    ensures i <= j
    decreases NodesOf(c), 2
  {
    var fc := FrontToBack(c, view, stop);
    assert fc[i - k] == s[i] && fc[j - k] == s[j];
    FrontToBackParentFirst(c, view, stop, i - k, j - k);
  }

  /** A descendant of a node of one child's subtree lies in that subtree too. */
  lemma ParentFirstInPart(c: Node?, other: Node?, n: Node, x: Node, y: Node)
    requires Tree(c) && x in NodesOf(c) && y in x.Repr
    requires NodesOf(c) !! NodesOf(other) && n !in NodesOf(c)
    ensures y in NodesOf(c) && y != n && y !in NodesOf(other)
  {
    SubtreeValid(c, x);
  }

  /** When the visitor answers true for a node, no strict descendant of that node is visited. */
  lemma {:induction false} FrontToBackEarlyStop(n: Node?, view: Vec2, stop: Node -> bool, m: Node)
    requires Tree(n) && m in FrontToBack(n, view, stop) && stop(m)
    ensures forall d :: d in FrontToBack(n, view, stop) && d in m.Repr ==> d == m
    decreases NodesOf(n)
  {
    FrontToBackUnfold(n, view, stop);
    if m != n {
      var a, b := NearChild(n, view), FarChild(n, view);
      var fa, fb := FrontToBack(a, view, stop), FrontToBack(b, view, stop);
      FrontToBackWithin(a, view, stop);
      FrontToBackWithin(b, view, stop);
      if m in fa {
        SubtreeValid(a, m);
        FrontToBackEarlyStop(a, view, stop, m);
        forall d | d in fb
          ensures d !in m.Repr
        {
          assert d in NodesOf(b);
        }
      } else {
        SubtreeValid(b, m);
        FrontToBackEarlyStop(b, view, stop, m);
        forall d | d in fa
          ensures d !in m.Repr
        {
          assert d in NodesOf(a);
        }
      }
    }
  }

  /**
   * At an interior node, the whole subtree on the viewer's side is visited
   * before the whole other subtree: left before right exactly when the
   * viewer's coordinate on the node's axis is below the border.
   */
  lemma {:induction false} FrontToBackChildOrder(n: Node?, view: Vec2, stop: Node -> bool, m: Node, i: int, j: int)
    requires Tree(n) && m in NodesOf(n) && m.Valid() && !m.isLeaf
    requires 0 <= i < |FrontToBack(n, view, stop)| && 0 <= j < |FrontToBack(n, view, stop)|
    requires FrontToBack(n, view, stop)[i] in m.left.Repr && FrontToBack(n, view, stop)[j] in m.right.Repr
    ensures i < j <==> Along(view, m.axis) < m.border
    decreases NodesOf(n), 1
  {
    var s := FrontToBack(n, view, stop);
    FrontToBackUnfold(n, view, stop);
    SubtreeValid(n, m);
    if !stop(n) {
      var a, b := NearChild(n, view), FarChild(n, view);
      var fa, fb := FrontToBack(a, view, stop), FrontToBack(b, view, stop);
      FrontToBackWithin(a, view, stop);
      FrontToBackWithin(b, view, stop);
      assert s == [n] + fa + fb;
      PositionInWalk(s, n, fa, fb, i);
      PositionInWalk(s, n, fa, fb, j);
      if m == n {
        ChildOrderAtNode(n, view, fa, fb, s, i, j);
      } else if m in NodesOf(a) {
        ChildOrderBelow(a, b, n, m, s[i], s[j]);
        ChildOrderDescend(a, view, stop, m, s, 1, i, j);
      } else {
        ChildOrderBelow(b, a, n, m, s[i], s[j]);
        ChildOrderDescend(b, view, stop, m, s, 1 + |fa|, i, j);
      }
    }
  }

  /** Moves the child-order question into the child walk that starts at offset `k` of `s`. */
  lemma {:induction false} ChildOrderDescend(c: Node?, view: Vec2, stop: Node -> bool, m: Node, s: seq<Node>, k: int, i: int, j: int)
    requires Tree(c) && m in NodesOf(c) && m.Valid() && !m.isLeaf
    requires 0 <= k && k + |FrontToBack(c, view, stop)| <= |s|
    requires s[k..k + |FrontToBack(c, view, stop)|] == FrontToBack(c, view, stop)
    requires k <= i < k + |FrontToBack(c, view, stop)| && k <= j < k + |FrontToBack(c, view, stop)|
    requires s[i] in m.left.Repr && s[j] in m.right.Repr
    ensures i < j <==> Along(view, m.axis) < m.border
    decreases NodesOf(c), 2
  {
    var fc := FrontToBack(c, view, stop);
    assert fc[i - k] == s[i] && fc[j - k] == s[j];
    FrontToBackChildOrder(c, view, stop, m, i - k, j - k);
  }

  /** The child-order fact at the node where the two subtrees meet. */
  lemma ChildOrderAtNode(n: Node, view: Vec2, fa: seq<Node>, fb: seq<Node>, s: seq<Node>, i: int, j: int)
    requires n.Valid() && !n.isLeaf && s == [n] + fa + fb
    requires forall x :: x in fa ==> x in NodesOf(NearChild(n, view))
    requires forall x :: x in fb ==> x in NodesOf(FarChild(n, view))
    requires 0 <= i < |s| && 0 <= j < |s| && s[i] in n.left.Repr && s[j] in n.right.Repr
    requires 0 < i <= |fa| ==> s[i] in fa
    requires i > |fa| ==> s[i] in fb
    requires 0 < j <= |fa| ==> s[j] in fa
    requires j > |fa| ==> s[j] in fb
    ensures i < j <==> Along(view, n.axis) < n.border
  {
    assert s[0] == n;
  }

  /** Two nodes below `m` inside one child's subtree stay inside that subtree. */
  lemma ChildOrderBelow(c: Node?, other: Node?, n: Node, m: Node, x: Node, y: Node)
    requires Tree(c) && m in NodesOf(c) && m.Valid() && !m.isLeaf
    requires x in m.left.Repr || x in m.right.Repr
    requires y in m.left.Repr || y in m.right.Repr
    requires NodesOf(c) !! NodesOf(other) && n !in NodesOf(c)
    ensures x in NodesOf(c) && x != n && x !in NodesOf(other)
    ensures y in NodesOf(c) && y != n && y !in NodesOf(other)
  {
    SubtreeValid(c, m);
  }

  /** Every node of the subtree is visited, or lies under a visited node at which the visitor stopped. */
  lemma {:induction false} FrontToBackReaches(n: Node?, view: Vec2, stop: Node -> bool, m: Node)
    requires Tree(n) && m in NodesOf(n)
    ensures m in FrontToBack(n, view, stop) ||
            exists a :: a in FrontToBack(n, view, stop) && stop(a) && m in a.Repr && a != m
    decreases NodesOf(n)
  {
    FrontToBackUnfold(n, view, stop);
    if m != n && !stop(n) {
      var a, b := NearChild(n, view), FarChild(n, view);
      if m in NodesOf(a) {
        FrontToBackReaches(a, view, stop, m);
      } else {
        FrontToBackReaches(b, view, stop, m);
      }
    }
  }

  /** With a visitor that never stops, `frontToBack` visits exactly the nodes `inOrder` visits, each once. */
  lemma FrontToBackCoversInOrder(n: Node?, view: Vec2)
    requires Tree(n)
    ensures multiset(FrontToBack(n, view, NeverStop())) == multiset(InOrder(n))
  {
    var s := FrontToBack(n, view, NeverStop());
    FrontToBackVisitsOnce(n, view, NeverStop());
    InOrderVisitsEachOnce(n);
    forall m | m in NodesOf(n)
      ensures m in s
    {
      FrontToBackReaches(n, view, NeverStop(), m);
    }
    NoDupSameElements(s, InOrder(n));
  }
}
