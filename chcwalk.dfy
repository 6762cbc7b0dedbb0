/**
 * The primary front-to-back pass of coherent hierarchical culling (CHC) in
 * `render` of maze/MazeApp.cpp, as facts about the walk it makes.
 *
 * The visitor never changes a `visible` flag, so its answers are those of a
 * fixed predicate of the visible set `V` taken when the pass starts: it
 * descends below a visible interior node and stops everywhere else.  It
 * draws the visible leaves it reaches (and queues them for a check in the
 * next frame) and queues every invisible node it reaches for a check in
 * this frame.
 */
module ChcWalk {
  import opened Geometry
  import opened Seqs
  import opened KdNode
  import opened PullUpPass

  /** The CHC visitor's answer when `V` is the visible set: true (stop) unless the node is a visible interior node. */
  function ChcStop(V: set<Node>): Node -> bool
  {
    (n: Node) => !(n in V && !n.isLeaf)
  }

  /** The visible leaves of a walk, in walk order: the nodes the visitor draws and queues on `vQueries`. */
  function VisibleLeaves(w: seq<Node>, V: set<Node>): (r: seq<Node>)
    ensures forall n :: n in r ==> n in w && n in V && n.isLeaf
    ensures forall n :: n in w && n in V && n.isLeaf ==> n in r
  {
    if w == [] then []
    else (if w[0] in V && w[0].isLeaf then [w[0]] else []) + VisibleLeaves(w[1..], V)
  }

  /** The invisible nodes of a walk, in walk order: the nodes the visitor queues on `iQueries`. */
  function HiddenOf(w: seq<Node>, V: set<Node>): (r: seq<Node>)
    ensures forall n :: n in r ==> n in w && n !in V
    ensures forall n :: n in w && n !in V ==> n in r
  {
    if w == [] then []
    else (if w[0] !in V then [w[0]] else []) + HiddenOf(w[1..], V)
  }

  /** Selecting the visible leaves of a walk made of two parts selects them from each part. */
  lemma {:induction false} VisibleLeavesConcat(a: seq<Node>, b: seq<Node>, V: set<Node>)
    ensures VisibleLeaves(a + b, V) == VisibleLeaves(a, V) + VisibleLeaves(b, V)
  {
    if a != [] {
      var head := if a[0] in V && a[0].isLeaf then [a[0]] else [];
      assert (a + b)[0] == a[0] && (a + b)[1..] == a[1..] + b;
      assert VisibleLeaves(a + b, V) == head + VisibleLeaves(a[1..] + b, V);
      VisibleLeavesConcat(a[1..], b, V);
      var restA, restB := VisibleLeaves(a[1..], V), VisibleLeaves(b, V);
      assert VisibleLeaves(a, V) == head + restA;
      AppendTwice(head, head + restA, head + restA + restB, restA, restB);
    } else {
      assert a + b == b;
    }
  }

  /** Selecting the invisible nodes of a walk made of two parts selects them from each part. */
  lemma {:induction false} HiddenOfConcat(a: seq<Node>, b: seq<Node>, V: set<Node>)
    ensures HiddenOf(a + b, V) == HiddenOf(a, V) + HiddenOf(b, V)
  {
    if a != [] {
      var head := if a[0] !in V then [a[0]] else [];
      assert (a + b)[0] == a[0] && (a + b)[1..] == a[1..] + b;
      assert HiddenOf(a + b, V) == head + HiddenOf(a[1..] + b, V);
      HiddenOfConcat(a[1..], b, V);
      var restA, restB := HiddenOf(a[1..], V), HiddenOf(b, V);
      assert HiddenOf(a, V) == head + restA;
      AppendTwice(head, head + restA, head + restA + restB, restA, restB);
    } else {
      assert a + b == b;
    }
  }

  /** A walk that visits nodes once queues each invisible node once. */
  lemma {:induction false} HiddenOfNoDup(w: seq<Node>, V: set<Node>)
    requires NoDup(w)
    ensures NoDup(HiddenOf(w, V))
  {
    if w != [] {
      assert NoDup(w[1..]);
      HiddenOfNoDup(w[1..], V);
      assert w[0] !in w[1..];
      NoDupConcat(if w[0] !in V then [w[0]] else [], HiddenOf(w[1..], V));
    }
  }

  /** Two nodes of a tree neither of which lies below the other have disjoint subtrees. */
  lemma {:induction false} TreeDisjoint(R: Node, a: Node, b: Node)
    requires R.Valid() && a in R.Repr && b in R.Repr && a !in b.Repr && b !in a.Repr
    ensures a.Repr !! b.Repr
    decreases R.Repr
  {
    if a == R || b == R {
      assert false;
    }
    if a in R.left.Repr && b in R.left.Repr {
      TreeDisjoint(R.left, a, b);
    } else if a in R.right.Repr && b in R.right.Repr {
      TreeDisjoint(R.right, a, b);
    } else {
      SubtreeValid(R, a);
      SubtreeValid(R, b);
      if a in R.left.Repr {
        SubtreeValid(R.left, a);
        SubtreeValid(R.right, b);
      } else {
        SubtreeValid(R.right, a);
        SubtreeValid(R.left, b);
      }
    }
  }

  /**
   * A walk that does not stop at `n` draws and queues `n`'s own share, then
   * that of the near subtree, then that of the far subtree.
   */
  lemma WalkSplit(n: Node, view: Vec2, stop: Node -> bool, V: set<Node>)
    requires n.Valid() && !stop(n)
    ensures VisibleLeaves(FrontToBack(n, view, stop), V) ==
      (if n.isLeaf && n in V then [n] else [])
      + VisibleLeaves(FrontToBack(NearChild(n, view), view, stop), V)
      + VisibleLeaves(FrontToBack(FarChild(n, view), view, stop), V)
    ensures HiddenOf(FrontToBack(n, view, stop), V) ==
      (if n !in V then [n] else [])
      + HiddenOf(FrontToBack(NearChild(n, view), view, stop), V)
      + HiddenOf(FrontToBack(FarChild(n, view), view, stop), V)
  {
    FrontToBackUnfold(n, view, stop);
    var a, b := FrontToBack(NearChild(n, view), view, stop), FrontToBack(FarChild(n, view), view, stop);
    assert [n][1..] == [];
    VisibleLeavesConcat([n], a, V);
    VisibleLeavesConcat([n] + a, b, V);
    HiddenOfConcat([n], a, V);
    HiddenOfConcat([n] + a, b, V);
  }

  /** A walk reaching a leaf visits only the leaf: it is drawn when it is visible and queued otherwise. */
  lemma LeafWalk(n: Node, view: Vec2, stop: Node -> bool, V: set<Node>)
    requires n.Valid() && n.isLeaf
    ensures FrontToBack(n, view, stop) == [n]
    ensures VisibleLeaves(FrontToBack(n, view, stop), V) == if n in V then [n] else []
    ensures HiddenOf(FrontToBack(n, view, stop), V) == if n in V then [] else [n]
  {
    assert FrontToBack(n.left, view, stop) == [] && FrontToBack(n.right, view, stop) == [];
    assert [n][1..] == [];
  }

  /** A walk that stops at `n` visits only `n`. */
  lemma WalkStopped(n: Node, view: Vec2, stop: Node -> bool, V: set<Node>)
    requires n.Valid() && stop(n)
    ensures FrontToBack(n, view, stop) == [n]
    ensures VisibleLeaves(FrontToBack(n, view, stop), V) == if n.isLeaf && n in V then [n] else []
    ensures HiddenOf(FrontToBack(n, view, stop), V) == if n in V then [] else [n]
  {
    assert [n][1..] == [];
  }

  /**
   * Below a visible interior node the walk does not stop at, the walk draws
   * what the walks from the near and from the far child draw, in that order.
   */
  lemma DrawnDescend(n: Node, view: Vec2, stop: Node -> bool, V: set<Node>)
    requires n.Valid() && !stop(n) && !n.isLeaf
    ensures VisibleLeaves(FrontToBack(n, view, stop), V) ==
      VisibleLeaves(FrontToBack(NearChild(n, view), view, stop), V) + VisibleLeaves(FrontToBack(FarChild(n, view), view, stop), V)
  {
    FrontToBackUnfold(n, view, stop);
    var a, b := FrontToBack(NearChild(n, view), view, stop), FrontToBack(FarChild(n, view), view, stop);
    var head := [n];
    assert head[1..] == [];
    assert VisibleLeaves(head, V) == [];
    VisibleLeavesConcat(head, a, V);
    VisibleLeavesConcat(head + a, b, V);
  }

  /**
   * Below a visible node the walk does not stop at, the walk queues what the
   * walks from the near and from the far child queue, in that order.
   */
  lemma HiddenDescend(n: Node, view: Vec2, stop: Node -> bool, V: set<Node>)
    requires n.Valid() && !stop(n) && n in V
    ensures HiddenOf(FrontToBack(n, view, stop), V) ==
      HiddenOf(FrontToBack(NearChild(n, view), view, stop), V) + HiddenOf(FrontToBack(FarChild(n, view), view, stop), V)
  {
    FrontToBackUnfold(n, view, stop);
    var a, b := FrontToBack(NearChild(n, view), view, stop), FrontToBack(FarChild(n, view), view, stop);
    var head := [n];
    assert head[1..] == [];
    assert HiddenOf(head, V) == [];
    HiddenOfConcat(head, a, V);
    HiddenOfConcat(head + a, b, V);
  }

  /** A node is drawn by the walk from itself exactly when it is a visible leaf. */
  lemma DrawnRoot(n: Node, view: Vec2, stop: Node -> bool, V: set<Node>)
    requires n.Valid()
    ensures n in VisibleLeaves(FrontToBack(n, view, stop), V) <==> n.isLeaf && n in V
  {
    FrontToBackUnfold(n, view, stop);
    if stop(n) {
      WalkStopped(n, view, stop, V);
    } else {
      WalkSplit(n, view, stop, V);
      FrontToBackWithin(NearChild(n, view), view, stop);
      FrontToBackWithin(FarChild(n, view), view, stop);
    }
  }

  /**
   * Below a node the walk does not stop at, a node of one child's subtree is
   * drawn by the walk from the parent exactly when the walk from that child
   * draws it.
   */
  lemma DrawnInChild(n: Node, view: Vec2, stop: Node -> bool, V: set<Node>, m: Node)
    requires n.Valid() && !stop(n) && !n.isLeaf && (m in n.left.Repr || m in n.right.Repr)
    ensures m in n.left.Repr ==>
      (m in VisibleLeaves(FrontToBack(n, view, stop), V) <==> m in VisibleLeaves(FrontToBack(n.left, view, stop), V))
    ensures m in n.right.Repr ==>
      (m in VisibleLeaves(FrontToBack(n, view, stop), V) <==> m in VisibleLeaves(FrontToBack(n.right, view, stop), V))
  {
    FrontToBackUnfold(n, view, stop);
    WalkSplit(n, view, stop, V);
    FrontToBackWithin(n.left, view, stop);
    FrontToBackWithin(n.right, view, stop);
  }

  /** The nodes the primary pass visits, in visiting order, when `V` is the visible set. */
  function PrimaryWalk(R: Node, view: Vec2, V: set<Node>): seq<Node>
    requires R.Valid()
  {
    FrontToBack(R, view, ChcStop(V))
  }

  /**
   * The invisible nodes the primary pass queues are distinct nodes of the
   * tree with pairwise disjoint subtrees: none of them lies below another.
   */
  lemma PrimaryQueueDisjoint(R: Node, view: Vec2, V: set<Node>)
    requires R.Valid()
    ensures forall a :: a in HiddenOf(PrimaryWalk(R, view, V), V) ==> a in R.Repr
    ensures NoDup(HiddenOf(PrimaryWalk(R, view, V), V))
    ensures forall a, b :: a in HiddenOf(PrimaryWalk(R, view, V), V) && b in HiddenOf(PrimaryWalk(R, view, V), V) && a != b ==> a.Repr !! b.Repr
  {
    var stop := ChcStop(V);
    var w := PrimaryWalk(R, view, V);
    FrontToBackVisitsOnce(R, view, stop);
    HiddenOfNoDup(w, V);
    forall a, b | a in HiddenOf(w, V) && b in HiddenOf(w, V) && a != b
      ensures a.Repr !! b.Repr
    {
      FrontToBackEarlyStop(R, view, stop, a);
      FrontToBackEarlyStop(R, view, stop, b);
      TreeDisjoint(R, a, b);
    }
  }

  /**
   * Every leaf of the tree is either drawn by the primary pass or lies below
   * a node the pass queues, and never both.
   */
  lemma PrimaryCoverage(R: Node, view: Vec2, V: set<Node>)
    requires R.Valid()
    ensures forall l :: l in LeavesOf(R) ==> l in VisibleLeaves(PrimaryWalk(R, view, V), V) || exists a :: a in HiddenOf(PrimaryWalk(R, view, V), V) && l in a.Repr
    ensures forall l, a :: l in VisibleLeaves(PrimaryWalk(R, view, V), V) && a in HiddenOf(PrimaryWalk(R, view, V), V) ==> l !in a.Repr
  {
    var stop := ChcStop(V);
    var w := PrimaryWalk(R, view, V);
    forall l | l in LeavesOf(R)
      ensures l in VisibleLeaves(w, V) || exists a :: a in HiddenOf(w, V) && l in a.Repr
    {
      FrontToBackReaches(R, view, stop, l);
      if l !in w {
        var a :| a in w && stop(a) && l in a.Repr && a != l;
        FrontToBackWithin(R, view, stop);
        SubtreeValid(R, a);
        assert a !in V;
        assert a in HiddenOf(w, V);
      } else if l !in V {
        SubtreeValid(R, l);
        assert l in HiddenOf(w, V) && l in l.Repr;
      }
    }
    forall l, a | l in VisibleLeaves(w, V) && a in HiddenOf(w, V)
      ensures l !in a.Repr
    {
      FrontToBackEarlyStop(R, view, stop, a);
    }
  }

  /**
   * The visible set after a node is found occluded: the node is hidden,
   * `pullUp` hides the ancestors `Climb` names, and the whole subtree of the
   * node is hidden.
   */
  ghost function Occluded(R: Node, vis: set<Node>, n: Node): (r: set<Node>)
    requires R.Valid() && n in R.Repr
  {
    var v1 := vis - {n};
    (v1 - Climb(R, n, v1)) - n.Repr
  }

  /**
   * Hiding an occluded node changes only the node's subtree and some of its
   * interior ancestors, and leaves nothing of the subtree visible.
   */
  lemma OccludedEffect(R: Node, vis: set<Node>, n: Node)
    requires R.Valid() && n in R.Repr
    ensures Occluded(R, vis, n) <= vis
    ensures forall m :: m in n.Repr ==> m !in Occluded(R, vis, n)
    ensures forall m :: m in vis - Occluded(R, vis, n) ==> m in n.Repr || (m in R.Repr && !m.isLeaf && n in m.Repr)
  {
    SubtreeValid(R, n);
    ClimbIsAncestors(R, n, vis - {n});
  }
}
