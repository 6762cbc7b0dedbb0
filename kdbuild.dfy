/**
 * `kdTree` of maze/MazeApp.cpp: builds the kd-tree over the tiles of the maze
 * by sorting them along the split axis, splitting at the middle index and
 * recursing on both halves.
 */
module KdBuild {
  import opened Geometry
  import opened Sorting
  import opened KdNode

  /** The run is in non-decreasing order of the coordinate on `axis`. */
  predicate SortedAlong(s: seq<RenderObject>, axis: nat)
  {
    forall i, j :: 0 <= i < j < |s| ==> Coord(s[i].position, axis) <= Coord(s[j].position, axis)
  }

  /** The `std::sort` call of `kdTree`: sorts the vector in place along `axis`. */
  method SortAlong(objects: array<RenderObject>, axis: nat)
    modifies objects
    ensures SortedAlong(objects[..], axis)
    ensures multiset(objects[..]) == multiset(old(objects[..]))
  {
    SortInPlace(objects, ObjectKey(axis));
    forall i, j | 0 <= i < j < objects.Length
      ensures Coord(objects[i].position, axis) <= Coord(objects[j].position, axis)
    {
      assert ObjectKey(axis)(objects[..][i]) <= ObjectKey(axis)(objects[..][j]);
    }
  }

  /**
   * The splitting border of a run sorted along `axis`: the coordinate of the
   * element at index n/2 when n is odd, the mean of the elements at n/2-1 and
   * n/2 when n is even.
   */
  function Border(s: seq<RenderObject>, axis: nat): real
    requires |s| >= 2
  {
    var median := s[|s| / 2];
    if |s| % 2 != 0 then
      Coord(median.position, axis) as real
    else
      var median2 := s[|s| / 2 - 1];
      (Coord(median.position, axis) + Coord(median2.position, axis)) as real / 2.0
  }

  /** On a sorted run the border lies between the first half and the second half. */
  lemma BorderSeparates(s: seq<RenderObject>, axis: nat)
    requires |s| >= 2 && SortedAlong(s, axis)
    ensures forall x :: x in s[..|s| / 2] ==> Coord(x.position, axis) as real <= Border(s, axis)
    ensures forall x :: x in s[|s| / 2..] ==> Border(s, axis) <= Coord(x.position, axis) as real
  {
    var h := |s| / 2;
    forall x | x in s[..h]
      ensures Coord(x.position, axis) as real <= Border(s, axis)
    {
      var k :| 0 <= k < h && s[k] == x;
      assert k == h - 1 || Coord(s[k].position, axis) <= Coord(s[h - 1].position, axis);
    }
    forall x | x in s[h..]
      ensures Border(s, axis) <= Coord(x.position, axis) as real
    {
      var k :| h <= k < |s| && s[k] == x;
      assert k == h || Coord(s[h].position, axis) <= Coord(s[k].position, axis);
    }
  }

  /**
   * Every interior node separates its leaves: the tiles under its left child
   * are at or below the border on its axis, those under its right child at
   * or above it.
   */
  ghost predicate KdOrdered(n: Node?)
    requires Tree(n)
    decreases NodesOf(n)
  {
    n == null || n.isLeaf ||
    (&& (forall x :: x in LeafData(n.left) ==> Coord(x.position, n.axis) as real <= n.border)
     && (forall x :: x in LeafData(n.right) ==> n.border <= Coord(x.position, n.axis) as real)
     && KdOrdered(n.left) && KdOrdered(n.right))
  }

  /**
   * Every interior node splits at the median the way `kdTree` does: its axis
   * alternates with its depth, and its left child holds the first half
   * (rounded down) of its tiles.
   */
  ghost predicate MedianShaped(n: Node?)
    requires Tree(n)
    decreases NodesOf(n)
  {
    n == null || n.isLeaf ||
    (&& n.axis == n.depth % 2
     && |LeafData(n.left)| == |LeafData(n)| / 2
     && MedianShaped(n.left) && MedianShaped(n.right))
  }

  /**
   * `root` is a kd-tree over the tiles `objs` built at `depth`: null exactly
   * when there are no tiles, its leaves hold exactly the tiles (as a
   * multiset), every interior node separates its leaves and splits them at
   * the median on the axis of its depth.
   */
  ghost predicate KdTreeOver(root: Node?, objs: seq<RenderObject>, depth: nat)
  {
    && Tree(root)
    && (root == null <==> |objs| == 0)
    && (root != null ==> root.depth == depth)
    && multiset(LeafData(root)) == multiset(objs)
    && KdOrdered(root)
    && MedianShaped(root)
  }

  /**
   * The root of a tree over at least two tiles, given the tiles in the order
   * `kdTree` sorted them: an interior node on axis `depth % 2` whose border is
   * `Border` of the sorted run, whose left child holds the first n/2 tiles
   * and whose right child holds the rest.
   */
  ghost predicate SplitOver(root: Node, sorted: seq<RenderObject>, depth: nat)
    requires root.Valid() && |sorted| >= 2
  {
    && SortedAlong(sorted, depth % 2)
    && !root.isLeaf && root.axis == depth % 2
    && root.border == Border(sorted, depth % 2)
    && multiset(LeafData(root.left)) == multiset(sorted[..|sorted| / 2])
    && multiset(LeafData(root.right)) == multiset(sorted[|sorted| / 2..])
  }

  /** A freshly built subtree: leaves visible, interior nodes hidden, nothing drawn, children wired. */
  ghost predicate FreshState(root: Node?)
    reads NodesOf(root)`visible, NodesOf(root)`renderedThisFrame, Below(root)`parent
  {
    && Wired(root)
    && forall m :: m in NodesOf(root) ==> m.visible == m.isLeaf && !m.renderedThisFrame
  }

  /**
   * A kd-tree over n tiles has exactly n leaves, and over a single tile it
   * is one leaf holding that tile with no children.
   */
  lemma TreeOverLeaves(root: Node?, objs: seq<RenderObject>, depth: nat)
    requires KdTreeOver(root, objs, depth)
    ensures |LeavesOf(root)| == |objs|
    ensures |objs| == 1 ==> root.isLeaf && root.data == objs[0] && root.left == null && root.right == null
  {
    LeafCount(root);
    assert |LeafData(root)| == |multiset(objs)| == |objs|;
    if |objs| == 1 && !root.isLeaf {
      LeafCount(root.left);
      LeafCount(root.right);
      assert false;
    }
    if |objs| == 1 {
      assert multiset(LeafData(root)) == multiset{root.data};
      assert objs == [objs[0]];
    }
  }

  /**
   * Builds the subtree for `objects` at `depth`: no objects give a null tree,
   * one object a visible leaf, more objects an interior node built by
   * `BuildInterior`.  The vector is left holding the same tiles.
   */
  method KdTree(objects: array<RenderObject>, depth: nat) returns (root: Node?)
    modifies objects
    ensures KdTreeOver(root, old(objects[..]), depth)
    ensures fresh(NodesOf(root)) && FreshState(root)
    ensures root != null ==> root.parent == null
    ensures multiset(objects[..]) == multiset(old(objects[..]))
    ensures objects.Length >= 2 ==> root != null && root.Valid() && SplitOver(root, objects[..], depth)
    decreases objects.Length, 2
  {
    if objects.Length == 0 {
      return null;
    }
    if objects.Length == 1 {
      root := new Node.Leaf(objects[0], depth);
      return;
    }
    root := BuildInterior(objects, depth);
  }

  /**
   * The case of `kdTree` with at least two tiles: the vector is sorted in
   * place along axis `depth % 2`, and the new invisible interior node splits
   * it at index n/2, with the border between the middle elements and the
   * children built over the two halves and pointing back at it.
   */
  method BuildInterior(objects: array<RenderObject>, depth: nat) returns (root: Node)
    requires objects.Length >= 2
    modifies objects
    ensures KdTreeOver(root, old(objects[..]), depth)
    ensures fresh(root.Repr) && FreshState(root) && root.parent == null
    ensures multiset(objects[..]) == multiset(old(objects[..]))
    ensures SplitOver(root, objects[..], depth)
    decreases objects.Length, 1
  {
    var border, leftObjects, rightObjects := Split(objects, depth % 2);
    root := BuildChildren(leftObjects, rightObjects, depth, border, objects[..]);
  }

  /**
   * The recursive half of `kdTree`'s split case: builds both children from
   * the copied halves of the sorted run and hangs them under a new interior
   * node.
   */
  method BuildChildren(leftObjects: array<RenderObject>, rightObjects: array<RenderObject>, depth: nat, border: real,
                       ghost sorted: seq<RenderObject>)
    returns (root: Node)
    requires |sorted| >= 2 && SortedAlong(sorted, depth % 2) && border == Border(sorted, depth % 2)
    requires leftObjects != rightObjects
    requires leftObjects[..] == sorted[..|sorted| / 2] && rightObjects[..] == sorted[|sorted| / 2..]
    modifies leftObjects, rightObjects
    ensures KdTreeOver(root, sorted, depth) && SplitOver(root, sorted, depth)
    ensures fresh(root.Repr) && FreshState(root) && root.parent == null
    decreases leftObjects.Length + rightObjects.Length, 0
  {
    ghost var ls, rs := leftObjects[..], rightObjects[..];
    var left := KdTree(leftObjects, depth + 1);
    var right := KdTree(rightObjects, depth + 1);
    root := Join(depth % 2, depth, border, left, right);
    JoinOver(root, sorted, ls, rs, depth);
  }

  /**
   * The sorting and splitting step of `kdTree` on at least two tiles: sorts
   * the vector in place along `axis`, computes the border from the middle
   * element(s) and copies both halves into new vectors.
   */
  method Split(objects: array<RenderObject>, axis: nat) returns (border: real, leftObjects: array<RenderObject>, rightObjects: array<RenderObject>)
    requires objects.Length >= 2
    modifies objects
    ensures SortedAlong(objects[..], axis)
    ensures multiset(objects[..]) == multiset(old(objects[..]))
    ensures border == Border(objects[..], axis)
    ensures fresh(leftObjects) && fresh(rightObjects) && leftObjects != rightObjects
    ensures leftObjects[..] == objects[..objects.Length / 2]
    ensures rightObjects[..] == objects[objects.Length / 2..]
  {
    SortAlong(objects, axis);
    var n := objects.Length;
    var median := objects[n / 2];
    if n % 2 != 0 {
      border := Coord(median.position, axis) as real;
    } else {
      var median2 := objects[n / 2 - 1];
      border := (Coord(median.position, axis) + Coord(median2.position, axis)) as real / 2.0;
    }
    leftObjects := CopyRange(objects, 0, n / 2);
    rightObjects := CopyRange(objects, n / 2, n);
  }

  /** A fresh vector holding `a[lo..hi]` (the half-vectors `kdTree` copies out of the sorted one). */
  method CopyRange(a: array<RenderObject>, lo: nat, hi: nat) returns (b: array<RenderObject>)
    requires lo <= hi <= a.Length
    ensures fresh(b) && b[..] == a[lo..hi]
  {
    b := new RenderObject[hi - lo](k requires 0 <= k < hi - lo reads a => a[lo + k]);
  }

  /**
   * Creates the interior node over two built subtrees and points both
   * children back at it (the `new Node` and the two `parent` assignments of
   * `kdTree`), which leaves the whole subtree in its freshly built state.
   */
  method Join(axis: nat, depth: nat, border: real, left: Node?, right: Node?) returns (root: Node)
    requires left != null && right != null && left.Valid() && right.Valid() && left.Repr !! right.Repr
    requires left.depth == depth + 1 && right.depth == depth + 1
    requires FreshState(left) && FreshState(right)
    modifies left`parent, right`parent
    ensures fresh(root) && root.Valid() && !root.isLeaf
    ensures root.axis == axis && root.depth == depth && root.border == border
    ensures root.left == left && root.right == right && root.Repr == {root} + left.Repr + right.Repr
    ensures root.parent == null && FreshState(root)
  {
    root := new Node.Interior(axis, depth, border, left, right);
    Adopt(root);
  }

  /** The two `parent` assignments of `kdTree`: both children of a new interior node point back at it. */
  method Adopt(root: Node)
    requires root.Valid() && !root.isLeaf && !root.visible && !root.renderedThisFrame
    requires FreshState(root.left) && FreshState(root.right)
    modifies root.left`parent, root.right`parent
    ensures root.left.parent == root && root.right.parent == root
    ensures FreshState(root)
  {
    root.left.parent := root;
    root.right.parent := root;
    WiredJoin(root);
  }

  /** An interior node built over the two halves of a sorted run is a kd-tree over the run. */
  lemma JoinOver(root: Node, sorted: seq<RenderObject>, ls: seq<RenderObject>, rs: seq<RenderObject>, depth: nat)
    requires root.Valid() && !root.isLeaf && |sorted| >= 2
    requires root.depth == depth && root.axis == depth % 2
    requires SortedAlong(sorted, root.axis) && root.border == Border(sorted, root.axis)
    requires ls == sorted[..|sorted| / 2] && rs == sorted[|sorted| / 2..]
    requires KdTreeOver(root.left, ls, depth + 1) && KdTreeOver(root.right, rs, depth + 1)
    ensures KdTreeOver(root, sorted, depth) && SplitOver(root, sorted, depth)
  {
    JoinOrdered(root, sorted);
    JoinLeafData(root, sorted, ls, rs);
    assert |LeafData(root.left)| == |multiset(LeafData(root.left))| == |ls|;
    assert |LeafData(root)| == |multiset(LeafData(root))| == |sorted|;
  }

  /** The border of a sorted run separates the leaves built over its two halves. */
  lemma JoinOrdered(root: Node, sorted: seq<RenderObject>)
    requires root.Valid() && !root.isLeaf && |sorted| >= 2
    requires SortedAlong(sorted, root.axis) && root.border == Border(sorted, root.axis)
    requires multiset(LeafData(root.left)) == multiset(sorted[..|sorted| / 2])
    requires multiset(LeafData(root.right)) == multiset(sorted[|sorted| / 2..])
    requires KdOrdered(root.left) && KdOrdered(root.right)
    ensures KdOrdered(root)
  {
    BorderSeparates(sorted, root.axis);
    forall x | x in LeafData(root.left)
      ensures Coord(x.position, root.axis) as real <= root.border
    {
      assert x in multiset(sorted[..|sorted| / 2]);
    }
    forall x | x in LeafData(root.right)
      ensures root.border <= Coord(x.position, root.axis) as real
    {
      assert x in multiset(sorted[|sorted| / 2..]);
    }
  }

  /** The leaves of an interior node hold the tiles of both halves. */
  lemma JoinLeafData(root: Node, sorted: seq<RenderObject>, ls: seq<RenderObject>, rs: seq<RenderObject>)
    requires root.Valid() && !root.isLeaf && |sorted| >= 2
    requires ls == sorted[..|sorted| / 2] && rs == sorted[|sorted| / 2..]
    requires multiset(LeafData(root.left)) == multiset(ls)
    requires multiset(LeafData(root.right)) == multiset(rs)
    ensures multiset(LeafData(root)) == multiset(sorted)
  {
    assert LeafData(root) == LeafData(root.left) + LeafData(root.right);
    SplitMultiset(sorted, |sorted| / 2);
  }

  /** Cutting a run in two keeps every element. */
  lemma SplitMultiset(s: seq<RenderObject>, k: nat)
    requires k <= |s|
    ensures multiset(s[..k]) + multiset(s[k..]) == multiset(s)
  {
    assert s == s[..k] + s[k..];
  }

  /** Pointing both children of a fresh interior node back at it wires the whole subtree. */
  lemma WiredJoin(root: Node)
    requires root.Valid() && !root.isLeaf
    requires Wired(root.left) && Wired(root.right)
    requires root.left.parent == root && root.right.parent == root
    ensures Wired(root)
  {
    forall m, c | m in root.Repr && c in Below(root) && !m.isLeaf && (c == m.left || c == m.right)
      ensures c.parent == m
    {
      if m != root {
        if m in root.left.Repr {
          SubtreeValid(root.left, m);
        } else {
          SubtreeValid(root.right, m);
        }
      }
    }
  }
}
