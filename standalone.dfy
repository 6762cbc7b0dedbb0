/**
 * The earlier standalone kd-tree of Tests/main.cpp: `kdTree`, `printTree`,
 * `freeTree` and the six-point scenario of `main`.
 *
 * Its `RenderObject` holds nothing but a position, so a tile is a `Point`.
 * Its nodes are never changed after `kdTree` fills them in and have no
 * parent pointers, so the tree is a value: a leaf holds its tile, an
 * interior node its axis, its border and its two children.  The vector
 * `kdTree` sorts in place is an array.
 */
module StandaloneKdTree {
  import opened Geometry
  import opened Sorting

  /** A tree built by the standalone `kdTree`; `Nil` is the null pointer. */
  datatype PointTree = Nil | Leaf(data: Point) | Interior(axis: nat, border: int, left: PointTree, right: PointTree)

  /** The tiles of the leaves, left to right. */
  function Leaves(t: PointTree): seq<Point>
  {
    match t
    case Nil => []
    case Leaf(p) => [p]
    case Interior(_, _, l, r) => Leaves(l) + Leaves(r)
  }

  /**
   * The split at an interior node on axis `axis` with border `border` of
   * the tiles `lo` of its left child and `hi` of its right child: the left
   * child holds the lower half (n/2 of the n tiles) and the border is the
   * lowest coordinate of the upper half, that is the coordinate of the
   * element at index n/2 of the sorted run, with no averaging.
   */
  ghost predicate SplitsAt(axis: nat, border: int, lo: multiset<Point>, hi: multiset<Point>)
  {
    && |lo| == (|lo| + |hi|) / 2
    && (forall x :: x in lo ==> Coord(x, axis) <= border)
    && (forall x :: x in hi ==> border <= Coord(x, axis))
    && (exists x :: x in hi && Coord(x, axis) == border)
  }

  /** `SplitsAt` stated on the tiles in order. */
  ghost predicate SplitsSeq(axis: nat, border: int, lo: seq<Point>, hi: seq<Point>)
  {
    && |lo| == (|lo| + |hi|) / 2
    && (forall i :: 0 <= i < |lo| ==> Coord(lo[i], axis) <= border)
    && (forall i :: 0 <= i < |hi| ==> border <= Coord(hi[i], axis))
    && (exists i :: 0 <= i < |hi| && Coord(hi[i], axis) == border)
  }

  /** Every interior node is on axis `depth % 2`, has two children and splits its tiles at the median. */
  ghost predicate MedianSplit(t: PointTree, depth: nat)
  {
    match t
    case Nil => true
    case Leaf(_) => true
    case Interior(axis, border, l, r) =>
      && l != Nil && r != Nil
      && axis == depth % 2
      && SplitsSeq(axis, border, Leaves(l), Leaves(r))
      && MedianSplit(l, depth + 1) && MedianSplit(r, depth + 1)
  }

  /**
   * `t` is what `kdTree` builds from the tiles `s` at `depth`: null for no
   * tiles, a single leaf for one tile, and otherwise a median split whose
   * leaves are a permutation of the tiles.
   */
  ghost predicate BuiltOver(t: PointTree, s: seq<Point>, depth: nat)
  {
    && multiset(Leaves(t)) == multiset(s)
    && MedianSplit(t, depth)
    && (t == Nil <==> |s| == 0)
    && (|s| == 1 ==> t == Leaf(s[0]))
  }

  /**
   * `kdTree`: no tiles give the null tree, one tile a leaf; more tiles are
   * sorted in place along axis `depth % 2`, the border is the coordinate of
   * the element at index n/2, and the two halves are copied into new vectors
   * and built one level deeper.  The caller's vector is left sorted.
   */
  method KdTree(objects: array<Point>, depth: nat) returns (t: PointTree)
    modifies objects
    ensures BuiltOver(t, old(objects[..]), depth)
    ensures objects.Length >= 2 ==> SortedBy(objects[..], PointKey(depth % 2))
    ensures multiset(objects[..]) == multiset(old(objects[..]))
    decreases objects.Length, 1
  {
    if objects.Length == 0 {
      return Nil;
    }
    if objects.Length == 1 {
      return Leaf(objects[0]);
    }
    var axis := depth % 2;
    SortInPlace(objects, PointKey(axis));
    t := BuildSorted(objects, depth);
    BuiltOverReordered(t, objects[..], old(objects[..]), depth);
  }

  /**
   * The part of `kdTree` after the sort: the border is the coordinate of
   * the element at index n/2, and the two halves are copied into new
   * vectors and built one level deeper.
   */
  method BuildSorted(objects: array<Point>, depth: nat) returns (t: PointTree)
    requires objects.Length >= 2 && SortedBy(objects[..], PointKey(depth % 2))
    ensures BuiltOver(t, objects[..], depth)
    decreases objects.Length, 0
  {
    var n := objects.Length;
    var axis := depth % 2;
    var median := objects[n / 2];
    var border := Coord(median, axis);
    var leftObjects := CopyRange(objects, 0, n / 2);
    var rightObjects := CopyRange(objects, n / 2, n);
    ghost var sorted, lo, hi := objects[..], leftObjects[..], rightObjects[..];
    assert lo == sorted[..n / 2] && hi == sorted[n / 2..];
    var left := KdTree(leftObjects, depth + 1);
    var right := KdTree(rightObjects, depth + 1);
    t := Interior(axis, border, left, right);
    SplitBuilt(t, sorted, lo, hi, depth);
  }

  /** What `kdTree` builds over a run of at least two tiles it builds over any reordering of the run. */
  lemma BuiltOverReordered(t: PointTree, s: seq<Point>, s': seq<Point>, depth: nat)
    requires |s| >= 2 && BuiltOver(t, s, depth) && multiset(s) == multiset(s')
    ensures BuiltOver(t, s', depth)
  {
    assert |s'| == |multiset(s')| == |multiset(s)| == |s|;
  }

  /** A new vector holding the elements of `objects` from index `from` up to `to`. */
  method CopyRange(objects: array<Point>, from: nat, to: nat) returns (part: array<Point>)
    requires from <= to <= objects.Length
    ensures fresh(part) && part[..] == objects[from..to]
  {
    part := new Point[to - from](k requires 0 <= k < to - from reads objects => objects[from + k]);
  }

  /** An interior node over the built halves of a sorted run is what `kdTree` builds over the run. */
  lemma SplitBuilt(t: PointTree, sorted: seq<Point>, lo: seq<Point>, hi: seq<Point>, depth: nat)
    requires |sorted| >= 2 && SortedBy(sorted, PointKey(depth % 2))
    requires lo == sorted[..|sorted| / 2] && hi == sorted[|sorted| / 2..]
    requires t.Interior? && t.axis == depth % 2 && t.border == Coord(sorted[|sorted| / 2], depth % 2)
    requires BuiltOver(t.left, lo, depth + 1) && BuiltOver(t.right, hi, depth + 1)
    ensures BuiltOver(t, sorted, depth)
  {
    var h := |sorted| / 2;
    MultisetOfHalves(sorted, h);
    SortedSplits(sorted, depth % 2);
    SplitTransfers(t.axis, t.border, sorted[..h], sorted[h..], Leaves(t.left), Leaves(t.right));
  }

  /** The tiles of a run are those of its two halves. */
  lemma MultisetOfHalves(s: seq<Point>, h: nat)
    requires h <= |s|
    ensures multiset(s) == multiset(s[..h]) + multiset(s[h..])
  {
    assert s == s[..h] + s[h..];
  }

  /** A split carries over to any reordering of its two halves. */
  lemma SplitTransfers(axis: nat, border: int, lo: seq<Point>, hi: seq<Point>, lo': seq<Point>, hi': seq<Point>)
    requires SplitsAt(axis, border, multiset(lo), multiset(hi))
    requires multiset(lo') == multiset(lo) && multiset(hi') == multiset(hi)
    ensures SplitsSeq(axis, border, lo', hi')
  {
    SplitsSeqMultiset(axis, border, lo', hi');
  }

  /** A sorted run splits at index n/2 with the coordinate of the element there as border. */
  lemma SortedSplits(sorted: seq<Point>, axis: nat)
    requires |sorted| >= 2 && SortedBy(sorted, PointKey(axis))
    ensures SplitsAt(axis, Coord(sorted[|sorted| / 2], axis), multiset(sorted[..|sorted| / 2]), multiset(sorted[|sorted| / 2..]))
  {
    var h := |sorted| / 2;
    var lo, hi, border := sorted[..h], sorted[h..], Coord(sorted[h], axis);
    forall x | x in multiset(lo)
      ensures Coord(x, axis) <= border
    {
      var k :| 0 <= k < h && lo[k] == x;
      assert PointKey(axis)(sorted[k]) <= PointKey(axis)(sorted[h]);
    }
    forall x | x in multiset(hi)
      ensures border <= Coord(x, axis)
    {
      var k :| 0 <= k < |hi| && hi[k] == x;
      if k > 0 {
        assert PointKey(axis)(sorted[h]) <= PointKey(axis)(sorted[h + k]);
      }
    }
    assert hi[0] in multiset(hi);
  }

  // ---------------------------------------------------------------------
  // printTree and freeTree

  /** The subtrees `printTree` and `freeTree` reach, in in-order: left subtree, node, right subtree. */
  function InOrderNodes(t: PointTree): seq<PointTree>
  {
    match t
    case Nil => []
    case Leaf(_) => [t]
    case Interior(_, _, l, r) => InOrderNodes(l) + [t] + InOrderNodes(r)
  }

  /** What `printTree` prints for the nodes `ns` it reaches: the tile of each leaf, nothing for an interior node. */
  function Printed(ns: seq<PointTree>): seq<Point>
  {
    if ns == [] then []
    else (if ns[0].Leaf? then [ns[0].data] else []) + Printed(ns[1..])
  }

  /** `printTree`: the tiles it prints, in order. */
  function PrintTree(t: PointTree): seq<Point>
  {
    Printed(InOrderNodes(t))
  }

  /** Printing the nodes of a sequence made of two parts prints each part. */
  lemma {:induction false} PrintedConcat(a: seq<PointTree>, b: seq<PointTree>)
    ensures Printed(a + b) == Printed(a) + Printed(b)
  {
    if a != [] {
      assert (a + b)[0] == a[0] && (a + b)[1..] == a[1..] + b;
      PrintedConcat(a[1..], b);
    } else {
      assert a + b == b;
    }
  }

  /** `printTree` prints exactly the tiles of the leaves, left to right: interior nodes print nothing. */
  lemma {:induction false} PrintTreeLeaves(t: PointTree)
    ensures PrintTree(t) == Leaves(t)
  {
    match t
    case Nil =>
    case Leaf(p) =>
      assert InOrderNodes(t) == [t] && [t][1..] == [];
      assert Printed([t]) == [p] + Printed([]);
    case Interior(_, _, l, r) =>
      PrintTreeLeaves(l);
      PrintTreeLeaves(r);
      PrintedConcat(InOrderNodes(l) + [t], InOrderNodes(r));
      PrintedConcat(InOrderNodes(l), [t]);
  }

  /** The number of nodes of a tree. */
  function Size(t: PointTree): nat
  {
    match t
    case Nil => 0
    case Leaf(_) => 1
    case Interior(_, _, l, r) => Size(l) + Size(r) + 1
  }

  /** `a` is `t` or a subtree below it. */
  predicate SubtreeOf(a: PointTree, t: PointTree)
  {
    a == t || (t.Interior? && (SubtreeOf(a, t.left) || SubtreeOf(a, t.right)))
  }

  /** The order in which `freeTree` deletes the nodes: left subtree, right subtree, then the node. */
  function FreeOrder(t: PointTree): (r: seq<PointTree>)
  {
    match t
    case Nil => []
    case Leaf(_) => [t]
    case Interior(_, _, l, r) => FreeOrder(l) + FreeOrder(r) + [t]
  }

  /** `c` is a child `freeTree` recurses into and deletes: not null. */
  predicate FreedChild(c: PointTree, done: seq<PointTree>)
  {
    c != Nil ==> c in done
  }

  /**
   * `freeTree` deletes every node of the tree and nothing else, as many
   * times as there are nodes, and the node passed in last.
   */
  lemma {:induction false} FreeTreeOrder(t: PointTree)
    ensures |FreeOrder(t)| == Size(t)
    ensures forall k :: 0 <= k < |FreeOrder(t)| ==> FreeOrder(t)[k] != Nil && SubtreeOf(FreeOrder(t)[k], t)
    ensures forall s :: SubtreeOf(s, t) && s != Nil ==> s in FreeOrder(t)
    ensures t != Nil ==> FreeOrder(t)[|FreeOrder(t)| - 1] == t
  {
    match t
    case Nil =>
    case Leaf(_) =>
    case Interior(_, _, l, r) =>
      FreeTreeOrder(l);
      FreeTreeOrder(r);
      var fl, fr := FreeOrder(l), FreeOrder(r);
      forall k | 0 <= k < |FreeOrder(t)|
        ensures FreeOrder(t)[k] != Nil && SubtreeOf(FreeOrder(t)[k], t)
      {
        if k < |fl| {
          assert FreeOrder(t)[k] == fl[k];
        } else if k < |fl| + |fr| {
          assert FreeOrder(t)[k] == fr[k - |fl|];
        }
      }
      forall s | SubtreeOf(s, t) && s != Nil
        ensures s in FreeOrder(t)
      {
        if s == t {
          assert FreeOrder(t)[|FreeOrder(t)| - 1] == t;
        } else if SubtreeOf(s, l) {
          assert s in fl;
        } else {
          assert s in fr;
        }
      }
  }

  /** `freeTree` deletes every node after both of its children. */
  lemma {:induction false} FreeChildrenFirst(t: PointTree)
    ensures forall k :: 0 <= k < |FreeOrder(t)| && FreeOrder(t)[k].Interior? ==>
      FreedChild(FreeOrder(t)[k].left, FreeOrder(t)[..k]) && FreedChild(FreeOrder(t)[k].right, FreeOrder(t)[..k])
  {
    match t
    case Nil =>
    case Leaf(_) =>
    case Interior(_, _, l, r) =>
      FreeChildrenFirst(l);
      FreeChildrenFirst(r);
      FreeTreeOrder(l);
      FreeTreeOrder(r);
      forall k | 0 <= k < |FreeOrder(t)| && FreeOrder(t)[k].Interior?
        ensures FreedChild(FreeOrder(t)[k].left, FreeOrder(t)[..k]) && FreedChild(FreeOrder(t)[k].right, FreeOrder(t)[..k])
      {
        ChildrenFreedBefore(t, FreeOrder(l), FreeOrder(r), k);
      }
  }

  /** The children-first step of `FreeChildrenFirst` at position `k` of the deletions of an interior node. */
  lemma ChildrenFreedBefore(t: PointTree, fl: seq<PointTree>, fr: seq<PointTree>, k: int)
    requires t.Interior?
    requires t.left != Nil ==> |fl| > 0 && fl[|fl| - 1] == t.left
    requires t.right != Nil ==> |fr| > 0 && fr[|fr| - 1] == t.right
    requires forall i :: 0 <= i < |fl| && fl[i].Interior? ==> FreedChild(fl[i].left, fl[..i]) && FreedChild(fl[i].right, fl[..i])
    requires forall i :: 0 <= i < |fr| && fr[i].Interior? ==> FreedChild(fr[i].left, fr[..i]) && FreedChild(fr[i].right, fr[..i])
    requires 0 <= k < |fl| + |fr| + 1 && (fl + fr + [t])[k].Interior?
    ensures FreedChild((fl + fr + [t])[k].left, (fl + fr + [t])[..k])
    ensures FreedChild((fl + fr + [t])[k].right, (fl + fr + [t])[..k])
  {
    if k < |fl| {
      FreedInFront(fl, fr, [t], k);
    } else if k < |fl| + |fr| {
      var j := k - |fl|;
      FreedAfter(fl, fr, [t], j);
    } else {
      FreedLastOfTwo(fl, fr, t);
    }
  }

  /** A node in the first part of a deletion order keeps its predecessors. */
  lemma FreedInFront(a: seq<PointTree>, b: seq<PointTree>, c: seq<PointTree>, k: int)
    requires 0 <= k < |a|
    ensures (a + b + c)[k] == a[k] && (a + b + c)[..k] == a[..k]
  {
    assert (a + b + c)[..k] == a[..k];
  }

  /** A node in the middle part of a deletion order keeps its predecessors. */
  lemma FreedAfter(a: seq<PointTree>, b: seq<PointTree>, c: seq<PointTree>, j: int)
    requires 0 <= j < |b|
    ensures (a + b + c)[|a| + j] == b[j]
    ensures forall x :: x in b[..j] ==> x in (a + b + c)[..|a| + j]
  {
    assert (a + b + c)[..|a| + j] == a + b[..j];
  }

  /** The last node of a deletion order comes after the last nodes of both parts. */
  lemma FreedLastOfTwo(a: seq<PointTree>, b: seq<PointTree>, t: PointTree)
    ensures (a + b + [t])[|a| + |b|] == t
    ensures |a| > 0 ==> a[|a| - 1] in (a + b + [t])[..|a| + |b|]
    ensures |b| > 0 ==> b[|b| - 1] in (a + b + [t])[..|a| + |b|]
  {
    assert (a + b + [t])[..|a| + |b|] == a + b;
  }

  // ---------------------------------------------------------------------
  // The tree is determined by its tiles when no two share a coordinate

  /** No tile occurs twice and no two tiles share an x or a y coordinate. */
  ghost predicate Spread(m: multiset<Point>)
  {
    && (forall p :: p in m ==> m[p] == 1)
    && (forall p, q :: p in m && q in m && p != q ==> p.x != q.x && p.y != q.y)
  }

  /** A tree that is not null has a leaf. */
  lemma {:induction false} HasLeaf(t: PointTree, depth: nat)
    requires MedianSplit(t, depth)
    ensures t != Nil ==> |Leaves(t)| >= 1
  {
    if t.Interior? {
      HasLeaf(t.left, depth + 1);
    }
  }

  /** A part of a spread multiset is spread. */
  lemma SpreadPart(part: multiset<Point>, whole: multiset<Point>)
    requires Spread(whole) && part <= whole
    ensures Spread(part)
  {
    forall p | p in part
      ensures part[p] == 1
    {
      assert whole[p] == 1;
    }
  }

  /**
   * Of two splits of the same spread tiles on the same axis, when a tile of
   * the first lower half is missing from the second lower half, every tile
   * of the second lower half lies in the first one.
   */
  lemma LowerHalfInside(axis: nat, b1: int, lo1: multiset<Point>, hi1: multiset<Point>, b2: int, lo2: multiset<Point>, hi2: multiset<Point>, x: Point)
    requires SplitsAt(axis, b1, lo1, hi1) && SplitsAt(axis, b2, lo2, hi2)
    requires lo1 + hi1 == lo2 + hi2 && Spread(lo1 + hi1)
    requires x in lo1 && x !in lo2
    ensures forall y :: y in lo2 ==> y in lo1
  {
    var whole := lo1 + hi1;
    assert x in whole;
    assert x in hi2;
    forall y | y in lo2
      ensures y in lo1
    {
      assert y in whole && y != x;
      assert Coord(y, axis) != Coord(x, axis);
      if y in hi1 {
        assert false;
      }
    }
  }

  /** In a spread multiset, a part that holds only elements of another part holds at most as many. */
  lemma SpreadInclusion(a: multiset<Point>, b: multiset<Point>, whole: multiset<Point>, x: Point)
    requires Spread(whole) && a <= whole && b <= whole
    requires forall y :: y in a ==> y in b
    ensures a <= b
    ensures x in b && x !in a ==> |a| < |b|
  {
    forall y
      ensures a[y] <= b[y]
    {
      if y in a {
        assert whole[y] == 1;
      }
    }
    if x in b && x !in a {
      assert b == a + (b - a);
      assert x in b - a;
    }
  }

  /** Two splits of the same spread tiles on the same axis have the same lower half. */
  lemma LowerHalvesAgree(axis: nat, b1: int, lo1: multiset<Point>, hi1: multiset<Point>, b2: int, lo2: multiset<Point>, hi2: multiset<Point>)
    requires SplitsAt(axis, b1, lo1, hi1) && SplitsAt(axis, b2, lo2, hi2)
    requires lo1 + hi1 == lo2 + hi2 && Spread(lo1 + hi1)
    ensures lo1 == lo2
  {
    var x :| x in hi1 && Coord(x, axis) == b1;
    var whole := lo1 + hi1;
    assert |whole| == |lo1| + |hi1| == |lo2| + |hi2|;
    assert |lo1| == |lo2|;
    forall x | x in lo1
      ensures x in lo2
    {
      if x !in lo2 {
        LowerHalfInside(axis, b1, lo1, hi1, b2, lo2, hi2, x);
        SpreadInclusion(lo2, lo1, whole, x);
        assert false;
      }
    }
    SpreadInclusion(lo1, lo2, whole, x);
    assert lo2 == lo1 + (lo2 - lo1);
  }

  /** Two splits of the same spread tiles on the same axis have the same halves and the same border. */
  lemma SplitsAgree(axis: nat, b1: int, lo1: multiset<Point>, hi1: multiset<Point>, b2: int, lo2: multiset<Point>, hi2: multiset<Point>)
    requires SplitsAt(axis, b1, lo1, hi1) && SplitsAt(axis, b2, lo2, hi2)
    requires lo1 + hi1 == lo2 + hi2 && Spread(lo1 + hi1)
    ensures lo1 == lo2 && hi1 == hi2 && b1 == b2
  {
    LowerHalvesAgree(axis, b1, lo1, hi1, b2, lo2, hi2);
    assert hi1 == (lo1 + hi1) - lo1;
    assert hi2 == (lo2 + hi2) - lo2;
    var x1 :| x1 in hi1 && Coord(x1, axis) == b1;
    var x2 :| x2 in hi2 && Coord(x2, axis) == b2;
    assert x1 in hi2 && x2 in hi1;
  }

  /**
   * When no two tiles share a coordinate, the choices the unstable sort
   * makes do not matter: any two trees `kdTree` can build over the same
   * tiles at the same depth are the same tree.
   */
  lemma {:induction false} BuildDeterminate(t1: PointTree, t2: PointTree, depth: nat)
    requires MedianSplit(t1, depth) && MedianSplit(t2, depth)
    requires multiset(Leaves(t1)) == multiset(Leaves(t2)) && Spread(multiset(Leaves(t1)))
    ensures t1 == t2
  {
    HasLeaf(t1, depth);
    HasLeaf(t2, depth);
    if t1.Interior? {
      HasLeaf(t1.left, depth + 1);
      HasLeaf(t1.right, depth + 1);
    }
    if t2.Interior? {
      HasLeaf(t2.left, depth + 1);
      HasLeaf(t2.right, depth + 1);
    }
    match t1
    case Nil =>
    case Leaf(p) =>
      assert p in multiset(Leaves(t2));
    case Interior(axis, b1, l1, r1) =>
      var l2, r2 := t2.left, t2.right;
      SplitsSeqMultiset(axis, b1, Leaves(l1), Leaves(r1));
      SplitsSeqMultiset(axis, t2.border, Leaves(l2), Leaves(r2));
      assert multiset(Leaves(t1)) == multiset(Leaves(l1)) + multiset(Leaves(r1));
      assert multiset(Leaves(t2)) == multiset(Leaves(l2)) + multiset(Leaves(r2));
      SplitsAgree(axis, b1, multiset(Leaves(l1)), multiset(Leaves(r1)), t2.border, multiset(Leaves(l2)), multiset(Leaves(r2)));
      SpreadPart(multiset(Leaves(l1)), multiset(Leaves(t1)));
      SpreadPart(multiset(Leaves(r1)), multiset(Leaves(t1)));
      BuildDeterminate(l1, l2, depth + 1);
      BuildDeterminate(r1, r2, depth + 1);
  }

  // ---------------------------------------------------------------------
  // The six-point scenario of `main`

  /** The six tiles `main` pushes, in order. */
  const SixPoints: seq<Point> := [Point(2, 3), Point(5, 4), Point(9, 6), Point(4, 7), Point(8, 1), Point(7, 2)]

  /** The tree `kdTree` builds over the six tiles, with its four inner subtrees named. */
  const SixPointTree: PointTree := Interior(0, 7, LowerHalf, UpperHalf)
  const LowerHalf: PointTree := Interior(1, 4, Leaf(Point(2, 3)), LowerRight)
  const UpperHalf: PointTree := Interior(1, 2, Leaf(Point(8, 1)), UpperRight)
  const LowerRight: PointTree := Interior(0, 5, Leaf(Point(4, 7)), Leaf(Point(5, 4)))
  const UpperRight: PointTree := Interior(0, 9, Leaf(Point(7, 2)), Leaf(Point(9, 6)))

  /**
   * Whatever order the sort leaves equal keys in, `kdTree` over the six
   * tiles builds a root on axis 0 with border 7, and `printTree` prints
   * (2,3), (4,7), (5,4), (8,1), (7,2), (9,6).
   */
  lemma SixPointScenario(t: PointTree)
    requires BuiltOver(t, SixPoints, 0)
    ensures t == SixPointTree && t.axis == 0 && t.border == 7
    ensures PrintTree(t) == [Point(2, 3), Point(4, 7), Point(5, 4), Point(8, 1), Point(7, 2), Point(9, 6)]
  {
    SixPointTreeSplits();
    SixPointTreeLeaves();
    SixPointsSpread();
    BuildDeterminate(t, SixPointTree, 0);
    PrintTreeLeaves(t);
  }

  /** The expected tree splits every node at the median. */
  lemma SixPointTreeSplits()
    ensures MedianSplit(SixPointTree, 0)
  {
    LowerHalfSplits();
    UpperHalfSplits();
    assert Coord(Leaves(SixPointTree.right)[1], 0) == 7;
  }

  lemma LowerHalfSplits()
    ensures MedianSplit(LowerHalf, 1) && Leaves(LowerHalf) == [Point(2, 3), Point(4, 7), Point(5, 4)]
  {
    assert Coord(Leaves(LowerRight.right)[0], 0) == 5;
    assert Coord(Leaves(LowerHalf.right)[1], 1) == 4;
  }

  lemma UpperHalfSplits()
    ensures MedianSplit(UpperHalf, 1) && Leaves(UpperHalf) == [Point(8, 1), Point(7, 2), Point(9, 6)]
  {
    assert Coord(Leaves(UpperRight.right)[0], 0) == 9;
    assert Coord(Leaves(UpperHalf.right)[0], 1) == 2;
  }

  /** The tiles of two sequences split at a border exactly when their multisets do. */
  lemma SplitsSeqMultiset(axis: nat, border: int, lo: seq<Point>, hi: seq<Point>)
    ensures SplitsSeq(axis, border, lo, hi) <==> SplitsAt(axis, border, multiset(lo), multiset(hi))
  {
    if SplitsSeq(axis, border, lo, hi) {
      forall x | x in multiset(lo)
        ensures Coord(x, axis) <= border
      {
        var i :| 0 <= i < |lo| && lo[i] == x;
      }
      forall x | x in multiset(hi)
        ensures border <= Coord(x, axis)
      {
        var i :| 0 <= i < |hi| && hi[i] == x;
      }
      var k :| 0 <= k < |hi| && Coord(hi[k], axis) == border;
      assert hi[k] in multiset(hi);
    }
    if SplitsAt(axis, border, multiset(lo), multiset(hi)) {
      forall i | 0 <= i < |lo|
        ensures Coord(lo[i], axis) <= border
      {
        assert lo[i] in multiset(lo);
      }
      forall i | 0 <= i < |hi|
        ensures border <= Coord(hi[i], axis)
      {
        assert hi[i] in multiset(hi);
      }
      var x :| x in multiset(hi) && Coord(x, axis) == border;
      var k :| 0 <= k < |hi| && hi[k] == x;
    }
  }

  /** The leaves of the expected tree are the six tiles. */
  lemma SixPointTreeLeaves()
    ensures Leaves(SixPointTree) == [Point(2, 3), Point(4, 7), Point(5, 4), Point(8, 1), Point(7, 2), Point(9, 6)]
    ensures multiset(Leaves(SixPointTree)) == multiset(SixPoints)
  {
  }

  /** No two of the six tiles share a coordinate. */
  lemma SixPointsSpread()
    ensures Spread(multiset(SixPoints))
  {
  }

  /** `main` without its I/O: builds the tree over the six tiles and prints it. */
  method SixPointMain() returns (root: PointTree, printed: seq<Point>)
    ensures root == SixPointTree && root.border == 7
    ensures printed == [Point(2, 3), Point(4, 7), Point(5, 4), Point(8, 1), Point(7, 2), Point(9, 6)]
  {
    var objects := new Point[6](k requires 0 <= k < 6 => SixPoints[k]);
    assert objects[..] == SixPoints;
    root := KdTree(objects, 0);
    SixPointScenario(root);
    printed := PrintTree(root);
  }
}
