/**
 * The V-queue pass at the start of `render` in maze/MazeApp.cpp, which
 * reads back the queries issued for the visible leaves of the previous
 * frame.
 *
 * The loop erases the entry at index `i` and then increments `i`, so it
 * resolves the entries at the even positions of the queue it starts from and
 * keeps the entries at the odd positions for the next frame.  This is
 * modelled as written: `EvensOf` are the entries resolved, in order, and
 * `OddsOf` the entries kept.
 */
module VQueue {
  import opened KdNode
  import opened ChcWalk
  import opened Occlusion

  /** The entries at positions 0, 2, 4, … of `s`. */
  function EvensOf<T>(s: seq<T>): (r: seq<T>)
    ensures |r| == (|s| + 1) / 2 && forall j :: 0 <= j < |r| ==> r[j] == s[2 * j]
    ensures forall x :: x in r ==> x in s
  {
    seq((|s| + 1) / 2, j requires 0 <= j < (|s| + 1) / 2 => s[2 * j])
  }

  /** The entries at positions 1, 3, 5, … of `s`. */
  function OddsOf<T>(s: seq<T>): (r: seq<T>)
    ensures |r| == |s| / 2 && forall j :: 0 <= j < |r| ==> r[j] == s[2 * j + 1]
    ensures forall x :: x in r ==> x in s
  {
    seq(|s| / 2, j requires 0 <= j < |s| / 2 => s[2 * j + 1])
  }

  /** The pass neither loses nor duplicates a query: every entry is resolved or kept, exactly once. */
  lemma {:induction false} EvensOddsPartition<T>(s: seq<T>)
    ensures multiset(EvensOf(s)) + multiset(OddsOf(s)) == multiset(s)
    decreases |s|
  {
    if |s| == 1 {
      assert EvensOf(s) == s;
      assert OddsOf(s) == [];
    } else if |s| >= 2 {
      var t := s[2..];
      EvensOddsPartition(t);
      assert EvensOf(s) == [s[0]] + EvensOf(t);
      assert OddsOf(s) == [s[1]] + OddsOf(t);
      assert s == [s[0], s[1]] + t;
    }
  }

  /**
   * How far into the original queue the pass has got after `i` rounds: two
   * entries per round (one resolved, one skipped), but no further than the
   * queue's end.
   */
  function Reached(i: nat, n: nat): (c: nat)
    ensures c <= n && (2 * i <= n ==> c == 2 * i)
  {
    if 2 * i <= n then 2 * i else n
  }

  /**
   * One round of the pass, with `s` the queue it started from: the entry at
   * index `i` of the current queue is `s[2 * i]`, and erasing it leaves the
   * queue of the next round; that entry is the next one resolved.
   */
  lemma {:induction false} PassRound<T>(s: seq<T>, i: nat)
    requires 2 * i < |s|
    ensures |OddsOf(s[..2 * i])| == i
    ensures (OddsOf(s[..2 * i]) + s[2 * i..])[i] == s[2 * i]
    ensures var q := OddsOf(s[..2 * i]) + s[2 * i..];
      q[..i] + q[i + 1..] == OddsOf(s[..Reached(i + 1, |s|)]) + s[Reached(i + 1, |s|)..]
    ensures EvensOf(s[..Reached(i + 1, |s|)]) == EvensOf(s[..2 * i]) + [s[2 * i]]
  {
    var c := Reached(i + 1, |s|);
    var odds := OddsOf(s[..2 * i]);
    var q := odds + s[2 * i..];
    assert q[..i] == odds;
    assert q[i + 1..] == s[2 * i + 1..];
    if c == 2 * i + 2 {
      assert OddsOf(s[..c]) == odds + [s[2 * i + 1]];
      assert s[2 * i + 1..] == [s[2 * i + 1]] + s[c..];
    } else {
      assert OddsOf(s[..c]) == odds;
    }
    assert EvensOf(s[..c]) == EvensOf(s[..2 * i]) + [s[2 * i]];
  }

  /**
   * The visible set after one query is read back: its node becomes visible
   * when samples passed, and is otherwise hidden together with its subtree
   * and the ancestors `pullUp` hides.
   */
  ghost function ResolveOne(R: Node, vis: set<Node>, q: OcclusionQuery): set<Node>
    requires R.Valid() && q.node in R.Repr
  {
    if q.samplesPassed then vis + {q.node} else Occluded(R, vis, q.node)
  }

  /** Every query of `qs` is issued for a node of the tree rooted at `R`. */
  ghost predicate InTree(R: Node, qs: seq<OcclusionQuery>)
  {
    forall q :: q in qs ==> q.node in R.Repr
  }

  /** The visible set after the queries of `qs` are read back one after the other. */
  ghost function FoldResolve(R: Node, vis: set<Node>, qs: seq<OcclusionQuery>): set<Node>
    requires R.Valid() && InTree(R, qs)
  {
    if qs == [] then vis
    else ResolveOne(R, FoldResolve(R, vis, qs[..|qs| - 1]), qs[|qs| - 1])
  }

  /** Reading back one more query applies `ResolveOne` to the visible set reached so far. */
  lemma FoldResolveSnoc(R: Node, vis: set<Node>, qs: seq<OcclusionQuery>, q: OcclusionQuery)
    requires R.Valid() && InTree(R, qs) && q.node in R.Repr
    ensures InTree(R, qs + [q])
    ensures FoldResolve(R, vis, qs + [q]) == ResolveOne(R, FoldResolve(R, vis, qs), q)
  {
    assert (qs + [q])[..|qs|] == qs;
  }

  /** When every query read back passed, the pass only makes their nodes visible. */
  lemma {:induction false} FoldAllPassed(R: Node, vis: set<Node>, qs: seq<OcclusionQuery>)
    requires R.Valid() && InTree(R, qs)
    requires forall q :: q in qs ==> q.samplesPassed
    ensures FoldResolve(R, vis, qs) == vis + set q | q in qs :: q.node
  {
    if qs != [] {
      var init := qs[..|qs| - 1];
      assert InTree(R, init);
      FoldAllPassed(R, vis, init);
      assert qs == init + [qs[|qs| - 1]];
      assert (set q | q in qs :: q.node) == (set q | q in init :: q.node) + {qs[|qs| - 1].node};
    }
  }

  /**
   * The pass leaves alone every node that is neither below nor above the
   * node of any query it reads back.
   */
  lemma {:induction false} FoldLocality(R: Node, vis: set<Node>, qs: seq<OcclusionQuery>, m: Node)
    requires R.Valid() && InTree(R, qs) && m in R.Repr
    requires forall q :: q in qs ==> m !in q.node.Repr && q.node !in m.Repr
    ensures m in FoldResolve(R, vis, qs) <==> m in vis
  {
    if qs != [] {
      var init, q := qs[..|qs| - 1], qs[|qs| - 1];
      assert InTree(R, init) && q in qs;
      FoldLocality(R, vis, init, m);
      SubtreeValid(R, q.node);
      OccludedEffect(R, FoldResolve(R, vis, init), q.node);
    }
  }
}
