/**
 * `OcclusionQuery` of maze/MazeApp.hpp as an oracle.
 *
 * A query is bound to one kd-tree node when it is made.  Drawing the node's
 * box and reading the GPU's answer are not modelled: the answer (whether any
 * sample of the box passed the depth test) and the number of polls after
 * which it becomes available are fixed when the query is issued.  The GPU
 * is a clock that advances by one tick each time a query is polled, so a
 * query that is polled often enough always becomes available.
 */
module Occlusion {
  import opened KdNode

  /** The graphics device: a clock counting the polls of query results. */
  class Gpu {
    var clock: nat

    constructor()
      ensures clock == 0
    {
      clock := 0;
    }
  }

  /** An occlusion query issued for the bounding box of one node. */
  class OcclusionQuery {
    const node: Node
    const gpu: Gpu
    const samplesPassed: bool
    const readyAt: nat

    /**
     * Issues a query for `node`: the query keeps that node for its whole
     * lifetime, and its answer is ready `latency` polls from now.
     */
    constructor(node: Node, gpu: Gpu, samplesPassed: bool, latency: nat)
      ensures this.node == node && this.gpu == gpu && this.samplesPassed == samplesPassed
      ensures readyAt == gpu.clock + latency
    {
      this.node := node;
      this.gpu := gpu;
      this.samplesPassed := samplesPassed;
      this.readyAt := gpu.clock + latency;
    }

    /** `isAvailable`: polls the GPU, which takes one tick, and says whether the answer had arrived. */
    method IsAvailable() returns (available: bool)
      modifies gpu`clock
      ensures available <==> old(gpu.clock) >= readyAt
      ensures gpu.clock == old(gpu.clock) + 1
    {
      available := gpu.clock >= readyAt;
      gpu.clock := gpu.clock + 1;
    }

    /** `getResult`: whether any sample of the node's box passed. */
    function GetResult(): bool
    {
      samplesPassed
    }

    /** `getNode`: the node the query was issued for. */
    function GetNode(): Node
    {
      node
    }
  }

  /** The nodes the queries of `qs` were issued for, in queue order. */
  function QueryNodes(qs: seq<OcclusionQuery>): (ns: seq<Node>)
    ensures |ns| == |qs| && forall k :: 0 <= k < |qs| ==> ns[k] == qs[k].node
  {
    seq(|qs|, k requires 0 <= k < |qs| => qs[k].node)
  }

  /** The nodes of a queue made of two parts are those of each part. */
  lemma QueryNodesConcat(a: seq<OcclusionQuery>, b: seq<OcclusionQuery>)
    ensures QueryNodes(a + b) == QueryNodes(a) + QueryNodes(b)
  {
  }

  /** Every query of `qs` was issued on `gpu`. */
  ghost predicate BoundTo(qs: seq<OcclusionQuery>, gpu: Gpu)
  {
    forall q :: q in qs ==> q.gpu == gpu
  }

  /** Every query of `qs` answers what `samplesPassed` says of its node. */
  ghost predicate Answers(qs: seq<OcclusionQuery>, samplesPassed: Node -> bool)
  {
    forall q :: q in qs ==> q.samplesPassed == samplesPassed(q.node)
  }
}
