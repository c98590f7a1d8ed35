/**
 * The cumulative ranks of findNodesSorted: each sorted id starts at the base
 * rank and is raised to every earlier id's rank plus the weight of its
 * after-edge to that id; the ranks are the longest weighted paths.
 */
module Ranker {
  import opened Nodes
  import opened RankMerge
  import opened EdgeResolver
  import opened Sequencer

  /** The id at position k has an after-edge to the id at position j. */
  ghost predicate EdgeTo(order: seq<NodeId>, after: EdgeMap, k: int, j: int)
    requires 0 <= j < |order| && 0 <= k < |order|
  {
    order[j] in EdgesOf(after, order[k])
  }

  /**
   * ranks[k] is the rank of the id at position k: at least the base rank,
   * at least ranks[j] + w for every earlier position j its after-edges reach
   * with weight w, and equal to one of these bounds.
   */
  ghost predicate RankOk(order: seq<NodeId>, after: EdgeMap, base: int, ranks: seq<int>, k: int)
    requires 0 <= k < |ranks| <= |order|
  {
    base <= ranks[k] &&
    (forall j :: 0 <= j < k && EdgeTo(order, after, k, j) ==> ranks[j] + after[order[k]][order[j]] <= ranks[k]) &&
    (ranks[k] == base ||
     exists j :: 0 <= j < k && EdgeTo(order, after, k, j) && ranks[k] == ranks[j] + after[order[k]][order[j]])
  }

  ghost predicate IsRanking(order: seq<NodeId>, after: EdgeMap, base: int, ranks: seq<int>)
  {
    |ranks| == |order| && forall k :: 0 <= k < |order| ==> RankOk(order, after, base, ranks, k)
  }

  /** Every rank is at least the base rank, and the first id gets exactly the base rank. */
  lemma RankFloor(order: seq<NodeId>, after: EdgeMap, base: int, ranks: seq<int>)
    requires IsRanking(order, after, base, ranks)
    ensures forall k :: 0 <= k < |ranks| ==> base <= ranks[k]
    ensures |ranks| > 0 ==> ranks[0] == base
  {
    forall k | 0 <= k < |ranks| ensures base <= ranks[k] {
      assert RankOk(order, after, base, ranks, k);
    }
    if |ranks| > 0 {
      assert RankOk(order, after, base, ranks, 0);
    }
  }

  /** The ranks are determined by the order, the edges and the base rank. */
  lemma RankingUnique(order: seq<NodeId>, after: EdgeMap, base: int, r1: seq<int>, r2: seq<int>)
    requires IsRanking(order, after, base, r1) && IsRanking(order, after, base, r2)
    ensures r1 == r2
  {
    forall k | 0 <= k < |order| ensures r1[k] == r2[k] {
      RankingUniqueAt(order, after, base, r1, r2, k);
    }
  }

  lemma {:induction false} RankingUniqueAt(order: seq<NodeId>, after: EdgeMap, base: int, r1: seq<int>, r2: seq<int>, k: nat)
    requires IsRanking(order, after, base, r1) && IsRanking(order, after, base, r2) && k < |order|
    ensures r1[k] == r2[k]
    decreases k
  {
    forall j | 0 <= j < k ensures r1[j] == r2[j] {
      RankingUniqueAt(order, after, base, r1, r2, j);
    }
    assert RankOk(order, after, base, r1, k) && RankOk(order, after, base, r2, k);
    if r1[k] != base {
      var j :| 0 <= j < k && EdgeTo(order, after, k, j) && r1[k] == r1[j] + after[order[k]][order[j]];
      assert r1[k] <= r2[k];
    }
    if r2[k] != base {
      var j :| 0 <= j < k && EdgeTo(order, after, k, j) && r2[k] == r2[j] + after[order[k]][order[j]];
      assert r2[k] <= r1[k];
    }
  }

  /**
   * In a settled order every after-edge x -> y points back to an earlier
   * position, and the rank of x is at least the rank of y plus the weight.
   */
  lemma RanksRespectEdges(order: seq<NodeId>, after: EdgeMap, base: int, ranks: seq<int>, j: int, k: int)
    requires Settled(after, {}, order) && IsRanking(order, after, base, ranks)
    requires 0 <= j < |order| && 0 <= k < |order| && order[j] in EdgesOf(after, order[k])
    ensures j < k && ranks[j] + after[order[k]][order[j]] <= ranks[k]
  {
    SettledEdge(after, {}, order, k, order[j]);
    var i :| 0 <= i < k && order[..k][i] == order[j];
    assert order[i] == order[j];
    assert RankOk(order, after, base, ranks, k);
  }

  /** A rank depends only on the ranks before it. */
  lemma RankOkExtend(order: seq<NodeId>, after: EdgeMap, base: int, ranks: seq<int>, x: int, k: int)
    requires 0 <= k < |ranks| < |order| && RankOk(order, after, base, ranks, k)
    ensures RankOk(order, after, base, ranks + [x], k)
  {
    var r := ranks + [x];
    assert forall j :: 0 <= j <= k ==> r[j] == ranks[j];
  }

  // ---------------------------------------------------------------- the operation

  /** The rank of position k from the ranks of the earlier positions (the ctr2 loop of the rank-map findNodesSorted). */
  method RankOf(order: seq<NodeId>, after: EdgeMap, base: int, ranks: seq<int>, k: int) returns (currRank: int)
    requires 0 <= k < |order| && |ranks| == k
    ensures RankOk(order, after, base, ranks + [currRank], k)
  {
    currRank := base;
    var nodeRanks := EdgesOf(after, order[k]);
    for ctr2 := 0 to k
      invariant base <= currRank
      invariant forall j :: 0 <= j < ctr2 && EdgeTo(order, after, k, j) ==> ranks[j] + after[order[k]][order[j]] <= currRank
      invariant currRank == base ||
                exists j :: 0 <= j < ctr2 && EdgeTo(order, after, k, j) && currRank == ranks[j] + after[order[k]][order[j]]
    {
      var prevNodeId := order[ctr2];
      var prevRank := ranks[ctr2];
      if prevNodeId in nodeRanks {
        currRank := Max(currRank, prevRank + nodeRanks[prevNodeId]);
      }
    }
    var r := ranks + [currRank];
    assert forall j :: 0 <= j < k ==> r[j] == ranks[j];
  }

  /** The ranks of every sorted id (the ctr1 loop of the rank-map findNodesSorted). */
  method ComputeRanks(order: seq<NodeId>, after: EdgeMap, base: int) returns (ranks: seq<int>)
    ensures IsRanking(order, after, base, ranks)
  {
    ranks := [];
    for ctr1 := 0 to |order|
      invariant |ranks| == ctr1
      invariant forall k :: 0 <= k < ctr1 ==> RankOk(order, after, base, ranks, k)
    {
      var currRank := RankOf(order, after, base, ranks, ctr1);
      forall k | 0 <= k < ctr1 ensures RankOk(order, after, base, ranks + [currRank], k) {
        RankOkExtend(order, after, base, ranks, currRank, k);
      }
      ranks := ranks + [currRank];
    }
  }

  // ---------------------------------------------------------------- ranks that cannot fall along an edge

  /** The after-edges with every negative weight raised to zero. */
  function ClampWeights(after: EdgeMap): EdgeMap
  {
    map x | x in after :: map y | y in after[x] :: Max(after[x][y], 0)
  }

  /** Clamping keeps every edge and replaces its weight by a non-negative one, unchanged when already non-negative. */
  lemma ClampEdge(after: EdgeMap, x: NodeId, y: NodeId)
    ensures y in EdgesOf(ClampWeights(after), x) <==> y in EdgesOf(after, x)
    ensures y in EdgesOf(after, x) ==>
              ClampWeights(after)[x][y] >= 0 && ClampWeights(after)[x][y] >= after[x][y] &&
              (after[x][y] >= 0 ==> ClampWeights(after)[x][y] == after[x][y])
  {
  }

  /** An order settled for the after-edges is settled for the clamped ones: clamping changes no edge. */
  lemma SettledClamp(after: EdgeMap, order: seq<NodeId>)
    requires Settled(after, {}, order)
    ensures Settled(ClampWeights(after), {}, order)
  {
    forall k, y | 0 <= k < |order| && y in EdgesOf(ClampWeights(after), order[k]) ensures y in order[..k] {
      ClampEdge(after, order[k], y);
      SettledEdge(after, {}, order, k, y);
    }
  }

  /** With no negative weight, clamping changes nothing, so the clamped ranks are the ranks. */
  lemma ClampAgrees(after: EdgeMap, order: seq<NodeId>, base: int, ranks: seq<int>, clamped: seq<int>)
    requires forall x, y :: x in after && y in after[x] ==> after[x][y] >= 0
    requires IsRanking(order, after, base, ranks) && IsRanking(order, ClampWeights(after), base, clamped)
    ensures clamped == ranks
  {
    var c := ClampWeights(after);
    assert c.Keys == after.Keys;
    forall x | x in c ensures c[x] == after[x] {
      assert c[x].Keys == after[x].Keys;
    }
    assert c == after;
    RankingUnique(order, after, base, ranks, clamped);
  }
}
