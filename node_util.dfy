/**
 * The two public entry points of NodeUtil: findNodesSorted into a rank map
 * and findNodesSorted into a list.
 */
module NodeUtil {
  import opened Wrappers
  import opened Nodes
  import opened EdgeResolver
  import opened NodeOrders
  import opened Sequencer
  import opened Ranker
  import opened Buckets

  /** Every input node has a non-blank id. */
  ghost predicate IdsNonBlank(input: seq<NodeData>)
  {
    forall i :: 0 <= i < |input| ==> NonBlank(input[i].nodeId)
  }

  /** The after-edges the sort follows: both kinds of reference, each also reversed. */
  ghost function AfterEdges(input: seq<NodeData>): EdgeMap
  {
    Resolved(input, true, After)
  }

  /**
   * The outcome of a successful sort of the input: order lists every input
   * id once, each after the targets of its after-edges, and ranks are the
   * cumulative ranks of that order from the base rank.
   */
  ghost predicate SortedBy(input: seq<NodeData>, baseRank: int, order: seq<NodeId>, ranks: seq<int>)
  {
    NoDup(order) && Elems(order) == Ids(input) &&
    Settled(AfterEdges(input), {}, order) && IsRanking(order, AfterEdges(input), baseRank, ranks)
  }

  /**
   * In the rank map a successful sort deals into an empty target, the node
   * of each sorted id sits in the bucket of its own rank and in no other.
   */
  lemma OneBucket(input: seq<NodeData>, baseRank: int, order: seq<NodeId>, ranks: seq<int>, k: int, r: int)
    requires SortedBy(input, baseRank, order, ranks) && AllIndexed(order, InputMap(input), |order|)
    requires 0 <= k < |order|
    ensures var b := Bucketed(map[], order, ranks, InputMap(input), |order|);
            InputMap(input)[order[k]] in BucketOf(b, r) <==> r == ranks[k]
  {
    var im := InputMap(input);
    var x := im[order[k]];
    BucketedMembership(map[], order, ranks, im, |order|, r, x);
    if exists k' :: 0 <= k' < |order| && ranks[k'] == r && im[order[k']] == x {
      var k' :| 0 <= k' < |order| && ranks[k'] == r && im[order[k']] == x;
      NodeIdOf(input, order[k]);
      NodeIdOf(input, order[k']);
      assert order[k'] == order[k];
      assert k' == k;
    }
  }

  /** The node InputMap keeps for an id carries that id. */
  lemma NodeIdOf(input: seq<NodeData>, id: NodeId)
    requires id in InputMap(input)
    ensures InputMap(input)[id].nodeId == id
  {
    InputMapLast(input, id);
  }

  lemma OrderIndexed(input: seq<NodeData>, order: seq<NodeId>)
    requires Elems(order) == Ids(input)
    ensures AllIndexed(order, InputMap(input), |order|)
  {
    forall k | 0 <= k < |order| ensures order[k] in InputMap(input) {
      assert order[k] in Elems(order);
      InputMapLast(input, order[k]);
    }
  }

  lemma EndpointsFromIds(input: seq<NodeData>)
    requires IdsNonBlank(input)
    ensures EndpointsNonBlank(input, true)
  {
  }

  /** The traversal of every input id along the after-edges (the sweep in the rank-map findNodesSorted). */
  method SortInputIds(input: seq<NodeData>, inputMap: map<NodeId, NodeData>, afterNodes: EdgeMap)
    returns (sorted: Result<seq<NodeId>, SortError>)
    requires IdsNonBlank(input) && inputMap.Keys == Ids(input)
    requires afterNodes.Keys == Ids(input) && Targets(afterNodes) <= Ids(input)
    ensures sorted.Failure? <==> HasCycle(afterNodes)
    ensures sorted.Success? ==>
              NoDup(sorted.value) && Elems(sorted.value) == Ids(input) && Settled(afterNodes, {}, sorted.value)
  {
    forall id | id in Ids(input) ensures NonBlank(id) {
      var i :| 0 <= i < |input| && input[i].nodeId == id;
    }
    sorted := SortAll(inputMap.Keys, afterNodes);
  }

  /**
   * Sorts the input by its before/after references and deals the nodes into
   * targetRanks by cumulative rank. Fails (where sortNodeIds throws) exactly
   * when the after-edges have a cycle, leaving targetRanks only cleared.
   * On success result is true when the input is not empty.
   */
  method FindNodesSortedRanks(baseRank: int, input: seq<NodeData>, targetRanks: RankMap, isClearFirst: bool)
    returns (result: Result<bool, SortError>, targetRanks': RankMap, ghost order: seq<NodeId>, ghost ranks: seq<int>)
    requires IdsNonBlank(input)
    ensures result.Failure? <==> HasCycle(AfterEdges(input))
    ensures result.Failure? ==> targetRanks' == if isClearFirst then map[] else targetRanks
    ensures result.Success? ==>
              (result.value <==> |input| > 0) && SortedBy(input, baseRank, order, ranks) &&
              AllIndexed(order, InputMap(input), |order|) &&
              targetRanks' == Bucketed(if isClearFirst then map[] else targetRanks, order, ranks, InputMap(input), |order|)
  {
    targetRanks' := targetRanks;
    if isClearFirst {
      targetRanks' := map[];
    }
    order, ranks := [], [];
    var inputMap := BuildInputMap(input);
    EndpointsFromIds(input);
    var _, beforeNodes, afterNodes := FindNodeOrders(input, true, map[], map[], false);
    UnionEmpty(AfterEdges(input));
    ResolvedKeys(input, true, After);
    ResolvedTargets(input, true, After);
    InputMapKeys(input);
    var sorted := SortInputIds(input, inputMap, afterNodes);
    if sorted.Failure? {
      result := Failure(sorted.error);
      return;
    }
    var allSortedNodeIds := sorted.value;
    OrderIndexed(input, allSortedNodeIds);
    var sortedRanks;
    sortedRanks, targetRanks' := RankAndBucket(allSortedNodeIds, afterNodes, baseRank, inputMap, targetRanks');
    order, ranks := allSortedNodeIds, sortedRanks;
    NonEmptyIds(input, allSortedNodeIds);
    result := Success(allSortedNodeIds != []);
  }

  lemma NonEmptyIds(input: seq<NodeData>, order: seq<NodeId>)
    requires Elems(order) == Ids(input)
    ensures order != [] <==> |input| > 0
  {
    if |input| > 0 {
      assert input[0].nodeId in Ids(input);
    }
    if order != [] {
      assert order[0] in Elems(order);
    }
  }

  /** The cumulative ranks of the sorted ids, and their nodes dealt into the target by rank. */
  method RankAndBucket(order: seq<NodeId>, after: EdgeMap, baseRank: int, inputMap: map<NodeId, NodeData>,
                       target: RankMap)
    returns (ranks: seq<int>, target': RankMap)
    requires AllIndexed(order, inputMap, |order|)
    ensures IsRanking(order, after, baseRank, ranks)
    ensures target' == Bucketed(target, order, ranks, inputMap, |order|)
  {
    ranks := ComputeRanks(order, after, baseRank);
    target' := BucketNodes(order, ranks, inputMap, target);
  }

  /**
   * Sorts the input as above and appends its nodes to target in ascending
   * rank order. Fails exactly when the after-edges have a cycle, leaving
   * target only cleared. On success result is true when the target was
   * cleared or some node was appended.
   */
  method FindNodesSortedList(baseRank: int, input: seq<NodeData>, target: seq<NodeData>, isClearFirst: bool)
    returns (result: Result<bool, SortError>, target': seq<NodeData>, ghost order: seq<NodeId>, ghost ranks: seq<int>)
    requires IdsNonBlank(input)
    ensures result.Failure? <==> HasCycle(AfterEdges(input))
    ensures result.Failure? ==> target' == if isClearFirst then [] else target
    ensures result.Success? ==>
              SortedBy(input, baseRank, order, ranks) && AllIndexed(order, InputMap(input), |order|) &&
              target' == (if isClearFirst then [] else target) + Listed(order, ranks, InputMap(input)) &&
              (result.value <==> isClearFirst || Listed(order, ranks, InputMap(input)) != [])
  {
    var flag := false;
    target' := target;
    if isClearFirst {
      target' := [];
      flag := true;
    }
    var tempResult, tempMap;
    tempResult, tempMap, order, ranks := FindNodesSortedRanks(baseRank, input, map[], false);
    if tempResult.Failure? {
      result := Failure(tempResult.error);
      return;
    }
    var added;
    added, target' := AppendAscending(tempMap, target');
    result := Success(flag || added);
  }

  // ---------------------------------------------------------------- the listed output

  /** The list overload lists each input id's node exactly once, and nothing else. */
  lemma ListsEachInputOnce(input: seq<NodeData>, baseRank: int, order: seq<NodeId>, ranks: seq<int>)
    requires SortedBy(input, baseRank, order, ranks) && AllIndexed(order, InputMap(input), |order|)
    ensures forall id :: id in Ids(input) ==> multiset(Listed(order, ranks, InputMap(input)))[InputMap(input)[id]] == 1
    ensures forall x :: x in Listed(order, ranks, InputMap(input)) ==>
              x.nodeId in Ids(input) && x == InputMap(input)[x.nodeId]
  {
    var im := InputMap(input);
    forall i | 0 <= i < |order| ensures im[order[i]].nodeId == order[i] {
      NodeIdOf(input, order[i]);
    }
    ListedOnce(order, ranks, im);
    forall id | id in Ids(input) ensures multiset(Listed(order, ranks, im))[im[id]] == 1 {
      assert id in Elems(order);
    }
    forall x | x in Listed(order, ranks, im) ensures x.nodeId in Ids(input) && x == im[x.nodeId] {
      var k :| 0 <= k < |order| && im[order[k]] == x;
      assert order[k] in Elems(order);
    }
  }

  /**
   * For ranks of an order settled for the after-edges, the node an
   * after-edge of non-negative weight points to is listed before the node
   * it starts from.
   */
  lemma RankedListRespects(order: seq<NodeId>, after: EdgeMap, baseRank: int, ranks: seq<int>,
                           im: map<NodeId, NodeData>, j: int, k: int)
    requires Settled(after, {}, order) && IsRanking(order, after, baseRank, ranks) && AllIndexed(order, im, |order|)
    requires 0 <= j < |order| && 0 <= k < |order| && order[j] in EdgesOf(after, order[k])
    requires after[order[k]][order[j]] >= 0
    ensures Precedes(Listed(order, ranks, im), im[order[j]], im[order[k]])
  {
    RanksRespectEdges(order, after, baseRank, ranks, j, k);
    ListedPrecedes(order, ranks, im, j, k);
  }

  /**
   * The list overload lists the node an after-edge of non-negative weight
   * points to before the node it starts from.
   */
  lemma ListedRespectsEdges(input: seq<NodeData>, baseRank: int, order: seq<NodeId>, ranks: seq<int>,
                            x: NodeId, y: NodeId)
    requires SortedBy(input, baseRank, order, ranks) && AllIndexed(order, InputMap(input), |order|)
    requires y in EdgesOf(AfterEdges(input), x) && AfterEdges(input)[x][y] >= 0
    ensures x in InputMap(input) && y in InputMap(input)
    ensures Precedes(Listed(order, ranks, InputMap(input)), InputMap(input)[y], InputMap(input)[x])
  {
    var after := AfterEdges(input);
    ResolvedKeys(input, true, After);
    ResolvedTargets(input, true, After);
    assert y in Targets(after);
    assert x in Elems(order) && y in Elems(order);
    var k :| 0 <= k < |order| && order[k] == x;
    var j :| 0 <= j < |order| && order[j] == y;
    RankedListRespects(order, after, baseRank, ranks, InputMap(input), j, k);
  }

  /**
   * The list the clamped ranks give: the sorted ids ranked with every
   * negative after-edge weight raised to zero, dealt into an empty rank map
   * and flattened in ascending rank order. Every after-edge then points to a
   * node listed earlier.
   */
  method ListByClampedRanks(order: seq<NodeId>, after: EdgeMap, baseRank: int, inputMap: map<NodeId, NodeData>)
    returns (listed: seq<NodeData>, ranks: seq<int>)
    requires AllIndexed(order, inputMap, |order|) && Settled(after, {}, order)
    ensures IsRanking(order, ClampWeights(after), baseRank, ranks)
    ensures listed == Listed(order, ranks, inputMap)
    ensures forall j, k :: 0 <= j < |order| && 0 <= k < |order| && order[j] in EdgesOf(after, order[k]) ==>
              Precedes(listed, inputMap[order[j]], inputMap[order[k]])
  {
    var clamped := ClampWeights(after);
    ranks := ComputeRanks(order, clamped, baseRank);
    var buckets := BucketNodes(order, ranks, inputMap, map[]);
    var _, l := AppendAscending(buckets, []);
    listed := l;
    assert listed == Listed(order, ranks, inputMap);
    SettledClamp(after, order);
    forall j, k | 0 <= j < |order| && 0 <= k < |order| && order[j] in EdgesOf(after, order[k])
      ensures Precedes(listed, inputMap[order[j]], inputMap[order[k]])
    {
      ClampEdge(after, order[k], order[j]);
      RankedListRespects(order, clamped, baseRank, ranks, inputMap, j, k);
    }
  }

  // ---------------------------------------------------------------- a negative weight misorders the list

  /**
   * C must follow A with weight 10, and B must follow C with weight -5. The
   * sort is [A, C, B] with ranks 0, 10 and 5, so the rank order lists B
   * before C.
   */
  function MisorderInput(): seq<NodeData>
  {
    [NodeData("A", {"a"}, map[], map[]),
     NodeData("C", {"c"}, map[], map["a" := 10]),
     NodeData("B", {"b"}, map[], map["c" := -5])]
  }

  lemma MisorderIds(input: seq<NodeData>)
    requires input == MisorderInput()
    ensures Ids(input) == {"A", "B", "C"}
  {
    assert input[0].nodeId == "A" && input[1].nodeId == "C" && input[2].nodeId == "B";
  }

  lemma MisorderLinks(input: seq<NodeData>, side: Side, x: NodeId, y: NodeId, w: int)
    requires input == MisorderInput()
    ensures Linked(input, side, x, y) <==>
            side == After && ((x == "C" && y == "A") || (x == "B" && y == "C"))
    ensures LinkedWith(input, side, x, y, w) <==>
            side == After && ((x == "C" && y == "A" && w == 10) || (x == "B" && y == "C" && w == -5))
  {
    assert forall i, j, t :: Link(input, side, i, j, t) ==>
             side == After && ((i == 1 && j == 0 && t == "a") || (i == 2 && j == 1 && t == "c"));
    if side == After {
      assert Link(input, After, 1, 0, "a") && Link(input, After, 2, 1, "c");
    }
  }

  /** The after-edges of the example: C -> A of weight 10 and B -> C of weight -5, and no others. */
  lemma MisorderEdges(input: seq<NodeData>, x: NodeId, y: NodeId)
    requires input == MisorderInput()
    ensures var after := AfterEdges(input);
            (y in EdgesOf(after, x) <==> (x == "C" && y == "A") || (x == "B" && y == "C")) &&
            (x == "C" && y == "A" ==> after[x][y] == 10) &&
            (x == "B" && y == "C" ==> after[x][y] == -5)
  {
    var after := AfterEdges(input);
    ResolvedEdge(input, After, x, y);
    MisorderLinks(input, After, x, y, 0);
    MisorderLinks(input, Before, y, x, 0);
    if y in EdgesOf(after, x) {
      MisorderLinks(input, After, x, y, after[x][y]);
      MisorderLinks(input, Before, y, x, after[x][y]);
    }
  }

  /** The after-edges of the example, as a shape of the edge map alone. */
  ghost predicate MisorderShape(after: EdgeMap)
  {
    after.Keys == {"A", "B", "C"} &&
    (forall x, y :: y in EdgesOf(after, x) <==> (x == "C" && y == "A") || (x == "B" && y == "C")) &&
    "A" in EdgesOf(after, "C") && after["C"]["A"] == 10 &&
    "C" in EdgesOf(after, "B") && after["B"]["C"] == -5
  }

  lemma MisorderShaped(input: seq<NodeData>)
    requires input == MisorderInput()
    ensures MisorderShape(AfterEdges(input))
  {
    ResolvedKeys(input, true, After);
    MisorderIds(input);
    forall x, y ensures y in EdgesOf(AfterEdges(input), x) <==> (x == "C" && y == "A") || (x == "B" && y == "C") {
      MisorderEdges(input, x, y);
    }
    MisorderEdges(input, "C", "A");
    MisorderEdges(input, "B", "C");
  }

  /** The example has no cycle, so both findNodesSorted overloads succeed on it. */
  lemma MisorderSorts(input: seq<NodeData>)
    requires input == MisorderInput()
    ensures !HasCycle(AfterEdges(input))
  {
    MisorderShaped(input);
    ShapeAcyclic(AfterEdges(input));
  }

  lemma ShapeAcyclic(after: EdgeMap)
    requires MisorderShape(after)
    ensures !HasCycle(after)
  {
    var order := ["A", "C", "B"];
    assert Elems(order) == {"A", "B", "C"};
    forall k, y | 0 <= k < |order| && y in EdgesOf(after, order[k]) ensures y in order[..k] {
      if k == 2 {
        assert y == "C" && order[..k] == ["A", "C"];
      } else if k == 1 {
        assert y == "A" && order[..k] == ["A"];
      }
    }
    assert Settled(after, {}, order);
    SettledAcyclic(after, order);
  }

  /**
   * On the example, every successful sort lists the node of B, which must
   * follow C, before the node of C.
   */
  lemma NegativeWeightMisorders(input: seq<NodeData>, order: seq<NodeId>, ranks: seq<int>)
    requires input == MisorderInput()
    requires SortedBy(input, 0, order, ranks) && AllIndexed(order, InputMap(input), |order|)
    ensures "C" in EdgesOf(AfterEdges(input), "B") && AfterEdges(input)["B"]["C"] < 0
    ensures "B" in InputMap(input) && "C" in InputMap(input)
    ensures Precedes(Listed(order, ranks, InputMap(input)), InputMap(input)["B"], InputMap(input)["C"])
  {
    var after := AfterEdges(input);
    MisorderShaped(input);
    MisorderIds(input);
    assert "A" in Elems(order) && "B" in Elems(order) && "C" in Elems(order);
    var a :| 0 <= a < |order| && order[a] == "A";
    var b :| 0 <= b < |order| && order[b] == "B";
    var c :| 0 <= c < |order| && order[c] == "C";
    RanksRespectEdges(order, after, 0, ranks, a, c);
    RanksRespectEdges(order, after, 0, ranks, c, b);
    MisorderRank(after, order, ranks, a, c, b);
    ListedPrecedes(order, ranks, InputMap(input), b, c);
  }

  /** The example's ranks: A gets 0, C gets 10 and B gets 5. */
  lemma MisorderRank(after: EdgeMap, order: seq<NodeId>, ranks: seq<int>, a: int, c: int, b: int)
    requires MisorderShape(after) && IsRanking(order, after, 0, ranks) && NoDup(order)
    requires 0 <= a < |order| && 0 <= c < |order| && 0 <= b < |order|
    requires order[a] == "A" && order[c] == "C" && order[b] == "B" && a < c < b
    ensures ranks[a] == 0 && ranks[c] == 10 && ranks[b] == 5
  {
    assert RankOk(order, after, 0, ranks, a) && RankOk(order, after, 0, ranks, c) && RankOk(order, after, 0, ranks, b);
    assert ranks[a] == 0 by {
      assert forall j :: 0 <= j < a ==> !EdgeTo(order, after, a, j);
    }
    assert ranks[c] == 10 by {
      assert forall j :: 0 <= j < c && EdgeTo(order, after, c, j) ==> j == a && ranks[j] + after[order[c]][order[j]] == 10;
      assert EdgeTo(order, after, c, a);
    }
    assert forall j :: 0 <= j < b && EdgeTo(order, after, b, j) ==> j == c && ranks[j] + after[order[b]][order[j]] == 5;
    assert EdgeTo(order, after, b, c);
  }
}
