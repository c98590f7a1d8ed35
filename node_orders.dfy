/**
 * NodeUtil.findNodeOrders: the before- and after-edge maps of a node list,
 * and what is proved about them: which edges exist, with which weight, and
 * which ids they connect.
 */
module NodeOrders {
  import opened Nodes
  import opened RankMerge
  import opened TypeIndexing
  import opened EdgeResolver

  /**
   * Node i refers, on the given side, through type t to node j: t is one of
   * node i's references on that side and one of node j's types.
   */
  ghost predicate Link(nodes: seq<NodeData>, side: Side, i: int, j: int, t: TypeLabel)
  {
    0 <= i < |nodes| && 0 <= j < |nodes| && t in Refs(nodes[i], side) && t in nodes[j].nodeTypes
  }

  /** Some link joins a node with id x to a node with id y with weight w. */
  ghost predicate LinkedWith(nodes: seq<NodeData>, side: Side, x: NodeId, y: NodeId, w: int)
  {
    exists i, j, t :: Link(nodes, side, i, j, t) && nodes[i].nodeId == x && nodes[j].nodeId == y &&
                      Refs(nodes[i], side)[t] == w
  }

  /** Some link joins a node with id x to a node with id y. */
  ghost predicate Linked(nodes: seq<NodeData>, side: Side, x: NodeId, y: NodeId)
  {
    exists i, j, t :: Link(nodes, side, i, j, t) && nodes[i].nodeId == x && nodes[j].nodeId == y
  }

  // ---------------------------------------------------------------- the forward edges

  /** The offers behind the forward edges are exactly the links. */
  lemma NodeOffersAreLinks(nodes: seq<NodeData>, side: Side, x: NodeId, y: NodeId, w: int)
    ensures (y, w) in NodeOffers(nodes, Indexed(map[], nodes), x, side) <==> LinkedWith(nodes, side, x, y, w)
  {
    var index := Indexed(map[], nodes);
    if (y, w) in NodeOffers(nodes, index, x, side) {
      var i, p :| 0 <= i < |nodes| && nodes[i].nodeId == x && p in RefOffers(Refs(nodes[i], side), index) && p == (y, w);
      var t, m :| t in Refs(nodes[i], side) && t in index && m in index[t] && p == (m, Refs(nodes[i], side)[t]);
      IndexedMembership(map[], nodes, t, y);
      var j :| 0 <= j < |nodes| && nodes[j].nodeId == y && t in nodes[j].nodeTypes;
      assert Link(nodes, side, i, j, t);
    }
    if LinkedWith(nodes, side, x, y, w) {
      var i, j, t :| Link(nodes, side, i, j, t) && nodes[i].nodeId == x && nodes[j].nodeId == y &&
                     Refs(nodes[i], side)[t] == w;
      IndexedMembership(map[], nodes, t, y);
      assert t in index && y in index[t];
      assert (y, w) in RefOffers(Refs(nodes[i], side), index);
    }
  }

  /** The forward maps have a row for every node id and nothing else. */
  lemma ForwardKeys(nodes: seq<NodeData>, side: Side)
    ensures Forward(nodes, side).Keys == Ids(nodes)
  {
  }

  /**
   * The forward edges: an edge x -> y exactly when some node with id x
   * refers to a type some node with id y carries.
   */
  lemma ForwardEdge(nodes: seq<NodeData>, side: Side, x: NodeId, y: NodeId)
    ensures y in EdgesOf(Forward(nodes, side), x) <==> Linked(nodes, side, x, y)
  {
    var index := Indexed(map[], nodes);
    var f := Forward(nodes, side);
    if x in Ids(nodes) {
      assert IsMaxOf(f[x], NodeOffers(nodes, index, x, side));
      if y in f[x] {
        NodeOffersAreLinks(nodes, side, x, y, f[x][y]);
      }
      if Linked(nodes, side, x, y) {
        var i, j, t :| Link(nodes, side, i, j, t) && nodes[i].nodeId == x && nodes[j].nodeId == y;
        NodeOffersAreLinks(nodes, side, x, y, Refs(nodes[i], side)[t]);
      }
    } else {
      assert forall i | 0 <= i < |nodes| :: nodes[i].nodeId in Ids(nodes);
    }
  }

  /** The weight of a forward edge is the largest weight among the links behind it. */
  lemma ForwardWeight(nodes: seq<NodeData>, side: Side, x: NodeId, y: NodeId)
    ensures forall w :: LinkedWith(nodes, side, x, y, w) ==>
                          y in EdgesOf(Forward(nodes, side), x) && w <= Forward(nodes, side)[x][y]
    ensures y in EdgesOf(Forward(nodes, side), x) ==> LinkedWith(nodes, side, x, y, Forward(nodes, side)[x][y])
  {
    var index := Indexed(map[], nodes);
    var f := Forward(nodes, side);
    forall w | LinkedWith(nodes, side, x, y, w) ensures y in EdgesOf(f, x) && w <= f[x][y] {
      var i, j, t :| Link(nodes, side, i, j, t) && nodes[i].nodeId == x && nodes[j].nodeId == y &&
                     Refs(nodes[i], side)[t] == w;
      assert x in Ids(nodes);
      assert IsMaxOf(f[x], NodeOffers(nodes, index, x, side));
      NodeOffersAreLinks(nodes, side, x, y, w);
    }
    if y in EdgesOf(f, x) {
      assert IsMaxOf(f[x], NodeOffers(nodes, index, x, side));
      NodeOffersAreLinks(nodes, side, x, y, f[x][y]);
    }
  }

  /** Every forward edge ends at a node id. */
  lemma ForwardTargets(nodes: seq<NodeData>, side: Side)
    ensures Targets(Forward(nodes, side)) <= Ids(nodes)
  {
    forall y | y in Targets(Forward(nodes, side)) ensures y in Ids(nodes) {
      var x :| x in Forward(nodes, side) && y in Forward(nodes, side)[x];
      ForwardEdge(nodes, side, x, y);
      var i, j, t :| Link(nodes, side, i, j, t) && nodes[i].nodeId == x && nodes[j].nodeId == y;
    }
  }

  // ---------------------------------------------------------------- the resolved edges

  /** The resolved maps have a row for every node id and nothing else. */
  lemma ResolvedKeys(nodes: seq<NodeData>, isReverseAlso: bool, side: Side)
    ensures Resolved(nodes, isReverseAlso, side).Keys == Ids(nodes)
  {
    var f := Forward(nodes, side);
    var g := Forward(nodes, Opposite(side));
    ForwardKeys(nodes, side);
    ForwardKeys(nodes, Opposite(side));
    if isReverseAlso {
      forall y | y in Transpose(g) ensures y in Ids(nodes) {
        ForwardTargets(nodes, Opposite(side));
      }
    }
  }

  /**
   * With reverse inference, the resolved map on one side has an edge x -> y
   * exactly when a link on that side runs from x to y or a link on the
   * other side runs from y to x; its weight is the largest such link's.
   */
  lemma ResolvedEdge(nodes: seq<NodeData>, side: Side, x: NodeId, y: NodeId)
    ensures y in EdgesOf(Resolved(nodes, true, side), x) <==>
            Linked(nodes, side, x, y) || Linked(nodes, Opposite(side), y, x)
    ensures forall w :: LinkedWith(nodes, side, x, y, w) || LinkedWith(nodes, Opposite(side), y, x, w) ==>
                        w <= EdgesOf(Resolved(nodes, true, side), x)[y]
    ensures y in EdgesOf(Resolved(nodes, true, side), x) ==>
              var w := Resolved(nodes, true, side)[x][y];
              LinkedWith(nodes, side, x, y, w) || LinkedWith(nodes, Opposite(side), y, x, w)
  {
    var f := Forward(nodes, side);
    var g := Forward(nodes, Opposite(side));
    var a := EdgesOf(f, x);
    var b := EdgesOf(Transpose(g), x);
    MergeEdgesAt(f, Transpose(g), x);
    MergeWeightsAt(a, b, y);
    TransposeEdge(g, x, y);
    ForwardEdge(nodes, side, x, y);
    ForwardEdge(nodes, Opposite(side), y, x);
    ForwardWeight(nodes, side, x, y);
    ForwardWeight(nodes, Opposite(side), y, x);
  }

  /** Every resolved edge ends at a node id. */
  lemma ResolvedTargets(nodes: seq<NodeData>, isReverseAlso: bool, side: Side)
    ensures Targets(Resolved(nodes, isReverseAlso, side)) <= Ids(nodes)
  {
    var r := Resolved(nodes, isReverseAlso, side);
    forall y | y in Targets(r) ensures y in Ids(nodes) {
      var x :| x in r && y in r[x];
      if isReverseAlso {
        ResolvedEdge(nodes, side, x, y);
        if Linked(nodes, side, x, y) {
          var i, j, t :| Link(nodes, side, i, j, t) && nodes[i].nodeId == x && nodes[j].nodeId == y;
        } else {
          var i, j, t :| Link(nodes, Opposite(side), i, j, t) && nodes[i].nodeId == y && nodes[j].nodeId == x;
        }
      } else {
        ForwardTargets(nodes, side);
      }
    }
  }

  // ---------------------------------------------------------------- the operation

  /** temp holds the forward rows of the nodes seen so far. */
  ghost predicate PartialForward(temp: EdgeMap, nodes: seq<NodeData>, index: TypeIndex, side: Side)
  {
    temp.Keys == Ids(nodes) && forall id | id in temp :: IsMaxOf(temp[id], NodeOffers(nodes, index, id, side))
  }

  lemma PartialForwardDone(temp: EdgeMap, nodes: seq<NodeData>, side: Side)
    requires PartialForward(temp, nodes, Indexed(map[], nodes), side)
    ensures temp == Forward(nodes, side)
  {
    var f := Forward(nodes, side);
    forall id | id in temp ensures temp[id] == f[id] {
      MaxOfUnique(temp[id], f[id], NodeOffers(nodes, Indexed(map[], nodes), id, side));
    }
  }

  lemma RefTargetsNonBlank(input: seq<NodeData>, isReverseAlso: bool, i: int, side: Side)
    requires EndpointsNonBlank(input, isReverseAlso) && 0 <= i < |input|
    ensures var index := Indexed(map[], input);
            forall t, m :: t in Refs(input[i], side) && t in index && m in index[t] ==> NonBlank(m)
  {
    var index := Indexed(map[], input);
    forall t, m | t in Refs(input[i], side) && t in index && m in index[t] ensures NonBlank(m) {
      IndexedMembership(map[], input, t, m);
      var j :| 0 <= j < |input| && input[j].nodeId == m && t in input[j].nodeTypes;
    }
  }

  lemma ForwardSourcesNonBlank(input: seq<NodeData>, side: Side)
    requires EndpointsNonBlank(input, true)
    ensures SourcesNonBlank(Forward(input, side))
  {
    forall x, y | x in Forward(input, side) && y in Forward(input, side)[x] ensures NonBlank(x) {
      ForwardEdge(input, side, x, y);
      var i, j, t :| Link(input, side, i, j, t) && input[i].nodeId == x && input[j].nodeId == y;
      assert t in input[i].beforeTypes || t in input[i].afterTypes;
    }
  }

  /**
   * Adds one node's forward row on one side: gets or creates the row for its
   * id and merges in the offers its references make.
   */
  method ResolveNode(node: NodeData, index: TypeIndex, temp: EdgeMap, ghost nodes: seq<NodeData>, side: Side)
    returns (temp': EdgeMap)
    requires PartialForward(temp, nodes, index, side)
    requires forall t, m :: t in Refs(node, side) && t in index && m in index[t] ==> NonBlank(m)
    ensures PartialForward(temp', nodes + [node], index, side)
  {
    var row: Weights := if node.nodeId in temp then temp[node.nodeId] else map[];
    var merged := ResolveRefs(Refs(node, side), index, row);
    temp' := temp[node.nodeId := merged];
    IdsSnoc(nodes, node);
    forall id | id in temp' ensures IsMaxOf(temp'[id], NodeOffers(nodes + [node], index, id, side)) {
      NodeOffersSnoc(nodes, node, index, id, side);
      if id == node.nodeId {
        if node.nodeId in temp {
          PairsMaxOf(row);
          MaxOfCompose(row, merged, NodeOffers(nodes, index, id, side), RefOffers(Refs(node, side), index));
        } else {
          NodeOffersAbsent(nodes, index, id, side);
          assert Pairs(row) == {};
        }
      }
    }
  }

  /** findNodeOrders' loop over the input nodes: the forward rows of both sides. */
  method ForwardOrders(input: seq<NodeData>, isReverseAlso: bool, index: TypeIndex)
    returns (tempBefore: EdgeMap, tempAfter: EdgeMap)
    requires EndpointsNonBlank(input, isReverseAlso)
    requires index == Indexed(map[], input)
    ensures tempBefore == Forward(input, Before) && tempAfter == Forward(input, After)
  {
    tempBefore := map[];
    tempAfter := map[];
    for i := 0 to |input|
      invariant PartialForward(tempBefore, input[..i], index, Before)
      invariant PartialForward(tempAfter, input[..i], index, After)
    {
      RefTargetsNonBlank(input, isReverseAlso, i, Before);
      RefTargetsNonBlank(input, isReverseAlso, i, After);
      tempBefore := ResolveNode(input[i], index, tempBefore, input[..i], Before);
      tempAfter := ResolveNode(input[i], index, tempAfter, input[..i], After);
      assert input[..i + 1] == input[..i] + [input[i]];
    }
    assert input[..|input|] == input;
    PartialForwardDone(tempBefore, input, Before);
    PartialForwardDone(tempAfter, input, After);
  }

  /**
   * Builds the before- and after-edge maps of the input: the forward rows,
   * with isReverseAlso each side max-merged with the other side's edges
   * reversed, then put into the (optionally cleared) targets. result is true
   * when some row was built, that is, when the input is not empty.
   */
  method FindNodeOrders(input: seq<NodeData>, isReverseAlso: bool, beforeNodes: EdgeMap, afterNodes: EdgeMap,
                        isClearFirst: bool)
    returns (result: bool, beforeNodes': EdgeMap, afterNodes': EdgeMap)
    requires EndpointsNonBlank(input, isReverseAlso)
    ensures beforeNodes' == (if isClearFirst then map[] else beforeNodes) + Resolved(input, isReverseAlso, Before)
    ensures afterNodes' == (if isClearFirst then map[] else afterNodes) + Resolved(input, isReverseAlso, After)
    ensures result <==> |input| > 0
  {
    beforeNodes' := beforeNodes;
    afterNodes' := afterNodes;
    if isClearFirst {
      beforeNodes' := map[];
      afterNodes' := map[];
    }
    var _, index := FindNodeTypes(input, map[], false);
    var tempBefore, tempAfter := ForwardOrders(input, isReverseAlso, index);
    if isReverseAlso {
      ForwardSourcesNonBlank(input, Before);
      ForwardSourcesNonBlank(input, After);
      tempBefore, tempAfter := ReverseAlso(tempBefore, tempAfter);
    }
    beforeNodes' := beforeNodes' + tempBefore;
    afterNodes' := afterNodes' + tempAfter;
    assert Resolved(input, isReverseAlso, After) ==
           if isReverseAlso then MergeEdges(Forward(input, After), Transpose(Forward(input, Before)))
           else Forward(input, After);
    ResolvedKeys(input, isReverseAlso, Before);
    if |input| > 0 {
      assert input[0].nodeId in Ids(input);
    }
    result := tempBefore != map[] || tempAfter != map[];
  }
}
