/**
 * Type indexing (NodeUtil.findNodeTypes): the map from each type label to
 * the ids of the nodes carrying it.
 */
module TypeIndexing {
  import opened Nodes

  /** Type label to the ids of the nodes that carry it. */
  type TypeIndex = map<TypeLabel, set<NodeId>>

  /** The ids listed under t, or none when t is not a key. */
  function IdsUnder(index: TypeIndex, t: TypeLabel): set<NodeId>
  {
    if t in index then index[t] else {}
  }

  /** Every type label some node carries. */
  function AllTypes(nodes: seq<NodeData>): set<TypeLabel>
  {
    set i, t | 0 <= i < |nodes| && t in nodes[i].nodeTypes :: t
  }

  /** The ids of the nodes that carry t. */
  function IdsWithType(nodes: seq<NodeData>, t: TypeLabel): set<NodeId>
  {
    set i | 0 <= i < |nodes| && t in nodes[i].nodeTypes :: nodes[i].nodeId
  }

  /**
   * base extended by the nodes: a key for every type of base or of a node,
   * holding base's ids for it plus the ids of the nodes that carry it.
   */
  function Indexed(base: TypeIndex, nodes: seq<NodeData>): TypeIndex
  {
    map t | t in base.Keys + AllTypes(nodes) :: IdsUnder(base, t) + IdsWithType(nodes, t)
  }

  /** index with id added under each type in ts. */
  function AddUnder(index: TypeIndex, id: NodeId, ts: set<TypeLabel>): TypeIndex
  {
    map t | t in index.Keys + ts :: IdsUnder(index, t) + (if t in ts then {id} else {})
  }

  lemma AllTypesSnoc(nodes: seq<NodeData>, n: NodeData)
    ensures AllTypes(nodes + [n]) == AllTypes(nodes) + n.nodeTypes
  {
    var s := nodes + [n];
    assert s[|nodes|] == n;
    forall t | t in AllTypes(nodes) ensures t in AllTypes(s) {
      var i :| 0 <= i < |nodes| && t in nodes[i].nodeTypes;
      assert s[i] == nodes[i];
    }
  }

  lemma IdsWithTypeSnoc(nodes: seq<NodeData>, n: NodeData, t: TypeLabel)
    ensures IdsWithType(nodes + [n], t) == IdsWithType(nodes, t) + (if t in n.nodeTypes then {n.nodeId} else {})
  {
    var s := nodes + [n];
    assert s[|nodes|] == n;
    forall x | x in IdsWithType(nodes, t) ensures x in IdsWithType(s, t) {
      var i :| 0 <= i < |nodes| && t in nodes[i].nodeTypes && nodes[i].nodeId == x;
      assert s[i] == nodes[i];
    }
  }

  /** Indexing one more node adds its id under each of its types. */
  lemma IndexedSnoc(base: TypeIndex, nodes: seq<NodeData>, n: NodeData)
    ensures Indexed(base, nodes + [n]) == AddUnder(Indexed(base, nodes), n.nodeId, n.nodeTypes)
  {
    var l := Indexed(base, nodes + [n]);
    var r := AddUnder(Indexed(base, nodes), n.nodeId, n.nodeTypes);
    AllTypesSnoc(nodes, n);
    assert l.Keys == r.Keys;
    forall t | t in l ensures l[t] == r[t] {
      IdsWithTypeSnoc(nodes, n, t);
    }
  }

  lemma AddUnderNone(index: TypeIndex, id: NodeId)
    ensures AddUnder(index, id, {}) == index
  {
    var l := AddUnder(index, id, {});
    assert l.Keys == index.Keys;
    forall u | u in l ensures l[u] == index[u] {
    }
  }

  lemma IndexedNone(base: TypeIndex)
    ensures Indexed(base, []) == base
  {
    var l := Indexed(base, []);
    assert l.Keys == base.Keys;
    forall u | u in l ensures l[u] == base[u] {
    }
  }

  /** Adding the id under one more type updates just that key. */
  lemma AddUnderStep(index: TypeIndex, id: NodeId, ts: set<TypeLabel>, t: TypeLabel)
    requires t !in ts
    ensures AddUnder(index, id, ts + {t}) ==
            AddUnder(index, id, ts)[t := IdsUnder(AddUnder(index, id, ts), t) + {id}]
  {
    var l := AddUnder(index, id, ts + {t});
    var r := AddUnder(index, id, ts)[t := IdsUnder(AddUnder(index, id, ts), t) + {id}];
    assert l.Keys == r.Keys;
    forall u | u in l ensures l[u] == r[u] {
    }
  }

  /**
   * Indexed(base, nodes) lists id under t exactly when base already does or
   * some node with that id carries t: each node's id is added under each of
   * its types, and nothing else is added.
   */
  lemma IndexedMembership(base: TypeIndex, nodes: seq<NodeData>, t: TypeLabel, id: NodeId)
    ensures id in IdsUnder(Indexed(base, nodes), t) <==>
            id in IdsUnder(base, t) || exists i :: 0 <= i < |nodes| && nodes[i].nodeId == id && t in nodes[i].nodeTypes
  {
    if exists i :: 0 <= i < |nodes| && nodes[i].nodeId == id && t in nodes[i].nodeTypes {
      var i :| 0 <= i < |nodes| && nodes[i].nodeId == id && t in nodes[i].nodeTypes;
      assert t in AllTypes(nodes);
    }
  }

  /**
   * Adds one node's id under each of its types (findNodeTypes' inner loop).
   * created is true when some type of the node was not yet a key.
   */
  method IndexNode(node: NodeData, index: TypeIndex) returns (created: bool, indexed: TypeIndex)
    ensures indexed == AddUnder(index, node.nodeId, node.nodeTypes)
    ensures created <==> !(node.nodeTypes <= index.Keys)
  {
    created := false;
    indexed := index;
    var todo := node.nodeTypes;
    AddUnderNone(index, node.nodeId);
    while todo != {}
      invariant todo <= node.nodeTypes
      invariant indexed == AddUnder(index, node.nodeId, node.nodeTypes - todo)
      invariant created <==> !(node.nodeTypes - todo <= index.Keys)
      decreases todo
    {
      var t :| t in todo;
      var nodeList: set<NodeId>;
      if t in indexed {
        nodeList := indexed[t];
      } else {
        nodeList := {};
        created := true;
      }
      AddUnderStep(index, node.nodeId, node.nodeTypes - todo, t);
      assert node.nodeTypes - todo + {t} == node.nodeTypes - (todo - {t});
      indexed := indexed[t := nodeList + {node.nodeId}];
      todo := todo - {t};
    }
  }

  /**
   * Adds each input node's id under each of its types, creating a key for a
   * type not yet present. result is true when the target was cleared first
   * or some type of the input was not yet a key.
   */
  method FindNodeTypes(input: seq<NodeData>, target: TypeIndex, isClearFirst: bool)
    returns (result: bool, indexed: TypeIndex)
    ensures indexed == Indexed(if isClearFirst then map[] else target, input)
    ensures result <==> isClearFirst || !(AllTypes(input) <= target.Keys)
  {
    result := false;
    indexed := target;
    if isClearFirst {
      indexed := map[];
      result := true;
    }
    ghost var base := indexed;
    IndexedNone(base);
    for i := 0 to |input|
      invariant indexed == Indexed(base, input[..i])
      invariant result <==> isClearFirst || !(AllTypes(input[..i]) <= target.Keys)
    {
      var node := input[i];
      var created;
      created, indexed := IndexNode(node, indexed);
      result := result || created;
      assert input[..i + 1] == input[..i] + [node];
      IndexedSnoc(base, input[..i], node);
      AllTypesSnoc(input[..i], node);
    }
    assert input[..|input|] == input;
  }
}
