/** The node record the sorter reads (NodeData.java), and small facts about id sequences. */
module Nodes {

  type NodeId = string
  type TypeLabel = string

  /**
   * A node: its id, the type labels it carries, and the weighted before- and
   * after-type references. Immutable: the sorter only reads nodes.
   */
  datatype NodeData = NodeData(
    nodeId: NodeId,
    nodeTypes: set<TypeLabel>,
    beforeTypes: map<TypeLabel, int>,
    afterTypes: map<TypeLabel, int>)

  /** Which of a node's two reference maps is meant. */
  datatype Side = Before | After

  /** The other side. */
  function Opposite(side: Side): Side
  {
    match side
    case Before => After
    case After => Before
  }

  function Refs(n: NodeData, side: Side): map<TypeLabel, int>
  {
    match side
    case Before => n.beforeTypes
    case After => n.afterTypes
  }

  /**
   * An id passes the argument check: it is not empty once blanks (every char
   * up to the space character) are trimmed away.
   */
  predicate NonBlank(s: string)
  {
    exists i :: 0 <= i < |s| && s[i] > ' '
  }

  /** The ids of a sequence of nodes. */
  function Ids(nodes: seq<NodeData>): set<NodeId>
  {
    set i | 0 <= i < |nodes| :: nodes[i].nodeId
  }

  lemma IdsSnoc(nodes: seq<NodeData>, n: NodeData)
    ensures Ids(nodes + [n]) == Ids(nodes) + {n.nodeId}
  {
    var s := nodes + [n];
    assert s[|nodes|] == n;
    forall x | x in Ids(nodes) ensures x in Ids(s) {
      var i :| 0 <= i < |nodes| && nodes[i].nodeId == x;
      assert s[i] == nodes[i];
    }
  }

  /** The elements of a sequence of ids. */
  function Elems(s: seq<NodeId>): set<NodeId>
  {
    set x | x in s
  }

  lemma ElemsConcat(a: seq<NodeId>, b: seq<NodeId>)
    ensures Elems(a + b) == Elems(a) + Elems(b)
  {
    forall x | x in Elems(a + b) ensures x in Elems(a) + Elems(b) {
      var i :| 0 <= i < |a + b| && (a + b)[i] == x;
      if i >= |a| {
        assert b[i - |a|] == x;
      }
    }
    forall x | x in Elems(b) ensures x in Elems(a + b) {
      var i :| 0 <= i < |b| && b[i] == x;
      assert (a + b)[|a| + i] == x;
    }
  }

  lemma UnionEmpty<K, V>(m: map<K, V>)
    ensures map[] + m == m
  {
  }

  /** No id occurs twice. */
  predicate NoDup(s: seq<NodeId>)
  {
    forall i, j :: 0 <= i < j < |s| ==> s[i] != s[j]
  }
}
