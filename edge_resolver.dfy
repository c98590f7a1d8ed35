/**
 * Edge resolution (NodeUtil.findNodeOrders): each node's weighted before-
 * and after-type references become node-to-node edges, duplicate edges are
 * max-merged, and optionally every edge is also recorded reversed in the
 * opposite map, once, from snapshots of the forward maps.
 */
module EdgeResolver {
  import opened Nodes
  import opened RankMerge
  import opened TypeIndexing

  /** Source node id to its outgoing weighted edges. */
  type EdgeMap = map<NodeId, Weights>

  /** The outgoing edges of x, none when x is not a key. */
  function EdgesOf(e: EdgeMap, x: NodeId): Weights
  {
    if x in e then e[x] else map[]
  }

  /** The offers "weight w to every id in ids". */
  function TypeOffers(ids: set<NodeId>, w: int): Candidates
  {
    set m | m in ids :: (m, w)
  }

  /**
   * The offers a reference map makes against a type index: weight refs[t]
   * to every node listed under t. A type the index lacks offers nothing.
   */
  function RefOffers(refs: map<TypeLabel, int>, index: TypeIndex): Candidates
  {
    set t, m | t in refs && t in index && m in index[t] :: (m, refs[t])
  }

  /** All offers made on one side by the nodes whose id is id. */
  ghost function NodeOffers(nodes: seq<NodeData>, index: TypeIndex, id: NodeId, side: Side): Candidates
  {
    set i, p | 0 <= i < |nodes| && nodes[i].nodeId == id && p in RefOffers(Refs(nodes[i], side), index) :: p
  }

  /**
   * The forward edges on one side: an entry for every node id, holding the
   * max-merge of the offers its references make against the type index of
   * all the nodes.
   */
  ghost function Forward(nodes: seq<NodeData>, side: Side): EdgeMap
  {
    var index := Indexed(map[], nodes);
    map id | id in Ids(nodes) :: MaxMap(NodeOffers(nodes, index, id, side))
  }

  /** Every node some edge of e points to. */
  ghost function Targets(e: EdgeMap): set<NodeId>
  {
    set x, y | x in e && y in e[x] :: y
  }

  /** The edges of e into y, reversed: source to weight. */
  ghost function Column(e: EdgeMap, y: NodeId): Weights
  {
    map x | x in e && y in e[x] :: e[x][y]
  }

  /** e with every edge x -> y of weight w turned into y -> x of weight w. */
  ghost function Transpose(e: EdgeMap): EdgeMap
  {
    map y | y in Targets(e) :: Column(e, y)
  }

  /** Node-by-node max-merge of two edge maps. */
  ghost function MergeEdges(e: EdgeMap, r: EdgeMap): EdgeMap
  {
    map x | x in e.Keys + r.Keys :: MergeWeights(EdgesOf(e, x), EdgesOf(r, x))
  }

  /**
   * The edge maps findNodeOrders produces on each side: the forward maps,
   * and with isReverseAlso each one merged with the transpose of the other
   * side's forward map (one level of reverse inference, not a closure).
   */
  ghost function Resolved(nodes: seq<NodeData>, isReverseAlso: bool, side: Side): EdgeMap
  {
    var own := Forward(nodes, side);
    var other := Forward(nodes, Opposite(side));
    if isReverseAlso then MergeEdges(own, Transpose(other)) else own
  }

  /**
   * The ids findNodeOrders hands to mergeNodeRanks are not blank: the id of
   * any node listed under a referenced type, and with isReverseAlso the id
   * of any node that references a listed type.
   */
  ghost predicate EndpointsNonBlank(input: seq<NodeData>, isReverseAlso: bool)
  {
    forall i, j, t ::
      (0 <= i < |input| && 0 <= j < |input| && t in input[j].nodeTypes &&
       (t in input[i].beforeTypes || t in input[i].afterTypes)) ==>
        NonBlank(input[j].nodeId) && (isReverseAlso ==> NonBlank(input[i].nodeId))
  }

  // ---------------------------------------------------------------- lemmas on the definitions

  lemma RefOffersStep(refs: map<TypeLabel, int>, todo: set<TypeLabel>, t: TypeLabel, index: TypeIndex)
    requires t in todo && todo <= refs.Keys
    ensures RefOffers(refs - (todo - {t}), index) ==
            RefOffers(refs - todo, index) + (if t in index then TypeOffers(index[t], refs[t]) else {})
  {
    var l := RefOffers(refs - (todo - {t}), index);
    var r := RefOffers(refs - todo, index) + (if t in index then TypeOffers(index[t], refs[t]) else {});
    forall p | p in l ensures p in r {
      var u, m :| u in refs - (todo - {t}) && u in index && m in index[u] && p == (m, (refs - (todo - {t}))[u]);
      if u != t {
        assert p in RefOffers(refs - todo, index);
      }
    }
    forall p | p in r ensures p in l {
      if p in RefOffers(refs - todo, index) {
        var u, m :| u in refs - todo && u in index && m in index[u] && p == (m, (refs - todo)[u]);
        assert u in refs - (todo - {t});
      } else {
        var m :| m in index[t] && p == (m, refs[t]);
        assert t in refs - (todo - {t});
      }
    }
  }

  lemma RefOffersNone(refs: map<TypeLabel, int>, index: TypeIndex)
    ensures RefOffers(refs - refs.Keys, index) == {}
  {
    assert refs - refs.Keys == map[];
  }

  lemma NodeOffersSnoc(nodes: seq<NodeData>, n: NodeData, index: TypeIndex, id: NodeId, side: Side)
    ensures NodeOffers(nodes + [n], index, id, side) ==
            NodeOffers(nodes, index, id, side) + (if n.nodeId == id then RefOffers(Refs(n, side), index) else {})
  {
    var s := nodes + [n];
    assert s[|nodes|] == n;
    var l := NodeOffers(s, index, id, side);
    var r := NodeOffers(nodes, index, id, side) + (if n.nodeId == id then RefOffers(Refs(n, side), index) else {});
    forall p | p in l ensures p in r {
      var i :| 0 <= i < |s| && s[i].nodeId == id && p in RefOffers(Refs(s[i], side), index);
      if i < |nodes| {
        assert s[i] == nodes[i];
      }
    }
    forall p | p in r ensures p in l {
      if p in NodeOffers(nodes, index, id, side) {
        var i :| 0 <= i < |nodes| && nodes[i].nodeId == id && p in RefOffers(Refs(nodes[i], side), index);
        assert s[i] == nodes[i];
      } else {
        assert p in RefOffers(Refs(s[|nodes|], side), index);
      }
    }
  }

  lemma NodeOffersAbsent(nodes: seq<NodeData>, index: TypeIndex, id: NodeId, side: Side)
    requires id !in Ids(nodes)
    ensures NodeOffers(nodes, index, id, side) == {}
  {
    assert forall i | 0 <= i < |nodes| :: nodes[i].nodeId in Ids(nodes);
  }

  lemma TransposeEmptyRow(d: EdgeMap, x: NodeId)
    requires x !in d
    ensures Transpose(d[x := map[]]) == Transpose(d)
  {
    var d' := d[x := map[]];
    assert Targets(d') == Targets(d) by {
      forall y | y in Targets(d') ensures y in Targets(d) {
        var x', y' :| x' in d' && y' in d'[x'] && y == y';
        assert x' != x;
      }
      forall y | y in Targets(d) ensures y in Targets(d') {
        var x', y' :| x' in d && y' in d[x'] && y == y';
        assert x' in d' && y in d'[x'];
      }
    }
    forall y | y in Targets(d) ensures Column(d', y) == Column(d, y) {
      assert Column(d', y).Keys == Column(d, y).Keys;
    }
  }

  /** The reversed edges into y: empty when nothing points to y. */
  lemma TransposeAt(d: EdgeMap, y: NodeId)
    ensures EdgesOf(Transpose(d), y) == Column(d, y)
  {
    if y !in Targets(d) {
      assert forall x :: x in d ==> y !in d[x];
      assert Column(d, y).Keys == {};
    }
  }

  lemma TargetsAdd(d: EdgeMap, x: NodeId, y: NodeId, w: int)
    requires x in d
    ensures Targets(d[x := d[x][y := w]]) == Targets(d) + {y}
  {
    var d' := d[x := d[x][y := w]];
    forall z | z in Targets(d') ensures z in Targets(d) + {y} {
      var x', z' :| x' in d' && z' in d'[x'] && z == z';
      if z != y {
        assert x' in d && z in d[x'];
      }
    }
    forall z | z in Targets(d) ensures z in Targets(d') {
      var x', z' :| x' in d && z' in d[x'] && z == z';
      assert x' in d' && z in d'[x'];
    }
    assert x in d' && y in d'[x];
  }

  lemma ColumnAdd(d: EdgeMap, x: NodeId, y: NodeId, w: int, z: NodeId)
    requires x in d && y !in d[x]
    ensures Column(d[x := d[x][y := w]], z) == if z == y then Column(d, z)[x := w] else Column(d, z)
  {
    var d' := d[x := d[x][y := w]];
    if z == y {
      assert Column(d', z).Keys == Column(d, z).Keys + {x};
    } else {
      assert Column(d', z).Keys == Column(d, z).Keys;
    }
  }

  /** Adding one edge x -> y to d adds the one edge y -> x to its transpose. */
  lemma TransposeAdd(d: EdgeMap, x: NodeId, y: NodeId, w: int)
    requires x in d && y !in d[x]
    ensures Transpose(d[x := d[x][y := w]]) == Transpose(d)[y := EdgesOf(Transpose(d), y)[x := w]]
  {
    var d' := d[x := d[x][y := w]];
    var l := Transpose(d');
    var r := Transpose(d)[y := EdgesOf(Transpose(d), y)[x := w]];
    TargetsAdd(d, x, y, w);
    TransposeAt(d, y);
    assert l.Keys == r.Keys;
    forall z | z in l ensures l[z] == r[z] {
      ColumnAdd(d, x, y, w, z);
    }
  }

  lemma MergeWeightsNone(a: Weights)
    ensures MergeWeights(a, map[]) == a
  {
    var r := MergeWeights(a, map[]);
    assert r.Keys == a.Keys;
  }

  lemma MergeEdgesNone(e: EdgeMap)
    ensures MergeEdges(e, map[]) == e
  {
    var r := MergeEdges(e, map[]);
    assert r.Keys == e.Keys;
    forall x | x in r ensures r[x] == e[x] {
      MergeWeightsNone(e[x]);
    }
  }

  lemma MergeEdgesStep(e: EdgeMap, d: EdgeMap, x: NodeId, w: Weights)
    requires x !in d
    ensures MergeEdges(e, d[x := w]) == MergeEdges(e, d)[x := MergeWeights(EdgesOf(e, x), w)]
  {
    var l := MergeEdges(e, d[x := w]);
    var r := MergeEdges(e, d)[x := MergeWeights(EdgesOf(e, x), w)];
    assert l.Keys == r.Keys;
  }

  lemma MergeEdgesAbsent(e: EdgeMap, d: EdgeMap, x: NodeId)
    requires x !in d
    ensures EdgesOf(MergeEdges(e, d), x) == EdgesOf(e, x)
  {
    if x in e {
      MergeWeightsNone(e[x]);
    }
  }

  lemma MergeEdgesAt(e: EdgeMap, r: EdgeMap, x: NodeId)
    ensures EdgesOf(MergeEdges(e, r), x) == MergeWeights(EdgesOf(e, x), EdgesOf(r, x))
  {
    if x !in e && x !in r {
      assert MergeWeights(map[], map[]).Keys == {};
    }
  }

  /** The reversed edge x -> y exists exactly when the edge y -> x does, with its weight. */
  lemma TransposeEdge(g: EdgeMap, x: NodeId, y: NodeId)
    ensures y in EdgesOf(Transpose(g), x) <==> x in EdgesOf(g, y)
    ensures y in EdgesOf(Transpose(g), x) ==> Transpose(g)[x][y] == g[y][x]
  {
    TransposeAt(g, x);
  }

  /** Taking one more key x out of the pending set todo puts m[x] back. */
  lemma RemoveStep<K, V>(m: map<K, V>, todo: set<K>, x: K)
    requires x in todo && todo <= m.Keys
    ensures (m - todo)[x := m[x]] == m - (todo - {x})
  {
  }

  // ---------------------------------------------------------------- the operations

  /**
   * Merges into edges the offers one reference map makes against the type
   * index (findNodeOrders' loop over a node's before- or after-type entries).
   */
  method ResolveRefs(refs: map<TypeLabel, int>, index: TypeIndex, edges: Weights) returns (r: Weights)
    requires forall t, m :: t in refs && t in index && m in index[t] ==> NonBlank(m)
    ensures IsMaxOf(r, Pairs(edges) + RefOffers(refs, index))
  {
    r := edges;
    var todo := refs.Keys;
    PairsMaxOf(edges);
    RefOffersNone(refs, index);
    while todo != {}
      invariant todo <= refs.Keys
      invariant IsMaxOf(r, Pairs(edges) + RefOffers(refs - todo, index))
      decreases todo
    {
      var t :| t in todo;
      RefOffersStep(refs, todo, t, index);
      if t in index {
        var prev := r;
        r := MergeAll(TypeOffers(index[t], refs[t]), r);
        MaxOfCompose(prev, r, Pairs(edges) + RefOffers(refs - todo, index), TypeOffers(index[t], refs[t]));
      }
      todo := todo - {t};
    }
    assert refs - {} == refs;
  }

  /** Records every edge x -> y of one row reversed, as y -> x, in rev. */
  method ReverseRow(x: NodeId, row: Weights, rev: EdgeMap, ghost seen: EdgeMap) returns (r: EdgeMap)
    requires (exists y :: y in row) ==> NonBlank(x)
    requires x !in seen
    requires rev == Transpose(seen)
    ensures r == Transpose(seen[x := row])
  {
    r := rev;
    var todo := row.Keys;
    TransposeEmptyRow(seen, x);
    assert row - todo == map[];
    while todo != {}
      invariant todo <= row.Keys
      invariant r == Transpose(seen[x := row - todo])
      decreases todo
    {
      var y :| y in todo;
      var afterMap := if y in r then r[y] else map[];
      ReverseStep(seen, x, row, todo, y);
      var _, merged := MergeNodeRanks(x, row[y], afterMap);
      r := r[y := merged];
      todo := todo - {y};
    }
    assert row - {} == row;
  }

  /** Adding the edge x -> y of row to the part already reversed adds x to the reversed row of y. */
  lemma ReverseStep(seen: EdgeMap, x: NodeId, row: Weights, todo: set<NodeId>, y: NodeId)
    requires x !in seen && y in todo && todo <= row.Keys
    ensures var t := Transpose(seen[x := row - todo]);
            x !in EdgesOf(t, y) &&
            Transpose(seen[x := row - (todo - {y})]) == t[y := EdgesOf(t, y)[x := row[y]]]
  {
    var part := row - todo;
    TransposeAdd(seen[x := part], x, y, row[y]);
    assert seen[x := part][x := part[y := row[y]]] == seen[x := part[y := row[y]]];
    RemoveStep(row, todo, y);
    TransposeEdge(seen[x := part], y, x);
  }

  /** Reverses every edge of e (findNodeOrders' two reverse-map builds). */
  method ReverseEdges(e: EdgeMap) returns (rev: EdgeMap)
    requires SourcesNonBlank(e)
    ensures rev == Transpose(e)
  {
    rev := map[];
    var todo := e.Keys;
    assert e - todo == map[];
    assert Transpose(map[]) == map[];
    while todo != {}
      invariant todo <= e.Keys
      invariant rev == Transpose(e - todo)
      decreases todo
    {
      var x :| x in todo;
      ghost var seen := e - todo;
      rev := ReverseRow(x, e[x], rev, seen);
      RemoveStep(e, todo, x);
      todo := todo - {x};
    }
    assert e - {} == e;
  }

  /** Max-merges one reversed row into the edges of x. */
  method IntegrateRow(x: NodeId, row: Weights, r: EdgeMap, ghost e: EdgeMap, ghost done: EdgeMap) returns (r': EdgeMap)
    requires forall y | y in row :: NonBlank(y)
    requires x !in done && r == MergeEdges(e, done)
    ensures r' == MergeEdges(e, done[x := row])
  {
    var edges := if x in r then r[x] else map[];
    MergeEdgesAbsent(e, done, x);
    var merged := MergeAll(Pairs(row), edges);
    MaxOfUnique(merged, MergeWeights(edges, row), Pairs(edges) + Pairs(row));
    MergeEdgesStep(e, done, x, row);
    r' := r[x := merged];
  }

  /** Max-merges the reversed edges rev into e (findNodeOrders' two integration loops). */
  method IntegrateReverse(e: EdgeMap, rev: EdgeMap) returns (r: EdgeMap)
    requires forall x, y :: x in rev && y in rev[x] ==> NonBlank(y)
    ensures r == MergeEdges(e, rev)
  {
    r := e;
    var todo := rev.Keys;
    MergeEdgesNone(e);
    assert rev - todo == map[];
    while todo != {}
      invariant todo <= rev.Keys
      invariant r == MergeEdges(e, rev - todo)
      decreases todo
    {
      var x :| x in todo;
      ghost var done := rev - todo;
      r := IntegrateRow(x, rev[x], r, e, done);
      RemoveStep(rev, todo, x);
      todo := todo - {x};
    }
    assert rev - {} == rev;
  }

  /** Edges leaving only non-blank ids, so the reversed edges end only at non-blank ids. */
  ghost predicate SourcesNonBlank(e: EdgeMap)
  {
    forall x, y :: x in e && y in e[x] ==> NonBlank(x)
  }

  lemma TransposeTargetsNonBlank(e: EdgeMap)
    requires SourcesNonBlank(e)
    ensures forall x, y :: x in Transpose(e) && y in Transpose(e)[x] ==> NonBlank(y)
  {
    forall x, y | x in Transpose(e) && y in Transpose(e)[x] ensures NonBlank(y) {
      TransposeEdge(e, x, y);
    }
  }

  /**
   * The reverse step of findNodeOrders: both forward maps are reversed first, and
   * only then is each reversal max-merged into the opposite map, so that a
   * reversed edge is never reversed again.
   */
  method ReverseAlso(before: EdgeMap, after: EdgeMap) returns (before': EdgeMap, after': EdgeMap)
    requires SourcesNonBlank(before) && SourcesNonBlank(after)
    ensures before' == MergeEdges(before, Transpose(after))
    ensures after' == MergeEdges(after, Transpose(before))
  {
    var reverseAfter := ReverseEdges(before);
    var reverseBefore := ReverseEdges(after);
    TransposeTargetsNonBlank(before);
    TransposeTargetsNonBlank(after);
    before' := IntegrateReverse(before, reverseBefore);
    after' := IntegrateReverse(after, reverseAfter);
  }
}
