/**
 * The output side of findNodesSorted: the id-to-node index of the input,
 * the rank-to-nodes map the sorted ids are dealt into, and the flattening
 * of that map in ascending rank order used by the list overload.
 */
module Buckets {
  import opened Nodes

  /** Rank to the nodes of that rank, in sorted order (findNodesSorted's Map<Long, Collection<NodeData>>). */
  type RankMap = map<int, seq<NodeData>>

  // ---------------------------------------------------------------- the input index

  /** Id to node, each id mapped to the last input node carrying it. */
  function InputMap(input: seq<NodeData>): map<NodeId, NodeData>
    decreases |input|
  {
    if input == [] then map[]
    else InputMap(input[..|input| - 1])[input[|input| - 1].nodeId := input[|input| - 1]]
  }

  /** InputMap has a key for every input id, holding the last node with that id. */
  lemma {:induction false} InputMapLast(input: seq<NodeData>, id: NodeId)
    ensures id in InputMap(input) <==> id in Ids(input)
    ensures id in InputMap(input) ==>
              exists i :: 0 <= i < |input| && input[i] == InputMap(input)[id] && input[i].nodeId == id &&
                          forall j :: i < j < |input| ==> input[j].nodeId != id
    decreases |input|
  {
    if input != [] {
      var init := input[..|input| - 1];
      var last := input[|input| - 1];
      assert input == init + [last];
      InputMapLast(init, id);
      IdsSnoc(init, last);
      if id != last.nodeId && id in InputMap(input) {
        var i :| 0 <= i < |init| && init[i] == InputMap(init)[id] && init[i].nodeId == id &&
                 forall j :: i < j < |init| ==> init[j].nodeId != id;
        assert input[i] == init[i];
        assert forall j :: i < j < |input| ==> input[j].nodeId != id by {
          forall j | i < j < |input| ensures input[j].nodeId != id {
            if j < |init| {
              assert input[j] == init[j];
            }
          }
        }
      }
    }
  }

  lemma InputMapKeys(input: seq<NodeData>)
    ensures InputMap(input).Keys == Ids(input)
  {
    forall id ensures id in InputMap(input) <==> id in Ids(input) {
      InputMapLast(input, id);
    }
  }

  /** Indexes the input by id (the inputMap loop of the rank-map findNodesSorted). */
  method BuildInputMap(input: seq<NodeData>) returns (inputMap: map<NodeId, NodeData>)
    ensures inputMap == InputMap(input)
  {
    inputMap := map[];
    for i := 0 to |input|
      invariant inputMap == InputMap(input[..i])
    {
      assert input[..i + 1][..i] == input[..i];
      inputMap := inputMap[input[i].nodeId := input[i]];
    }
    assert input[..|input|] == input;
  }

  // ---------------------------------------------------------------- dealing into ranks

  /** The nodes bucket r of target holds, none when r is not a key. */
  function BucketOf(target: RankMap, r: int): seq<NodeData>
  {
    if r in target then target[r] else []
  }

  /** Every sorted id of the first n is indexed. */
  ghost predicate AllIndexed(order: seq<NodeId>, im: map<NodeId, NodeData>, n: nat)
  {
    n <= |order| && forall k :: 0 <= k < n ==> order[k] in im
  }

  /** The nodes of the first n sorted ids whose rank is r, in sorted order. */
  ghost function Placed(order: seq<NodeId>, ranks: seq<int>, im: map<NodeId, NodeData>, r: int, n: nat): seq<NodeData>
    requires AllIndexed(order, im, n) && n <= |ranks|
  {
    if n == 0 then []
    else Placed(order, ranks, im, r, n - 1) + (if ranks[n - 1] == r then [im[order[n - 1]]] else [])
  }

  /** The ranks of the first n sorted ids. */
  ghost function RanksUpTo(ranks: seq<int>, n: nat): set<int>
    requires n <= |ranks|
  {
    set k | 0 <= k < n :: ranks[k]
  }

  /** target with the first n sorted ids' nodes appended to the buckets of their ranks. */
  ghost function Bucketed(target: RankMap, order: seq<NodeId>, ranks: seq<int>, im: map<NodeId, NodeData>, n: nat): RankMap
    requires AllIndexed(order, im, n) && n <= |ranks|
  {
    map r | r in target.Keys + RanksUpTo(ranks, n) :: BucketOf(target, r) + Placed(order, ranks, im, r, n)
  }

  /** A node sits in bucket r exactly when it was there before or is the node of a sorted id of rank r. */
  lemma {:induction false} PlacedMembership(order: seq<NodeId>, ranks: seq<int>, im: map<NodeId, NodeData>,
                                            r: int, n: nat, x: NodeData)
    requires AllIndexed(order, im, n) && n <= |ranks|
    ensures x in Placed(order, ranks, im, r, n) <==> exists k :: 0 <= k < n && ranks[k] == r && im[order[k]] == x
  {
    if n > 0 {
      PlacedMembership(order, ranks, im, r, n - 1, x);
    }
  }

  /** After dealing, bucket r holds what it held before and the nodes of exactly the sorted ids of rank r. */
  lemma BucketedMembership(target: RankMap, order: seq<NodeId>, ranks: seq<int>, im: map<NodeId, NodeData>,
                           n: nat, r: int, x: NodeData)
    requires AllIndexed(order, im, n) && n <= |ranks|
    ensures var b := Bucketed(target, order, ranks, im, n);
            x in BucketOf(b, r) <==>
            x in BucketOf(target, r) || exists k :: 0 <= k < n && ranks[k] == r && im[order[k]] == x
  {
    PlacedMembership(order, ranks, im, r, n, x);
    if exists k :: 0 <= k < n && ranks[k] == r && im[order[k]] == x {
      var k :| 0 <= k < n && ranks[k] == r && im[order[k]] == x;
      assert r in RanksUpTo(ranks, n);
    }
  }

  /** Each sorted id of rank r contributes one node to bucket r, so a bucket holds as many nodes as ids of its rank. */
  lemma {:induction false} PlacedSize(order: seq<NodeId>, ranks: seq<int>, im: map<NodeId, NodeData>, r: int, n: nat)
    requires AllIndexed(order, im, n) && n <= |ranks|
    ensures |Placed(order, ranks, im, r, n)| == |set k | 0 <= k < n && ranks[k] == r|
  {
    if n > 0 {
      PlacedSize(order, ranks, im, r, n - 1);
      var s := set k | 0 <= k < n - 1 && ranks[k] == r;
      var s' := set k | 0 <= k < n && ranks[k] == r;
      if ranks[n - 1] == r {
        assert s' == s + {n - 1};
      } else {
        assert s' == s;
      }
    }
  }

  lemma BucketedStep(target: RankMap, order: seq<NodeId>, ranks: seq<int>, im: map<NodeId, NodeData>, n: nat)
    requires AllIndexed(order, im, n + 1) && n + 1 <= |ranks|
    ensures Bucketed(target, order, ranks, im, n + 1) ==
            var b := Bucketed(target, order, ranks, im, n);
            b[ranks[n] := BucketOf(b, ranks[n]) + [im[order[n]]]]
  {
    var b := Bucketed(target, order, ranks, im, n);
    var l := Bucketed(target, order, ranks, im, n + 1);
    var r := b[ranks[n] := BucketOf(b, ranks[n]) + [im[order[n]]]];
    assert RanksUpTo(ranks, n + 1) == RanksUpTo(ranks, n) + {ranks[n]};
    assert l.Keys == r.Keys;
    forall q | q in l ensures l[q] == r[q] {
      if q !in b {
        assert q !in target && q !in RanksUpTo(ranks, n);
        PlacedNone(order, ranks, im, q, n);
      }
      assert Placed(order, ranks, im, q, n + 1) ==
             Placed(order, ranks, im, q, n) + (if ranks[n] == q then [im[order[n]]] else []);
    }
  }

  /** A rank no sorted id of the first n has gets no node. */
  lemma {:induction false} PlacedNone(order: seq<NodeId>, ranks: seq<int>, im: map<NodeId, NodeData>, r: int, n: nat)
    requires AllIndexed(order, im, n) && n <= |ranks| && r !in RanksUpTo(ranks, n)
    ensures Placed(order, ranks, im, r, n) == []
  {
    if n > 0 {
      assert ranks[n - 1] in RanksUpTo(ranks, n);
      assert RanksUpTo(ranks, n - 1) <= RanksUpTo(ranks, n);
      PlacedNone(order, ranks, im, r, n - 1);
    }
  }

  lemma BucketedNone(target: RankMap, order: seq<NodeId>, ranks: seq<int>, im: map<NodeId, NodeData>)
    ensures Bucketed(target, order, ranks, im, 0) == target
  {
    var b := Bucketed(target, order, ranks, im, 0);
    assert RanksUpTo(ranks, 0) == {};
    assert b.Keys == target.Keys;
    forall q | q in b ensures b[q] == target[q] {
      assert Placed(order, ranks, im, q, 0) == [];
    }
  }

  /**
   * Deals the sorted ids' nodes into the buckets of their ranks, over as
   * many positions as both lists have (the dereferencing loop of the rank-map findNodesSorted).
   */
  method BucketNodes(order: seq<NodeId>, ranks: seq<int>, im: map<NodeId, NodeData>, target: RankMap)
    returns (target': RankMap)
    requires forall k :: 0 <= k < |order| ==> order[k] in im
    ensures var n := if |order| < |ranks| then |order| else |ranks|;
            target' == Bucketed(target, order, ranks, im, n)
  {
    target' := target;
    var n := if |order| < |ranks| then |order| else |ranks|;
    assert AllIndexed(order, im, n);
    BucketedNone(target, order, ranks, im);
    for ctr := 0 to n
      invariant target' == Bucketed(target, order, ranks, im, ctr)
    {
      target' := BucketOne(order, ranks, im, target, target', ctr);
    }
  }

  /** Appends the node of the sorted id at position ctr to the bucket of its rank. */
  method BucketOne(order: seq<NodeId>, ranks: seq<int>, im: map<NodeId, NodeData>, ghost target: RankMap,
                   current: RankMap, ctr: nat)
    returns (target': RankMap)
    requires AllIndexed(order, im, ctr + 1) && ctr < |ranks|
    requires current == Bucketed(target, order, ranks, im, ctr)
    ensures target' == Bucketed(target, order, ranks, im, ctr + 1)
  {
    var nodeId := order[ctr];
    var rank := ranks[ctr];
    var sortedNodes := if rank in current then current[rank] else [];
    BucketedStep(target, order, ranks, im, ctr);
    target' := current[rank := sortedNodes + [im[nodeId]]];
  }

  // ---------------------------------------------------------------- ascending flattening

  /** Some element of a non-empty finite set of integers is a lower bound of it. */
  lemma {:induction false} MinExists(s: set<int>)
    requires s != {}
    ensures exists m :: m in s && forall x :: x in s ==> m <= x
  {
    if forall x :: x !in s {
      assert false;
    }
    var y :| y in s;
    if s == {y} {
      assert forall x :: x in s ==> y <= x;
    } else {
      var rest := s - {y};
      MinExists(rest);
      var m :| m in rest && forall x :: x in rest ==> m <= x;
      MinStep(s, y, m);
    }
  }

  /** A lower bound of s - {y} that is in it, or y, is a lower bound of s. */
  lemma MinStep(s: set<int>, y: int, m: int)
    requires y in s && m in s - {y} && forall x :: x in s - {y} ==> m <= x
    ensures exists low :: low in s && forall x :: x in s ==> low <= x
  {
    var low := if y < m then y else m;
    assert forall x :: x in s ==> x == y || x in s - {y};
    assert low in s && forall x :: x in s ==> low <= x;
  }

  /** The smallest key, the first a sorted map yields. */
  ghost function MinKey(s: set<int>): (m: int)
    requires s != {}
    ensures m in s && forall x :: x in s ==> m <= x
  {
    MinExists(s);
    var m :| m in s && forall x :: x in s ==> m <= x;
    m
  }

  /** The buckets of m concatenated in ascending rank order. */
  ghost function AscendingConcat(m: RankMap): seq<NodeData>
    decreases |m.Keys|
  {
    if m.Keys == {} then []
    else
      var k := MinKey(m.Keys);
      assert |(m - {k}).Keys| < |m.Keys| by {
        assert (m - {k}).Keys == m.Keys - {k};
      }
      m[k] + AscendingConcat(m - {k})
  }

  /** The rank each position of AscendingConcat(m) comes from. */
  ghost function AscendingKeys(m: RankMap): seq<int>
    decreases |m.Keys|
  {
    if m.Keys == {} then []
    else
      var k := MinKey(m.Keys);
      assert |(m - {k}).Keys| < |m.Keys| by {
        assert (m - {k}).Keys == m.Keys - {k};
      }
      seq(|m[k]|, _ => k) + AscendingKeys(m - {k})
  }

  /**
   * The flattening lists the buckets in ascending rank order: the rank of
   * each position never decreases, and the node at each position is in the
   * bucket of its rank.
   */
  lemma {:induction false} AscendingOrdered(m: RankMap)
    ensures |AscendingKeys(m)| == |AscendingConcat(m)|
    ensures forall i, j :: 0 <= i < j < |AscendingKeys(m)| ==> AscendingKeys(m)[i] <= AscendingKeys(m)[j]
    ensures forall i :: 0 <= i < |AscendingKeys(m)| ==>
              AscendingKeys(m)[i] in m && AscendingConcat(m)[i] in m[AscendingKeys(m)[i]]
    decreases |m.Keys|
  {
    if m.Keys != {} {
      var k := MinKey(m.Keys);
      var rest := m - {k};
      assert rest.Keys == m.Keys - {k};
      AscendingOrdered(rest);
      var head := seq(|m[k]|, _ => k);
      var keys := AscendingKeys(m);
      var flat := AscendingConcat(m);
      assert keys == head + AscendingKeys(rest);
      assert flat == m[k] + AscendingConcat(rest);
      forall i, j | 0 <= i < j < |keys| ensures keys[i] <= keys[j] {
        if j >= |head| {
          assert keys[j] == AscendingKeys(rest)[j - |head|];
          if i >= |head| {
            assert keys[i] == AscendingKeys(rest)[i - |head|];
          }
        }
      }
      forall i | 0 <= i < |keys| ensures keys[i] in m && flat[i] in m[keys[i]] {
        if i >= |head| {
          assert keys[i] == AscendingKeys(rest)[i - |head|];
          assert flat[i] == AscendingConcat(rest)[i - |head|];
        }
      }
    }
  }

  /** Every node of every bucket appears in the flattening. */
  lemma {:induction false} AscendingComplete(m: RankMap, k: int, x: NodeData)
    requires k in m && x in m[k]
    ensures x in AscendingConcat(m)
    decreases |m.Keys|
  {
    var low := MinKey(m.Keys);
    var rest := m - {low};
    assert rest.Keys == m.Keys - {low};
    if k != low {
      AscendingComplete(rest, k, x);
    }
  }

  /**
   * Appends the buckets of tempMap to target in ascending rank order (the
   * list findNodesSorted's loop over the values of its TreeMap). added is true when some
   * node was appended.
   */
  method AppendAscending(tempMap: RankMap, target: seq<NodeData>) returns (added: bool, target': seq<NodeData>)
    ensures target' == target + AscendingConcat(tempMap)
    ensures added <==> AscendingConcat(tempMap) != []
  {
    added := false;
    target' := target;
    var rest := tempMap;
    while rest.Keys != {}
      invariant target' + AscendingConcat(rest) == target + AscendingConcat(tempMap)
      invariant added <==> |target'| > |target|
      invariant |target| <= |target'|
      decreases |rest.Keys|
    {
      MinExists(rest.Keys);
      var k :| k in rest.Keys && forall x :: x in rest.Keys ==> k <= x;
      assert k == MinKey(rest.Keys);
      var orderItem := rest[k];
      ghost var t0 := target';
      for i := 0 to |orderItem|
        invariant target' == t0 + orderItem[..i]
        invariant added <==> |target'| > |target|
        invariant |t0| <= |target'|
      {
        target' := target' + [orderItem[i]];
        added := true;
        assert orderItem[..i + 1] == orderItem[..i] + [orderItem[i]];
      }
      assert orderItem[..|orderItem|] == orderItem;
      assert (rest - {k}).Keys == rest.Keys - {k};
      rest := rest - {k};
    }
  }

  // ---------------------------------------------------------------- the listed output

  /** The nodes of the first n sorted ids, in sorted order. */
  ghost function NodesOf(order: seq<NodeId>, im: map<NodeId, NodeData>, n: nat): seq<NodeData>
    requires AllIndexed(order, im, n)
  {
    if n == 0 then [] else NodesOf(order, im, n - 1) + [im[order[n - 1]]]
  }

  /** What the list overload appends: the buckets dealt into an empty rank map, in ascending rank order. */
  ghost function Listed(order: seq<NodeId>, ranks: seq<int>, im: map<NodeId, NodeData>): seq<NodeData>
    requires AllIndexed(order, im, |order|) && |order| <= |ranks|
  {
    AscendingConcat(Bucketed(map[], order, ranks, im, |order|))
  }

  /** a occurs somewhere before b in s. */
  ghost predicate Precedes(s: seq<NodeData>, a: NodeData, b: NodeData)
  {
    exists p, q :: 0 <= p < q < |s| && s[p] == a && s[q] == b
  }

  lemma PrecedesConcat(s: seq<NodeData>, t: seq<NodeData>, a: NodeData, b: NodeData)
    ensures Precedes(s, a, b) ==> Precedes(s + t, a, b)
    ensures Precedes(t, a, b) ==> Precedes(s + t, a, b)
    ensures a in s && b in t ==> Precedes(s + t, a, b)
  {
    var st := s + t;
    if Precedes(s, a, b) {
      var p, q :| 0 <= p < q < |s| && s[p] == a && s[q] == b;
      assert st[p] == a && st[q] == b;
    }
    if Precedes(t, a, b) {
      var p, q :| 0 <= p < q < |t| && t[p] == a && t[q] == b;
      assert st[|s| + p] == a && st[|s| + q] == b;
    }
    if a in s && b in t {
      var p :| 0 <= p < |s| && s[p] == a;
      var q :| 0 <= q < |t| && t[q] == b;
      assert st[p] == a && st[|s| + q] == b;
    }
  }

  /** Within a bucket, the nodes keep the order of their sorted ids. */
  lemma {:induction false} PlacedPrecedes(order: seq<NodeId>, ranks: seq<int>, im: map<NodeId, NodeData>,
                                          r: int, n: nat, j: nat, k: nat)
    requires AllIndexed(order, im, n) && n <= |ranks|
    requires j < k < n && ranks[j] == r && ranks[k] == r
    ensures Precedes(Placed(order, ranks, im, r, n), im[order[j]], im[order[k]])
  {
    var init := Placed(order, ranks, im, r, n - 1);
    var tail := if ranks[n - 1] == r then [im[order[n - 1]]] else [];
    if k == n - 1 {
      PlacedMembership(order, ranks, im, r, n - 1, im[order[j]]);
      assert im[order[k]] in tail;
    } else {
      PlacedPrecedes(order, ranks, im, r, n - 1, j, k);
    }
    PrecedesConcat(init, tail, im[order[j]], im[order[k]]);
  }

  lemma MinKeyOf(s: set<int>, k: int)
    requires k in s && forall x :: x in s ==> k <= x
    ensures MinKey(s) == k
  {
  }

  /**
   * The flattening lists a lower bucket's nodes before a higher bucket's,
   * and keeps the order inside a bucket.
   */
  lemma {:induction false} AscendingPrecedes(m: RankMap, r1: int, r2: int, a: NodeData, b: NodeData)
    requires r1 in m && r2 in m && a in m[r1] && b in m[r2]
    requires r1 < r2 || (r1 == r2 && Precedes(m[r1], a, b))
    ensures Precedes(AscendingConcat(m), a, b)
    decreases |m.Keys|
  {
    var low := MinKey(m.Keys);
    var rest := m - {low};
    assert rest.Keys == m.Keys - {low};
    assert AscendingConcat(m) == m[low] + AscendingConcat(rest);
    if r1 == low {
      if r2 == low {
        PrecedesConcat(m[low], AscendingConcat(rest), a, b);
      } else {
        AscendingComplete(rest, r2, b);
        PrecedesConcat(m[low], AscendingConcat(rest), a, b);
      }
    } else {
      assert r2 != low;
      AscendingPrecedes(rest, r1, r2, a, b);
      PrecedesConcat(m[low], AscendingConcat(rest), a, b);
    }
  }

  /** Taking any one bucket out of the flattening leaves the rest, as a multiset. */
  lemma {:induction false} AscendingRemove(m: RankMap, r: int)
    requires r in m
    ensures multiset(AscendingConcat(m)) == multiset(AscendingConcat(m - {r})) + multiset(m[r])
    decreases |m.Keys|
  {
    var low := MinKey(m.Keys);
    var rest := m - {low};
    assert rest.Keys == m.Keys - {low};
    if r != low {
      var m' := m - {r};
      assert m'.Keys == m.Keys - {r};
      MinKeyOf(m'.Keys, low);
      assert m' - {low} == rest - {r};
      AscendingRemove(rest, r);
    }
  }

  /** Appending x to bucket r adds x to the flattening, as a multiset. */
  lemma AscendingAdd(m: RankMap, r: int, x: NodeData)
    ensures multiset(AscendingConcat(m[r := BucketOf(m, r) + [x]])) == multiset(AscendingConcat(m)) + multiset{x}
  {
    var m' := m[r := BucketOf(m, r) + [x]];
    AscendingRemove(m', r);
    assert m' - {r} == m - {r};
    if r in m {
      AscendingRemove(m, r);
    } else {
      assert m - {r} == m;
    }
  }

  /** The flattening of the dealt buckets holds the sorted ids' nodes, each as often as in the sorted order. */
  lemma {:induction false} BucketedMultiset(order: seq<NodeId>, ranks: seq<int>, im: map<NodeId, NodeData>, n: nat)
    requires AllIndexed(order, im, n) && n <= |ranks|
    ensures multiset(AscendingConcat(Bucketed(map[], order, ranks, im, n))) == multiset(NodesOf(order, im, n))
  {
    if n == 0 {
      BucketedNone(map[], order, ranks, im);
      assert Bucketed(map[], order, ranks, im, 0).Keys == {};
    } else {
      var k := n - 1;
      assert AllIndexed(order, im, k);
      BucketedMultiset(order, ranks, im, k);
      var x := im[order[k]];
      BucketedStep(map[], order, ranks, im, k);
      AscendingAdd(Bucketed(map[], order, ranks, im, k), ranks[k], x);
      assert NodesOf(order, im, n) == NodesOf(order, im, n - 1) + [x];
    }
  }

  lemma {:induction false} NodesOfMembership(order: seq<NodeId>, im: map<NodeId, NodeData>, n: nat, x: NodeData)
    requires AllIndexed(order, im, n)
    ensures x in NodesOf(order, im, n) <==> exists k :: 0 <= k < n && im[order[k]] == x
  {
    if n > 0 {
      NodesOfMembership(order, im, n - 1, x);
    }
  }

  /** When distinct sorted ids have distinct nodes, each sorted id's node occurs once. */
  lemma {:induction false} NodesOfOnce(order: seq<NodeId>, im: map<NodeId, NodeData>, n: nat, k: nat)
    requires AllIndexed(order, im, n) && k < n && NoDup(order)
    requires forall i :: 0 <= i < n ==> im[order[i]].nodeId == order[i]
    ensures multiset(NodesOf(order, im, n))[im[order[k]]] == 1
  {
    var x := im[order[k]];
    assert AllIndexed(order, im, n - 1);
    assert NodesOf(order, im, n) == NodesOf(order, im, n - 1) + [im[order[n - 1]]];
    if k == n - 1 {
      NodesOfMembership(order, im, n - 1, x);
      assert forall i :: 0 <= i < n - 1 ==> im[order[i]] != x by {
        forall i | 0 <= i < n - 1 ensures im[order[i]] != x {
          assert im[order[i]].nodeId == order[i] != order[k];
        }
      }
    } else {
      NodesOfOnce(order, im, n - 1, k);
      assert im[order[n - 1]].nodeId == order[n - 1] != order[k];
    }
  }

  /** The node of the sorted id at position j is in the bucket of its rank. */
  lemma InBucket(order: seq<NodeId>, ranks: seq<int>, im: map<NodeId, NodeData>, n: nat, j: nat)
    requires AllIndexed(order, im, n) && n <= |ranks| && j < n
    ensures var b := Bucketed(map[], order, ranks, im, n);
            ranks[j] in b && im[order[j]] in b[ranks[j]] && b[ranks[j]] == Placed(order, ranks, im, ranks[j], n)
  {
    assert ranks[j] in RanksUpTo(ranks, n);
    PlacedMembership(order, ranks, im, ranks[j], n, im[order[j]]);
  }

  /**
   * In the listed output, the node of a sorted id of lower rank comes first,
   * and of two ids of equal rank the earlier one comes first.
   */
  lemma ListedPrecedes(order: seq<NodeId>, ranks: seq<int>, im: map<NodeId, NodeData>, j: nat, k: nat)
    requires AllIndexed(order, im, |order|) && |order| <= |ranks| && j < |order| && k < |order|
    requires ranks[j] < ranks[k] || (j < k && ranks[j] == ranks[k])
    ensures Precedes(Listed(order, ranks, im), im[order[j]], im[order[k]])
  {
    var n := |order|;
    var b := Bucketed(map[], order, ranks, im, n);
    InBucket(order, ranks, im, n, j);
    InBucket(order, ranks, im, n, k);
    if ranks[j] == ranks[k] {
      PlacedPrecedes(order, ranks, im, ranks[j], n, j, k);
    }
    AscendingPrecedes(b, ranks[j], ranks[k], im[order[j]], im[order[k]]);
  }

  /**
   * When distinct sorted ids have distinct nodes, the listed output holds
   * each sorted id's node exactly once and nothing else.
   */
  lemma ListedOnce(order: seq<NodeId>, ranks: seq<int>, im: map<NodeId, NodeData>)
    requires AllIndexed(order, im, |order|) && |order| <= |ranks| && NoDup(order)
    requires forall i :: 0 <= i < |order| ==> im[order[i]].nodeId == order[i]
    ensures forall k :: 0 <= k < |order| ==> multiset(Listed(order, ranks, im))[im[order[k]]] == 1
    ensures forall x :: x in Listed(order, ranks, im) ==> exists k :: 0 <= k < |order| && im[order[k]] == x
  {
    var n := |order|;
    BucketedMultiset(order, ranks, im, n);
    forall k | 0 <= k < n ensures multiset(Listed(order, ranks, im))[im[order[k]]] == 1 {
      NodesOfOnce(order, im, n, k);
    }
    forall x | x in Listed(order, ranks, im) ensures exists k :: 0 <= k < n && im[order[k]] == x {
      assert x in multiset(NodesOf(order, im, n));
      NodesOfMembership(order, im, n, x);
    }
  }
}
