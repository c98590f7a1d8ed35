/**
 * Weighted edge merging (NodeUtil.mergeNodeRanks): a weight offered for a
 * target that is already present is combined by taking the larger of the
 * two, never by adding them.
 */
module RankMerge {
  import opened Nodes

  /** Target node id to weight: one node's outgoing before- or after-edges. */
  type Weights = map<NodeId, int>

  /** Offered (target, weight) pairs, possibly several per target. */
  type Candidates = set<(NodeId, int)>

  /** Java's Math.max on the model's unbounded integers. */
  function Max(a: int, b: int): int
  {
    if a >= b then a else b
  }

  /** The entries of a weight map, as offered pairs. */
  function Pairs(m: Weights): Candidates
  {
    set k | k in m :: (k, m[k])
  }

  /**
   * r is the max-merge of the offers c: every offered target is a key of r
   * with a weight at least as large as each offer for it, and every entry
   * of r is itself one of the offers.
   */
  ghost predicate IsMaxOf(r: Weights, c: Candidates)
  {
    && (forall p | p in c :: p.0 in r && p.1 <= r[p.0])
    && (forall k | k in r :: (k, r[k]) in c)
  }

  /** The max-merge of a set of offers is unique, whatever order built it. */
  lemma MaxOfUnique(r1: Weights, r2: Weights, c: Candidates)
    requires IsMaxOf(r1, c) && IsMaxOf(r2, c)
    ensures r1 == r2
  {
    forall k | k in r1 ensures k in r2 && r1[k] == r2[k] {
      assert (k, r1[k]) in c;
    }
    forall k | k in r2 ensures k in r1 {
      assert (k, r2[k]) in c;
    }
  }

  /** A weight map is the max-merge of its own entries. */
  lemma PairsMaxOf(m: Weights)
    ensures IsMaxOf(m, Pairs(m))
  {
    forall p | p in Pairs(m) ensures p.0 in m && p.1 <= m[p.0] {
      var k :| k in m && p == (k, m[k]);
    }
  }

  /**
   * Merging further offers d into the max-merge m of c gives the max-merge
   * of c and d together.
   */
  lemma MaxOfCompose(m: Weights, r: Weights, c: Candidates, d: Candidates)
    requires IsMaxOf(m, c) && IsMaxOf(r, Pairs(m) + d)
    ensures IsMaxOf(r, c + d)
  {
    forall p | p in c ensures p.0 in r && p.1 <= r[p.0] {
      assert (p.0, m[p.0]) in Pairs(m);
    }
    forall k | k in r ensures (k, r[k]) in c + d {
      if (k, r[k]) !in d {
        assert (k, r[k]) in Pairs(m);
        var k' :| k' in m && (k, r[k]) == (k', m[k']);
      }
    }
  }

  /**
   * Merges one (rankKey, rankValue) offer into target. isNew tells whether
   * the key was absent; the new map keeps the larger weight for the key and
   * leaves every other key as it was.
   */
  method MergeNodeRanks(rankKey: NodeId, rankValue: int, target: Weights)
    returns (isNew: bool, merged: Weights)
    requires NonBlank(rankKey)
    ensures isNew <==> rankKey !in target
    ensures merged == target[rankKey := if isNew then rankValue else Max(rankValue, target[rankKey])]
    ensures IsMaxOf(merged, Pairs(target) + {(rankKey, rankValue)})
  {
    isNew := false;
    if rankKey !in target {
      isNew := true;
      merged := target[rankKey := rankValue];
    } else {
      merged := target[rankKey := Max(rankValue, target[rankKey])];
    }
    forall p | p in Pairs(target) + {(rankKey, rankValue)} ensures p.0 in merged && p.1 <= merged[p.0] {
      if p != (rankKey, rankValue) {
        var k :| k in target && p == (k, target[k]);
      }
    }
  }

  /**
   * Merges a set of offers into target, one mergeNodeRanks call per offer
   * (the bodies of findNodeOrders' loops over a type's node ids and over a
   * map's entries).
   */
  method MergeAll(offers: Candidates, target: Weights) returns (merged: Weights)
    requires forall p | p in offers :: NonBlank(p.0)
    ensures IsMaxOf(merged, Pairs(target) + offers)
  {
    merged := target;
    var todo := offers;
    PairsMaxOf(target);
    while todo != {}
      invariant todo <= offers
      invariant IsMaxOf(merged, Pairs(target) + (offers - todo))
      decreases todo
    {
      var p :| p in todo;
      var prev := merged;
      var _, next := MergeNodeRanks(p.0, p.1, merged);
      merged := next;
      MaxOfCompose(prev, merged, Pairs(target) + (offers - todo), {p});
      assert Pairs(target) + (offers - todo) + {p} == Pairs(target) + (offers - (todo - {p}));
      todo := todo - {p};
    }
  }

  /** Some value of a non-empty finite set of integers is an upper bound of it. */
  lemma {:induction false} MaxExists(s: set<int>)
    requires s != {}
    ensures exists m :: m in s && forall x :: x in s ==> x <= m
  {
    if forall x :: x !in s {
      assert false;
    }
    var y :| y in s;
    if s != {y} {
      MaxExists(s - {y});
      var m :| m in s - {y} && forall x :: x in s - {y} ==> x <= m;
      var top := Max(y, m);
      forall x | x in s ensures x <= top {
        if x != y {
          assert x in s - {y};
        }
      }
      assert top in s;
    } else {
      assert forall x :: x in s ==> x <= y;
    }
  }

  /** The largest element of a non-empty finite set of integers. */
  ghost function MaxOfSet(s: set<int>): (m: int)
    requires s != {}
    ensures m in s && forall x :: x in s ==> x <= m
  {
    MaxExists(s);
    var m :| m in s && forall x :: x in s ==> x <= m;
    m
  }

  /** The weights offered for target k. */
  ghost function OffersFor(c: Candidates, k: NodeId): set<int>
  {
    set p | p in c && p.0 == k :: p.1
  }

  /** The max-merge of a set of offers, as a value. */
  ghost function MaxMap(c: Candidates): (r: Weights)
    ensures IsMaxOf(r, c)
  {
    var targets := set p | p in c :: p.0;
    assert forall k | k in targets :: OffersFor(c, k) != {} by {
      forall k | k in targets ensures OffersFor(c, k) != {} {
        var p :| p in c && p.0 == k;
        assert p.1 in OffersFor(c, k);
      }
    }
    var r := map k | k in targets :: MaxOfSet(OffersFor(c, k));
    assert forall p | p in c :: p.1 in OffersFor(c, p.0);
    r
  }

  /** Merging two weight maps key by key, keeping the larger weight on shared keys. */
  function MergeWeights(a: Weights, b: Weights): (r: Weights)
    ensures IsMaxOf(r, Pairs(a) + Pairs(b))
    ensures r.Keys == a.Keys + b.Keys
  {
    var r := map k | k in a.Keys + b.Keys ::
      if k in a && k in b then Max(a[k], b[k]) else if k in a then a[k] else b[k];
    assert forall k | k in r :: (k, r[k]) in Pairs(a) + Pairs(b) by {
      forall k | k in r ensures (k, r[k]) in Pairs(a) + Pairs(b) {
        if k in a && r[k] == a[k] {
          assert (k, a[k]) in Pairs(a);
        } else {
          assert (k, b[k]) in Pairs(b);
        }
      }
    }
    r
  }

  /** The merged weight of one key: present when either side has it, the larger weight when both do. */
  lemma MergeWeightsAt(a: Weights, b: Weights, k: NodeId)
    ensures k in MergeWeights(a, b) <==> k in a || k in b
    ensures k in a ==> a[k] <= MergeWeights(a, b)[k]
    ensures k in b ==> b[k] <= MergeWeights(a, b)[k]
    ensures k in MergeWeights(a, b) ==>
              (k in a && MergeWeights(a, b)[k] == a[k]) || (k in b && MergeWeights(a, b)[k] == b[k])
  {
    var m := MergeWeights(a, b);
    if k in a {
      assert (k, a[k]) in Pairs(a);
    }
    if k in b {
      assert (k, b[k]) in Pairs(b);
    }
    if k in m {
      assert (k, m[k]) in Pairs(a) + Pairs(b);
    }
  }
}
