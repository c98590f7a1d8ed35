/**
 * The depth-first traversal behind the sort (NodeUtil.sortNodeIds and the
 * sweep in findNodesSorted that drives it): every node is emitted after all
 * the nodes its after-edges point to, and a node met again while it is
 * still being traversed is a cycle.
 */
module Sequencer {
  import opened Wrappers
  import opened Nodes
  import opened EdgeResolver

  /** The traversal's failure: the ids in traversal and the id met again. */
  datatype SortError = CycleDetected(checking: set<NodeId>, nodeId: NodeId)

  /** Each id of p is followed by one of its after-edge targets. */
  ghost predicate IsPath(after: EdgeMap, p: seq<NodeId>)
  {
    forall k :: 0 <= k < |p| - 1 ==> p[k + 1] in EdgesOf(after, p[k])
  }

  /** Following after-edges can lead from some id back to itself. */
  ghost predicate HasCycle(after: EdgeMap)
  {
    exists p :: 2 <= |p| && p[0] == p[|p| - 1] && IsPath(after, p)
  }

  /** Every after-edge leaving done ends in done. */
  ghost predicate Closed(after: EdgeMap, done: set<NodeId>)
  {
    forall x, y :: x in done && y in EdgesOf(after, x) ==> y in done
  }

  /**
   * seg is a valid continuation of the output once done is finished: no id
   * twice, none already done, and every after-edge target of each id is
   * done or emitted before it.
   */
  ghost predicate Settled(after: EdgeMap, done: set<NodeId>, seg: seq<NodeId>)
  {
    NoDup(seg) &&
    (forall k :: 0 <= k < |seg| ==> seg[k] !in done) &&
    (forall k, y :: 0 <= k < |seg| && y in EdgesOf(after, seg[k]) ==> y in done || y in seg[..k])
  }

  /** The ids the traversal hands to itself are not blank. */
  ghost predicate TargetsNonBlank(after: EdgeMap)
  {
    forall x, y :: x in after && y in after[x] ==> NonBlank(y)
  }

  /** What is left to visit; it shrinks with every recursive call. */
  ghost function Unvisited(after: EdgeMap, curr: NodeId, done: set<NodeId>, checking: set<NodeId>): set<NodeId>
  {
    (after.Keys + Targets(after) + {curr}) - done - checking
  }

  // ---------------------------------------------------------------- lemmas

  lemma SettledAppend(after: EdgeMap, done: set<NodeId>, s1: seq<NodeId>, d1: set<NodeId>, s2: seq<NodeId>)
    requires Settled(after, done, s1) && done <= d1 && Elems(s1) == d1 - done
    requires Settled(after, d1, s2)
    ensures Settled(after, done, s1 + s2)
  {
    var s := s1 + s2;
    forall i, j | 0 <= i < j < |s| ensures s[i] != s[j] {
      if j >= |s1| && i < |s1| {
        assert s[i] in Elems(s1);
        assert s[j] == s2[j - |s1|];
      }
      if i >= |s1| {
        assert s[i] == s2[i - |s1|] && s[j] == s2[j - |s1|];
      }
    }
    forall k, y | 0 <= k < |s| && y in EdgesOf(after, s[k]) ensures y in done || y in s[..k] {
      if k >= |s1| {
        var k2 := k - |s1|;
        assert s[k] == s2[k2];
        if y in d1 && y !in done {
          assert y in Elems(s1);
          var i :| 0 <= i < |s1| && s1[i] == y;
          assert s[..k][i] == y;
        } else if y in s2[..k2] {
          var i :| 0 <= i < k2 && s2[i] == y;
          assert s[..k][|s1| + i] == y;
        }
      } else {
        assert s[k] == s1[k];
        if y in s1[..k] {
          var i :| 0 <= i < k && s1[i] == y;
          assert s[..k][i] == y;
        }
      }
    }
    forall k | 0 <= k < |s| ensures s[k] !in done {
      if k >= |s1| {
        assert s[k] == s2[k - |s1|];
      }
    }
  }

  lemma SettledSnoc(after: EdgeMap, done: set<NodeId>, seg: seq<NodeId>, x: NodeId)
    requires Settled(after, done, seg) && x !in done && x !in Elems(seg)
    requires forall y | y in EdgesOf(after, x) :: y in done || y in Elems(seg)
    ensures Settled(after, done, seg + [x])
  {
    var s := seg + [x];
    forall i, j | 0 <= i < j < |s| ensures s[i] != s[j] {
      if j == |seg| {
        assert s[i] in Elems(seg);
      }
    }
    forall k, y | 0 <= k < |s| && y in EdgesOf(after, s[k]) ensures y in done || y in s[..k] {
      if k == |seg| {
        assert s[..k] == seg;
      } else {
        assert s[..k] == seg[..k];
      }
    }
  }

  lemma SettledEdge(after: EdgeMap, done: set<NodeId>, seg: seq<NodeId>, k: int, y: NodeId)
    requires Settled(after, done, seg) && 0 <= k < |seg| && y in EdgesOf(after, seg[k])
    ensures y in done || y in seg[..k]
  {
  }

  /** Meeting an id of the traversal stack again closes a cycle. */
  lemma CycleFromStack(after: EdgeMap, stack: seq<NodeId>, curr: NodeId)
    requires IsPath(after, stack + [curr]) && curr in Elems(stack)
    ensures HasCycle(after)
  {
    var i :| 0 <= i < |stack| && stack[i] == curr;
    var s := stack + [curr];
    var p := s[i..];
    assert p[0] == curr && p[|p| - 1] == curr;
    forall k | 0 <= k < |p| - 1 ensures p[k + 1] in EdgesOf(after, p[k]) {
      assert p[k] == s[i + k] && p[k + 1] == s[i + k + 1];
    }
    assert IsPath(after, p);
  }

  /** The position of x in s. */
  function IndexOf(s: seq<NodeId>, x: NodeId): (r: nat)
    requires x in s
    ensures r < |s| && s[r] == x && x !in s[..r]
  {
    if s[0] == x then 0 else 1 + IndexOf(s[1..], x)
  }

  lemma IndexOfUnique(s: seq<NodeId>, x: NodeId, j: int)
    requires NoDup(s) && 0 <= j < |s| && s[j] == x
    ensures IndexOf(s, x) == j
  {
  }

  /** Along a path through a settled order, positions drop at every step. */
  lemma {:induction false} PathPositions(after: EdgeMap, order: seq<NodeId>, p: seq<NodeId>, k: nat)
    requires Settled(after, {}, order) && IsPath(after, p)
    requires k < |p| && p[0] in order
    ensures p[k] in order && IndexOf(order, p[k]) + k <= IndexOf(order, p[0])
  {
    if k > 0 {
      PathPositions(after, order, p, k - 1);
      var i := IndexOf(order, p[k - 1]);
      SettledEdge(after, {}, order, i, p[k]);
      var j :| 0 <= j < i && order[..i][j] == p[k];
      IndexOfUnique(order, p[k], j);
    }
  }

  /** An order that settles every id with after-edges leaves no room for a cycle. */
  lemma SettledAcyclic(after: EdgeMap, order: seq<NodeId>)
    requires Settled(after, {}, order) && after.Keys <= Elems(order)
    ensures !HasCycle(after)
  {
    if HasCycle(after) {
      var p :| 2 <= |p| && p[0] == p[|p| - 1] && IsPath(after, p);
      assert p[1] in EdgesOf(after, p[0]);
      assert p[0] in Elems(order);
      PathPositions(after, order, p, |p| - 1);
    }
  }

  // ---------------------------------------------------------------- the traversal

  /**
   * sorted' is sorted extended by exactly the ids finished between done and
   * done', in an order that settles them.
   */
  ghost predicate Extends(after: EdgeMap, done: set<NodeId>, done': set<NodeId>, sorted: seq<NodeId>, sorted': seq<NodeId>)
  {
    done <= done' && |sorted| <= |sorted'| && sorted'[..|sorted|] == sorted &&
    Settled(after, done, sorted'[|sorted|..]) && Elems(sorted'[|sorted|..]) == done' - done
  }

  lemma ExtendsNone(after: EdgeMap, done: set<NodeId>, sorted: seq<NodeId>)
    ensures Extends(after, done, done, sorted, sorted)
  {
    assert sorted[|sorted|..] == [];
  }

  lemma ExtendsTrans(after: EdgeMap, d0: set<NodeId>, d1: set<NodeId>, d2: set<NodeId>,
                     s0: seq<NodeId>, s1: seq<NodeId>, s2: seq<NodeId>)
    requires Extends(after, d0, d1, s0, s1) && Extends(after, d1, d2, s1, s2)
    ensures Extends(after, d0, d2, s0, s2)
  {
    SettledAppend(after, d0, s1[|s0|..], d1, s2[|s1|..]);
    assert s2[|s0|..] == s1[|s0|..] + s2[|s1|..];
    ElemsConcat(s1[|s0|..], s2[|s1|..]);
  }

  lemma ExtendsSnoc(after: EdgeMap, d0: set<NodeId>, d1: set<NodeId>, s0: seq<NodeId>, s1: seq<NodeId>, x: NodeId)
    requires Extends(after, d0, d1, s0, s1) && x !in d1
    requires forall y | y in EdgesOf(after, x) :: y in d1
    ensures Extends(after, d0, d1 + {x}, s0, s1 + [x])
  {
    var seg := s1[|s0|..];
    SettledSnoc(after, d0, seg, x);
    assert (s1 + [x])[|s0|..] == seg + [x];
    ElemsConcat(seg, [x]);
  }

  /** An extension of the empty output, placed after an existing output. */
  lemma ExtendsShift(after: EdgeMap, d0: set<NodeId>, d1: set<NodeId>, a: seq<NodeId>, seg: seq<NodeId>)
    requires Extends(after, d0, d1, [], seg)
    ensures Extends(after, d0, d1, a, a + seg)
  {
    assert (a + seg)[|a|..] == seg && seg[0..] == seg;
  }

  /**
   * Traverses from curr: fails on an id still in traversal, does nothing
   * for a finished id, and otherwise traverses every after-edge target of
   * curr, then marks curr finished and appends it to the output.
   */
  method SortNodeIds(curr: NodeId, after: EdgeMap, done: set<NodeId>, checking: set<NodeId>,
                     sorted: seq<NodeId>, ghost stack: seq<NodeId>)
    returns (outcome: Outcome<SortError>, done': set<NodeId>, checking': set<NodeId>, sorted': seq<NodeId>)
    requires NonBlank(curr) && TargetsNonBlank(after)
    requires Elems(stack) == checking && IsPath(after, stack + [curr])
    requires done !! checking && Closed(after, done)
    ensures curr in checking ==> outcome == Fail(CycleDetected(checking, curr))
    ensures curr in done ==> outcome == Pass && done' == done && checking' == checking && sorted' == sorted
    ensures outcome.Fail? ==> HasCycle(after)
    ensures outcome.Pass? ==>
              checking' == checking && curr in done' && done' <= done + {curr} + Targets(after) &&
              done' !! checking && Closed(after, done') && Extends(after, done, done', sorted, sorted')
    decreases Unvisited(after, curr, done, checking), 1
  {
    done', checking', sorted' := done, checking, sorted;
    if curr in checking {
      outcome := Fail(CycleDetected(checking, curr));
      CycleFromStack(after, stack, curr);
    } else if curr !in done {
      checking' := checking + {curr};
      outcome, done', sorted' := VisitTargets(curr, after, done, checking', sorted, stack);
      if outcome.Pass? {
        ExtendsSnoc(after, done, done', sorted, sorted', curr);
        checking' := checking' - {curr};
        done' := done' + {curr};
        sorted' := sorted' + [curr];
      }
    } else {
      outcome := Pass;
    }
  }

  /** Traverses every after-edge target of curr (sortNodeIds' loop over the after-edges). */
  method VisitTargets(curr: NodeId, after: EdgeMap, done: set<NodeId>, checking: set<NodeId>,
                      sorted: seq<NodeId>, ghost stack: seq<NodeId>)
    returns (outcome: Outcome<SortError>, done': set<NodeId>, sorted': seq<NodeId>)
    requires TargetsNonBlank(after)
    requires curr !in Elems(stack) && checking == Elems(stack) + {curr} && IsPath(after, stack + [curr])
    requires curr !in done && done !! checking && Closed(after, done)
    ensures outcome.Fail? ==> HasCycle(after)
    ensures outcome.Pass? ==>
              done' <= done + Targets(after) && done' !! checking && Closed(after, done') &&
              Extends(after, done, done', sorted, sorted') && EdgesOf(after, curr).Keys <= done'
    decreases Unvisited(after, curr, done, checking - {curr}), 0
  {
    outcome := Pass;
    done', sorted' := done, sorted;
    var nodeList := EdgesOf(after, curr);
    var todo := nodeList.Keys;
    ExtendsNone(after, done, sorted);
    while todo != {}
      invariant todo <= nodeList.Keys
      invariant done' <= done + Targets(after) && done' !! checking && Closed(after, done')
      invariant Extends(after, done, done', sorted, sorted')
      invariant forall y | y in nodeList && y !in todo :: y in done'
      decreases todo
    {
      var y :| y in todo;
      assert curr in after && y in after[curr];
      assert y in Targets(after);
      assert Unvisited(after, y, done', checking) < Unvisited(after, curr, done, checking - {curr}) by {
        assert curr in Unvisited(after, curr, done, checking - {curr});
      }
      assert (stack + [curr]) + [y] == stack + [curr, y];
      ghost var d0, s0 := done', sorted';
      var o, c;
      o, done', c, sorted' := SortNodeIds(y, after, done', checking, sorted', stack + [curr]);
      if o.Fail? {
        outcome := o;
        return;
      }
      ExtendsTrans(after, done, d0, done', sorted, s0, sorted');
      todo := todo - {y};
    }
  }

  /** One pass of the sweep: traverses from every id of workNodes in turn. */
  method Sweep(workNodes: set<NodeId>, after: EdgeMap, done: set<NodeId>, checking: set<NodeId>, all: seq<NodeId>)
    returns (outcome: Outcome<SortError>, done': set<NodeId>, checking': set<NodeId>, all': seq<NodeId>)
    requires forall id | id in workNodes :: NonBlank(id)
    requires TargetsNonBlank(after) && checking == {} && Closed(after, done)
    ensures outcome.Fail? ==> HasCycle(after)
    ensures outcome.Pass? ==>
              checking' == {} && Closed(after, done') && workNodes <= done' &&
              done' <= done + workNodes + Targets(after) && Extends(after, done, done', all, all')
  {
    outcome := Pass;
    done', checking', all' := done, checking, all;
    ExtendsNone(after, done, all);
    var pending := workNodes;
    while pending != {}
      invariant pending <= workNodes
      invariant checking' == {} && Closed(after, done') && done' <= done + workNodes + Targets(after)
      invariant workNodes - pending <= done'
      invariant Extends(after, done, done', all, all')
      decreases pending
    {
      var item :| item in pending;
      ghost var d0, a0 := done', all';
      var o, d, c, seg := SortNodeIds(item, after, done', checking', [], []);
      if o.Fail? {
        outcome := o;
        return;
      }
      all' := all' + seg;
      ExtendsShift(after, d0, d, a0, seg);
      ExtendsTrans(after, done, d0, d, all, a0, all');
      done', checking' := d, c;
      pending := pending - {item};
    }
  }

  lemma ExtendsInit(after: EdgeMap, all: seq<NodeId>)
    ensures Extends(after, {}, Elems(all), [], all) <==> Settled(after, {}, all)
  {
    assert all[0..] == all;
  }

  /** Puts each orphan id in front of the output (the orphan loop at the end of the rank-map findNodesSorted). */
  method PrependOrphans(orphans: set<NodeId>, sorted: seq<NodeId>) returns (r: seq<NodeId>)
    ensures |r| == |orphans| + |sorted| && r[|orphans|..] == sorted
    ensures Elems(r[..|orphans|]) == orphans
  {
    r := sorted;
    var todo := orphans;
    ghost var n := 0;
    while todo != {}
      invariant todo <= orphans && n + |todo| == |orphans|
      invariant |r| == n + |sorted| && r[n..] == sorted
      invariant Elems(r[..n]) == orphans - todo
      decreases todo
    {
      var item :| item in todo;
      r := PrependOne(item, r, n, orphans, todo);
      todo := todo - {item};
      n := n + 1;
    }
  }

  /** One step of PrependOrphans: item goes in front, and the prefix of placed orphans grows by it. */
  method PrependOne(item: NodeId, r: seq<NodeId>, ghost n: nat, ghost orphans: set<NodeId>, ghost todo: set<NodeId>)
    returns (r': seq<NodeId>)
    requires item in todo && todo <= orphans && n <= |r| && Elems(r[..n]) == orphans - todo
    ensures r' == [item] + r && Elems(r'[..n + 1]) == orphans - (todo - {item})
  {
    r' := [item] + r;
    assert r'[..n + 1] == [item] + r[..n];
    ElemsConcat([item], r[..n]);
    assert Elems([item]) == {item};
  }

  /**
   * The sweep of the rank-map findNodesSorted: traverses from every id, repeats while the set of
   * unfinished ids shrinks, then puts any leftover id in front. On success
   * the output holds every id once, each after the targets of its
   * after-edges; it fails exactly when the after-edges have a cycle.
   */
  method SortAll(ids: set<NodeId>, after: EdgeMap) returns (outcome: Result<seq<NodeId>, SortError>)
    requires forall id | id in ids :: NonBlank(id)
    requires Targets(after) <= ids
    ensures outcome.Success? ==>
              NoDup(outcome.value) && Elems(outcome.value) == ids && Settled(after, {}, outcome.value)
    ensures outcome.Failure? ==> HasCycle(after)
    ensures after.Keys <= ids ==> (outcome.Failure? <==> HasCycle(after))
  {
    assert TargetsNonBlank(after) by {
      forall x, y | x in after && y in after[x] ensures NonBlank(y) {
        assert y in Targets(after);
      }
    }
    var workNodes := ids;
    var done: set<NodeId> := {};
    var checking: set<NodeId> := {};
    var all: seq<NodeId> := [];
    var prevSize := |workNodes|;
    var more := true;
    while more
      invariant more ==> workNodes == ids && done == {} && checking == {} && all == []
      invariant !more ==> workNodes == {} && done == ids && Extends(after, {}, ids, [], all)
      decreases if more then |workNodes| + 1 else 0
    {
      var o;
      o, done, checking, all := Sweep(workNodes, after, done, checking, all);
      if o.Fail? {
        return Failure(o.error);
      }
      workNodes := workNodes - done - checking;
      more := !(workNodes == {} || |workNodes| == prevSize);
      prevSize := |workNodes|;
    }
    ExtendsInit(after, all);
    all := PrependOrphans(workNodes, all);
    outcome := Success(all);
    if after.Keys <= ids {
      SettledAcyclic(after, all);
    }
  }
}
