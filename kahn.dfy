/**
 The state of Kahn's worklist loop in Graph.isDAG() and the facts that carry it
 from one step to the next. c is the copied in-degree array, q the deque (its
 front is q[0]), done the nodes already taken off the deque and order the
 sequence in which they were taken.
 */
module Kahn {
  import opened Topology

  /** No entry of q repeats. */
  ghost predicate Distinct(q: seq<int>)
  {
    q == [] || (q[0] !in q[1..] && Distinct(q[1..]))
  }

  /** An increasing sequence has no repeats. */
  lemma {:induction false} IncreasingDistinct(q: seq<int>)
    requires forall i, j :: 0 <= i < j < |q| ==> q[i] < q[j]
    ensures Distinct(q)
  {
    if q != [] {
      assert forall i, j :: 0 <= i < j < |q[1..]| ==> q[1..][i] < q[1..][j] by {
        forall i, j | 0 <= i < j < |q[1..]| ensures q[1..][i] < q[1..][j] {
          assert q[1..][i] == q[i + 1] && q[1..][j] == q[j + 1];
        }
      }
      IncreasingDistinct(q[1..]);
    }
  }

  /** No entry repeats, every entry is a node and none is already processed. */
  ghost predicate QueueOk(q: seq<int>, done: set<int>, n: int)
  {
    && (forall x :: x in q ==> 0 <= x < n && x !in done)
    && Distinct(q)
  }

  /** The zero counts are exactly the queued and the processed nodes. */
  ghost predicate Frontier(adj: seq<seq<int>>, c: seq<int>, q: seq<int>, done: set<int>)
  {
    && |c| == |adj|
    && QueueOk(q, done, |adj|)
    && forall v :: 0 <= v < |c| ==> (c[v] == 0 <==> v in q || v in done)
  }

  /** Each count is what is left of the in-degree once done is processed, plus the entries of rest still to decrement. */
  ghost predicate Pending(adj: seq<seq<int>>, c: seq<int>, done: set<int>, rest: seq<int>)
    requires |c| == |adj|
  {
    forall v {:trigger Incoming(adj, done, v, |adj|)} :: 0 <= v < |c| ==> c[v] == Incoming(adj, done, v, |adj|) + Count(rest, v)
  }

  /** The invariant of the worklist loop. */
  ghost predicate KahnState(adj: seq<seq<int>>, c: seq<int>, q: seq<int>, done: set<int>, order: seq<int>)
  {
    && Frontier(adj, c, q, done)
    && Pending(adj, c, done, [])
    && (forall x :: x in done ==> 0 <= x < |adj|)
    && |done| <= |adj|
    && (forall x :: x in order <==> x in done)
    && TopoOrdered(adj, order)
  }

  /** Before the loop: the counts are the in-degrees and the deque holds exactly the roots. */
  lemma InitialState(adj: seq<seq<int>>, c: seq<int>, roots: seq<int>)
    requires |c| == |adj|
    requires forall v :: 0 <= v < |c| ==> c[v] == Incoming(adj, {}, v, |adj|)
    requires forall x :: x in roots <==> 0 <= x < |c| && c[x] == 0
    requires forall i, j :: 0 <= i < j < |roots| ==> roots[i] < roots[j]
    ensures KahnState(adj, c, roots, {}, [])
  {
    IncreasingDistinct(roots);
    forall v | 0 <= v < |c| ensures c[v] == Incoming(adj, {}, v, |adj|) + Count([], v) {
    }
  }

  /**
   Taking e off the front of the deque: e may follow every processed node in
   order, and what is left of each in-degree loses e's edges, which the inner
   loop then decrements one by one.
   */
  lemma PopStep(adj: seq<seq<int>>, c: seq<int>, q: seq<int>, done: set<int>, order: seq<int>)
    requires KahnState(adj, c, q, done, order) && q != []
    ensures var e := q[0];
      && 0 <= e < |adj| && e !in done
      && Frontier(adj, c, q[1..], done + {e})
      && Pending(adj, c, done + {e}, adj[e])
      && (forall x :: x in done + {e} ==> 0 <= x < |adj|)
      && |done + {e}| <= |adj|
      && (forall x :: x in order + [e] <==> x in done + {e})
      && TopoOrdered(adj, order + [e])
  {
    var e := q[0];
    PopFrontier(adj, c, q, done);
    PopPending(adj, c, done, e);
    PopKeepsOrdered(adj, done, order, e);
    NodeSetCard(done + {e}, |adj|);
  }

  /** Moving the front of the deque into done keeps the zero counts those of the queued and processed nodes. */
  lemma PopFrontier(adj: seq<seq<int>>, c: seq<int>, q: seq<int>, done: set<int>)
    requires Frontier(adj, c, q, done) && q != []
    ensures 0 <= q[0] < |adj| && q[0] !in done
    ensures Frontier(adj, c, q[1..], done + {q[0]})
  {
    var e := q[0];
    assert e in q && e !in q[1..] && Distinct(q[1..]);
    forall x | x in q[1..]
      ensures 0 <= x < |adj| && x !in done + {e}
    {
      assert x in q;
    }
    forall v | 0 <= v < |c|
      ensures c[v] == 0 <==> v in q[1..] || v in done + {e}
    {
      assert v in q <==> v == e || v in q[1..];
    }
  }

  /** Once e is processed, each count owes exactly e's outgoing edges. */
  lemma PopPending(adj: seq<seq<int>>, c: seq<int>, done: set<int>, e: int)
    requires |c| == |adj| && 0 <= e < |adj| && e !in done
    requires Pending(adj, c, done, [])
    ensures Pending(adj, c, done + {e}, adj[e])
  {
    forall v | 0 <= v < |adj|
      ensures c[v] == Incoming(adj, done + {e}, v, |adj|) + Count(adj[e], v)
    {
      IncomingRemove(adj, done, e, v, |adj|);
    }
  }

  /** The invariant of the inner loop, before the decrement for s[j]. */
  ghost predicate DrainState(adj: seq<seq<int>>, c: seq<int>, q: seq<int>, done: set<int>, s: seq<int>, j: nat)
  {
    j <= |s| && Frontier(adj, c, q, done) && Pending(adj, c, done, s[j..])
  }

  /** One decrement of the inner loop: the count of s[j] was positive and now owes one entry less. */
  lemma PendingStep(adj: seq<seq<int>>, c: seq<int>, c2: seq<int>, done: set<int>, s: seq<int>, j: nat)
    requires |c| == |adj| && j < |s| && 0 <= s[j] < |adj|
    requires Pending(adj, c, done, s[j..])
    requires c2 == c[s[j] := c[s[j]] - 1]
    ensures c[s[j]] >= 1 && Pending(adj, c2, done, s[j + 1..])
  {
    CountStep(s, j);
    assert c[s[j]] == Incoming(adj, done, s[j], |adj|) + Count(s[j..], s[j]);
    forall v | 0 <= v < |c2|
      ensures c2[v] == Incoming(adj, done, v, |adj|) + Count(s[j + 1..], v)
    {
      assert c[v] == Incoming(adj, done, v, |adj|) + Count(s[j..], v);
    }
  }

  /** Pushing w to the front of the deque exactly when its positive count drops to zero keeps the frontier. */
  lemma FrontierStep(adj: seq<seq<int>>, c: seq<int>, q: seq<int>, c2: seq<int>, q2: seq<int>,
                     done: set<int>, w: int)
    requires Frontier(adj, c, q, done) && 0 <= w < |adj| && c[w] >= 1
    requires c2 == c[w := c[w] - 1]
    requires q2 == if c2[w] == 0 then [w] + q else q
    ensures Frontier(adj, c2, q2, done)
  {
  }

  /**
   Decrementing the count of w = s[j] and pushing w
   when it reaches zero carries the inner loop's invariant to position j + 1.
   */
  lemma DrainStep(adj: seq<seq<int>>, c: seq<int>, q: seq<int>, c2: seq<int>, q2: seq<int>,
                  done: set<int>, s: seq<int>, j: nat)
    requires DrainState(adj, c, q, done, s, j) && j < |s| && 0 <= s[j] < |adj|
    requires c2 == c[s[j] := c[s[j]] - 1]
    requires q2 == if c2[s[j]] == 0 then [s[j]] + q else q
    ensures DrainState(adj, c2, q2, done, s, j + 1)
  {
    PendingStep(adj, c, c2, done, s, j);
    FrontierStep(adj, c, q, c2, q2, done, s[j]);
  }

  /** c after one decrement for each entry of s, taken left to right. */
  function Decrement(c: seq<int>, s: seq<int>): (d: seq<int>)
    requires forall i :: 0 <= i < |s| ==> 0 <= s[i] < |c|
    ensures |d| == |c|
    decreases |s|
  {
    if s == [] then c else Decrement(c[s[0] := c[s[0]] - 1], s[1..])
  }

  /** The deque q after each entry of s, decremented in turn, is pushed to its front when its count reaches zero. */
  function Pushes(c: seq<int>, q: seq<int>, s: seq<int>): seq<int>
    requires forall i :: 0 <= i < |s| ==> 0 <= s[i] < |c|
    decreases |s|
  {
    if s == [] then q
    else
      var c2 := c[s[0] := c[s[0]] - 1];
      Pushes(c2, if c2[s[0]] == 0 then [s[0]] + q else q, s[1..])
  }

  /** Draining s lowers each count by the number of times its node occurs in s. */
  lemma {:induction false} DecrementCounts(c: seq<int>, s: seq<int>, v: int)
    requires forall i :: 0 <= i < |s| ==> 0 <= s[i] < |c|
    requires 0 <= v < |c|
    ensures Decrement(c, s)[v] == c[v] - Count(s, v)
    decreases |s|
  {
    if s != [] {
      DecrementCounts(c[s[0] := c[s[0]] - 1], s[1..], v);
    }
  }

  /** What is left of the inner loop after position j is the decrement of s[j] followed by the rest. */
  lemma DrainFirst(c: seq<int>, q: seq<int>, s: seq<int>, j: nat)
    requires forall i :: 0 <= i < |s| ==> 0 <= s[i] < |c|
    requires j < |s|
    ensures var c2 := c[s[j] := c[s[j]] - 1];
      && Decrement(c, s[j..]) == Decrement(c2, s[j + 1..])
      && Pushes(c, q, s[j..]) == Pushes(c2, if c2[s[j]] == 0 then [s[j]] + q else q, s[j + 1..])
  {
    assert s[j..][0] == s[j] && s[j..][1..] == s[j + 1..];
  }

  /**
   From the inner loop's invariant at position j, draining the rest of s
   leaves the counts df and the deque pf in the invariant at the end of s.
   */
  lemma {:induction false} DrainRest(adj: seq<seq<int>>, c: seq<int>, q: seq<int>, done: set<int>,
                                     s: seq<int>, j: nat, df: seq<int>, pf: seq<int>)
    requires forall i :: 0 <= i < |s| ==> 0 <= s[i] < |adj|
    requires DrainState(adj, c, q, done, s, j)
    requires df == Decrement(c, s[j..]) && pf == Pushes(c, q, s[j..])
    ensures DrainState(adj, df, pf, done, s, |s|)
    decreases |s| - j
  {
    if j == |s| {
      assert s[j..] == [];
    } else {
      var c2 := c[s[j] := c[s[j]] - 1];
      var q2 := if c2[s[j]] == 0 then [s[j]] + q else q;
      DrainFirst(c, q, s, j);
      DrainStep(adj, c, q, c2, q2, done, s, j);
      DrainRest(adj, c2, q2, done, s, j + 1, df, pf);
    }
  }

  /** A count left above zero after the loop exposes a cycle. */
  lemma StuckState(adj: seq<seq<int>>, c: seq<int>, done: set<int>, order: seq<int>, i: int)
    requires KahnState(adj, c, [], done, order)
    requires 0 <= i < |c| && c[i] != 0
    ensures HasCycle(adj)
  {
    StuckHasCycle(adj, done, i);
  }

  /** All counts drained to zero: order lists every node after its predecessors. */
  lemma DrainedState(adj: seq<seq<int>>, c: seq<int>, done: set<int>, order: seq<int>)
    requires WellFormed(adj)
    requires KahnState(adj, c, [], done, order)
    requires forall k :: 0 <= k < |c| ==> c[k] == 0
    ensures !HasCycle(adj)
  {
    OrderedAcyclic(adj, order);
  }
}
