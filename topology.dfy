/**
 The index-level view of a graph's topology: nodes are the indices 0 .. |adj| - 1
 and adj[u] lists the successors of u (one entry per edge, so repeated edges
 repeat). Kahn's algorithm is proved correct against the definitions here.
 */
module Topology {

  /** Every successor index names a node. */
  ghost predicate WellFormed(adj: seq<seq<int>>)
  {
    forall u, i :: 0 <= u < |adj| && 0 <= i < |adj[u]| ==> 0 <= adj[u][i] < |adj|
  }

  /** Number of occurrences of v in s. */
  function Count(s: seq<int>, v: int): (c: nat)
    ensures c <= |s|
    ensures c == 0 <==> v !in s
  {
    if s == [] then 0 else (if s[0] == v then 1 else 0) + Count(s[1..], v)
  }

  lemma {:induction false} CountAppend(s: seq<int>, x: int, v: int)
    ensures Count(s + [x], v) == Count(s, v) + (if x == v then 1 else 0)
  {
    if s == [] {
      assert [x][1..] == [];
    } else {
      assert (s + [x])[1..] == s[1..] + [x];
      CountAppend(s[1..], x, v);
    }
  }

  lemma CountStep(s: seq<int>, j: int)
    requires 0 <= j < |s|
    ensures forall v :: Count(s[j..], v) == (if s[j] == v then 1 else 0) + Count(s[j + 1..], v)
  {
    assert s[j..][1..] == s[j + 1..];
  }

  /**
   The number of edges into v whose source is below k and not in done:
   what is left of v's in-degree once the nodes in done have been processed.
   */
  function Incoming(adj: seq<seq<int>>, done: set<int>, v: int, k: nat): nat
    requires k <= |adj|
  {
    if k == 0 then 0
    else Incoming(adj, done, v, k - 1) + (if k - 1 in done then 0 else Count(adj[k - 1], v))
  }

  lemma {:induction false} IncomingIgnoresAbove(adj: seq<seq<int>>, done: set<int>, e: int, v: int, k: nat)
    requires k <= |adj| && k <= e
    ensures Incoming(adj, done, v, k) == Incoming(adj, done + {e}, v, k)
  {
    if k > 0 {
      IncomingIgnoresAbove(adj, done, e, v, k - 1);
    }
  }

  /** Processing node e removes exactly e's edges from what is left. */
  lemma {:induction false} IncomingRemove(adj: seq<seq<int>>, done: set<int>, e: int, v: int, k: nat)
    requires k <= |adj| && 0 <= e < k && e !in done
    ensures Incoming(adj, done, v, k) == Incoming(adj, done + {e}, v, k) + Count(adj[e], v)
  {
    if e < k - 1 {
      IncomingRemove(adj, done, e, v, k - 1);
    } else {
      IncomingIgnoresAbove(adj, done, e, v, k - 1);
    }
  }

  /** Nothing left means no unprocessed node below k has an edge into v. */
  lemma {:induction false} IncomingZero(adj: seq<seq<int>>, done: set<int>, v: int, k: nat, u: int)
    requires k <= |adj| && Incoming(adj, done, v, k) == 0
    requires 0 <= u < k && u !in done
    ensures v !in adj[u]
  {
    if u < k - 1 {
      IncomingZero(adj, done, v, k - 1, u);
    }
  }

  /** Something left means some unprocessed node below k has an edge into v. */
  lemma {:induction false} IncomingPositive(adj: seq<seq<int>>, done: set<int>, v: int, k: nat) returns (u: int)
    requires k <= |adj| && Incoming(adj, done, v, k) > 0
    ensures 0 <= u < k && u !in done && v in adj[u]
  {
    if Incoming(adj, done, v, k - 1) > 0 {
      u := IncomingPositive(adj, done, v, k - 1);
    } else {
      u := k - 1;
    }
  }

  /** Appending b to a's successor list adds one edge into b. */
  lemma {:induction false} IncomingAppend(adj: seq<seq<int>>, done: set<int>, a: int, b: int, v: int, k: nat)
    requires k <= |adj| && 0 <= a < |adj|
    ensures Incoming(adj[a := adj[a] + [b]], done, v, k)
         == Incoming(adj, done, v, k) + (if a < k && a !in done && b == v then 1 else 0)
  {
    if k > 0 {
      IncomingAppend(adj, done, a, b, v, k - 1);
      if k - 1 == a {
        CountAppend(adj[a], b, v);
      }
    }
  }

  ghost predicate IsEdge(adj: seq<seq<int>>, u: int, v: int)
  {
    0 <= u < |adj| && v in adj[u]
  }

  ghost predicate IsPath(adj: seq<seq<int>>, p: seq<int>)
  {
    |p| >= 1 && forall i :: 0 <= i < |p| - 1 ==> IsEdge(adj, p[i], p[i + 1])
  }

  /** A path of at least one edge that returns to where it started. */
  ghost predicate IsCycle(adj: seq<seq<int>>, p: seq<int>)
  {
    |p| >= 2 && IsPath(adj, p) && p[0] == p[|p| - 1]
  }

  ghost predicate HasCycle(adj: seq<seq<int>>)
  {
    exists p :: IsCycle(adj, p)
  }

  /** rank strictly increases along every edge. */
  ghost predicate RankRespects(adj: seq<seq<int>>, rank: seq<int>)
  {
    && |rank| == |adj|
    && forall u, i :: 0 <= u < |adj| && 0 <= i < |adj[u]| ==>
         0 <= adj[u][i] < |adj| && rank[u] < rank[adj[u][i]]
  }

  lemma {:induction false} RankAlongPath(adj: seq<seq<int>>, rank: seq<int>, p: seq<int>, j: int)
    requires RankRespects(adj, rank) && IsPath(adj, p) && 1 <= j < |p|
    ensures 0 <= p[0] < |adj| && 0 <= p[j] < |adj| && rank[p[0]] < rank[p[j]]
  {
    assert IsEdge(adj, p[j - 1], p[j]);
    var k :| 0 <= k < |adj[p[j - 1]]| && adj[p[j - 1]][k] == p[j];
    if j > 1 {
      RankAlongPath(adj, rank, p, j - 1);
    }
  }

  /** A graph that admits a rank increasing along every edge has no cycle. */
  lemma RankedAcyclic(adj: seq<seq<int>>, rank: seq<int>)
    requires RankRespects(adj, rank)
    ensures !HasCycle(adj)
  {
    if HasCycle(adj) {
      var p :| IsCycle(adj, p);
      RankAlongPath(adj, rank, p, |p| - 1);
    }
  }

  /** The first position of x in s, or |s| when x does not occur. */
  function IndexOf(s: seq<int>, x: int): (k: nat)
    ensures k <= |s|
    ensures k < |s| <==> x in s
    ensures k < |s| ==> s[k] == x
    ensures forall j :: 0 <= j < |s| && s[j] == x ==> k <= j
  {
    if s == [] then 0 else if s[0] == x then 0 else 1 + IndexOf(s[1..], x)
  }

  /** Every node of order is preceded in order by all of its predecessors. */
  ghost predicate TopoOrdered(adj: seq<seq<int>>, order: seq<int>)
  {
    forall i, u :: 0 <= i < |order| && IsEdge(adj, u, order[i]) ==> u in order[..i]
  }

  /** A node whose in-degree has drained may follow every processed node. */
  lemma PopKeepsOrdered(adj: seq<seq<int>>, done: set<int>, order: seq<int>, e: int)
    requires TopoOrdered(adj, order)
    requires forall x :: x in order <==> x in done
    requires Incoming(adj, done, e, |adj|) == 0
    ensures TopoOrdered(adj, order + [e])
  {
    var order' := order + [e];
    forall i, u | 0 <= i < |order'| && IsEdge(adj, u, order'[i])
      ensures u in order'[..i]
    {
      if i < |order| {
        assert order'[..i] == order[..i];
      } else {
        if u !in done {
          IncomingZero(adj, done, e, |adj|, u);
        }
        assert order'[..i] == order;
      }
    }
  }

  /** An ordering of all nodes in which every predecessor comes first rules out cycles. */
  lemma OrderedAcyclic(adj: seq<seq<int>>, order: seq<int>)
    requires WellFormed(adj) && TopoOrdered(adj, order)
    requires forall v :: 0 <= v < |adj| ==> v in order
    ensures !HasCycle(adj)
  {
    var rank := seq(|adj|, v => IndexOf(order, v));
    forall u, i | 0 <= u < |adj| && 0 <= i < |adj[u]|
      ensures 0 <= adj[u][i] < |adj| && rank[u] < rank[adj[u][i]]
    {
      var v := adj[u][i];
      var k := IndexOf(order, v);
      assert IsEdge(adj, u, order[k]);
      assert u in order[..k];
      var j :| 0 <= j < k && order[..k][j] == u;
      assert order[j] == u;
    }
    RankedAcyclic(adj, rank);
  }

  /** parent picks, for every node of S, a predecessor that is again in S. */
  ghost predicate ParentsIn(adj: seq<seq<int>>, S: set<int>, parent: map<int, int>)
  {
    forall v :: v in S ==> v in parent && parent[v] in S && IsEdge(adj, parent[v], v)
  }

  lemma {:induction false} BackwardPath(adj: seq<seq<int>>, S: set<int>, parent: map<int, int>, v: int, len: nat)
    returns (p: seq<int>)
    requires ParentsIn(adj, S, parent) && v in S
    ensures |p| == len + 1 && IsPath(adj, p) && p[len] == v
    ensures forall i :: 0 <= i < |p| ==> p[i] in S
  {
    if len == 0 {
      p := [v];
    } else {
      var q := BackwardPath(adj, S, parent, v, len - 1);
      var w := q[0];
      assert w in S;
      assert ParentsIn(adj, S, parent);
      assert w in parent;
      var u := parent[w];
      p := [u] + q;
      forall i | 0 <= i < |p|
        ensures p[i] in S
      {
        if i > 0 {
          assert p[i] == q[i - 1];
        }
      }
      forall i | 0 <= i < |p| - 1
        ensures IsEdge(adj, p[i], p[i + 1])
      {
        if i > 0 {
          assert p[i] == q[i - 1] && p[i + 1] == q[i];
        }
      }
    }
  }

  /** A set of node indices has at most as many elements as there are nodes. */
  lemma {:induction false} NodeSetCard(S: set<int>, n: nat)
    requires forall x :: x in S ==> 0 <= x < n
    ensures |S| <= n
  {
    if n > 0 {
      NodeSetCard(S - {n - 1}, n - 1);
    } else {
      assert forall x :: x !in S;
      assert S == {};
    }
  }

  lemma {:induction false} DistinctCard(s: seq<int>)
    requires forall a, b :: 0 <= a < b < |s| ==> s[a] != s[b]
    ensures |set x | x in s| == |s|
  {
    if s != [] {
      DistinctCard(s[1..]);
      assert (set x | x in s) == (set x | x in s[1..]) + {s[0]};
      assert s[0] !in (set x | x in s[1..]);
    }
  }

  /** More than n entries drawn from 0 .. n - 1 repeat one. */
  lemma Pigeonhole(s: seq<int>, n: nat) returns (i: int, j: int)
    requires |s| > n
    requires forall k :: 0 <= k < |s| ==> 0 <= s[k] < n
    ensures 0 <= i < j < |s| && s[i] == s[j]
  {
    if forall a, b :: 0 <= a < b < |s| ==> s[a] != s[b] {
      DistinctCard(s);
      NodeSetCard((set x | x in s), n);
      assert false;
    }
    i, j :| 0 <= i < j < |s| && s[i] == s[j];
  }

  /** A non-empty set of nodes each of which has a predecessor in the set holds a cycle. */
  lemma ClosedSetHasCycle(adj: seq<seq<int>>, S: set<int>, parent: map<int, int>, v: int)
    requires ParentsIn(adj, S, parent) && v in S
    requires forall x :: x in S ==> 0 <= x < |adj|
    ensures HasCycle(adj)
  {
    var p := BackwardPath(adj, S, parent, v, |adj|);
    var i, j := Pigeonhole(p, |adj|);
    var c := p[i..j + 1];
    forall k | 0 <= k < |c| - 1
      ensures IsEdge(adj, c[k], c[k + 1])
    {
      assert c[k] == p[i + k] && c[k + 1] == p[i + k + 1];
    }
    assert IsCycle(adj, c);
  }

  lemma HasSource(adj: seq<seq<int>>, done: set<int>, v: int)
    requires Incoming(adj, done, v, |adj|) > 0
    ensures exists u :: 0 <= u < |adj| && u !in done && v in adj[u]
  {
    var u := IncomingPositive(adj, done, v, |adj|);
  }

  /** Some unprocessed node with an edge into v, when something is left of v's in-degree. */
  ghost function SomeSource(adj: seq<seq<int>>, done: set<int>, v: int): (u: int)
    requires Incoming(adj, done, v, |adj|) > 0
    ensures 0 <= u < |adj| && u !in done && v in adj[u]
  {
    HasSource(adj, done, v);
    var u :| 0 <= u < |adj| && u !in done && v in adj[u];
    u
  }

  /** Every node of S with something left of its in-degree gets an unprocessed predecessor. */
  lemma StuckParents(adj: seq<seq<int>>, done: set<int>, S: set<int>) returns (parent: map<int, int>)
    requires forall x :: x in S ==> Incoming(adj, done, x, |adj|) > 0
    ensures forall x :: x in S ==>
      x in parent && 0 <= parent[x] < |adj| && parent[x] !in done && IsEdge(adj, parent[x], x)
  {
    parent := map x | x in S :: SomeSource(adj, done, x);
    forall x | x in S
      ensures x in parent && 0 <= parent[x] < |adj| && parent[x] !in done && IsEdge(adj, parent[x], x)
    {
      assert parent[x] == SomeSource(adj, done, x);
    }
  }

  /** When the nodes outside done all have edges left into them, the graph has a cycle. */
  lemma StuckHasCycle(adj: seq<seq<int>>, done: set<int>, v: int)
    requires 0 <= v < |adj| && v !in done
    requires forall x :: 0 <= x < |adj| && x !in done ==> Incoming(adj, done, x, |adj|) > 0
    ensures HasCycle(adj)
  {
    var S := set x | 0 <= x < |adj| && x !in done;
    var parent := StuckParents(adj, done, S);
    assert ParentsIn(adj, S, parent);
    ClosedSetHasCycle(adj, S, parent, v);
  }

  /** The indices of the zero entries of d, in increasing order. */
  function ZeroIndices(d: seq<int>): (z: seq<int>)
    ensures forall x :: x in z <==> 0 <= x < |d| && d[x] == 0
    ensures forall i, j :: 0 <= i < j < |z| ==> z[i] < z[j]
  {
    if d == [] then []
    else
      var z := ZeroIndices(d[..|d| - 1]);
      assert forall i :: 0 <= i < |z| ==> z[i] in z;
      z + (if d[|d| - 1] == 0 then [|d| - 1] else [])
  }
}
