/**
 Client code that builds the graphs of the repository's tests and states what
 the tests assert about them, plus the builder's edge cases: an edge to an
 identity never added, a repeated identity, and a copy whose in-degrees are
 changed independently of the original.
 */
module Scenarios {
  import opened Wrappers
  import opened Topology
  import opened GraphSpec
  import opened DagGraph

  /** The map addNodes(0, 1, ..., n - 1) leaves on a fresh builder. */
  function Numbering(n: nat): map<int, int>
  {
    PutAll(map[], 0, seq(n, i => i))
  }

  /** That map sends each of 0 .. n - 1 to itself and holds nothing else. */
  lemma NumberingIsIdentity(n: nat)
    ensures forall i :: 0 <= i < n ==> i in Numbering(n) && Numbering(n)[i] == i
    ensures forall x :: x in Numbering(n) ==> 0 <= x < n
  {
    var ns := seq(n, i => i);
    forall i | 0 <= i < n
      ensures i in Numbering(n) && Numbering(n)[i] == i
    {
      PutAllLastWrite(map[], 0, ns, i);
    }
    assert forall x :: x in ns ==> 0 <= x < n;
  }

  /** Nodes 0 .. n - 1 added in order to a fresh builder. */
  method Numbered(n: nat) returns (b: Builder<int>)
    ensures fresh(b) && b.Valid() && b.idx == n && b.edges == []
    ensures forall i :: 0 <= i < n ==> i in b.nodeMap && b.nodeMap[i] == i
    ensures forall x :: x in b.nodeMap ==> 0 <= x < n
  {
    b := new Builder<int>();
    b.AddNodes(seq(n, i => i));
    assert b.nodeMap == Numbering(n);
    NumberingIsIdentity(n);
  }

  /** Edges i0: a -> b, i1: b -> c and i2: c -> a form a cycle. */
  lemma TriangleIsCycle<T>(m: map<T, int>, es: seq<Edge<T>>, n: nat, i0: int, i1: int, i2: int)
    requires IndexMap(m, n) && Resolved(m, es)
    requires 0 <= i0 < |es| && 0 <= i1 < |es| && 0 <= i2 < |es|
    requires es[i0].to == es[i1].from && es[i1].to == es[i2].from && es[i2].to == es[i0].from
    ensures HasCycle(Table(m, es, n))
  {
    EdgeInTable(m, es, n, i0);
    EdgeInTable(m, es, n, i1);
    EdgeInTable(m, es, n, i2);
    var a, b, c := m[es[i0].from], m[es[i1].from], m[es[i2].from];
    assert IsCycle(Table(m, es, n), [a, b, c, a]);
  }

  /** build() followed by isDAG() on a builder whose edges all resolve. */
  method BuildAndCheck<T>(b: Builder<T>) returns (dag: bool)
    requires b.Valid() && Resolved(b.nodeMap, b.edges)
    ensures dag <==> !HasCycle(Table(b.nodeMap, b.edges, b.idx))
  {
    var r := b.Build();
    dag := r.value.IsDAG();
  }

  /** The chain 0 -> 1 -> 2 -> 3 is a DAG. */
  method ChainIsDag() returns (dag: bool)
    ensures dag
  {
    var b := Numbered(4);
    b.AddEdge(0, 1);
    b.AddEdge(1, 2);
    b.AddEdge(2, 3);
    ForwardEdgesAcyclic(b.nodeMap, b.edges, 4);
    dag := BuildAndCheck(b);
  }

  /** Node 0 fans out to 1, 2, 3, 6 and 7, and 2 and 3 both lead to 4: a DAG. */
  method FanOutIsDag() returns (dag: bool)
    ensures dag
  {
    var b := Numbered(8);
    b.AddEdge(0, 1);
    b.AddEdge(0, 2);
    b.AddEdge(0, 3);
    b.AddEdge(2, 4);
    b.AddEdge(3, 4);
    b.AddEdge(0, 6);
    b.AddEdge(0, 7);
    ForwardEdgesAcyclic(b.nodeMap, b.edges, 8);
    dag := BuildAndCheck(b);
  }

  /** The edge 2 -> 0 closes the cycle 0 -> 1 -> 2 -> 0, so the graph is not a DAG. */
  method BackEdgeIsNotDag() returns (dag: bool)
    ensures !dag
  {
    var b := Numbered(8);
    b.AddEdge(0, 1);
    b.AddEdge(1, 2);
    b.AddEdge(0, 3);
    b.AddEdge(2, 4);
    b.AddEdge(3, 4);
    b.AddEdge(0, 6);
    b.AddEdge(2, 0);
    TriangleIsCycle(b.nodeMap, b.edges, 8, 0, 1, 6);
    dag := BuildAndCheck(b);
  }

  /** An edge whose target was never added makes build() fail. */
  method MissingEndpointFails() returns (r: Option<Graph<int>>)
    ensures r.None?
  {
    var b := Numbered(2);
    b.AddEdge(0, 1);
    b.AddEdge(1, 2);
    r := b.Build();
    assert !Resolved(b.nodeMap, b.edges) by {
      assert b.edges[1].to == 2;
    }
  }

  /** Adding the same identity twice moves it to slot 1 and leaves slot 0 empty. */
  method DuplicateLeavesHole() returns (first: Option<int>, second: Option<int>)
    ensures first == None && second == Some(5)
  {
    var b := new Builder<int>();
    b.AddNode(5);
    b.AddNode(5);
    var r := b.Build();
    var g := r.value;
    first := g.GetNodeByIdx(0);
    second := g.GetNodeByIdx(1);
  }

  /** Clearing every in-degree of a copy leaves the original's in-degrees, and its validity, as they were. */
  method ClearCopy<T>(g: Graph<T>) returns (c: Graph<T>)
    requires g.Valid()
    ensures g.Valid() && c.inDegree != g.inDegree
    ensures c.inDegree.Length == g.inDegree.Length
    ensures forall v :: 0 <= v < c.inDegree.Length ==> c.inDegree[v] == 0
  {
    c := g.Copy();
    var i := 0;
    while i < c.inDegree.Length
      invariant 0 <= i <= c.inDegree.Length
      invariant forall v :: 0 <= v < i ==> c.inDegree[v] == 0
      invariant g.Valid()
    {
      c.inDegree[i] := 0;
      i := i + 1;
    }
  }
}
