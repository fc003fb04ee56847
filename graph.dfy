/**
 Graph and Graph.Builder: the builder gives every added identity a dense index
 and records edges by identity; build() resolves the edges into an in-degree
 array, per-node successor lists and the increasing list of zero-in-degree
 roots; isDAG() runs Kahn's algorithm on a private copy of the in-degrees;
 copy() shares the topology and deep-copies only the in-degree array.
 */
module DagGraph {
  import opened Wrappers
  import opened Topology
  import opened GraphSpec
  import opened Kahn

  class Graph<T> {
    /** nodes[i] is the identity with index i, or None where no identity owns i. */
    const nodes: array<Option<T>>
    const inDegree: array<int>
    /** adjacencyList[u] is None where no edge leaves u (Java leaves it null). */
    const adjacencyList: array<Option<seq<int>>>
    const zeroDegreeIdx: seq<int>
    /** The builder's identity map and edge list this topology was built from. */
    ghost const nodeMap: map<T, int>
    ghost const edges: seq<Edge<T>>

    /** What build() establishes and copy() preserves. */
    ghost predicate Valid()
      reads nodes, inDegree, adjacencyList
    {
      && inDegree.Length == nodes.Length
      && adjacencyList.Length == nodes.Length
      && IndexMap(nodeMap, nodes.Length)
      && Resolved(nodeMap, edges)
      && (forall n :: n in nodeMap ==> nodes[nodeMap[n]] == Some(n))
      && (forall x :: 0 <= x < nodes.Length && nodes[x].Some? ==>
            nodes[x].value in nodeMap && nodeMap[nodes[x].value] == x)
      && (forall v :: 0 <= v < inDegree.Length ==> inDegree[v] == InDegreeOf(nodeMap, edges, v))
      && (forall u :: 0 <= u < adjacencyList.Length ==>
            adjacencyList[u] == AsList(SuccessorsOf(nodeMap, edges, u)))
      && zeroDegreeIdx == ZeroIndices(inDegree[..])
    }

    constructor (nodes: array<Option<T>>, inDegree: array<int>, adjacencyList: array<Option<seq<int>>>,
                 zeroDegreeIdx: seq<int>, ghost nodeMap: map<T, int>, ghost edges: seq<Edge<T>>)
      ensures this.nodes == nodes && this.inDegree == inDegree
      ensures this.adjacencyList == adjacencyList && this.zeroDegreeIdx == zeroDegreeIdx
      ensures this.nodeMap == nodeMap && this.edges == edges
    {
      this.nodes := nodes;
      this.inDegree := inDegree;
      this.adjacencyList := adjacencyList;
      this.zeroDegreeIdx := zeroDegreeIdx;
      this.nodeMap := nodeMap;
      this.edges := edges;
    }

    /** The identity owning index idx, None for a slot no identity owns. */
    function GetNodeByIdx(idx: int): (r: Option<T>)
      reads nodes, inDegree, adjacencyList
      requires 0 <= idx < nodes.Length
      ensures Valid() ==> (r.Some? <==> exists n :: n in nodeMap && nodeMap[n] == idx)
      ensures Valid() && r.Some? ==> r.value in nodeMap && nodeMap[r.value] == idx
    {
      nodes[idx]
    }

    /** The successor indices of idx in edge insertion order, None when it has none. */
    function GetAdjacencyListByIdx(idx: int): (r: Option<seq<int>>)
      reads nodes, inDegree, adjacencyList
      requires 0 <= idx < adjacencyList.Length
      ensures Valid() ==> (r.None? <==> SuccessorsOf(nodeMap, edges, idx) == [])
      ensures Valid() && r.Some? ==> r.value == SuccessorsOf(nodeMap, edges, idx)
    {
      adjacencyList[idx]
    }

    /** A fresh array with the same in-degrees. */
    method InDegreeCopy() returns (a: array<int>)
      ensures fresh(a) && a[..] == inDegree[..]
    {
      a := new int[inDegree.Length];
      var i := 0;
      while i < inDegree.Length
        invariant 0 <= i <= inDegree.Length
        invariant forall j :: 0 <= j < i ==> a[j] == inDegree[j]
      {
        a[i] := inDegree[i];
        i := i + 1;
      }
    }

    /** A graph sharing nodes, adjacency lists and roots, with its own in-degree array. */
    method Copy() returns (c: Graph<T>)
      requires Valid()
      ensures fresh(c) && fresh(c.inDegree)
      ensures c.nodes == nodes && c.adjacencyList == adjacencyList && c.zeroDegreeIdx == zeroDegreeIdx
      ensures c.inDegree[..] == inDegree[..]
      ensures c.nodeMap == nodeMap && c.edges == edges
      ensures c.Valid()
    {
      var d := InDegreeCopy();
      c := new Graph(nodes, d, adjacencyList, zeroDegreeIdx, nodeMap, edges);
      forall v | 0 <= v < d.Length ensures d[v] == inDegree[v] {
        assert d[v] == d[..][v];
      }
    }

    /** The table, the adjacency lists and the roots of a valid graph start Kahn's loop over its in-degrees. */
    lemma KahnStart(c: seq<int>)
      requires Valid() && c == inDegree[..]
      ensures var adj := Table(nodeMap, edges, nodes.Length);
        && WellFormed(adj)
        && (forall u :: 0 <= u < |adj| ==> adjacencyList[u] == AsList(adj[u]))
        && KahnState(adj, c, zeroDegreeIdx, {}, [])
    {
      var n := nodes.Length;
      var adj := Table(nodeMap, edges, n);
      TableWellFormed(nodeMap, edges, n);
      forall v | 0 <= v < n
        ensures c[v] == Incoming(adj, {}, v, n)
      {
        InDegreeIsIncoming(nodeMap, edges, n, v);
      }
      InitialState(adj, c, zeroDegreeIdx);
    }

    /**
     Kahn's algorithm: start from the roots, repeatedly take a node off the
     front of the deque, decrement the copied in-degree of each of its
     successors and push to the front those that reach zero; the graph is a
     DAG when every copied in-degree has drained to zero. It is, exactly when
     the successor table has no cycle.
     */
    method IsDAG() returns (r: bool)
      requires Valid()
      ensures r <==> !HasCycle(Table(nodeMap, edges, nodes.Length))
    {
      var n := nodes.Length;
      ghost var adj := Table(nodeMap, edges, n);
      var copy := InDegreeCopy();
      KahnStart(copy[..]);
      DrainQueue(copy, adjacencyList, zeroDegreeIdx, adj);
      var i := 0;
      while i < n
        invariant 0 <= i <= n
        invariant forall k :: 0 <= k < i ==> copy[k] == 0
      {
        if copy[i] != 0 {
          return false;
        }
        i := i + 1;
      }
      return true;
    }
  }

  /**
   The worklist loop of isDAG(): take a node off the front of the deque and
   drain its successors until the deque is empty. Every count then ends at
   zero exactly when the table has no cycle.
   */
  method DrainQueue(copy: array<int>, adjacencyList: array<Option<seq<int>>>, roots: seq<int>,
                    ghost adj: seq<seq<int>>)
    requires WellFormed(adj) && adjacencyList.Length == |adj|
    requires forall u :: 0 <= u < |adj| ==> adjacencyList[u] == AsList(adj[u])
    requires KahnState(adj, copy[..], roots, {}, [])
    modifies copy
    ensures (forall k :: 0 <= k < copy.Length ==> copy[k] == 0) <==> !HasCycle(adj)
  {
    var queue := roots;
    ghost var done: set<int>, order: seq<int> := {}, [];
    while queue != []
      invariant KahnState(adj, copy[..], queue, done, order)
      decreases |adj| - |done|
    {
      var e := queue[0];
      PopStep(adj, copy[..], queue, done, order);
      queue := queue[1..];
      done := done + {e};
      order := order + [e];
      var adjacency := adjacencyList[e];
      if adjacency.Some? {
        var s := adjacency.value;
        ghost var c, q0 := copy[..], queue;
        assert s[0..] == s && s[..|s|] == s && s[|s|..] == [];
        queue := DrainSuccessors(copy, s, queue);
        DrainRest(adj, c, q0, done, s, 0, copy[..], queue);
      }
    }
    if forall k :: 0 <= k < copy.Length ==> copy[k] == 0 {
      assert forall k :: 0 <= k < |copy[..]| ==> copy[..][k] == 0;
      DrainedState(adj, copy[..], done, order);
    } else {
      var i :| 0 <= i < copy.Length && copy[i] != 0;
      assert copy[..][i] != 0;
      StuckState(adj, copy[..], done, order, i);
    }
  }

  /**
   The inner loop of isDAG(): decrement the copied in-degree of each entry of s
   and push to the front of the deque each node whose count reaches zero.
   */
  method DrainSuccessors(copy: array<int>, s: seq<int>, queue: seq<int>) returns (q: seq<int>)
    requires forall i :: 0 <= i < |s| ==> 0 <= s[i] < copy.Length
    modifies copy
    ensures copy[..] == Decrement(old(copy[..]), s)
    ensures q == Pushes(old(copy[..]), queue, s)
  {
    ghost var c := copy[..];
    q := queue;
    var j := 0;
    assert s[0..] == s;
    while j < |s|
      invariant 0 <= j <= |s|
      invariant Decrement(copy[..], s[j..]) == Decrement(c, s)
      invariant Pushes(copy[..], q, s[j..]) == Pushes(c, queue, s)
    {
      var w := s[j];
      DrainFirst(copy[..], q, s, j);
      copy[w] := copy[w] - 1;
      if copy[w] == 0 {
        q := [w] + q;
      }
      j := j + 1;
    }
    assert s[|s|..] == [];
  }

  /** Graph.Builder: not thread-safe; every add call updates its fields in place. */
  class Builder<T(==)> {
    var idx: nat
    var nodeMap: map<T, int>
    var edges: seq<Edge<T>>

    ghost predicate Valid()
      reads this
    {
      IndexMap(nodeMap, idx)
    }

    constructor ()
      ensures Valid() && idx == 0 && nodeMap == map[] && edges == []
    {
      idx := 0;
      nodeMap := map[];
      edges := [];
    }

    /** Maps node to the current index and advances it; a repeated node is remapped. */
    method AddNode(node: T)
      requires Valid()
      modifies this
      ensures Valid()
      ensures nodeMap == old(nodeMap)[node := old(idx)] && idx == old(idx) + 1
      ensures edges == old(edges)
    {
      PutKeepsIndexMap(nodeMap, idx, node);
      nodeMap := nodeMap[node := idx];
      idx := idx + 1;
    }

    /** addNode for each element in turn. */
    method AddNodes(nodes: seq<T>)
      requires Valid()
      modifies this
      ensures Valid()
      ensures nodeMap == PutAll(old(nodeMap), old(idx), nodes) && idx == old(idx) + |nodes|
      ensures edges == old(edges)
    {
      var i := 0;
      while i < |nodes|
        invariant 0 <= i <= |nodes|
        invariant Valid()
        invariant nodeMap == PutAll(old(nodeMap), old(idx), nodes[..i]) && idx == old(idx) + i
        invariant edges == old(edges)
      {
        PutKeepsIndexMap(nodeMap, idx, nodes[i]);
        nodeMap := nodeMap[nodes[i] := idx];
        idx := idx + 1;
        assert nodes[..i + 1][..i] == nodes[..i];
        i := i + 1;
      }
      assert nodes[..|nodes|] == nodes;
    }

    /** Records the edge by identity; it is resolved only by Build. */
    method AddEdge(from: T, to: T)
      modifies this
      ensures edges == old(edges) + [Edge(from, to)]
      ensures nodeMap == old(nodeMap) && idx == old(idx)
    {
      edges := edges + [Edge(from, to)];
    }

    /**
     Resolves the recorded edges. Fails (Java's assertion, or the unboxing of a
     null index) exactly when some edge has an endpoint that was never added.
     */
    method Build() returns (r: Option<Graph<T>>)
      requires Valid()
      ensures r.None? <==> !Resolved(nodeMap, edges)
      ensures r.Some? ==>
        && fresh(r.value) && fresh(r.value.nodes) && fresh(r.value.inDegree) && fresh(r.value.adjacencyList)
        && r.value.nodeMap == nodeMap && r.value.edges == edges
        && r.value.nodes.Length == idx
        && r.value.Valid()
    {
      var nodesArr := NodesByIndex();
      var ok, inDeg, adjacency := ResolveEdges();
      if !ok {
        return None;
      }
      var zero := ZeroDegreeIndices(inDeg);
      var g := new Graph(nodesArr, inDeg, adjacency, zero, nodeMap, edges);
      r := Some(g);
    }

    /** The nodes array of build(): every mapped identity stored at its index. */
    method NodesByIndex() returns (a: array<Option<T>>)
      requires Valid()
      ensures fresh(a) && a.Length == idx
      ensures forall n :: n in nodeMap ==> a[nodeMap[n]] == Some(n)
      ensures forall x :: 0 <= x < idx && a[x].Some? ==> a[x].value in nodeMap && nodeMap[a[x].value] == x
    {
      a := new Option<T>[idx](_ => None);
      // Store each mapped identity at its index; the order the keys are taken in does not matter.
      var rest := nodeMap.Keys;
      while rest != {}
        invariant rest <= nodeMap.Keys
        invariant forall n :: n in nodeMap && n !in rest ==> a[nodeMap[n]] == Some(n)
        invariant forall x :: 0 <= x < idx && a[x].Some? ==>
          a[x].value in nodeMap && a[x].value !in rest && nodeMap[a[x].value] == x
        decreases rest
      {
        var n :| n in rest;
        a[nodeMap[n]] := Some(n);
        rest := rest - {n};
      }
    }

    /** The edge pass of build(): in-degrees and successor lists, or failure on an unadded endpoint. */
    method ResolveEdges() returns (ok: bool, inDeg: array<int>, adjacency: array<Option<seq<int>>>)
      requires Valid()
      ensures ok <==> Resolved(nodeMap, edges)
      ensures fresh(inDeg) && fresh(adjacency) && inDeg.Length == idx && adjacency.Length == idx
      ensures ok ==> forall v :: 0 <= v < idx ==> inDeg[v] == InDegreeOf(nodeMap, edges, v)
      ensures ok ==> forall u :: 0 <= u < idx ==> adjacency[u] == AsList(SuccessorsOf(nodeMap, edges, u))
    {
      inDeg := new int[idx](_ => 0);
      adjacency := new Option<seq<int>>[idx](_ => None);
      var k := 0;
      while k < |edges|
        invariant 0 <= k <= |edges|
        invariant Resolved(nodeMap, edges[..k])
        invariant inDeg[..] == InDegrees(nodeMap, edges[..k], idx)
        invariant adjacency[..] == Adjacency(nodeMap, edges[..k], idx)
      {
        var e := edges[k];
        if e.from !in nodeMap || e.to !in nodeMap {
          return false, inDeg, adjacency;
        }
        var fromIdx := nodeMap[e.from];
        var toIdx := nodeMap[e.to];
        ResolveStep(nodeMap, edges, idx, k);
        inDeg[toIdx] := inDeg[toIdx] + 1;
        var list := adjacency[fromIdx];
        if list == None {
          list := Some([]);
        }
        adjacency[fromIdx] := Some(list.value + [toIdx]);
        k := k + 1;
      }
      assert edges[..|edges|] == edges;
      assert forall v :: 0 <= v < idx ==> inDeg[v] == inDeg[..][v];
      assert forall u :: 0 <= u < idx ==> adjacency[u] == adjacency[..][u];
      ok := true;
    }

    /** The root pass of build(): the indices whose in-degree is zero, in increasing order. */
    static method ZeroDegreeIndices(inDeg: array<int>) returns (zero: seq<int>)
      ensures zero == ZeroIndices(inDeg[..])
    {
      zero := [];
      var i := 0;
      while i < inDeg.Length
        invariant 0 <= i <= inDeg.Length
        invariant zero == ZeroIndices(inDeg[..i])
      {
        if inDeg[i] == 0 {
          zero := zero + [i];
        }
        assert inDeg[..i + 1][..i] == inDeg[..i];
        i := i + 1;
      }
      assert inDeg[..i] == inDeg[..];
    }
  }
}
