/**
 What Graph.Builder records, as values: the identity-to-index map that
 addNode/addNodes fill, the edge list that addEdge extends, and the in-degree
 and successor tables that build() derives from them.
 */
module GraphSpec {
  import opened Wrappers
  import opened Topology

  /** An edge recorded by identity; it is resolved to indices only by build(). */
  datatype Edge<T> = Edge(from: T, to: T)

  /** Every mapped index lies below bound, and no two identities share one. */
  ghost predicate IndexMap<T>(m: map<T, int>, bound: int)
  {
    && (forall n :: n in m ==> 0 <= m[n] < bound)
    && (forall a, b :: a in m && b in m && m[a] == m[b] ==> a == b)
  }

  /** The map after putting ns[i] |-> start + i for i = 0, 1, ... in turn (later puts win). */
  function PutAll<T>(m: map<T, int>, start: int, ns: seq<T>): (r: map<T, int>)
    ensures r.Keys == m.Keys + set n | n in ns
  {
    if ns == [] then m
    else PutAll(m, start, ns[..|ns| - 1])[ns[|ns| - 1] := start + |ns| - 1]
  }

  /** Putting a fresh index keeps the map an index map. */
  lemma PutKeepsIndexMap<T>(m: map<T, int>, idx: nat, n: T)
    requires IndexMap(m, idx)
    ensures IndexMap(m[n := idx], idx + 1)
  {
    var r := m[n := idx];
    forall a | a in r
      ensures 0 <= r[a] < idx + 1
    {
      if a != n {
        assert a in m && r[a] == m[a];
      }
    }
    forall a, b | a in r && b in r && r[a] == r[b]
      ensures a == b
    {
      if a != n && b != n {
        assert r[a] == m[a] && r[b] == m[b];
      }
    }
  }

  lemma {:induction false} PutAllKeepsIndexMap<T>(m: map<T, int>, start: nat, ns: seq<T>)
    requires IndexMap(m, start)
    ensures IndexMap(PutAll(m, start, ns), start + |ns|)
  {
    if ns != [] {
      PutAllKeepsIndexMap(m, start, ns[..|ns| - 1]);
      PutKeepsIndexMap(PutAll(m, start, ns[..|ns| - 1]), start + |ns| - 1, ns[|ns| - 1]);
    }
  }

  /** Last write wins: an identity maps to the position of its last occurrence. */
  lemma {:induction false} PutAllLastWrite<T>(m: map<T, int>, start: int, ns: seq<T>, i: int)
    requires 0 <= i < |ns|
    requires forall j :: i < j < |ns| ==> ns[j] != ns[i]
    ensures ns[i] in PutAll(m, start, ns) && PutAll(m, start, ns)[ns[i]] == start + i
  {
    if i < |ns| - 1 {
      PutAllLastWrite(m, start, ns[..|ns| - 1], i);
    }
  }

  /** Identities not inserted keep their old index. */
  lemma {:induction false} PutAllKeepsOthers<T>(m: map<T, int>, start: int, ns: seq<T>, n: T)
    requires n in m && n !in ns
    ensures PutAll(m, start, ns)[n] == m[n]
  {
    if ns != [] {
      PutAllKeepsOthers(m, start, ns[..|ns| - 1], n);
    }
  }

  /** The only identity that can own slot start + i is ns[i]. */
  lemma {:induction false} PutAllOwner<T>(m: map<T, int>, start: nat, ns: seq<T>, n: T, i: int)
    requires IndexMap(m, start)
    requires 0 <= i < |ns| && n in PutAll(m, start, ns) && PutAll(m, start, ns)[n] == start + i
    ensures ns[i] == n
  {
    var last := |ns| - 1;
    if n != ns[last] {
      var prefix := ns[..last];
      PutAllKeepsIndexMap(m, start, prefix);
      if i < last {
        PutAllOwner(m, start, prefix, n, i);
      }
    }
  }

  /**
   A repeated identity leaves the slot of its earlier insertion owned by no
   identity, so build() never fills it.
   */
  lemma {:induction false} DuplicateLeavesSlotEmpty<T>(m: map<T, int>, start: nat, ns: seq<T>, i: int, j: int)
    requires IndexMap(m, start)
    requires 0 <= i < j < |ns| && ns[i] == ns[j]
    ensures forall n :: n in PutAll(m, start, ns) ==> PutAll(m, start, ns)[n] != start + i
  {
    var last := |ns| - 1;
    var prefix := ns[..last];
    var r := PutAll(m, start, prefix);
    var r' := PutAll(m, start, ns);
    assert r' == r[ns[last] := start + last];
    PutAllKeepsIndexMap(m, start, prefix);
    forall n | n in r'
      ensures r'[n] != start + i
    {
      if n != ns[last] {
        assert r'[n] == r[n];
        if j < last {
          DuplicateLeavesSlotEmpty(m, start, prefix, i, j);
        } else if r[n] == start + i {
          PutAllOwner(m, start, prefix, n, i);
        }
      }
    }
  }

  /** Both endpoints of every recorded edge have been added. */
  ghost predicate Resolved<T>(m: map<T, int>, es: seq<Edge<T>>)
  {
    forall i :: 0 <= i < |es| ==> es[i].from in m && es[i].to in m
  }

  /** The number of recorded edges whose target maps to v. */
  function InDegreeOf<T>(m: map<T, int>, es: seq<Edge<T>>, v: int): nat
  {
    if es == [] then 0
    else
      var e := es[|es| - 1];
      InDegreeOf(m, es[..|es| - 1], v) + (if e.to in m && m[e.to] == v then 1 else 0)
  }

  /** The target indices of the recorded edges whose source maps to u, in insertion order. */
  function SuccessorsOf<T>(m: map<T, int>, es: seq<Edge<T>>, u: int): seq<int>
  {
    if es == [] then []
    else
      var e := es[|es| - 1];
      SuccessorsOf(m, es[..|es| - 1], u)
        + (if e.from in m && e.to in m && m[e.from] == u then [m[e.to]] else [])
  }

  /** Java's lazily created adjacency list: null until the first successor is appended. */
  function AsList(s: seq<int>): Option<seq<int>>
  {
    if s == [] then None else Some(s)
  }

  /** The successor table of nodes 0 .. n - 1. */
  function Table<T>(m: map<T, int>, es: seq<Edge<T>>, n: nat): (adj: seq<seq<int>>)
    ensures |adj| == n
  {
    seq(n, u => SuccessorsOf(m, es, u))
  }

  /** In-degrees add up over concatenated edge lists: each recorded edge counts once, repeats included. */
  lemma {:induction false} InDegreeOfConcat<T>(m: map<T, int>, es1: seq<Edge<T>>, es2: seq<Edge<T>>, v: int)
    ensures InDegreeOf(m, es1 + es2, v) == InDegreeOf(m, es1, v) + InDegreeOf(m, es2, v)
  {
    if es2 == [] {
      assert es1 + es2 == es1;
    } else {
      var last := |es2| - 1;
      assert (es1 + es2)[..|es1 + es2| - 1] == es1 + es2[..last];
      InDegreeOfConcat(m, es1, es2[..last], v);
    }
  }

  /** The in-degree array build() fills from the edge list es. */
  function InDegrees<T>(m: map<T, int>, es: seq<Edge<T>>, n: nat): (d: seq<int>)
    ensures |d| == n && forall v :: 0 <= v < n ==> d[v] == InDegreeOf(m, es, v)
  {
    seq(n, v => InDegreeOf(m, es, v))
  }

  /** The adjacency array build() fills from the edge list es: null where no edge leaves. */
  function Adjacency<T>(m: map<T, int>, es: seq<Edge<T>>, n: nat): (a: seq<Option<seq<int>>>)
    ensures |a| == n && forall u :: 0 <= u < n ==> a[u] == AsList(SuccessorsOf(m, es, u))
  {
    seq(n, u => AsList(SuccessorsOf(m, es, u)))
  }

  /**
   Resolving edge k adds one to its target's in-degree and appends the target
   to its source's list, creating the list when it was still null.
   */
  lemma ResolveStep<T>(m: map<T, int>, es: seq<Edge<T>>, n: nat, k: nat)
    requires IndexMap(m, n)
    requires k < |es| && es[k].from in m && es[k].to in m && Resolved(m, es[..k])
    ensures Resolved(m, es[..k + 1])
    ensures var f, t, d := m[es[k].from], m[es[k].to], InDegrees(m, es[..k], n);
      0 <= t < n && InDegrees(m, es[..k + 1], n) == d[t := d[t] + 1]
    ensures var f, t, a := m[es[k].from], m[es[k].to], Adjacency(m, es[..k], n);
      && 0 <= f < n
      && Adjacency(m, es[..k + 1], n) == a[f := Some((if a[f].None? then [] else a[f].value) + [t])]
  {
    var f, t := m[es[k].from], m[es[k].to];
    assert es[..k + 1][..k] == es[..k];
    var upto := es[..k + 1];
    forall i | 0 <= i < k + 1 ensures upto[i].from in m && upto[i].to in m {
      if i < k {
        assert upto[i] == es[..k][i];
      }
    }
    var d, d' := InDegrees(m, es[..k], n), InDegrees(m, es[..k + 1], n);
    assert d' == d[t := d[t] + 1];
    var a, a' := Adjacency(m, es[..k], n), Adjacency(m, es[..k + 1], n);
    forall u | 0 <= u < n
      ensures a'[u] == a[f := Some((if a[f].None? then [] else a[f].value) + [t])][u]
    {
      var succ := SuccessorsOf(m, es[..k], u);
      assert es[..k + 1][k] == es[k];
      assert SuccessorsOf(m, es[..k + 1], u) == succ + (if f == u then [t] else []);
      assert a[u] == AsList(succ) && a'[u] == AsList(SuccessorsOf(m, es[..k + 1], u));
      if u == f {
        assert (if a[f].None? then [] else a[f].value) == succ;
        assert a'[u] == Some(succ + [t]);
      } else {
        assert succ + [] == succ;
      }
    }
  }

  /** The positions of the recorded edges whose target maps to v. */
  ghost function EdgesInto<T>(m: map<T, int>, es: seq<Edge<T>>, v: int): set<int>
  {
    set i | 0 <= i < |es| && es[i].to in m && m[es[i].to] == v
  }

  /** inDegree[v] is the number of recorded edges into v, each repeat counted again. */
  lemma {:induction false} InDegreeIsEdgeCount<T>(m: map<T, int>, es: seq<Edge<T>>, v: int)
    ensures InDegreeOf(m, es, v) == |EdgesInto(m, es, v)|
  {
    if es == [] {
      assert EdgesInto(m, es, v) == {};
    } else {
      var last := |es| - 1;
      var prefix := es[..last];
      InDegreeIsEdgeCount(m, prefix, v);
      var before := EdgesInto(m, prefix, v);
      var hit := es[last].to in m && m[es[last].to] == v;
      assert EdgesInto(m, es, v) == before + (if hit then {last} else {}) by {
        forall i ensures i in EdgesInto(m, es, v) <==> i in before + (if hit then {last} else {}) {
          if 0 <= i < last {
            assert es[i] == prefix[i];
          }
        }
      }
      assert last !in before;
    }
  }

  /** Successor lists follow edge insertion order. */
  lemma {:induction false} SuccessorsOfConcat<T>(m: map<T, int>, es1: seq<Edge<T>>, es2: seq<Edge<T>>, u: int)
    ensures SuccessorsOf(m, es1 + es2, u) == SuccessorsOf(m, es1, u) + SuccessorsOf(m, es2, u)
  {
    if es2 == [] {
      assert es1 + es2 == es1;
    } else {
      var last := |es2| - 1;
      assert (es1 + es2)[..|es1 + es2| - 1] == es1 + es2[..last];
      SuccessorsOfConcat(m, es1, es2[..last], u);
    }
  }

  /** Every entry of u's successor list comes from a recorded edge leaving u. */
  lemma {:induction false} SuccessorFromEdge<T>(m: map<T, int>, es: seq<Edge<T>>, u: int, x: int) returns (i: int)
    requires x in SuccessorsOf(m, es, u)
    ensures 0 <= i < |es| && es[i].from in m && es[i].to in m
    ensures m[es[i].from] == u && m[es[i].to] == x
  {
    var last := |es| - 1;
    var prefix := es[..last];
    if x in SuccessorsOf(m, prefix, u) {
      i := SuccessorFromEdge(m, prefix, u, x);
      assert prefix[i] == es[i];
    } else {
      i := last;
    }
  }

  /** Every resolved recorded edge leaving u puts its target in u's successor list. */
  lemma {:induction false} EdgeGivesSuccessor<T>(m: map<T, int>, es: seq<Edge<T>>, i: int)
    requires 0 <= i < |es| && es[i].from in m && es[i].to in m
    ensures m[es[i].to] in SuccessorsOf(m, es, m[es[i].from])
  {
    var last := |es| - 1;
    if i < last {
      var prefix := es[..last];
      assert prefix[i] == es[i];
      EdgeGivesSuccessor(m, prefix, i);
    }
  }

  /** u's successor list is empty, so build() leaves it null, exactly when no recorded edge leaves u. */
  lemma {:induction false} NoSuccessorsIff<T>(m: map<T, int>, es: seq<Edge<T>>, u: int)
    requires Resolved(m, es)
    ensures SuccessorsOf(m, es, u) == [] <==> forall i :: 0 <= i < |es| ==> m[es[i].from] != u
  {
    if es != [] {
      var last := |es| - 1;
      var prefix := es[..last];
      assert Resolved(m, prefix) by {
        forall i | 0 <= i < |prefix| ensures prefix[i].from in m && prefix[i].to in m {
          assert prefix[i] == es[i];
        }
      }
      NoSuccessorsIff(m, prefix, u);
      if forall i :: 0 <= i < |prefix| ==> m[prefix[i].from] != u {
        forall i | 0 <= i < last ensures m[es[i].from] != u {
          assert es[i] == prefix[i];
        }
      } else {
        var i :| 0 <= i < |prefix| && m[prefix[i].from] == u;
        assert es[i] == prefix[i];
      }
    }
  }

  /** v's in-degree is zero, so v becomes a root, exactly when no recorded edge enters v. */
  lemma {:induction false} InDegreeZeroIff<T>(m: map<T, int>, es: seq<Edge<T>>, v: int)
    requires Resolved(m, es)
    ensures InDegreeOf(m, es, v) == 0 <==> forall i :: 0 <= i < |es| ==> m[es[i].to] != v
  {
    if es != [] {
      var last := |es| - 1;
      var prefix := es[..last];
      assert Resolved(m, prefix) by {
        forall i | 0 <= i < |prefix| ensures prefix[i].from in m && prefix[i].to in m {
          assert prefix[i] == es[i];
        }
      }
      InDegreeZeroIff(m, prefix, v);
      if forall i :: 0 <= i < |prefix| ==> m[prefix[i].to] != v {
        forall i | 0 <= i < last ensures m[es[i].to] != v {
          assert es[i] == prefix[i];
        }
      } else {
        var i :| 0 <= i < |prefix| && m[prefix[i].to] == v;
        assert es[i] == prefix[i];
      }
    }
  }

  /** Resolved successor indices name nodes. */
  lemma {:induction false} SuccessorsInRange<T>(m: map<T, int>, es: seq<Edge<T>>, n: int, u: int)
    requires IndexMap(m, n)
    ensures forall x :: x in SuccessorsOf(m, es, u) ==> 0 <= x < n
  {
    if es != [] {
      SuccessorsInRange(m, es[..|es| - 1], n, u);
    }
  }

  lemma TableWellFormed<T>(m: map<T, int>, es: seq<Edge<T>>, n: nat)
    requires IndexMap(m, n)
    ensures WellFormed(Table(m, es, n))
  {
    var adj := Table(m, es, n);
    forall u, i | 0 <= u < n && 0 <= i < |adj[u]| ensures 0 <= adj[u][i] < n {
      SuccessorsInRange(m, es, n, u);
      assert adj[u][i] in SuccessorsOf(m, es, u);
    }
  }

  /**
   The in-degree build() counts per target equals the number of entries for
   that target over all successor lists: the two tables describe one edge set.
   */
  lemma {:induction false} IncomingOfEmpty<T>(m: map<T, int>, n: nat, v: int, k: nat)
    requires k <= n
    ensures Incoming(Table(m, [], n), {}, v, k) == 0
  {
    if k > 0 {
      IncomingOfEmpty(m, n, v, k - 1);
    }
  }

  lemma {:induction false} InDegreeIsIncoming<T>(m: map<T, int>, es: seq<Edge<T>>, n: nat, v: int)
    requires IndexMap(m, n) && Resolved(m, es)
    ensures InDegreeOf(m, es, v) == Incoming(Table(m, es, n), {}, v, n)
  {
    if es == [] {
      IncomingOfEmpty(m, n, v, n);
    } else {
      var last := |es| - 1;
      var prefix := es[..last];
      var e := es[last];
      assert Resolved(m, prefix) by {
        forall i | 0 <= i < |prefix| ensures prefix[i].from in m && prefix[i].to in m {
          assert prefix[i] == es[i];
        }
      }
      InDegreeIsIncoming(m, prefix, n, v);
      var a, b := m[e.from], m[e.to];
      var before := Table(m, prefix, n);
      assert Table(m, es, n) == before[a := before[a] + [b]] by {
        forall u | 0 <= u < n ensures Table(m, es, n)[u] == before[a := before[a] + [b]][u] {
          assert Table(m, es, n)[u] == SuccessorsOf(m, es, u);
        }
      }
      IncomingAppend(before, {}, a, b, v, n);
    }
  }

  /** addNodes of distinct identities on a fresh builder numbers them by position. */
  lemma DistinctIndices<T>(ns: seq<T>)
    requires forall i, j :: 0 <= i < j < |ns| ==> ns[i] != ns[j]
    ensures forall i :: 0 <= i < |ns| ==> ns[i] in PutAll(map[], 0, ns) && PutAll(map[], 0, ns)[ns[i]] == i
  {
    forall i | 0 <= i < |ns|
      ensures ns[i] in PutAll(map[], 0, ns) && PutAll(map[], 0, ns)[ns[i]] == i
    {
      PutAllLastWrite(map[], 0, ns, i);
    }
  }

  /** A recorded resolved edge is an edge of the successor table. */
  lemma EdgeInTable<T>(m: map<T, int>, es: seq<Edge<T>>, n: nat, i: int)
    requires IndexMap(m, n)
    requires 0 <= i < |es| && es[i].from in m && es[i].to in m
    ensures IsEdge(Table(m, es, n), m[es[i].from], m[es[i].to])
  {
    EdgeGivesSuccessor(m, es, i);
  }

  /** Edges that all lead to a higher index leave the table acyclic: the index itself is a rank. */
  lemma ForwardEdgesAcyclic<T>(m: map<T, int>, es: seq<Edge<T>>, n: nat)
    requires IndexMap(m, n) && Resolved(m, es)
    requires forall i :: 0 <= i < |es| ==> m[es[i].from] < m[es[i].to]
    ensures !HasCycle(Table(m, es, n))
  {
    var adj := Table(m, es, n);
    var rank := seq(n, u => u);
    forall u, k | 0 <= u < n && 0 <= k < |adj[u]|
      ensures 0 <= adj[u][k] < n && rank[u] < rank[adj[u][k]]
    {
      var x := adj[u][k];
      assert x in SuccessorsOf(m, es, u);
      SuccessorsInRange(m, es, n, u);
      var i := SuccessorFromEdge(m, es, u, x);
    }
    RankedAcyclic(adj, rank);
  }
}
