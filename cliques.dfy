// The clique queries: clique over a list of vertices, and simplicial, the
// clique test applied to the far ends of a vertex's out-edges.
module Cliques {
  import opened Wrappers
  import opened Grafo
  import opened Lista

  /** Every vertex of `c` is adjacent (through its own out-list) to every
      vertex listed after it. */
  ghost predicate AllAdjacent(st: Shape, c: seq<nat>)
    requires WellFormed(st) && forall k :: 0 <= k < |c| ==> c[k] < |st.names|
  {
    forall i, j :: 0 <= i < j < |c| ==> Adjacent(st, c[i], c[j])
  }

  /** clique: 1 iff every pair of positions of `l`, the earlier first, passes
      are_neighbors; so an empty or one-vertex list is a clique. */
  method Clique(l: List<nat>, g: Graph) returns (r: bool)
    requires g.Valid() && l.Valid()
    requires forall k :: 0 <= k < |l.Contents()| ==> l.Contents()[k] < |g.st.names|
    ensures r <==> AllAdjacent(g.st, l.Contents())
    ensures |l.Contents()| <= 1 ==> r
  {
    ghost var c := l.Contents();
    var n := l.First();
    ghost var i := 0;
    while n != null
      invariant 0 <= i <= |c| && n == (if i < |l.nodes| then l.nodes[i] else null)
      invariant forall i', j :: 0 <= i' < i && i' < j < |c| ==> Adjacent(g.st, c[i'], c[j])
      decreases |c| - i
    {
      assert n.conteudo == c[i];
      var v := n.conteudo;
      var n2 := l.Next(n);
      ghost var j := i + 1;
      while n2 != null
        invariant i < j <= |c| && n2 == (if j < |l.nodes| then l.nodes[j] else null)
        invariant forall j' :: i < j' < j ==> Adjacent(g.st, c[i], c[j'])
        decreases |c| - j
      {
        assert n2.conteudo == c[j];
        var ok := g.AreNeighbors(v, n2.conteudo);
        if !ok {
          return false;
        }
        n2 := l.Next(n2);
        j := j + 1;
      }
      n := l.Next(n);
      i := i + 1;
    }
    return true;
  }

  /** In an undirected graph a clique's vertices are pairwise adjacent both
      ways round. */
  lemma CliqueBothWays(st: Shape, c: seq<nat>)
    requires WellFormed(st) && Undirected(st) && forall k :: 0 <= k < |c| ==> c[k] < |st.names|
    requires AllAdjacent(st, c)
    ensures forall i, j :: 0 <= i < |c| && 0 <= j < |c| && i != j ==> Adjacent(st, c[i], c[j])
  {
    forall i, j | 0 <= i < |c| && 0 <= j < |c| && i != j ensures Adjacent(st, c[i], c[j]) {
      if j < i {
        AdjacentSymmetric(st, c[j], c[i]);
      }
    }
  }

  /** The far end of edge `a` as simplicial computes it: `a_dst == v ? a_orig : a_dst`. */
  function FarEnd(st: Shape, a: nat, v: nat): nat
    requires Sized(st) && a < |st.orig|
  {
    if st.dst[a] == v then st.orig[a] else st.dst[a]
  }

  /** The list simplicial builds after its first `k` out-edges of `v`, the
      last found first. */
  ghost function FarEnds(st: Shape, v: nat, k: nat): (r: seq<nat>)
    requires WellFormed(st) && v < |st.names| && k <= |st.outs[v]|
    ensures |r| == k && forall i :: 0 <= i < |r| ==> r[i] < |st.names|
  {
    if k == 0 then [] else [FarEnd(st, st.outs[v][k - 1], v)] + FarEnds(st, v, k - 1)
  }

  /** The entries of the list are exactly the far ends of the first `k`
      out-edges of `v`. */
  lemma {:induction false} FarEndsMembers(st: Shape, v: nat, k: nat)
    requires WellFormed(st) && v < |st.names| && k <= |st.outs[v]|
    ensures forall x :: x in FarEnds(st, v, k) <==>
              exists j :: 0 <= j < k && Other(st, st.outs[v][j], v) == x
    decreases k
  {
    if k > 0 {
      FarEndsMembers(st, v, k - 1);
      var a := st.outs[v][k - 1];
      assert FarEnd(st, a, v) == Other(st, a, v);
    }
  }

  /** simplicial: 1 iff the far ends of the out-edges of `v` form a clique. */
  method Simplicial(v: nat, g: Graph) returns (r: bool)
    requires g.Valid() && v < |g.st.names|
    ensures r <==> AllAdjacent(g.st, FarEnds(g.st, v, |g.st.outs[v]|))
  {
    var l := new List<nat>();
    var k := 0;
    while k < |g.st.outs[v]|
      invariant 0 <= k <= |g.st.outs[v]|
      invariant fresh(l) && l.Valid() && l.Contents() == FarEnds(g.st, v, k)
    {
      var a := g.st.outs[v][k];
      var _ := l.Insert(if g.st.dst[a] == v then g.st.orig[a] else g.st.dst[a]);
      k := k + 1;
    }
    FarEndsMembers(g.st, v, k);
    r := Clique(l, g);
    var _ := l.Destroy(None);
  }
}
