// The perfect-elimination check (ordem_perfeita_eliminacao with its helper
// nxt_neighbor_r) and the chordality test cordal built on it and on Lex-BFS.
// An ordering `ord` lists vertices head first; the positions after `i` that
// are out-neighbours of `ord[i]` are its later neighbours R(ord[i]).
module Chordal {
  import opened Wrappers
  import opened Grafo
  import opened Lista
  import opened LexBfs

  /** `ord` lists every vertex of the graph exactly once. */
  ghost predicate Ordering(st: Shape, ord: seq<nat>)
  {
    && (forall i :: 0 <= i < |ord| ==> ord[i] < |st.names|)
    && (forall i, j :: 0 <= i < j < |ord| ==> ord[i] != ord[j])
    && (forall u :: 0 <= u < |st.names| ==> u in ord)
  }

  /** Position `p` comes after position `i` and `ord[p]` is an out-neighbour
      of `ord[i]`. */
  ghost predicate LaterAt(st: Shape, ord: seq<nat>, i: int, p: int)
    requires WellFormed(st) && Ordering(st, ord)
  {
    0 <= i < p < |ord| && Step(st, ord[i], ord[p])
  }

  /** `j` is the nearest later neighbour of position `i` (v2 of the check). */
  ghost predicate IsNext(st: Shape, ord: seq<nat>, i: int, j: int)
    requires WellFormed(st) && Ordering(st, ord)
  {
    LaterAt(st, ord, i, j) && forall p :: LaterAt(st, ord, i, p) ==> j <= p
  }

  /** The test at position `i`: every later neighbour other than the nearest
      one is a later neighbour of the nearest one. */
  ghost predicate NextCovered(st: Shape, ord: seq<nat>, i: int)
    requires WellFormed(st) && Ordering(st, ord)
  {
    forall j :: IsNext(st, ord, i, j) ==>
      forall p :: LaterAt(st, ord, i, p) && p != j ==> LaterAt(st, ord, j, p)
  }

  ghost predicate NextCheck(st: Shape, ord: seq<nat>)
    requires WellFormed(st) && Ordering(st, ord)
  {
    forall i :: 0 <= i < |ord| ==> NextCovered(st, ord, i)
  }

  /** A perfect elimination ordering: the later neighbours of every vertex
      form a clique (the earlier of two steps to the later one). */
  ghost predicate PerfectElimination(st: Shape, ord: seq<nat>)
    requires WellFormed(st) && Ordering(st, ord)
  {
    forall i, p, q :: LaterAt(st, ord, i, p) && LaterAt(st, ord, i, q) && p < q ==> LaterAt(st, ord, p, q)
  }

  /** A position with a later neighbour has a nearest one. */
  lemma {:induction false} NearestExists(st: Shape, ord: seq<nat>, i: int, p: int) returns (j: int)
    requires WellFormed(st) && Ordering(st, ord) && LaterAt(st, ord, i, p)
    ensures IsNext(st, ord, i, j) && j <= p
    decreases p
  {
    if exists p' :: LaterAt(st, ord, i, p') && p' < p {
      var p' :| LaterAt(st, ord, i, p') && p' < p;
      j := NearestExists(st, ord, i, p');
    } else {
      j := p;
    }
  }

  /** Under the check, the later neighbours of position `i` form a clique. */
  lemma {:induction false} CliqueFrom(st: Shape, ord: seq<nat>, i: int)
    requires WellFormed(st) && Ordering(st, ord) && NextCheck(st, ord) && 0 <= i < |ord|
    ensures forall p, q :: LaterAt(st, ord, i, p) && LaterAt(st, ord, i, q) && p < q ==> LaterAt(st, ord, p, q)
    decreases |ord| - i
  {
    forall p, q | LaterAt(st, ord, i, p) && LaterAt(st, ord, i, q) && p < q
      ensures LaterAt(st, ord, p, q)
    {
      var j := NearestExists(st, ord, i, p);
      assert NextCovered(st, ord, i);
      if p != j {
        assert LaterAt(st, ord, j, p) && LaterAt(st, ord, j, q);
        CliqueFrom(st, ord, j);
      }
    }
  }

  /** The check made at each position decides perfect elimination: the test
      ordem_perfeita_eliminacao runs is the textbook definition. */
  lemma PerfectIffCheck(st: Shape, ord: seq<nat>)
    requires WellFormed(st) && Ordering(st, ord)
    ensures PerfectElimination(st, ord) <==> NextCheck(st, ord)
  {
    if NextCheck(st, ord) {
      forall i, p, q | LaterAt(st, ord, i, p) && LaterAt(st, ord, i, q) && p < q
        ensures LaterAt(st, ord, p, q)
      {
        CliqueFrom(st, ord, i);
      }
    }
    if PerfectElimination(st, ord) {
      forall i | 0 <= i < |ord| ensures NextCovered(st, ord, i) {
        forall j, p | IsNext(st, ord, i, j) && LaterAt(st, ord, i, p) && p != j
          ensures LaterAt(st, ord, j, p)
        {
          assert LaterAt(st, ord, i, j) && LaterAt(st, ord, i, p) && j < p;
        }
      }
    }
  }

  /** neighbors_r of position `i` after phase 1 has scanned the first `k`
      out-edges of `ord[i]`: the far ends not yet visited (those not at or
      before `i`), the last found first. */
  ghost function RightScan(st: Shape, ord: seq<nat>, i: nat, k: nat): seq<nat>
    requires WellFormed(st) && Ordering(st, ord) && i < |ord| && k <= |st.outs[ord[i]]|
  {
    if k == 0 then []
    else
      var w := Other(st, st.outs[ord[i]][k - 1], ord[i]);
      if w in ord[..i + 1] then RightScan(st, ord, i, k - 1) else [w] + RightScan(st, ord, i, k - 1)
  }

  /** neighbors_r of position `i` once phase 1 is done. */
  ghost function Right(st: Shape, ord: seq<nat>, i: nat): seq<nat>
    requires WellFormed(st) && Ordering(st, ord) && i < |ord|
  {
    RightScan(st, ord, i, |st.outs[ord[i]]|)
  }

  lemma {:induction false} RightScanMembers(st: Shape, ord: seq<nat>, i: nat, k: nat, x: nat)
    requires WellFormed(st) && Ordering(st, ord) && i < |ord| && k <= |st.outs[ord[i]]|
    ensures x in RightScan(st, ord, i, k) <==>
              x !in ord[..i + 1] && exists k' :: 0 <= k' < k && Other(st, st.outs[ord[i]][k'], ord[i]) == x
    decreases k
  {
    if k > 0 {
      RightScanMembers(st, ord, i, k - 1, x);
    }
  }

  /** The members of R(ord[i]) are exactly the vertices at the later
      neighbour positions of `i`. */
  lemma RightMembers(st: Shape, ord: seq<nat>, i: nat)
    requires WellFormed(st) && Ordering(st, ord) && i < |ord|
    ensures forall x :: x in Right(st, ord, i) ==> x in ord
    ensures forall p :: 0 <= p < |ord| ==> (ord[p] in Right(st, ord, i) <==> LaterAt(st, ord, i, p))
  {
    var v := ord[i];
    forall x | x in Right(st, ord, i) ensures x in ord {
      RightScanMembers(st, ord, i, |st.outs[v]|, x);
      var k' :| 0 <= k' < |st.outs[v]| && Other(st, st.outs[v][k'], v) == x;
      assert x < |st.names|;
    }
    forall p | 0 <= p < |ord| ensures ord[p] in Right(st, ord, i) <==> LaterAt(st, ord, i, p) {
      RightScanMembers(st, ord, i, |st.outs[v]|, ord[p]);
      assert ord[p] in ord[..i + 1] <==> p <= i by {
        if p <= i {
          assert ord[..i + 1][p] == ord[p];
        }
        if ord[p] in ord[..i + 1] {
          var q :| 0 <= q < i + 1 && ord[..i + 1][q] == ord[p];
          assert ord[q] == ord[p];
        }
      }
    }
  }

  /** v_index holds each vertex's position in `ord`. */
  ghost predicate Indexed(ord: seq<nat>, idx: seq<int>)
  {
    forall p :: 0 <= p < |ord| ==> ord[p] < |idx| && idx[ord[p]] == p
  }

  /** Every position has its neighbors_r list in `nr`. */
  ghost predicate RightLists(st: Shape, ord: seq<nat>, nr: seq<seq<nat>>)
    requires WellFormed(st) && Ordering(st, ord)
  {
    |ord| <= |nr| && forall p :: 0 <= p < |ord| ==> nr[p] == Right(st, ord, p)
  }

  /** nxt_neighbor_r: null for an empty list, otherwise the first entry of
      least v_index. */
  method NxtNeighborR(g: Graph, l: seq<nat>) returns (r: Option<nat>)
    requires forall k :: 0 <= k < |l| ==> l[k] < |g.vIndex|
    ensures r.None? <==> l == []
    ensures r.Some? ==> r.value in l && forall x :: x in l ==> g.vIndex[r.value] <= g.vIndex[x]
    ensures r.Some? ==> exists k :: 0 <= k < |l| && l[k] == r.value &&
                          forall k' :: 0 <= k' < k ==> g.vIndex[l[k']] > g.vIndex[r.value]
  {
    if l == [] {
      return None;
    }
    var smallest := l[0];
    ghost var at := 0;
    var k := 1;
    while k < |l|
      invariant 1 <= k <= |l| && 0 <= at < k && l[at] == smallest
      invariant forall j :: 0 <= j < k ==> g.vIndex[smallest] <= g.vIndex[l[j]]
      invariant forall j :: 0 <= j < at ==> g.vIndex[l[j]] > g.vIndex[smallest]
    {
      if g.vIndex[l[k]] < g.vIndex[smallest] {
        smallest := l[k];
        at := k;
      }
      k := k + 1;
    }
    r := Some(smallest);
  }

  /** The innermost scan of phase 2: is `x` in the list `l`? */
  method Member(x: nat, l: seq<nat>) returns (found: bool)
    ensures found <==> x in l
  {
    var k := 0;
    while k < |l|
      invariant 0 <= k <= |l| && x !in l[..k]
    {
      if l[k] == x {
        return true;
      }
      assert l[..k + 1] == l[..k] + [l[k]];
      k := k + 1;
    }
    assert l[..k] == l;
    return false;
  }

  /** The loop over l of phase 2: every entry of `ls` other than `v2` is
      found in `l2`. */
  method AllListed(ls: seq<nat>, l2: seq<nat>, v2: nat) returns (ok: bool)
    ensures ok <==> forall x :: x in ls && x != v2 ==> x in l2
  {
    var n2 := 0;
    while n2 < |ls|
      invariant 0 <= n2 <= |ls|
      invariant forall k :: 0 <= k < n2 && ls[k] != v2 ==> ls[k] in l2
    {
      var tmp := ls[n2];
      if tmp != v2 {
        var found := Member(tmp, l2);
        if !found {
          return false;
        }
      }
      n2 := n2 + 1;
    }
    return true;
  }

  /** Phase 2 for the vertex `v` at position `i`: pick v2, the nearest later
      neighbour, and check that every other later neighbour of `v` is a later
      neighbour of v2. */
  method CheckOne(g: Graph, nr: array<seq<nat>>, v: nat, ghost ord: seq<nat>, ghost i: nat) returns (ok: bool)
    requires g.Valid() && Ordering(g.st, ord) && i < |ord| && ord[i] == v
    requires Indexed(ord, g.vIndex) && RightLists(g.st, ord, nr[..]) && |g.vIndex| == nr.Length
    ensures ok <==> NextCovered(g.st, ord, i)
  {
    var vi := g.vIndex[v];
    assert vi == i;
    var ls := nr[vi];
    assert ls == Right(g.st, ord, i);
    RightMembers(g.st, ord, i);
    assert forall k :: 0 <= k < |ls| ==> ls[k] < |g.vIndex| by {
      forall k | 0 <= k < |ls| ensures ls[k] < |g.vIndex| {
        assert ls[k] in ls;
        var p :| 0 <= p < |ord| && ord[p] == ls[k];
      }
    }
    var v2 := NxtNeighborR(g, ls);
    if v2.None? {
      assert forall p :: 0 <= p < |ord| ==> !LaterAt(g.st, ord, i, p);
      return true;
    }
    ghost var j :| 0 <= j < |ord| && ord[j] == v2.value;
    assert IsNext(g.st, ord, i, j) by {
      forall p | LaterAt(g.st, ord, i, p) ensures j <= p {
        assert ord[p] in ls;
      }
    }
    assert forall j' :: IsNext(g.st, ord, i, j') ==> j' == j;
    var l2 := nr[g.vIndex[v2.value]];
    assert l2 == Right(g.st, ord, j);
    RightMembers(g.st, ord, j);
    var covered := AllListed(ls, l2, v2.value);
    if !covered {
      ghost var tmp :| tmp in ls && tmp != v2.value && tmp !in l2;
      ghost var p :| 0 <= p < |ord| && ord[p] == tmp;
      assert LaterAt(g.st, ord, i, p) && p != j && !LaterAt(g.st, ord, j, p);
      return false;
    }
    forall p | LaterAt(g.st, ord, i, p) && p != j ensures LaterAt(g.st, ord, j, p) {
      assert ord[p] in ls;
      assert ord[p] != v2.value;
    }
    return true;
  }

  /** What the check leaves alone: everything but the vertex marks and v_index. */
  ghost function Untouched(g: Graph): (Shape, seq<bool>, seq<seq<int>>, seq<State>, seq<bool>, string, bool, bool, nat, nat)
    reads g
  {
    (g.st, g.vCovered, g.vLbl, g.eVisit, g.eCovered, g.nome, g.directed, g.weighted, g.nvert, g.nedges)
  }

  /** The vertices listed in `c`. */
  ghost function Elements(c: seq<nat>): set<nat>
  {
    set x | x in c
  }

  lemma {:induction false} DistinctElements(c: seq<nat>)
    requires forall i, j :: 0 <= i < j < |c| ==> c[i] != c[j]
    ensures |Elements(c)| == |c|
    decreases |c|
  {
    if c != [] {
      var t := c[1..];
      assert forall i, j :: 0 <= i < j < |t| ==> t[i] != t[j] by {
        forall i, j | 0 <= i < j < |t| ensures t[i] != t[j] {
          assert t[i] == c[i + 1] && t[j] == c[j + 1];
        }
      }
      DistinctElements(t);
      assert Elements(c) == Elements(t) + {c[0]};
      assert c[0] !in Elements(t);
    } else {
      assert Elements(c) == {};
    }
  }

  /** The vertex numbers below `n`. */
  ghost function Below(n: nat): (r: set<nat>)
    ensures forall u: nat :: u in r <==> u < n
    ensures |r| == n
  {
    if n == 0 then {} else Below(n - 1) + {n - 1}
  }

  /** An ordering lists as many vertices as the graph has. */
  lemma OrderingLength(st: Shape, ord: seq<nat>)
    requires Ordering(st, ord)
    ensures |ord| == |st.names|
  {
    DistinctElements(ord);
    assert Elements(ord) == Below(|st.names|);
  }

  /** The vertices at positions before `i` of `ord` are the marked ones. */
  ghost predicate MarkedBefore(ord: seq<nat>, vv: seq<State>, i: nat)
  {
    forall p :: 0 <= p < |ord| ==> ord[p] < |vv| && (vv[ord[p]] != NotSet <==> p < i)
  }

  /** In a sequence without repeats, the entry at `p` is in the prefix up to
      `i` exactly when `p` is at most `i`. */
  lemma InPrefix(ord: seq<nat>, p: nat, i: nat)
    requires p < |ord| && i < |ord| && forall a, b :: 0 <= a < b < |ord| ==> ord[a] != ord[b]
    ensures ord[p] in ord[..i + 1] <==> p <= i
  {
    if p <= i {
      assert ord[..i + 1][p] == ord[p];
    }
    if ord[p] in ord[..i + 1] {
      var q :| 0 <= q < i + 1 && ord[..i + 1][q] == ord[p];
      assert ord[q] == ord[p];
    }
  }

  /** Phase 1 for the vertex `v` at position `i`: mark it visited, record its
      position in v_index, and collect into `nr[i]` the far ends of its
      out-edges that are not yet visited. */
  method Collect(g: Graph, nr: array<seq<nat>>, v: nat, ghost ord: seq<nat>, i: nat)
    requires g.Valid() && Ordering(g.st, ord) && i < |ord| && ord[i] == v && i < nr.Length
    requires MarkedBefore(ord, g.vVisit, i)
    requires nr[i] == []
    modifies g, nr
    ensures g.Valid() && Untouched(g) == old(Untouched(g))
    ensures g.vVisit == old(g.vVisit)[v := Visited] && g.vIndex == old(g.vIndex)[v := i]
    ensures MarkedBefore(ord, g.vVisit, i + 1)
    ensures nr[..] == old(nr[..])[i := Right(g.st, ord, i)]
  {
    g.MarkVertex(v, Visited);
    g.SetIndex(v, i);
    assert MarkedBefore(ord, g.vVisit, i + 1);
    var right := ScanRight(g, v, ord, i);
    nr[i] := right;
  }

  /** The out-edge loop of phase 1 for the vertex `v` at position `i`, once
      the vertices up to `i` are marked: the far ends not yet visited, in
      neighbors_r order. */
  method ScanRight(g: Graph, v: nat, ghost ord: seq<nat>, i: nat) returns (right: seq<nat>)
    requires g.Valid() && Ordering(g.st, ord) && i < |ord| && ord[i] == v
    requires MarkedBefore(ord, g.vVisit, i + 1)
    ensures right == Right(g.st, ord, i)
  {
    right := [];
    var k := 0;
    while k < |g.st.outs[v]|
      invariant 0 <= k <= |g.st.outs[v]|
      invariant right == RightScan(g.st, ord, i, k)
    {
      var aux := Other(g.st, g.st.outs[v][k], v);
      assert aux in ord;
      ghost var p :| 0 <= p < |ord| && ord[p] == aux;
      InPrefix(ord, p, i);
      // `if( aux->v_visitado ) continue;`
      if g.vVisit[aux] == NotSet {
        right := [aux] + right;
      }
      k := k + 1;
    }
  }

  /** Phase 1 of ordem_perfeita_eliminacao over the list `l`. */
  method SplitRight(g: Graph, l: List<nat>, nr: array<seq<nat>>, ghost ord: seq<nat>)
    requires g.Valid() && l.Valid() && ord == l.Contents() && Ordering(g.st, ord) && |ord| <= nr.Length
    requires forall u :: 0 <= u < |g.vVisit| ==> g.vVisit[u] == NotSet
    requires forall p :: 0 <= p < nr.Length ==> nr[p] == []
    modifies g, nr
    ensures g.Valid() && Untouched(g) == old(Untouched(g))
    ensures Indexed(ord, g.vIndex) && RightLists(g.st, ord, nr[..])
  {
    var nv := l.First();
    var count := 0;
    while nv != null
      invariant 0 <= count <= |ord| && g.Valid() && Untouched(g) == old(Untouched(g))
      invariant nv == (if count < |l.nodes| then l.nodes[count] else null)
      invariant MarkedBefore(ord, g.vVisit, count)
      invariant forall p :: 0 <= p < count ==> nr[p] == Right(g.st, ord, p) && g.vIndex[ord[p]] == p
      invariant forall p :: count <= p < nr.Length ==> nr[p] == []
      decreases |ord| - count
    {
      assert nv.conteudo == ord[count];
      var v := nv.conteudo;
      Collect(g, nr, v, ord, count);
      nv := l.Next(nv);
      count := count + 1;
    }
  }

  /** Phase 2 of ordem_perfeita_eliminacao: the test at every position of `l`,
      stopping at the first that fails. */
  method CheckAll(g: Graph, l: List<nat>, nr: array<seq<nat>>, ghost ord: seq<nat>) returns (r: bool)
    requires g.Valid() && l.Valid() && ord == l.Contents() && Ordering(g.st, ord)
    requires Indexed(ord, g.vIndex) && RightLists(g.st, ord, nr[..]) && |g.vIndex| == nr.Length
    ensures r <==> NextCheck(g.st, ord)
  {
    var nv := l.First();
    var count := 0;
    while nv != null
      invariant 0 <= count <= |ord|
      invariant nv == (if count < |l.nodes| then l.nodes[count] else null)
      invariant forall p :: 0 <= p < count ==> NextCovered(g.st, ord, p)
      decreases |ord| - count
    {
      assert nv.conteudo == ord[count];
      var ok := CheckOne(g, nr, nv.conteudo, ord, count);
      if !ok {
        return false;
      }
      nv := l.Next(nv);
      count := count + 1;
    }
    return true;
  }

  /** ordem_perfeita_eliminacao: for an `l` listing every vertex once, the
      result says whether `l` is a perfect elimination ordering; afterwards
      v_index is each vertex's position in `l` and the vertex marks are reset. */
  method OrdemPerfeitaEliminacao(l: List<nat>, g: Graph) returns (r: bool)
    requires g.Valid() && l.Valid() && Ordering(g.st, l.Contents()) && g.nvert == |g.st.names|
    requires forall u :: 0 <= u < |g.vVisit| ==> g.vVisit[u] == NotSet
    modifies g
    ensures g.Valid() && Untouched(g) == old(Untouched(g))
    ensures r <==> NextCheck(g.st, l.Contents())
    ensures r <==> PerfectElimination(g.st, l.Contents())
    ensures Indexed(l.Contents(), g.vIndex)
    ensures forall u :: 0 <= u < |g.vVisit| ==> g.vVisit[u] == NotSet
  {
    ghost var ord := l.Contents();
    OrderingLength(g.st, ord);
    var nr := new seq<nat>[g.nvert](_ => []);
    SplitRight(g, l, nr, ord);
    g.SetNoneVertexes();
    r := CheckAll(g, l, nr, ord);
    PerfectIffCheck(g.st, ord);
  }

  /** A duplicate-free list of vertices holding every vertex reachable from
      `s`, in a graph where every vertex is reachable from `s`, lists every
      vertex exactly once. */
  lemma SearchOrdering(st: Shape, c: seq<nat>, s: nat)
    requires WellFormed(st)
    requires forall i :: 0 <= i < |c| ==> c[i] < |st.names|
    requires forall i, j :: 0 <= i < j < |c| ==> c[i] != c[j]
    requires forall w :: Reachable(st, s, w) ==> w in c
    requires forall w :: 0 <= w < |st.names| ==> Reachable(st, s, w)
    ensures Ordering(st, c) && |c| == |st.names|
  {
    OrderingLength(st, c);
  }

  /** The search step of cordal: when every vertex is reachable from the
      first one, the Lex-BFS order lists every vertex exactly once. */
  method SearchOrder(g: Graph) returns (l: List<nat>)
    requires g.Valid() && |g.st.names| >= 1 && g.nvert == |g.st.names|
    requires forall u :: 0 <= u < |g.vVisit| ==> g.vVisit[u] == NotSet
    requires forall e :: 0 <= e < |g.eVisit| ==> g.eVisit[e] == NotSet
    requires FreshLabels(g.vLbl, g.nvert)
    requires forall w :: 0 <= w < |g.st.names| ==> Reachable(g.st, g.st.vertices[0], w)
    modifies g
    ensures fresh(l) && l.Valid() && g.Valid() && g.st == old(g.st)
    ensures var ord := l.Contents();
            Ordering(g.st, ord) && |ord| == |g.st.names| && ord[|ord| - 1] == g.st.vertices[0]
    ensures g.nvert == old(g.nvert) && FreshLabels(g.vLbl, g.nvert)
    ensures forall u :: 0 <= u < |g.vVisit| ==> g.vVisit[u] == NotSet
    ensures forall e :: 0 <= e < |g.eVisit| ==> g.eVisit[e] == NotSet
  {
    l := BuscaLarguraLexicografica(g);
    SearchOrdering(g.st, l.Contents(), g.st.vertices[0]);
  }

  /** cordal: the Lex-BFS order of a connected graph, checked for perfect
      elimination; `ord` is that order (the list is released afterwards). */
  method Cordal(g: Graph) returns (r: bool, ghost ord: seq<nat>)
    requires g.Valid() && |g.st.names| >= 1 && g.nvert == |g.st.names|
    requires forall u :: 0 <= u < |g.vVisit| ==> g.vVisit[u] == NotSet
    requires forall e :: 0 <= e < |g.eVisit| ==> g.eVisit[e] == NotSet
    requires FreshLabels(g.vLbl, g.nvert)
    requires forall w :: 0 <= w < |g.st.names| ==> Reachable(g.st, g.st.vertices[0], w)
    modifies g
    ensures g.Valid() && g.st == old(g.st)
    ensures Ordering(g.st, ord) && |ord| == |g.st.names| && ord[|ord| - 1] == g.st.vertices[0]
    ensures r <==> PerfectElimination(g.st, ord)
    ensures g.nvert == old(g.nvert) && FreshLabels(g.vLbl, g.nvert)
    ensures forall u :: 0 <= u < |g.vVisit| ==> g.vVisit[u] == NotSet
    ensures forall e :: 0 <= e < |g.eVisit| ==> g.eVisit[e] == NotSet
  {
    var l := SearchOrder(g);
    ord := l.Contents();
    r := OrdemPerfeitaEliminacao(l, g);
    var _ := l.Destroy(None);
  }
}
