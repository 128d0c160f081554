// The graph ("grafo") with its vertices and edges. Vertices and edges are
// numbered in creation order; the vertex list `g_vertices` (head first), every
// adjacency list (head first) and the edge endpoints are kept in the `Shape`
// value, which the algorithms only read. The marks the algorithms write
// (v_visitado, v_index, v_covered, v_lbl, a_visitada, a_covered) are fields of
// the `Graph` object, one entry per vertex or per edge.
module Grafo {
  import opened Wrappers

  /** eState: not set, visited, or inserted. */
  datatype State = NotSet | Visited | Inserted

  /** The structure of a graph. Vertex `u` is named `names[u]`, its
      v_neighborhood_out and v_neighborhood_in lists are `outs[u]` and `ins[u]`
      (edge numbers, head first); edge `e` has a_orig `orig[e]`, a_dst `dst[e]`,
      a_peso `weight[e]` and a_ponderado `weighted[e]`. */
  datatype Shape = Shape(
    vertices: seq<nat>,
    names: seq<string>,
    outs: seq<seq<nat>>,
    ins: seq<seq<nat>>,
    orig: seq<nat>,
    dst: seq<nat>,
    weight: seq<int>,
    weighted: seq<bool>)

  ghost predicate Sized(st: Shape)
  {
    && |st.vertices| == |st.names| && |st.outs| == |st.names| && |st.ins| == |st.names|
    && |st.dst| == |st.orig| && |st.weight| == |st.orig| && |st.weighted| == |st.orig|
  }

  /** The vertex list holds every vertex exactly once. */
  ghost predicate VertexList(st: Shape)
  {
    && (forall i :: 0 <= i < |st.vertices| ==> st.vertices[i] < |st.names|)
    && (forall i, j :: 0 <= i < j < |st.vertices| ==> st.vertices[i] != st.vertices[j])
    && (forall u :: 0 <= u < |st.names| ==> u in st.vertices)
  }

  /** Both ends of every edge are vertices, and they differ (no self-loops). */
  ghost predicate Endpoints(st: Shape)
    requires Sized(st)
  {
    forall e :: 0 <= e < |st.orig| ==>
      st.orig[e] < |st.names| && st.dst[e] < |st.names| && st.orig[e] != st.dst[e]
  }

  /** Every edge in the list of vertex `u` has `u` as an endpoint. */
  ghost predicate IncidentLists(st: Shape, ls: seq<seq<nat>>)
    requires Sized(st)
  {
    forall u, k :: 0 <= u < |ls| && 0 <= k < |ls[u]| ==>
      ls[u][k] < |st.orig| && (st.orig[ls[u][k]] == u || st.dst[ls[u][k]] == u)
  }

  /** Every edge is in the out-list of its origin. */
  ghost predicate Listed(st: Shape)
    requires Sized(st) && Endpoints(st)
  {
    forall e :: 0 <= e < |st.orig| ==> e in st.outs[st.orig[e]]
  }

  ghost predicate WellFormed(st: Shape)
  {
    && Sized(st) && VertexList(st) && Endpoints(st)
    && IncidentLists(st, st.outs) && IncidentLists(st, st.ins) && Listed(st)
  }

  /** The far end of edge `e` seen from `v`: `a_orig == v ? a_dst : a_orig`. */
  function Other(st: Shape, e: nat, v: nat): nat
    requires Sized(st) && e < |st.orig|
  {
    if st.orig[e] == v then st.dst[e] else st.orig[e]
  }

  /** `w` is the far end of an edge in the out-list of `u`: the move every
      traversal of the library makes. */
  ghost predicate Step(st: Shape, u: nat, w: nat)
    requires WellFormed(st) && u < |st.names|
  {
    exists k :: 0 <= k < |st.outs[u]| && Other(st, st.outs[u][k], u) == w
  }

  /** Edge `e` joins `a` and `b`, in either orientation. */
  predicate Joins(st: Shape, e: nat, a: nat, b: nat)
    requires Sized(st) && e < |st.orig|
  {
    (st.dst[e] == b && st.orig[e] == a) || (st.dst[e] == a && st.orig[e] == b)
  }

  /** Some edge in the out-list of `a` joins `a` and `b`. */
  ghost predicate Adjacent(st: Shape, a: nat, b: nat)
    requires WellFormed(st) && a < |st.names|
  {
    exists k :: 0 <= k < |st.outs[a]| && Joins(st, st.outs[a][k], a, b)
  }

  /** Joining `a` and `b` through the out-list of `a` is stepping from `a` to `b`. */
  lemma AdjacentIsStep(st: Shape, a: nat, b: nat)
    requires WellFormed(st) && a < |st.names|
    ensures Adjacent(st, a, b) <==> Step(st, a, b)
  {
    if Adjacent(st, a, b) {
      var k :| 0 <= k < |st.outs[a]| && Joins(st, st.outs[a][k], a, b);
      assert Other(st, st.outs[a][k], a) == b;
    }
    if Step(st, a, b) {
      var k :| 0 <= k < |st.outs[a]| && Other(st, st.outs[a][k], a) == b;
      assert Joins(st, st.outs[a][k], a, b);
    }
  }

  /** An undirected graph lists each edge at both of its ends. */
  ghost predicate Undirected(st: Shape)
    requires Sized(st) && Endpoints(st)
  {
    forall e :: 0 <= e < |st.orig| ==> e in st.outs[st.orig[e]] && e in st.outs[st.dst[e]]
  }

  /** In an undirected graph adjacency is symmetric. */
  lemma AdjacentSymmetric(st: Shape, a: nat, b: nat)
    requires WellFormed(st) && Undirected(st) && a < |st.names| && b < |st.names|
    ensures Adjacent(st, a, b) ==> Adjacent(st, b, a)
  {
    if Adjacent(st, a, b) {
      var k :| 0 <= k < |st.outs[a]| && Joins(st, st.outs[a][k], a, b);
      var e := st.outs[a][k];
      var k' :| 0 <= k' < |st.outs[b]| && st.outs[b][k'] == e;
      assert Joins(st, st.outs[b][k'], b, a);
    }
  }

  /** A walk: consecutive vertices are related by `Step`. */
  ghost predicate Walk(st: Shape, p: seq<nat>)
    requires WellFormed(st)
  {
    && (forall i :: 0 <= i < |p| ==> p[i] < |st.names|)
    && (forall i :: 0 <= i < |p| - 1 ==> Step(st, p[i], p[i + 1]))
  }

  ghost predicate Reachable(st: Shape, s: nat, w: nat)
    requires WellFormed(st)
  {
    exists p :: Walk(st, p) && |p| > 0 && p[0] == s && p[|p| - 1] == w
  }

  /** A set of vertices holding `s` and closed under `Step` holds every vertex
      reachable from `s`. */
  lemma {:induction false} ClosedHoldsReachable(st: Shape, c: seq<nat>, p: seq<nat>)
    requires WellFormed(st) && Walk(st, p) && |p| > 0 && p[0] in c
    requires forall u, w :: u in c && u < |st.names| && Step(st, u, w) ==> w in c
    ensures p[|p| - 1] in c
    decreases |p|
  {
    if |p| > 1 {
      var q := p[..|p| - 1];
      assert Walk(st, q) by {
        forall i | 0 <= i < |q| - 1 ensures Step(st, q[i], q[i + 1]) {
          assert q[i] == p[i] && q[i + 1] == p[i + 1];
        }
      }
      ClosedHoldsReachable(st, c, q);
      assert Step(st, p[|p| - 2], p[|p| - 1]);
    }
  }

  /** Every vertex reaches itself. */
  lemma ReachableSelf(st: Shape, s: nat)
    requires WellFormed(st) && s < |st.names|
    ensures Reachable(st, s, s)
  {
    assert Walk(st, [s]);
  }

  /** A step from a reachable vertex leads to a reachable vertex. */
  lemma ReachableStep(st: Shape, s: nat, v: nat, w: nat)
    requires WellFormed(st) && v < |st.names| && w < |st.names|
    requires Reachable(st, s, v) && Step(st, v, w)
    ensures Reachable(st, s, w)
  {
    var p :| Walk(st, p) && |p| > 0 && p[0] == s && p[|p| - 1] == v;
    var q := p + [w];
    forall i | 0 <= i < |q| - 1 ensures Step(st, q[i], q[i + 1]) {
      assert q[i + 1] == if i + 1 < |p| then p[i + 1] else w;
    }
    assert Walk(st, q);
  }

  /** `st` with one more vertex, named `name`: numbered |names|, at the head of
      the vertex list, with empty neighbourhoods. */
  function WithVertex(st: Shape, name: string): Shape
  {
    var n := |st.names|;
    st.(vertices := [n] + st.vertices, names := st.names + [name],
        outs := st.outs + [[]], ins := st.ins + [[]])
  }

  lemma NewVertexWellFormed(st: Shape, name: string)
    requires WellFormed(st)
    ensures WellFormed(WithVertex(st, name))
  {
    var t := WithVertex(st, name);
    var n := |st.names|;
    assert forall i :: 0 <= i < n ==> t.names[i] == st.names[i];
    forall u | 0 <= u < |t.names| ensures u in t.vertices {
      if u < n {
        assert u in st.vertices;
      }
    }
    assert forall e :: 0 <= e < |t.orig| ==> t.outs[t.orig[e]] == st.outs[t.orig[e]];
  }

  /** The shape after insert_edge adds edge `|orig|` from `s` to `d`. */
  function WithEdge(st: Shape, s: nat, d: nat): Shape
    requires Sized(st) && s < |st.names| && d < |st.names|
  {
    var m := |st.orig|;
    var outs := st.outs[s := [m] + st.outs[s]];
    st.(orig := st.orig + [s], dst := st.dst + [d],
        weight := st.weight + [0], weighted := st.weighted + [false],
        outs := outs[d := [m] + outs[d]])
  }

  /** Adding an edge between two distinct vertices keeps the shape well formed. */
  lemma NewEdgeWellFormed(st: Shape, s: nat, d: nat)
    requires WellFormed(st) && s < |st.names| && d < |st.names| && s != d
    ensures WellFormed(WithEdge(st, s, d))
  {
    var t := WithEdge(st, s, d);
    var m := |st.orig|;
    assert forall u :: 0 <= u < |st.names| ==> forall x :: x in st.outs[u] ==> x in t.outs[u];
    forall u, k | 0 <= u < |t.outs| && 0 <= k < |t.outs[u]|
      ensures t.outs[u][k] < |t.orig| && (t.orig[t.outs[u][k]] == u || t.dst[t.outs[u][k]] == u)
    {
      if (u == s || u == d) && k > 0 {
        assert t.outs[u][k] == st.outs[u][k - 1];
      } else if u != s && u != d {
        assert t.outs[u][k] == st.outs[u][k];
      }
    }
    assert m in t.outs[s];
  }

  /** Number of entries equal to `x`. */
  function CountState(s: seq<State>, x: State): (n: nat)
    ensures n <= |s|
  {
    if s == [] then 0 else (if s[0] == x then 1 else 0) + CountState(s[1..], x)
  }

  /** Overwriting one entry changes the count by what left and what came. */
  lemma {:induction false} CountUpdate(s: seq<State>, i: nat, y: State, x: State)
    requires i < |s|
    ensures CountState(s[i := y], x) ==
            CountState(s, x) - (if s[i] == x then 1 else 0) + (if y == x then 1 else 0)
  {
    if i > 0 {
      assert s[i := y][1..] == s[1..][i - 1 := y];
      CountUpdate(s[1..], i - 1, y, x);
    } else {
      assert s[i := y][1..] == s[1..];
    }
  }

  /** An entry different from `x` keeps the count below the length. */
  lemma {:induction false} CountBelow(s: seq<State>, i: nat, x: State)
    requires i < |s| && s[i] != x
    ensures CountState(s, x) < |s|
  {
    if i > 0 {
      CountBelow(s[1..], i - 1, x);
    }
  }

  /** A count of zero means no entry equals `x`. */
  lemma {:induction false} CountZero(s: seq<State>, x: State)
    requires CountState(s, x) == 0
    ensures forall i :: 0 <= i < |s| ==> s[i] != x
  {
    if s != [] {
      CountZero(s[1..], x);
      forall i | 0 < i < |s| ensures s[i] != x {
        assert s[i] == s[1..][i - 1];
      }
    }
  }

  /** No entry equal to `x` means a count of zero. */
  lemma {:induction false} CountNone(s: seq<State>, x: State)
    requires forall i :: 0 <= i < |s| ==> s[i] != x
    ensures CountState(s, x) == 0
  {
    if s != [] {
      assert forall i :: 0 <= i < |s[1..]| ==> s[1..][i] == s[i + 1];
      CountNone(s[1..], x);
    }
  }

  /** The first vertex named `x`. */
  function Find(names: seq<string>, x: string): (i: nat)
    requires x in names
    ensures i < |names| && names[i] == x
    ensures forall j :: 0 <= j < i ==> names[j] != x
  {
    if names[0] == x then 0 else Find(names[1..], x) + 1
  }

  /** check_head_tail: swap the pair exactly when `vname` names the tail but not
      the head; afterwards the head is named `vname` whenever either is. */
  function CheckHeadTail(names: seq<string>, vname: string, head: nat, tail: nat): (r: (nat, nat))
    requires head < |names| && tail < |names|
    ensures r == (head, tail) || r == (tail, head)
    ensures (r == (tail, head) && head != tail) <==> (names[head] != vname && names[tail] == vname)
    ensures (names[head] == vname || names[tail] == vname) ==> names[r.0] == vname
  {
    if vname != names[head] && vname == names[tail] then (tail, head) else (head, tail)
  }

  /** Normalising twice is normalising once. */
  lemma CheckHeadTailIdempotent(names: seq<string>, vname: string, head: nat, tail: nat)
    requires head < |names| && tail < |names|
    ensures var r := CheckHeadTail(names, vname, head, tail);
            CheckHeadTail(names, vname, r.0, r.1) == r
  {
  }

  class Graph {
    var nome: string
    var directed: bool        // g_tipo
    var weighted: bool        // g_ponderado
    var nvert: nat            // g_nvertices
    var nedges: nat           // g_naresta
    var st: Shape
    var vVisit: seq<State>    // v_visitado
    var vIndex: seq<int>      // v_index
    var vCovered: seq<bool>   // v_covered
    var vLbl: seq<seq<int>>   // v_lbl
    var eVisit: seq<State>    // a_visitada
    var eCovered: seq<bool>   // a_covered

    ghost predicate Valid()
      reads this
    {
      && WellFormed(st)
      && |vVisit| == |st.names| && |vIndex| == |st.names| && |vCovered| == |st.names|
      && |vLbl| == |st.names|
      && |eVisit| == |st.orig| && |eCovered| == |st.orig|
    }

    /** Vertex names are pairwise distinct, as in a graph read from a file. */
    ghost predicate UniqueNames()
      reads this
    {
      forall i, j :: 0 <= i < |st.names| && 0 <= j < |st.names| && st.names[i] == st.names[j] ==> i == j
    }

    /** An empty graph named `name` (a zeroed header with an empty vertex list). */
    constructor (name: string)
      ensures Valid() && UniqueNames()
      ensures nome == name && !directed && !weighted && nvert == 0 && nedges == 0
      ensures st == Shape([], [], [], [], [], [], [], [])
      ensures vVisit == [] && vIndex == [] && vCovered == [] && vLbl == [] && eVisit == [] && eCovered == []
    {
      nome := name;
      directed := false;
      weighted := false;
      nvert := 0;
      nedges := 0;
      st := Shape([], [], [], [], [], [], [], []);
      vVisit, vIndex, vCovered, vLbl := [], [], [], [];
      eVisit, eCovered := [], [];
    }

    /** insert_vertex: a new vertex with empty neighbourhoods and cleared marks
        (and no label array) becomes the head of the vertex list, and the vertex
        counter grows by one. */
    method InsertVertex(name: string)
      requires Valid()
      modifies this
      ensures Valid()
      ensures st == old(st).(vertices := [|old(st.names)|] + old(st.vertices),
                             names := old(st.names) + [name],
                             outs := old(st.outs) + [[]], ins := old(st.ins) + [[]])
      ensures vVisit == old(vVisit) + [NotSet] && vIndex == old(vIndex) + [0]
      ensures vCovered == old(vCovered) + [false] && vLbl == old(vLbl) + [[]]
      ensures eVisit == old(eVisit) && eCovered == old(eCovered)
      ensures nvert == old(nvert) + 1 && nedges == old(nedges)
      ensures nome == old(nome) && directed == old(directed) && weighted == old(weighted)
      ensures old(UniqueNames()) && name !in old(st.names) ==> UniqueNames()
    {
      NewVertexWellFormed(st, name);
      st := WithVertex(st, name);
      vVisit := vVisit + [NotSet];
      vIndex := vIndex + [0];
      vCovered := vCovered + [false];
      vLbl := vLbl + [[]];
      nvert := nvert + 1;
    }

    /** busca_vertice: scan the vertex list until both names have been seen.
        A result is always a vertex carrying the name asked for; when names are
        unique, each result is present exactly when its name is. */
    method BuscaVertice(tail: string, head: string) returns (r: Option<nat>, vdst: Option<nat>)
      requires Valid()
      ensures r.Some? ==> r.value < |st.names| && st.names[r.value] == tail
      ensures vdst.Some? ==> vdst.value < |st.names| && st.names[vdst.value] == head
      ensures UniqueNames() ==>
                r == (if tail in st.names then Some(Find(st.names, tail)) else None) &&
                vdst == (if head in st.names then Some(Find(st.names, head)) else None)
    {
      var many := 0;
      r, vdst := None, None;
      var k := 0;
      ghost var jt, jh := 0, 0;
      while k < |st.vertices| && many < 2
        invariant 0 <= k <= |st.vertices|
        invariant r.Some? ==> jt < k && r.value == st.vertices[jt] && st.names[r.value] == tail
        invariant vdst.Some? ==> jh < k && vdst.value == st.vertices[jh] && st.names[vdst.value] == head
        invariant r.None? ==> forall j :: 0 <= j < k ==> st.names[st.vertices[j]] != tail
        invariant vdst.None? ==> forall j :: 0 <= j < k ==> st.names[st.vertices[j]] != head
        invariant UniqueNames() ==>
                    many == (if r.Some? then 1 else 0) + (if vdst.Some? then 1 else 0)
      {
        var tmp := st.vertices[k];
        if tail == st.names[tmp] {
          r := Some(tmp);
          jt := k;
          many := many + 1;
        }
        if head == st.names[tmp] {
          vdst := Some(tmp);
          jh := k;
          many := many + 1;
        }
        k := k + 1;
      }
      if tail in st.names {
        assert Find(st.names, tail) in st.vertices;
      }
      if head in st.names {
        assert Find(st.names, head) in st.vertices;
      }
    }

    /** insert_edge: a new unweighted edge from the vertex named `tail` to the one
        named `head`, prepended to the out-lists of both; the counter that grows
        is the vertex counter, as written. */
    method InsertEdge(tail: string, head: string)
      requires Valid() && UniqueNames()
      requires tail in st.names && head in st.names && tail != head
      modifies this
      ensures Valid() && UniqueNames()
      ensures var m := |old(st.orig)|;
              var s := Find(old(st.names), tail);
              var d := Find(old(st.names), head);
              && st.vertices == old(st.vertices) && st.names == old(st.names) && st.ins == old(st.ins)
              && st.orig == old(st.orig) + [s] && st.dst == old(st.dst) + [d]
              && st.weight == old(st.weight) + [0] && st.weighted == old(st.weighted) + [false]
              && st.outs == old(st.outs)[s := [m] + old(st.outs[s])][d := [m] + old(st.outs[d])]
      ensures eVisit == old(eVisit) + [NotSet] && eCovered == old(eCovered) + [false]
      ensures vVisit == old(vVisit) && vIndex == old(vIndex) && vCovered == old(vCovered)
      ensures vLbl == old(vLbl)
      ensures nvert == old(nvert) + 1 && nedges == old(nedges)
      ensures nome == old(nome) && directed == old(directed) && weighted == old(weighted)
    {
      var src, dst := BuscaVertice(tail, head);
      AddEdge(src.value, dst.value);
    }

    /** The stores of insert_edge once both ends are found. */
    method AddEdge(s: nat, d: nat)
      requires Valid() && s < |st.names| && d < |st.names| && s != d
      modifies this
      ensures Valid() && st == WithEdge(old(st), s, d)
      ensures eVisit == old(eVisit) + [NotSet] && eCovered == old(eCovered) + [false]
      ensures vVisit == old(vVisit) && vIndex == old(vIndex) && vCovered == old(vCovered)
      ensures vLbl == old(vLbl)
      ensures nvert == old(nvert) + 1 && nedges == old(nedges)
      ensures nome == old(nome) && directed == old(directed) && weighted == old(weighted)
    {
      NewEdgeWellFormed(st, s, d);
      st := WithEdge(st, s, d);
      eVisit := eVisit + [NotSet];
      eCovered := eCovered + [false];
      nvert := nvert + 1;
    }

    /** vizinhanca: the in-list for direction -1, the out-list otherwise. Every
        edge listed touches `v`. */
    function Vizinhanca(v: nat, direcao: int): (r: seq<nat>)
      reads this
      requires Valid() && v < |st.names|
      ensures r == if direcao == -1 then st.ins[v] else st.outs[v]
      ensures forall k :: 0 <= k < |r| ==> r[k] < |st.orig| && (st.orig[r[k]] == v || st.dst[r[k]] == v)
    {
      if direcao == 0 then st.outs[v]
      else if direcao == -1 then st.ins[v] else st.outs[v]
    }

    /** grau: the size of the neighbourhood vizinhanca returns. */
    function Grau(v: nat, direcao: int): (r: nat)
      reads this
      requires Valid() && v < |st.names|
      ensures r == |Vizinhanca(v, direcao)|
    {
      if direcao == 0 then |st.outs[v]|
      else if direcao == -1 then |st.ins[v]| else |st.outs[v]|
    }

    /** are_neighbors: some edge in the out-list of `v1` joins `v1` and `v2`. */
    method AreNeighbors(v1: nat, v2: nat) returns (r: bool)
      requires Valid() && v1 < |st.names|
      ensures r <==> Adjacent(st, v1, v2)
    {
      var k := 0;
      while k < |st.outs[v1]|
        invariant 0 <= k <= |st.outs[v1]|
        invariant forall j :: 0 <= j < k ==> !Joins(st, st.outs[v1][j], v1, v2)
      {
        var a := st.outs[v1][k];
        if (st.dst[a] == v2 && st.orig[a] == v1) || (st.dst[a] == v1 && st.orig[a] == v2) {
          return true;
        }
        k := k + 1;
      }
      return false;
    }

    /** Set the v_visitado mark of vertex `u`. */
    method MarkVertex(u: nat, m: State)
      requires Valid() && u < |st.names|
      modifies this
      ensures Valid() && vVisit == old(vVisit)[u := m]
      ensures st == old(st) && vIndex == old(vIndex) && vCovered == old(vCovered) && vLbl == old(vLbl)
      ensures eVisit == old(eVisit) && eCovered == old(eCovered)
      ensures nome == old(nome) && directed == old(directed) && weighted == old(weighted)
      ensures nvert == old(nvert) && nedges == old(nedges)
    {
      vVisit := vVisit[u := m];
    }

    /** Set the v_index of vertex `u`. */
    method SetIndex(u: nat, i: int)
      requires Valid() && u < |st.names|
      modifies this
      ensures Valid() && vIndex == old(vIndex)[u := i]
      ensures st == old(st) && vVisit == old(vVisit) && vCovered == old(vCovered) && vLbl == old(vLbl)
      ensures eVisit == old(eVisit) && eCovered == old(eCovered)
      ensures nome == old(nome) && directed == old(directed) && weighted == old(weighted)
      ensures nvert == old(nvert) && nedges == old(nedges)
    {
      vIndex := vIndex[u := i];
    }

    /** Set the a_visitada mark of edge `e`. */
    method MarkEdge(e: nat, m: State)
      requires Valid() && e < |st.orig|
      modifies this
      ensures Valid() && eVisit == old(eVisit)[e := m]
      ensures st == old(st) && vVisit == old(vVisit) && vIndex == old(vIndex)
      ensures vCovered == old(vCovered) && vLbl == old(vLbl) && eCovered == old(eCovered)
      ensures nome == old(nome) && directed == old(directed) && weighted == old(weighted)
      ensures nvert == old(nvert) && nedges == old(nedges)
    {
      eVisit := eVisit[e := m];
    }

    /** Store new a_covered and v_covered marks, one per edge and per vertex. */
    method SetCovered(ec: seq<bool>, vc: seq<bool>)
      requires Valid() && |ec| == |st.orig| && |vc| == |st.names|
      modifies this
      ensures Valid() && eCovered == ec && vCovered == vc
      ensures st == old(st) && vVisit == old(vVisit) && vIndex == old(vIndex) && vLbl == old(vLbl)
      ensures eVisit == old(eVisit)
      ensures nome == old(nome) && directed == old(directed) && weighted == old(weighted)
      ensures nvert == old(nvert) && nedges == old(nedges)
    {
      eCovered, vCovered := ec, vc;
    }

    /** set_none_vertexes: every vertex mark becomes eNotSet. */
    method SetNoneVertexes()
      requires Valid()
      modifies this
      ensures Valid()
      ensures |vVisit| == |old(vVisit)| && forall u :: 0 <= u < |vVisit| ==> vVisit[u] == NotSet
      ensures st == old(st) && vIndex == old(vIndex) && vCovered == old(vCovered) && vLbl == old(vLbl)
      ensures eVisit == old(eVisit) && eCovered == old(eCovered)
      ensures nome == old(nome) && directed == old(directed) && weighted == old(weighted)
      ensures nvert == old(nvert) && nedges == old(nedges)
    {
      var vv := vVisit;
      var k := 0;
      while k < |st.vertices|
        invariant 0 <= k <= |st.vertices| && |vv| == |vVisit|
        invariant forall j :: 0 <= j < k ==> vv[st.vertices[j]] == NotSet
        modifies {}
      {
        vv := vv[st.vertices[k] := NotSet];
        k := k + 1;
      }
      forall u | 0 <= u < |vv| ensures vv[u] == NotSet {
        assert u in st.vertices;
      }
      vVisit := vv;
    }

    /** set_none_arestas: every edge mark becomes eNotSet, by way of the
        out-lists of all vertices. */
    method SetNoneArestas()
      requires Valid()
      modifies this
      ensures Valid()
      ensures |eVisit| == |old(eVisit)| && forall e :: 0 <= e < |eVisit| ==> eVisit[e] == NotSet
      ensures st == old(st) && vVisit == old(vVisit) && vIndex == old(vIndex)
      ensures vCovered == old(vCovered) && vLbl == old(vLbl) && eCovered == old(eCovered)
      ensures nome == old(nome) && directed == old(directed) && weighted == old(weighted)
      ensures nvert == old(nvert) && nedges == old(nedges)
    {
      var ev := eVisit;
      var k := 0;
      while k < |st.vertices|
        invariant 0 <= k <= |st.vertices| && |ev| == |eVisit|
        invariant forall e, j :: 0 <= e < |ev| && 0 <= j < k && st.orig[e] == st.vertices[j] ==> ev[e] == NotSet
        modifies {}
      {
        var v := st.vertices[k];
        var i := 0;
        while i < |st.outs[v]|
          invariant 0 <= i <= |st.outs[v]| && |ev| == |eVisit|
          invariant forall e, j :: 0 <= e < |ev| && 0 <= j < k && st.orig[e] == st.vertices[j] ==> ev[e] == NotSet
          invariant forall i' :: 0 <= i' < i ==> ev[st.outs[v][i']] == NotSet
          modifies {}
        {
          ev := ev[st.outs[v][i] := NotSet];
          i := i + 1;
        }
        forall e | 0 <= e < |ev| && st.orig[e] == v ensures ev[e] == NotSet {
          assert e in st.outs[v];
        }
        k := k + 1;
      }
      forall e | 0 <= e < |ev| ensures ev[e] == NotSet {
        assert st.orig[e] in st.vertices;
      }
      eVisit := ev;
    }
  }
}
