// Augmenting-path matching: get_path searches depth first for a path from a
// vertex to an uncovered, unmarked vertex; caminho_aumentante tries every
// uncovered start; xor flips the coverage along a path; emparelhamento_maximo
// repeats this until no path is found and copies the covered edges into a
// new graph. A path is a list of edge numbers, the edge at the start first.
module Matching {
  import opened Wrappers
  import opened Grafo
  import opened Lista

  /** Written on the way: every mark either stays or becomes `Visited`. */
  ghost predicate Marked(s: seq<State>, s': seq<State>)
  {
    |s'| == |s| && forall i :: 0 <= i < |s| ==> s'[i] == s[i] || s'[i] == Visited
  }

  /** Marking never makes more vertices unmarked. */
  lemma {:induction false} MarkedCount(s: seq<State>, s': seq<State>)
    requires Marked(s, s')
    ensures CountState(s', NotSet) <= CountState(s, NotSet)
  {
    if s != [] {
      assert s'[1..][0..] == s'[1..];
      assert forall i :: 0 <= i < |s| - 1 ==> s'[1..][i] == s'[i + 1] && s[1..][i] == s[i + 1];
      MarkedCount(s[1..], s'[1..]);
    }
  }

  /** `ws` is a walk through the out-lists and `es` the edges it takes:
      edge `es[k]` is in the out-list of `ws[k]` and leads to `ws[k + 1]`. */
  ghost predicate Chain(st: Shape, es: seq<nat>, ws: seq<nat>)
    requires WellFormed(st)
  {
    && |ws| == |es| + 1
    && (forall k :: 0 <= k < |ws| ==> ws[k] < |st.names|)
    && (forall k :: 0 <= k < |es| ==>
          es[k] < |st.orig| && es[k] in st.outs[ws[k]] && Other(st, es[k], ws[k]) == ws[k + 1])
  }

  ghost predicate Distinct(s: seq<nat>)
  {
    forall i, j :: 0 <= i < j < |s| ==> s[i] != s[j]
  }

  /** Marking twice is marking. */
  lemma MarkedTrans(s1: seq<State>, s2: seq<State>, s3: seq<State>)
    requires Marked(s1, s2) && Marked(s2, s3)
    ensures Marked(s1, s3)
  {
  }

  /** The two ends of an edge in the out-list of `w` are `w` and the far end. */
  lemma Ends(st: Shape, x: nat, w: nat)
    requires WellFormed(st) && w < |st.names| && x in st.outs[w]
    ensures x < |st.orig|
    ensures (st.orig[x] == w && st.dst[x] == Other(st, x, w)) || (st.dst[x] == w && st.orig[x] == Other(st, x, w))
  {
    var j :| 0 <= j < |st.outs[w]| && st.outs[w][j] == x;
  }

  /** What a successful search from `v` yields, against the marks `vv` on its
      entry: a chain `es` along distinct vertices `ws` from `v`, every vertex
      after `v` unmarked, ending at an uncovered unmarked vertex. */
  ghost predicate Augmenting(st: Shape, vv: seq<State>, cov: seq<bool>, v: nat, es: seq<nat>, ws: seq<nat>)
    requires WellFormed(st) && |vv| == |st.names| && |cov| == |st.names|
  {
    && Chain(st, es, ws) && ws[0] == v && Distinct(ws)
    && (forall k :: 0 < k < |ws| ==> vv[ws[k]] == NotSet)
    && vv[ws[|ws| - 1]] == NotSet && !cov[ws[|ws| - 1]]
  }

  /** Stepping from the marked vertex `v` along its out-edge `a` onto what a
      search from the far end yielded, under later marks `vv'`, is a
      successful search from `v`. */
  lemma ChainCons(st: Shape, vv: seq<State>, vv': seq<State>, cov: seq<bool>, v: nat, a: nat, es: seq<nat>, ws: seq<nat>)
    requires WellFormed(st) && v < |st.names| && |vv| == |st.names| && |cov| == |st.names|
    requires Marked(vv, vv') && vv'[v] != NotSet && a in st.outs[v]
    requires Augmenting(st, vv', cov, Other(st, a, v), es, ws) && vv'[ws[0]] == NotSet
    ensures Augmenting(st, vv, cov, v, [a] + es, [v] + ws)
  {
    assert v !in ws;
    Ends(st, a, v);
    var es2, ws2 := [a] + es, [v] + ws;
    forall k | 0 <= k < |es2|
      ensures es2[k] < |st.orig| && es2[k] in st.outs[ws2[k]] && Other(st, es2[k], ws2[k]) == ws2[k + 1]
    {
      if k > 0 {
        assert es2[k] == es[k - 1] && ws2[k] == ws[k - 1] && ws2[k + 1] == ws[k];
      }
    }
  }

  /** Marking `v` itself does not matter to a search from `v` that went further. */
  lemma Unmark(st: Shape, vv: seq<State>, cov: seq<bool>, v: nat, es: seq<nat>, ws: seq<nat>)
    requires WellFormed(st) && v < |st.names| && |vv| == |st.names| && |cov| == |st.names|
    requires Augmenting(st, vv[v := Visited], cov, v, es, ws) && |es| > 0
    ensures Augmenting(st, vv, cov, v, es, ws)
  {
    assert forall k :: 0 < k < |ws| ==> ws[k] != v;
  }

  /** Everything get_path and caminho_aumentante leave alone. */
  ghost function Rest(g: Graph): (Shape, seq<int>, seq<bool>, seq<seq<int>>, seq<State>, seq<bool>, string, bool, bool, nat, nat)
    reads g
  {
    (g.st, g.vIndex, g.vCovered, g.vLbl, g.eVisit, g.eCovered, g.nome, g.directed, g.weighted, g.nvert, g.nedges)
  }

  /** get_path: when `v` is uncovered and unmarked the search ends there;
      otherwise `v` is marked and its out-edges are searched (`Search`). On
      failure `path` is as it was; on success it has gained a chain of edges
      from `v` along distinct vertices, each but `v` unmarked on entry, to an
      uncovered vertex that was unmarked on entry. */
  method GetPath(g: Graph, v: nat, path: List<nat>) returns (b: bool, ghost es: seq<nat>, ghost ws: seq<nat>)
    requires g.Valid() && path.Valid() && v < |g.st.names|
    modifies g, path
    ensures g.Valid() && path.Valid() && Rest(g) == old(Rest(g))
    ensures Marked(old(g.vVisit), g.vVisit)
    ensures !b ==> path.Contents() == old(path.Contents())
    ensures b ==> && path.Contents() == es + old(path.Contents())
                  && Augmenting(g.st, old(g.vVisit), g.vCovered, v, es, ws)
                  && (|es| == 0 ==> old(g.vVisit[v]) == NotSet)
    decreases CountState(g.vVisit, NotSet), if g.vVisit[v] == NotSet then 0 else 1, 1
  {
    if !g.vCovered[v] && g.vVisit[v] == NotSet {
      return true, [], [v];
    }
    ghost var vv0 := g.vVisit;
    CountUpdate(g.vVisit, v, Visited, NotSet);
    g.vVisit := g.vVisit[v := Visited];
    b, es, ws := Search(g, v, path);
    if b {
      Unmark(g.st, vv0, g.vCovered, v, es, ws);
    }
  }

  /** The loop of get_path over the out-edges of the marked vertex `v`: each
      unmarked far end is searched in turn, and on the first success the edge
      leading to it goes to the front of `path`. */
  method Search(g: Graph, v: nat, path: List<nat>) returns (b: bool, ghost es: seq<nat>, ghost ws: seq<nat>)
    requires g.Valid() && path.Valid() && v < |g.st.names| && g.vVisit[v] == Visited
    modifies g, path
    ensures g.Valid() && path.Valid() && Rest(g) == old(Rest(g))
    ensures Marked(old(g.vVisit), g.vVisit)
    ensures !b ==> path.Contents() == old(path.Contents())
    ensures b ==> && path.Contents() == es + old(path.Contents()) && |es| > 0
                  && Augmenting(g.st, old(g.vVisit), g.vCovered, v, es, ws)
    decreases CountState(g.vVisit, NotSet), 0, 2
  {
    ghost var vv1 := g.vVisit;
    ghost var c0 := path.Contents();
    var k := 0;
    while k < |g.st.outs[v]|
      invariant g.Valid() && path.Valid() && Rest(g) == old(Rest(g))
      invariant 0 <= k <= |g.st.outs[v]|
      invariant Marked(vv1, g.vVisit) && g.vVisit[v] == Visited
      invariant path.Contents() == c0
    {
      var a := g.st.outs[v][k];
      var aux := if g.st.orig[a] == v then g.st.dst[a] else g.st.orig[a];
      if g.vVisit[aux] == NotSet {
        MarkedCount(vv1, g.vVisit);
        ghost var vv2 := g.vVisit;
        var found, es', ws' := GetPath(g, aux, path);
        if found {
          var _ := path.Insert(a);
          assert [a] + (es' + c0) == ([a] + es') + c0;
          ChainCons(g.st, vv1, vv2, g.vCovered, v, a, es', ws');
          MarkedTrans(vv1, vv2, g.vVisit);
          es, ws, b := [a] + es', [v] + ws', true;
          return;
        }
      }
      k := k + 1;
    }
    b, es, ws := false, [], [];
  }

  /** caminho_aumentante: for each vertex in vertex-list order that is unmarked
      and uncovered, mark it and search from it; the first path found is
      returned. It is a fresh, non-empty list of edges forming a chain along
      distinct vertices between two uncovered vertices, and the search has
      marked at least one more vertex. When no start succeeds every vertex mark
      is cleared and there is no path. */
  method CaminhoAumentante(g: Graph) returns (path: List?<nat>, ghost es: seq<nat>, ghost ws: seq<nat>)
    requires g.Valid()
    modifies g
    ensures g.Valid() && Rest(g) == old(Rest(g))
    ensures path != null ==> && fresh(path) && path.Valid() && path.Contents() == es && |es| > 0
                             && Chain(g.st, es, ws) && Distinct(ws)
                             && !g.vCovered[ws[0]] && !g.vCovered[ws[|ws| - 1]]
                             && Marked(old(g.vVisit), g.vVisit)
                             && CountState(g.vVisit, NotSet) < CountState(old(g.vVisit), NotSet)
    ensures path == null ==> forall u :: 0 <= u < |g.vVisit| ==> g.vVisit[u] == NotSet
  {
    var p := 0;
    while p < |g.st.vertices|
      invariant g.Valid() && Rest(g) == old(Rest(g)) && 0 <= p <= |g.st.vertices|
      invariant Marked(old(g.vVisit), g.vVisit)
    {
      var v := g.st.vertices[p];
      if g.vVisit[v] == NotSet && !g.vCovered[v] {
        path := new List<nat>();
        ghost var vv0 := g.vVisit;
        CountUpdate(g.vVisit, v, Visited, NotSet);
        g.vVisit := g.vVisit[v := Visited];
        ghost var vv1 := g.vVisit;
        var found;
        found, es, ws := GetPath(g, v, path);
        if found {
          MarkedTrans(vv0, vv1, g.vVisit);
          MarkedTrans(old(g.vVisit), vv0, g.vVisit);
          MarkedCount(vv1, g.vVisit);
          MarkedCount(old(g.vVisit), vv0);
          return;
        }
        MarkedTrans(vv0, vv1, g.vVisit);
        MarkedTrans(old(g.vVisit), vv0, g.vVisit);
        var _ := path.Destroy(None);
      }
      p := p + 1;
    }
    g.SetNoneVertexes();
    path, es, ws := null, [], [];
  }

  /** A chain along distinct vertices never takes the same edge twice: an edge
      has only two ends, and both belong to the one step that takes it. */
  lemma ChainEdgesDistinct(st: Shape, es: seq<nat>, ws: seq<nat>)
    requires WellFormed(st) && Chain(st, es, ws) && Distinct(ws)
    ensures Distinct(es)
  {
    forall i, j | 0 <= i < j < |es| ensures es[i] != es[j] {
      Ends(st, es[i], ws[i]);
      Ends(st, es[j], ws[j]);
      assert ws[j + 1] != ws[i] && ws[j + 1] != ws[i + 1];
    }
  }

  predicate Odd(n: nat)
  {
    n % 2 == 1
  }

  /** Some edge of `es` has `u` as an end. */
  ghost predicate Touches(st: Shape, es: seq<nat>, u: nat)
    requires Sized(st) && forall k :: 0 <= k < |es| ==> es[k] < |st.orig|
  {
    exists k :: 0 <= k < |es| && (st.orig[es[k]] == u || st.dst[es[k]] == u)
  }

  /** Each edge of a duplicate-free list occurs an odd number of times exactly
      when it occurs at all. */
  lemma {:induction false} OddOnce(es: seq<nat>)
    requires Distinct(es)
    ensures forall e :: Odd(multiset(es)[e]) <==> e in es
  {
    if es != [] {
      var t := es[..|es| - 1];
      assert es == t + [es[|es| - 1]];
      assert Distinct(t);
      OddOnce(t);
      assert es[|es| - 1] !in t;
    }
  }

  /** Touching grows one edge at a time. */
  lemma TouchesSnoc(st: Shape, c: seq<nat>, i: nat)
    requires Sized(st) && i < |c| && forall k :: 0 <= k < |c| ==> c[k] < |st.orig|
    ensures forall u :: Touches(st, c[..i + 1], u) ==
                        (Touches(st, c[..i], u) || st.orig[c[i]] == u || st.dst[c[i]] == u)
  {
    forall u ensures Touches(st, c[..i + 1], u) ==
                     (Touches(st, c[..i], u) || st.orig[c[i]] == u || st.dst[c[i]] == u)
    {
      if Touches(st, c[..i + 1], u) && !(st.orig[c[i]] == u || st.dst[c[i]] == u) {
        var k :| 0 <= k < i + 1 && (st.orig[c[..i + 1][k]] == u || st.dst[c[..i + 1][k]] == u);
        assert k < i && c[..i + 1][k] == c[..i][k];
      }
      if Touches(st, c[..i], u) {
        var k :| 0 <= k < i && (st.orig[c[..i][k]] == u || st.dst[c[..i][k]] == u);
        assert c[..i + 1][k] == c[..i][k];
      }
      if st.orig[c[i]] == u || st.dst[c[i]] == u {
        assert c[..i + 1][i] == c[i];
      }
    }
  }

  /** Negating the flag of the next edge of `c` keeps every flag equal to its
      first value negated once per occurrence so far. */
  lemma FlipSnoc(cov0: seq<bool>, cov: seq<bool>, c: seq<nat>, i: nat)
    requires |cov| == |cov0| && i < |c| && c[i] < |cov|
    requires forall e :: 0 <= e < |cov| ==> cov[e] == (cov0[e] != Odd(multiset(c[..i])[e]))
    ensures forall e :: 0 <= e < |cov| ==>
              cov[c[i] := !cov[c[i]]][e] == (cov0[e] != Odd(multiset(c[..i + 1])[e]))
  {
    assert c[..i + 1] == c[..i] + [c[i]];
    assert forall e :: multiset(c[..i + 1])[e] == multiset(c[..i])[e] + (if e == c[i] then 1 else 0);
  }

  /** The walk of xor over the path's edges, on the marks as values: each
      edge's a_covered is negated and both its ends become covered. An edge
      listed an odd number of times ends up flipped; a vertex ends up covered
      iff it was before or the path touches it. */
  method XorMarks(path: List<nat>, st: Shape, ec0: seq<bool>, vc0: seq<bool>)
    returns (ec: seq<bool>, vc: seq<bool>)
    requires path.Valid() && Sized(st) && Endpoints(st)
    requires |ec0| == |st.orig| && |vc0| == |st.names|
    requires forall k :: 0 <= k < |path.Contents()| ==> path.Contents()[k] < |st.orig|
    ensures |ec| == |ec0| && |vc| == |vc0|
    ensures forall e :: 0 <= e < |ec| ==> ec[e] == (ec0[e] != Odd(multiset(path.Contents())[e]))
    ensures forall u :: 0 <= u < |vc| ==> vc[u] == (vc0[u] || Touches(st, path.Contents(), u))
  {
    ghost var c := path.Contents();
    ec, vc := ec0, vc0;
    var n := path.First();
    ghost var i := 0;
    while n != null
      invariant 0 <= i <= |c| && n == (if i < |path.nodes| then path.nodes[i] else null)
      invariant |ec| == |ec0| && |vc| == |vc0|
      invariant forall e :: 0 <= e < |ec| ==> ec[e] == (ec0[e] != Odd(multiset(c[..i])[e]))
      invariant forall u :: 0 <= u < |vc| ==> vc[u] == (vc0[u] || Touches(st, c[..i], u))
      decreases |c| - i
    {
      var edge := n.conteudo;
      assert edge == c[i];
      TouchesSnoc(st, c, i);
      FlipSnoc(ec0, ec, c, i);
      ec, vc := ec[edge := !ec[edge]], vc[st.orig[edge] := true][st.dst[edge] := true];
      n := path.Next(n);
      i := i + 1;
    }
    assert c[..i] == c;
  }

  /** Everything xor leaves alone. */
  ghost function XorRest(g: Graph): (Shape, seq<State>, seq<int>, seq<seq<int>>, seq<State>, string, bool, bool, nat, nat)
    reads g
  {
    (g.st, g.vVisit, g.vIndex, g.vLbl, g.eVisit, g.nome, g.directed, g.weighted, g.nvert, g.nedges)
  }

  /** xor: the walk applied to the graph's covered marks; nothing else changes. */
  method Xor(g: Graph, path: List<nat>)
    requires g.Valid() && path.Valid()
    requires forall k :: 0 <= k < |path.Contents()| ==> path.Contents()[k] < |g.st.orig|
    modifies g
    ensures g.Valid() && XorRest(g) == old(XorRest(g))
    ensures |g.eCovered| == |old(g.eCovered)| && |g.vCovered| == |old(g.vCovered)|
    ensures forall e :: 0 <= e < |g.eCovered| ==>
              g.eCovered[e] == (old(g.eCovered[e]) != Odd(multiset(path.Contents())[e]))
    ensures forall u :: 0 <= u < |g.vCovered| ==>
              g.vCovered[u] == (old(g.vCovered[u]) || Touches(g.st, path.Contents(), u))
  {
    var ec, vc := XorMarks(path, g.st, g.eCovered, g.vCovered);
    g.SetCovered(ec, vc);
  }

  /** What emparelhamento_maximo's first loop leaves alone. */
  ghost function Kept(g: Graph): (Shape, seq<int>, seq<seq<int>>, seq<State>, string, bool, bool, nat, nat)
    reads g
  {
    (g.st, g.vIndex, g.vLbl, g.eVisit, g.nome, g.directed, g.weighted, g.nvert, g.nedges)
  }

  /** The first loop of emparelhamento_maximo: while caminho_aumentante finds a
      path, xor it. Every pass marks at least one more vertex, so the loop
      ends, and it ends with every vertex mark cleared. Each pass flips
      exactly the edges of its path, and no vertex becomes uncovered. */
  method Augment(g: Graph)
    requires g.Valid()
    modifies g
    ensures g.Valid() && Kept(g) == old(Kept(g))
    ensures |g.eCovered| == |old(g.eCovered)| && |g.vCovered| == |old(g.vCovered)|
    ensures forall u :: 0 <= u < |g.vVisit| ==> g.vVisit[u] == NotSet
    ensures forall u :: 0 <= u < |g.vCovered| && old(g.vCovered[u]) ==> g.vCovered[u]
  {
    var path, es, ws := CaminhoAumentante(g);
    while path != null
      invariant g.Valid() && Kept(g) == old(Kept(g))
      invariant |g.eCovered| == |old(g.eCovered)| && |g.vCovered| == |old(g.vCovered)|
      invariant forall u :: 0 <= u < |g.vCovered| && old(g.vCovered[u]) ==> g.vCovered[u]
      invariant path != null ==> && fresh(path) && path.Valid()
                                 && forall k :: 0 <= k < |path.Contents()| ==> path.Contents()[k] < |g.st.orig|
      invariant path == null ==> forall u :: 0 <= u < |g.vVisit| ==> g.vVisit[u] == NotSet
      decreases if path != null then CountState(g.vVisit, NotSet) + 1 else 0
    {
      Xor(g, path);
      var _ := path.Destroy(None);
      path, es, ws := CaminhoAumentante(g);
    }
  }

  /** An augmenting step flips the coverage of exactly the edges of its chain. */
  lemma Flipped(st: Shape, es: seq<nat>, ws: seq<nat>, cov: seq<bool>, cov': seq<bool>)
    requires WellFormed(st) && Chain(st, es, ws) && Distinct(ws) && |cov'| == |cov|
    requires forall e :: 0 <= e < |cov'| ==> cov'[e] == (cov[e] != Odd(multiset(es)[e]))
    ensures forall e :: 0 <= e < |cov'| ==> cov'[e] == (cov[e] != (e in es))
  {
    ChainEdgesDistinct(st, es, ws);
    OddOnce(es);
  }

  /** The names of the vertices of `st` in vertex-list order: the names
      emparelhamento_maximo gives the vertices of its result, one per
      insert_vertex. */
  ghost function Copied(st: Shape): (r: seq<string>)
    requires Sized(st) && VertexList(st)
    ensures |r| == |st.vertices|
  {
    seq(|st.vertices|, k requires 0 <= k < |st.vertices| => st.names[st.vertices[k]])
  }

  ghost predicate Unique(ns: seq<string>)
  {
    forall i, j :: 0 <= i < |ns| && 0 <= j < |ns| && ns[i] == ns[j] ==> i == j
  }

  /** Every vertex's name is copied, and distinct names stay distinct. */
  lemma CopiedNames(st: Shape)
    requires WellFormed(st)
    ensures forall u :: 0 <= u < |st.names| ==> st.names[u] in Copied(st)
    ensures Unique(st.names) ==> Unique(Copied(st))
  {
    forall u | 0 <= u < |st.names| ensures st.names[u] in Copied(st) {
      assert u in st.vertices;
      var k :| 0 <= k < |st.vertices| && st.vertices[k] == u;
      assert Copied(st)[k] == st.names[u];
    }
  }

  /** `n` copies of `x`. */
  ghost function Repeat<T>(x: T, n: nat): (r: seq<T>)
    ensures |r| == n
  {
    if n == 0 then [] else Repeat(x, n - 1) + [x]
  }

  lemma {:induction false} RepeatAll<T>(x: T, n: nat)
    ensures forall i :: 0 <= i < n ==> Repeat(x, n)[i] == x
  {
    if n > 0 {
      RepeatAll(x, n - 1);
    }
  }

  /** `n - 1`, ..., `1`, `0`: the vertex list of a graph whose vertices were
      inserted in number order, each at the head. */
  ghost function Countdown(n: nat): (r: seq<nat>)
    ensures |r| == n
  {
    if n == 0 then [] else [n - 1] + Countdown(n - 1)
  }

  lemma {:induction false} CountdownAt(n: nat)
    ensures forall k :: 0 <= k < n ==> Countdown(n)[k] == n - 1 - k
  {
    if n > 0 {
      CountdownAt(n - 1);
    }
  }

  /** The marks, weights and in-lists of a graph built by insert_vertex and
      insert_edge: all cleared, zero and empty. */
  ghost predicate Blank(m: Graph)
    reads m
  {
    var n, e := |m.st.names|, |m.st.orig|;
    && m.vVisit == Repeat(NotSet, n) && m.vIndex == Repeat(0, n) && m.vCovered == Repeat(false, n)
    && m.vLbl == Repeat([], n) && m.st.ins == Repeat([], n)
    && m.eVisit == Repeat(NotSet, e) && m.eCovered == Repeat(false, e)
    && m.st.weight == Repeat(0, e) && m.st.weighted == Repeat(false, e)
  }

  /** The edges of `v`'s out-list, up to position `k`, that start at `v` and
      are covered: those emparelhamento_maximo copies while at `v`. */
  ghost function CoveredOut(st: Shape, cov: seq<bool>, v: nat, k: nat): (r: seq<nat>)
    requires WellFormed(st) && |cov| == |st.orig| && v < |st.names| && k <= |st.outs[v]|
    ensures forall i :: 0 <= i < |r| ==> r[i] < |st.orig| && st.orig[r[i]] == v && cov[r[i]]
  {
    if k == 0 then []
    else
      var a := st.outs[v][k - 1];
      CoveredOut(st, cov, v, k - 1) + (if st.orig[a] == v && cov[a] then [a] else [])
  }

  /** The edges emparelhamento_maximo copies, in order, after the first `p`
      vertices of the vertex list. */
  ghost function Matched(st: Shape, cov: seq<bool>, p: nat): (r: seq<nat>)
    requires WellFormed(st) && |cov| == |st.orig| && p <= |st.vertices|
    ensures forall i :: 0 <= i < |r| ==> r[i] < |st.orig| && cov[r[i]]
  {
    if p == 0 then []
    else
      var v := st.vertices[p - 1];
      Matched(st, cov, p - 1) + CoveredOut(st, cov, v, |st.outs[v]|)
  }

  /** Edge `i` of `m` joins the vertices named like the ends of edge `es[i]`
      of `st`, in the same direction. */
  ghost predicate EdgesNamed(m: Shape, st: Shape, es: seq<nat>)
    requires Sized(m) && WellFormed(st) && forall i :: 0 <= i < |es| ==> es[i] < |st.orig|
  {
    && |m.orig| == |es|
    && forall i :: 0 <= i < |es| ==>
         && m.orig[i] < |m.names| && m.dst[i] < |m.names|
         && m.names[m.orig[i]] == st.names[st.orig[es[i]]]
         && m.names[m.dst[i]] == st.names[st.dst[es[i]]]
  }

  /** No out-list lists an edge twice, as in a graph read from a file. */
  ghost predicate NoRepeats(st: Shape)
  {
    forall u, i, j :: 0 <= u < |st.outs| && 0 <= i < j < |st.outs[u]| ==> st.outs[u][i] != st.outs[u][j]
  }

  lemma CountAppend(a: seq<nat>, b: seq<nat>, e: nat)
    ensures multiset(a + b)[e] == multiset(a)[e] + multiset(b)[e]
  {
  }

  /** Growing a prefix of a list without repeats by one entry adds exactly
      that entry, which was not there before. */
  lemma PrefixSnoc(xs: seq<nat>, k: nat, x: nat)
    requires 0 < k <= |xs|
    ensures (x in xs[..k]) == (x in xs[..k - 1] || xs[k - 1] == x)
    ensures (forall i, j :: 0 <= i < j < |xs| ==> xs[i] != xs[j]) ==> xs[k - 1] !in xs[..k - 1]
  {
    assert xs[..k] == xs[..k - 1] + [xs[k - 1]];
  }

  lemma PrefixAll(xs: seq<nat>)
    ensures xs[..|xs|] == xs
  {
  }

  lemma {:induction false} CoveredOutCount(st: Shape, cov: seq<bool>, v: nat, k: nat, e: nat)
    requires WellFormed(st) && NoRepeats(st) && |cov| == |st.orig| && v < |st.names| && k <= |st.outs[v]|
    requires e < |st.orig|
    ensures multiset(CoveredOut(st, cov, v, k))[e] ==
            if cov[e] && st.orig[e] == v && e in st.outs[v][..k] then 1 else 0
  {
    if k > 0 {
      CoveredOutCount(st, cov, v, k - 1, e);
      var a := st.outs[v][k - 1];
      var prev: seq<nat> := CoveredOut(st, cov, v, k - 1);
      var last: seq<nat> := if st.orig[a] == v && cov[a] then [a] else [];
      CountAppend(prev, last, e);
      PrefixSnoc(st.outs[v], k, e);
    }
  }

  lemma {:induction false} MatchedCount(st: Shape, cov: seq<bool>, p: nat, e: nat)
    requires WellFormed(st) && NoRepeats(st) && |cov| == |st.orig| && p <= |st.vertices| && e < |st.orig|
    ensures multiset(Matched(st, cov, p))[e] == if cov[e] && st.orig[e] in st.vertices[..p] then 1 else 0
  {
    if p > 0 {
      MatchedCount(st, cov, p - 1, e);
      var v := st.vertices[p - 1];
      var prev: seq<nat> := Matched(st, cov, p - 1);
      var here: seq<nat> := CoveredOut(st, cov, v, |st.outs[v]|);
      assert Matched(st, cov, p) == prev + here;
      CountAppend(prev, here, e);
      assert multiset(here)[e] == if cov[e] && st.orig[e] == v then 1 else 0 by {
        CoveredOutCount(st, cov, v, |st.outs[v]|, e);
        PrefixAll(st.outs[v]);
        if st.orig[e] == v {
          assert e in st.outs[v];
        }
      }
      assert (st.orig[e] in st.vertices[..p]) == (st.orig[e] in st.vertices[..p - 1] || v == st.orig[e]) by {
        PrefixSnoc(st.vertices, p, st.orig[e]);
      }
      assert v !in st.vertices[..p - 1] by {
        PrefixSnoc(st.vertices, p, st.orig[e]);
      }
    } else {
      assert st.vertices[..p] == [];
    }
  }

  /** The result of emparelhamento_maximo gets every covered edge exactly once
      and no other edge: only the copy made at the edge's origin passes the
      `a_orig == v` test. */
  lemma PickedOnce(st: Shape, cov: seq<bool>)
    requires WellFormed(st) && NoRepeats(st) && |cov| == |st.orig|
    ensures forall e :: 0 <= e < |st.orig| ==>
              multiset(Matched(st, cov, |st.vertices|))[e] == if cov[e] then 1 else 0
  {
    forall e | 0 <= e < |st.orig|
      ensures multiset(Matched(st, cov, |st.vertices|))[e] == if cov[e] then 1 else 0
    {
      MatchedCount(st, cov, |st.vertices|, e);
      assert st.vertices[..|st.vertices|] == st.vertices;
    }
  }

  /** The vertex loop of emparelhamento_maximo: insert_vertex, into the empty
      graph `m`, of each vertex name of `g` in vertex-list order, so vertex `k`
      of `m` is named like the `k`-th listed vertex of `g`, and `m`'s own
      vertex list runs from the last inserted to the first. */
  method CopyVertices(g: Graph, m: Graph)
    requires Sized(g.st) && VertexList(g.st) && Unique(Copied(g.st)) && g != m
    requires m.Valid() && m.st == Shape([], [], [], [], [], [], [], []) && m.nvert == 0
    modifies m
    ensures m.Valid() && m.UniqueNames() && Blank(m)
    ensures m.st.names == Copied(g.st) && m.st.orig == []
    ensures m.st.vertices == Countdown(|g.st.vertices|)
    ensures m.nvert == |g.st.vertices| && m.nedges == old(m.nedges)
    ensures m.nome == old(m.nome) && m.directed == old(m.directed) && m.weighted == old(m.weighted)
  {
    ghost var cs := Copied(g.st);
    var p := 0;
    while p < |g.st.vertices|
      invariant 0 <= p <= |g.st.vertices|
      invariant m.Valid() && Blank(m) && Unique(m.st.names)
      invariant m.st.names == cs[..p] && m.st.orig == []
      invariant m.st.vertices == Countdown(p)
      invariant m.nvert == p && m.nedges == old(m.nedges)
      invariant m.nome == old(m.nome) && m.directed == old(m.directed) && m.weighted == old(m.weighted)
    {
      var name := g.st.names[g.st.vertices[p]];
      assert name == cs[p];
      assert name !in m.st.names;
      InsertOrder(cs, p);
      m.InsertVertex(name);
      p := p + 1;
    }
    assert cs[..p] == cs;
  }

  /** A list without repeats grows one entry at a time. */
  lemma InsertOrder(ns: seq<string>, p: nat)
    requires p < |ns|
    ensures ns[..p + 1] == ns[..p] + [ns[p]]
  {
  }

  /** Inserting an edge between the vertices named like the ends of edge `a`
      extends the correspondence by `a`. */
  lemma NamedSnoc(m: Shape, m': Shape, st: Shape, es: seq<nat>, a: nat)
    requires Sized(m) && Sized(m') && WellFormed(st) && a < |st.orig|
    requires (forall i :: 0 <= i < |es| ==> es[i] < |st.orig|) && EdgesNamed(m, st, es)
    requires m'.names == m.names && |m'.orig| == |m.orig| + 1 && m'.orig[..|m.orig|] == m.orig
    requires m'.dst[..|m.dst|] == m.dst
    requires m'.orig[|m.orig|] < |m.names| && m.names[m'.orig[|m.orig|]] == st.names[st.orig[a]]
    requires m'.dst[|m.orig|] < |m.names| && m.names[m'.dst[|m.orig|]] == st.names[st.dst[a]]
    ensures EdgesNamed(m', st, es + [a])
  {
    forall i | 0 <= i < |es| ensures m'.orig[i] == m.orig[i] && m'.dst[i] == m.dst[i] {
      assert m'.orig[..|m.orig|][i] == m'.orig[i];
      assert m'.dst[..|m.dst|][i] == m'.dst[i];
    }
  }

  /** A graph under construction: consistent, uniquely named, all blank. */
  ghost predicate Built(m: Graph)
    reads m
  {
    m.Valid() && m.UniqueNames() && Blank(m)
  }

  /** What copying edges leaves alone. */
  ghost function Header(m: Graph): (seq<string>, seq<nat>, nat, string, bool, bool)
    reads m
  {
    (m.st.names, m.st.vertices, m.nedges, m.nome, m.directed, m.weighted)
  }

  /** One insert_edge of emparelhamento_maximo: the edge `a` of `g` is copied
      into `m` by the names of its ends. */
  method CopyEdge(g: Graph, m: Graph, a: nat, ghost es: seq<nat>)
    requires g.Valid() && g.UniqueNames() && g != m && a < |g.st.orig|
    requires Built(m) && m.st.names == Copied(g.st)
    requires (forall i :: 0 <= i < |es| ==> es[i] < |g.st.orig|) && EdgesNamed(m.st, g.st, es)
    modifies m
    ensures Built(m)
    ensures Header(m) == old(Header(m))
    ensures EdgesNamed(m.st, g.st, es + [a])
    ensures m.nvert == old(m.nvert) + 1
  {
    CopiedNames(g.st);
    var tail, head := g.st.names[g.st.orig[a]], g.st.names[g.st.dst[a]];
    assert tail != head;
    ghost var m0 := m.st;
    m.InsertEdge(tail, head);
    NamedSnoc(m0, m.st, g.st, es, a);
  }

  /** The inner edge loop of emparelhamento_maximo at vertex `v`: each edge of
      `v`'s out-list that starts at `v` and is covered is inserted into `m`
      with insert_edge, by the names of its ends. */
  method CopyOut(g: Graph, m: Graph, v: nat, ghost es0: seq<nat>)
    requires g.Valid() && g.UniqueNames() && g != m && v < |g.st.names|
    requires Built(m) && m.st.names == Copied(g.st)
    requires (forall i :: 0 <= i < |es0| ==> es0[i] < |g.st.orig|) && EdgesNamed(m.st, g.st, es0)
    modifies m
    ensures Built(m)
    ensures Header(m) == old(Header(m))
    ensures EdgesNamed(m.st, g.st, es0 + CoveredOut(g.st, g.eCovered, v, |g.st.outs[v]|))
    ensures m.nvert == old(m.nvert) + |CoveredOut(g.st, g.eCovered, v, |g.st.outs[v]|)|
  {
    var k := 0;
    while k < |g.st.outs[v]|
      invariant 0 <= k <= |g.st.outs[v]|
      invariant Built(m)
      invariant Header(m) == old(Header(m))
      invariant EdgesNamed(m.st, g.st, es0 + CoveredOut(g.st, g.eCovered, v, k))
      invariant m.nvert == old(m.nvert) + |CoveredOut(g.st, g.eCovered, v, k)|
    {
      var a := g.st.outs[v][k];
      ghost var done := CoveredOut(g.st, g.eCovered, v, k);
      if g.st.orig[a] == v && g.eCovered[a] {
        CopyEdge(g, m, a, es0 + done);
        assert es0 + CoveredOut(g.st, g.eCovered, v, k + 1) == (es0 + done) + [a];
      } else {
        assert CoveredOut(g.st, g.eCovered, v, k + 1) == done;
      }
      k := k + 1;
    }
  }

  /** The edge loop of emparelhamento_maximo: the vertices of `g` in
      vertex-list order, and at each the edges `CopyOut` copies. */
  method CopyEdges(g: Graph, m: Graph)
    requires g.Valid() && g.UniqueNames() && g != m
    requires Built(m) && m.st.names == Copied(g.st) && m.st.orig == []
    modifies m
    ensures Built(m)
    ensures Header(m) == old(Header(m))
    ensures EdgesNamed(m.st, g.st, Matched(g.st, g.eCovered, |g.st.vertices|))
    ensures m.nvert == old(m.nvert) + |Matched(g.st, g.eCovered, |g.st.vertices|)|
  {
    var p := 0;
    while p < |g.st.vertices|
      invariant 0 <= p <= |g.st.vertices|
      invariant Built(m)
      invariant Header(m) == old(Header(m))
      invariant EdgesNamed(m.st, g.st, Matched(g.st, g.eCovered, p))
      invariant m.nvert == old(m.nvert) + |Matched(g.st, g.eCovered, p)|
    {
      CopyOut(g, m, g.st.vertices[p], Matched(g.st, g.eCovered, p));
      p := p + 1;
    }
  }

  /** emparelhamento_maximo: augment until no path is found, then build a new
      graph with g's name, one vertex per vertex of `g` carrying its name, and
      one edge, between the vertices of the same names, for each covered edge
      of `g` as its origin's out-list turns it up (`PickedOnce`: each covered
      edge exactly once). `g` keeps its structure; its vertex marks end
      cleared and no vertex of it becomes uncovered. */
  method EmparelhamentoMaximo(g: Graph) returns (empar: Graph)
    requires g.Valid() && g.UniqueNames()
    modifies g
    ensures g.Valid() && Kept(g) == old(Kept(g))
    ensures |g.eCovered| == |old(g.eCovered)| && |g.vCovered| == |old(g.vCovered)|
    ensures forall u :: 0 <= u < |g.vVisit| ==> g.vVisit[u] == NotSet
    ensures forall u :: 0 <= u < |g.vCovered| && old(g.vCovered[u]) ==> g.vCovered[u]
    ensures fresh(empar) && empar.Valid() && empar.UniqueNames() && Blank(empar)
    ensures empar.nome == g.nome && !empar.directed && !empar.weighted
    ensures empar.st.names == Copied(g.st) && empar.st.vertices == Countdown(|g.st.vertices|)
    ensures EdgesNamed(empar.st, g.st, Matched(g.st, g.eCovered, |g.st.vertices|))
    ensures empar.nvert == |g.st.vertices| + |Matched(g.st, g.eCovered, |g.st.vertices|)| && empar.nedges == 0
  {
    Augment(g);
    empar := new Graph(g.nome);
    CopiedNames(g.st);
    CopyVertices(g, empar);
    CopyEdges(g, empar);
  }
}
