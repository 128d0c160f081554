// Lexicographic breadth-first search (busca_largura_lexicografica): vertices
// are popped from the label heap, prepended to the output list and their
// unfinished neighbours labelled and pushed. Labels are written one slot past
// their first 0, so with the zeroed labels of a graph read from a file every
// label keeps a 0 in front and all labels compare as equal.
module LexBfs {
  import opened Labels
  import opened Heap
  import opened Lista
  import opened Grafo
  import opened Wrappers

  /** Labels as a graph read from a file has them: one label of `n` entries per
      vertex, whose first entry is 0. */
  ghost predicate FreshLabels(lbl: seq<seq<int>>, n: nat)
  {
    forall u :: 0 <= u < |lbl| ==> |lbl[u]| == n && n > 0 && lbl[u][0] == 0
  }

  /** Such labels are all terminated, so any vertices can sit in the heap. */
  lemma FreshLabelled(s: seq<nat>, lbl: seq<seq<int>>, n: nat)
    requires FreshLabels(lbl, n) && forall x :: x in multiset(s) ==> x < |lbl|
    ensures Labelled(s, lbl) && AllTied(s, lbl)
  {
    forall k | 0 <= k < |s| ensures s[k] < |lbl| && Terminated(lbl[s[k]]) {
      assert s[k] in multiset(s);
      assert lbl[s[k]][0] == 0;
    }
    forall i, j | 0 <= i < |s| && 0 <= j < |s| ensures !Greater(lbl[s[i]], lbl[s[j]]) {
      ZeroHeadTie(lbl[s[i]], lbl[s[j]]);
    }
  }

  /** The label append writes one slot past the first 0; a label whose first
      entry is 0 keeps it, and still compares equal to every such label. */
  lemma AppendKeepsTie(x: seq<int>, y: seq<int>, rank: int)
    requires |x| >= 2 && x[0] == 0 && Head(y) == 0
    ensures FirstZero(x) == 0 && Head(x[FirstZero(x) + 1 := rank]) == 0
    ensures SameKey(x[FirstZero(x) + 1 := rank], y) && !Greater(x[FirstZero(x) + 1 := rank], y)
  {
    ZeroHeadTie(x[1 := rank], y);
  }

  /** The fields of the graph the search never writes. */
  ghost function Kept(g: Graph): (Shape, seq<int>, seq<bool>, seq<bool>, string, bool, bool, nat, nat)
    reads g
  {
    (g.st, g.vIndex, g.vCovered, g.eCovered, g.nome, g.directed, g.weighted, g.nvert, g.nedges)
  }

  /** The append of busca_largura_lexicografica: skip to the first 0 of the
      label of `u` and write `rank` in the slot after it. */
  method AppendLabel(g: Graph, u: nat, rank: int)
    requires g.Valid() && u < |g.vLbl| && Terminated(g.vLbl[u])
    requires FirstZero(g.vLbl[u]) + 1 < |g.vLbl[u]|
    modifies g
    ensures g.vLbl == old(g.vLbl)[u := old(g.vLbl[u])[FirstZero(old(g.vLbl[u])) + 1 := rank]]
    ensures g.Valid() && g.vVisit == old(g.vVisit) && g.eVisit == old(g.eVisit)
    ensures Kept(g) == old(Kept(g))
  {
    var lbl := g.vLbl[u];
    ghost var z := FirstZero(lbl);
    var i := 0;
    while lbl[i] != 0
      invariant i <= z
      decreases |lbl| - i
    {
      i := i + 1;
    }
    i := i + 1;
    g.vLbl := g.vLbl[u := lbl[i := rank]];
  }

  /** Seen edges have no unmarked endpoint, and every vertex in the output
      other than `busy` has all of its out-edges seen. */
  ghost predicate Explored(st: Shape, vv: seq<State>, ev: seq<State>, busy: int, done: nat)
    requires WellFormed(st) && |vv| == |st.names| && |ev| == |st.orig|
  {
    && (forall e :: 0 <= e < |ev| ==> ev[e] != Inserted)
    && (forall e :: 0 <= e < |ev| && ev[e] == Visited ==>
          vv[st.orig[e]] != NotSet && vv[st.dst[e]] != NotSet)
    && (forall u, k ::
          0 <= u < |vv| && vv[u] == Inserted && 0 <= k < |st.outs[u]| && (u == busy ==> k < done) ==>
          ev[st.outs[u][k]] == Visited)
  }

  /** Once all out-edges of `busy` are seen, no vertex is busy. */
  lemma ExploredDone(st: Shape, vv: seq<State>, ev: seq<State>, v: nat)
    requires WellFormed(st) && |vv| == |st.names| && |ev| == |st.orig| && v < |vv|
    requires Explored(st, vv, ev, v, |st.outs[v]|)
    ensures Explored(st, vv, ev, -1, 0)
  {
  }

  /** The heap holds, once each, vertices marked visited, or the start vertex
      `s` before it is first popped. */
  ghost predicate Pending(h: multiset<nat>, vv: seq<State>, s: nat, started: bool)
  {
    && (forall x :: x in h ==> x < |vv| && (vv[x] == Visited || (!started && x == s)))
    && (forall x :: h[x] <= 1)
  }

  /** The labels, and the heap `h` (of capacity `elem`) against the vertex
      marks: the heap's size is the number of visited vertices, plus the start
      vertex while it waits to be popped. */
  ghost predicate Bookkept(st: Shape, vv: seq<State>, lbl: seq<seq<int>>, h: seq<nat>, elem: nat,
                           s: nat, started: bool)
  {
    && |vv| == |st.names| && elem == |st.names|
    && FreshLabels(lbl, |st.names|) && Labelled(h, lbl)
    && Pending(multiset(h), vv, s, started)
    && |h| == CountState(vv, Visited) + (if started then 0 else 1)
  }

  /** The output list `c` (head first) against the vertex marks. */
  ghost predicate Output(c: seq<nat>, vv: seq<State>, s: nat, started: bool)
  {
    && (forall i :: 0 <= i < |c| ==> c[i] < |vv|)
    && (forall i, j :: 0 <= i < j < |c| ==> c[i] != c[j])
    && (forall u :: 0 <= u < |vv| ==> (u in c <==> vv[u] == Inserted))
    && (started <==> |c| > 0)
    && (started ==> c[|c| - 1] == s)
  }

  /** `vv'` marks as inserted the same vertices as `vv`. */
  ghost predicate SameInserted(vv: seq<State>, vv': seq<State>)
  {
    && |vv'| == |vv|
    && (forall u :: 0 <= u < |vv| ==> (vv'[u] == Inserted <==> vv[u] == Inserted))
    && CountState(vv', Inserted) == CountState(vv, Inserted)
  }

  /** Every marked vertex is reachable from the start vertex `s`. */
  ghost predicate Reached(st: Shape, vv: seq<State>, s: nat)
    requires WellFormed(st)
  {
    forall u {:trigger Reachable(st, s, u)} :: 0 <= u < |vv| && vv[u] != NotSet ==> Reachable(st, s, u)
  }

  /** Marking a vertex reachable from `s` keeps every marked vertex reachable. */
  lemma ReachedMark(st: Shape, vv: seq<State>, s: nat, x: nat, m: State)
    requires WellFormed(st) && Reached(st, vv, s) && x < |vv| && Reachable(st, s, x)
    ensures Reached(st, vv[x := m], s)
  {
  }

  /** Marking the far end of an out-edge of a marked vertex keeps every
      marked vertex reachable. */
  lemma ReachedFarEnd(st: Shape, vv: seq<State>, vv': seq<State>, s: nat, v: nat, i: nat)
    requires WellFormed(st) && |vv| == |st.names| && Reached(st, vv, s)
    requires v < |vv| && vv[v] != NotSet && i < |st.outs[v]|
    requires vv' == vv || vv' == vv[Other(st, st.outs[v][i], v) := Visited]
    ensures Reached(st, vv', s)
  {
    var aux := Other(st, st.outs[v][i], v);
    assert Step(st, v, aux);
    ReachableStep(st, s, v, aux);
    ReachedMark(st, vv, s, aux, Visited);
  }

  /** Appending to one label keeps the labels fresh. */
  lemma FreshAppend(lbl: seq<seq<int>>, n: nat, u: nat, rank: int)
    requires FreshLabels(lbl, n) && u < |lbl| && n >= 2
    ensures Terminated(lbl[u]) && FirstZero(lbl[u]) + 1 < |lbl[u]|
    ensures FreshLabels(lbl[u := lbl[u][FirstZero(lbl[u]) + 1 := rank]], n)
  {
    assert lbl[u][0] == 0;
  }

  /** Seeing edge `a` of the vertex `v` being explored, once its far end is
      marked, keeps the bookkeeping. */
  lemma ExploredEdge(st: Shape, vv: seq<State>, ev: seq<State>, vv': seq<State>, v: nat, i: nat, a: nat)
    requires WellFormed(st) && |vv| == |st.names| && |ev| == |st.orig| && |vv'| == |vv|
    requires Explored(st, vv, ev, v, i) && v < |vv| && vv[v] == Inserted && i < |st.outs[v]| && a == st.outs[v][i]
    requires vv'[Other(st, a, v)] != NotSet
    requires forall u :: 0 <= u < |vv| ==> (vv'[u] == Inserted <==> vv[u] == Inserted)
    requires forall u :: 0 <= u < |vv| && vv[u] != NotSet ==> vv'[u] != NotSet
    ensures Explored(st, vv', ev[a := Visited], v, i + 1)
  {
    var ev' := ev[a := Visited];
    forall e | 0 <= e < |ev'| && ev'[e] == Visited
      ensures vv'[st.orig[e]] != NotSet && vv'[st.dst[e]] != NotSet
    {
      if e != a {
        assert ev[e] == Visited;
      }
    }
  }

  /** Pushing an unmarked vertex and marking it visited keeps the heap's
      bookkeeping. */
  lemma BookkeptPush(st: Shape, vv: seq<State>, lbl: seq<seq<int>>, h: seq<nat>, h': seq<nat>,
                     elem: nat, s: nat, x: nat)
    requires Bookkept(st, vv, lbl, h, elem, s, true) && x < |vv| && vv[x] == NotSet
    requires multiset(h') == multiset(h) + multiset{x} && Labelled(h', lbl)
    ensures Bookkept(st, vv[x := Visited], lbl, h', elem, s, true)
  {
    assert x !in multiset(h);
    CountUpdate(vv, x, Visited, Visited);
  }

  /** Appending the current rank to the label of `aux` keeps the search's
      bookkeeping. */
  method LabelFarEnd(g: Graph, heap: LabelHeap, aux: nat, cur: int, ghost s: nat)
    requires g.Valid() && heap.Valid() && aux < |g.st.names| && |g.st.names| >= 2
    requires Bookkept(g.st, g.vVisit, g.vLbl, heap.Contents(), heap.elem, s, true)
    modifies g
    ensures g.Valid() && Kept(g) == old(Kept(g))
    ensures Bookkept(g.st, g.vVisit, g.vLbl, heap.Contents(), heap.elem, s, true)
    ensures g.vVisit == old(g.vVisit) && g.eVisit == old(g.eVisit)
  {
    FreshAppend(g.vLbl, |g.st.names|, aux, cur);
    AppendLabel(g, aux, cur);
    FreshLabelled(heap.Contents(), g.vLbl, |g.st.names|);
  }

  /** Pushing the unmarked vertex `aux` and marking it visited keeps the
      search's bookkeeping; the heap is never full at that point. */
  method PushFarEnd(g: Graph, heap: LabelHeap, aux: nat, ghost s: nat)
    requires g.Valid() && heap.Valid() && aux < |g.st.names| && g.vVisit[aux] == NotSet
    requires Bookkept(g.st, g.vVisit, g.vLbl, heap.Contents(), heap.elem, s, true)
    modifies g, heap, heap.v
    ensures g.Valid() && heap.Valid() && Kept(g) == old(Kept(g))
    ensures Bookkept(g.st, g.vVisit, g.vLbl, heap.Contents(), heap.elem, s, true)
    ensures g.vVisit == old(g.vVisit)[aux := Visited]
    ensures g.eVisit == old(g.eVisit) && g.vLbl == old(g.vLbl)
    ensures CountState(g.vVisit, Inserted) == old(CountState(g.vVisit, Inserted))
  {
    CountBelow(g.vVisit, aux, Visited);
    assert heap.pos < heap.elem;
    ghost var h := heap.Contents();
    heap.Push(g.vLbl, aux);
    BookkeptPush(g.st, g.vVisit, g.vLbl, h, heap.Contents(), heap.elem, s, aux);
    CountUpdate(g.vVisit, aux, Visited, Inserted);
    g.MarkVertex(aux, Visited);
  }

  /** The far end `aux` of an unseen edge: it gets the current rank appended
      to its label unless it is in the output, and is pushed and marked
      visited if it was unmarked. */
  method SeeFarEnd(g: Graph, heap: LabelHeap, aux: nat, cur: int, ghost s: nat)
    requires g.Valid() && heap.Valid() && aux < |g.st.names| && |g.st.names| >= 2
    requires Bookkept(g.st, g.vVisit, g.vLbl, heap.Contents(), heap.elem, s, true)
    modifies g, heap, heap.v
    ensures g.Valid() && heap.Valid() && Kept(g) == old(Kept(g)) && g.eVisit == old(g.eVisit)
    ensures Bookkept(g.st, g.vVisit, g.vLbl, heap.Contents(), heap.elem, s, true)
    ensures g.vVisit == if old(g.vVisit[aux]) == NotSet then old(g.vVisit)[aux := Visited] else old(g.vVisit)
    ensures g.vVisit[aux] != NotSet && SameInserted(old(g.vVisit), g.vVisit)
    ensures forall u :: 0 <= u < |g.vVisit| && old(g.vVisit[u]) != NotSet ==> g.vVisit[u] != NotSet
  {
    if g.vVisit[aux] != Inserted {
      LabelFarEnd(g, heap, aux, cur, s);
    }
    if g.vVisit[aux] == NotSet {
      PushFarEnd(g, heap, aux, s);
    }
  }

  /** One out-edge `a` of `v`: when not yet seen, its far end is handled by
      SeeFarEnd; then the edge is marked seen. */
  method VisitEdge(g: Graph, heap: LabelHeap, v: nat, i: nat, cur: int, ghost s: nat)
    requires g.Valid() && heap.Valid() && v < |g.st.names| && g.vVisit[v] == Inserted
    requires i < |g.st.outs[v]|
    requires Bookkept(g.st, g.vVisit, g.vLbl, heap.Contents(), heap.elem, s, true)
    requires Explored(g.st, g.vVisit, g.eVisit, v, i) && Reached(g.st, g.vVisit, s)
    modifies g, heap, heap.v
    ensures g.Valid() && heap.Valid() && Kept(g) == old(Kept(g))
    ensures Bookkept(g.st, g.vVisit, g.vLbl, heap.Contents(), heap.elem, s, true)
    ensures Explored(g.st, g.vVisit, g.eVisit, v, i + 1) && Reached(g.st, g.vVisit, s)
    ensures SameInserted(old(g.vVisit), g.vVisit)
  {
    var a := g.st.outs[v][i];
    if g.eVisit[a] == NotSet {
      ghost var vv := g.vVisit;
      ghost var ev := g.eVisit;
      var aux := Other(g.st, a, v);
      assert aux != v && aux < |g.st.names|;
      SeeFarEnd(g, heap, aux, cur, s);
      ReachedFarEnd(g.st, vv, g.vVisit, s, v, i);
      ExploredEdge(g.st, vv, ev, g.vVisit, v, i, a);
      g.MarkEdge(a, Visited);
    } else {
      assert g.eVisit[a] == Visited;
    }
  }

  /** The inner loop of busca_largura_lexicografica over the out-edges of the
      vertex `v` just moved to the output. */
  method VisitNeighbours(g: Graph, heap: LabelHeap, v: nat, cur: int, ghost s: nat)
    requires g.Valid() && heap.Valid() && v < |g.st.names| && g.vVisit[v] == Inserted
    requires Bookkept(g.st, g.vVisit, g.vLbl, heap.Contents(), heap.elem, s, true)
    requires Explored(g.st, g.vVisit, g.eVisit, v, 0) && Reached(g.st, g.vVisit, s)
    modifies g, heap, heap.v
    ensures g.Valid() && heap.Valid() && Kept(g) == old(Kept(g))
    ensures Bookkept(g.st, g.vVisit, g.vLbl, heap.Contents(), heap.elem, s, true)
    ensures Explored(g.st, g.vVisit, g.eVisit, -1, 0) && Reached(g.st, g.vVisit, s)
    ensures SameInserted(old(g.vVisit), g.vVisit)
  {
    var i := 0;
    while i < |g.st.outs[v]|
      invariant g.Valid() && heap.Valid() && Kept(g) == old(Kept(g)) && 0 <= i <= |g.st.outs[v]|
      invariant g.vVisit[v] == Inserted
      invariant Bookkept(g.st, g.vVisit, g.vLbl, heap.Contents(), heap.elem, s, true)
      invariant Explored(g.st, g.vVisit, g.eVisit, v, i) && Reached(g.st, g.vVisit, s)
      invariant SameInserted(old(g.vVisit), g.vVisit)
    {
      VisitEdge(g, heap, v, i, cur, s);
      i := i + 1;
    }
    ExploredDone(g.st, g.vVisit, g.eVisit, v);
  }

  /** The state of the search between two pops. */
  ghost predicate Between(st: Shape, vv: seq<State>, ev: seq<State>, lbl: seq<seq<int>>, h: seq<nat>,
                          elem: nat, c: seq<nat>, s: nat, started: bool)
    requires WellFormed(st) && |vv| == |st.names| && |ev| == |st.orig|
  {
    && Bookkept(st, vv, lbl, h, elem, s, started)
    && Output(c, vv, s, started)
    && Explored(st, vv, ev, -1, 0)
    && Reached(st, vv, s)
    && (!started ==> (forall u :: 0 <= u < |vv| ==> vv[u] == NotSet) &&
                     (forall e :: 0 <= e < |ev| ==> ev[e] == NotSet))
  }

  /** The start of the search: the first vertex alone in the heap, nothing marked. */
  lemma BetweenStart(st: Shape, vv: seq<State>, ev: seq<State>, lbl: seq<seq<int>>, h: seq<nat>,
                     elem: nat, s: nat)
    requires WellFormed(st) && |vv| == |st.names| && |ev| == |st.orig| && elem == |st.names|
    requires forall u :: 0 <= u < |vv| ==> vv[u] == NotSet
    requires forall e :: 0 <= e < |ev| ==> ev[e] == NotSet
    requires FreshLabels(lbl, |st.names|) && multiset(h) == multiset{s} && s < |vv| && Labelled(h, lbl)
    ensures Between(st, vv, ev, lbl, h, elem, [], s, false)
  {
    CountNone(vv, Visited);
    assert |h| == |multiset(h)|;
  }

  /** A popped vertex was visited, or is the start vertex on the first pop. */
  lemma PoppedMark(vv: seq<State>, h: seq<nat>, h': seq<nat>, s: nat, started: bool, v: nat)
    requires Pending(multiset(h), vv, s, started)
    requires !started ==> forall u :: 0 <= u < |vv| ==> vv[u] == NotSet
    requires multiset(h') + multiset{v} == multiset(h)
    ensures v < |vv| && (if started then vv[v] == Visited else v == s && vv[v] == NotSet)
    ensures multiset(h')[v] == 0
  {
    assert v in multiset(h);
  }

  /** Moving the popped vertex to the output keeps the heap's bookkeeping. */
  lemma PoppedBookkept(st: Shape, vv: seq<State>, lbl: seq<seq<int>>, h: seq<nat>, h': seq<nat>,
                       elem: nat, s: nat, started: bool, v: nat)
    requires Bookkept(st, vv, lbl, h, elem, s, started)
    requires !started ==> forall u :: 0 <= u < |vv| ==> vv[u] == NotSet
    requires multiset(h') + multiset{v} == multiset(h) && Labelled(h', lbl)
    ensures v < |vv| && vv[v] != Inserted
    ensures Bookkept(st, vv[v := Inserted], lbl, h', elem, s, true)
  {
    PoppedMark(vv, h, h', s, started, v);
    var vv' := vv[v := Inserted];
    CountUpdate(vv, v, Inserted, Visited);
    assert |h'| + 1 == |h| by {
      assert |multiset(h')| + 1 == |multiset(h)|;
    }
    if !started {
      CountNone(vv, Visited);
    }
    forall x | x in multiset(h') ensures x < |vv'| && vv'[x] == Visited {
      assert x in multiset(h);
    }
    forall x ensures multiset(h')[x] <= 1 {
      assert multiset(h')[x] <= multiset(h)[x];
    }
  }

  /** Prepending the popped vertex keeps the output list in step with the marks. */
  lemma PoppedOutput(vv: seq<State>, c: seq<nat>, s: nat, started: bool, v: nat)
    requires Output(c, vv, s, started) && v < |vv| && vv[v] != Inserted
    requires !started ==> v == s
    ensures Output([v] + c, vv[v := Inserted], s, true)
    ensures CountState(vv[v := Inserted], Inserted) == CountState(vv, Inserted) + 1
  {
    CountUpdate(vv, v, Inserted, Inserted);
    var vv' := vv[v := Inserted];
    var c' := [v] + c;
    assert v !in c;
    forall u | 0 <= u < |vv'| ensures (u in c' <==> vv'[u] == Inserted) {
      assert u in c' <==> u == v || u in c;
    }
    forall i, j | 0 <= i < j < |c'| ensures c'[i] != c'[j] {
      if i == 0 {
        assert c'[j] in c;
      } else {
        assert c'[i] == c[i - 1] && c'[j] == c[j - 1];
      }
    }
  }

  /** A popped vertex is not yet in the output; moving it there sets up the
      exploration of its out-edges, and counts one more inserted vertex. */
  lemma Popped(st: Shape, vv: seq<State>, ev: seq<State>, lbl: seq<seq<int>>, h: seq<nat>, h': seq<nat>,
               elem: nat, c: seq<nat>, s: nat, started: bool, v: nat)
    requires WellFormed(st) && |vv| == |st.names| && |ev| == |st.orig|
    requires Between(st, vv, ev, lbl, h, elem, c, s, started)
    requires multiset(h') + multiset{v} == multiset(h) && Labelled(h', lbl)
    ensures v < |vv| && vv[v] != Inserted
    ensures Bookkept(st, vv[v := Inserted], lbl, h', elem, s, true)
    ensures Explored(st, vv[v := Inserted], ev, v, 0) && Reached(st, vv[v := Inserted], s)
    ensures Output([v] + c, vv[v := Inserted], s, true)
    ensures CountState(vv[v := Inserted], Inserted) == CountState(vv, Inserted) + 1
  {
    PoppedMark(vv, h, h', s, started, v);
    PoppedBookkept(st, vv, lbl, h, h', elem, s, started, v);
    PoppedOutput(vv, c, s, started, v);
    if !started {
      ReachableSelf(st, s);
    }
    ReachedMark(st, vv, s, v, Inserted);
  }

  /** After the out-edges are seen and the heap is permuted, the search is
      between two pops again. */
  lemma ExploredBetween(st: Shape, vv0: seq<State>, vv: seq<State>, ev: seq<State>, lbl: seq<seq<int>>,
                  h: seq<nat>, h': seq<nat>, elem: nat, c: seq<nat>, s: nat)
    requires WellFormed(st) && |vv| == |st.names| && |ev| == |st.orig|
    requires Bookkept(st, vv, lbl, h, elem, s, true) && Explored(st, vv, ev, -1, 0) && Reached(st, vv, s)
    requires Output(c, vv0, s, true) && SameInserted(vv0, vv)
    requires multiset(h') == multiset(h) && Labelled(h', lbl)
    ensures Between(st, vv, ev, lbl, h', elem, c, s, true)
  {
    assert |h'| == |multiset(h')|;
  }

  /** One round of the outer loop once the popped `v` is marked inserted: `v`
      joins the output and its out-edges are visited; then the heap is
      rebuilt for the new labels. */
  method Explore(g: Graph, heap: LabelHeap, perf: List<nat>, v: nat, cur: int, ghost s: nat)
    requires g.Valid() && heap.Valid() && perf.Valid() && v < |g.st.names| && g.vVisit[v] == Inserted
    requires Bookkept(g.st, g.vVisit, g.vLbl, heap.Contents(), heap.elem, s, true)
    requires Explored(g.st, g.vVisit, g.eVisit, v, 0) && Reached(g.st, g.vVisit, s)
    requires Output([v] + perf.Contents(), g.vVisit, s, true)
    modifies g, heap, heap.v, perf
    ensures g.Valid() && heap.Valid() && perf.Valid() && Kept(g) == old(Kept(g))
    ensures Between(g.st, g.vVisit, g.eVisit, g.vLbl, heap.Contents(), heap.elem, perf.Contents(), s, true)
    ensures CountState(g.vVisit, Inserted) == old(CountState(g.vVisit, Inserted))
  {
    ghost var vv0 := g.vVisit;
    VisitNeighbours(g, heap, v, cur, s);
    Rebuild(g, heap, vv0, [v] + perf.Contents(), s);
    // insere_lista: neither the edge loop nor heapify reads the output, so
    // the insertion can follow them.
    var _ := perf.Insert(v);
  }

  /** heapify after the out-edges of the vertex last moved to the output
      `c[0]` are seen: the search is between two pops again. */
  method Rebuild(g: Graph, heap: LabelHeap, ghost vv0: seq<State>, ghost c: seq<nat>, ghost s: nat)
    requires g.Valid() && heap.Valid()
    requires Bookkept(g.st, g.vVisit, g.vLbl, heap.Contents(), heap.elem, s, true)
    requires Explored(g.st, g.vVisit, g.eVisit, -1, 0) && Reached(g.st, g.vVisit, s)
    requires Output(c, vv0, s, true) && SameInserted(vv0, g.vVisit)
    modifies heap.v
    ensures heap.Valid()
    ensures Between(g.st, g.vVisit, g.eVisit, g.vLbl, heap.Contents(), heap.elem, c, s, true)
  {
    ghost var h1 := heap.Contents();
    FreshLabelled(h1, g.vLbl, |g.st.names|);
    heap.Heapify(g.vLbl);
    ExploredBetween(g.st, vv0, g.vVisit, g.eVisit, g.vLbl, h1, heap.Contents(), heap.elem, c, s);
  }

  /** One pass of the outer loop of busca_largura_lexicografica: pop the
      vertex of greatest label; when the heap was empty the search is over,
      otherwise the popped vertex joins the output with rank `cur`. */
  method Round(g: Graph, heap: LabelHeap, perf: List<nat>, cur: int, ghost s: nat, ghost started: bool)
    returns (more: bool, next: int)
    requires g.Valid() && heap.Valid() && perf.Valid()
    requires Between(g.st, g.vVisit, g.eVisit, g.vLbl, heap.Contents(), heap.elem, perf.Contents(), s, started)
    modifies g, heap, heap.v, perf
    ensures g.Valid() && heap.Valid() && perf.Valid() && Kept(g) == old(Kept(g))
    ensures !more ==> Between(g.st, g.vVisit, g.eVisit, g.vLbl, heap.Contents(), heap.elem, perf.Contents(), s, true)
    ensures !more ==> CountState(g.vVisit, Visited) == 0 && g.vVisit == old(g.vVisit)
    ensures more ==> Between(g.st, g.vVisit, g.eVisit, g.vLbl, heap.Contents(), heap.elem, perf.Contents(), s, true)
    ensures more ==> CountState(g.vVisit, Inserted) == old(CountState(g.vVisit, Inserted)) + 1
  {
    ghost var h := heap.Contents();
    // heap_pop's uninitialised `r`: the contracts hold whatever it holds.
    var r := heap.Pop(g.vLbl, 0);
    if r.None? {
      return false, cur;
    }
    next := Take(g, heap, perf, r.value, cur, s, started, h);
    more := true;
  }

  /** The rest of a pass once the heap gave up `v`: the popped vertex joins the
      output with rank `cur`, which the next vertex does not reuse. */
  method Take(g: Graph, heap: LabelHeap, perf: List<nat>, v: nat, cur: int, ghost s: nat, ghost started: bool,
              ghost h: seq<nat>)
    returns (next: int)
    requires g.Valid() && heap.Valid() && perf.Valid()
    requires Between(g.st, g.vVisit, g.eVisit, g.vLbl, h, heap.elem, perf.Contents(), s, started)
    requires multiset(heap.Contents()) + multiset{v} == multiset(h) && Labelled(heap.Contents(), g.vLbl)
    modifies g, heap, heap.v, perf
    ensures g.Valid() && heap.Valid() && perf.Valid() && Kept(g) == old(Kept(g))
    ensures Between(g.st, g.vVisit, g.eVisit, g.vLbl, heap.Contents(), heap.elem, perf.Contents(), s, true)
    ensures CountState(g.vVisit, Inserted) == old(CountState(g.vVisit, Inserted)) + 1
    ensures next == cur - 1
  {
    Popped(g.st, g.vVisit, g.eVisit, g.vLbl, h, heap.Contents(), heap.elem, perf.Contents(), s, started, v);
    // `if (v->v_visitado == eInserted) continue;`: a popped vertex is
    // never already in the output.
    next := cur;
    if g.vVisit[v] != Inserted {
      g.MarkVertex(v, Inserted);
      Explore(g, heap, perf, v, cur, s);
      next := cur - 1;
    }
  }

  /** The outer loop of busca_largura_lexicografica: rounds until the heap is
      empty; the rank handed out starts at the number of vertices and falls by
      one per vertex moved to the output. */
  method Drain(g: Graph, heap: LabelHeap, perf: List<nat>, ghost s: nat)
    requires g.Valid() && heap.Valid() && perf.Valid() && g.nvert == |g.st.names|
    requires forall u :: 0 <= u < |g.vVisit| ==> g.vVisit[u] == NotSet
    requires forall e :: 0 <= e < |g.eVisit| ==> g.eVisit[e] == NotSet
    requires FreshLabels(g.vLbl, g.nvert) && s < g.nvert && heap.elem == g.nvert
    requires multiset(heap.Contents()) == multiset{s} && perf.Contents() == []
    modifies g, heap, heap.v, perf
    ensures g.Valid() && perf.Valid() && Kept(g) == old(Kept(g))
    ensures FreshLabels(g.vLbl, |g.st.names|)
    ensures var c := perf.Contents();
            && (forall i :: 0 <= i < |c| ==> c[i] < |g.st.names|)
            && (forall i, j :: 0 <= i < j < |c| ==> c[i] != c[j])
            && |c| > 0 && c[|c| - 1] == s
            && (forall u, w :: u in c && u < |g.st.names| && Step(g.st, u, w) ==> w in c)
            && (forall w :: Reachable(g.st, s, w) ==> w in c)
            && (forall i :: 0 <= i < |c| ==> Reachable(g.st, s, c[i]))
  {
    FreshLabelled(heap.Contents(), g.vLbl, g.nvert);
    BetweenStart(g.st, g.vVisit, g.eVisit, g.vLbl, heap.Contents(), heap.elem, s);
    var cur: int := g.nvert;
    ghost var started := false;
    var more := true;
    while more
      invariant g.Valid() && heap.Valid() && perf.Valid() && Kept(g) == old(Kept(g))
      invariant Between(g.st, g.vVisit, g.eVisit, g.vLbl, heap.Contents(), heap.elem, perf.Contents(), s, started)
      invariant !more ==> started && CountState(g.vVisit, Visited) == 0
      decreases |g.vVisit| - CountState(g.vVisit, Inserted) + (if more then 1 else 0)
    {
      more, cur := Round(g, heap, perf, cur, s, started);
      started := true;
    }
    Finished(g.st, g.vVisit, g.eVisit, g.vLbl, heap.Contents(), heap.elem, perf.Contents(), s);
  }

  /** busca_largura_lexicografica: the output lists each vertex at most once,
      ends with the first vertex of the vertex list (it was inserted first),
      is closed under stepping along out-lists and so holds exactly the
      vertices reachable from that vertex; all marks are reset and the labels keep
      their leading 0. */
  method BuscaLarguraLexicografica(g: Graph) returns (perf: List<nat>)
    requires g.Valid() && |g.st.names| >= 1 && g.nvert == |g.st.names|
    requires forall u :: 0 <= u < |g.vVisit| ==> g.vVisit[u] == NotSet
    requires forall e :: 0 <= e < |g.eVisit| ==> g.eVisit[e] == NotSet
    requires FreshLabels(g.vLbl, g.nvert)
    modifies g
    ensures fresh(perf) && perf.Valid()
    ensures g.Valid() && g.st == old(g.st) && Kept(g) == old(Kept(g))
    ensures forall u :: 0 <= u < |g.vVisit| ==> g.vVisit[u] == NotSet
    ensures forall e :: 0 <= e < |g.eVisit| ==> g.eVisit[e] == NotSet
    ensures FreshLabels(g.vLbl, g.nvert)
    ensures var c := perf.Contents();
            && (forall i :: 0 <= i < |c| ==> c[i] < |g.st.names|)
            && (forall i, j :: 0 <= i < j < |c| ==> c[i] != c[j])
            && |c| > 0 && c[|c| - 1] == g.st.vertices[0]
            && (forall u, w :: u in c && u < |g.st.names| && Step(g.st, u, w) ==> w in c)
            && (forall w :: Reachable(g.st, g.st.vertices[0], w) ==> w in c)
            && (forall i :: 0 <= i < |c| ==> Reachable(g.st, g.st.vertices[0], c[i]))
  {
    ghost var n := |g.st.names|;
    ghost var s := g.st.vertices[0];
    perf := new List<nat>();
    var heap := new LabelHeap(g.nvert);
    FreshLabelled([], g.vLbl, n);
    heap.Push(g.vLbl, g.st.vertices[0]);
    Drain(g, heap, perf, s);
    g.SetNoneVertexes();
    g.SetNoneArestas();
  }

  /** What the search guarantees once the heap runs empty. */
  lemma Finished(st: Shape, vv: seq<State>, ev: seq<State>, lbl: seq<seq<int>>, h: seq<nat>,
                 elem: nat, c: seq<nat>, s: nat)
    requires WellFormed(st) && |vv| == |st.names| && |ev| == |st.orig|
    requires Between(st, vv, ev, lbl, h, elem, c, s, true) && CountState(vv, Visited) == 0
    ensures FreshLabels(lbl, |st.names|)
    ensures && (forall i :: 0 <= i < |c| ==> c[i] < |st.names|)
            && (forall i, j :: 0 <= i < j < |c| ==> c[i] != c[j])
            && |c| > 0 && c[|c| - 1] == s
            && (forall u, w :: u in c && u < |st.names| && Step(st, u, w) ==> w in c)
            && (forall w :: Reachable(st, s, w) ==> w in c)
            && (forall i :: 0 <= i < |c| ==> Reachable(st, s, c[i]))
  {
    FinalClosure(st, vv, ev, c, s);
    forall i | 0 <= i < |c| ensures Reachable(st, s, c[i]) {
      assert c[i] in c && vv[c[i]] == Inserted;
    }
  }

  /** When the heap runs empty, the output is closed under stepping and holds
      every vertex reachable from the start. */
  lemma FinalClosure(st: Shape, vv: seq<State>, ev: seq<State>, c: seq<nat>, s: nat)
    requires WellFormed(st) && |vv| == |st.names| && |ev| == |st.orig|
    requires CountState(vv, Visited) == 0 && Explored(st, vv, ev, -1, 0) && Output(c, vv, s, true)
    ensures forall u, w :: u in c && u < |st.names| && Step(st, u, w) ==> w in c
    ensures forall w :: Reachable(st, s, w) ==> w in c
  {
    CountZero(vv, Visited);
    forall u, w | u in c && u < |st.names| && Step(st, u, w) ensures w in c {
      var k :| 0 <= k < |st.outs[u]| && Other(st, st.outs[u][k], u) == w;
      assert vv[u] == Inserted;
    }
    forall w | Reachable(st, s, w) ensures w in c {
      var p :| Walk(st, p) && |p| > 0 && p[0] == s && p[|p| - 1] == w;
      ClosedHoldsReachable(st, c, p);
    }
  }
}
