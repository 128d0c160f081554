// The array heap of vertices keyed by their Lex-BFS labels (HEAP: elem, pos, v).
// The heap holds v[0..pos); the labels live in the graph and are passed in as
// `lbl`, indexed by vertex. heap_push sifts up while the parent's label is not
// lbl_ge the child's (max order); heap_pop sifts down towards the child that is
// not lbl_g the other (min order); heap_sort/heapify only permute.
module Heap {
  import opened Wrappers
  import opened Labels

  function Dad(k: nat): nat
    requires k > 0
  {
    (k - 1) / 2
  }

  function LChild(k: nat): nat
  {
    (k + 1) * 2 - 1
  }

  function RChild(k: nat): nat
  {
    (k + 1) * 2
  }

  /** Every vertex in s has a label, and that label holds a 0. */
  ghost predicate Labelled(s: seq<nat>, lbl: seq<seq<int>>)
  {
    forall k :: 0 <= k < |s| ==> s[k] < |lbl| && Terminated(lbl[s[k]])
  }

  /** Max order under lbl_ge, everywhere except possibly between z and its parent. */
  ghost predicate OrderedExcept(s: seq<nat>, lbl: seq<seq<int>>, z: nat)
  {
    Labelled(s, lbl) &&
    forall k :: 0 < k < |s| && k != z ==> AtLeast(lbl[s[Dad(k)]], lbl[s[k]])
  }

  /** Max order under lbl_ge: no label exceeds its parent's. */
  ghost predicate MaxOrdered(s: seq<nat>, lbl: seq<seq<int>>)
  {
    OrderedExcept(s, lbl, 0)
  }

  /** While z sifts up, its parent's label bounds z's children too. */
  ghost predicate ParentBoundsChildren(s: seq<nat>, lbl: seq<seq<int>>, z: nat)
    requires Labelled(s, lbl) && z < |s|
  {
    z > 0 ==> forall k :: 0 < k < |s| && Dad(k) == z ==> AtLeast(lbl[s[Dad(z)]], lbl[s[k]])
  }

  /** No label in s is lbl_g another one. */
  ghost predicate AllTied(s: seq<nat>, lbl: seq<seq<int>>)
  {
    Labelled(s, lbl) &&
    forall i, j :: 0 <= i < |s| && 0 <= j < |s| ==> !Greater(lbl[s[i]], lbl[s[j]])
  }

  /** s with positions i and j exchanged. */
  function Swapped(s: seq<nat>, i: nat, j: nat): seq<nat>
    requires i < |s| && j < |s|
  {
    s[i := s[j]][j := s[i]]
  }

  /** Exchanging two entries keeps the multiset ... */
  lemma SwapMultiset(s: seq<nat>, i: nat, j: nat)
    requires i < |s| && j < |s|
    ensures multiset(Swapped(s, i, j)) == multiset(s)
  {
    var t := s[i := s[j]];
    assert multiset(t) == multiset(s) - multiset{s[i]} + multiset{s[j]};
    assert t[j] == s[j];
    assert multiset(t[j := s[i]]) == multiset(t) - multiset{s[j]} + multiset{s[i]};
  }

  /** ... and the labels. */
  lemma SwapLabelled(s: seq<nat>, i: nat, j: nat, lbl: seq<seq<int>>)
    requires i < |s| && j < |s| && Labelled(s, lbl)
    ensures Labelled(Swapped(s, i, j), lbl)
  {
    var t := Swapped(s, i, j);
    forall k | 0 <= k < |t| ensures t[k] < |lbl| && Terminated(lbl[t[k]]) {
      assert t[k] == s[if k == j then i else if k == i then j else k];
    }
  }

  /** Exchanging two entries of a prefix commutes with taking the prefix. */
  lemma PrefixSwapped(s: seq<nat>, i: nat, j: nat, n: nat)
    requires i < n && j < n && n <= |s|
    ensures Swapped(s, i, j)[..n] == Swapped(s[..n], i, j)
  {
  }

  /** One sift-up exchange of z with its parent, when the parent's label is not
      lbl_ge z's, moves the one possible violation up to the parent. */
  lemma SiftUpStep(s: seq<nat>, lbl: seq<seq<int>>, z: nat)
    requires 0 < z < |s|
    requires OrderedExcept(s, lbl, z) && ParentBoundsChildren(s, lbl, z)
    requires !AtLeast(lbl[s[Dad(z)]], lbl[s[z]])
    ensures OrderedExcept(Swapped(s, Dad(z), z), lbl, Dad(z))
    ensures ParentBoundsChildren(Swapped(s, Dad(z), z), lbl, Dad(z))
  {
    var u := Dad(z);
    var t := Swapped(s, u, z);
    NotAtLeast(lbl[s[u]], lbl[s[z]]);
    assert Labelled(t, lbl) by {
      forall k | 0 <= k < |t| ensures t[k] < |lbl| && Terminated(lbl[t[k]]) {
        if k == u {
          assert t[k] == s[z];
        } else if k == z {
          assert t[k] == s[u];
        } else {
          assert t[k] == s[k];
        }
      }
    }
    forall k | 0 < k < |t| && k != u
      ensures AtLeast(lbl[t[Dad(k)]], lbl[t[k]])
    {
      if k == z {
        // the old parent's label moves below the larger one
      } else if Dad(k) == u {
        // a sibling of z: bounded by the old parent, hence by z's label
        AtLeastTransitive(lbl[s[z]], lbl[s[u]], lbl[s[k]]);
      } else if Dad(k) == z {
        // a child of z: bounded by the old parent, which now sits at z
      } else {
        assert t[k] == s[k] && t[Dad(k)] == s[Dad(k)];
      }
    }
    if u > 0 {
      forall k | 0 < k < |t| && Dad(k) == u
        ensures AtLeast(lbl[t[Dad(u)]], lbl[t[k]])
      {
        assert t[Dad(u)] == s[Dad(u)];
        if k == z {
          assert t[k] == s[u];
        } else {
          assert t[k] == s[k];
          AtLeastTransitive(lbl[s[Dad(u)]], lbl[s[u]], lbl[s[k]]);
        }
      }
    }
  }

  /** heap_pop's first step: the root leaves and the last entry takes its
      place, which keeps the other entries ... */
  lemma MoveLastToRoot(s: seq<nat>, p: nat)
    requires p < |s|
    ensures multiset(s[0 := s[p]][..p]) + multiset{s[0]} == multiset(s[..p + 1])
  {
    var t := s[0 := s[p]][..p];
    if p > 0 {
      assert s[..p + 1] == [s[0]] + s[1..p] + [s[p]];
      assert t == [s[p]] + s[1..p];
    } else {
      assert t == [];
    }
  }

  /** ... and their labels. */
  lemma MoveLastLabelled(s: seq<nat>, p: nat, lbl: seq<seq<int>>)
    requires p < |s| && Labelled(s[..p + 1], lbl)
    ensures Labelled(s[0 := s[p]][..p], lbl)
  {
    var t := s[0 := s[p]][..p];
    forall k | 0 <= k < |t| ensures t[k] < |lbl| && Terminated(lbl[t[k]]) {
      assert t[k] == s[..p + 1][if k == 0 then p else k];
    }
  }

  method Swap(a: array<nat>, i: nat, j: nat)
    requires i < a.Length && j < a.Length
    modifies a
    ensures a[..] == Swapped(old(a[..]), i, j)
  {
    a[i], a[j] := a[j], a[i];
  }

  class LabelHeap {
    const elem: nat
    const v: array<nat>
    var pos: nat

    ghost predicate Valid()
      reads this
    {
      v.Length == elem && pos <= elem
    }

    /** The vertices in the heap, v[0..pos). */
    ghost function Contents(): seq<nat>
      reads this, v
      requires Valid()
    {
      v[..pos]
    }

    /** heap_alloc: an empty heap of capacity n. */
    constructor (n: nat)
      ensures Valid() && elem == n && pos == 0 && fresh(v)
    {
      elem := n;
      v := new nat[n];
      pos := 0;
    }

    /** heap_push: a no-op on a full heap; otherwise `data` is added and sifted
        up, which keeps a max-ordered heap max-ordered. */
    method Push(lbl: seq<seq<int>>, data: nat)
      requires Valid() && Labelled(Contents(), lbl)
      requires data < |lbl| && Terminated(lbl[data])
      modifies this, v
      ensures Valid() && Labelled(Contents(), lbl)
      ensures old(pos) == elem ==> pos == old(pos) && v[..] == old(v[..])
      ensures old(pos) < elem ==>
                pos == old(pos) + 1 &&
                multiset(Contents()) == multiset(old(Contents())) + multiset{data}
      ensures old(pos) < elem && MaxOrdered(old(Contents()), lbl) ==> MaxOrdered(Contents(), lbl)
    {
      if pos == elem {
        return;
      }
      ghost var before := Contents();
      ghost var ordered := MaxOrdered(before, lbl);
      var z := pos;
      v[z] := data;
      pos := pos + 1;
      assert Contents() == before + [data];
      SiftUp(lbl, z, ordered);
    }

    /** The loop of heap_push: exchange z with its parent while the parent's
        label is not lbl_ge z's. */
    method SiftUp(lbl: seq<seq<int>>, z0: nat, ghost ordered: bool)
      requires Valid() && Labelled(Contents(), lbl) && z0 < pos
      requires ordered ==> OrderedExcept(Contents(), lbl, z0) &&
                           ParentBoundsChildren(Contents(), lbl, z0)
      modifies v
      ensures Labelled(Contents(), lbl)
      ensures multiset(Contents()) == multiset(old(Contents()))
      ensures ordered ==> MaxOrdered(Contents(), lbl)
    {
      ghost var c0 := Contents();
      ghost var c := c0;
      var z: nat := z0;
      while z > 0
        invariant z < pos && c == v[..pos]
        invariant multiset(c) == multiset(c0) && Labelled(c, lbl)
        invariant ordered ==> OrderedExcept(c, lbl, z) && ParentBoundsChildren(c, lbl, z)
      {
        var u := Dad(z);
        assert v[u] == c[u] && v[z] == c[z];
        var ge := CompareAtLeast(lbl[v[u]], lbl[v[z]]);
        if ge {
          break;
        }
        SwapMultiset(c, u, z);
        SwapLabelled(c, u, z, lbl);
        if ordered {
          SiftUpStep(c, lbl, z);
        }
        ghost var s := v[..];
        Swap(v, u, z);
        PrefixSwapped(s, u, z, pos);
        c := Swapped(c, u, z);
        z := u;
      }
    }

    /** heap_pop: null on an empty heap; otherwise the old root, with the last
        entry moved to the root and sifted down. `r0` is the value the C code's
        uninitialised `r` holds when the loop first reads it. */
    method Pop(lbl: seq<seq<int>>, r0: nat) returns (r: Option<nat>)
      requires Valid() && Labelled(Contents(), lbl)
      modifies this, v
      ensures Valid() && Labelled(Contents(), lbl)
      ensures old(pos) == 0 <==> r == None
      ensures old(pos) == 0 ==> pos == 0 && v[..] == old(v[..])
      ensures old(pos) > 0 ==>
                r == Some(old(v[0])) && pos == old(pos) - 1 &&
                multiset(Contents()) + multiset{r.value} == multiset(old(Contents()))
    {
      if pos == 0 {
        return None;
      }
      ghost var s := v[..];
      ghost var c := Contents();
      var ret := v[0];
      pos := pos - 1;
      v[0] := v[pos];
      assert c == s[..pos + 1] && v[..] == s[0 := s[pos]];
      MoveLastToRoot(s, pos);
      MoveLastLabelled(s, pos, lbl);
      assert Contents() == s[0 := s[pos]][..pos];
      PopSift(lbl, r0);
      r := Some(ret);
    }

    /** The loop of heap_pop as written: each pass takes `l` as the left child
        of the previous pass's `r` (of `r0` on the first pass) and only then
        sets `r` to the right child of `k`. Position `k` is exchanged with `l`,
        or with `r` when `r` is in the heap and `l`'s label is lbl_g `r`'s, as
        long as k's label is lbl_g that child's. After a step down to a left
        child the next pass therefore compares positions RChild(k) and
        RChild(k) + 1 rather than k's own children. The smaller of `k` and `r`
        grows on every pass, so the loop ends. */
    method PopSift(lbl: seq<seq<int>>, r0: nat)
      requires Valid() && Labelled(Contents(), lbl)
      modifies v
      ensures Labelled(Contents(), lbl)
      ensures multiset(Contents()) == multiset(old(Contents()))
    {
      ghost var c0 := Contents();
      ghost var c := c0;
      var k := 0;
      var r := r0;
      var l := LChild(r);
      while l < pos
        invariant l == LChild(r) && (k == 0 || k < pos) && c == v[..pos]
        invariant multiset(c) == multiset(c0) && Labelled(c, lbl)
        decreases pos - (if k < r then k else r)
      {
        r := RChild(k);
        var child := l;
        assert v[l] == c[l];
        if r < pos {
          assert v[r] == c[r];
          var g := CompareGreater(lbl[v[l]], lbl[v[r]]);
          if g {
            child := r;
          }
        }
        assert v[k] == c[k] && v[child] == c[child];
        var g := CompareGreater(lbl[v[k]], lbl[v[child]]);
        if !g {
          break;
        }
        SwapMultiset(c, child, k);
        SwapLabelled(c, child, k, lbl);
        ghost var s := v[..];
        Swap(v, child, k);
        PrefixSwapped(s, child, k, pos);
        c := Swapped(c, child, k);
        k := child;
        l := LChild(r);
      }
    }

    /** heap_sort: move v[i] down towards a child whose label is lbl_g v[i]'s
        (the right child is compared with v[i], not with the left child). When
        no label is lbl_g another, nothing moves. */
    method SiftDown(lbl: seq<seq<int>>, i: nat)
      requires Valid() && Labelled(Contents(), lbl)
      modifies v
      ensures Labelled(Contents(), lbl)
      ensures multiset(Contents()) == multiset(old(Contents()))
      ensures v[pos..] == old(v[pos..])
      ensures AllTied(old(Contents()), lbl) ==> v[..] == old(v[..])
      decreases pos - i
    {
      ghost var c := Contents();
      var l := LChild(i);
      var r := RChild(i);
      var maior := i;
      if l < pos {
        assert v[l] == c[l] && v[i] == c[i];
        var g := CompareGreater(lbl[v[l]], lbl[v[i]]);
        if g {
          maior := l;
        }
      }
      if r < pos {
        assert v[r] == c[r] && v[i] == c[i];
        var g := CompareGreater(lbl[v[r]], lbl[v[i]]);
        if g {
          maior := r;
        }
      }
      if maior != i {
        ghost var s := v[..];
        SwapMultiset(c, maior, i);
        SwapLabelled(c, maior, i, lbl);
        Swap(v, maior, i);
        PrefixSwapped(s, maior, i, pos);
        SiftDown(lbl, maior);
      }
    }

    /** heapify: heap_sort at every position from pos/2 down to 0. It permutes
        the heap and keeps its size; it does not restore an order. */
    method Heapify(lbl: seq<seq<int>>)
      requires Valid() && Labelled(Contents(), lbl)
      modifies v
      ensures Labelled(Contents(), lbl)
      ensures multiset(Contents()) == multiset(old(Contents()))
      ensures AllTied(old(Contents()), lbl) ==> v[..] == old(v[..])
    {
      var i: int := pos / 2;
      while i >= 0
        invariant -1 <= i <= pos / 2
        invariant Labelled(Contents(), lbl)
        invariant multiset(Contents()) == multiset(old(Contents()))
        invariant AllTied(old(Contents()), lbl) ==> v[..] == old(v[..])
      {
        SiftDown(lbl, i);
        i := i - 1;
      }
    }
  }
}
