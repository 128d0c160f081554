// Lex-BFS labels: 0-terminated arrays of ints (v_lbl), compared
// lexicographically up to the first 0 by lbl_g ("greater") and lbl_ge
// ("greater or equal").
module Labels {

  /** The entry at position 0; past the end of the sequence it reads as 0, the
      terminator. */
  function Head(x: seq<int>): int
  {
    if x == [] then 0 else x[0]
  }

  /** The label without its first entry. */
  function Tail(x: seq<int>): seq<int>
  {
    if x == [] then [] else x[1..]
  }

  /** The label holds a 0, so a scan that stops at the first 0 stays inside it. */
  predicate Terminated(x: seq<int>)
  {
    0 in x
  }

  /** Position of the first 0. */
  ghost function FirstZero(x: seq<int>): (k: nat)
    requires Terminated(x)
    ensures k < |x| && x[k] == 0
    ensures forall j :: 0 <= j < k ==> x[j] != 0
  {
    if x[0] == 0 then 0
    else
      assert x == [x[0]] + x[1..];
      FirstZero(x[1..]) + 1
  }

  /** x is lexicographically greater than y, comparing up to the first 0. */
  function Greater(x: seq<int>, y: seq<int>): bool
    decreases |x| + |y|
  {
    if Head(x) != Head(y) then Head(x) > Head(y)
    else if Head(x) == 0 then false
    else Greater(Tail(x), Tail(y))
  }

  /** x and y agree up to and including their first 0. */
  function SameKey(x: seq<int>, y: seq<int>): bool
    decreases |x| + |y|
  {
    Head(x) == Head(y) && (Head(x) == 0 || SameKey(Tail(x), Tail(y)))
  }

  /** The relation that lbl_ge decides. */
  function AtLeast(x: seq<int>, y: seq<int>): bool
  {
    Greater(x, y) || SameKey(x, y)
  }

  lemma {:induction false} GreaterIrreflexive(x: seq<int>)
    ensures !Greater(x, x)
    decreases |x|
  {
    if Head(x) != 0 {
      GreaterIrreflexive(Tail(x));
    }
  }

  lemma {:induction false} SameKeyReflexive(x: seq<int>)
    ensures SameKey(x, x)
    decreases |x|
  {
    if Head(x) != 0 {
      SameKeyReflexive(Tail(x));
    }
  }

  /** For any two labels exactly one holds: x greater, y greater, or the same key. */
  lemma {:induction false} Trichotomy(x: seq<int>, y: seq<int>)
    ensures Greater(x, y) || Greater(y, x) || SameKey(x, y)
    ensures !(Greater(x, y) && Greater(y, x))
    ensures SameKey(x, y) ==> !Greater(x, y) && !Greater(y, x)
    decreases |x| + |y|
  {
    if Head(x) == Head(y) && Head(x) != 0 {
      Trichotomy(Tail(x), Tail(y));
    }
  }

  lemma {:induction false} GreaterTransitive(x: seq<int>, y: seq<int>, z: seq<int>)
    requires Greater(x, y) && Greater(y, z)
    ensures Greater(x, z)
    decreases |x| + |y| + |z|
  {
    if Head(x) == Head(y) && Head(y) == Head(z) {
      GreaterTransitive(Tail(x), Tail(y), Tail(z));
    }
  }

  /** lbl_ge is a total preorder: transitive ... */
  lemma {:induction false} AtLeastTransitive(x: seq<int>, y: seq<int>, z: seq<int>)
    requires AtLeast(x, y) && AtLeast(y, z)
    ensures AtLeast(x, z)
    decreases |x| + |y| + |z|
  {
    if Head(x) == Head(y) && Head(y) == Head(z) && Head(x) != 0 {
      AtLeastTransitive(Tail(x), Tail(y), Tail(z));
    }
  }

  /** ... and total: when lbl_ge(x, y) fails, y is strictly greater. */
  lemma NotAtLeast(x: seq<int>, y: seq<int>)
    requires !AtLeast(x, y)
    ensures Greater(y, x) && AtLeast(y, x)
  {
    Trichotomy(x, y);
  }

  /** Two labels whose first entry is 0 compare as equal, whatever follows. */
  lemma ZeroHeadTie(x: seq<int>, y: seq<int>)
    requires Head(x) == 0 && Head(y) == 0
    ensures SameKey(x, y) && !Greater(x, y) && !Greater(y, x)
  {
  }

  /** One step of the scans below: past a shared nonzero entry the comparison
      is that of the remainders. */
  lemma ScanStep(x: seq<int>, y: seq<int>, i: nat)
    requires i < |x| && i < |y| && x[i] == y[i] && x[i] != 0
    ensures Greater(x[i..], y[i..]) == Greater(x[i + 1..], y[i + 1..])
    ensures SameKey(x[i..], y[i..]) == SameKey(x[i + 1..], y[i + 1..])
  {
    assert Tail(x[i..]) == x[i + 1..] && Tail(y[i..]) == y[i + 1..];
  }

  /** Past a common prefix without 0s the comparisons are those of the
      remainders. */
  lemma {:induction false} ScanPrefix(x: seq<int>, y: seq<int>, i: nat)
    requires i <= |x| && i <= |y|
    requires forall j :: 0 <= j < i ==> x[j] == y[j] && x[j] != 0
    ensures Greater(x[i..], y[i..]) == Greater(x, y)
    ensures SameKey(x[i..], y[i..]) == SameKey(x, y)
    decreases i
  {
    if i == 0 {
      assert x[i..] == x && y[i..] == y;
    } else {
      ScanPrefix(x, y, i - 1);
      ScanStep(x, y, i - 1);
    }
  }

  /** lbl_g. */
  method CompareGreater(x: seq<int>, y: seq<int>) returns (r: bool)
    requires Terminated(x) && Terminated(y)
    ensures r == Greater(x, y)
  {
    ghost var zx, zy := FirstZero(x), FirstZero(y);
    var i := 0;
    while x[i] == y[i]
      invariant i <= zx && i <= zy
      invariant forall j :: 0 <= j < i ==> x[j] == y[j] && x[j] != 0
      decreases |x| - i
    {
      if x[i] == 0 {
        ScanPrefix(x, y, i);
        assert Head(x[i..]) == 0 && Head(y[i..]) == 0;
        return false;
      }
      i := i + 1;
    }
    ScanPrefix(x, y, i);
    assert Head(x[i..]) == x[i] && Head(y[i..]) == y[i];
    r := x[i] > y[i];
  }

  /** lbl_ge: greater, or the same up to and including the first 0. */
  method CompareAtLeast(x: seq<int>, y: seq<int>) returns (r: bool)
    requires Terminated(x) && Terminated(y)
    ensures r == AtLeast(x, y)
  {
    ghost var zx, zy := FirstZero(x), FirstZero(y);
    var i := 0;
    while x[i] == y[i]
      invariant i <= zx && i <= zy
      invariant forall j :: 0 <= j < i ==> x[j] == y[j] && x[j] != 0
      decreases |x| - i
    {
      if x[i] == 0 {
        ScanPrefix(x, y, i);
        assert Head(x[i..]) == 0 && Head(y[i..]) == 0;
        return true;
      }
      i := i + 1;
    }
    ScanPrefix(x, y, i);
    assert Head(x[i..]) == x[i] && Head(y[i..]) == y[i];
    r := x[i] >= y[i];
  }
}
