// The generic singly-linked list of the graph library ("lista"): a header that
// holds the size and the first node, and nodes that hold a payload and the link
// to their successor. Insertion prepends; removal unlinks one node found by its
// address.
module Lista {
  import opened Wrappers

  /** A list node ("no"): its payload and the link to the next node. */
  class Node<T> {
    const conteudo: T
    var proximo: Node?<T>

    constructor (c: T, next: Node?<T>)
      ensures conteudo == c && proximo == next
    {
      conteudo := c;
      proximo := next;
    }
  }

  /** The bitwise `ok &= x` of the teardown loop, with `ok` starting at 1:
      the result is 1 exactly when every `x` has its lowest bit set. */
  function AndBit(ok: int, x: int): int
  {
    if ok % 2 == 1 && x % 2 == 1 then 1 else 0
  }

  /** Each node's link is the node after it in `ns`, the last one's is null. */
  ghost predicate Linked<T>(ns: seq<Node<T>>)
    reads ns
  {
    forall i {:trigger ns[i].proximo} :: 0 <= i < |ns| ==> ns[i].proximo == if i + 1 < |ns| then ns[i + 1] else null
  }

  /** The payloads of `ns`, in order. */
  ghost function Payloads<T>(ns: seq<Node<T>>): seq<T>
  {
    seq(|ns|, i requires 0 <= i < |ns| => ns[i].conteudo)
  }

  /** Dropping the node at `k` drops its payload and keeps the others in order. */
  lemma PayloadsWithout<T>(ns: seq<Node<T>>, k: nat)
    requires k < |ns|
    ensures Payloads(ns[..k] + ns[k + 1..]) == Payloads(ns)[..k] + Payloads(ns)[k + 1..]
  {
  }

  /** Dropping one entry of a sequence without repeats leaves one without repeats. */
  lemma DistinctWithout<T>(s: seq<T>, k: nat)
    requires k < |s| && forall i, j :: 0 <= i < j < |s| ==> s[i] != s[j]
    ensures var t := s[..k] + s[k + 1..]; forall i, j :: 0 <= i < j < |t| ==> t[i] != t[j]
  {
    var t := s[..k] + s[k + 1..];
    forall i, j | 0 <= i < j < |t| ensures t[i] != t[j] {
      assert t[i] == s[if i < k then i else i + 1];
      assert t[j] == s[if j < k then j else j + 1];
    }
  }

  class List<T> {
    var tamanho: nat
    var primeiro: Node?<T>
    // the nodes in list order, first node first
    ghost var nodes: seq<Node<T>>

    /** The links spell out `nodes`, the stored size is its length, and no node
        occurs twice (so the list is acyclic). */
    ghost predicate Valid()
      reads this, nodes
    {
      && tamanho == |nodes|
      && (if nodes == [] then primeiro == null else primeiro == nodes[0])
      && Linked(nodes)
      && (forall i, j :: 0 <= i < j < |nodes| ==> nodes[i] != nodes[j])
    }

    /** The payloads in list order, head first. */
    ghost function Contents(): seq<T>
      reads this
    {
      var ns := nodes;
      seq(|ns|, i requires 0 <= i < |ns| => ns[i].conteudo)
    }

    /** constroi_lista: an empty list. */
    constructor ()
      ensures Valid() && nodes == [] && Contents() == []
    {
      tamanho := 0;
      primeiro := null;
      nodes := [];
    }

    /** tamanho_lista: the stored size is the number of nodes. */
    function Size(): (n: nat)
      reads this, nodes
      requires Valid()
      ensures n == |nodes| && n == |Contents()|
    {
      tamanho
    }

    /** primeiro_no: the first node, or null for an empty list. */
    function First(): (n: Node?<T>)
      reads this, nodes
      requires Valid()
      ensures n == null <==> Contents() == []
      ensures n != null ==> n == nodes[0] && n.conteudo == Contents()[0]
    {
      primeiro
    }

    /** proximo_no: the node after `n`, or null when `n` is the last one. */
    function Next(n: Node<T>): (r: Node?<T>)
      reads this, nodes
      requires Valid() && n in nodes
      ensures forall i :: 0 <= i < |nodes| && nodes[i] == n ==>
                r == if i + 1 < |nodes| then nodes[i + 1] else null
    {
      n.proximo
    }

    /** insere_lista: the payload becomes the new head; the old contents follow. */
    method Insert(c: T) returns (n: Node<T>)
      requires Valid()
      modifies this
      ensures Valid() && fresh(n)
      ensures nodes == [n] + old(nodes)
      ensures Contents() == [c] + old(Contents())
      ensures tamanho == old(tamanho) + 1
    {
      ghost var ns := nodes;
      n := new Node(c, primeiro);
      tamanho := tamanho + 1;
      primeiro := n;
      nodes := [n] + nodes;
      assert Linked(ns);
      forall i | 0 <= i < |nodes|
        ensures nodes[i].proximo == if i + 1 < |nodes| then nodes[i + 1] else null
      {
        if i > 0 {
          assert nodes[i] == ns[i - 1];
        }
      }
    }

    /** remove_no: unlink the node `rno`. When it is not a node of the list,
        nothing changes and the result is 0; otherwise it is 1, or what the
        callback returns on its payload. */
    method Remove(rno: Node<T>, destroi: Option<T -> int>) returns (r: int)
      requires Valid() && nodes != []
      modifies this, nodes
      ensures Valid()
      ensures rno !in old(nodes) ==>
                r == 0 && nodes == old(nodes) && Contents() == old(Contents()) &&
                tamanho == old(tamanho)
      ensures forall k :: 0 <= k < |old(nodes)| && old(nodes)[k] == rno ==>
                && nodes == old(nodes)[..k] + old(nodes)[k + 1..]
                && Contents() == old(Contents())[..k] + old(Contents())[k + 1..]
                && tamanho == old(tamanho) - 1
                && r == (if destroi.Some? then destroi.value(rno.conteudo) else 1)
    {
      ghost var ns := nodes;
      assert Contents() == Payloads(ns);
      if primeiro == rno {
        r := RemoveFirst(destroi);
        PayloadsWithout(ns, 0);
        assert ns[..0] + ns[1..] == ns[1..];
        assert Contents() == Payloads(nodes);
        return;
      }
      var n: Node<T> := primeiro;
      ghost var k := 0;
      while n.proximo != null
        invariant 0 <= k < |ns| && n == ns[k]
        invariant forall j :: 0 <= j <= k ==> ns[j] != rno
        decreases |ns| - k
      {
        assert ns[k].proximo == if k + 1 < |ns| then ns[k + 1] else null;
        if n.proximo == rno {
          r := UnlinkNext(n, k, destroi);
          PayloadsWithout(ns, k + 1);
          assert Contents() == Payloads(nodes);
          return;
        }
        n := n.proximo;
        k := k + 1;
      }
      assert k == |ns| - 1;
      r := 0;
    }

    /** The payload of a removed node: 1, or what the callback returns on it. */
    static function Released(destroi: Option<T -> int>, c: T): int
    {
      if destroi.Some? then destroi.value(c) else 1
    }

    /** The head case of remove_no: the second node becomes the first. */
    method RemoveFirst(destroi: Option<T -> int>) returns (r: int)
      requires Valid() && nodes != []
      modifies this
      ensures Valid() && nodes == old(nodes)[1..] && tamanho == old(tamanho) - 1
      ensures r == Released(destroi, old(nodes)[0].conteudo)
    {
      ghost var ns := nodes;
      var rno := primeiro;
      primeiro := rno.proximo;
      r := 1;
      if destroi.Some? {
        r := destroi.value(rno.conteudo);
      }
      tamanho := tamanho - 1;
      nodes := nodes[1..];
      forall i | 0 <= i < |nodes|
        ensures nodes[i].proximo == if i + 1 < |nodes| then nodes[i + 1] else null
      {
        assert nodes[i] == ns[i + 1];
      }
    }

    /** The interior case of remove_no: node `n`, at position `k`, is linked
        past its successor, which leaves the list. */
    method UnlinkNext(n: Node<T>, ghost k: nat, destroi: Option<T -> int>) returns (r: int)
      requires Valid() && k + 1 < |nodes| && nodes[k] == n
      modifies this, n
      ensures Valid() && nodes == old(nodes)[..k + 1] + old(nodes)[k + 2..]
      ensures tamanho == old(tamanho) - 1
      ensures r == Released(destroi, old(nodes)[k + 1].conteudo)
    {
      ghost var ns := nodes;
      var rno := n.proximo;
      assert rno == ns[k + 1];
      assert forall i :: 0 <= i < |ns| && i != k ==> ns[i] != n;
      n.proximo := rno.proximo;
      r := 1;
      if destroi.Some? {
        r := destroi.value(rno.conteudo);
      }
      tamanho := tamanho - 1;
      nodes := ns[..k + 1] + ns[k + 2..];
      forall i | 0 <= i < |nodes|
        ensures nodes[i].proximo == if i + 1 < |nodes| then nodes[i + 1] else null
      {
        if i < k {
          assert nodes[i] == ns[i] && nodes[i + 1] == ns[i + 1];
        } else if i > k {
          assert nodes[i] == ns[i + 1];
        }
      }
      DistinctWithout(ns, k + 1);
    }

    /** destroi_lista: detach every node in order, applying the callback (when
        given) to each payload and combining the results as `ok &= ...`.
        Only the head pointer is written: the counter is not reset, since the
        list object itself is released afterwards and is not used again. */
    method Destroy(destroi: Option<T -> int>) returns (ok: int)
      requires Valid()
      modifies this
      ensures primeiro == null && tamanho == old(tamanho) && nodes == old(nodes)
      ensures ok == if destroi.Some? && exists x :: x in old(Contents()) && destroi.value(x) % 2 == 0
                    then 0 else 1
    {
      ghost var ns := nodes;
      ghost var cs := Contents();
      ok := 1;
      ghost var k := 0;
      while primeiro != null
        invariant 0 <= k <= |ns|
        invariant primeiro == if k < |ns| then ns[k] else null
        invariant nodes == ns && cs == Contents() && tamanho == old(tamanho)
        invariant Linked(ns)
        invariant ok == if destroi.Some? && exists i :: 0 <= i < k && destroi.value(cs[i]) % 2 == 0
                        then 0 else 1
        decreases |ns| - k
      {
        var p := primeiro;
        primeiro := p.proximo;
        assert p.conteudo == cs[k];
        if destroi.Some? {
          ok := AndBit(ok, destroi.value(p.conteudo));
        }
        k := k + 1;
      }
      assert forall x :: x in cs <==> exists i :: 0 <= i < |ns| && cs[i] == x;
    }
  }
}
