/** The intrusive singly linked nodes shared by the hash table and the singly
    linked list.  A sentinel node carries no value. */
module Wrappers {
  datatype Option<+T> = None | Some(value: T)
}

module SinglyList {
  import opened Wrappers

  class Node<V> {
    var next: Node?<V>
    const val: Option<V>

    constructor (v: Option<V>)
      ensures next == null && val == v
    {
      next := null;
      val := v;
    }
  }

  ghost predicate Distinct<T>(s: seq<T>) {
    forall i, j :: 0 <= i < j < |s| ==> s[i] != s[j]
  }

  predicate Pair(i: int, j: int) {
    i < j
  }

  /** Distinct again, instantiated only where a Pair is mentioned. */
  ghost predicate NoDup<T>(s: seq<T>) {
    forall i, j {:trigger Pair(i, j)} :: Pair(i, j) && 0 <= i && j < |s| ==> s[i] != s[j]
  }

  lemma {:induction false} NoDupIsDistinct<T>(s: seq<T>)
    ensures NoDup(s) <==> Distinct(s)
  {
    if NoDup(s) {
      forall i, j | 0 <= i < j < |s| ensures s[i] != s[j] {
        assert Pair(i, j);
      }
    }
  }

  function At<V>(c: seq<Node<V>>, i: nat): Node?<V>
    requires i <= |c|
  {
    if i < |c| then c[i] else null
  }

  /** The `next` fields run through c in order and end in null. */
  ghost predicate Linked<V>(c: seq<Node<V>>)
    reads c
  {
    forall i {:trigger c[i].next} :: 0 <= i < |c| ==> c[i].next == At(c, i + 1)
  }

  /** s with the stretch s[p+1..q+1] replaced by m. */
  function Splice<T>(s: seq<T>, p: nat, q: nat, m: seq<T>): seq<T>
    requires p <= q < |s|
  {
    s[..p + 1] + m + s[q + 1..]
  }

  /** Cuts (prev, last] = c[p+1..q+1] out of the chain c. */
  method RemoveAfter<V>(prev: Node<V>, last: Node<V>, ghost c: seq<Node<V>>, ghost p: nat, ghost q: nat)
    requires Linked(c) && NoDup(c) && p < q < |c| && c[p] == prev && c[q] == last
    modifies prev`next, last`next
    ensures Linked(Splice(c, p, q, [])) && Linked(c[p + 1..q + 1])
  {
    NoDupIsDistinct(c);
    assert c[q].next == At(c, q + 1);
    prev.next := last.next;
    last.next := null;
    ghost var d, e := Splice(c, p, q, []), c[p + 1..q + 1];
    forall i {:trigger d[i].next} | 0 <= i < |d| ensures d[i].next == At(d, i + 1) {
      assert d[i] == if i <= p then c[i] else c[i + q - p];
      assert i != p && i + 1 < |d| ==> d[i + 1] == if i < p then c[i + 1] else c[i + 1 + q - p];
    }
    forall i {:trigger e[i].next} | 0 <= i < |e| ensures e[i].next == At(e, i + 1) {
      assert e[i] == c[p + 1 + i];
    }
  }

  /** Links the run first..last = ns after c[p]. */
  method InsertAfter<V>(after: Node<V>, first: Node<V>, last: Node<V>, ghost c: seq<Node<V>>, ghost p: nat,
      ghost ns: seq<Node<V>>)
    requires Linked(c) && Linked(ns) && p < |c| && c[p] == after && NoDup(Splice(c, p, p, ns))
    requires ns != [] && ns[0] == first && ns[|ns| - 1] == last
    modifies after`next, last`next
    ensures Linked(Splice(c, p, p, ns))
  {
    ghost var d := Splice(c, p, p, ns);
    NoDupIsDistinct(d);
    assert d[p] == c[p] && d[p + |ns|] == last;
    assert c[p].next == At(c, p + 1);
    last.next := after.next;
    after.next := first;
    assert forall i :: 0 <= i < |d| ==>
        d[i] == if i <= p then c[i] else if i <= p + |ns| then ns[i - p - 1] else c[i - |ns|];
  }

  method PrevNode<V>(head: Node<V>, node: Node<V>, ghost c: seq<Node<V>>, ghost lo: nat, ghost i: nat)
    returns (prev: Node<V>)
    requires Linked(c) && NoDup(c) && lo < i < |c| && c[lo] == head && c[i] == node
    ensures prev == c[i - 1]
  {
    prev := head;
    ghost var k := lo;
    while prev.next != node
      invariant lo <= k < i && prev == c[k]
      decreases i - k
    {
      assert c[k].next == At(c, k + 1);
      prev := prev.next;
      k := k + 1;
    }
    assert c[k].next == At(c, k + 1) && (k + 1 < i <==> Pair(k + 1, i));
  }

  /** RemoveAfter(prev): cuts the one node behind prev = c[p] out. */
  method RemoveOneAfter<V>(prev: Node<V>, ghost c: seq<Node<V>>, ghost p: nat) returns (next: Node?<V>)
    requires Linked(c) && NoDup(c) && p + 1 < |c| && c[p] == prev
    modifies prev`next, c[p + 1]
    ensures Linked(c[..p + 1] + c[p + 2..]) && c[p + 1].next == null && next == At(c, p + 2)
  {
    assert c[p].next == At(c, p + 1) && c[p + 1].next == At(c, p + 2);
    assert Pair(p, p + 1);
    var curr := prev.next;
    prev.next := curr.next;
    curr.next := null;
    next := prev.next;
    ghost var d := c[..p + 1] + c[p + 2..];
    forall i | 0 <= i < |d| ensures d[i].next == At(d, i + 1) {
      assert d[i] == c[if i <= p then i else i + 1];
      assert Pair(i, p) || i >= p;
      assert Pair(i, p + 1) || Pair(p + 1, i + 1);
      assert Pair(p, i + 1) || i < p;
    }
  }

  /** InsertAfter(after, node): links one node behind after = c[p]. */
  method InsertOneAfter<V>(after: Node<V>, node: Node<V>, ghost c: seq<Node<V>>, ghost p: nat)
    requires Linked(c) && NoDup(c) && p < |c| && c[p] == after && node !in c
    modifies after`next, node`next
    ensures Linked(c[..p + 1] + [node] + c[p + 1..])
  {
    assert c[p].next == At(c, p + 1);
    node.next := after.next;
    after.next := node;
    ghost var d := c[..p + 1] + [node] + c[p + 1..];
    forall i | 0 <= i < |d| ensures d[i].next == At(d, i + 1) {
      assert i != p + 1 ==> d[i] == c[if i <= p then i else i - 1];
      assert Pair(i, p) || i >= p;
      assert Pair(p, i - 1) || i <= p + 1;
    }
  }
}
