/** src/gtl/container/list_node.h and list_base.h: the intrusive circular doubly
    linked list.  A ring is the closed sequence head, n1, ..., nk, head. */
module DoublyList {
  import opened Wrappers
  import opened SinglyList
  import opened SeqMoves

  class ListNode<T> {
    var next: ListNode?<T>
    var prev: ListNode?<T>
    const val: Option<T>

    /** A list head: a ring of its own, without a value. */
    constructor Head()
      ensures next == this && prev == this && val == None
    {
      next := this;
      prev := this;
      val := None;
    }

    constructor (v: T)
      ensures next == null && prev == null && val == Some(v)
    {
      next := null;
      prev := null;
      val := Some(v);
    }
  }

  ghost predicate RingLinked<T>(c: seq<ListNode<T>>)
    reads c
  {
    && (forall i {:trigger c[i].next} :: 0 <= i < |c| - 1 ==> c[i].next == c[i + 1])
    && (forall i {:trigger c[i].prev} :: 1 <= i < |c| ==> c[i].prev == c[i - 1])
  }

  /** A closed walk that meets its head only at the two ends. */
  ghost predicate Loop<T>(c: seq<ListNode<T>>) {
    && |c| >= 2 && c[0] == c[|c| - 1]
    && forall i, j {:trigger Pair(i, j)} :: Pair(i, j) && 0 <= i && j < |c| && (0 < i || j < |c| - 1) ==> c[i] != c[j]
  }

  lemma {:induction false} LoopDistinct<T>(c: seq<ListNode<T>>)
    requires Loop(c)
    ensures forall i, j :: 0 <= i < j < |c| - 1 ==> c[i] != c[j]
    ensures forall i, j :: 0 < i < j < |c| ==> c[i] != c[j]
  {
    forall i, j | 0 <= i < j < |c| && (0 < i || j < |c| - 1) ensures c[i] != c[j] {
      assert Pair(i, j);
    }
  }

  lemma {:induction false} LoopWithout<T>(c: seq<ListNode<T>>, i: nat)
    requires Loop(c) && 0 < i < |c| - 1
    ensures Loop(Without(c, i)) && c[i] !in Without(c, i)
  {
    var d, f := Without(c, i), (x: int) => if x < i then x else x + 1;
    LoopDistinct(c);
    assert forall x :: 0 <= x < |d| ==> d[x] == c[f(x)];
  }

  lemma {:induction false} LoopWith<T>(c: seq<ListNode<T>>, b: nat, x: ListNode<T>)
    requires Loop(c) && 0 < b < |c| && x !in c
    ensures Loop(With(c, b, x))
  {
    var d := With(c, b, x);
    LoopDistinct(c);
    assert forall y :: 0 <= y < |d| ==> d[y] == if y < b then c[y] else if y == b then x else c[y - 1];
  }

  /** The cell at position p, seen as a holder of a next (from the left) or a prev field. */
  lemma {:induction false} Apart<T>(c: seq<ListNode<T>>, p: nat, left: bool)
    requires Loop(c) && p < |c| && (if left then p < |c| - 1 else 0 < p)
    ensures left ==> forall x :: 0 <= x < |c| - 1 && x != p ==> c[x] != c[p]
    ensures !left ==> forall x :: 0 < x < |c| && x != p ==> c[x] != c[p]
  {
    forall x | 0 <= x < |c| && x != p && (if left then x < |c| - 1 else 0 < x) ensures c[x] != c[p] {
      assert Pair(x, p) || Pair(p, x);
    }
  }

  /** Remove(curr) */
  method Remove<T>(curr: ListNode<T>, ghost c: seq<ListNode<T>>, ghost i: nat) returns (next: ListNode<T>)
    requires RingLinked(c) && Loop(c) && 0 < i < |c| - 1 && c[i] == curr
    modifies c[i - 1], c[i + 1], curr
    ensures RingLinked(Without(c, i)) && Loop(Without(c, i)) && curr !in Without(c, i) && next == c[i + 1]
    ensures curr.next == null && curr.prev == null
  {
    hide Loop;
    LoopWithout(c, i);
    assert c[i].next == c[i + 1] && c[i].prev == c[i - 1];
    Apart(c, i - 1, true);
    Apart(c, i, true);
    Apart(c, i, false);
    Apart(c, i + 1, false);
    next := curr.next;
    curr.prev.next := curr.next;
    curr.next.prev := curr.prev;
    curr.prev := null;
    curr.next := null;
    ghost var d := Without(c, i);
    forall x | 0 <= x < |d| - 1 ensures d[x].next == d[x + 1] {
      assert d[x] == c[if x < i then x else x + 1] && d[x + 1] == c[if x + 1 < i then x + 1 else x + 2];
    }
    forall x | 1 <= x < |d| ensures d[x].prev == d[x - 1] {
      assert d[x] == c[if x < i then x else x + 1] && d[x - 1] == c[if x - 1 < i then x - 1 else x];
    }
  }

  /** InsertBefore(before, node) */
  method InsertBefore<T>(before: ListNode<T>, node: ListNode<T>, ghost c: seq<ListNode<T>>, ghost b: nat)
    requires RingLinked(c) && Loop(c) && 0 < b < |c| && c[b] == before && node !in c
    modifies c[b - 1], before, node
    ensures RingLinked(With(c, b, node)) && Loop(With(c, b, node))
  {
    hide Loop;
    LoopWith(c, b, node);
    assert c[b].prev == c[b - 1];
    Apart(c, b - 1, true);
    Apart(c, b, false);
    node.next := before;
    node.prev := before.prev;
    before.prev.next := node;
    before.prev := node;
    ghost var d := With(c, b, node);
    assert forall y :: 0 <= y < |d| ==> d[y] == if y < b then c[y] else if y == b then node else c[y - 1];
  }

  lemma {:induction false} LoopCut<T>(c: seq<ListNode<T>>, i: nat, j: nat)
    requires Loop(c) && 0 < i <= j < |c|
    ensures Loop(c[..i] + c[j..])
  {
    var d, f := c[..i] + c[j..], (x: int) => if x < i then x else x - i + j;
    assert forall x :: 0 <= x < |d| ==> d[x] == c[f(x)];
    forall x, y | Pair(x, y) && 0 <= x && y < |d| && (0 < x || y < |d| - 1) ensures d[x] != d[y] {
      assert Pair(f(x), f(y));
    }
  }

  /** Remove(first, last): cuts first..last = c[i..j] out; the run stays linked and ends in null. */
  method RemoveRange<T>(first: ListNode<T>, last: ListNode<T>, ghost c: seq<ListNode<T>>, ghost i: nat, ghost j: nat)
    requires RingLinked(c) && Loop(c) && 0 < i < j < |c| && c[i] == first && c[j - 1] == last
    modifies c[i - 1], c[j], first, last
    ensures RingLinked(c[..i] + c[j..]) && Loop(c[..i] + c[j..])
    ensures forall k {:trigger c[k].next} :: i <= k < j ==> c[k].next == if k + 1 < j then c[k + 1] else null
  {
    hide Loop;
    LoopCut(c, i, j);
    assert c[j - 1].next == c[j] && c[i].prev == c[i - 1];
    Apart(c, i - 1, true);
    Apart(c, j - 1, true);
    Apart(c, i, false);
    Apart(c, j, false);
    first.prev.next := last.next;
    last.next.prev := first.prev;
    first.prev := null;
    last.next := null;
    ghost var d, f := c[..i] + c[j..], (x: int) => if x < i then x else x - i + j;
    forall x | 0 <= x < |d| - 1 ensures d[x].next == d[x + 1] {
      assert d[x] == c[f(x)] && d[x + 1] == c[f(x + 1)];
    }
    forall x | 1 <= x < |d| ensures d[x].prev == d[x - 1] {
      assert d[x] == c[f(x)] && d[x - 1] == c[f(x - 1)];
    }
  }
}
