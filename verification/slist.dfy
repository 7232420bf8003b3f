/** src/gtl/container/slist.h and slist_base.h: the singly linked list with a
    tail pointer, and its three sorts. */
module SLists {
  import opened Wrappers
  import opened SinglyList
  import opened Sorting
  import opened SeqMoves
  import opened ListSorting

  function Value<V>(n: Node<V>): Option<V> {
    n.val
  }

  lemma {:induction false} ChainWithout<T>(h: T, s: seq<T>, i: nat)
    requires i < |s|
    ensures ([h] + s)[..i + 1] + ([h] + s)[i + 2..] == [h] + Without(s, i)
  {
  }

  lemma {:induction false} ChainWith<T>(h: T, s: seq<T>, b: nat, x: T)
    requires b <= |s|
    ensures ([h] + s)[..b + 1] + [x] + ([h] + s)[b + 1..] == [h] + With(s, b, x)
  {
  }

  /** What cutting s[i] out behind the head h means on the bare sequences. */
  lemma {:induction false} ChainCut<T>(h: T, s: seq<T>, i: nat)
    requires NoDup([h] + s) && i < |s|
    ensures NoDup([h] + Without(s, i)) && s[i] != h && s[i] !in Without(s, i)
    ensures ([h] + Without(s, i))[|s| - 1] == if i + 1 < |s| then ([h] + s)[|s|] else ([h] + s)[i]
  {
    var c, d := [h] + s, [h] + Without(s, i);
    NoDupIsDistinct(c);
    assert forall j :: 0 <= j < |d| ==> d[j] == c[if j <= i then j else j + 1];
    NoDupIsDistinct(d);
    assert c[i + 1] == s[i] && c[0] == h;
    forall j | 0 <= j < |s| - 1 ensures Without(s, i)[j] != s[i] {
      assert d[j + 1] == Without(s, i)[j] == c[if j < i then j + 1 else j + 2];
    }
  }

  /** What linking x in behind position b means on the bare sequences. */
  lemma {:induction false} ChainLink<T>(h: T, s: seq<T>, b: nat, x: T)
    requires NoDup([h] + s) && b <= |s| && x !in [h] + s
    ensures NoDup([h] + With(s, b, x))
    ensures if b == |s| then ([h] + With(s, b, x))[|s| + 1] == x else ([h] + With(s, b, x))[|s| + 1] == ([h] + s)[|s|]
  {
    var c, d := [h] + s, [h] + With(s, b, x);
    NoDupIsDistinct(c);
    assert forall j :: 0 <= j < |d| ==> d[j] == if j <= b then c[j] else if j == b + 1 then x else c[j - 1];
    assert forall j :: 0 <= j < |c| ==> c[j] != x;
    forall j, k | 0 <= j < k < |d| ensures d[j] != d[k] {
      if j != b + 1 && k != b + 1 {
        assert c[if j <= b then j else j - 1] != c[if k <= b then k else k - 1];
      } else {
        assert c[if j == b + 1 then k - 1 else j] != x;
      }
    }
    NoDupIsDistinct(d);
  }

  class SList<V(!new)> {
    var head: Node<V>
    var tail: Node<V>
    var size: nat
    ghost var nodes: seq<Node<V>>
    ghost var cells: set<Node<V>>

    ghost function Chain(): seq<Node<V>>
      reads this
    {
      [head] + nodes
    }

    ghost predicate Valid()
      reads this, cells
    {
      && size == |nodes| && head.val.None? && (forall n :: n in nodes ==> n.val.Some?)
      && cells == {head} + (set n | n in nodes)
      && NoDup(Chain()) && Linked(Chain())
      && tail == Chain()[|nodes|]
    }

    /** The last node of the prefix x of this list: the head when x is empty. */
    ghost function Tip(x: seq<Node<V>>): Node<V>
      reads this
    {
      if x == [] then head else x[|x| - 1]
    }

    /** Cell 0 is the head, cell i the i-th node. */
    ghost function Cell(i: nat): Node<V>
      requires i <= |nodes|
      reads this
    {
      if i == 0 then head else nodes[i - 1]
    }

    constructor ()
      ensures Valid() && nodes == [] && fresh(head) && cells == {head}
    {
      var h := new Node<V>(None);
      head, tail, size, nodes, cells := h, h, 0, [], {h};
    }

    lemma {:induction false} CellFacts(i: nat)
      requires Valid() && i <= |nodes|
      ensures Cell(i) == Chain()[i] && Cell(i) in cells && Cell(i).next == At(nodes, i)
      ensures (Cell(i) == tail <==> i == |nodes|) && (Cell(i) == head <==> i == 0)
      ensures i > 0 ==> Cell(i).val.Some?
    {
      var c := Chain();
      assert c[i].next == At(c, i + 1);
      assert i < |nodes| <==> Pair(i, |nodes|);
      assert 0 < i <==> Pair(0, i);
      if i > 0 { assert nodes[i - 1] in nodes; }
    }

    lemma {:induction false} Sortable()
      requires Valid()
      ensures Distinct(nodes) && forall x :: x in nodes ==> Value(x).Some?
    {
      NoDupIsDistinct([head] + nodes);
      assert forall i :: 0 <= i < |nodes| ==> ([head] + nodes)[i + 1] == nodes[i];
    }

    /** What a list is between calls: the pointers lead from the head along the nodes to null, the tail is the last node
        or else the head, and no node is listed twice. */
    lemma {:induction false} PointersMean()
      requires Valid()
      ensures size == |nodes| && head.next == (if nodes == [] then null else nodes[0])
      ensures tail == if nodes == [] then head else nodes[|nodes| - 1]
      ensures forall i :: 0 <= i < |nodes| ==>
                && nodes[i].next == (if i + 1 < |nodes| then nodes[i + 1] else null)
                && nodes[i] != head && nodes[i].val.Some?
      ensures forall i, j :: 0 <= i < j < |nodes| ==> nodes[i] != nodes[j]
    {
      hide Linked;
      hide NoDup;
      Sortable();
      CellFacts(0);
      CellFacts(|nodes|);
      forall i | 0 <= i < |nodes|
        ensures nodes[i].next == (if i + 1 < |nodes| then nodes[i + 1] else null) && nodes[i] != head
        ensures nodes[i].val.Some?
      {
        CellFacts(i + 1);
      }
    }

    /** The list cut at a position: what cells, begin() and next say about the rest a. */
    lemma {:induction false} Cut(x: seq<Node<V>>, a: seq<Node<V>>)
      requires Valid() && nodes == x + a
      ensures Cell(|x|) == Tip(x) && Tip(x).next == At(a, 0) && (Tip(x) == tail <==> a == [])
      ensures a != [] ==> a[0].val.Some? && a[0].next == At(a, 1) && Cell(|x| + 1) == a[0] && At(nodes, |x|) == a[0]
      ensures At(nodes, |nodes|) == null && size == |x| + |a|
    {
      CellFacts(|x|);
      if a != [] {
        CellFacts(|x| + 1);
        assert nodes[|x|] == a[0];
        if |a| > 1 { assert nodes[|x| + 1] == a[1]; }
      }
    }

    lemma {:induction false} UnlinkFacts(i: nat)
      requires Valid() && i < |nodes|
      ensures Cell(i).next == nodes[i] && Cell(i) == Chain()[i] && Cell(i) in cells && nodes[i] in cells
      ensures (nodes[i] == tail <==> i + 1 == |nodes|) && nodes[i] == Chain()[i + 1]
      ensures cells - {nodes[i]} == {head} + (set n | n in Without(nodes, i))
    {
      CellFacts(i);
      CellFacts(i + 1);
      ChainCut(head, nodes, i);
      forall n | n in nodes && n != nodes[i] ensures n in Without(nodes, i) {
        WithoutElem(nodes, i, n);
      }
    }

    /** RemoveAfter(slist_head, after): unlinks the node behind cell i; the size goes with it. */
    method UnlinkAfter(after: Node<V>, ghost i: nat) returns (next: Node?<V>)
      requires Valid() && i < |nodes| && after == Cell(i)
      modifies this`size, this`tail, this`nodes, this`cells, cells
      ensures Valid() && nodes == Without(old(nodes), i) && next == At(nodes, i)
      ensures cells == old(cells) - {old(nodes)[i]} && head == old(head) && old(nodes)[i].next == null
    {
      hide NoDup;
      hide Linked;
      UnlinkFacts(i);
      ChainCut(head, nodes, i);
      ChainWithout(head, nodes, i);
      ghost var c, curr := Chain(), nodes[i];
      if after.next == tail {
        tail := after;
      }
      size, nodes, cells := size - 1, Without(nodes, i), cells - {curr};
      next := RemoveOneAfter(after, c, i);
    }

    lemma {:induction false} LinkFacts(b: nat, node: Node<V>)
      requires Valid() && b <= |nodes| && node !in cells
      ensures Cell(b) == Chain()[b] && Cell(b) in cells && node !in Chain() && head in cells
      ensures (Cell(b) == tail <==> b == |nodes|) && (Cell(b) == head <==> b == 0)
      ensures (b == 0 ==> (head.next == null <==> nodes == []))
    {
      CellFacts(b);
    }

    /** InsertAfter(slist_head, after, node): links a node behind cell b; the size goes with it. */
    method LinkAfter(after: Node<V>, node: Node<V>, ghost b: nat)
      requires Valid() && b <= |nodes| && after == Cell(b) && node !in cells && node.val.Some?
      modifies this`size, this`tail, this`nodes, this`cells, cells, node
      ensures Valid() && nodes == With(old(nodes), b, node)
      ensures cells == old(cells) + {node} && head == old(head)
    {
      hide NoDup;
      hide Linked;
      LinkFacts(b, node);
      ChainWith(head, nodes, b, node);
      ChainLink(head, nodes, b, node);
      WithElems(nodes, b, node);
      ghost var c := Chain();
      size, nodes, cells := size + 1, With(nodes, b, node), cells + {node};
      if after == head {
        if head.next == null {
          tail := node;
        }
        InsertOneAfter(head, node, c, b);
      } else if after == tail {
        InsertOneAfter(tail, node, c, b);
        tail := node;
      } else {
        InsertOneAfter(after, node, c, b);
      }
    }

    lemma {:induction false} DisjointAt(other: SList<V>, b: nat, i: nat)
      requires Valid() && other.Valid() && cells !! other.cells && b <= |nodes| && i <= |other.nodes|
      ensures Cell(b) != other.Cell(i)
      ensures i < |other.nodes| ==> other.nodes[i] != Cell(b)
    {
      CellFacts(b);
      other.CellFacts(i);
      if i < |other.nodes| { assert other.nodes[i] in other.nodes; }
    }

    /** Different positions hold different cells. */
    lemma {:induction false} CellInjective(i: nat, j: nat)
      requires Valid() && i <= |nodes| && j <= |nodes| && Cell(i) == Cell(j)
      ensures i == j
    {
      NoDupIsDistinct(Chain());
      assert Cell(i) == Chain()[i] && Cell(j) == Chain()[j];
    }

    lemma {:induction false} NextOf(i: nat)
      requires Valid() && i <= |nodes|
      ensures Cell(i).next == At(nodes, i) && (i < |nodes| ==> nodes[i] == Cell(i + 1) && nodes[i].val.Some?)
    {
      CellFacts(i);
      if i < |nodes| { assert nodes[i] in nodes; }
    }

    /** One round of the transfer_after loop between two lists. */
    method MoveOne(after: Node<V>, other: SList<V>, first: Node<V>, node: Node<V>, ghost b: nat, ghost i: nat)
      returns (next: Node?<V>)
      requires Valid() && other.Valid() && this != other && cells !! other.cells
      requires b <= |nodes| && after == Cell(b) && i < |other.nodes| && first == other.Cell(i) && node == other.nodes[i]
      modifies this`size, this`tail, this`nodes, this`cells, other`size, other`tail, other`nodes, other`cells, cells
      modifies other.cells
      ensures Valid() && other.Valid() && cells !! other.cells
      ensures nodes == With(old(nodes), b, node) && other.nodes == Without(old(other.nodes), i)
      ensures cells + other.cells == old(cells + other.cells) && head == old(head) && other.head == old(other.head)
      ensures next == At(other.nodes, i)
    {
      hide NoDup;
      hide Linked;
      other.UnlinkFacts(i);
      other.NextOf(i);
      next := other.UnlinkAfter(first, i);
      assert Valid();
      LinkAfter(after, node, b);
    }

    /** transfer_after(after, other, first, last) between two lists: (first, last) moves behind after. */
    method TransferAfter(after: Node<V>, other: SList<V>, first: Node<V>, last: Node?<V>, ghost b: nat, ghost i: nat,
        ghost j: nat)
      requires Valid() && other.Valid() && this != other && cells !! other.cells
      requires b <= |nodes| && after == Cell(b)
      requires i <= j <= |other.nodes| && first == other.Cell(i) && last == At(other.nodes, j)
      modifies this`size, this`tail, this`nodes, this`cells, other`size, other`tail, other`nodes, other`cells, cells
      modifies other.cells
      ensures Valid() && other.Valid() && cells !! other.cells
      ensures nodes == Spliced(old(nodes), b, old(other.nodes), i, j)
           == old(nodes)[..b] + old(other.nodes)[i..j] + old(nodes)[b..]
      ensures other.nodes == old(other.nodes)[..i] + old(other.nodes)[j..]
      ensures cells + other.cells == old(cells + other.cells) && head == old(head) && other.head == old(other.head)
    {
      hide Valid;
      hide Spliced;
      hide Without;
      ghost var a, s := nodes, other.nodes;
      SpliceStart(a, b, s, i);
      SplicedIs(a, b, s, i, j);
      DisjointAt(other, b, i);
      other.Before(i, j);
      if first != last && after != first {
        var node := first.next;
        var afterNode := after;
        other.NextOf(i);
        if node == afterNode {
          return;
        }
        ghost var k := i;
        while node != last
          invariant Valid() && other.Valid() && cells !! other.cells
          invariant i <= k <= j && nodes == Spliced(a, b, s, i, k) && other.nodes == s[..i] + s[k..]
          invariant cells + other.cells == old(cells + other.cells) && head == old(head)
          invariant other.head == old(other.head)
          invariant node == At(s, k) && b + k - i <= |nodes| && afterNode == Cell(b + k - i) && first == other.Cell(i)
          decreases j - k
        {
          SpliceStep(a, b, s, i, k);
          var next := MoveOne(afterNode, other, first, node, b + k - i, i);
          afterNode := node;
          node, k := next, k + 1;
        }
      }
    }

    /** In a walk from cell i the node at j is met at j and nowhere before. */
    lemma {:induction false} Before(i: nat, j: nat)
      requires Valid() && i <= j <= |nodes|
      ensures Cell(i) != At(nodes, j)
      ensures forall x :: i <= x < j ==> nodes[x] != At(nodes, j)
    {
      CellFacts(i);
      if j < |nodes| {
        if Cell(i) == Cell(j + 1) { CellInjective(i, j + 1); }
        forall x | i <= x < j ensures nodes[x] != nodes[j] {
          if Cell(x + 1) == Cell(j + 1) { CellInjective(x + 1, j + 1); }
        }
      }
    }

    /** splice_after(after, other, it): moves the one node behind `it`. */
    method SpliceOne(after: Node<V>, other: SList<V>, it: Node<V>, ghost b: nat, ghost i: nat)
      requires Valid() && other.Valid() && this != other && cells !! other.cells
      requires b <= |nodes| && after == Cell(b) && i < |other.nodes| && it == other.Cell(i)
      modifies this`size, this`tail, this`nodes, this`cells, other`size, other`tail, other`nodes, other`cells, cells
      modifies other.cells
      ensures Valid() && other.Valid() && cells !! other.cells
      ensures nodes == old(nodes)[..b] + [old(other.nodes)[i]] + old(nodes)[b..]
      ensures other.nodes == old(other.nodes)[..i] + old(other.nodes)[i + 1..]
      ensures cells + other.cells == old(cells + other.cells) && head == old(head) && other.head == old(other.head)
    {
      hide Valid;
      hide Spliced;
      ghost var a, s := nodes, other.nodes;
      DisjointAt(other, b, i);
      other.NextOf(i);
      other.NextOf(i + 1);
      SpliceStart(a, b, s, i);
      SpliceStep(a, b, s, i, i);
      if after != it {
        var next := it.next;
        if after != next && next != null {
          TransferAfter(after, other, it, next.next, b, i, i + 1);
        }
      }
    }

    static lemma {:induction false} TakeSlices(b: seq<Node<V>>)
      requires b != []
      ensures [] + ([b[0]] + b[1..]) == b && [] + b[1..] == b[1..]
    {
    }

    // Operations

    /** One node of merge taken from other: it goes behind prev and becomes prev. */
    method MergeTake(prev: Node<V>, other: SList<V>, ghost done: seq<Node<V>>, ghost a: seq<Node<V>>,
        ghost b: seq<Node<V>>)
      returns (right: Node?<V>, prev': Node<V>)
      requires Valid() && other.Valid() && this != other && cells !! other.cells
      requires nodes == done + a && other.nodes == b && b != [] && prev == Tip(done)
      modifies this`size, this`tail, this`nodes, this`cells, other`size, other`tail, other`nodes, other`cells, cells
      modifies other.cells
      ensures Valid() && other.Valid() && cells !! other.cells
      ensures nodes == done + [b[0]] + a && other.nodes == b[1..] && prev' == b[0] && right == At(b[1..], 0)
      ensures cells + other.cells == old(cells + other.cells) && head == old(head) && other.head == old(other.head)
    {
      hide Valid;
      hide With;
      hide Without;
      Cut(done, a);
      other.Cut([], b);
      PutIn(done, b[0], a);
      TakeOut([], b[0], b[1..]);
      TakeSlices(b);
      SpliceOne(prev, other, other.head, |done|, 0);
      other.Cut([], b[1..]);
      assert done + [b[0]] + a == done + ([b[0]] + a);
      Cut(done, [b[0]] + a);
      right := other.head.next;
      prev' := prev.next;
    }

    /** splice_after(it, other): everything goes in behind it. */
    method GiveBack(it: Node<V>, other: SList<V>, ghost done: seq<Node<V>>, ghost rest: seq<Node<V>>)
      requires Valid() && other.Valid() && this != other && cells !! other.cells
      requires nodes == done + rest && it == Tip(done)
      modifies this`size, this`tail, this`nodes, this`cells, other`size, other`tail, other`nodes, other`cells, cells
      modifies other.cells
      ensures Valid() && other.Valid() && cells !! other.cells && nodes == done + old(other.nodes) + rest
      ensures other.nodes == []
      ensures cells + other.cells == old(cells + other.cells) && head == old(head) && other.head == old(other.head)
    {
      hide Valid;
      hide Spliced;
      ghost var x := other.nodes;
      ChunkSlices(done, x, rest);
      Cut(done, rest);
      other.Cut([], x);
      TransferAfter(it, other, other.head, null, |done|, 0, |x|);
    }

    /** merge(other): one pass; prev is the cell behind which the next node goes. */
    method MergeFrom(other: SList<V>, lt: (V, V) -> bool)
      requires Valid() && other.Valid() && this != other && cells !! other.cells
      modifies this`size, this`tail, this`nodes, this`cells, other`size, other`tail, other`nodes, other`cells, cells
      modifies other.cells
      ensures Valid() && other.Valid() && cells !! other.cells
      ensures nodes == MergeOf(Value<V>, lt, old(nodes), old(other.nodes)) && other.nodes == []
      ensures cells + other.cells == old(cells + other.cells) && head == old(head) && other.head == old(other.head)
    {
      hide Valid;
      hide MergeOf;
      hide With;
      hide Without;
      Cut([], nodes);
      other.Cut([], other.nodes);
      var prev, left, right := head, head.next, other.head.next;
      ghost var done, a, b := [], nodes, other.nodes;
      while left != null && right != null
        invariant Valid() && other.Valid() && cells !! other.cells
        invariant nodes == done + a && other.nodes == b && prev == Tip(done) && left == At(a, 0) && right == At(b, 0)
        invariant done + MergeOf(Value<V>, lt, a, b) == MergeOf(Value<V>, lt, old(nodes), old(other.nodes))
        invariant cells + other.cells == old(cells + other.cells) && head == old(head) && other.head == old(other.head)
        decreases |a| + |b|
      {
        Cut(done, a);
        other.Cut([], b);
        MergeRound(Value<V>, lt, done, a, b);
        if lt(right.val.value, left.val.value) {
          right, prev := MergeTake(prev, other, done, a, b);
          done, b := done + [b[0]], b[1..];
        } else {
          ShiftHead(done, a);
          prev, left := left, left.next;
          done, a := done + [a[0]], a[1..];
        }
      }
      Cut(done, a);
      other.Cut([], b);
      MergeEnd(Value<V>, lt, done, a, b);
      if right != null {
        GiveBack(prev, other, done, a);
        AppendBoth(done, a, b);
      }
    }

    /** splice_after(before_begin(), other, it, last) into this empty list. */
    method TakeChunk(other: SList<V>, it: Node<V>, last: Node?<V>, ghost done: seq<Node<V>>, ghost x: seq<Node<V>>,
        ghost rest: seq<Node<V>>)
      requires Valid() && other.Valid() && this != other && cells !! other.cells && nodes == []
      requires other.nodes == done + x + rest && it == other.Tip(done) && last == At(rest, 0)
      modifies this`size, this`tail, this`nodes, this`cells, other`size, other`tail, other`nodes, other`cells, cells
      modifies other.cells
      ensures Valid() && other.Valid() && cells !! other.cells && nodes == x && other.nodes == done + rest
      ensures cells + other.cells == old(cells + other.cells) && head == old(head) && other.head == old(other.head)
    {
      hide Valid;
      hide Spliced;
      Cut([], []);
      ChunkSlices(done, x, rest);
      other.Cut(done, x + rest);
      other.Cut(done + x, rest);
      TransferAfter(head, other, it, last, 0, |done|, |done| + |x|);
    }

    lemma {:induction false} EmptyCells()
      requires Valid() && nodes == []
      ensures cells == {head}
    {
    }

    /** A new list beside this one. */
    method Scratch() returns (l: SList<V>)
      requires Valid()
      ensures Valid() && l.Valid() && l.nodes == [] && fresh(l) && fresh(l.head)
      ensures l.cells == {l.head} && cells !! l.cells
    {
      l := new SList<V>();
    }

    /** gtl::next(from, k) */
    method Advance(from: Node<V>, k: nat, ghost i: nat) returns (it: Node?<V>)
      requires Valid() && i + k <= |nodes| + 1 && i <= |nodes| && from == Cell(i)
      ensures it == if i + k <= |nodes| then Cell(i + k) else null
    {
      hide Valid;
      it := from;
      var n := 0;
      while n < k
        invariant n <= k && it == if i + n <= |nodes| then Cell(i + n) else null
      {
        NextOf(i + n);
        it, n := it.next, n + 1;
      }
    }

    /** right.splice_after(right.before_begin(), *this, gtl::next(before_begin(), m), end()) */
    method TakeHalf(other: SList<V>, m: nat)
      requires Valid() && other.Valid() && this != other && cells !! other.cells && nodes == [] && m <= |other.nodes|
      modifies this`size, this`tail, this`nodes, this`cells, other`size, other`tail, other`nodes, other`cells, cells
      modifies other.cells
      ensures Valid() && other.Valid() && cells !! other.cells
      ensures nodes == old(other.nodes)[m..] && other.nodes == old(other.nodes)[..m]
      ensures cells + other.cells == old(cells + other.cells) && head == old(head) && other.head == old(other.head)
    {
      hide Valid;
      ghost var s := other.nodes;
      var mid := other.Advance(other.head, m, 0);
      assert s == s[..m] + s[m..] + [] && s[..m] + [] == s[..m];
      TakeChunk(other, mid, null, s[..m], s[m..], []);
    }

    /** merge_sort(): the upper half moves to a second list, both halves are sorted and merged back. */
    method MergeSort(lt: (V, V) -> bool)
      requires Valid() && StrictWeak(lt)
      modifies this`size, this`tail, this`nodes, this`cells, cells
      ensures Valid() && nodes == SortOf(Value<V>, lt, old(nodes))
      ensures cells == old(cells) && head == old(head)
      decreases |nodes|
    {
      hide *;
      Cut([], nodes);
      if size <= 1 {
        SortShort(Value<V>, lt, nodes);
        return;
      }
      ghost var s, m := nodes, size / 2;
      var right := Scratch();
      right.TakeHalf(this, size / 2);
      MergeSort(lt);
      right.MergeSort(lt);
      SortHalves(Value<V>, lt, s, m);
      MergeFrom(right, lt);
      right.EmptyCells();
    }

    /** The next i nodes behind `it`, or all of them, go to an empty list. */
    method Detach(it: Node<V>, i: nat, all: bool, to: SList<V>, ghost done: seq<Node<V>>, ghost x: seq<Node<V>>,
        ghost rest: seq<Node<V>>)
      requires Valid() && to.Valid() && this != to && cells !! to.cells && to.nodes == []
      requires nodes == done + x + rest && it == Tip(done) && (if all then rest == [] else |x| == i)
      modifies this`size, this`tail, this`nodes, this`cells, to`size, to`tail, to`nodes, to`cells, cells, to.cells
      ensures Valid() && to.Valid() && cells !! to.cells && to.nodes == x && nodes == done + rest
      ensures cells + to.cells == old(cells + to.cells) && head == old(head) && to.head == old(to.head)
    {
      hide Valid;
      ChunkSlices(done, x, rest);
      Cut(done, x + rest);
      Cut(done + x, rest);
      var last: Node?<V> := null;
      if !all {
        last := Advance(it, i + 1, |done|);
        NextOf(|done| + i);
      }
      to.TakeChunk(this, it, last, done, x, rest);
    }

    ghost predicate Scratches(left: SList<V>, right: SList<V>)
      reads this, left, right, left.cells, right.cells
    {
      && left.Valid() && right.Valid() && this != left && this != right && left != right
      && cells !! left.cells && cells !! right.cells && left.cells !! right.cells && left.nodes == []
      && right.nodes == []
    }

    /** One merge of sort(): the chunks x and y behind `it` go to two lists, are merged and come back. */
    method MergePair(it: Node<V>, i: nat, all: bool, left: SList<V>, right: SList<V>, lt: (V, V) -> bool,
                     ghost done: seq<Node<V>>, ghost x: seq<Node<V>>, ghost y: seq<Node<V>>, ghost rest: seq<Node<V>>)
      requires Valid() && Scratches(left, right)
      requires nodes == done + x + y + rest && it == Tip(done) && |x| == i && (if all then rest == [] else |y| == i)
      modifies this`size, this`tail, this`nodes, this`cells, cells, left`size, left`tail, left`nodes, left`cells
      modifies right`size, right`tail, right`nodes, right`cells, left.cells, right.cells
      ensures Valid() && Scratches(left, right)
      ensures nodes == done + MergeOf(Value<V>, lt, x, y) + rest
      ensures cells == old(cells) && head == old(head) && left.cells == old(left.cells)
      ensures right.cells == old(right.cells)
    {
      hide Valid;
      hide MergeOf;
      left.EmptyCells();
      right.EmptyCells();
      assert done + x + y + rest == done + x + (y + rest) && done + (y + rest) == done + y + rest;
      Detach(it, i, false, left, done, x, y + rest);
      Detach(it, i, all, right, done, y, rest);
      left.MergeFrom(right, lt);
      GiveBack(it, left, done, rest);
      left.EmptyCells();
      right.EmptyCells();
    }

    lemma {:induction false} TwoScratches(left: SList<V>, right: SList<V>)
      requires Valid() && left.Valid() && right.Valid() && this != left && this != right && left != right
      requires cells !! left.cells && cells !! right.cells && left.cells !! right.cells && left.nodes == []
      requires right.nodes == []
      ensures Scratches(left, right)
    {
    }

    /** gtl::next(it, c), from the cell k to the end of the longer prefix. */
    method AdvanceInside(from: Node<V>, c: nat, ghost k: nat, ghost done: seq<Node<V>>) returns (it: Node<V>)
      requires Valid() && k + c == |done| <= |nodes| && nodes[..|done|] == done && from == Cell(k)
      ensures it == Tip(done)
    {
      hide Valid;
      var r := Advance(from, c, k);
      it := r;
    }

    static lemma {:induction false} NoChunks(lt: (V, V) -> bool, s: seq<Node<V>>, i: nat)
      requires s == [] && i > 0
      ensures ChunksOf(Value<V>, lt, s, i) == []
    {
      ChunksEnd(Value<V>, lt, s, i);
      SortShort(Value<V>, lt, s);
    }

    /** One merge round of a pass, seen on the chunk sequence. */
    method PassRound(i: nat, it: Node<V>, all: bool, left: SList<V>, right: SList<V>, lt: (V, V) -> bool,
                     ghost done: seq<Node<V>>, ghost rest: seq<Node<V>>, ghost m: nat)
      returns (ghost done': seq<Node<V>>, ghost rest': seq<Node<V>>)
      requires Valid() && StrictWeak(lt) && Scratches(left, right)
      requires 0 < i < |rest| && m == (if |rest| <= 2 * i then |rest| else 2 * i)
      requires (if all then m == |rest| else m == 2 * i)
      requires nodes == done + ChunksOf(Value<V>, lt, rest, i) && it == Tip(done)
      modifies this`size, this`tail, this`nodes, this`cells, cells, left`size, left`tail, left`nodes, left`cells
      modifies right`size, right`tail, right`nodes, right`cells, left.cells, right.cells
      ensures Valid() && Scratches(left, right) && |nodes| == |old(nodes)|
      ensures rest' == rest[m..] && |done'| == |done| + m && done'[..|done|] == done
      ensures nodes == done' + ChunksOf(Value<V>, lt, rest', i)
      ensures done' + ChunksOf(Value<V>, lt, rest', 2 * i) == done + ChunksOf(Value<V>, lt, rest, 2 * i)
      ensures cells == old(cells) && head == old(head) && left.cells == old(left.cells)
      ensures right.cells == old(right.cells)
    {
      hide Valid;
      hide SortOf;
      hide MergeOf;
      hide ChunksOf;
      hide StrictWeak;
      hide Scratches;
      ghost var x, y, tail := SortOf(Value<V>, lt, rest[..i]), SortOf(Value<V>, lt, rest[i..m]),
          ChunksOf(Value<V>, lt, rest[m..], i);
      ChunksPair(Value<V>, lt, rest, i, m);
      RoundSlices(done, x, y, tail, MergeOf(Value<V>, lt, x, y), ChunksOf(Value<V>, lt, rest[m..], 2 * i));
      if all { NoChunks(lt, rest[m..], i); }
      MergePair(it, i, all, left, right, lt, done, x, y, tail);
      done', rest' := done + MergeOf(Value<V>, lt, x, y), rest[m..];
    }

    /** One pass of sort(): chunks of i become chunks of 2 i. */
    method SortPass(i: nat, left: SList<V>, right: SList<V>, lt: (V, V) -> bool, ghost s: seq<Node<V>>)
      requires Valid() && StrictWeak(lt) && Scratches(left, right) && 0 < i < size && size == |s|
      requires nodes == ChunksOf(Value<V>, lt, s, i)
      modifies this`size, this`tail, this`nodes, this`cells, cells, left`size, left`tail, left`nodes, left`cells
      modifies right`size, right`tail, right`nodes, right`cells, left.cells, right.cells
      ensures Valid() && Scratches(left, right) && nodes == ChunksOf(Value<V>, lt, s, 2 * i) && |nodes| == |s|
      ensures cells == old(cells) && head == old(head)
      ensures left.cells == old(left.cells) && right.cells == old(right.cells)
    {
      hide Valid;
      hide SortOf;
      hide MergeOf;
      hide ChunksOf;
      hide StrictWeak;
      var c := 2 * i;
      var n := size - size % c;
      DivMod(size, c);
      ghost var done, rest, total, t, q := [], s, |s|, 0, size / c;
      LengthOfChunks(Value<V>, lt, s, i);
      assert [] + ChunksOf(Value<V>, lt, s, i) == ChunksOf(Value<V>, lt, s, i);
      assert [] + ChunksOf(Value<V>, lt, s, c) == ChunksOf(Value<V>, lt, s, c);
      var it := head;
      var j := 0;
      while j < n
        invariant j <= n && j == t * c && t <= q && |rest| == total - j && |done| == j && |nodes| == total
        invariant Valid() && Scratches(left, right) && nodes == done + ChunksOf(Value<V>, lt, rest, i)
        invariant it == Tip(done)
        invariant done + ChunksOf(Value<V>, lt, rest, c) == ChunksOf(Value<V>, lt, s, c)
        invariant cells == old(cells) && head == old(head) && left.cells == old(left.cells)
        invariant right.cells == old(right.cells)
      {
        Multiples(t, q, c);
        ghost var k := |done|;
        done, rest := PassRound(i, it, false, left, right, lt, done, rest, c);
        Cut(done, ChunksOf(Value<V>, lt, rest, i));
        it := AdvanceInside(it, c, k, done);
        j, t := j + c, t + 1;
      }
      Cut([], nodes);
      Multiples(t, q, c);
      assert j == n;
      n := size % c;
      if n > i {
        done, rest := PassRound(i, it, true, left, right, lt, done, rest, |rest|);
      }
      ChunksEnd(Value<V>, lt, rest, i);
      ChunksEnd(Value<V>, lt, rest, c);
    }

    /** sort(): bottom-up merging of chunks of 1, 2, 4, ... nodes. */
    method Sort(lt: (V, V) -> bool)
      requires Valid() && StrictWeak(lt)
      modifies this`size, this`tail, this`nodes, this`cells, cells
      ensures Valid() && nodes == SortOf(Value<V>, lt, old(nodes))
      ensures cells == old(cells) && head == old(head)
    {
      hide *;
      Cut([], nodes);
      if size <= 1 {
        SortShort(Value<V>, lt, nodes);
        return;
      }
      var left := Scratch();
      var right := Scratch();
      TwoScratches(left, right);
      ghost var s := nodes;
      ChunksStart(Value<V>, lt, s);
      var i := 1;
      while i < size
        invariant i > 0 && Valid() && size == |s| && nodes == ChunksOf(Value<V>, lt, s, i)
        invariant Scratches(left, right) && fresh(left) && fresh(left.cells) && fresh(right) && fresh(right.cells)
        invariant cells == old(cells) && head == old(head)
      {
        SortPass(i, left, right, lt, s);
        Cut([], nodes);
        i := i * 2;
      }
      ChunksEnd(Value<V>, lt, s, i);
    }

    lemma {:induction false} TailCell()
      requires Valid()
      ensures tail == Cell(|nodes|)
    {
    }

    /** sort(comp): the chunks are merged in the default order, so comp decides nothing.  The nodes are in its order
        exactly if both orders agree on whether a later element is below an earlier one. */
    method SortBy(comp: (V, V) -> bool, less: (V, V) -> bool)
      requires Valid() && StrictWeak(comp) && StrictWeak(less)
      modifies this`size, this`tail, this`nodes, this`cells, cells
      ensures Valid() && nodes == SortOf(Value<V>, less, old(nodes))
      ensures nodes == SortOf(Value<V>, comp, old(nodes)) <==>
          forall u, v :: 0 <= u < v < |old(nodes)| && old(nodes)[u].val.Some? && old(nodes)[v].val.Some? ==>
            (less(old(nodes)[v].val.value, old(nodes)[u].val.value)
             <==> comp(old(nodes)[v].val.value, old(nodes)[u].val.value))
      ensures cells == old(cells) && head == old(head)
    {
      hide Valid;
      hide SortOf;
      hide StrictWeak;
      Sortable();
      SortsAgree(Value<V>, less, comp, nodes);
      Sort(less);
    }

    /** splice_after(before_end(), other, it, last) */
    method Append(other: SList<V>, it: Node<V>, last: Node?<V>, ghost done: seq<Node<V>>, ghost x: seq<Node<V>>,
        ghost rest: seq<Node<V>>)
      requires Valid() && other.Valid() && this != other && cells !! other.cells
      requires other.nodes == done + x + rest && it == other.Tip(done) && last == At(rest, 0)
      modifies this`size, this`tail, this`nodes, this`cells, other`size, other`tail, other`nodes, other`cells, cells
      modifies other.cells
      ensures Valid() && other.Valid() && cells !! other.cells && nodes == old(nodes) + x && other.nodes == done + rest
      ensures cells + other.cells == old(cells + other.cells) && head == old(head) && other.head == old(other.head)
    {
      hide Valid;
      hide Spliced;
      ghost var a := nodes;
      AppendSlices(a, done, x, rest);
      Cut(a, []);
      other.Cut(done, x + rest);
      other.Cut(done + x, rest);
      TailCell();
      TransferAfter(tail, other, it, last, |a|, |done|, |done| + |x|);
    }

    /** left.splice_after(left.before_end(), *this, prev) */
    method SpliceBehind(left: SList<V>, prev: Node<V>, ghost done: seq<Node<V>>, ghost x: Node<V>,
        ghost rest: seq<Node<V>>)
      requires Valid() && left.Valid() && this != left && cells !! left.cells
      requires nodes == done + [x] + rest && prev == Tip(done)
      modifies this`size, this`tail, this`nodes, this`cells, cells, left`size, left`tail, left`nodes, left`cells
      modifies left.cells
      ensures Valid() && left.Valid() && cells !! left.cells && nodes == done + rest
      ensures left.nodes == old(left.nodes) + [x]
      ensures cells + left.cells == old(cells + left.cells) && head == old(head) && left.head == old(left.head)
      ensures prev == Tip(done) && prev.next == At(rest, 0)
    {
      hide Valid;
      hide With;
      hide Without;
      ghost var a := left.nodes;
      left.TailCell();
      TakeOut(done, x, rest);
      PutIn(a, x, []);
      assert done + [x] + rest == done + ([x] + rest) && a + [] == a && a + [x] + [] == a + [x];
      Cut(done, [x] + rest);
      left.SpliceOne(left.tail, this, prev, |a|, |done|);
      Cut(done, rest);
    }

    /** The loop of qsort(): nodes below the pivot p move to left, the others stay. */
    method Partition(left: SList<V>, lt: (V, V) -> bool, ghost p: Node<V>, ghost s: seq<Node<V>>)
      requires Valid() && left.Valid() && this != left && cells !! left.cells && left.nodes == [] && nodes == [p] + s
      modifies this`size, this`tail, this`nodes, this`cells, cells, left`size, left`tail, left`nodes, left`cells
      modifies left.cells
      ensures Valid() && left.Valid() && cells !! left.cells
      ensures left.nodes == PartOf(Value<V>, lt, s, p, true) && nodes == [p] + PartOf(Value<V>, lt, s, p, false)
      ensures cells + left.cells == old(cells + left.cells) && head == old(head) && left.head == old(left.head)
    {
      hide Valid;
      hide PartOf;
      ghost var d, kept, rest := [], [], s;
      NoParts(Value<V>, lt, p);
      PartitionSlices(p, d, kept, rest);
      Cut([], [p] + (kept + rest));
      Cut([p] + kept, rest);
      var it, prev := head.next, head.next;
      it := it.next;
      while it != null
        invariant Valid() && left.Valid() && cells !! left.cells && s == d + rest && it == At(rest, 0)
        invariant prev == Tip([p] + kept)
        invariant kept == PartOf(Value<V>, lt, d, p, false) && left.nodes == PartOf(Value<V>, lt, d, p, true)
        invariant nodes == [p] + kept + rest
        invariant cells + left.cells == old(cells + left.cells) && head == old(head) && left.head == old(left.head)
        decreases |rest|
      {
        PartitionSlices(p, d, kept, rest);
        Cut([], [p] + (kept + rest));
        Cut([p] + kept, rest);
        ghost var x, rest' := rest[0], rest[1..];
        PartRound(Value<V>, lt, d, x, p);
        if lt(it.val.value, head.next.val.value) {
          SpliceBehind(left, prev, [p] + kept, x, rest');
          it := prev;
          it := it.next;
        } else {
          kept := kept + [x];
          prev := it;
          it := it.next;
        }
        d, rest := d + [x], rest';
      }
      PartitionSlices(p, d, kept, rest);
    }

    /** left.qsort(comp); right.qsort(comp) */
    method SortSides(left: SList<V>, right: SList<V>, lt: (V, V) -> bool)
      requires StrictWeak(lt) && Valid() && left.Valid() && right.Valid() && this != left && this != right
      requires left != right
      requires cells !! left.cells && cells !! right.cells && left.cells !! right.cells
      modifies left, right, left.cells, right.cells
      ensures Valid() && left.Valid() && right.Valid() && nodes == old(nodes)
      ensures left.nodes == SortOf(Value<V>, lt, old(left.nodes))
      ensures right.nodes == SortOf(Value<V>, lt, old(right.nodes))
      ensures cells == old(cells) && cells !! left.cells && cells !! right.cells && left.cells !! right.cells
      ensures forall c :: c in left.cells || c in right.cells ==>
                c in old(left.cells) || c in old(right.cells) || fresh(c)
      decreases |left.nodes| + |right.nodes|, 1
    {
      hide *;
      left.Qsort(lt);
      right.Qsort(lt);
    }

    /** The first half of qsort(): smaller nodes on left, the pivot here, the rest on right. */
    method SplitAround(left: SList<V>, right: SList<V>, lt: (V, V) -> bool, ghost p: Node<V>, ghost s: seq<Node<V>>)
      requires Valid() && Scratches(left, right) && nodes == [p] + s
      modifies this`size, this`tail, this`nodes, this`cells, cells
      modifies left`size, left`tail, left`nodes, left`cells, right`size, right`tail, right`nodes, right`cells
      modifies left.cells, right.cells
      ensures Valid() && left.Valid() && right.Valid()
      ensures cells !! left.cells && cells !! right.cells && left.cells !! right.cells
      ensures nodes == [p] && left.nodes == PartOf(Value<V>, lt, s, p, true)
      ensures right.nodes == PartOf(Value<V>, lt, s, p, false)
      ensures cells + left.cells + right.cells == old(cells + left.cells + right.cells)
    {
      hide Valid;
      hide PartOf;
      Partition(left, lt, p, s);
      ghost var b := PartOf(Value<V>, lt, s, p, false);
      assert [p] + b + [] == [p] + b && b + [] == b && [p] + [] == [p] && [] + ([p] + b) == [p] + b;
      Cut([], [p] + b);
      right.TakeChunk(this, head.next, null, [p], b, []);
    }

    /** erase_after(first, last): deletes the nodes strictly between. */
    method EraseAfter(first: Node<V>, last: Node?<V>, ghost i: nat, ghost j: nat)
      returns (r: Node?<V>, ghost deleted: seq<Node<V>>)
      requires Valid() && i <= j <= |nodes| && first == Cell(i) && last == At(nodes, j)
      modifies this`size, this`tail, this`nodes, this`cells, cells
      ensures Valid() && r == last && nodes == old(nodes)[..i] + old(nodes)[j..] && deleted == old(nodes)[i..j]
      ensures cells <= old(cells) && head == old(head)
    {
      hide Valid;
      hide Without;
      ghost var s, k := nodes, i;
      NextOf(i);
      Before(i, j);
      SpliceStart([], 0, s, i);
      var node := first.next;
      deleted := [];
      while node != last
        invariant Valid() && i <= k <= j && nodes == s[..i] + s[k..] && deleted == s[i..k] && node == At(s, k)
        invariant first == Cell(i)
        invariant cells <= old(cells) && head == old(head)
        decreases j - k
      {
        SpliceStep([], 0, s, i, k);
        assert s[i..k] + [s[k]] == s[i..k + 1];
        var next := UnlinkAfter(first, i);
        deleted := deleted + [node];
        node, k := next, k + 1;
      }
      r := last;
    }

    /** clear() */
    method Clear()
      requires Valid()
      modifies this`size, this`tail, this`nodes, this`cells, cells
      ensures Valid() && nodes == [] && cells == {head} && head == old(head)
    {
      ghost var deleted;
      var r;
      r, deleted := EraseAfter(head, null, 0, |nodes|);
      EmptyCells();
    }

    /** assign(SList&&): clear, then the nodes change owner by exchanging the heads; nothing for a list and itself. */
    method MoveFrom(other: SList<V>)
      requires Valid() && other.Valid() && (this == other || cells !! other.cells)
      modifies this, other, cells
      ensures Valid() && other.Valid() && nodes == old(other.nodes) && cells == old(other.cells)
      ensures this != other ==> other.nodes == [] && other.cells == {old(head)}
    {
      if this == other {
        return;
      }
      Clear();
      assert other.Valid();
      head, other.head := other.head, head;
      tail, other.tail := other.tail, tail;
      size, other.size := other.size, size;
      nodes, other.nodes := other.nodes, nodes;
      cells, other.cells := other.cells, cells;
    }

    /** The last lines of qsort(): left, the pivot and right become this list. */
    method Collect(left: SList<V>, right: SList<V>)
      requires Valid() && left.Valid() && right.Valid() && this != left && this != right && left != right
      requires cells !! left.cells && cells !! right.cells && left.cells !! right.cells
      modifies this, left, right, cells, left.cells, right.cells
      ensures Valid() && nodes == old(left.nodes) + old(nodes) + old(right.nodes)
      ensures cells <= old(cells + left.cells + right.cells)
    {
      hide Valid;
      left.Join(this);
      left.Join(right);
      MoveFrom(left);
    }

    /** qsort(): partition around the first element, sort both sides, join. */
    method Qsort(lt: (V, V) -> bool)
      requires Valid() && StrictWeak(lt)
      modifies this, cells
      ensures Valid() && nodes == SortOf(Value<V>, lt, old(nodes))
      ensures forall c :: c in cells ==> c in old(cells) || fresh(c)
      decreases |nodes|, 0
    {
      hide *;
      Cut([], nodes);
      if size <= 1 {
        SortShort(Value<V>, lt, nodes);
        return;
      }
      var left := Scratch();
      var right := Scratch();
      TwoScratches(left, right);
      ghost var p, s := nodes[0], nodes[1..];
      assert nodes == [p] + s;
      PartSizes(Value<V>, lt, s, p);
      SplitAround(left, right, lt, p, s);
      assert forall c :: c in cells || c in left.cells || c in right.cells ==> c in old(cells) || fresh(c);
      SortSides(left, right, lt);
      SortParts(Value<V>, lt, p, s);
      Collect(left, right);
    }

    /** splice_after(before_end(), other) */
    method Join(other: SList<V>)
      requires Valid() && other.Valid() && this != other && cells !! other.cells
      modifies this`size, this`tail, this`nodes, this`cells, other`size, other`tail, other`nodes, other`cells, cells
      modifies other.cells
      ensures Valid() && other.Valid() && cells !! other.cells && nodes == old(nodes) + old(other.nodes)
      ensures other.nodes == []
      ensures cells + other.cells == old(cells + other.cells) && head == old(head) && other.head == old(other.head)
    {
      hide Valid;
      ghost var x := other.nodes;
      assert [] + x + [] == x && x + [] == x && [] + x == x;
      Append(other, other.head, null, [], x, []);
    }

    /** emplace_after(after, v) */
    method EmplaceAfter(after: Node<V>, v: V, ghost b: nat) returns (node: Node<V>)
      requires Valid() && b <= |nodes| && after == Cell(b)
      modifies this`size, this`tail, this`nodes, this`cells, cells
      ensures Valid() && fresh(node) && node.val == Some(v)
      ensures nodes == old(nodes)[..b] + [node] + old(nodes)[b..]
      ensures cells == old(cells) + {node} && head == old(head)
    {
      hide NoDup;
      hide Linked;
      node := new Node<V>(Some(v));
      assert Valid();
      LinkAfter(after, node, b);
    }

    ghost function CellOf(s: seq<Node<V>>, v: nat): Node<V>
      requires v <= |s|
      reads this
    {
      if v == 0 then head else s[v - 1]
    }

    /** One round of the transfer_after loop within one list: from position u to position v of the rest. */
    method MoveOneWithin(after: Node<V>, first: Node<V>, node: Node<V>, ghost u: nat, ghost v: nat)
      returns (next: Node?<V>)
      requires Valid() && u < |nodes| && first == Cell(u) && node == nodes[u] && v < |nodes|
      requires after == CellOf(Without(nodes, u), v)
      modifies this`size, this`tail, this`nodes, this`cells, cells
      ensures Valid() && nodes == With(Without(old(nodes), u), v, node)
      ensures cells == old(cells) && head == old(head)
      ensures next == At(Without(old(nodes), u), u)
    {
      hide NoDup;
      hide Linked;
      UnlinkFacts(u);
      NextOf(u);
      next := UnlinkAfter(first, u);
      LinkAfter(after, node, v);
    }

    /** Where the cells around a half-done move stand. */
    lemma {:induction false} MovedCells(s: seq<Node<V>>, b: nat, i: nat, k: nat)
      requires i <= k < |s| && b <= |s| && (b < i || k + 1 < b)
      ensures |Moved(s, b, i, k)| == |s|
      ensures b < i ==> CellOf(Moved(s, b, i, k), k) == CellOf(s, i)
      ensures k + 1 < b ==> CellOf(Moved(s, b, i, k), i) == CellOf(s, i)
      ensures b < i ==> CellOf(Without(Moved(s, b, i, k), k), b + k - i) == if k == i then CellOf(s, b) else s[k - 1]
      ensures k + 1 < b ==> CellOf(Without(Moved(s, b, i, k), i), b - 1) == if k == i then CellOf(s, b) else s[k - 1]
    {
    }

    static lemma {:induction false} MovedSelf(s: seq<Node<V>>, i: nat, j: nat)
      requires i <= j <= |s|
      ensures Moved(s, i, i, j) == s
    {
    }

    /** transfer_after(after, *this, first, last) within one list; after may be the first node to move, but none of
        the later ones. */
    method TransferAfterWithin(after: Node<V>, first: Node<V>, last: Node?<V>, ghost b: nat, ghost i: nat, ghost j: nat)
      requires Valid() && i <= j <= |nodes| && b <= |nodes| && !(i + 1 < b <= j)
      requires after == Cell(b) && first == Cell(i) && last == At(nodes, j)
      modifies this`size, this`tail, this`nodes, this`cells, cells
      ensures Valid() && nodes == if b == i + 1 then old(nodes) else Moved(old(nodes), b, i, j)
      ensures b <= i ==> nodes == old(nodes)[..b] + old(nodes)[i..j] + old(nodes)[b..i] + old(nodes)[j..]
      ensures b > i + 1 ==> nodes == old(nodes)[..i] + old(nodes)[j..b] + old(nodes)[i..j] + old(nodes)[b..]
      ensures cells == old(cells) && head == old(head)
    {
      hide Valid;
      hide Moved;
      hide With;
      hide Without;
      ghost var s := nodes;
      NextOf(i);
      Before(i, j);
      if b != i + 1 { MovedIs(s, b, i, j); }
      MovedStart(s, b, i);
      if b == i { MovedSelf(s, i, j); }
      if after == first { CellInjective(b, i); }
      if first != last && after != first {
        var node := first.next;
        var afterNode := after;
        if i < |nodes| && node == afterNode { CellInjective(i + 1, b); }
        if node == afterNode {
          return;
        }
        ghost var k := i;
        while node != last
          invariant Valid() && i <= k <= j && nodes == Moved(s, b, i, k) && cells == old(cells) && head == old(head)
          invariant node == At(s, k) && afterNode == (if k == i then after else s[k - 1]) && (b < i || j < b)
          decreases j - k
        {
          MovedCells(s, b, i, k);
          if b < i { MovedStepDown(s, b, i, k); } else { MovedStepUp(s, b, i, k); }
          var next := MoveOneWithin(afterNode, first, node, if b < i then k else i, if b < i then b + k - i else b - 1);
          afterNode := node;
          node, k := next, k + 1;
        }
      }
    }

    /** splice_after(before_begin(), *this, it) */
    method SpliceToFront(it: Node<V>, ghost k: nat)
      requires Valid() && 0 < k < |nodes| && it == Cell(k)
      modifies this`size, this`tail, this`nodes, this`cells, cells
      ensures Valid() && nodes == Moved(old(nodes), 0, k, k + 1) && |nodes| == |old(nodes)| && it == Cell(k + 1)
      ensures cells == old(cells) && head == old(head)
    {
      hide Valid;
      ghost var s := nodes;
      NextOf(k);
      NextOf(k + 1);
      if head == it { CellInjective(0, k); }
      var next := it.next;
      if head == next { CellInjective(0, k + 1); }
      if head != it && head != next && next != null {
        TransferAfterWithin(head, it, next.next, 0, k, k + 1);
        assert nodes == s[..0] + s[k..k + 1] + s[0..k] + s[k + 1..] && nodes[k] == s[k - 1];
      }
    }

    /** reverse(): the node behind the original first one moves to the front, size - 1 times. */
    method Reverse()
      requires Valid()
      modifies this`size, this`tail, this`nodes, this`cells, cells
      ensures Valid() && nodes == Reversed(old(nodes)) && |nodes| == |old(nodes)|
      ensures forall k :: 0 <= k < |nodes| ==> nodes[k] == old(nodes)[|nodes| - 1 - k]
      ensures cells == old(cells) && head == old(head)
    {
      hide Valid;
      hide Moved;
      hide Reversed;
      hide Turned;
      hide Tip;
      Cut([], nodes);
      ghost var s, k := nodes, 1;
      TurnedEnds(s);
      Mirrored(s);
      if size <= 1 {
        return;
      }
      NextOf(0);
      var it := head.next;
      var count := size - 1;
      while count > 0
        invariant 0 < k <= |s| && count == |s| - k && Valid() && nodes == Turned(s, k) && |nodes| == |s|
        invariant it == Cell(k)
        invariant cells == old(cells) && head == old(head)
      {
        TurnedStep(s, k);
        SpliceToFront(it, k);
        k, count := k + 1, count - 1;
      }
    }
  }
}
