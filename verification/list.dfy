/** src/gtl/container/list.h: the doubly linked list and its three sorts. */
module Lists {
  import opened Wrappers
  import opened SinglyList
  import opened DoublyList
  import opened Sorting
  import opened SeqMoves
  import opened ListSorting

  /** Elements are ordered by their values; a head orders below every element. */
  function Value<T>(n: ListNode<T>): Option<T> {
    n.val
  }

  lemma {:induction false} RingWithout<T>(h: T, s: seq<T>, i: nat)
    requires i < |s|
    ensures Without([h] + s + [h], i + 1) == [h] + Without(s, i) + [h]
  {
  }

  lemma {:induction false} RingWith<T>(h: T, s: seq<T>, b: nat, x: T)
    requires b <= |s|
    ensures With([h] + s + [h], b + 1, x) == [h] + With(s, b, x) + [h]
  {
  }

  lemma {:induction false} NotBoth<T(!new)>(lt: (T, T) -> bool, v: T, w: T)
    requires StrictWeak(lt) && lt(v, w)
    ensures !lt(w, v)
  {
  }

  class List<T(!new)> {
    var head: ListNode<T>
    var size: nat
    ghost var nodes: seq<ListNode<T>>
    ghost var cells: set<ListNode<T>>

    ghost function Ring(): seq<ListNode<T>>
      reads this
    {
      [head] + nodes + [head]
    }

    /** Everything about the list but its size field. */
    ghost predicate Shape()
      reads this, cells
    {
      && head.val.None? && (forall n :: n in nodes ==> n.val.Some?)
      && cells == {head} + (set n | n in nodes)
      && Loop(Ring()) && RingLinked(Ring())
    }

    ghost predicate Valid()
      reads this, cells
    {
      size == |nodes| && Shape()
    }

    /** The node at position i, or end(). */
    ghost function At(i: nat): ListNode<T>
      requires i <= |nodes|
      reads this
    {
      if i < |nodes| then nodes[i] else head
    }

    constructor ()
      ensures Valid() && nodes == [] && fresh(head)
    {
      var h := new ListNode<T>.Head();
      head, size, nodes, cells := h, 0, [], {h};
    }

    lemma {:induction false} Facts()
      requires Valid()
      ensures forall n :: n in Ring() <==> n in cells
      ensures forall i :: 0 <= i < |nodes| ==> Ring()[i + 1] == nodes[i]
      ensures forall i :: 0 <= i <= |nodes| ==> Ring()[i + 1] == At(i)
      ensures head.next == At(0)
      ensures forall i :: 0 <= i < |nodes| ==> nodes[i].next == At(i + 1) && nodes[i].val.Some? && nodes[i] != head
      ensures size == |nodes| && head in cells
    {
      var r := Ring();
      assert r[0].next == r[1];
      LoopDistinct(r);
      forall i | 0 <= i < |nodes| ensures nodes[i].next == At(i + 1) && nodes[i] != head && nodes[i].val.Some? {
        assert r[i + 1].next == r[i + 2];
        assert nodes[i] in nodes;
      }
    }

    /** What a list is between calls: the pointers lead along the nodes in both directions and through the head, and no
        node is listed twice. */
    lemma {:induction false} PointersMean()
      requires Valid()
      ensures size == |nodes| && (nodes == [] ==> head.next == head.prev == head)
      ensures nodes != [] ==> head.next == nodes[0] && head.prev == nodes[|nodes| - 1]
      ensures forall i :: 0 <= i < |nodes| ==>
                && nodes[i].next == (if i + 1 < |nodes| then nodes[i + 1] else head)
                && nodes[i].prev == (if i > 0 then nodes[i - 1] else head) && nodes[i] != head && nodes[i].val.Some?
      ensures forall i, j :: 0 <= i < j < |nodes| ==> nodes[i] != nodes[j]
    {
      var r := Ring();
      Facts();
      LoopDistinct(r);
      assert r[|r| - 1].prev == r[|r| - 2];
      forall i | 0 <= i < |nodes| ensures nodes[i].prev == if i > 0 then nodes[i - 1] else head {
        assert r[i + 1].prev == r[i];
      }
    }

    lemma {:induction false} UnlinkFacts(i: nat)
      requires Valid() && i < |nodes|
      ensures Ring()[i + 1] == nodes[i] && Ring()[i + 2] == At(i + 1) && Ring()[i] in cells && Ring()[i + 2] in cells
      ensures if i + 1 < |nodes| then Without(nodes, i)[i] == nodes[i + 1] else |Without(nodes, i)| == i
    {
      Facts();
    }

    lemma {:induction false} NotInRest(i: nat)
      requires Valid() && i < |nodes|
      ensures nodes[i] != head && nodes[i] !in Without(nodes, i)
      ensures forall n :: n in Without(nodes, i) <==> n in nodes && n != nodes[i]
    {
      var d, r := Without(nodes, i), Ring();
      LoopDistinct(r);
      assert forall j :: 0 <= j < |nodes| ==> r[j + 1] == nodes[j];
      assert forall j :: 0 <= j < |d| ==> d[j] == nodes[if j < i then j else j + 1];
      forall n | n in nodes && n != nodes[i] ensures n in d {
        WithoutElem(nodes, i, n);
      }
    }

    /** doubly_list::Remove on this list's ring; the size goes with it. */
    method Unlink(curr: ListNode<T>, ghost i: nat) returns (next: ListNode<T>)
      requires Valid() && i < |nodes| && curr == nodes[i]
      modifies this`size, this`nodes, this`cells, cells
      ensures Valid() && nodes == Without(old(nodes), i) && next == At(i)
      ensures cells == old(cells) - {curr} && head == old(head)
    {
      hide Loop;
      hide RingLinked;
      UnlinkFacts(i);
      NotInRest(i);
      RingWithout(head, nodes, i);
      ghost var r := Ring();
      size, nodes, cells := size - 1, Without(nodes, i), cells - {curr};
      next := Remove(curr, r, i + 1);
    }

    lemma {:induction false} LinkFacts(b: nat, node: ListNode<T>)
      requires Valid() && b <= |nodes| && node !in cells
      ensures Ring()[b + 1] == At(b) && Ring()[b] in cells && Ring()[b + 1] in cells && node !in Ring()
    {
      Facts();
    }

    /** doubly_list::InsertBefore on this list's ring; the size goes with it. */
    method Link(before: ListNode<T>, node: ListNode<T>, ghost b: nat)
      requires Valid() && b <= |nodes| && before == At(b) && node !in cells && node.val.Some?
      modifies this`size, this`nodes, this`cells, cells, node
      ensures Valid() && nodes == With(old(nodes), b, node)
      ensures cells == old(cells) + {node} && head == old(head)
    {
      hide Loop;
      hide RingLinked;
      LinkFacts(b, node);
      RingWith(head, nodes, b, node);
      WithElems(nodes, b, node);
      ghost var r := Ring();
      size, nodes, cells := size + 1, With(nodes, b, node), cells + {node};
      InsertBefore(before, node, r, b + 1);
    }

    lemma {:induction false} Ends()
      requires Valid()
      ensures size == |nodes| && head.next == At(0)
    {
      Facts();
    }

    /** Positions and nodes correspond one to one. */
    lemma {:induction false} AtInjective(i: nat, j: nat)
      requires Valid() && i <= |nodes| && j <= |nodes| && At(i) == At(j)
      ensures i == j
    {
      Facts();
      LoopDistinct(Ring());
      assert Ring()[i + 1] == At(i) && Ring()[j + 1] == At(j);
    }

    lemma {:induction false} DisjointAt(other: List<T>, b: nat, j: nat)
      requires Valid() && other.Valid() && cells !! other.cells && b <= |nodes| && j <= |other.nodes|
      ensures At(b) != other.At(j)
    {
      assert At(b) in cells && other.At(j) in other.cells;
    }

    /** One round of the transfer loop between two lists. */
    method MoveOne(before: ListNode<T>, other: List<T>, node: ListNode<T>, ghost b: nat, ghost i: nat)
      returns (next: ListNode<T>)
      requires Valid() && other.Valid() && this != other && cells !! other.cells
      requires b <= |nodes| && before == At(b) && i < |other.nodes| && node == other.nodes[i]
      modifies this`size, this`nodes, this`cells, other`size, other`nodes, other`cells, cells, other.cells
      ensures Valid() && other.Valid() && cells !! other.cells
      ensures nodes == With(old(nodes), b, node) && other.nodes == Without(old(other.nodes), i)
      ensures cells + other.cells == old(cells + other.cells) && head == old(head) && other.head == old(other.head)
      ensures next == other.At(i)
    {
      hide Loop;
      hide RingLinked;
      assert node in other.cells && node in other.nodes;
      next := other.Unlink(node, i);
      assert Valid();
      Link(before, node, b);
    }

    /** transfer(before, other, first, last) between two lists. */
    method Transfer(before: ListNode<T>, other: List<T>, first: ListNode<T>, last: ListNode<T>, ghost b: nat,
        ghost i: nat, ghost j: nat)
      requires Valid() && other.Valid() && this != other && cells !! other.cells
      requires b <= |nodes| && before == At(b)
      requires i <= j <= |other.nodes| && first == other.At(i) && last == other.At(j)
      modifies this`size, this`nodes, this`cells, other`size, other`nodes, other`cells, cells, other.cells
      ensures Valid() && other.Valid() && cells !! other.cells
      ensures nodes == Spliced(old(nodes), b, old(other.nodes), i, j)
           == old(nodes)[..b] + old(other.nodes)[i..j] + old(nodes)[b..]
      ensures other.nodes == old(other.nodes)[..i] + old(other.nodes)[j..]
      ensures cells + other.cells == old(cells + other.cells) && head == old(head) && other.head == old(other.head)
    {
      hide Valid;
      hide Spliced;
      hide Without;
      ghost var a, s := nodes, other.nodes;
      SpliceStart(a, b, s, i);
      SplicedIs(a, b, s, i, j);
      forall x | i <= x < j ensures s[x] != last {
        if other.At(x) == last { other.AtInjective(x, j); }
      }
      if first != last && before != last {
        var node := first;
        ghost var k := i;
        while node != last
          invariant Valid() && other.Valid() && cells !! other.cells
          invariant i <= k <= j && nodes == Spliced(a, b, s, i, k) && other.nodes == s[..i] + s[k..]
          invariant cells + other.cells == old(cells + other.cells) && head == old(head)
          invariant other.head == old(other.head)
          invariant node == if k < |s| then s[k] else other.head
          decreases j - k
        {
          SpliceStep(a, b, s, i, k);
          node := MoveOne(before, other, node, b + k - i, i);
          k := k + 1;
        }
      } else {
        DisjointAt(other, b, j);
      }
    }

    ghost function First(a: seq<ListNode<T>>): ListNode<T>
      reads this
    {
      if a != [] then a[0] else head
    }

    /** The list cut at a position: what At, begin() and next say about the rest a. */
    lemma {:induction false} Cut(x: seq<ListNode<T>>, a: seq<ListNode<T>>)
      requires Valid() && nodes == x + a
      ensures At(|x|) == First(a) && At(|x + a|) == head && (a == [] <==> First(a) == head)
      ensures (x == [] ==> head.next == First(a))
      ensures a != [] ==> a[0].next == First(a[1..]) && a[0].val.Some? && At(|x| + 1) == First(a[1..])
    {
      Facts();
      if a != [] {
        assert nodes[|x|] == a[0];
        if |a| > 1 { assert nodes[|x| + 1] == a[1]; }
      }
    }

    // Operations

    /** merge(other): one pass of single-node splices. */
    method MergeFrom(other: List<T>, lt: (T, T) -> bool)
      requires Valid() && other.Valid() && this != other && cells !! other.cells
      modifies this`size, this`nodes, this`cells, other`size, other`nodes, other`cells, cells, other.cells
      ensures Valid() && other.Valid() && cells !! other.cells
      ensures nodes == MergeOf(Value<T>, lt, old(nodes), old(other.nodes)) && other.nodes == []
      ensures cells + other.cells == old(cells + other.cells) && head == old(head) && other.head == old(other.head)
    {
      hide Valid;
      hide MergeOf;
      hide Spliced;
      Cut([], nodes);
      other.Cut([], other.nodes);
      var left, right := head.next, other.head.next;
      ghost var done, a, b := [], nodes, other.nodes;
      while left != head && right != other.head
        invariant Valid() && other.Valid() && cells !! other.cells
        invariant nodes == done + a && other.nodes == b && left == First(a) && right == other.First(b)
        invariant done + MergeOf(Value<T>, lt, a, b) == MergeOf(Value<T>, lt, old(nodes), old(other.nodes))
        invariant cells + other.cells == old(cells + other.cells) && head == old(head) && other.head == old(other.head)
        decreases |a| + |b|
      {
        Cut(done, a);
        other.Cut([], b);
        MergeRound(Value<T>, lt, done, a, b);
        if lt(right.val.value, left.val.value) {
          SplicedAt(done, a, b, 0, 1);
          Transfer(left, other, right, right.next, |done|, 0, 1);
          done, b := done + [b[0]], b[1..];
          other.Cut([], b);
          right := other.head.next;
        } else {
          ShiftHead(done, a);
          left := left.next;
          done, a := done + [a[0]], a[1..];
        }
      }
      Cut(done, a);
      other.Cut([], b);
      MergeEnd(Value<T>, lt, done, a, b);
      if right != other.head {
        SplicedAt(done, a, b, 0, |b|);
        AppendBoth(done, a, b);
        Transfer(left, other, right, other.head, |done|, 0, |b|);
      }
    }

    lemma {:induction false} EmptyCells()
      requires Valid() && nodes == []
      ensures cells == {head}
    {
    }

    /** A new list beside this one. */
    method Scratch() returns (l: List<T>)
      requires Valid()
      ensures Valid() && l.Valid() && l.nodes == [] && fresh(l) && fresh(l.head)
      ensures l.cells == {l.head} && cells !! l.cells && l.head.next == l.head
    {
      l := new List<T>();
      l.Cut([], []);
    }

    lemma {:induction false} StepAt(i: nat)
      requires Valid() && i < |nodes|
      ensures At(i).next == At(i + 1)
    {
      Facts();
    }

    /** gtl::next(from, k) */
    method Advance(from: ListNode<T>, k: nat, ghost i: nat) returns (it: ListNode<T>)
      requires Valid() && i + k <= |nodes| && from == At(i)
      ensures it == At(i + k)
    {
      hide Valid;
      it := from;
      var n := 0;
      while n < k
        invariant n <= k && it == At(i + n)
      {
        StepAt(i + n);
        it, n := it.next, n + 1;
      }
    }

    /** merge_sort(): the upper half moves to a second list, both halves are sorted and merged back. */
    method MergeSort(lt: (T, T) -> bool)
      requires Valid() && StrictWeak(lt)
      modifies this`size, this`nodes, this`cells, cells
      ensures Valid() && nodes == SortOf(Value<T>, lt, old(nodes))
      ensures cells == old(cells) && head == old(head)
      decreases |nodes|
    {
      hide Valid;
      hide MergeOf;
      hide SortOf;
      hide Spliced;
      hide StrictWeak;
      Ends();
      if size <= 1 {
        SortShort(Value<T>, lt, nodes);
        return;
      }
      ghost var s, m := nodes, size / 2;
      var right := Scratch();
      var mid := Advance(head.next, size / 2, 0);
      SplicedTail(s, m);
      right.Transfer(right.head.next, this, mid, head, 0, m, |s|);
      MergeSort(lt);
      right.MergeSort(lt);
      SortHalves(Value<T>, lt, s, m);
      MergeFrom(right, lt);
      right.EmptyCells();
    }

    /** splice(last, other): everything goes back before last. */
    method GiveBack(last: ListNode<T>, other: List<T>, ghost done: seq<ListNode<T>>, ghost tail: seq<ListNode<T>>)
      requires Valid() && other.Valid() && this != other && cells !! other.cells
      requires nodes == done + tail && last == First(tail)
      modifies this`size, this`nodes, this`cells, other`size, other`nodes, other`cells, cells, other.cells
      ensures Valid() && other.Valid() && cells !! other.cells && nodes == done + old(other.nodes) + tail
      ensures other.nodes == []
      ensures cells + other.cells == old(cells + other.cells) && head == old(head) && other.head == old(other.head)
    {
      hide Valid;
      hide Spliced;
      ghost var x := other.nodes;
      ChunkSlices(done, x, tail);
      Cut(done, tail);
      other.Cut([], x);
      Transfer(last, other, other.head.next, other.head, |done|, 0, |x|);
    }

    /** One merge of sort(): the neighbouring chunks x and y go to two lists, are merged and come back. */
    method MergePair(it: ListNode<T>, mid: ListNode<T>, last: ListNode<T>, left: List<T>, right: List<T>,
        lt: (T, T) -> bool, ghost done: seq<ListNode<T>>, ghost x: seq<ListNode<T>>, ghost y: seq<ListNode<T>>,
        ghost tail: seq<ListNode<T>>)
      requires Valid() && left.Valid() && right.Valid() && this != left && this != right && left != right
      requires cells !! left.cells && cells !! right.cells && left.cells !! right.cells && left.nodes == []
      requires right.nodes == []
      requires nodes == done + x + y + tail
      requires it == First(x + y + tail) && mid == First(y + tail) && last == First(tail)
      modifies this`size, this`nodes, this`cells, cells
      modifies left`size, left`nodes, left`cells, right`size, right`nodes, right`cells, left.cells, right.cells
      ensures Valid() && left.Valid() && right.Valid() && left.nodes == [] && right.nodes == []
      ensures nodes == done + MergeOf(Value<T>, lt, x, y) + tail && last == First(tail)
      ensures cells == old(cells) && head == old(head)
      ensures left.cells == old(left.cells) && left.head == old(left.head) && right.cells == old(right.cells)
      ensures right.head == old(right.head)
    {
      hide Valid;
      hide MergeOf;
      left.EmptyCells();
      right.EmptyCells();
      assert done + x + y + tail == done + x + (y + tail) && x + y + tail == x + (y + tail);
      left.TakeChunk(this, it, mid, done, x, y + tail);
      assert done + (y + tail) == done + y + tail;
      right.TakeChunk(this, mid, last, done, y, tail);
      left.MergeFrom(right, lt);
      GiveBack(last, left, done, tail);
      left.EmptyCells();
      right.EmptyCells();
    }

    /** splice(begin(), other, it, mid) into this empty list. */
    method TakeChunk(other: List<T>, it: ListNode<T>, mid: ListNode<T>, ghost done: seq<ListNode<T>>,
        ghost x: seq<ListNode<T>>, ghost tail: seq<ListNode<T>>)
      requires Valid() && other.Valid() && this != other && cells !! other.cells && nodes == []
      requires other.nodes == done + x + tail && it == other.First(x + tail) && mid == other.First(tail)
      modifies this`size, this`nodes, this`cells, other`size, other`nodes, other`cells, cells, other.cells
      ensures Valid() && other.Valid() && cells !! other.cells && nodes == x && other.nodes == done + tail
      ensures cells + other.cells == old(cells + other.cells) && head == old(head) && other.head == old(other.head)
    {
      hide Valid;
      hide Spliced;
      Cut([], []);
      ChunkSlices(done, x, tail);
      other.Cut(done, x + tail);
      other.Cut(done + x, tail);
      Transfer(head.next, other, it, mid, 0, |done|, |done| + |x|);
    }

    ghost predicate Scratches(left: List<T>, right: List<T>)
      reads this, left, right, left.cells, right.cells
    {
      && left.Valid() && right.Valid() && this != left && this != right && left != right
      && cells !! left.cells && cells !! right.cells && left.cells !! right.cells && left.nodes == []
      && right.nodes == []
    }

    lemma {:induction false} TwoScratches(left: List<T>, right: List<T>)
      requires Valid() && left.Valid() && right.Valid() && this != left && this != right && left != right
      requires cells !! left.cells && cells !! right.cells && left.cells !! right.cells && left.nodes == []
      requires right.nodes == []
      ensures Scratches(left, right)
    {
    }

    lemma {:induction false} AtSplit(x: seq<ListNode<T>>, a: seq<ListNode<T>>)
      requires nodes == x + a
      ensures At(|x|) == First(a)
    {
    }

    /** One merge round of a pass, seen on the chunk sequence. */
    method PassRound(i: nat, it: ListNode<T>, mid: ListNode<T>, last: ListNode<T>, left: List<T>, right: List<T>,
        lt: (T, T) -> bool, ghost done: seq<ListNode<T>>, ghost rest: seq<ListNode<T>>, ghost m: nat)
      returns (ghost done': seq<ListNode<T>>, ghost rest': seq<ListNode<T>>)
      requires Valid() && StrictWeak(lt) && Scratches(left, right)
      requires 0 < i < |rest| && m == (if |rest| <= 2 * i then |rest| else 2 * i)
      requires nodes == done + ChunksOf(Value<T>, lt, rest, i) && it == First(ChunksOf(Value<T>, lt, rest, i))
      requires |done| + m <= |nodes| && mid == At(|done| + i) && last == At(|done| + m)
      modifies this`size, this`nodes, this`cells, cells
      modifies left`size, left`nodes, left`cells, right`size, right`nodes, right`cells, left.cells, right.cells
      ensures Valid() && Scratches(left, right) && |nodes| == |old(nodes)|
      ensures rest' == rest[m..] && |done'| == |done| + m
      ensures nodes == done' + ChunksOf(Value<T>, lt, rest', i) && last == First(ChunksOf(Value<T>, lt, rest', i))
      ensures done' + ChunksOf(Value<T>, lt, rest', 2 * i) == done + ChunksOf(Value<T>, lt, rest, 2 * i)
      ensures cells == old(cells) && head == old(head) && left.cells == old(left.cells)
      ensures right.cells == old(right.cells)
    {
      hide Valid;
      hide SortOf;
      hide MergeOf;
      hide ChunksOf;
      hide StrictWeak;
      ghost var x, y, tail := SortOf(Value<T>, lt, rest[..i]), SortOf(Value<T>, lt, rest[i..m]),
          ChunksOf(Value<T>, lt, rest[m..], i);
      ChunksPair(Value<T>, lt, rest, i, m);
      RoundSlices(done, x, y, tail, MergeOf(Value<T>, lt, x, y), ChunksOf(Value<T>, lt, rest[m..], 2 * i));
      Cut(done + x, y + tail);
      Cut(done + x + y, tail);
      MergePair(it, mid, last, left, right, lt, done, x, y, tail);
      done', rest' := done + MergeOf(Value<T>, lt, x, y), rest[m..];
    }

    /** One pass of sort(): chunks of i become chunks of 2 i. */
    method SortPass(i: nat, left: List<T>, right: List<T>, lt: (T, T) -> bool, ghost s: seq<ListNode<T>>)
      requires Valid() && StrictWeak(lt) && Scratches(left, right) && 0 < i < size && size == |s|
      requires nodes == ChunksOf(Value<T>, lt, s, i)
      modifies this`size, this`nodes, this`cells, cells
      modifies left`size, left`nodes, left`cells, right`size, right`nodes, right`cells, left.cells, right.cells
      ensures Valid() && Scratches(left, right) && nodes == ChunksOf(Value<T>, lt, s, 2 * i) && |nodes| == |s|
      ensures cells == old(cells) && head == old(head)
      ensures left.cells == old(left.cells) && right.cells == old(right.cells)
    {
      hide Valid;
      hide SortOf;
      hide MergeOf;
      hide ChunksOf;
      hide StrictWeak;
      var c := 2 * i;
      var n := size - size % c;
      DivMod(size, c);
      ghost var done, rest, total, t, q := [], s, |s|, 0, size / c;
      LengthOfChunks(Value<T>, lt, s, i);
      assert [] + ChunksOf(Value<T>, lt, s, i) == ChunksOf(Value<T>, lt, s, i);
      assert [] + ChunksOf(Value<T>, lt, s, c) == ChunksOf(Value<T>, lt, s, c);
      Cut([], nodes);
      var it := head.next;
      var j := 0;
      while j < n
        invariant j <= n && j == t * c && t <= q && |rest| == total - j && |done| == j && |nodes| == total
        invariant Valid() && Scratches(left, right) && nodes == done + ChunksOf(Value<T>, lt, rest, i)
        invariant it == First(ChunksOf(Value<T>, lt, rest, i))
        invariant done + ChunksOf(Value<T>, lt, rest, c) == ChunksOf(Value<T>, lt, s, c)
        invariant cells == old(cells) && head == old(head) && left.cells == old(left.cells)
        invariant right.cells == old(right.cells)
      {
        Multiples(t, q, c);
        AtSplit(done, ChunksOf(Value<T>, lt, rest, i));
        var mid := Advance(it, i, |done|);
        var last := Advance(mid, i, |done| + i);
        assert c == 2 * i && |done| + i + i == |done| + c;
        done, rest := PassRound(i, it, mid, last, left, right, lt, done, rest, c);
        it := last;
        j, t := j + c, t + 1;
      }
      Ends();
      Multiples(t, q, c);
      assert j == n;
      n := size % c;
      if n > i {
        AtSplit(done, ChunksOf(Value<T>, lt, rest, i));
        AtSplit(nodes, []);
        var mid := Advance(it, i, |done|);
        done, rest := PassRound(i, it, mid, head, left, right, lt, done, rest, |rest|);
      }
      ChunksEnd(Value<T>, lt, rest, i);
      ChunksEnd(Value<T>, lt, rest, c);
    }

    /** sort(): bottom-up merging of chunks of 1, 2, 4, ... nodes. */
    method Sort(lt: (T, T) -> bool)
      requires Valid() && StrictWeak(lt)
      modifies this`size, this`nodes, this`cells, cells
      ensures Valid() && nodes == SortOf(Value<T>, lt, old(nodes))
      ensures cells == old(cells) && head == old(head)
    {
      hide *;
      Ends();
      if size <= 1 {
        SortShort(Value<T>, lt, nodes);
        return;
      }
      var left := Scratch();
      var right := Scratch();
      TwoScratches(left, right);
      ghost var s := nodes;
      ChunksStart(Value<T>, lt, s);
      var i := 1;
      while i < size
        invariant i > 0 && Valid() && size == |s| && nodes == ChunksOf(Value<T>, lt, s, i)
        invariant Scratches(left, right) && fresh(left) && fresh(left.cells) && fresh(right) && fresh(right.cells)
        invariant cells == old(cells) && head == old(head)
      {
        SortPass(i, left, right, lt, s);
        Ends();
        i := i * 2;
      }
      ChunksEnd(Value<T>, lt, s, i);
    }

    lemma {:induction false} Sortable()
      requires Valid()
      ensures Distinct(nodes) && forall x :: x in nodes ==> Value(x).Some?
    {
      LoopDistinct(Ring());
      assert forall i :: 0 <= i < |nodes| ==> Ring()[i + 1] == nodes[i];
    }

    /** merge_sort(comp): the halves are merged in the default order, so comp decides nothing.  The nodes are in its
        order exactly if both orders agree on whether a later element is below an earlier one. */
    method MergeSortBy(comp: (T, T) -> bool, less: (T, T) -> bool)
      requires Valid() && StrictWeak(comp) && StrictWeak(less)
      modifies this`size, this`nodes, this`cells, cells
      ensures Valid() && nodes == SortOf(Value<T>, less, old(nodes))
      ensures nodes == SortOf(Value<T>, comp, old(nodes)) <==>
          forall u, v :: 0 <= u < v < |old(nodes)| && old(nodes)[u].val.Some? && old(nodes)[v].val.Some? ==>
            (less(old(nodes)[v].val.value, old(nodes)[u].val.value)
             <==> comp(old(nodes)[v].val.value, old(nodes)[u].val.value))
      ensures cells == old(cells) && head == old(head)
    {
      hide Valid;
      hide SortOf;
      hide StrictWeak;
      Sortable();
      SortsAgree(Value<T>, less, comp, nodes);
      MergeSort(less);
    }

    /** sort(comp): so are the chunks, with the same exact condition. */
    method SortBy(comp: (T, T) -> bool, less: (T, T) -> bool)
      requires Valid() && StrictWeak(comp) && StrictWeak(less)
      modifies this`size, this`nodes, this`cells, cells
      ensures Valid() && nodes == SortOf(Value<T>, less, old(nodes))
      ensures nodes == SortOf(Value<T>, comp, old(nodes)) <==>
          forall u, v :: 0 <= u < v < |old(nodes)| && old(nodes)[u].val.Some? && old(nodes)[v].val.Some? ==>
            (less(old(nodes)[v].val.value, old(nodes)[u].val.value)
             <==> comp(old(nodes)[v].val.value, old(nodes)[u].val.value))
      ensures cells == old(cells) && head == old(head)
    {
      hide Valid;
      hide SortOf;
      hide StrictWeak;
      Sortable();
      SortsAgree(Value<T>, less, comp, nodes);
      Sort(less);
    }

    /** splice(end(), other, it, next) */
    method Append(other: List<T>, it: ListNode<T>, next: ListNode<T>, ghost done: seq<ListNode<T>>,
        ghost x: seq<ListNode<T>>, ghost tail: seq<ListNode<T>>)
      requires Valid() && other.Valid() && this != other && cells !! other.cells
      requires other.nodes == done + x + tail && it == other.First(x + tail) && next == other.First(tail)
      modifies this`size, this`nodes, this`cells, other`size, other`nodes, other`cells, cells, other.cells
      ensures Valid() && other.Valid() && cells !! other.cells && nodes == old(nodes) + x && other.nodes == done + tail
      ensures cells + other.cells == old(cells + other.cells) && head == old(head) && other.head == old(other.head)
    {
      hide Valid;
      hide Spliced;
      ghost var a := nodes;
      AppendSlices(a, done, x, tail);
      Cut(a, []);
      other.Cut(done, x + tail);
      other.Cut(done + x, tail);
      Transfer(head, other, it, next, |a|, |done|, |done| + |x|);
    }

    ghost predicate LinkedRun(run: seq<ListNode<T>>)
      reads run
    {
      forall k {:trigger run[k].next} :: 0 <= k < |run| ==> run[k].next == if k + 1 < |run| then run[k + 1] else null
    }

    lemma {:induction false} InCells(k: nat)
      requires Valid() && k < |Ring()|
      ensures Ring()[k] in cells
    {
      if 0 < k <= |nodes| { assert Ring()[k] == nodes[k - 1]; }
    }

    static lemma {:induction false} EraseSlices(h: ListNode<T>, s: seq<ListNode<T>>, i: nat, j: nat)
      requires i <= j <= |s|
      ensures ([h] + s + [h])[..i + 1] + ([h] + s + [h])[j + 1..] == [h] + (s[..i] + s[j..]) + [h]
      ensures ([h] + s + [h])[i + 1..j + 1] == s[i..j]
    {
      assert ([h] + s + [h])[..i + 1] == [h] + s[..i];
      assert ([h] + s + [h])[j + 1..] == s[j..] + [h];
    }

    lemma {:induction false} EraseFacts(i: nat, j: nat)
      requires Valid() && i <= j <= |nodes| && At(i) != At(j)
      ensures i < j && At(j).prev == nodes[j - 1]
      ensures Ring()[..i + 1] + Ring()[j + 1..] == [head] + (nodes[..i] + nodes[j..]) + [head]
      ensures Ring()[i + 1] == At(i) && Ring()[j] == nodes[j - 1] && Ring()[j + 1] == At(j)
      ensures Ring()[i] in cells && Ring()[j + 1] in cells && At(i) in cells && nodes[j - 1] in cells
      ensures nodes[i..j] == Ring()[i + 1..j + 1]
    {
      hide Loop;
      var r := Ring();
      assert r[j + 1].prev == r[j];
      InCells(i);
      InCells(i + 1);
      InCells(j);
      InCells(j + 1);
      EraseSlices(head, nodes, i, j);
    }

    lemma {:induction false} RunOfRing(ring: seq<ListNode<T>>, i: nat, j: nat, run: seq<ListNode<T>>)
      requires i < j && j + 1 < |ring| && run == ring[i + 1..j + 1]
      requires forall k {:trigger ring[k].next} :: i + 1 <= k < j + 1 ==>
                ring[k].next == if k + 1 < j + 1 then ring[k + 1] else null
      ensures LinkedRun(run)
    {
      forall k | 0 <= k < |run| ensures run[k].next == if k + 1 < |run| then run[k + 1] else null {
        assert ring[i + 1 + k].next == if i + 2 + k < j + 1 then ring[i + 2 + k] else null;
      }
    }

    static lemma {:induction false} CutElems(s: seq<ListNode<T>>, i: nat, j: nat)
      requires i <= j <= |s|
      ensures forall n :: n in s[..i] + s[j..] ==> n in s
    {
    }

    /** The unlinking half of erase(first, last); the size still counts the cut nodes. */
    method UnlinkRange(first: ListNode<T>, last: ListNode<T>, ghost i: nat, ghost j: nat)
      returns (ghost run: seq<ListNode<T>>)
      requires Valid() && i <= j <= |nodes| && first == At(i) && last == At(j) && first != last
      modifies this`nodes, this`cells, cells
      ensures Shape() && i < j && run == old(nodes)[i..j] && LinkedRun(run) && run[0] == first
      ensures nodes == old(nodes)[..i] + old(nodes)[j..] && cells <= old(cells) && head == old(head)
    {
      hide Loop;
      hide RingLinked;
      ghost var s, ring := nodes, Ring();
      EraseFacts(i, j);
      run := s[i..j];
      nodes := s[..i] + s[j..];
      cells := {head} + set n | n in nodes;
      CutElems(s, i, j);
      ghost var left := Ring();
      assert ring[..i + 1] + ring[j + 1..] == left;
      RemoveRange(first, last.prev, ring, i + 1, j + 1);
      assert Ring() == left;
      RunOfRing(ring, i, j, run);
    }

    /** erase(first, last): unlinks [first, last) in one step and then deletes the run. */
    method Erase(first: ListNode<T>, last: ListNode<T>, ghost i: nat, ghost j: nat)
      returns (r: ListNode<T>, ghost deleted: seq<ListNode<T>>)
      requires Valid() && i <= j <= |nodes| && first == At(i) && last == At(j)
      modifies this`size, this`nodes, this`cells, cells
      ensures Valid() && r == last && nodes == old(nodes)[..i] + old(nodes)[j..] && deleted == old(nodes)[i..j]
      ensures cells <= old(cells) && head == old(head)
    {
      ghost var s := nodes;
      if first == last {
        AtInjective(i, j);
        assert s[..i] + s[i..] == s;
        return last, [];
      }
      ghost var run := UnlinkRange(first, last, i, j);
      deleted := [];
      var node: ListNode?<T> := first;
      ghost var k := 0;
      while node != null
        invariant k <= |run| && node == (if k < |run| then run[k] else null) && deleted == run[..k] && size == |s| - k
        invariant Shape() && LinkedRun(run) && nodes == s[..i] + s[j..] && cells <= old(cells) && head == old(head)
        decreases |run| - k
      {
        assert run[k].next == if k + 1 < |run| then run[k + 1] else null;
        var next := node.next;
        deleted := deleted + [node];
        node := next;
        size, k := size - 1, k + 1;
      }
      r := last;
    }

    /** clear() */
    method Clear()
      requires Valid()
      modifies this`size, this`nodes, this`cells, cells
      ensures Valid() && nodes == [] && cells == {head} && head == old(head)
    {
      Ends();
      ghost var deleted;
      var r;
      r, deleted := Erase(head.next, head, 0, |nodes|);
      EmptyCells();
    }

    /** assign(List&&): clear, then the nodes change owner by exchanging the heads.  Moved to itself, a list is
        cleared. */
    method MoveFrom(other: List<T>)
      requires Valid() && other.Valid() && (this == other || cells !! other.cells)
      modifies this, other, cells
      ensures Valid() && other.Valid() && other.nodes == [] && other.cells == {old(head)}
      ensures this != other ==> nodes == old(other.nodes) && cells == old(other.cells)
    {
      Clear();
      assert other.Valid();
      head, other.head := other.head, head;
      size, other.size := other.size, size;
      nodes, other.nodes := other.nodes, nodes;
      cells, other.cells := other.cells, cells;
    }

    /** The loop of qsort(): nodes below the pivot p move to left, the others stay. */
    method Partition(left: List<T>, lt: (T, T) -> bool, ghost p: ListNode<T>, ghost s: seq<ListNode<T>>)
      requires Valid() && left.Valid() && this != left && cells !! left.cells && left.nodes == [] && nodes == [p] + s
      modifies this`size, this`nodes, this`cells, cells, left`size, left`nodes, left`cells, left.cells
      ensures Valid() && left.Valid() && cells !! left.cells
      ensures left.nodes == PartOf(Value<T>, lt, s, p, true) && nodes == [p] + PartOf(Value<T>, lt, s, p, false)
      ensures cells + left.cells == old(cells + left.cells) && head == old(head) && left.head == old(left.head)
    {
      hide Valid;
      hide PartOf;
      ghost var d, kept, rest := [], [], s;
      NoParts(Value<T>, lt, p);
      PartitionSlices(p, d, kept, rest);
      Cut([], [p] + (kept + rest));
      Cut([p] + kept, rest);
      var it := head.next.next;
      while it != head
        invariant Valid() && left.Valid() && cells !! left.cells && s == d + rest && it == First(rest)
        invariant kept == PartOf(Value<T>, lt, d, p, false) && left.nodes == PartOf(Value<T>, lt, d, p, true)
        invariant nodes == [p] + kept + rest
        invariant cells + left.cells == old(cells + left.cells) && head == old(head) && left.head == old(left.head)
        decreases |rest|
      {
        PartitionSlices(p, d, kept, rest);
        Cut([], [p] + (kept + rest));
        Cut([p] + kept, rest);
        ghost var x, tail := rest[0], rest[1..];
        PartRound(Value<T>, lt, d, x, p);
        var next := it.next;
        if lt(it.val.value, head.next.val.value) {
          left.Append(this, it, next, [p] + kept, [x], tail);
        } else {
          kept := kept + [x];
        }
        d, rest, it := d + [x], tail, next;
      }
      PartitionSlices(p, d, kept, rest);
      Cut([p] + kept, rest);
    }

    /** left.qsort(comp); right.qsort(comp) */
    method SortSides(left: List<T>, right: List<T>, lt: (T, T) -> bool)
      requires StrictWeak(lt) && Valid() && left.Valid() && right.Valid() && this != left && this != right
      requires left != right
      requires cells !! left.cells && cells !! right.cells && left.cells !! right.cells
      modifies left, right, left.cells, right.cells
      ensures Valid() && left.Valid() && right.Valid() && nodes == old(nodes)
      ensures left.nodes == SortOf(Value<T>, lt, old(left.nodes))
      ensures right.nodes == SortOf(Value<T>, lt, old(right.nodes))
      ensures cells == old(cells) && cells !! left.cells && cells !! right.cells && left.cells !! right.cells
      ensures forall c :: c in left.cells || c in right.cells ==>
                c in old(left.cells) || c in old(right.cells) || fresh(c)
      decreases |left.nodes| + |right.nodes|, 1
    {
      hide *;
      left.Qsort(lt);
      right.Qsort(lt);
    }

    /** The first half of qsort(): smaller nodes on left, the pivot here, the rest on right. */
    method SplitAround(left: List<T>, right: List<T>, lt: (T, T) -> bool, ghost p: ListNode<T>,
        ghost s: seq<ListNode<T>>)
      requires Valid() && Scratches(left, right) && nodes == [p] + s
      modifies this`size, this`nodes, this`cells, cells
      modifies left`size, left`nodes, left`cells, right`size, right`nodes, right`cells, left.cells, right.cells
      ensures Valid() && left.Valid() && right.Valid()
      ensures cells !! left.cells && cells !! right.cells && left.cells !! right.cells
      ensures nodes == [p] && left.nodes == PartOf(Value<T>, lt, s, p, true)
      ensures right.nodes == PartOf(Value<T>, lt, s, p, false)
      ensures cells + left.cells + right.cells == old(cells + left.cells + right.cells)
    {
      hide Valid;
      hide PartOf;
      Partition(left, lt, p, s);
      ghost var b := PartOf(Value<T>, lt, s, p, false);
      assert [p] + b + [] == [p] + b && b + [] == b && [p] + [] == [p] && [] + ([p] + b) == [p] + b;
      Cut([], [p] + b);
      Cut([p], b);
      right.TakeChunk(this, head.next.next, head, [p], b, []);
    }

    /** The last lines of qsort(): left, the pivot and right become this list. */
    method Collect(left: List<T>, right: List<T>)
      requires Valid() && left.Valid() && right.Valid() && this != left && this != right && left != right
      requires cells !! left.cells && cells !! right.cells && left.cells !! right.cells
      modifies this, left, right, cells, left.cells, right.cells
      ensures Valid() && nodes == old(left.nodes) + old(nodes) + old(right.nodes)
      ensures cells <= old(cells + left.cells + right.cells)
    {
      hide Valid;
      left.Join(this);
      left.Join(right);
      MoveFrom(left);
    }

    /** qsort(): partition around the first element, sort both sides, join. */
    method Qsort(lt: (T, T) -> bool)
      requires Valid() && StrictWeak(lt)
      modifies this, cells
      ensures Valid() && nodes == SortOf(Value<T>, lt, old(nodes))
      ensures forall c :: c in cells ==> c in old(cells) || fresh(c)
      decreases |nodes|, 0
    {
      hide *;
      Ends();
      if size <= 1 {
        SortShort(Value<T>, lt, nodes);
        return;
      }
      var left := Scratch();
      var right := Scratch();
      TwoScratches(left, right);
      ghost var p, s := nodes[0], nodes[1..];
      assert nodes == [p] + s;
      PartSizes(Value<T>, lt, s, p);
      SplitAround(left, right, lt, p, s);
      assert forall c :: c in cells || c in left.cells || c in right.cells ==> c in old(cells) || fresh(c);
      SortSides(left, right, lt);
      SortParts(Value<T>, lt, p, s);
      Collect(left, right);
    }

    /** splice(end(), other) */
    method Join(other: List<T>)
      requires Valid() && other.Valid() && this != other && cells !! other.cells
      modifies this`size, this`nodes, this`cells, other`size, other`nodes, other`cells, cells, other.cells
      ensures Valid() && other.Valid() && cells !! other.cells && nodes == old(nodes) + old(other.nodes)
      ensures other.nodes == []
      ensures cells + other.cells == old(cells + other.cells) && head == old(head) && other.head == old(other.head)
    {
      hide Valid;
      ghost var x := other.nodes;
      assert [] + x + [] == x && x + [] == x && [] + x == x;
      other.Cut([], x);
      Append(other, other.head.next, other.head, [], x, []);
    }

    lemma {:induction false} NodeFacts(u: nat)
      requires Valid() && u < |nodes|
      ensures nodes[u] in cells && nodes[u].val.Some?
    {
      assert nodes[u] in nodes;
    }

    /** One round of the transfer loop within one list: from position u to position v of the rest. */
    method MoveOneWithin(before: ListNode<T>, node: ListNode<T>, ghost u: nat, ghost v: nat) returns (next: ListNode<T>)
      requires Valid() && u < |nodes| && node == nodes[u] && v < |nodes|
      requires before == if v < |Without(nodes, u)| then Without(nodes, u)[v] else head
      modifies this`size, this`nodes, this`cells, cells
      ensures Valid() && nodes == With(Without(old(nodes), u), v, node)
      ensures cells == old(cells) && head == old(head)
      ensures next == if u < |Without(old(nodes), u)| then Without(old(nodes), u)[u] else head
    {
      hide Loop;
      hide RingLinked;
      NodeFacts(u);
      next := Unlink(node, u);
      Link(before, node, v);
    }

    /** transfer(before, *this, first, last): within one list, before outside [first, last). */
    method TransferWithin(before: ListNode<T>, first: ListNode<T>, last: ListNode<T>, ghost b: nat, ghost i: nat,
        ghost j: nat)
      requires Valid() && i <= j <= |nodes| && b <= |nodes| && !(i <= b < j)
      requires before == At(b) && first == At(i) && last == At(j)
      modifies this`size, this`nodes, this`cells, cells
      ensures Valid() && nodes == Moved(old(nodes), b, i, j)
      ensures b <= i ==> nodes == old(nodes)[..b] + old(nodes)[i..j] + old(nodes)[b..i] + old(nodes)[j..]
      ensures b > i ==> nodes == old(nodes)[..i] + old(nodes)[j..b] + old(nodes)[i..j] + old(nodes)[b..]
      ensures cells == old(cells) && head == old(head)
    {
      hide Valid;
      hide Moved;
      hide With;
      hide Without;
      ghost var s := nodes;
      MovedIs(s, b, i, j);
      MovedStart(s, b, i);
      if b == j { MovedSame(s, b, i); }
      forall x | i <= x < j ensures s[x] != last {
        if At(x) == last { AtInjective(x, j); }
      }
      if first != last && before != last {
        var node := first;
        ghost var k := i;
        while node != last
          invariant Valid() && i <= k <= j && nodes == Moved(s, b, i, k) && cells == old(cells) && head == old(head)
          invariant node == if k < |s| then s[k] else head
          invariant b < i || j < b
          decreases j - k
        {
          if b < i { MovedStepDown(s, b, i, k); } else { MovedStepUp(s, b, i, k); }
          node := MoveOneWithin(before, node, if b < i then k else i, if b < i then b + k - i else b - 1);
          k := k + 1;
        }
      } else {
        if before == last { AtInjective(b, j); }
        if first == last { AtInjective(i, j); }
      }
    }

    lemma {:induction false} AtInside(k: nat)
      requires Valid() && k <= |nodes|
      ensures At(k) == head <==> k == |nodes|
    {
      if At(k) == head { AtInjective(k, |nodes|); }
    }

    /** reverse(): each node in turn moves to the front. */
    method Reverse()
      requires Valid()
      modifies this`size, this`nodes, this`cells, cells
      ensures Valid() && nodes == Reversed(old(nodes)) && |nodes| == |old(nodes)|
      ensures forall k :: 0 <= k < |nodes| ==> nodes[k] == old(nodes)[|nodes| - 1 - k]
      ensures cells == old(cells) && head == old(head)
    {
      hide Valid;
      hide Moved;
      hide Reversed;
      Ends();
      ghost var s, k := nodes, 1;
      ReversedShort(s);
      Mirrored(s);
      if size <= 1 {
        return;
      }
      StepAt(0);
      var it := head.next.next;
      while it != head
        invariant 0 < k <= |s| && Valid() && nodes == Reversed(s[..k]) + s[k..] && |nodes| == |s| && it == At(k)
        invariant cells == old(cells) && head == old(head)
        decreases |s| - k
      {
        AtInside(k);
        FrontStep(s, k);
        StepAt(k);
        Ends();
        var next := it.next;
        TransferWithin(head.next, it, next, 0, k, k + 1);
        ReversedAt(s[..k + 1], 0);
        k, it := k + 1, next;
      }
      AtInside(k);
      assert s[..k] == s && s[k..] == [];
    }

    /** emplace(before, v) */
    method Emplace(before: ListNode<T>, v: T, ghost b: nat) returns (node: ListNode<T>)
      requires Valid() && b <= |nodes| && before == At(b)
      modifies this`size, this`nodes, this`cells, cells
      ensures Valid() && fresh(node) && node.val == Some(v)
      ensures nodes == old(nodes)[..b] + [node] + old(nodes)[b..]
      ensures cells == old(cells) + {node} && head == old(head)
    {
      node := new ListNode<T>(v);
      assert Valid();
      Link(before, node, b);
    }
  }

  /** Two values in the default order, which comp would put the other way round: sort(comp) leaves them. */
  method SortByMisses<T(!new)>(comp: (T, T) -> bool, less: (T, T) -> bool, v: T, w: T) returns (l: List<T>)
    requires StrictWeak(comp) && StrictWeak(less) && less(v, w) && comp(w, v)
    ensures l.Valid() && |l.nodes| == 2 && l.nodes[0].val == Some(v) && l.nodes[1].val == Some(w)
  {
    hide StrictWeak;
    hide SortOf;
    l := new List<T>();
    var x := l.Emplace(l.head, v, 0);
    var y := l.Emplace(l.head, w, 1);
    assert l.nodes == [x, y];
    l.Sortable();
    assert !less(w, v) by { NotBoth(less, v, w); }
    TwoSorted(Value<T>, less, x, y);
    l.SortBy(comp, less);
  }
}
