/** src/gtl/algorithm/heap_op.h: binary heaps on a range [first, last) of an array. */
module Heaps {
  import opened Sorting

  function Parent(j: nat): nat
    requires j > 0
  {
    (j - 1) / 2
  }

  ghost predicate Ok<T>(lt: (T, T) -> bool, s: seq<T>, j: nat)
    requires 0 < j < |s|
  {
    !lt(s[Parent(j)], s[j])
  }

  /** No node whose parent stands at lo or later is above that parent. */
  ghost predicate HeapFrom<T>(lt: (T, T) -> bool, s: seq<T>, lo: nat) {
    forall j :: 0 < j < |s| && lo <= Parent(j) ==> Ok(lt, s, j)
  }

  ghost predicate IsHeap<T>(lt: (T, T) -> bool, s: seq<T>) {
    HeapFrom(lt, s, 0)
  }

  /** HeapFrom lo but for the children of i, and those are not above i's parent. */
  ghost predicate Sinking<T>(lt: (T, T) -> bool, s: seq<T>, lo: nat, i: nat) {
    && i < |s|
    && (forall j :: 0 < j < |s| && lo <= Parent(j) && Parent(j) != i ==> Ok(lt, s, j))
    && (forall j :: 0 < j < |s| && Parent(j) == i && i > 0 && lo <= Parent(i) ==> !lt(s[Parent(i)], s[j]))
  }

  /** A heap but for i against its parent, and i's children are not above i's parent. */
  ghost predicate Rising<T>(lt: (T, T) -> bool, s: seq<T>, i: nat) {
    && i < |s|
    && (forall j :: 0 < j < |s| && j != i ==> Ok(lt, s, j))
    && (forall j :: 0 < j < |s| && Parent(j) == i && i > 0 ==> !lt(s[Parent(i)], s[j]))
  }

  ghost predicate Ascending<T>(lt: (T, T) -> bool, s: seq<T>) {
    forall i, j :: 0 <= i < j < |s| ==> !lt(s[j], s[i])
  }

  function Swapped<T>(s: seq<T>, i: nat, j: nat): seq<T>
    requires i < |s| && j < |s|
  {
    s[i := s[j]][j := s[i]]
  }

  lemma {:induction false} NotAbove<T(!new)>(lt: (T, T) -> bool, a: T, b: T, c: T)
    requires StrictWeak(lt) && !lt(a, b) && !lt(b, c)
    ensures !lt(a, c)
  {
  }

  lemma {:induction false} NotBelowItself<T(!new)>(lt: (T, T) -> bool, a: T, b: T)
    requires StrictWeak(lt) && lt(a, b)
    ensures !lt(b, a)
  {
  }

  /** The root is a largest element. */
  lemma {:induction false} RootIsTop<T(!new)>(lt: (T, T) -> bool, s: seq<T>, j: nat)
    requires StrictWeak(lt) && IsHeap(lt, s) && j < |s|
    ensures !lt(s[0], s[j])
  {
    if j == 0 {
    } else {
      RootIsTop(lt, s, Parent(j));
      assert Ok(lt, s, j);
      NotAbove(lt, s[0], s[Parent(j)], s[j]);
    }
  }

  lemma {:induction false} SinkStep<T(!new)>(lt: (T, T) -> bool, s: seq<T>, lo: nat, i: nat, l: nat)
    requires StrictWeak(lt) && Sinking(lt, s, lo, i) && lo <= i && l < |s| && (l == 2 * i + 1 || l == 2 * i + 2)
    requires lt(s[i], s[l])
    requires forall j :: 0 < j < |s| && Parent(j) == i ==> !lt(s[l], s[j])
    ensures Sinking(lt, Swapped(s, i, l), lo, l)
  {
    hide StrictWeak;
    var t := Swapped(s, i, l);
    NotBelowItself(lt, s[i], s[l]);
    forall j | 0 < j < |t| && lo <= Parent(j) && Parent(j) != l ensures Ok(lt, t, j) {
      if j == i {
        assert Parent(l) == i;
      } else if Parent(j) == i {
      } else {
        assert Ok(lt, s, j);
      }
    }
    forall j | 0 < j < |t| && Parent(j) == l ensures !lt(t[i], t[j]) {
      assert Ok(lt, s, j);
    }
  }

  lemma {:induction false} SinkEnd<T>(lt: (T, T) -> bool, s: seq<T>, lo: nat, i: nat)
    requires Sinking(lt, s, lo, i)
    requires forall j :: 0 < j < |s| && Parent(j) == i ==> !lt(s[i], s[j])
    ensures HeapFrom(lt, s, lo)
  {
  }

  lemma {:induction false} RiseStep<T(!new)>(lt: (T, T) -> bool, s: seq<T>, i: nat)
    requires StrictWeak(lt) && Rising(lt, s, i) && i > 0 && lt(s[Parent(i)], s[i])
    ensures Rising(lt, Swapped(s, i, Parent(i)), Parent(i))
  {
    hide StrictWeak;
    var p := Parent(i);
    var t := Swapped(s, i, p);
    NotBelowItself(lt, s[p], s[i]);
    forall j | 0 < j < |t| && j != p ensures Ok(lt, t, j) {
      if j != i {
        assert Ok(lt, s, j);
        if Parent(j) == p {
          NotAbove(lt, s[i], s[p], s[j]);
        }
      }
    }
    forall j | 0 < j < |t| && Parent(j) == p && p > 0 ensures !lt(t[Parent(p)], t[j]) {
      assert Ok(lt, s, p);
      if j != i {
        assert Ok(lt, s, j);
        NotAbove(lt, s[Parent(p)], s[p], s[j]);
      }
    }
  }

  lemma {:induction false} SwapBag<T>(s: seq<T>, i: nat, j: nat)
    requires i < |s| && j < |s|
    ensures multiset(Swapped(s, i, j)) == multiset(s)
  {
  }

  /** The contents of the range [first, last). */
  ghost function View<T>(a: array<T>, first: nat, last: nat): (s: seq<T>)
    requires first <= last <= a.Length
    reads a
    ensures |s| == last - first && forall i :: 0 <= i < |s| ==> s[i] == a[first + i]
  {
    a[first..last]
  }

  /** iter_swap on the range, seen on its contents. */
  method IterSwap<T>(a: array<T>, first: nat, last: nat, i: nat, j: nat)
    requires first <= last <= a.Length && i < last - first && j < last - first
    modifies a
    ensures View(a, first, last) == Swapped(old(View(a, first, last)), i, j)
    ensures a[first + i] == old(a[first + j]) && a[first + j] == old(a[first + i])
    ensures forall x :: 0 <= x < a.Length && x != first + i && x != first + j ==> a[x] == old(a[x])
  {
    a[first + i], a[first + j] := a[first + j], a[first + i];
  }

  lemma {:induction false} SinkStart<T>(lt: (T, T) -> bool, s: seq<T>, i: nat)
    requires i < |s| && HeapFrom(lt, s, i + 1)
    ensures Sinking(lt, s, i, i)
  {
  }

  /** The child of k that the other one is not above. */
  method LargerChild<T(!new)>(a: array<T>, first: nat, last: nat, k: nat, comp: (T, T) -> bool) returns (l: nat)
    requires first <= last <= a.Length && StrictWeak(comp) && k < (last - first) / 2
    ensures (l == 2 * k + 1 || l == 2 * k + 2) && l < last - first
    ensures forall j :: 0 < j < last - first && Parent(j) == k ==>
              !comp(View(a, first, last)[l], View(a, first, last)[j])
  {
    l := 2 * k + 1;
    if l + 1 < last - first && comp(a[first + l], a[first + l + 1]) {
      l := l + 1;
    }
    ghost var s := View(a, first, last);
    forall j | 0 < j < last - first && Parent(j) == k ensures !comp(s[l], s[j]) {
      assert j == 2 * k + 1 || j == 2 * k + 2;
    }
  }

  lemma {:induction false} NoChildren<T>(lt: (T, T) -> bool, s: seq<T>, i: nat)
    requires i >= |s|
    ensures HeapFrom(lt, s, i)
  {
  }

  /** sift_down(first, last, i): repairs i against the heaps below it. */
  method SiftDown<T(!new)>(a: array<T>, first: nat, last: nat, i: nat, comp: (T, T) -> bool)
    requires first <= last <= a.Length && StrictWeak(comp) && HeapFrom(comp, View(a, first, last), i + 1)
    modifies a
    ensures HeapFrom(comp, View(a, first, last), i)
    ensures multiset(View(a, first, last)) == multiset(old(View(a, first, last)))
    ensures forall x :: 0 <= x < a.Length && !(first + i <= x < last) ==> a[x] == old(a[x])
  {
    hide StrictWeak;
    hide HeapFrom;
    hide View;
    hide Swapped;
    hide Sinking;
    var n, k := last - first, i;
    if i >= n {
      NoChildren(comp, View(a, first, last), i);
      return;
    }
    SinkStart(comp, View(a, first, last), i);
    while k < n / 2
      invariant i <= k < n && Sinking(comp, View(a, first, last), i, k)
      invariant multiset(View(a, first, last)) == multiset(old(View(a, first, last)))
      invariant forall x :: 0 <= x < a.Length && !(first + i <= x < last) ==> a[x] == old(a[x])
      decreases n - k
    {
      ghost var s := View(a, first, last);
      var l := LargerChild(a, first, last, k, comp);
      if !comp(a[first + k], a[first + l]) {
        forall j | 0 < j < n && Parent(j) == k ensures !comp(s[k], s[j]) {
          NotAbove(comp, s[k], s[l], s[j]);
        }
        break;
      }
      SinkStep(comp, s, i, k, l);
      SwapBag(s, k, l);
      IterSwap(a, first, last, k, l);
      k := l;
    }
    SinkEnd(comp, View(a, first, last), i, k);
  }

  lemma {:induction false} RiseEnd<T>(lt: (T, T) -> bool, s: seq<T>, i: nat)
    requires Rising(lt, s, i) && (i > 0 ==> Ok(lt, s, i))
    ensures IsHeap(lt, s)
  {
  }

  /** sift_up(first, last, i): lets i rise past smaller parents. */
  method SiftUp<T(!new)>(a: array<T>, first: nat, last: nat, i: nat, comp: (T, T) -> bool)
    requires first <= last <= a.Length && StrictWeak(comp) && i < last - first && Rising(comp, View(a, first, last), i)
    modifies a
    ensures IsHeap(comp, View(a, first, last))
    ensures multiset(View(a, first, last)) == multiset(old(View(a, first, last)))
    ensures forall x :: 0 <= x < a.Length && !(first <= x <= first + i) ==> a[x] == old(a[x])
  {
    hide StrictWeak;
    hide HeapFrom;
    hide View;
    hide Swapped;
    hide Rising;
    var k: nat := i;
    while k > 0 && comp(a[first + (k - 1) / 2], a[first + k])
      invariant k <= i && Rising(comp, View(a, first, last), k)
      invariant multiset(View(a, first, last)) == multiset(old(View(a, first, last)))
      invariant forall x :: 0 <= x < a.Length && !(first <= x <= first + i) ==> a[x] == old(a[x])
    {
      ghost var s := View(a, first, last);
      RiseStep(comp, s, k);
      SwapBag(s, k, Parent(k));
      IterSwap(a, first, last, k, (k - 1) / 2);
      k := (k - 1) / 2;
    }
    RiseEnd(comp, View(a, first, last), k);
  }

  /** In positions of the array. */
  lemma {:induction false} InPlace<T>(lt: (T, T) -> bool, a: array<T>, first: nat, last: nat)
    requires first <= last <= a.Length
    ensures IsHeap(lt, View(a, first, last))
       <==> forall x :: first < x < last ==> !lt(a[first + (x - first - 1) / 2], a[x])
  {
    var s := View(a, first, last);
    forall j | 0 < j < |s| ensures Ok(lt, s, j) <==> !lt(a[first + (first + j - first - 1) / 2], a[first + j]) {
    }
    if IsHeap(lt, s) {
      forall x | first < x < last ensures !lt(a[first + (x - first - 1) / 2], a[x]) {
        assert Ok(lt, s, x - first);
      }
    }
  }

  /** make_heap(first, last) */
  method MakeHeap<T(!new)>(a: array<T>, first: nat, last: nat, comp: (T, T) -> bool)
    requires first <= last <= a.Length && StrictWeak(comp)
    modifies a
    ensures IsHeap(comp, View(a, first, last))
    ensures forall x :: first < x < last ==> !comp(a[first + (x - first - 1) / 2], a[x])
    ensures multiset(View(a, first, last)) == multiset(old(View(a, first, last)))
    ensures forall x :: 0 <= x < a.Length && !(first <= x < last) ==> a[x] == old(a[x])
  {
    hide StrictWeak;
    if first != last {
      var i := (last - first) / 2 - 1;
      while i >= 0
        invariant -1 <= i <= (last - first) / 2 - 1 && HeapFrom(comp, View(a, first, last), i + 1)
        invariant multiset(View(a, first, last)) == multiset(old(View(a, first, last)))
        invariant forall x :: 0 <= x < a.Length && !(first <= x < last) ==> a[x] == old(a[x])
      {
        SiftDown(a, first, last, i, comp);
        i := i - 1;
      }
    }
    InPlace(comp, a, first, last);
  }

  lemma {:induction false} NewLast<T>(lt: (T, T) -> bool, s: seq<T>)
    requires s != [] && IsHeap(lt, s[..|s| - 1])
    ensures Rising(lt, s, |s| - 1)
  {
    forall j | 0 < j < |s| && j != |s| - 1 ensures Ok(lt, s, j) {
      assert Ok(lt, s[..|s| - 1], j);
    }
  }

  /** push_heap(first, last): the last element joins the heap before it. */
  method PushHeap<T(!new)>(a: array<T>, first: nat, last: nat, comp: (T, T) -> bool)
    requires first <= last <= a.Length && StrictWeak(comp)
    requires first != last ==> IsHeap(comp, View(a, first, last - 1))
    modifies a
    ensures IsHeap(comp, View(a, first, last))
    ensures multiset(View(a, first, last)) == multiset(old(View(a, first, last)))
    ensures forall x :: 0 <= x < a.Length && !(first <= x < last) ==> a[x] == old(a[x])
  {
    if first != last {
      NewLast(comp, View(a, first, last));
      assert View(a, first, last)[..last - first - 1] == View(a, first, last - 1);
      SiftUp(a, first, last, last - first - 1, comp);
    }
  }

  lemma {:induction false} TopOfAll<T(!new)>(lt: (T, T) -> bool, s: seq<T>, t: seq<T>)
    requires StrictWeak(lt) && IsHeap(lt, s) && multiset(t) == multiset(s)
    ensures forall j :: 0 <= j < |t| ==> s != [] && !lt(s[0], t[j])
  {
    hide StrictWeak;
    forall j | 0 <= j < |t| ensures s != [] && !lt(s[0], t[j]) {
      assert t[j] in multiset(t) && t[j] in multiset(s);
      var x :| 0 <= x < |s| && s[x] == t[j];
      RootIsTop(lt, s, x);
    }
  }

  /** With the last element at the root everything below the root is still in order. */
  lemma {:induction false} AfterPop<T>(lt: (T, T) -> bool, s: seq<T>)
    requires s != [] && IsHeap(lt, s)
    ensures HeapFrom(lt, Swapped(s, 0, |s| - 1)[..|s| - 1], 1)
  {
    var t := Swapped(s, 0, |s| - 1)[..|s| - 1];
    forall j | 0 < j < |t| && 1 <= Parent(j) ensures Ok(lt, t, j) {
      assert Ok(lt, s, j);
    }
  }

  /** pop_heap(first, last): a largest element goes last, the rest stays a heap. */
  method PopHeap<T(!new)>(a: array<T>, first: nat, last: nat, comp: (T, T) -> bool)
    requires first <= last <= a.Length && StrictWeak(comp) && IsHeap(comp, View(a, first, last))
    modifies a
    ensures multiset(View(a, first, last)) == multiset(old(View(a, first, last)))
    ensures forall x :: 0 <= x < a.Length && !(first <= x < last) ==> a[x] == old(a[x])
    ensures first != last ==> IsHeap(comp, View(a, first, last - 1)) && a[last - 1] == old(a[first])
    ensures first != last ==> forall j :: 0 <= j < last - first ==> !comp(a[last - 1], View(a, first, last)[j])
  {
    hide StrictWeak;
    hide Swapped;
    hide HeapFrom;
    if first != last {
      ghost var s, n := View(a, first, last), last - first;
      var end := last - 1;
      assert s[0] == a[first];
      IterSwap(a, first, last, 0, end - first);
      SwapBag(s, 0, n - 1);
      AfterPop(comp, s);
      assert View(a, first, end) == Swapped(s, 0, n - 1)[..n - 1];
      ghost var t := View(a, first, end);
      SiftDown(a, first, end, 0, comp);
      assert a[end] == s[0];
      assert View(a, first, last) == View(a, first, end) + [s[0]];
      assert Swapped(s, 0, n - 1) == t + [s[0]];
      TopOfAll(comp, s, View(a, first, last));
    }
  }

  /** From position m on ascending, and nothing before m is above anything from m on. */
  ghost predicate SortedFrom<T>(lt: (T, T) -> bool, s: seq<T>, m: nat) {
    forall i, j :: 0 <= i < j < |s| && m <= j ==> !lt(s[j], s[i])
  }

  lemma {:induction false} SortedStep<T>(lt: (T, T) -> bool, s: seq<T>, t: seq<T>, m: nat)
    requires 0 < m <= |s| == |t| && SortedFrom(lt, s, m) && s[m..] == t[m..] && multiset(s[..m]) == multiset(t[..m])
    requires forall i :: 0 <= i < m ==> !lt(t[m - 1], t[i])
    ensures SortedFrom(lt, t, m - 1)
  {
    forall i, j | 0 <= i < j < |t| && m - 1 <= j ensures !lt(t[j], t[i]) {
      if m <= j {
        assert t[j] == t[m..][j - m] == s[j];
        if i < m {
          assert t[i] in multiset(t[..m]);
          var x :| 0 <= x < m && s[x] == t[i];
        } else {
          assert t[i] == t[m..][i - m] == s[i];
        }
      }
    }
  }

  /** sort_heap(first, last) */
  method SortHeap<T(!new)>(a: array<T>, first: nat, last: nat, comp: (T, T) -> bool)
    requires first <= last <= a.Length && StrictWeak(comp) && IsHeap(comp, View(a, first, last))
    modifies a
    ensures Ascending(comp, View(a, first, last))
    ensures multiset(View(a, first, last)) == multiset(old(View(a, first, last)))
    ensures forall x :: 0 <= x < a.Length && !(first <= x < last) ==> a[x] == old(a[x])
  {
    hide StrictWeak;
    var end := last;
    while first != end
      invariant first <= end <= last && IsHeap(comp, View(a, first, end))
      invariant multiset(View(a, first, last)) == multiset(old(View(a, first, last)))
      invariant SortedFrom(comp, View(a, first, last), end - first)
      invariant forall x :: 0 <= x < a.Length && !(first <= x < last) ==> a[x] == old(a[x])
      decreases end - first
    {
      ghost var s, h := View(a, first, last), View(a, first, end);
      assert s == h + s[|h|..];
      PopHeap(a, first, end, comp);
      ghost var t := View(a, first, last);
      assert t == View(a, first, end) + s[|h|..];
      SortedStep(comp, s, t, end - first);
      end := end - 1;
    }
  }

  /** make_heap followed by sort_heap: heap sort. */
  method HeapSort<T(!new)>(a: array<T>, comp: (T, T) -> bool)
    requires StrictWeak(comp)
    modifies a
    ensures forall i, j :: 0 <= i < j < a.Length ==> !comp(a[j], a[i])
    ensures multiset(a[..]) == multiset(old(a[..]))
  {
    assert a[..] == View(a, 0, a.Length);
    MakeHeap(a, 0, a.Length, comp);
    SortHeap(a, 0, a.Length, comp);
    assert a[..] == View(a, 0, a.Length);
    assert forall i :: 0 <= i < a.Length ==> View(a, 0, a.Length)[i] == a[i];
  }

  /** The heap prefixes are those that end before the first misplaced element. */
  lemma {:induction false} Prefixes<T>(lt: (T, T) -> bool, a: array<T>, first: nat, last: nat, r: nat)
    requires first <= r <= last <= a.Length
    requires forall j :: 0 < j < r - first ==> Ok(lt, View(a, first, last), j)
    requires r < last ==> first < r && !Ok(lt, View(a, first, last), r - first)
    ensures forall m :: first <= m <= last ==> (IsHeap(lt, View(a, first, m)) <==> m <= r)
  {
    ghost var s := View(a, first, last);
    forall m | first <= m <= last ensures IsHeap(lt, View(a, first, m)) <==> m <= r {
      var t := View(a, first, m);
      assert forall j :: 0 < j < |t| ==> Ok(lt, t, j) == Ok(lt, s, j);
      if m > r {
        assert !Ok(lt, t, r - first);
      }
    }
  }

  /** is_heap_until(first, last): the end of the longest heap prefix. */
  method IsHeapUntil<T>(a: array<T>, first: nat, last: nat, comp: (T, T) -> bool) returns (r: nat)
    requires first <= last <= a.Length
    ensures first <= r <= last
    ensures forall m :: first <= m <= last ==> (IsHeap(comp, View(a, first, m)) <==> m <= r)
  {
    var n, i := last - first, 0;
    ghost var s := View(a, first, last);
    if n <= 1 {
      return last;
    }
    var it, left := first, first + 1;
    while i < n / 2
      invariant 0 <= i <= n / 2 && it == first + i && left == first + 2 * i + 1
      invariant forall j :: 0 < j < |s| && Parent(j) < i ==> Ok(comp, s, j)
    {
      if comp(a[it], a[left]) {
        Prefixes(comp, a, first, last, left);
        return left;
      }
      left := left + 1;
      if left < last && comp(a[it], a[left]) {
        Prefixes(comp, a, first, last, left);
        return left;
      }
      i, it, left := i + 1, it + 1, left + 1;
    }
    Prefixes(comp, a, first, last, last);
    return last;
  }

  /** is_heap(first, last) */
  method IsHeapCheck<T>(a: array<T>, first: nat, last: nat, comp: (T, T) -> bool) returns (b: bool)
    requires first <= last <= a.Length
    ensures b <==> IsHeap(comp, View(a, first, last))
  {
    var r := IsHeapUntil(a, first, last, comp);
    b := r == last;
  }
}
