/** The meaning of a stable sort, as facts about sequences.  Elements of any type
    E (list nodes) are ordered by a key of type K under a strict weak order. */
module Sorting {
  ghost predicate StrictWeak<K(!new)>(lt: (K, K) -> bool) {
    && (forall x, y :: lt(x, y) ==> !lt(y, x))
    && (forall x, y, z :: lt(x, z) ==> lt(x, y) || lt(y, z))
  }

  predicate Less<E, K>(key: E -> K, lt: (K, K) -> bool, x: E, y: E) {
    lt(key(x), key(y))
  }

  /** No element is below its predecessor. */
  ghost predicate Sorted<E, K>(key: E -> K, lt: (K, K) -> bool, s: seq<E>) {
    |s| <= 1 || (!Less(key, lt, s[1], s[0]) && Sorted(key, lt, s[1..]))
  }

  predicate Same<E, K>(key: E -> K, lt: (K, K) -> bool, x: E, k: K) {
    !lt(key(x), k) && !lt(k, key(x))
  }

  function Pick<E, K>(key: E -> K, lt: (K, K) -> bool, x: E, k: K): seq<E> {
    if Same(key, lt, x, k) then [x] else []
  }

  /** The elements equivalent to k, in order. */
  ghost function Class<E, K>(key: E -> K, lt: (K, K) -> bool, s: seq<E>, k: K): seq<E> {
    if s == [] then [] else Pick(key, lt, s[0], k) + Class(key, lt, s[1..], k)
  }

  ghost predicate SameClasses<E, K(!new)>(key: E -> K, lt: (K, K) -> bool, r: seq<E>, s: seq<E>) {
    forall k :: Class(key, lt, r, k) == Class(key, lt, s, k)
  }

  /** r is s in ascending order, equivalent elements in their old order. */
  ghost predicate IsStableSort<E, K(!new)>(key: E -> K, lt: (K, K) -> bool, r: seq<E>, s: seq<E>) {
    Sorted(key, lt, r) && SameClasses(key, lt, r, s)
  }

  /** The merge every sort uses: the right element goes first only if it is below. */
  ghost function Merge<E, K>(key: E -> K, lt: (K, K) -> bool, a: seq<E>, b: seq<E>): seq<E> {
    if a == [] then b else if b == [] then a
    else if Less(key, lt, b[0], a[0]) then [b[0]] + Merge(key, lt, a, b[1..])
    else [a[0]] + Merge(key, lt, a[1..], b)
  }

  /** Reference sort: insertion from the right. */
  ghost function SortSpec<E, K>(key: E -> K, lt: (K, K) -> bool, s: seq<E>): seq<E> {
    if s == [] then [] else Merge(key, lt, [s[0]], SortSpec(key, lt, s[1..]))
  }

  lemma {:induction false} ClassConcat<E, K>(key: E -> K, lt: (K, K) -> bool, a: seq<E>, b: seq<E>, k: K)
    ensures Class(key, lt, a + b, k) == Class(key, lt, a, k) + Class(key, lt, b, k)
  {
    if a == [] {
      assert a + b == b;
    } else {
      var h := Pick(key, lt, a[0], k);
      calc {
        Class(key, lt, a + b, k);
        { assert (a + b)[0] == a[0] && (a + b)[1..] == a[1..] + b; }
        h + Class(key, lt, a[1..] + b, k);
        { ClassConcat(key, lt, a[1..], b, k); }
        h + (Class(key, lt, a[1..], k) + Class(key, lt, b, k));
        (h + Class(key, lt, a[1..], k)) + Class(key, lt, b, k);
        Class(key, lt, a, k) + Class(key, lt, b, k);
      }
    }
  }

  /** All elements of a sorted sequence are at or above its head. */
  lemma {:induction false} HeadIsLeast<E, K(!new)>(key: E -> K, lt: (K, K) -> bool, s: seq<E>)
    requires StrictWeak(lt) && Sorted(key, lt, s) && s != []
    ensures forall i :: 0 <= i < |s| ==> !Less(key, lt, s[i], s[0])
  {
    if |s| > 1 {
      HeadIsLeast(key, lt, s[1..]);
      forall i | 0 <= i < |s| ensures !Less(key, lt, s[i], s[0]) {
        if i > 0 { assert s[i] == s[1..][i - 1]; }
      }
    }
  }

  lemma {:induction false} ClassNone<E, K>(key: E -> K, lt: (K, K) -> bool, s: seq<E>, k: K)
    requires forall i :: 0 <= i < |s| ==> !Same(key, lt, s[i], k)
    ensures Class(key, lt, s, k) == []
  {
    if s != [] {
      ClassNone(key, lt, s[1..], k);
    }
  }

  lemma {:induction false} ClassMember<E, K>(key: E -> K, lt: (K, K) -> bool, s: seq<E>, k: K, x: E)
    ensures x in Class(key, lt, s, k) <==> x in s && Same(key, lt, x, k)
  {
    if s != [] {
      ClassMember(key, lt, s[1..], k, x);
    }
  }

  lemma {:induction false} MergeHead<E, K>(key: E -> K, lt: (K, K) -> bool, a: seq<E>, b: seq<E>)
    requires a != [] || b != []
    ensures Merge(key, lt, a, b) != []
    ensures Merge(key, lt, a, b)[0] == if a == [] || (b != [] && Less(key, lt, b[0], a[0])) then b[0] else a[0]
  {
  }

  lemma {:induction false} MergeSorted<E, K(!new)>(key: E -> K, lt: (K, K) -> bool, a: seq<E>, b: seq<E>)
    requires StrictWeak(lt) && Sorted(key, lt, a) && Sorted(key, lt, b)
    ensures Sorted(key, lt, Merge(key, lt, a, b))
    decreases |a| + |b|
  {
    if a != [] && b != [] {
      var a', b' := if Less(key, lt, b[0], a[0]) then a else a[1..], if Less(key, lt, b[0], a[0]) then b[1..] else b;
      MergeSorted(key, lt, a', b');
      MergeHead(key, lt, a', b');
      var m := Merge(key, lt, a', b');
      assert Merge(key, lt, a, b)[1..] == m;
    }
  }

  lemma {:induction false} ClassCons<E, K>(key: E -> K, lt: (K, K) -> bool, x: E, t: seq<E>, k: K)
    ensures Class(key, lt, [x] + t, k) == Pick(key, lt, x, k) + Class(key, lt, t, k)
  {
    assert ([x] + t)[1..] == t;
  }

  lemma {:induction false} ClassNil<E, K>(key: E -> K, lt: (K, K) -> bool, k: K)
    ensures Class(key, lt, [], k) == []
  {
  }

  lemma {:induction false} MergeClasses<E, K(!new)>(key: E -> K, lt: (K, K) -> bool, a: seq<E>, b: seq<E>, k: K)
    requires StrictWeak(lt) && Sorted(key, lt, a) && Sorted(key, lt, b)
    ensures Class(key, lt, Merge(key, lt, a, b), k) == Class(key, lt, a, k) + Class(key, lt, b, k)
    decreases |a| + |b|
  {
    hide Class;
    ClassNil(key, lt, k);
    if a == [] || b == [] {
    } else if Less(key, lt, b[0], a[0]) {
      MergeClasses(key, lt, a, b[1..], k);
      ClassCons(key, lt, b[0], Merge(key, lt, a, b[1..]), k);
      ClassCons(key, lt, b[0], b[1..], k);
      assert [b[0]] + b[1..] == b;
      HeadIsLeast(key, lt, a);
      if Same(key, lt, b[0], k) {
        ClassNone(key, lt, a, k);
      }
    } else {
      MergeClasses(key, lt, a[1..], b, k);
      ClassCons(key, lt, a[0], Merge(key, lt, a[1..], b), k);
      ClassCons(key, lt, a[0], a[1..], k);
      assert [a[0]] + a[1..] == a;
    }
  }

  lemma {:induction false} BagCons<E>(x: E, t: seq<E>)
    ensures multiset([x] + t) == multiset{x} + multiset(t)
  {
  }

  lemma {:induction false} BagUncons<E>(s: seq<E>)
    requires s != []
    ensures multiset(s) == multiset{s[0]} + multiset(s[1..])
  {
    assert s == [s[0]] + s[1..];
  }

  lemma {:induction false} BagShift<E>(x: E, a: multiset<E>, b: multiset<E>)
    ensures multiset{x} + (a + b) == a + (multiset{x} + b) == (multiset{x} + a) + b
  {
  }

  lemma {:induction false} MergeBag<E, K>(key: E -> K, lt: (K, K) -> bool, a: seq<E>, b: seq<E>)
    ensures multiset(Merge(key, lt, a, b)) == multiset(a) + multiset(b)
    decreases |a| + |b|
  {
    if a != [] && b != [] {
      if Less(key, lt, b[0], a[0]) {
        MergeBag(key, lt, a, b[1..]);
        BagCons(b[0], Merge(key, lt, a, b[1..]));
        BagUncons(b);
        BagShift(b[0], multiset(a), multiset(b[1..]));
      } else {
        MergeBag(key, lt, a[1..], b);
        BagCons(a[0], Merge(key, lt, a[1..], b));
        BagUncons(a);
        BagShift(a[0], multiset(a[1..]), multiset(b));
      }
    }
  }

  /** The reference sort is a stable sort and a permutation. */
  lemma {:induction false} SortSpecIsStableSort<E, K(!new)>(key: E -> K, lt: (K, K) -> bool, s: seq<E>)
    requires StrictWeak(lt)
    ensures IsStableSort(key, lt, SortSpec(key, lt, s), s)
    ensures multiset(SortSpec(key, lt, s)) == multiset(s)
  {
    if s != [] {
      var t := SortSpec(key, lt, s[1..]);
      SortSpecIsStableSort(key, lt, s[1..]);
      MergeSorted(key, lt, [s[0]], t);
      MergeBag(key, lt, [s[0]], t);
      assert [s[0]] + s[1..] == s;
      forall k ensures Class(key, lt, SortSpec(key, lt, s), k) == Class(key, lt, s, k) {
        MergeClasses(key, lt, [s[0]], t, k);
        ClassConcat(key, lt, [s[0]], s[1..], k);
      }
    }
  }

  lemma {:induction false} EmptyClasses<E, K(!new)>(key: E -> K, lt: (K, K) -> bool, r: seq<E>, s: seq<E>)
    requires StrictWeak(lt) && r == [] && SameClasses(key, lt, r, s)
    ensures s == []
  {
    hide Class;
    if s != [] {
      var k := key(s[0]);
      ClassMember(key, lt, s, k, s[0]);
      ClassNil(key, lt, k);
    }
  }

  lemma {:induction false} SameHeads<E, K(!new)>(key: E -> K, lt: (K, K) -> bool, r: seq<E>, s: seq<E>)
    requires StrictWeak(lt) && Sorted(key, lt, r) && Sorted(key, lt, s) && SameClasses(key, lt, r, s)
    requires r != [] && s != []
    ensures r[0] == s[0]
  {
    HeadIsLeast(key, lt, r);
    HeadIsLeast(key, lt, s);
    ClassMember(key, lt, r, key(r[0]), r[0]);
    ClassMember(key, lt, s, key(r[0]), r[0]);
    assert r[0] in s;
    ClassMember(key, lt, s, key(s[0]), s[0]);
    ClassMember(key, lt, r, key(s[0]), s[0]);
    assert s[0] in r;
    assert Same(key, lt, r[0], key(s[0])) && Same(key, lt, s[0], key(r[0]));
    assert Class(key, lt, r, key(r[0]))[0] == r[0];
    assert Class(key, lt, s, key(r[0]))[0] == s[0];
  }

  /** A stable sort is unique: same classes and both sorted means equal. */
  lemma {:induction false} StableSortUnique<E, K(!new)>(key: E -> K, lt: (K, K) -> bool, r: seq<E>, s: seq<E>)
    requires StrictWeak(lt) && Sorted(key, lt, r) && Sorted(key, lt, s) && SameClasses(key, lt, r, s)
    ensures r == s
  {
    if r == [] {
      EmptyClasses(key, lt, r, s);
    } else if s == [] {
      EmptyClasses(key, lt, s, r);
    } else {
      SameHeads(key, lt, r, s);
      forall k ensures Class(key, lt, r[1..], k) == Class(key, lt, s[1..], k) {
        var h := Pick(key, lt, r[0], k);
        assert Class(key, lt, r, k) == Class(key, lt, s, k);
        assert (h + Class(key, lt, r[1..], k))[|h|..] == Class(key, lt, r[1..], k);
        assert (h + Class(key, lt, s[1..], k))[|h|..] == Class(key, lt, s[1..], k);
      }
      StableSortUnique(key, lt, r[1..], s[1..]);
      assert r == [r[0]] + r[1..] && s == [s[0]] + s[1..];
    }
  }

  /** Any stable sort of s is the reference sort. */
  lemma {:induction false} OnlyStableSort<E, K(!new)>(key: E -> K, lt: (K, K) -> bool, r: seq<E>, s: seq<E>)
    requires StrictWeak(lt) && IsStableSort(key, lt, r, s)
    ensures r == SortSpec(key, lt, s)
  {
    hide Class;
    SortSpecIsStableSort(key, lt, s);
    StableSortUnique(key, lt, r, SortSpec(key, lt, s));
  }

  // What a stable sort means for two elements

  /** x stands before y. */
  ghost predicate InOrder<E>(s: seq<E>, x: E, y: E) {
    exists i, j :: 0 <= i < j < |s| && s[i] == x && s[j] == y
  }

  lemma {:induction false} InOrderBehind<E>(a: seq<E>, s: seq<E>, x: E, y: E)
    requires InOrder(s, x, y)
    ensures InOrder(a + s, x, y)
  {
    var i, j :| 0 <= i < j < |s| && s[i] == x && s[j] == y;
    assert (a + s)[|a| + i] == x && (a + s)[|a| + j] == y;
  }

  lemma {:induction false} InOrderFirst<E>(x: E, s: seq<E>, y: E)
    requires y in s
    ensures InOrder([x] + s, x, y)
  {
    var j :| 0 <= j < |s| && s[j] == y;
    assert ([x] + s)[0] == x && ([x] + s)[j + 1] == y;
  }

  lemma {:induction false} PairInClass<E, K>(key: E -> K, lt: (K, K) -> bool, s: seq<E>, k: K, p: nat, q: nat)
    requires p < q < |s| && Same(key, lt, s[p], k) && Same(key, lt, s[q], k)
    ensures InOrder(Class(key, lt, s, k), s[p], s[q])
  {
    hide InOrder;
    var t := s[1..];
    if p == 0 {
      assert s[q] in t by { assert t[q - 1] == s[q]; }
      ClassMember(key, lt, t, k, s[q]);
      InOrderFirst(s[0], Class(key, lt, t, k), s[q]);
    } else {
      PairInClass(key, lt, t, k, p - 1, q - 1);
      InOrderBehind(Pick(key, lt, s[0], k), Class(key, lt, t, k), s[p], s[q]);
    }
  }

  lemma {:induction false} PairFromClass<E, K>(key: E -> K, lt: (K, K) -> bool, s: seq<E>, k: K, x: E, y: E)
    requires InOrder(Class(key, lt, s, k), x, y)
    ensures InOrder(s, x, y)
  {
    var c := Class(key, lt, s, k);
    var i, j :| 0 <= i < j < |c| && c[i] == x && c[j] == y;
    var t, n := s[1..], |Pick(key, lt, s[0], k)|;
    var d := Class(key, lt, t, k);
    assert s == [s[0]] + t && d[j - n] == y;
    if i < n {
      ClassMember(key, lt, t, k, y);
      InOrderFirst(s[0], t, y);
    } else {
      assert d[i - n] == x;
      PairFromClass(key, lt, t, k, x, y);
      InOrderBehind([s[0]], t, x, y);
    }
  }

  lemma {:induction false} SortedTail<E, K>(key: E -> K, lt: (K, K) -> bool, s: seq<E>, p: nat)
    requires Sorted(key, lt, s) && p <= |s|
    ensures Sorted(key, lt, s[p..])
  {
    if p > 0 {
      SortedTail(key, lt, s[1..], p - 1);
      assert s[p..] == s[1..][p - 1..];
    }
  }

  /** No element is below one before it, and of two equivalent ones the one that was first is first. */
  lemma {:induction false} StableSortPairs<E, K(!new)>(key: E -> K, lt: (K, K) -> bool, r: seq<E>, s: seq<E>, p: nat,
      q: nat)
    requires StrictWeak(lt) && IsStableSort(key, lt, r, s) && p < q < |r|
    ensures !lt(key(r[q]), key(r[p])) && (lt(key(r[p]), key(r[q])) || InOrder(s, r[p], r[q]))
  {
    hide InOrder;
    SortedTail(key, lt, r, p);
    HeadIsLeast(key, lt, r[p..]);
    assert !Less(key, lt, r[p..][q - p], r[p..][0]);
    if !lt(key(r[p]), key(r[q])) {
      var k := key(r[p]);
      PairInClass(key, lt, r, k, p, q);
      PairFromClass(key, lt, s, k, r[p], r[q]);
    }
  }

  /** Of sequences: what is in ascending order pair by pair is sorted. */
  lemma {:induction false} SortedFromPairs<E, K>(key: E -> K, lt: (K, K) -> bool, s: seq<E>)
    requires forall i, j :: 0 <= i < j < |s| ==> !lt(key(s[j]), key(s[i]))
    ensures Sorted(key, lt, s)
  {
    if |s| > 1 {
      SortedFromPairs(key, lt, s[1..]);
    }
  }

  // One lemma per sorting algorithm

  /** merge_sort: merging two sorted halves sorts the whole. */
  lemma {:induction false} MergeHalves<E, K(!new)>(key: E -> K, lt: (K, K) -> bool, a: seq<E>, b: seq<E>)
    requires StrictWeak(lt)
    ensures Merge(key, lt, SortSpec(key, lt, a), SortSpec(key, lt, b)) == SortSpec(key, lt, a + b)
  {
    hide Class;
    hide Sorted;
    hide Merge;
    hide SortSpec;
    var x, y := SortSpec(key, lt, a), SortSpec(key, lt, b);
    SortSpecIsStableSort(key, lt, a);
    SortSpecIsStableSort(key, lt, b);
    MergeSorted(key, lt, x, y);
    forall k ensures Class(key, lt, Merge(key, lt, x, y), k) == Class(key, lt, a + b, k) {
      MergeClasses(key, lt, x, y, k);
      ClassConcat(key, lt, a, b, k);
    }
    OnlyStableSort(key, lt, Merge(key, lt, x, y), a + b);
  }

  /** The elements below p (side), or the others, in order. */
  ghost function Part<E, K>(key: E -> K, lt: (K, K) -> bool, s: seq<E>, p: E, below: bool): seq<E> {
    if s == [] then []
    else (if Less(key, lt, s[0], p) == below then [s[0]] else []) + Part(key, lt, s[1..], p, below)
  }

  lemma {:induction false} PartSnoc<E, K>(key: E -> K, lt: (K, K) -> bool, s: seq<E>, x: E, p: E, below: bool)
    ensures Part(key, lt, s + [x], p, below)
         == Part(key, lt, s, p, below) + if Less(key, lt, x, p) == below then [x] else []
  {
    if s == [] {
      assert s + [x] == [x] && [x][1..] == [];
    } else {
      PartSnoc(key, lt, s[1..], x, p, below);
      assert (s + [x])[1..] == s[1..] + [x];
    }
  }

  lemma {:induction false} PartElems<E, K>(key: E -> K, lt: (K, K) -> bool, s: seq<E>, p: E, below: bool)
    ensures forall i :: 0 <= i < |Part(key, lt, s, p, below)| ==>
              Less(key, lt, Part(key, lt, s, p, below)[i], p) == below
    ensures |Part(key, lt, s, p, below)| <= |s|
  {
    if s != [] {
      PartElems(key, lt, s[1..], p, below);
    }
  }

  lemma {:induction false} PartBag<E, K>(key: E -> K, lt: (K, K) -> bool, s: seq<E>, p: E)
    ensures multiset(Part(key, lt, s, p, true)) + multiset(Part(key, lt, s, p, false)) == multiset(s)
  {
    if s != [] {
      PartBag(key, lt, s[1..], p);
      BagCons(s[0], s[1..]);
      assert s == [s[0]] + s[1..];
      BagCons(s[0], Part(key, lt, s[1..], p, Less(key, lt, s[0], p)));
      assert [] + Part(key, lt, s[1..], p, !Less(key, lt, s[0], p)) == Part(key, lt, s[1..], p,
          !Less(key, lt, s[0], p));
    }
  }

  /** Splitting around p keeps every class: it falls wholly below p or wholly not. */
  lemma {:induction false} PartClasses<E, K(!new)>(key: E -> K, lt: (K, K) -> bool, s: seq<E>, p: E, k: K)
    requires StrictWeak(lt)
    ensures Class(key, lt, Part(key, lt, s, p, true), k) == if lt(k, key(p)) then Class(key, lt, s, k) else []
    ensures Class(key, lt, Part(key, lt, s, p, false), k) == if lt(k, key(p)) then [] else Class(key, lt, s, k)
  {
    hide Class;
    ClassNil(key, lt, k);
    if s != [] {
      PartClasses(key, lt, s[1..], p, k);
      ClassCons(key, lt, s[0], s[1..], k);
      assert [s[0]] + s[1..] == s;
      forall below { ClassCons(key, lt, s[0], Part(key, lt, s[1..], p, below), k); }
      assert [] + Part(key, lt, s[1..], p, true) == Part(key, lt, s[1..], p, true);
      assert [] + Part(key, lt, s[1..], p, false) == Part(key, lt, s[1..], p, false);
    }
  }

  lemma {:induction false} ElemsOfSort<E, K(!new)>(key: E -> K, lt: (K, K) -> bool, s: seq<E>, p: E, below: bool)
    requires StrictWeak(lt) && forall i :: 0 <= i < |s| ==> Less(key, lt, s[i], p) == below
    ensures forall i :: 0 <= i < |SortSpec(key, lt, s)| ==> Less(key, lt, SortSpec(key, lt, s)[i], p) == below
  {
    hide Class;
    hide Sorted;
    hide SortSpec;
    SortSpecIsStableSort(key, lt, s);
    forall i | 0 <= i < |SortSpec(key, lt, s)| ensures Less(key, lt, SortSpec(key, lt, s)[i], p) == below {
      assert SortSpec(key, lt, s)[i] in multiset(s);
    }
  }

  /** Sorted pieces in ascending order make a sorted whole. */
  lemma {:induction false} SortedConcat<E, K(!new)>(key: E -> K, lt: (K, K) -> bool, a: seq<E>, p: E, b: seq<E>)
    requires StrictWeak(lt) && Sorted(key, lt, a) && Sorted(key, lt, b)
    requires forall i :: 0 <= i < |a| ==> !Less(key, lt, p, a[i])
    requires forall i :: 0 <= i < |b| ==> !Less(key, lt, b[i], p)
    ensures Sorted(key, lt, a + [p] + b)
  {
    if a == [] {
      assert a + [p] + b == [p] + b && ([p] + b)[1..] == b;
    } else {
      SortedConcat(key, lt, a[1..], p, b);
      assert (a + [p] + b)[1..] == a[1..] + [p] + b;
    }
  }

  lemma {:induction false} PivotClass<E, K(!new)>(key: E -> K, lt: (K, K) -> bool, p: E, k: K)
    requires StrictWeak(lt)
    ensures lt(k, key(p)) ==> Class(key, lt, [p], k) == []
  {
    ClassCons(key, lt, p, [], k);
    assert [p] + [] == [p];
  }

  /** qsort: sorted below, pivot, sorted rest is the sort of the whole. */
  lemma {:induction false} QuickParts<E, K(!new)>(key: E -> K, lt: (K, K) -> bool, p: E, s: seq<E>)
    requires StrictWeak(lt)
    ensures SortSpec(key, lt, Part(key, lt, s, p, true)) + [p] + SortSpec(key, lt, Part(key, lt, s, p, false))
         == SortSpec(key, lt, [p] + s)
  {
    hide Class;
    hide Sorted;
    hide SortSpec;
    hide Part;
    var a, b := Part(key, lt, s, p, true), Part(key, lt, s, p, false);
    var x, y := SortSpec(key, lt, a), SortSpec(key, lt, b);
    SortSpecIsStableSort(key, lt, a);
    SortSpecIsStableSort(key, lt, b);
    PartElems(key, lt, s, p, true);
    PartElems(key, lt, s, p, false);
    ElemsOfSort(key, lt, a, p, true);
    ElemsOfSort(key, lt, b, p, false);
    SortedConcat(key, lt, x, p, y);
    forall k ensures Class(key, lt, x + [p] + y, k) == Class(key, lt, [p] + s, k) {
      ClassConcat(key, lt, x + [p], y, k);
      ClassConcat(key, lt, x, [p], k);
      ClassConcat(key, lt, [p], s, k);
      PartClasses(key, lt, s, p, k);
      PivotClass(key, lt, p, k);
      assert Class(key, lt, x, k) == Class(key, lt, a, k) && Class(key, lt, y, k) == Class(key, lt, b, k);
    }
    OnlyStableSort(key, lt, x + [p] + y, [p] + s);
  }

  /** s cut into chunks of n (the last one may be shorter), each sorted. */
  ghost function Chunked<E, K>(key: E -> K, lt: (K, K) -> bool, s: seq<E>, n: nat): seq<E>
    requires n > 0
  {
    if |s| <= n then SortSpec(key, lt, s) else SortSpec(key, lt, s[..n]) + Chunked(key, lt, s[n..], n)
  }

  lemma {:induction false} SortOne<E, K>(key: E -> K, lt: (K, K) -> bool, x: E)
    ensures SortSpec(key, lt, [x]) == [x]
  {
    assert [x][1..] == [];
  }

  lemma {:induction false} SortSpecLength<E, K(!new)>(key: E -> K, lt: (K, K) -> bool, s: seq<E>)
    requires StrictWeak(lt)
    ensures |SortSpec(key, lt, s)| == |s|
  {
    SortSpecIsStableSort(key, lt, s);
    assert |multiset(SortSpec(key, lt, s))| == |multiset(s)|;
  }

  lemma {:induction false} ChunkedOne<E, K(!new)>(key: E -> K, lt: (K, K) -> bool, s: seq<E>)
    requires StrictWeak(lt)
    ensures Chunked(key, lt, s, 1) == s
  {
    hide SortSpec;
    if |s| == 0 {
      SortSpecLength(key, lt, s);
    } else {
      SortOne(key, lt, s[0]);
      assert s[..1] == [s[0]];
      if |s| == 1 {
        assert s == [s[0]];
      } else {
        ChunkedOne(key, lt, s[1..]);
        assert s[..1] + s[1..] == s;
      }
    }
  }

  /** sort: one pass merges neighbouring chunks. */
  lemma {:induction false} ChunkedPair<E, K(!new)>(key: E -> K, lt: (K, K) -> bool, s: seq<E>, n: nat)
    requires StrictWeak(lt) && 0 < n < |s|
    ensures var m := if |s| <= 2 * n then |s| else 2 * n;
      && Chunked(key, lt, s, n)
         == SortSpec(key, lt, s[..n]) + SortSpec(key, lt, s[n..m]) + Chunked(key, lt, s[m..], n)
      && Chunked(key, lt, s, 2 * n)
         == Merge(key, lt, SortSpec(key, lt, s[..n]), SortSpec(key, lt, s[n..m])) + Chunked(key, lt, s[m..], 2 * n)
  {
    hide Merge;
    var m := if |s| <= 2 * n then |s| else 2 * n;
    MergeHalves(key, lt, s[..n], s[n..m]);
    assert s[..n] + s[n..m] == s[..m];
    if |s| <= 2 * n {
      assert s[..m] == s && s[n..m] == s[n..] && s[m..] == [];
    } else {
      assert s[n..][..n] == s[n..m] && s[n..][n..] == s[m..];
    }
  }
}
