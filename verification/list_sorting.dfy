/** The three list sorts over any nodes that carry an optional value (a list head
    carries none and orders below every element). */
module ListSorting {
  import opened Wrappers
  import opened SinglyList
  import opened Sorting

  function Lift<T>(lt: (T, T) -> bool): (Option<T>, Option<T>) -> bool {
    (x: Option<T>, y: Option<T>) => y.Some? && (x.None? || lt(x.value, y.value))
  }

  lemma {:induction false} LiftIsStrictWeak<T(!new)>(lt: (T, T) -> bool)
    requires StrictWeak(lt)
    ensures StrictWeak(Lift(lt))
  {
    var l := Lift(lt);
    forall x, y | l(x, y) ensures !l(y, x) {
    }
    forall x, y, z | l(x, z) ensures l(x, y) || l(y, z) {
    }
  }

  ghost function MergeOf<E, T>(key: E -> Option<T>, lt: (T, T) -> bool, a: seq<E>, b: seq<E>): seq<E> {
    Merge(key, Lift(lt), a, b)
  }

  ghost function SortOf<E, T>(key: E -> Option<T>, lt: (T, T) -> bool, s: seq<E>): seq<E> {
    SortSpec(key, Lift(lt), s)
  }

  lemma {:induction false} MergeRound<E, T>(key: E -> Option<T>, lt: (T, T) -> bool, done: seq<E>, a: seq<E>, b: seq<E>)
    requires a != [] && b != [] && key(a[0]).Some? && key(b[0]).Some?
    ensures var m := done + MergeOf(key, lt, a, b);
      if lt(key(b[0]).value, key(a[0]).value) then m == done + [b[0]] + MergeOf(key, lt, a, b[1..])
      else m == done + [a[0]] + MergeOf(key, lt, a[1..], b)
  {
    var r := if lt(key(b[0]).value, key(a[0]).value) then MergeOf(key, lt, a, b[1..]) else MergeOf(key, lt, a[1..], b);
    var x := if lt(key(b[0]).value, key(a[0]).value) then b[0] else a[0];
    assert MergeOf(key, lt, a, b) == [x] + r;
    assert done + ([x] + r) == done + [x] + r;
  }

  lemma {:induction false} MergeEnd<E, T>(key: E -> Option<T>, lt: (T, T) -> bool, done: seq<E>, a: seq<E>, b: seq<E>)
    requires a == [] || b == []
    ensures done + MergeOf(key, lt, a, b) == done + a + b
  {
  }

  lemma {:induction false} SortShort<E, T>(key: E -> Option<T>, lt: (T, T) -> bool, s: seq<E>)
    requires |s| <= 1
    ensures SortOf(key, lt, s) == s
  {
    if |s| == 1 {
      SortOne(key, Lift(lt), s[0]);
      assert s == [s[0]];
    }
  }

  lemma {:induction false} SortHalves<E, T(!new)>(key: E -> Option<T>, lt: (T, T) -> bool, s: seq<E>, m: nat)
    requires StrictWeak(lt) && m <= |s|
    ensures MergeOf(key, lt, SortOf(key, lt, s[..m]), SortOf(key, lt, s[m..])) == SortOf(key, lt, s)
  {
    LiftIsStrictWeak(lt);
    MergeHalves(key, Lift(lt), s[..m], s[m..]);
    assert s[..m] + s[m..] == s;
  }

  ghost function ChunksOf<E, T>(key: E -> Option<T>, lt: (T, T) -> bool, s: seq<E>, n: nat): seq<E>
    requires n > 0
  {
    Chunked(key, Lift(lt), s, n)
  }

  lemma {:induction false} ChunksStart<E, T(!new)>(key: E -> Option<T>, lt: (T, T) -> bool, s: seq<E>)
    requires StrictWeak(lt)
    ensures ChunksOf(key, lt, s, 1) == s
  {
    LiftIsStrictWeak(lt);
    ChunkedOne(key, Lift(lt), s);
  }

  /** Chunks as long as the whole: the whole is sorted. */
  lemma {:induction false} ChunksEnd<E, T>(key: E -> Option<T>, lt: (T, T) -> bool, s: seq<E>, n: nat)
    requires 0 < n && |s| <= n
    ensures ChunksOf(key, lt, s, n) == SortOf(key, lt, s)
  {
  }

  lemma {:induction false} BagLength<E>(r: seq<E>, a: seq<E>, b: seq<E>)
    requires multiset(r) == multiset(a) + multiset(b)
    ensures |r| == |a| + |b|
  {
    assert |multiset(r)| == |r|;
  }

  /** The two leading chunks of s, before and after they are merged. */
  lemma {:induction false} ChunksPair<E, T(!new)>(key: E -> Option<T>, lt: (T, T) -> bool, s: seq<E>, n: nat, m: nat)
    requires StrictWeak(lt) && 0 < n < |s| && m == if |s| <= 2 * n then |s| else 2 * n
    ensures var x, y := SortOf(key, lt, s[..n]), SortOf(key, lt, s[n..m]);
      && ChunksOf(key, lt, s, n) == x + y + ChunksOf(key, lt, s[m..], n)
      && ChunksOf(key, lt, s, 2 * n) == MergeOf(key, lt, x, y) + ChunksOf(key, lt, s[m..], 2 * n)
      && |x| == n && |y| == m - n && |MergeOf(key, lt, x, y)| == m
  {
    LiftIsStrictWeak(lt);
    var l := Lift(lt);
    ChunkedPair(key, l, s, n);
    SortSpecLength(key, l, s[..n]);
    SortSpecLength(key, l, s[n..m]);
    MergeBag(key, l, SortSpec(key, l, s[..n]), SortSpec(key, l, s[n..m]));
    BagLength(Merge(key, l, SortSpec(key, l, s[..n]), SortSpec(key, l, s[n..m])), SortSpec(key, l, s[..n]),
        SortSpec(key, l, s[n..m]));
  }

  lemma {:induction false} LengthOfChunks<E, T(!new)>(key: E -> Option<T>, lt: (T, T) -> bool, s: seq<E>, n: nat)
    requires StrictWeak(lt) && 0 < n
    ensures |ChunksOf(key, lt, s, n)| == |s|
  {
    if |s| <= n {
      LiftIsStrictWeak(lt);
      SortSpecLength(key, Lift(lt), s);
    } else {
      LengthOfChunks(key, lt, s[n..], n);
      LiftIsStrictWeak(lt);
      SortSpecLength(key, Lift(lt), s[..n]);
    }
  }

  /** The t-th and q-th multiple of c. */
  lemma {:induction false} Multiples(t: nat, q: nat, c: nat)
    requires c > 0
    ensures t * c < q * c <==> t < q
    ensures t < q ==> t * c + c <= q * c
    ensures t * c + c == (t + 1) * c
  {
    if t < q {
      assert (t + 1) * c <= q * c;
    } else {
      assert q * c <= t * c;
    }
  }

  lemma {:induction false} DivMod(n: nat, c: nat)
    requires c > 0
    ensures n - n % c == (n / c) * c && n % c < c && n % c <= n
  {
  }

  ghost function PartOf<E, T>(key: E -> Option<T>, lt: (T, T) -> bool, s: seq<E>, p: E, below: bool): seq<E> {
    Part(key, Lift(lt), s, p, below)
  }

  lemma {:induction false} PartRound<E, T>(key: E -> Option<T>, lt: (T, T) -> bool, d: seq<E>, x: E, p: E)
    requires key(x).Some? && key(p).Some?
    ensures PartOf(key, lt, d + [x], p, true)
         == PartOf(key, lt, d, p, true) + if lt(key(x).value, key(p).value) then [x] else []
    ensures PartOf(key, lt, d + [x], p, false)
         == PartOf(key, lt, d, p, false) + if lt(key(x).value, key(p).value) then [] else [x]
  {
    PartSnoc(key, Lift(lt), d, x, p, true);
    PartSnoc(key, Lift(lt), d, x, p, false);
  }

  lemma {:induction false} PartSizes<E, T>(key: E -> Option<T>, lt: (T, T) -> bool, s: seq<E>, p: E)
    ensures |PartOf(key, lt, s, p, true)| + |PartOf(key, lt, s, p, false)| == |s|
  {
    PartBag(key, Lift(lt), s, p);
    BagLength(s, PartOf(key, lt, s, p, true), PartOf(key, lt, s, p, false));
  }

  lemma {:induction false} SortParts<E, T(!new)>(key: E -> Option<T>, lt: (T, T) -> bool, p: E, s: seq<E>)
    requires StrictWeak(lt)
    ensures SortOf(key, lt, PartOf(key, lt, s, p, true)) + [p] + SortOf(key, lt, PartOf(key, lt, s, p, false))
         == SortOf(key, lt, [p] + s)
  {
    LiftIsStrictWeak(lt);
    QuickParts(key, Lift(lt), p, s);
  }

  lemma {:induction false} NoParts<E, T>(key: E -> Option<T>, lt: (T, T) -> bool, p: E)
    ensures PartOf(key, lt, [], p, true) == [] == PartOf(key, lt, [], p, false)
  {
  }

  /** What all three sorts compute: the elements in ascending order, of two equivalent ones the one that was first
      before the other, and no other arrangement is that. */
  lemma {:induction false} SortMeaning<E, T(!new)>(key: E -> Option<T>, lt: (T, T) -> bool, s: seq<E>)
    requires StrictWeak(lt)
    ensures IsStableSort(key, Lift(lt), SortOf(key, lt, s), s) && multiset(SortOf(key, lt, s)) == multiset(s)
    ensures (forall x :: x in s ==> key(x).Some?) ==>
              var r := SortOf(key, lt, s);
              && (forall i :: 0 <= i < |r| ==> key(r[i]).Some?)
              && (forall i, j :: 0 <= i < j < |r| ==> !lt(key(r[j]).value, key(r[i]).value))
              && (forall i, j :: 0 <= i < j < |r| && !lt(key(r[i]).value, key(r[j]).value) ==>
                  exists u, v :: 0 <= u < v < |s| && s[u] == r[i] && s[v] == r[j])
    ensures forall r: seq<E> :: IsStableSort(key, Lift(lt), r, s) ==> r == SortOf(key, lt, s)
  {
    LiftIsStrictWeak(lt);
    SortSpecIsStableSort(key, Lift(lt), s);
    var r := SortOf(key, lt, s);
    if forall x :: x in s ==> key(x).Some? {
      forall i | 0 <= i < |r| ensures key(r[i]).Some? {
        assert r[i] in multiset(r);
      }
      forall i, j | 0 <= i < j < |r|
        ensures !lt(key(r[j]).value, key(r[i]).value)
        ensures !lt(key(r[i]).value, key(r[j]).value) ==>
                  exists u, v :: 0 <= u < v < |s| && s[u] == r[i] && s[v] == r[j]
      {
        StableSortPairs(key, Lift(lt), r, s, i, j);
      }
    }
    forall r: seq<E> | IsStableSort(key, Lift(lt), r, s) ensures r == SortOf(key, lt, s) {
      OnlyStableSort(key, Lift(lt), r, s);
    }
  }

  /** Merging two ascending sequences is sorting the one before the other. */
  lemma {:induction false} MergeMeaning<E, T(!new)>(key: E -> Option<T>, lt: (T, T) -> bool, a: seq<E>, b: seq<E>)
    requires StrictWeak(lt) && forall x :: x in a || x in b ==> key(x).Some?
    requires forall i, j :: 0 <= i < j < |a| ==> !lt(key(a[j]).value, key(a[i]).value)
    requires forall i, j :: 0 <= i < j < |b| ==> !lt(key(b[j]).value, key(b[i]).value)
    ensures MergeOf(key, lt, a, b) == SortOf(key, lt, a + b)
  {
    LiftIsStrictWeak(lt);
    SortedFromPairs(key, Lift(lt), a);
    SortedFromPairs(key, Lift(lt), b);
    OnlyStableSort(key, Lift(lt), a, a);
    OnlyStableSort(key, Lift(lt), b, b);
    MergeHalves(key, Lift(lt), a, b);
  }

  // Two orders

  lemma {:induction false} OneOrder<E>(s: seq<E>, x: E, y: E)
    requires Distinct(s) && InOrder(s, x, y)
    ensures x != y && !InOrder(s, y, x)
  {
  }

  lemma {:induction false} OrderTail<E>(s: seq<E>, x: E, y: E)
    requires Distinct(s) && s != [] && x != s[0]
    ensures InOrder(s, x, y) <==> InOrder(s[1..], x, y)
  {
    if InOrder(s, x, y) {
      var i, j :| 0 <= i < j < |s| && s[i] == x && s[j] == y;
      assert s[1..][i - 1] == x && s[1..][j - 1] == y;
    }
    if InOrder(s[1..], x, y) {
      InOrderBehind([s[0]], s[1..], x, y);
      assert [s[0]] + s[1..] == s;
    }
  }

  /** r and t stand in the same order pair by pair. */
  ghost predicate SameOrder<E>(r: seq<E>, t: seq<E>) {
    forall x, y :: x in r && y in r ==> (InOrder(r, x, y) <==> InOrder(t, x, y))
  }

  lemma {:induction false} SameMembers<E>(r: seq<E>, t: seq<E>)
    requires multiset(r) == multiset(t)
    ensures |r| == |t| && (forall x :: x in r <==> x in t)
    ensures r != [] && t != [] && r[0] == t[0] ==> multiset(r[1..]) == multiset(t[1..])
  {
    assert |multiset(r)| == |r| && |multiset(t)| == |t|;
    forall x ensures x in r <==> x in t {
      assert x in r <==> x in multiset(r);
    }
    if r != [] && t != [] && r[0] == t[0] {
      assert r == [r[0]] + r[1..] && t == [t[0]] + t[1..];
      assert multiset(r[1..]) == multiset(r) - multiset{r[0]};
    }
  }

  lemma {:induction false} SameFirst<E>(r: seq<E>, t: seq<E>)
    requires Distinct(r) && Distinct(t) && r != [] && t != [] && r[0] in t && t[0] in r && SameOrder(r, t)
    ensures r[0] == t[0]
  {
    if r[0] != t[0] {
      var j :| 0 <= j < |r| && r[j] == t[0];
      var i :| 0 <= i < |t| && t[i] == r[0];
      assert InOrder(r, r[0], t[0]) && InOrder(t, t[0], r[0]);
      OneOrder(t, t[0], r[0]);
      assert false;
    }
  }

  lemma {:induction false} TailOrder<E>(r: seq<E>, t: seq<E>)
    requires Distinct(r) && Distinct(t) && r != [] && t != [] && r[0] == t[0] && SameOrder(r, t)
    ensures Distinct(r[1..]) && Distinct(t[1..]) && SameOrder(r[1..], t[1..])
  {
    hide InOrder;
    forall x, y | x in r[1..] && y in r[1..] ensures InOrder(r[1..], x, y) <==> InOrder(t[1..], x, y) {
      OrderTail(r, x, y);
      OrderTail(t, x, y);
    }
  }

  /** Distinct elements have only one arrangement in which they stand in this order pair by pair. */
  lemma {:induction false} OneArrangement<E>(r: seq<E>, t: seq<E>)
    requires Distinct(r) && Distinct(t) && multiset(r) == multiset(t) && SameOrder(r, t)
    ensures r == t
  {
    hide Distinct;
    hide SameOrder;
    SameMembers(r, t);
    if r != [] {
      assert r[0] in t && t[0] in r;
      SameFirst(r, t);
      TailOrder(r, t);
      OneArrangement(r[1..], t[1..]);
      assert r == [r[0]] + r[1..] && t == [t[0]] + t[1..];
    }
  }

  lemma {:induction false} AtMostOnce<E>(s: seq<E>, x: E)
    requires Distinct(s)
    ensures multiset(s)[x] <= 1
  {
    if s != [] {
      AtMostOnce(s[1..], x);
      assert s == [s[0]] + s[1..];
      if s[0] == x { assert x !in s[1..]; }
    }
  }

  lemma {:induction false} StaysDistinct<E>(r: seq<E>, s: seq<E>)
    requires Distinct(s) && multiset(r) == multiset(s)
    ensures Distinct(r)
  {
    forall i, j | 0 <= i < j < |r| ensures r[i] != r[j] {
      if r[i] == r[j] {
        assert r == r[..i] + [r[i]] + r[i + 1..j] + [r[j]] + r[j + 1..];
        assert multiset(r)[r[i]] >= 2;
        AtMostOnce(s, r[i]);
      }
    }
  }

  /** Of two elements the sort puts the later one first exactly if it is below the other. */
  lemma {:induction false} PairSorted<E, T(!new)>(key: E -> Option<T>, lt: (T, T) -> bool, s: seq<E>, u: nat, v: nat)
    requires StrictWeak(lt) && Distinct(s) && (forall x :: x in s ==> key(x).Some?) && u < v < |s|
    ensures var r := SortOf(key, lt, s);
      && (InOrder(r, s[v], s[u]) <==> lt(key(s[v]).value, key(s[u]).value))
      && (InOrder(r, s[u], s[v]) <==> !lt(key(s[v]).value, key(s[u]).value))
  {
    var r := SortOf(key, lt, s);
    SortMeaning(key, lt, s);
    StaysDistinct(r, s);
    SameMembers(r, s);
    assert s[u] in r && s[v] in r;
    var i :| 0 <= i < |r| && r[i] == s[u];
    var j :| 0 <= j < |r| && r[j] == s[v];
    if i < j { assert InOrder(r, s[u], s[v]); } else { assert InOrder(r, s[v], s[u]); }
  }

  lemma {:induction false} SamePairs<E, T(!new)>(key: E -> Option<T>, lt: (T, T) -> bool, comp: (T, T) -> bool,
      s: seq<E>, u: nat, v: nat)
    requires StrictWeak(lt) && StrictWeak(comp) && Distinct(s) && (forall x :: x in s ==> key(x).Some?)
    requires u < |s| && v < |s|
    requires u < v ==> (lt(key(s[v]).value, key(s[u]).value) <==> comp(key(s[v]).value, key(s[u]).value))
    requires v < u ==> (lt(key(s[u]).value, key(s[v]).value) <==> comp(key(s[u]).value, key(s[v]).value))
    ensures InOrder(SortOf(key, comp, s), s[u], s[v]) <==> InOrder(SortOf(key, lt, s), s[u], s[v])
  {
    if u < v {
      PairSorted(key, lt, s, u, v);
      PairSorted(key, comp, s, u, v);
    } else if v < u {
      PairSorted(key, lt, s, v, u);
      PairSorted(key, comp, s, v, u);
    } else {
      SortMeaning(key, lt, s);
      SortMeaning(key, comp, s);
      StaysDistinct(SortOf(key, lt, s), s);
      StaysDistinct(SortOf(key, comp, s), s);
    }
  }

  /** The orders agree on whether s[v] is below s[u]. */
  predicate AgreeOn<E, T>(key: E -> Option<T>, lt: (T, T) -> bool, comp: (T, T) -> bool, s: seq<E>, u: nat, v: nat)
    requires u < |s| && v < |s| && key(s[u]).Some? && key(s[v]).Some?
  {
    lt(key(s[v]).value, key(s[u]).value) <==> comp(key(s[v]).value, key(s[u]).value)
  }

  lemma {:induction false} AgreeingOrders<E, T(!new)>(key: E -> Option<T>, lt: (T, T) -> bool, comp: (T, T) -> bool,
      s: seq<E>)
    requires StrictWeak(lt) && StrictWeak(comp) && Distinct(s) && (forall x :: x in s ==> key(x).Some?)
    requires forall u, v :: 0 <= u < v < |s| ==> AgreeOn(key, lt, comp, s, u, v)
    ensures SortOf(key, comp, s) == SortOf(key, lt, s)
  {
    hide InOrder;
    hide Distinct;
    hide StrictWeak;
    hide SortOf;
    var r, t := SortOf(key, comp, s), SortOf(key, lt, s);
    assert multiset(r) == multiset(s) == multiset(t) by {
      SortMeaning(key, lt, s);
      SortMeaning(key, comp, s);
    }
    StaysDistinct(r, s);
    StaysDistinct(t, s);
    SameMembers(r, s);
    forall x, y | x in r && y in r ensures InOrder(r, x, y) <==> InOrder(t, x, y) {
      assert x in multiset(r) && y in multiset(r);
      assert x in s && y in s;
      var u :| 0 <= u < |s| && s[u] == x;
      var v :| 0 <= v < |s| && s[v] == y;
      assert u < v ==> AgreeOn(key, lt, comp, s, u, v);
      assert v < u ==> AgreeOn(key, lt, comp, s, v, u);
      SamePairs(key, lt, comp, s, u, v);
    }
    OneArrangement(r, t);
  }

  /** Two orders sort distinct elements in the same way exactly if they agree on whether a later element is below an
      earlier one. */
  lemma {:induction false} SortsAgree<E, T(!new)>(key: E -> Option<T>, lt: (T, T) -> bool, comp: (T, T) -> bool,
      s: seq<E>)
    requires StrictWeak(lt) && StrictWeak(comp) && Distinct(s) && forall x :: x in s ==> key(x).Some?
    ensures SortOf(key, comp, s) == SortOf(key, lt, s) <==> forall u, v :: 0 <= u < v < |s| ==>
        (lt(key(s[v]).value, key(s[u]).value) <==> comp(key(s[v]).value, key(s[u]).value))
  {
    hide InOrder;
    hide SortOf;
    hide StrictWeak;
    if SortOf(key, comp, s) == SortOf(key, lt, s) {
      forall u, v | 0 <= u < v < |s|
        ensures lt(key(s[v]).value, key(s[u]).value) <==> comp(key(s[v]).value, key(s[u]).value)
      {
        PairSorted(key, lt, s, u, v);
        PairSorted(key, comp, s, u, v);
      }
    }
    if forall u, v :: 0 <= u < v < |s| ==>
        (lt(key(s[v]).value, key(s[u]).value) <==> comp(key(s[v]).value, key(s[u]).value)) {
      AgreeingOrders(key, lt, comp, s);
    }
  }

  lemma {:induction false} TwoSorted<E, T(!new)>(key: E -> Option<T>, lt: (T, T) -> bool, x: E, y: E)
    requires StrictWeak(lt) && key(x).Some? && key(y).Some? && x != y && !lt(key(y).value, key(x).value)
    ensures SortOf(key, lt, [x, y]) == [x, y]
  {
    var s := [x, y];
    SortMeaning(key, lt, s);
    SameMembers(SortOf(key, lt, s), s);
    PairSorted(key, lt, s, 0, 1);
  }
}
