/** Equal-key groups of a hash chain: Group(c, k) is the stretch of nodes whose
    key is k, in chain order.  It is the abstract view of the table. */
module HashGroups {
  import opened Wrappers
  import opened SinglyList
  import opened HashWindows

  function KeyOf<K, V>(getKey: V -> K, n: Node<V>): Option<K> {
    match n.val case None => None case Some(v) => Some(getKey(v))
  }

  ghost function Group<K, V>(c: seq<Node<V>>, getKey: V -> K, k: K): seq<Node<V>> {
    if c == [] then []
    else (if KeyOf(getKey, c[0]) == Some(k) then [c[0]] else []) + Group(c[1..], getKey, k)
  }

  ghost predicate SameGroups<K(!new), V>(c: seq<Node<V>>, d: seq<Node<V>>, getKey: V -> K) {
    forall k :: Group(c, getKey, k) == Group(d, getKey, k)
  }

  predicate Between(i: int, j: int, l: int) {
    i < j < l
  }

  /** Nodes with equal keys are neighbours. */
  ghost predicate Contiguous<K, V>(c: seq<Node<V>>, getKey: V -> K) {
    forall i, j, l {:trigger Between(i, j, l)} | Between(i, j, l) && 0 <= i && l < |c| ::
      KeyOf(getKey, c[i]) == KeyOf(getKey, c[l]) ==> KeyOf(getKey, c[j]) == KeyOf(getKey, c[i])
  }

  ghost predicate HasKey<K, V>(c: seq<Node<V>>, getKey: V -> K, k: K) {
    exists i :: 0 <= i < |c| && KeyOf(getKey, c[i]) == Some(k)
  }

  lemma {:induction false} GroupConcat<K, V>(a: seq<Node<V>>, b: seq<Node<V>>, getKey: V -> K, k: K)
    ensures Group(a + b, getKey, k) == Group(a, getKey, k) + Group(b, getKey, k)
  {
    if a == [] {
      assert a + b == b;
    } else {
      var h := if KeyOf(getKey, a[0]) == Some(k) then [a[0]] else [];
      calc {
        Group(a + b, getKey, k);
        { assert (a + b)[0] == a[0] && (a + b)[1..] == a[1..] + b; }
        h + Group(a[1..] + b, getKey, k);
        { GroupConcat(a[1..], b, getKey, k); }
        h + (Group(a[1..], getKey, k) + Group(b, getKey, k));
        (h + Group(a[1..], getKey, k)) + Group(b, getKey, k);
        Group(a, getKey, k) + Group(b, getKey, k);
      }
    }
  }

  /** A slice whose nodes all have key k, or all do not. */
  lemma {:induction false} GroupUniform<K, V>(c: seq<Node<V>>, p: nat, q: nat, getKey: V -> K, k: K, all: bool)
    requires p <= q <= |c|
    requires forall i :: p <= i < q ==> (KeyOf(getKey, c[i]) == Some(k)) == all
    ensures Group(c[p..q], getKey, k) == if all then c[p..q] else []
    decreases q - p
  {
    if p < q {
      GroupUniform(c, p + 1, q, getKey, k, all);
      assert c[p..q][0] == c[p] && c[p..q][1..] == c[p + 1..q];
    }
  }

  lemma {:induction false} Slices<T>(c: seq<T>, p: nat, q: nat)
    requires p <= q <= |c|
    ensures c == c[..p] + c[p..q] + c[q..] && c[0..p] == c[..p] && c[q..|c|] == c[q..]
  {
  }

  lemma {:induction false} GroupSplice<K, V>(c: seq<Node<V>>, p: nat, q: nat, m: seq<Node<V>>, getKey: V -> K, k: K)
    requires p <= q < |c|
    ensures Group(Splice(c, p, q, m), getKey, k)
         == Group(c[..p + 1], getKey, k) + Group(m, getKey, k) + Group(c[q + 1..], getKey, k)
  {
    hide Group;
    GroupConcat(c[..p + 1] + m, c[q + 1..], getKey, k);
    GroupConcat(c[..p + 1], m, getKey, k);
  }

  lemma {:induction false} GroupSplit<K, V>(c: seq<Node<V>>, p: nat, q: nat, getKey: V -> K, k: K)
    requires p <= q < |c|
    ensures Group(c, getKey, k)
         == Group(c[..p + 1], getKey, k) + Group(c[p + 1..q + 1], getKey, k) + Group(c[q + 1..], getKey, k)
  {
    hide Group;
    Slices(c, p + 1, q + 1);
    GroupConcat(c[..p + 1] + c[p + 1..q + 1], c[q + 1..], getKey, k);
    GroupConcat(c[..p + 1], c[p + 1..q + 1], getKey, k);
  }

  lemma {:induction false} GroupCut<K, V>(c: seq<Node<V>>, p: nat, q: nat, getKey: V -> K, k: K)
    requires p <= q < |c|
    ensures Group(Splice(c, p, q, []), getKey, k) == Group(c[..p + 1], getKey, k) + Group(c[q + 1..], getKey, k)
  {
    hide Group;
    assert Splice(c, p, q, []) == c[..p + 1] + c[q + 1..];
    GroupConcat(c[..p + 1], c[q + 1..], getKey, k);
  }

  /** A stretch that holds all nodes of key k, and only those, is k's group. */
  lemma {:induction false} GroupIsStretch<K, V>(c: seq<Node<V>>, p: nat, q: nat, getKey: V -> K, k: K)
    requires p <= q < |c|
    requires forall i :: 0 <= i < |c| ==> (KeyOf(getKey, c[i]) == Some(k) <==> p < i <= q)
    ensures Group(c, getKey, k) == c[p + 1..q + 1]
  {
    hide Group;
    GroupUniform(c, 0, p + 1, getKey, k, false);
    GroupUniform(c, p + 1, q + 1, getKey, k, true);
    GroupUniform(c, q + 1, |c|, getKey, k, false);
    GroupSplit(c, p, q, getKey, k);
    Slices(c, p + 1, q + 1);
    assert [] + c[p + 1..q + 1] + [] == c[p + 1..q + 1];
  }

  /** Group members are exactly the chain nodes with that key. */
  lemma {:induction false} GroupMember<K, V>(c: seq<Node<V>>, getKey: V -> K, k: K, n: Node<V>)
    ensures n in Group(c, getKey, k) <==> n in c && KeyOf(getKey, n) == Some(k)
  {
    if c != [] {
      GroupMember(c[1..], getKey, k, n);
    }
  }

  lemma {:induction false} GroupEmpty<K, V>(c: seq<Node<V>>, getKey: V -> K, k: K)
    ensures Group(c, getKey, k) == [] <==> !HasKey(c, getKey, k)
  {
    hide Group;
    if HasKey(c, getKey, k) {
      var i :| 0 <= i < |c| && KeyOf(getKey, c[i]) == Some(k);
      GroupMember(c, getKey, k, c[i]);
    } else {
      GroupUniform(c, 0, |c|, getKey, k, false);
      assert c[0..|c|] == c;
    }
  }

  lemma {:induction false} NewKeyContiguous<K, V>(c: seq<Node<V>>, p: nat, ns: seq<Node<V>>, getKey: V -> K, k: K,
      i: int, j: int, l: int)
    requires p < |c| && Contiguous(c, getKey) && !HasKey(c, getKey, k)
    requires forall i :: 0 <= i < |ns| ==> KeyOf(getKey, ns[i]) == Some(k)
    requires p + 1 < |c| ==> KeyOf(getKey, c[p]) != KeyOf(getKey, c[p + 1])
    requires 0 <= i < j < l < |c| + |ns|
    requires KeyOf(getKey, Splice(c, p, p, ns)[i]) == KeyOf(getKey, Splice(c, p, p, ns)[l])
    ensures KeyOf(getKey, Splice(c, p, p, ns)[j]) == KeyOf(getKey, Splice(c, p, p, ns)[i])
  {
    var c', n := Splice(c, p, p, ns), |ns|;
    assert forall x :: 0 <= x < |c'| ==> (KeyOf(getKey, c'[x]) == Some(k) <==> p < x <= p + n);
    var f := (x: int) => if x <= p then x else x - n;
    assert f(i) < f(j) < f(l) <==> Between(f(i), f(j), f(l));
    assert i < p < l - n <==> Between(i, p, l - n);
    assert i < p + 1 < l - n <==> Between(i, p + 1, l - n);
  }

  /** Linking nodes of one key next to that key's group, or anywhere when the
      key is new and no other group is broken, keeps groups contiguous. */
  lemma {:induction false} InsertKeepsContiguous<K, V>(c: seq<Node<V>>, p: nat, ns: seq<Node<V>>, getKey: V -> K, k: K)
    requires p < |c| && Contiguous(c, getKey)
    requires forall i :: 0 <= i < |ns| ==> KeyOf(getKey, ns[i]) == Some(k)
    requires KeyOf(getKey, c[p]) == Some(k) || (p + 1 < |c| && KeyOf(getKey, c[p + 1]) == Some(k))
          || (!HasKey(c, getKey, k) && (p + 1 < |c| ==> KeyOf(getKey, c[p]) != KeyOf(getKey, c[p + 1])))
    ensures Contiguous(Splice(c, p, p, ns), getKey)
  {
    var c', n := Splice(c, p, p, ns), |ns|;
    // positions in c; a new node stands for its neighbour of the same key
    var same := if KeyOf(getKey, c[p]) == Some(k) then p else p + 1;
    var f := (x: int) => if x <= p then x else if x <= p + n then same else x - n;
    forall i, j, l | Between(i, j, l) && 0 <= i && l < |c'| && KeyOf(getKey, c'[i]) == KeyOf(getKey, c'[l])
      ensures KeyOf(getKey, c'[j]) == KeyOf(getKey, c'[i])
    {
      if HasKey(c, getKey, k) {
        assert KeyOf(getKey, c'[i]) == KeyOf(getKey, c[f(i)]);
        assert KeyOf(getKey, c'[j]) == KeyOf(getKey, c[f(j)]);
        assert KeyOf(getKey, c'[l]) == KeyOf(getKey, c[f(l)]);
        assert f(i) < f(j) < f(l) ==> Between(f(i), f(j), f(l));
      } else {
        NewKeyContiguous(c, p, ns, getKey, k, i, j, l);
      }
    }
  }

  /** Cutting a stretch out keeps groups contiguous. */
  lemma {:induction false} EraseKeepsContiguous<K, V>(c: seq<Node<V>>, p: nat, q: nat, getKey: V -> K)
    requires p <= q < |c| && Contiguous(c, getKey)
    ensures Contiguous(Splice(c, p, q, []), getKey)
  {
    var c', n := Splice(c, p, q, []), q - p;
    var f := (x: int) => if x <= p then x else x + n;
    assert forall x :: 0 <= x < |c'| ==> c'[x] == c[f(x)];
    forall i, j, l | Between(i, j, l) && 0 <= i && l < |c'| && KeyOf(getKey, c'[i]) == KeyOf(getKey, c'[l])
      ensures KeyOf(getKey, c'[j]) == KeyOf(getKey, c'[i])
    {
      assert Between(f(i), f(j), f(l));
    }
  }

  /** Taking the leading run of one key off a contiguous list takes all of its group. */
  lemma {:induction false} LeadingRun<K, V>(rest: seq<Node<V>>, q: nat, getKey: V -> K, key: K, k: K)
    requires Contiguous(rest, getKey) && 0 < q <= |rest|
    requires forall i :: 0 <= i < q ==> KeyOf(getKey, rest[i]) == Some(key)
    requires q < |rest| ==> KeyOf(getKey, rest[q]) != Some(key)
    ensures Group(rest[..q], getKey, k) == if k == key then rest[..q] else []
    ensures Group(rest, getKey, k) == Group(rest[..q], getKey, k) + Group(rest[q..], getKey, k)
    ensures Group(rest[q..], getKey, key) == []
    ensures Contiguous(rest[q..], getKey)
  {
    hide Group;
    var a, z := rest[..q], rest[q..];
    assert a + z == rest && rest[0..q] == a && rest[q..|rest|] == z;
    GroupConcat(a, z, getKey, k);
    GroupUniform(rest, 0, q, getKey, k, k == key);
    forall i | q <= i < |rest| ensures KeyOf(getKey, rest[i]) != Some(key) {
      if i > q { assert Between(0, q, i); }
    }
    GroupUniform(rest, q, |rest|, getKey, key, false);
    forall i, j, l | Between(i, j, l) && 0 <= i && l < |z| && KeyOf(getKey, z[i]) == KeyOf(getKey, z[l])
      ensures KeyOf(getKey, z[j]) == KeyOf(getKey, z[i])
    {
      assert Between(q + i, q + j, q + l);
    }
  }

  /** Linking a run of one new key anywhere adds exactly its group. */
  lemma {:induction false} NewRunGroup<K, V>(c: seq<Node<V>>, p: nat, ns: seq<Node<V>>, getKey: V -> K, key: K, k: K)
    requires p < |c| && Group(c, getKey, key) == []
    requires Group(ns, getKey, k) == if k == key then ns else []
    ensures Group(Splice(c, p, p, ns), getKey, k) == Group(c, getKey, k) + Group(ns, getKey, k)
  {
    hide Group;
    GroupSplice(c, p, p, ns, getKey, k);
    GroupConcat(c[..p + 1], c[p + 1..], getKey, k);
    assert c[..p + 1] + c[p + 1..] == c;
    if k != key {
      assert Group(c[..p + 1], getKey, k) + [] + Group(c[p + 1..], getKey, k) == Group(c, getKey, k) + [];
    } else {
      assert |Group(c[..p + 1], getKey, k) + Group(c[p + 1..], getKey, k)| == 0;
      assert [] + ns + [] == ns == [] + ns;
    }
  }

  /** s with y put right after the first x. */
  function After<T(==)>(s: seq<T>, x: T, y: T): seq<T> {
    if s == [] then [] else if s[0] == x then [x, y] + s[1..] else [s[0]] + After(s[1..], x, y)
  }

  lemma {:induction false} AfterAt<T>(s: seq<T>, i: nat, y: T)
    requires i < |s| && forall j :: 0 <= j < i ==> s[j] != s[i]
    ensures After(s, s[i], y) == s[..i + 1] + [y] + s[i + 1..]
  {
    if i > 0 {
      AfterAt(s[1..], i - 1, y);
      assert s[1..][..i] == s[1..i + 1] && [s[0]] + s[1..i + 1] == s[..i + 1];
    } else {
      assert [s[0], y] == s[..1] + [y];
    }
  }

  lemma {:induction false} AfterSplit<T>(s: seq<T>, a: seq<T>, x: T, z: seq<T>, y: T)
    requires s == a + [x] + z && x !in a
    ensures After(s, x, y) == a + [x] + [y] + z
  {
    assert s[|a|] == x;
    assert forall j :: 0 <= j < |a| ==> s[j] == a[j];
    AfterAt(s, |a|, y);
    assert s[..|a| + 1] == a + [x] && s[|a| + 1..] == z;
  }

  lemma {:induction false} SingleGroup<K, V>(n: Node<V>, getKey: V -> K, key: K, k: K)
    requires KeyOf(getKey, n) == Some(key)
    ensures Group([n], getKey, k) == if k == key then [n] else []
  {
    assert [n][1..] == [];
  }

  /** A node linked right behind one of its own key goes behind it in the group. */
  lemma {:induction false} LinkBehind<K, V>(c: seq<Node<V>>, p: nat, n: Node<V>, getKey: V -> K, key: K, k: K)
    requires p < |c| && NoDup(c) && KeyOf(getKey, c[p]) == Some(key) && KeyOf(getKey, n) == Some(key)
    ensures Group(Splice(c, p, p, [n]), getKey, k)
         == if k == key then After(Group(c, getKey, k), c[p], n) else Group(c, getKey, k)
  {
    hide Group;
    hide After;
    var a, z := Group(c[..p], getKey, k), Group(c[p + 1..], getKey, k);
    SingleGroup(c[p], getKey, key, k);
    SingleGroup(n, getKey, key, k);
    GroupSplice(c, p, p, [n], getKey, k);
    assert c[..p] + [c[p]] == c[..p + 1] && c[..p + 1] + c[p + 1..] == c;
    GroupConcat(c[..p], [c[p]], getKey, k);
    GroupConcat(c[..p + 1], c[p + 1..], getKey, k);
    if k == key {
      assert c[p] !in c[..p] by {
        forall i | 0 <= i < p ensures c[..p][i] != c[p] { assert Pair(i, p); }
      }
      GroupMember(c[..p], getKey, key, c[p]);
      AfterSplit(Group(c, getKey, k), a, c[p], z, n);
    } else {
      assert a + [] + [] + z == a + [] + z;
    }
  }

  /** A node linked where none of its key comes before goes to the front of the group. */
  lemma {:induction false} LinkInFront<K, V>(c: seq<Node<V>>, p: nat, n: Node<V>, getKey: V -> K, key: K, k: K)
    requires p < |c| && KeyOf(getKey, n) == Some(key)
    requires forall i :: 0 <= i <= p ==> KeyOf(getKey, c[i]) != Some(key)
    ensures Group(Splice(c, p, p, [n]), getKey, k)
         == if k == key then [n] + Group(c, getKey, k) else Group(c, getKey, k)
  {
    hide Group;
    var a, z := Group(c[..p + 1], getKey, k), Group(c[p + 1..], getKey, k);
    SingleGroup(n, getKey, key, k);
    GroupSplice(c, p, p, [n], getKey, k);
    assert c[..p + 1] + c[p + 1..] == c;
    GroupConcat(c[..p + 1], c[p + 1..], getKey, k);
    if k == key {
      GroupUniform(c, 0, p + 1, getKey, k, false);
      assert c[0..p + 1] == c[..p + 1];
      assert [] + [n] + z == [n] + ([] + z);
    } else {
      assert a + [] + z == a + z;
    }
  }
}
