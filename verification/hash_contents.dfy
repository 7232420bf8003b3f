/** The values on a hash chain: as a sequence, by key, and as a multiset. */
module HashContents {
  import opened Wrappers
  import opened SinglyList
  import opened HashWindows
  import opened HashGroups

  ghost function Val<V>(n: Node<V>): seq<V> {
    match n.val case None => [] case Some(v) => [v]
  }

  /** The values on a chain, in order. */
  ghost function Elems<V>(c: seq<Node<V>>): seq<V> {
    if c == [] then [] else Val(c[0]) + Elems(c[1..])
  }

  ghost function Bag<V>(c: seq<Node<V>>): multiset<V> {
    multiset(Elems(c))
  }

  /** The values with key k, in order. */
  ghost function Having<K, V>(s: seq<V>, getKey: V -> K, k: K): seq<V> {
    if s == [] then [] else (if getKey(s[0]) == k then [s[0]] else []) + Having(s[1..], getKey, k)
  }

  lemma {:induction false} ElemsConcat<V>(a: seq<Node<V>>, b: seq<Node<V>>)
    ensures Elems(a + b) == Elems(a) + Elems(b)
  {
    if a == [] {
      assert a + b == b;
    } else {
      calc {
        Elems(a + b);
        { assert (a + b)[0] == a[0] && (a + b)[1..] == a[1..] + b; }
        Val(a[0]) + Elems(a[1..] + b);
        { ElemsConcat(a[1..], b); }
        Val(a[0]) + (Elems(a[1..]) + Elems(b));
        (Val(a[0]) + Elems(a[1..])) + Elems(b);
        Elems(a) + Elems(b);
      }
    }
  }

  lemma {:induction false} ElemsOne<V>(n: Node<V>)
    ensures Elems([n]) == Val(n)
  {
    assert [n][1..] == [];
  }

  lemma {:induction false} ElemsEach<V>(c: seq<Node<V>>)
    requires forall i :: 0 <= i < |c| ==> c[i].val.Some?
    ensures |Elems(c)| == |c| && forall i :: 0 <= i < |c| ==> c[i].val == Some(Elems(c)[i])
  {
    if c != [] {
      ElemsEach(c[1..]);
      forall i | 0 < i < |c| ensures c[i].val == Some(Elems(c)[i]) {
        assert c[i] == c[1..][i - 1];
      }
    }
  }

  /** A chain behind its head, cut at node q. */
  lemma {:induction false} ElemsCut<V>(c: seq<Node<V>>, q: nat)
    requires 0 < q <= |c| && c[0].val.None? && forall i :: 0 < i < |c| ==> c[i].val.Some?
    ensures |Elems(c)| == |c| - 1 && Elems(c[..q]) == Elems(c)[..q - 1] && Elems(c[q..]) == Elems(c)[q - 1..]
    ensures forall i :: 0 < i < |c| ==> c[i].val == Some(Elems(c)[i - 1])
  {
    assert c == c[..q] + c[q..] && c[..q] == [c[0]] + c[1..q] && c == [c[0]] + c[1..];
    ElemsConcat(c[..q], c[q..]);
    ElemsConcat([c[0]], c[1..q]);
    ElemsConcat([c[0]], c[1..]);
    ElemsOne(c[0]);
    ElemsEach(c[1..q]);
    ElemsEach(c[1..]);
    forall i | 0 < i < |c| ensures c[i].val == Some(Elems(c)[i - 1]) {
      assert c[i] == c[1..][i - 1];
    }
  }

  lemma {:induction false} HavingConcat<K, V>(a: seq<V>, b: seq<V>, getKey: V -> K, k: K)
    ensures Having(a + b, getKey, k) == Having(a, getKey, k) + Having(b, getKey, k)
  {
    if a == [] {
      assert a + b == b;
    } else {
      var h := if getKey(a[0]) == k then [a[0]] else [];
      calc {
        Having(a + b, getKey, k);
        { assert (a + b)[0] == a[0] && (a + b)[1..] == a[1..] + b; }
        h + Having(a[1..] + b, getKey, k);
        { HavingConcat(a[1..], b, getKey, k); }
        h + (Having(a[1..], getKey, k) + Having(b, getKey, k));
        (h + Having(a[1..], getKey, k)) + Having(b, getKey, k);
        Having(a, getKey, k) + Having(b, getKey, k);
      }
    }
  }

  /** A key's group holds exactly the values with that key. */
  lemma {:induction false} ElemsOfGroup<K, V>(c: seq<Node<V>>, getKey: V -> K, k: K)
    ensures Elems(Group(c, getKey, k)) == Having(Elems(c), getKey, k)
  {
    if c != [] {
      var g := if KeyOf(getKey, c[0]) == Some(k) then [c[0]] else [];
      ElemsOfGroup(c[1..], getKey, k);
      ElemsConcat(g, Group(c[1..], getKey, k));
      ElemsOne(c[0]);
      HavingConcat(Val(c[0]), Elems(c[1..]), getKey, k);
    }
  }

  lemma {:induction false} HavingBag<K, V>(s: seq<V>, getKey: V -> K, k: K, v: V)
    ensures multiset(Having(s, getKey, k))[v] == if getKey(v) == k then multiset(s)[v] else 0
  {
    if s != [] {
      HavingBag(s[1..], getKey, k, v);
      assert s == [s[0]] + s[1..];
    }
  }

  /** The same values under every key are the same values altogether. */
  lemma {:induction false} BagFromKeys<K, V(!new)>(s: seq<V>, t: seq<V>, getKey: V -> K)
    requires forall v :: Having(s, getKey, getKey(v)) == Having(t, getKey, getKey(v))
    ensures multiset(s) == multiset(t)
  {
    forall v ensures multiset(s)[v] == multiset(t)[v] {
      HavingBag(s, getKey, getKey(v), v);
      HavingBag(t, getKey, getKey(v), v);
    }
  }

  lemma {:induction false} BagFromGroups<K(!new), V(!new)>(c: seq<Node<V>>, d: seq<Node<V>>, getKey: V -> K)
    requires SameGroups(c, d, getKey)
    ensures Bag(c) == Bag(d)
  {
    forall k ensures Having(Elems(c), getKey, k) == Having(Elems(d), getKey, k) {
      ElemsOfGroup(c, getKey, k);
      ElemsOfGroup(d, getKey, k);
    }
    BagFromKeys(Elems(c), Elems(d), getKey);
  }

  /** find(key), contains(key) and count(key) are about the stored values with that key. */
  lemma {:induction false} CountAgrees<K, V>(c: seq<Node<V>>, getKey: V -> K, k: K)
    ensures |Having(Elems(c), getKey, k)| == |Group(c, getKey, k)|
    ensures Group(c, getKey, k) != [] <==> exists v :: v in Bag(c) && getKey(v) == k
  {
    var g := Group(c, getKey, k);
    forall i | 0 <= i < |g| ensures g[i].val.Some? {
      GroupMember(c, getKey, k, g[i]);
    }
    ElemsEach(g);
    ElemsOfGroup(c, getKey, k);
    if g != [] {
      var v := Elems(g)[0];
      assert v in multiset(Having(Elems(c), getKey, k));
      GroupMember(c, getKey, k, g[0]);
      HavingBag(Elems(c), getKey, k, v);
    }
    forall v | v in Bag(c) && getKey(v) == k ensures g != [] {
      HavingBag(Elems(c), getKey, k, v);
    }
  }

  /** A chain of one value. */
  lemma {:induction false} BagOfOne<K(!new), V(!new)>(c: seq<Node<V>>, n: Node<V>, getKey: V -> K, v: V)
    requires n.val == Some(v)
    requires forall k :: Group(c, getKey, k) == if k == getKey(v) then [n] else []
    ensures Bag(c) == multiset{v}
  {
    forall w ensures Having(Elems(c), getKey, getKey(w)) == Having([v], getKey, getKey(w)) {
      ElemsOfGroup(c, getKey, getKey(w));
      ElemsOne(n);
      assert [v][1..] == [];
    }
    BagFromKeys(Elems(c), [v], getKey);
  }
}
