/** Whole runs of a hash table: the values on its chain, the number of its buckets, and the cost of rehashing. */
module HashRuns {
  import opened Wrappers
  import opened SinglyList
  import opened HashWindows
  import opened HashGroups
  import opened HashContents
  import opened HashTables
  import opened Powers

  datatype Op<K, V> =
    | Emplace(unique: bool, value: V)
    | EmplaceHint(unique: bool, pos: nat, value: V)
    | EraseKey(key: K)
    | EraseStretch(i: nat, j: nat)
    | RehashTo(count: nat)
    | ClearAll

  /** What the operations see of a table: the values on its chain in order, the number of buckets, and how many nodes
      all rehashes relinked. */
  datatype View<V> = View(values: seq<V>, buckets: nat, relinks: nat)

  ghost function ViewOf<K(!new), V>(t: HashTable<K, V>): View<V>
    reads t
  {
    View(Elems(t.chain), t.buckets.Length, t.relinks)
  }

  /** The values with key k once v has joined: right behind position pos if that has v's key, else in front. */
  ghost function Joined<K, V>(getKey: V -> K, s: seq<V>, pos: nat, v: V, k: K): seq<V> {
    if k != getKey(v) then Having(s, getKey, k)
    else if pos < |s| && getKey(s[pos]) == k then
      Having(s[..pos + 1], getKey, k) + [v] + Having(s[pos + 1..], getKey, k)
    else [v] + Having(s, getKey, k)
  }

  ghost predicate InsertStep<K(!new), V>(getKey: V -> K, s: seq<V>, unique: bool, pos: nat, v: V, s': seq<V>) {
    if unique && Having(s, getKey, getKey(v)) != [] then s' == s
    else forall k :: Having(s', getKey, k) == Joined(getKey, s, pos, v, k)
  }

  function Min(a: nat, b: nat): nat { if a < b then a else b }

  /** What one operation does to the values on the chain: exactly so where the code fixes their order, and else to the
      values of every key. */
  ghost predicate ValueStep<K(!new), V>(getKey: V -> K, s: seq<V>, op: Op<K, V>, s': seq<V>) {
    match op
    case Emplace(u, v) => InsertStep(getKey, s, u, |s|, v, s')
    case EmplaceHint(u, pos, v) => InsertStep(getKey, s, u, pos, v, s')
    case EraseKey(key) => forall k :: Having(s', getKey, k) == if k == key then [] else Having(s, getKey, k)
    case EraseStretch(i, j) => s' == if i <= j then s[..Min(i, |s|)] + s[Min(j, |s|)..] else s
    case RehashTo(_) => forall k :: Having(s', getKey, k) == Having(s, getKey, k)
    case ClearAll => s' == []
  }

  /** Room for n elements at num / den elements per bucket: nothing happens while they fit, else there is the least
      sufficient power of two of buckets and every node has been relinked once. */
  ghost predicate Roomed<V>(num: nat, den: nat, v: View<V>, n: nat, v': View<V>) {
    if n * den <= num * v.buckets then v'.buckets == v.buckets && v'.relinks == v.relinks
    else
      && IsPow2(v'.buckets) && n * den <= num * v'.buckets
      && (forall k: nat :: n * den <= num * Pow2(k) ==> v'.buckets <= Pow2(k))
      && v'.relinks == v.relinks + |v'.values|
  }

  /** What an insert does to the buckets: nothing when it is refused. */
  ghost predicate RoomForOne<K, V>(getKey: V -> K, num: nat, den: nat, v: View<V>, unique: bool, x: V, v': View<V>) {
    if unique && Having(v.values, getKey, getKey(x)) != [] then v' == v
    else Roomed(num, den, v, |v.values| + 1, v')
  }

  ghost predicate Step<K(!new), V>(getKey: V -> K, num: nat, den: nat, v: View<V>, op: Op<K, V>, v': View<V>) {
    && ValueStep(getKey, v.values, op, v'.values)
    && match op
       case Emplace(u, x) => RoomForOne(getKey, num, den, v, u, x, v')
       case EmplaceHint(u, _, x) => RoomForOne(getKey, num, den, v, u, x, v')
       case RehashTo(count) => Roomed(num, den, v, count, v')
       case _ => v'.buckets == v.buckets && v'.relinks == v.relinks
  }

  lemma {:induction false} JoinedBag<K, V>(getKey: V -> K, s: seq<V>, pos: nat, v: V, k: K)
    ensures multiset(Joined(getKey, s, pos, v, k))
         == multiset(Having(s, getKey, k)) + if k == getKey(v) then multiset{v} else multiset{}
  {
    hide Having;
    if pos < |s| {
      HavingConcat(s[..pos + 1], s[pos + 1..], getKey, k);
      assert s[..pos + 1] + s[pos + 1..] == s;
    }
  }

  lemma {:induction false} InsertBag<K(!new), V(!new)>(getKey: V -> K, s: seq<V>, unique: bool, pos: nat, v: V,
      s': seq<V>)
    requires InsertStep(getKey, s, unique, pos, v, s')
    ensures multiset(s')
         == multiset(s) + if unique && Having(s, getKey, getKey(v)) != [] then multiset{} else multiset{v}
  {
    hide Having;
    hide Joined;
    if !(unique && Having(s, getKey, getKey(v)) != []) {
      forall w ensures multiset(s')[w] == (multiset(s) + multiset{v})[w] {
        HavingBag(s, getKey, getKey(w), w);
        HavingBag(s', getKey, getKey(w), w);
        JoinedBag(getKey, s, pos, v, getKey(w));
      }
    }
  }

  /** So an operation does to the multiset of values what its name says. */
  lemma {:induction false} StepBag<K(!new), V(!new)>(getKey: V -> K, s: seq<V>, op: Op<K, V>, s': seq<V>)
    requires ValueStep(getKey, s, op, s')
    ensures op.Emplace? || op.EmplaceHint? ==>
              var there := Having(s, getKey, getKey(op.value)) != [];
              multiset(s') == multiset(s) + if op.unique && there then multiset{} else multiset{op.value}
    ensures op.EraseKey? ==> forall v :: multiset(s')[v] == if getKey(v) == op.key then 0 else multiset(s)[v]
    ensures op.EraseStretch? && op.i <= op.j ==>
              multiset(s) == multiset(s') + multiset(s[Min(op.i, |s|)..Min(op.j, |s|)])
    ensures op.RehashTo? ==> multiset(s') == multiset(s)
  {
    match op
    case Emplace(unique, v) => InsertBag(getKey, s, unique, |s|, v, s');
    case EmplaceHint(unique, pos, v) => InsertBag(getKey, s, unique, pos, v, s');
    case EraseKey(key) =>
      forall w ensures multiset(s')[w] == if getKey(w) == op.key then 0 else multiset(s)[w] {
        HavingBag(s, getKey, getKey(w), w);
        HavingBag(s', getKey, getKey(w), w);
      }
    case EraseStretch(i, j) =>
      var a, b := Min(i, |s|), Min(j, |s|);
      if i <= j { assert s == s[..a] + s[a..b] + s[b..]; }
    case RehashTo(_) => BagFromKeys(s', s, getKey);
    case ClearAll =>
  }

  lemma {:induction false} AfterFirst<T>(a: seq<T>, x: T, b: seq<T>, y: T)
    requires x !in a
    ensures After(a + [x] + b, x, y) == a + [x, y] + b
  {
    var s := a + [x] + b;
    if a == [] {
      assert s[0] == x && s[1..] == b;
    } else {
      assert s[0] == a[0] && s[1..] == a[1..] + [x] + b;
      AfterFirst(a[1..], x, b, y);
    }
  }

  /** Behind x, at position q of the chain. */
  lemma {:induction false} AfterGroup<K, V>(c: seq<Node<V>>, getKey: V -> K, k: K, q: nat, n: Node<V>)
    requires NoDup(c) && q < |c| && KeyOf(getKey, c[q]) == Some(k)
    ensures After(Group(c, getKey, k), c[q], n) == Group(c[..q + 1], getKey, k) + [n] + Group(c[q + 1..], getKey, k)
  {
    var x, y := Group(c[..q], getKey, k), Group(c[q + 1..], getKey, k);
    assert c == c[..q] + [c[q]] + c[q + 1..] && c[..q + 1] == c[..q] + [c[q]];
    GroupConcat(c[..q] + [c[q]], c[q + 1..], getKey, k);
    GroupConcat(c[..q], [c[q]], getKey, k);
    assert Group([c[q]], getKey, k) == [c[q]] by { assert [c[q]][1..] == []; }
    if c[q] in x {
      GroupMember(c[..q], getKey, k, c[q]);
      NoDupIsDistinct(c);
    }
    AfterFirst(x, c[q], y, n);
  }

  lemma {:induction false} InsertKeepsStep<K(!new), V>(t: HashTable<K, V>, c: seq<Node<V>>, q: nat, v: V, n: Node<V>)
    requires n.val == Some(v) && NoDup(c) && 0 < q <= |c| && c[0].val.None?
    requires forall i :: 0 < i < |c| ==> c[i].val.Some?
    requires forall k :: t.GroupOf(k) == t.GroupWith(Group(c, t.getKey, k), At(c, q), t.getKey(v), n, k)
    ensures forall k :: Having(Elems(t.chain), t.getKey, k) == Joined(t.getKey, Elems(c), q - 1, v, k)
  {
    var s := Elems(c);
    ElemsCut(c, q);
    forall k ensures Having(Elems(t.chain), t.getKey, k) == Joined(t.getKey, Elems(c), q - 1, v, k)
    {
      var g := Group(c, t.getKey, k);
      ElemsOfGroup(t.chain, t.getKey, k);
      ElemsOfGroup(c, t.getKey, k);
      assert t.GroupOf(k) == t.GroupWith(g, At(c, q), t.getKey(v), n, k);
      ElemsOne(n);
      if k == t.getKey(v) {
        if q < |c| && KeyOf(t.getKey, c[q]) == Some(k) {
          AfterGroup(c, t.getKey, k, q, n);
          ElemsCut(c, q + 1);
          ElemsOfGroup(c[..q + 1], t.getKey, k);
          ElemsOfGroup(c[q + 1..], t.getKey, k);
          ElemsConcat(Group(c[..q + 1], t.getKey, k) + [n], Group(c[q + 1..], t.getKey, k));
          ElemsConcat(Group(c[..q + 1], t.getKey, k), [n]);
        } else {
          ElemsConcat([n], g);
        }
      }
    }
  }

  /** The node i steps after begin(), or end(). */
  method Nth<K(==, !new), V(==, !new)>(t: HashTable<K, V>, i: nat) returns (node: Node?<V>, ghost q: nat)
    requires t.Valid()
    ensures q == Min(i, t.size) + 1 && q <= |t.chain| && node == At(t.chain, q)
  {
    t.NextFacts(0);
    node, q := t.head.next, 1;
    var k := 0;
    while k < i && node != null
      invariant k <= i && q == k + 1 <= |t.chain| && node == At(t.chain, q)
    {
      t.NextFacts(q);
      node, q, k := node.next, q + 1, k + 1;
    }
  }

  // Cost of rehashing, for the default load factor 3/4

  /** nb buckets, `relinks` nodes moved so far, n inserts so far. */
  ghost predicate Budget(nb: nat, relinks: nat, size: nat, n: nat) {
    size <= n && 4 * size <= 3 * nb && 16 * relinks + 208 <= 13 * nb && (nb == 16 || 8 * n > 3 * nb)
  }

  function Inserts<K, V>(ops: seq<Op<K, V>>): nat {
    if ops == [] then 0
    else (if ops[|ops| - 1].Emplace? || ops[|ops| - 1].EmplaceHint? then 1 else 0) + Inserts(ops[..|ops| - 1])
  }

  ghost predicate InBudget<V>(v: View<V>, n: nat) {
    Budget(v.buckets, v.relinks, |v.values|, n) && IsPow2(v.buckets)
  }

  /** One insert: the budget pays for relinking. */
  lemma {:induction false} BudgetInsert<V>(v: View<V>, n: nat, v': View<V>)
    requires InBudget(v, n) && |v'.values| == |v.values| + 1 && Roomed(3, 4, v, |v.values| + 1, v')
    ensures InBudget(v', n + 1)
  {
    if 4 * (|v.values| + 1) > 3 * v.buckets {
      var nb, nb' := v.buckets, v'.buckets;
      Pow2Gap(nb, nb');
      var k: nat :| nb == Pow2(k);
      assert 2 * nb == Pow2(k + 1);
      assert nb' == 2 * nb;
    }
  }

  lemma {:induction false} BudgetStep<K(!new), V(!new)>(getKey: V -> K, v: View<V>, op: Op<K, V>, v': View<V>, n: nat)
    requires Step(getKey, 3, 4, v, op, v') && !op.RehashTo? && InBudget(v, n)
    ensures InBudget(v', n + if op.Emplace? || op.EmplaceHint? then 1 else 0)
  {
    hide Having;
    hide Joined;
    hide InsertStep;
    hide Roomed;
    hide IsPow2;
    var s, s' := v.values, v'.values;
    assert |multiset(s)| == |s| && |multiset(s')| == |s'|;
    StepBag(getKey, s, op, s');
    match op
    case Emplace(u, x) =>
      if !(u && Having(s, getKey, getKey(x)) != []) { BudgetInsert(v, n, v'); }
    case EmplaceHint(u, _, x) =>
      if !(u && Having(s, getKey, getKey(x)) != []) { BudgetInsert(v, n, v'); }
    case EraseKey(key) =>
      assert multiset(s') <= multiset(s);
      assert multiset(s) == multiset(s') + (multiset(s) - multiset(s'));
    case EraseStretch(i, j) =>
    case ClearAll =>
  }

  /** Every table on a run from a table in budget is in budget. */
  lemma {:induction false} BudgetRun<K(!new), V(!new)>(getKey: V -> K, views: seq<View<V>>, ops: seq<Op<K, V>>, i: nat)
    requires |views| == |ops| + 1 && i <= |ops| && InBudget(views[0], 0)
    requires forall j :: 0 <= j < |ops| ==> Step(getKey, 3, 4, views[j], ops[j], views[j + 1]) && !ops[j].RehashTo?
    ensures InBudget(views[i], Inserts(ops[..i]))
  {
    hide Step;
    hide InBudget;
    if i > 0 {
      BudgetRun(getKey, views, ops, i - 1);
      assert ops[..i][..i - 1] == ops[..i - 1];
      BudgetStep(getKey, views[i - 1], ops[i - 1], views[i], Inserts(ops[..i - 1]));
    }
  }

  // Runs

  /** A chain and its values. */
  lemma {:induction false} ElemsCount<K(!new), V>(t: HashTable<K, V>)
    requires t.Valid()
    ensures |Elems(t.chain)| == t.size && IsPow2(t.buckets.Length)
  {
    t.Facts();
    ElemsCut(t.chain, 1);
  }

  method ApplyInsert<K(==, !new), V(==, !new)>(t: HashTable<K, V>, unique: bool, hint: Node?<V>, ghost q: nat, v: V)
    requires t.Valid() && 0 < q <= |t.chain| && hint == At(t.chain, q)
    modifies t`buckets, t`size, t`chain, t`deleted, t`relinks, t.buckets, t.chain
    ensures t.Valid() && (t.buckets == old(t.buckets) || fresh(t.buckets))
    ensures forall x :: x in t.chain ==> x in old(t.chain) || fresh(x)
    ensures InsertStep(t.getKey, old(Elems(t.chain)), unique, q - 1, v, Elems(t.chain))
    ensures RoomForOne(t.getKey, t.lfNum, t.lfDen, old(ViewOf(t)), unique, v, ViewOf(t))
  {
    hide Group;
    hide Elems;
    hide Having;
    hide Joined;
    hide Coherent;
    ghost var c := t.chain;
    ElemsOfGroup(c, t.getKey, t.getKey(v));
    CountAgrees(c, t.getKey, t.getKey(v));
    ElemsCount(t);
    t.Facts();
    var r, inserted := t.Insert(unique, hint, v);
    if inserted {
      InsertKeepsStep(t, c, q, v, r);
      ElemsCount(t);
    }
  }

  lemma {:induction false} NoElems<V>()
    ensures Elems<V>([]) == []
  {
  }

  method ApplyErase<K(==, !new), V(==, !new)>(t: HashTable<K, V>, key: K)
    requires t.Valid()
    modifies t`size, t`chain, t`deleted, t.buckets, t.chain
    ensures t.Valid() && forall x :: x in t.chain ==> x in old(t.chain)
    ensures ValueStep(t.getKey, old(Elems(t.chain)), EraseKey(key), Elems(t.chain))
  {
    hide Group;
    hide Elems;
    hide Having;
    hide Coherent;
    ghost var c := t.chain;
    var count := t.Erase(key);
    forall k ensures Having(Elems(t.chain), t.getKey, k) == if k == key then [] else Having(Elems(c), t.getKey, k) {
      ElemsOfGroup(c, t.getKey, k);
      ElemsOfGroup(t.chain, t.getKey, k);
      NoElems<V>();
      assert t.GroupOf(k) == if k == key then [] else Group(c, t.getKey, k);
    }
  }

  lemma {:induction false} SameValues<K(!new), V>(c: seq<Node<V>>, d: seq<Node<V>>, getKey: V -> K)
    requires SameGroups(c, d, getKey)
    ensures forall k :: Having(Elems(d), getKey, k) == Having(Elems(c), getKey, k)
  {
    forall k ensures Having(Elems(d), getKey, k) == Having(Elems(c), getKey, k) {
      ElemsOfGroup(c, getKey, k);
      ElemsOfGroup(d, getKey, k);
    }
  }

  lemma {:induction false} ElemsLeft<V>(c: seq<Node<V>>, a: nat, b: nat)
    requires 0 < a <= b <= |c| && c[0].val.None? && forall i :: 0 < i < |c| ==> c[i].val.Some?
    ensures |Elems(c)| == |c| - 1 && Elems(c[..a] + c[b..]) == Elems(c)[..a - 1] + Elems(c)[b - 1..]
  {
    hide Elems;
    ElemsCut(c, a);
    ElemsCut(c, b);
    ElemsConcat(c[..a], c[b..]);
  }

  method ApplyStretch<K(==, !new), V(==, !new)>(t: HashTable<K, V>, i: nat, j: nat)
    requires t.Valid()
    modifies t`size, t`chain, t`deleted, t.buckets, t.chain
    ensures t.Valid() && forall x :: x in t.chain ==> x in old(t.chain)
    ensures ValueStep(t.getKey, old(Elems(t.chain)), EraseStretch(i, j), Elems(t.chain))
  {
    hide Elems;
    hide Coherent;
    ghost var c := t.chain;
    t.Facts();
    ElemsCut(c, 1);
    var first, a := Nth(t, i);
    var last, b := Nth(t, j);
    if i <= j {
      var r := t.EraseRange(first, last, a, b);
      ElemsLeft(c, a, b);
    }
  }

  method ApplyRehash<K(==, !new), V(==, !new)>(t: HashTable<K, V>, count: nat)
    requires t.Valid()
    modifies t`buckets, t`size, t`chain, t`relinks, t.chain
    ensures t.Valid() && (t.buckets == old(t.buckets) || fresh(t.buckets))
    ensures forall x :: x in t.chain ==> x in old(t.chain)
    ensures Step(t.getKey, t.lfNum, t.lfDen, old(ViewOf(t)), RehashTo(count), ViewOf(t))
  {
    hide Group;
    hide Elems;
    hide Having;
    hide Coherent;
    ghost var c := t.chain;
    t.Rehash(count);
    SameValues(c, t.chain, t.getKey);
    ElemsCount(t);
  }

  /** A position behind the last element is no position. */
  lemma {:induction false} BehindLast<K(!new), V>(getKey: V -> K, s: seq<V>, unique: bool, pos: nat, v: V, s': seq<V>)
    requires InsertStep(getKey, s, unique, Min(pos, |s|), v, s')
    ensures InsertStep(getKey, s, unique, pos, v, s')
  {
    assert forall k :: Joined(getKey, s, Min(pos, |s|), v, k) == Joined(getKey, s, pos, v, k);
  }

  method Apply<K(==, !new), V(==, !new)>(t: HashTable<K, V>, op: Op<K, V>)
    requires t.Valid()
    modifies t`buckets, t`size, t`chain, t`deleted, t`relinks, t.buckets, t.chain
    ensures t.Valid() && (t.buckets == old(t.buckets) || fresh(t.buckets))
    ensures forall x :: x in t.chain ==> x in old(t.chain) || fresh(x)
    ensures Step(t.getKey, t.lfNum, t.lfDen, old(ViewOf(t)), op, ViewOf(t))
  {
    hide Group;
    hide Elems;
    hide Having;
    hide Coherent;
    hide InsertStep;
    hide RoomForOne;
    hide Roomed;
    ghost var c, e := t.chain, Elems(t.chain);
    t.Facts();
    ElemsCut(c, 1);
    match op
    case Emplace(unique, v) =>
      ApplyInsert(t, unique, null, |c|, v);
    case EmplaceHint(unique, pos, v) =>
      var hint, q := Nth(t, pos);
      ApplyInsert(t, unique, hint, q, v);
      BehindLast(t.getKey, e, unique, pos, v, Elems(t.chain));
    case EraseKey(key) =>
      ApplyErase(t, key);
    case EraseStretch(i, j) =>
      ApplyStretch(t, i, j);
    case RehashTo(count) =>
      ApplyRehash(t, count);
    case ClearAll =>
      t.Clear();
      ElemsOne(t.head);
  }

  /** Any run from any valid table: the table stays valid, and the values on its chain and its buckets go through the
      steps. */
  method Run<K(==, !new), V(==, !new)>(t: HashTable<K, V>, ops: seq<Op<K, V>>) returns (ghost views: seq<View<V>>)
    requires t.Valid()
    modifies t`buckets, t`size, t`chain, t`deleted, t`relinks, t.buckets, t.chain
    ensures t.Valid()
    ensures |views| == |ops| + 1 && views[0] == old(ViewOf(t)) && views[|ops|] == ViewOf(t)
    ensures forall i :: 0 <= i < |ops| ==> Step(t.getKey, t.lfNum, t.lfDen, views[i], ops[i], views[i + 1])
  {
    hide Step;
    hide Elems;
    hide Coherent;
    views := [ViewOf(t)];
    var i := 0;
    while i < |ops|
      invariant 0 <= i <= |ops| && t.Valid() && (t.buckets == old(t.buckets) || fresh(t.buckets))
      invariant forall x :: x in t.chain ==> x in old(t.chain) || fresh(x)
      invariant |views| == i + 1 && views[0] == old(ViewOf(t)) && views[i] == ViewOf(t)
      invariant forall j :: 0 <= j < i ==> Step(t.getKey, t.lfNum, t.lfDen, views[j], ops[j], views[j + 1])
    {
      assert forall x :: 0 <= x < |t.chain| ==> t.chain[x] in old(t.chain) || fresh(t.chain[x]);
      Apply(t, ops[i]);
      views := views + [ViewOf(t)];
      i := i + 1;
    }
  }

  /** From an empty default table, at every point of any run of single inserts, erases and clears: the values and the
      buckets are those of the steps so far, the table is at most 3/4 full, and at most 13/6 nodes were relinked per
      insert. */
  method RunFromEmpty<K(==, !new), V(==, !new)>(getKey: V -> K, hash: K -> nat, ops: seq<Op<K, V>>)
    returns (t: HashTable<K, V>, ghost views: seq<View<V>>)
    requires forall i :: 0 <= i < |ops| ==> !ops[i].RehashTo?
    ensures t.Valid() && t.getKey == getKey && t.hash == hash
    ensures |views| == |ops| + 1 && views[0] == View([], 16, 0) && views[|ops|] == ViewOf(t)
    ensures forall i :: 0 <= i < |ops| ==> Step(getKey, 3, 4, views[i], ops[i], views[i + 1])
    ensures forall i :: 0 <= i <= |ops| ==>
              && 4 * |views[i].values| <= 3 * views[i].buckets
              && 6 * views[i].relinks <= 13 * Inserts(ops[..i])
  {
    hide Step;
    hide Elems;
    hide Coherent;
    t := new HashTable(16, getKey, hash);
    ElemsOne(t.head);
    ElemsCount(t);
    views := Run(t, ops);
    forall i | 0 <= i <= |ops|
      ensures 4 * |views[i].values| <= 3 * views[i].buckets
      ensures 6 * views[i].relinks <= 13 * Inserts(ops[..i])
    {
      BudgetRun(getKey, views, ops, i);
    }
  }
}
