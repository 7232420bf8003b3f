/** src/gtl/container/hash_table.h: every element hangs on one singly linked
    chain behind a fake head, and a bucket is a window onto that chain. */
module HashTables {
  import opened Wrappers
  import opened SinglyList
  import opened HashWindows
  import opened HashGroups
  import opened HashContents
  import opened Powers

  const MIN_BUCKETS: nat := 16

  /** Bucket number of a node, -1 for the fake head. */
  function IndexOf<K, V>(getKey: V -> K, hash: K -> nat, nb: nat, n: Node<V>): int
    requires nb > 0
  {
    match n.val case None => -1 case Some(v) => hash(getKey(v)) % nb
  }

  function Indices<K, V>(c: seq<Node<V>>, getKey: V -> K, hash: K -> nat, nb: nat): (ix: seq<int>)
    requires nb > 0
    ensures |ix| == |c| && forall i :: 0 <= i < |c| ==> ix[i] == IndexOf(getKey, hash, nb, c[i])
  {
    seq(|c|, i requires 0 <= i < |c| => IndexOf(getKey, hash, nb, c[i]))
  }

  lemma {:induction false} IndicesSplice<K, V>(c: seq<Node<V>>, p: nat, q: nat, m: seq<Node<V>>, getKey: V -> K,
      hash: K -> nat, nb: nat)
    requires nb > 0 && p <= q < |c|
    ensures Indices(Splice(c, p, q, m), getKey, hash, nb)
         == Splice(Indices(c, getKey, hash, nb), p, q, Indices(m, getKey, hash, nb))
  {
    var c', n := Splice(c, p, q, m), |m|;
    assert forall i :: 0 <= i < |c'| ==>
        c'[i] == if i <= p then c[i] else if i <= p + n then m[i - p - 1] else c[i - n + q - p];
  }

  ghost function Vals<V>(s: seq<Node<V>>): (r: seq<Option<V>>)
    ensures |r| == |s|
  {
    seq(|s|, i requires 0 <= i < |s| => s[i].val)
  }

  ghost predicate WellHeaded<V>(c: seq<Node<V>>, head: Node<V>) {
    |c| > 0 && c[0] == head && head.val.None? && forall i :: 0 < i < |c| ==> c[i].val.Some?
  }

  /** The heap-free part of the table invariant: c is the chain, bk the buckets. */
  ghost predicate Coherent<K, V>(c: seq<Node<V>>, bk: seq<HashNode<V>>, head: Node<V>, getKey: V -> K, hash: K -> nat) {
    && WellHeaded(c, head) && NoDup(c)
    && MIN_BUCKETS <= |bk| && IsPow2(|bk|)
    && Windows(c, Indices(c, getKey, hash, |bk|), bk)
    && Contiguous(c, getKey)
  }

  lemma {:induction false} CutKeepsShape<V>(c: seq<Node<V>>, p: nat, q: nat, head: Node<V>)
    requires WellHeaded(c, head) && NoDup(c) && p <= q < |c|
    ensures WellHeaded(Splice(c, p, q, []), head) && NoDup(Splice(c, p, q, []))
  {
    var d, n := Splice(c, p, q, []), q - p;
    assert forall i :: 0 <= i < |d| ==> d[i] == if i <= p then c[i] else c[i + n];
    NoDupIsDistinct(c);
    NoDupIsDistinct(d);
  }

  lemma {:induction false} LinkKeepsShape<V>(c: seq<Node<V>>, p: nat, ns: seq<Node<V>>, head: Node<V>)
    requires WellHeaded(c, head) && p < |c| && forall i :: 0 <= i < |ns| ==> ns[i].val.Some?
    ensures WellHeaded(Splice(c, p, p, ns), head)
  {
    var d, n := Splice(c, p, p, ns), |ns|;
    assert forall i :: 0 <= i < |d| ==> d[i] == if i <= p then c[i] else if i <= p + n then ns[i - p - 1] else c[i - n];
  }

  lemma {:induction false} EraseKeepsCoherent<K, V>(c: seq<Node<V>>, bk: seq<HashNode<V>>, head: Node<V>,
      getKey: V -> K, hash: K -> nat, b: nat, p: nat, q: nat, lo: nat, hi: nat)
    requires Coherent(c, bk, head, getKey, hash)
    requires p < q < |c| && b < |bk| && lo <= p && q <= hi
    requires WindowAt(c, Indices(c, getKey, hash, |bk|), bk[b], b, lo, hi)
    ensures Coherent(Splice(c, p, q, []), BucketsErased(c, Indices(c, getKey, hash, |bk|), bk, b, p, q), head, getKey,
        hash)
  {
    hide Windows;
    hide Contiguous;
    CutKeepsShape(c, p, q, head);
    NoDupIsDistinct(c);
    EraseKeepsWindows(c, Indices(c, getKey, hash, |bk|), bk, b, p, q, lo, hi);
    EraseKeepsContiguous(c, p, q, getKey);
    IndicesSplice(c, p, q, [], getKey, hash, |bk|);
    assert Indices<K, V>([], getKey, hash, |bk|) == [];
  }

  lemma {:induction false} InsertKeepsCoherent<K, V>(c: seq<Node<V>>, bk: seq<HashNode<V>>, head: Node<V>,
      getKey: V -> K, hash: K -> nat, b: nat, p: nat, ns: seq<Node<V>>, k: K)
    requires Coherent(c, bk, head, getKey, hash)
    requires p < |c| && ns != [] && b < |bk| && b == hash(k) % |bk|
    requires forall i :: 0 <= i < |ns| ==> KeyOf(getKey, ns[i]) == Some(k)
    requires InsertSpot(c, Indices(c, getKey, hash, |bk|), bk[b], b, p)
    requires NoDup(Splice(c, p, p, ns)) && Contiguous(Splice(c, p, p, ns), getKey)
    ensures Coherent(Splice(c, p, p, ns), BucketsInserted(c, Indices(c, getKey, hash, |bk|), bk, b, p, ns[|ns| - 1]),
        head, getKey, hash)
  {
    hide Windows;
    hide Contiguous;
    assert forall i :: 0 <= i < |ns| ==> KeyOf(getKey, ns[i]) == Some(k) ==> ns[i].val.Some?;
    LinkKeepsShape(c, p, ns, head);
    var ix := Indices(c, getKey, hash, |bk|);
    NoDupIsDistinct(c);
    NoDupIsDistinct(Splice(c, p, p, ns));
    InsertKeepsWindows(c, ix, bk, b, p, ns);
    IndicesSplice(c, p, p, ns, getKey, hash, |bk|);
    assert Indices(ns, getKey, hash, |bk|) == Rep(|ns|, b);
  }

  lemma {:induction false} MoveKeepsNoDup<V>(c: seq<Node<V>>, rest: seq<Node<V>>, p: nat, q: nat)
    requires NoDup(c + rest) && p < |c| && q <= |rest|
    ensures NoDup(Splice(c, p, p, rest[..q])) && NoDup(Splice(c, p, p, rest[..q]) + rest[q..])
  {
    var s, d := c + rest, Splice(c, p, p, rest[..q]) + rest[q..];
    var f :=
        (i: int) => if i <= p then i else if i <= p + q then |c| + (i - p - 1) else if i < |c| + q then i - q else i;
    assert |d| == |s|;
    forall i, j | Pair(i, j) && 0 <= i && j < |d| ensures d[i] != d[j] {
      assert d[i] == s[f(i)] && d[j] == s[f(j)];
      assert Pair(f(i), f(j)) || Pair(f(j), f(i));
    }
    var e := Splice(c, p, p, rest[..q]);
    forall i, j | Pair(i, j) && 0 <= i && j < |e| ensures e[i] != e[j] {
      assert d[i] == e[i] && d[j] == e[j];
    }
  }

  /** A table without elements. */
  lemma {:induction false} EmptyCoherent<K, V>(bk: seq<HashNode<V>>, head: Node<V>, getKey: V -> K, hash: K -> nat)
    requires head.val.None? && MIN_BUCKETS <= |bk| && IsPow2(|bk|)
    requires forall b :: 0 <= b < |bk| ==> bk[b] == HashNode(null, null)
    ensures Coherent([head], bk, head, getKey, hash)
  {
  }

  class HashTable<K(==, !new), V(==)> {
    const getKey: V -> K
    const hash: K -> nat
    const head: Node<V>
    var buckets: array<HashNode<V>>
    var size: nat
    // max_load_factor_ as an exact fraction
    var lfNum: nat
    var lfDen: nat
    ghost var chain: seq<Node<V>>
    // every node deleted so far, and how many nodes all rehashes relinked
    ghost var deleted: seq<Node<V>>
    ghost var relinks: nat

    ghost predicate Valid()
      reads this, buckets, chain
    {
      && Coherent(chain, buckets[..], head, getKey, hash) && Linked(chain)
      && size == |chain| - 1 && lfNum > 0 && lfDen > 0
    }

    ghost function GroupOf(k: K): seq<Node<V>>
      reads this
    {
      Group(chain, getKey, k)
    }

    function Bucket(k: K): nat
      reads this, buckets
      requires buckets.Length > 0
    {
      hash(k) % buckets.Length
    }

    function NodeKey(n: Node<V>): K
      requires n.val.Some?
    {
      getKey(n.val.value)
    }

    ghost function Ix(): seq<int>
      reads this, buckets
      requires buckets.Length > 0
    {
      Indices(chain, getKey, hash, buckets.Length)
    }

    constructor (count: nat, getKey: V -> K, hash: K -> nat)
      ensures Valid() && fresh(buckets) && fresh(head) && head.val.None? && chain == [head]
      ensures this.getKey == getKey && this.hash == hash && lfNum == 3 && lfDen == 4
      ensures deleted == [] && relinks == 0 && size == 0 && count <= buckets.Length
      ensures count <= 16 ==> buckets.Length == 16
      ensures count > 16 ==> forall k: nat :: count <= Pow2(k) ==> buckets.Length <= Pow2(k)
    {
      this.getKey, this.hash := getKey, hash;
      var h := new Node<V>(None);
      var b := AllocBuckets(count);
      head, buckets, size, chain := h, b, 0, [h];
      lfNum, lfDen := 3, 4;
      deleted, relinks := [], 0;
    }

    static method AllocBuckets(count: nat) returns (b: array<HashNode<V>>)
      ensures fresh(b) && IsPow2(b.Length) && 16 <= b.Length && count <= b.Length
      ensures forall i :: 0 <= i < b.Length ==> b[i] == HashNode(null, null)
      ensures count <= 16 ==> b.Length == 16
      ensures count > 16 ==> forall k: nat :: count <= Pow2(k) ==> b.Length <= Pow2(k)
    {
      var n := Next2Power(count);
      assert Pow2(4) == 16;
      if n < MIN_BUCKETS { n := MIN_BUCKETS; }
      b := new HashNode<V>[n](_ => HashNode(null, null));
    }

    lemma {:induction false} KeysInWindow(ix: seq<int>, key: K, b: nat)
      requires buckets.Length > 0 && ix == Ix() && b == Bucket(key)
      ensures forall i :: 0 <= i < |chain| && KeyOf(getKey, chain[i]) == Some(key) ==> ix[i] == b
    {
    }

    lemma {:induction false} Facts()
      requires Valid()
      ensures NoDup(chain) && WellHeaded(chain, head) && Contiguous(chain, getKey)
      ensures MIN_BUCKETS <= buckets.Length && IsPow2(buckets.Length)
    {
    }

    lemma {:induction false} EntryIsWindow(b: nat)
      requires Valid() && b < buckets.Length
      ensures IsWindow(chain, Ix(), buckets[b], b)
    {
      assert IsWindow(chain, Ix(), buckets[..][b], b);
    }

    /** The entry of bucket b is empty exactly if no element hashes to b; else it gives the node before the first and
        the last of the elements that do, and these stand together on the chain. */
    lemma {:induction false} EntryMeans(b: nat)
      requires Valid() && b < buckets.Length
      ensures forall i :: 0 < i < |chain| ==> chain[i].val.Some?
      ensures buckets[b].before == null <==>
          forall i :: 0 < i < |chain| ==> hash(getKey(chain[i].val.value)) % buckets.Length != b
      ensures buckets[b].before != null ==>
                exists lo, hi ::
                  && 0 <= lo < hi < |chain| && buckets[b].before == chain[lo] && buckets[b].finish == chain[hi]
                  && forall i :: 0 < i < |chain| ==>
                    (hash(getKey(chain[i].val.value)) % buckets.Length == b <==> lo < i <= hi)
    {
      Facts();
      EntryIsWindow(b);
      var ix := Ix();
      forall i | 0 < i < |chain| ensures ix[i] == hash(getKey(chain[i].val.value)) % buckets.Length {}
      if buckets[b].before != null {
        var lo, hi :| WindowAt(chain, ix, buckets[b], b, lo, hi);
        assert ix[hi] == b;
      }
    }

    // Lookup

    /** find_node: the node before the first match, or where a new node goes. */
    method FindNode(key: K) returns (before: Node<V>, node: Node?<V>, ghost p: nat)
      requires Valid()
      ensures p < |chain| && before == chain[p]
      ensures node == null ==> !HasKey(chain, getKey, key)
      ensures node == null ==> InsertSpot(chain, Ix(), buckets[Bucket(key)], Bucket(key), p)
      ensures node == null && p + 1 < |chain| ==> KeyOf(getKey, chain[p]) != KeyOf(getKey, chain[p + 1])
      ensures node != null ==> p + 1 < |chain| && node == chain[p + 1] && KeyOf(getKey, node) == Some(key)
      ensures node != null ==> forall i :: 0 <= i <= p ==> KeyOf(getKey, chain[i]) != Some(key)
    {
      hide Group;
      hide Coherent;
      Facts();
      var b := Bucket(key);
      var hnode := buckets[b];
      ghost var ix := Ix();
      EntryIsWindow(b);
      if hnode.before == null {
        assert forall i :: 0 <= i < |chain| ==> ix[i] != b;
        return head, null, 0;
      }
      ghost var lo: int, hi: int :| WindowAt(chain, ix, hnode, b, lo, hi);
      KeysInWindow(ix, key, b);
      var prev: Node<V> := hnode.before;
      p := lo;
      while prev.next != hnode.finish.next
        invariant lo <= p <= hi && prev == chain[p]
        invariant forall i :: 0 <= i <= p ==> KeyOf(getKey, chain[i]) != Some(key)
        decreases hi - p
      {
        assert chain[p].next == At(chain, p + 1);
        if NodeKey(prev.next) == key {
          return prev, prev.next, p;
        }
        prev := prev.next;
        p := p + 1;
      }
      assert chain[p].next == At(chain, p + 1) && chain[hi].next == At(chain, hi + 1);
      assert p < hi <==> Pair(p + 1, hi + 1);
      assert p == hi;
      assert ix[lo + 1] == b && ix[lo] != b;
      return hnode.before, null, lo;
    }

    /** find_range: the run of nodes with this key that follows `before`. */
    method FindRange(key: K, before: Node<V>, ghost c: seq<Node<V>>, ghost p: nat)
      returns (last: Node<V>, count: nat, ghost q: nat)
      requires Linked(c) && p < |c| && c[p] == before
      requires forall i :: 0 < i < |c| ==> c[i].val.Some?
      ensures p <= q < |c| && c[q] == last && count == q - p
      ensures forall i :: p < i <= q ==> KeyOf(getKey, c[i]) == Some(key)
      ensures q + 1 < |c| ==> KeyOf(getKey, c[q + 1]) != Some(key)
    {
      last, count, q := before, 0, p;
      while last.next != null && NodeKey(last.next) == key
        invariant p <= q < |c| && c[q] == last && count == q - p
        invariant last.next == At(c, q + 1)
        invariant forall i :: p < i <= q ==> KeyOf(getKey, c[i]) == Some(key)
        decreases |c| - q
      {
        last, count, q := last.next, count + 1, q + 1;
      }
    }

    /** The group of a key is the run right after its first node's predecessor. */
    lemma {:induction false} RunIsGroup(key: K, p: nat, q: nat)
      requires Valid() && p < q < |chain|
      requires forall i :: p < i <= q ==> KeyOf(getKey, chain[i]) == Some(key)
      requires forall i :: 0 <= i <= p ==> KeyOf(getKey, chain[i]) != Some(key)
      requires q + 1 < |chain| ==> KeyOf(getKey, chain[q + 1]) != Some(key)
      ensures GroupOf(key) == chain[p + 1..q + 1]
    {
      hide Group;
      forall i | q + 1 < i < |chain| ensures KeyOf(getKey, chain[i]) != Some(key) {
        assert Between(p + 1, q + 1, i);
      }
      GroupIsStretch(chain, p, q, getKey, key);
    }

    lemma {:induction false} RunEnd(key: K, c: seq<Node<V>>, p: nat) returns (q: nat)
      requires p < |c|
      ensures p <= q < |c|
      ensures forall i :: p < i <= q ==> KeyOf(getKey, c[i]) == Some(key)
      ensures q + 1 < |c| ==> KeyOf(getKey, c[q + 1]) != Some(key)
    {
      q := p;
      while q + 1 < |c| && KeyOf(getKey, c[q + 1]) == Some(key)
        invariant p <= q < |c|
        invariant forall i :: p < i <= q ==> KeyOf(getKey, c[i]) == Some(key)
      {
        q := q + 1;
      }
    }

    method Find(key: K) returns (node: Node?<V>)
      requires Valid()
      ensures node == null <==> GroupOf(key) == []
      ensures node != null ==> node == GroupOf(key)[0]
    {
      hide Group;
      ghost var p;
      var before;
      before, node, p := FindNode(key);
      if node == null {
        GroupEmpty(chain, getKey, key);
      } else {
        var q := RunEnd(key, chain, p);
        RunIsGroup(key, p, q);
      }
    }

    method Contains(key: K) returns (b: bool)
      requires Valid()
      ensures b <==> exists n :: n in chain && KeyOf(getKey, n) == Some(key)
    {
      var _, node, p := FindNode(key);
      b := node != null;
    }

    /** count(unique, key); the scan compares the key with each next node's key. */
    method Count(unique: bool, key: K) returns (ret: nat)
      requires Valid()
      ensures ret == if unique && GroupOf(key) != [] then 1 else |GroupOf(key)|
    {
      hide Group;
      var before, node, p := FindNode(key);
      if node == null {
        GroupEmpty(chain, getKey, key);
        return 0;
      }
      GroupMember(chain, getKey, key, node);
      if unique {
        return 1;
      }
      ret := 0;
      var n: Node?<V> := node;
      ghost var i := p + 1;
      while n != null && NodeKey(n) == key
        invariant p + 1 <= i <= |chain| && n == At(chain, i) && ret == i - p - 1
        invariant forall j :: p < j < i ==> KeyOf(getKey, chain[j]) == Some(key)
        decreases |chain| - i
      {
        ret, n, i := ret + 1, n.next, i + 1;
      }
      assert i > p + 1;
      RunIsGroup(key, p, i - 1);
    }

    lemma {:induction false} NextFacts(p: nat)
      requires Valid() && p < |chain|
      ensures buckets.Length > 0 && chain[p].next == At(chain, p + 1)
      ensures p + 1 < |chain| ==> chain[p + 1].val.Some? && Ix()[p + 1] == Bucket(NodeKey(chain[p + 1]))
    {
    }

    /** equal_range: the group as a half-open stretch of the chain. */
    method EqualRange(unique: bool, key: K) returns (first: Node?<V>, last: Node?<V>, ghost i: nat, ghost j: nat)
      requires Valid()
      ensures GroupOf(key) == [] ==> first == null && last == null
      ensures GroupOf(key) != [] ==> 0 < i < j <= |chain| && first == chain[i] && last == At(chain, j)
      ensures GroupOf(key) != [] ==> chain[i..j] == if unique then GroupOf(key)[..1] else GroupOf(key)
    {
      hide Group;
      hide Linked;
      i, j := 0, 0;
      var before, node, p := FindNode(key);
      if node == null {
        GroupEmpty(chain, getKey, key);
        return null, null, 0, 0;
      }
      var l, n, q := FindRange(key, before, chain, p);
      RunIsGroup(key, p, q);
      NextFacts(q);
      NextFacts(p + 1);
      if unique {
        return node, node.next, p + 1, p + 2;
      }
      return node, l.next, p + 1, q + 1;
    }

    // Unlinking

    method DeleteNode(n: Node<V>)
      modifies this`deleted
      ensures deleted == old(deleted) + [n]
    {
      deleted := deleted + [n];
    }

    method DeleteRun(start: Node?<V>, ghost run: seq<Node<V>>)
      requires Linked(run) && start == At(run, 0)
      modifies this`deleted
      ensures deleted == old(deleted) + run
    {
      var first := start;
      ghost var k := 0;
      while first != null
        invariant k <= |run| && first == At(run, k)
        invariant deleted == old(deleted) + run[..k]
        decreases |run| - k
      {
        assert run[k].next == At(run, k + 1);
        var next := first.next;
        DeleteNode(first);
        first := next;
        k := k + 1;
      }
    }

    /** erase_node: cuts (before, last] out of bucket b's window and deletes it. */
    method EraseNodes(b: nat, before: Node<V>, last: Node<V>, count: nat, ghost p: nat, ghost q: nat, ghost lo: nat,
        ghost hi: nat)
      requires Valid() && b < buckets.Length
      requires p < q < |chain| && chain[p] == before && chain[q] == last && count == q - p
      requires WindowAt(chain, Ix(), buckets[b], b, lo, hi) && lo <= p && q <= hi
      modifies this`size, this`chain, this`deleted, buckets, chain
      ensures Valid()
      ensures chain == Splice(old(chain), p, q, [])
      ensures size == old(size) - count
      ensures deleted == old(deleted) + old(chain)[p + 1..q + 1]
    {
      hide Coherent;
      hide Linked;
      hide NoDup;
      hide WindowAt;
      ghost var c0, bk0 := chain, buckets[..];
      Facts();
      NextFacts(p);
      NextFacts(q);
      EraseKeepsCoherent(c0, bk0, head, getKey, hash, b, p, q, lo, hi);
      if last.next != null && last == buckets[b].finish {
        var d := Bucket(NodeKey(last.next));
        buckets[d] := HashNode(before, buckets[d].finish);
      }
      var first: Node?<V> := before.next;
      buckets[b] := buckets[b].Erased(before, last);
      assert buckets[..] == BucketsErased(c0, Indices(c0, getKey, hash, |bk0|), bk0, b, p, q);
      RemoveAfter(before, last, chain, p, q);
      size := size - count;
      chain := Splice(chain, p, q, []);
      DeleteRun(first, c0[p + 1..q + 1]);
    }

    /** The window of a key's bucket spans any stretch of nodes with that key. */
    lemma {:induction false} StretchInWindow(key: K, p: nat, q: nat) returns (lo: nat, hi: nat)
      requires Valid() && p < q < |chain|
      requires KeyOf(getKey, chain[p + 1]) == Some(key) && KeyOf(getKey, chain[q]) == Some(key)
      ensures WindowAt(chain, Ix(), buckets[Bucket(key)], Bucket(key), lo, hi) && lo <= p && q <= hi
    {
      var ix, b := Ix(), Bucket(key);
      assert ix[p + 1] == b && ix[q] == b;
      assert IsWindow(chain, ix, buckets[..][b], b);
      lo, hi :| WindowAt(chain, ix, buckets[b], b, lo, hi);
    }

    static lemma {:induction false} CutMiddle<T>(a: seq<T>, m: seq<T>, z: seq<T>)
      ensures m == [] ==> a + z == a + m + z
      ensures |a + m + z| == |m| ==> a + z == []
    {
    }

    lemma {:induction false} ErasedGroup(c: seq<Node<V>>, p: nat, q: nat, key: K, k: K)
      requires p <= q < |c| && Group(c, getKey, key) == c[p + 1..q + 1]
      requires forall i :: p < i <= q ==> KeyOf(getKey, c[i]) == Some(key)
      ensures Group(Splice(c, p, q, []), getKey, k) == if k == key then [] else Group(c, getKey, k)
    {
      hide Group;
      var m := c[p + 1..q + 1];
      GroupUniform(c, p + 1, q + 1, getKey, k, k == key);
      GroupSplit(c, p, q, getKey, k);
      GroupCut(c, p, q, getKey, k);
      CutMiddle(Group(c[..p + 1], getKey, k), Group(m, getKey, k), Group(c[q + 1..], getKey, k));
    }

    /** erase(key): removes the whole group of the key. */
    method Erase(key: K) returns (count: nat)
      requires Valid()
      modifies this`size, this`chain, this`deleted, buckets, chain
      ensures Valid()
      ensures count == |old(GroupOf(key))| && size == old(size) - count
      ensures deleted == old(deleted) + old(GroupOf(key))
      ensures GroupOf(key) == [] && forall k :: k != key ==> GroupOf(k) == old(GroupOf(k))
      ensures forall n :: n in chain ==> n in old(chain)
    {
      hide Group;
      var b := Bucket(key);
      var before, node, p := FindNode(key);
      if node == null {
        GroupEmpty(chain, getKey, key);
        return 0;
      }
      ghost var c := chain;
      var last, n, q := FindRange(key, before, chain, p);
      assert Valid();
      RunIsGroup(key, p, q);
      ghost var lo, hi := StretchInWindow(key, p, q);
      EraseNodes(b, before, last, n, p, q, lo, hi);
      forall k ensures GroupOf(k) == if k == key then [] else Group(c, getKey, k) {
        ErasedGroup(c, p, q, key, k);
      }
      return n;
    }

    ghost function BucketCount(): nat
      reads this
      ensures BucketCount() == buckets.Length
    {
      buckets.Length
    }

    /** From chain c and log d on, exactly c[i..m] has been cut and deleted. */
    ghost predicate Cut(c: seq<Node<V>>, d: seq<Node<V>>, i: nat, m: nat)
      reads this
    {
      0 < i <= m <= |c| && chain == c[..i] + c[m..] && deleted == d + c[i..m] && NoDup(c)
    }

    lemma {:induction false} StartCut(i: nat, j: nat)
      requires Valid() && 0 < i <= j <= |chain|
      ensures Cut(chain, deleted, i, i) && size == |chain| - 1 && chain == chain[..i] + chain[i..]
      ensures At(chain, i) == At(chain, j) ==> i == j
    {
      assert i < j <==> Pair(i, j);
    }

    lemma {:induction false} OnlyOld(c: seq<Node<V>>, d: seq<Node<V>>, i: nat, m: nat)
      requires Cut(c, d, i, m)
      ensures forall k :: 0 <= k < |chain| ==> chain[k] in c
    {
      assert forall k :: 0 <= k < |chain| ==> chain[k] == c[if k < i then k else k - i + m];
    }

    lemma {:induction false} CutDone(c: seq<Node<V>>, d: seq<Node<V>>, i: nat, m: nat)
      requires Valid() && Cut(c, d, i, m)
      ensures i <= m <= |c| && chain == c[..i] + c[m..] && deleted == d + c[i..m] && size == |c| - (m - i) - 1
    {
    }

    lemma {:induction false} NextAfterCut(c: seq<Node<V>>, d: seq<Node<V>>, i: nat, m: nat, j: nat)
      requires Valid() && Cut(c, d, i, m) && m <= j <= |c|
      ensures buckets.Length > 0 && c[i - 1].next == At(c, m)
      ensures At(c, m) == At(c, j) ==> m == j
      ensures m < |c| ==> c[m].val.Some? && IndexOf(getKey, hash, buckets.Length, c[m]) == Bucket(NodeKey(c[m]))
      ensures forall x :: x in chain ==> x in c
    {
      assert chain[i - 1].next == At(chain, i);
      assert m < |c| ==> chain[i] == c[m];
      assert m < j <==> Pair(m, j);
    }

    lemma {:induction false} EnterCut(c: seq<Node<V>>, d: seq<Node<V>>, i: nat, m: nat, j: nat)
      returns (lo: nat, hi: nat)
      requires Valid() && Cut(c, d, i, m) && m < j <= |c|
      ensures i < i + j - m <= |chain| && chain[i - 1] == c[i - 1] && At(chain, i + j - m) == At(c, j)
      ensures var b := IndexOf(getKey, hash, buckets.Length, c[m]);
        0 <= b < buckets.Length && WindowAt(chain, Ix(), buckets[b], b, lo, hi) && lo <= i - 1 < hi
    {
      assert chain[i] == c[m];
      assert j < |c| ==> chain[i + j - m] == c[j];
      lo, hi := StretchInWindow(NodeKey(chain[i]), i - 1, i);
    }

    lemma {:induction false} CutFurther(c: seq<Node<V>>, d: seq<Node<V>>, i: nat, m: nat, p: nat, q: nat)
      requires Cut(c, d, i, m) && i == p + 1 && p <= q && m + q - p <= |c|
      ensures NoDup(c) && 0 < i <= m && |chain| == |c| - m + i
      ensures Splice(chain, p, q, []) == c[..i] + c[m + q - p..]
      ensures deleted + chain[p + 1..q + 1] == d + c[i..m + q - p]
    {
      assert chain[q + 1..] == c[m + q - p..];
      assert chain[p + 1..q + 1] == c[m..m + q - p];
      assert c[i..m] + c[m..m + q - p] == c[i..m + q - p];
    }

    lemma {:induction false} CutMade(c: seq<Node<V>>, d: seq<Node<V>>, i: nat, m: nat)
      requires 0 < i <= m <= |c| && NoDup(c) && chain == c[..i] + c[m..] && deleted == d + c[i..m]
      ensures Cut(c, d, i, m)
    {
    }

    /** The inner loop of erase(first, last): the part of [before.next, last) in bucket b. */
    method WindowPart(b: nat, before: Node<V>, last: Node?<V>, ghost p: nat, ghost j: nat, ghost lo: nat, ghost hi: nat)
      returns (prev: Node<V>, count: nat, ghost q: nat)
      requires Valid() && b < buckets.Length && WindowAt(chain, Ix(), buckets[b], b, lo, hi)
      requires lo <= p < hi && p + 1 < j <= |chain| && before == chain[p] && last == At(chain, j)
      ensures p < q <= hi && q < j && prev == chain[q] && count == q - p
      ensures q == hi || q + 1 == j
    {
      var end := buckets[b].finish.next;
      prev, count, q := before, 0, p;
      assert chain[hi].next == At(chain, hi + 1);
      assert chain[p].next == At(chain, p + 1);
      assert Pair(p + 1, hi + 1) && Pair(p + 1, j);
      while prev.next != end && prev.next != last
        invariant q < hi ==> Pair(q + 1, hi + 1)
        invariant q + 1 < j ==> Pair(q + 1, j)
        invariant p <= q <= hi && q < j && prev == chain[q] && count == q - p
        invariant prev.next == At(chain, q + 1)
        decreases hi - q
      {
        prev, count, q := prev.next, count + 1, q + 1;
        assert chain[q].next == At(chain, q + 1);
      }
    }

    /** One round of the outer loop of erase(first, last): the nodes of bucket b go. */
    method CutRound(b: nat, before: Node<V>, last: Node?<V>, ghost c: seq<Node<V>>, ghost d: seq<Node<V>>, ghost i: nat,
        ghost m: nat, ghost j: nat)
      returns (ghost m': nat)
      requires Valid() && Cut(c, d, i, m) && m < j <= |c| && before == c[i - 1] && last == At(c, j)
      requires b == IndexOf(getKey, hash, buckets.Length, c[m])
      modifies this`size, this`chain, this`deleted, buckets, chain
      ensures Valid() && m < m' <= j && Cut(c, d, i, m')
    {
      hide Cut;
      hide Valid;
      hide WindowAt;
      hide IndexOf;
      hide Splice;
      ghost var p, ch, del := i - 1, chain, deleted;
      ghost var lo, hi := EnterCut(c, d, i, m, j);
      var prev, count;
      ghost var q;
      prev, count, q := WindowPart(b, before, last, p, i + j - m, lo, hi);
      assert Valid();
      m' := m + (q - p);
      CutFurther(c, d, i, m, p, q);
      EraseNodes(b, before, prev, count, p, q, lo, hi);
      assert chain == Splice(ch, p, q, []) && deleted == del + ch[p + 1..q + 1];
      CutMade(c, d, i, m');
    }

    /** The window of the first node's bucket starts at lo, before the node. */
    lemma {:induction false} StartWindow(i: nat) returns (lo: nat)
      requires Valid() && 0 < i < |chain|
      ensures buckets.Length > 0 && chain[i].val.Some?
      ensures Bucket(NodeKey(chain[i])) == IndexOf(getKey, hash, BucketCount(), chain[i])
      ensures lo < i && buckets[Bucket(NodeKey(chain[i]))].before == chain[lo] && Linked(chain) && NoDup(chain)
    {
      var hi;
      lo, hi := StretchInWindow(NodeKey(chain[i]), i - 1, i);
    }

    /** erase(first, last): cuts [first, last), however many buckets it crosses. */
    method EraseRange(first: Node?<V>, last: Node?<V>, ghost i: nat, ghost j: nat) returns (r: Node?<V>)
      requires Valid()
      requires 0 < i <= j <= |chain| && first == At(chain, i) && last == At(chain, j)
      modifies this`size, this`chain, this`deleted, buckets, chain
      ensures Valid() && r == last
      ensures chain == old(chain)[..i] + old(chain)[j..]
      ensures size == old(size) - (j - i)
      ensures deleted == old(deleted) + old(chain)[i..j]
    {
      hide Valid;
      hide Cut;
      ghost var c, d, m := chain, deleted, i;
      StartCut(i, j);
      if first == last {
        return last;
      }
      ghost var lo := StartWindow(i);
      var b := Bucket(NodeKey(first));
      var before := PrevNode(buckets[b].before, first, chain, lo, i);
      while before.next != last
        invariant Valid() && Cut(c, d, i, m) && m <= j && before == c[i - 1]
        invariant m < j ==> b == IndexOf(getKey, hash, BucketCount(), c[m])
        decreases j - m
      {
        NextAfterCut(c, d, i, m, j);
        OnlyOld(c, d, i, m);
        m := CutRound(b, before, last, c, d, i, m, j);
        NextAfterCut(c, d, i, m, j);
        if before.next != last {
          b := Bucket(NodeKey(before.next));
        }
      }
      NextAfterCut(c, d, i, m, j);
      CutDone(c, d, i, m);
      return last;
    }

    /** The bucket part of insert_node: own window first, then the next bucket's predecessor. */
    method WidenWindow(b: nat, before: Node<V>, last: Node<V>, ghost c: seq<Node<V>>, ghost ix: seq<int>, ghost p: nat)
      requires buckets.Length > 0 && b < buckets.Length && p < |c| && c[p] == before
      requires ix == Indices(c, getKey, hash, buckets.Length)
      requires last.next == At(c, p + 1) && forall i :: 0 < i < |c| ==> c[i].val.Some?
      modifies buckets
      ensures buckets[..] == BucketsInserted(c, ix, old(buckets[..]), b, p, last)
    {
      buckets[b] := buckets[b].Inserted(before, last);
      if last.next != null && last == buckets[b].finish {
        var d := Bucket(NodeKey(last.next));
        buckets[d] := HashNode(last, buckets[d].finish);
      }
    }

    // Linking

    static lemma {:induction false} LastLinked(c: seq<Node<V>>, p: nat, ns: seq<Node<V>>)
      requires p < |c| && ns != [] && Linked(Splice(c, p, p, ns))
      ensures ns[|ns| - 1].next == At(c, p + 1)
    {
      var d := Splice(c, p, p, ns);
      assert d[p + |ns|] == ns[|ns| - 1] && d[p + |ns|].next == At(d, p + |ns| + 1);
    }

    /** insert_node(bucket, before, first, last, count): links the run ns of key k. */
    method InsertNodes(b: nat, before: Node<V>, first: Node<V>, last: Node<V>, count: nat, ghost p: nat,
        ghost ns: seq<Node<V>>, ghost k: K)
      requires Valid() && b < buckets.Length && b == Bucket(k) && p < |chain| && before == chain[p]
      requires ns != [] && first == ns[0] && last == ns[|ns| - 1] && count == |ns| && Linked(ns)
      requires forall i :: 0 <= i < |ns| ==> KeyOf(getKey, ns[i]) == Some(k)
      requires NoDup(Splice(chain, p, p, ns)) && Contiguous(Splice(chain, p, p, ns), getKey)
      requires InsertSpot(chain, Ix(), buckets[b], b, p)
      modifies this`size, this`chain, buckets, before, last
      ensures Valid() && chain == Splice(old(chain), p, p, ns) && size == old(size) + count
    {
      hide Coherent;
      hide Contiguous;
      hide NoDup;
      hide InsertSpot;
      hide Linked;
      ghost var c0, ix0, bk0 := chain, Ix(), buckets[..];
      Facts();
      NextFacts(p);
      InsertKeepsCoherent(c0, bk0, head, getKey, hash, b, p, ns, k);
      InsertAfter(before, first, last, chain, p, ns);
      LastLinked(c0, p, ns);
      WidenWindow(b, before, last, c0, ix0, p);
      size := size + count;
      chain := Splice(chain, p, p, ns);
    }

    // Rehashing

    /** No key has nodes on both lists. */
    ghost predicate KeysApart(c: seq<Node<V>>, rest: seq<Node<V>>) {
      forall k :: Group(c, getKey, k) == [] || Group(rest, getKey, k) == []
    }

    /** During do_rehash: c is the new chain and rest what is left behind the old head. */
    ghost predicate Apart(c: seq<Node<V>>, oldHead: Node<V>, rest: seq<Node<V>>) {
      && Contiguous(rest, getKey) && (forall i :: 0 <= i < |rest| ==> rest[i].val.Some?)
      && NoDup(c + rest) && oldHead !in c && oldHead !in rest
      && KeysApart(c, rest)
    }

    /** The leading q nodes of rest are a whole group. */
    ghost predicate LeadingGroup(rest: seq<Node<V>>, q: nat, key: K) {
      && 0 < q <= |rest|
      && (forall i :: 0 <= i < q ==> KeyOf(getKey, rest[i]) == Some(key))
      && (q < |rest| ==> KeyOf(getKey, rest[q]) != Some(key))
    }

    lemma {:induction false} RoundKeepsApart(c: seq<Node<V>>, oldHead: Node<V>, rest: seq<Node<V>>, q: nat, p: nat,
        key: K)
      requires Apart(c, oldHead, rest) && LeadingGroup(rest, q, key) && p < |c|
      ensures Apart(Splice(c, p, p, rest[..q]), oldHead, rest[q..]) && NoDup(Splice(c, p, p, rest[..q]))
      ensures forall k :: Group(Splice(c, p, p, rest[..q]), getKey, k) + Group(rest[q..], getKey, k)
                       == Group(c, getKey, k) + Group(rest, getKey, k)
      ensures forall n :: n in Splice(c, p, p, rest[..q]) ==> n in c || n in rest
    {
      hide Group;
      hide Contiguous;
      var c', tail := Splice(c, p, p, rest[..q]), rest[q..];
      GroupMember(rest, getKey, key, rest[0]);
      MoveKeepsNoDup(c, rest, p, q);
      LeadingRun(rest, q, getKey, key, key);
      forall k
        ensures Group(c', getKey, k) + Group(tail, getKey, k) == Group(c, getKey, k) + Group(rest, getKey, k)
        ensures Group(c', getKey, k) == [] || Group(tail, getKey, k) == []
      {
        LeadingRun(rest, q, getKey, key, k);
        NewRunGroup(c, p, rest[..q], getKey, key, k);
      }
    }

    lemma {:induction false} SpotForNewKey(key: K) returns (p: nat)
      requires Valid() && GroupOf(key) == []
      ensures p < |chain| && InsertSpot(chain, Ix(), buckets[Bucket(key)], Bucket(key), p)
      ensures chain[p] == if buckets[Bucket(key)].before == null then head else buckets[Bucket(key)].before
      ensures !HasKey(chain, getKey, key)
      ensures (p + 1 < |chain| ==> KeyOf(getKey, chain[p]) != KeyOf(getKey, chain[p + 1]))
    {
      hide Group;
      var b, ix := Bucket(key), Ix();
      EntryIsWindow(b);
      GroupEmpty(chain, getKey, key);
      if buckets[b].before == null {
        p := 0;
      } else {
        var lo, hi :| WindowAt(chain, ix, buckets[b], b, lo, hi);
        p := lo;
        assert ix[lo] != b && ix[lo + 1] == b;
      }
    }

    lemma {:induction false} Outside(oldHead: Node<V>, rest: seq<Node<V>>)
      requires Apart(chain, oldHead, rest)
      ensures oldHead !in chain && forall n :: n in rest ==> n !in chain
    {
      var s := chain + rest;
      forall i, j | 0 <= i < |chain| && 0 <= j < |rest| ensures chain[i] != rest[j] {
        assert s[i] == chain[i] && s[|chain| + j] == rest[j] && Pair(i, |chain| + j);
      }
    }

    lemma {:induction false} StartOfLeftover(oldHead: Node<V>, rest: seq<Node<V>>)
      requires Linked([oldHead] + rest) && Apart(chain, oldHead, rest)
      ensures oldHead.next == At(rest, 0) && (rest != [] ==> rest[0].val.Some?)
      ensures forall i :: 0 < i < |[oldHead] + rest| ==> ([oldHead] + rest)[i].val.Some?
    {
      assert ([oldHead] + rest)[0].next == At([oldHead] + rest, 1);
    }

    lemma {:induction false} HeadedNoDup(oldHead: Node<V>, rest: seq<Node<V>>)
      requires Apart(chain, oldHead, rest)
      ensures NoDup([oldHead] + rest)
    {
      var o, s, n := [oldHead] + rest, chain + rest, |chain|;
      assert forall i :: 0 < i < |o| ==> o[i] == s[n + i - 1];
      forall i, j | Pair(i, j) && 0 <= i && j < |o| ensures o[i] != o[j] {
        assert Pair(n + i - 1, n + j - 1);
        assert o[j] in rest;
      }
    }

    lemma {:induction false} RunOfLeftover(oldHead: Node<V>, rest: seq<Node<V>>, q: nat, key: K)
      requires Apart(chain, oldHead, rest) && rest != [] && KeyOf(getKey, rest[0]) == Some(key)
      requires q <= |rest|
      requires forall i :: 0 < i <= q ==> KeyOf(getKey, ([oldHead] + rest)[i]) == Some(key)
      requires q < |rest| ==> KeyOf(getKey, ([oldHead] + rest)[q + 1]) != Some(key)
      ensures LeadingGroup(rest, q, key) && GroupOf(key) == [] && NoDup([oldHead] + rest)
      ensures Splice([oldHead] + rest, 0, q, []) == [oldHead] + rest[q..] && ([oldHead] + rest)[1..q + 1] == rest[..q]
      ensures 0 < q <= |rest| && forall i :: 0 <= i < q ==> KeyOf(getKey, rest[..q][i]) == Some(key)
    {
      hide Group;
      hide Contiguous;
      hide NoDup;
      var o := [oldHead] + rest;
      assert o[1..q + 1] == rest[..q];
      assert forall i :: 0 <= i < |rest| ==> rest[i] == o[i + 1];
      GroupMember(rest, getKey, key, rest[0]);
      HeadedNoDup(oldHead, rest);
    }

    /** find_range and RemoveAfter: unlinks the group at the front of the old chain. */
    method TakeGroup(oldHead: Node<V>, first: Node<V>, ghost rest: seq<Node<V>>, key: K)
      returns (last: Node<V>, count: nat, ghost q: nat)
      requires Valid() && Linked([oldHead] + rest) && Apart(chain, oldHead, rest)
      requires rest != [] && first == rest[0] && KeyOf(getKey, first) == Some(key)
      modifies oldHead, rest
      ensures Valid() && LeadingGroup(rest, q, key) && GroupOf(key) == []
      ensures 0 < q <= |rest| && last == rest[q - 1] && count == q
      ensures Linked([oldHead] + rest[q..]) && Linked(rest[..q])
      ensures forall i :: 0 <= i < q ==> KeyOf(getKey, rest[..q][i]) == Some(key)
    {
      hide Coherent;
      hide Group;
      hide Contiguous;
      hide LeadingGroup;
      StartOfLeftover(oldHead, rest);
      last, count, q := FindRange(key, oldHead, [oldHead] + rest, 0);
      RunOfLeftover(oldHead, rest, q, key);
      Outside(oldHead, rest);
      assert last == rest[q - 1] && last !in chain;
      RemoveAfter(oldHead, last, [oldHead] + rest, 0, q);
    }

    /** Neither end of the moved run is part of what stays on the old head. */
    lemma {:induction false} Untouched(oldHead: Node<V>, rest: seq<Node<V>>, q: nat, before: Node<V>, last: Node<V>)
      requires Apart(chain, oldHead, rest) && 0 < q <= |rest| && before in chain && last == rest[q - 1]
      ensures before !in rest && before != oldHead && last !in [oldHead] + rest[q..] && last !in chain
      ensures oldHead !in chain
    {
      var s, n := chain + rest, |chain|;
      NoDupIsDistinct(s);
      assert s[n + q - 1] == last;
      forall i | 0 <= i < |rest| ensures rest[i] != before {
        assert s[n + i] == rest[i];
        var x :| 0 <= x < n && chain[x] == before;
        assert s[x] == before;
      }
      forall i | 0 <= i < |rest| - q ensures rest[q..][i] != last {
        assert s[n + q + i] == rest[q..][i];
      }
      forall i | 0 <= i < n ensures chain[i] != last {
        assert s[i] == chain[i];
      }
    }

    /** One round of the do_rehash loop: the leading group moves to its new bucket. */
    method RehashRound(oldHead: Node<V>, first: Node<V>, ghost rest: seq<Node<V>>) returns (ghost q: nat)
      requires Valid() && Linked([oldHead] + rest) && Apart(chain, oldHead, rest) && rest != [] && first == rest[0]
      modifies this`size, this`chain, this`relinks, buckets, chain, oldHead, rest
      ensures Valid() && 0 < q <= |rest| && Linked([oldHead] + rest[q..]) && Apart(chain, oldHead, rest[q..])
      ensures forall n :: n in chain ==> n in old(chain) || n in rest
      ensures size == old(size) + q && relinks == old(relinks) + q
      ensures forall k :: GroupOf(k) + Group(rest[q..], getKey, k) == old(GroupOf(k)) + Group(rest, getKey, k)
    {
      hide Coherent;
      hide Group;
      hide Contiguous;
      hide Apart;
      hide LeadingGroup;
      StartOfLeftover(oldHead, rest);
      var key := NodeKey(first);
      var last, count, r := TakeGroup(oldHead, first, rest, key);
      q := r;
      ghost var p := SpotForNewKey(key);
      Facts();
      RoundKeepsApart(chain, oldHead, rest, q, p, key);
      var b := Bucket(key);
      var before := if buckets[b].before == null then head else buckets[b].before;
      InsertKeepsContiguous(chain, p, rest[..q], getKey, key);
      Untouched(oldHead, rest, q, before, last);
      InsertNodes(b, before, first, last, count, p, rest[..q], key);
      relinks := relinks + count;
    }

    lemma {:induction false} DetachedFacts(c: seq<Node<V>>, rest: seq<Node<V>>)
      requires WellHeaded(c, head) && NoDup(c) && Contiguous(c, getKey) && rest == c[1..]
      ensures Contiguous(rest, getKey) && NoDup([head] + rest) && KeysApart([head], rest)
      ensures forall i :: 0 <= i < |rest| ==> rest[i].val.Some?
      ensures forall k :: Group([head], getKey, k) + Group(rest, getKey, k) == Group(c, getKey, k)
    {
      assert [head] + rest == c;
      forall k
        ensures Group([head], getKey, k) + Group(rest, getKey, k) == Group(c, getKey, k)
        ensures Group([head], getKey, k) == []
      {
        GroupConcat([head], rest, getKey, k);
      }
      forall i, j, l | Between(i, j, l) && 0 <= i && l < |rest| && KeyOf(getKey, rest[i]) == KeyOf(getKey, rest[l])
        ensures KeyOf(getKey, rest[j]) == KeyOf(getKey, rest[i])
      {
        assert Between(i + 1, j + 1, l + 1);
      }
    }

    /** The first half of do_rehash: fresh buckets, an empty chain, all nodes on the old head. */
    method DetachAll(newCount: nat) returns (oldHead: Node<V>, ghost rest: seq<Node<V>>)
      requires Valid()
      modifies this`buckets, this`size, this`chain, head
      ensures Valid() && fresh(buckets) && fresh(oldHead) && chain == [head] && size == 0
      ensures rest == old(chain)[1..] && Linked([oldHead] + rest) && Apart(chain, oldHead, rest)
      ensures forall k :: GroupOf(k) + Group(rest, getKey, k) == old(GroupOf(k))
      ensures forall n :: n in rest ==> n in old(chain)
      ensures newCount <= buckets.Length && (newCount <= 16 ==> buckets.Length == 16)
      ensures newCount > 16 ==> forall k: nat :: newCount <= Pow2(k) ==> buckets.Length <= Pow2(k)
    {
      hide Coherent;
      ghost var c := chain;
      rest := c[1..];
      Facts();
      DetachedFacts(c, rest);
      var newBuckets := AllocBuckets(newCount);
      oldHead := new Node<V>(None);
      assert c[0].next == At(c, 1);
      oldHead.next := head.next;
      head.next := null;
      buckets, size, chain := newBuckets, 0, [head];
      EmptyCoherent(buckets[..], head, getKey, hash);
      assert forall i :: 0 < i < |[oldHead] + rest| ==> ([oldHead] + rest)[i] == c[i];
    }

    method DoRehash(newCount: nat)
      requires Valid()
      modifies this`buckets, this`size, this`chain, this`relinks, chain
      ensures Valid() && fresh(buckets) && size == old(size)
      ensures SameGroups(chain, old(chain), getKey)
      ensures relinks == old(relinks) + size
      ensures forall n :: n in chain ==> n in old(chain)
      ensures newCount <= buckets.Length && (newCount <= 16 ==> buckets.Length == 16)
      ensures newCount > 16 ==> forall k: nat :: newCount <= Pow2(k) ==> buckets.Length <= Pow2(k)
    {
      hide Coherent;
      hide Group;
      hide Contiguous;
      hide Apart;
      Facts();
      var oldHead;
      ghost var rest;
      oldHead, rest := DetachAll(newCount);
      StartOfLeftover(oldHead, rest);
      ghost var newBuckets := buckets;
      var first := oldHead.next;
      while first != null
        invariant Valid() && fresh(buckets) && fresh(oldHead) && buckets == newBuckets
        invariant Linked([oldHead] + rest) && Apart(chain, oldHead, rest) && first == At(rest, 0)
        invariant size + |rest| == old(size) && relinks == old(relinks) + size
        invariant forall n :: n in chain ==> n in old(chain)
        invariant forall n :: n in rest ==> n in old(chain)
        invariant forall k :: GroupOf(k) + Group(rest, getKey, k) == old(GroupOf(k))
        decreases |rest|
      {
        assert forall i :: 0 <= i < |rest| ==> rest[i] in old(chain);
        assert forall i :: 0 <= i < |chain| ==> chain[i] in old(chain);
        ghost var q := RehashRound(oldHead, first, rest);
        rest := rest[q..];
        StartOfLeftover(oldHead, rest);
        first := oldHead.next;
      }
      forall k ensures GroupOf(k) == Group(old(chain), getKey, k) {
        GroupEmpty([], getKey, k);
        assert rest == [] && Group(rest, getKey, k) == [];
        assert GroupOf(k) + [] == GroupOf(k);
      }
    }

    static lemma {:induction false} CeilDiv(a: nat, d: nat, n: nat)
      requires d > 0
      ensures (a + d - 1) / d <= n <==> a <= d * n
    {
      var q, r := (a + d - 1) / d, (a + d - 1) % d;
      assert a + d - 1 == q * d + r;
      if q <= n {
        assert q * d <= n * d;
      } else {
        assert (n + 1) * d <= q * d;
      }
    }

    /** rehash(count): room for count elements at the maximum load factor. */
    method Rehash(count: nat)
      requires Valid()
      modifies this`buckets, this`size, this`chain, this`relinks, chain
      ensures Valid() && size == old(size) && SameGroups(chain, old(chain), getKey)
      ensures forall n :: n in chain ==> n in old(chain)
      ensures count * lfDen <= lfNum * buckets.Length
      ensures count * lfDen <= lfNum * old(buckets.Length) ==>
                buckets == old(buckets) && chain == old(chain) && relinks == old(relinks)
      ensures count * lfDen > lfNum * old(buckets.Length) ==>
                fresh(buckets) && buckets.Length > old(buckets.Length) && relinks == old(relinks) + size
                && forall k: nat :: count * lfDen <= lfNum * Pow2(k) ==> buckets.Length <= Pow2(k)
    {
      var newCount := (count * lfDen + lfNum - 1) / lfNum;
      CeilDiv(count * lfDen, lfNum, buckets.Length);
      if buckets.Length >= newCount {
        return;
      }
      assert newCount > MIN_BUCKETS by { Facts(); }
      DoRehash(newCount);
      CeilDiv(count * lfDen, lfNum, buckets.Length);
      forall k: nat | count * lfDen <= lfNum * Pow2(k) ensures buckets.Length <= Pow2(k) {
        CeilDiv(count * lfDen, lfNum, Pow2(k));
      }
    }

    method CheckForRehash(newCount: nat)
      requires Valid()
      modifies this`buckets, this`size, this`chain, this`relinks, chain
      ensures Valid() && size == old(size) && SameGroups(chain, old(chain), getKey)
      ensures forall n :: n in chain ==> n in old(chain)
      ensures (size + newCount) * lfDen <= lfNum * buckets.Length
      ensures (size + newCount) * lfDen <= lfNum * old(buckets.Length) ==>
                buckets == old(buckets) && chain == old(chain) && relinks == old(relinks)
      ensures (size + newCount) * lfDen > lfNum * old(buckets.Length) ==>
                fresh(buckets) && buckets.Length > old(buckets.Length) && relinks == old(relinks) + size
                && forall k: nat :: (size + newCount) * lfDen <= lfNum * Pow2(k) ==> buckets.Length <= Pow2(k)
    {
      Rehash(size + newCount);
    }

    /** release(): every node is deleted, the bucket array keeps its size. */
    method Clear()
      requires Valid()
      modifies this`size, this`chain, this`deleted, buckets, chain
      ensures Valid() && chain == [head] && size == 0
      ensures deleted == old(deleted) + old(chain)[1..]
    {
      hide Coherent;
      ghost var c, n := chain, |chain|;
      Facts();
      NoDupIsDistinct(c);
      var node := head.next;
      assert c[0].next == At(c, 1);
      ghost var i := 1;
      while node != null
        invariant 1 <= i <= n && node == At(c, i) && head == c[0] && head.next == At(c, i)
        invariant forall j {:trigger c[j].next} :: i <= j < n ==> c[j].next == At(c, j + 1)
        invariant buckets == old(buckets) && chain == c && deleted == old(deleted) + c[1..i]
        decreases n - i
      {
        assert c[i].next == At(c, i + 1);
        head.next := node.next;
        node.next := null;
        DeleteNode(node);
        node := head.next;
        i := i + 1;
      }
      head.next := null;
      size := 0;
      forall b | 0 <= b < buckets.Length { buckets[b] := HashNode(null, null); }
      chain := [head];
      EmptyCoherent(buckets[..], head, getKey, hash);
    }

    // Inserting

    /** Where the new node of key `key` stands among the nodes of that key. */
    ghost function GroupWith(g: seq<Node<V>>, hint: Node?<V>, key: K, n: Node<V>, k: K): seq<Node<V>> {
      if k != key then g
      else if hint != null && KeyOf(getKey, hint) == Some(key) then After<Node<V>>(g, hint, n)
      else [n] + g
    }

    ghost predicate Place(p: nat, hint: Node?<V>, key: K)
      reads this, buckets
    {
      && p < |chain| && buckets.Length > 0 && InsertSpot(chain, Ix(), buckets[Bucket(key)], Bucket(key), p)
      && (KeyOf(getKey, chain[p]) == Some(key) || (p + 1 < |chain| && KeyOf(getKey, chain[p + 1]) == Some(key))
          || (!HasKey(chain, getKey, key)
              && (p + 1 < |chain| ==> KeyOf(getKey, chain[p]) != KeyOf(getKey, chain[p + 1]))))
      && if hint != null && KeyOf(getKey, hint) == Some(key) then chain[p] == hint
         else forall i :: 0 <= i <= p ==> KeyOf(getKey, chain[i]) != Some(key)
    }

    /** A hint whose own key, or whose successor's key, is the new key is itself the place. */
    lemma {:induction false} HintPlace(hint: Node<V>, p: nat, key: K)
      requires Valid() && p < |chain| && chain[p] == hint
      requires KeyOf(getKey, hint) == Some(key) || (p + 1 < |chain| && KeyOf(getKey, chain[p + 1]) == Some(key))
      ensures Place(p, hint, key) && HasKey(chain, getKey, key)
    {
      var b, q := Bucket(key), if KeyOf(getKey, hint) == Some(key) then p else p + 1;
      assert Ix()[q] == b;
      EntryIsWindow(b);
      var lo, hi :| WindowAt(chain, Ix(), buckets[b], b, lo, hi);
      if KeyOf(getKey, hint) != Some(key) {
        forall i | 0 <= i <= p ensures KeyOf(getKey, chain[i]) != Some(key) {
          assert i < p ==> Between(i, p, p + 1);
        }
      }
    }

    lemma {:induction false} FoundPlace(hint: Node?<V>, p: nat, node: Node?<V>, key: K)
      requires Valid() && p < |chain|
      requires hint != null ==> KeyOf(getKey, hint) != Some(key)
      requires node == null ==>
                !HasKey(chain, getKey, key) && InsertSpot(chain, Ix(), buckets[Bucket(key)], Bucket(key), p)
      requires node == null && p + 1 < |chain| ==> KeyOf(getKey, chain[p]) != KeyOf(getKey, chain[p + 1])
      requires node != null ==> p + 1 < |chain| && node == chain[p + 1] && KeyOf(getKey, node) == Some(key)
      requires node != null ==> forall i :: 0 <= i <= p ==> KeyOf(getKey, chain[i]) != Some(key)
      ensures Place(p, hint, key)
    {
      if node != null {
        HintPlace(chain[p], p, key);
      }
    }

    lemma {:induction false} PlacedGroup(p: nat, hint: Node?<V>, key: K, n: Node<V>, k: K)
      requires Valid() && Place(p, hint, key) && KeyOf(getKey, n) == Some(key)
      ensures Group(Splice(chain, p, p, [n]), getKey, k) == GroupWith(GroupOf(k), hint, key, n, k)
    {
      hide Group;
      if hint != null && KeyOf(getKey, hint) == Some(key) {
        LinkBehind(chain, p, n, getKey, key, k);
      } else {
        LinkInFront(chain, p, n, getKey, key, k);
      }
    }

    static lemma {:induction false} JoinKeepsNoDup(c: seq<Node<V>>, p: nat, n: Node<V>)
      requires NoDup(c) && p < |c| && n !in c
      ensures NoDup(Splice(c, p, p, [n]))
    {
      var d := Splice(c, p, p, [n]);
      NoDupIsDistinct(c);
      assert forall x :: 0 <= x < |d| ==> d[x] == if x <= p then c[x] else if x == p + 1 then n else c[x - 1];
      NoDupIsDistinct(d);
    }

    lemma {:induction false} LinkOneFacts(p: nat, n: Node<V>, key: K)
      requires Valid() && p < |chain| && n !in chain && KeyOf(getKey, n) == Some(key)
      requires KeyOf(getKey, chain[p]) == Some(key) || (p + 1 < |chain| && KeyOf(getKey, chain[p + 1]) == Some(key))
          || (!HasKey(chain, getKey, key)
              && (p + 1 < |chain| ==> KeyOf(getKey, chain[p]) != KeyOf(getKey, chain[p + 1])))
      ensures NoDup(Splice(chain, p, p, [n])) && Contiguous(Splice(chain, p, p, [n]), getKey)
    {
      InsertKeepsContiguous(chain, p, [n], getKey, key);
      JoinKeepsNoDup(chain, p, n);
    }

    /** The node to link behind, or null when a unique key is already there. */
    method FindPlace(unique: bool, hint: Node?<V>, key: K) returns (prev: Node?<V>, ghost p: nat)
      requires Valid() && (hint != null ==> hint in chain && hint.val.Some?)
      ensures prev == null <==> unique && GroupOf(key) != []
      ensures prev != null ==> p < |chain| && chain[p] == prev && Place(p, hint, key)
    {
      hide Coherent;
      hide Group;
      hide Contiguous;
      hide Place;
      GroupEmpty(chain, getKey, key);
      if hint != null {
        p :| p < |chain| && chain[p] == hint;
        NextFacts(p);
        if NodeKey(hint) == key || (hint.next != null && NodeKey(hint.next) == key) {
          HintPlace(hint, p, key);
          return if unique then null else hint, p;
        }
      }
      var before, found;
      before, found, p := FindNode(key);
      if unique && found != null {
        assert chain[p + 1] == found;
        return null, p;
      }
      assert Valid();
      FoundPlace(hint, p, found, key);
      return before, p;
    }

    method LinkOne(prev: Node<V>, node: Node<V>, ghost hint: Node?<V>, key: K, ghost p: nat)
      requires Valid() && Place(p, hint, key) && p < |chain| && chain[p] == prev
      requires node !in chain && node.next == null && KeyOf(getKey, node) == Some(key)
      modifies this`size, this`chain, buckets, prev, node
      ensures Valid() && size == old(size) + 1 && chain == Splice(old(chain), p, p, [node])
      ensures forall k :: GroupOf(k) == GroupWith(old(GroupOf(k)), hint, key, node, k)
      ensures forall n :: n in chain ==> n in old(chain) || n == node
    {
      hide Coherent;
      hide Group;
      hide Contiguous;
      Facts();
      LinkOneFacts(p, node, key);
      forall k ensures Group(Splice(chain, p, p, [node]), getKey, k) == GroupWith(GroupOf(k), hint, key, node, k) {
        PlacedGroup(p, hint, key, node, k);
      }
      InsertNodes(Bucket(key), prev, node, node, 1, p, [node], key);
    }

    /** With a hint of the key the new node stands right behind the hint, else in front of all nodes of the key. */
    lemma {:induction false} WithMeans(c: seq<Node<V>>, hint: Node?<V>, key: K, n: Node<V>)
      requires NoDup(c) && (hint != null ==> hint in c && hint.val.Some?)
      ensures forall k :: k != key ==> GroupWith(Group(c, getKey, k), hint, key, n, k) == Group(c, getKey, k)
      ensures hint == null || getKey(hint.val.value) != key ==>
                GroupWith(Group(c, getKey, key), hint, key, n, key) == [n] + Group(c, getKey, key)
      ensures hint != null && getKey(hint.val.value) == key ==>
                exists i :: 0 <= i < |Group(c, getKey, key)| && Group(c, getKey, key)[i] == hint
                  && GroupWith(Group(c, getKey, key), hint, key, n, key)
                     == Group(c, getKey, key)[..i + 1] + [n] + Group(c, getKey, key)[i + 1..]
    {
      if hint != null && getKey(hint.val.value) == key {
        var q :| 0 <= q < |c| && c[q] == hint;
        var x, g := Group(c[..q], getKey, key), Group(c, getKey, key);
        assert c == c[..q] + [c[q]] + c[q + 1..];
        GroupConcat(c[..q] + [c[q]], c[q + 1..], getKey, key);
        GroupConcat(c[..q], [c[q]], getKey, key);
        assert Group([c[q]], getKey, key) == [hint] by { assert [c[q]][1..] == []; }
        if hint in x {
          GroupMember(c[..q], getKey, key, hint);
          NoDupIsDistinct(c);
        }
        assert g[|x|] == hint;
        AfterAt(g, |x|, n);
      }
    }

    /** insert_node(unique, hint, value): emplace, with or without a hint. */
    method Insert(unique: bool, hint: Node?<V>, value: V) returns (r: Node?<V>, inserted: bool)
      requires Valid() && (hint != null ==> hint in chain && hint.val.Some?)
      modifies this`buckets, this`size, this`chain, this`deleted, this`relinks, buckets, chain
      ensures Valid()
      ensures inserted <==> !(unique && old(GroupOf(getKey(value))) != [])
      ensures !inserted ==> r == null && chain == old(chain) && buckets == old(buckets) && size == old(size)
      ensures !inserted ==> relinks == old(relinks)
      ensures !inserted ==> |deleted| == |old(deleted)| + 1 && old(deleted) <= deleted && fresh(deleted[|old(deleted)|])
      ensures inserted ==>
                r != null && fresh(r) && r.val == Some(value) && size == old(size) + 1 && deleted == old(deleted)
      ensures inserted ==> forall k :: GroupOf(k) == GroupWith(old(GroupOf(k)), hint, getKey(value), r, k)
      ensures inserted ==> forall k :: k != getKey(value) ==> GroupOf(k) == old(GroupOf(k))
      ensures inserted && (hint == null || getKey(hint.val.value) != getKey(value)) ==>
                GroupOf(getKey(value)) == [r] + old(GroupOf(getKey(value)))
      ensures inserted && hint != null && getKey(hint.val.value) == getKey(value) ==>
                exists i :: 0 <= i < |old(GroupOf(getKey(value)))| && old(GroupOf(getKey(value)))[i] == hint
                  && GroupOf(getKey(value))
                     == old(GroupOf(getKey(value)))[..i + 1] + [r] + old(GroupOf(getKey(value)))[i + 1..]
      ensures inserted ==> size * lfDen <= lfNum * buckets.Length
      ensures buckets == old(buckets) || fresh(buckets)
      ensures inserted && size * lfDen <= lfNum * old(buckets.Length) ==>
                buckets == old(buckets) && relinks == old(relinks)
      ensures inserted && size * lfDen > lfNum * old(buckets.Length) ==>
                fresh(buckets) && buckets.Length > old(buckets.Length) && relinks == old(relinks) + size
                && forall k: nat :: size * lfDen <= lfNum * Pow2(k) ==> buckets.Length <= Pow2(k)
      ensures forall n :: n in chain ==> n in old(chain) || n == r
    {
      hide Coherent;
      hide Group;
      hide Place;
      hide GroupWith;
      ghost var c := chain;
      var node := new Node<V>(Some(value));
      var key := getKey(value);
      var prev, p := FindPlace(unique, hint, key);
      if prev == null {
        DeleteNode(node);
        return null, false;
      }
      WithMeans(c, hint, key, node) by { Facts(); }
      LinkOne(prev, node, hint, key, p);
      ghost var linked := chain;
      assert forall k :: GroupOf(k) == GroupWith(Group(c, getKey, k), hint, key, node, k);
      assert forall k :: Group(linked, getKey, k) == GroupOf(k);
      CheckForRehash(0);
      forall k ensures GroupOf(k) == GroupWith(Group(c, getKey, k), hint, key, node, k) {
        assert Group(chain, getKey, k) == Group(linked, getKey, k);
      }
      return node, true;
    }

    /** The values of a key's group after inserting the given values one by one, each new one in front. */
    ghost function GroupAfter(unique: bool, g: seq<Option<V>>, values: seq<V>, k: K): seq<Option<V>> {
      if values == [] then g
      else
        var s, v := GroupAfter(unique, g, values[..|values| - 1], k), values[|values| - 1];
        if getKey(v) != k || (unique && s != []) then s else [Some(v)] + s
    }

    lemma {:induction false} OneMore(unique: bool, g: seq<Option<V>>, v: V, k: K)
      ensures GroupAfter(unique, g, [v], k) == if getKey(v) != k || (unique && g != []) then g else [Some(v)] + g
    {
      assert [v][..0] == [];
    }

    /** With equal keys allowed the new values with key k stand in front of the old ones, the last inserted first.
        With unique keys a group that is there stays as it is, and an empty one gets the first value with its key. */
    lemma {:induction false} AfterMeans(unique: bool, g: seq<Option<V>>, values: seq<V>, k: K)
      ensures var s, m := GroupAfter(unique, g, values, k), Having(values, getKey, k);
        if !unique then
          |s| == |m| + |g| && s[|m|..] == g && forall i :: 0 <= i < |m| ==> s[i] == Some(m[|m| - 1 - i])
        else s == if g != [] || m == [] then g else [Some(m[0])]
    {
      if values != [] {
        var n := |values| - 1;
        AfterMeans(unique, g, values[..n], k);
        assert values == values[..n] + [values[n]];
        HavingConcat(values[..n], [values[n]], getKey, k);
        assert Having([values[n]], getKey, k) == if getKey(values[n]) == k then [values[n]] else [] by {
          assert [values[n]][1..] == [];
        }
      }
    }

    /** A group before and after an insert is a step of GroupAfter. */
    lemma {:induction false} OneInsert(unique: bool, g: seq<Node<V>>, value: V, n: Node?<V>, inserted: bool, k: K)
      requires inserted ==> n != null && n.val == Some(value)
      requires getKey(value) == k ==> (inserted <==> !(unique && g != []))
      ensures Vals(if inserted then GroupWith(g, null, getKey(value), n, k) else g)
           == GroupAfter(unique, Vals(g), [value], k)
    {
      OneMore(unique, Vals(g), value, k);
    }

    /** One emplace of insert(unique, first, last) under the reservation made for n elements. */
    method InsertOne(unique: bool, value: V, ghost n: nat)
      requires Valid() && size + 1 <= n && n * lfDen <= lfNum * buckets.Length
      modifies this`buckets, this`size, this`chain, this`deleted, this`relinks, buckets, chain
      ensures Valid() && buckets == old(buckets) && relinks == old(relinks)
      ensures old(size) <= size <= old(size) + 1 && (!unique ==> size == old(size) + 1)
      ensures forall x :: x in chain ==> x in old(chain) || fresh(x)
      ensures forall k :: Vals(GroupOf(k)) == GroupAfter(unique, Vals(old(GroupOf(k))), [value], k)
    {
      hide Valid;
      hide Group;
      hide GroupWith;
      ghost var c := chain;
      assert (size + 1) * lfDen <= n * lfDen;
      var r, inserted := Insert(unique, null, value);
      forall k ensures Vals(GroupOf(k)) == GroupAfter(unique, Vals(Group(c, getKey, k)), [value], k) {
        OneInsert(unique, Group(c, getKey, k), value, r, inserted, k);
      }
    }

    /** insert(unique, first, last): reserves once for the present and the new elements, so the loop itself never
        rehashes. */
    method InsertAll(unique: bool, values: seq<V>)
      requires Valid()
      modifies this`buckets, this`size, this`chain, this`deleted, this`relinks, buckets, chain
      ensures Valid() && old(size) <= size <= old(size) + |values|
      ensures !unique ==> size == old(size) + |values|
      ensures (old(size) + |values|) * lfDen <= lfNum * buckets.Length
      ensures (old(size) + |values|) * lfDen <= lfNum * old(buckets.Length) ==>
                buckets == old(buckets) && relinks == old(relinks)
      ensures (old(size) + |values|) * lfDen > lfNum * old(buckets.Length) ==>
                fresh(buckets) && buckets.Length > old(buckets.Length) && relinks == old(relinks) + old(size)
                && forall k: nat :: (old(size) + |values|) * lfDen <= lfNum * Pow2(k) ==> buckets.Length <= Pow2(k)
      ensures forall k :: Vals(GroupOf(k)) == GroupAfter(unique, Vals(old(GroupOf(k))), values, k)
    {
      hide Valid;
      hide Group;
      hide Vals;
      CheckForRehash(|values|);
      ghost var bk, moved, c := buckets, relinks, old(chain);
      var i := 0;
      assert values[..0] == [];
      forall k ensures Vals(GroupOf(k)) == GroupAfter(unique, Vals(Group(c, getKey, k)), values[..0], k) {
        assert Group(chain, getKey, k) == Group(c, getKey, k);
      }
      while i < |values|
        invariant Valid() && 0 <= i <= |values| && buckets == bk && (bk == old(buckets) || fresh(bk))
        invariant forall n :: n in chain ==> n in old(chain) || fresh(n)
        invariant (old(size) + |values|) * lfDen <= lfNum * bk.Length
        invariant old(size) <= size <= old(size) + i && (!unique ==> size == old(size) + i)
        invariant relinks == moved
        invariant forall k :: Vals(GroupOf(k)) == GroupAfter(unique, Vals(Group(c, getKey, k)), values[..i], k)
      {
        assert forall x :: 0 <= x < |chain| ==> chain[x] in old(chain) || fresh(chain[x]);
        ghost var before := chain;
        InsertOne(unique, values[i], old(size) + |values|);
        forall k ensures Vals(GroupOf(k)) == GroupAfter(unique, Vals(Group(c, getKey, k)), values[..i + 1], k) {
          assert values[..i + 1][..i] == values[..i];
          assert Vals(Group(before, getKey, k)) == GroupAfter(unique, Vals(Group(c, getKey, k)), values[..i], k);
          OneMore(unique, Vals(Group(before, getKey, k)), values[i], k);
        }
        i := i + 1;
      }
      assert values[..i] == values;
    }

    static lemma {:induction false} Behind(c: seq<Node<V>>, p: nat)
      requires p + 1 < |c|
      ensures var d := Splice(c, p, p + 1, []); p < |d| && d[p] == c[p] && At(d, p + 1) == At(c, p + 2)
    {
    }

    /** No two nodes have the same successor, nor are two of them last. */
    lemma {:induction false} SameNext(x: Node<V>, y: Node<V>)
      requires Valid() && x in chain && y in chain
      ensures x.next == y.next <==> x == y
    {
      var i :| 0 <= i < |chain| && chain[i] == x;
      var j :| 0 <= j < |chain| && chain[j] == y;
      NextFacts(i);
      NextFacts(j);
      NoDupIsDistinct(chain);
    }

    static lemma {:induction false} OneOut(c: seq<Node<V>>, p: nat, pos: Node<V>)
      requires NoDup(c) && p + 1 < |c| && pos in c
      ensures pos !in Splice(c, p, p + 1, []) <==> pos == c[p + 1]
    {
      var d := Splice(c, p, p + 1, []);
      var x :| 0 <= x < |c| && c[x] == pos;
      NoDupIsDistinct(c);
      assert forall i :: 0 <= i < |d| ==> d[i] == c[if i <= p then i else i + 1];
      if x <= p { assert d[x] == pos; } else if x > p + 1 { assert d[x - 1] == pos; }
    }

    /** Outside of the run no node has the key. */
    lemma {:induction false} NoneElsewhere(key: K, p: nat, q: nat)
      requires p < q < |chain| && GroupOf(key) == chain[p + 1..q + 1]
      requires forall i :: p < i <= q ==> KeyOf(getKey, chain[i]) == Some(key)
      ensures Group(chain[..p + 1], getKey, key) == [] && Group(chain[q + 1..], getKey, key) == []
    {
      hide Group;
      GroupSplit(chain, p, q, getKey, key);
      GroupUniform(chain, p + 1, q + 1, getKey, key, true);
      var a, z := Group(chain[..p + 1], getKey, key), Group(chain[q + 1..], getKey, key);
      assert |a + chain[p + 1..q + 1] + z| == |a| + (q - p) + |z|;
    }

    static lemma {:induction false} TailOfRun(c: seq<Node<V>>, getKey: V -> K, key: K, p: nat, q: nat)
      requires p < q < |c| && forall i :: p < i <= q ==> KeyOf(getKey, c[i]) == Some(key)
      ensures Group(c[p + 2..], getKey, key) == c[p + 2..q + 1] + Group(c[q + 1..], getKey, key)
    {
      hide Group;
      GroupConcat(c[p + 2..q + 1], c[q + 1..], getKey, key);
      GroupUniform(c, p + 2, q + 1, getKey, key, true);
      assert c[p + 2..q + 1] + c[q + 1..] == c[p + 2..];
    }

    lemma {:induction false} FrontRun(key: K, p: nat, q: nat)
      requires Valid() && p < q < |chain| && GroupOf(key) == chain[p + 1..q + 1]
      requires forall i :: p < i <= q ==> KeyOf(getKey, chain[i]) == Some(key)
      ensures Group(Splice(chain, p, p + 1, []), getKey, key) == GroupOf(key)[1..]
    {
      hide Group;
      hide Splice;
      hide Valid;
      var c := chain;
      NoneElsewhere(key, p, q);
      GroupCut(c, p, p + 1, getKey, key);
      TailOfRun(c, getKey, key, p, q);
      assert c[p + 1..q + 1][1..] == c[p + 2..q + 1];
    }

    lemma {:induction false} FirstOutOfGroup(key: K, p: nat, q: nat, pos: Node<V>)
      requires Valid() && p < q < |chain| && GroupOf(key) == chain[p + 1..q + 1] && KeyOf(getKey, pos) == Some(key)
      requires forall i :: p < i <= q ==> KeyOf(getKey, chain[i]) == Some(key)
      ensures forall k :: Group(Splice(chain, p, p + 1, []), getKey, k)
                       == if k == key then Group(chain, getKey, k)[1..] else Group(chain, getKey, k)
      ensures pos in chain ==> (pos !in Splice(chain, p, p + 1, []) <==> GroupOf(key)[0] == pos)
      ensures GroupOf(key)[..1] == chain[p + 1..p + 2] && GroupOf(key)[0] == chain[p + 1]
      ensures |GroupOf(key)| > 1 ==> p + 2 < |chain| && GroupOf(key)[1] == chain[p + 2]
    {
      hide Group;
      var c, d := chain, Splice(chain, p, p + 1, []);
      forall k ensures Group(d, getKey, k) == if k == key then GroupOf(k)[1..] else GroupOf(k) {
        GroupSplit(c, p, p + 1, getKey, k);
        GroupCut(c, p, p + 1, getKey, k);
        GroupUniform(c, p + 1, p + 2, getKey, k, k == key);
        if k == key {
          FrontRun(key, p, q);
        } else {
          assert Group(c[..p + 1], getKey, k) + [] + Group(c[p + 2..], getKey, k) == Group(d, getKey, k);
        }
      }
      if pos in chain { OneOut(c, p, pos); }
    }

    /** erase(pos): cuts out the first node that has pos's key, chain[p + 1] before the call.  Only if that is pos
        itself does it return what was behind pos. */
    method EraseAt(pos: Node<V>) returns (next: Node?<V>, ghost p: nat)
      requires Valid() && pos in chain && pos.val.Some?
      modifies this`size, this`chain, this`deleted, buckets, chain
      ensures Valid() && old(GroupOf(NodeKey(pos))) != []
      ensures p + 1 < |old(chain)| && old(chain)[p + 1] == old(GroupOf(NodeKey(pos)))[0]
      ensures chain == Splice(old(chain), p, p + 1, []) && next == At(chain, p + 1)
      ensures deleted == old(deleted) + old(GroupOf(NodeKey(pos)))[..1]
      ensures forall k :: GroupOf(k) == if k == NodeKey(pos) then old(GroupOf(k))[1..] else old(GroupOf(k))
      ensures pos !in chain <==> old(GroupOf(NodeKey(pos)))[0] == pos
      ensures |old(GroupOf(NodeKey(pos)))| > 1 ==> next == old(GroupOf(NodeKey(pos)))[1]
      ensures next == old(pos.next) <==> old(GroupOf(NodeKey(pos)))[0] == pos
    {
      hide Coherent;
      hide Group;
      Facts();
      var key := NodeKey(pos);
      var b := Bucket(key);
      var before, node;
      before, node, p := FindNode(key);
      GroupMember(chain, getKey, key, pos);
      GroupEmpty(chain, getKey, key);
      ghost var q := RunEnd(key, chain, p);
      RunIsGroup(key, p, q);
      ghost var lo, hi := StretchInWindow(key, p, p + 1);
      ghost var c := chain;
      FirstOutOfGroup(key, p, q, pos);
      SameNext(pos, chain[p + 1]);
      NextFacts(p + 1);
      Behind(c, p);
      hide Splice;
      EraseNodes(b, before, node, 1, p, p + 1, lo, hi);
      next := before.next;
      NextFacts(p);
      forall k ensures GroupOf(k) == if k == key then Group(c, getKey, k)[1..] else Group(c, getKey, k) {
        assert GroupOf(k) == Group(Splice(c, p, p + 1, []), getKey, k);
      }
    }

    lemma {:induction false} SizeOfBag()
      requires Valid()
      ensures |Bag(chain)| == size
    {
      ElemsCut(chain, 1);
    }

    /** equals_unique: the lookup goes to this table, so other's elements never matter.  The answer is right exactly if
        the sizes differ or the contents are equal: tables of one size are always called equal. */
    method EqualsUnique(other: HashTable<K, V>) returns (r: bool)
      requires Valid() && other.Valid()
      requires forall k :: |GroupOf(k)| <= 1
      ensures r <==> size == other.size
      ensures (r <==> Bag(chain) == Bag(other.chain)) <==> size != other.size || Bag(chain) == Bag(other.chain)
    {
      SizeOfBag();
      other.SizeOfBag();
      hide Bag;
      if size != other.size {
        return false;
      }
      var node := head.next;
      ghost var i := 1;
      assert chain[0].next == At(chain, 1);
      while node != null
        invariant 1 <= i <= |chain| && node == At(chain, i)
        decreases |chain| - i
      {
        var key := NodeKey(node);
        var res := Find(key);
        GroupMember(chain, getKey, key, node);
        assert |GroupOf(key)| <= 1;
        if res == null || node.val != res.val {
          return false;
        }
        assert chain[i].next == At(chain, i + 1);
        node, i := node.next, i + 1;
      }
      return true;
    }
  }

  lemma {:induction false} NoGroups<K(!new), V>(head: Node<V>, getKey: V -> K)
    requires head.val.None?
    ensures forall k :: Group([head], getKey, k) == []
  {
  }

  /** A table of one value. */
  method OneValue<K(==, !new), V(==, !new)>(getKey: V -> K, hash: K -> nat, v: V)
    returns (t: HashTable<K, V>, n: Node<V>)
    ensures t.Valid() && t.getKey == getKey && fresh(t) && fresh(t.buckets) && t.size == 1
    ensures forall x :: x in t.chain ==> fresh(x)
    ensures Bag(t.chain) == multiset{v} && n.val == Some(v)
    ensures forall k :: t.GroupOf(k) == if k == getKey(v) then [n] else []
  {
    hide HashTable.Valid;
    hide Bag;
    t := new HashTable(MIN_BUCKETS, getKey, hash);
    ghost var c := t.chain;
    assert forall x :: x in c ==> x == t.head;
    NoGroups(t.head, getKey);
    var r, inserted := t.Insert(true, null, v);
    n := r;
    forall k ensures Group(t.chain, getKey, k) == if k == getKey(v) then [r] else [] {
      assert t.GroupOf(k) == t.GroupWith(Group(c, getKey, k), null, getKey(v), r, k);
    }
    BagOfOne(t.chain, r, getKey, v);
  }

  /** Two tables of one element each, called equal although the elements differ. */
  method EqualsUniqueMisses<K(==, !new), V(==, !new)>(getKey: V -> K, hash: K -> nat, v: V, w: V)
      returns (t: HashTable<K, V>, u: HashTable<K, V>, r: bool)
    requires v != w
    ensures t.Valid() && u.Valid() && Bag(t.chain) == multiset{v} && Bag(u.chain) == multiset{w}
    ensures Bag(t.chain) != Bag(u.chain)
    ensures r
  {
    hide HashTable.Valid;
    var n;
    t, n := OneValue(getKey, hash, v);
    u, n := OneValue(getKey, hash, w);
    assert forall k :: |t.GroupOf(k)| <= 1;
    assert v in multiset{v} && v !in multiset{w};
    r := t.EqualsUnique(u);
  }

  /** Two elements with one key: erasing the one that came first erases the other. */
  method EraseAtMisses<K(==, !new), V(==, !new)>(getKey: V -> K, hash: K -> nat, v: V, w: V)
      returns (t: HashTable<K, V>, pos: Node<V>, next: Node?<V>)
    requires getKey(v) == getKey(w)
    ensures t.Valid() && pos.val == Some(v) && t.GroupOf(getKey(v)) == [pos] && next == pos
  {
    hide HashTable.Valid;
    hide After;
    t, pos := OneValue(getKey, hash, v);
    ghost var k := getKey(v);
    assert t.GroupOf(k) == [pos];
    forall i | 0 <= i < |t.chain| ensures fresh(t.chain[i]) {
      assert t.chain[i] in t.chain;
    }
    var r, inserted := t.Insert(false, null, w);
    forall i | 0 <= i < |t.chain| ensures fresh(t.chain[i]) {
      assert t.chain[i] in t.chain;
    }
    assert t.GroupOf(k) == t.GroupWith([pos], null, k, r, k) == [r, pos];
    GroupMember(t.chain, getKey, k, pos);
    ghost var p;
    next, p := t.EraseAt(pos);
  }
}
