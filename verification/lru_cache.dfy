/** src/gtl/container/lru_cache.h: a hash index over an intrusive recency list. */
module LRUCaches {
  import opened Wrappers
  import opened SinglyList
  import opened DoublyList
  import opened SeqMoves
  import opened HashGroups
  import opened HashTables
  import opened LRUTraces

  /** What a list node stores; Set and the reference handed out by Get overwrite the value. */
  class Entry<K, W> {
    const key: K
    var value: W

    constructor (k: K, w: W)
      ensures key == k && value == w
    {
      key, value := k, w;
    }
  }

  datatype Result<T> = Found(value: T) | OutOfRange

  type LNode<K, W> = ListNode<Entry<K, W>>

  function First<K, W>(p: (K, LNode<K, W>)): K {
    p.0
  }

  predicate AllEntries<K, W>(s: seq<LNode<K, W>>) {
    forall i :: 0 <= i < |s| ==> s[i].val.Some?
  }

  function KeyAt<K, W>(s: seq<LNode<K, W>>, i: nat): K
    requires AllEntries(s) && i < |s|
  {
    s[i].val.value.key
  }

  ghost predicate DistinctKeys<K, W>(s: seq<LNode<K, W>>)
    requires AllEntries(s)
  {
    forall i, j {:trigger Pair(i, j)} :: Pair(i, j) && 0 <= i && j < |s| ==> KeyAt(s, i) != KeyAt(s, j)
  }

  /** The listed node of a key. */
  ghost function NodeOf<K, W>(s: seq<LNode<K, W>>, k: K): (r: Option<LNode<K, W>>)
    requires AllEntries(s)
    ensures r.Some? ==> r.value in s && r.value.val.Some? && r.value.val.value.key == k
  {
    if s == [] then None else if s[0].val.value.key == k then Some(s[0]) else NodeOf(s[1..], k)
  }

  /** The index entries of a key: one that leads to its node, or none. */
  ghost predicate Points<K, W>(g: seq<Node<(K, LNode<K, W>)>>, k: K, n: Option<LNode<K, W>>) {
    match n case None => g == [] case Some(x) => |g| == 1 && g[0].val == Some((k, x))
  }

  /** The abstract recency list. */
  ghost function Items<K, W>(s: seq<LNode<K, W>>): (r: seq<(K, W)>)
    requires AllEntries(s)
    reads set i | 0 <= i < |s| :: s[i].val.value
    ensures |r| == |s|
  {
    if s == [] then [] else [(s[0].val.value.key, s[0].val.value.value)] + Items(s[1..])
  }

  // The recency list on bare sequences

  lemma {:induction false} DistinctAt<K, W>(s: seq<LNode<K, W>>)
    requires AllEntries(s) && DistinctKeys(s)
    ensures forall i, j :: 0 <= i < j < |s| ==> KeyAt(s, i) != KeyAt(s, j)
  {
    forall i, j | 0 <= i < j < |s| ensures KeyAt(s, i) != KeyAt(s, j) {
      assert Pair(i, j);
    }
  }

  lemma {:induction false} DistinctTail<K, W>(s: seq<LNode<K, W>>)
    requires AllEntries(s) && DistinctKeys(s) && s != []
    ensures AllEntries(s[1..]) && DistinctKeys(s[1..])
    ensures forall i :: 0 <= i < |s| - 1 ==> KeyAt(s[1..], i) != KeyAt(s, 0)
  {
    DistinctAt(s);
    assert forall i :: 0 <= i < |s| - 1 ==> KeyAt(s[1..], i) == KeyAt(s, i + 1);
  }

  lemma {:induction false} NodeOfIs<K, W>(s: seq<LNode<K, W>>, k: K)
    requires AllEntries(s) && DistinctKeys(s)
    ensures NodeOf(s, k) == None <==> forall i :: 0 <= i < |s| ==> KeyAt(s, i) != k
    ensures forall i :: 0 <= i < |s| && KeyAt(s, i) == k ==> NodeOf(s, k) == Some(s[i])
    ensures NodeOf(s, k) != None ==> exists i :: 0 <= i < |s| && s[i] == NodeOf(s, k).value && KeyAt(s, i) == k
  {
    if s != [] {
      var t := s[1..];
      DistinctTail(s);
      NodeOfIs(t, k);
      assert forall i :: 0 <= i < |t| ==> t[i] == s[i + 1] && KeyAt(t, i) == KeyAt(s, i + 1);
      forall i | 0 <= i < |s| && KeyAt(s, i) == k ensures NodeOf(s, k) == Some(s[i]) {
        if i > 0 { assert KeyAt(t, i - 1) == k; }
      }
      if NodeOf(s, k) == None {
        forall i | 0 <= i < |s| ensures KeyAt(s, i) != k {
          if i > 0 { assert KeyAt(t, i - 1) != k; }
        }
      } else if KeyAt(s, 0) != k {
        var i :| 0 <= i < |t| && t[i] == NodeOf(t, k).value && KeyAt(t, i) == k;
        assert s[i + 1] == NodeOf(s, k).value && KeyAt(s, i + 1) == k;
      }
    }
  }

  /** Taking out position i changes the node of its key alone. */
  lemma {:induction false} CutNode<K, W>(s: seq<LNode<K, W>>, i: nat, k: K)
    requires AllEntries(s) && DistinctKeys(s) && i < |s|
    ensures AllEntries(Without(s, i)) && DistinctKeys(Without(s, i))
    ensures NodeOf(Without(s, i), k) == if k == KeyAt(s, i) then None else NodeOf(s, k)
  {
    var d := Without(s, i);
    DistinctAt(s);
    assert forall j :: 0 <= j < |d| ==> d[j] == s[if j < i then j else j + 1];
    assert forall j :: 0 <= j < |d| ==> KeyAt(d, j) == KeyAt(s, if j < i then j else j + 1);
    NodeOfIs(d, k);
    NodeOfIs(s, k);
    if k != KeyAt(s, i) && NodeOf(s, k) != None {
      var x :| 0 <= x < |s| && s[x] == NodeOf(s, k).value && KeyAt(s, x) == k;
      assert KeyAt(d, if x < i then x else x - 1) == k;
    }
  }

  /** Putting a node with a new key in front adds it and nothing else. */
  lemma {:induction false} PutNode<K, W>(s: seq<LNode<K, W>>, n: LNode<K, W>, k: K)
    requires AllEntries(s) && DistinctKeys(s) && n.val.Some? && NodeOf(s, n.val.value.key) == None
    ensures AllEntries([n] + s) && DistinctKeys([n] + s)
    ensures NodeOf([n] + s, k) == if k == n.val.value.key then Some(n) else NodeOf(s, k)
  {
    var d := [n] + s;
    NodeOfIs(s, n.val.value.key);
    DistinctAt(s);
    assert forall j :: 0 <= j < |s| ==> KeyAt(d, j + 1) == KeyAt(s, j);
    assert forall j :: 1 <= j < |d| ==> KeyAt(d, j) == KeyAt(s, j - 1);
    assert d[1..] == s;
  }

  lemma {:induction false} ItemsAre<K, W>(s: seq<LNode<K, W>>)
    requires AllEntries(s)
    ensures |Items(s)| == |s| && forall i :: 0 <= i < |s| ==> Items(s)[i] == (KeyAt(s, i), s[i].val.value.value)
  {
    if s != [] {
      ItemsAre(s[1..]);
      assert forall i :: 0 < i < |s| ==> s[i] == s[1..][i - 1];
    }
  }

  lemma {:induction false} ItemsOnce<K, W>(s: seq<LNode<K, W>>)
    requires AllEntries(s) && DistinctKeys(s)
    ensures KeysOnce(Items(s))
  {
    ItemsAre(s);
    DistinctAt(s);
  }

  lemma {:induction false} ItemsLookup<K, W>(s: seq<LNode<K, W>>, k: K)
    requires AllEntries(s)
    ensures Lookup(Items(s), k) == match NodeOf(s, k) case None => None case Some(n) => Some(n.val.value.value)
  {
    if s != [] {
      ItemsLookup(s[1..], k);
      var it := Items(s);
      assert it[0] == (KeyAt(s, 0), s[0].val.value.value) && it[1..] == Items(s[1..]);
    }
  }

  lemma {:induction false} ItemsDrop<K, W>(s: seq<LNode<K, W>>, i: nat)
    requires AllEntries(s) && DistinctKeys(s) && i < |s|
    ensures AllEntries(Without(s, i)) && Drop(Items(s), KeyAt(s, i)) == Items(Without(s, i))
  {
    var k, t := KeyAt(s, i), s[1..];
    DistinctTail(s);
    ItemsLookup(t, k);
    if i == 0 {
      NodeOfIs(t, k);
      ItemsOnce(t);
      DropLength(Items(t), k);
      assert Without(s, 0) == t;
    } else {
      assert KeyAt(t, i - 1) == k;
      ItemsDrop(t, i - 1);
      assert Without(s, i) == [s[0]] + Without(t, i - 1);
      assert ([s[0]] + Without(t, i - 1))[1..] == Without(t, i - 1);
    }
  }

  lemma {:induction false} RingCut<T>(h: T, s: seq<T>, i: nat)
    requires i < |s|
    ensures Without([h] + s + [h], i + 1) == [h] + Without(s, i) + [h]
    ensures ([h] + s + [h])[i + 1] == s[i]
  {
  }

  lemma {:induction false} RingFront<T>(h: T, s: seq<T>, x: T)
    ensures With([h] + s + [h], 1, x) == [h] + ([x] + s) + [h]
    ensures ([h] + s + [h])[1] == (if s == [] then h else s[0])
    ensures ([h] + s + [h])[|s|] == (if s == [] then h else s[|s| - 1])
  {
  }

  class LRUCache<K(==, !new), W> {
    const ht: HashTable<K, (K, LNode<K, W>)>
    const lru: LNode<K, W>
    const capacity: nat
    ghost var nodes: seq<LNode<K, W>>
    ghost var cells: set<LNode<K, W>>
    ghost var entries: set<Entry<K, W>>

    ghost function Ring(): seq<LNode<K, W>>
      reads this`nodes
    {
      [lru] + nodes + [lru]
    }

    /** The intrusive list, whatever the index says. */
    ghost predicate Linked()
      reads this`nodes, this`cells, cells
    {
      && lru.val.None? && AllEntries(nodes)
      && cells == {lru} + (set n | n in nodes)
      && Loop(Ring()) && RingLinked(Ring())
    }

    /** The index maps exactly the keys of s, each to its own node. */
    ghost predicate Indexed(s: seq<LNode<K, W>>)
      reads ht, ht.buckets, ht.chain
      requires AllEntries(s)
    {
      && ht.Valid() && ht.getKey == First<K, W> && ht.size == |s|
      && forall k :: Points(ht.GroupOf(k), k, NodeOf(s, k))
    }

    ghost predicate Shape()
      reads this, cells, ht, ht.buckets, ht.chain
    {
      && Linked() && DistinctKeys(nodes) && Indexed(nodes)
      && forall i :: 0 <= i < |nodes| ==> nodes[i].val.value in entries
    }

    ghost predicate Valid()
      reads this, cells, ht, ht.buckets, ht.chain
    {
      Shape() && |nodes| <= capacity
    }

    constructor (capacity: nat, hash: K -> nat)
      ensures Valid() && nodes == [] && this.capacity == capacity
      ensures fresh(ht) && fresh(ht.buckets) && fresh(cells) && fresh(entries)
      ensures forall j :: 0 <= j < |ht.chain| ==> fresh(ht.chain[j])
    {
      var h := new ListNode<Entry<K, W>>.Head();
      var t := new HashTable<K, (K, LNode<K, W>)>(0, First<K, W>, hash);
      ht, lru, this.capacity, nodes, cells, entries := t, h, capacity, [], {h}, {};
      new;
      forall k ensures Points(ht.GroupOf(k), k, NodeOf(nodes, k)) {
        assert ht.chain == [ht.head] && ht.head.val.None?;
        assert Group([], ht.getKey, k) == [] && [ht.head][1..] == [];
      }
    }

    lemma {:induction false} CutApart(i: nat)
      requires Linked() && i < |nodes|
      ensures nodes[i] != lru && nodes[i] !in Without(nodes, i)
    {
      var r, d := Ring(), Without(nodes, i);
      LoopDistinct(r);
      assert r[i + 1] == nodes[i] && r[0] == lru;
      forall j | 0 <= j < |d| ensures d[j] != nodes[i] {
        assert d[j] == r[if j < i then j + 1 else j + 2];
      }
    }

    lemma {:induction false} InCells(k: nat)
      requires Linked() && k < |Ring()|
      ensures Ring()[k] in cells
    {
      if 0 < k <= |nodes| { assert Ring()[k] == nodes[k - 1]; }
    }

    lemma {:induction false} CutFacts(i: nat)
      requires Linked() && i < |nodes|
      ensures Ring()[i] in cells && Ring()[i + 2] in cells && nodes[i] in cells && nodes[i] != lru
      ensures cells - {nodes[i]} == {lru} + (set n | n in Without(nodes, i))
      ensures AllEntries(Without(nodes, i))
    {
      hide RingLinked;
      var d := Without(nodes, i);
      InCells(i);
      InCells(i + 2);
      CutApart(i);
      assert forall j :: 0 <= j < |d| ==> d[j] == nodes[if j < i then j else j + 1];
      forall n | n in nodes && n != nodes[i] ensures n in d {
        WithoutElem(nodes, i, n);
      }
    }

    /** Remove(node) on the recency list. */
    method Detach(node: LNode<K, W>, ghost i: nat)
      requires Linked() && i < |nodes| && nodes[i] == node
      modifies this`nodes, this`cells, cells
      ensures Linked() && nodes == Without(old(nodes), i) && cells == old(cells) - {node} && node !in cells
    {
      hide Loop;
      hide RingLinked;
      CutFacts(i);
      RingCut(lru, nodes, i);
      ghost var r := Ring();
      nodes, cells := Without(nodes, i), cells - {node};
      var _ := Remove(node, r, i + 1);
    }

    lemma {:induction false} HeadFacts(node: LNode<K, W>)
      requires Linked() && node !in cells
      ensures lru.next == Ring()[1] && Ring()[0] in cells && Ring()[1] in cells && node !in Ring()
      ensures lru.prev == Ring()[|nodes|]
    {
      var r := Ring();
      assert r[0].next == r[1] && r[|nodes| + 1].prev == r[|nodes|];
      InCells(1);
    }

    /** AddToHead(&lru_, node) */
    method AddToHead(node: LNode<K, W>)
      requires Linked() && node !in cells && node.val.Some?
      modifies this`nodes, this`cells, cells, node
      ensures Linked() && nodes == [node] + old(nodes) && cells == old(cells) + {node}
    {
      hide Loop;
      hide RingLinked;
      HeadFacts(node);
      RingFront(lru, nodes, node);
      ghost var r := Ring();
      nodes, cells := [node] + nodes, cells + {node};
      InsertBefore(lru.next, node, r, 1);
    }

    /** FindListNode(key) */
    method FindListNode(key: K) returns (n: ListNode?<Entry<K, W>>)
      requires Shape()
      ensures n == null <==> NodeOf(nodes, key) == None
      ensures n != null ==> NodeOf(nodes, key) == Some(n)
    {
      hide Loop;
      hide RingLinked;
      assert Points(ht.GroupOf(key), key, NodeOf(nodes, key));
      var it := ht.Find(key);
      n := if it != null then it.val.value.1 else null;
    }

    lemma {:induction false} Entries()
      requires Valid()
      ensures AllEntries(nodes)
    {
    }

    /** Exists(key) */
    method Exists(key: K) returns (b: bool)
      requires Valid()
      ensures b <==> Lookup(Items(nodes), key) != None
    {
      ItemsLookup(nodes, key);
      var n := FindListNode(key);
      b := n != null;
    }

    /** Size() */
    method Size() returns (n: nat)
      requires Valid()
      ensures n == |Items(nodes)| && n <= capacity
    {
      ItemsAre(nodes);
      n := ht.size;
    }

    lemma {:induction false} EntriesOnly()
      requires Linked()
      ensures AllEntries(nodes)
    {
    }

    /** Remove(node); AddToHead(&lru_, node) */
    method MoveToHead(node: LNode<K, W>, ghost i: nat)
      requires Linked() && i < |nodes| && nodes[i] == node
      modifies this`nodes, this`cells, cells
      ensures Linked() && nodes == [node] + Without(old(nodes), i) && cells == old(cells)
    {
      hide Loop;
      hide RingLinked;
      CutFacts(i);
      Detach(node, i);
      AddToHead(node);
    }

    /** Moving a node to the front leaves the index as it is. */
    static lemma {:induction false} FrontFacts(s: seq<LNode<K, W>>, i: nat)
      requires AllEntries(s) && DistinctKeys(s) && i < |s|
      ensures AllEntries(Without(s, i)) && AllEntries([s[i]] + Without(s, i)) && DistinctKeys([s[i]] + Without(s, i))
      ensures forall k :: NodeOf([s[i]] + Without(s, i), k) == NodeOf(s, k)
      ensures Items([s[i]] + Without(s, i)) == ToFront(Items(s), KeyAt(s, i), s[i].val.value.value)
      ensures forall n :: n in Without(s, i) ==> n in s
    {
      var r := Without(s, i);
      forall k ensures NodeOf([s[i]] + r, k) == NodeOf(s, k) {
        CutNode(s, i, k);
        CutNode(s, i, KeyAt(s, i));
        PutNode(r, s[i], k);
        NodeOfIs(s, k);
      }
      CutNode(s, i, KeyAt(s, i));
      PutNode(r, s[i], KeyAt(s, i));
      ItemsDrop(s, i);
      assert ([s[i]] + r)[1..] == r;
    }

    /** Find(key): a listed node moves to the head. */
    method Find(key: K) returns (n: ListNode?<Entry<K, W>>)
      requires Shape()
      modifies this`nodes, this`cells, cells
      ensures Shape() && cells == old(cells) && |nodes| == |old(nodes)|
      ensures n == null <==> Lookup(old(Items(nodes)), key) == None
      ensures n == null ==> nodes == old(nodes)
      ensures n != null ==> nodes != [] && nodes[0] == n && KeyAt(nodes, 0) == key && n.val.value in old(entries)
      ensures n != null ==> Items(nodes) == ToFront(old(Items(nodes)), key, n.val.value.value)
      ensures n != null ==> Lookup(old(Items(nodes)), key) == Some(n.val.value.value)
    {
      hide Linked;
      hide NodeOf;
      hide Items;
      hide Drop;
      hide Lookup;
      hide Group;
      ghost var s := nodes;
      EntriesOnly();
      ItemsLookup(nodes, key);
      n := FindListNode(key);
      if n != null {
        NodeOfIs(nodes, key);
        ghost var i :| 0 <= i < |s| && s[i] == n && KeyAt(s, i) == key;
        FrontFacts(s, i);
        MoveToHead(n, i);
      }
    }

    lemma {:induction false} TailFacts()
      requires Shape()
      ensures ht.size == |nodes| == |Items(nodes)| && AllEntries(nodes) && KeysOnce(Items(nodes))
      ensures nodes != [] ==> lru.prev == nodes[|nodes| - 1]
    {
      ItemsAre(nodes);
      ItemsOnce(nodes);
      var r := Ring();
      assert r[|nodes| + 1].prev == r[|nodes|];
    }

    /** GetValue(key): out_of_range, or the entry whose value may then be read and written. */
    method Get(key: K) returns (r: Result<Entry<K, W>>)
      requires Valid()
      modifies this`nodes, this`cells, cells
      ensures Valid() && cells == old(cells)
      ensures Items(nodes) == Step(capacity, old(Items(nodes)), Op.Get(key))
      ensures r == OutOfRange <==> Lookup(old(Items(nodes)), key) == None
      ensures r.Found? ==> nodes != [] && nodes[0].val == Some(r.value) && r.value.key == key
      ensures r.Found? ==> Lookup(old(Items(nodes)), key) == Some(r.value.value)
      ensures var s := old(Items(nodes));
        && (forall i :: 0 <= i < |s| && s[i].0 == key ==>
            r.Found? && r.value.value == s[i].1 && Items(nodes) == [s[i]] + s[..i] + s[i + 1..])
        && ((forall i :: 0 <= i < |s| ==> s[i].0 != key) ==> r == OutOfRange && Items(nodes) == s)
    {
      hide Loop;
      hide RingLinked;
      hide Items;
      hide Drop;
      hide Lookup;
      TailFacts();
      GetMeans(capacity, Items(nodes), key);
      var n := Find(key);
      r := if n == null then OutOfRange else Found(n.val.value);
    }

    /** A fresh node at the head of the list; the index is not touched. */
    method LinkNew(node: LNode<K, W>)
      requires Linked() && node !in cells && node.val.Some? && Indexed(nodes)
      modifies this`nodes, this`cells, cells, node
      ensures Linked() && nodes == [node] + old(nodes) && cells == old(cells) + {node} && Indexed(old(nodes))
    {
      hide Loop;
      hide RingLinked;
      ghost var s := nodes;
      assert Indexed(s);
      AddToHead(node);
      assert Indexed(s);
    }

    lemma {:induction false} PutFront(s: seq<LNode<K, W>>, node: LNode<K, W>)
      requires AllEntries(s) && node.val.Some?
      ensures AllEntries([node] + s) && Items([node] + s) == [(node.val.value.key, node.val.value.value)] + Items(s)
    {
      assert ([node] + s)[1..] == s;
    }

    /** ht_.emplace(key, node) */
    method IndexNew(node: LNode<K, W>, ghost s: seq<LNode<K, W>>)
      requires AllEntries(s) && DistinctKeys(s) && Indexed(s) && node.val.Some? && NodeOf(s, node.val.value.key) == None
      modifies ht, ht.buckets, ht.chain
      ensures AllEntries([node] + s) && DistinctKeys([node] + s) && Indexed([node] + s)
      ensures fresh(ht.buckets) || ht.buckets == old(ht.buckets)
      ensures forall x :: x in ht.chain ==> x in old(ht.chain) || fresh(x)
    {
      hide HashTable.Valid;
      hide Group;
      hide NodeOf;
      var key := node.val.value.key;
      PutNode(s, node, key);
      assert Points(ht.GroupOf(key), key, NodeOf(s, key));
      var r, inserted := ht.Insert(false, null, (key, node));
      forall k ensures Points(ht.GroupOf(k), k, NodeOf([node] + s, k)) {
        PutNode(s, node, k);
        assert old(Points(ht.GroupOf(k), k, NodeOf(s, k)));
      }
    }

    /** The branch of Set for a new key, up to the capacity test. */
    method AddNew(key: K, value: W) returns (node: LNode<K, W>)
      requires Shape() && Lookup(Items(nodes), key) == None
      modifies this`nodes, this`cells, this`entries, cells, ht, ht.buckets, ht.chain
      ensures Shape() && nodes == [node] + old(nodes) && Items(nodes) == [(key, value)] + old(Items(nodes))
      ensures fresh(node) && node.val.Some? && fresh(node.val.value) && cells == old(cells) + {node}
      ensures entries == old(entries) + {node.val.value}
      ensures fresh(ht.buckets) || ht.buckets == old(ht.buckets)
      ensures forall x :: x in ht.chain ==> x in old(ht.chain) || fresh(x)
    {
      hide Linked;
      hide Indexed;
      hide NodeOf;
      hide Items;
      hide Lookup;
      ghost var s := nodes;
      EntriesOnly();
      ItemsLookup(s, key);
      var entry := new Entry(key, value);
      node := new ListNode<Entry<K, W>>(entry);
      LinkNew(node);
      entries := entries + {entry};
      IndexNew(node, s);
      PutFront(s, node);
      assert Linked();
      assert DistinctKeys(nodes);
      assert Indexed(nodes);
      assert forall i :: 0 <= i < |nodes| ==> i > 0 ==> nodes[i] == s[i - 1];
    }

    /** ht_.erase(key) */
    method IndexDrop(key: K, ghost s: seq<LNode<K, W>>, ghost i: nat)
      requires AllEntries(s) && DistinctKeys(s) && Indexed(s) && i < |s| && KeyAt(s, i) == key
      modifies ht, ht.buckets, ht.chain
      ensures AllEntries(Without(s, i)) && Indexed(Without(s, i)) && ht.buckets == old(ht.buckets)
      ensures forall x :: x in ht.chain ==> x in old(ht.chain)
    {
      hide HashTable.Valid;
      hide Group;
      hide NodeOf;
      CutNode(s, i, key);
      NodeOfIs(s, key);
      assert Points(ht.GroupOf(key), key, NodeOf(s, key));
      var n := ht.Erase(key);
      forall k ensures Points(ht.GroupOf(k), k, NodeOf(Without(s, i), k)) {
        CutNode(s, i, k);
        assert old(Points(ht.GroupOf(k), k, NodeOf(s, k)));
      }
    }

    /** DestroyNode(node) for the node at position i. */
    method DestroyNode(node: LNode<K, W>, ghost i: nat)
      requires Shape() && i < |nodes| && nodes[i] == node
      modifies this`nodes, this`cells, cells, ht, ht.buckets, ht.chain
      ensures Shape() && nodes == Without(old(nodes), i) && cells == old(cells) - {node}
      ensures ht.buckets == old(ht.buckets)
      ensures forall x :: x in ht.chain ==> x in old(ht.chain)
    {
      hide Loop;
      hide RingLinked;
      hide Group;
      ghost var s := nodes;
      CutFacts(i);
      CutNode(s, i, node.val.value.key);
      IndexDrop(node.val.value.key, s, i);
      Detach(node, i);
      assert Linked();
      assert DistinctKeys(nodes);
      assert Indexed(nodes);
      assert forall n :: n in Without(s, i) ==> n in s;
    }

    /** Writing through the front entry changes the front item alone. */
    method Overwrite(node: LNode<K, W>, value: W)
      requires Shape() && nodes != [] && nodes[0] == node
      modifies node.val.value
      ensures Shape() && Items(nodes) == [(KeyAt(nodes, 0), value)] + old(Items(nodes))[1..]
    {
      hide Loop;
      hide RingLinked;
      hide Group;
      ghost var t := nodes[1..];
      DistinctTail(nodes);
      forall i | 0 <= i < |t| ensures t[i].val.value != node.val.value {
        assert KeyAt(t, i) != KeyAt(nodes, 0);
      }
      ghost var was := Items(t);
      assert Items(nodes)[1..] == was;
      node.val.value.value := value;
      assert Items(t) == was;
    }

    lemma {:induction false} ItemsShort(s: seq<LNode<K, W>>)
      requires AllEntries(s) && s != []
      ensures AllEntries(Without(s, |s| - 1)) && Items(Without(s, |s| - 1)) == Items(s)[..|s| - 1]
    {
      ItemsAre(s);
      ItemsAre(Without(s, |s| - 1));
    }

    /** if (Size() > Capacity()) DestroyNode(lru_.prev) */
    method Evict()
      requires Shape() && nodes != [] && |nodes| <= capacity + 1
      modifies this`nodes, this`cells, cells, ht, ht.buckets, ht.chain
      ensures Valid() && Items(nodes) == Upto(capacity, old(Items(nodes)))
      ensures cells <= old(cells) && (capacity > 0 ==> nodes != [] && nodes[0] == old(nodes[0]))
      ensures ht.buckets == old(ht.buckets)
      ensures forall x :: x in ht.chain ==> x in old(ht.chain)
    {
      hide Shape;
      hide Items;
      TailFacts();
      if ht.size > capacity {
        ItemsShort(nodes);
        DestroyNode(lru.prev, |nodes| - 1);
      }
      TailFacts();
    }

    /** Set(key, value): overwrite and move to the head, or add at the head and evict the tail when over capacity. */
    method Set(key: K, value: W) returns (node: LNode<K, W>)
      requires Valid()
      modifies this`nodes, this`cells, this`entries, cells, entries, ht, ht.buckets, ht.chain
      ensures Valid() && Items(nodes) == Step(capacity, old(Items(nodes)), Op.Set(key, value))
      ensures capacity > 0 ==> nodes != [] && nodes[0] == node
      ensures var s := old(Items(nodes));
        && (forall i :: 0 <= i < |s| && s[i].0 == key ==> Items(nodes) == [(key, value)] + s[..i] + s[i + 1..])
        && ((forall i :: 0 <= i < |s| ==> s[i].0 != key) ==>
            Items(nodes)
            == if |s| < capacity then [(key, value)] + s
               else if capacity == 0 then [] else [(key, value)] + s[..|s| - 1])
      ensures forall c :: c in cells ==> c in old(cells) || fresh(c)
      ensures forall e :: e in entries ==> e in old(entries) || fresh(e)
      ensures fresh(ht.buckets) || ht.buckets == old(ht.buckets)
      ensures forall x :: x in ht.chain ==> x in old(ht.chain) || fresh(x)
    {
      hide Shape;
      hide Items;
      hide Drop;
      hide Lookup;
      hide Step;
      TailFacts();
      SetCases(capacity, Items(nodes), key, value);
      SetMeans(capacity, Items(nodes), key, value);
      var n := Find(key);
      if n != null {
        Overwrite(n, value);
        node := n;
      } else {
        node := AddNew(key, value);
        assert forall i :: 0 <= i < |ht.chain| ==> ht.chain[i] in old(ht.chain) || fresh(ht.chain[i]);
        Evict();
      }
      TailFacts();
    }
  }

  lemma {:induction false} StartOfRun<K(!new), W>(c: LRUCache<K, W>, ops: seq<Op<K, W>>)
    requires c.Valid() && c.nodes == []
    ensures Items(c.nodes) == Run(c.capacity, ops[..0])
  {
  }

  lemma {:induction false} RunSnoc<K, W>(capacity: nat, ops: seq<Op<K, W>>, i: nat)
    requires i < |ops|
    ensures Run(capacity, ops[..i + 1]) == Step(capacity, Run(capacity, ops[..i]), ops[i])
  {
    assert ops[..i + 1][..i] == ops[..i];
  }

  /** Any run of Set and Get on a fresh cache ends with the list that Run describes. */
  method RunOnFresh<K(==, !new), W>(capacity: nat, hash: K -> nat, ops: seq<Op<K, W>>) returns (c: LRUCache<K, W>)
    ensures fresh(c) && c.Valid() && c.capacity == capacity && Items(c.nodes) == Run(capacity, ops)
  {
    hide *;
    c := new LRUCache<K, W>(capacity, hash);
    c.Entries();
    StartOfRun(c, ops);
    var i := 0;
    while i < |ops|
      invariant 0 <= i <= |ops| && fresh(c) && fresh(c.ht) && fresh(c.ht.buckets) && c.capacity == capacity
      invariant fresh(c.cells) && fresh(c.entries) && forall j :: 0 <= j < |c.ht.chain| ==> fresh(c.ht.chain[j])
      invariant c.Valid() && AllEntries(c.nodes) && Items(c.nodes) == Run(capacity, ops[..i])
    {
      RunSnoc(capacity, ops, i);
      match ops[i] {
        case Set(k, w) =>
          var _ := c.Set(k, w);
          assert forall j :: 0 <= j < |c.ht.chain| ==> c.ht.chain[j] in c.ht.chain;
        case Get(k) => var _ := c.Get(k);
      }
      i := i + 1;
      c.Entries();
    }
    assert ops[..i] == ops;
  }
}
