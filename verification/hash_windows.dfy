/** Bucket windows over the one chain of a hash table, as pure facts about
    sequences: c is the chain (c[0] the fake head), ix[i] the bucket number of
    c[i] (-1 for the head) and a window is a pair of nodes (before, finish]. */
module HashWindows {
  import opened SinglyList

  datatype HashNode<V> = HashNode(before: Node?<V>, finish: Node?<V>)
  {
    /** HashNode::insert_node */
    function Inserted(prev: Node<V>, last: Node<V>): HashNode<V> {
      if before == null then HashNode(prev, last)
      else if prev == finish then HashNode(before, last)
      else this
    }

    /** HashNode::erase_node */
    function Erased(prev: Node<V>, last: Node<V>): HashNode<V> {
      var f := if last == finish then prev else finish;
      if f == before then HashNode(null, null) else HashNode(before, f)
    }
  }

  ghost predicate WindowAt<V>(c: seq<Node<V>>, ix: seq<int>, h: HashNode<V>, b: int, lo: int, hi: int) {
    && |ix| == |c| && 0 <= lo < hi < |c|
    && h.before == c[lo] && h.finish == c[hi]
    && forall i :: 0 <= i < |ix| ==> (ix[i] == b <==> lo < i <= hi)
  }

  ghost predicate IsWindow<V>(c: seq<Node<V>>, ix: seq<int>, h: HashNode<V>, b: int) {
    (h.before == null && h.finish == null && b !in ix) || exists lo, hi :: WindowAt(c, ix, h, b, lo, hi)
  }

  /** Every bucket's entry is the window of exactly the nodes that hash to it. */
  ghost predicate Windows<V>(c: seq<Node<V>>, ix: seq<int>, bk: seq<HashNode<V>>) {
    && |ix| == |c|
    && forall b {:trigger IsWindow(c, ix, bk[b], b)} :: 0 <= b < |bk| ==> IsWindow(c, ix, bk[b], b)
  }

  function Rep(n: nat, b: int): (r: seq<int>)
    ensures |r| == n && forall i :: 0 <= i < n ==> r[i] == b
  {
    seq(n, _ => b)
  }

  /** p is a place after which a node of bucket b may be linked. */
  ghost predicate InsertSpot<V>(c: seq<Node<V>>, ix: seq<int>, h: HashNode<V>, b: int, p: int) {
    (h.before == null && p == 0) || exists lo, hi :: WindowAt(c, ix, h, b, lo, hi) && lo <= p <= hi
  }

  /** The bucket array after HashTable::insert_node has linked ns after c[p]. */
  function BucketsInserted<V>(c: seq<Node<V>>, ix: seq<int>, bk: seq<HashNode<V>>, b: nat, p: nat,
      last: Node<V>): seq<HashNode<V>>
    requires |ix| == |c| && p < |c| && b < |bk|
    requires forall i :: 0 < i < |ix| ==> 0 <= ix[i] < |bk|
  {
    var bk1 := bk[b := bk[b].Inserted(c[p], last)];
    if p + 1 < |c| && last == bk1[b].finish then bk1[ix[p + 1] := HashNode(last, bk1[ix[p + 1]].finish)] else bk1
  }

  lemma {:induction false} InsertOwnWindow<V>(c: seq<Node<V>>, ix: seq<int>, h: HashNode<V>, b: nat, p: nat,
      ns: seq<Node<V>>)
    requires Distinct(c) && IsWindow(c, ix, h, b) && InsertSpot(c, ix, h, b, p) && |ix| == |c|
    requires p < |c| && ns != []
    ensures IsWindow(Splice(c, p, p, ns), Splice(ix, p, p, Rep(|ns|, b)), h.Inserted(c[p], ns[|ns| - 1]), b)
  {
    var c', ix', n := Splice(c, p, p, ns), Splice(ix, p, p, Rep(|ns|, b)), |ns|;
    var h' := h.Inserted(c[p], ns[n - 1]);
    if h.before == null {
      assert WindowAt(c', ix', h', b, 0, n);
    } else {
      var lo, hi :| WindowAt(c, ix, h, b, lo, hi) && lo <= p <= hi;
      assert c[p] == h.finish <==> p == hi;
      assert c'[hi + n] == if p == hi then ns[n - 1] else c[hi];
      assert WindowAt(c', ix', h', b, lo, hi + n);
    }
  }

  lemma {:induction false} InsertOtherWindow<V>(c: seq<Node<V>>, ix: seq<int>, bk: seq<HashNode<V>>, b: nat, p: nat,
      ns: seq<Node<V>>, d: nat)
    requires Distinct(c) && Windows(c, ix, bk)
    requires p < |c| && ns != [] && b < |bk| && d < |bk| && d != b
    requires InsertSpot(c, ix, bk[b], b, p)
    requires forall i :: 0 < i < |ix| ==> 0 <= ix[i] < |bk|
    requires Distinct(Splice(c, p, p, ns))
    ensures IsWindow(Splice(c, p, p, ns), Splice(ix, p, p, Rep(|ns|, b)),
        BucketsInserted(c, ix, bk, b, p, ns[|ns| - 1])[d], d)
  {
    var c', ix', n := Splice(c, p, p, ns), Splice(ix, p, p, Rep(|ns|, b)), |ns|;
    var last := ns[n - 1];
    var h, own := bk[d], bk[b].Inserted(c[p], last);
    assert c'[p + n] == last;
    assert IsWindow(c, ix, h, d);
    if h.before == null && h.finish == null && d !in ix {
      assert d !in ix';
      if p + 1 < |c| { assert ix[p + 1] in ix; }
    } else {
      var lo, hi :| WindowAt(c, ix, h, d, lo, hi);
      if hi <= p {
        assert WindowAt(c', ix', h, d, lo, hi);
        if p + 1 < |c| { assert ix[p + 1] != d; }
      } else {
        assert (ix[p] == d <==> lo < p) && (ix[p + 1] == d <==> lo <= p);
        assert lo >= p;
        if lo == p {
          assert ix[p + 1] == d;
          assert own.finish == last by {
            if bk[b].before != null {
              var l, r :| WindowAt(c, ix, bk[b], b, l, r) && l <= p <= r;
              assert r == p;
            }
          }
          assert WindowAt(c', ix', HashNode(last, h.finish), d, p + n, hi + n);
        } else {
          assert WindowAt(c', ix', h, d, lo + n, hi + n);
          assert ix[p + 1] != d;
        }
      }
    }
  }

  /** The successor repair of an insertion never hits the bucket inserted into. */
  lemma {:induction false} OwnEntryKept<V>(c: seq<Node<V>>, ix: seq<int>, bk: seq<HashNode<V>>, b: nat, p: nat,
      ns: seq<Node<V>>)
    requires Distinct(c) && Windows(c, ix, bk)
    requires p < |c| && ns != [] && b < |bk|
    requires InsertSpot(c, ix, bk[b], b, p)
    requires forall i :: 0 < i < |ix| ==> 0 <= ix[i] < |bk|
    requires Distinct(Splice(c, p, p, ns))
    ensures BucketsInserted(c, ix, bk, b, p, ns[|ns| - 1])[b] == bk[b].Inserted(c[p], ns[|ns| - 1])
  {
    var c', last := Splice(c, p, p, ns), ns[|ns| - 1];
    if p + 1 < |c| && ix[p + 1] == b {
      assert IsWindow(c, ix, bk[b], b);
      var l, r :| WindowAt(c, ix, bk[b], b, l, r);
      assert l <= p < r;
      assert c'[r + |ns|] == c[r] && c'[p + |ns|] == last;
      assert c'[p] == c[p];
    }
  }

  lemma {:induction false} InsertKeepsWindows<V>(c: seq<Node<V>>, ix: seq<int>, bk: seq<HashNode<V>>, b: nat, p: nat,
      ns: seq<Node<V>>)
    requires Distinct(c) && Windows(c, ix, bk)
    requires p < |c| && ns != [] && b < |bk|
    requires InsertSpot(c, ix, bk[b], b, p)
    requires forall i :: 0 < i < |ix| ==> 0 <= ix[i] < |bk|
    requires Distinct(Splice(c, p, p, ns))
    ensures Windows(Splice(c, p, p, ns), Splice(ix, p, p, Rep(|ns|, b)), BucketsInserted(c, ix, bk, b, p, ns[|ns| - 1]))
  {
    var c', ix', n := Splice(c, p, p, ns), Splice(ix, p, p, Rep(|ns|, b)), |ns|;
    var bk' := BucketsInserted(c, ix, bk, b, p, ns[n - 1]);
    forall d | 0 <= d < |bk'| ensures IsWindow(c', ix', bk'[d], d) {
      if d == b {
        InsertOwnWindow(c, ix, bk[b], b, p, ns);
        OwnEntryKept(c, ix, bk, b, p, ns);
      } else {
        InsertOtherWindow(c, ix, bk, b, p, ns, d);
      }
    }
  }

  /** The bucket array after HashTable::erase_node has cut c[p+1..q+1] out. */
  function BucketsErased<V>(c: seq<Node<V>>, ix: seq<int>, bk: seq<HashNode<V>>, b: nat, p: nat,
      q: nat): seq<HashNode<V>>
    requires |ix| == |c| && p < q < |c| && b < |bk|
    requires forall i :: 0 < i < |ix| ==> 0 <= ix[i] < |bk|
  {
    var bk1 :=
        if q + 1 < |c| && c[q] == bk[b].finish then bk[ix[q + 1] := HashNode(c[p], bk[ix[q + 1]].finish)] else bk;
    bk1[b := bk1[b].Erased(c[p], c[q])]
  }

  lemma {:induction false} EraseOwnWindow<V>(c: seq<Node<V>>, ix: seq<int>, bk: seq<HashNode<V>>, b: nat, p: nat,
      q: nat, lo: nat, hi: nat)
    requires Distinct(c) && Windows(c, ix, bk)
    requires p < q < |c| && b < |bk|
    requires WindowAt(c, ix, bk[b], b, lo, hi) && lo <= p && q <= hi
    requires forall i :: 0 < i < |ix| ==> 0 <= ix[i] < |bk|
    ensures IsWindow(Splice(c, p, q, []), Splice(ix, p, q, []), BucketsErased(c, ix, bk, b, p, q)[b], b)
  {
    var c', ix', n := Splice(c, p, q, []), Splice(ix, p, q, []), q - p;
    var bk' := BucketsErased(c, ix, bk, b, p, q);
    assert c[q] == bk[b].finish <==> q == hi;
    assert q + 1 < |c| && q == hi ==> ix[q + 1] != b;
    assert bk'[b] == bk[b].Erased(c[p], c[q]);
    if p == lo && q == hi {
      assert b !in ix' by {
        forall i | 0 <= i < |ix'| ensures ix'[i] != b { assert ix'[i] == if i <= p then ix[i] else ix[i + n]; }
      }
    } else {
      assert WindowAt(c', ix', bk'[b], b, lo, hi - n);
    }
  }

  lemma {:induction false} EraseOtherWindow<V>(c: seq<Node<V>>, ix: seq<int>, bk: seq<HashNode<V>>, b: nat, p: nat,
      q: nat, lo: nat, hi: nat, d: nat)
    requires Distinct(c) && Windows(c, ix, bk)
    requires p < q < |c| && b < |bk| && d < |bk| && d != b
    requires WindowAt(c, ix, bk[b], b, lo, hi) && lo <= p && q <= hi
    requires forall i :: 0 < i < |ix| ==> 0 <= ix[i] < |bk|
    ensures IsWindow(Splice(c, p, q, []), Splice(ix, p, q, []), BucketsErased(c, ix, bk, b, p, q)[d], d)
  {
    var c', ix', n := Splice(c, p, q, []), Splice(ix, p, q, []), q - p;
    var bk' := BucketsErased(c, ix, bk, b, p, q);
    assert c[q] == bk[b].finish <==> q == hi;
    assert q + 1 < |c| && q == hi ==> ix[q + 1] != b;
    assert IsWindow(c, ix, bk[d], d);
    if bk[d].before == null && bk[d].finish == null && d !in ix {
      assert d !in ix';
      if q + 1 < |c| { assert ix[q + 1] in ix; }
    } else {
      var l, r :| WindowAt(c, ix, bk[d], d, l, r);
      var m := if l < p then p + 1 else l + 1;
      assert m <= q ==> ix[m] == b;
      assert r <= p || l >= q;
      if r <= p {
        assert WindowAt(c', ix', bk'[d], d, l, r);
      } else if l == q {
        assert ix[q + 1] == d;
        assert WindowAt(c', ix', bk'[d], d, p, r - n);
      } else {
        assert c'[l - n] == c[l];
        assert WindowAt(c', ix', bk'[d], d, l - n, r - n);
      }
    }
  }

  lemma {:induction false} EraseKeepsWindows<V>(c: seq<Node<V>>, ix: seq<int>, bk: seq<HashNode<V>>, b: nat, p: nat,
      q: nat, lo: nat, hi: nat)
    requires Distinct(c) && Windows(c, ix, bk)
    requires p < q < |c| && b < |bk|
    requires WindowAt(c, ix, bk[b], b, lo, hi) && lo <= p && q <= hi
    requires forall i :: 0 < i < |ix| ==> 0 <= ix[i] < |bk|
    ensures Windows(Splice(c, p, q, []), Splice(ix, p, q, []), BucketsErased(c, ix, bk, b, p, q))
  {
    forall d | 0 <= d < |bk|
      ensures IsWindow(Splice(c, p, q, []), Splice(ix, p, q, []), BucketsErased(c, ix, bk, b, p, q)[d], d)
    {
      if d == b {
        EraseOwnWindow(c, ix, bk, b, p, q, lo, hi);
      } else {
        EraseOtherWindow(c, ix, bk, b, p, q, lo, hi, d);
      }
    }
  }
}
