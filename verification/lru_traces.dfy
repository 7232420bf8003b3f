/** What an LRU cache computes: its entries, most recent first, over whole runs
    of Set and Get. */
module LRUTraces {
  import opened Wrappers

  datatype Op<K, W> = Set(key: K, value: W) | Get(key: K)

  function Upto<T>(n: nat, s: seq<T>): seq<T> {
    if n < |s| then s[..n] else s
  }

  function Drop<K(==), W>(s: seq<(K, W)>, k: K): seq<(K, W)> {
    if s == [] then [] else if s[0].0 == k then Drop(s[1..], k) else [s[0]] + Drop(s[1..], k)
  }

  function Lookup<K(==), W>(s: seq<(K, W)>, k: K): Option<W> {
    if s == [] then None else if s[0].0 == k then Some(s[0].1) else Lookup(s[1..], k)
  }

  ghost predicate KeysOnce<K, W>(s: seq<(K, W)>) {
    forall i, j :: 0 <= i < j < |s| ==> s[i].0 != s[j].0
  }

  function ToFront<K(==), W>(s: seq<(K, W)>, k: K, w: W): seq<(K, W)> {
    [(k, w)] + Drop(s, k)
  }

  function Step<K(==), W>(cap: nat, s: seq<(K, W)>, op: Op<K, W>): seq<(K, W)> {
    match op
    case Set(k, w) => Upto(cap, ToFront(s, k, w))
    case Get(k) => match Lookup(s, k) case None => s case Some(w) => ToFront(s, k, w)
  }

  function Run<K(==), W>(cap: nat, ops: seq<Op<K, W>>): seq<(K, W)> {
    if ops == [] then [] else Step(cap, Run(cap, ops[..|ops| - 1]), ops[|ops| - 1])
  }

  // Facts about Drop and Lookup

  lemma {:induction false} LookupMember<K, W>(s: seq<(K, W)>, k: K)
    ensures Lookup(s, k) != None <==> exists i :: 0 <= i < |s| && s[i].0 == k
    ensures Lookup(s, k) != None ==> (k, Lookup(s, k).value) in s
  {
    if s != [] {
      LookupMember(s[1..], k);
      if Lookup(s[1..], k) != None {
        var i :| 0 <= i < |s[1..]| && s[1..][i].0 == k;
        assert s[i + 1].0 == k;
      }
      if exists i :: 0 <= i < |s| && s[i].0 == k {
        var i :| 0 <= i < |s| && s[i].0 == k;
        if i > 0 { assert s[1..][i - 1].0 == k; }
      }
    }
  }

  lemma {:induction false} NotInTail<K, W>(s: seq<(K, W)>)
    requires KeysOnce(s) && s != []
    ensures KeysOnce(s[1..]) && Lookup(s[1..], s[0].0) == None
  {
    LookupMember(s[1..], s[0].0);
  }

  lemma {:induction false} DropLength<K, W>(s: seq<(K, W)>, k: K)
    requires KeysOnce(s)
    ensures Lookup(s, k) == None ==> Drop(s, k) == s
    ensures Lookup(s, k) != None ==> |Drop(s, k)| == |s| - 1
    ensures |Drop(s, k)| <= |s|
  {
    if s != [] {
      DropLength(s[1..], k);
      if s[0].0 == k {
        NotInTail(s);
      }
    }
  }

  lemma {:induction false} DropOnce<K, W>(s: seq<(K, W)>, k: K)
    requires KeysOnce(s)
    ensures KeysOnce(Drop(s, k)) && forall i :: 0 <= i < |Drop(s, k)| ==> Drop(s, k)[i].0 != k && Drop(s, k)[i] in s
  {
    if s != [] {
      var d := Drop(s[1..], k);
      DropOnce(s[1..], k);
      forall i | 0 <= i < |d| ensures d[i].0 != s[0].0 && d[i] in s {
        var x :| 0 <= x < |s[1..]| && s[1..][x] == d[i];
        assert s[x + 1] == d[i];
      }
    }
  }

  lemma {:induction false} LookupIs<K, W>(s: seq<(K, W)>, i: nat)
    requires KeysOnce(s) && i < |s|
    ensures Lookup(s, s[i].0) == Some(s[i].1)
  {
    if i > 0 {
      LookupIs(s[1..], i - 1);
    }
  }

  lemma {:induction false} LookupDrop<K, W>(s: seq<(K, W)>, k: K, j: K)
    ensures Lookup(Drop(s, k), j) == if j == k then None else Lookup(s, j)
  {
    if s != [] {
      LookupDrop(s[1..], k, j);
    }
  }

  lemma {:induction false} ToFrontOnce<K, W>(s: seq<(K, W)>, k: K, w: W)
    requires KeysOnce(s)
    ensures KeysOnce(ToFront(s, k, w))
  {
    hide Drop;
    DropOnce(s, k);
    var d := Drop(s, k);
    assert forall i :: 0 <= i < |d| ==> ToFront(s, k, w)[i + 1] == d[i];
  }

  lemma {:induction false} StepOnce<K, W>(cap: nat, s: seq<(K, W)>, op: Op<K, W>)
    requires KeysOnce(s) && |s| <= cap
    ensures KeysOnce(Step(cap, s, op)) && |Step(cap, s, op)| <= cap
  {
    match op
    case Set(k, w) => ToFrontOnce(s, k, w);
    case Get(k) =>
      match Lookup(s, k)
      case None =>
      case Some(w) => ToFrontOnce(s, k, w); DropLength(s, k);
  }

  /** Every key is listed once, and never more of them than the capacity. */
  lemma {:induction false} RunOnce<K, W>(cap: nat, ops: seq<Op<K, W>>)
    ensures KeysOnce(Run(cap, ops)) && |Run(cap, ops)| <= cap
  {
    if ops != [] {
      RunOnce(cap, ops[..|ops| - 1]);
      StepOnce(cap, Run(cap, ops[..|ops| - 1]), ops[|ops| - 1]);
    }
  }

  /** Set in two cases: a listed key moves to the front; a new one goes in front and may push the last entry out. */
  lemma {:induction false} SetCases<K, W>(cap: nat, s: seq<(K, W)>, k: K, w: W)
    requires KeysOnce(s) && |s| <= cap
    ensures Lookup(s, k) != None ==> Step(cap, s, Set(k, w)) == [(k, w)] + Drop(s, k) && |Drop(s, k)| + 1 == |s|
    ensures Lookup(s, k) == None && |s| < cap ==> Step(cap, s, Set(k, w)) == [(k, w)] + s
    ensures Lookup(s, k) == None && |s| == cap ==> Step(cap, s, Set(k, w)) == ([(k, w)] + s)[..|s|]
  {
    DropLength(s, k);
  }

  lemma {:induction false} DropIs<K, W>(s: seq<(K, W)>, i: nat)
    requires KeysOnce(s) && i < |s|
    ensures Drop(s, s[i].0) == s[..i] + s[i + 1..]
  {
    var t := s[1..];
    if i > 0 {
      DropIs(t, i - 1);
      assert [s[0]] + (t[..i - 1] + t[i..]) == s[..i] + s[i + 1..];
    } else {
      NotInTail(s);
      DropLength(t, s[0].0);
    }
  }

  /** Set without the functions above: a listed key moves to the front with its new value; a new one goes in front, and
      with a full cache the last entry goes. */
  lemma {:induction false} SetMeans<K, W>(cap: nat, s: seq<(K, W)>, k: K, w: W)
    requires KeysOnce(s) && |s| <= cap
    ensures forall i :: 0 <= i < |s| && s[i].0 == k ==> Step(cap, s, Set(k, w)) == [(k, w)] + s[..i] + s[i + 1..]
    ensures (forall i :: 0 <= i < |s| ==> s[i].0 != k) ==>
              Step(cap, s, Set(k, w))
              == if |s| < cap then [(k, w)] + s else if cap == 0 then [] else [(k, w)] + s[..|s| - 1]
  {
    hide Step;
    hide Drop;
    hide Lookup;
    LookupMember(s, k);
    SetCases(cap, s, k, w);
    forall i | 0 <= i < |s| && s[i].0 == k ensures Step(cap, s, Set(k, w)) == [(k, w)] + s[..i] + s[i + 1..] {
      DropIs(s, i);
      assert [(k, w)] + (s[..i] + s[i + 1..]) == [(k, w)] + s[..i] + s[i + 1..];
    }
    if |s| == cap > 0 {
      assert ([(k, w)] + s)[..cap] == [(k, w)] + s[..cap - 1];
    }
  }

  /** Get: the entry found moves to the front as it is. */
  lemma {:induction false} GetMeans<K, W>(cap: nat, s: seq<(K, W)>, k: K)
    requires KeysOnce(s) && |s| <= cap
    ensures forall i :: 0 <= i < |s| && s[i].0 == k ==>
              Step(cap, s, Get(k)) == [s[i]] + s[..i] + s[i + 1..] && Lookup(s, k) == Some(s[i].1)
    ensures (forall i :: 0 <= i < |s| ==> s[i].0 != k) ==> Step(cap, s, Get(k)) == s && Lookup(s, k) == None
  {
    LookupMember(s, k);
    forall i | 0 <= i < |s| && s[i].0 == k
      ensures Step(cap, s, Get(k)) == [s[i]] + s[..i] + s[i + 1..] && Lookup(s, k) == Some(s[i].1)
    {
      LookupIs(s, i);
      DropIs(s, i);
      assert s[i] == (k, s[i].1);
      assert [s[i]] + (s[..i] + s[i + 1..]) == [s[i]] + s[..i] + s[i + 1..];
    }
  }

  lemma {:induction false} UptoCons<T>(n: nat, x: T, a: seq<T>)
    requires n > 0
    ensures Upto(n, [x] + a) == [x] + Upto(n - 1, a)
  {
  }

  lemma {:induction false} LookupPrefix<K, W>(s: seq<(K, W)>, n: nat, k: K)
    requires n <= |s| && Lookup(s, k) == None
    ensures Lookup(s[..n], k) == None
  {
    LookupMember(s, k);
    LookupMember(s[..n], k);
  }

  // Inclusion

  lemma {:induction false} DropUpto<K, W>(n: nat, s: seq<(K, W)>, k: K)
    requires KeysOnce(s)
    ensures Upto(n, Drop(Upto(n + 1, s), k)) == Upto(n, Drop(s, k))
  {
    if |s| > n + 1 {
      var t := s[..n + 1];
      assert t[1..] == s[1..][..n];
      if s[0].0 == k {
        NotInTail(s);
        assert Lookup(t[1..], k) == None by { LookupPrefix(s[1..], n, k); }
        DropLength(s[1..], k);
        DropLength(t[1..], k);
      } else if n > 0 {
        DropUpto(n - 1, s[1..], k);
        var a, b := Drop(t[1..], k), Drop(s[1..], k);
        assert Upto(n - 1, a) == Upto(n - 1, b);
        UptoCons(n, s[0], a);
        UptoCons(n, s[0], b);
      }
    }
  }

  lemma {:induction false} ToFrontUpto<K, W>(c: nat, s: seq<(K, W)>, k: K, w: W)
    requires KeysOnce(s)
    ensures Upto(c, ToFront(Upto(c, s), k, w)) == Upto(c, ToFront(s, k, w))
  {
    if c > 0 {
      UptoCons(c, (k, w), Drop(Upto(c, s), k));
      UptoCons(c, (k, w), Drop(s, k));
      DropUpto(c - 1, s, k);
    }
  }

  lemma {:induction false} UptoUpto<T>(c: nat, d: nat, s: seq<T>)
    requires c <= d
    ensures Upto(c, Upto(d, s)) == Upto(c, s)
  {
  }

  /** One Set keeps the smaller cache a prefix of the larger one. */
  lemma {:induction false} SetKeepsInclusion<K, W>(c: nat, d: nat, s: seq<(K, W)>, k: K, w: W)
    requires c <= d && KeysOnce(s)
    ensures Step(c, Upto(c, s), Set(k, w)) == Upto(c, Step(d, s, Set(k, w)))
  {
    ToFrontUpto(c, s, k, w);
    UptoUpto(c, d, ToFront(s, k, w));
  }

  /** The stack property: after the same Sets the smaller cache holds the first c entries of the larger one. */
  lemma {:induction false} Inclusion<K, W>(c: nat, d: nat, ops: seq<Op<K, W>>)
    requires c <= d && forall i :: 0 <= i < |ops| ==> ops[i].Set?
    ensures Run(c, ops) == Upto(c, Run(d, ops))
  {
    if ops != [] {
      var before, op := ops[..|ops| - 1], ops[|ops| - 1];
      Inclusion(c, d, before);
      RunOnce(d, before);
      SetKeepsInclusion(c, d, Run(d, before), op.key, op.value);
    }
  }

  lemma {:induction false} SameLookup<K, W>(s: seq<(K, W)>, c: nat, k: K)
    requires KeysOnce(s) && Lookup(Upto(c, s), k) != None
    ensures Lookup(Upto(c, s), k) == Lookup(s, k)
  {
    var t := Upto(c, s);
    LookupMember(t, k);
    var i :| 0 <= i < |t| && t[i].0 == k;
    LookupIs(t, i);
    LookupIs(s, i);
  }

  /** A Get keeps the prefix relation exactly when it does not hit in the larger cache alone. */
  lemma {:induction false} GetKeepsInclusion<K, W>(c: nat, s: seq<(K, W)>, k: K)
    requires KeysOnce(s)
    ensures Step(c, Upto(c, s), Get(k)) == Upto(c, Step(|s|, s, Get(k)))
       <==> c == 0 || Lookup(Upto(c, s), k) != None || Lookup(s, k) == None
  {
    var t := Upto(c, s);
    LookupMember(s, k);
    LookupMember(t, k);
    if c > 0 && Lookup(s, k) != None {
      var w := Lookup(s, k).value;
      if Lookup(t, k) != None {
        SameLookup(s, c, k);
        assert KeysOnce(t);
        DropLength(t, k);
        ToFrontUpto(c, s, k, w);
      } else {
        UptoCons(c, (k, w), Drop(s, k));
        assert Upto(c, ToFront(s, k, w))[0].0 == k;
        assert t[0].0 != k;
      }
    }
  }

  /** Operation i is a Get that hits in the larger cache and misses in the smaller one. */
  ghost predicate LoneHit<K, W>(c: nat, d: nat, ops: seq<Op<K, W>>, i: nat)
    requires i < |ops|
  {
    ops[i].Get? && Lookup(Run(d, ops[..i]), ops[i].key) != None && Lookup(Run(c, ops[..i]), ops[i].key) == None
  }

  ghost predicate Included<K, W>(c: nat, d: nat, ops: seq<Op<K, W>>, n: nat)
    requires n <= |ops|
  {
    Run(c, ops[..n]) == Upto(c, Run(d, ops[..n]))
  }

  lemma {:induction false} IncludedNext<K, W>(c: nat, d: nat, ops: seq<Op<K, W>>, i: nat)
    requires 0 < c <= d && i < |ops| && Included(c, d, ops, i)
    ensures Included(c, d, ops, i + 1) <==> !LoneHit(c, d, ops, i)
  {
    var s := Run(d, ops[..i]);
    assert ops[..i + 1][..i] == ops[..i];
    RunOnce(d, ops[..i]);
    match ops[i]
    case Set(k, w) => SetKeepsInclusion(c, d, s, k, w);
    case Get(k) => GetKeepsInclusion(c, s, k);
  }

  lemma {:induction false} IncludedUpTo<K, W>(c: nat, d: nat, ops: seq<Op<K, W>>, n: nat)
    requires 0 < c <= d && n <= |ops| && forall i :: 0 <= i < n ==> !LoneHit(c, d, ops, i)
    ensures Included(c, d, ops, n)
  {
    hide LoneHit;
    if n > 0 {
      IncludedUpTo(c, d, ops, n - 1);
      IncludedNext(c, d, ops, n - 1);
    }
  }

  /** With Gets in the run: the smaller cache holds the first entries of the larger one throughout, exactly if no Get
      hits in the larger cache alone. */
  lemma {:induction false} MixedInclusion<K, W>(c: nat, d: nat, ops: seq<Op<K, W>>)
    requires 0 < c <= d
    ensures (forall n :: 0 <= n <= |ops| ==> Included(c, d, ops, n)) <==>
        (forall i :: 0 <= i < |ops| ==> !LoneHit(c, d, ops, i))
  {
    hide LoneHit;
    hide Included;
    if forall n :: 0 <= n <= |ops| ==> Included(c, d, ops, n) {
      forall i | 0 <= i < |ops| ensures !LoneHit(c, d, ops, i) {
        assert Included(c, d, ops, i) && Included(c, d, ops, i + 1);
        IncludedNext(c, d, ops, i);
      }
    }
    if forall i :: 0 <= i < |ops| ==> !LoneHit(c, d, ops, i) {
      forall n | 0 <= n <= |ops| ensures Included(c, d, ops, n) {
        IncludedUpTo(c, d, ops, n);
      }
    }
  }

  /** With Get in the trace inclusion fails: two keys, then a Get of the older one. */
  lemma {:induction false} MixedRunsBreakInclusion()
    ensures var ops := [Set(1, 10), Set(2, 20), Get(1)];
      Run(1, ops) == [(2, 20)] && Run(2, ops) == [(1, 10), (2, 20)]
  {
    var ops: seq<Op<int, int>> := [Set(1, 10), Set(2, 20), Get(1)];
    var o1, o2 := [Set(1, 10)], [Set(1, 10), Set(2, 20)];
    assert ops[..2] == o2 && o2[..1] == o1 && o1[..0] == [];
    assert Run(1, o1) == [(1, 10)] && Run(2, o1) == [(1, 10)];
    assert Drop([(1, 10)], 2) == [(1, 10)] + Drop([], 2);
    assert Run(1, o2) == [(2, 20)] && Run(2, o2) == [(2, 20), (1, 10)];
    assert [(2, 20), (1, 10)][1..] == [(1, 10)] && [(1, 10)][1..] == [];
    assert Drop([(2, 20), (1, 10)], 1) == [(2, 20)];
  }

  // Recency

  /** The operations that touch the cache: every Set, and each Get that hits. */
  function Touches<K(==), W>(cap: nat, ops: seq<Op<K, W>>): seq<Op<K, W>> {
    if ops == [] then []
    else
      var before, op := ops[..|ops| - 1], ops[|ops| - 1];
      Touches(cap, before) + if op.Get? && Lookup(Run(cap, before), op.key) == None then [] else [op]
  }

  /** The value a touch leaves: what the last Set of the key stored. */
  function LastSet<K(==), W>(ts: seq<Op<K, W>>, k: K): Option<W> {
    if ts == [] then None
    else
      var t := ts[|ts| - 1];
      if t.Set? && t.key == k then Some(t.value) else LastSet(ts[..|ts| - 1], k)
  }

  /** The last position that touches k, -1 if none does. */
  function LastTouch<K(==), W>(ts: seq<Op<K, W>>, k: K): (i: int)
    ensures -1 <= i < |ts|
    ensures i >= 0 ==> ts[i].key == k
    ensures forall j :: i < j < |ts| ==> ts[j].key != k
  {
    if ts == [] then -1
    else if ts[|ts| - 1].key == k then |ts| - 1
    else LastTouch(ts[..|ts| - 1], k)
  }

  /** s lists the distinct touched keys, latest touch first, each with its last stored value. */
  ghost predicate ByRecency<K(!new), W>(s: seq<(K, W)>, ts: seq<Op<K, W>>) {
    && (forall i, j :: 0 <= i < j < |s| ==> LastTouch(ts, s[i].0) > LastTouch(ts, s[j].0))
    && (forall i :: 0 <= i < |s| ==> LastTouch(ts, s[i].0) >= 0 && LastSet(ts, s[i].0) == Some(s[i].1))
    && (forall k :: LastTouch(ts, k) >= 0 ==> Lookup(s, k) != None)
  }

  lemma {:induction false} TouchStep<K(!new), W>(ts: seq<Op<K, W>>, op: Op<K, W>)
    ensures LastTouch(ts + [op], op.key) == |ts|
    ensures forall j :: j != op.key ==>
              LastTouch(ts + [op], j) == LastTouch(ts, j) && LastSet(ts + [op], j) == LastSet(ts, j)
    ensures LastSet(ts + [op], op.key) == if op.Set? then Some(op.value) else LastSet(ts, op.key)
  {
    assert (ts + [op])[..|ts|] == ts;
  }

  lemma {:induction false} DropOrder<K, W>(s: seq<(K, W)>, ts: seq<Op<K, W>>, k: K)
    requires forall i, j :: 0 <= i < j < |s| ==> LastTouch(ts, s[i].0) > LastTouch(ts, s[j].0)
    ensures forall i, j :: 0 <= i < j < |Drop(s, k)| ==> LastTouch(ts, Drop(s, k)[i].0) > LastTouch(ts, Drop(s, k)[j].0)
    ensures forall e :: e in Drop(s, k) ==> e in s
  {
    if s != [] {
      DropOrder(s[1..], ts, k);
      var d := Drop(s[1..], k);
      forall i | 0 <= i < |d| ensures LastTouch(ts, s[0].0) > LastTouch(ts, d[i].0) {
        assert d[i] in s[1..];
        var x :| 0 <= x < |s[1..]| && s[1..][x] == d[i];
        assert s[x + 1] == d[i];
      }
    }
  }

  lemma {:induction false} RecencyStep<K(!new), W>(s: seq<(K, W)>, ts: seq<Op<K, W>>, op: Op<K, W>, w: W)
    requires ByRecency(s, ts) && KeysOnce(s) && (if op.Set? then w == op.value else Lookup(s, op.key) == Some(w))
    ensures ByRecency(ToFront(s, op.key, w), ts + [op]) && KeysOnce(ToFront(s, op.key, w))
  {
    hide Drop;
    hide LastTouch;
    hide LastSet;
    var k, us := op.key, ts + [op];
    var r, d := ToFront(s, k, w), Drop(s, k);
    ToFrontOnce(s, k, w);
    DropOnce(s, k);
    DropOrder(s, ts, k);
    TouchStep(ts, op);
    assert forall i :: 0 <= i < |d| ==> r[i + 1] == d[i];
    assert LastSet(us, k) == Some(w) by {
      if op.Get? { LookupMember(s, k); }
    }
    forall i | 0 <= i < |r| ensures LastTouch(us, r[i].0) >= 0 && LastSet(us, r[i].0) == Some(r[i].1) {
      if i > 0 {
        assert d[i - 1] in d && d[i - 1] in s;
        var x :| 0 <= x < |s| && s[x] == d[i - 1];
      }
    }
    forall i, j | 0 <= i < j < |r| ensures LastTouch(us, r[i].0) > LastTouch(us, r[j].0) {
      assert r[j] == d[j - 1] && d[j - 1] in s;
      assert i > 0 ==> r[i] == d[i - 1];
    }
    forall j | LastTouch(us, j) >= 0 ensures Lookup(r, j) != None {
      LookupDrop(s, k, j);
      assert r[1..] == d;
    }
  }

  /** The unbounded list of all touched keys. */
  function Everything<K(==), W>(cap: nat, ops: seq<Op<K, W>>): seq<(K, W)> {
    if ops == [] then []
    else
      var before, op := ops[..|ops| - 1], ops[|ops| - 1];
      var s := Everything(cap, before);
      match op
      case Set(k, w) => ToFront(s, k, w)
      case Get(k) => match Lookup(Run(cap, before), k) case None => s case Some(w) => ToFront(s, k, w)
  }

  /** LRU agreement: the cache always lists the distinct keys by last Set or hitting Get, the most
      recent first and cut at the capacity, each with the value last stored. */
  lemma {:induction false} Recency<K(!new), W>(cap: nat, ops: seq<Op<K, W>>)
    ensures KeysOnce(Everything(cap, ops)) && ByRecency(Everything(cap, ops), Touches(cap, ops))
    ensures Run(cap, ops) == Upto(cap, Everything(cap, ops))
  {
    if ops != [] {
      var before, op := ops[..|ops| - 1], ops[|ops| - 1];
      Recency(cap, before);
      RunOnce(cap, before);
      var s, ts, r := Everything(cap, before), Touches(cap, before), Run(cap, before);
      match op
      case Set(k, w) =>
        RecencyStep(s, ts, op, w);
        ToFrontUpto(cap, s, k, w);
      case Get(k) =>
        match Lookup(r, k) {
          case None =>
            assert ts + [] == ts;
          case Some(w) =>
            SameLookup(s, cap, k);
            RecencyStep(s, ts, op, w);
            ToFrontUpto(cap, s, k, w);
            DropLength(r, k);
        }
    }
  }

  /** A Set that evicts drops exactly the entry least recently touched. */
  lemma {:induction false} EvictsLeastRecent<K(!new), W>(cap: nat, ops: seq<Op<K, W>>, k: K, w: W)
    requires cap > 0 && |Run(cap, ops)| == cap && Lookup(Run(cap, ops), k) == None
    ensures var s := Run(cap, ops);
      && Step(cap, s, Set(k, w)) == [(k, w)] + s[..cap - 1]
      && forall i :: 0 <= i < cap - 1 ==>
        LastTouch(Touches(cap, ops), s[i].0) > LastTouch(Touches(cap, ops), s[cap - 1].0)
  {
    Recency(cap, ops);
    RunOnce(cap, ops);
    DropLength(Run(cap, ops), k);
    UptoCons(cap, (k, w), Drop(Run(cap, ops), k));
  }
}
