/** The bookkeeping behind SharedPtr and WeakPtr: which handles are alive and what they
    refer to, which count blocks and managed objects exist, and what has been deleted. */
module RefCounts {
  import opened SinglyList

  // the largest size_t
  const SIZE_MAX: nat := 0xFFFF_FFFF_FFFF_FFFF

  /** --n for a size_t */
  function Less(n: nat): nat {
    if n == 0 then SIZE_MAX else n - 1
  }

  class RefCount {
    var useCount: nat
    var weakCount: nat
    const obj: Object

    constructor (o: Object)
      ensures useCount == 1 && weakCount == 1 && obj == o
    {
      useCount, weakCount, obj := 1, 1, o;
    }
  }

  /** Where an object lives; it identifies the object its member handles belong to. */
  class Storage {
    constructor () {
    }
  }

  /** A managed object with the handles it holds as members. */
  class Object {
    const storage: Storage
    const strong: seq<PtrBase>
    const weak: seq<PtrBase>

    constructor (storage: Storage, strong: seq<PtrBase>, weak: seq<PtrBase>)
      ensures this.storage == storage && this.strong == strong && this.weak == weak
    {
      this.storage, this.strong, this.weak := storage, strong, weak;
    }
  }

  class PtrBase {
    var refCount: RefCount?
    var data: Object?
    // the storage of the object this handle is a member of, if any
    const storage: Storage?

    constructor (storage: Storage?)
      ensures refCount == null && data == null && this.storage == storage
    {
      refCount, data, this.storage := null, null, storage;
    }
  }

  type Links = map<PtrBase, RefCount?>

  datatype State = State(
    shared: Links,                  // the live SharedPtrs
    weaks: Links,                   // the live WeakPtrs
    counts: set<RefCount>,
    objects: set<Object>,
    dying: set<RefCount>,           // blocks whose object's destructor is running
    blockOf: map<Object, RefCount>, // the block made for each object ever managed
    destroyed: seq<Object>,
    freed: seq<RefCount>)

  /** The handles of m that refer to r. */
  ghost function Refs(m: Links, r: RefCount): set<PtrBase> {
    set p | p in m && m[p] == r
  }

  /** What weak_count should be: the WeakPtrs, and one while the object is there or being destroyed. */
  ghost function Weight(s: State, r: RefCount): nat {
    |Refs(s.weaks, r)| + if Refs(s.shared, r) != {} || r in s.dying then 1 else 0
  }

  lemma {:induction false} RefsPut(m: Links, p: PtrBase, x: RefCount?, r: RefCount)
    ensures Refs(m[p := x], r) == if x == r then Refs(m, r) + {p} else Refs(m, r) - {p}
  {
  }

  lemma {:induction false} RefsDrop(m: Links, p: PtrBase, r: RefCount)
    ensures Refs(m - {p}, r) == Refs(m, r) - {p}
  {
  }

  /** From s to t no counter changes. */
  ghost predicate SameCounts(s: State, t: State) {
    t.counts == s.counts && forall r :: r in s.counts ==>
      |Refs(t.shared, r)| == |Refs(s.shared, r)| && Weight(t, r) == Weight(s, r)
  }

  /** Links lead to live blocks. */
  ghost predicate LinksOk(m: Links, counts: set<RefCount>) {
    forall p :: p in m && m[p] != null ==> m[p] in counts
  }

  /** The block of a live object, or one still watched. */
  ghost predicate CountOk(s: State, r: RefCount) {
    && r.obj in s.blockOf && s.blockOf[r.obj] == r
    && (r.obj in s.objects <==> Refs(s.shared, r) != {})
    && (r in s.dying ==> Refs(s.shared, r) == {})
    && Weight(s, r) > 0
  }

  ghost predicate MembersOk(s: State, o: Object) {
    && NoDup(o.strong) && NoDup(o.weak)
    && (forall m :: m in o.strong ==> m in s.shared && m.storage == o.storage)
    && (forall m :: m in o.weak ==> m in s.weaks && m.storage == o.storage)
  }

  ghost predicate ObjectOk(s: State, o: Object) {
    o in s.blockOf && s.blockOf[o] in s.counts && MembersOk(s, o)
  }

  /** Every object and every block ever made is alive or deleted once. */
  ghost predicate Once(s: State) {
    && NoDup(s.destroyed) && NoDup(s.freed)
    && (forall o :: o in s.blockOf ==> s.blockOf[o].obj == o && (o in s.objects <==> o !in s.destroyed))
    && (forall o :: o in s.blockOf ==> (s.blockOf[o] in s.counts <==> s.blockOf[o] !in s.freed))
    && (forall o :: o in s.destroyed ==> o in s.blockOf)
    && (forall r :: r in s.freed ==> r.obj in s.blockOf && s.blockOf[r.obj] == r)
    && (forall o, u :: o in s.blockOf && u in s.blockOf && o.storage == u.storage ==> o == u)
  }

  ghost predicate Good(s: State) {
    && s.shared.Keys !! s.weaks.Keys && s.dying <= s.counts
    && LinksOk(s.shared, s.counts) && LinksOk(s.weaks, s.counts)
    && (forall r :: r in s.counts ==> CountOk(s, r))
    && (forall o :: o in s.objects ==> ObjectOk(s, o))
    && Once(s)
  }

  ghost function Members(o: Object): set<PtrBase> {
    (set m | m in o.strong) + (set m | m in o.weak)
  }

  /** A handle that lies inside an object ever managed is a member of it, and the object is alive or just being
      destroyed. */
  ghost predicate HousedAt(s: State, p: PtrBase) {
    forall o :: o in s.blockOf && o.storage == p.storage ==>
      p in Members(o) && (o in s.objects || s.blockOf[o] in s.dying)
  }

  /** So no handle outlives the object it is a member of. */
  ghost predicate Housed(s: State) {
    (forall p :: p in s.shared ==> HousedAt(s, p)) && (forall p :: p in s.weaks ==> HousedAt(s, p))
  }

  lemma {:induction false} StaysHoused(s: State, t: State)
    requires Housed(s) && t.blockOf == s.blockOf && s.objects <= t.objects && s.dying <= t.dying
    requires forall p :: p in t.shared ==> p in s.shared || HousedAt(s, p)
    requires forall p :: p in t.weaks ==> p in s.weaks || HousedAt(s, p)
    ensures Housed(t)
  {
  }

  // Steps

  /** A new handle that refers to r (or to nothing). */
  lemma {:induction false} AddShared(s: State, p: PtrBase, r: RefCount?)
    requires Good(s) && p !in s.shared && p !in s.weaks && (r != null ==> r in s.counts && Refs(s.shared, r) != {})
    ensures Good(s.(shared := s.shared[p := r]))
  {
    var t := s.(shared := s.shared[p := r]);
    forall c | c in t.counts ensures CountOk(t, c) {
      RefsPut(s.shared, p, r, c);
      assert CountOk(s, c);
    }
    forall o | o in t.objects ensures ObjectOk(t, o) {
      assert ObjectOk(s, o);
    }
  }

  lemma {:induction false} AddWeak(s: State, p: PtrBase, r: RefCount?)
    requires Good(s) && p !in s.shared && p !in s.weaks && (r != null ==> r in s.counts)
    ensures Good(s.(weaks := s.weaks[p := r]))
  {
    var t := s.(weaks := s.weaks[p := r]);
    forall c | c in t.counts ensures CountOk(t, c) {
      RefsPut(s.weaks, p, r, c);
      assert CountOk(s, c);
    }
    forall o | o in t.objects ensures ObjectOk(t, o) {
      assert ObjectOk(s, o);
    }
  }

  /** What the new handle does to the counts. */
  lemma {:induction false} AddedCounts(s: State, p: PtrBase, r: RefCount?)
    requires p !in s.shared && (r != null ==> Refs(s.shared, r) != {})
    ensures forall c :: |Refs(s.shared[p := r], c)| == |Refs(s.shared, c)| + if c == r then 1 else 0
    ensures forall c :: Weight(s.(shared := s.shared[p := r]), c) == Weight(s, c)
  {
    forall c
      ensures |Refs(s.shared[p := r], c)| == |Refs(s.shared, c)| + (if c == r then 1 else 0)
      ensures Weight(s.(shared := s.shared[p := r]), c) == Weight(s, c)
    {
      RefsPut(s.shared, p, r, c);
      assert p !in Refs(s.shared, c);
    }
  }

  lemma {:induction false} WeakAdded(s: State, p: PtrBase, r: RefCount?)
    requires p !in s.weaks
    ensures forall c :: Weight(s.(weaks := s.weaks[p := r]), c) == Weight(s, c) + if c == r then 1 else 0
  {
    forall c ensures Weight(s.(weaks := s.weaks[p := r]), c) == Weight(s, c) + if c == r then 1 else 0 {
      RefsPut(s.weaks, p, r, c);
      assert p !in Refs(s.weaks, c);
    }
  }

  /** An object that a SharedPtr may be made from: nothing manages it, and its member handles are there. */
  ghost predicate Adoptable(s: State, o: Object) {
    && MembersOk(s, o) && o !in s.blockOf && (forall u :: u in s.blockOf ==> u.storage != o.storage)
    && (forall p :: p in s.shared && p.storage == o.storage ==> p in Members(o))
    && (forall p :: p in s.weaks && p.storage == o.storage ==> p in Members(o))
  }

  ghost function Adopted(s: State, p: PtrBase, o: Object, r: RefCount): State {
    s.(shared := s.shared[p := r], counts := s.counts + {r}, objects := s.objects + {o}, blockOf := s.blockOf[o := r])
  }

  lemma {:induction false} AdoptHoused(s: State, p: PtrBase, o: Object, r: RefCount)
    requires Housed(s) && Adoptable(s, o) && p in s.shared
    ensures Housed(Adopted(s, p, o, r))
  {
  }

  /** The first handle for an object that no block has managed yet. */
  lemma {:induction false} AdoptObject(s: State, p: PtrBase, o: Object, r: RefCount)
    requires Good(s) && p in s.shared && s.shared[p] == null && Adoptable(s, o) && r.obj == o
    requires r !in s.counts && r !in s.freed && Refs(s.shared, r) == {} && Refs(s.weaks, r) == {}
    ensures Good(Adopted(s, p, o, r)) && Refs(Adopted(s, p, o, r).shared, r) == {p}
    ensures forall c :: c != r ==> Refs(Adopted(s, p, o, r).shared, c) == Refs(s.shared, c)
  {
    var t := Adopted(s, p, o, r);
    forall c ensures Refs(t.shared, c) == if c == r then {p} else Refs(s.shared, c) {
      RefsPut(s.shared, p, r, c);
    }
    forall c | c in t.counts ensures CountOk(t, c) {
      if c != r { assert CountOk(s, c); }
    }
    forall u | u in t.objects ensures ObjectOk(t, u) {
      if u != o { assert ObjectOk(s, u); }
    }
  }

  lemma {:induction false} SomeRef(m: Links, r: RefCount)
    ensures Refs(m, r) != {} <==> exists p :: p in m && m[p] == r
  {
    if Refs(m, r) != {} {
      var p :| p in Refs(m, r);
    }
    forall p | p in m && m[p] == r ensures p in Refs(m, r) {
    }
  }

  /** A block just made for o changes no other count. */
  lemma {:induction false} NewBlock(s: State, p: PtrBase, o: Object, r: RefCount)
    requires Good(s) && p in s.shared && s.shared[p] == null && Adoptable(s, o) && r.obj == o
    requires r !in s.counts && r !in s.freed
    ensures var t := Adopted(s, p, o, r);
      && Good(t) && |Refs(t.shared, r)| == 1 && Weight(t, r) == 1
      && (forall c :: c != r ==> |Refs(t.shared, c)| == |Refs(s.shared, c)| && Weight(t, c) == Weight(s, c))
      && t.shared == s.shared[p := r] && t.weaks == s.weaks && t.counts == s.counts + {r} && t.dying == s.dying
  {
    SomeRef(s.shared, r);
    SomeRef(s.weaks, r);
    AdoptObject(s, p, o, r);
  }

  ghost function SwapLinks(m: Links, a: PtrBase, b: PtrBase): Links
    requires a in m && b in m
  {
    m[a := m[b]][b := m[a]]
  }

  /** Exchanging what two handles refer to changes no count. */
  lemma {:induction false} RefsSwap(m: Links, a: PtrBase, b: PtrBase, r: RefCount)
    requires a in m && b in m
    ensures |Refs(SwapLinks(m, a, b), r)| == |Refs(m, r)|
  {
    var x := Refs(m, r);
    assert (a in x <==> m[a] == r) && (b in x <==> m[b] == r);
    hide Refs;
    RefsPut(m, a, m[b], r);
    RefsPut(m[a := m[b]], b, m[a], r);
    if a in x && b !in x {
      assert |x - {a} + {b}| == |x|;
    } else if b in x && a !in x {
      assert x + {a} - {b} == x - {b} + {a};
    } else if a in x {
      assert x + {a} + {b} == x;
    } else {
      assert x - {a} - {b} == x;
    }
  }

  lemma {:induction false} SwapShared(s: State, a: PtrBase, b: PtrBase)
    requires Good(s) && a in s.shared && b in s.shared
    ensures var t := s.(shared := SwapLinks(s.shared, a, b)); Good(t) && SameCounts(s, t)
  {
    var t := s.(shared := SwapLinks(s.shared, a, b));
    forall r ensures |Refs(t.shared, r)| == |Refs(s.shared, r)| && Weight(t, r) == Weight(s, r) {
      RefsSwap(s.shared, a, b, r);
      assert Refs(t.shared, r) == {} <==> |Refs(s.shared, r)| == 0;
    }
    forall r | r in t.counts ensures CountOk(t, r) {
      assert CountOk(s, r);
      assert Refs(t.shared, r) == {} <==> |Refs(s.shared, r)| == 0;
    }
    forall o | o in t.objects ensures ObjectOk(t, o) {
      assert ObjectOk(s, o);
    }
  }

  lemma {:induction false} SwapWeak(s: State, a: PtrBase, b: PtrBase)
    requires Good(s) && a in s.weaks && b in s.weaks
    ensures var t := s.(weaks := SwapLinks(s.weaks, a, b)); Good(t) && SameCounts(s, t)
  {
    var t := s.(weaks := SwapLinks(s.weaks, a, b));
    forall r ensures Weight(t, r) == Weight(s, r) {
      RefsSwap(s.weaks, a, b, r);
    }
    forall r | r in t.counts ensures CountOk(t, r) {
      assert CountOk(s, r);
    }
    forall o | o in t.objects ensures ObjectOk(t, o) {
      assert ObjectOk(s, o);
    }
  }

  /** p is no member of a live object. */
  ghost predicate Loose(s: State, p: PtrBase) {
    forall o :: o in s.objects ==> o.storage != p.storage
  }

  /** p stops referring to what it refers to: it goes altogether, or it stays and is empty. */
  ghost predicate Releases(s: State, p: PtrBase, m: Links) {
    p in s.shared && ((m == s.shared - {p} && Loose(s, p)) || m == s.shared[p := null])
  }

  /** The links m after a release by p; the object goes with the last handle. */
  ghost function Lost(s: State, p: PtrBase, m: Links): State
    requires p in s.shared
  {
    var t, r := s.(shared := m), s.shared[p];
    if r != null && Refs(m, r) == {} then
      t.(objects := s.objects - {r.obj}, dying := s.dying + {r}, destroyed := s.destroyed + [r.obj])
    else t
  }

  lemma {:induction false} LostRefs(s: State, p: PtrBase, m: Links)
    requires Releases(s, p, m)
    ensures forall r :: Refs(m, r) == Refs(s.shared, r) - {p}
  {
  }

  lemma {:induction false} LostLinks(s: State, p: PtrBase, m: Links)
    requires Releases(s, p, m)
    ensures var t := Lost(s, p, m); t.shared == m && t.weaks == s.weaks && t.counts == s.counts && s.dying <= t.dying
    ensures forall q :: q in m ==> q in s.shared
    ensures forall q :: q in s.shared && q != p ==> q in m && m[q] == s.shared[q]
  {
  }

  lemma {:induction false} InRefs(m: Links, p: PtrBase, r: RefCount)
    ensures p in Refs(m, r) <==> p in m && m[p] == r
  {
  }

  /** The block that p gives up loses a use; no weight changes. */
  lemma {:induction false} LostCount(s: State, p: PtrBase, m: Links, r: RefCount)
    requires Good(s) && Releases(s, p, m) && r in s.counts
    ensures Refs(m, r) == Refs(s.shared, r) - {p} && (p in Refs(s.shared, r) <==> r == s.shared[p])
    ensures |Refs(m, r)| == |Refs(s.shared, r)| - if r == s.shared[p] then 1 else 0
    ensures Weight(Lost(s, p, m), r) == Weight(s, r)
  {
    LostRefs(s, p, m);
    assert CountOk(s, r);
    InRefs(s.shared, p, r);
  }

  lemma {:induction false} LostCounts(s: State, p: PtrBase, m: Links)
    requires Good(s) && Releases(s, p, m)
    ensures forall r :: r in s.counts ==> |Refs(m, r)| == |Refs(s.shared, r)| - if r == s.shared[p] then 1 else 0
    ensures forall r :: r in s.counts ==> Weight(Lost(s, p, m), r) == Weight(s, r)
  {
    forall r | r in s.counts
      ensures |Refs(m, r)| == |Refs(s.shared, r)| - (if r == s.shared[p] then 1 else 0)
      ensures Weight(Lost(s, p, m), r) == Weight(s, r)
    {
      LostCount(s, p, m, r);
    }
  }

  lemma {:induction false} LostKeepsOwnCount(s: State, p: PtrBase, m: Links, r: RefCount)
    requires Good(s) && Releases(s, p, m) && r in s.counts && s.shared[p] == r
    ensures CountOk(Lost(s, p, m), r)
  {
    hide Refs;
    hide Weight;
    assert CountOk(s, r);
    LostCount(s, p, m, r);
    hide Releases;
    hide Good;
  }

  lemma {:induction false} LostKeepsOtherCount(s: State, p: PtrBase, m: Links, c: RefCount)
    requires Good(s) && Releases(s, p, m) && c in s.counts && s.shared[p] != c
    ensures CountOk(Lost(s, p, m), c)
  {
    hide Refs;
    hide Weight;
    var r := s.shared[p];
    assert CountOk(s, c) && (r != null ==> CountOk(s, r));
    LostCount(s, p, m, c);
    hide Releases;
    hide Good;
    assert Refs(m, c) == Refs(s.shared, c);
    assert r != null ==> r.obj != c.obj;
  }

  lemma {:induction false} OnceMore(s: State, o: Object)
    requires Once(s) && o in s.blockOf && o in s.objects
    ensures Once(s.(objects := s.objects - {o}, destroyed := s.destroyed + [o]))
  {
    NoDupIsDistinct(s.destroyed);
    NoDupIsDistinct(s.destroyed + [o]);
  }

  lemma {:induction false} LostOnce(s: State, p: PtrBase, m: Links)
    requires Good(s) && Releases(s, p, m)
    ensures Once(Lost(s, p, m))
  {
    var r := s.shared[p];
    if r != null {
      assert CountOk(s, r);
      InRefs(s.shared, p, r);
      OnceMore(s, r.obj);
    }
  }

  lemma {:induction false} LostKeepsCounts(s: State, p: PtrBase, m: Links)
    requires Good(s) && Releases(s, p, m)
    ensures forall c :: c in Lost(s, p, m).counts ==> CountOk(Lost(s, p, m), c)
  {
    hide Good;
    hide CountOk;
    var t := Lost(s, p, m);
    forall c | c in t.counts ensures CountOk(t, c) {
      if c == s.shared[p] { LostKeepsOwnCount(s, p, m, c); } else { LostKeepsOtherCount(s, p, m, c); }
    }
  }

  /** What a handle that refers to something says. */
  lemma {:induction false} TargetFacts(s: State, p: PtrBase)
    requires Good(s) && p in s.shared && s.shared[p] != null
    ensures var r := s.shared[p];
      && r in s.counts && r !in s.dying && r.obj in s.objects && ObjectOk(s, r.obj) && |Refs(s.shared, r)| > 0
      && p !in s.weaks
  {
    assert CountOk(s, s.shared[p]);
    InRefs(s.shared, p, s.shared[p]);
  }

  lemma {:induction false} LostObjects(s: State, p: PtrBase, m: Links)
    requires Good(s) && Releases(s, p, m)
    ensures forall o :: o in Lost(s, p, m).objects ==> ObjectOk(Lost(s, p, m), o)
  {
    var t := Lost(s, p, m);
    LostLinks(s, p, m);
    forall o | o in t.objects ensures ObjectOk(t, o) {
      assert ObjectOk(s, o);
    }
  }

  lemma {:induction false} LoseShared(s: State, p: PtrBase, m: Links)
    requires Good(s) && Releases(s, p, m)
    ensures Good(Lost(s, p, m)) && p !in s.weaks
    ensures s.shared[p] != null ==> s.shared[p] in s.counts && s.shared[p] !in s.dying && s.shared[p].obj in s.objects
    ensures s.shared[p] != null ==> ObjectOk(s, s.shared[p].obj) && |Refs(s.shared, s.shared[p])| > 0
    ensures s.shared[p] != null ==> (s.shared[p] in Lost(s, p, m).dying <==> |Refs(s.shared, s.shared[p])| == 1)
  {
    LostKeepsCounts(s, p, m);
    LostCounts(s, p, m);
    if s.shared[p] != null { TargetFacts(s, p); }
    LostOnce(s, p, m);
    LostObjects(s, p, m);
    LostLinks(s, p, m);
    hide CountOk;
    hide ObjectOk;
    hide Weight;
    hide Refs;
    hide Once;
  }

  lemma {:induction false} LostHoused(s: State, p: PtrBase, m: Links)
    requires Good(s) && Housed(s) && Releases(s, p, m)
    ensures Housed(Lost(s, p, m))
  {
    var t, r := Lost(s, p, m), s.shared[p];
    LostLinks(s, p, m);
    if r != null { assert CountOk(s, r); }
    hide Releases;
    hide Refs;
    forall q | q in t.shared || q in t.weaks ensures HousedAt(t, q) {
      assert HousedAt(s, q);
    }
  }

  /** A SharedPtr goes; the object goes with the last one. */
  ghost function Dropped(s: State, p: PtrBase): State
    requires p in s.shared
  {
    Lost(s, p, s.shared - {p})
  }

  /** A block goes when nothing counts on it any more. */
  ghost function Swept(s: State, r: RefCount): State {
    if Weight(s, r) == 0 then s.(counts := s.counts - {r}, freed := s.freed + [r]) else s
  }

  lemma {:induction false} SweptWeight(s: State, r: RefCount)
    ensures forall c :: Weight(Swept(s, r), c) == Weight(s, c)
    ensures Swept(s, r).shared == s.shared && Swept(s, r).weaks == s.weaks && Swept(s, r).counts <= s.counts
    ensures Swept(s, r).dying == s.dying && Swept(s, r).blockOf == s.blockOf
    ensures r in Swept(s, r).counts ==> Weight(s, r) > 0
  {
  }

  lemma {:induction false} SweepIt(s: State, u: State, r: RefCount)
    requires Good(s) && r in s.counts
    requires u.shared == s.shared && u.counts == s.counts && u.objects == s.objects && u.blockOf == s.blockOf
    requires u.destroyed == s.destroyed && u.freed == s.freed && u.dying <= s.dying && s.dying <= u.dying + {r}
    requires forall p :: p in u.weaks ==> p in s.weaks && u.weaks[p] == s.weaks[p]
    requires forall p :: p in s.weaks && p !in u.weaks ==> Loose(s, p)
    requires forall c :: c in s.counts && c != r ==> Weight(u, c) == Weight(s, c)
    requires r in s.dying - u.dying ==> Refs(s.shared, r) == {}
    ensures Good(Swept(u, r))
  {
    var t := Swept(u, r);
    assert CountOk(s, r);
    forall c | c in t.counts ensures CountOk(t, c) {
      assert CountOk(s, c);
    }
    forall o | o in t.objects ensures ObjectOk(t, o) {
      assert ObjectOk(s, o);
      assert CountOk(s, s.blockOf[o]);
      forall m | m in o.weak ensures m in t.weaks {
        assert m in u.weaks || Loose(s, m);
      }
    }
    if Weight(u, r) == 0 {
      forall p | p in u.weaks ensures u.weaks[p] != r {
        assert u.weaks[p] == r <==> p in Refs(u.weaks, r);
      }
      forall p | p in u.shared ensures u.shared[p] != r {
        assert u.shared[p] == r <==> p in Refs(u.shared, r);
      }
      assert LinksOk(t.weaks, t.counts) && LinksOk(t.shared, t.counts);
    }
  }

  /** The destructor of r's object has returned. */
  lemma {:induction false} EndOfLife(s: State, r: RefCount)
    requires Good(s) && r in s.dying
    ensures r in s.counts && Good(Swept(s.(dying := s.dying - {r}), r))
    ensures Weight(s.(dying := s.dying - {r}), r) == Weight(s, r) - 1
    ensures forall c :: c != r ==> Weight(s.(dying := s.dying - {r}), c) == Weight(s, c)
  {
    var u := s.(dying := s.dying - {r});
    assert CountOk(s, r);
    SweepIt(s, u, r);
  }

  /** ... and none of its member handles is left. */
  lemma {:induction false} EndHoused(s: State, r: RefCount)
    requires Housed(s) && Once(s) && forall p :: p in s.shared || p in s.weaks ==> p.storage != r.obj.storage
    ensures Housed(Swept(s.(dying := s.dying - {r}), r))
  {
    var t := Swept(s.(dying := s.dying - {r}), r);
    forall p | p in t.shared || p in t.weaks ensures HousedAt(t, p) {
      assert HousedAt(s, p);
    }
  }

  /** A WeakPtr goes. */
  lemma {:induction false} DropWeak(s: State, p: PtrBase, r: RefCount)
    requires Good(s) && p in s.weaks && Loose(s, p) && s.weaks[p] == r
    ensures Good(Swept(s.(weaks := s.weaks - {p}), r)) && Weight(s.(weaks := s.weaks - {p}), r) == Weight(s, r) - 1
    ensures r in s.counts && p !in s.shared
    ensures forall c :: c != r ==> Weight(s.(weaks := s.weaks - {p}), c) == Weight(s, c)
  {
    var u := s.(weaks := s.weaks - {p});
    assert CountOk(s, r);
    forall c ensures Weight(u, c) == Weight(s, c) - if c == r then 1 else 0 {
      RefsDrop(s.weaks, p, c);
      InRefs(s.weaks, p, c);
    }
    hide Weight;
    hide Refs;
    SweepIt(s, u, r);
  }

  /** A WeakPtr that refers to nothing goes. */
  lemma {:induction false} DropNullWeak(s: State, p: PtrBase)
    requires Good(s) && p in s.weaks && Loose(s, p) && s.weaks[p] == null
    ensures Good(s.(weaks := s.weaks - {p})) && p !in s.shared
    ensures forall c :: c in s.counts ==> Weight(s.(weaks := s.weaks - {p}), c) == Weight(s, c)
  {
    var t := s.(weaks := s.weaks - {p});
    forall c | c in s.counts ensures CountOk(t, c) && Weight(t, c) == Weight(s, c) {
      RefsDrop(s.weaks, p, c);
      assert p !in Refs(s.weaks, c);
      assert CountOk(s, c);
    }
    forall o | o in t.objects ensures ObjectOk(t, o) {
      assert ObjectOk(s, o) && o.storage != p.storage;
    }
  }

  // What a release may change

  /** p was a member of an object that is alive in s and not in t. */
  ghost predicate Gone(s: State, t: State, p: PtrBase) {
    exists o :: o in s.objects && o !in t.objects && o.storage == p.storage
  }

  ghost predicate LinksShrink(m: Links, n: Links, s: State, t: State, x: set<PtrBase>) {
    && (forall p :: p in n ==> p in m && n[p] == m[p])
    && (forall p :: p in m && p !in n ==> p in x || Gone(s, t, p))
  }

  /** From s to t handles vanish only if they are in x or members of objects that were destroyed; the others
      keep what they refer to. */
  ghost predicate Shrinks(s: State, t: State, x: set<PtrBase>) {
    && LinksShrink(s.shared, t.shared, s, t, x) && LinksShrink(s.weaks, t.weaks, s, t, x)
    && t.counts <= s.counts && t.objects <= s.objects && t.blockOf == s.blockOf
    && s.destroyed <= t.destroyed && s.freed <= t.freed
  }

  lemma {:induction false} ShrinksTwice(s: State, t: State, u: State, x: set<PtrBase>, y: set<PtrBase>)
    requires Shrinks(s, t, x) && Shrinks(t, u, y)
    ensures Shrinks(s, u, x + y)
  {
  }

  /** A handle that no destroyed object can own stays. */
  lemma {:induction false} StaysAlive(s: State, t: State, x: set<PtrBase>, o: Object)
    requires Shrinks(s, t, x) && Good(s) && o in s.blockOf && o !in s.objects
    ensures forall p :: p in s.shared && p !in x && p.storage == o.storage ==> p in t.shared
    ensures forall p :: p in s.weaks && p !in x && p.storage == o.storage ==> p in t.weaks
  {
    forall p: PtrBase | p.storage == o.storage ensures !Gone(s, t, p) {
      forall u | u in s.objects ensures u.storage != o.storage {
        assert ObjectOk(s, u);
      }
    }
  }

  /** No handle is left inside the object. */
  ghost predicate Emptied(s: State, o: Object) {
    (forall p :: p in s.shared ==> p.storage != o.storage) && (forall p :: p in s.weaks ==> p.storage != o.storage)
  }

  /** The strong members from i on and the weak ones from j on are gone. */
  ghost predicate GoneFrom(s: State, o: Object, i: nat, j: nat)
    requires i <= |o.strong| && j <= |o.weak|
  {
    && (forall k :: i <= k < |o.strong| ==> o.strong[k] !in s.shared && o.strong[k] !in s.weaks)
    && (forall k :: j <= k < |o.weak| ==> o.weak[k] !in s.shared && o.weak[k] !in s.weaks)
  }

  lemma {:induction false} AllGone(s: State, o: Object)
    requires Housed(s) && GoneFrom(s, o, 0, 0) && o in s.blockOf
    ensures Emptied(s, o)
  {
    forall p: PtrBase | p in s.shared || p in s.weaks ensures p.storage != o.storage {
      assert HousedAt(s, p);
      assert p !in o.strong && p !in o.weak;
    }
  }

  lemma {:induction false} GoneStays(s: State, t: State, x: set<PtrBase>, o: Object, i: nat, j: nat)
    requires i <= |o.strong| && j <= |o.weak| && GoneFrom(s, o, i, j) && Shrinks(s, t, x)
    ensures GoneFrom(t, o, i, j)
  {
  }

  lemma {:induction false} NextGone(s: State, t: State, o: Object, i: nat, j: nat)
    requires i < |o.strong| && j <= |o.weak| && GoneFrom(s, o, i + 1, j) && Good(s) && o.strong[i] in s.shared
    requires Shrinks(s, t, {o.strong[i]}) && o.strong[i] !in t.shared
    ensures GoneFrom(t, o, i, j)
  {
    GoneStays(s, t, {o.strong[i]}, o, i + 1, j);
  }

  lemma {:induction false} NextWeakGone(s: State, t: State, o: Object, j: nat)
    requires j < |o.weak| && GoneFrom(s, o, 0, j + 1) && Good(s) && o.weak[j] in s.weaks
    requires Shrinks(s, t, {o.weak[j]}) && o.weak[j] !in t.weaks
    ensures GoneFrom(t, o, 0, j)
  {
    GoneStays(s, t, {o.weak[j]}, o, 0, j + 1);
  }

  /** The members of an object whose destructor is running belong to no live object. */
  lemma {:induction false} MembersLoose(s: State, o: Object)
    requires Good(s) && o in s.blockOf && o !in s.objects
    ensures forall p: PtrBase :: p.storage == o.storage ==> Loose(s, p)
  {
    forall u | u in s.objects ensures u.storage != o.storage {
      assert ObjectOk(s, u);
    }
  }

  /** Giving up p's reference, deleting its object with the members, and sweeping the block, taken together. */
  lemma {:induction false} ReleaseTogether(s: State, p: PtrBase, m: Links, t: State, u: State, r: RefCount)
    requires Good(s) && Releases(s, p, m) && s.shared[p] == r && r.obj in s.objects && MembersOk(s, r.obj)
    requires Refs(m, r) == {} && Shrinks(Lost(s, p, m), t, Members(r.obj))
    requires u == Swept(t.(dying := t.dying - {r}), r)
    ensures Shrinks(s.(shared := m), u, {})
  {
    hide Good;
    assert p in s.shared;
    hide Releases;
    hide Refs;
    var d, e := Lost(s, p, m), s.(shared := m);
    assert d.objects == s.objects - {r.obj} && u.objects == t.objects && u.shared == t.shared && u.weaks == t.weaks;
    forall q | q in Members(r.obj) || Gone(d, t, q) ensures Gone(e, u, q) {
      if q in Members(r.obj) {
        assert r.obj in e.objects && r.obj !in u.objects && r.obj.storage == q.storage;
      } else {
        var o :| o in d.objects && o !in t.objects && o.storage == q.storage;
        assert o in e.objects && o !in u.objects;
      }
    }
    hide Gone;
    assert LinksShrink(e.shared, u.shared, e, u, {});
    assert LinksShrink(e.weaks, u.weaks, e, u, {});
  }

  /** What may vanish, with the handle that is dropped or without it. */
  lemma {:induction false} DropShrinks(s: State, p: PtrBase, t: State)
    requires p in s.shared && p !in s.weaks
    ensures Shrinks(s.(shared := s.shared - {p}), t, {}) <==> Shrinks(s, t, {p}) && p !in t.shared
  {
    var d := s.(shared := s.shared - {p});
    if Shrinks(d, t, {}) {
      forall q | q in s.shared && q !in t.shared ensures q == p || Gone(s, t, q) {
        assert q == p || (q in d.shared && Gone(d, t, q));
      }
      forall q | q in s.weaks && q !in t.weaks ensures Gone(s, t, q) {
        assert Gone(d, t, q);
      }
      assert Shrinks(s, t, {p});
    }
    if Shrinks(s, t, {p}) && p !in t.shared {
      forall q | q in d.shared && q !in t.shared ensures Gone(d, t, q) {
        assert Gone(s, t, q);
      }
      forall q | q in d.weaks && q !in t.weaks ensures Gone(d, t, q) {
        assert Gone(s, t, q);
      }
    }
  }

  // Who survives a release

  /** q refers to o, and it lies in an object of keep or in none ever managed. */
  ghost predicate Holds(s: State, keep: set<Object>, o: Object, q: PtrBase) {
    && q in s.shared && o in s.blockOf && s.shared[q] == s.blockOf[o]
    && forall u :: u in s.blockOf && u.storage == q.storage ==> u in keep
  }

  ghost predicate Closed(s: State, keep: set<Object>) {
    forall o :: o in keep ==> o in s.objects && exists q :: q in s.shared && Holds(s, keep, o, q)
  }

  /** Some handle keeps o alive, along members that are kept alive themselves. */
  ghost predicate Anchored(s: State, o: Object) {
    exists keep :: keep <= s.objects && o in keep && Closed(s, keep)
  }

  ghost function Survivors(s: State): set<Object> {
    set o | o in s.objects && Anchored(s, o)
  }

  /** Given the links of s, exactly the anchored objects are left; no handle vanishes but members of the others. */
  ghost predicate Settles(s: State, t: State) {
    Shrinks(s, t, {}) && forall o :: o in s.objects ==> (o in t.objects <==> Anchored(s, o))
  }

  lemma {:induction false} SurvivorsClosed(s: State)
    ensures Closed(s, Survivors(s))
  {
    forall o | o in Survivors(s) ensures exists q :: q in s.shared && Holds(s, Survivors(s), o, q) {
      var keep :| keep <= s.objects && o in keep && Closed(s, keep);
      var q :| q in s.shared && Holds(s, keep, o, q);
      forall u | u in s.blockOf && u.storage == q.storage ensures u in Survivors(s) {
        assert u in keep;
      }
      assert Holds(s, Survivors(s), o, q);
    }
  }

  /** The object that dies with its last handle is not among those kept. */
  lemma {:induction false} LossKeeps(s: State, p: PtrBase, m: Links, keep: set<Object>)
    requires Good(s) && Releases(s, p, m) && Closed(s.(shared := m), keep)
    ensures Closed(Lost(s, p, m), keep)
  {
    var t, r := Lost(s, p, m), s.shared[p];
    if r != null { assert CountOk(s, r); }
    forall o | o in keep ensures o in t.objects && exists q :: q in t.shared && Holds(t, keep, o, q) {
      var q :| q in m && Holds(s.(shared := m), keep, o, q);
      assert Holds(t, keep, o, q);
      assert q in Refs(m, s.blockOf[o]);
    }
  }

  lemma {:induction false} StaysClosed(s: State, t: State, keep: set<Object>)
    requires Closed(s, keep) && t.shared == s.shared && t.objects == s.objects && t.blockOf == s.blockOf
    ensures Closed(t, keep)
  {
    forall o | o in keep ensures exists q :: q in t.shared && Holds(t, keep, o, q) {
      var q :| q in s.shared && Holds(s, keep, o, q);
      assert Holds(t, keep, o, q);
    }
  }

  /** Members of an object that is going keep nothing. */
  lemma {:induction false} MemberKeepsNone(s: State, o: Object, m: PtrBase, keep: set<Object>)
    requires Closed(s, keep) && o in s.blockOf && o !in s.objects && m.storage == o.storage
    ensures Closed(s.(shared := s.shared - {m}), keep)
  {
    var t := s.(shared := s.shared - {m});
    forall x | x in keep ensures exists q :: q in t.shared && Holds(t, keep, x, q) {
      var q :| q in s.shared && Holds(s, keep, x, q);
      assert q != m;
      assert Holds(t, keep, x, q);
    }
  }

  /** What is left keeps itself alive, so it was anchored; and what was anchored is left. */
  lemma {:induction false} Settled(s: State, t: State)
    requires Shrinks(s, t, {}) && Good(t) && Housed(t) && t.dying == {} && Closed(t, Survivors(s))
    ensures Settles(s, t)
  {
    forall o | o in t.objects ensures exists q :: q in s.shared && Holds(s, t.objects, o, q) {
      assert ObjectOk(t, o) && CountOk(t, t.blockOf[o]);
      var q :| q in Refs(t.shared, t.blockOf[o]);
      assert HousedAt(t, q);
      assert Holds(s, t.objects, o, q);
    }
    assert Closed(s, t.objects);
  }

  /** Without a release all objects are kept alive. */
  lemma {:induction false} SettledAsIs(s: State)
    requires Good(s) && Housed(s) && s.dying == {}
    ensures Settles(s, s) && forall o :: o in s.objects ==> Anchored(s, o)
  {
    forall o | o in s.objects ensures exists q :: q in s.shared && Holds(s, s.objects, o, q) {
      assert ObjectOk(s, o) && CountOk(s, s.blockOf[o]);
      var q :| q in Refs(s.shared, s.blockOf[o]);
      assert HousedAt(s, q);
      assert Holds(s, s.objects, o, q);
    }
    assert Closed(s, s.objects);
  }

  /** What is closed after a release was closed before; what was closed before is left by the release and stays so. */
  lemma {:induction false} ClosedAcross(s: State, t: State, drop: set<PtrBase>, keep: set<Object>)
    requires Settles(s, t) && s.objects <= s.blockOf.Keys
    ensures Closed(t.(shared := t.shared - drop), keep) ==> Closed(s.(shared := s.shared - drop), keep)
    ensures keep <= s.objects && Closed(s.(shared := s.shared - drop), keep) ==>
              keep <= t.objects && Closed(t.(shared := t.shared - drop), keep)
  {
    var u, v := s.(shared := s.shared - drop), t.(shared := t.shared - drop);
    if Closed(v, keep) {
      forall o | o in keep ensures o in u.objects && exists q :: q in u.shared && Holds(u, keep, o, q) {
        var q :| q in v.shared && Holds(v, keep, o, q);
        assert Holds(u, keep, o, q);
      }
    }
    if keep <= s.objects && Closed(u, keep) {
      forall o | o in keep ensures exists q :: q in s.shared && Holds(s, keep, o, q) {
        var q :| q in u.shared && Holds(u, keep, o, q);
        assert Holds(s, keep, o, q);
      }
      assert Closed(s, keep);
      forall o | o in keep ensures o in t.objects {
        assert Anchored(s, o);
      }
      forall o | o in keep ensures exists q :: q in v.shared && Holds(v, keep, o, q) {
        var q :| q in u.shared && Holds(u, keep, o, q);
        assert !Gone(s, t, q);
        assert Holds(v, keep, o, q);
      }
    }
  }

  lemma {:induction false} ShrinksDrop(s: State, t: State, drop: set<PtrBase>)
    requires Shrinks(s, t, {})
    ensures Shrinks(s.(shared := s.shared - drop), t.(shared := t.shared - drop), {})
  {
  }

  lemma {:induction false} ShrunkKeys(s: State, t: State, x: set<PtrBase>)
    requires Shrinks(s, t, x)
    ensures t.shared.Keys <= s.shared.Keys && t.weaks.Keys <= s.weaks.Keys && t.counts <= s.counts
    ensures t.objects <= s.objects
    ensures t.blockOf == s.blockOf && |t.objects| <= |s.objects|
  {
    assert s.objects == t.objects + (s.objects - t.objects);
  }

  /** It does not matter in how many releases handles go: what is left are the objects that the others keep alive. */
  lemma {:induction false} SettlesTwice(s: State, t: State, drop: set<PtrBase>, w: State)
    requires Settles(s, t) && s.objects <= s.blockOf.Keys && Settles(t.(shared := t.shared - drop), w)
    ensures Settles(s.(shared := s.shared - drop), w)
  {
    hide Closed;
    hide Shrinks;
    var u, v := s.(shared := s.shared - drop), t.(shared := t.shared - drop);
    ShrinksDrop(s, t, drop);
    ShrinksTwice(u, v, w, {}, {});
    ShrunkKeys(u, v, {});
    ShrunkKeys(v, w, {});
    ShrunkKeys(s, t, {});
    var none: set<PtrBase> := {};
    assert none + none == none;
    forall o | o in u.objects ensures o in w.objects <==> Anchored(u, o) {
      if Anchored(u, o) {
        var keep :| keep <= u.objects && o in keep && Closed(u, keep);
        ClosedAcross(s, t, drop, keep);
        assert Anchored(v, o);
      }
      if o in v.objects && Anchored(v, o) {
        var keep :| keep <= v.objects && o in keep && Closed(v, keep);
        ClosedAcross(s, t, drop, keep);
        assert Anchored(u, o);
      }
    }
  }

  lemma {:induction false} WeakShrinks(s: State, t: State, p: PtrBase, r: RefCount?)
    requires t == (var u := s.(weaks := s.weaks - {p}); if r == null then u else Swept(u, r))
    ensures Shrinks(s, t, {p}) && t.dying == s.dying && t.objects == s.objects && t.shared == s.shared
  {
  }

  /** The members still to be destroyed: the first i strong ones, and the first j weak ones. */
  ghost predicate Remaining(s: State, o: Object, i: nat, j: nat)
    requires i <= |o.strong| && j <= |o.weak|
  {
    && (forall k :: 0 <= k < i ==> o.strong[k] in s.shared && o.strong[k].storage == o.storage)
    && (forall k :: 0 <= k < j ==> o.weak[k] in s.weaks && o.weak[k].storage == o.storage)
  }

  lemma {:induction false} OneWeakMemberLess(s: State, t: State, o: Object, j: nat)
    requires j < |o.weak| && Remaining(s, o, 0, j + 1) && NoDup(o.weak)
    requires Good(s) && o in s.blockOf && o !in s.objects && Shrinks(s, t, {o.weak[j]})
    ensures Remaining(t, o, 0, j)
  {
    StaysAlive(s, t, {o.weak[j]}, o);
    assert forall k :: 0 <= k < j ==> Pair(k, j) && o.weak[k] != o.weak[j];
  }

  lemma {:induction false} ShrinksNot(s: State, x: set<PtrBase>)
    ensures Shrinks(s, s, x)
  {
  }

  lemma {:induction false} OneMemberLess(s: State, t: State, o: Object, i: nat, j: nat)
    requires i < |o.strong| && j <= |o.weak| && Remaining(s, o, i + 1, j) && NoDup(o.strong)
    requires Good(s) && o in s.blockOf && o !in s.objects && Shrinks(s, t, {o.strong[i]})
    ensures Remaining(t, o, i, j)
  {
    StaysAlive(s, t, {o.strong[i]}, o);
    assert forall k :: 0 <= k < i ==> Pair(k, i) && o.strong[k] != o.strong[i];
  }

  ghost function MovedLinks(m: Links, p: PtrBase, q: PtrBase): Links
    requires q in m
  {
    m[q := null][p := m[q]]
  }

  /** A new handle p takes what q refers to: the counts stay. */
  lemma {:induction false} MoveShared(s: State, p: PtrBase, q: PtrBase)
    requires Good(s) && p !in s.shared && p !in s.weaks && q in s.shared
    ensures var t := s.(shared := MovedLinks(s.shared, p, q)); Good(t) && SameCounts(s, t)
  {
    hide Good;
    hide Refs;
    hide Weight;
    var t := s.(shared := s.shared[p := null]);
    AddShared(s, p, null);
    AddedCounts(s, p, null);
    SwapShared(t, p, q);
    assert SwapLinks(t.shared, p, q) == MovedLinks(s.shared, p, q);
    assert t.(shared := SwapLinks(t.shared, p, q)) == s.(shared := MovedLinks(s.shared, p, q));
  }

  lemma {:induction false} MoveWeak(s: State, p: PtrBase, q: PtrBase)
    requires Good(s) && p !in s.shared && p !in s.weaks && q in s.weaks
    ensures var t := s.(weaks := MovedLinks(s.weaks, p, q)); Good(t) && SameCounts(s, t)
  {
    hide Good;
    hide Refs;
    hide Weight;
    var t := s.(weaks := s.weaks[p := null]);
    AddWeak(s, p, null);
    WeakAdded(s, p, null);
    SwapWeak(t, p, q);
    assert SwapLinks(t.weaks, p, q) == MovedLinks(s.weaks, p, q);
    assert t.(weaks := SwapLinks(t.weaks, p, q)) == s.(weaks := MovedLinks(s.weaks, p, q));
  }

  /** A handle outside of all objects. */
  lemma {:induction false} OutsideIsLoose(s: State, p: PtrBase)
    requires p.storage == null
    ensures Loose(s, p)
  {
  }

  /** What a live handle of either kind refers to. */
  ghost function Referred(s: State, p: PtrBase): RefCount?
    requires p in s.shared || p in s.weaks
  {
    if p in s.shared then s.shared[p] else s.weaks[p]
  }

  /** The weak handle refers to nothing, or its object is gone. */
  ghost predicate Expires(s: State, w: PtrBase)
    requires w in s.weaks
  {
    s.weaks[w] == null || s.weaks[w].obj !in s.objects
  }

  /** An object is there exactly while its block is in use. */
  lemma {:induction false} AliveIfUsed(s: State, w: PtrBase)
    requires Good(s) && w in s.weaks
    ensures s.weaks[w] != null ==> (Expires(s, w) <==> Refs(s.shared, s.weaks[w]) == {})
    ensures s.weaks[w] != null ==> (Expires(s, w) <==> |Refs(s.shared, s.weaks[w])| == 0)
  {
    if s.weaks[w] != null {
      assert CountOk(s, s.weaks[w]);
    }
  }

  // What the bookkeeping means

  /** With no destructor running: an object is there exactly while some SharedPtr refers to it, its block exactly
      while any handle does; weak_count is the WeakPtrs plus one while there are SharedPtrs; and whatever has ever been
      managed is alive or was destroyed, never both. */
  ghost predicate Life(s: State, o: Object)
    requires o in s.blockOf
  {
    var r := s.blockOf[o];
    && (o in s.objects <==> exists p :: p in s.shared && s.shared[p] == r)
    && (r in s.counts <==>
          (exists p :: p in s.shared && s.shared[p] == r) || (exists p :: p in s.weaks && s.weaks[p] == r))
    && (o in s.destroyed <==> o !in s.objects) && (r in s.freed <==> r !in s.counts)
    && Weight(s, r) == |Refs(s.weaks, r)| + if |Refs(s.shared, r)| > 0 then 1 else 0
  }

  lemma {:induction false} Lifetimes(s: State, o: Object)
    requires Good(s) && s.dying == {} && o in s.blockOf
    ensures Life(s, o)
  {
    var r := s.blockOf[o];
    if o in s.objects {
      assert ObjectOk(s, o);
    }
    if r in s.counts {
      assert CountOk(s, r);
    }
    SomeRef(s.shared, r);
    SomeRef(s.weaks, r);
  }

  /** No chain of strong members leads back: each member refers to an object of smaller rank. */
  ghost predicate Acyclic(s: State, rank: Object -> nat) {
    forall o, m :: o in s.objects && m in o.strong && m in s.shared && s.shared[m] != null ==>
      rank(s.shared[m].obj) < rank(o)
  }

  /** p lies in an object that has been managed. */
  ghost predicate Inside(s: State, p: PtrBase) {
    exists o :: o in s.blockOf && o.storage == p.storage
  }

  /** Every SharedPtr that refers to something lies inside an object. */
  ghost predicate NoOutsideHandles(s: State) {
    forall p :: p in s.shared && s.shared[p] != null ==> Inside(s, p)
  }

  lemma {:induction false} TopObject(objects: set<Object>, rank: Object -> nat) returns (top: Object)
    requires objects != {}
    ensures top in objects && forall o :: o in objects ==> rank(o) <= rank(top)
  {
    top :| top in objects;
    var rest := objects - {top};
    if rest != {} {
      var t := TopObject(rest, rank);
      if rank(t) > rank(top) {
        top := t;
      }
    }
  }

  lemma {:induction false} StrongMember(s: State, p: PtrBase, o: Object)
    requires Good(s) && Housed(s) && s.dying == {} && p in s.shared && o in s.blockOf && o.storage == p.storage
    ensures o in s.objects && p in o.strong
  {
    assert HousedAt(s, p);
    assert ObjectOk(s, o);
    assert p !in s.weaks && p !in o.weak;
  }

  /** Without outside handles every live object is a strong member of a live one of higher rank. */
  lemma {:induction false} OwnedFromAbove(s: State, rank: Object -> nat, t: Object)
    requires Good(s) && Housed(s) && s.dying == {} && Acyclic(s, rank) && NoOutsideHandles(s) && t in s.objects
    ensures exists o :: o in s.objects && rank(o) > rank(t)
  {
    assert ObjectOk(s, t) && t in s.blockOf && s.blockOf[t].obj == t;
    Lifetimes(s, t);
    hide Good;
    var p :| p in s.shared && s.shared[p] == s.blockOf[t];
    var o :| o in s.blockOf && o.storage == p.storage;
    StrongMember(s, p, o);
    assert rank(s.shared[p].obj) < rank(o);
  }

  /** If strong members never form a cycle, dropping all outside handles has destroyed every object ever managed. */
  lemma {:induction false} AcyclicLeavesNothing(s: State, rank: Object -> nat)
    requires Good(s) && Housed(s) && s.dying == {} && Acyclic(s, rank) && NoOutsideHandles(s)
    ensures s.objects == {} && forall o :: o in s.blockOf ==> o in s.destroyed
  {
    if s.objects != {} {
      var top := TopObject(s.objects, rank);
      OwnedFromAbove(s, rank, top);
      assert false;
    }
  }
}
