/** Any run of SharedPtr and WeakPtr operations by a client that holds handles of its own and reaches the members of
    the objects through them. */
module PointerRuns {
  import opened SinglyList
  import opened RefCounts
  import opened SmartPointers

  /** The client's SharedPtr i, and from its object along strong members. */
  datatype Place = Place(i: nat, path: seq<nat>)

  /** A WeakPtr of the client, or WeakPtr member k of the object that the SharedPtr at a place refers to. */
  datatype WeakPlace = Mine(w: nat) | In(x: Place, k: nat)

  datatype Op =
    | Make(strong: nat, weak: nat)
    | Copy(x: Place)
    | Move(x: Place)
    | Assign(x: Place, y: Place)
    | AssignMoved(x: Place, y: Place)
    | Clear(x: Place)
    | Renew(x: Place, strong: nat, weak: nat)
    | Destroy(i: nat)
    | Watch(x: Place)
    | CopyWeak(w: WeakPlace)
    | MoveWeak(w: WeakPlace)
    | AssignWeak(w: WeakPlace, v: WeakPlace)
    | AssignMovedWeak(w: WeakPlace, v: WeakPlace)
    | AssignWatch(w: WeakPlace, x: Place)
    | Lock(w: WeakPlace)
    | DestroyWeak(i: nat)

  /** The handle that a path leads to from p. */
  ghost function Follow(s: State, p: PtrBase, path: seq<nat>): PtrBase? {
    if path == [] then p
    else if p !in s.shared || s.shared[p] == null || path[0] >= |s.shared[p].obj.strong| then null
    else Follow(s, s.shared[p].obj.strong[path[0]], path[1..])
  }

  ghost function Resolve(s: State, strong: seq<PtrBase>, x: Place): PtrBase? {
    if x.i < |strong| then Follow(s, strong[x.i], x.path) else null
  }

  /** The state before an operation, and the client's own handles. */
  datatype View = View(s: State, strong: seq<PtrBase>, weak: seq<PtrBase>)

  ghost function ResolveWeak(v: View, w: WeakPlace): PtrBase? {
    match w
    case Mine(i) => if i < |v.weak| then v.weak[i] else null
    case In(x, k) =>
      var p := Resolve(v.s, v.strong, x);
      if p != null && p in v.s.shared && v.s.shared[p] != null && k < |v.s.shared[p].obj.weak| then
        v.s.shared[p].obj.weak[k]
      else null
  }

  /** p, once emptied, lies in an object that is not kept alive. */
  ghost predicate Doomed(s: State, p: PtrBase) {
    p in s.shared && Memory.OwnerLost(s.(shared := s.shared[p := null]), p)
  }

  /** The operation is a reset of a handle that destroys the very object the handle lies in. */
  ghost predicate Breaks(v: View, op: Op) {
    (op.Clear? || op.Renew?) && var p := Resolve(v.s, v.strong, op.x); p != null && Doomed(v.s, p)
  }

  // What an operation does

  /** The client has one more SharedPtr, a new one. */
  ghost predicate OneMoreStrong(v: View, v': View) {
    && |v'.strong| == |v.strong| + 1 && v'.strong[..|v.strong|] == v.strong && v'.weak == v.weak
    && v'.strong[|v.strong|] !in v.s.shared && v'.strong[|v.strong|] !in v.s.weaks
  }

  /** The client has one more WeakPtr, a new one. */
  ghost predicate OneMoreWeak(v: View, v': View) {
    && |v'.weak| == |v.weak| + 1 && v'.weak[..|v.weak|] == v.weak && v'.strong == v.strong
    && v'.weak[|v.weak|] !in v.s.shared && v'.weak[|v.weak|] !in v.s.weaks
  }

  /** From s to t an object has come that p manages, with n SharedPtrs and k WeakPtrs as members, all of them empty. */
  ghost predicate Made(s: State, t: State, p: PtrBase, n: nat, k: nat) {
    && p in t.shared && t.shared[p] != null && t.shared[p] in t.counts && t.shared[p] !in s.counts
    && var o := t.shared[p].obj;
      && o !in s.blockOf && o in t.objects && o in t.blockOf && t.blockOf[o] == t.shared[p]
      && |o.strong| == n && |o.weak| == k
      && (forall m :: m in o.strong ==> m in t.shared && t.shared[m] == null && m !in s.shared)
      && (forall m :: m in o.weak ==> m in t.weaks && t.weaks[m] == null && m !in s.weaks)
  }

  /** s without object o, its block, and its members. */
  ghost function Without(s: State, o: Object): State
    requires o in s.blockOf
  {
    s.(shared := s.shared - Members(o), weaks := s.weaks - Members(o), counts := s.counts - {s.blockOf[o]},
        objects := s.objects - {o}, blockOf := s.blockOf - {o})
  }

  /** From v to v' on the SharedPtrs: exactly the links that the operation names have changed, and where a reference was
      given up exactly the objects are left that the links keep alive. */
  ghost predicate Moves(v: View, op: Op, v': View)
    requires op.Make? || op.Copy? || op.Move? || op.Assign? || op.AssignMoved? || op.Clear? || op.Renew? || op.Destroy?
  {
    match op
    case Make(n, k) =>
      && OneMoreStrong(v, v')
      && var q := v'.strong[|v.strong|];
        Made(v.s, v'.s, q, n, k) && var t := Without(v'.s, v'.s.shared[q].obj); v.s == t.(shared := t.shared - {q})
    case Copy(x) =>
      var p := Resolve(v.s, v.strong, x);
      if p == null then v' == v
      else
        && p in v.s.shared && OneMoreStrong(v, v') && var q := v'.strong[|v.strong|];
          v'.s == v.s.(shared := v.s.shared[q := v.s.shared[p]])
    case Move(x) =>
      var p := Resolve(v.s, v.strong, x);
      if p == null then v' == v
      else
        && p in v.s.shared && OneMoreStrong(v, v') && var q := v'.strong[|v.strong|];
          v'.s == v.s.(shared := v.s.shared[p := null][q := v.s.shared[p]])
    case Assign(x, y) =>
      var p, q := Resolve(v.s, v.strong, x), Resolve(v.s, v.strong, y);
      if p == null || q == null then v' == v
      else
        && p in v.s.shared && q in v.s.shared && v'.strong == v.strong && v'.weak == v.weak
        && Settles(v.s.(shared := v.s.shared[p := v.s.shared[q]]), v'.s)
    case AssignMoved(x, y) =>
      var p, q := Resolve(v.s, v.strong, x), Resolve(v.s, v.strong, y);
      if p == null || q == null then v' == v
      else
        && p in v.s.shared && q in v.s.shared && v'.strong == v.strong && v'.weak == v.weak
        && Settles(v.s.(shared := v.s.shared[q := null][p := v.s.shared[q]]), v'.s)
    case Clear(x) =>
      var p := Resolve(v.s, v.strong, x);
      if p == null then v' == v
      else v'.strong == v.strong && v'.weak == v.weak && Settles(v.s.(shared := v.s.shared[p := null]), v'.s)
    case Renew(x, n, k) =>
      var p := Resolve(v.s, v.strong, x);
      if p == null then v' == v
      else
        && v'.strong == v.strong && v'.weak == v.weak && Made(v.s, v'.s, p, n, k)
        && var t := Without(v'.s, v'.s.shared[p].obj);
          Settles(v.s.(shared := v.s.shared[p := null]), t.(shared := t.shared[p := null]))
    case Destroy(i) =>
      if i >= |v.strong| then v' == v
      else
        && v'.strong == v.strong[..i] + v.strong[i + 1..] && v'.weak == v.weak
        && Settles(v.s.(shared := v.s.shared - {v.strong[i]}), v'.s)
  }

  /** The WeakPtrs refer to this, and nothing else has changed but the blocks that no handle refers to any more. */
  ghost predicate WeakLinks(s: State, t: State, weaks: Links) {
    t.weaks == weaks && t.shared == s.shared && t.objects == s.objects && t.blockOf == s.blockOf && t.counts <= s.counts
  }

  /** From v to v' on the WeakPtrs. */
  ghost predicate WeakMoves(v: View, op: Op, v': View)
    requires op.Watch? || op.CopyWeak? || op.MoveWeak? || op.AssignWeak? || op.AssignMovedWeak? || op.AssignWatch?
          || op.Lock? || op.DestroyWeak?
  {
    match op
    case Watch(x) =>
      var p := Resolve(v.s, v.strong, x);
      if p == null then v' == v
      else
        && p in v.s.shared && OneMoreWeak(v, v') && var q := v'.weak[|v.weak|];
          v'.s == v.s.(weaks := v.s.weaks[q := v.s.shared[p]])
    case CopyWeak(w) =>
      var p := ResolveWeak(v, w);
      if p == null then v' == v
      else
        && p in v.s.weaks && OneMoreWeak(v, v') && var q := v'.weak[|v.weak|];
          v'.s == v.s.(weaks := v.s.weaks[q := v.s.weaks[p]])
    case MoveWeak(w) =>
      var p := ResolveWeak(v, w);
      if p == null then v' == v
      else
        && p in v.s.weaks && OneMoreWeak(v, v') && var q := v'.weak[|v.weak|];
          v'.s == v.s.(weaks := v.s.weaks[p := null][q := v.s.weaks[p]])
    case AssignWeak(w, u) =>
      var p, q := ResolveWeak(v, w), ResolveWeak(v, u);
      if p == null || q == null then v' == v
      else
        && q in v.s.weaks && v'.strong == v.strong && v'.weak == v.weak
        && WeakLinks(v.s, v'.s, v.s.weaks[p := v.s.weaks[q]])
    case AssignMovedWeak(w, u) =>
      var p, q := ResolveWeak(v, w), ResolveWeak(v, u);
      if p == null || q == null then v' == v
      else
        && q in v.s.weaks && v'.strong == v.strong && v'.weak == v.weak
        && WeakLinks(v.s, v'.s, v.s.weaks[q := null][p := v.s.weaks[q]])
    case AssignWatch(w, x) =>
      var p, q := ResolveWeak(v, w), Resolve(v.s, v.strong, x);
      if p == null || q == null then v' == v
      else
        && q in v.s.shared && v'.strong == v.strong && v'.weak == v.weak
        && WeakLinks(v.s, v'.s, v.s.weaks[p := v.s.shared[q]])
    case Lock(w) =>
      var p := ResolveWeak(v, w);
      if p == null then v' == v
      else
        && p in v.s.weaks && OneMoreStrong(v, v') && var q := v'.strong[|v.strong|];
          var r := v.s.weaks[p];
          v'.s == v.s.(shared := v.s.shared[q := if r == null || r.obj !in v.s.objects then null else r])
    case DestroyWeak(i) =>
      if i >= |v.weak| then v' == v
      else
        && v'.weak == v.weak[..i] + v.weak[i + 1..] && v'.strong == v.strong
        && WeakLinks(v.s, v'.s, v.s.weaks - {v.weak[i]})
  }

  /** How the state and the client's handles follow from what they were before an operation. */
  ghost predicate Follows(v: View, op: Op, v': View) {
    if op.Make? || op.Copy? || op.Move? || op.Assign? || op.AssignMoved? || op.Clear? || op.Renew? || op.Destroy? then
      Moves(v, op, v')
    else WeakMoves(v, op, v')
  }

  lemma {:induction false} OneRefMore(m: Links, q: PtrBase, x: RefCount?, r: RefCount)
    requires q !in m
    ensures |Refs(m[q := x], r)| == |Refs(m, r)| + if x == r then 1 else 0
  {
    RefsPut(m, q, x, r);
    assert q !in Refs(m, r);
  }

  lemma {:induction false} SameRefs(m: Links, p: PtrBase, q: PtrBase, r: RefCount)
    requires p in m && q !in m
    ensures |Refs(m[p := null][q := m[p]], r)| == |Refs(m, r)|
  {
    RefsPut(m, p, null, r);
    RefsPut(m[p := null], q, m[p], r);
    assert q !in Refs(m, r) && (p in Refs(m, r) <==> m[p] == r);
  }

  /** What the operations on SharedPtrs do to a use_count: a copy adds one, a move none; and what is left of the handles
      that they name. */
  lemma {:induction false} CountsAfter(v: View, op: Op, v': View, r: RefCount)
    requires Follows(v, op, v') && (op.Copy? || op.Move? || op.Clear? || op.Destroy?)
    ensures op.Copy? && Resolve(v.s, v.strong, op.x) != null ==>
              var p := Resolve(v.s, v.strong, op.x);
              p in v.s.shared && |Refs(v'.s.shared, r)| == |Refs(v.s.shared, r)| + if v.s.shared[p] == r then 1 else 0
    ensures op.Move? ==> |Refs(v'.s.shared, r)| == |Refs(v.s.shared, r)|
    ensures op.Clear? && Resolve(v.s, v.strong, op.x) != null ==>
              var p := Resolve(v.s, v.strong, op.x); p in v'.s.shared ==> v'.s.shared[p] == null
    ensures op.Destroy? && op.i < |v.strong| ==> v.strong[op.i] !in v'.s.shared && |v'.strong| == |v.strong| - 1
  {
    hide Refs;
    hide Resolve;
    match op
    case Copy(x) =>
      var p := Resolve(v.s, v.strong, x);
      if p != null { OneRefMore(v.s.shared, v'.strong[|v.strong|], v.s.shared[p], r); }
    case Move(x) =>
      var p := Resolve(v.s, v.strong, x);
      if p != null { SameRefs(v.s.shared, p, v'.strong[|v.strong|], r); }
    case _ =>
  }

  /** What the operations on WeakPtrs do to the number of handles of a block: a copy adds a WeakPtr and a lock of a live
      object a SharedPtr, a move nothing. */
  lemma {:induction false} WeakCountsAfter(v: View, op: Op, v': View, r: RefCount)
    requires Follows(v, op, v') && (op.Watch? || op.CopyWeak? || op.MoveWeak? || op.Lock? || op.DestroyWeak?)
    ensures op.Watch? && Resolve(v.s, v.strong, op.x) != null ==>
              var p := Resolve(v.s, v.strong, op.x);
              p in v.s.shared && |Refs(v'.s.weaks, r)| == |Refs(v.s.weaks, r)| + if v.s.shared[p] == r then 1 else 0
    ensures op.CopyWeak? && ResolveWeak(v, op.w) != null ==>
              var p := ResolveWeak(v, op.w);
              p in v.s.weaks && |Refs(v'.s.weaks, r)| == |Refs(v.s.weaks, r)| + if v.s.weaks[p] == r then 1 else 0
    ensures op.MoveWeak? ==> |Refs(v'.s.weaks, r)| == |Refs(v.s.weaks, r)|
    ensures op.Lock? && ResolveWeak(v, op.w) != null ==>
              var p := ResolveWeak(v, op.w);
              && p in v.s.weaks
              && |Refs(v'.s.shared, r)|
                 == |Refs(v.s.shared, r)| + if v.s.weaks[p] == r && r.obj in v.s.objects then 1 else 0
    ensures op.DestroyWeak? && op.i < |v.weak| ==> v.weak[op.i] !in v'.s.weaks && |v'.weak| == |v.weak| - 1
  {
    hide Refs;
    hide Resolve;
    hide ResolveWeak;
    match op
    case Watch(x) =>
      var p := Resolve(v.s, v.strong, x);
      if p != null { OneRefMore(v.s.weaks, v'.weak[|v.weak|], v.s.shared[p], r); }
    case CopyWeak(w) =>
      var p := ResolveWeak(v, w);
      if p != null { OneRefMore(v.s.weaks, v'.weak[|v.weak|], v.s.weaks[p], r); }
    case MoveWeak(w) =>
      var p := ResolveWeak(v, w);
      if p != null { SameRefs(v.s.weaks, p, v'.weak[|v.weak|], r); }
    case Lock(w) =>
      var p := ResolveWeak(v, w);
      if p != null {
        var x := v.s.weaks[p];
        OneRefMore(v.s.shared, v'.strong[|v.strong|], if x == null || x.obj !in v.s.objects then null else x, r);
      }
    case _ =>
  }

  // Handles under construction do not matter

  /** t has more handles, but they refer to nothing. */
  ghost predicate MoreEmpty(s: State, t: State) {
    && t.objects == s.objects && t.blockOf == s.blockOf
    && (forall p :: p in s.shared ==> p in t.shared && t.shared[p] == s.shared[p])
    && (forall p :: p in t.shared && p !in s.shared ==> t.shared[p] == null)
  }

  /** From s to t the empty handles have come that are to be the members of o. */
  ghost predicate Prepared(s: State, t: State, o: Object) {
    && t == s.(shared := t.shared, weaks := t.weaks)
    && t.shared - Members(o) == s.shared && t.weaks - Members(o) == s.weaks
    && (forall m :: m in o.strong ==> m in t.shared && t.shared[m] == null && m !in s.shared)
    && (forall m :: m in o.weak ==> m in t.weaks && t.weaks[m] == null && m !in s.weaks)
  }

  lemma {:induction false} GoodObjects(s: State)
    requires Good(s)
    ensures s.objects <= s.blockOf.Keys
  {
    forall o | o in s.objects ensures o in s.blockOf { assert ObjectOk(s, o); }
  }

  lemma {:induction false} SameClosed(s: State, t: State, keep: set<Object>)
    requires MoreEmpty(s, t)
    ensures Closed(s, keep) <==> Closed(t, keep)
  {
    forall o, q | Holds(s, keep, o, q) ensures Holds(t, keep, o, q) {
    }
    forall o, q | Holds(t, keep, o, q) ensures Holds(s, keep, o, q) {
    }
  }

  lemma {:induction false} SameAnchors(s: State, t: State, o: Object)
    requires MoreEmpty(s, t)
    ensures Anchored(s, o) <==> Anchored(t, o)
  {
    hide Closed;
    forall keep ensures Closed(s, keep) <==> Closed(t, keep) {
      SameClosed(s, t, keep);
    }
  }

  /** A new handle that manages a prepared object. */
  lemma {:induction false} MadeByNew(s: State, t: State, q: PtrBase, o: Object, r: RefCount, w: State)
    requires Prepared(s, t, o) && o !in t.blockOf && o !in t.objects && q !in t.shared && q !in t.weaks
    requires r !in t.counts && r.obj == o && w == Adopted(t.(shared := t.shared[q := null]), q, o, r)
    ensures Made(s, w, q, |o.strong|, |o.weak|) && w.shared[q] == r && q !in s.shared && q !in s.weaks
    ensures var u := Without(w, o); s == u.(shared := u.shared - {q})
  {
    var u := Without(w, o);
    assert q !in Members(o);
    assert u.shared - {q} == t.shared - Members(o);
    assert u.objects == t.objects && u.counts == t.counts && u.blockOf == t.blockOf;
  }

  /** The members of an object that is not yet managed outlive any release. */
  lemma {:induction false} PreparedStays(s: State, t: State, o: Object, w: State)
    requires Prepared(s, t, o) && Adoptable(t, o) && Shrinks(t, w, {}) && t.objects <= t.blockOf.Keys
    ensures forall m :: m in o.strong ==> m in w.shared && w.shared[m] == null
    ensures forall m :: m in o.weak ==> m in w.weaks && w.weaks[m] == null
  {
    forall m: PtrBase | m.storage == o.storage ensures !Gone(t, w, m) {
    }
  }

  lemma {:induction false} PreparedShrinks(s: State, t: State, o: Object, w: State)
    requires Prepared(s, t, o) && Shrinks(t, w, {})
    ensures Shrinks(s, w.(shared := w.shared - Members(o), weaks := w.weaks - Members(o)), {})
  {
    var u := w.(shared := w.shared - Members(o), weaks := w.weaks - Members(o));
    forall p | Gone(t, w, p) ensures Gone(s, u, p) {
    }
    forall p | p in s.shared ensures p in t.shared - Members(o) {
    }
    forall p | p in s.weaks ensures p in t.weaks - Members(o) {
    }
  }

  lemma {:induction false} PreparedBut(s: State, t: State, o: Object, p: PtrBase)
    requires Prepared(s, t, o) && MoreEmpty(s, t) && Adoptable(t, o) && p in s.shared
    ensures p !in Members(o)
    ensures var u, v := s.(shared := s.shared[p := null]), t.(shared := t.shared[p := null]);
      Prepared(u, v, o) && MoreEmpty(u, v) && Adoptable(v, o)
  {
    assert p in t.shared - Members(o);
    assert t.shared[p := null] - Members(o) == s.shared[p := null];
  }

  lemma {:induction false} PreparedSettles(s: State, t: State, o: Object, w: State)
    requires Prepared(s, t, o) && MoreEmpty(s, t) && Adoptable(t, o) && Settles(t, w) && t.objects <= t.blockOf.Keys
    ensures Settles(s, w.(shared := w.shared - Members(o), weaks := w.weaks - Members(o)))
    ensures forall m :: m in o.strong ==> m in w.shared && w.shared[m] == null && m !in s.shared
    ensures forall m :: m in o.weak ==> m in w.weaks && w.weaks[m] == null && m !in s.weaks
    ensures w.objects <= t.objects && w.counts <= t.counts && w.blockOf == t.blockOf
  {
    hide Adoptable;
    hide Anchored;
    hide MoreEmpty;
    hide Shrinks;
    PreparedStays(s, t, o, w);
    PreparedShrinks(s, t, o, w);
    ShrunkKeys(t, w, {});
    forall x | x in s.objects ensures Anchored(s, x) <==> Anchored(t, x) {
      SameAnchors(s, t, x);
    }
  }

  /** Adopted without the object that was adopted. */
  lemma {:induction false} Unadopted(w: State, p: PtrBase, o: Object, r: RefCount)
    requires p in w.shared && w.shared[p] == null && p !in Members(o) && r.obj == o && r !in w.counts
    requires o !in w.objects && o !in w.blockOf
    ensures var w' := Adopted(w, p, o, r);
      && o in w'.blockOf && w'.shared[p] == r
      && var u := Without(w', o);
        u.(shared := u.shared[p := null]) == w.(shared := w.shared - Members(o), weaks := w.weaks - Members(o))
  {
    var w' := Adopted(w, p, o, r);
    var u := Without(w', o);
    assert u.shared[p := null] == w.shared - Members(o);
    assert u.objects == w.objects && u.counts == w.counts && u.blockOf == w.blockOf;
  }

  /** A reset handle that manages a prepared object. */
  lemma {:induction false} MadeByReset(s: State, t: State, p: PtrBase, o: Object, r: RefCount, w: State)
    requires Prepared(s, t, o) && MoreEmpty(s, t) && Adoptable(t, o) && p in s.shared && r !in t.counts
    requires t.objects <= t.blockOf.Keys
    requires r.obj == o && Settles(t.(shared := t.shared[p := null]), w) && p in w.shared && w.shared[p] == null
    ensures var w' := Adopted(w, p, o, r);
      && Made(s, w', p, |o.strong|, |o.weak|) && w'.shared[p] == r
      && var u := Without(w', o); Settles(s.(shared := s.shared[p := null]), u.(shared := u.shared[p := null]))
  {
    hide Settles;
    hide MoreEmpty;
    PreparedBut(s, t, o, p);
    PreparedSettles(s.(shared := s.shared[p := null]), t.(shared := t.shared[p := null]), o, w);
    Unadopted(w, p, o, r);
  }

  lemma {:induction false} SameDoomed(s: State, t: State, p: PtrBase)
    requires MoreEmpty(s, t) && p in s.shared
    ensures Doomed(s, p) <==> Doomed(t, p)
    ensures p in t.shared && (Inside(s, p) ==> Inside(t, p))
  {
    var u, v := s.(shared := s.shared[p := null]), t.(shared := t.shared[p := null]);
    forall keep ensures Closed(u, keep) <==> Closed(v, keep) {
      SameClosed(u, v, keep);
    }
    forall o ensures Anchored(u, o) <==> Anchored(v, o) {
    }
  }

  class Client {
    const mem: Memory
    var strong: seq<PtrBase>
    var weak: seq<PtrBase>

    static ghost predicate Alive(s: State, strong: seq<PtrBase>, weak: seq<PtrBase>) {
      && NoDup(strong) && (forall p :: p in strong ==> p in s.shared && p.storage == null)
      && NoDup(weak) && (forall p :: p in weak ==> p in s.weaks && p.storage == null)
    }

    /** The client's own handles are alive and lie in no object. */
    ghost predicate Own()
      reads this, mem
    {
      Alive(mem.s, strong, weak)
    }

    /** A SharedPtr that refers to something is one of these or lies in an object. */
    static ghost predicate Covered(s: State, own: seq<PtrBase>) {
      forall p :: p in s.shared && s.shared[p] != null ==> p in own || Inside(s, p)
    }

    static lemma {:induction false} StaysCovered(s: State, own: seq<PtrBase>, t: State, own': seq<PtrBase>)
      requires Covered(s, own) && s.blockOf.Keys <= t.blockOf.Keys
      requires forall p :: p in t.shared && t.shared[p] != null ==>
                p in own' || Inside(s, p) || (p in s.shared && s.shared[p] != null && p !in own)
      ensures Covered(t, own')
    {
      forall p | Inside(s, p) ensures Inside(t, p) {
        var o :| o in s.blockOf && o.storage == p.storage;
        assert o in t.blockOf;
      }
    }

    ghost function Now(): View
      reads this, mem
    {
      View(mem.s, strong, weak)
    }

    ghost predicate Valid()
      reads this, mem, mem.s.shared.Keys, mem.s.weaks.Keys, mem.s.counts
    {
      mem.Valid() && Own() && Covered(mem.s, strong)
    }

    /** The handles and blocks that have joined are new. */
    twostate predicate OnlyNew()
      reads this, mem
    {
      && fresh(mem.s.shared.Keys - old(mem.s.shared.Keys)) && fresh(mem.s.weaks.Keys - old(mem.s.weaks.Keys))
      && fresh(mem.s.counts - old(mem.s.counts))
    }

    constructor ()
      ensures Valid() && fresh(mem) && strong == [] && weak == []
      ensures mem.s == State(map[], map[], {}, {}, {}, map[], [], [])
    {
      mem := new Memory();
      strong, weak := [], [];
    }

    lemma {:induction false} MembersThere(p: PtrBase)
      requires mem.Valid() && p in mem.s.shared
      ensures p.data == if mem.s.shared[p] == null then null else mem.s.shared[p].obj
      ensures p.data != null ==> forall m :: m in p.data.strong ==> m in mem.s.shared && Inside(mem.s, m)
      ensures p.data != null ==> forall m :: m in p.data.weak ==> m in mem.s.weaks
    {
      mem.Target(p);
      if p.refCount != null {
        assert CountOk(mem.s, p.refCount);
        assert ObjectOk(mem.s, p.data);
      }
    }

    /** The handle at a place, if there is one. */
    method At(x: Place) returns (p: PtrBase?)
      requires Valid()
      ensures p == Resolve(mem.s, strong, x)
      ensures p != null ==>
                p in mem.s.shared && (p in strong || Inside(mem.s, p)) && (x.path == [] ==> p.storage == null)
    {
      hide Memory.Running;
      if x.i >= |strong| {
        return null;
      }
      p := strong[x.i];
      var k := 0;
      while k < |x.path|
        invariant k <= |x.path| && p in mem.s.shared && (p in strong || Inside(mem.s, p))
        invariant (k == 0 ==> p.storage == null) && Resolve(mem.s, strong, x) == Follow(mem.s, p, x.path[k..])
      {
        MembersThere(p);
        assert x.path[k..][1..] == x.path[k + 1..];
        if p.data == null || x.path[k] >= |p.data.strong| {
          return null;
        }
        p := p.data.strong[x.path[k]];
        k := k + 1;
      }
    }

    /** The WeakPtr at a place, if there is one. */
    method WeakAt(w: WeakPlace) returns (p: PtrBase?)
      requires Valid()
      ensures p == ResolveWeak(Now(), w) && (p != null ==> p in mem.s.weaks)
    {
      hide Memory.Running;
      match w
      case Mine(i) =>
        p := if i < |weak| then weak[i] else null;
      case In(x, k) =>
        var q := At(x);
        if q != null {
          MembersThere(q);
        }
        p := if q != null && q.data != null && k < |q.data.weak| then q.data.weak[k] else null;
    }

    /** Handles outside of all objects outlive any release, here from u to t, and none appears. */
    static lemma {:induction false} OutsideStays(s: State, u: State, t: State, strong: seq<PtrBase>, weak: seq<PtrBase>)
      requires Alive(u, strong, weak) && Covered(s, strong) && Settles(u, t)
      requires u.blockOf == s.blockOf
      requires forall p :: p in u.shared && u.shared[p] != null ==>
                p in strong || Inside(s, p) || (p in s.shared && s.shared[p] != null)
      ensures Alive(t, strong, weak) && Covered(t, strong)
      ensures t.shared.Keys <= u.shared.Keys && t.weaks.Keys <= u.weaks.Keys && t.counts <= u.counts
      ensures t.blockOf == s.blockOf
    {
      forall p | Inside(s, p) ensures Inside(t, p) {
        var o :| o in s.blockOf && o.storage == p.storage;
        assert o in t.blockOf;
      }
    }

    static lemma {:induction false} EmptyNoDup()
      ensures NoDup<PtrBase>([])
    {
    }

    static lemma {:induction false} OneMore(s: seq<PtrBase>, p: PtrBase)
      requires NoDup(s) && p !in s
      ensures NoDup(s + [p]) && forall q :: q in s + [p] <==> q in s || q == p
    {
      assert forall i {:trigger (s + [p])[i]} :: 0 <= i < |s| ==> (s + [p])[i] == s[i] && s[i] in s;
    }

    static lemma {:induction false} OneLess(s: seq<PtrBase>, i: nat, t: seq<PtrBase>)
      requires NoDup(s) && i < |s| && t == s[..i] + s[i + 1..]
      ensures NoDup(t) && forall q :: q in t ==> q in s && q != s[i]
    {
      NoDupIsDistinct(s);
      assert forall k :: 0 <= k < |t| ==> t[k] == s[if k < i then k else k + 1];
      NoDupIsDistinct(t);
    }

    method Keep(p: PtrBase, ghost was: State)
      requires mem.Valid() && Own() && p in mem.s.shared && p.storage == null && p !in strong
      requires Covered(was, strong) && was.blockOf.Keys <= mem.s.blockOf.Keys
      requires forall q :: q in mem.s.shared && mem.s.shared[q] != null ==>
                q == p || (q in was.shared && was.shared[q] != null)
      modifies this`strong
      ensures Valid() && strong == old(strong) + [p]
    {
      hide Memory.Valid;
      OneMore(strong, p);
      StaysCovered(was, strong, mem.s, strong + [p]);
      strong := strong + [p];
    }

    method KeepWeak(p: PtrBase)
      requires Valid() && p in mem.s.weaks && p.storage == null && p !in weak
      modifies this`weak
      ensures Valid() && weak == old(weak) + [p]
    {
      hide Memory.Valid;
      OneMore(weak, p);
      weak := weak + [p];
    }

    /** n empty SharedPtrs that are to be members of an object in this storage */
    method NewStrong(storage: Storage, n: nat) returns (s: seq<PtrBase>)
      requires mem.Valid() && Own() && mem.Unbuilt(mem.s, storage)
      requires forall p :: p in mem.s.shared ==> p.storage != storage
      modifies mem
      ensures mem.Valid() && Own() && OnlyNew() && NoDup(s) && |s| == n
      ensures mem.s == old(mem.s).(shared := mem.s.shared) && old(mem.s.shared.Keys) <= mem.s.shared.Keys
      ensures forall p :: p in s ==> p in mem.s.shared && p.storage == storage
      ensures forall p :: p in mem.s.shared ==>
          if p in old(mem.s.shared) then mem.s.shared[p] == old(mem.s.shared[p]) else p in s && mem.s.shared[p] == null
    {
      hide Memory.Valid;
      hide NoDup;
      EmptyNoDup();
      ghost var was := mem.s;
      s := [];
      while |s| < n
        invariant |s| <= n && mem.Valid() && Own() && OnlyNew() && NoDup(s)
        invariant mem.s == was.(shared := mem.s.shared) && was.shared.Keys <= mem.s.shared.Keys
        invariant forall p :: p in s ==> p in mem.s.shared && p.storage == storage
        invariant forall p :: p in mem.s.shared ==>
                  if p in was.shared then mem.s.shared[p] == was.shared[p] else p in s && mem.s.shared[p] == null
      {
        var p := mem.NewShared(null, storage);
        OneMore(s, p);
        s := s + [p];
      }
    }

    method NewWeak(storage: Storage, n: nat) returns (w: seq<PtrBase>)
      requires mem.Valid() && Own() && mem.Unbuilt(mem.s, storage)
      requires forall p :: p in mem.s.weaks ==> p.storage != storage
      modifies mem
      ensures mem.Valid() && Own() && OnlyNew() && NoDup(w) && |w| == n
      ensures mem.s == old(mem.s).(weaks := mem.s.weaks) && old(mem.s.weaks.Keys) <= mem.s.weaks.Keys
      ensures forall p :: p in w ==> p in mem.s.weaks && p.storage == storage
      ensures forall p :: p in mem.s.weaks ==>
          if p in old(mem.s.weaks) then mem.s.weaks[p] == old(mem.s.weaks[p]) else p in w && mem.s.weaks[p] == null
    {
      hide Memory.Valid;
      ghost var was := mem.s;
      w := [];
      while |w| < n
        invariant |w| <= n && mem.Valid() && Own() && OnlyNew() && NoDup(w)
        invariant mem.s == was.(weaks := mem.s.weaks) && was.weaks.Keys <= mem.s.weaks.Keys
        invariant forall p :: p in w ==> p in mem.s.weaks && p.storage == storage
        invariant forall p :: p in mem.s.weaks ==>
                  if p in was.weaks then mem.s.weaks[p] == was.weaks[p] else p in w && mem.s.weaks[p] == null
      {
        var p := mem.NewWeak(storage);
        OneMore(w, p);
        w := w + [p];
      }
    }

    /** The handles that are to be members of an object in this storage */
    method NewMembers(storage: Storage, n: nat, k: nat) returns (s: seq<PtrBase>, w: seq<PtrBase>)
      requires Valid() && mem.Unbuilt(mem.s, storage)
      requires forall p :: p in mem.s.shared || p in mem.s.weaks ==> p.storage != storage
      modifies mem
      ensures Valid() && OnlyNew() && NoDup(s) && |s| == n && NoDup(w) && |w| == k
      ensures MoreEmpty(old(mem.s), mem.s) && mem.s == old(mem.s).(shared := mem.s.shared, weaks := mem.s.weaks)
      ensures forall p :: p in s ==> p in mem.s.shared && p.storage == storage && mem.s.shared[p] == null
      ensures forall p :: p in w ==> p in mem.s.weaks && p.storage == storage && mem.s.weaks[p] == null
      ensures forall p :: p in mem.s.shared && p.storage == storage ==> p in s
      ensures forall p :: p in mem.s.weaks && p.storage == storage ==> p in w
      ensures old(mem.s.weaks.Keys) <= mem.s.weaks.Keys
      ensures forall p :: p in mem.s.shared ==>
          if p in old(mem.s.shared) then mem.s.shared[p] == old(mem.s.shared[p]) else p in s
      ensures forall p :: p in mem.s.weaks ==>
          if p in old(mem.s.weaks) then mem.s.weaks[p] == old(mem.s.weaks[p]) else p in w
    {
      hide Memory.Valid;
      hide Alive;
      hide Covered;
      ghost var was := mem.s;
      s := NewStrong(storage, n);
      w := NewWeak(storage, k);
      StaysCovered(was, strong, mem.s, strong);
    }

    static lemma {:induction false} PreparedNow(s: State, t: State, o: Object, storage: Storage)
      requires t == s.(shared := t.shared, weaks := t.weaks) && s.shared.Keys <= t.shared.Keys
      requires s.weaks.Keys <= t.weaks.Keys
      requires forall p :: p in s.shared || p in s.weaks ==> p.storage != storage
      requires forall p :: p in o.strong ==> p in t.shared && p.storage == storage && t.shared[p] == null
      requires forall p :: p in o.weak ==> p in t.weaks && p.storage == storage && t.weaks[p] == null
      requires forall p :: p in t.shared ==> if p in s.shared then t.shared[p] == s.shared[p] else p in o.strong
      requires forall p :: p in t.weaks ==> if p in s.weaks then t.weaks[p] == s.weaks[p] else p in o.weak
      ensures Prepared(s, t, o)
    {
    }

    /** new T: an object with empty handles as members */
    method NewObject(n: nat, k: nat) returns (o: Object)
      requires Valid()
      modifies mem
      ensures Valid() && fresh(o) && Adoptable(mem.s, o) && |o.strong| == n && |o.weak| == k && OnlyNew()
      ensures MoreEmpty(old(mem.s), mem.s) && Prepared(old(mem.s), mem.s, o)
    {
      hide Memory.Running;
      hide Alive;
      hide Covered;
      ghost var was := mem.s;
      var storage := new Storage();
      var s, w := NewMembers(storage, n, k);
      o := new Object(storage, s, w);
      PreparedNow(was, mem.s, o, storage);
    }

    static lemma {:induction false} AdoptedFields(s: State, p: PtrBase, o: Object, r: RefCount)
      ensures Adopted(s, p, o, r).shared == s.shared[p := r] && Adopted(s, p, o, r).weaks == s.weaks
      ensures Adopted(s, p, o, r).counts == s.counts + {r} && s.blockOf.Keys <= Adopted(s, p, o, r).blockOf.Keys
    {
    }

    method AdoptOne(o: Object)
      requires Valid() && Adoptable(mem.s, o)
      modifies this`strong, mem
      ensures Valid() && OnlyNew()
      ensures OneMoreStrong(old(Now()), Now())
      ensures var q := strong[|old(strong)|];
        && q.refCount != null && fresh(q.refCount) && q.refCount.obj == o
        && mem.s == Adopted(old(mem.s).(shared := old(mem.s).shared[q := null]), q, o, q.refCount)
    {
      hide Memory.Valid;
      hide Adoptable;
      hide Covered;
      hide Adopted;
      ghost var was := mem.s;
      var p := mem.NewShared(o, null);
      AdoptedFields(was.(shared := was.shared[p := null]), p, o, p.refCount);
      Keep(p, was);
    }

    lemma {:induction false} NotYet(o: Object)
      requires Valid() && Adoptable(mem.s, o)
      ensures mem.s.objects <= mem.s.blockOf.Keys && o !in mem.s.blockOf && o !in mem.s.objects
    {
      GoodObjects(mem.s);
    }

    method MakeOne(n: nat, k: nat)
      requires Valid()
      modifies this`strong, mem
      ensures Valid() && OnlyNew() && Moves(old(Now()), Make(n, k), Now())
    {
      hide Valid;
      hide Adoptable;
      hide Prepared;
      hide Adopted;
      hide Made;
      hide Without;
      ghost var was := mem.s;
      var o := NewObject(n, k);
      ghost var t := mem.s;
      NotYet(o);
      AdoptOne(o);
      ghost var q := strong[|strong| - 1];
      MadeByNew(was, t, q, o, q.refCount, mem.s);
    }

    method CopyAt(p: PtrBase)
      requires p in mem.s.shared && Valid()
      modifies this`strong, mem, mem.s.counts
      ensures Valid() && OnlyNew() && OneMoreStrong(old(Now()), Now())
      ensures mem.s == old(mem.s).(shared := old(mem.s).shared[strong[|old(strong)|] := old(mem.s).shared[p]])
    {
      hide Memory.Valid;
      hide Covered;
      ghost var was := mem.s;
      var q := mem.CopyShared(p);
      Keep(q, was);
    }

    method CopyOne(x: Place)
      requires Valid()
      modifies this`strong, mem, mem.s.counts
      ensures Valid() && OnlyNew() && Moves(old(Now()), Copy(x), Now())
    {
      hide Resolve;
      hide Valid;
      hide OneMoreStrong;
      var p := At(x);
      if p != null { CopyAt(p); }
    }

    method MoveAt(p: PtrBase)
      requires p in mem.s.shared && Valid()
      modifies this`strong, mem, mem.s.shared.Keys
      ensures Valid() && OnlyNew() && OneMoreStrong(old(Now()), Now())
      ensures mem.s == old(mem.s).(shared := MovedLinks(old(mem.s).shared, strong[|old(strong)|], p))
    {
      hide Memory.Valid;
      hide Covered;
      ghost var was := mem.s;
      var q := mem.MoveShared(p);
      Keep(q, was);
    }

    method MoveOne(x: Place)
      requires Valid()
      modifies this`strong, mem, mem.s.shared.Keys
      ensures Valid() && OnlyNew() && Moves(old(Now()), Move(x), Now())
    {
      hide Resolve;
      hide Valid;
      hide OneMoreStrong;
      var p := At(x);
      if p != null { MoveAt(p); }
    }

    /** u is the state with the new link of p. */
    method CopyTo(p: PtrBase, q: PtrBase, ghost u: State)
      requires p in mem.s.shared && q in mem.s.shared && u == mem.s.(shared := mem.s.shared[p := mem.s.shared[q]])
      requires Valid() && (p in strong || Inside(mem.s, p))
      modifies mem, mem.s.shared.Keys, mem.s.weaks.Keys, mem.s.counts
      ensures Valid() && OnlyNew() && Settles(u, mem.s)
    {
      hide Memory.Valid;
      hide Settles;
      hide Covered;
      ghost var was := mem.s;
      mem.AssignShared(p, q);
      OutsideStays(was, u, mem.s, strong, weak);
    }

    method MoveTo(p: PtrBase, q: PtrBase, ghost u: State)
      requires p in mem.s.shared && q in mem.s.shared
      requires u == mem.s.(shared := mem.s.shared[q := null][p := mem.s.shared[q]])
      requires Valid() && (p in strong || Inside(mem.s, p))
      modifies mem, mem.s.shared.Keys, mem.s.weaks.Keys, mem.s.counts
      ensures Valid() && OnlyNew() && Settles(u, mem.s)
    {
      hide Memory.Valid;
      hide Settles;
      hide Covered;
      ghost var was := mem.s;
      mem.AssignMovedShared(p, q);
      OutsideStays(was, u, mem.s, strong, weak);
    }

    method AssignOne(x: Place, y: Place, move: bool)
      requires Valid()
      modifies mem, mem.s.shared.Keys, mem.s.weaks.Keys, mem.s.counts
      ensures Valid() && OnlyNew()
      ensures Moves(old(Now()), if move then AssignMoved(x, y) else Assign(x, y), Now())
    {
      hide Settles;
      hide Resolve;
      hide Memory.Valid;
      hide Covered;
      hide Alive;
      var p := At(x);
      var q := At(y);
      if p != null && q != null {
        if move {
          MoveTo(p, q, mem.s.(shared := mem.s.shared[q := null][p := mem.s.shared[q]]));
        } else {
          CopyTo(p, q, mem.s.(shared := mem.s.shared[p := mem.s.shared[q]]));
        }
      }
    }

    static lemma {:induction false} StillEmpty(s: State, p: PtrBase, t: State)
      requires p in s.shared && Settles(s.(shared := s.shared[p := null]), t) && p in t.shared
      ensures t.shared[p] == null
    {
    }

    method ResetAt(p: PtrBase, o: Object?) returns (broken: bool, ghost released: State)
      requires Valid() && (o != null ==> Adoptable(mem.s, o)) && p in mem.s.shared && (p in strong || Inside(mem.s, p))
      modifies mem, mem.s.shared.Keys, mem.s.weaks.Keys, mem.s.counts
      ensures !broken ==> Valid() && OnlyNew()
      ensures broken <==> Doomed(old(mem.s), p)
      ensures !broken ==> Settles(old(mem.s).(shared := old(mem.s).shared[p := null]), released)
      ensures !broken && o == null ==> mem.s == released
      ensures !broken && o != null ==> p.refCount != null && fresh(p.refCount) && p.refCount.obj == o
      ensures !broken && o != null ==>
                p in released.shared && released.shared[p] == null && mem.s == Adopted(released, p, o, p.refCount)
    {
      hide Memory.Valid;
      hide Settles;
      hide Anchored;
      hide Adoptable;
      hide Adopted;
      hide Covered;
      ghost var was := mem.s;
      broken, released := mem.Reset(p, o);
      if !broken {
        OutsideStays(was, was.(shared := was.shared[p := null]), released, strong, weak);
        StillEmpty(was, p, released);
        if o != null { AdoptedFields(released, p, o, p.refCount); }
        StaysCovered(released, strong, mem.s, strong);
      }
    }

    static lemma {:induction false} LiesInside(s: State, p: PtrBase)
      requires Doomed(s, p)
      ensures p.storage != null
    {
    }

    /** The handle at place x is emptied. */
    method ClearOne(x: Place) returns (broken: bool)
      requires Valid()
      modifies mem, mem.s.shared.Keys, mem.s.weaks.Keys, mem.s.counts
      ensures !broken ==> Valid() && OnlyNew()
      ensures broken <==> Breaks(old(Now()), Clear(x))
      ensures !broken ==> Moves(old(Now()), Clear(x), Now())
      ensures broken ==> x.path != []
    {
      hide Settles;
      hide Memory.Valid;
      hide Alive;
      hide Covered;
      hide Doomed;
      hide Resolve;
      ghost var was := mem.s;
      var p := At(x);
      if p == null {
        return false;
      }
      ghost var released;
      broken, released := ResetAt(p, null);
      if broken { LiesInside(was, p); }
    }

    method ResetToPrepared(p: PtrBase, o: Object, ghost was: State) returns (broken: bool)
      requires Valid() && p in was.shared && (p in strong || Inside(was, p))
      requires Prepared(was, mem.s, o) && MoreEmpty(was, mem.s) && Adoptable(mem.s, o)
      modifies mem, mem.s.shared.Keys, mem.s.weaks.Keys, mem.s.counts
      ensures !broken ==> Valid() && OnlyNew()
      ensures broken <==> Doomed(was, p)
      ensures !broken ==> Made(was, mem.s, p, |o.strong|, |o.weak|)
      ensures !broken ==>
                var t := Without(mem.s, mem.s.shared[p].obj);
                Settles(was.(shared := was.shared[p := null]), t.(shared := t.shared[p := null]))
    {
      hide Valid;
      hide Adoptable;
      hide Doomed;
      hide MoreEmpty;
      hide Prepared;
      hide Settles;
      hide Adopted;
      hide Made;
      hide Without;
      ghost var t := mem.s;
      SameDoomed(was, t, p);
      NotYet(o);
      ghost var released;
      broken, released := ResetAt(p, o);
      if !broken { MadeByReset(was, t, p, o, p.refCount, released); }
    }

    method RenewAt(p: PtrBase, n: nat, k: nat) returns (broken: bool)
      requires Valid() && p in mem.s.shared && (p in strong || Inside(mem.s, p))
      modifies mem, mem.s.shared.Keys, mem.s.weaks.Keys, mem.s.counts
      ensures !broken ==> Valid() && OnlyNew()
      ensures broken <==> Doomed(old(mem.s), p)
      ensures !broken ==> Made(old(mem.s), mem.s, p, n, k)
      ensures !broken ==>
                var t := Without(mem.s, mem.s.shared[p].obj);
                Settles(old(mem.s).(shared := old(mem.s).shared[p := null]), t.(shared := t.shared[p := null]))
    {
      hide Valid;
      hide Adoptable;
      hide Doomed;
      hide MoreEmpty;
      hide Prepared;
      hide Settles;
      hide Made;
      hide Without;
      ghost var was := mem.s;
      var o := NewObject(n, k);
      broken := ResetToPrepared(p, o, was);
    }

    /** The handle at place x is reset to manage a new object. */
    method RenewOne(x: Place, n: nat, k: nat) returns (broken: bool)
      requires Valid()
      modifies mem, mem.s.shared.Keys, mem.s.weaks.Keys, mem.s.counts
      ensures !broken ==> Valid() && OnlyNew()
      ensures broken <==> Breaks(old(Now()), Renew(x, n, k))
      ensures !broken ==> Moves(old(Now()), Renew(x, n, k), Now())
      ensures broken ==> x.path != []
    {
      hide Settles;
      hide Made;
      hide Without;
      hide Valid;
      hide Adoptable;
      hide Doomed;
      hide Resolve;
      hide MoreEmpty;
      ghost var was := mem.s;
      var p := At(x);
      if p == null {
        return false;
      }
      broken := RenewAt(p, n, k);
      if broken { LiesInside(was, p); }
    }

    /** The client's SharedPtr i has left its list already; u is the state without it. */
    method DestroyAt(p: PtrBase, ghost u: State)
      requires p in mem.s.shared && p.storage == null && u == mem.s.(shared := mem.s.shared - {p})
      requires mem.Valid() && Alive(u, strong, weak) && Covered(u, strong)
      modifies mem, mem.s.shared.Keys, mem.s.weaks.Keys, mem.s.counts
      ensures Valid() && OnlyNew() && Settles(u, mem.s)
    {
      hide Memory.Valid;
      hide Settles;
      hide Covered;
      OutsideIsLoose(mem.s, p);
      mem.DestroyShared(p);
      OutsideStays(u, u, mem.s, strong, weak);
    }

    lemma {:induction false} AliveWithout(i: nat, rest: seq<PtrBase>)
      requires Valid() && i < |strong| && rest == strong[..i] + strong[i + 1..]
      ensures strong[i] in mem.s.shared && strong[i].storage == null
      ensures var u := mem.s.(shared := mem.s.shared - {strong[i]}); Alive(u, rest, weak) && Covered(u, rest)
    {
      hide Memory.Valid;
      hide Covered;
      var u := mem.s.(shared := mem.s.shared - {strong[i]});
      OneLess(strong, i, rest);
      assert strong[i] in strong;
      assert forall q :: q in rest ==> q in strong && q in u.shared;
      StaysCovered(mem.s, strong, u, rest);
    }

    method DestroyOne(i: nat)
      requires Valid() && i < |strong|
      modifies this`strong, mem, mem.s.shared.Keys, mem.s.weaks.Keys, mem.s.counts
      ensures Valid() && OnlyNew() && strong == old(strong[..i] + strong[i + 1..])
      ensures Moves(old(Now()), Destroy(i), Now())
    {
      hide Settles;
      hide Covered;
      hide Alive;
      hide Memory.Running;
      var p := strong[i];
      var rest := strong[..i] + strong[i + 1..];
      AliveWithout(i, rest);
      strong := rest;
      DestroyAt(p, mem.s.(shared := mem.s.shared - {p}));
    }

    method WatchAt(p: PtrBase)
      requires p in mem.s.shared && Valid()
      modifies this`weak, mem, mem.s.counts
      ensures Valid() && OnlyNew() && OneMoreWeak(old(Now()), Now())
      ensures mem.s == old(mem.s).(weaks := old(mem.s).weaks[weak[|old(weak)|] := old(mem.s).shared[p]])
    {
      hide Memory.Valid;
      hide Covered;
      ghost var was := mem.s;
      var w := mem.CopyWeak(p);
      StaysCovered(was, strong, mem.s, strong);
      KeepWeak(w);
    }

    method WatchOne(x: Place)
      requires Valid()
      modifies this`weak, mem, mem.s.counts
      ensures Valid() && OnlyNew() && WeakMoves(old(Now()), Watch(x), Now())
    {
      hide Resolve;
      hide Valid;
      hide OneMoreWeak;
      var p := At(x);
      if p != null { WatchAt(p); }
    }

    lemma {:induction false} WeakOnly(w: PtrBase)
      requires mem.Valid() && w in mem.s.weaks
      ensures w !in mem.s.shared
    {
    }

    method CopyWeakAt(w: PtrBase)
      requires w in mem.s.weaks && Valid()
      modifies this`weak, mem, mem.s.counts
      ensures Valid() && OnlyNew() && OneMoreWeak(old(Now()), Now())
      ensures mem.s == old(mem.s).(weaks := old(mem.s).weaks[weak[|old(weak)|] := old(mem.s).weaks[w]])
    {
      hide Memory.Valid;
      hide Covered;
      ghost var was := mem.s;
      WeakOnly(w);
      var p := mem.CopyWeak(w);
      StaysCovered(was, strong, mem.s, strong);
      KeepWeak(p);
    }

    method MoveWeakAt(w: PtrBase)
      requires w in mem.s.weaks && Valid()
      modifies this`weak, mem, mem.s.weaks.Keys
      ensures Valid() && OnlyNew() && OneMoreWeak(old(Now()), Now())
      ensures mem.s == old(mem.s).(weaks := MovedLinks(old(mem.s).weaks, weak[|old(weak)|], w))
    {
      hide Memory.Valid;
      hide Covered;
      ghost var was := mem.s;
      WeakOnly(w);
      var p := mem.MoveWeak(w);
      StaysCovered(was, strong, mem.s, strong);
      KeepWeak(p);
    }

    /** m is the links with the new one of w. */
    method AssignOneWeak(w: PtrBase, v: PtrBase, move: bool, ghost m: Links)
      requires w in mem.s.weaks && v in mem.s.weaks
      requires m == (if move then mem.s.weaks[v := null] else mem.s.weaks)[w := mem.s.weaks[v]]
      requires Valid()
      modifies mem, mem.s.weaks.Keys, mem.s.counts
      ensures Valid() && OnlyNew() && WeakLinks(old(mem.s), mem.s, m)
    {
      hide Memory.Valid;
      hide Covered;
      ghost var was := mem.s;
      WeakOnly(v);
      if move {
        mem.AssignMovedWeak(w, v);
      } else {
        mem.AssignWeak(w, v);
      }
      StaysCovered(was, strong, mem.s, strong);
    }

    method AssignOneWatch(w: PtrBase, p: PtrBase)
      requires Valid() && w in mem.s.weaks && p in mem.s.shared
      modifies mem, mem.s.weaks.Keys, mem.s.counts
      ensures Valid() && OnlyNew() && WeakLinks(old(mem.s), mem.s, old(mem.s).weaks[w := old(mem.s).shared[p]])
    {
      hide Memory.Valid;
      hide Covered;
      ghost var was := mem.s;
      mem.AssignWeak(w, p);
      StaysCovered(was, strong, mem.s, strong);
    }

    method LockOne(w: PtrBase)
      requires Valid() && w in mem.s.weaks
      modifies this`strong, mem, mem.s.counts
      ensures Valid() && OnlyNew()
      ensures OneMoreStrong(old(Now()), Now())
      ensures var q, r := strong[|old(strong)|], old(mem.s).weaks[w];
        mem.s
        == old(mem.s).(shared := old(mem.s).shared[q := if r == null || r.obj !in old(mem.s).objects then null else r])
    {
      hide Memory.Valid;
      hide Covered;
      ghost var was := mem.s;
      var p := mem.Lock(w);
      Keep(p, was);
    }

    /** The operations on one WeakPtr at any place. */
    method WeakStep(op: Op)
      requires Valid() && (op.CopyWeak? || op.MoveWeak? || op.Lock?)
      modifies this`strong, this`weak, mem, mem.s.weaks.Keys, mem.s.counts
      ensures Valid() && OnlyNew() && WeakMoves(old(Now()), op, Now())
    {
      hide Valid;
      hide ResolveWeak;
      hide OneMoreStrong;
      hide OneMoreWeak;
      hide Resolve;
      var w := WeakAt(op.w);
      if w == null {
        return;
      }
      if op.Lock? {
        LockOne(w);
      } else if op.MoveWeak? {
        MoveWeakAt(w);
      } else {
        CopyWeakAt(w);
      }
    }

    method AssignWatchStep(x: WeakPlace, y: Place)
      requires Valid()
      modifies mem, mem.s.weaks.Keys, mem.s.counts
      ensures Valid() && OnlyNew() && WeakMoves(old(Now()), AssignWatch(x, y), Now())
    {
      hide Valid;
      hide ResolveWeak;
      hide Resolve;
      var w := WeakAt(x);
      var p := At(y);
      if w != null && p != null { AssignOneWatch(w, p); }
    }

    /** The assignments between two WeakPtrs at any places. */
    method AssignWeakStep(x: WeakPlace, y: WeakPlace, move: bool)
      requires Valid()
      modifies mem, mem.s.weaks.Keys, mem.s.counts
      ensures Valid() && OnlyNew()
      ensures WeakMoves(old(Now()), if move then AssignMovedWeak(x, y) else AssignWeak(x, y), Now())
    {
      hide Valid;
      hide ResolveWeak;
      hide Resolve;
      var w := WeakAt(x);
      var v := WeakAt(y);
      if w != null && v != null {
        ghost var m := if move then mem.s.weaks[v := null] else mem.s.weaks;
        AssignOneWeak(w, v, move, m[w := mem.s.weaks[v]]);
      }
    }

    method DestroyOneWeak(w: nat)
      requires Valid() && w < |weak|
      modifies this`weak, mem, mem.s.weaks.Keys, mem.s.counts
      ensures Valid() && OnlyNew() && WeakMoves(old(Now()), DestroyWeak(w), Now())
    {
      hide Memory.Valid;
      hide Covered;
      ghost var was := mem.s;
      var p := weak[w];
      var rest := weak[..w] + weak[w + 1..];
      OneLess(weak, w, rest);
      weak := rest;
      OutsideIsLoose(mem.s, p);
      mem.DestroyWeak(p);
      StaysCovered(was, strong, mem.s, strong);
    }

    static lemma {:induction false} NotThere(v: View, i: nat)
      ensures i >= |v.strong| ==> Moves(v, Destroy(i), v)
      ensures i >= |v.weak| ==> WeakMoves(v, DestroyWeak(i), v)
    {
    }

    method Step(op: Op) returns (broken: bool)
      requires Valid()
      modifies this`strong, this`weak, mem, mem.s.shared.Keys, mem.s.weaks.Keys, mem.s.counts
      ensures !broken ==> Valid() && OnlyNew()
      ensures broken <==> old(Breaks(Now(), op))
      ensures !broken ==> Follows(old(Now()), op, Now())
      ensures broken ==> (op.Clear? || op.Renew?) && op.x.path != []
    {
      hide Valid;
      hide Resolve;
      hide Doomed;
      hide Moves;
      hide WeakMoves;
      broken := false;
      match op
      case Make(n, k) => MakeOne(n, k);
      case Copy(x) => CopyOne(x);
      case Move(x) => MoveOne(x);
      case Assign(x, y) => AssignOne(x, y, false);
      case AssignMoved(x, y) => AssignOne(x, y, true);
      case Clear(x) => broken := ClearOne(x);
      case Renew(x, n, k) => broken := RenewOne(x, n, k);
      case Destroy(i) => if i < |strong| { DestroyOne(i); } else { NotThere(Now(), i); }
      case Watch(x) => WatchOne(x);
      case DestroyWeak(i) => if i < |weak| { DestroyOneWeak(i); } else { NotThere(Now(), i); }
      case AssignWeak(w, v) => AssignWeakStep(w, v, false);
      case AssignMovedWeak(w, v) => AssignWeakStep(w, v, true);
      case AssignWatch(w, x) => AssignWatchStep(w, x);
      case _ => WeakStep(op);
    }
  }

  ghost predicate AllLife(s: State) {
    forall o :: o in s.blockOf ==> Life(s, o)
  }

  /** What use_count and weak_count say, and what they keep alive. */
  ghost predicate Sound(mem: Memory)
    reads mem, mem.s.counts
  {
    && (forall r :: r in mem.s.counts ==>
        && r.useCount == |set p | p in mem.s.shared && mem.s.shared[p] == r|
        && r.weakCount == |set p | p in mem.s.weaks && mem.s.weaks[p] == r| + if r.useCount > 0 then 1 else 0)
    && AllLife(mem.s)
  }

  lemma {:induction false} CountsMean(c: Client, r: RefCount)
    requires c.Valid() && r in c.mem.s.counts
    ensures r.useCount == |set p | p in c.mem.s.shared && c.mem.s.shared[p] == r|
    ensures r.weakCount
         == |set p | p in c.mem.s.weaks && c.mem.s.weaks[p] == r| + if r.useCount > 0 then 1 else 0
  {
    hide Good;
    hide Housed;
    assert (set p | p in c.mem.s.shared && c.mem.s.shared[p] == r) == Refs(c.mem.s.shared, r);
    assert (set p | p in c.mem.s.weaks && c.mem.s.weaks[p] == r) == Refs(c.mem.s.weaks, r);
    assert r.useCount == |Refs(c.mem.s.shared, r)| && r.weakCount == Weight(c.mem.s, r);
  }

  lemma {:induction false} ValidIsSound(c: Client)
    requires c.Valid()
    ensures Sound(c.mem) && AllLife(c.mem.s)
  {
    forall o | o in c.mem.s.blockOf ensures Life(c.mem.s, o) {
      Lifetimes(c.mem.s, o);
    }
    forall r | r in c.mem.s.counts
      ensures r.useCount == |set p | p in c.mem.s.shared && c.mem.s.shared[p] == r|
      ensures r.weakCount
           == |set p | p in c.mem.s.weaks && c.mem.s.weaks[p] == r| + if r.useCount > 0 then 1 else 0
    {
      CountsMean(c, r);
    }
  }

  lemma {:induction false} NothingLeft(c: Client, rank: Object -> nat)
    requires c.Valid() && c.strong == [] && Acyclic(c.mem.s, rank)
    ensures c.mem.s.objects == {}
  {
    AcyclicLeavesNothing(c.mem.s, rank);
  }

  lemma {:induction false} StartsSettled(c: Client)
    requires c.Valid()
    ensures Settles(c.mem.s, c.mem.s) && c.mem.s.objects <= c.mem.s.blockOf.Keys
  {
    SettledAsIs(c.mem.s);
    GoodObjects(c.mem.s);
  }

  lemma {:induction false} DropOne(s: State, dropped: set<PtrBase>, t: State, p: PtrBase, w: State)
    requires s.objects <= s.blockOf.Keys && Settles(s.(shared := s.shared - dropped), t)
    requires Settles(t.(shared := t.shared - {p}), w)
    ensures Settles(s.(shared := s.shared - (dropped + {p})), w)
  {
    hide Settles;
    SettlesTwice(s.(shared := s.shared - dropped), t, {p}, w);
    assert s.shared - dropped - {p} == s.shared - (dropped + {p});
  }

  /** What one Destroy of the first SharedPtr does. */
  method DropFirst(c: Client, ghost s: State, ghost dropped: set<PtrBase>)
    requires c.Valid() && c.strong != [] && s.objects <= s.blockOf.Keys
    requires Settles(s.(shared := s.shared - dropped), c.mem.s)
    modifies c`strong, c.mem, c.mem.s.shared.Keys, c.mem.s.weaks.Keys, c.mem.s.counts
    ensures c.Valid() && c.OnlyNew() && c.strong == old(c.strong)[1..]
    ensures Settles(s.(shared := s.shared - (dropped + {old(c.strong)[0]})), c.mem.s)
  {
    hide Client.Valid;
    hide Settles;
    ghost var t, p := c.mem.s, c.strong[0];
    c.DestroyOne(0);
    DropOne(s, dropped, t, p, c.mem.s);
  }

  /** The client's own SharedPtrs go: exactly the objects are left that keep each other alive without them. */
  method DropAll(c: Client, ghost own: set<PtrBase>)
    requires c.Valid() && own == set p | p in c.strong
    modifies c`strong, c.mem, c.mem.s.shared.Keys, c.mem.s.weaks.Keys, c.mem.s.counts
    ensures c.Valid() && c.strong == []
    ensures Settles(old(c.mem.s).(shared := old(c.mem.s).shared - own), c.mem.s)
  {
    hide Client.Valid;
    hide Settles;
    ghost var s, dropped: set<PtrBase> := c.mem.s, {};
    StartsSettled(c);
    assert s.(shared := s.shared - dropped) == s;
    while c.strong != []
      invariant c.Valid() && c.OnlyNew()
      invariant dropped + (set p | p in c.strong) == own
      invariant Settles(s.(shared := s.shared - dropped), c.mem.s)
      decreases |c.strong|
    {
      ghost var p := c.strong[0];
      assert c.strong == [p] + c.strong[1..];
      DropFirst(c, s, dropped);
      dropped := dropped + {p};
    }
    assert dropped == own;
  }

  /** Any run gets through exactly if no reset in it destroys the very object that its handle lies in.  Every state
      follows from the one before as its operation says, objects and blocks live exactly as long as they should, and all
      counts are right.  The client then drops its handles: exactly the objects are left that keep each other alive
      without them, and if no object holds itself, however indirectly, there are none. */
  method Run(ops: seq<Op>) returns (c: Client, done: nat, ghost views: seq<View>)
    ensures done <= |ops| && |views| == done + 1
    ensures views[0] == View(State(map[], map[], {}, {}, {}, map[], [], []), [], [])
    ensures forall i :: 0 <= i < done ==> !Breaks(views[i], ops[i]) && Follows(views[i], ops[i], views[i + 1])
    ensures forall i :: 0 <= i <= done ==> AllLife(views[i].s)
    ensures done < |ops| ==> Breaks(views[done], ops[done]) && ops[done].x.path != []
    ensures done == |ops| ==> c.Valid() && Sound(c.mem) && c.strong == []
    ensures done == |ops| ==>
              var s, own := views[done].s, set p | p in views[done].strong;
              Settles(s.(shared := s.shared - own), c.mem.s)
    ensures done == |ops| ==> forall rank :: Acyclic(c.mem.s, rank) ==> c.mem.s.objects == {}
  {
    hide Client.Valid;
    hide Sound;
    hide AllLife;
    hide Breaks;
    hide Follows;
    hide Settles;
    c := new Client();
    done := 0;
    ValidIsSound(c);
    views := [c.Now()];
    while done < |ops|
      invariant done <= |ops| && c.Valid() && fresh(c) && fresh(c.mem)
      invariant fresh(c.mem.s.shared.Keys) && fresh(c.mem.s.weaks.Keys) && fresh(c.mem.s.counts)
      invariant |views| == done + 1 && views[done] == c.Now()
      invariant views[0] == View(State(map[], map[], {}, {}, {}, map[], [], []), [], [])
      invariant forall i :: 0 <= i < done ==> !Breaks(views[i], ops[i]) && Follows(views[i], ops[i], views[i + 1])
      invariant forall i :: 0 <= i <= done ==> AllLife(views[i].s)
    {
      var broken := c.Step(ops[done]);
      if broken {
        return;
      }
      done := done + 1;
      ValidIsSound(c);
      views := views + [c.Now()];
    }
    DropAll(c, set p | p in c.strong);
    ValidIsSound(c);
    forall rank | Acyclic(c.mem.s, rank) ensures c.mem.s.objects == {} {
      NothingLeft(c, rank);
    }
  }
}
