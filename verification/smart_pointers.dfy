/** src/gtl/memory/smart_pointers.h: the operations of SharedPtr and WeakPtr on handles and count blocks.
    Memory is ghost bookkeeping: s says what is alive, and each operation keeps the real counters equal to it. */
module SmartPointers {
  import opened SinglyList
  import opened RefCounts

  class Memory {
    ghost var s: State

    /** The handles in m have the fields that m gives them. */
    static ghost predicate Tied(m: Links)
      reads m.Keys
    {
      forall p :: p in m ==> p.refCount == m[p] && p.data == if m[p] == null then null else m[p].obj
    }

    /** m without a handle that a reset holds. */
    static ghost function But(m: Links, held: PtrBase?): Links {
      if held == null then m else m - {held}
    }

    /** Handles outside of x are as they were, those in x have been seen to. */
    static twostate lemma RestTied(m: Links, new n: Links, new x: set<PtrBase>)
      requires old(Tied(m))
      requires forall p :: p in n && p !in x ==> p in m && n[p] == m[p] && unchanged(p)
      requires forall p :: p in n && p in x ==> p.refCount == n[p] && p.data == if n[p] == null then null else n[p].obj
      ensures Tied(n)
    {
    }

    static lemma {:induction false} TiedLess(m: Links, n: Links)
      requires Tied(m) && forall q :: q in n ==> q in m && n[q] == m[q]
      ensures Tied(n)
    {
    }

    /** What use_count should be; it has wrapped below zero when held, in the midst of a reset, was released again. */
    static ghost function Uses(m: Links, held: PtrBase?, r: RefCount): nat
      reads (if held == null then {} else {held})`refCount
    {
      if held != null && held !in m && held.refCount == r then SIZE_MAX else |Refs(m, r)|
    }

    /** The counters of every block are right. */
    static ghost predicate Counted(t: State, held: PtrBase?)
      reads (if held == null then {} else {held})`refCount, t.counts
    {
      forall r :: r in t.counts ==> r.useCount == Uses(t.shared, held, r) && r.weakCount == Weight(t, r)
    }

    static twostate lemma StillCounted(t: State)
      requires (forall r :: r in t.counts ==> unchanged(r)) && old(Counted(t, null))
      ensures Counted(t, null)
    {
    }

    static lemma {:induction false} Recounted(t: State, u: State)
      requires Counted(t, null) && SameCounts(t, u)
      ensures Counted(u, null)
    {
    }

    /** The fields of every live handle and block agree with the bookkeeping, but for a handle held in a reset. */
    ghost predicate Linked(held: PtrBase?)
      reads this, s.shared.Keys, s.weaks.Keys, s.counts, held
    {
      Tied(But(s.shared, held)) && Tied(s.weaks) && Counted(s, held)
    }

    /** A reset of held is under way: the object it referred to is being destroyed, but it still has the block. */
    ghost predicate Suspended(held: PtrBase?)
      reads this, held
    {
      held != null ==>
        && held !in s.weaks && held.refCount != null && held.refCount in s.dying
        && (held in s.shared ==> s.shared[held] == null)
    }

    /** What holds at all times, also while destructors run. */
    ghost predicate Running(held: PtrBase?)
      reads this, s.shared.Keys, s.weaks.Keys, s.counts, held
    {
      Good(s) && Housed(s) && Linked(held) && Suspended(held)
    }

    ghost predicate Valid()
      reads this, s.shared.Keys, s.weaks.Keys, s.counts
    {
      Running(null) && s.dying == {}
    }

    constructor ()
      ensures Valid() && s == State(map[], map[], {}, {}, {}, map[], [], [])
    {
      s := State(map[], map[], {}, {}, {}, map[], [], []);
    }

    lemma {:induction false} SweptHoused(was: State, p: PtrBase, r: RefCount, strongSide: bool)
      requires Good(was) && Housed(was) && (strongSide ==> Emptied(was, r.obj))
      ensures Housed(Swept(if strongSide then was.(dying := was.dying - {r}) else was.(weaks := was.weaks - {p}), r))
    {
      if strongSide {
        EndHoused(was, r);
      } else {
        StaysHoused(was, Swept(was.(weaks := was.weaks - {p}), r));
      }
    }

    /** All that DecWeakCount relies on. */
    lemma {:induction false} WeakLoss(p: PtrBase, r: RefCount, strongSide: bool, held: PtrBase?)
      requires Good(s) && Housed(s) && Linked(held) && p.refCount == r
      requires strongSide ==> r in s.dying && Emptied(s, r.obj)
      requires !strongSide ==> p in s.weaks && Loose(s, p)
      ensures Tied(But(s.shared, held)) && Tied(s.weaks) && r in s.counts && r.weakCount > 0
      ensures !strongSide ==> p !in s.shared
      ensures var u := if strongSide then s.(dying := s.dying - {r}) else s.(weaks := s.weaks - {p});
        && Good(Swept(u, r)) && Housed(Swept(u, r))
        && (forall c :: c in s.counts ==> Weight(u, c) == (if c == r then c.weakCount - 1 else c.weakCount))
        && (forall c :: c in s.counts ==> c.useCount == Uses(s.shared, held, c))
    {
      hide Good;
      hide Housed;
      hide Weight;
      hide Refs;
      hide Swept;
      if strongSide {
        EndOfLife(s, r);
      } else {
        DropWeak(s, p, r);
      }
      SweptHoused(s, p, r, strongSide);
    }

    lemma {:induction false} Relinked(held: PtrBase?)
      requires Tied(But(s.shared, held)) && Tied(s.weaks)
      requires forall c :: c in s.counts ==> c.useCount == Uses(s.shared, held, c) && c.weakCount == Weight(s, c)
      ensures Linked(held)
    {
    }

    // PtrBase

    /** DecWeakCount, for a WeakPtr that goes or, after DeleteData, for the strong side of the block. */
    method DecWeakCount(p: PtrBase, r: RefCount, ghost strongSide: bool, ghost held: PtrBase?)
      requires Good(s) && Housed(s) && Linked(held) && p.refCount == r
      requires strongSide ==> r in s.dying && p !in s.weaks && Emptied(s, r.obj) && (p in s.shared ==> p == held)
      requires !strongSide ==> p in s.weaks && Loose(s, p)
      requires p == held ==> p in s.shared
      modifies this, p, r
      ensures Good(s) && Housed(s) && Linked(held)
      ensures old(Suspended(held)) && p != held && (held == null || held.refCount != r || !strongSide) ==>
                Suspended(held)
      ensures strongSide ==> s == Swept(old(s).(dying := old(s).dying - {r}), r)
      ensures !strongSide ==> s == Swept(old(s).(weaks := old(s).weaks - {p}), r)
    {
      hide Good;
      hide Housed;
      hide Linked;
      hide Tied;
      hide Weight;
      hide Refs;
      hide Emptied;
      ghost var was, u := s, if strongSide then s.(dying := s.dying - {r}) else s.(weaks := s.weaks - {p});
      WeakLoss(p, r, strongSide, held);
      SweptWeight(u, r);
      hide Swept;
      r.weakCount := r.weakCount - 1;
      s := Swept(u, r);
      if r.weakCount == 0 {
        p.refCount := null;
      }
      RestTied(But(was.shared, held), But(s.shared, held), {});
      RestTied(was.weaks, s.weaks, {});
      Relinked(held);
    }

    lemma {:induction false} WeakTarget(p: PtrBase, held: PtrBase?)
      requires Running(held) && p in s.weaks
      ensures p.refCount == s.weaks[p] && p.data == (if p.refCount == null then null else p.refCount.obj)
      ensures (p.refCount != null ==> p.refCount in s.counts) && p !in s.shared && p != held
    {
    }

    /** ~WeakPtr() */
    method DropWeakPtr(p: PtrBase, ghost held: PtrBase?)
      requires Running(held) && p in s.weaks && Loose(s, p)
      modifies this, s.weaks.Keys, s.counts
      ensures Running(held) && Shrinks(old(s), s, {p}) && p !in s.weaks
      ensures s.dying == old(s).dying && s.objects == old(s).objects && s.shared == old(s).shared
      ensures s.blockOf == old(s).blockOf
    {
      hide Good;
      hide Housed;
      hide Weight;
      hide Refs;
      ghost var was := s;
      var r := p.refCount;
      WeakTarget(p, held);
      if r != null {
        DecWeakCount(p, r, false, held);
      } else {
        DropNullWeak(s, p);
        StaysHoused(s, s.(weaks := s.weaks - {p}));
        s := s.(weaks := s.weaks - {p});
      }
      WeakShrinks(was, s, p, r);
    }

    static lemma {:induction false} RefersBack(s: State, p: PtrBase)
      requires p in s.shared
      ensures s.shared[p] != null ==> Refs(s.shared, s.shared[p]) != {} && |Refs(s.shared, s.shared[p])| > 0
    {
      if s.shared[p] != null { assert p in Refs(s.shared, s.shared[p]); }
    }

    lemma {:induction false} HeldUnused(held: PtrBase?)
      requires Good(s) && Suspended(held)
      ensures held != null ==> held.refCount in s.counts && Refs(s.shared, held.refCount) == {}
    {
      if held != null { assert CountOk(s, held.refCount); }
    }

    /** p's block loses one use, below zero if p has lost its own before. */
    lemma {:induction false} UsesLess(p: PtrBase, m: Links, held: PtrBase?)
      requires Running(held) && Releases(s, p, m) && (p in m ==> held == null && p.refCount != null)
      ensures forall c :: c in s.counts ==>
                Uses(m, if p in m then p else held, c) == if c == p.refCount then Less(c.useCount) else c.useCount
      ensures p.refCount != null ==>
                Uses(m, if p in m then p else held, p.refCount) == if p == held then SIZE_MAX else |Refs(m, p.refCount)|
    {
      hide Good;
      hide Housed;
      hide Refs;
      hide Weight;
      LostCounts(s, p, m);
      LostLinks(s, p, m);
      HeldUnused(held);
      if p != held {
        RefersBack(s, p);
        assert p.refCount == s.shared[p] && (held != null ==> p.refCount != held.refCount);
      }
    }

    /** All that GiveUp relies on. */
    lemma {:induction false} Loss(p: PtrBase, m: Links, held: PtrBase?)
      requires Running(held) && Releases(s, p, m) && (p in m ==> held == null && p.refCount != null)
      ensures p in s.shared && p !in s.weaks
      ensures var t := Lost(s, p, m);
        Good(t) && Housed(t) && t.shared == m && t.weaks == s.weaks && t.counts == s.counts
      ensures Tied(But(m, if p in m then p else held)) && Tied(s.weaks)
      ensures forall c :: c in s.counts ==> c.weakCount == Weight(Lost(s, p, m), c)
      ensures forall c :: c in s.counts ==>
                Uses(m, if p in m then p else held, c) == if c == p.refCount then Less(c.useCount) else c.useCount
      ensures p !in m && held != null ==> held.refCount != null && held.refCount in Lost(s, p, m).dying
      ensures p !in m && held != null && held in m ==> m[held] == null
      ensures p.refCount != null ==> p.refCount in s.counts
      ensures p == held ==> p.refCount != null && p.refCount.useCount == 0
      ensures p != held ==> p.refCount == s.shared[p]
      ensures p != held && p.refCount != null ==>
                && p.refCount !in s.dying && p.data == p.refCount.obj
                && p.refCount.useCount == |Refs(m, p.refCount)| + 1
                && ObjectOk(s, p.refCount.obj) && p.refCount.obj in s.objects
                && (p.refCount in Lost(s, p, m).dying <==> p.refCount.useCount == 1)
    {
      hide Good;
      hide Housed;
      hide Refs;
      hide Weight;
      assert p in s.shared;
      assert p != held ==> p.refCount == s.shared[p] && (p.refCount == null || p.data == p.refCount.obj);
      LoseShared(s, p, m);
      LostCounts(s, p, m);
      LostLinks(s, p, m);
      LostHoused(s, p, m);
      HeldUnused(held);
      TiedLess(But(s.shared, held), But(m, if p in m then p else held));
      UsesLess(p, m, held);
    }

    /** --use_count, in a size_t, by a handle that is going or that a reset is emptying. */
    method GiveUp(p: PtrBase, ghost m: Links, ghost held: PtrBase?) returns (r: RefCount?)
      requires Running(held) && Releases(s, p, m) && (p in m ==> held == null && p.refCount != null)
      modifies this, s.counts
      ensures s == Lost(old(s), p, m) && r == p.refCount && Good(s) && Housed(s) && Linked(if p in m then p else held)
      ensures p !in m ==> Suspended(held)
      ensures p == held ==> r != null && r.useCount == SIZE_MAX
      ensures p != held ==> r == old(s).shared[p]
      ensures p != held && r != null ==>
                r in s.counts && r !in old(s).dying && p.data == r.obj && r.useCount == |Refs(m, r)|
      ensures p != held && r != null ==>
                ObjectOk(old(s), r.obj) && r.obj in old(s).objects && (r in s.dying <==> r.useCount == 0)
      ensures p !in s.weaks
    {
      hide Good;
      hide Housed;
      hide Linked;
      hide Releases;
      hide Lost;
      hide Uses;
      hide Refs;
      hide Weight;
      hide ObjectOk;
      ghost var h := if p in m then p else held;
      Loss(p, m, held);
      r := p.refCount;
      s := Lost(s, p, m);
      if r != null {
        r.useCount := Less(r.useCount);
      }
      Relinked(h);
    }

    lemma {:induction false} DropOne(was: State, p: PtrBase)
      requires p in was.shared && (was.shared[p] != null ==> Refs(was.shared - {p}, was.shared[p]) != {})
      ensures Shrinks(was, Dropped(was, p), {p}) && Dropped(was, p).dying == was.dying
      ensures Dropped(was, p) == was.(shared := was.shared - {p})
    {
    }

    /** The members of an object about to be destroyed are all still there. */
    lemma {:induction false} DeadMembers(was: State, p: PtrBase, m: Links, o: Object)
      requires Good(was) && Releases(was, p, m) && was.shared[p] != null && was.shared[p].obj == o && ObjectOk(was, o)
      ensures MembersOk(Lost(was, p, m), o) && o in Lost(was, p, m).blockOf
    {
    }

    /** ~WeakPtr() of a member */
    method DestroyWeakMember(o: Object, j: nat, ghost was: State, ghost held: PtrBase?, ghost keep: set<Object>)
      requires j < |o.weak| && NoDup(o.weak)
      requires Running(held) && o in s.blockOf && o !in s.objects && Remaining(s, o, 0, j + 1)
      requires GoneFrom(s, o, 0, j + 1)
      requires Shrinks(was, s, Members(o)) && Closed(s, keep)
      modifies this, s.weaks.Keys, s.counts
      ensures Running(held) && Shrinks(was, s, Members(o)) && s.dying == old(s).dying && Closed(s, keep)
      ensures Remaining(s, o, 0, j) && GoneFrom(s, o, 0, j)
    {
      hide Good;
      hide Housed;
      hide Shrinks;
      hide Linked;
      hide Closed;
      var m := o.weak[j];
      ghost var t := s;
      MembersLoose(s, o);
      DropWeakPtr(m, held);
      StaysClosed(t, s, keep);
      OneWeakMemberLess(t, s, o, j);
      NextWeakGone(t, s, o, j);
      ShrinksTwice(was, t, s, Members(o), {m});
      assert Members(o) + {m} == Members(o);
    }

    static lemma {:induction false} AllMembers(s: State, o: Object)
      requires MembersOk(s, o)
      ensures Remaining(s, o, |o.strong|, |o.weak|) && GoneFrom(s, o, |o.strong|, |o.weak|) && Shrinks(s, s, Members(o))
    {
      ShrinksNot(s, Members(o));
    }

    static lemma {:induction false} FewerObjects(was: State, p: PtrBase)
      requires p in was.shared && was.shared[p] != null && was.shared[p].obj in was.objects
      requires Refs(was.shared - {p}, was.shared[p]) == {}
      ensures |Dropped(was, p).objects| == |was.objects| - 1
    {
    }

    /** ~T(): the member handles go, the last one first. */
    method DestroyMembers(o: Object, ghost held: PtrBase?, ghost keep: set<Object>)
      requires Running(held) && o in s.blockOf && o !in s.objects && MembersOk(s, o) && Closed(s, keep)
      modifies this, s.shared.Keys - {held}, s.weaks.Keys, s.counts
      ensures Running(held) && Shrinks(old(s), s, Members(o)) && s.dying == old(s).dying && Emptied(s, o)
      ensures Closed(s, keep)
      decreases |s.objects|, 1
    {
      hide Good;
      hide Housed;
      hide Refs;
      hide Weight;
      hide Shrinks;
      hide Linked;
      hide Suspended;
      hide Remaining;
      hide Closed;
      ghost var was := s;
      AllMembers(s, o);
      var i, j := |o.strong|, |o.weak|;
      while i > 0
        invariant 0 <= i <= |o.strong| && Running(held) && Shrinks(was, s, Members(o)) && s.dying == was.dying
        invariant Remaining(s, o, i, j) && GoneFrom(s, o, i, j) && Closed(s, keep)
      {
        i := i - 1;
        ShrunkKeys(was, s, Members(o));
        DestroyMember(o, i, j, was, held, keep);
      }
      while j > 0
        invariant 0 <= j <= |o.weak| && Running(held) && Shrinks(was, s, Members(o)) && s.dying == was.dying
        invariant Remaining(s, o, 0, j) && GoneFrom(s, o, 0, j) && Closed(s, keep)
      {
        j := j - 1;
        ShrunkKeys(was, s, Members(o));
        DestroyWeakMember(o, j, was, held, keep);
      }
      ShrunkKeys(was, s, Members(o));
      AllGone(s, o);
    }

    /** DeleteData() and DecWeakCount(), once p was the last to refer to the object. */
    method DestroyTarget(p: PtrBase, r: RefCount, ghost was: State, ghost held: PtrBase?, ghost keep: set<Object>)
      requires Running(held) && p != held && p.refCount == r && p.data == r.obj && p !in s.shared && p !in s.weaks
      requires Good(was) && Releases(was, p, was.shared - {p}) && s == Dropped(was, p) && was.shared[p] == r
      requires p in was.shared && p !in was.weaks
      requires r !in was.dying && r in s.dying && (held != null ==> held.refCount in was.dying) && r.useCount == 0
      requires r.obj in was.objects && ObjectOk(was, r.obj) && MembersOk(s, r.obj) && r.obj in s.blockOf
      requires Refs(was.shared - {p}, r) == {} && Closed(s, keep)
      modifies this, p, r, s.shared.Keys - {held}, s.weaks.Keys, s.counts
      ensures Running(held) && Shrinks(was, s, {p}) && p !in s.shared && s.dying == was.dying && Closed(s, keep)
      decreases |s.objects|, 2, 0
    {
      hide Good;
      hide Housed;
      hide Linked;
      hide Refs;
      hide Weight;
      hide Closed;
      hide Releases;
      DestroyMembers(p.data, held, keep);
      ghost var t := s;
      p.data := null;
      DecWeakCount(p, r, true, held);
      ReleaseTogether(was, p, was.shared - {p}, t, s, r);
      DropShrinks(was, p, s);
      StaysClosed(t, s, keep);
    }

    /** DecUseCount of a handle that goes: the last one takes the object and all that only it kept.  The objects in
        keep, which stay referred to, stay. */
    method DecUseCount(p: PtrBase, ghost held: PtrBase?, ghost keep: set<Object>)
      requires Running(held) && p in s.shared && Loose(s, p) && Closed(s.(shared := s.shared - {p}), keep)
      modifies this, s.shared.Keys - {held}, s.weaks.Keys, s.counts
      ensures Running(held) && Shrinks(old(s), s, {p}) && p !in s.shared && s.dying == old(s).dying && Closed(s, keep)
      decreases |s.objects|, 0, 0
    {
      hide Good;
      hide Housed;
      hide Linked;
      hide Refs;
      hide Weight;
      hide Closed;
      ghost var was, m := s, s.shared - {p};
      LossKeeps(s, p, m, keep);
      var r := GiveUp(p, m, held);
      if r != null && r.useCount == 0 {
        DeadMembers(was, p, m, p.data);
        FewerObjects(was, p);
        DestroyTarget(p, r, was, held, keep);
      } else {
        DropOne(was, p);
      }
    }

    /** ~SharedPtr() of a member */
    method DestroyMember(o: Object, i: nat, ghost j: nat, ghost was: State, ghost held: PtrBase?,
        ghost keep: set<Object>)
      requires i < |o.strong| && j <= |o.weak| && NoDup(o.strong)
      requires Running(held) && o in s.blockOf && o !in s.objects && Remaining(s, o, i + 1, j)
      requires GoneFrom(s, o, i + 1, j)
      requires Shrinks(was, s, Members(o)) && |s.objects| <= |was.objects| && Closed(s, keep)
      modifies this, s.shared.Keys - {held}, s.weaks.Keys, s.counts
      ensures Running(held) && Shrinks(was, s, Members(o)) && s.dying == old(s).dying && Closed(s, keep)
      ensures Remaining(s, o, i, j) && GoneFrom(s, o, i, j)
      ensures s.shared.Keys <= old(s).shared.Keys && s.weaks.Keys <= old(s).weaks.Keys && s.counts <= old(s).counts
      ensures s.objects <= old(s).objects && |s.objects| <= |was.objects| && s.blockOf == old(s).blockOf
      decreases |s.objects|, 0, 1
    {
      hide Good;
      hide Housed;
      hide Refs;
      hide Weight;
      hide Shrinks;
      hide Linked;
      hide Suspended;
      hide Closed;
      var m := o.strong[i];
      ghost var t := s;
      MembersLoose(s, o);
      MemberKeepsNone(s, o, m, keep);
      DecUseCount(m, held, keep);
      ShrunkKeys(t, s, {m});
      OneMemberLess(t, s, o, i, j);
      NextGone(t, s, o, i, j);
      ShrinksTwice(was, t, s, Members(o), {m});
      assert Members(o) + {m} == Members(o);
    }

    lemma {:induction false} Target(p: PtrBase)
      requires Valid() && p in s.shared
      ensures p.refCount == s.shared[p] && p.data == (if p.refCount == null then null else p.refCount.obj)
      ensures p !in s.weaks
      ensures p.refCount != null ==> p.refCount in s.counts && Refs(s.shared, p.refCount) != {}
    {
      if s.shared[p] != null {
        assert p in Refs(s.shared, s.shared[p]);
      }
    }

    /** IncUseCount, for a handle p that has copied what another SharedPtr refers to. */
    method IncUseCount(p: PtrBase)
      requires Valid() && p !in s.shared && p !in s.weaks
      requires (p.data == if p.refCount == null then null else p.refCount.obj)
      requires (p.refCount != null ==> p.refCount in s.counts && Refs(s.shared, p.refCount) != {}) && HousedAt(s, p)
      modifies this, s.counts
      ensures Valid() && s == old(s).(shared := old(s).shared[p := p.refCount])
    {
      hide Good;
      hide Housed;
      hide HousedAt;
      hide Refs;
      hide Weight;
      AddShared(s, p, p.refCount);
      AddedCounts(s, p, p.refCount);
      StaysHoused(s, s.(shared := s.shared[p := p.refCount]));
      if p.refCount != null {
        p.refCount.useCount := p.refCount.useCount + 1;
      }
      s := s.(shared := s.shared[p := p.refCount]);
    }

    /** IncWeakCount, for a handle p that has copied what another handle refers to. */
    method IncWeakCount(p: PtrBase)
      requires Valid() && p !in s.shared && p !in s.weaks
      requires (p.data == if p.refCount == null then null else p.refCount.obj)
      requires (p.refCount != null ==> p.refCount in s.counts) && HousedAt(s, p)
      modifies this, s.counts
      ensures Valid() && s == old(s).(weaks := old(s).weaks[p := p.refCount])
    {
      hide Good;
      hide Housed;
      hide HousedAt;
      hide Refs;
      hide Weight;
      AddWeak(s, p, p.refCount);
      WeakAdded(s, p, p.refCount);
      StaysHoused(s, s.(weaks := s.weaks[p := p.refCount]));
      if p.refCount != null {
        p.refCount.weakCount := p.refCount.weakCount + 1;
      }
      s := s.(weaks := s.weaks[p := p.refCount]);
    }

    /** p refers to nothing: it is not registered yet, or a reset has emptied it, whatever its fields say. */
    ghost predicate Idle(p: PtrBase)
      reads this, s.shared.Keys, s.weaks.Keys, s.counts, p
    {
      && Good(s) && Housed(s) && s.dying == {} && p !in s.weaks
      && if p in s.shared then s.shared[p] == null && Linked(p) else Linked(null) && HousedAt(s, p)
    }

    /** An empty SharedPtr joins. */
    lemma {:induction false} JoinEmpty(p: PtrBase)
      requires Idle(p) && p !in s.shared
      ensures var t := s.(shared := s.shared[p := null]); Good(t) && Housed(t) && Counted(t, null)
    {
      hide Good;
      hide Housed;
      hide HousedAt;
      hide Refs;
      hide Weight;
      AddShared(s, p, null);
      AddedCounts(s, p, null);
      StaysHoused(s, s.(shared := s.shared[p := null]));
    }

    static lemma {:induction false} BuiltStays(s: State, p: PtrBase, o: Object)
      requires Adoptable(s, o) && p.storage != o.storage
      ensures Adoptable(s.(shared := s.shared[p := null]), o)
    {
    }

    lemma {:induction false} Register(p: PtrBase, o: Object?)
      requires Idle(p) && (o != null ==> Adoptable(s, o) && (p in s.shared || p.storage != o.storage))
      ensures var t := s.(shared := s.shared[p := null]); Good(t) && Housed(t) && Counted(t, null)
      ensures o != null ==> Adoptable(s.(shared := s.shared[p := null]), o)
    {
      if p in s.shared {
        assert s.(shared := s.shared[p := null]) == s;
      } else {
        JoinEmpty(p);
        if o != null { BuiltStays(s, p, o); }
      }
    }

    static lemma {:induction false} AdoptCounted(s: State, t: State, p: PtrBase, r: RefCount)
      requires Counted(s, null) && r.useCount == 1 && r.weakCount == 1 && t.counts == s.counts + {r}
      requires |Refs(t.shared, r)| == 1 && Weight(t, r) == 1
      requires forall c :: c != r ==> |Refs(t.shared, c)| == |Refs(s.shared, c)| && Weight(t, c) == Weight(s, c)
      ensures Counted(t, null)
    {
    }

    /** ref_count_ = new RefCount(); data_ = data */
    method Manage(p: PtrBase, o: Object)
      requires Valid() && p in s.shared && s.shared[p] == null && Adoptable(s, o)
      modifies this, p
      ensures Valid() && p.refCount != null && fresh(p.refCount) && p.refCount.obj == o
      ensures s == Adopted(old(s), p, o, p.refCount)
    {
      hide Good;
      hide Housed;
      hide Tied;
      hide Counted;
      hide Refs;
      hide Adoptable;
      ghost var was := s;
      var r := new RefCount(o);
      NewBlock(s, p, o, r);
      AdoptHoused(s, p, o, r);
      ghost var t := Adopted(s, p, o, r);
      AdoptCounted(s, t, p, r);
      label Made:
      p.refCount, p.data := r, o;
      s := t;
      RestTied(was.shared, s.shared, {p});
      RestTied(was.weaks, s.weaks, {});
      StillCounted@Made(t);
    }

    /** UnsafeReset(data) */
    method UnsafeReset(p: PtrBase, o: Object?)
      requires Idle(p) && (o != null ==> Adoptable(s, o) && (p in s.shared || p.storage != o.storage))
      modifies this, p
      ensures Valid()
      ensures o == null ==> s == old(s).(shared := old(s).shared[p := null])
      ensures o != null ==> p.refCount != null && fresh(p.refCount) && p.refCount.obj == o
      ensures o != null ==> s == Adopted(old(s).(shared := old(s).shared[p := null]), p, o, p.refCount)
    {
      hide Good;
      hide Housed;
      hide HousedAt;
      hide Tied;
      hide Counted;
      hide Refs;
      hide Adopted;
      hide Adoptable;
      ghost var was, t := s, s.(shared := s.shared[p := null]);
      Register(p, o);
      p.data, p.refCount := null, null;
      s := t;
      RestTied(But(was.shared, if p in was.shared then p else null), s.shared, {p});
      RestTied(was.weaks, s.weaks, {});
      StillCounted(t);
      if o != null {
        Manage(p, o);
      }
    }

    /** PtrBase::swap */
    static method Swap(a: PtrBase, b: PtrBase)
      modifies a, b
      ensures a.refCount == old(b.refCount) && a.data == old(b.data) && b.refCount == old(a.refCount)
      ensures b.data == old(a.data)
    {
      a.refCount, b.refCount := b.refCount, a.refCount;
      a.data, b.data := b.data, a.data;
    }

    /** swap of two SharedPtrs */
    method SwapHandles(a: PtrBase, b: PtrBase)
      requires Valid() && a in s.shared && b in s.shared
      modifies this, a, b
      ensures Valid() && s == old(s).(shared := SwapLinks(old(s).shared, a, b))
    {
      hide Good;
      hide Housed;
      hide Tied;
      hide Counted;
      hide SameCounts;
      hide Refs;
      ghost var was, t := s, s.(shared := SwapLinks(s.shared, a, b));
      Target(a);
      Target(b);
      SwapShared(s, a, b);
      StaysHoused(s, t);
      Recounted(s, t);
      Swap(a, b);
      s := t;
      RestTied(was.shared, s.shared, {a, b});
      RestTied(was.weaks, s.weaks, {});
      StillCounted(t);
    }

    /** swap of two WeakPtrs */
    method SwapWeakHandles(a: PtrBase, b: PtrBase)
      requires Valid() && a in s.weaks && b in s.weaks
      modifies this, a, b
      ensures Valid() && s == old(s).(weaks := SwapLinks(old(s).weaks, a, b))
    {
      hide Good;
      hide Housed;
      hide Tied;
      hide Counted;
      hide SameCounts;
      hide Refs;
      ghost var was, t := s, s.(weaks := SwapLinks(s.weaks, a, b));
      WeakTarget(a, null);
      WeakTarget(b, null);
      SwapWeak(s, a, b);
      StaysHoused(s, t);
      Recounted(s, t);
      Swap(a, b);
      s := t;
      RestTied(was.weaks, s.weaks, {a, b});
      RestTied(was.shared, s.shared, {});
      StillCounted(t);
    }

    // SharedPtr

    /** The storage belongs to no object that has been managed: it is none, or of an object under construction. */
    static ghost predicate Unbuilt(g: State, storage: Storage?) {
      forall o :: o in g.blockOf ==> o.storage != storage
    }

    /** SharedPtr(T* p): manages o, or nothing when o is null; storage names the object it is to be a member of. */
    method NewShared(o: Object?, storage: Storage?) returns (p: PtrBase)
      requires Valid() && (o != null ==> Adoptable(s, o) && storage != o.storage) && Unbuilt(s, storage)
      modifies this
      ensures Valid() && fresh(p) && p.storage == storage
      ensures o == null ==> s == old(s).(shared := old(s).shared[p := null])
      ensures o != null ==> p.refCount != null && fresh(p.refCount) && p.refCount.obj == o
      ensures o != null ==> s == Adopted(old(s).(shared := old(s).shared[p := null]), p, o, p.refCount)
    {
      hide Good;
      hide Adopted;
      hide Adoptable;
      p := new PtrBase(storage);
      assert Linked(null);
      UnsafeReset(p, o);
    }

    /** SharedPtr(const SharedPtr&) */
    method CopyShared(other: PtrBase) returns (p: PtrBase)
      requires Valid() && other in s.shared
      modifies this, s.counts
      ensures Valid() && fresh(p) && p.storage == null
      ensures s == old(s).(shared := old(s).shared[p := old(s).shared[other]])
    {
      hide Good;
      hide Refs;
      Target(other);
      p := new PtrBase(null);
      p.refCount, p.data := other.refCount, other.data;
      assert Linked(null);
      IncUseCount(p);
    }

    /** SharedPtr(SharedPtr&&): the new handle takes what other refers to, and other is left empty. */
    method MoveShared(other: PtrBase) returns (p: PtrBase)
      requires Valid() && other in s.shared
      modifies this, other
      ensures Valid() && fresh(p) && p.storage == null && s == old(s).(shared := MovedLinks(old(s).shared, p, other))
    {
      hide Good;
      hide Housed;
      hide Tied;
      hide Counted;
      hide SameCounts;
      hide Refs;
      Target(other);
      p := new PtrBase(null);
      ghost var was, t := s, s.(shared := MovedLinks(s.shared, p, other));
      RefCounts.MoveShared(s, p, other);
      StaysHoused(s, t);
      Recounted(s, t);
      label Made:
      p.refCount, p.data := other.refCount, other.data;
      other.data, other.refCount := null, null;
      s := t;
      RestTied(was.shared, s.shared, {p, other});
      RestTied(was.weaks, s.weaks, {});
      StillCounted@Made(t);
    }

    /** ~SharedPtr() */
    method DestroyShared(p: PtrBase)
      requires Valid() && p in s.shared && Loose(s, p)
      modifies this, s.shared.Keys, s.weaks.Keys, s.counts
      ensures Valid() && Settles(old(s).(shared := old(s).shared - {p}), s)
    {
      hide Good;
      hide Housed;
      hide Linked;
      hide Refs;
      hide Shrinks;
      hide Closed;
      ghost var was, u := s, s.(shared := s.shared - {p});
      Target(p);
      SurvivorsClosed(u);
      DecUseCount(p, null, Survivors(u));
      DropShrinks(was, p, s);
      Settled(u, s);
    }

    /** SharedPtr(other).swap(*this): p refers to what other does; what p referred to is released. */
    method AssignShared(p: PtrBase, other: PtrBase)
      requires Valid() && p in s.shared && other in s.shared
      modifies this, s.shared.Keys, s.weaks.Keys, s.counts
      ensures Valid() && Settles(old(s).(shared := old(s).shared[p := old(s).shared[other]]), s)
    {
      hide Good;
      hide Housed;
      hide Refs;
      hide Linked;
      hide Settles;
      ghost var u := s.(shared := s.shared[p := s.shared[other]]);
      var tmp := CopyShared(other);
      SwapHandles(tmp, p);
      assert s.shared - {tmp} == u.shared;
      OutsideIsLoose(s, tmp);
      DestroyShared(tmp);
    }

    /** SharedPtr(std::move(other)).swap(*this); p and other may be the same handle. */
    method AssignMovedShared(p: PtrBase, other: PtrBase)
      requires Valid() && p in s.shared && other in s.shared
      modifies this, s.shared.Keys, s.weaks.Keys, s.counts
      ensures Valid() && Settles(old(s).(shared := MovedLinks(old(s).shared, p, other)), s)
    {
      hide Good;
      hide Housed;
      hide Refs;
      hide Linked;
      hide Settles;
      ghost var u := s.(shared := MovedLinks(s.shared, p, other));
      var tmp := MoveShared(other);
      SwapHandles(tmp, p);
      assert s.shared - {tmp} == u.shared;
      OutsideIsLoose(s, tmp);
      DestroyShared(tmp);
    }

    /** Some object that p lies in is not kept alive by the links of u. */
    static ghost predicate OwnerLost(u: State, p: PtrBase) {
      exists o :: o in u.objects && o.storage == p.storage && !Anchored(u, o)
    }

    /** The rest of DecUseCount in a reset: the data is gone, and the strong side gives up the block. */
    method Finish(p: PtrBase, r: RefCount)
      requires Good(s) && Housed(s) && Linked(p) && p.refCount == r && p in s.shared && p !in s.weaks
      requires r in s.dying && Emptied(s, r.obj)
      modifies this, p, r
      ensures Good(s) && Housed(s) && Linked(p) && s == Swept(old(s).(dying := old(s).dying - {r}), r)
    {
      hide Good;
      hide Housed;
      hide Tied;
      hide Counted;
      hide Swept;
      hide Emptied;
      ghost var t := s;
      p.data := null;
      RestTied(But(t.shared, p), But(t.shared, p), {});
      RestTied(t.weaks, t.weaks, {});
      DecWeakCount(p, r, true, p);
    }

    lemma {:induction false} LinkedBut(p: PtrBase)
      requires Linked(null) && p in s.shared
      ensures Linked(p)
    {
    }

    lemma {:induction false} HeldUses(p: PtrBase)
      requires Running(p)
      ensures p !in s.weaks && p.refCount.useCount == if p in s.shared then 0 else SIZE_MAX
    {
      HeldUnused(p);
    }

    static lemma {:induction false} NothingLost(u: State, p: PtrBase)
      requires Good(u) && Housed(u) && u.dying == {}
      ensures Settles(u, u) && !OwnerLost(u, p)
    {
      SettledAsIs(u);
    }

    /** Once the destructors have returned, p is gone exactly if the object it lay in was not kept alive. */
    static lemma {:induction false} Finished(s: State, p: PtrBase, m: Links, t: State, t': State, r: RefCount, u: State)
      requires Good(s) && m == s.shared[p := null] && Releases(s, p, m) && s.shared[p] == r && r.obj in s.objects
      requires MembersOk(s, r.obj)
      requires Refs(m, r) == {} && Shrinks(Lost(s, p, m), t, Members(r.obj)) && t.dying == {r} && Emptied(t, r.obj)
      requires t' == Swept(t.(dying := t.dying - {r}), r) && u == s.(shared := m)
      requires Good(t) && Housed(t) && Closed(t, Survivors(u))
      ensures Settles(u, t') && (p !in t.shared <==> OwnerLost(u, p))
    {
      EndOfLife(t, r);
      EndHoused(t, r);
      ReleaseTogether(s, p, m, t, t', r);
      StaysClosed(t, t', Survivors(u));
      Settled(u, t');
      if p !in t.shared {
        assert p in u.shared && Gone(u, t', p);
      } else {
        assert HousedAt(t', p);
      }
    }

    /** The first half of a reset: p gives up its reference but still has the block.  If the objects destroyed with it
        include the one that p is a member of, ~SharedPtr() has run on p before this returns. */
    method Release(p: PtrBase) returns (twice: bool)
      requires Valid() && p in s.shared
      modifies this, s.shared.Keys, s.weaks.Keys, s.counts
      ensures twice <==> OwnerLost(old(s).(shared := old(s).shared[p := null]), p)
      ensures twice ==>
                p !in s.shared && p.refCount == old(p.refCount) != null && p.refCount.useCount == 0xFFFF_FFFF_FFFF_FFFF
      ensures !twice ==> Idle(p) && p in s.shared && Settles(old(s).(shared := old(s).shared[p := null]), s)
    {
      hide Good;
      hide Housed;
      hide Tied;
      hide Counted;
      hide Uses;
      hide Refs;
      hide Weight;
      hide Shrinks;
      hide Closed;
      hide Emptied;
      ghost var was, m, u := s, s.shared[p := null], s.(shared := s.shared[p := null]);
      Target(p);
      twice := false;
      if p.refCount == null {
        assert m == s.shared;
        NothingLost(u, p);
        LinkedBut(p);
        return;
      }
      SurvivorsClosed(u);
      LossKeeps(s, p, m, Survivors(u));
      var r := GiveUp(p, m, null);
      if r.useCount == 0 {
        var o := p.data;
        DeadMembers(was, p, m, o);
        DestroyMembers(o, p, Survivors(u));
        ghost var t := s;
        ghost var t' := Swept(t.(dying := t.dying - {r}), r);
        twice := r.useCount != 0;
        Finished(was, p, m, t, t', r, u);
        HeldUses(p);
        if twice {
          return;
        }
        Finish(p, r);
      } else {
        NothingLost(u, p);
      }
    }

    lemma {:induction false} EmptyNow(p: PtrBase)
      requires Idle(p) && p in s.shared
      ensures s.(shared := s.shared[p := null]) == s
    {
      assert s.shared[p := null] == s.shared;
    }

    static lemma {:induction false} StillBuilding(s: State, t: State, p: PtrBase, o: Object)
      requires Good(s) && p in s.shared && Adoptable(s, o) && Settles(s.(shared := s.shared[p := null]), t)
      ensures Adoptable(t, o)
    {
      var u := s.(shared := s.shared[p := null]);
      forall q: PtrBase | q.storage == o.storage ensures !Gone(u, t, q) {
        forall x | x in s.objects ensures x.storage != o.storage {
          assert ObjectOk(s, x);
        }
      }
    }

    /** reset(data): p gives up what it refers to, then manages the new object or nothing.  It is released twice, by the
        destructor of the object it lies in and by the reset itself, exactly if nothing else keeps that object; what
        the original does after that, on freed storage, is undefined. */
    method Reset(p: PtrBase, o: Object?) returns (twice: bool, ghost released: State)
      requires Valid() && p in s.shared && (o != null ==> Adoptable(s, o))
      modifies this, s.shared.Keys, s.weaks.Keys, s.counts
      ensures twice <==> OwnerLost(old(s).(shared := old(s).shared[p := null]), p)
      ensures twice ==>
                p !in s.shared && p.refCount == old(p.refCount) != null && p.refCount.useCount == 0xFFFF_FFFF_FFFF_FFFF
      ensures !twice ==>
                Valid() && p in released.shared && Settles(old(s).(shared := old(s).shared[p := null]), released)
      ensures !twice && o == null ==> s == released
      ensures !twice && o != null ==> p.refCount != null && fresh(p.refCount) && p.refCount.obj == o
      ensures !twice && o != null ==> s == Adopted(released, p, o, p.refCount)
    {
      hide Good;
      hide Housed;
      hide Refs;
      hide Idle;
      hide Adoptable;
      hide OwnerLost;
      hide Settles;
      hide Adopted;
      ghost var was := s;
      twice := Release(p);
      released := s;
      if !twice {
        if o != null { StillBuilding(was, released, p, o); }
        EmptyNow(p);
        UnsafeReset(p, o);
      }
    }

    /** use_count() */
    method UseCount(p: PtrBase) returns (n: nat)
      requires Valid() && (p in s.shared || p in s.weaks)
      ensures n == if p.refCount == null then 0 else |Refs(s.shared, p.refCount)|
    {
      n := if p.refCount != null then p.refCount.useCount else 0;
    }

    // WeakPtr

    /** WeakPtr() */
    method NewWeak(storage: Storage?) returns (p: PtrBase)
      requires Valid() && Unbuilt(s, storage)
      modifies this
      ensures Valid() && fresh(p) && p.storage == storage && s == old(s).(weaks := old(s).weaks[p := null])
    {
      hide Good;
      hide Refs;
      hide Weight;
      p := new PtrBase(storage);
      AddWeak(s, p, null);
      WeakAdded(s, p, null);
      StaysHoused(s, s.(weaks := s.weaks[p := null]));
      s := s.(weaks := s.weaks[p := null]);
    }

    /** WeakPtr(const WeakPtr&) and WeakPtr(const SharedPtr&) */
    method CopyWeak(other: PtrBase) returns (p: PtrBase)
      requires Valid() && (other in s.shared || other in s.weaks)
      modifies this, s.counts
      ensures Valid() && fresh(p) && p.storage == null
      ensures s == old(s).(weaks := old(s).weaks[p := Referred(old(s), other)])
    {
      hide Good;
      hide Refs;
      if other in s.shared { Target(other); } else { WeakTarget(other, null); }
      p := new PtrBase(null);
      p.refCount, p.data := other.refCount, other.data;
      assert Linked(null);
      IncWeakCount(p);
    }

    /** WeakPtr(WeakPtr&&) */
    method MoveWeak(other: PtrBase) returns (p: PtrBase)
      requires Valid() && other in s.weaks
      modifies this, other
      ensures Valid() && fresh(p) && p.storage == null && s == old(s).(weaks := MovedLinks(old(s).weaks, p, other))
    {
      hide Good;
      hide Housed;
      hide Tied;
      hide Counted;
      hide SameCounts;
      hide Refs;
      WeakTarget(other, null);
      p := new PtrBase(null);
      ghost var was, t := s, s.(weaks := MovedLinks(s.weaks, p, other));
      RefCounts.MoveWeak(s, p, other);
      StaysHoused(s, t);
      Recounted(s, t);
      label Made:
      p.refCount, p.data := other.refCount, other.data;
      other.data, other.refCount := null, null;
      s := t;
      RestTied(was.weaks, s.weaks, {p, other});
      RestTied(was.shared, s.shared, {});
      StillCounted@Made(t);
    }

    static lemma {:induction false} OnlyWeakGone(s: State, t: State, p: PtrBase)
      requires Shrinks(s, t, {p}) && p in s.weaks && p !in t.weaks && t.objects == s.objects
      ensures t.weaks == s.weaks - {p}
    {
      forall q | q in s.weaks && q != p ensures q in t.weaks {
        assert !Gone(s, t, q);
      }
    }

    /** ~WeakPtr() */
    method DestroyWeak(p: PtrBase)
      requires Valid() && p in s.weaks && Loose(s, p)
      modifies this, s.weaks.Keys, s.counts
      ensures Valid() && s.weaks == old(s).weaks - {p} && s.objects == old(s).objects && s.shared == old(s).shared
      ensures s.blockOf == old(s).blockOf && s.counts <= old(s).counts
    {
      hide Good;
      hide Housed;
      hide Refs;
      hide Linked;
      hide Weight;
      ghost var was := s;
      DropWeakPtr(p, null);
      OnlyWeakGone(was, s, p);
    }

    /** WeakPtr(other).swap(*this), other a WeakPtr or a SharedPtr */
    method AssignWeak(p: PtrBase, other: PtrBase)
      requires Valid() && p in s.weaks && (other in s.shared || other in s.weaks)
      modifies this, s.weaks.Keys, s.counts
      ensures Valid() && s.objects == old(s).objects && s.shared == old(s).shared && s.blockOf == old(s).blockOf
      ensures s.counts <= old(s).counts
      ensures s.weaks == old(s).weaks[p := Referred(old(s), other)]
    {
      hide Good;
      hide Housed;
      hide Refs;
      hide Linked;
      hide Weight;
      ghost var m := s.weaks[p := Referred(s, other)];
      var tmp := CopyWeak(other);
      SwapWeakHandles(tmp, p);
      assert s.weaks - {tmp} == m;
      OutsideIsLoose(s, tmp);
      DestroyWeak(tmp);
    }

    /** WeakPtr(std::move(other)).swap(*this); p and other may be the same handle. */
    method AssignMovedWeak(p: PtrBase, other: PtrBase)
      requires Valid() && p in s.weaks && other in s.weaks
      modifies this, s.weaks.Keys, s.counts
      ensures Valid() && s.objects == old(s).objects && s.shared == old(s).shared && s.blockOf == old(s).blockOf
      ensures s.counts <= old(s).counts
      ensures s.weaks == MovedLinks(old(s).weaks, p, other)
    {
      hide Good;
      hide Housed;
      hide Refs;
      hide Linked;
      hide Weight;
      ghost var m := MovedLinks(s.weaks, p, other);
      var tmp := MoveWeak(other);
      SwapWeakHandles(tmp, p);
      assert s.weaks - {tmp} == m;
      OutsideIsLoose(s, tmp);
      DestroyWeak(tmp);
    }

    /** lock(): a SharedPtr to the object if it is still there, an empty one otherwise. */
    method Lock(w: PtrBase) returns (p: PtrBase)
      requires Valid() && w in s.weaks
      modifies this, s.counts
      ensures Valid() && fresh(p) && p.storage == null
      ensures s == old(s).(shared := old(s).shared[p := if Expires(old(s), w) then null else old(s).weaks[w]])
      ensures if Expires(old(s), w) then p.data == null else p.data == old(s).weaks[w].obj && p.data in s.objects
    {
      hide Good;
      hide Refs;
      WeakTarget(w, null);
      AliveIfUsed(s, w);
      p := new PtrBase(null);
      p.refCount, p.data := w.refCount, w.data;
      assert Linked(null);
      var uses := if p.refCount != null then p.refCount.useCount else 0;
      if uses != 0 {
        IncUseCount(p);
      } else {
        UnsafeReset(p, null);
      }
    }

    static lemma {:induction false} Forgotten(s: State, p: PtrBase, r: RefCount)
      requires p in s.weaks && s.weaks[p] == r
      ensures Weight(s, r) == Weight(s.(weaks := s.weaks[p := null]), r) + 1
    {
      RefsPut(s.weaks, p, null, r);
      assert p in Refs(s.weaks, r);
    }

    /** p has been emptied since `was`, but all counters are still those of that state. */
    ghost predicate Forgets(was: State, p: PtrBase)
      reads this, s.shared.Keys, s.weaks.Keys, s.counts, was.counts
    {
      && Good(was) && Housed(was) && was.dying == {} && p in was.weaks && s == was.(weaks := was.weaks[p := null])
      && Tied(s.shared) && Tied(s.weaks) && Counted(was, null)
    }

    /** The counters are those of a WeakPtr that has moved to where nobody has it. */
    method AddLost(ghost was: State, ghost p: PtrBase, r: RefCount?) returns (lost: PtrBase)
      requires Forgets(was, p) && was.weaks[p] == r
      modifies this
      ensures Valid() && fresh(lost) && lost.storage == null && s == old(s).(weaks := old(s).weaks[lost := r])
    {
      hide Good;
      hide Housed;
      hide Tied;
      hide Counted;
      hide Refs;
      hide SameCounts;
      ghost var t := s;
      lost := new PtrBase(null);
      ghost var u := was.(weaks := MovedLinks(was.weaks, lost, p));
      RefCounts.MoveWeak(was, lost, p);
      StaysHoused(was, u);
      Recounted(was, u);
      label Made:
      lost.refCount, lost.data := r, if r == null then null else r.obj;
      s := u;
      RestTied(t.weaks, s.weaks, {lost});
      RestTied(t.shared, s.shared, {});
      StillCounted@Made(u);
    }

    /** WeakPtr::reset(): the handle forgets its block without counting down, so all is well afterwards exactly if it
        referred to none; else the weak count stays one too high. */
    method ResetWeak(p: PtrBase)
      requires Valid() && p in s.weaks
      modifies this, p
      ensures s == old(s).(weaks := old(s).weaks[p := null]) && p.refCount == null && p.data == null
      ensures Valid() <==> old(s).weaks[p] == null
      ensures old(s).weaks[p] != null ==> old(s).weaks[p].weakCount == Weight(s, old(s).weaks[p]) + 1
      ensures Forgets(old(s), p)
    {
      hide Good;
      hide Housed;
      hide Refs;
      ghost var was := s;
      ghost var r := s.weaks[p];
      WeakTarget(p, null);
      if r == null {
        assert s.weaks[p := null] == s.weaks;
      } else {
        Forgotten(s, p, r);
      }
      p.data, p.refCount := null, null;
      s := s.(weaks := s.weaks[p := null]);
      RestTied(was.weaks, s.weaks, {p});
      RestTied(was.shared, s.shared, {});
      StillCounted(was);
    }

    /** expired() */
    method Expired(w: PtrBase) returns (b: bool)
      requires Valid() && w in s.weaks
      ensures b <==> Expires(s, w)
    {
      WeakTarget(w, null);
      AliveIfUsed(s, w);
      var n := UseCount(w);
      b := n == 0;
    }
  }

  /** Another handle from outside is enough: while there is one, the reset of a member releases it only once. */
  lemma {:induction false} HeldFromOutside(s: State, p: PtrBase, o: Object, q: PtrBase)
    requires Good(s) && p in s.shared && o in s.objects && o.storage == p.storage
    requires o in s.blockOf && q in s.shared && q != p && q.storage == null && s.shared[q] == s.blockOf[o]
    ensures !Memory.OwnerLost(s.(shared := s.shared[p := null]), p)
  {
    var u := s.(shared := s.shared[p := null]);
    assert Holds(u, {o}, o, q);
    assert Closed(u, {o});
    forall x | x in u.objects && x.storage == p.storage ensures Anchored(u, x) {
      assert ObjectOk(s, x);
    }
  }

  // Cycles

  /** The only object is o, and q, which can lie in no other, refers to it: so it stays, and all handles do. */
  lemma {:induction false} OnlyObjectStays(u: State, t: State, o: Object, q: PtrBase)
    requires u.objects == {o} && u.blockOf.Keys == {o} && q in u.shared && u.shared[q] == u.blockOf[o]
    requires Settles(u, t)
    ensures t.shared == u.shared && t.weaks == u.weaks && t.objects == u.objects && t.blockOf == u.blockOf
    ensures t.counts <= u.counts
  {
    assert Holds(u, {o}, o, q);
    assert Closed(u, {o});
    assert Anchored(u, o);
    forall p ensures !Gone(u, t, p) {
    }
  }

  /** An object that holds a SharedPtr to itself survives the last handle from outside: the acyclicity that
      AcyclicLeavesNothing asks for matters. */
  method CycleKeepsItself() returns (mem: Memory, o: Object, m: PtrBase)
    ensures mem.Valid() && fresh(mem) && fresh(mem.s.shared.Keys) && fresh(mem.s.weaks.Keys) && fresh(mem.s.counts)
    ensures o.strong == [m] && o.storage == m.storage && mem.s.objects == {o} && mem.s.blockOf.Keys == {o}
    ensures mem.s.shared == map[m := mem.s.blockOf[o]] && NoOutsideHandles(mem.s)
  {
    hide Memory.Valid;
    hide Settles;
    hide Anchored;
    mem := new Memory();
    var storage := new Storage();
    m := mem.NewShared(null, storage);
    assert mem.s == State(map[m := null], map[], {}, {}, {}, map[], [], []);
    o := new Object(storage, [m], []);
    assert MembersOk(mem.s, o);
    assert Adoptable(mem.s, o);
    var p := mem.NewShared(o, null);
    ghost var r := p.refCount;
    assert mem.s == State(map[m := null, p := r], map[], {r}, {o}, {}, map[o := r], [], []);
    ghost var u := mem.s.(shared := map[m := r, p := r]);
    assert mem.s.shared[m := r] == u.shared;
    mem.AssignShared(m, p);
    OnlyObjectStays(u, mem.s, o, p);
    ghost var v := mem.s.(shared := map[m := r]);
    assert mem.s.shared - {p} == v.shared;
    mem.DestroyShared(p);
    OnlyObjectStays(v, mem.s, o, m);
  }

  /** There the reset of the member destroys the object that the member lies in, and releases it twice. */
  method ResetReleasesTwice() returns (twice: bool)
    ensures twice
  {
    hide Memory.Valid;
    hide Settles;
    hide Memory.Idle;
    var mem, o, m := CycleKeepsItself();
    ghost var u := mem.s.(shared := mem.s.shared[m := null]);
    forall keep: set<Object> | o in keep ensures !Closed(u, keep) {
    }
    assert o in u.objects && !Anchored(u, o);
    ghost var released;
    twice, released := mem.Reset(m, null);
  }

  /** Without SharedPtrs no object is left, and WeakPtrs outside of objects stay. */
  lemma {:induction false} NothingShared(u: State, t: State)
    requires Settles(u, t) && u.shared == map[] && forall w :: w in u.weaks ==> w.storage == null
    ensures t.shared == map[] && t.objects == {} && t.weaks == u.weaks
  {
    forall o | o in u.objects ensures !Anchored(u, o) {
      assert forall keep: set<Object> :: o in keep ==> !Closed(u, keep);
    }
  }

  lemma {:induction false} OneWatcher(mem: Memory, r: RefCount, w: PtrBase)
    requires mem.Valid() && mem.s.shared == map[] && w in mem.s.weaks
    requires forall x :: x in mem.s.weaks ==> mem.s.weaks[x] == if x == w then r else null
    ensures r in mem.s.counts && r.weakCount == 1
  {
    assert Refs(mem.s.weaks, r) == {w} && Refs(mem.s.shared, r) == {};
  }

  /** An object with one SharedPtr and one WeakPtr. */
  method WatchedObject() returns (mem: Memory, p: PtrBase, w: PtrBase, r: RefCount)
    ensures mem.Valid() && fresh(mem) && fresh(p) && fresh(w) && fresh(r)
    ensures p.storage == null && w.storage == null && p != w
    ensures mem.s == State(map[p := r], map[w := r], {r}, {r.obj}, {}, map[r.obj := r], [], [])
  {
    hide Memory.Valid;
    mem := new Memory();
    var storage := new Storage();
    var o := new Object(storage, [], []);
    assert Adoptable(mem.s, o);
    p := mem.NewShared(o, null);
    r := p.refCount;
    w := mem.CopyWeak(p);
  }

  /** A WeakPtr on the only object is reset: the weak count is then one too high. */
  method WeakResetBreaks() returns (mem: Memory, p: PtrBase, w: PtrBase, r: RefCount, ghost was: State)
    ensures !mem.Valid() && r.weakCount == Weight(mem.s, r) + 1 && mem.Forgets(was, w) && was.weaks[w] == r
    ensures fresh(mem) && fresh(p) && fresh(w) && fresh(r) && p.storage == null && w.storage == null && p != w
    ensures mem.s == State(map[p := r], map[w := null], {r}, {r.obj}, {}, map[r.obj := r], [], [])
  {
    hide Memory.Valid;
    hide Memory.Forgets;
    mem, p, w, r := WatchedObject();
    was := mem.s;
    mem.ResetWeak(w);
  }

  /** The only SharedPtr goes, and only w refers to the block still. */
  method DropLastShared(mem: Memory, p: PtrBase, w: PtrBase, r: RefCount)
    requires mem.Valid() && p.storage == null && mem.s.shared == map[p := r] && w in mem.s.weaks
    requires forall x :: x in mem.s.weaks ==> x.storage == null && mem.s.weaks[x] == if x == w then r else null
    modifies mem, mem.s.shared.Keys, mem.s.weaks.Keys, mem.s.counts
    ensures mem.Valid() && mem.s.objects == {} && mem.s.shared == map[] && mem.s.weaks == old(mem.s.weaks)
    ensures r in mem.s.counts && r.weakCount == 1
  {
    hide Memory.Valid;
    hide Settles;
    ghost var u := mem.s.(shared := mem.s.shared - {p});
    assert u.shared == map[];
    mem.DestroyShared(p);
    NothingShared(u, mem.s);
    OneWatcher(mem, r, w);
  }

  /** When the last SharedPtr has gone too, the block stays, with weak count one and no handle but the lost one. */
  method WeakResetLeaks() returns (mem: Memory, r: RefCount, lost: PtrBase)
    ensures mem.Valid() && mem.s.objects == {} && mem.s.shared == map[] && r in mem.s.counts && r.weakCount == 1
    ensures forall w :: w in mem.s.weaks && w != lost ==> mem.s.weaks[w] == null
  {
    hide Memory.Valid;
    hide Memory.Forgets;
    var p, w;
    ghost var was;
    mem, p, w, r, was := WeakResetBreaks();
    lost := mem.AddLost(was, w, r);
    assert mem.s.weaks == map[w := null, lost := r];
    DropLastShared(mem, p, lost, r);
  }
}
