/** Any run of allocator calls by a program that writes to what it was given: every allocation reads what was last
    written to it. */
module AllocatorRuns {
  import opened Wrappers
  import opened SinglyList
  import opened SeqMoves
  import opened BlockTiling
  import opened SimpleAllocators

  /** A live allocation: the size asked for, and the bytes written (or zeroed) so far. */
  datatype Live = Live(size: nat, written: map<nat, int>)

  /** place is where the system maps new memory, if it is clear there. */
  datatype Op =
    | Malloc(size: nat, place: int)
    | Calloc(nmemb: nat, size: nat, place: int)
    | Realloc(i: nat, size: nat, place: int)
    | Free(i: nat)
    | Write(i: nat, k: nat, v: int)

  function Zeros(n: nat): map<nat, int> {
    map k | 0 <= k < n && Pair(k, n) :: 0
  }

  /** What is still within n bytes. */
  function Within(w: map<nat, int>, n: nat): map<nat, int> {
    map k | k in w && k < n :: w[k]
  }

  /** What a call does to the allocations, given whether it returned null. */
  function Next(log: seq<Live>, op: Op, null_: bool): seq<Live> {
    match op
    case Malloc(size, _) =>
      if null_ then log else log + [Live(size, map[])]
    case Calloc(nmemb, size, _) =>
      if null_ then log
      else var n := SimpleAllocator.Product(nmemb, size); log + [Live(n, Zeros(n))]
    case Realloc(i, size, _) =>
      if i >= |log| then log
      else if size == 0 then Without(log, i)
      else if null_ then log
      else log[i := Live(size, Within(log[i].written, size))]
    case Free(i) =>
      if i >= |log| then log else Without(log, i)
    case Write(i, k, v) =>
      if i >= |log| || k >= log[i].size then log
      else log[i := Live(log[i].size, log[i].written[k := v])]
  }

  function After(ops: seq<Op>, nulls: seq<bool>): seq<Live>
    requires |ops| == |nulls|
  {
    if ops == [] then []
    else var n := |ops| - 1; Next(After(ops[..n], nulls[..n]), ops[n], nulls[n])
  }

  /** Allocation i is block live[i]; it has room, and it reads what the log says. */
  ghost predicate Stored(g: Heap, m: map<int, int>, b: Block, l: Live) {
    && b in g.used && b in g.size && l.size <= g.size[b]
    && forall k :: k in l.written ==> k < l.size && SimpleAllocator.Payload(m, b, k) == l.written[k]
  }

  /** The blocks in use are exactly the live allocations. */
  ghost predicate AllStored(g: Heap, m: map<int, int>, live: seq<Block>, log: seq<Live>) {
    && |live| == |log| && NoDup(live) && (forall b :: b in g.used ==> b in live)
    && forall i :: 0 <= i < |live| ==> Stored(g, m, live[i], log[i])
  }

  // The system's side

  /** The blocks of a mapping leave no hole. */
  lemma {:induction false} Covered(h: Heap, i: nat, x: int) returns (j: nat)
    requires Tiling(h) && i < |h.blocks| && h.blocks[i].region in h.mapped
    requires h.blocks[i].addr <= x < h.blocks[i].region.addr + h.mapped[h.blocks[i].region]
    ensures j < |h.blocks| && h.blocks[j] in h.size && h.blocks[j].addr <= x < End(h, h.blocks[j])
    decreases |h.blocks| - i
  {
    assert Place(h, i);
    j := i;
    if x >= End(h, h.blocks[i]) {
      j := Covered(h, i + 1, x);
    }
  }

  /** Clear of all blocks is clear of all mappings. */
  lemma {:induction false} ClearOfBlocks(h: Heap, at: int, n: nat)
    requires Tiling(h) && n > 0
    requires forall i :: 0 <= i < |h.blocks| ==>
              h.blocks[i] in h.size && Apart(h.blocks[i].addr, HEADER + h.size[h.blocks[i]], at, n)
    ensures forall r :: r in h.mapped ==> Apart(r.addr, h.mapped[r], at, n)
  {
    forall r | r in h.mapped ensures Apart(r.addr, h.mapped[r], at, n) {
      var f := SimpleAllocator.IndexOf(h.blocks, r);
      EndsInside(h, f);
      var x := if r.addr < at then at else r.addr;
      if x < r.addr + h.mapped[r] {
        var j := Covered(h, f, x);
        assert Apart(h.blocks[j].addr, HEADER + h.size[h.blocks[j]], at, n);
      }
    }
  }

  /** ... and the other way round: blocks lie inside of their mappings. */
  lemma {:induction false} BlockInMapping(h: Heap, i: nat, at: int, n: nat)
    requires Tiling(h) && n > 0 && i < |h.blocks|
    requires forall r :: r in h.mapped ==> Apart(r.addr, h.mapped[r], at, n)
    ensures h.blocks[i] in h.size && Apart(h.blocks[i].addr, HEADER + h.size[h.blocks[i]], at, n)
  {
    StartsInside(h, i);
    EndsInside(h, i);
  }

  // What each call does to what is stored

  lemma {:induction false} StaysStored(g: Heap, m: map<int, int>, g': Heap, m': map<int, int>, b: Block, l: Live)
    requires Stored(g, m, b, l) && b in g'.used && b in g'.size && g'.size[b] == g.size[b]
    requires SimpleAllocator.SameBytes(m, m', b, g.size[b])
    ensures Stored(g', m', b, l)
  {
  }

  /** A new block joins: nothing else in use has changed. */
  lemma {:induction false} OneStored(g: Heap, m: map<int, int>, g': Heap, m': map<int, int>, live: seq<Block>,
      log: seq<Live>, b: Block, l: Live)
    requires AllStored(g, m, live, log) && SimpleAllocator.Allocated(g, g', b, l.size)
    requires SimpleAllocator.OthersSame(g, m, m', null)
    requires Stored(g', m', b, l)
    ensures AllStored(g', m', live + [b], log + [l])
  {
    var live', log' := live + [b], log + [l];
    forall i | 0 <= i < |live'| ensures Stored(g', m', live'[i], log'[i]) {
      if i < |live| {
        StaysStored(g, m, g', m', live[i], log[i]);
      }
    }
    assert forall i :: 0 <= i < |live| ==> live[i] in g.used;
    forall i, j | Pair(i, j) && 0 <= i && j < |live'| ensures live'[i] != live'[j] {
      assert live[i] in g.used;
    }
    assert forall c :: c in live ==> c in live';
    assert b in live';
  }

  lemma {:induction false} WithoutBlock(live: seq<Block>, i: nat)
    requires NoDup(live) && i < |live|
    ensures NoDup(Without(live, i)) && (forall c :: c in live && c != live[i] ==> c in Without(live, i))
    ensures live[i] !in Without(live, i)
  {
    var d := Without(live, i);
    NoDupIsDistinct(live);
    assert forall j :: 0 <= j < |d| ==> d[j] == live[if j < i then j else j + 1];
    NoDupIsDistinct(d);
    forall c | c in live && c != live[i] ensures c in d {
      var k :| 0 <= k < |live| && live[k] == c;
      assert d[if k < i then k else k - 1] == c;
    }
  }

  /** A block goes. */
  lemma {:induction false} OneFreed(g: Heap, m: map<int, int>, g': Heap, live: seq<Block>, log: seq<Live>, i: nat)
    requires AllStored(g, m, live, log) && i < |live| && SimpleAllocator.Freed(g, g', live[i])
    ensures AllStored(g', m, Without(live, i), Without(log, i))
  {
    WithoutBlock(live, i);
    var live', log' := Without(live, i), Without(log, i);
    forall j | 0 <= j < |live'| ensures Stored(g', m, live'[j], log'[j]) {
      var k := if j < i then j else j + 1;
      assert live'[j] == live[k] && log'[j] == log[k] && Stored(g, m, live[k], log[k]);
      assert live'[j] in live';
      StaysStored(g, m, g', m, live[k], log[k]);
    }
  }

  /** A block moves, or grows where it is, or stays as it is. */
  lemma {:induction false} OneMoved(g: Heap, m: map<int, int>, g': Heap, m': map<int, int>, live: seq<Block>,
      log: seq<Live>, i: nat, r: Block, size: nat)
    requires AllStored(g, m, live, log) && i < |live| && live[i] in g.size
    requires SimpleAllocator.Reallocated(g, g', live[i], r, size) && SimpleAllocator.OthersSame(g, m, m', live[i])
    requires forall k :: 0 <= k < g.size[live[i]] ==>
              SimpleAllocator.Payload(m', r, k) == SimpleAllocator.Payload(m, live[i], k)
    ensures AllStored(g', m', live[i := r], log[i := Live(size, Within(log[i].written, size))])
  {
    var live', log' := live[i := r], log[i := Live(size, Within(log[i].written, size))];
    assert Stored(g, m, live[i], log[i]);
    forall j | 0 <= j < |live'| ensures Stored(g', m', live'[j], log'[j]) {
      if j != i {
        assert Stored(g, m, live[j], log[j]) && (Pair(i, j) || Pair(j, i));
        StaysStored(g, m, g', m', live[j], log[j]);
      }
    }
    forall j, k | Pair(j, k) && 0 <= j && k < |live'| ensures live'[j] != live'[k] {
      assert live[j] != live[k] && Stored(g, m, live[j], log[j]) && Stored(g, m, live[k], log[k]);
    }
    forall c | c in g'.used ensures c in live' {
      if c == r {
        assert live'[i] == r;
      } else {
        var k :| 0 <= k < |live| && live[k] == c;
        assert live'[k] == c;
      }
    }
  }

  /** A byte is written inside an allocation. */
  lemma {:induction false} OneWritten(g: Heap, m: map<int, int>, live: seq<Block>, log: seq<Live>, i: nat, k: nat,
      v: int)
    requires Tiling(g) && AllStored(g, m, live, log) && i < |live| && k < log[i].size
    ensures AllStored(g, m[SimpleAllocator.Data(live[i]) + k := v], live,
        log[i := Live(log[i].size, log[i].written[k := v])])
  {
    var b, m', log' := live[i], m[SimpleAllocator.Data(live[i]) + k := v],
        log[i := Live(log[i].size, log[i].written[k := v])];
    assert Stored(g, m, live[i], log[i]);
    forall j | 0 <= j < |live| ensures Stored(g, m', live[j], log'[j]) {
      assert Stored(g, m, live[j], log[j]);
      if j != i {
        assert Pair(i, j) || Pair(j, i);
        SimpleAllocator.PayloadsApart(g, b, live[j]);
        StaysStored(g, m, g, m', live[j], log[j]);
      }
    }
  }

  // Runs

  /** The program's side of the state before a call: the heap, the memory, and the block of each allocation. */
  datatype View = View(h: Heap, bytes: map<int, int>, live: seq<Block>)

  /** No free block is large enough, and there is something where the system would map a new region. */
  ghost predicate NoRoom(g: Heap, size: nat, place: int) {
    !SimpleAllocator.FitExists(g, size) && !SimpleAllocator.Clear(g, Some(place), size)
  }

  /** The answer is null, or there is none: nothing was asked for, or there is no room for it. */
  ghost predicate Null(v: View, op: Op) {
    match op
    case Malloc(size, place) => size == 0 || NoRoom(v.h, size, place)
    case Calloc(nmemb, size, place) =>
      var n := SimpleAllocator.Product(nmemb, size);
      n == 0 || NoRoom(v.h, n, place)
    case Realloc(i, size, place) =>
      i >= |v.live| || size == 0
      || (!SimpleAllocator.Unobstructed(v.h, v.live[i], size) && NoRoom(v.h, size, place))
    case Free(_) => true
    case Write(_, _, _) => true
  }

  class Program {
    const a: SimpleAllocator
    var live: seq<Block>
    var log: seq<Live>

    ghost predicate Valid()
      reads this, a, a.cells
    {
      a.Valid() && AllStored(a.h, a.bytes, live, log)
    }

    ghost function Now(): View
      reads this, a
    {
      View(a.h, a.bytes, live)
    }

    constructor ()
      ensures Valid() && log == [] && fresh(a) && a.cells == {} && a.h == Heap([], [], map[], {}, map[])
    {
      a := new SimpleAllocator();
      live, log := [], [];
    }

    /** What the system answers to a request for a mapping: the place, unless something is there. */
    method Answer(place: int, size: nat) returns (os: Option<int>)
      requires a.Valid()
      ensures os == if SimpleAllocator.Clear(a.h, Some(place), size) then Some(place) else None
    {
      hide Good;
      SimpleAllocator.Tiled(a.h);
      var i, n := 0, SimpleAllocator.MappingSize(size) + HEADER;
      while i < |a.blocks|
        invariant i <= |a.blocks|
        invariant forall j :: 0 <= j < i ==>
                  a.h.blocks[j] in a.h.size && Apart(a.h.blocks[j].addr, HEADER + a.h.size[a.h.blocks[j]], place, n)
      {
        var b := a.blocks[i];
        assert a.Agrees(a.h, a.h.blocks[i], {});
        if !Apart(b.addr, HEADER + b.size, place, n) {
          if SimpleAllocator.Clear(a.h, Some(place), size) { BlockInMapping(a.h, i, place, n); }
          return None;
        }
        i := i + 1;
      }
      ClearOfBlocks(a.h, place, n);
      os := Some(place);
    }

    method MallocOne(size: nat, place: int) returns (null_: bool)
      requires Valid() && size > 0
      modifies this`live, this`log, a, a.cells
      ensures Valid() && fresh(a.cells - old(a.cells)) && log == Next(old(log), Malloc(size, place), null_)
      ensures null_ <==> old(Null(Now(), Malloc(size, place)))
    {
      hide SimpleAllocator.Unobstructed;
      hide SimpleAllocator.Valid;
      hide AllStored;
      ghost var g, m := a.h, a.bytes;
      var os := Answer(place, size);
      var b := a.Malloc(size, os);
      null_ := b == null;
      if b != null {
        OneStored(g, m, a.h, m, live, log, b, Live(size, map[]));
        live, log := live + [b], log + [Live(size, map[])];
      }
    }

    method CallocOne(nmemb: nat, size: nat, place: int) returns (null_: bool)
      requires Valid()
      modifies this`live, this`log, a, a.cells
      ensures Valid() && fresh(a.cells - old(a.cells)) && log == Next(old(log), Calloc(nmemb, size, place), null_)
      ensures null_ <==> old(Null(Now(), Calloc(nmemb, size, place)))
    {
      hide SimpleAllocator.Unobstructed;
      hide SimpleAllocator.Valid;
      hide AllStored;
      ghost var g, m := a.h, a.bytes;
      var n := SimpleAllocator.Product(nmemb, size);
      var os := Answer(place, n);
      var b := a.Calloc(nmemb, size, os);
      null_ := b == null;
      if b != null {
        OneStored(g, m, a.h, a.bytes, live, log, b, Live(n, Zeros(n)));
        live, log := live + [b], log + [Live(n, Zeros(n))];
      }
    }

    lemma {:induction false} Sizes(i: nat)
      requires Valid() && i < |live|
      ensures |log| == |live| && live[i] in a.h.used && live[i] in a.h.size
    {
    }

    method FreeOne(i: nat)
      requires Valid() && i < |live|
      modifies this`live, this`log, a, a.cells
      ensures Valid() && a.cells == old(a.cells) && log == Without(old(log), i)
    {
      hide SimpleAllocator.Valid;
      hide AllStored;
      Sizes(i);
      ghost var g := a.h;
      a.Free(live[i]);
      OneFreed(g, a.bytes, a.h, live, log, i);
      live, log := Without(live, i), Without(log, i);
    }

    method ReallocOne(i: nat, size: nat, place: int) returns (null_: bool)
      requires Valid() && i < |live|
      modifies this`live, this`log, a, a.cells
      ensures Valid() && fresh(a.cells - old(a.cells)) && log == Next(old(log), Realloc(i, size, place), null_)
      ensures null_ <==> old(Null(Now(), Realloc(i, size, place)))
    {
      hide SimpleAllocator.Valid;
      hide AllStored;
      Sizes(i);
      ghost var g, m := a.h, a.bytes;
      var os := Answer(place, size);
      var b := a.Realloc(live[i], size, os);
      null_ := b == null;
      if size == 0 {
        OneFreed(g, m, a.h, live, log, i);
        live, log := Without(live, i), Without(log, i);
      } else if b != null {
        OneMoved(g, m, a.h, a.bytes, live, log, i, b, size);
        live, log := live[i := b], log[i := Live(size, Within(log[i].written, size))];
      }
    }

    method WriteOne(i: nat, k: nat, v: int)
      requires Valid() && i < |live| && |log| == |live| && k < log[i].size
      modifies this`log, a`bytes
      ensures Valid() && log == Next(old(log), Write(i, k, v), false)
    {
      hide SimpleAllocator.Linked;
      hide AllStored;
      OneWritten(a.h, a.bytes, live, log, i, k, v);
      a.bytes := a.bytes[SimpleAllocator.Data(live[i]) + k := v];
      log := log[i := Live(log[i].size, log[i].written[k := v])];
    }

    method Step(op: Op) returns (null_: bool)
      requires Valid()
      modifies this`live, this`log, a, a.cells
      ensures Valid() && fresh(a.cells - old(a.cells)) && log == Next(old(log), op, null_)
      ensures null_ <==> old(Null(Now(), op))
    {
      hide NoRoom;
      hide SimpleAllocator.Unobstructed;
      hide SimpleAllocator.Valid;
      assert |log| == |live|;
      null_ := true;
      match op
      case Malloc(size, place) =>
        if size > 0 { null_ := MallocOne(size, place); }
      case Calloc(nmemb, size, place) => null_ := CallocOne(nmemb, size, place);
      case Realloc(i, size, place) =>
        if i < |live| { null_ := ReallocOne(i, size, place); }
      case Free(i) =>
        if i < |live| { FreeOne(i); }
      case Write(i, k, v) =>
        if i < |live| && k < log[i].size { WriteOne(i, k, v); }
    }
  }

  /** At every point of a run: the blocks in use are exactly the allocations that the calls before have left, each reads
      what was last written to it, the blocks tile their mappings, and no two neighbours are free. */
  ghost predicate Kept(v: View, log: seq<Live>) {
    Good(v.h) && AllStored(v.h, v.bytes, v.live, log)
  }

  /** views and nulls are what the first |nulls| calls have shown and answered. */
  ghost predicate Shown(ops: seq<Op>, nulls: seq<bool>, views: seq<View>) {
    && |nulls| <= |ops| && |views| == |nulls| + 1 && views[0].h == Heap([], [], map[], {}, map[])
    && (forall i :: 0 <= i < |nulls| ==> (nulls[i] <==> Null(views[i], ops[i])))
    && (forall i :: 0 <= i <= |nulls| ==> Kept(views[i], After(ops[..i], nulls[..i])))
  }

  lemma {:induction false} SamePrefix<T>(s: seq<T>, x: T, i: nat)
    requires i <= |s|
    ensures (s + [x])[..i] == s[..i]
  {
  }

  lemma {:induction false} SameAll<T>(s: seq<T>, i: nat)
    requires i == |s|
    ensures s[..i] == s
  {
  }

  lemma {:induction false} NextAfter(ops: seq<Op>, nulls: seq<bool>, null_: bool)
    requires |nulls| < |ops|
    ensures After(ops[..|nulls| + 1], nulls + [null_]) == Next(After(ops[..|nulls|], nulls), ops[|nulls|], null_)
  {
    SamePrefix(nulls, null_, |nulls|);
    SameAll(nulls, |nulls|);
    assert ops[..|nulls| + 1][..|nulls|] == ops[..|nulls|];
  }

  lemma {:induction false} ShowNext(ops: seq<Op>, nulls: seq<bool>, views: seq<View>, null_: bool, v: View)
    requires Shown(ops, nulls, views) && |nulls| < |ops| && (null_ <==> Null(views[|nulls|], ops[|nulls|]))
    requires Kept(v, Next(After(ops[..|nulls|], nulls), ops[|nulls|], null_))
    ensures Shown(ops, nulls + [null_], views + [v])
    ensures After(ops[..|nulls| + 1], nulls + [null_]) == Next(After(ops[..|nulls|], nulls), ops[|nulls|], null_)
  {
    hide Kept;
    hide Null;
    var n, nulls' := |nulls|, nulls + [null_];
    NextAfter(ops, nulls, null_);
    forall i | 0 <= i <= n + 1 ensures Kept((views + [v])[i], After(ops[..i], nulls'[..i])) {
      if i <= n {
        SamePrefix(nulls, null_, i);
        assert (views + [v])[i] == views[i];
      } else {
        SameAll(nulls', n + 1);
      }
    }
  }

  lemma {:induction false} FirstShown(ops: seq<Op>, v: View)
    requires v.h == Heap([], [], map[], {}, map[]) && Kept(v, [])
    ensures After(ops[..0], []) == [] && Shown(ops, [], [v])
  {
  }

  lemma {:induction false} AllShown(ops: seq<Op>, nulls: seq<bool>, views: seq<View>)
    requires Shown(ops, nulls, views) && |nulls| == |ops|
    ensures views[0].h == Heap([], [], map[], {}, map[])
    ensures forall i :: 0 <= i < |ops| ==> (nulls[i] <==> Null(views[i], ops[i]))
    ensures forall i :: 0 <= i <= |ops| ==> Kept(views[i], After(ops[..i], nulls[..i]))
    ensures ops[..|ops|] == ops
  {
  }

  lemma {:induction false} IsKept(p: Program)
    requires p.Valid()
    ensures Kept(p.Now(), p.log)
  {
  }

  /** The call leaves byte k of allocation i alone, and allocation i in its place. */
  predicate Untouched(op: Op, i: nat, k: nat) {
    match op
    case Malloc(_, _) => true
    case Calloc(_, _, _) => true
    case Realloc(j, size, _) => if j == i then size > k else j > i || size > 0
    case Free(j) => j > i
    case Write(j, l, _) => j != i || l != k
  }

  /** Byte k of allocation i has been written, and v was the last. */
  ghost predicate Holds(log: seq<Live>, i: nat, k: nat, v: int) {
    i < |log| && k < log[i].size && k in log[i].written && log[i].written[k] == v
  }

  lemma {:induction false} NextHolds(log: seq<Live>, op: Op, null_: bool, i: nat, k: nat, v: int)
    requires Holds(log, i, k, v) && Untouched(op, i, k)
    ensures Holds(Next(log, op, null_), i, k, v)
  {
  }

  lemma {:induction false} WriteHolds(log: seq<Live>, op: Op, null_: bool)
    requires op.Write? && op.i < |log| && op.k < log[op.i].size
    ensures Holds(Next(log, op, null_), op.i, op.k, op.v)
  {
  }

  lemma {:induction false} AfterOneMore(ops: seq<Op>, nulls: seq<bool>, n: nat)
    requires |ops| == |nulls| && n < |ops|
    ensures After(ops[..n + 1], nulls[..n + 1]) == Next(After(ops[..n], nulls[..n]), ops[n], nulls[n])
  {
    assert ops[..n + 1][..n] == ops[..n] && nulls[..n + 1][..n] == nulls[..n];
  }

  lemma {:induction false} StaysWritten(ops: seq<Op>, nulls: seq<bool>, w: nat, n: nat)
    requires |ops| == |nulls| && w < n <= |ops| && ops[w].Write?
    requires var log := After(ops[..w], nulls[..w]); ops[w].i < |log| && ops[w].k < log[ops[w].i].size
    requires forall j :: w < j < n ==> Untouched(ops[j], ops[w].i, ops[w].k)
    ensures Holds(After(ops[..n], nulls[..n]), ops[w].i, ops[w].k, ops[w].v)
  {
    hide After;
    hide Next;
    hide Holds;
    hide Untouched;
    var log := After(ops[..n - 1], nulls[..n - 1]);
    AfterOneMore(ops, nulls, n - 1);
    if w < n - 1 {
      StaysWritten(ops, nulls, w, n - 1);
      NextHolds(log, ops[n - 1], nulls[n - 1], ops[w].i, ops[w].k, ops[w].v);
    } else {
      WriteHolds(log, ops[w], nulls[w]);
    }
  }

  /** What a program writes into an allocation is what it reads there, until it writes there again, frees it, or cuts it
      down; calls for other allocations do not matter. */
  lemma {:induction false} ReadsWhatWasWritten(ops: seq<Op>, nulls: seq<bool>, w: nat, n: nat, v: View)
    requires |ops| == |nulls| && w < n <= |ops| && ops[w].Write?
    requires var log := After(ops[..w], nulls[..w]); ops[w].i < |log| && ops[w].k < log[ops[w].i].size
    requires forall j :: w < j < n ==> Untouched(ops[j], ops[w].i, ops[w].k)
    requires Kept(v, After(ops[..n], nulls[..n]))
    ensures ops[w].i < |v.live|
    ensures SimpleAllocator.Byte(v.bytes, v.live[ops[w].i].addr + 72 + ops[w].k) == ops[w].v
  {
    StaysWritten(ops, nulls, w, n);
    assert Stored(v.h, v.bytes, v.live[ops[w].i], After(ops[..n], nulls[..n])[ops[w].i]);
  }

  /** Any run from an empty allocator: that is kept, and a call answers null exactly when it asked for nothing, or
      neither a free block nor the system has room. */
  method Run(ops: seq<Op>) returns (p: Program, nulls: seq<bool>, ghost views: seq<View>)
    ensures |nulls| == |ops| && |views| == |ops| + 1 && views[0].h == Heap([], [], map[], {}, map[])
    ensures forall i :: 0 <= i < |ops| ==> (nulls[i] <==> Null(views[i], ops[i]))
    ensures forall i :: 0 <= i <= |ops| ==> Kept(views[i], After(ops[..i], nulls[..i]))
    ensures p.a.Valid() && views[|ops|] == p.Now() && p.log == After(ops, nulls)
  {
    hide SimpleAllocator.Valid;
    hide Kept;
    hide Shown;
    hide After;
    p := new Program();
    nulls := [];
    IsKept(p);
    views := [p.Now()];
    FirstShown(ops, p.Now());
    while |nulls| < |ops|
      invariant |nulls| <= |ops| && p.Valid() && fresh(p) && fresh(p.a) && fresh(p.a.cells)
      invariant p.log == After(ops[..|nulls|], nulls) && |views| == |nulls| + 1 && views[|nulls|] == p.Now()
      invariant Shown(ops, nulls, views)
    {
      var null_ := p.Step(ops[|nulls|]);
      IsKept(p);
      ShowNext(ops, nulls, views, null_, p.Now());
      nulls, views := nulls + [null_], views + [p.Now()];
    }
    AllShown(ops, nulls, views);
  }
}
