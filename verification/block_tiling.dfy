/** How the blocks of the allocator tile the mapped regions: the block list in order, the sizes,
    who is used, and the size-sorted free list. */
module BlockTiling {
  import opened SinglyList
  import opened SeqMoves

  const HEADER: nat := 72
  const MIN_BLOCK: nat := 16

  /** BlockHeader */
  class Block {
    const addr: int
    // the first block of the mapping this block lies in
    const region: Block
    var size: nat
    var used: bool

    constructor Region(addr: int, size: nat)
      ensures this.addr == addr && region == this && this.size == size && !used
    {
      this.addr, region, this.size, used := addr, this, size, false;
    }

    constructor (addr: int, size: nat, region: Block)
      ensures this.addr == addr && this.region == region && this.size == size && !used
    {
      this.addr, this.region, this.size, used := addr, region, size, false;
    }
  }

  datatype Heap = Heap(
    blocks: seq<Block>,
    free: seq<Block>,
    size: map<Block, nat>,
    used: set<Block>,
    mapped: map<Block, nat>)  // the length of each mapping, by its first block

  function End(h: Heap, b: Block): int
    requires b in h.size
  {
    b.addr + HEADER + h.size[b]
  }

  predicate Apart(a: int, n: int, b: int, m: int) {
    a + n <= b || b + m <= a
  }

  function Before(s: seq<Block>, k: nat): Block?
    requires k <= |s|
  {
    if k == 0 then null else s[k - 1]
  }

  function After(s: seq<Block>, k: nat): Block?
    requires k < |s|
  {
    if k + 1 < |s| then s[k + 1] else null
  }

  /** A block starts its region exactly when the one before is of another region, and it ends where the next one
      of its region starts, or else where the mapping ends. */
  ghost predicate Fits(prev: Block?, b: Block, next: Block?, size: map<Block, nat>, mapped: map<Block, nat>) {
    && b in size && b.region in mapped
    && (b.region == b <==> prev == null || prev.region != b.region)
    && b.addr + HEADER + size[b] == if next != null && next.region == b.region then next.addr
        else b.region.addr + mapped[b.region]
  }

  ghost predicate Place(h: Heap, i: nat)
    requires i < |h.blocks|
  {
    Fits(Before(h.blocks, i), h.blocks[i], After(h.blocks, i), h.size, h.mapped)
  }

  ghost predicate RegionsApart(mapped: map<Block, nat>) {
    forall r, q :: r in mapped && q in mapped && r != q ==> Apart(r.addr, mapped[r], q.addr, mapped[q])
  }

  ghost predicate Tiling(h: Heap) {
    && NoDup(h.blocks) && (forall i :: 0 <= i < |h.blocks| ==> Place(h, i))
    && (forall b :: b in h.used ==> b in h.blocks)
    && (forall r :: r in h.mapped ==> r in h.blocks && r.region == r)
    && RegionsApart(h.mapped)
  }

  /** Ascending by size, x not considered. */
  ghost predicate SortedBut(free: seq<Block>, size: map<Block, nat>, x: Block?) {
    forall p, q {:trigger Pair(p, q)} :: Pair(p, q) && 0 <= p && q < |free| && free[p] != x
        && free[q] != x && free[p] in size && free[q] in size
      ==> size[free[p]] <= size[free[q]]
  }

  /** The free list is the sorted view of the unused blocks, but for the place of x. */
  ghost predicate FreeOk(h: Heap, x: Block?) {
    && NoDup(h.free) && (forall b :: b in h.free ==> b in h.blocks && b !in h.used)
    && (forall b :: b in h.blocks && b !in h.used ==> b in h.free)
    && SortedBut(h.free, h.size, x)
  }

  /** Blocks k and k + 1 are not two free ones of one region. */
  ghost predicate Gap(h: Heap, k: nat)
    requires k + 1 < |h.blocks|
  {
    h.blocks[k] in h.used || h.blocks[k + 1] in h.used || h.blocks[k].region != h.blocks[k + 1].region
  }

  ghost predicate Coalesced(h: Heap) {
    forall k :: 0 <= k < |h.blocks| - 1 ==> Gap(h, k)
  }

  ghost predicate Good(h: Heap) {
    Tiling(h) && FreeOk(h, null) && Coalesced(h)
  }

  // Tiling

  lemma {:induction false} StartsInside(h: Heap, i: nat)
    requires Tiling(h) && i < |h.blocks|
    ensures h.blocks[i].region in h.mapped && h.blocks[i].region.addr <= h.blocks[i].addr
  {
    assert Place(h, i);
    if h.blocks[i].region != h.blocks[i] {
      StartsInside(h, i - 1);
      assert Place(h, i - 1);
    }
  }

  lemma {:induction false} EndsInside(h: Heap, i: nat)
    requires Tiling(h) && i < |h.blocks|
    ensures h.blocks[i] in h.size && h.blocks[i].region in h.mapped
    ensures End(h, h.blocks[i]) <= h.blocks[i].region.addr + h.mapped[h.blocks[i].region]
    decreases |h.blocks| - i
  {
    assert Place(h, i);
    if i + 1 < |h.blocks| && h.blocks[i + 1].region == h.blocks[i].region {
      EndsInside(h, i + 1);
      assert Place(h, i + 1);
    }
  }

  /** A block that comes before the first block of a region is not of that region. */
  lemma {:induction false} FirstStands(h: Heap, i: nat, f: nat)
    requires Tiling(h) && i < f < |h.blocks| && h.blocks[f].region == h.blocks[f]
    ensures h.blocks[i].region != h.blocks[f]
    decreases i
  {
    assert Place(h, i) && Pair(i, f);
    if h.blocks[i].region == h.blocks[f] {
      assert h.blocks[i].region != h.blocks[i];
      FirstStands(h, i - 1, f);
      assert false;
    }
  }

  /** The blocks of a region stand together in the list. */
  lemma {:induction false} SameStretch(h: Heap, i: nat, j: nat, k: nat)
    requires Tiling(h) && i <= k <= j < |h.blocks| && h.blocks[i].region == h.blocks[j].region
    ensures h.blocks[k].region == h.blocks[i].region
    decreases j - k
  {
    if k < j {
      SameStretch(h, i, j, k + 1);
      assert Place(h, k + 1);
      if h.blocks[k].region != h.blocks[k + 1].region {
        assert h.blocks[k + 1].region == h.blocks[k + 1];
        FirstStands(h, i, k + 1);
      }
    }
  }

  /** Within one region later blocks lie behind earlier ones. */
  lemma {:induction false} Behind(h: Heap, i: nat, j: nat)
    requires Tiling(h) && i < j < |h.blocks| && h.blocks[i].region == h.blocks[j].region
    ensures h.blocks[i] in h.size && End(h, h.blocks[i]) <= h.blocks[j].addr
    decreases j - i
  {
    SameStretch(h, i, j, i + 1);
    assert Place(h, i);
    if i + 1 < j {
      Behind(h, i + 1, j);
      assert Place(h, i + 1);
    }
  }

  /** Two blocks never overlap, header and payload together. */
  lemma {:induction false} BlocksDisjoint(h: Heap, i: nat, j: nat)
    requires Tiling(h) && i < j < |h.blocks|
    ensures h.blocks[i] in h.size && h.blocks[j] in h.size
    ensures Apart(h.blocks[i].addr, HEADER + h.size[h.blocks[i]], h.blocks[j].addr, HEADER + h.size[h.blocks[j]])
  {
    StartsInside(h, i);
    EndsInside(h, i);
    StartsInside(h, j);
    EndsInside(h, j);
    if h.blocks[i].region == h.blocks[j].region {
      Behind(h, i, j);
    }
  }

  function Total(h: Heap, i: nat, j: nat): int
    requires i <= j <= |h.blocks| && forall k :: i <= k < j ==> h.blocks[k] in h.size
    decreases j - i
  {
    if i == j then 0 else HEADER + h.size[h.blocks[i]] + Total(h, i + 1, j)
  }

  /** The blocks of a region, from its first to its last, add up to the mapped length. */
  lemma {:induction false} RegionAddsUp(h: Heap, i: nat, j: nat)
    requires Tiling(h) && i < j <= |h.blocks| && h.blocks[i].region == h.blocks[j - 1].region
    requires j < |h.blocks| ==> h.blocks[j].region != h.blocks[i].region
    ensures forall k :: i <= k < j ==> h.blocks[k] in h.size
    ensures h.blocks[i].region in h.mapped
    ensures Total(h, i, j) == h.blocks[i].region.addr + h.mapped[h.blocks[i].region] - h.blocks[i].addr
    decreases j - i
  {
    assert forall k :: i <= k < j ==> Place(h, k);
    assert Place(h, i);
    if i + 1 < j {
      SameStretch(h, i, j - 1, i + 1);
      RegionAddsUp(h, i + 1, j);
    }
  }

  // The free list

  /** The free list with block i taken off, the block marked used. */
  ghost function Taken(h: Heap, i: nat): Heap
    requires i < |h.free|
  {
    h.(free := Without(h.free, i), used := h.used + {h.free[i]})
  }

  lemma {:induction false} TakeSorted(free: seq<Block>, size: map<Block, nat>, x: Block?, i: nat)
    requires NoDup(free) && SortedBut(free, size, x) && i < |free|
    ensures NoDup(Without(free, i)) && SortedBut(Without(free, i), size, if free[i] == x then null else x)
    ensures free[i] !in Without(free, i) && forall b :: b in free && b != free[i] ==> b in Without(free, i)
    ensures forall b :: b in Without(free, i) ==> b in free
  {
    var d := Without(free, i);
    NoDupIsDistinct(free);
    assert forall j :: 0 <= j < |d| ==> d[j] == free[if j < i then j else j + 1];
    NoDupIsDistinct(d);
    forall p, q | Pair(p, q) && 0 <= p && q < |d| && d[p] in size && d[q] in size && d[p] != x && d[q] != x
      ensures size[d[p]] <= size[d[q]] {
      assert Pair(if p < i then p else p + 1, if q < i then q else q + 1);
    }
    forall b | b in free && b != free[i] ensures b in d {
      WithoutElem(free, i, b);
    }
  }

  lemma {:induction false} Take(h: Heap, x: Block?, i: nat)
    requires Tiling(h) && FreeOk(h, x) && i < |h.free|
    ensures Tiling(Taken(h, i)) && FreeOk(Taken(h, i), if h.free[i] == x then null else x)
    ensures Coalesced(h) ==> Coalesced(Taken(h, i))
  {
    TakeSorted(h.free, h.size, x, i);
    assert h.free[i] in h.free;
    forall k | 0 <= k < |h.blocks| ensures Place(Taken(h, i), k) {
      assert Place(h, k);
    }
    if Coalesced(h) {
      forall k | 0 <= k < |h.blocks| - 1 ensures Gap(Taken(h, i), k) {
        assert Gap(h, k);
      }
    }
  }

  /** The free list with b put in at position i, b marked free. */
  ghost function Put(h: Heap, b: Block, i: nat): Heap
    requires i <= |h.free|
  {
    h.(free := With(h.free, i, b), used := h.used - {b})
  }

  lemma {:induction false} PutSorted(free: seq<Block>, size: map<Block, nat>, b: Block, i: nat)
    requires NoDup(free) && SortedBut(free, size, null) && i <= |free| && b !in free && b in size
    requires forall f :: f in free ==> f in size
    requires forall j :: 0 <= j < i ==> size[free[j]] < size[b]
    requires i < |free| ==> size[free[i]] >= size[b]
    ensures NoDup(With(free, i, b)) && SortedBut(With(free, i, b), size, null)
  {
    var d := With(free, i, b);
    NoDupIsDistinct(free);
    assert forall j :: 0 <= j < |d| ==> d[j] == if j < i then free[j] else if j == i then b else free[j - 1];
    forall p, q | 0 <= p < q < |d| ensures d[p] != d[q] {
      assert p != i && q != i ==> free[if p < i then p else p - 1] != free[if q < i then q else q - 1];
      assert p == i ==> free[q - 1] in free;
      assert q == i ==> free[p] in free;
    }
    NoDupIsDistinct(d);
    forall p, q | Pair(p, q) && 0 <= p && q < |d| && d[p] in size && d[q] in size ensures size[d[p]] <= size[d[q]] {
      assert p != i && q != i ==> Pair(if p < i then p else p - 1, if q < i then q else q - 1);
      assert p == i && q > i + 1 ==> Pair(i, q - 1) && size[free[i]] <= size[free[q - 1]];
    }
  }

  lemma {:induction false} PutBack(h: Heap, b: Block, i: nat)
    requires Tiling(h) && FreeOk(h, null) && b in h.used && i <= |h.free| && (forall f :: f in h.free ==> f in h.size)
    requires b in h.size
    requires forall j :: 0 <= j < i ==> h.size[h.free[j]] < h.size[b]
    requires i < |h.free| ==> h.size[h.free[i]] >= h.size[b]
    ensures Tiling(Put(h, b, i)) && FreeOk(Put(h, b, i), null)
  {
    PutSorted(h.free, h.size, b, i);
    WithElems(h.free, i, b);
    forall k | 0 <= k < |h.blocks| ensures Place(Put(h, b, i), k) {
      assert Place(h, k);
    }
  }

  // Splitting and merging

  /** Block i cut down to m bytes, the rest (but a header) becoming the block n behind it; n is not listed yet. */
  ghost function Cut(h: Heap, i: nat, m: nat, n: Block): Heap
    requires i < |h.blocks| && h.blocks[i] in h.size && m + HEADER <= h.size[h.blocks[i]]
  {
    var b := h.blocks[i];
    h.(blocks := With(h.blocks, i + 1, n), size := h.size[b := m][n := h.size[b] - m - HEADER], used := h.used + {n})
  }

  lemma {:induction false} CutNoDup(s: seq<Block>, b: nat, x: Block)
    requires NoDup(s) && b <= |s| && x !in s
    ensures NoDup(With(s, b, x))
  {
    var d := With(s, b, x);
    NoDupIsDistinct(s);
    assert forall j :: 0 <= j < |d| ==> d[j] == if j < b then s[j] else if j == b then x else s[j - 1];
    forall p, q | 0 <= p < q < |d| ensures d[p] != d[q] {
      assert p != b && q != b ==> s[if p < b then p else p - 1] != s[if q < b then q else q - 1];
      assert p == b ==> s[q - 1] in s;
      assert q == b ==> s[p] in s;
    }
    NoDupIsDistinct(d);
  }

  lemma {:induction false} WithNeighbours(s: seq<Block>, i: nat, n: Block, k: nat)
    requires i < |s| && k <= |s|
    ensures var d := With(s, i + 1, n);
      && |d| == |s| + 1 && d[k] == (if k <= i then s[k] else if k == i + 1 then n else s[k - 1])
      && Before(d, k) == (if k <= i + 1 then Before(s, k) else if k == i + 2 then n else Before(s, k - 1))
      && After(d, k) == (if k < i then After(s, k) else if k == i then n else After(s, k - 1))
  {
    var d := With(s, i + 1, n);
    assert forall j :: 0 <= j < |d| ==> d[j] == if j <= i then s[j] else if j == i + 1 then n else s[j - 1];
  }

  lemma {:induction false} OtherBlock(s: seq<Block>, i: nat, j: nat)
    requires NoDup(s) && i < |s| && j < |s| && i != j
    ensures s[i] != s[j]
  {
    assert Pair(i, j) || Pair(j, i);
  }

  lemma {:induction false} NextFacts(h: Heap, i: nat)
    requires i < |h.blocks|
    ensures After(h.blocks, i) == (if i + 1 < |h.blocks| then h.blocks[i + 1] else null)
    ensures Before(h.blocks, i + 1) == h.blocks[i]
  {
  }

  lemma {:induction false} CutPlace(h: Heap, i: nat, m: nat, n: Block, k: nat)
    requires Tiling(h) && i < |h.blocks| && h.blocks[i] in h.size && m + HEADER <= h.size[h.blocks[i]]
    requires n !in h.blocks && n.addr == h.blocks[i].addr + HEADER + m && n.region == h.blocks[i].region
    requires k <= |h.blocks|
    ensures Place(Cut(h, i, m, n), k)
  {
    hide With;
    hide Before;
    hide After;
    var o := if k <= i then k else k - 1;
    WithNeighbours(h.blocks, i, n, k);
    assert Place(h, o) && Place(h, i);
    if o != i { OtherBlock(h.blocks, o, i); }
    NextFacts(h, i);
    assert h.blocks[i].region in h.blocks;
    assert n.region != n;
  }

  lemma {:induction false} CutTiles(h: Heap, i: nat, m: nat, n: Block)
    requires Tiling(h) && i < |h.blocks| && h.blocks[i] in h.size && m + HEADER <= h.size[h.blocks[i]]
    requires n !in h.blocks && n.addr == h.blocks[i].addr + HEADER + m && n.region == h.blocks[i].region
    ensures Tiling(Cut(h, i, m, n))
  {
    var b, t := h.blocks[i], Cut(h, i, m, n);
    CutNoDup(h.blocks, i + 1, n);
    WithElems(h.blocks, i + 1, n);
    forall k | 0 <= k < |t.blocks| ensures Place(t, k) {
      CutPlace(h, i, m, n, k);
    }
    assert n.region != n by {
      assert Place(h, i);
      assert b.region in h.blocks;
    }
  }

  lemma {:induction false} Sized(h: Heap, b: Block)
    requires Tiling(h) && (b in h.blocks || (FreeOk(h, null) && b in h.free))
    ensures b in h.size && b.region in h.mapped
  {
    var i :| 0 <= i < |h.blocks| && h.blocks[i] == b;
    assert Place(h, i);
  }

  lemma {:induction false} CutFreeOk(h: Heap, i: nat, m: nat, n: Block)
    requires Tiling(h) && FreeOk(h, null) && i < |h.blocks| && h.blocks[i] in h.size
    requires m + HEADER <= h.size[h.blocks[i]]
    requires n !in h.blocks && h.blocks[i] in h.used
    ensures FreeOk(Cut(h, i, m, n), null)
  {
    var t := Cut(h, i, m, n);
    WithElems(h.blocks, i + 1, n);
    forall p, q | Pair(p, q) && 0 <= p && q < |t.free| && t.free[p] in t.size && t.free[q] in t.size
      ensures t.size[t.free[p]] <= t.size[t.free[q]] {
      Sized(h, t.free[p]);
      Sized(h, t.free[q]);
      assert t.free[p] in h.free && t.free[q] in h.free;
    }
  }

  /** Block i grown over the free block behind it. */
  ghost function Joined(h: Heap, i: nat, f: nat): Heap
    requires i + 1 < |h.blocks| && h.blocks[i] in h.size && h.blocks[i + 1] in h.size && f < |h.free|
  {
    var l, r := h.blocks[i], h.blocks[i + 1];
    h.(blocks := Without(h.blocks, i + 1), free := Without(h.free, f),
        size := h.size[l := h.size[l] + h.size[r] + HEADER])
  }

  lemma {:induction false} CutOutNoDup(s: seq<Block>, i: nat)
    requires NoDup(s) && i < |s|
    ensures NoDup(Without(s, i)) && s[i] !in Without(s, i) && forall b :: b in Without(s, i) <==> b in s && b != s[i]
  {
    var d := Without(s, i);
    NoDupIsDistinct(s);
    assert forall j :: 0 <= j < |d| ==> d[j] == s[if j < i then j else j + 1];
    NoDupIsDistinct(d);
    forall b | b in s && b != s[i] ensures b in d {
      WithoutElem(s, i, b);
    }
  }

  lemma {:induction false} WithoutNeighbours(s: seq<Block>, j: nat, k: nat)
    requires j < |s| && k + 1 < |s|
    ensures var d := Without(s, j);
      && |d| == |s| - 1 && d[k] == (if k < j then s[k] else s[k + 1])
      && Before(d, k) == (if k <= j then Before(s, k) else Before(s, k + 1))
      && After(d, k) == (if k + 1 < j then After(s, k) else After(s, k + 1))
  {
    var d := Without(s, j);
    assert forall x :: 0 <= x < |d| ==> d[x] == if x < j then s[x] else s[x + 1];
  }

  lemma {:induction false} JoinPlace(h: Heap, i: nat, f: nat, k: nat)
    requires Tiling(h) && i + 1 < |h.blocks| && h.blocks[i] in h.size && h.blocks[i + 1] in h.size && f < |h.free|
    requires h.blocks[i].region == h.blocks[i + 1].region && h.blocks[i + 1] !in h.used && k + 1 < |h.blocks|
    ensures k < |Joined(h, i, f).blocks| && Place(Joined(h, i, f), k)
  {
    hide Without;
    hide Before;
    hide After;
    var o := if k <= i then k else k + 1;
    WithoutNeighbours(h.blocks, i + 1, k);
    assert Place(h, o) && Place(h, i) && Place(h, i + 1);
    if o != i { OtherBlock(h.blocks, o, i); }
    NextFacts(h, i);
    NextFacts(h, i + 1);
    if k == i + 1 { NextFacts(h, k); }
  }

  lemma {:induction false} JoinTiles(h: Heap, i: nat, f: nat)
    requires Tiling(h) && i + 1 < |h.blocks| && h.blocks[i] in h.size && h.blocks[i + 1] in h.size && f < |h.free|
    requires h.blocks[i].region == h.blocks[i + 1].region && h.blocks[i + 1] !in h.used
    ensures Tiling(Joined(h, i, f))
  {
    var r, t := h.blocks[i + 1], Joined(h, i, f);
    CutOutNoDup(h.blocks, i + 1);
    forall k | 0 <= k < |t.blocks| ensures Place(t, k) {
      JoinPlace(h, i, f, k);
    }
    assert Place(h, i + 1) && Before(h.blocks, i + 1) == h.blocks[i];
  }

  /** The free list stays the sorted view, but for block i if that one is listed. */
  lemma {:induction false} JoinFreeOk(h: Heap, i: nat, f: nat, x: Block?)
    requires Tiling(h) && FreeOk(h, x) && i + 1 < |h.blocks| && h.blocks[i] in h.size && h.blocks[i + 1] in h.size
    requires f < |h.free|
    requires h.blocks[i + 1] == h.free[f] && (x == null || x == h.blocks[i])
    ensures FreeOk(Joined(h, i, f), if h.blocks[i] in h.used then x else h.blocks[i])
  {
    var l, t := h.blocks[i], Joined(h, i, f);
    assert Pair(i, i + 1);
    TakeSorted(h.free, h.size, x, f);
    CutOutNoDup(h.blocks, i + 1);
    var y := if l in h.used then x else l;
    forall p, q | Pair(p, q) && 0 <= p && q < |t.free| && t.free[p] in t.size && t.free[q] in t.size
        && t.free[p] != y && t.free[q] != y
      ensures t.size[t.free[p]] <= t.size[t.free[q]]
    {
      assert t.free[p] in t.free && t.free[q] in t.free;
      assert t.free[p] in h.free && t.free[q] in h.free;
    }
  }

  /** Gaps elsewhere stay gaps when block i is grown over the next one. */
  lemma {:induction false} JoinGaps(h: Heap, i: nat, f: nat, k: nat)
    requires Tiling(h) && i + 1 < |h.blocks| && h.blocks[i] in h.size && h.blocks[i + 1] in h.size && f < |h.free|
    requires k + 1 < |h.blocks| - 1 && k != i && Gap(h, if k < i then k else k + 1)
    ensures Gap(Joined(h, i, f), k)
  {
  }

  /** Nothing free of its region stands behind block i. */
  ghost predicate Walled(h: Heap, i: nat)
    requires i < |h.blocks|
  {
    i + 1 < |h.blocks| ==> h.blocks[i + 1] in h.used || h.blocks[i + 1].region != h.blocks[i].region
  }

  /** The rest split off a used block leaves no two free neighbours if nothing free stood behind. */
  lemma {:induction false} CutCoalesced(h: Heap, i: nat, m: nat, n: Block, pos: nat)
    requires Tiling(h) && Coalesced(h) && i < |h.blocks| && h.blocks[i] in h.size && m + HEADER <= h.size[h.blocks[i]]
    requires n !in h.blocks && n.region == h.blocks[i].region && h.blocks[i] in h.used && Walled(h, i)
    requires pos <= |h.free|
    ensures Coalesced(Put(Cut(h, i, m, n), n, pos))
  {
    var t := Put(Cut(h, i, m, n), n, pos);
    forall k | 0 <= k < |t.blocks| - 1 ensures Gap(t, k) {
      WithNeighbours(h.blocks, i, n, k);
      WithNeighbours(h.blocks, i, n, k + 1);
      assert k != i && k != i + 1 ==> Gap(h, if k < i then k else k - 1);
    }
  }

  // Mapping and unmapping regions

  /** A fresh mapping as one block at the end of the list, in use. */
  ghost function Grown(h: Heap, b: Block, n: nat): Heap {
    h.(blocks := h.blocks + [b], size := h.size[b := n], used := h.used + {b}, mapped := h.mapped[b := n + HEADER])
  }

  lemma {:induction false} GrowSorted(h: Heap, b: Block, n: nat)
    requires Good(h) && b !in h.blocks
    ensures SortedBut(Grown(h, b, n).free, Grown(h, b, n).size, null)
  {
    var t := Grown(h, b, n);
    forall p, q | Pair(p, q) && 0 <= p && q < |t.free| && t.free[p] in t.size && t.free[q] in t.size
      ensures t.size[t.free[p]] <= t.size[t.free[q]] {
      Sized(h, t.free[p]);
      Sized(h, t.free[q]);
    }
  }

  lemma {:induction false} Grow(h: Heap, b: Block, n: nat)
    requires Good(h) && b !in h.blocks && b.region == b
    requires forall r :: r in h.mapped ==> Apart(r.addr, h.mapped[r], b.addr, n + HEADER)
    ensures Good(Grown(h, b, n)) && b !in h.mapped && Walled(Grown(h, b, n), |h.blocks|)
  {
    hide SortedBut;
    var t := Grown(h, b, n);
    NoDupIsDistinct(h.blocks);
    NoDupIsDistinct(t.blocks);
    forall k | 0 <= k < |t.blocks| ensures Place(t, k) {
      if k < |h.blocks| {
        assert Place(h, k);
        assert h.blocks[k].region in h.blocks;
      } else if k > 0 {
        assert Place(h, k - 1);
        assert h.blocks[k - 1].region in h.blocks;
      }
    }
    forall k | 0 <= k < |t.blocks| - 1 ensures Gap(t, k) {
      if k < |h.blocks| - 1 { assert Gap(h, k); }
    }
    GrowSorted(h, b, n);
  }

  /** Block i, free and a whole region, given back. */
  ghost function Shrunk(h: Heap, i: nat, f: nat): Heap
    requires i < |h.blocks| && f < |h.free|
  {
    h.(blocks := Without(h.blocks, i), free := Without(h.free, f), mapped := h.mapped - {h.blocks[i]})
  }

  /** The neighbours of a region of one block are of different regions. */
  lemma {:induction false} NotAround(h: Heap, i: nat)
    requires Tiling(h) && 0 < i && i + 1 < |h.blocks| && h.blocks[i].region == h.blocks[i]
    ensures h.blocks[i - 1].region != h.blocks[i + 1].region
  {
    FirstStands(h, i - 1, i);
    if h.blocks[i - 1].region == h.blocks[i + 1].region {
      SameStretch(h, i - 1, i + 1, i);
      assert false;
    }
  }

  /** A first block that no block of its region follows is the only one of its region. */
  lemma {:induction false} OnlyOne(h: Heap, i: nat, k: nat)
    requires Tiling(h) && i < |h.blocks| && k < |h.blocks| && k != i
    requires h.blocks[i].region == h.blocks[i] && (i + 1 < |h.blocks| ==> h.blocks[i + 1].region != h.blocks[i])
    ensures h.blocks[k].region != h.blocks[i]
  {
    if k < i {
      FirstStands(h, k, i);
    } else if h.blocks[k].region == h.blocks[i] {
      SameStretch(h, i, k, i + 1);
      assert false;
    }
  }

  lemma {:induction false} ShrinkPlace(h: Heap, i: nat, f: nat, k: nat)
    requires Good(h) && i < |h.blocks| && f < |h.free| && h.free[f] == h.blocks[i] && k + 1 < |h.blocks|
    requires h.blocks[i].region == h.blocks[i] && (i + 1 < |h.blocks| ==> h.blocks[i + 1].region != h.blocks[i])
    ensures k < |Shrunk(h, i, f).blocks| && Place(Shrunk(h, i, f), k)
    ensures k + 2 < |h.blocks| ==> k + 1 < |Shrunk(h, i, f).blocks| && Gap(Shrunk(h, i, f), k)
  {
    var o := if k < i then k else k + 1;
    assert Place(h, o) && Place(h, i);
    OnlyOne(h, i, o);
    WithoutNeighbours(h.blocks, i, k);
    if 0 < i && i + 1 < |h.blocks| { NotAround(h, i); }
    if k + 2 < |h.blocks| {
      WithoutNeighbours(h.blocks, i, k + 1);
      assert k + 1 == i || Gap(h, o);
    }
  }

  lemma {:induction false} Shrink(h: Heap, i: nat, f: nat)
    requires Good(h) && i < |h.blocks| && f < |h.free| && h.free[f] == h.blocks[i]
    requires h.blocks[i].region == h.blocks[i] && (i + 1 < |h.blocks| ==> h.blocks[i + 1].region != h.blocks[i])
    ensures Good(Shrunk(h, i, f)) && h.blocks[i] in h.size && h.blocks[i] in h.mapped
    ensures h.mapped[h.blocks[i]] == h.size[h.blocks[i]] + HEADER
  {
    var t, b := Shrunk(h, i, f), h.blocks[i];
    assert Place(h, i) && b in h.free;
    CutOutNoDup(h.blocks, i);
    TakeSorted(h.free, h.size, null, f);
    forall k | 0 <= k < |t.blocks| ensures Place(t, k) && (k + 1 < |t.blocks| ==> Gap(t, k)) {
      ShrinkPlace(h, i, f, k);
    }
  }

  /** What IsBlockFree tests: an unused block is first and last of its region exactly when no block of the region
      is in use.  So a region without live payload is a single block. */
  lemma {:induction false} WholeRegionFree(h: Heap, i: nat)
    requires Good(h) && i < |h.blocks| && h.blocks[i] !in h.used
    ensures h.blocks[i].region == h.blocks[i] && (i + 1 < |h.blocks| ==> h.blocks[i + 1].region != h.blocks[i].region)
       <==> forall k :: 0 <= k < |h.blocks| && h.blocks[k].region == h.blocks[i].region ==> h.blocks[k] !in h.used
  {
    var b := h.blocks[i];
    assert Place(h, i);
    if b.region == b && (i + 1 < |h.blocks| ==> h.blocks[i + 1].region != b.region) {
      forall k | 0 <= k < |h.blocks| && h.blocks[k].region == b.region ensures h.blocks[k] !in h.used {
        if k != i { OnlyOne(h, i, k); }
      }
    } else if b.region != b {
      assert Gap(h, i - 1);
      assert h.blocks[i - 1].region == b.region && h.blocks[i - 1] in h.used;
    } else {
      assert Gap(h, i);
      assert h.blocks[i + 1].region == b.region && h.blocks[i + 1] in h.used;
    }
  }

  lemma {:induction false} JoinFacts(h: Heap, i: nat, f: nat)
    requires i + 1 < |h.blocks| && h.blocks[i] in h.size && h.blocks[i + 1] in h.size && f < |h.free|
    ensures var t := Joined(h, i, f);
      && t.blocks == Without(h.blocks, i + 1) && |t.blocks| == |h.blocks| - 1 && t.free == Without(h.free, f)
      && |t.free| == |h.free| - 1
      && t.mapped == h.mapped && t.used == h.used
      && t.size == h.size[h.blocks[i] := h.size[h.blocks[i]] + h.size[h.blocks[i + 1]] + HEADER]
  {
  }

  lemma {:induction false} CutFacts(h: Heap, i: nat, m: nat, n: Block)
    requires i < |h.blocks| && h.blocks[i] in h.size && m + HEADER <= h.size[h.blocks[i]]
    ensures var t := Cut(h, i, m, n);
      && t.blocks == With(h.blocks, i + 1, n) && |t.blocks| == |h.blocks| + 1 && t.free == h.free
      && t.mapped == h.mapped
      && t.used == h.used + {n} && t.size == h.size[h.blocks[i] := m][n := h.size[h.blocks[i]] - m - HEADER]
  {
  }

  lemma {:induction false} PutFacts(h: Heap, b: Block, i: nat)
    requires i <= |h.free|
    ensures var t := Put(h, b, i);
      && t.blocks == h.blocks && t.free == With(h.free, i, b) && |t.free| == |h.free| + 1 && t.mapped == h.mapped
      && t.used == h.used - {b} && t.size == h.size
  {
  }

  lemma {:induction false} TakeFacts(h: Heap, i: nat)
    requires i < |h.free|
    ensures var t := Taken(h, i);
      && t.blocks == h.blocks && t.free == Without(h.free, i) && |t.free| == |h.free| - 1 && t.mapped == h.mapped
      && t.used == h.used + {h.free[i]} && t.size == h.size
  {
  }

  // Coalescing a run

  /** Blocks j to p are free and of one region. */
  ghost predicate FreeRun(h: Heap, j: nat, p: nat) {
    j <= p < |h.blocks| && forall k :: j <= k <= p ==>
      h.blocks[k] !in h.used && h.blocks[k].region == h.blocks[j].region
  }

  /** No two free neighbours of a region but for pairs j to p. */
  ghost predicate GapsOutside(h: Heap, j: nat, p: nat) {
    forall k :: 0 <= k < |h.blocks| - 1 && (k < j || p < k) ==> Gap(h, k)
  }

  /** Growing block j over the next one shortens the run by one, or leaves it at j alone. */
  lemma {:induction false} JoinRun(h: Heap, j: nat, f: nat, p: nat)
    requires Tiling(h) && j + 1 < |h.blocks| && h.blocks[j] in h.size && h.blocks[j + 1] in h.size && f < |h.free|
    requires FreeRun(h, j, p) && GapsOutside(h, j, p)
    ensures FreeRun(Joined(h, j, f), j, if p > j then p - 1 else j)
    ensures GapsOutside(Joined(h, j, f), j, if p > j then p - 1 else j)
  {
    var t, p' := Joined(h, j, f), if p > j then p - 1 else j;
    forall k | j <= k <= p' ensures t.blocks[k] !in t.used && t.blocks[k].region == t.blocks[j].region {
      assert t.blocks[k] == h.blocks[if k <= j then k else k + 1];
    }
    forall k | 0 <= k < |t.blocks| - 1 && (k < j || p' < k) ensures Gap(t, k) {
      assert Gap(h, if k < j then k else k + 1);
      JoinGaps(h, j, f, k);
    }
  }

  lemma {:induction false} RunMerged(h: Heap, j: nat, p: nat)
    requires FreeRun(h, j, p) && GapsOutside(h, j, p) && Walled(h, j)
    ensures Coalesced(h)
  {
    assert p == j;
  }

  /** A block just freed: at most its own two pairs are no gaps. */
  lemma {:induction false} JustFreed(h: Heap, i: nat, pos: nat)
    requires Coalesced(h) && i < |h.blocks| && h.blocks[i] in h.used && pos <= |h.free| && NoDup(h.blocks)
    ensures FreeRun(Put(h, h.blocks[i], pos), i, i)
    ensures forall k :: 0 <= k < |h.blocks| - 1 && k != i - 1 && k != i ==> Gap(Put(h, h.blocks[i], pos), k)
  {
    forall k | 0 <= k < |h.blocks| - 1 && k != i - 1 && k != i ensures Gap(Put(h, h.blocks[i], pos), k) {
      assert Gap(h, k);
      OtherBlock(h.blocks, i, k);
      OtherBlock(h.blocks, i, k + 1);
    }
  }

  /** The run reached back to j, and no further. */
  lemma {:induction false} RunStarts(h: Heap, j: nat, i: nat)
    requires FreeRun(h, j, i)
    requires forall k :: 0 <= k < |h.blocks| - 1 && k != i - 1 && k != i ==> Gap(h, k)
    requires j > 0 ==> h.blocks[j - 1] in h.used || h.blocks[j - 1].region != h.blocks[j].region
    ensures GapsOutside(h, j, i)
  {
    assert j > 0 ==> Gap(h, j - 1);
  }

  lemma {:induction false} ShrinkFacts(h: Heap, i: nat, f: nat)
    requires Good(h) && i < |h.blocks| && f < |h.free| && h.blocks[i] in h.mapped
    ensures var t := Shrunk(h, i, f);
      && t.blocks == Without(h.blocks, i) && |t.blocks| == |h.blocks| - 1 && t.free == Without(h.free, f)
      && |t.free| == |h.free| - 1
      && t.mapped == h.mapped - {h.blocks[i]} && |t.mapped| == |h.mapped| - 1 && t.used == h.used && t.size == h.size
  {
    var m, b := h.mapped, h.blocks[i];
    assert m == (m - {b})[b := m[b]];
  }

  lemma {:induction false} GrowFacts(h: Heap, b: Block, n: nat)
    requires b !in h.mapped
    ensures var t := Grown(h, b, n);
      && t.blocks == h.blocks + [b] && |t.blocks| == |h.blocks| + 1 && t.free == h.free && |t.mapped| == |h.mapped| + 1
      && t.used == h.used + {b} && t.size == h.size[b := n] && t.mapped == h.mapped[b := n + HEADER]
  {
  }
}
