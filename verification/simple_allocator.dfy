/** src/gtl/memory/simple_allocator.cc: blocks in address order per mapping, a free list sorted by size, splitting,
    coalescing, reallocation in place, and giving whole regions back.  A data pointer is the handle of its block. */
module SimpleAllocators {
  import opened Wrappers
  import opened SinglyList
  import opened SeqMoves
  import opened BlockTiling

  const ALLOCATE_SIZE: nat := 128 * 1024
  const MAX_REGIONS: nat := 1024
  const SIZE_RANGE: nat := 0x1_0000_0000_0000_0000

  class SimpleAllocator {
    // the block list and the free list, in order
    var blocks: seq<Block>
    var free: seq<Block>
    var regionCount: int
    var blockCount: int
    var freeBlockCount: int
    // the memory outside of the headers
    var bytes: map<int, int>
    ghost var h: Heap
    ghost var cells: set<Block>

    ghost predicate Agrees(g: Heap, b: Block, x: set<Block>)
      reads b
    {
      b in g.size && b.size == g.size[b] && (b !in x ==> (b.used <==> b in g.used))
    }

    /** The fields agree with g; the used flags of x may lag behind. */
    ghost predicate Linked(g: Heap, x: set<Block>)
      reads this`blocks, this`free, this`regionCount, this`blockCount, this`freeBlockCount, this`cells, cells
    {
      && blocks == g.blocks && free == g.free
      && (forall i :: 0 <= i < |g.blocks| ==> g.blocks[i] in cells && Agrees(g, g.blocks[i], x))
      && regionCount == |g.mapped| && blockCount == |g.blocks| && freeBlockCount == |g.free|
    }

    ghost predicate Valid()
      reads this, cells
    {
      Good(h) && Linked(h, {})
    }

    constructor ()
      ensures Valid() && h == Heap([], [], map[], {}, map[]) && bytes == map[] && cells == {}
    {
      blocks, free, regionCount, blockCount, freeBlockCount, bytes := [], [], 0, 0, 0, map[];
      h, cells := Heap([], [], map[], {}, map[]), {};
    }

    static function IndexOf(s: seq<Block>, b: Block): (i: nat)
      requires b in s
      ensures i < |s| && s[i] == b
    {
      if s[0] == b then 0 else 1 + IndexOf(s[1..], b)
    }

    lemma {:induction false} FreeListed(g: Heap, b: Block, x: Block?)
      requires Tiling(g) && FreeOk(g, x) && b in g.free
      ensures b in g.blocks && b !in g.used && b in g.size
    {
      Sized(g, b);
    }

    /** RemoveFromFreeList */
    method RemoveFromFreeList(b: Block, ghost g: Heap, ghost x: Block?) returns (ghost g': Heap)
      requires Tiling(g) && FreeOk(g, x) && Linked(g, {}) && b in g.free
      modifies this`free, this`freeBlockCount, b`used
      ensures g' == Taken(g, IndexOf(g.free, b)) && Linked(g', {})
      ensures Tiling(g') && FreeOk(g', if b == x then null else x) && (Coalesced(g) ==> Coalesced(g'))
    {
      hide Tiling;
      hide FreeOk;
      hide Coalesced;
      hide Taken;
      hide Without;
      FreeListed(g, b, x);
      var i := IndexOf(free, b);
      Take(g, x, i);
      TakeFacts(g, i);
      b.used := true;
      free, freeBlockCount := Without(free, i), freeBlockCount - 1;
      g' := Taken(g, i);
      forall k | 0 <= k < |g'.blocks| ensures g'.blocks[k] in cells && Agrees(g', g'.blocks[k], {}) {
        assert old(Agrees(g, g.blocks[k], {}));
      }
    }

    /** The first block of the free list that is at least as large, or its end. */
    method FindPosition(size: nat, ghost g: Heap) returns (i: nat)
      requires Tiling(g) && FreeOk(g, null) && free == g.free
      requires forall k :: 0 <= k < |g.blocks| ==> g.blocks[k] in g.size && g.blocks[k].size == g.size[g.blocks[k]]
      ensures i <= |g.free| && (forall j :: 0 <= j < i ==> g.free[j] in g.size && g.size[g.free[j]] < size)
      ensures i < |g.free| ==> g.free[i] in g.size && g.size[g.free[i]] >= size
    {
      hide Tiling;
      i := 0;
      while i < |free|
        invariant 0 <= i <= |free| && forall j :: 0 <= j < i ==> g.free[j] in g.size && g.size[g.free[j]] < size
      {
        assert free[i] in g.free;
        if free[i].size >= size {
          break;
        }
        i := i + 1;
      }
    }

    lemma {:induction false} UsedListed(g: Heap, b: Block)
      requires Tiling(g) && b in g.used
      ensures b in g.blocks && b in g.size
    {
      Sized(g, b);
    }

    lemma {:induction false} PutListed(g: Heap, b: Block, i: nat)
      requires Tiling(g) && FreeOk(g, null) && b in g.used && i <= |g.free|
      requires b in g.size && forall j :: 0 <= j < i ==> g.free[j] in g.size && g.size[g.free[j]] < g.size[b]
      requires i < |g.free| ==> g.free[i] in g.size && g.size[g.free[i]] >= g.size[b]
      ensures Tiling(Put(g, b, i)) && FreeOk(Put(g, b, i), null)
    {
      forall f | f in g.free ensures f in g.size { Sized(g, f); }
      PutBack(g, b, i);
    }

    /** AddToFreeList: in front of the first block that is at least as large. */
    method AddToFreeList(b: Block, ghost g: Heap, ghost x: set<Block>) returns (ghost g': Heap, ghost pos: nat)
      requires Tiling(g) && FreeOk(g, null) && Linked(g, x) && b in g.used
      modifies this`free, this`freeBlockCount, b`used
      ensures pos <= |g.free| && g' == Put(g, b, pos) && Linked(g', x - {b})
      ensures Tiling(g') && FreeOk(g', null)
    {
      hide Tiling;
      hide FreeOk;
      hide Put;
      hide With;
      UsedListed(g, b);
      b.used := false;
      var i := FindPosition(b.size, g);
      PutListed(g, b, i);
      PutFacts(g, b, i);
      pos, g' := i, Put(g, b, i);
      free, freeBlockCount := With(free, i, b), freeBlockCount + 1;
      forall k | 0 <= k < |g'.blocks| ensures g'.blocks[k] in cells && Agrees(g', g'.blocks[k], x - {b}) {
        assert old(Agrees(g, g.blocks[k], x));
      }
    }

    static ghost predicate JoinReady(g: Heap, i: nat) {
      i + 1 < |g.blocks| && g.blocks[i + 1] in g.free && g.blocks[i] in g.size && g.blocks[i + 1] in g.size
    }

    /** The blocks that stay are neither the one taken in nor, save block i, the one that grew. */
    lemma {:induction false} JoinedBlock(g: Heap, i: nat, k: nat)
      requires Tiling(g) && i + 1 < |g.blocks| && k + 1 < |g.blocks|
      ensures var d, o := Without(g.blocks, i + 1), if k <= i then k else k + 1;
        k < |d| && d[k] == g.blocks[o] && d[k] != g.blocks[i + 1] && (k != i ==> d[k] != g.blocks[i])
    {
      var o := if k <= i then k else k + 1;
      OtherBlock(g.blocks, o, i + 1);
      if k != i { OtherBlock(g.blocks, o, i); }
    }

    /** RemoveFromBlockList(rblock); RemoveFromFreeList(rblock); the sizes and the header add up. */
    method AbsorbNext(i: nat, ghost g: Heap) returns (ghost g': Heap)
      requires Tiling(g) && JoinReady(g, i) && Linked(g, {})
      modifies this`blocks, this`free, this`blockCount, this`freeBlockCount, cells
      ensures g' == Joined(g, i, IndexOf(g.free, g.blocks[i + 1])) && Linked(g', {})
    {
      hide Tiling;
      hide Joined;
      hide Without;
      ghost var f := IndexOf(g.free, g.blocks[i + 1]);
      JoinFacts(g, i, f);
      g' := Joined(g, i, f);
      var lblock, rblock := blocks[i], blocks[i + 1];
      var at := IndexOf(free, rblock);
      assert Agrees(g, g.blocks[i], {}) && Agrees(g, g.blocks[i + 1], {});
      blocks, blockCount := Without(blocks, i + 1), blockCount - 1;
      rblock.used := true;
      free, freeBlockCount := Without(free, at), freeBlockCount - 1;
      lblock.size := lblock.size + rblock.size + HEADER;
      forall k | 0 <= k < |g'.blocks| ensures g'.blocks[k] in cells && Agrees(g', g'.blocks[k], {}) {
        JoinedBlock(g, i, k);
        assert old(Agrees(g, g.blocks[if k <= i then k else k + 1], {}));
      }
    }

    lemma {:induction false} ReadyToJoin(g: Heap, i: nat, x: Block?)
      requires Tiling(g) && FreeOk(g, x) && i + 1 < |g.blocks| && g.blocks[i + 1] !in g.used
      ensures JoinReady(g, i)
    {
      assert g.blocks[i + 1] in g.blocks;
      assert Place(g, i) && Place(g, i + 1);
    }

    /** MergeTwoBlock: block i takes in the free block behind it. */
    method MergeTwoBlock(i: nat, ghost g: Heap, ghost x: Block?) returns (ghost g': Heap)
      requires Tiling(g) && FreeOk(g, x) && Linked(g, {}) && i + 1 < |g.blocks|
      requires g.blocks[i].region == g.blocks[i + 1].region
      requires g.blocks[i + 1] !in g.used && (x == null || x == g.blocks[i])
      modifies this`blocks, this`free, this`blockCount, this`freeBlockCount, cells
      ensures JoinReady(g, i) && g' == Joined(g, i, IndexOf(g.free, g.blocks[i + 1])) && Linked(g', {})
      ensures Tiling(g') && FreeOk(g', if g.blocks[i] in g.used then x else g.blocks[i])
    {
      hide Tiling;
      hide FreeOk;
      hide Joined;
      hide Without;
      ReadyToJoin(g, i, x);
      ghost var f := IndexOf(g.free, g.blocks[i + 1]);
      JoinTiles(g, i, f);
      JoinFreeOk(g, i, f, x);
      g' := AbsorbNext(i, g);
    }

    lemma {:induction false} CutBlock(g: Heap, i: nat, n: Block, k: nat)
      requires Tiling(g) && i < |g.blocks| && k <= |g.blocks| && n !in g.blocks
      ensures k != i && k != i + 1 ==> g.blocks[if k <= i then k else k - 1] != g.blocks[i]
      ensures k != i + 1 ==> g.blocks[if k <= i then k else k - 1] != n
    {
      if k != i && k != i + 1 { OtherBlock(g.blocks, if k <= i then k else k - 1, i); }
      if k != i + 1 { assert g.blocks[if k <= i then k else k - 1] in g.blocks; }
    }

    /** The new block joins the block list behind block i, which is cut down. */
    method LinkRest(b: Block, i: nat, newSize: nat, n: Block, ghost g: Heap, ghost x: set<Block>)
      returns (ghost c: Heap)
      requires Tiling(g) && FreeOk(g, null) && Linked(g, x) && i < |g.blocks| && g.blocks[i] == b && b in g.used
      requires b in g.size
      requires newSize + HEADER <= g.size[b] && n !in g.blocks && n !in cells && !n.used
      requires n.addr == b.addr + HEADER + newSize && n.size == g.size[b] - newSize - HEADER && n.region == b.region
      modifies this`blocks, this`blockCount, this`cells, b`size
      ensures c == Cut(g, i, newSize, n) && Tiling(c) && FreeOk(c, null) && Linked(c, x + {n}) && n in c.used
      ensures cells == old(cells) + {n}
    {
      hide Tiling;
      hide FreeOk;
      hide Cut;
      hide With;
      CutFacts(g, i, newSize, n);
      CutTiles(g, i, newSize, n);
      CutFreeOk(g, i, newSize, n);
      c := Cut(g, i, newSize, n);
      blocks, blockCount, cells := With(blocks, i + 1, n), blockCount + 1, cells + {n};
      b.size := newSize;
      forall k | 0 <= k < |c.blocks| ensures c.blocks[k] in cells && Agrees(c, c.blocks[k], x + {n}) {
        WithNeighbours(g.blocks, i, n, k);
        CutBlock(g, i, n, k);
        assert k == i + 1 || old(Agrees(g, g.blocks[if k <= i then k else k - 1], x));
      }
    }

    /** A free block of that size stands there. */
    static ghost predicate FreeAt(g: Heap, f: Block, at: int, size: int) {
      f in g.free && f in g.size && f.addr == at && g.size[f] == size
    }

    /** Block b had `whole` bytes.  It keeps newSize of them, and the others are a header and a free block behind b; but
        b keeps all where that block would have less than the smallest payload. */
    static ghost predicate Trimmed(g': Heap, b: Block, whole: nat, newSize: nat) {
      if whole < newSize + HEADER + MIN_BLOCK then b in g'.size && g'.size[b] == whole
      else
        && b in g'.size && g'.size[b] == newSize
        && exists f :: f in g'.free && FreeAt(g', f, b.addr + HEADER + newSize, whole - newSize - HEADER)
    }

    /** The blocks in use in g have the sizes they had, b aside. */
    static ghost predicate SameSizes(g: Heap, g': Heap, b: Block?) {
      forall c :: c in g.used && c != b && c in g.size ==> c in g'.size && g'.size[c] == g.size[c]
    }

    lemma {:induction false} SplitDone(g: Heap, i: nat, newSize: nat, n: Block, pos: nat)
      requires Tiling(g) && Coalesced(g) && i < |g.blocks| && g.blocks[i] in g.used && Walled(g, i)
      requires g.blocks[i] in g.size
      requires newSize + HEADER <= g.size[g.blocks[i]] && n !in g.blocks && n !in g.used
      requires n.region == g.blocks[i].region && pos <= |g.free| && n.addr == g.blocks[i].addr + HEADER + newSize
      requires newSize + HEADER + MIN_BLOCK <= g.size[g.blocks[i]]
      ensures Coalesced(Put(Cut(g, i, newSize, n), n, pos)) && Put(Cut(g, i, newSize, n), n, pos).used == g.used
      ensures Put(Cut(g, i, newSize, n), n, pos).mapped == g.mapped
      ensures Trimmed(Put(Cut(g, i, newSize, n), n, pos), g.blocks[i], g.size[g.blocks[i]], newSize)
      ensures SameSizes(g, Put(Cut(g, i, newSize, n), n, pos), g.blocks[i])
    {
      CutCoalesced(g, i, newSize, n, pos);
      var g', whole := Put(Cut(g, i, newSize, n), n, pos), g.size[g.blocks[i]];
      assert g'.free[pos] == n;
      assert FreeAt(g', n, g.blocks[i].addr + HEADER + newSize, whole - newSize - HEADER);
    }

    /** SplitBlock: cuts block i down to newSize if the rest can hold a header and the smallest payload. */
    method SplitBlock(b: Block, i: nat, newSize: nat, ghost g: Heap, ghost x: set<Block>) returns (ghost g': Heap)
      requires Tiling(g) && FreeOk(g, null) && Coalesced(g) && Linked(g, x) && i < |g.blocks| && g.blocks[i] == b
      requires b in g.used && Walled(g, i) && b in g.size && 0 < newSize <= g.size[b]
      modifies this`blocks, this`free, this`blockCount, this`freeBlockCount, this`cells, b`size
      ensures Good(g') && Linked(g', x) && g'.used == g.used && g'.mapped == g.mapped
      ensures Trimmed(g', b, g.size[b], newSize) && SameSizes(g, g', b)
      ensures old(cells) <= cells && fresh(cells - old(cells))
    {
      hide Tiling;
      hide FreeOk;
      hide Coalesced;
      hide Cut;
      hide Put;
      assert Agrees(g, b, x);
      if b.size - newSize < HEADER + MIN_BLOCK {
        return g;
      }
      var n := new Block(b.addr + HEADER + newSize, b.size - newSize - HEADER, b.region);
      ghost var c := LinkRest(b, i, newSize, n, g, x);
      ghost var pos;
      g', pos := AddToFreeList(n, c, x + {n});
      assert x + {n} - {n} == x;
      SplitDone(g, i, newSize, n, pos);
    }

    // Fits

    /** r is a free block of sufficient size with the least size among those, or none is sufficient. */
    static ghost predicate LeastFit(g: Heap, size: nat, r: Block?) {
      if r == null then forall k :: 0 <= k < |g.free| ==> g.free[k] in g.size && g.size[g.free[k]] < size
      else r in g.free && r in g.size && g.size[r] >= size
           && forall k :: 0 <= k < |g.free| ==>
             g.free[k] in g.size && (g.size[g.free[k]] >= size ==> g.size[r] <= g.size[g.free[k]])
    }

    lemma {:induction false} Listed(g: Heap)
      requires Tiling(g) && FreeOk(g, null) && Linked(g, {})
      ensures forall k :: 0 <= k < |g.free| ==>
                g.free[k] in g.size && g.free[k].size == g.size[g.free[k]] && g.free[k] !in g.used && g.free[k] in cells
    {
      forall k | 0 <= k < |g.free|
        ensures g.free[k] in g.size && g.free[k].size == g.size[g.free[k]]
        ensures g.free[k] !in g.used && g.free[k] in cells
      {
        assert g.free[k] in g.free;
        FreeListed(g, g.free[k], null);
        var i := IndexOf(g.blocks, g.free[k]);
        assert Agrees(g, g.blocks[i], {});
      }
    }

    /** FindFirstFit */
    method FindFirstFit(size: nat) returns (r: Block?)
      requires Valid()
      ensures LeastFit(h, size, r)
    {
      hide Tiling;
      Listed(h);
      var i := 0;
      while i < |free|
        invariant 0 <= i <= |free| && forall j :: 0 <= j < i ==> h.size[h.free[j]] < size
      {
        assert free[i].size == h.size[h.free[i]];
        if free[i].size >= size {
          forall k | 0 <= k < |h.free| ensures h.size[h.free[k]] >= size ==> h.size[h.free[i]] <= h.size[h.free[k]] {
            assert Pair(i, k) || k <= i;
          }
          return free[i];
        }
        i := i + 1;
      }
      return null;
    }

    /** FindBestFit: scans the whole list, but finds no smaller block than FindFirstFit does. */
    method FindBestFit(size: nat) returns (r: Block?)
      requires Valid()
      ensures LeastFit(h, size, r)
    {
      hide Tiling;
      Listed(h);
      r := null;
      var i := 0;
      while i < |free|
        invariant 0 <= i <= |free| && (r == null ==> forall j :: 0 <= j < i ==> h.size[h.free[j]] < size)
        invariant r != null ==> r in h.free && r in h.size && r.size == h.size[r] && h.size[r] > size
        invariant r != null ==> forall j :: 0 <= j < i ==> h.size[h.free[j]] >= size ==> h.size[r] <= h.size[h.free[j]]
      {
        var block := free[i];
        assert block.size == h.size[h.free[i]];
        if block.size == size {
          return block;
        }
        if block.size > size && (r == null || r.size > block.size) {
          r := block;
        }
        i := i + 1;
      }
    }

    /** FindWorstFit: a largest block, if that one is sufficient. */
    method FindWorstFit(size: nat) returns (r: Block?)
      requires Valid()
      ensures r == null ==> LeastFit(h, size, null)
      ensures r != null ==> r in h.free && r in h.size && h.size[r] >= size
      ensures r != null ==> forall k :: 0 <= k < |h.free| ==> h.free[k] in h.size && h.size[h.free[k]] <= h.size[r]
    {
      hide Tiling;
      Listed(h);
      var i := |free|;
      while i > 0
        invariant 0 <= i <= |free| && forall j :: i <= j < |free| ==> h.size[h.free[j]] < size
      {
        i := i - 1;
        assert free[i].size == h.size[h.free[i]];
        if free[i].size >= size {
          forall k | 0 <= k < |h.free| ensures h.size[h.free[k]] <= h.size[h.free[i]] {
            assert Pair(k, i) || k >= i;
          }
          return free[i];
        }
      }
      return null;
    }

    /** First fit and best fit agree on the size, because the free list is sorted. */
    lemma {:induction false} FirstFitIsBestFit(g: Heap, size: nat, r: Block?, q: Block?)
      requires LeastFit(g, size, r) && LeastFit(g, size, q)
      ensures (r == null <==> q == null) && (r != null ==> q in g.size && g.size[r] == g.size[q])
    {
      if r != null && q != null {
        var i, j := IndexOf(g.free, r), IndexOf(g.free, q);
      }
      if r != null { var i := IndexOf(g.free, r); }
      if q != null { var j := IndexOf(g.free, q); }
    }

    // Allocation

    /** The payload of the first block of a new mapping. */
    static function MappingSize(size: nat): nat {
      if size < ALLOCATE_SIZE then ALLOCATE_SIZE else size
    }

    /** Where the system may put a mapping for a block of that size: clear of all others. */
    static ghost predicate Clear(g: Heap, os: Option<int>, size: nat) {
      os.Some? ==>
        forall r :: r in g.mapped ==>
          Apart(r.addr, g.mapped[r], os.value, if size < 131072 then 131144 else size + 72)
    }

    /** The new region joins the block list as one block of n bytes. */
    method LinkRegion(b: Block, n: nat) returns (ghost g': Heap)
      requires Valid() && b !in h.blocks && b.region == b && b.size == n
      requires forall r :: r in h.mapped ==> Apart(r.addr, h.mapped[r], b.addr, n + HEADER)
      modifies this`blocks, this`blockCount, this`regionCount, this`cells
      ensures g' == Grown(h, b, n) && Good(g') && Linked(g', {b}) && cells == old(cells) + {b}
      ensures |g'.blocks| == |h.blocks| + 1 && g'.blocks[|h.blocks|] == b && Walled(g', |h.blocks|)
      ensures g'.mapped == h.mapped[b := n + HEADER]
    {
      hide Good;
      hide Walled;
      hide Grown;
      Grow(h, b, n);
      GrowFacts(h, b, n);
      g' := Grown(h, b, n);
      regionCount, blocks, blockCount, cells := regionCount + 1, blocks + [b], blockCount + 1, cells + {b};
      forall k | 0 <= k < |g'.blocks| ensures g'.blocks[k] in cells && Agrees(g', g'.blocks[k], {b}) {
        assert k == |h.blocks| || (old(Agrees(h, h.blocks[k], {})) && h.blocks[k] in h.blocks && h.blocks[k] != b);
      }
    }

    lemma {:induction false} InCells(g: Heap, b: Block)
      requires Linked(g, {}) && b in g.blocks
      ensures b in cells
    {
      var i := IndexOf(g.blocks, b);
      assert g.blocks[i] in cells;
    }

    /** No block of the list is a new one. */
    lemma {:induction false} BlocksOld()
      requires Valid()
      ensures forall b :: b in h.blocks ==> b in cells
    {
      forall b | b in h.blocks ensures b in cells {
        InCells(h, b);
      }
    }

    /** NewBlock: a mapping of its own, or null if the system has none; the used flag is set later. */
    method NewBlock(size: nat, os: Option<int>) returns (b: Block?, ghost g': Heap)
      requires Valid() && size > 0 && Clear(h, os, size)
      modifies this`blocks, this`blockCount, this`regionCount, this`cells
      ensures b == null <==> os == None
      ensures b == null ==> g' == h && Linked(h, {}) && cells == old(cells)
      ensures b != null ==> fresh(b) && b.addr == os.value && cells == old(cells) + {b}
      ensures b != null ==> g' == Grown(h, b, MappingSize(size)) && Good(g') && Linked(g', {b}) && b !in h.blocks
      ensures b != null ==> g'.mapped == h.mapped[b := if size < 131072 then 131144 else size + 72]
      ensures b != null ==> |g'.blocks| == |h.blocks| + 1 && g'.blocks[|h.blocks|] == b && Walled(g', |h.blocks|)
    {
      hide Good;
      hide Walled;
      hide Grown;
      hide Agrees;
      var n := size;
      if n < ALLOCATE_SIZE {
        n := ALLOCATE_SIZE;
      }
      if os == None {
        return null, h;
      }
      BlocksOld();
      b := new Block.Region(os.value, n);
      assert b !in h.blocks;
      g' := LinkRegion(b, n);
    }

    /** From g to g' the block b came into use with a payload that fits size; the other used blocks are what they
        were. */
    static ghost predicate Allocated(g: Heap, g': Heap, b: Block, size: nat) {
      && b !in g.used && g'.used == g.used + {b} && b in g'.size && size <= g'.size[b] < size + HEADER + MIN_BLOCK
      && SameSizes(g, g', null)
    }

    static ghost predicate FitExists(g: Heap, size: nat) {
      exists f :: f in g.free && f in g.size && g.size[f] >= size
    }

    static lemma {:induction false} FitIff(g: Heap, size: nat, r: Block?)
      requires LeastFit(g, size, r)
      ensures FitExists(g, size) <==> r != null
      ensures forall f :: f in g.free ==> f in g.size && (g.size[f] >= size ==> r != null)
      ensures r != null ==> r in g.free && r in g.size && g.size[r] >= size
      ensures r != null ==> forall f :: f in g.free && f in g.size && g.size[f] >= size ==> g.size[r] <= g.size[f]
    {
      forall f | f in g.free
        ensures f in g.size && (g.size[f] >= size ==> r != null && r in g.size && g.size[r] <= g.size[f])
      {
        var i := IndexOf(g.free, f);
        assert g.free[i] in g.size;
      }
    }

    lemma {:induction false} FreeIsWalled(g: Heap, g1: Heap, i: nat)
      requires Coalesced(g) && i < |g.blocks| && g.blocks[i] !in g.used && g1.blocks == g.blocks && g.used <= g1.used
      ensures Walled(g1, i)
    {
      assert i + 1 < |g.blocks| ==> Gap(g, i);
    }

    /** RemoveFromFreeList(block); SplitBlock(block, size) */
    method FromFreeList(b: Block, size: nat) returns (ghost g': Heap)
      requires Valid() && b in h.free && b in h.size && 0 < size <= h.size[b]
      modifies this`blocks, this`free, this`blockCount, this`freeBlockCount, this`cells, cells
      ensures Good(g') && Linked(g', {}) && Allocated(h, g', b, size) && g'.mapped == h.mapped
      ensures Trimmed(g', b, h.size[b], size)
      ensures old(cells) <= cells && fresh(cells - old(cells))
    {
      hide Tiling;
      hide FreeOk;
      hide Coalesced;
      ghost var g1 := h;
      FreeListed(h, b, null);
      TakeFacts(h, IndexOf(h.free, b));
      InCells(h, b);
      g1 := RemoveFromFreeList(b, h, null);
      var i := IndexOf(blocks, b);
      FreeIsWalled(h, g1, i);
      g' := SplitBlock(b, i, size, g1, {});
    }

    lemma {:induction false} NewInUse(g: Heap, g1: Heap, g': Heap, b: Block, size: nat)
      requires Good(g) && b !in g.blocks && g1 == Grown(g, b, MappingSize(size)) && g'.used == g1.used
      requires b in g1.size && Trimmed(g', b, g1.size[b], size) && SameSizes(g1, g', b)
      ensures Allocated(g, g', b, size) && Trimmed(g', b, MappingSize(size), size)
    {
    }

    /** SplitBlock(block, size); block->set_used(true) */
    method FromNewBlock(b: Block, size: nat, ghost g1: Heap) returns (ghost g': Heap)
      requires Good(h) && b !in h.blocks && size > 0 && g1 == Grown(h, b, MappingSize(size)) && Good(g1)
      requires Linked(g1, {b}) && b in cells
      requires |g1.blocks| == |h.blocks| + 1 && g1.blocks[|h.blocks|] == b && Walled(g1, |h.blocks|)
      modifies this`blocks, this`free, this`blockCount, this`freeBlockCount, this`cells, cells
      ensures Good(g') && Linked(g', {}) && Allocated(h, g', b, size) && Trimmed(g', b, MappingSize(size), size)
      ensures g'.mapped == h.mapped[b := MappingSize(size) + HEADER]
      ensures old(cells) <= cells && fresh(cells - old(cells))
    {
      hide Tiling;
      hide FreeOk;
      hide Coalesced;
      g' := SplitBlock(b, |blocks| - 1, size, g1, {b});
      b.used := true;
      NewInUse(h, g1, g', b, size);
      forall k | 0 <= k < |g'.blocks| ensures g'.blocks[k] in cells && Agrees(g', g'.blocks[k], {}) {
        assert Agrees(g', g'.blocks[k], {b});
      }
    }

    /** Malloc: the least sufficient free block, cut to size; a new mapping only if no free block is sufficient. */
    method Malloc(size: nat, os: Option<int>) returns (b: Block?)
      requires Valid() && size > 0 && Clear(h, os, size)
      modifies this, cells
      ensures Valid() && bytes == old(bytes) && old(cells) <= cells && fresh(cells - old(cells))
      ensures b == null ==> h == old(h)
      ensures b != null ==> Allocated(old(h), h, b, size)
      ensures b == null <==> os == None && forall f :: f in old(h).free && f in old(h).size ==> old(h).size[f] < size
      // from the free list
      ensures (exists f :: f in old(h).free && f in old(h).size && old(h).size[f] >= size) ==>
                && b in old(h).free && b in old(h).size && old(h).size[b] >= size
                && (forall f :: f in old(h).free && f in old(h).size && old(h).size[f] >= size ==>
                  old(h).size[b] <= old(h).size[f])
                && h.mapped == old(h).mapped && b in h.size
                && h.size[b] == (if old(h).size[b] < size + 88 then old(h).size[b] else size)
                && (old(h).size[b] >= size + 88 ==>
                  exists f :: f in h.free && FreeAt(h, f, b.addr + 72 + size, old(h).size[b] - size - 72))
      // from a new mapping
      ensures b != null && (forall f :: f in old(h).free && f in old(h).size ==> old(h).size[f] < size) ==>
                && fresh(b) && b.addr == os.value && b in h.size
                && h.mapped == old(h).mapped[b := if size < 131072 then 131144 else size + 72]
                && h.size[b] == (if 130984 < size < 131072 then 131072 else size)
                && (size <= 130984 ==> exists f :: f in h.free && FreeAt(h, f, b.addr + 72 + size, 131000 - size))
    {
      hide Good;
      hide LeastFit;
      hide Linked;
      hide Allocated;
      hide Grown;
      hide Walled;
      hide FreeAt;
      ghost var g := h;
      b := FindFirstFit(size);
      FitIff(g, size, b);
      if b != null {
        h := FromFreeList(b, size);
        return;
      }
      ghost var g1;
      b, g1 := NewBlock(size, os);
      if b == null {
        return;
      }
      h := FromNewBlock(b, size, g1);
    }

    lemma {:induction false} Room(b: Block, n: nat, m: nat)
      requires exists f :: f in h.free && FreeAt(h, f, b.addr + 72 + n, 131000 - n)
      requires 0 < m <= 131000 - n
      ensures exists f :: f in h.free && f in h.size && h.size[f] >= m
    {
    }

    /** After a first Malloc(n) the rest of the mapping serves every request that fits there, whatever the system
        answers. */
    method SecondMalloc(n: nat, m: nat, os: Option<int>, os': Option<int>) returns (b: Block?, c: Block?)
      requires Valid() && h.mapped == map[] && h.free == [] && 0 < n <= 130984 && 0 < m <= 131000 - n && os.Some?
      requires os'.Some? ==> Apart(os.value, 131144, os'.value, 131144)
      modifies this, cells
      ensures Valid() && b != null && c != null && b.addr == os.value
      ensures h.mapped == map[b := 131144]
    {
      hide Valid;
      hide Allocated;
      hide FreeAt;
      b := Malloc(n, os);
      Room(b, n, m);
      c := Malloc(m, os');
    }

    lemma {:induction false} FreeIsListed(g: Heap, b: Block, x: Block?)
      requires FreeOk(g, x) && b in g.blocks && b !in g.used
      ensures b in g.free
    {
    }

    lemma {:induction false} SameCoalesced(c: Heap, d: Heap)
      requires Coalesced(c) && d.blocks == c.blocks && d.used == c.used
      ensures Coalesced(d)
    {
      forall k | 0 <= k < |d.blocks| - 1 ensures Gap(d, k) {
        assert Gap(c, k);
      }
    }

    /** RemoveFromFreeList(block); AddToFreeList(block) */
    method Relist(block: Block, ghost c: Heap, ghost x: Block?) returns (ghost g': Heap)
      requires Tiling(c) && FreeOk(c, x) && Coalesced(c) && Linked(c, {}) && block in c.blocks && block !in c.used
      requires (x == null || x == block)
      modifies this`free, this`freeBlockCount, block`used
      ensures Good(g') && Linked(g', {}) && g'.blocks == c.blocks && g'.used == c.used && g'.mapped == c.mapped
      ensures g'.size == c.size
    {
      hide Tiling;
      hide FreeOk;
      hide Coalesced;
      FreeIsListed(c, block, x);
      TakeFacts(c, IndexOf(c.free, block));
      ghost var d := RemoveFromFreeList(block, c, x);
      ghost var pos;
      g', pos := AddToFreeList(block, d, {});
      PutFacts(d, block, pos);
      SameCoalesced(c, g');
    }

    /** The same blocks are in use, with the same sizes, in the same mappings. */
    static ghost predicate SameUse(g: Heap, g': Heap) {
      && g'.used == g.used && g'.mapped == g.mapped
      && forall c :: c in g.used && c in g.size ==> c in g'.size && g'.size[c] == g.size[c]
    }

    lemma {:induction false} RunAt(g: Heap, j: nat, last: nat)
      requires FreeRun(g, j, last)
      ensures j < |g.blocks| && g.blocks[j] !in g.used
    {
    }

    lemma {:induction false} JoinKeepsUse(g: Heap, i: nat, f: nat)
      requires JoinReady(g, i) && f < |g.free| && g.blocks[i] !in g.used
      ensures SameUse(g, Joined(g, i, f))
    {
    }

    lemma {:induction false} EndOfRun(c: Heap, j: nat, p: nat)
      requires FreeRun(c, j, p) && GapsOutside(c, j, p) && Linked(c, {})
      requires j + 1 < |c.blocks| ==> c.blocks[j + 1].used || c.blocks[j + 1].region != c.blocks[j].region
      ensures Coalesced(c)
    {
      assert j + 1 < |c.blocks| ==> Agrees(c, c.blocks[j + 1], {});
      RunMerged(c, j, p);
    }

    // Freeing

    /** MergeRightBlock: block j takes in the free blocks of its region behind it and finds its place in the free
        list. */
    method MergeRightBlock(j: nat, ghost g: Heap, ghost last: nat) returns (ghost g': Heap)
      requires Tiling(g) && FreeOk(g, null) && Linked(g, {}) && FreeRun(g, j, last) && GapsOutside(g, j, last)
      modifies this`blocks, this`free, this`blockCount, this`freeBlockCount, cells
      ensures Good(g') && Linked(g', {}) && SameUse(g, g') && j < |g'.blocks| && g'.blocks[j] == g.blocks[j]
      ensures g'.blocks[j] !in g'.used
    {
      hide Tiling;
      hide FreeOk;
      hide FreeRun;
      hide GapsOutside;
      hide Coalesced;
      RunAt(g, j, last);
      ghost var c: Heap, p: nat, x: Block? := g, last, null;
      var block := blocks[j];
      while j + 1 < |blocks| && !blocks[j + 1].used && blocks[j + 1].region == block.region
        invariant j < |c.blocks| && c.blocks[j] == block && block !in c.used && (x == null || x == block)
        invariant SameUse(g, c)
        invariant Tiling(c) && FreeOk(c, x) && Linked(c, {}) && FreeRun(c, j, p) && GapsOutside(c, j, p)
        decreases |blocks|
      {
        assert Agrees(c, c.blocks[j + 1], {});
        ReadyToJoin(c, j, x);
        ghost var f := IndexOf(c.free, c.blocks[j + 1]);
        JoinFacts(c, j, f);
        JoinRun(c, j, f, p);
        JoinedBlock(c, j, j);
        JoinKeepsUse(c, j, f);
        c := MergeTwoBlock(j, c, x);
        p, x := if p > j then p - 1 else j, block;
      }
      EndOfRun(c, j, p);
      g' := Relist(block, c, x);
    }

    /** MergeBlock: the run of free blocks around block i of its region becomes one block. */
    method MergeBlock(i: nat, ghost g: Heap) returns (j: nat, ghost g': Heap)
      requires Tiling(g) && FreeOk(g, null) && Linked(g, {}) && FreeRun(g, i, i)
      requires forall k :: 0 <= k < |g.blocks| - 1 && k != i - 1 && k != i ==> Gap(g, k)
      modifies this`blocks, this`free, this`blockCount, this`freeBlockCount, cells
      ensures Good(g') && Linked(g', {}) && SameUse(g, g') && j <= i && j < |g'.blocks| && g'.blocks[j] !in g'.used
      ensures j < |g.blocks| && g'.blocks[j] == g.blocks[j] && g.blocks[j].region == g.blocks[i].region
    {
      hide Tiling;
      hide FreeOk;
      j := i;
      while j > 0 && !blocks[j - 1].used && blocks[j - 1].region == blocks[i].region
        invariant j <= i && FreeRun(g, j, i)
      {
        assert Agrees(g, g.blocks[j - 1], {});
        j := j - 1;
      }
      assert j > 0 ==> Agrees(g, g.blocks[j - 1], {});
      RunStarts(g, j, i);
      g' := MergeRightBlock(j, g, i);
    }

    /** IsBlockFree: the whole region is free. */
    method IsBlockFree(i: nat, ghost g: Heap) returns (r: bool)
      requires Good(g) && Linked(g, {}) && i < |g.blocks|
      ensures r <==> forall k :: 0 <= k < |g.blocks| && g.blocks[k].region == g.blocks[i].region ==>
          g.blocks[k] !in g.used
    {
      hide Good;
      var block := blocks[i];
      assert Agrees(g, block, {});
      if block.used {
        return false;
      }
      var isEnd := i + 1 == |blocks| || blocks[i + 1].region != block.region;
      WholeRegionFree(g, i);
      r := block.region == block && isEnd;
    }

    lemma {:induction false} AsListed(g: Heap, i: nat)
      requires Good(g) && i < |g.blocks| && g.blocks[i] !in g.used
      ensures g.blocks[i] in g.free && g.blocks[i] in g.size
    {
      assert g.blocks[i] in g.blocks;
      Sized(g, g.blocks[i]);
    }

    lemma {:induction false} ShrunkBlock(g: Heap, i: nat, k: nat)
      requires Good(g) && i < |g.blocks| && k + 1 < |g.blocks|
      ensures k < |Without(g.blocks, i)|
      ensures Without(g.blocks, i)[k] == g.blocks[if k < i then k else k + 1] != g.blocks[i]
    {
      OtherBlock(g.blocks, if k < i then k else k + 1, i);
    }

    /** DeleteBlock: unmaps the region that block i fills; length is what the system is told to unmap. */
    method DeleteBlock(i: nat, ghost g: Heap) returns (length: nat, ghost g': Heap)
      requires Good(g) && Linked(g, {}) && i < |g.blocks| && g.blocks[i] !in g.used
      requires g.blocks[i].region == g.blocks[i] && (i + 1 < |g.blocks| ==> g.blocks[i + 1].region != g.blocks[i])
      modifies this`blocks, this`free, this`blockCount, this`freeBlockCount, this`regionCount, cells
      ensures Good(g') && Linked(g', {}) && g'.used == g.used && g'.size == g.size
      ensures g'.mapped == g.mapped - {g.blocks[i]}
      ensures g.blocks[i] in g.mapped && length == g.mapped[g.blocks[i]]
    {
      hide Good;
      hide Tiling;
      hide FreeOk;
      hide Without;
      var block := blocks[i];
      AsListed(g, i);
      assert Agrees(g, block, {});
      ghost var f := IndexOf(g.free, block);
      Shrink(g, i, f);
      ShrinkFacts(g, i, f);
      g' := Shrunk(g, i, f);
      var at := IndexOf(free, block);
      block.used := true;
      free, freeBlockCount := Without(free, at), freeBlockCount - 1;
      blocks, blockCount := Without(blocks, i), blockCount - 1;
      length := block.size + HEADER;
      regionCount := regionCount - 1;
      forall k | 0 <= k < |g'.blocks| ensures g'.blocks[k] in cells && Agrees(g', g'.blocks[k], {}) {
        ShrunkBlock(g, i, k);
        assert old(Agrees(g, g.blocks[if k < i then k else k + 1], {}));
      }
    }

    /** No block of b's region but b is in use. */
    static ghost predicate LastInRegion(g: Heap, b: Block) {
      forall c :: c in g.used && c != b ==> c.region != b.region
    }

    /** The blocks in use in g' have the sizes they had in g. */
    static ghost predicate KeepsSizes(g: Heap, g': Heap) {
      forall c :: c in g'.used && c in g.size ==> c in g'.size && g'.size[c] == g.size[c]
    }

    /** From g to g' the block b went out of use, and its region with it when more than 1024 were mapped and b was
        the last block in use there. */
    static ghost predicate Freed(g: Heap, g': Heap, b: Block) {
      && g'.used == g.used - {b} && KeepsSizes(g, g')
      && g'.mapped == if |g.mapped| > MAX_REGIONS && LastInRegion(g, b) then g.mapped - {b.region} else g.mapped
    }

    lemma {:induction false} GoodNoDup(g: Heap)
      requires Tiling(g)
      ensures NoDup(g.blocks)
    {
    }

    /** AddToFreeList(block); MergeBlock(block) */
    method Release(b: Block) returns (j: nat, ghost g': Heap)
      requires Valid() && b in h.used
      modifies this`blocks, this`free, this`blockCount, this`freeBlockCount, cells
      ensures Good(g') && Linked(g', {}) && j < |g'.blocks| && g'.blocks[j] !in g'.used
      ensures g'.blocks[j].region == b.region
      ensures g'.used == h.used - {b} && g'.mapped == h.mapped && KeepsSizes(h, g')
    {
      hide Tiling;
      hide FreeOk;
      hide Coalesced;
      hide FreeRun;
      hide Put;
      UsedListed(h, b);
      var i := IndexOf(blocks, b);
      assert h.blocks[i] in cells;
      ghost var g1, pos := AddToFreeList(b, h, {});
      PutFacts(h, b, pos);
      GoodNoDup(h);
      JustFreed(h, i, pos);
      assert {} - {b} == {};
      j, g' := MergeBlock(i, g1);
    }

    /** No block of the region that starts with r is in use. */
    static ghost predicate Idle(g: Heap, r: Block) {
      forall k :: 0 <= k < |g.blocks| && g.blocks[k].region == r ==> g.blocks[k] !in g.used
    }

    /** if (region_count_ > kMaxBlockCount && IsBlockFree(block)) DeleteBlock(block) */
    method GiveBackIdle(j: nat, ghost g: Heap) returns (ghost g': Heap)
      requires Good(g) && Linked(g, {}) && j < |g.blocks| && g.blocks[j] !in g.used
      modifies this`blocks, this`free, this`blockCount, this`freeBlockCount, this`regionCount, cells
      ensures Good(g') && Linked(g', {}) && g'.used == g.used && g'.size == g.size
      ensures var r := g.blocks[j].region;
        g'.mapped == if |g.mapped| > MAX_REGIONS && Idle(g, r) then g.mapped - {r} else g.mapped
    {
      hide Good;
      var regionFree := false;
      if regionCount > MAX_REGIONS {
        regionFree := IsBlockFree(j, g);
      }
      WholeRegionFree(g, j);
      if regionFree {
        var length;
        length, g' := DeleteBlock(j, g);
      } else {
        g' := g;
      }
    }

    /** Freed down to g2: the region of block j is idle exactly when b was the last block in use there. */
    lemma {:induction false} IdleRegion(g: Heap, b: Block, g2: Heap, j: nat)
      requires Good(g) && Good(g2) && b in g.used && g2.used == g.used - {b} && g2.mapped == g.mapped
      requires j < |g2.blocks| && g2.blocks[j].region == b.region
      ensures LastInRegion(g, b) <==> Idle(g2, b.region)
    {
      if Idle(g2, b.region) {
        forall c | c in g.used && c != b ensures c.region != b.region {
          assert c in g2.used && c in g2.blocks;
          var k := IndexOf(g2.blocks, c);
          assert g2.blocks[k] in g2.used;
        }
      }
      if LastInRegion(g, b) {
        forall k | 0 <= k < |g2.blocks| && g2.blocks[k].region == b.region ensures g2.blocks[k] !in g2.used {
          assert g2.blocks[k] in g2.used <==> (g2.blocks[k] in g.used && g2.blocks[k] != b);
        }
      }
    }

    method FreeBlock(b: Block) returns (ghost g': Heap)
      requires Valid() && b in h.used
      modifies this`blocks, this`free, this`blockCount, this`freeBlockCount, this`regionCount, cells
      ensures Good(g') && Linked(g', {}) && Freed(h, g', b)
    {
      hide Good;
      hide Linked;
      hide LastInRegion;
      ghost var g := h;
      var j;
      ghost var g2;
      j, g2 := Release(b);
      IdleRegion(g, b, g2, j);
      g' := GiveBackIdle(j, g2);
    }

    /** Free: the block is merged with its free neighbours; with more than 1024 regions an idle region is given back. */
    method Free(b: Block?)
      requires Valid() && (b != null ==> b in h.used)
      modifies this, cells
      ensures Valid() && bytes == old(bytes) && cells == old(cells)
      ensures b == null ==> h == old(h)
      ensures b != null ==> Freed(old(h), h, b)
      ensures b != null ==>
                h.mapped
                == if |old(h).mapped| > 1024 && forall c :: c in old(h).used && c != b ==> c.region != b.region then
                  old(h).mapped - {b.region}
                else old(h).mapped
    {
      hide Good;
      hide Linked;
      if b == null {
        return;
      }
      ghost var g := FreeBlock(b);
      h := g;
    }

    // Payloads

    static function Byte(m: map<int, int>, a: int): int {
      if a in m then m[a] else 0
    }

    /** BlockHeader::ToData */
    static function Data(b: Block): int {
      b.addr + HEADER
    }

    /** Payload byte k of b. */
    static function Payload(m: map<int, int>, b: Block, k: int): int {
      Byte(m, Data(b) + k)
    }

    /** The first n payload bytes of b read the same in m and m'. */
    static ghost predicate SameBytes(m: map<int, int>, m': map<int, int>, b: Block, n: nat) {
      forall k :: 0 <= k < n ==> Payload(m', b, k) == Payload(m, b, k)
    }

    /** No block in use in g, b aside, has a changed payload. */
    static ghost predicate OthersSame(g: Heap, m: map<int, int>, m': map<int, int>, b: Block?) {
      forall c :: c in g.used && c != b && c in g.size ==> SameBytes(m, m', c, g.size[c])
    }

    /** memset(ptr, 0, n) */
    method Zero(b: Block, n: nat)
      modifies this`bytes
      ensures forall a :: Data(b) <= a < Data(b) + n ==> Byte(bytes, a) == 0
      ensures forall a :: !(Data(b) <= a < Data(b) + n) ==> Byte(bytes, a) == Byte(old(bytes), a)
    {
      var m, i := bytes, 0;
      while i < n
        invariant 0 <= i <= n && forall a :: Data(b) <= a < Data(b) + i ==> Byte(m, a) == 0
        invariant forall a :: !(Data(b) <= a < Data(b) + i) ==> Byte(m, a) == Byte(bytes, a)
      {
        ghost var was := m;
        m := m[Data(b) + i := 0];
        assert forall a :: Byte(m, a) == if a == Data(b) + i then 0 else Byte(was, a);
        i := i + 1;
      }
      bytes := m;
    }

    /** memcpy(to, from, n), for a source that the target does not overlap */
    method CopyBytes(to: Block, from: Block, n: nat)
      requires Apart(Data(to), n, Data(from), n)
      modifies this`bytes
      ensures forall k :: 0 <= k < n ==> Payload(bytes, to, k) == Payload(old(bytes), from, k)
      ensures forall a :: !(Data(to) <= a < Data(to) + n) ==> Byte(bytes, a) == Byte(old(bytes), a)
    {
      var m, i := bytes, 0;
      while i < n
        invariant 0 <= i <= n && forall k :: 0 <= k < i ==> Payload(m, to, k) == Payload(bytes, from, k)
        invariant forall a :: !(Data(to) <= a < Data(to) + i) ==> Byte(m, a) == Byte(bytes, a)
      {
        assert Byte(m, Data(from) + i) == Payload(bytes, from, i);
        m := m[Data(to) + i := Byte(m, Data(from) + i)];
        i := i + 1;
      }
      bytes := m;
    }

    static lemma {:induction false} PayloadsApart(g: Heap, b: Block, c: Block)
      requires Tiling(g) && b in g.blocks && c in g.blocks && b != c
      ensures b in g.size && c in g.size && Apart(b.addr, HEADER + g.size[b], c.addr, HEADER + g.size[c])
    {
      var i, j := IndexOf(g.blocks, b), IndexOf(g.blocks, c);
      if i < j { BlocksDisjoint(g, i, j); } else { BlocksDisjoint(g, j, i); }
    }

    /** Writing inside b's payload leaves the payloads of all other blocks in use alone. */
    static lemma {:induction false} WriteInside(g: Heap, g0: Heap, m: map<int, int>, m': map<int, int>, b: Block,
        n: nat)
      requires Tiling(g) && b in g.used && b in g.size && n <= g.size[b]
      requires forall a :: !(Data(b) <= a < Data(b) + n) ==> Byte(m', a) == Byte(m, a)
      requires forall c :: c in g0.used && c != b && c in g0.size ==>
                c in g.used && c in g.size && g.size[c] == g0.size[c]
      ensures OthersSame(g0, m, m', b)
    {
      forall c | c in g0.used && c != b && c in g0.size ensures SameBytes(m, m', c, g0.size[c]) {
        PayloadsApart(g, b, c);
      }
    }

    /** What the multiplication of two size_t values gives. */
    static function Product(nmemb: nat, size: nat): nat {
      nmemb * size % SIZE_RANGE
    }

    static lemma {:induction false} Tiled(g: Heap)
      requires Good(g)
      ensures Tiling(g)
    {
    }

    static lemma {:induction false} Wrapped(p: nat, held: nat)
      requires p % SIZE_RANGE <= held < p % SIZE_RANGE + HEADER + MIN_BLOCK
      ensures held >= p <==> p < SIZE_RANGE
    {
    }

    /** Calloc: zeroed memory of the wrapped product; it holds nmemb * size bytes exactly when the product did not
        wrap. */
    method Calloc(nmemb: nat, size: nat, os: Option<int>) returns (b: Block?)
      requires Valid() && Clear(h, os, Product(nmemb, size))
      modifies this, cells
      ensures Valid() && old(cells) <= cells && fresh(cells - old(cells))
      ensures b == null ==> h == old(h) && bytes == old(bytes)
      ensures Product(nmemb, size) == 0 ==> b == null
      ensures b != null ==> Allocated(old(h), h, b, Product(nmemb, size)) && OthersSame(old(h), old(bytes), bytes, null)
      ensures b != null ==> (b in h.size && h.size[b] >= nmemb * size <==> nmemb * size < SIZE_RANGE)
      ensures b == null <==>
          nmemb * size % 0x1_0000_0000_0000_0000 == 0
          || (os == None
          && forall f :: f in old(h).free && f in old(h).size ==>
            old(h).size[f] < nmemb * size % 0x1_0000_0000_0000_0000)
      ensures b != null ==>
                forall a :: b.addr + 72 <= a < b.addr + 72 + nmemb * size % 0x1_0000_0000_0000_0000 ==>
                  Byte(bytes, a) == 0
    {
      hide Good;
      hide Linked;
      var memSize := Product(nmemb, size);
      if memSize == 0 {
        return null;
      }
      ghost var g, m := h, bytes;
      b := Malloc(memSize, os);
      if b == null {
        return;
      }
      Zero(b, memSize);
      Tiled(h);
      WriteInside(h, g, m, bytes, b, memSize);
      Wrapped(nmemb * size, h.size[b]);
    }

    // Reallocation

    /** The next block of the list is of the same region, free, and large enough together with block i. */
    static ghost predicate GrowsAt(g: Heap, i: nat, b: Block, size: nat) {
      && i + 1 < |g.blocks| && g.blocks[i] == b && g.blocks[i + 1] !in g.used && g.blocks[i + 1].region == b.region
      && b in g.size && g.blocks[i + 1] in g.size && g.size[b] + g.size[g.blocks[i + 1]] + HEADER >= size
    }

    /** size bytes of payload at b end inside of b's mapping, and no other block in use is in the way. */
    static ghost predicate Unobstructed(g: Heap, b: Block, size: nat) {
      && b.region in g.mapped && b.addr + 72 + size <= b.region.addr + g.mapped[b.region]
      && forall c :: c in g.used && c != b ==> c in g.size && Apart(c.addr, 72 + g.size[c], b.addr + 72, size)
    }

    static lemma {:induction false} FitsIsUnobstructed(g: Heap, b: Block, size: nat)
      requires Good(g) && b in g.used && b in g.size && size <= g.size[b]
      ensures Unobstructed(g, b, size)
    {
      var i := IndexOf(g.blocks, b);
      EndsInside(g, i);
      forall c | c in g.used && c != b ensures c in g.size && Apart(c.addr, 72 + g.size[c], b.addr + 72, size) {
        PayloadsApart(g, b, c);
      }
    }

    static lemma {:induction false} GrowsIsUnobstructed(g: Heap, i: nat, b: Block, size: nat)
      requires Good(g) && b in g.used && GrowsAt(g, i, b, size)
      ensures Unobstructed(g, b, size)
    {
      var n := g.blocks[i + 1];
      assert Place(g, i);
      EndsInside(g, i + 1);
      forall c | c in g.used && c != b ensures c in g.size && Apart(c.addr, 72 + g.size[c], b.addr + 72, size) {
        PayloadsApart(g, b, c);
        PayloadsApart(g, n, c);
      }
    }

    /** Only a block in use or the end of the mapping stops b behind the free block that follows it, because no two
        neighbours are free. */
    static lemma {:induction false} UnobstructedGrows(g: Heap, i: nat, b: Block, size: nat)
      requires Good(g) && i < |g.blocks| && g.blocks[i] == b && b in g.used && b in g.size && g.size[b] < size
      requires Unobstructed(g, b, size)
      ensures GrowsAt(g, i, b, size)
    {
      assert Place(g, i);
      var n := g.blocks[i + 1];
      assert Place(g, i + 1);
      if i + 2 < |g.blocks| && g.blocks[i + 2].region == b.region {
        assert Gap(g, i + 1);
        assert Place(g, i + 2);
      }
    }

    /** Block i grows where it is exactly if nothing in use stands in the way. */
    static lemma {:induction false} GrowsIff(g: Heap, i: nat, b: Block, size: nat)
      requires Good(g) && i < |g.blocks| && g.blocks[i] == b && b in g.used && b in g.size && g.size[b] < size
      ensures GrowsAt(g, i, b, size) <==> Unobstructed(g, b, size)
    {
      if GrowsAt(g, i, b, size) { GrowsIsUnobstructed(g, i, b, size); }
      if Unobstructed(g, b, size) { UnobstructedGrows(g, i, b, size); }
    }

    /** From g to g' the payload of b moved to r, which is b itself or was not in use, and nothing else in use
        changed. */
    static ghost predicate Reallocated(g: Heap, g': Heap, b: Block, r: Block, size: nat) {
      && (r == b || r !in g.used) && g'.used == g.used - {b} + {r} && r in g'.size && g'.size[r] >= size
      && forall c :: c in g.used && c != b && c in g.size ==> c in g'.size && g'.size[c] == g.size[c]
    }

    /** A used block grown over a free one still stands before a wall, and no two free blocks have become neighbours. */
    lemma {:induction false} GrownInPlace(g: Heap, i: nat, f: nat)
      requires Good(g) && JoinReady(g, i) && f < |g.free| && g.blocks[i] in g.used && g.blocks[i + 1] !in g.used
      requires g.blocks[i].region == g.blocks[i + 1].region
      ensures Coalesced(Joined(g, i, f)) && i < |Joined(g, i, f).blocks| && Walled(Joined(g, i, f), i)
    {
      var t := Joined(g, i, f);
      JoinFacts(g, i, f);
      forall k | 0 <= k < |t.blocks| - 1 ensures Gap(t, k) {
        if k != i {
          assert Gap(g, if k < i then k else k + 1);
          JoinGaps(g, i, f, k);
        }
      }
      assert i + 2 < |g.blocks| ==> Gap(g, i + 1);
    }

    /** The in-place part of Realloc: merge with the next block, then split. */
    method GrowInPlace(b: Block, size: nat) returns (done: bool, ghost g': Heap)
      requires Valid() && b in h.used && b in h.size && size > h.size[b]
      modifies this`blocks, this`free, this`blockCount, this`freeBlockCount, this`cells, cells
      ensures done <==> Unobstructed(h, b, size)
      ensures Good(g') && Linked(g', {}) && old(cells) <= cells && fresh(cells - old(cells))
      ensures done ==> Reallocated(h, g', b, b, size) && g'.mapped == h.mapped && g'.size[b] < size + 88
      ensures !done ==> g' == h
    {
      hide Tiling;
      hide FreeOk;
      hide Coalesced;
      UsedListed(h, b);
      var i := IndexOf(blocks, b);
      GrowsIff(h, i, b, size);
      assert Agrees(h, h.blocks[i], {});
      if i + 1 == |blocks| {
        return false, h;
      }
      var next := blocks[i + 1];
      assert Agrees(h, h.blocks[i + 1], {});
      if next.region != b.region || next.used || b.size + next.size + HEADER < size {
        return false, h;
      }
      ReadyToJoin(h, i, null);
      ghost var f := IndexOf(h.free, next);
      JoinFacts(h, i, f);
      JoinedBlock(h, i, i);
      GrownInPlace(h, i, f);
      ghost var g1 := MergeTwoBlock(i, h, null);
      g' := SplitBlock(b, i, size, g1, {});
      done := true;
    }

    lemma {:induction false} UsedFacts(b: Block)
      requires Valid() && b in h.used
      ensures b in h.size && b.size == h.size[b] && b in h.blocks && Tiling(h)
    {
      UsedListed(h, b);
      var i := IndexOf(h.blocks, b);
      assert Agrees(h, h.blocks[i], {});
    }

    static lemma {:induction false} Moved(g: Heap, g1: Heap, g2: Heap, b: Block, r: Block, size: nat)
      requires Allocated(g, g1, r, size) && Freed(g1, g2, b) && b in g.used && b in g.size
      ensures Reallocated(g, g2, b, r, size)
    {
      assert r in g1.size && g1.size[r] >= size;
    }

    /** Malloc(size); memcpy of the whole old payload; Free */
    method MoveBlock(b: Block, size: nat, os: Option<int>) returns (r: Block?)
      requires Valid() && b in h.used && b in h.size && h.size[b] < size && Clear(h, os, size)
      modifies this, cells
      ensures Valid() && old(cells) <= cells && fresh(cells - old(cells)) && r != b
      ensures r == null ==> h == old(h) && bytes == old(bytes)
      ensures r != null ==> Reallocated(old(h), h, b, r, size) && OthersSame(old(h), old(bytes), bytes, b)
      ensures r != null ==> forall k :: 0 <= k < old(h).size[b] ==> Payload(bytes, r, k) == Payload(old(bytes), b, k)
      ensures r == null <==> os == None && forall f :: f in old(h).free && f in old(h).size ==> old(h).size[f] < size
      ensures r != null ==> h.size[r] < size + 88
    {
      hide Good;
      hide Linked;
      hide LastInRegion;
      ghost var g, m := h, bytes;
      r := Malloc(size, os);
      if r == null {
        return;
      }
      ghost var g1 := h;
      UsedFacts(b);
      UsedFacts(r);
      PayloadsApart(g1, r, b);
      CopyBytes(r, b, b.size);
      WriteInside(g1, g, m, bytes, r, g.size[b]);
      Free(b);
      Moved(g, g1, h, b, r, size);
    }

    method ReallocBlock(b: Block, size: nat, os: Option<int>) returns (r: Block?)
      requires Valid() && b in h.used && size > 0 && Clear(h, os, size)
      modifies this, cells
      ensures Valid() && old(cells) <= cells && fresh(cells - old(cells)) && b in old(h).size
      ensures r == null || old(h).size[b] >= size ==> h == old(h) && bytes == old(bytes)
      ensures r != null ==> Reallocated(old(h), h, b, r, size) && OthersSame(old(h), old(bytes), bytes, b)
      ensures r != null ==> forall k :: 0 <= k < old(h).size[b] ==> Payload(bytes, r, k) == Payload(old(bytes), b, k)
      ensures r != null && old(h).size[b] < size ==> r in h.size && h.size[r] < size + 88
      ensures r == b <==> Unobstructed(old(h), b, size)
      ensures r == null <==>
          && !Unobstructed(old(h), b, size) && os == None
          && forall f :: f in old(h).free && f in old(h).size ==> old(h).size[f] < size
    {
      hide Good;
      hide Linked;
      hide Unobstructed;
      UsedFacts(b);
      if b.size >= size {
        FitsIsUnobstructed(h, b, size);
        assert h.used - {b} + {b} == h.used;
        return b;
      }
      var done;
      ghost var g';
      done, g' := GrowInPlace(b, size);
      if done {
        h := g';
        return b;
      }
      r := MoveBlock(b, size, os);
    }

    /** The payload of b is found at r. */
    static lemma {:induction false} Copied(m: map<int, int>, m': map<int, int>, b: Block, r: Block, n: nat)
      requires forall k :: 0 <= k < n ==> Payload(m', r, k) == Payload(m, b, k)
      ensures forall a :: b.addr + 72 <= a < b.addr + 72 + n ==> Byte(m', a - b.addr + r.addr) == Byte(m, a)
    {
      forall a | b.addr + 72 <= a < b.addr + 72 + n ensures Byte(m', a - b.addr + r.addr) == Byte(m, a) {
        assert Payload(m', r, a - b.addr - 72) == Payload(m, b, a - b.addr - 72);
      }
    }

    /** Realloc: in place if no other block in use and not the end of the mapping is in the way, else moved; the old
        payload is kept and no other payload is touched.  Null leaves everything as it was. */
    method Realloc(b: Block?, size: nat, os: Option<int>) returns (r: Block?)
      requires Valid() && (if b == null then size > 0 else b in h.used) && (size > 0 ==> Clear(h, os, size))
      modifies this, cells
      ensures Valid() && old(cells) <= cells && fresh(cells - old(cells))
      ensures b == null && r != null ==> Allocated(old(h), h, r, size) && bytes == old(bytes)
      ensures b != null && size == 0 ==> r == null && Freed(old(h), h, b) && bytes == old(bytes)
      ensures b != null && size > 0 && r != null ==> b in old(h).size && Reallocated(old(h), h, b, r, size)
      ensures b != null && size > 0 && r != null ==> OthersSame(old(h), old(bytes), bytes, b)
      ensures b != null && size > 0 && r != null ==>
                forall a :: b.addr + 72 <= a < b.addr + 72 + old(h).size[b] ==>
                  Byte(bytes, a - b.addr + r.addr) == Byte(old(bytes), a)
      ensures r == null && (b == null || size > 0) ==> h == old(h) && bytes == old(bytes)
      ensures b != null && 0 < size ==> b in old(h).size && (size <= old(h).size[b] ==> h == old(h))
      ensures b != null && r != null && old(h).size[b] < size ==> r in h.size && h.size[r] < size + 88
      ensures b != null && size > 0 ==>
                (r == b <==>
                  && b.region in old(h).mapped && b.addr + 72 + size <= b.region.addr + old(h).mapped[b.region]
                  && forall c :: c in old(h).used && c != b ==> (c in old(h).size
                    && (c.addr + 72 + old(h).size[c] <= b.addr + 72 || b.addr + 72 + size <= c.addr)))
      ensures size > 0 ==>
                (r == null <==>
                  && (b == null || r != b) && os == None
                  && forall f :: f in old(h).free && f in old(h).size ==> old(h).size[f] < size)
    {
      hide Valid;
      hide Allocated;
      hide Freed;
      hide Reallocated;
      hide OthersSame;
      hide Payload;
      hide Clear;
      if b == null {
        r := Malloc(size, os);
        return;
      } else if size == 0 {
        Free(b);
        return null;
      }
      ghost var g, m := h, bytes;
      r := ReallocBlock(b, size, os);
      if r != null {
        Copied(m, bytes, b, r, g.size[b]);
      }
    }
  }
}
