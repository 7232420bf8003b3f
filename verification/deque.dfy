/** src/gtl/container/deque.h: a window of fixed-size blocks inside a larger block map. */
module Deques {
  import opened Wrappers
  import opened Powers

  const BLOCK: int := 16
  const MIN_CAPACITY: nat := 16

  /** A position: a block of the map and an offset into that block. */
  class DequeIterator {
    var block: int
    var offset: int

    constructor (block: int, offset: int)
      ensures this.block == block && this.offset == offset
    {
      this.block, this.offset := block, offset;
    }

    ghost predicate Valid()
      reads this
    {
      0 <= offset < BLOCK
    }

    /** The linear position. */
    ghost function Pos(): int
      reads this
    {
      block * BLOCK + offset
    }

    method Increment()
      requires Valid()
      modifies this
      ensures Valid() && Pos() == old(Pos()) + 1
      ensures block == if old(offset) == BLOCK - 1 then old(block) + 1 else old(block)
    {
      offset := offset + 1;
      if offset == BLOCK {
        block := block + 1;
        offset := 0;
      }
    }

    method Decrement()
      requires Valid()
      modifies this
      ensures Valid() && Pos() == old(Pos()) - 1
      ensures block == if old(offset) == 0 then old(block) - 1 else old(block)
    {
      if offset == 0 {
        block := block - 1;
        offset := BLOCK;
      }
      offset := offset - 1;
    }

    /** operator+=, for any sign of n */
    method Add(n: int)
      requires Valid()
      modifies this
      ensures Valid() && Pos() == old(Pos()) + n
    {
      if n != 0 {
        if n >= 0 {
          var m := n + offset;
          block := block + m / BLOCK;
          offset := m % BLOCK;
        } else {
          var m := -n;
          m := m + (BLOCK - 1) - offset;
          block := block - m / BLOCK;
          offset := (BLOCK - 1) - m % BLOCK;
        }
      }
    }

    /** operator-= */
    method Subtract(n: int)
      requires Valid()
      modifies this
      ensures Valid() && Pos() == old(Pos()) - n
    {
      Add(-n);
    }

    /** operator- of two positions */
    function Minus(other: DequeIterator): (n: int)
      reads this, other
      ensures n == Pos() - other.Pos()
    {
      (block - other.block) * BLOCK + offset - other.offset
    }

    /** operator== */
    predicate Same(other: DequeIterator)
      requires Valid() && other.Valid()
      reads this, other
      ensures Same(other) <==> Pos() == other.Pos()
    {
      offset == other.offset && block == other.block
    }

    /** operator< */
    predicate Before(other: DequeIterator)
      requires Valid() && other.Valid()
      reads this, other
      ensures Before(other) <==> Pos() < other.Pos()
    {
      if block == other.block then offset < other.offset else block < other.block
    }
  }

  lemma {:induction false} PosIs(it: DequeIterator)
    ensures it.Pos() == it.block * BLOCK + it.offset
  {
  }

  /** What position p holds when s is stored from position `from` on. */
  function Held<T>(s: seq<T>, from: int, p: int): Option<T> {
    if from <= p < from + |s| then Some(s[p - from]) else None
  }

  /** s' from from' on is s from `from` on but for position x. */
  ghost predicate SameBut<T>(s: seq<T>, from: int, s': seq<T>, from': int, x: int) {
    forall p {:trigger Held(s', from', p)} :: p != x ==> Held(s', from', p) == Held(s, from, p)
  }

  lemma {:induction false} HeldSnoc<T>(s: seq<T>, v: T, from: int)
    ensures SameBut(s, from, s + [v], from, from + |s|) && Held(s + [v], from, from + |s|) == Some(v)
    ensures SameBut(s + [v], from, s, from, from + |s|) && Held(s, from, from + |s|) == None
  {
  }

  lemma {:induction false} HeldCons<T>(s: seq<T>, v: T, from: int)
    ensures SameBut(s, from, [v] + s, from - 1, from - 1) && Held([v] + s, from - 1, from - 1) == Some(v)
    ensures SameBut([v] + s, from - 1, s, from, from - 1) && Held(s, from, from - 1) == None
  {
  }

  /** The capacity of a map asked to have at least m blocks. */
  ghost predicate Capacity(n: int, m: int) {
    0 <= m <= n && MIN_CAPACITY <= n && IsPow2(n) && (n == MIN_CAPACITY || n < 2 * m)
  }

  /** A larger map has at least twice the capacity, and exactly that for one more block. */
  lemma {:induction false} Doubles(len: nat, n: nat, c: nat)
    requires IsPow2(len) && MIN_CAPACITY <= len && Capacity(n, len + c) && c > 0
    ensures n >= 2 * len && (c == 1 ==> n == 2 * len)
  {
    Pow2Gap(len, n);
    if n != 2 * len {
      var k: nat :| len == Pow2(k);
      assert Pow2(k + 1) == 2 * len;
      Pow2Gap(2 * len, n);
    }
  }

  /** What one more block makes of the capacity. */
  lemma {:induction false} NextCapacity(len: nat, n: nat)
    requires Capacity(n, len + 1) && (len > 0 ==> IsPow2(len) && MIN_CAPACITY <= len)
    ensures n == if len == 0 then MIN_CAPACITY else 2 * len
  {
    if len > 0 { Doubles(len, n, 1); }
  }

  /** A reallocation for c more blocks shifts the window [lo, hi] by (n - (hi - lo + 1) - c) / 2 in a map of n
      blocks. */
  lemma {:induction false} Shift(n: int, lo: int, hi: int, c: int)
    requires 0 <= lo <= hi && 0 < c && hi - lo + 1 + c <= n
    ensures var mid := (n - (hi - lo + 1) - c) / 2;
      && mid >= 0 && (hi + mid + c < n <==> lo + hi + c <= n) && (2 * (hi + 1) <= n ==> hi + mid < n)
      && (lo == hi ==> (hi + mid + c - 1 < n <==> lo + hi + c <= n + 2))
  {
  }

  // How many blocks a reservation constructs, for a map of len blocks with begin or end at offset off of block k

  function BackGrows(len: int, k: int, off: int, count: int): bool {
    (len == 0 || count >= BLOCK - off) && count >= (len - k) * BLOCK - off
  }

  function BackBlocks(len: int, k: int, off: int, count: int): int {
    if len != 0 && count < BLOCK - off then 0
    else if BackGrows(len, k, off, count) then (count - ((len - k) * BLOCK - off)) / BLOCK + 1
    else count / BLOCK + 1
  }

  function FrontGrows(k: int, off: int, count: int): bool {
    count > k * BLOCK + off
  }

  function CeilBlocks(n: int): int {
    n / BLOCK + if n % BLOCK != 0 then 1 else 0
  }

  function FrontBlocks(k: int, off: int, count: int): int {
    if count <= off then 0
    else if FrontGrows(k, off, count) then CeilBlocks(count - (k * BLOCK + off))
    else CeilBlocks(count)
  }

  lemma {:induction false} BackMeans(len: int, k: int, off: int, count: int)
    requires (len == k == off == 0 || 0 <= k < len) && 0 <= off < BLOCK && count > 0
    ensures BackGrows(len, k, off, count) <==> len == 0 || count >= (len - k) * 16 - off
    ensures len == 0 ==> BackBlocks(len, k, off, count) == count / 16 + 1
    ensures len != 0 && count < 16 - off ==> BackBlocks(len, k, off, count) == 0
    ensures len != 0 && 16 - off <= count < (len - k) * 16 - off ==> BackBlocks(len, k, off, count) == count / 16 + 1
    ensures len != 0 && count >= (len - k) * 16 - off ==>
              BackBlocks(len, k, off, count) == (count - ((len - k) * 16 - off)) / 16 + 1
    ensures BackBlocks(len, k, off, count) >= 0
  {
  }

  lemma {:induction false} FrontMeans(k: int, off: int, count: int)
    requires 0 <= k && 0 <= off < BLOCK && count > 0
    ensures FrontGrows(k, off, count) <==> count > k * 16 + off
    ensures count <= off ==> FrontBlocks(k, off, count) == 0
    ensures off < count <= k * 16 + off ==>
              FrontBlocks(k, off, count) == (count + 15) / 16 == CeilBlocks(count)
    ensures count > k * 16 + off ==>
              FrontBlocks(k, off, count) == (count - (k * 16 + off) + 15) / 16 == CeilBlocks(count - (k * 16 + off))
    ensures FrontBlocks(k, off, count) >= 0
  {
  }

  /** The last block that reserve_at_back constructs, counted from the end's block e after the call, against the block
      of the new end and that of the last new element.  When the map grows, its blocks behind the old end k are counted,
      but never constructed. */
  lemma {:induction false} BackEnough(len: int, k: int, off: int, count: int, e: int)
    requires 0 <= k < len && 0 <= off < BLOCK && count > 0
    ensures (e * BLOCK + off + count) / BLOCK <= e + BackBlocks(len, k, off, count)
       <==> !BackGrows(len, k, off, count) || k == len - 1
    ensures (e * BLOCK + off + count - 1) / BLOCK <= e + BackBlocks(len, k, off, count)
       <==> !BackGrows(len, k, off, count) || k == len - 1 || (k == len - 2 && (off + count) % BLOCK == 0)
  {
    assert (e * BLOCK + off + count) / BLOCK == e + (off + count) / BLOCK;
    assert (e * BLOCK + off + count - 1) / BLOCK == e + (off + count - 1) / BLOCK;
  }

  /** Where the last new elements lie, for the end at position pos, in block e, after the call. */
  lemma {:induction false} BackCovered(len: int, k: int, off: int, count: int, e: int, pos: int)
    requires (len == k == off == 0 || 0 <= k < len) && 0 <= off < BLOCK && count > 0 && pos == e * BLOCK + off
    ensures len == 0 ==> (pos + count) / 16 == e + BackBlocks(len, k, off, count) - 1
    ensures len != 0 ==>
              ((pos + count) / 16 <= e + BackBlocks(len, k, off, count)
               <==> !BackGrows(len, k, off, count) || k == len - 1)
    ensures len != 0 ==>
              ((pos + count - 1) / 16 <= e + BackBlocks(len, k, off, count)
               <==> !BackGrows(len, k, off, count) || k == len - 1 || (k == len - 2 && (off + count) % 16 == 0))
  {
    if len != 0 {
      BackEnough(len, k, off, count, e);
    } else {
      assert (e * BLOCK + count) / BLOCK == e + count / BLOCK;
    }
  }

  /** The first block that reserve_at_front constructs, counted from the begin's block b after the call, against that of
      the first new element. */
  lemma {:induction false} FrontEnough(k: int, off: int, count: int, b: int)
    requires 0 <= k && 0 <= off < BLOCK && count > 0
    ensures b - FrontBlocks(k, off, count) <= (b * BLOCK + off - count) / BLOCK <==>
        !FrontGrows(k, off, count) || k == 0
  {
    assert (b * BLOCK + off - count) / BLOCK == b + (off - count) / BLOCK;
  }

  type BlockMap<T> = array<array?<Option<T>>>

  class Deque<T> {
    var d: BlockMap<T>
    const begin: DequeIterator
    const end: DequeIterator
    ghost var items: seq<T>
    ghost var blocks: set<array?<Option<T>>>

    /** No block map yet: both iterators are null. */
    ghost predicate Unused()
      reads this, begin, end
    {
      && begin != end && d.Length == 0 && items == []
      && begin.block == begin.offset == end.block == end.offset == 0
    }

    /** The window [begin, end] lies in the map and is as long as the items. */
    ghost predicate Window()
      reads this, begin, end
    {
      && begin != end && begin.Valid() && end.Valid()
      && IsPow2(d.Length) && MIN_CAPACITY <= d.Length && 0 <= begin.block <= end.block < d.Length
      && end.Pos() - begin.Pos() == |items|
    }

    /** The constructed blocks are exactly lo to hi, and their slots hold exactly s, the first at position from. */
    ghost predicate Slots(lo: int, hi: int, s: seq<T>, from: int)
      reads this`d, this`blocks, d, blocks
    {
      && 0 <= lo <= hi < d.Length
      && (forall k :: 0 <= k < d.Length ==> (d[k] != null <==> lo <= k <= hi))
      && (forall k :: lo <= k <= hi ==> d[k] in blocks && d[k].Length == BLOCK && d as object != d[k])
      && (forall j, k :: lo <= j < k <= hi ==> d[j] != d[k])
      && (forall k, o :: lo <= k <= hi && 0 <= o < BLOCK ==> d[k][o] == Held(s, from, k * BLOCK + o))
    }

    ghost predicate Built(lo: int, hi: int)
      reads this, begin, end, d, blocks
    {
      Window() && lo <= begin.block && end.block <= hi && Slots(lo, hi, items, begin.Pos())
    }

    ghost predicate Stored()
      reads this, begin, end, d, blocks
    {
      Built(begin.block, end.block)
    }

    /** The map is kept but no block in it is constructed. */
    ghost predicate NoBlocks()
      reads this, begin, end, d
    {
      Window() && items == [] && forall k :: 0 <= k < d.Length ==> d[k] == null
    }

    /** Emptied again: begin and end are where the last element was. */
    ghost predicate Drained()
      reads this, begin, end, d
    {
      NoBlocks() && end.Pos() + 1 < d.Length * BLOCK
    }

    ghost predicate Valid()
      reads this, begin, end, d, blocks
    {
      Unused() || (items != [] && Stored()) || Drained()
    }

    /** What a deque is between calls: the items lie one behind the other from begin on, 16 to a block; every other slot
        is empty, and exactly the blocks from that of begin to that of end are constructed, none without items. */
    lemma {:induction false} SlotsMean()
      requires Valid()
      ensures items == [] ==> forall k :: 0 <= k < d.Length ==> d[k] == null
      ensures items != [] ==> forall k :: 0 <= k < d.Length ==> (d[k] != null <==> begin.block <= k <= end.block)
      ensures forall k :: 0 <= k < d.Length && d[k] != null ==> d[k].Length == 16
      ensures forall k, o {:trigger d[k][o]} :: 0 <= k < d.Length && d[k] != null && 0 <= o < d[k].Length ==>
                var i := k * 16 + o - (begin.block * 16 + begin.offset);
                d[k][o] == if 0 <= i < |items| then Some(items[i]) else None
    {
    }

    constructor ()
      ensures Valid() && Unused() && fresh(d) && fresh(begin) && fresh(end) && fresh(blocks)
    {
      d := new array?<Option<T>>[0];
      begin := new DequeIterator(0, 0);
      end := new DequeIterator(0, 0);
      items, blocks := [], {};
    }

    /** size() */
    method Size() returns (n: int)
      requires Valid()
      ensures n == |items|
    {
      n := if d.Length != 0 then end.Minus(begin) else 0;
    }

    /** *(begin() + i) */
    method At(i: nat) returns (v: T)
      requires Valid() && i < |items|
      ensures v == items[i]
    {
      var it := new DequeIterator(begin.block, begin.offset);
      it.Add(i);
      assert it.Pos() == begin.Pos() + i < end.Pos();
      assert begin.block <= it.block <= end.block;
      v := d[it.block][it.offset].value;
    }

    /** construct_at(it, block_capacity_): a block without elements. */
    method NewBlock(k: int)
      requires 0 <= k < d.Length
      modifies this`blocks, d
      ensures d[k] != null && fresh(d[k]) && d[k].Length == BLOCK && forall o :: 0 <= o < BLOCK ==> d[k][o] == None
      ensures forall j :: 0 <= j < d.Length && j != k ==> d[j] == old(d[j])
      ensures blocks == old(blocks) + {d[k]}
    {
      d[k] := new Option<T>[BLOCK](_ => None);
      blocks := blocks + {d[k]};
    }

    /** alloc_block_storage(d_.capacity() + c) */
    method AllocBlockStorage(c: nat) returns (m: BlockMap<T>)
      ensures fresh(m) && Capacity(m.Length, d.Length + c) && forall k :: 0 <= k < m.Length ==> m[k] == null
    {
      var n := Next2Power(d.Length + c);
      assert Pow2(4) == 16;
      if n < MIN_CAPACITY { n := MIN_CAPACITY; }
      m := new array?<Option<T>>[n](_ => null);
    }

    /** uninitialized_move of the used blocks to position `to` of the new map. */
    method MoveBlocks(m: BlockMap<T>, lo: int, hi: int, to: int)
      requires 0 <= lo <= hi < d.Length && 0 <= to && to + hi - lo < m.Length && m != d
      requires forall k :: 0 <= k < m.Length ==> m[k] == null
      modifies m
      ensures forall j :: 0 <= j < m.Length ==> m[j] == if to <= j <= to + hi - lo then d[j - to + lo] else null
    {
      var k := lo;
      while k <= hi
        invariant lo <= k <= hi + 1
        invariant forall j :: 0 <= j < m.Length ==> m[j] == if to <= j < to + k - lo then d[j - to + lo] else null
      {
        m[to + k - lo] := d[k];
        k := k + 1;
      }
    }

    /** The window now is the stretch of m that starts at block `to`. */
    method AdoptMap(m: BlockMap<T>, to: int, endTo: int)
      requires Stored() && m != d && IsPow2(m.Length) && MIN_CAPACITY <= m.Length && 0 <= to
      requires endTo == to + end.block - begin.block < m.Length
      requires forall k :: begin.block <= k <= end.block ==> m as object != d[k]
      requires forall j :: 0 <= j < m.Length ==>
                m[j] == if to <= j <= to + end.block - begin.block then d[j - to + begin.block] else null
      modifies this`d, begin`block, end`block
      ensures Stored() && d == m && begin.block == to && end.block == endTo
    {
      ghost var shift := to - begin.block;
      ghost var from, lo, hi := begin.Pos(), begin.block, end.block;
      ghost var was := d;
      begin.block, end.block := to, endTo;
      d := m;
      assert begin.Pos() == from + shift * BLOCK;
      forall k, o | begin.block <= k <= end.block && 0 <= o < BLOCK
        ensures d[k][o] == Held(items, begin.Pos(), k * BLOCK + o) {
        assert d[k] == was[k - shift];
        assert was[k - shift][o] == Held(items, from, (k - shift) * BLOCK + o);
      }
    }

    lemma {:induction false} BlocksKnown()
      requires Stored()
      ensures forall k :: begin.block <= k <= end.block ==> d[k] in blocks
    {
    }

    lemma {:induction false} WindowFacts()
      requires Unused() || NoBlocks() || (items != [] && Stored())
      ensures begin != end && begin.Valid() && end.Valid() && 0 <= begin.block <= end.block
      ensures end.Pos() - begin.Pos() == |items|
      ensures (items == [] ==> begin.block == end.block && begin.offset == end.offset)
      ensures d.Length != 0 ==> Window() && end.block < d.Length
      ensures d.Length == 0 ==> Unused()
      ensures d.Length != 0 && items != [] ==> Stored() && Built(begin.block, end.block)
    {
    }

    /** construct_at on the map's first block */
    method FirstBlock(m: BlockMap<T>, beginBlock: int, endBlock: int)
      requires items == [] && begin != end && begin.Valid() && begin.offset == end.offset && IsPow2(m.Length)
      requires MIN_CAPACITY <= m.Length
      requires 0 <= beginBlock == endBlock < m.Length && forall k :: 0 <= k < m.Length ==> m[k] == null
      modifies this`d, this`blocks, begin`block, end`block, m
      ensures Stored() && d == m && begin.block == beginBlock && end.block == endBlock
      ensures forall b :: b in blocks ==> b in old(blocks) || fresh(b)
    {
      begin.block, end.block := beginBlock, endBlock;
      d := m;
      NewBlock(beginBlock);
    }

    /** The used blocks move to the new map, or it gets its first one. */
    method MoveWindow(m: BlockMap<T>, beginBlock: int, endBlock: int)
      requires (Unused() || NoBlocks() || (items != [] && Stored())) && IsPow2(m.Length) && MIN_CAPACITY <= m.Length
      requires 0 <= beginBlock && endBlock == beginBlock + end.block - begin.block < m.Length
      requires m != d && (forall b :: b in blocks ==> b as object != m)
      requires forall k :: 0 <= k < m.Length ==> m[k] == null
      modifies this`d, this`blocks, begin`block, end`block, m
      ensures Stored() && d == m && begin.block == beginBlock && end.block == endBlock
      ensures forall b :: b in blocks ==> b in old(blocks) || fresh(b)
    {
      hide Slots;
      WindowFacts();
      if d.Length != 0 && end.Minus(begin) != 0 {
        BlocksKnown();
        MoveBlocks(m, begin.block, end.block, beginBlock);
        AdoptMap(m, beginBlock, endBlock);
      } else {
        FirstBlock(m, beginBlock, endBlock);
      }
    }

    /** reallocate_block_storage(c, add_at_front).  The original moves the window without looking where it lands.  A
        first map must be larger than c, or the offset wraps; a further one always holds the window if the blocks go
        behind it, and exactly under this bound if they go in front. */
    method ReallocateBlockStorage(c: nat, addAtFront: bool) returns (fits: bool, ghost cap: nat)
      requires (Unused() || NoBlocks() || (items != [] && Stored())) && c > 0 && (addAtFront ==> items != [])
      modifies this`d, this`blocks, begin`block, end`block
      ensures Capacity(cap, old(d).Length + c)
      ensures fits <==> if old(d).Length == 0 then c < cap else addAtFront ==>
          old(begin.block) + old(end.block) + c <= cap
      ensures fits ==>
                Stored() && fresh(d) && d.Length == cap && begin.Pos() - old(begin.Pos()) == end.Pos() - old(end.Pos())
      ensures fits ==>
                begin.block
                == old(begin.block) + (cap - (old(end.block) - old(begin.block) + 1) - c) / 2
                   + if addAtFront then c else 0
      ensures forall b :: b in blocks ==> b in old(blocks) || fresh(b)
    {
      hide Slots;
      WindowFacts();
      var m := AllocBlockStorage(c);
      cap := m.Length;
      var lo, hi := begin.block, end.block;
      if m.Length < (hi - lo + 1) + c {
        return false, cap;
      }
      if d.Length != 0 { Doubles(d.Length, cap, c); }
      Shift(cap, lo, hi, c);
      var midOffset := (m.Length - (hi - lo + 1) - c) / 2;
      var beginBlock, endBlock := lo + midOffset, hi + midOffset;
      if addAtFront {
        beginBlock, endBlock := beginBlock + c, endBlock + c;
      }
      fits := endBlock < m.Length;
      if !fits {
        return;
      }
      MoveWindow(m, beginBlock, endBlock);
    }

    /** One more block beside the constructed ones lo..hi, if there are any. */
    method AddBlock(k: int, ghost lo: int, ghost hi: int)
      requires 0 <= k < d.Length && Window()
      modifies this`blocks, d
      ensures old(Built(lo, hi)) && (k == hi + 1 || k == lo - 1) ==>
                Built(if k < lo then k else lo, if k < lo then hi else k)
      ensures d[k] != null && forall j :: 0 <= j < d.Length && j != k ==> d[j] == old(d[j])
      ensures forall b :: b in blocks ==> b in old(blocks) || fresh(b)
    {
      NewBlock(k);
    }

    /** construct_at(++it) from the end on, or construct_at(--it) from the begin on, n times; the original does not look
        whether it leaves the map. */
    method AddBlocks(n: nat, front: bool) returns (inside: bool)
      requires NoBlocks() || Stored()
      modifies this`blocks, d
      ensures inside <==> if front then n <= begin.block else end.block + n < d.Length
      ensures inside && old(Stored()) ==>
                Built(if front then begin.block - n else begin.block, if front then end.block else end.block + n)
      ensures inside && old(NoBlocks()) && !front ==>
                forall k :: 0 <= k < d.Length ==> (d[k] != null <==> end.block < k <= end.block + n)
      ensures forall b :: b in blocks ==> b in old(blocks) || fresh(b)
    {
      hide Slots;
      var it, i := if front then begin.block else end.block, 0;
      while i < n
        invariant 0 <= i <= n && it == (if front then begin.block - i else end.block + i) && 0 <= it < d.Length
        invariant Window() && (forall b :: b in blocks ==> b in old(blocks) || fresh(b))
        invariant old(Stored()) ==> Built(if front then it else begin.block, if front then end.block else it)
        invariant old(NoBlocks()) && !front ==>
                  forall k :: 0 <= k < d.Length ==> (d[k] != null <==> end.block < k <= end.block + i)
      {
        it := if front then it - 1 else it + 1;
        if it < 0 || it >= d.Length {
          return false;
        }
        AddBlock(it, if front then it + 1 else begin.block, if front then end.block else it - 1);
        i := i + 1;
      }
      inside := true;
    }

    /** The part of reserve_at_back that reallocates: c blocks then go behind the end, or, in an empty deque, c - 1. */
    method GrowAtBack(c: nat) returns (inside: bool, ghost cap: nat)
      requires (Unused() || NoBlocks() || (items != [] && Stored())) && c > 0
      modifies this`d, this`blocks, begin`block, end`block
      ensures IsPow2(cap) && old(d).Length + c <= cap && 16 <= cap && (cap == 16 || cap < 2 * (old(d).Length + c))
      ensures inside ==> fresh(d) && d.Length == cap
      ensures inside <==> if old(d).Length == 0 then c < cap
                          else old(begin.block) + old(end.block) + c <= cap + if items == [] then 2 else 0
      ensures inside ==> begin.Pos() - old(begin.Pos()) == end.Pos() - old(end.Pos())
      ensures inside ==> begin.block == old(begin.block) + (cap - (old(end.block) - old(begin.block) + 1) - c) / 2
      ensures inside ==> Built(begin.block, end.block + if items == [] then c - 1 else c)
      ensures forall b :: b in blocks ==> b in old(blocks) || fresh(b)
    {
      hide Slots;
      WindowFacts();
      ghost var lo, hi := begin.block, end.block;
      inside, cap := ReallocateBlockStorage(c, false);
      if !inside {
        return;
      }
      Shift(cap, lo, hi, c);
      inside := AddBlocks(if end.Minus(begin) == 0 then c - 1 else c, false);
    }

    /** reserve_at_back(count): k is the block_count that the code computes, added how many of them it constructs, cap
        the capacity of the new map if it grows.  They are inside the map under these bounds, and else the original
        writes beyond it. */
    method ReserveAtBack(count: nat)
      returns (inside: bool, ghost grows: bool, ghost k: nat, ghost added: nat, ghost cap: nat)
      requires (Unused() || NoBlocks() || (items != [] && Stored())) && count > 0
      modifies this`d, this`blocks, begin`block, end`block, d
      // the number of blocks
      ensures grows <==> old(d).Length == 0 || count >= (old(d).Length - old(end.block)) * 16 - old(end.offset)
      ensures old(d).Length == 0 ==> k == count / 16 + 1
      ensures old(d).Length != 0 && count < 16 - old(end.offset) ==> k == 0
      ensures !grows && count >= 16 - old(end.offset) ==> k == count / 16 + 1
      ensures grows && old(d).Length != 0 ==>
                k == (count - ((old(d).Length - old(end.block)) * 16 - old(end.offset))) / 16 + 1
      ensures added == if items == [] && k > 0 then k - 1 else k
      // the map
      ensures !grows ==> d == old(d) && begin.block == old(begin.block) && end.block == old(end.block)
      ensures !grows ==> (inside <==> end.block + added < d.Length)
      ensures grows ==>
                IsPow2(cap) && old(d).Length + k <= cap && 16 <= cap && (cap == 16 || cap < 2 * (old(d).Length + k))
      ensures grows && inside ==> fresh(d) && d.Length == cap
      ensures grows ==> (inside <==> if old(d).Length == 0 then k < cap
                                     else old(begin.block) + old(end.block) + k <= cap + if items == [] then 2 else 0)
      ensures inside ==> begin.Pos() - old(begin.Pos()) == end.Pos() - old(end.Pos())
      ensures inside && grows ==>
                begin.block == old(begin.block) + (cap - (old(end.block) - old(begin.block) + 1) - k) / 2
      // the constructed blocks
      ensures inside && (grows || !old(NoBlocks())) ==> Built(begin.block, end.block + added)
      ensures inside && old(NoBlocks()) && !grows ==>
                forall j :: 0 <= j < d.Length ==> (d[j] != null <==> end.block < j <= end.block + added)
      ensures inside && old(d).Length == 0 ==> Built(begin.block, (end.Pos() + count) / 16)
      ensures inside && items != [] ==>
                ((end.Pos() + count) / 16 <= end.block + added
                 <==> !grows || old(end.block) == old(d).Length - 1)
      ensures inside && items != [] ==>
                ((end.Pos() + count - 1) / 16 <= end.block + added
                 <==> !grows || old(end.block) == old(d).Length - 1
                      || (old(end.block) == old(d).Length - 2 && (old(end.offset) + count) % 16 == 0))
      ensures forall b :: b in blocks ==> b in old(blocks) || fresh(b)
    {
      hide Slots;
      hide Built;
      hide Stored;
      hide IsPow2;
      hide Capacity;
      hide DequeIterator.Pos;
      hide BackGrows;
      hide BackBlocks;
      WindowFacts();
      BackMeans(d.Length, end.block, end.offset, count);
      k, added, cap := BackBlocks(d.Length, end.block, end.offset, count), 0, 0;
      grows := BackGrows(d.Length, end.block, end.offset, count);
      inside := true;
      var n := if d.Length != 0 then BLOCK - end.offset else 0;
      if count >= n {
        n := (d.Length - end.block) * BLOCK - end.offset;
        added := if items == [] then k - 1 else k;
        if count >= n {
          var blockCount := (count - n) / BLOCK + 1;
          assert blockCount == k;
          inside, cap := GrowAtBack(blockCount);
        } else {
          var blockCount := count / BLOCK + if end.Minus(begin) == 0 then 0 else 1;
          assert blockCount == added;
          inside := AddBlocks(blockCount, false);
        }
      }
      PosIs(end);
      BackCovered(old(d).Length, old(end.block), end.offset, count, end.block, end.Pos());
    }

    /** The part of reserve_at_front that reallocates. */
    method GrowAtFront(c: nat) returns (inside: bool, ghost cap: nat)
      requires items != [] && Stored() && c > 0
      modifies this`d, this`blocks, begin`block, end`block
      ensures Capacity(cap, old(d).Length + c) && (inside ==> fresh(d) && d.Length == cap)
      ensures inside <==> old(begin.block) + old(end.block) + c <= cap
      ensures inside ==> begin.Pos() - old(begin.Pos()) == end.Pos() - old(end.Pos())
      ensures inside ==> Built(begin.block - c, end.block)
      ensures inside ==> begin.block == old(begin.block) + (cap - (old(end.block) - old(begin.block) + 1) - c) / 2 + c
      ensures forall b :: b in blocks ==> b in old(blocks) || fresh(b)
    {
      hide Slots;
      WindowFacts();
      ghost var lo, hi := begin.block, end.block;
      inside, cap := ReallocateBlockStorage(c, true);
      if !inside {
        return;
      }
      Shift(cap, lo, hi, c);
      inside := AddBlocks(c, true);
    }

    /** reserve_at_front(count) on a deque with items: grows, k and cap are as above. */
    method ReserveAtFront(count: nat) returns (inside: bool, ghost grows: bool, ghost k: nat, ghost cap: nat)
      requires items != [] && Stored() && count > 0
      modifies this`d, this`blocks, begin`block, end`block, d
      // the number of blocks
      ensures grows <==> count > old(begin.block) * 16 + old(begin.offset)
      ensures count <= old(begin.offset) ==> k == 0
      ensures !grows && count > old(begin.offset) ==> k == (count + 15) / 16
      ensures grows ==> k == (count - (old(begin.block) * 16 + old(begin.offset)) + 15) / 16
      // the map
      ensures !grows ==> d == old(d) && begin.block == old(begin.block) && end.block == old(end.block)
      ensures !grows ==> (inside <==> k <= begin.block)
      ensures grows ==>
                IsPow2(cap) && old(d).Length + k <= cap && 16 <= cap && (cap == 16 || cap < 2 * (old(d).Length + k))
      ensures grows && inside ==> fresh(d) && d.Length == cap
      ensures grows ==> (inside <==> old(begin.block) + old(end.block) + k <= cap)
      ensures inside && grows ==>
                begin.block == old(begin.block) + (cap - (old(end.block) - old(begin.block) + 1) - k) / 2 + k
      // the constructed blocks
      ensures inside ==>
                Built(begin.block - k, end.block) && begin.Pos() - old(begin.Pos()) == end.Pos() - old(end.Pos())
      ensures inside ==> (begin.block - k <= (begin.Pos() - count) / 16 <==> !grows || old(begin.block) == 0)
      ensures forall b :: b in blocks ==> b in old(blocks) || fresh(b)
    {
      hide Slots;
      hide NoBlocks;
      hide Built;
      hide FrontGrows;
      hide FrontBlocks;
      hide CeilBlocks;
      WindowFacts();
      FrontMeans(begin.block, begin.offset, count);
      k, cap := FrontBlocks(begin.block, begin.offset, count), 0;
      grows := FrontGrows(begin.block, begin.offset, count);
      inside := true;
      var n := if d.Length != 0 then begin.offset else 0;
      if count > n {
        n := begin.block * BLOCK + begin.offset;
        if count > n {
          inside, cap := GrowAtFront(CeilBlocks(count - n));
        } else {
          inside := AddBlocks(CeilBlocks(count), true);
        }
      }
      FrontEnough(old(begin.block), begin.offset, count, begin.block);
    }

    lemma {:induction false} InBlocks(x: int, lo: int, hi: int, s: seq<T>, from: int)
      requires Slots(lo, hi, s, from) && lo <= x <= hi
      ensures 0 <= x < d.Length && d[x] != null && d[x] in blocks
    {
    }

    /** reserve_at_back(1) on a map without blocks: the slot at the end then lies in a constructed one exactly if it was
        the last of the map.  No pop leaves the end there (Drained). */
    method ReserveOneForEmptied()
      requires NoBlocks()
      modifies this`d, this`blocks, begin`block, end`block, d
      ensures 0 <= end.block < d.Length && (d[end.block] != null <==> old(end.Pos()) + 1 == old(d).Length * BLOCK)
    {
      hide Slots;
      WindowFacts();
      ghost var len := d.Length;
      var inside;
      ghost var grows, k, added, cap;
      inside, grows, k, added, cap := ReserveAtBack(1);
      if grows {
        Doubles(len, cap, 1);
        InBlocks(end.block, begin.block, end.block + added, items, begin.Pos());
      }
    }

    /** Overwriting one slot with what another item sequence has there, all else being equal. */
    method SetSlot(x: int, y: int, v: Option<T>, ghost lo: int, ghost hi: int, ghost s: seq<T>, ghost from: int,
        ghost s': seq<T>, ghost from': int)
      requires Slots(lo, hi, s, from) && lo <= x <= hi && 0 <= y < BLOCK && v == Held(s', from', x * BLOCK + y)
      requires SameBut(s, from, s', from', x * BLOCK + y)
      modifies d[x]
      ensures Slots(lo, hi, s', from')
    {
      var b := d[x];
      b[y] := v;
      forall k, o | lo <= k <= hi && 0 <= o < BLOCK ensures d[k][o] == Held(s', from', k * BLOCK + o) {
        assert k != x ==> d[k] != d[x];
        if k != x || o != y {
          assert d[k][o] == old(d[k][o]) == Held(s, from, k * BLOCK + o);
          assert k * BLOCK + o != x * BLOCK + y;
        }
      }
    }

    /** construct_at(end_.curr(), v); ++end_ */
    method ConstructBack(v: T)
      requires Built(begin.block, if end.offset + 1 < BLOCK then end.block else end.block + 1)
      modifies this`items, end, d[end.block]
      ensures items == old(items) + [v] && Stored()
    {
      hide Slots;
      hide Held;
      hide SameBut;
      HeldSnoc(items, v, begin.Pos());
      SetSlot(end.block, end.offset, Some(v), begin.block, if end.offset + 1 < BLOCK then end.block else end.block + 1,
              items, begin.Pos(), items + [v], begin.Pos());
      end.Increment();
      items := items + [v];
    }

    /** reserve_at_back(1) as a push calls it: one block at most, and it fits. */
    method ReserveOne()
      requires Valid()
      modifies this`d, this`blocks, begin`block, end`block, d
      ensures old(Drained()) ==> Drained() && d == old(d)
      ensures !old(Drained()) ==> Built(begin.block, if end.offset + 1 < BLOCK then end.block else end.block + 1)
      ensures !old(Drained()) ==> d[end.block] != null && d[end.block] in blocks
      ensures 0 <= end.block < d.Length && begin.Pos() - old(begin.Pos()) == end.Pos() - old(end.Pos())
      ensures old(d).Length != 0 && old(end.Pos()) + 1 < old(d).Length * 16 ==>
                d == old(d) && begin.Pos() == old(begin.Pos())
      ensures old(d).Length == 0 ==> d.Length == 16 && begin.Pos() == 112
      ensures d == old(d) || (fresh(d) && d.Length == if old(d).Length == 0 then 16 else 2 * old(d).Length)
      ensures forall b :: b in blocks ==> b in old(blocks) || fresh(b)
    {
      hide Slots;
      WindowFacts();
      ghost var len, drained := d.Length, Drained();
      var inside;
      ghost var grows, k, added, cap;
      inside, grows, k, added, cap := ReserveAtBack(1);
      if grows { NextCapacity(len, cap); }
      if !drained { InBlocks(end.block, begin.block, end.block + added, items, begin.Pos()); }
    }

    /** emplace(end(), v).  On an emptied deque the slot at the end lies in no constructed block. */
    method EmplaceBack(v: T) returns (ok: bool)
      requires Valid()
      modifies this`d, this`blocks, this`items, begin`block, end, d, blocks
      ensures ok <==> !old(Drained())
      ensures !ok ==> Drained()
      ensures Valid() && items == if ok then old(items) + [v] else []
      ensures old(d).Length != 0 && old(end.Pos()) + 1 < old(d).Length * 16 ==>
                d == old(d) && begin.Pos() == old(begin.Pos())
      ensures old(d).Length == 0 ==> d.Length == 16 && begin.Pos() == 112
      ensures d == old(d) || (fresh(d) && d.Length == if old(d).Length == 0 then 16 else 2 * old(d).Length)
      ensures forall b :: b in blocks ==> b in old(blocks) || fresh(b)
    {
      hide Slots;
      ReserveOne();
      ok := d[end.block] != null;
      if ok {
        ConstructBack(v);
      }
    }

    /** --begin_; construct_at(begin_.curr(), v) */
    method ConstructFront(v: T)
      requires Built(if begin.offset > 0 then begin.block else begin.block - 1, end.block)
      modifies this`items, begin, d[if begin.offset > 0 then begin.block else begin.block - 1]
      ensures items == [v] + old(items) && Stored()
    {
      hide Slots;
      ghost var lo, from := if begin.offset > 0 then begin.block else begin.block - 1, begin.Pos();
      HeldCons(items, v, from);
      begin.Decrement();
      SetSlot(begin.block, begin.offset, Some(v), lo, end.block, items, from, [v] + items, from - 1);
      items := [v] + items;
    }

    method PrependOne(v: T)
      requires items != [] && Stored()
      modifies this`d, this`blocks, this`items, begin, end`block, d, blocks
      ensures Stored() && items == [v] + old(items)
      ensures d == old(d) || (fresh(d) && d.Length == 2 * old(d).Length)
      ensures forall b :: b in blocks ==> b in old(blocks) || fresh(b)
    {
      hide Slots;
      WindowFacts();
      ghost var len := d.Length;
      var inside;
      ghost var grows, k, cap;
      inside, grows, k, cap := ReserveAtFront(1);
      if grows { Doubles(len, cap, 1); }
      InBlocks(if begin.offset > 0 then begin.block else begin.block - 1, begin.block - k, end.block, items,
          begin.Pos());
      ConstructFront(v);
    }

    /** emplace(begin(), v): on an empty deque begin is end, and the element goes to the back. */
    method EmplaceFront(v: T) returns (ok: bool)
      requires Valid()
      modifies this`d, this`blocks, this`items, begin, end, d, blocks
      ensures ok <==> !old(Drained())
      ensures !ok ==> Drained()
      ensures Valid() && items == if ok then [v] + old(items) else []
      ensures d == old(d) || (fresh(d) && d.Length == if old(d).Length == 0 then 16 else 2 * old(d).Length)
      ensures forall b :: b in blocks ==> b in old(blocks) || fresh(b)
    {
      if begin.Same(end) {
        ok := EmplaceBack(v);
      } else {
        PrependOne(v);
        ok := true;
      }
    }

    /** destroy(first, last) on the blocks a to b - 1, at one end of the constructed ones or all of them. */
    method DestroyBlocks(a: int, b: int, ghost lo: int, ghost hi: int, ghost s: seq<T>, ghost from: int)
      requires Slots(lo, hi, s, from) && lo <= a <= b <= hi + 1 && (a == lo || b == hi + 1)
      modifies d
      ensures a == lo && b <= hi ==> Slots(b, hi, s, from)
      ensures lo < a ==> Slots(lo, if b == hi + 1 then a - 1 else hi, s, from)
      ensures a == lo && b == hi + 1 ==> forall k :: 0 <= k < d.Length ==> d[k] == null
    {
      var k := a;
      while k < b
        invariant a <= k <= b
        invariant forall j :: 0 <= j < d.Length ==> d[j] == if a <= j < k then null else old(d[j])
      {
        d[k] := null;
        k := k + 1;
      }
    }

    /** erase of the last element: its slot and the blocks behind the new end go. */
    method EraseLast(first: DequeIterator)
      requires items != [] && Stored() && first != begin && first != end && first.Valid()
      requires first.Pos() == end.Pos() - 1
      modifies this`items, end, d, blocks
      ensures Valid() && items == old(items)[..|old(items)| - 1] && (Drained() <==> items == [])
    {
      hide Slots;
      hide Held;
      hide SameBut;
      ghost var n, v, lo, hi, from := |items| - 1, items[|items| - 1], begin.block, end.block, begin.Pos();
      ghost var s := items[..n];
      assert s + [v] == items;
      HeldSnoc(s, v, from);
      assert begin.block <= first.block <= end.block;
      InBlocks(first.block, lo, hi, items, from);
      SetSlot(first.block, first.offset, None, lo, hi, items, from, s, from);
      assert first.Same(begin) <==> s == [];
      DestroyBlocks(if first.Same(begin) then first.block else first.block + 1, end.block + 1, lo, hi, s, from);
      end.block, end.offset := first.block, first.offset;
      items := s;
      assert Window();
      assert s == [] || Built(lo, end.block);
    }

    /** pop_back(): erase(end() - 1) */
    method PopBack()
      requires Valid() && items != []
      modifies this`items, end, d, blocks
      ensures Valid() && items == old(items)[..|old(items)| - 1] && (Drained() <==> items == [])
    {
      var first := new DequeIterator(end.block, end.offset);
      first.Subtract(1);
      EraseLast(first);
    }

    /** erase of the first of several elements: its slot and the blocks before the new begin go. */
    method EraseFirst(last: DequeIterator)
      requires |items| > 1 && Stored() && last != begin && last != end && last.Valid() && last.Pos() == begin.Pos() + 1
      modifies this`items, begin, d, blocks
      ensures Valid() && items == old(items)[1..] && begin.Pos() == old(begin.Pos()) + 1
    {
      hide Slots;
      hide Held;
      hide SameBut;
      ghost var v, lo, hi, from, s := items[0], begin.block, end.block, begin.Pos(), items[1..];
      assert [v] + s == items;
      HeldCons(s, v, from + 1);
      assert begin.block <= last.block <= end.block;
      InBlocks(begin.block, lo, hi, items, from);
      SetSlot(begin.block, begin.offset, None, lo, hi, items, from, s, from + 1);
      DestroyBlocks(begin.block, last.block, lo, hi, s, from + 1);
      begin.block, begin.offset := last.block, last.offset;
      items := s;
    }

    /** pop_front(): erase(begin()) */
    method PopFront()
      requires Valid() && items != []
      modifies this`items, begin, end, d, blocks
      ensures Valid() && items == old(items)[1..] && (Drained() <==> items == [])
      ensures d == old(d) && (items != [] ==> begin.Pos() == old(begin.Pos()) + 1 && end.Pos() == old(end.Pos()))
      ensures forall b :: b in blocks ==> b in old(blocks)
    {
      var first := new DequeIterator(begin.block, begin.offset);
      var last := new DequeIterator(begin.block, begin.offset);
      last.Add(1);
      if last.Same(end) {
        EraseLast(first);
      } else {
        EraseFirst(last);
      }
    }
  }

  datatype Op<T> = PushBack(v: T) | PushFront(v: T) | PopBack | PopFront

  /** The sequence a run should leave. */
  function Effect<T>(s: seq<T>, op: Op<T>): seq<T> {
    match op
    case PushBack(v) => s + [v]
    case PushFront(v) => [v] + s
    case PopBack => if s != [] then s[..|s| - 1] else s
    case PopFront => if s != [] then s[1..] else s
  }

  function Result<T>(ops: seq<Op<T>>): seq<T> {
    if ops == [] then [] else Effect(Result(ops[..|ops| - 1]), ops[|ops| - 1])
  }

  predicate Push<T>(op: Op<T>) {
    op.PushBack? || op.PushFront?
  }

  predicate Pushes<T>(ops: seq<Op<T>>, n: nat)
    requires n <= |ops|
  {
    exists i :: 0 <= i < n && Push(ops[i])
  }

  /** Operation i is a push, but pops have taken all that was pushed before. */
  predicate Refills<T>(ops: seq<Op<T>>, i: nat)
    requires i < |ops|
  {
    Push(ops[i]) && Result(ops[..i]) == [] && Pushes(ops, i)
  }

  lemma {:induction false} NextResult<T>(ops: seq<Op<T>>, n: nat)
    requires n < |ops|
    ensures Result(ops[..n + 1]) == Effect(Result(ops[..n]), ops[n])
    ensures Pushes(ops, n + 1) <==> Pushes(ops, n) || Push(ops[n])
  {
    assert ops[..n + 1][..n] == ops[..n];
  }

  lemma {:induction false} EmptyRun<T>(ops: seq<Op<T>>)
    ensures Result(ops[..0]) == [] && !Pushes(ops, 0)
  {
  }

  method RunStep<T>(q: Deque<T>, op: Op<T>) returns (ok: bool)
    requires q.Valid()
    modifies q, q.begin, q.end, q.d, q.blocks
    ensures ok ==> Push(op) ==> old(q.items) != [] || old(q.Unused())
    ensures !ok ==> Push(op) && old(q.items) == [] && !old(q.Unused())
    ensures q.Valid() && q.items == if ok then Effect(old(q.items), op) else []
    ensures q.d == old(q.d) || fresh(q.d)
    ensures q.Unused() <==> old(q.Unused()) && !Push(op)
    ensures !ok ==> q.Drained()
    ensures forall b :: b in q.blocks ==> b in old(q.blocks) || fresh(b)
  {
    ok := true;
    match op {
      case PushBack(v) => ok := q.EmplaceBack(v);
      case PushFront(v) => ok := q.EmplaceFront(v);
      case PopBack => var n := q.Size(); if n > 0 { q.PopBack(); }
      case PopFront => var n := q.Size(); if n > 0 { q.PopFront(); }
    }
  }

  /** Any run of pushes and pops at both ends, pops of an empty deque being left out: it gets through exactly if no push
      comes after the deque has been emptied.  The first such push finds no constructed block. */
  method RunOnFresh<T>(ops: seq<Op<T>>) returns (q: Deque<T>, done: nat)
    ensures fresh(q) && q.Valid() && done <= |ops| && q.items == Result(ops[..done])
    ensures forall i :: 0 <= i < done ==> !Refills(ops, i)
    ensures done < |ops| ==> Refills(ops, done) && q.Drained()
  {
    hide Deque.Valid;
    hide Deque.Unused;
    hide Deque.Drained;
    hide Result;
    hide Push;
    hide Pushes;
    q := new Deque<T>();
    done := 0;
    EmptyRun(ops);
    while done < |ops|
      invariant done <= |ops| && fresh(q) && fresh(q.d) && fresh(q.begin) && fresh(q.end) && fresh(q.blocks)
      invariant q.Valid() && q.items == Result(ops[..done])
      invariant q.Unused() <==> !Pushes(ops, done)
      invariant forall i :: 0 <= i < done ==> !Refills(ops, i)
    {
      NextResult(ops, done);
      var ok := RunStep(q, ops[done]);
      if !ok {
        return;
      }
      done := done + 1;
    }
  }

  /** A deque with one element, at offset 0 of block 7 and n further on. */
  method OneElement<T>(v: T, n: nat) returns (q: Deque<T>)
    requires n <= 4 * BLOCK
    ensures fresh(q) && fresh(q.d) && fresh(q.begin) && fresh(q.end) && fresh(q.blocks)
    ensures |q.items| == 1 && q.Stored() && q.d.Length == MIN_CAPACITY
    ensures q.begin.Pos() == 7 * BLOCK + n && q.end.Pos() == q.begin.Pos() + 1
  {
    q := new Deque<T>();
    var ok := q.EmplaceBack(v);
    var i := 0;
    while i < n
      invariant i <= n && fresh(q) && fresh(q.d) && fresh(q.begin) && fresh(q.end) && fresh(q.blocks)
      invariant q.Valid() && |q.items| == 1 && q.d.Length == MIN_CAPACITY && q.begin.Pos() == 7 * BLOCK + i
    {
      ok := q.EmplaceBack(v);
      q.PopFront();
      i := i + 1;
    }
  }

  /** A push after the deque has been emptied. */
  method PushAfterEmptying<T>(v: T) returns (q: Deque<T>, ok: bool)
    ensures !ok && q.Drained()
  {
    hide Deque.Stored;
    hide Deque.NoBlocks;
    q := OneElement(v, 0);
    q.PopBack();
    ok := q.EmplaceBack(v);
  }

  lemma {:induction false} PowersOfTwo(n: int)
    ensures Capacity(n, 16) ==> n == 16
    ensures Capacity(n, 128) ==> n == 128
  {
    assert Pow2(4) == 16 && Pow2(5) == 32;
    assert Pow2(7) == 128;
    if Capacity(n, 16) && n != 16 { Pow2Gap(16, n); }
    if Capacity(n, 128) && n != 128 { Pow2Gap(128, n); }
  }

  /** A first reservation of as many blocks as the new map has leaves it. */
  method FirstReservation<T>() returns (q: Deque<T>, inside: bool)
    ensures !inside
  {
    ghost var grows, k, added, cap;
    q := new Deque<T>();
    inside, grows, k, added, cap := q.ReserveAtBack(240);
    PowersOfTwo(cap);
  }

  /** So does one that the code takes to need no growth: it constructs one block too many. */
  method SmallReservation<T>(v: T) returns (q: Deque<T>, inside: bool)
    ensures !inside
  {
    ghost var grows, k, added, cap;
    q := OneElement(v, 0);
    inside, grows, k, added, cap := q.ReserveAtBack(130);
  }

  lemma {:induction false} AtBlock<T>(q: Deque<T>)
    requires q.Stored() && q.begin.Pos() == 9 * BLOCK && q.end.Pos() == 9 * BLOCK + 1
    ensures q.begin.block == q.end.block == 9 && q.end.offset == 1
  {
  }

  /** And one after which the window is shifted too far. */
  method ShiftedReservation<T>(v: T) returns (q: Deque<T>, inside: bool)
    ensures !inside
  {
    ghost var grows, k, added, cap;
    q := OneElement(v, 2 * BLOCK);
    AtBlock(q);
    inside, grows, k, added, cap := q.ReserveAtBack(1887);
    PowersOfTwo(cap);
  }

  /** In front too a reservation that the code takes to need no growth can construct one block too many. */
  method SmallReservationInFront<T>(v: T) returns (q: Deque<T>, inside: bool)
    ensures !inside
  {
    ghost var grows, k, cap;
    q := OneElement(v, 2 * BLOCK + 15);
    inside, grows, k, cap := q.ReserveAtFront(159);
  }

  /** Reservations that grow the map and stay in it, but construct too few blocks: one block behind the end, the last
      new element lying further back, and one before the begin, the first new element lying further in front. */
  method TooFewBehind<T>(v: T) returns (q: Deque<T>)
    ensures q.Built(q.begin.block, q.end.block + 1) && q.end.block + 1 < (q.end.Pos() + 143 - 1) / BLOCK
  {
    ghost var grows, k, added, cap;
    q := OneElement(v, 0);
    var inside;
    inside, grows, k, added, cap := q.ReserveAtBack(143);
  }

  method TooFewInFront<T>(v: T) returns (q: Deque<T>)
    ensures q.Built(q.begin.block - 1, q.end.block) && q.begin.block - 1 > (q.begin.Pos() - 113) / BLOCK
  {
    ghost var grows, k, cap;
    q := OneElement(v, 0);
    var inside;
    inside, grows, k, cap := q.ReserveAtFront(113);
  }
}
