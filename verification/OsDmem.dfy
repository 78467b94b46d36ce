/**
  The dynamic memory pool of the port layer: a circular doubly linked list of block
  headers, searched next-fit from a roving pointer, with coalescing on release.
 */
module OsDmem {
  import opened BlockList

  const OVERHEAD: nat := 16
  const WORD: nat := ALIGN
  const U32: nat := 0x1_0000_0000

  /** Round up to a whole number of words, in unsigned 32-bit arithmetic. */
  function RoundUp(size: nat): nat {
    (size + WORD - 1) % U32 / WORD * WORD
  }

  /** The payload size OS_GetMem looks for. */
  function Adjusted(request: nat, least: nat): nat {
    if request < least then least else RoundUp(request)
  }

  /** The round-up yields at least the request exactly when it does not wrap. */
  lemma RoundUpCovers(size: nat)
    requires size < U32
    ensures RoundUp(size) >= size <==> size + WORD - 1 < U32
    ensures RoundUp(size) % WORD == 0
  {
    if size + WORD - 1 >= U32 {
      assert (size + WORD - 1) % U32 == size + WORD - 1 - U32;
    }
  }

  /** The adjusted size is the least whole number of words that covers both bounds. */
  lemma AdjustedLeast(request: nat, least: nat)
    requires request + WORD <= U32 && least % WORD == 0
    ensures request <= Adjusted(request, least) && least <= Adjusted(request, least)
    ensures Adjusted(request, least) % WORD == 0
    ensures Adjusted(request, least) == least || Adjusted(request, least) < request + WORD
  {
  }

  /** A free block is passed over exactly if it is too small for the request or for the pool's
      minimum. */
  lemma PassedOver(b: Block, request: nat, least: nat)
    requires request + WORD <= U32 && least % WORD == 0 && b.size % WORD == 0
    ensures Fits(b, Adjusted(request, least), OVERHEAD) <==>
              b.free && b.size - OVERHEAD >= request && b.size - OVERHEAD >= least
  {
    AdjustedLeast(request, least);
  }

  /** Block `i` is the first that fits, walking the circle from index `from`. */
  ghost predicate NextFit(bs: seq<Block>, from: nat, i: nat, size: nat) {
    && i < |bs|
    && Fits(bs[i], size, OVERHEAD)
    && (if from <= i then NoneFits(bs, from, i, size, OVERHEAD)
        else NoneFits(bs, from, |bs|, size, OVERHEAD) && NoneFits(bs, 0, i, size, OVERHEAD))
  }

  /** The headers form a circle through the blocks and the trailer at `hi`. */
  ghost predicate Ring(mem: Memory, bs: seq<Block>, lo: int, hi: int) {
    && Tiles(bs, lo, hi, OVERHEAD)
    && Linked(mem, bs)
    && lo in mem && mem[lo].prev == hi
    && hi in mem && mem[hi] == Header(lo, bs[|bs| - 1].addr, false)
  }

  lemma AddrsDiffer(mem: Memory, bs: seq<Block>, lo: int, hi: int, i: nat, j: nat)
    requires Ring(mem, bs, lo, hi) && i < j <= |bs|
    ensures AddrAt(bs, hi, i) < AddrAt(bs, hi, j)
  {
    InRange(bs, lo, hi, OVERHEAD, i);
    if j < |bs| {
      Ordered(bs, lo, hi, OVERHEAD, i, j);
    }
  }

  /** Following `next` from place `i` of the circle. */
  lemma NextOf(mem: Memory, bs: seq<Block>, lo: int, hi: int, i: nat)
    requires Ring(mem, bs, lo, hi) && i <= |bs|
    ensures AddrAt(bs, hi, i) in mem
    ensures mem[AddrAt(bs, hi, i)].next == if i < |bs| then AddrAt(bs, hi, i + 1) else lo
    ensures mem[AddrAt(bs, hi, i)].free == (i < |bs| && bs[i].free)
    ensures mem[AddrAt(bs, hi, i)].prev == if i == 0 then hi else bs[i - 1].addr
    ensures i < |bs| ==> bs[i].addr + bs[i].size == AddrAt(bs, hi, i + 1)
  {
    if i < |bs| {
      assert LinkedAt(mem, bs, i) && TileAt(bs, hi, OVERHEAD, i);
    }
  }

  lemma SplitRing(mem: Memory, mem': Memory, bs: seq<Block>, lo: int, hi: int, i: nat, k: int)
    requires Ring(mem, bs, lo, hi) && i < |bs|
    requires OVERHEAD <= k <= bs[i].size - OVERHEAD
    requires bs[i].addr in mem && bs[i].addr + bs[i].size in mem
    requires var p, e := bs[i].addr, bs[i].addr + bs[i].size;
             mem' == mem[p + k := Header(e, p, true)][e := mem[e].(prev := p + k)][p := mem[p].(next := p + k)]
    ensures Ring(mem', SplitAt(bs, i, k), lo, hi)
  {
    NextOf(mem, bs, lo, hi, i);
    NextOf(mem, bs, lo, hi, i + 1);
    AddrsDiffer(mem, bs, lo, hi, i, i + 1);
    if i > 0 {
      AddrsDiffer(mem, bs, lo, hi, 0, i);
    }
    if i + 1 < |bs| {
      AddrsDiffer(mem, bs, lo, hi, i + 1, |bs|);
    }
    SplitTiles(bs, i, k, lo, hi, OVERHEAD);
    SplitLinked(mem, mem', bs, i, k, lo, hi, OVERHEAD);
  }

  lemma MergeRing(mem: Memory, mem': Memory, bs: seq<Block>, lo: int, hi: int, i: nat)
    requires Ring(mem, bs, lo, hi) && i + 1 < |bs|
    requires bs[i].addr in mem && bs[i + 1].addr + bs[i + 1].size in mem
    requires var p, e := bs[i].addr, bs[i + 1].addr + bs[i + 1].size;
             mem' == mem[e := mem[e].(prev := p)][p := mem[p].(next := e)]
    ensures Ring(mem', MergeAt(bs, i), lo, hi)
  {
    NextOf(mem, bs, lo, hi, i);
    NextOf(mem, bs, lo, hi, i + 1);
    NextOf(mem, bs, lo, hi, i + 2);
    AddrsDiffer(mem, bs, lo, hi, i, i + 1);
    AddrsDiffer(mem, bs, lo, hi, i + 1, i + 2);
    if i > 0 {
      AddrsDiffer(mem, bs, lo, hi, 0, i);
    }
    if i + 2 < |bs| {
      AddrsDiffer(mem, bs, lo, hi, i + 2, |bs|);
    }
    MergeTiles(bs, i, lo, hi, OVERHEAD);
    MergeLinked(mem, mem', bs, i, lo, hi, OVERHEAD);
  }

  lemma MarkRing(mem: Memory, mem': Memory, bs: seq<Block>, lo: int, hi: int, i: nat, free: bool)
    requires Ring(mem, bs, lo, hi) && i < |bs| && bs[i].addr in mem
    requires mem' == mem[bs[i].addr := mem[bs[i].addr].(free := free)]
    ensures Ring(mem', Mark(bs, i, free), lo, hi)
  {
    AddrsDiffer(mem, bs, lo, hi, i, |bs|);
    MarkTiles(bs, i, free, lo, hi, OVERHEAD);
    MarkLinked(mem, mem', bs, i, free, lo, hi, OVERHEAD);
  }

  class Pool {
    var mem: Memory
    var start: int
    var poolSize: nat
    var minAllocation: nat
    var available: int
    var searchPtr: int
    ghost var blocks: seq<Block>
    ghost var at: nat  // the search pointer's place in the circle; |blocks| is the trailer

    ghost function End(): int
      reads this
    {
      start + poolSize - OVERHEAD
    }

    ghost predicate Valid()
      reads this
    {
      && 0 < minAllocation && minAllocation % WORD == 0 && Whole(blocks)
      && poolSize + OVERHEAD + minAllocation < U32
      && Ring(mem, blocks, start, End())
      && Coalesced(blocks)
      && available == FreeBytes(blocks, OVERHEAD)
      && at <= |blocks| && searchPtr == AddrAt(blocks, End(), at)
    }

    /** OS_Create_Memory_Pool.  A pool too small for its two headers is made all the same, and
        its count of available bytes wraps round to more than the pool has. */
    constructor Create(address: int, size: nat, least: nat)
      requires 0 < least && size + OVERHEAD + least + WORD < U32
      ensures start == address && poolSize == size / WORD * WORD
      ensures least <= minAllocation < least + WORD && minAllocation % WORD == 0
      ensures 2 * OVERHEAD <= poolSize ==>
                && Valid() && available == poolSize - 2 * OVERHEAD
                && blocks == [Block(address, poolSize - OVERHEAD, true)]
      ensures poolSize < 2 * OVERHEAD ==> available == U32 + poolSize - 2 * OVERHEAD && available > poolSize
    {
      start := address;
      var pool := size / WORD * WORD;
      poolSize := pool;
      minAllocation := (least + WORD - 1) / WORD * WORD;
      available := if pool >= 2 * OVERHEAD then pool - 2 * OVERHEAD else U32 + pool - 2 * OVERHEAD;
      searchPtr := address;
      var trailer := address + (pool - 2 * OVERHEAD) + OVERHEAD;
      mem := map[address := Header(trailer, trailer, true)][trailer := Header(address, address, false)];
      blocks := [Block(address, pool - OVERHEAD, true)];
      at := 0;
      new;
      if 2 * OVERHEAD <= poolSize {
        FreeBytesOne(blocks[0], OVERHEAD);
        assert LinkedAt(mem, blocks, 0) && TileAt(blocks, End(), OVERHEAD, 0);
      }
    }

    /** The search loop of OS_GetMem. */
    method Search(size: nat) returns (p: int, freeSize: int, ghost i: nat)
      requires Valid() && 0 < size
      ensures freeSize < size ==> NoneFits(blocks, 0, |blocks|, size, OVERHEAD)
      ensures freeSize >= size ==>
                NextFit(blocks, at, i, size) && p == blocks[i].addr && freeSize == blocks[i].size - OVERHEAD
    {
      p, i, freeSize := searchPtr, at, 0;
      ghost var wrapped := false;
      var searching := true;
      while searching
        invariant i <= |blocks| && p == AddrAt(blocks, End(), i)
        invariant searching && !wrapped ==> at <= i && NoneFits(blocks, at, i, size, OVERHEAD)
        invariant searching && wrapped ==>
                    i < at && NoneFits(blocks, at, |blocks|, size, OVERHEAD) && NoneFits(blocks, 0, i, size, OVERHEAD)
        invariant !searching && freeSize < size ==> NoneFits(blocks, 0, |blocks|, size, OVERHEAD)
        invariant !searching && freeSize >= size ==>
                    NextFit(blocks, at, i, size) && freeSize == blocks[i].size - OVERHEAD
        decreases searching, if wrapped then at - i else |blocks| + 1 + at - i
      {
        NextOf(mem, blocks, start, End(), i);
        freeSize := if mem[p].free then mem[p].next - p - OVERHEAD else 0;
        if freeSize < size {
          p := mem[p].next;
          if i < |blocks| {
            i := i + 1;
          } else {
            i, wrapped := 0, true;
          }
          if i < at {
            AddrsDiffer(mem, blocks, start, End(), i, at);
          } else if at < i {
            AddrsDiffer(mem, blocks, start, End(), at, i);
          }
        }
        searching := freeSize < size && p != searchPtr;
      }
    }

    /** Link a new header in after `k` bytes of the block at `p`. */
    method Split(p: int, k: nat, ghost i: nat)
      requires Ring(mem, blocks, start, End()) && i < |blocks| && p == blocks[i].addr
      requires OVERHEAD <= k <= blocks[i].size - OVERHEAD
      modifies this`mem, this`blocks
      ensures Ring(mem, blocks, start, End()) && blocks == SplitAt(old(blocks), i, k)
    {
      NextOf(mem, blocks, start, End(), i);
      NextOf(mem, blocks, start, End(), i + 1);
      ghost var before := mem;
      var q, e := p + k, mem[p].next;
      mem := mem[q := Header(e, p, true)];
      mem := mem[e := mem[e].(prev := q)];
      mem := mem[p := mem[p].(next := q)];
      SplitRing(before, mem, blocks, start, End(), i, k);
      blocks := SplitAt(blocks, i, k);
    }

    /** Drop the header after `p`: the two blocks become one. */
    method MergeWithNext(p: int, ghost i: nat)
      requires Ring(mem, blocks, start, End()) && i + 1 < |blocks| && p == blocks[i].addr
      modifies this`mem, this`blocks
      ensures Ring(mem, blocks, start, End()) && blocks == MergeAt(old(blocks), i)
    {
      NextOf(mem, blocks, start, End(), i);
      NextOf(mem, blocks, start, End(), i + 1);
      NextOf(mem, blocks, start, End(), i + 2);
      AddrsDiffer(mem, blocks, start, End(), i, i + 2);
      ghost var before := mem;
      var e := mem[mem[p].next].next;
      mem := mem[e := mem[e].(prev := p)];
      mem := mem[p := mem[p].(next := e)];
      MergeRing(before, mem, blocks, start, End(), i);
      blocks := MergeAt(blocks, i);
    }

    method SetFree(p: int, free: bool, ghost i: nat)
      requires Ring(mem, blocks, start, End()) && i < |blocks| && p == blocks[i].addr
      modifies this`mem, this`blocks
      ensures Ring(mem, blocks, start, End()) && blocks == Mark(old(blocks), i, free)
    {
      NextOf(mem, blocks, start, End(), i);
      ghost var before := mem;
      mem := mem[p := mem[p].(free := free)];
      MarkRing(before, mem, blocks, start, End(), i, free);
      blocks := Mark(blocks, i, free);
    }

    /** Hand out block `i`: split it when the remainder is worth keeping. */
    method Take(p: int, freeSize: nat, size: nat, ghost i: nat)
      requires Valid() && i < |blocks| && p == blocks[i].addr
      requires Fits(blocks[i], size, OVERHEAD) && freeSize == blocks[i].size - OVERHEAD
      modifies this`mem, this`blocks, this`available, this`at
      ensures Ring(mem, blocks, start, End()) && available == FreeBytes(blocks, OVERHEAD)
      ensures blocks == Allocated(old(blocks), i, size + OVERHEAD, OVERHEAD, minAllocation)
      ensures at <= |blocks| && searchPtr == AddrAt(blocks, End(), at)
    {
      ghost var before := blocks;
      FreeBytesAllocated(blocks, i, size + OVERHEAD, OVERHEAD, minAllocation);
      AllocatedSplitFirst(blocks, i, size + OVERHEAD);
      if freeSize >= size + OVERHEAD + minAllocation {
        Split(p, size + OVERHEAD, i);
        available := available - size - OVERHEAD;
        if at > i { at := at + 1; }
      } else {
        available := available - freeSize;
      }
      SetFree(p, false, i);
    }

    /** The search pointer leaves a block that has just been handed out. */
    method MoveOn(p: int, ghost i: nat)
      requires Ring(mem, blocks, start, End()) && i < |blocks| && p == blocks[i].addr
      requires at <= |blocks| && searchPtr == AddrAt(blocks, End(), at)
      modifies this`searchPtr, this`at
      ensures at <= |blocks| && searchPtr == AddrAt(blocks, End(), at)
      ensures at == old(at) + if old(at) == i then 1 else 0
      ensures searchPtr == if old(searchPtr) == p then p + blocks[i].size else old(searchPtr)
    {
      if i < at {
        AddrsDiffer(mem, blocks, start, End(), i, at);
      } else if at < i {
        AddrsDiffer(mem, blocks, start, End(), at, i);
      }
      if searchPtr == p {
        NextOf(mem, blocks, start, End(), at);
        searchPtr, at := mem[p].next, at + 1;
      }
    }

    /** Hand out block `i` and see to the search pointer. */
    method Grant(p: int, freeSize: nat, size: nat, ghost i: nat)
      requires Valid() && i < |blocks| && p == blocks[i].addr
      requires Fits(blocks[i], size, OVERHEAD) && freeSize == blocks[i].size - OVERHEAD && size % WORD == 0
      modifies this`mem, this`blocks, this`available, this`searchPtr, this`at
      ensures Valid() && blocks == Allocated(old(blocks), i, size + OVERHEAD, OVERHEAD, minAllocation)
      ensures i < |blocks|
      ensures searchPtr == if old(searchPtr) == p then p + blocks[i].size else old(searchPtr)
    {
      AllocatedAt(blocks, i, size + OVERHEAD, OVERHEAD, minAllocation);
      AllocatedKeepsHeap(blocks, i, size + OVERHEAD, start, End(), OVERHEAD, minAllocation);
      AllocatedWhole(blocks, i, size + OVERHEAD, OVERHEAD, minAllocation);
      Take(p, freeSize, size, i);
      MoveOn(p, i);
    }

    /** OS_GetMem: a block that holds the request, the first such from the search pointer on, or a
        refusal exactly when no free block holds it. */
    method GetMem(request: nat) returns (ok: bool, ptr: int, ghost i: nat)
      requires Valid() && request + WORD <= U32
      modifies this
      ensures Valid()
      ensures start == old(start) && poolSize == old(poolSize) && minAllocation == old(minAllocation)
      ensures ok ==>
                && i < |old(blocks)| && old(blocks)[i].free && ptr == old(blocks)[i].addr + OVERHEAD
                && blocks == Allocated(old(blocks), i, Adjusted(request, minAllocation) + OVERHEAD,
                                       OVERHEAD, minAllocation)
      // The block granted holds the request, and wastes less than a word and a block worth keeping.
      ensures ok ==>
                && i < |blocks| && !blocks[i].free && blocks[i].addr == ptr - OVERHEAD
                && request <= blocks[i].size - OVERHEAD && minAllocation <= blocks[i].size - OVERHEAD
                && blocks[i].size - OVERHEAD <
                   (if request < minAllocation then minAllocation + 1 else request + WORD) + OVERHEAD + minAllocation
      // The search goes on behind a block it stood on.
      ensures ok ==> searchPtr == if old(searchPtr) == ptr - OVERHEAD
                                  then ptr - OVERHEAD + blocks[i].size else old(searchPtr)
      // No free block on the way there would have done.
      ensures ok ==>
                forall j :: 0 <= j < |old(blocks)| && old(blocks)[j].free &&
                            (if old(at) <= i then old(at) <= j < i else old(at) <= j || j < i) ==>
                  old(blocks)[j].size - OVERHEAD < request || old(blocks)[j].size - OVERHEAD < minAllocation
      ensures !ok ==>
                && blocks == old(blocks) && mem == old(mem)
                && searchPtr == old(searchPtr) && available == old(available)
                && forall j :: 0 <= j < |blocks| && blocks[j].free ==>
                     blocks[j].size - OVERHEAD < request || blocks[j].size - OVERHEAD < minAllocation
    {
      ghost var bs, from := blocks, at;
      ok, ptr, i := Get(request);
      AdjustedLeast(request, minAllocation);
      forall j | 0 <= j < |bs| ensures
        Fits(bs[j], Adjusted(request, minAllocation), OVERHEAD) <==>
          bs[j].free && bs[j].size - OVERHEAD >= request && bs[j].size - OVERHEAD >= minAllocation
      {
        PassedOver(bs[j], request, minAllocation);
      }
      if ok {
        AllocatedAt(bs, i, Adjusted(request, minAllocation) + OVERHEAD, OVERHEAD, minAllocation);
      }
    }

    /** The same in terms of the adjusted size. */
    method Get(request: nat) returns (ok: bool, ptr: int, ghost i: nat)
      requires Valid() && request + WORD <= U32
      modifies this
      ensures Valid()
      ensures start == old(start) && poolSize == old(poolSize) && minAllocation == old(minAllocation)
      ensures var size := Adjusted(request, minAllocation);
              if ok then
                && NextFit(old(blocks), old(at), i, size)
                && ptr == old(blocks)[i].addr + OVERHEAD && i < |blocks|
                && blocks == Allocated(old(blocks), i, size + OVERHEAD, OVERHEAD, minAllocation)
                && searchPtr == (if old(searchPtr) == ptr - OVERHEAD
                                 then ptr - OVERHEAD + blocks[i].size else old(searchPtr))
              else
                && NoneFits(old(blocks), 0, |old(blocks)|, size, OVERHEAD)
                && blocks == old(blocks) && mem == old(mem) && searchPtr == old(searchPtr)
                && available == old(available)
    {
      var size := Adjusted(request, minAllocation);
      AdjustedLeast(request, minAllocation);
      var p, freeSize;
      p, freeSize, i := Search(size);
      ok, ptr := freeSize >= size, 0;
      if ok {
        Grant(p, freeSize, size, i);
        ptr := p + OVERHEAD;
      }
    }

    /** Merge a freed block into a free predecessor and move the search pointer there. */
    method MergeBackward(h: int, ghost i: nat) returns (h': int, ghost i': nat)
      requires Ring(mem, blocks, start, End()) && available == FreeBytes(blocks, OVERHEAD)
      requires at <= |blocks| && searchPtr == AddrAt(blocks, End(), at)
      requires i < |blocks| && h == blocks[i].addr && blocks[i].free
      modifies this`mem, this`blocks, this`available, this`searchPtr, this`at
      ensures Ring(mem, blocks, start, End()) && available == FreeBytes(blocks, OVERHEAD)
      ensures at <= |blocks| && searchPtr == AddrAt(blocks, End(), at)
      ensures i' < |blocks| && h' == blocks[i'].addr && blocks[i'].free
      ensures if i > 0 && old(blocks)[i - 1].free
              then i' + 1 == i && blocks == MergeAt(old(blocks), i - 1) && searchPtr == h'
              else i' == i && blocks == old(blocks) && searchPtr == old(searchPtr)
    {
      NextOf(mem, blocks, start, End(), i);
      NextOf(mem, blocks, start, End(), if i == 0 then |blocks| else i - 1);
      h', i' := h, i;
      if mem[mem[h].prev].free {
        h', i' := mem[h].prev, i - 1;
        MergePair(h', i');
      }
    }

    /** Two adjacent free blocks become one, and the search pointer stands there. */
    method MergePair(h: int, ghost i: nat)
      requires Ring(mem, blocks, start, End()) && available == FreeBytes(blocks, OVERHEAD)
      requires i + 1 < |blocks| && h == blocks[i].addr && blocks[i].free && blocks[i + 1].free
      modifies this`mem, this`blocks, this`available, this`searchPtr, this`at
      ensures Ring(mem, blocks, start, End()) && available == FreeBytes(blocks, OVERHEAD)
      ensures blocks == MergeAt(old(blocks), i) && i < |blocks| && h == blocks[i].addr && blocks[i].free
      ensures at == i && searchPtr == h
    {
      FreeBytesMerge(blocks, i, OVERHEAD);
      available := available + OVERHEAD;
      MergeWithNext(h, i);
      searchPtr, at := h, i;
    }

    method MergeForward(h: int, ghost i: nat)
      requires Ring(mem, blocks, start, End()) && available == FreeBytes(blocks, OVERHEAD)
      requires at <= |blocks| && searchPtr == AddrAt(blocks, End(), at)
      requires i < |blocks| && h == blocks[i].addr && blocks[i].free
      modifies this`mem, this`blocks, this`available, this`searchPtr, this`at
      ensures Ring(mem, blocks, start, End()) && available == FreeBytes(blocks, OVERHEAD)
      ensures at <= |blocks| && searchPtr == AddrAt(blocks, End(), at)
      ensures blocks == MergeNext(old(blocks), i)
      ensures searchPtr == if i + 1 < |old(blocks)| && old(blocks)[i + 1].free then h else old(searchPtr)
    {
      NextOf(mem, blocks, start, End(), i);
      NextOf(mem, blocks, start, End(), i + 1);
      if mem[mem[h].next].free {
        MergePair(h, i);
      }
    }

    /** Mark a block free and return its payload to the count. */
    method MarkFree(h: int, ghost i: nat)
      requires Valid() && i < |blocks| && h == blocks[i].addr && !blocks[i].free
      modifies this`mem, this`blocks, this`available
      ensures Ring(mem, blocks, start, End()) && available == FreeBytes(blocks, OVERHEAD)
      ensures blocks == Mark(old(blocks), i, true) && searchPtr == AddrAt(blocks, End(), at)
    {
      FreeBytesMark(blocks, i, true, OVERHEAD);
      SetFree(h, true, i);
      NextOf(mem, blocks, start, End(), i);
      available := available + (mem[h].next - h) - OVERHEAD;
    }

    /** OS_FreeMem: the block is marked free and merged with its free neighbours. */
    method FreeMem(memory: int)
      requires Valid() && memory - OVERHEAD in UsedAddrs(blocks)
      modifies this
      ensures Valid()
      ensures start == old(start) && poolSize == old(poolSize) && minAllocation == old(minAllocation)
      ensures blocks == Freed(old(blocks), IndexOf(old(blocks), memory - OVERHEAD))
      // The search goes on at the block a merge has made.
      ensures var bs, i := old(blocks), IndexOf(old(blocks), memory - OVERHEAD);
              searchPtr == if i > 0 && bs[i - 1].free then bs[i - 1].addr
                           else if i + 1 < |bs| && bs[i + 1].free then bs[i].addr else old(searchPtr)
    {
      var h := memory - OVERHEAD;
      ghost var i := IndexOf(blocks, h);
      FreedCoalesced(blocks, i);
      FreedEitherOrder(blocks, i);
      FreedWhole(blocks, i);
      MarkFree(h, i);
      h, i := MergeBackward(h, i);
      MergeForward(h, i);
    }

    /** Getting memory and giving it back restores the block list and the byte count. */
    method GetThenFree(request: nat) returns (ok: bool)
      requires Valid() && request + WORD <= U32
      modifies this
      ensures Valid() && blocks == old(blocks) && available == old(available)
    {
      ghost var bs := blocks;
      var ptr;
      ghost var i;
      ok, ptr, i := GetMem(request);
      if ok {
        ghost var span := Adjusted(request, minAllocation) + OVERHEAD;
        assert blocks == Allocated(bs, i, span, OVERHEAD, minAllocation);
        AllocThenFree(bs, i, span, start, End(), OVERHEAD, minAllocation);
        assert ptr - OVERHEAD == bs[i].addr;
        FreeMem(ptr);
      }
    }

    /** Freeing everything that is outstanding, in any order, restores the pool as created. */
    method FreeAll(order: seq<int>)
      requires Valid() && Distinct(order) && UsedAddrs(blocks) == HeadersOf(order)
      modifies this
      ensures Valid() && start == old(start) && poolSize == old(poolSize) && minAllocation == old(minAllocation)
      ensures blocks == [Block(start, poolSize - OVERHEAD, true)] && available == poolSize - 2 * OVERHEAD
    {
      assert order[0..] == order;
      for k := 0 to |order|
        invariant Valid() && start == old(start) && poolSize == old(poolSize) && minAllocation == old(minAllocation)
        invariant UsedAddrs(blocks) == HeadersOf(order[k..])
      {
        FirstHeader(order, k);
        ghost var bs := blocks;
        ghost var i := IndexOf(bs, order[k] - OVERHEAD);
        FreeMem(order[k]);
        UsedAfterFreed(bs, i, start, End(), OVERHEAD);
      }
      AllFreeIsOneBlock(blocks, start, End(), OVERHEAD);
      FreeBytesOne(blocks[0], OVERHEAD);
    }
  }

  ghost predicate Distinct(order: seq<int>) {
    forall i, j :: 0 <= i < j < |order| ==> order[i] != order[j]
  }

  /** Where the headers of these payloads are. */
  ghost function HeadersOf(order: seq<int>): set<int> {
    set k | 0 <= k < |order| :: order[k] - OVERHEAD
  }

  lemma FirstHeader(order: seq<int>, k: nat)
    requires Distinct(order) && k < |order|
    ensures order[k] - OVERHEAD in HeadersOf(order[k..])
    ensures HeadersOf(order[k + 1..]) == HeadersOf(order[k..]) - {order[k] - OVERHEAD}
  {
    var s, t := order[k..], order[k + 1..];
    assert s[0] == order[k];
    assert forall i :: 0 <= i < |t| ==> t[i] == s[i + 1];
    assert forall i :: 0 < i < |s| ==> s[i] == t[i - 1] && s[i] != s[0];
  }
}
