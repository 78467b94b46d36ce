/**
  The abstract heap shared by the two allocators: a list of blocks that tiles an
  address range.  Allocation marks a block and may split it; freeing marks a block
  and merges it with its free neighbours.
 */
module BlockList {

  /** `size` is the whole span of the block, its header included. */
  datatype Block = Block(addr: int, size: int, free: bool)

  /** Block `i` holds at least a header and ends where the next block, or the range, does. */
  ghost predicate TileAt(bs: seq<Block>, hi: int, header: nat, i: nat)
    requires i < |bs|
  {
    header <= bs[i].size && bs[i].addr + bs[i].size == if i + 1 < |bs| then bs[i + 1].addr else hi
  }

  ghost predicate Tiles(bs: seq<Block>, lo: int, hi: int, header: nat) {
    bs != [] && bs[0].addr == lo && forall i: nat :: i < |bs| ==> TileAt(bs, hi, header, i)
  }

  ghost predicate NotBothFree(bs: seq<Block>, i: nat)
    requires i + 1 < |bs|
  {
    !(bs[i].free && bs[i + 1].free)
  }

  ghost predicate Coalesced(bs: seq<Block>) {
    forall i: nat :: i + 1 < |bs| ==> NotBothFree(bs, i)
  }

  ghost predicate HeapInv(bs: seq<Block>, lo: int, hi: int, header: nat) {
    Tiles(bs, lo, hi, header) && Coalesced(bs)
  }

  /** Bytes a caller could still obtain: payloads of the free blocks. */
  ghost function FreeBytes(bs: seq<Block>, header: nat): int {
    if bs == [] then 0
    else FreeBytes(bs[..|bs| - 1], header) + FreePart(bs[|bs| - 1], header)
  }

  ghost function FreePart(b: Block, header: nat): int {
    if b.free then b.size - header else 0
  }

  // The elementary edits.

  ghost function Mark(bs: seq<Block>, i: nat, free: bool): seq<Block>
    requires i < |bs|
  {
    bs[i := bs[i].(free := free)]
  }

  ghost function MergeAt(bs: seq<Block>, i: nat): seq<Block>
    requires i + 1 < |bs|
  {
    bs[..i] + [bs[i].(size := bs[i].size + bs[i + 1].size)] + bs[i + 2..]
  }

  /** Cut block `i` after `k` bytes; the new second half is free. */
  ghost function SplitAt(bs: seq<Block>, i: nat, k: int): seq<Block>
    requires i < |bs|
  {
    bs[..i] + [bs[i].(size := k), Block(bs[i].addr + k, bs[i].size - k, true)] + bs[i + 1..]
  }

  ghost function MergeNext(bs: seq<Block>, i: nat): seq<Block>
    requires i < |bs|
  {
    if i + 1 < |bs| && bs[i + 1].free then MergeAt(bs, i) else bs
  }

  /** What freeing block `i` does. */
  ghost function Freed(bs: seq<Block>, i: nat): seq<Block>
    requires i < |bs|
  {
    var m := MergeNext(Mark(bs, i, true), i);
    if i > 0 && bs[i - 1].free then MergeAt(m, i - 1) else m
  }

  /** What allocating a span of `k` bytes in block `i` does; the remainder is split
      off when it can hold a header and `least` payload bytes. */
  ghost function Allocated(bs: seq<Block>, i: nat, k: int, header: nat, least: nat): seq<Block>
    requires i < |bs|
  {
    if bs[i].size >= k + header + least
    then SplitAt(Mark(bs, i, false), i, k)
    else Mark(bs, i, false)
  }

  ghost predicate Fits(b: Block, payload: int, header: nat) {
    b.free && b.size - header >= payload
  }

  /** No block from place `lo` up to `hi` has room for `size` bytes. */
  ghost predicate NoneFits(bs: seq<Block>, lo: nat, hi: nat, size: nat, header: nat) {
    forall i :: lo <= i < hi && i < |bs| ==> !Fits(bs[i], size, header)
  }

  /** Where block `i` begins; past the last block, the end of the heap. */
  ghost function AddrAt(bs: seq<Block>, end: int, i: nat): int
    requires i <= |bs|
  {
    if i < |bs| then bs[i].addr else end
  }

  /** Both heaps hand out whole words. */
  const ALIGN: nat := 4

  ghost predicate Whole(bs: seq<Block>) {
    forall i :: 0 <= i < |bs| ==> bs[i].size % ALIGN == 0
  }

  ghost function UsedAddrs(bs: seq<Block>): set<int> {
    set i | 0 <= i < |bs| && !bs[i].free :: bs[i].addr
  }

  // Free bytes under the edits.

  lemma {:induction false} FreeBytesAppend(a: seq<Block>, b: seq<Block>, header: nat)
    ensures FreeBytes(a + b, header) == FreeBytes(a, header) + FreeBytes(b, header)
  {
    if b == [] {
      assert a + b == a;
    } else {
      FreeBytesAppend(a, b[..|b| - 1], header);
      assert (a + b)[..|a + b| - 1] == a + b[..|b| - 1];
    }
  }

  lemma FreeBytesAround(a: seq<Block>, m: seq<Block>, c: seq<Block>, header: nat)
    ensures FreeBytes(a + m + c, header) == FreeBytes(a, header) + FreeBytes(m, header) + FreeBytes(c, header)
  {
    FreeBytesAppend(a + m, c, header);
    FreeBytesAppend(a, m, header);
  }

  lemma FreeBytesOne(b: Block, header: nat)
    ensures FreeBytes([b], header) == FreePart(b, header)
  {
    assert [b][..0] == [];
  }

  lemma FreeBytesTwo(b: Block, c: Block, header: nat)
    ensures FreeBytes([b, c], header) == FreePart(b, header) + FreePart(c, header)
  {
    FreeBytesOne(b, header);
    FreeBytesOne(c, header);
    FreeBytesAppend([b], [c], header);
    assert [b] + [c] == [b, c];
  }

  lemma FreeBytesMark(bs: seq<Block>, i: nat, f: bool, header: nat)
    requires i < |bs|
    ensures FreeBytes(Mark(bs, i, f), header)
         == FreeBytes(bs, header) - FreePart(bs[i], header) + FreePart(bs[i].(free := f), header)
  {
    FreeBytesAround(bs[..i], [bs[i]], bs[i + 1..], header);
    FreeBytesAround(bs[..i], [bs[i].(free := f)], bs[i + 1..], header);
    FreeBytesOne(bs[i], header);
    FreeBytesOne(bs[i].(free := f), header);
    assert bs == bs[..i] + [bs[i]] + bs[i + 1..];
    assert Mark(bs, i, f) == bs[..i] + [bs[i].(free := f)] + bs[i + 1..];
  }

  lemma FreeBytesMerge(bs: seq<Block>, i: nat, header: nat)
    requires i + 1 < |bs| && bs[i].free && bs[i + 1].free
    ensures FreeBytes(MergeAt(bs, i), header) == FreeBytes(bs, header) + header
  {
    var m := bs[i].(size := bs[i].size + bs[i + 1].size);
    FreeBytesAround(bs[..i], [bs[i], bs[i + 1]], bs[i + 2..], header);
    FreeBytesAround(bs[..i], [m], bs[i + 2..], header);
    FreeBytesTwo(bs[i], bs[i + 1], header);
    FreeBytesOne(m, header);
    assert bs == bs[..i] + [bs[i], bs[i + 1]] + bs[i + 2..];
  }

  lemma FreeBytesSplit(bs: seq<Block>, i: nat, k: int, header: nat)
    requires i < |bs| && !bs[i].free
    ensures FreeBytes(SplitAt(bs, i, k), header) == FreeBytes(bs, header) + bs[i].size - k - header
  {
    var b, c := bs[i].(size := k), Block(bs[i].addr + k, bs[i].size - k, true);
    FreeBytesAround(bs[..i], [bs[i]], bs[i + 1..], header);
    FreeBytesAround(bs[..i], [b, c], bs[i + 1..], header);
    FreeBytesTwo(b, c, header);
    FreeBytesOne(bs[i], header);
    assert bs == bs[..i] + [bs[i]] + bs[i + 1..];
  }

  // The edits keep the tiling and its coalescing.

  lemma {:induction false} Ordered(bs: seq<Block>, lo: int, hi: int, header: nat, i: nat, j: nat)
    requires Tiles(bs, lo, hi, header) && i < j < |bs|
    ensures bs[i].addr + bs[i].size <= bs[j].addr
    decreases j
  {
    assert TileAt(bs, hi, header, j - 1);
    if i < j - 1 {
      Ordered(bs, lo, hi, header, i, j - 1);
    }
  }

  lemma InRange(bs: seq<Block>, lo: int, hi: int, header: nat, i: nat)
    requires Tiles(bs, lo, hi, header) && i < |bs|
    ensures lo <= bs[i].addr && bs[i].addr + bs[i].size <= hi && header <= bs[i].size
  {
    assert TileAt(bs, hi, header, 0) && TileAt(bs, hi, header, i) && TileAt(bs, hi, header, |bs| - 1);
    if i > 0 {
      Ordered(bs, lo, hi, header, 0, i);
    }
    if i < |bs| - 1 {
      Ordered(bs, lo, hi, header, i, |bs| - 1);
    }
  }

  lemma MarkTiles(bs: seq<Block>, i: nat, f: bool, lo: int, hi: int, header: nat)
    requires Tiles(bs, lo, hi, header) && i < |bs|
    ensures Tiles(Mark(bs, i, f), lo, hi, header)
  {
    forall j: nat | j < |bs| ensures TileAt(Mark(bs, i, f), hi, header, j) {
      assert TileAt(bs, hi, header, j);
    }
  }

  lemma MergeTiles(bs: seq<Block>, i: nat, lo: int, hi: int, header: nat)
    requires Tiles(bs, lo, hi, header) && i + 1 < |bs|
    ensures Tiles(MergeAt(bs, i), lo, hi, header)
  {
    var r := MergeAt(bs, i);
    assert TileAt(bs, hi, header, i) && TileAt(bs, hi, header, i + 1);
    forall j: nat | j < |r| ensures TileAt(r, hi, header, j) {
      if j < i {
        assert TileAt(bs, hi, header, j);
      } else if j > i {
        assert TileAt(bs, hi, header, j + 1);
      }
    }
  }

  lemma SplitTiles(bs: seq<Block>, i: nat, k: int, lo: int, hi: int, header: nat)
    requires Tiles(bs, lo, hi, header) && i < |bs| && header <= k <= bs[i].size - header
    ensures Tiles(SplitAt(bs, i, k), lo, hi, header)
  {
    var r := SplitAt(bs, i, k);
    assert TileAt(bs, hi, header, i);
    forall j: nat | j < |r| ensures TileAt(r, hi, header, j) {
      if j < i {
        assert TileAt(bs, hi, header, j);
      } else if j > i + 1 {
        assert TileAt(bs, hi, header, j - 1);
      }
    }
  }

  /** No two free neighbours, except that block `i` may have free neighbours. */
  ghost predicate CoalescedBut(bs: seq<Block>, i: nat) {
    forall j: nat :: j + 1 < |bs| && j != i && j + 1 != i ==> NotBothFree(bs, j)
  }

  lemma MarkCoalesced(bs: seq<Block>, i: nat, f: bool)
    requires Coalesced(bs) && i < |bs|
    ensures CoalescedBut(Mark(bs, i, f), i)
    ensures !f ==> Coalesced(Mark(bs, i, f))
  {
    forall j: nat | j + 1 < |bs| && (!f || (j != i && j + 1 != i)) ensures NotBothFree(Mark(bs, i, f), j) {
      assert NotBothFree(bs, j);
    }
  }

  lemma MergeNextCoalesces(bs: seq<Block>, i: nat)
    requires i < |bs| && CoalescedBut(bs, i)
    ensures var m := MergeNext(bs, i);
            && i < |m| <= |bs| && CoalescedBut(m, i) && (i + 1 < |m| ==> !m[i + 1].free)
            && m[..i] == bs[..i] && m[i].free == bs[i].free
  {
    var m := MergeNext(bs, i);
    if m != bs {
      if i + 2 < |bs| {
        assert NotBothFree(bs, i + 1);
      }
      forall j: nat | j + 1 < |m| && j != i && j + 1 != i ensures NotBothFree(m, j) {
        assert NotBothFree(bs, if j < i then j else j + 1);
      }
    }
  }

  lemma MergePrevCoalesces(m: seq<Block>, i: nat)
    requires 0 < i < |m| && CoalescedBut(m, i)
    requires m[i - 1].free && (i + 1 < |m| ==> !m[i + 1].free)
    ensures Coalesced(MergeAt(m, i - 1))
  {
    var r := MergeAt(m, i - 1);
    forall j: nat | j + 1 < |r| ensures NotBothFree(r, j) {
      if j + 1 < i {
        assert NotBothFree(m, j);
      } else if j >= i {
        assert NotBothFree(m, j + 1);
      }
    }
  }

  lemma FreedTiles(bs: seq<Block>, i: nat, lo: int, hi: int, header: nat)
    requires Tiles(bs, lo, hi, header) && i < |bs|
    ensures Tiles(Freed(bs, i), lo, hi, header)
  {
    var b := Mark(bs, i, true);
    MarkTiles(bs, i, true, lo, hi, header);
    if i + 1 < |b| && b[i + 1].free {
      MergeTiles(b, i, lo, hi, header);
    }
    if i > 0 && bs[i - 1].free {
      MergeTiles(MergeNext(b, i), i - 1, lo, hi, header);
    }
  }

  lemma FreedCoalesced(bs: seq<Block>, i: nat)
    requires Coalesced(bs) && i < |bs|
    ensures Coalesced(Freed(bs, i))
  {
    var b := Mark(bs, i, true);
    MarkCoalesced(bs, i, true);
    MergeNextCoalesces(b, i);
    var m := MergeNext(b, i);
    if i > 0 {
      assert m[i - 1] == m[..i][i - 1] == bs[i - 1];
    }
    if i > 0 && bs[i - 1].free {
      MergePrevCoalesces(m, i);
    } else {
      forall j: nat | j + 1 < |m| ensures NotBothFree(m, j) {
      }
    }
  }

  lemma FreedKeepsHeap(bs: seq<Block>, i: nat, lo: int, hi: int, header: nat)
    requires HeapInv(bs, lo, hi, header) && i < |bs|
    ensures HeapInv(Freed(bs, i), lo, hi, header)
  {
    FreedTiles(bs, i, lo, hi, header);
    FreedCoalesced(bs, i);
  }

  lemma AllocatedKeepsHeap(bs: seq<Block>, i: nat, k: int, lo: int, hi: int, header: nat, least: nat)
    requires HeapInv(bs, lo, hi, header) && i < |bs| && bs[i].free && header <= k <= bs[i].size
    ensures HeapInv(Allocated(bs, i, k, header, least), lo, hi, header)
  {
    var b := Mark(bs, i, false);
    MarkTiles(bs, i, false, lo, hi, header);
    MarkCoalesced(bs, i, false);
    if bs[i].size >= k + header + least {
      SplitTiles(b, i, k, lo, hi, header);
      var r := SplitAt(b, i, k);
      forall j: nat | j + 1 < |r| ensures NotBothFree(r, j) {
        assert i + 1 < |bs| ==> NotBothFree(bs, i);
        if j < i {
          assert NotBothFree(b, j);
        } else if j > i + 1 {
          assert NotBothFree(b, j - 1);
        }
      }
    }
  }

  /** Merging with the previous block before the next one gives the same list. */
  lemma FreedEitherOrder(bs: seq<Block>, i: nat)
    requires i < |bs|
    ensures var b := Mark(bs, i, true);
            Freed(bs, i) == if i > 0 && bs[i - 1].free then MergeNext(MergeAt(b, i - 1), i - 1) else MergeNext(b, i)
  {
    var b := Mark(bs, i, true);
    if i > 0 && i + 1 < |bs| {
      var p := MergeAt(b, i - 1);
      assert p[i] == b[i + 1];
      if b[i + 1].free {
        var m := MergeAt(b, i);
        assert m[i - 1] == b[i - 1] && m[i].size == b[i].size + b[i + 1].size;
        assert m[..i - 1] == p[..i - 1] && m[i + 1..] == p[i + 1..];
      }
    }
  }

  lemma AllocatedSplitFirst(bs: seq<Block>, i: nat, k: int)
    requires i < |bs|
    ensures SplitAt(Mark(bs, i, false), i, k) == Mark(SplitAt(bs, i, k), i, false)
  {
    var b := Mark(bs, i, false);
    assert b[..i] == bs[..i] && b[i + 1..] == bs[i + 1..];
  }

  lemma MarkWhole(bs: seq<Block>, i: nat, free: bool)
    requires Whole(bs) && i < |bs|
    ensures Whole(Mark(bs, i, free))
  {
  }

  lemma MergeWhole(bs: seq<Block>, i: nat)
    requires Whole(bs) && i + 1 < |bs|
    ensures Whole(MergeAt(bs, i))
  {
    var r := MergeAt(bs, i);
    forall j | 0 <= j < |r| ensures r[j].size % ALIGN == 0 {
      assert bs[if j <= i then j else j + 1].size % ALIGN == 0;
    }
  }

  lemma SplitWhole(bs: seq<Block>, i: nat, k: int)
    requires Whole(bs) && i < |bs| && k % ALIGN == 0
    ensures Whole(SplitAt(bs, i, k))
  {
    var r := SplitAt(bs, i, k);
    forall j | 0 <= j < |r| ensures r[j].size % ALIGN == 0 {
      assert bs[if j <= i then j else j - 1].size % ALIGN == 0;
    }
  }

  lemma FreedWhole(bs: seq<Block>, i: nat)
    requires Whole(bs) && i < |bs|
    ensures Whole(Freed(bs, i))
  {
    MarkWhole(bs, i, true);
    var b := Mark(bs, i, true);
    if i + 1 < |b| {
      MergeWhole(b, i);
    }
    if i > 0 {
      MergeWhole(MergeNext(b, i), i - 1);
    }
  }

  lemma AllocatedWhole(bs: seq<Block>, i: nat, k: int, header: nat, least: nat)
    requires Whole(bs) && i < |bs| && k % ALIGN == 0
    ensures Whole(Allocated(bs, i, k, header, least))
  {
    MarkWhole(bs, i, false);
    SplitWhole(Mark(bs, i, false), i, k);
  }

  /** The block handed out: in use, where the free block was, and as large as asked for, or all of
      it when too little would be left. */
  lemma AllocatedAt(bs: seq<Block>, i: nat, k: int, header: nat, least: nat)
    requires i < |bs| && bs[i].free && k <= bs[i].size
    ensures var r := Allocated(bs, i, k, header, least);
            && i < |r| && !r[i].free && r[i].addr == bs[i].addr
            && (r[i].size == k || (r[i].size == bs[i].size && r[i].size < k + header + least))
  {
  }

  /** Free bytes an allocation takes and a release gives back. */
  lemma FreeBytesAllocated(bs: seq<Block>, i: nat, k: int, header: nat, least: nat)
    requires i < |bs| && bs[i].free
    ensures FreeBytes(Allocated(bs, i, k, header, least), header)
         == FreeBytes(bs, header) - (if bs[i].size >= k + header + least then k else bs[i].size - header)
  {
    FreeBytesMark(bs, i, false, header);
    if bs[i].size >= k + header + least {
      FreeBytesSplit(Mark(bs, i, false), i, k, header);
    }
  }

  // Runs, and what freeing everything leaves.

  lemma UsedAfterMerge(bs: seq<Block>, i: nat)
    requires i + 1 < |bs| && bs[i].free && bs[i + 1].free
    ensures UsedAddrs(MergeAt(bs, i)) == UsedAddrs(bs)
  {
    var r := MergeAt(bs, i);
    assert forall j :: 0 <= j < i ==> r[j] == bs[j];
    assert forall j :: i + 2 <= j < |bs| ==> bs[j] == r[j - 1];
  }

  lemma UsedAfterMark(bs: seq<Block>, i: nat, lo: int, hi: int, header: nat)
    requires Tiles(bs, lo, hi, header) && header > 0 && i < |bs|
    ensures UsedAddrs(Mark(bs, i, true)) == UsedAddrs(bs) - {bs[i].addr}
  {
    forall j | 0 <= j < |bs| && j != i ensures bs[j].addr != bs[i].addr {
      Apart(bs, lo, hi, header, i, j);
    }
    var r := Mark(bs, i, true);
    assert forall j :: 0 <= j < |bs| && j != i ==> r[j] == bs[j];
  }

  lemma UsedAfterFreed(bs: seq<Block>, i: nat, lo: int, hi: int, header: nat)
    requires Tiles(bs, lo, hi, header) && header > 0 && i < |bs|
    ensures UsedAddrs(Freed(bs, i)) == UsedAddrs(bs) - {bs[i].addr}
  {
    var b := Mark(bs, i, true);
    UsedAfterMark(bs, i, lo, hi, header);
    var m := MergeNext(b, i);
    if i + 1 < |b| && b[i + 1].free {
      UsedAfterMerge(b, i);
    }
    if i > 0 && bs[i - 1].free {
      assert m[i - 1] == bs[i - 1] && m[i].free;
      UsedAfterMerge(m, i - 1);
    }
  }

  ghost function IndexOf(bs: seq<Block>, a: int): (i: nat)
    requires a in UsedAddrs(bs)
    ensures i < |bs| && bs[i].addr == a && !bs[i].free
  {
    var i :| 0 <= i < |bs| && bs[i].addr == a && !bs[i].free;
    i
  }

  lemma IndexUnique(bs: seq<Block>, i: nat, lo: int, hi: int, header: nat)
    requires Tiles(bs, lo, hi, header) && header > 0 && i < |bs| && !bs[i].free
    ensures bs[i].addr in UsedAddrs(bs) && IndexOf(bs, bs[i].addr) == i
  {
    UsedListed(bs, i);
    var j := IndexOf(bs, bs[i].addr);
    if j != i {
      Apart(bs, lo, hi, header, i, j);
    }
  }

  lemma UsedListed(bs: seq<Block>, i: nat)
    requires i < |bs| && !bs[i].free
    ensures bs[i].addr in UsedAddrs(bs)
  {
  }

  /** Merging back what a split took off. */
  lemma MergeUndoesSplit(bs: seq<Block>, i: nat, k: int)
    requires i < |bs| && bs[i].free
    ensures MergeAt(Mark(Mark(SplitAt(bs, i, k), i, false), i, true), i) == bs
  {
    var a := Mark(Mark(SplitAt(bs, i, k), i, false), i, true);
    assert a == bs[..i] + [Block(bs[i].addr, k, true), Block(bs[i].addr + k, bs[i].size - k, true)] + bs[i + 1..];
    assert MergeAt(a, i) == bs[..i] + [bs[i]] + bs[i + 1..];
  }

  lemma SplitThenMerge(bs: seq<Block>, i: nat, k: int, lo: int, hi: int, header: nat, least: nat)
    requires HeapInv(bs, lo, hi, header) && i < |bs| && bs[i].free && header <= k <= bs[i].size
    ensures Freed(Allocated(bs, i, k, header, least), i) == bs
  {
    if i > 0 {
      assert NotBothFree(bs, i - 1);
    }
    if i + 1 < |bs| {
      assert NotBothFree(bs, i);
    }
    var a := Allocated(bs, i, k, header, least);
    if |a| > |bs| {
      AllocatedSplitFirst(bs, i, k);
      MergeUndoesSplit(bs, i, k);
    }
    assert Freed(a, i) == bs;
  }

  /** Allocating in a free block and freeing the result restores the block list exactly. */
  lemma AllocThenFree(bs: seq<Block>, i: nat, k: int, lo: int, hi: int, header: nat, least: nat)
    requires HeapInv(bs, lo, hi, header) && header > 0
    requires i < |bs| && bs[i].free && header <= k <= bs[i].size
    ensures var a := Allocated(bs, i, k, header, least);
            bs[i].addr in UsedAddrs(a) && Freed(a, IndexOf(a, bs[i].addr)) == bs
  {
    var a := Allocated(bs, i, k, header, least);
    AllocatedKeepsHeap(bs, i, k, lo, hi, header, least);
    SplitThenMerge(bs, i, k, lo, hi, header, least);
    assert i < |a| && !a[i].free && a[i].addr == bs[i].addr;
    IndexUnique(a, i, lo, hi, header);
  }

  /** Free the blocks at the listed addresses, one after the other; an address that is
      not an outstanding block is skipped. */
  ghost function FreedAll(bs: seq<Block>, order: seq<int>): seq<Block>
    decreases |order|
  {
    if order == [] then bs
    else if order[0] !in UsedAddrs(bs) then FreedAll(bs, order[1..])
    else FreedAll(Freed(bs, IndexOf(bs, order[0])), order[1..])
  }

  lemma NeighboursUsed(bs: seq<Block>)
    requires Coalesced(bs) && |bs| > 1
    ensures UsedAddrs(bs) != {}
  {
    assert NotBothFree(bs, 0);
    UsedListed(bs, if bs[0].free then 1 else 0);
  }

  lemma AllFreeIsOneBlock(bs: seq<Block>, lo: int, hi: int, header: nat)
    requires HeapInv(bs, lo, hi, header) && UsedAddrs(bs) == {}
    ensures bs == [Block(lo, hi - lo, true)]
  {
    if |bs| > 1 {
      NeighboursUsed(bs);
    } else {
      assert TileAt(bs, hi, header, 0);
      if !bs[0].free {
        UsedListed(bs, 0);
      }
    }
  }

  /** Freeing every outstanding block, in any order, leaves the single initial block. */
  lemma {:induction false} FreeingAllRestores(bs: seq<Block>, order: seq<int>, lo: int, hi: int, header: nat)
    requires HeapInv(bs, lo, hi, header) && header > 0
    requires UsedAddrs(bs) <= (set k | 0 <= k < |order| :: order[k])
    ensures FreedAll(bs, order) == [Block(lo, hi - lo, true)]
    decreases |order|
  {
    if order == [] {
      AllFreeIsOneBlock(bs, lo, hi, header);
    } else {
      var tail := set k | 0 <= k < |order| - 1 :: order[1..][k];
      assert forall k :: 0 < k < |order| ==> order[k] == order[1..][k - 1] && order[k] in tail;
      if order[0] in UsedAddrs(bs) {
        var i := IndexOf(bs, order[0]);
        FreedKeepsHeap(bs, i, lo, hi, header);
        UsedAfterFreed(bs, i, lo, hi, header);
        FreeingAllRestores(Freed(bs, i), order[1..], lo, hi, header);
      } else {
        FreeingAllRestores(bs, order[1..], lo, hi, header);
      }
    }
  }

  datatype Op = Alloc(at: nat, span: int) | Free(at: nat)

  /** One allocator call; a call that names no suitable block changes nothing. */
  ghost function Step(bs: seq<Block>, op: Op, header: nat, least: nat): seq<Block> {
    match op
    case Alloc(i, k) =>
      if i < |bs| && bs[i].free && header <= k <= bs[i].size then Allocated(bs, i, k, header, least) else bs
    case Free(i) =>
      if i < |bs| && !bs[i].free then Freed(bs, i) else bs
  }

  ghost function Run(bs: seq<Block>, ops: seq<Op>, header: nat, least: nat): seq<Block>
    decreases |ops|
  {
    if ops == [] then bs else Run(Step(bs, ops[0], header, least), ops[1..], header, least)
  }

  lemma {:induction false} RunKeepsHeap(bs: seq<Block>, ops: seq<Op>, lo: int, hi: int, header: nat, least: nat)
    requires HeapInv(bs, lo, hi, header)
    ensures HeapInv(Run(bs, ops, header, least), lo, hi, header)
    decreases |ops|
  {
    if ops != [] {
      match ops[0]
      case Alloc(i, k) =>
        if i < |bs| && bs[i].free && header <= k <= bs[i].size {
          AllocatedKeepsHeap(bs, i, k, lo, hi, header, least);
        }
        RunKeepsHeap(Step(bs, ops[0], header, least), ops[1..], lo, hi, header, least);
      case Free(i) =>
        if i < |bs| && !bs[i].free {
          FreedKeepsHeap(bs, i, lo, hi, header);
        }
        RunKeepsHeap(Step(bs, ops[0], header, least), ops[1..], lo, hi, header, least);
    }
  }

  /** Confluence: after any run, freeing the outstanding blocks in any order restores the
      initial heap and all of its free bytes. */
  lemma Confluence(ops: seq<Op>, order: seq<int>, lo: int, hi: int, header: nat, least: nat)
    requires 0 < header <= hi - lo
    requires var bs := Run([Block(lo, hi - lo, true)], ops, header, least);
             UsedAddrs(bs) <= (set k | 0 <= k < |order| :: order[k])
    ensures var bs := Run([Block(lo, hi - lo, true)], ops, header, least);
            && FreedAll(bs, order) == [Block(lo, hi - lo, true)]
            && FreeBytes(FreedAll(bs, order), header) == hi - lo - header
  {
    var init := [Block(lo, hi - lo, true)];
    assert TileAt(init, hi, header, 0);
    RunKeepsHeap(init, ops, lo, hi, header, least);
    FreeingAllRestores(Run(init, ops, header, least), order, lo, hi, header);
    FreeBytesOne(init[0], header);
  }

  // Headers in memory and the block list they spell.

  datatype Header = Header(next: int, prev: int, free: bool)

  type Memory = map<int, Header>

  /** The header of block `i` spells the block and links it to its neighbours. */
  ghost predicate LinkedAt(mem: Memory, bs: seq<Block>, i: nat)
    requires i < |bs|
  {
    && bs[i].addr in mem
    && mem[bs[i].addr].free == bs[i].free
    && mem[bs[i].addr].next == bs[i].addr + bs[i].size
    && (i > 0 ==> mem[bs[i].addr].prev == bs[i - 1].addr)
  }

  ghost predicate Linked(mem: Memory, bs: seq<Block>) {
    forall i: nat :: i < |bs| ==> LinkedAt(mem, bs, i)
  }

  /** `mem'` differs from `mem` on no header of `bs` but those of `skip`. */
  ghost predicate SameHeaders(mem: Memory, mem': Memory, bs: seq<Block>, skip: set<int>) {
    forall i :: 0 <= i < |bs| && bs[i].addr in mem && bs[i].addr !in skip ==>
      bs[i].addr in mem' && mem'[bs[i].addr] == mem[bs[i].addr]
  }

  lemma Apart(bs: seq<Block>, lo: int, hi: int, header: nat, i: nat, j: nat)
    requires Tiles(bs, lo, hi, header) && header > 0 && i < |bs| && j < |bs| && i != j
    ensures i < j ==> bs[i].addr + bs[i].size <= bs[j].addr
    ensures j < i ==> bs[j].addr + bs[j].size <= bs[i].addr
    ensures bs[i].size > 0 && bs[j].size > 0
  {
    assert TileAt(bs, hi, header, i) && TileAt(bs, hi, header, j);
    if i < j {
      Ordered(bs, lo, hi, header, i, j);
    } else {
      Ordered(bs, lo, hi, header, j, i);
    }
  }

  lemma MarkLinked(mem: Memory, mem': Memory, bs: seq<Block>, i: nat, f: bool, lo: int, hi: int, header: nat)
    requires Tiles(bs, lo, hi, header) && header > 0 && Linked(mem, bs) && i < |bs|
    requires bs[i].addr in mem && bs[i].addr in mem'
    requires mem'[bs[i].addr] == mem[bs[i].addr].(free := f)
    requires SameHeaders(mem, mem', bs, {bs[i].addr})
    ensures Linked(mem', Mark(bs, i, f))
  {
    forall j: nat | j < |bs| ensures LinkedAt(mem', Mark(bs, i, f), j) {
      assert LinkedAt(mem, bs, j);
      if j != i {
        Apart(bs, lo, hi, header, i, j);
      }
    }
  }

  lemma MergeLinked(mem: Memory, mem': Memory, bs: seq<Block>, i: nat, lo: int, hi: int, header: nat)
    requires Tiles(bs, lo, hi, header) && header > 0 && Linked(mem, bs) && i + 1 < |bs|
    requires bs[i].addr in mem && bs[i].addr in mem'
    requires mem'[bs[i].addr] == mem[bs[i].addr].(next := bs[i + 1].addr + bs[i + 1].size)
    requires i + 2 < |bs| ==>
               && bs[i + 2].addr in mem && bs[i + 2].addr in mem'
               && mem'[bs[i + 2].addr] == mem[bs[i + 2].addr].(prev := bs[i].addr)
    requires SameHeaders(mem, mem', bs, {bs[i].addr, bs[i + 1].addr, bs[i + 1].addr + bs[i + 1].size})
    ensures Linked(mem', MergeAt(bs, i))
  {
    var r := MergeAt(bs, i);
    assert LinkedAt(mem, bs, i) && TileAt(bs, hi, header, i) && TileAt(bs, hi, header, i + 1);
    forall j: nat | j < |r| ensures LinkedAt(mem', r, j) {
      if j < i {
        assert LinkedAt(mem, bs, j);
        Apart(bs, lo, hi, header, j, i);
      } else if j > i {
        assert r[j] == bs[j + 1] && LinkedAt(mem, bs, j + 1);
        Apart(bs, lo, hi, header, j + 1, i + 1);
        if j > i + 1 {
          Apart(bs, lo, hi, header, j + 1, i + 2);
          assert r[j - 1] == bs[j];
        }
      }
    }
  }

  lemma SplitLinked(mem: Memory, mem': Memory, bs: seq<Block>, i: nat, k: int, lo: int, hi: int, header: nat)
    requires Tiles(bs, lo, hi, header) && header > 0 && Linked(mem, bs) && i < |bs|
    requires header <= k <= bs[i].size - header
    requires bs[i].addr in mem && bs[i].addr in mem'
    requires mem'[bs[i].addr] == mem[bs[i].addr].(next := bs[i].addr + k)
    requires bs[i].addr + k in mem'
    requires mem'[bs[i].addr + k] == Header(bs[i].addr + bs[i].size, bs[i].addr, true)
    requires i + 1 < |bs| ==>
               && bs[i + 1].addr in mem && bs[i + 1].addr in mem'
               && mem'[bs[i + 1].addr] == mem[bs[i + 1].addr].(prev := bs[i].addr + k)
    requires SameHeaders(mem, mem', bs, {bs[i].addr, bs[i].addr + k, bs[i].addr + bs[i].size})
    ensures Linked(mem', SplitAt(bs, i, k))
  {
    var r := SplitAt(bs, i, k);
    assert LinkedAt(mem, bs, i) && TileAt(bs, hi, header, i);
    forall j: nat | j < |r| ensures LinkedAt(mem', r, j) {
      if j < i {
        assert LinkedAt(mem, bs, j);
        Apart(bs, lo, hi, header, j, i);
      } else if j > i + 1 {
        assert r[j] == bs[j - 1] && LinkedAt(mem, bs, j - 1);
        Apart(bs, lo, hi, header, j - 1, i);
        if j > i + 2 {
          Apart(bs, lo, hi, header, j - 1, i + 1);
          assert r[j - 1] == bs[j - 2];
        }
      }
    }
  }
}
