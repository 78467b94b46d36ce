/**
  The stack's own heap: headers linked by offsets inside one byte array, searched
  first-fit from a cached lowest free block, with coalescing and in-place shrinking.
 */
module LwipMem {
  import opened BlockList

  const MEM_SIZE: nat := 8192   // MEM_SIZE_ALIGNED; also the offset of the end sentinel
  const HEADER: nat := 8        // SIZEOF_STRUCT_MEM
  const MIN_SIZE: nat := 12     // MIN_SIZE_ALIGNED
  const U16: nat := 0x1_0000

  /** LWIP_MEM_ALIGN_SIZE stored back into a 16-bit mem_size_t. */
  function AlignSize(size: nat): nat {
    (size + 3) / 4 * 4 % U16
  }

  /** The payload size a request is turned into. */
  function Rounded(size: nat): nat {
    if AlignSize(size) < MIN_SIZE then MIN_SIZE else AlignSize(size)
  }

  /** The rounded size covers the request exactly when the alignment does not wrap. */
  lemma RoundedCovers(size: nat)
    requires size < U16
    ensures Rounded(size) >= size <==> size + 3 < U16
  {
    if size + 3 >= U16 {
      assert (size + 3) / 4 * 4 == U16;
    }
  }

  /** A whole number of words holds the rounded size exactly if it holds the request and the
      smallest payload. */
  lemma RoundedFits(payload: int, request: nat)
    requires payload % ALIGN == 0 && request + 3 < U16
    ensures payload >= Rounded(request) <==> payload >= request && payload >= MIN_SIZE
    ensures Rounded(request) % ALIGN == 0 && (Rounded(request) == MIN_SIZE || Rounded(request) < request + ALIGN)
  {
  }

  /** Move the border between block `i` and its free successor to `k` bytes after `i`'s start. */
  ghost function Shift(bs: seq<Block>, i: nat, k: int): seq<Block>
    requires i + 1 < |bs|
  {
    bs[..i] + [bs[i].(size := k), Block(bs[i].addr + k, bs[i].size - k + bs[i + 1].size, true)] + bs[i + 2..]
  }

  /** What mem_trim does to the block list when block `i` is cut to a span of `k` bytes. */
  ghost function Trimmed(bs: seq<Block>, i: nat, k: int): seq<Block>
    requires i < |bs|
  {
    if i + 1 < |bs| && bs[i + 1].free then Shift(bs, i, k)
    else if k + HEADER + MIN_SIZE <= bs[i].size then SplitAt(bs, i, k)
    else bs
  }

  /** Only a smaller span changes anything. */
  ghost function Resized(bs: seq<Block>, i: nat, k: int): seq<Block>
    requires i < |bs|
  {
    if k < bs[i].size then Trimmed(bs, i, k) else bs
  }

  /** Trimming gives the rest back, to the free block behind or as one of its own, whenever there
      is one behind or the rest is worth it. */
  lemma TrimmedFrees(bs: seq<Block>, i: nat, k: int)
    requires i < |bs| && k < bs[i].size
    requires (i + 1 < |bs| && bs[i + 1].free) || k + HEADER + MIN_SIZE <= bs[i].size
    ensures var r, end := Trimmed(bs, i, k), bs[i].addr + bs[i].size;
            && i + 1 < |r| && r[i] == bs[i].(size := k)
            && r[i + 1].free && r[i + 1].addr == bs[i].addr + k
            && r[i + 1].addr + r[i + 1].size == end + (if i + 1 < |bs| && bs[i + 1].free then bs[i + 1].size else 0)
  {
  }

  lemma ResizedWhole(bs: seq<Block>, i: nat, k: int)
    requires Whole(bs) && i < |bs| && k % ALIGN == 0
    ensures Whole(Resized(bs, i, k))
  {
    var r := Resized(bs, i, k);
    SplitWhole(bs, i, k);
    if i + 1 < |bs| && bs[i + 1].free && k < bs[i].size {
      forall j | 0 <= j < |r| ensures r[j].size % ALIGN == 0 {
        assert bs[j].size % ALIGN == 0 && bs[i].size % ALIGN == 0;
      }
    }
  }

  // The headers in memory.

  ghost predicate Chain(mem: Memory, bs: seq<Block>) {
    && Tiles(bs, 0, MEM_SIZE, HEADER)
    && Linked(mem, bs)
    && 0 in mem && mem[0].prev == 0
    && MEM_SIZE in mem && !mem[MEM_SIZE].free
  }

  lemma Before(bs: seq<Block>, i: nat, j: nat)
    requires Tiles(bs, 0, MEM_SIZE, HEADER) && i < j <= |bs|
    ensures 0 <= AddrAt(bs, MEM_SIZE, i) && AddrAt(bs, MEM_SIZE, i) + bs[i].size <= AddrAt(bs, MEM_SIZE, j) <= MEM_SIZE
    ensures HEADER <= bs[i].size
  {
    InRange(bs, 0, MEM_SIZE, HEADER, i);
    if j < |bs| {
      Ordered(bs, 0, MEM_SIZE, HEADER, i, j);
      InRange(bs, 0, MEM_SIZE, HEADER, j);
    }
  }

  lemma HeaderOf(mem: Memory, bs: seq<Block>, i: nat)
    requires Chain(mem, bs) && i <= |bs|
    ensures AddrAt(bs, MEM_SIZE, i) in mem
    ensures mem[AddrAt(bs, MEM_SIZE, i)].free == (i < |bs| && bs[i].free)
    ensures i < |bs| ==> mem[AddrAt(bs, MEM_SIZE, i)].next == bs[i].addr + bs[i].size == AddrAt(bs, MEM_SIZE, i + 1)
    ensures i < |bs| ==> mem[AddrAt(bs, MEM_SIZE, i)].prev == if i == 0 then 0 else bs[i - 1].addr
  {
    if i < |bs| {
      assert LinkedAt(mem, bs, i) && TileAt(bs, MEM_SIZE, HEADER, i);
    }
  }

  lemma MarkChain(mem: Memory, bs: seq<Block>, i: nat, free: bool)
    requires Chain(mem, bs) && i < |bs| && bs[i].addr in mem
    ensures Chain(mem[bs[i].addr := mem[bs[i].addr].(free := free)], Mark(bs, i, free))
  {
    Before(bs, i, |bs|);
    MarkTiles(bs, i, free, 0, MEM_SIZE, HEADER);
    MarkLinked(mem, mem[bs[i].addr := mem[bs[i].addr].(free := free)], bs, i, free, 0, MEM_SIZE, HEADER);
  }

  lemma MergeChain(mem: Memory, mem': Memory, bs: seq<Block>, i: nat)
    requires Chain(mem, bs) && i + 1 < |bs|
    requires AddrAt(bs, MEM_SIZE, i) in mem && AddrAt(bs, MEM_SIZE, i + 2) in mem
    requires mem' == mem[AddrAt(bs, MEM_SIZE, i) := mem[AddrAt(bs, MEM_SIZE, i)].(next := AddrAt(bs, MEM_SIZE, i + 2))]
                        [AddrAt(bs, MEM_SIZE, i + 2) :=
                           mem[AddrAt(bs, MEM_SIZE, i + 2)].(prev := AddrAt(bs, MEM_SIZE, i))]
    ensures Chain(mem', MergeAt(bs, i))
  {
    HeaderOf(mem, bs, i);
    HeaderOf(mem, bs, i + 1);
    Before(bs, i, i + 1);
    Before(bs, i + 1, i + 2);
    if i > 0 {
      Before(bs, 0, i);
    }
    if i + 2 < |bs| {
      Before(bs, i + 2, |bs|);
    }
    MergeTiles(bs, i, 0, MEM_SIZE, HEADER);
    MergeLinked(mem, mem', bs, i, 0, MEM_SIZE, HEADER);
  }

  /** Memory after linking a new free header in at `q`; the sentinel's back link is left alone. */
  ghost function LinkedIn(mem: Memory, p: int, q: int, e: int): Memory
    requires p in mem && e in mem
  {
    var m := mem[q := Header(e, p, true)][p := mem[p].(next := q)];
    if e != MEM_SIZE then m[e := mem[e].(prev := q)] else m
  }

  lemma SplitChain(mem: Memory, bs: seq<Block>, i: nat, k: int)
    requires Chain(mem, bs) && i < |bs| && HEADER <= k <= bs[i].size - HEADER
    requires bs[i].addr in mem && AddrAt(bs, MEM_SIZE, i + 1) in mem
    ensures Chain(LinkedIn(mem, bs[i].addr, bs[i].addr + k, AddrAt(bs, MEM_SIZE, i + 1)), SplitAt(bs, i, k))
  {
    var mem' := LinkedIn(mem, bs[i].addr, bs[i].addr + k, AddrAt(bs, MEM_SIZE, i + 1));
    HeaderOf(mem, bs, i);
    Before(bs, i, i + 1);
    if i > 0 {
      Before(bs, 0, i);
    }
    if i + 1 < |bs| {
      Before(bs, i + 1, |bs|);
    }
    SplitTiles(bs, i, k, 0, MEM_SIZE, HEADER);
    SplitLinked(mem, mem', bs, i, k, 0, MEM_SIZE, HEADER);
  }

  lemma ShiftTiles(bs: seq<Block>, i: nat, k: int)
    requires Tiles(bs, 0, MEM_SIZE, HEADER) && i + 1 < |bs| && HEADER <= k < bs[i].size
    ensures Tiles(Shift(bs, i, k), 0, MEM_SIZE, HEADER)
  {
    var r := Shift(bs, i, k);
    assert TileAt(bs, MEM_SIZE, HEADER, i) && TileAt(bs, MEM_SIZE, HEADER, i + 1);
    forall j: nat | j < |r| ensures TileAt(r, MEM_SIZE, HEADER, j) {
      assert TileAt(bs, MEM_SIZE, HEADER, j);
    }
  }

  lemma ShiftChain(mem: Memory, bs: seq<Block>, i: nat, k: int)
    requires Chain(mem, bs) && i + 1 < |bs| && HEADER <= k < bs[i].size
    requires bs[i].addr in mem && AddrAt(bs, MEM_SIZE, i + 2) in mem
    ensures Chain(LinkedIn(mem, bs[i].addr, bs[i].addr + k, AddrAt(bs, MEM_SIZE, i + 2)), Shift(bs, i, k))
  {
    var mem' := LinkedIn(mem, bs[i].addr, bs[i].addr + k, AddrAt(bs, MEM_SIZE, i + 2));
    var r := Shift(bs, i, k);
    ShiftTiles(bs, i, k);
    HeaderOf(mem, bs, i);
    HeaderOf(mem, bs, i + 1);
    Before(bs, i, i + 1);
    Before(bs, i + 1, i + 2);
    forall j: nat | j < |r| ensures LinkedAt(mem', r, j) {
      assert LinkedAt(mem, bs, j);
      Before(bs, j, |bs|);
      if j < i {
        Before(bs, j, i);
      } else if j > i + 1 {
        Before(bs, i + 1, j);
        if j > i + 2 {
          Before(bs, i + 2, j);
        }
      }
    }
    if i > 0 {
      Before(bs, 0, i);
    }
    Before(bs, i + 1, |bs|);
  }

  // The cached lowest free block.

  /** `k` is the index of the first free block, or the end. */
  ghost predicate FirstFree(bs: seq<Block>, k: nat) {
    k <= |bs| && (k < |bs| ==> bs[k].free) && forall j :: 0 <= j < k ==> !bs[j].free
  }

  /** After a trim to `request` bytes: the block stands where it was and holds the request; what
      follows it is free, and the block has less than a word too much, unless it was followed by a
      block in use and the rest was too small to keep. */
  ghost predicate TrimmedWell(bs: seq<Block>, bs': seq<Block>, i: nat, request: nat)
    requires i < |bs|
  {
    var room := bs[i].size - HEADER - if request < MIN_SIZE then MIN_SIZE else request;
    && i < |bs'| && bs'[i].addr == bs[i].addr && !bs'[i].free && request <= bs'[i].size - HEADER
    && ((i + 1 < |bs| && bs[i + 1].free && room >= ALIGN) || room >= HEADER + MIN_SIZE + ALIGN ==>
          && bs'[i].size - HEADER < (if request < MIN_SIZE then MIN_SIZE + 1 else request + ALIGN)
          && i + 1 < |bs'| && bs'[i + 1].free && bs'[i + 1].addr == bs'[i].addr + bs'[i].size)
  }

  lemma ResizedWell(bs: seq<Block>, i: nat, request: nat)
    requires Whole(bs) && i < |bs| && !bs[i].free && request + 3 < U16 && Rounded(request) + HEADER <= bs[i].size
    ensures TrimmedWell(bs, Resized(bs, i, Rounded(request) + HEADER), i, request)
  {
    RoundedFits(bs[i].size - HEADER, request);
    var k := Rounded(request) + HEADER;
    if k < bs[i].size && ((i + 1 < |bs| && bs[i + 1].free) || k + HEADER + MIN_SIZE <= bs[i].size) {
      TrimmedFrees(bs, i, k);
    }
  }

  // No operation writes into another block's payload.

  ghost function HeaderAddrs(bs: seq<Block>): set<int> {
    set i | 0 <= i < |bs| :: bs[i].addr
  }

  /** Every header that differs lies at a header address of the old or the new list. */
  ghost predicate WritesHeaders(mem: Memory, mem': Memory, bs: seq<Block>, bs': seq<Block>) {
    forall a :: a in mem' && (a !in mem || mem[a] != mem'[a]) ==>
      a in HeaderAddrs(bs) || a in HeaderAddrs(bs') || a == MEM_SIZE
  }

  lemma HeadersAvoidPayload(bs: seq<Block>, i: nat, a: int)
    requires Tiles(bs, 0, MEM_SIZE, HEADER) && i < |bs|
    requires a in HeaderAddrs(bs) || a == MEM_SIZE
    ensures a + HEADER <= bs[i].addr + HEADER || bs[i].addr + bs[i].size <= a
  {
    Before(bs, i, |bs|);
    if a in HeaderAddrs(bs) {
      var j :| 0 <= j < |bs| && bs[j].addr == a;
      if j != i {
        Apart(bs, 0, MEM_SIZE, HEADER, i, j);
      }
    }
  }

  /** A block present before and after a call keeps its payload bytes. */
  lemma PayloadUntouched(mem: Memory, mem': Memory, bs: seq<Block>, bs': seq<Block>, i: nat, j: nat, a: int)
    requires Tiles(bs, 0, MEM_SIZE, HEADER) && Tiles(bs', 0, MEM_SIZE, HEADER)
    requires WritesHeaders(mem, mem', bs, bs')
    requires i < |bs| && j < |bs'| && bs[i].addr == bs'[j].addr && bs[i].size == bs'[j].size
    requires a in mem' && (a !in mem || mem[a] != mem'[a])
    ensures a <= bs[i].addr || bs[i].addr + bs[i].size <= a
  {
    if a in HeaderAddrs(bs') {
      HeadersAvoidPayload(bs', j, a);
    } else {
      HeadersAvoidPayload(bs, i, a);
    }
  }

  ghost predicate Changed(mem: Memory, mem': Memory, a: int) {
    a in mem' && (a !in mem || mem[a] != mem'[a])
  }

  /** Nothing is written inside the payload of a block in use other than block `i`. */
  ghost predicate Spares(mem: Memory, mem': Memory, bs: seq<Block>, i: nat) {
    forall j, a :: 0 <= j < |bs| && j != i && !bs[j].free && Changed(mem, mem', a) ==>
      a <= bs[j].addr || bs[j].addr + bs[j].size <= a
  }

  lemma OthersSpared(mem: Memory, mem': Memory, bs: seq<Block>, bs': seq<Block>, i: nat)
    requires Tiles(bs, 0, MEM_SIZE, HEADER) && Tiles(bs', 0, MEM_SIZE, HEADER)
    requires WritesHeaders(mem, mem', bs, bs') && KeepsOthers(bs, bs', i)
    ensures Spares(mem, mem', bs, i)
  {
    forall j, a | 0 <= j < |bs| && j != i && !bs[j].free && Changed(mem, mem', a)
      ensures a <= bs[j].addr || bs[j].addr + bs[j].size <= a
    {
      var k :| 0 <= k < |bs'| && bs'[k] == bs[j];
      PayloadUntouched(mem, mem', bs, bs', j, k, a);
    }
  }

  lemma WritesCompose(m0: Memory, m1: Memory, m2: Memory, b0: seq<Block>, b1: seq<Block>, b2: seq<Block>)
    requires WritesHeaders(m0, m1, b0, b1) && WritesHeaders(m1, m2, b1, b2)
    requires HeaderAddrs(b1) <= HeaderAddrs(b0) + HeaderAddrs(b2)
    requires m0.Keys <= m1.Keys <= m2.Keys
    ensures WritesHeaders(m0, m2, b0, b2)
  {
  }

  lemma AddrsAfterMark(bs: seq<Block>, i: nat, f: bool)
    requires i < |bs|
    ensures HeaderAddrs(Mark(bs, i, f)) == HeaderAddrs(bs)
  {
    assert forall j :: 0 <= j < |bs| ==> Mark(bs, i, f)[j].addr == bs[j].addr;
  }

  lemma AddrsAfterMerge(bs: seq<Block>, i: nat)
    requires i + 1 < |bs|
    ensures HeaderAddrs(MergeAt(bs, i)) <= HeaderAddrs(bs)
  {
    var r := MergeAt(bs, i);
    assert forall j :: 0 <= j < |r| ==> r[j].addr == bs[if j <= i then j else j + 1].addr;
  }

  /** Blocks in use other than block `i` are in both lists. */
  ghost predicate KeepsOthers(bs: seq<Block>, bs': seq<Block>, i: nat) {
    forall j :: 0 <= j < |bs| && j != i && !bs[j].free ==> bs[j] in bs'
  }

  lemma FreedKeepsOthers(bs: seq<Block>, i: nat)
    requires i < |bs|
    ensures KeepsOthers(bs, Freed(bs, i), i)
  {
    var m := MergeNext(Mark(bs, i, true), i);
    var r := Freed(bs, i);
    forall j | 0 <= j < |bs| && j != i && !bs[j].free ensures bs[j] in r {
      var k := if j < i then j else j + |m| - |bs|;
      assert m[k] == bs[j];
      var l := if j < i then j else k + |r| - |m|;
      assert r[l] == m[k];
    }
  }

  lemma AllocatedKeepsOthers(bs: seq<Block>, i: nat, k: int)
    requires i < |bs|
    ensures KeepsOthers(bs, Allocated(bs, i, k, HEADER, MIN_SIZE), i)
  {
    var r := Allocated(bs, i, k, HEADER, MIN_SIZE);
    forall j | 0 <= j < |bs| && j != i && !bs[j].free ensures bs[j] in r {
      assert r[if j < i then j else j + |r| - |bs|] == bs[j];
    }
  }

  lemma TrimmedKeepsOthers(bs: seq<Block>, i: nat, k: int)
    requires i < |bs|
    ensures KeepsOthers(bs, Trimmed(bs, i, k), i)
  {
    var r := Trimmed(bs, i, k);
    forall j | 0 <= j < |bs| && j != i && !bs[j].free ensures bs[j] in r {
      assert r[if j < i then j else j + |r| - |bs|] == bs[j];
    }
  }

  lemma ResizedKeepsOthers(bs: seq<Block>, i: nat, k: int)
    requires i < |bs|
    ensures KeepsOthers(bs, Resized(bs, i, k), i)
  {
    TrimmedKeepsOthers(bs, i, k);
  }

  lemma TrimmedCoalesced(bs: seq<Block>, i: nat, k: int)
    requires Coalesced(bs) && i < |bs| && !bs[i].free
    ensures Coalesced(Trimmed(bs, i, k))
  {
    var r := Trimmed(bs, i, k);
    if r != bs {
      forall j: nat | j + 1 < |r| ensures NotBothFree(r, j) {
        if j < i {
          assert NotBothFree(bs, j);
        } else if j > i {
          var j' := j + |bs| - |r|;
          assert j' + 1 < |bs| ==> NotBothFree(bs, j');
        }
      }
    }
  }

  class Heap {
    var mem: Memory
    var lfree: int
    ghost var blocks: seq<Block>
    ghost var low: nat

    ghost predicate Valid()
      reads this
    {
      Chain(mem, blocks) && Coalesced(blocks) && LowestCached() && Whole(blocks)
    }

    ghost predicate LowestCached()
      reads this
    {
      FirstFree(blocks, low) && lfree == AddrAt(blocks, MEM_SIZE, low)
    }

    /** mem_init */
    constructor ()
      ensures Valid() && blocks == [Block(0, MEM_SIZE, true)]
    {
      mem := map[0 := Header(MEM_SIZE, 0, true), MEM_SIZE := Header(MEM_SIZE, MEM_SIZE, false)];
      lfree := 0;
      blocks := [Block(0, MEM_SIZE, true)];
      low := 0;
      new;
      assert LinkedAt(mem, blocks, 0) && TileAt(blocks, MEM_SIZE, HEADER, 0);
    }

    /** The scan of mem_malloc, from the cached lowest free block. */
    method Scan(size: nat) returns (found: bool, p: int, ghost i: nat)
      requires Valid() && size <= MEM_SIZE
      ensures if found then
                && i < |blocks| && p == blocks[i].addr
                && Fits(blocks[i], size, HEADER) && NoneFits(blocks, 0, i, size, HEADER)
              else NoneFits(blocks, 0, |blocks|, size, HEADER)
    {
      p, i, found := lfree, low, false;
      if i < |blocks| { Before(blocks, i, |blocks|); }
      while p < MEM_SIZE - size
        invariant i <= |blocks| && p == AddrAt(blocks, MEM_SIZE, i) && 0 <= p && NoneFits(blocks, 0, i, size, HEADER)
        decreases |blocks| - i
      {
        HeaderOf(mem, blocks, i);
        if mem[p].free && mem[p].next - (p + HEADER) >= size {
          found := true;
          return;
        }
        Before(blocks, i, i + 1);
        p, i := mem[p].next, i + 1;
      }
      forall j | i <= j < |blocks| ensures !Fits(blocks[j], size, HEADER) {
        Before(blocks, j, |blocks|);
        if i < j { Before(blocks, i, j); }
      }
    }

    /** Move the cached pointer to the next free block after the lowest was taken. */
    method AdvanceLowest()
      requires Chain(mem, blocks) && low <= |blocks| && lfree == AddrAt(blocks, MEM_SIZE, low)
      requires forall j :: 0 <= j < low ==> !blocks[j].free
      modifies this`lfree, this`low
      ensures LowestCached()
    {
      var cur := lfree;
      HeaderOf(mem, blocks, low);
      while !mem[cur].free && cur != MEM_SIZE
        invariant low <= |blocks| && cur == AddrAt(blocks, MEM_SIZE, low) && cur in mem
        invariant mem[cur].free == (low < |blocks| && blocks[low].free)
        invariant forall j :: 0 <= j < low ==> !blocks[j].free
        decreases |blocks| - low
      {
        HeaderOf(mem, blocks, low);
        HeaderOf(mem, blocks, low + 1);
        cur, low := mem[cur].next, low + 1;
      }
      if low < |blocks| { Before(blocks, low, |blocks|); }
      lfree := cur;
    }

    /** Link a free header in at `q`, between `p` and `e`. */
    method LinkHeader(p: int, q: int, e: int)
      requires p in mem && e in mem && p != e && q != e && p != q
      modifies this`mem
      ensures mem == LinkedIn(old(mem), p, q, e)
    {
      mem := mem[q := Header(e, p, true)];
      mem := mem[p := mem[p].(next := q)];
      if e != MEM_SIZE {
        mem := mem[e := mem[e].(prev := q)];
      }
    }

    method SetFree(p: int, free: bool, ghost i: nat)
      requires Chain(mem, blocks) && i < |blocks| && p == blocks[i].addr
      modifies this`mem, this`blocks
      ensures Chain(mem, blocks) && blocks == Mark(old(blocks), i, free)
      ensures WritesHeaders(old(mem), mem, old(blocks), blocks) && mem.Keys == old(mem).Keys
    {
      HeaderOf(mem, blocks, i);
      MarkChain(mem, blocks, i, free);
      mem := mem[p := mem[p].(free := free)];
      blocks := Mark(blocks, i, free);
    }

    method MergeWithNext(p: int, ghost i: nat)
      requires Chain(mem, blocks) && i + 1 < |blocks| && p == blocks[i].addr
      modifies this`mem, this`blocks
      ensures Chain(mem, blocks) && blocks == MergeAt(old(blocks), i)
      ensures WritesHeaders(old(mem), mem, old(blocks), blocks) && mem.Keys == old(mem).Keys
    {
      HeaderOf(mem, blocks, i);
      HeaderOf(mem, blocks, i + 1);
      HeaderOf(mem, blocks, i + 2);
      Before(blocks, i, i + 2);
      ghost var before := mem;
      var e := mem[mem[p].next].next;
      mem := mem[p := mem[p].(next := e)];
      mem := mem[e := mem[e].(prev := p)];
      MergeChain(before, mem, blocks, i);
      assert i + 2 < |blocks| ==> e in HeaderAddrs(blocks);
      assert p in HeaderAddrs(blocks);
      blocks := MergeAt(blocks, i);
    }

    /** Split block `i` after `k` bytes. */
    method Carve(p: int, k: nat, ghost i: nat)
      requires Chain(mem, blocks) && i < |blocks| && p == blocks[i].addr
      requires HEADER <= k <= blocks[i].size - HEADER
      modifies this`mem, this`blocks
      ensures Chain(mem, blocks) && blocks == SplitAt(old(blocks), i, k)
      ensures WritesHeaders(old(mem), mem, old(blocks), blocks)
      ensures old(mem).Keys <= mem.Keys && HeaderAddrs(old(blocks)) <= HeaderAddrs(blocks)
    {
      HeaderOf(mem, blocks, i);
      HeaderOf(mem, blocks, i + 1);
      Before(blocks, i, i + 1);
      ghost var bs := blocks;
      SplitChain(mem, blocks, i, k);
      LinkHeader(p, p + k, mem[p].next);
      blocks := SplitAt(blocks, i, k);
      assert forall j :: 0 <= j < |bs| ==> blocks[if j <= i then j else j + 1].addr == bs[j].addr;
      assert blocks[i + 1].addr == p + k && p + k in HeaderAddrs(blocks);
      assert i + 1 < |bs| ==> AddrAt(bs, MEM_SIZE, i + 1) in HeaderAddrs(bs);
    }

    /** Mark block `i` used and split off a remainder that can hold data. */
    method Take(p: int, size: nat, ghost i: nat)
      requires Chain(mem, blocks) && i < |blocks| && p == blocks[i].addr && Fits(blocks[i], size, HEADER)
      modifies this`mem, this`blocks
      ensures Chain(mem, blocks) && blocks == Allocated(old(blocks), i, size + HEADER, HEADER, MIN_SIZE)
      ensures WritesHeaders(old(mem), mem, old(blocks), blocks)
    {
      HeaderOf(mem, blocks, i);
      AllocatedSplitFirst(blocks, i, size + HEADER);
      ghost var mem0, blocks0 := mem, blocks;
      if mem[p].next - (p + HEADER) >= size + HEADER + MIN_SIZE {
        Carve(p, size + HEADER, i);
      }
      ghost var mem1, blocks1 := mem, blocks;
      SetFree(p, false, i);
      AddrsAfterMark(blocks1, i, false);
      WritesCompose(mem0, mem1, mem, blocks0, blocks1, blocks);
    }

    /** mem_malloc: the lowest free block that holds the request, or NULL only when none does. */
    method Malloc(request: nat) returns (ok: bool, ptr: int, ghost i: nat)
      requires Valid() && request + 3 < U16
      modifies this
      ensures Valid() && WritesHeaders(old(mem), mem, old(blocks), blocks)
      ensures ok ==>
                && i < |old(blocks)| && old(blocks)[i].free && ptr == old(blocks)[i].addr + HEADER
                && blocks == Allocated(old(blocks), i, Rounded(request) + HEADER, HEADER, MIN_SIZE)
                && Spares(old(mem), mem, old(blocks), i)
      // The block granted holds the request, and wastes less than a word and a block worth keeping.
      ensures ok ==>
                && i < |blocks| && !blocks[i].free && blocks[i].addr == ptr - HEADER
                && request <= blocks[i].size - HEADER && MIN_SIZE <= blocks[i].size - HEADER
                && blocks[i].size - HEADER <
                   (if request < MIN_SIZE then MIN_SIZE + 1 else request + ALIGN) + HEADER + MIN_SIZE
      // No lower free block would have done.
      ensures ok ==>
                && request > 0
                && forall j :: 0 <= j < i && old(blocks)[j].free ==>
                     old(blocks)[j].size - HEADER < request || old(blocks)[j].size - HEADER < MIN_SIZE
      ensures !ok ==>
                && blocks == old(blocks) && mem == old(mem) && lfree == old(lfree)
                && (request == 0 || forall j :: 0 <= j < |blocks| && blocks[j].free ==>
                      blocks[j].size - HEADER < request || blocks[j].size - HEADER < MIN_SIZE)
    {
      ghost var mem0, blocks0 := mem, blocks;
      ok, ptr, i := Allocate(request);
      RoundedFits(0, request);
      forall j | 0 <= j < |blocks0| ensures
        Fits(blocks0[j], Rounded(request), HEADER) <==>
          blocks0[j].free && blocks0[j].size - HEADER >= request && blocks0[j].size - HEADER >= MIN_SIZE
      {
        RoundedFits(blocks0[j].size - HEADER, request);
      }
      if ok {
        AllocatedAt(blocks0, i, Rounded(request) + HEADER, HEADER, MIN_SIZE);
        AllocatedKeepsOthers(blocks0, i, Rounded(request) + HEADER);
        OthersSpared(mem0, mem, blocks0, blocks, i);
      }
    }

    method Allocate(request: nat) returns (ok: bool, ptr: int, ghost i: nat)
      requires Valid() && request + 3 < U16
      modifies this
      ensures Valid() && WritesHeaders(old(mem), mem, old(blocks), blocks)
      ensures if ok then
                && request > 0 && i < |old(blocks)|
                && Fits(old(blocks)[i], Rounded(request), HEADER)
                && NoneFits(old(blocks), 0, i, Rounded(request), HEADER)
                && ptr == old(blocks)[i].addr + HEADER
                && blocks == Allocated(old(blocks), i, Rounded(request) + HEADER, HEADER, MIN_SIZE)
              else
                && (request == 0 || NoneFits(old(blocks), 0, |old(blocks)|, Rounded(request), HEADER))
                && blocks == old(blocks) && mem == old(mem) && lfree == old(lfree)
    {
      ok, ptr, i := false, 0, 0;
      if request == 0 {
        return;
      }
      var size := Rounded(request);
      if size > MEM_SIZE {
        forall j | 0 <= j < |blocks| ensures !Fits(blocks[j], size, HEADER) {
          Before(blocks, j, |blocks|);
        }
        return;
      }
      var p;
      ok, p, i := Scan(size);
      if ok {
        AllocatedKeepsHeap(blocks, i, size + HEADER, 0, MEM_SIZE, HEADER, MIN_SIZE);
        RoundedFits(0, request);
        AllocatedWhole(blocks, i, size + HEADER, HEADER, MIN_SIZE);
        if low < i { Before(blocks, low, i); } else if i < low && low < |blocks| { Before(blocks, i, low); }
        Take(p, size, i);
        if p == lfree {
          AdvanceLowest();
        }
        ptr := p + HEADER;
      }
    }

    /** The forward half of plug_holes, after block `i` has been marked free. */
    method PlugForward(p: int, ghost i: nat)
      requires Chain(mem, blocks) && i < |blocks| && p == blocks[i].addr && blocks[i].free
      requires LowestCached()
      modifies this
      ensures Chain(mem, blocks) && LowestCached() && blocks == MergeNext(old(blocks), i)
      ensures WritesHeaders(old(mem), mem, old(blocks), blocks) && mem.Keys == old(mem).Keys
      ensures HeaderAddrs(blocks) <= HeaderAddrs(old(blocks))
    {
      assert low <= i;
      HeaderOf(mem, blocks, i);
      HeaderOf(mem, blocks, i + 1);
      Before(blocks, i, i + 1);
      if low < i { Before(blocks, low, i); }
      var n := mem[p].next;
      if p != n && mem[n].free && n != MEM_SIZE {
        lfree := if lfree == n then p else lfree;
        AddrsAfterMerge(blocks, i);
        MergeWithNext(p, i);
      }
    }

    /** The backward half of plug_holes. */
    method PlugBackward(p: int, ghost i: nat)
      requires Chain(mem, blocks) && i < |blocks| && p == blocks[i].addr && blocks[i].free
      requires LowestCached()
      modifies this
      ensures Chain(mem, blocks) && LowestCached()
      ensures blocks == if i > 0 && old(blocks)[i - 1].free then MergeAt(old(blocks), i - 1) else old(blocks)
      ensures WritesHeaders(old(mem), mem, old(blocks), blocks) && mem.Keys == old(mem).Keys
      ensures HeaderAddrs(blocks) <= HeaderAddrs(old(blocks))
    {
      HeaderOf(mem, blocks, i);
      var q := mem[p].prev;
      if i > 0 {
        HeaderOf(mem, blocks, i - 1);
        Before(blocks, i - 1, i);
      }
      if q != p && mem[q].free {
        assert low <= i - 1;
        if low < i { Before(blocks, low, i); }
        lfree := if lfree == p then q else lfree;
        AddrsAfterMerge(blocks, i - 1);
        MergeWithNext(q, i - 1);
      }
    }

    method PlugHoles(p: int, ghost i: nat)
      requires Chain(mem, blocks) && i < |blocks| && p == blocks[i].addr && blocks[i].free
      requires LowestCached()
      modifies this
      ensures Chain(mem, blocks) && LowestCached()
      ensures var m := MergeNext(old(blocks), i);
              blocks == if i > 0 && old(blocks)[i - 1].free then MergeAt(m, i - 1) else m
      ensures WritesHeaders(old(mem), mem, old(blocks), blocks) && mem.Keys == old(mem).Keys
      ensures HeaderAddrs(blocks) <= HeaderAddrs(old(blocks))
    {
      ghost var mem0, blocks0 := mem, blocks;
      PlugForward(p, i);
      ghost var mem1, blocks1 := mem, blocks;
      PlugBackward(p, i);
      WritesCompose(mem0, mem1, mem, blocks0, blocks1, blocks);
    }

    /** mem_free; a pointer outside the heap, such as NULL, is ignored. */
    method Free(rmem: int)
      requires Valid()
      requires 0 <= rmem < MEM_SIZE ==> rmem - HEADER in UsedAddrs(blocks)
      modifies this
      ensures Valid() && WritesHeaders(old(mem), mem, old(blocks), blocks)
      ensures if 0 <= rmem < MEM_SIZE then
                var i := IndexOf(old(blocks), rmem - HEADER);
                blocks == Freed(old(blocks), i) && Spares(old(mem), mem, old(blocks), i)
              else
                blocks == old(blocks) && mem == old(mem) && lfree == old(lfree)
    {
      ghost var mem0, blocks0 := mem, blocks;
      Release(rmem);
      if 0 <= rmem < MEM_SIZE {
        ghost var i := IndexOf(blocks0, rmem - HEADER);
        FreedKeepsOthers(blocks0, i);
        OthersSpared(mem0, mem, blocks0, blocks, i);
      }
    }

    method Release(rmem: int)
      requires Valid()
      requires 0 <= rmem < MEM_SIZE ==> rmem - HEADER in UsedAddrs(blocks)
      modifies this
      ensures Valid() && WritesHeaders(old(mem), mem, old(blocks), blocks)
      ensures if 0 <= rmem < MEM_SIZE then
                var i := IndexOf(old(blocks), rmem - HEADER);
                blocks == Freed(old(blocks), i)
              else
                blocks == old(blocks) && mem == old(mem) && lfree == old(lfree)
    {
      if rmem < 0 || rmem >= MEM_SIZE {
        return;
      }
      var p := rmem - HEADER;
      ghost var i := IndexOf(blocks, p);
      FreedCoalesced(blocks, i);
      FreedWhole(blocks, i);
      ghost var mem0, blocks0 := mem, blocks;
      AddrsAfterMark(blocks, i, true);
      if low < i { Before(blocks, low, i); } else if i < low { Before(blocks, i, low); }
      SetFree(p, true, i);
      ghost var mem1, blocks1 := mem, blocks;
      if p < lfree {
        lfree, low := p, i;
      }
      PlugHoles(p, i);
      WritesCompose(mem0, mem1, mem, blocks0, blocks1, blocks);
    }

    /** The branch of mem_trim that moves a free successor down. */
    method MoveBorder(p: int, k: nat, ghost i: nat)
      requires Chain(mem, blocks) && LowestCached() && i + 1 < |blocks| && p == blocks[i].addr
      requires HEADER <= k < blocks[i].size && !blocks[i].free && blocks[i + 1].free
      modifies this
      ensures Chain(mem, blocks) && LowestCached() && blocks == Shift(old(blocks), i, k)
      ensures WritesHeaders(old(mem), mem, old(blocks), blocks)
    {
      HeaderOf(mem, blocks, i);
      HeaderOf(mem, blocks, i + 1);
      HeaderOf(mem, blocks, i + 2);
      Before(blocks, i, i + 2);
      Before(blocks, i + 1, i + 2);
      ghost var bs := blocks;
      assert low <= i + 1 && low != i;
      if low < i { Before(blocks, low, i + 1); }
      var n := mem[p].next;
      var e := mem[n].next;
      lfree := if lfree == n then p + k else lfree;
      ShiftChain(mem, blocks, i, k);
      LinkHeader(p, p + k, e);
      blocks := Shift(blocks, i, k);
      assert blocks[i + 1].addr == p + k && p + k in HeaderAddrs(blocks);
      assert i + 2 < |bs| ==> AddrAt(bs, MEM_SIZE, i + 2) in HeaderAddrs(bs);
      assert p in HeaderAddrs(bs);
    }

    /** mem_trim: shrink an allocated block in place; growing is refused. */
    method Trim(rmem: int, request: nat) returns (ok: bool)
      requires Valid() && request + 3 < U16
      requires 0 <= rmem < MEM_SIZE ==> rmem - HEADER in UsedAddrs(blocks)
      modifies this
      ensures Valid() && WritesHeaders(old(mem), mem, old(blocks), blocks)
      ensures 0 <= rmem < MEM_SIZE ==>
                var payload := old(blocks)[IndexOf(old(blocks), rmem - HEADER)].size - HEADER;
                ok <==> request <= payload && MIN_SIZE <= payload && Rounded(request) <= MEM_SIZE
      ensures !(0 <= rmem < MEM_SIZE) ==> (ok <==> Rounded(request) <= MEM_SIZE)
      ensures if ok && 0 <= rmem < MEM_SIZE then
                var i := IndexOf(old(blocks), rmem - HEADER);
                blocks == Resized(old(blocks), i, Rounded(request) + HEADER) && Spares(old(mem), mem, old(blocks), i)
              else
                blocks == old(blocks) && mem == old(mem) && lfree == old(lfree)
      // The block still holds the request, and whatever more it held is free now, unless too little to keep.
      ensures ok && 0 <= rmem < MEM_SIZE ==>
                TrimmedWell(old(blocks), blocks, IndexOf(old(blocks), rmem - HEADER), request)
    {
      var newsize := Rounded(request);
      ok := newsize <= MEM_SIZE;
      if ok && 0 <= rmem < MEM_SIZE {
        ghost var mem0, blocks0, i := mem, blocks, IndexOf(blocks, rmem - HEADER);
        RoundedFits(blocks0[i].size - HEADER, request);
        ok := TrimAt(rmem - HEADER, newsize, i);
        ResizedKeepsOthers(blocks0, i, newsize + HEADER);
        OthersSpared(mem0, mem, blocks0, blocks, i);
        if ok {
          ResizedWell(blocks0, i, request);
        }
      }
    }

    method TrimAt(p: int, newsize: nat, ghost i: nat) returns (ok: bool)
      requires Valid() && i < |blocks| && p == blocks[i].addr && !blocks[i].free && newsize % ALIGN == 0
      modifies this
      ensures Valid() && WritesHeaders(old(mem), mem, old(blocks), blocks)
      ensures ok == (newsize + HEADER <= old(blocks)[i].size)
      ensures blocks == Resized(old(blocks), i, newsize + HEADER)
      ensures !ok ==> mem == old(mem) && lfree == old(lfree)
    {
      HeaderOf(mem, blocks, i);
      ResizedWhole(blocks, i, newsize + HEADER);
      var size := mem[p].next - p - HEADER;
      ok := newsize <= size;
      if newsize < size {
        TrimmedCoalesced(blocks, i, newsize + HEADER);
        TrimBlock(p, newsize, size, i);
      }
    }

    /** Shrink a block: move the border to a free successor, or cut a worthwhile tail off. */
    method TrimBlock(p: int, newsize: nat, size: nat, ghost i: nat)
      requires Chain(mem, blocks) && LowestCached() && i < |blocks| && p == blocks[i].addr && !blocks[i].free
      requires newsize < size == blocks[i].size - HEADER
      modifies this
      ensures Chain(mem, blocks) && LowestCached() && blocks == Trimmed(old(blocks), i, newsize + HEADER)
      ensures WritesHeaders(old(mem), mem, old(blocks), blocks)
    {
      HeaderOf(mem, blocks, i);
      HeaderOf(mem, blocks, i + 1);
      if mem[mem[p].next].free {
        MoveBorder(p, newsize + HEADER, i);
      } else if newsize + HEADER + MIN_SIZE <= size {
        CutTail(p, newsize + HEADER, i);
      }
    }

    /** The branch of mem_trim that makes a new free block of the tail. */
    method CutTail(p: int, k: nat, ghost i: nat)
      requires Chain(mem, blocks) && LowestCached() && i < |blocks| && p == blocks[i].addr && !blocks[i].free
      requires HEADER <= k <= blocks[i].size - HEADER
      modifies this
      ensures Chain(mem, blocks) && LowestCached() && blocks == SplitAt(old(blocks), i, k)
      ensures WritesHeaders(old(mem), mem, old(blocks), blocks)
    {
      Before(blocks, i, i + 1);
      if low < i { Before(blocks, low, i); } else if i + 1 < low { Before(blocks, i + 1, low); }
      if p + k < lfree {
        lfree, low := p + k, i + 1;
      }
      Carve(p, k, i);
    }
  }
}
