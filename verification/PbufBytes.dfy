/**
  Packet buffers as byte strings: a chain of buffers, each with its own data and the total
  length from there on, read and written as if it were one flat packet.
 */
module PbufBytes {

  const U16: nat := 0x1_0000

  /** One buffer: its bytes (`len` of them) and `tot_len`. */
  datatype Pbuf = Pbuf(data: seq<int>, tot: nat)

  type Chain = seq<Pbuf>

  /** The packet a chain stands for. */
  ghost function Flat(c: Chain): seq<int>
    decreases |c|
  {
    if c == [] then [] else c[0].data + Flat(c[1..])
  }

  /** Every total equals the bytes from there to the end, and fits its 16-bit field. */
  ghost predicate Totals(c: Chain)
    decreases |c|
  {
    c == [] || (c[0].tot == |Flat(c)| < U16 && Totals(c[1..]))
  }

  ghost predicate NoEmpty(c: Chain) {
    forall i :: 0 <= i < |c| ==> c[i].data != []
  }

  lemma {:induction false} FlatAppend(a: Chain, b: Chain)
    ensures Flat(a + b) == Flat(a) + Flat(b)
    decreases |a|
  {
    if a == [] {
      assert a + b == b;
    } else {
      FlatAppend(a[1..], b);
      assert (a + b)[1..] == a[1..] + b;
    }
  }

  lemma FlatTail(c: Chain, i: nat)
    requires i < |c|
    ensures Flat(c[i..]) == c[i].data + Flat(c[i + 1..])
  {
    assert c[i..][1..] == c[i + 1..];
  }

  lemma FlatSnoc(c: Chain, i: nat)
    requires i < |c|
    ensures Flat(c[..i + 1]) == Flat(c[..i]) + c[i].data
  {
    assert c[..i + 1] == c[..i] + [c[i]];
    FlatAppend(c[..i], [c[i]]);
    assert Flat([c[i]]) == c[i].data + [];
  }

  lemma FlatDone(c: Chain, i: nat)
    requires i <= |c|
    ensures Flat(c) == Flat(c[..i]) + Flat(c[i..])
  {
    assert c == c[..i] + c[i..];
    FlatAppend(c[..i], c[i..]);
  }

  lemma {:induction false} TotalsAt(c: Chain, i: nat)
    requires Totals(c) && i < |c|
    ensures c[i].tot == |Flat(c[i..])| < U16 && Totals(c[i..])
    decreases |c|
  {
    if i == 0 {
      assert c[0..] == c;
    } else {
      TotalsAt(c[1..], i - 1);
      assert c[1..][i - 1..] == c[i..];
    }
  }

  function Min(a: int, b: int): int {
    if a < b then a else b
  }

  /** At most `len` bytes of `s` from `offset` on. */
  ghost function Slice(s: seq<int>, offset: nat, len: nat): seq<int> {
    var from := Min(offset, |s|);
    s[from..Min(from + len, |s|)]
  }

  lemma SliceSkip(d: seq<int>, rest: seq<int>, offset: nat, len: nat)
    requires offset >= |d|
    ensures Slice(d + rest, offset, len) == Slice(rest, offset - |d|, len)
  {
  }

  lemma SliceTake(out: seq<int>, d: seq<int>, rest: seq<int>, offset: nat, len: nat, n: nat)
    requires offset <= |d| && n == Min(|d| - offset, len)
    ensures out + Slice(d + rest, offset, len) == (out + d[offset..offset + n]) + Slice(rest, 0, len - n)
  {
  }

  /** pbuf_copy_partial: a slice of the flat packet. */
  method CopyPartial(c: Chain, len: nat, offset: nat) returns (out: seq<int>)
    ensures out == Slice(Flat(c), offset, len)
    ensures offset + len <= |Flat(c)| ==> out == Flat(c)[offset..offset + len]
    ensures offset <= |Flat(c)| < offset + len ==> out == Flat(c)[offset..]
    ensures offset > |Flat(c)| ==> out == []
  {
    out := [];
    var left: nat, off: nat, i: nat := len, offset, 0;
    assert c[0..] == c;
    while left != 0 && i < |c|
      invariant i <= |c|
      invariant Slice(Flat(c), offset, len) == out + Slice(Flat(c[i..]), off, left)
    {
      FlatTail(c, i);
      if off != 0 && off >= |c[i].data| {
        SliceSkip(c[i].data, Flat(c[i + 1..]), off, left);
        off := off - |c[i].data|;
      } else {
        var n := |c[i].data| - off;
        if n > left {
          n := left;
        }
        SliceTake(out, c[i].data, Flat(c[i + 1..]), off, left, n);
        out := out + c[i].data[off..off + n];
        left := left - n;
        off := 0;
      }
      i := i + 1;
    }
    assert Slice(Flat(c[i..]), off, left) == [];
  }

  // Writing into a chain.

  /** Overwrite part of buffer `i`, from its byte `o` on. */
  function Put(c: Chain, i: nat, o: nat, b: seq<int>): Chain
    requires i < |c| && o + |b| <= |c[i].data|
  {
    c[i := c[i].(data := c[i].data[..o] + b + c[i].data[o + |b|..])]
  }

  /** Overwrite part of a flat packet. */
  ghost function Patch(s: seq<int>, pos: nat, b: seq<int>): seq<int>
    requires pos + |b| <= |s|
  {
    s[..pos] + b + s[pos + |b|..]
  }

  lemma PatchMiddle(a: seq<int>, d: seq<int>, z: seq<int>, o: nat, b: seq<int>)
    requires o + |b| <= |d|
    ensures a + (d[..o] + b + d[o + |b|..]) + z == Patch(a + d + z, |a| + o, b)
  {
  }

  lemma FlatAround(c: Chain, i: nat)
    requires i < |c|
    ensures Flat(c) == Flat(c[..i]) + c[i].data + Flat(c[i + 1..])
  {
    FlatDone(c, i);
    FlatTail(c, i);
  }

  /** Writing into one buffer patches the flat packet at that place. */
  lemma PutPatches(c: Chain, i: nat, o: nat, b: seq<int>)
    requires i < |c| && o + |b| <= |c[i].data|
    ensures |Flat(c[..i])| + o + |b| <= |Flat(c)|
    ensures Flat(Put(c, i, o, b)) == Patch(Flat(c), |Flat(c[..i])| + o, b)
  {
    var r := Put(c, i, o, b);
    FlatAround(c, i);
    FlatAround(r, i);
    assert r[..i] == c[..i] && r[i + 1..] == c[i + 1..];
    PatchMiddle(Flat(c[..i]), c[i].data, Flat(c[i + 1..]), o, b);
  }

  /** The same buffers with other bytes in them. */
  ghost predicate SameShape(c: Chain, d: Chain) {
    |c| == |d| && forall i :: 0 <= i < |c| ==> |d[i].data| == |c[i].data| && d[i].tot == c[i].tot
  }

  lemma {:induction false} SameShapeTotals(c: Chain, d: Chain)
    requires SameShape(c, d)
    ensures |Flat(c)| == |Flat(d)| && (Totals(c) ==> Totals(d))
    decreases |c|
  {
    if c != [] {
      SameShapeTotals(c[1..], d[1..]);
    }
  }

  lemma SameShapePrefix(c: Chain, d: Chain, i: nat)
    requires SameShape(c, d) && i <= |c|
    ensures |Flat(c[..i])| == |Flat(d[..i])|
  {
    SameShapeTotals(c[..i], d[..i]);
  }

  /** What has been written so far: a prefix of `src` over the start of `dst`. */
  ghost predicate Written(dst: seq<int>, src: seq<int>, n: nat, now: seq<int>) {
    n <= |src| <= |dst| && now == src[..n] + dst[n..]
  }

  lemma WriteMore(dst: seq<int>, src: seq<int>, n: nat, now: seq<int>, k: nat)
    requires Written(dst, src, n, now) && n + k <= |src|
    ensures |now| == |dst| && Written(dst, src, n + k, Patch(now, n, src[n..n + k]))
  {
  }

  /** pbuf_take: application data replaces the start of the packet. */
  method Take(c: Chain, data: seq<int>) returns (ok: bool, r: Chain)
    requires c != [] && Totals(c)
    ensures SameShape(c, r) && Totals(r)
    ensures ok <==> |data| <= |Flat(c)|
    ensures if ok then Flat(r) == data + Flat(c)[|data|..] else r == c
  {
    r := c;
    if c[0].tot < |data| {
      return false, r;
    }
    var left: nat, copied: nat, i: nat := |data|, 0, 0;
    assert c[..0] == [];
    while left != 0
      invariant i <= |c| && copied + left == |data| && SameShape(c, r)
      invariant left != 0 ==> copied == |Flat(c[..i])|
      invariant Written(Flat(c), data, copied, Flat(r))
      decreases |c| - i
    {
      assert c[..|c|] == c;
      if i == |c| {
        assert false;
      }
      var n := if left > |r[i].data| then |r[i].data| else left;
      SameShapePrefix(c, r, i);
      FlatSnoc(c, i);
      WriteMore(Flat(c), data, copied, Flat(r), n);
      PutPatches(r, i, 0, data[copied..copied + n]);
      r := Put(r, i, 0, data[copied..copied + n]);
      left, copied, i := left - n, copied + n, i + 1;
    }
    SameShapeTotals(c, r);
    assert data[..copied] == data;
    ok := true;
  }

  /** Reading back what was put in gives it unchanged, whatever the shape of the chain. */
  method PutThenGet(c: Chain, data: seq<int>) returns (ok: bool, back: seq<int>)
    requires c != [] && Totals(c)
    ensures ok <==> |data| <= |Flat(c)|
    ensures ok ==> back == data
  {
    var r;
    ok, r := Take(c, data);
    back := CopyPartial(r, |data|, 0);
    assert ok ==> Slice(Flat(r), 0, |data|) == data;
  }

  // Shrinking and joining.

  /** The chain cut to its first `n` bytes, with its totals. */
  ghost function Shrunk(c: Chain, n: nat): Chain
    decreases |c|
  {
    if c == [] then []
    else if n <= |c[0].data| then [Pbuf(c[0].data[..n], n)]
    else [Pbuf(c[0].data, n)] + Shrunk(c[1..], n - |c[0].data|)
  }

  lemma {:induction false} ShrunkIsPrefix(c: Chain, n: nat)
    requires c != [] && n <= |Flat(c)| && n < U16
    ensures Flat(Shrunk(c, n)) == Flat(c)[..n] && Totals(Shrunk(c, n)) && Shrunk(c, n) != []
    decreases |c|
  {
    if n <= |c[0].data| {
      assert Flat(Shrunk(c, n)) == c[0].data[..n] + Flat([]);
    } else {
      var k := n - |c[0].data|;
      assert c[1..] != [];
      ShrunkIsPrefix(c[1..], k);
      assert Shrunk(c, n)[1..] == Shrunk(c[1..], k);
    }
  }

  lemma ShrunkStep(c: Chain, i: nat, n: nat)
    requires i < |c|
    ensures Shrunk(c[i..], n) == if n <= |c[i].data| then [Pbuf(c[i].data[..n], n)]
                                 else [Pbuf(c[i].data, n)] + Shrunk(c[i + 1..], n - |c[i].data|)
  {
    assert c[i..][1..] == c[i + 1..];
  }

  /** Keeping one more buffer whole. */
  lemma ShrunkTurn(c: Chain, i: nat, n: nat, kept: Chain, all: Chain)
    requires i < |c| && n > |c[i].data| && all == kept + Shrunk(c[i..], n)
    ensures all == kept + [Pbuf(c[i].data, n)] + Shrunk(c[i + 1..], n - |c[i].data|)
  {
    ShrunkStep(c, i, n);
  }

  /** A buffer that stays whole: its new total, in 16-bit arithmetic, is what remains. */
  lemma KeptTotal(c: Chain, i: nat, newLen: nat, rem: nat)
    requires c != [] && Totals(c) && i < |c| && rem > |c[i].data|
    requires rem + |Flat(c[..i])| == newLen < |Flat(c)|
    ensures (c[i].tot + (newLen - c[0].tot + U16)) % U16 == rem
    ensures i + 1 < |c| && rem - |c[i].data| + |Flat(c[..i + 1])| == newLen
  {
    TotalsAt(c, 0);
    TotalsAt(c, i);
    FlatDone(c, i);
    FlatSnoc(c, i);
    FlatTail(c, i);
    assert c[0..] == c;
    assert c[i].tot + (newLen - c[0].tot + U16) == rem + U16;
  }

  /** pbuf_realloc: the packet is cut to its first `newLen` bytes; it is never enlarged. */
  method Realloc(c: Chain, newLen: nat) returns (r: Chain)
    requires c != [] && Totals(c)
    ensures r != [] && Totals(r)
    ensures Flat(r) == if newLen >= |Flat(c)| then Flat(c) else Flat(c)[..newLen]
  {
    r := c;
    if newLen >= c[0].tot {
      return;
    }
    ShrunkIsPrefix(c, newLen);
    r := Shrink(c, newLen);
  }

  method Shrink(c: Chain, newLen: nat) returns (r: Chain)
    requires c != [] && Totals(c) && newLen < |Flat(c)|
    ensures r == Shrunk(c, newLen)
  {
    var grow := newLen - c[0].tot;
    var rem: nat, i: nat := newLen, 0;
    var kept: Chain := [];
    assert c[0..] == c && c[..0] == [];
    while rem > |c[i].data|
      invariant i < |c|
      invariant rem + |Flat(c[..i])| == newLen
      invariant Shrunk(c, newLen) == kept + Shrunk(c[i..], rem)
      decreases |c| - i
    {
      KeptTotal(c, i, newLen, rem);
      ShrunkTurn(c, i, rem, kept, Shrunk(c, newLen));
      kept := kept + [c[i].(tot := (c[i].tot + (grow + U16)) % U16)];
      rem := rem - |c[i].data|;
      i := i + 1;
    }
    ShrunkStep(c, i, rem);
    r := kept + [Pbuf(c[i].data[..rem], rem)];
  }

  /** The chain without its first `off` bytes: emptied buffers stay in front. */
  ghost function Trimmed(c: Chain, off: nat, total: nat): Chain
    decreases |c|
  {
    if c == [] then []
    else if |c[0].data| < off then [Pbuf([], total)] + Trimmed(c[1..], off - |c[0].data|, total)
    else [Pbuf(c[0].data[off..], total)] + c[1..]
  }

  lemma {:induction false} TrimmedIsSuffix(c: Chain, off: nat, total: nat)
    requires Totals(c) && off <= |Flat(c)| && total == |Flat(c)| - off
    ensures Flat(Trimmed(c, off, total)) == Flat(c)[off..] && Totals(Trimmed(c, off, total))
    decreases |c|
  {
    if c != [] {
      var r := Trimmed(c, off, total);
      if |c[0].data| < off {
        TrimmedIsSuffix(c[1..], off - |c[0].data|, total);
        assert r[1..] == Trimmed(c[1..], off - |c[0].data|, total);
      } else {
        assert r[1..] == c[1..];
      }
    }
  }

  /** The front trim of tcp_receive: empty the buffers passed over, then move the payload
      pointer of the one the new start lies in. */
  method TrimFront(c: Chain, off: nat) returns (r: Chain)
    requires c != [] && Totals(c) && off <= |Flat(c)|
    ensures Flat(r) == Flat(c)[off..] && Totals(r) && r != []
  {
    TrimmedIsSuffix(c, off, |Flat(c)| - off);
    r := TrimLoop(c, off);
  }

  lemma TrimmedStep(c: Chain, i: nat, off: nat, total: nat)
    requires i < |c|
    ensures Trimmed(c[i..], off, total) ==
              if |c[i].data| < off then [Pbuf([], total)] + Trimmed(c[i + 1..], off - |c[i].data|, total)
              else [Pbuf(c[i].data[off..], total)] + c[i + 1..]
  {
    assert c[i..][1..] == c[i + 1..];
  }

  method TrimLoop(c: Chain, off: nat) returns (r: Chain)
    requires c != [] && Totals(c) && off <= |Flat(c)|
    ensures r == Trimmed(c, off, |Flat(c)| - off) && r != []
  {
    var total := c[0].tot - off;
    var left: nat, i: nat := off, 0;
    var front: Chain := [];
    assert c[0..] == c;
    while |c[i].data| < left
      invariant i < |c| && |Flat(c[i..])| - left == total
      invariant Trimmed(c, off, total) == front + Trimmed(c[i..], left, total)
      decreases |c| - i
    {
      FlatTail(c, i);
      TrimmedStep(c, i, left, total);
      assert i + 1 < |c|;
      front := front + [Pbuf([], total)];
      left := left - |c[i].data|;
      i := i + 1;
    }
    TotalsAt(c, i);
    TrimmedStep(c, i, left, total);
    r := front + ([Pbuf(c[i].data[left..], c[i].tot - left)] + c[i + 1..]);
  }

  ghost function Bumped(c: Chain, k: nat): Chain {
    seq(|c|, i requires 0 <= i < |c| => c[i].(tot := c[i].tot + k))
  }

  lemma {:induction false} JoinedTotals(h: Chain, t: Chain)
    requires Totals(h) && Totals(t) && |Flat(h)| + |Flat(t)| < U16
    ensures Totals(Bumped(h, |Flat(t)|) + t) && Flat(Bumped(h, |Flat(t)|) + t) == Flat(h) + Flat(t)
    decreases |h|
  {
    var b := Bumped(h, |Flat(t)|);
    if h == [] {
      assert b + t == t;
    } else {
      JoinedTotals(h[1..], t);
      assert Bumped(h[1..], |Flat(t)|) == b[1..];
      assert (b + t)[1..] == b[1..] + t;
    }
  }

  /** pbuf_cat: concatenation. */
  method Cat(h: Chain, t: Chain) returns (r: Chain)
    requires h != [] && t != [] && Totals(h) && Totals(t) && |Flat(h)| + |Flat(t)| < U16
    ensures Totals(r) && Flat(r) == Flat(h) + Flat(t)
  {
    r := h;
    for i := 0 to |h|
      invariant |r| == |h|
      invariant forall j :: 0 <= j < |h| ==> r[j] == if j < i then Bumped(h, t[0].tot)[j] else h[j]
    {
      r := r[i := r[i].(tot := r[i].tot + t[0].tot)];
    }
    assert r == Bumped(h, t[0].tot);
    JoinedTotals(h, t);
    r := r + t;
  }

  // Copying between chains of different shapes.

  datatype Err = Ok | ErrArg | ErrVal

  /** Byte `o` of buffer `i` is byte `pos` of the flat packet; past the last buffer, `pos` is
      its length. */
  ghost predicate Cursor(c: Chain, i: nat, o: nat, pos: nat) {
    && i <= |c| && pos == |Flat(c[..i])| + o
    && (i < |c| ==> o < |c[i].data|)
    && (i == |c| ==> o == 0)
  }

  lemma CursorRead(c: Chain, i: nat, o: nat, pos: nat, n: nat)
    requires Cursor(c, i, o, pos) && i < |c| && o + n <= |c[i].data|
    ensures pos + n <= |Flat(c)| && Flat(c)[pos..pos + n] == c[i].data[o..o + n]
  {
    FlatAround(c, i);
    MiddlePart(Flat(c[..i]), c[i].data, Flat(c[i + 1..]), o, n);
  }

  lemma MiddlePart(a: seq<int>, d: seq<int>, z: seq<int>, o: nat, n: nat)
    requires o + n <= |d|
    ensures (a + d + z)[|a| + o..|a| + o + n] == d[o..o + n]
  {
  }

  /** Moving on by `n` bytes, into the next buffer when this one is used up. */
  lemma CursorMoves(c: Chain, i: nat, o: nat, pos: nat, n: nat)
    requires NoEmpty(c) && Cursor(c, i, o, pos) && i < |c| && o + n <= |c[i].data|
    ensures if o + n == |c[i].data| then Cursor(c, i + 1, 0, pos + n) else Cursor(c, i, o + n, pos + n)
  {
    FlatSnoc(c, i);
  }

  lemma CursorEnd(c: Chain, i: nat, o: nat, pos: nat)
    requires Cursor(c, i, o, pos)
    ensures i == |c| <==> pos == |Flat(c)|
    ensures pos <= |Flat(c)|
  {
    if i < |c| {
      FlatAround(c, i);
    } else {
      assert c[..i] == c;
    }
  }

  /** The end-of-packet test of pbuf_copy never finds a further packet behind. */
  lemma LastOnly(c: Chain, i: nat)
    requires Totals(c) && NoEmpty(c) && i < |c| && |c[i].data| == c[i].tot
    ensures i + 1 == |c|
  {
    TotalsAt(c, i);
    FlatTail(c, i);
    if i + 1 < |c| {
      FlatTail(c, i + 1);
    }
  }

  predicate Queued(c: Chain, i: nat) {
    i < |c| && |c[i].data| == c[i].tot && i + 1 < |c|
  }

  /** Both cursors stand at `pos`, and the bytes before it have been copied. */
  ghost predicate Copying(to: Chain, from: Chain, r: Chain, i: nat, oi: nat, j: nat, oj: nat, pos: nat) {
    && SameShape(to, r) && Cursor(to, i, oi, pos) && Cursor(from, j, oj, pos)
    && Written(Flat(to), Flat(from), pos, Flat(r))
  }

  lemma ChunkFits(to: Chain, from: Chain, r: Chain, i: nat, oi: nat, j: nat, oj: nat, pos: nat)
    requires Copying(to, from, r, i, oi, j, oj, pos) && i < |r| && j < |from|
    ensures |r[i].data| == |to[i].data| && oi < |to[i].data| && oj < |from[j].data|
    ensures var n := Min(|from[j].data| - oj, |to[i].data| - oi);
            pos + n <= |Flat(from)| && Flat(from)[pos..pos + n] == from[j].data[oj..oj + n]
  {
    var n := Min(|from[j].data| - oj, |to[i].data| - oi);
    CursorRead(from, j, oj, pos, n);
  }

  /** One turn of the copy loop, up to the nearer end of the two current buffers. */
  method CopyTurn(to: Chain, from: Chain, r: Chain, i: nat, oi: nat, j: nat, oj: nat, ghost pos: nat)
    returns (r': Chain, i': nat, oi': nat, j': nat, oj': nat, ghost pos': nat)
    requires NoEmpty(to) && NoEmpty(from)
    requires Copying(to, from, r, i, oi, j, oj, pos) && i < |r| && j < |from|
    ensures Copying(to, from, r', i', oi', j', oj', pos') && pos < pos'
  {
    var n := if |r[i].data| - oi >= |from[j].data| - oj then |from[j].data| - oj else |r[i].data| - oi;
    ChunkFits(to, from, r, i, oi, j, oj, pos);
    var b := from[j].data[oj..oj + n];
    WriteChunk(to, from, r, i, oi, pos, b);
    r' := Put(r, i, oi, b);
    j', oj' := StepOn(from, j, oj, n, pos);
    i', oi' := StepOn(to, i, oi, n, pos);
    pos' := pos + n;
  }

  /** Move a cursor on, to the next buffer when this one is used up. */
  method StepOn(c: Chain, i: nat, o: nat, n: nat, ghost pos: nat) returns (i': nat, o': nat)
    requires NoEmpty(c) && Cursor(c, i, o, pos) && i < |c| && o + n <= |c[i].data|
    ensures Cursor(c, i', o', pos + n)
  {
    CursorMoves(c, i, o, pos, n);
    i', o' := i, o + n;
    if o' >= |c[i].data| {
      i', o' := i + 1, 0;
    }
  }

  /** None of the loop's error exits is ever taken. */
  lemma NoErrors(to: Chain, from: Chain, r: Chain, i: nat, oi: nat, j: nat, oj: nat, pos: nat)
    requires Totals(to) && Totals(from) && NoEmpty(to) && NoEmpty(from)
    requires Copying(to, from, r, i, oi, j, oj, pos)
    ensures j < |from| ==> i < |r| && pos < |Flat(from)|
    ensures j >= |from| ==> pos == |Flat(from)|
    ensures !Queued(from, j) && !Queued(r, i)
  {
    CursorEnd(to, i, oi, pos);
    CursorEnd(from, j, oj, pos);
    if Queued(from, j) {
      LastOnly(from, j);
    }
    if Queued(to, i) {
      LastOnly(to, i);
    }
  }

  /** pbuf_copy: the source packet replaces the start of the destination, whatever the two
      chains' shapes; refused exactly when the destination is too short. */
  method Copy(to: Chain, from: Chain) returns (err: Err, r: Chain)
    requires to != [] && from != [] && Totals(to) && Totals(from) && NoEmpty(to) && NoEmpty(from)
    ensures SameShape(to, r) && Totals(r)
    ensures err == if |Flat(from)| <= |Flat(to)| then Ok else ErrArg
    ensures if err == Ok then Flat(r) == Flat(from) + Flat(to)[|Flat(from)|..] else r == to
  {
    r := to;
    if to[0].tot < from[0].tot {
      return ErrArg, r;
    }
    err := Ok;
    var i: nat, oi: nat, j: nat, oj: nat := 0, 0, 0, 0;
    ghost var pos: nat := 0;
    assert to[..0] == [] && from[..0] == [];
    NoErrors(to, from, r, i, oi, j, oj, pos);
    while j < |from| && err == Ok
      invariant err == Ok && Copying(to, from, r, i, oi, j, oj, pos)
      invariant j < |from| ==> i < |r|
      invariant j >= |from| ==> pos == |Flat(from)|
      decreases |Flat(from)| - pos
    {
      NoErrors(to, from, r, i, oi, j, oj, pos);
      r, i, oi, j, oj, pos := CopyTurn(to, from, r, i, oi, j, oj, pos);
      NoErrors(to, from, r, i, oi, j, oj, pos);
      err := if i == |r| && j < |from| then ErrArg
             else if Queued(from, j) || Queued(r, i) then ErrVal else Ok;
    }
    SameShapeTotals(to, r);
    assert Flat(from)[..pos] == Flat(from);
  }

  lemma PutShape(to: Chain, r: Chain, i: nat, o: nat, b: seq<int>)
    requires SameShape(to, r) && i < |to| && o + |b| <= |to[i].data|
    ensures SameShape(to, Put(r, i, o, b))
  {
  }

  lemma WriteChunk(to: Chain, from: Chain, r: Chain, i: nat, o: nat, pos: nat, b: seq<int>)
    requires SameShape(to, r) && Cursor(to, i, o, pos) && i < |to| && o + |b| <= |to[i].data|
    requires Written(Flat(to), Flat(from), pos, Flat(r))
    requires pos + |b| <= |Flat(from)| && b == Flat(from)[pos..pos + |b|]
    ensures SameShape(to, Put(r, i, o, b))
    ensures Written(Flat(to), Flat(from), pos + |b|, Flat(Put(r, i, o, b)))
  {
    SameShapePrefix(to, r, i);
    PutPatches(r, i, o, b);
    WriteMore(Flat(to), Flat(from), pos, Flat(r), |b|);
    PutShape(to, r, i, o, b);
  }

  /** pbuf_coalesce: one buffer with the same bytes, or the old chain if none can be had. */
  method Coalesce(c: Chain, memory: bool) returns (r: Chain)
    requires c != [] && Totals(c) && NoEmpty(c)
    ensures Flat(r) == Flat(c) && Totals(r) && (memory ==> |r| == 1)
  {
    if |c| == 1 || !memory {
      return c;
    }
    TotalsAt(c, 0);
    FlatTail(c, 0);
    assert c[0..] == c;
    var blank := seq(c[0].tot, _ => 0);
    var q := [Pbuf(blank, c[0].tot)];
    assert Flat(q) == blank + Flat([]);
    var err;
    err, r := Copy(q, c);
  }
}
