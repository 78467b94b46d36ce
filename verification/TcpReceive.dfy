/**
  The receive side of a TCP connection: which part of an arriving segment is taken, in
  32-bit sequence arithmetic, what the application is given, and how the receive window
  and its announced edge move.
 */
module TcpReceive {
  import opened PbufBytes

  const M32: int := 0x1_0000_0000
  const HALF: int := 0x8000_0000
  const WND: nat := 2920          // TCP_WND
  const THRESHOLD: nat := WND / 4 // TCP_WND_UPDATE_THRESHOLD

  // Sequence arithmetic.

  function Wrap(x: int): nat {
    x % M32
  }

  /** (s32_t)(a - b) */
  function Diff(a: nat, b: nat): int {
    var d := (a - b) % M32;
    if d < HALF then d else d - M32
  }

  predicate Between(a: nat, b: nat, c: nat) {
    Diff(a, b) >= 0 && Diff(a, c) <= 0
  }

  /** Comparing wrapped numbers compares the numbers while they are less than half the
      sequence space apart. */
  lemma DiffExact(x: int, y: int)
    requires -HALF <= x - y < HALF
    ensures Diff(Wrap(x), Wrap(y)) == x - y
  {
    WrapSub(x, y);
    var d := Wrap(x - y);
    if x - y >= 0 {
      assert d == x - y;
    } else {
      WrapOnce(x - y);
    }
  }

  lemma WrapOnce(x: int)
    requires -M32 <= x < 0
    ensures Wrap(x) == x + M32
  {
    assert x == -1 * M32 + (x + M32);
  }

  lemma WrapSub(x: int, y: int)
    ensures Wrap(Wrap(x) - Wrap(y)) == Wrap(x - y)
  {
    var q, p := x / M32, y / M32;
    assert x == q * M32 + Wrap(x) && y == p * M32 + Wrap(y);
    assert x - y == (q - p) * M32 + (Wrap(x) - Wrap(y));
    WrapShift(Wrap(x) - Wrap(y), q - p);
  }

  lemma WrapAdd(x: int, k: int)
    ensures Wrap(Wrap(x) + k) == Wrap(x + k)
  {
    var q := x / M32;
    assert x + k == q * M32 + (Wrap(x) + k);
    WrapShift(Wrap(x) + k, q);
  }

  lemma WrapShift(r: int, k: int)
    ensures Wrap(k * M32 + r) == Wrap(r)
  {
  }

  // What of a segment is taken.

  /** Sequence numbers a segment occupies (TCP_TCPLEN without SYN). */
  function Length(len: nat, fin: bool): nat {
    len + if fin then 1 else 0
  }

  /** Flags: only those that matter on the receive side; `ackFin` says that the segment
      acknowledges our own FIN. */
  datatype Seg = Seg(seqno: nat, p: Chain, fin: bool, syn: bool, rst: bool, ackFin: bool)

  /** A well-formed segment at unwrapped number `s`, less than half the space from `n`. */
  ghost predicate Near(seg: Seg, s: int, n: int) {
    && seg.p != [] && Totals(seg.p) && |Flat(seg.p)| < 32767
    && seg.seqno == Wrap(s) && -HALF < s - n < HALF
  }

  /** TCP_SEQ_BETWEEN on wrapped numbers, while both bounds are near. */
  lemma BetweenExact(a: int, b: int, c: int)
    requires -HALF <= a - b < HALF && (a >= b ==> -HALF <= a - c < HALF)
    ensures Between(Wrap(a), Wrap(b), Wrap(c)) <==> b <= a <= c
  {
    DiffExact(a, b);
    if a >= b {
      DiffExact(a, c);
    }
  }

  /** The test for data before rcv_nxt at the front of a segment. */
  lemma FrontTest(seqno: nat, s: int, n: int, tcplen: nat)
    requires seqno == Wrap(s) && -HALF < s - n < HALF && 0 < tcplen < 32768
    ensures Between(Wrap(n), Wrap(seqno + 1), Wrap(seqno + tcplen - 1)) <==> s + 1 <= n <= s + tcplen - 1
  {
    WrapAdd(s, 1);
    WrapAdd(s, tcplen - 1);
    BetweenExact(n, s + 1, s + tcplen - 1);
  }

  lemma FrontOffset(seqno: nat, s: int, n: int)
    requires seqno == Wrap(s) && s <= n < s + HALF
    ensures Wrap(Wrap(n) - seqno) == n - s
  {
    WrapSub(n, s);
  }

  /** The tests for a segment inside the receive window that is next in sequence. */
  lemma WindowTest(seqno: nat, s: int, n: int, wnd: nat)
    requires seqno == Wrap(s) && -HALF < s - n < HALF && wnd <= WND
    ensures Between(seqno, Wrap(n), Wrap(Wrap(n) + wnd - 1)) && Wrap(n) == seqno <==> s == n && wnd > 0
  {
    WrapAdd(n, wnd - 1);
    DiffExact(s, n);
    if s == n {
      BetweenExact(s, n, n + wnd - 1);
    }
  }

  datatype Taken = Taken(data: Chain, fin: bool, tcplen: nat)

  /** The data part of tcp_receive, down to the update of rcv_nxt: trim the front, check the
      window, trim the tail. */
  method TakeSegment(seg: Seg, rcvNxt: nat, rcvWnd: nat, ghost s: int, ghost n: int) returns (took: bool, t: Taken)
    requires Near(seg, s, n) && rcvNxt == Wrap(n) && rcvWnd <= WND
    ensures var end := s + |Flat(seg.p)| + if seg.fin then 1 else 0;
            && took == (s <= n < end && rcvWnd > 0)
            && (took ==> n + t.tcplen == (if end <= n + rcvWnd then end else n + rcvWnd))
            && (took ==> t.fin == (seg.fin && end <= n + rcvWnd))
    ensures took ==>
              var k := t.tcplen - if t.fin then 1 else 0;
              0 <= k <= s + |Flat(seg.p)| - n && Flat(t.data) == Flat(seg.p)[n - s..][..k]
  {
    TotalsAt(seg.p, 0);
    assert seg.p[0..] == seg.p;
    var tcplen := Length(seg.p[0].tot, seg.fin);
    took, t := false, Taken(seg.p, seg.fin, tcplen);
    if tcplen == 0 {
      return;
    }
    FrontTest(seg.seqno, s, n, tcplen);
    WindowTest(seg.seqno, s, n, rcvWnd);
    WindowTest(rcvNxt, n, n, rcvWnd);
    var seqno, len := seg.seqno, seg.p[0].tot;
    if Between(rcvNxt, Wrap(seqno + 1), Wrap(seqno + tcplen - 1)) {
      FrontOffset(seqno, s, n);
      var off := Wrap(rcvNxt - seqno);
      var p := TrimFront(seg.p, off);
      t := t.(data := p);
      len := len - off;
      seqno := rcvNxt;
    }
    assert Flat(seg.p)[0..] == Flat(seg.p);
    if Between(seqno, rcvNxt, Wrap(rcvNxt + rcvWnd - 1)) && rcvNxt == seqno {
      took := true;
      t := FitWindow(t.data, seg.fin, len, rcvWnd);
    }
  }

  /** Cut a segment that starts at rcv_nxt to the window. */
  method FitWindow(p: Chain, fin: bool, len: nat, rcvWnd: nat) returns (t: Taken)
    requires p != [] && Totals(p) && len == |Flat(p)| && 0 < Length(len, fin)
    ensures t.tcplen == Min(Length(len, fin), rcvWnd) && t.fin == (fin && Length(len, fin) <= rcvWnd)
    ensures Flat(t.data) == Flat(p)[..t.tcplen - if t.fin then 1 else 0]
  {
    t := Taken(p, fin, Length(len, fin));
    assert Flat(p)[..len] == Flat(p);
    if t.tcplen > rcvWnd {
      var q := Realloc(p, rcvWnd);
      t := Taken(q, false, rcvWnd);
    }
  }

  // The announced window.

  /** The comparisons of tcp_update_rcv_ann_wnd, on wrapped numbers. */
  lemma EdgeTests(nxt: int, wnd: nat, edge: int, step: nat)
    requires edge <= nxt + wnd <= edge + 3 * WND && wnd <= WND && step <= WND / 2
    ensures Diff(Wrap(Wrap(nxt) + wnd), Wrap(Wrap(edge) + step)) >= 0 <==> nxt + wnd >= edge + step
    ensures Diff(Wrap(nxt), Wrap(edge)) <= 0 <==> nxt <= edge
  {
    WrapAdd(nxt, wnd);
    WrapAdd(edge, step);
    DiffExact(nxt + wnd, edge + step);
    DiffExact(nxt, edge);
  }

  /** Its two differences, on wrapped numbers. */
  lemma EdgeGaps(nxt: int, wnd: nat, edge: int)
    requires edge <= nxt + wnd <= edge + 3 * WND && wnd <= WND
    ensures nxt <= edge ==> Wrap(Wrap(edge) - Wrap(nxt)) == edge - nxt
    ensures Wrap(Wrap(Wrap(nxt) + wnd) - Wrap(edge)) == nxt + wnd - edge
  {
    WrapAdd(nxt, wnd);
    WrapSub(edge, nxt);
    WrapSub(nxt + wnd, edge);
  }

  /** tcp_update_rcv_ann_wnd: the whole window is announced when the edge moves by a worthwhile
      step, else the old edge is kept; `gain` is how far announcing now would move it. */
  method UpdateAnn(rcvNxt: nat, rcvWnd: nat, annEdge: nat, mss: nat, ghost nxt: int, ghost edge: int)
    returns (annWnd: nat, gain: nat)
    requires rcvNxt == Wrap(nxt) && annEdge == Wrap(edge) && rcvWnd <= WND && mss < U16
    requires edge <= nxt + rcvWnd <= edge + 3 * WND
    ensures edge <= nxt + annWnd && annWnd <= rcvWnd
    ensures nxt + rcvWnd >= edge + (if WND / 2 < mss then WND / 2 else mss) ==>
              annWnd == rcvWnd && gain == nxt + rcvWnd - edge
    ensures nxt + rcvWnd < edge + (if WND / 2 < mss then WND / 2 else mss) ==>
              nxt + annWnd == (if nxt > edge then nxt else edge) && gain == 0
  {
    var right := Wrap(rcvNxt + rcvWnd);
    var step := if WND / 2 < mss then WND / 2 else mss;
    EdgeTests(nxt, rcvWnd, edge, step);
    EdgeGaps(nxt, rcvWnd, edge);
    if Diff(right, Wrap(annEdge + step)) >= 0 {
      return rcvWnd, Wrap(right - annEdge);
    }
    annWnd, gain := 0, 0;
    if Diff(rcvNxt, annEdge) <= 0 {
      annWnd := Wrap(annEdge - rcvNxt);
      assert annWnd <= 0xffff;
    }
  }

  /** The code's `new_rcv_ann_wnd <= 0xffff` assertion, on wrapped numbers. */
  predicate AnnAssert(rcvNxt: nat, rcvWnd: nat, annEdge: nat, step: nat) {
    || Diff(Wrap(rcvNxt + rcvWnd), Wrap(annEdge + step)) >= 0
    || Diff(rcvNxt, annEdge) > 0
    || Wrap(annEdge - rcvNxt) <= 0xffff
  }

  // The connection.

  datatype TcpState = Established | FinWait1 | FinWait2 | CloseWait | Closing | LastAck | TimeWait

  /** States in which the peer's FIN has been received, or reception is over. */
  predicate Finished(st: TcpState) {
    st in {CloseWait, Closing, LastAck, TimeWait}
  }

  /** Data the application refused, kept for later; `fin`: end of stream follows it. */
  datatype Refused = Nothing | Kept(data: seq<int>, fin: bool)

  /** The application's answer to data: take it (and give back `back` bytes of window at
      once), refuse it, or abort the connection. */
  datatype Answer = Accept(back: nat) | Refuse | Abort

  /** What has happened, in unwrapped numbers.  The peer sends `stream`, its first byte at
      sequence number `base`, and then a FIN. */
  datatype Hist = Hist(stream: seq<int>, base: int, taken: nat, fin: bool,
                       accepted: seq<int>, lost: seq<int>, returned: nat, eofs: nat, edge: int)

  ghost function Next(h: Hist): int {
    h.base + h.taken + if h.fin then 1 else 0
  }

  ghost function KeptData(r: Refused): seq<int> {
    if r.Kept? then r.data else []
  }

  /** Stream integrity: what the application has accepted, and what is kept for it, is
      exactly the stream up to the next expected byte; the rest of that prefix, if any, was
      thrown away by closing.  End of stream is indicated at most once, and last. */
  ghost predicate StreamOk(h: Hist, kept: seq<int>) {
    && h.taken <= |h.stream| && (h.fin ==> h.taken == |h.stream|)
    && h.accepted + h.lost + kept == h.stream[..h.taken]
    && h.eofs <= 1 && (h.eofs == 1 ==> h.fin && kept == [])
  }

  /** Window conservation. */
  ghost predicate WindowOk(h: Hist, rcvWnd: nat) {
    && h.returned <= |h.accepted|
    && rcvWnd + (h.taken - h.returned) + (if h.fin && h.eofs == 0 then 1 else 0) == WND
  }

  /** The announced edge lies within the window that is really there. */
  ghost predicate EdgeOk(h: Hist, rcvNxt: nat, rcvWnd: nat, annWnd: nat, annEdge: nat) {
    && rcvNxt == Wrap(Next(h)) && annEdge == Wrap(h.edge)
    && annWnd <= rcvWnd <= WND && h.edge <= Next(h) + annWnd
  }

  /** The announced edge is never far behind: what could be announced beyond it is at most a
      window, and the FIN's number once that has been given back. */
  ghost predicate LagOk(h: Hist, rcvWnd: nat) {
    Next(h) + rcvWnd - h.edge <= WND + h.eofs && h.eofs <= 1
  }

  /** The assertion holds in every state of a connection, whatever part of the window the
      application returns. */
  lemma AssertionHolds(h: Hist, rcvNxt: nat, rcvWnd: nat, annWnd: nat, annEdge: nat, len: nat, step: nat)
    requires EdgeOk(h, rcvNxt, rcvWnd, annWnd, annEdge) && LagOk(h, rcvWnd)
    requires rcvWnd + len <= WND && step <= WND / 2
    ensures AnnAssert(rcvNxt, rcvWnd + len, annEdge, step)
  {
    EdgeTests(Next(h), rcvWnd + len, h.edge, step);
    EdgeGaps(Next(h), rcvWnd + len, h.edge);
  }

  /** A segment of the peer's stream. */
  ghost predicate Genuine(h: Hist, seg: Seg, s: int) {
    var len := |Flat(seg.p)|;
    && h.base <= s && s - h.base + len <= |h.stream|
    && Flat(seg.p) == h.stream[s - h.base..s - h.base + len]
    && (seg.fin ==> s - h.base + len == |h.stream|)
  }

  /** The bytes taken from a genuine segment continue the stream. */
  lemma TakenContinues(h: Hist, seg: Seg, s: int, k: nat)
    requires Genuine(h, seg, s) && s <= h.base + h.taken && h.taken + k <= s - h.base + |Flat(seg.p)|
    ensures Flat(seg.p)[h.base + h.taken - s..][..k] == h.stream[h.taken..h.taken + k]
  {
    SliceOfSlice(h.stream, s - h.base, |Flat(seg.p)|, h.base + h.taken - s, k);
  }

  lemma SliceOfSlice(d: seq<int>, a: nat, len: nat, i: nat, k: nat)
    requires a + len <= |d| && i + k <= len
    ensures d[a..a + len][i..][..k] == d[a + i..a + i + k]
  {
    var e := d[a..a + len][i..][..k];
    forall j | 0 <= j < k ensures e[j] == d[a + i + j] {
    }
  }

  /** The next expected number after a segment from `s` up to `end`. */
  ghost function NextAfter(n: int, s: int, end: int, wnd: nat): int {
    if s <= n < end && wnd > 0 then Min(end, n + wnd) else n
  }

  /** The window once refused data has been taken. */
  ghost function Reopened(wnd: nat, refused: Refused, retry: Answer): nat {
    wnd + if refused.Kept? && retry.Accept? then Min(retry.back, |refused.data|) else 0
  }

  /** The same in plain numbers. */
  lemma NextPlain(n: int, seg: Seg, s: int, wnd: nat, refused: Refused, retry: Answer)
    ensures var end := s + |Flat(seg.p)| + if seg.fin then 1 else 0;
            var back := if refused.Nothing? || !retry.Accept? then 0
                        else if retry.back < |refused.data| then retry.back else |refused.data|;
            var edge := n + wnd + back;
            NextAfter(n, s, EndOf(seg, s), Reopened(wnd, refused, retry)) ==
              if s <= n < end && n < edge then (if end <= edge then end else edge) else n
  {
  }

  ghost function EndOf(seg: Seg, s: int): int {
    s + Length(|Flat(seg.p)|, seg.fin)
  }

  class Pcb {
    var rcvNxt: nat
    var rcvWnd: nat
    var annWnd: nat
    var annEdge: nat
    var mss: nat
    var refused: Refused
    var state: TcpState
    var rxClosed: bool
    var dead: bool  // aborted, reset or deallocated
    ghost var h: Hist

    /** Holds also while the application is being called with `kept`. */
    ghost predicate Core(kept: seq<int>)
      reads this
    {
      && mss < U16
      && StreamOk(h, kept) && WindowOk(h, rcvWnd)
      && EdgeOk(h, rcvNxt, rcvWnd, annWnd, annEdge) && LagOk(h, rcvWnd)
      && (h.fin ==> dead || Finished(state))
      && (h.lost != [] ==> dead || rxClosed || state == TimeWait)
      && (h.eofs == 1 && h.lost != [] ==> rxClosed)
    }

    /** Bytes are only ever lost, or end of stream left out, by closing or aborting. */
    ghost predicate Valid()
      reads this
    {
      && Core(KeptData(refused))
      && (refused.Kept? ==> !dead && refused.data != [] && refused.fin == h.fin && h.lost == [])
      && (!dead && h.fin && refused.Nothing? && h.lost == [] ==> h.eofs == 1)
    }

    /** A connection whose peer's first byte has sequence number `base`. */
    constructor (base: int, segsize: nat, ghost stream: seq<int>)
      requires segsize < U16
      ensures Valid() && !dead && state == Established && !rxClosed
      ensures h == Hist(stream, base, 0, false, [], [], 0, 0, base)
    {
      rcvNxt, rcvWnd, annWnd, annEdge := Wrap(base), WND, WND, Wrap(base);
      mss, refused, state, rxClosed, dead := segsize, Nothing, Established, false, false;
      h := Hist(stream, base, 0, false, [], [], 0, 0, base);
    }

    /** What tcp_output does to the announced edge when it sends. */
    method Output()
      requires EdgeOk(h, rcvNxt, rcvWnd, annWnd, annEdge) && h.eofs <= 1
      modifies this`annEdge, this`h
      ensures EdgeOk(h, rcvNxt, rcvWnd, annWnd, annEdge) && LagOk(h, rcvWnd)
      ensures h == old(h).(edge := Next(old(h)) + annWnd) && h.edge >= old(h).edge
    {
      WrapAdd(Next(h), annWnd);
      annEdge := Wrap(rcvNxt + annWnd);
      h := h.(edge := Next(h) + annWnd);
    }

    /** tcp_recved: the application is done with `len` bytes it accepted. */
    method Recved(len: nat, ghost kept: seq<int>)
      requires Core(kept) && h.returned + len <= |h.accepted|
      modifies this`rcvWnd, this`annWnd, this`annEdge, this`h
      ensures Core(kept) && rcvWnd == old(rcvWnd) + len && h.edge >= old(h).edge
      ensures h == old(h).(returned := old(h).returned + len, edge := h.edge)
      // An update is sent at once when it opens the window by a worthwhile step and by a quarter.
      ensures var grow := Next(h) + rcvWnd - old(h).edge;
              h.edge == if grow >= (if WND / 2 < mss then WND / 2 else mss) && grow >= WND / 4
                        then Next(h) + rcvWnd else old(h).edge
    {
      LengthSplit(h, kept);
      rcvWnd := Capped(rcvWnd + len);
      h := h.(returned := h.returned + len);
      Announce();
    }

    /** Bring the announced window up to date, and send it when that is worthwhile. */
    method Announce()
      requires mss < U16 && h.eofs <= 1 && rcvWnd <= WND
      requires rcvNxt == Wrap(Next(h)) && annEdge == Wrap(h.edge)
      requires h.edge <= Next(h) + rcvWnd <= h.edge + 3 * WND
      modifies this`annWnd, this`annEdge, this`h
      ensures EdgeOk(h, rcvNxt, rcvWnd, annWnd, annEdge) && LagOk(h, rcvWnd)
      ensures h == old(h).(edge := h.edge) && h.edge >= old(h).edge
      ensures var grow := Next(h) + rcvWnd - old(h).edge;
              h.edge == if grow >= (if WND / 2 < mss then WND / 2 else mss) && grow >= WND / 4
                        then Next(h) + rcvWnd else old(h).edge
    {
      var gain;
      annWnd, gain := UpdateAnn(rcvNxt, rcvWnd, annEdge, mss, Next(h), h.edge);
      if gain >= THRESHOLD {
        Output();
      }
    }

    /** Move rcv_nxt and the window over `units` sequence numbers: `k` bytes and perhaps the FIN. */
    method Consume(units: nat, fin: bool, ghost k: nat)
      requires mss < U16 && !h.fin && h.eofs == 0 && units == k + (if fin then 1 else 0) && units <= rcvWnd
      requires EdgeOk(h, rcvNxt, rcvWnd, annWnd, annEdge) && WindowOk(h, rcvWnd) && LagOk(h, rcvWnd)
      modifies this`rcvNxt, this`rcvWnd, this`annWnd, this`h
      ensures EdgeOk(h, rcvNxt, rcvWnd, annWnd, annEdge) && WindowOk(h, rcvWnd) && LagOk(h, rcvWnd)
      ensures h == old(h).(taken := old(h).taken + k, fin := fin)
    {
      WrapAdd(Next(h), units);
      rcvNxt := Wrap(rcvNxt + units);
      rcvWnd := rcvWnd - units;
      h := h.(taken := h.taken + k, fin := fin);
      var gain;
      annWnd, gain := UpdateAnn(rcvNxt, rcvWnd, annEdge, mss, Next(h), h.edge);
    }

    /** The bookkeeping of tcp_receive for the part of a segment that is taken. */
    method Receive(seg: Seg, ghost s: int) returns (data: seq<int>, gotFin: bool)
      requires mss < U16 && h.taken <= |h.stream| && !h.fin && h.eofs == 0
      requires EdgeOk(h, rcvNxt, rcvWnd, annWnd, annEdge) && WindowOk(h, rcvWnd) && LagOk(h, rcvWnd)
      requires Near(seg, s, Next(h)) && Genuine(h, seg, s)
      modifies this`rcvNxt, this`rcvWnd, this`annWnd, this`h
      ensures EdgeOk(h, rcvNxt, rcvWnd, annWnd, annEdge) && WindowOk(h, rcvWnd) && LagOk(h, rcvWnd)
      ensures ArrivedOk(old(h), data) && h == old(h).(taken := old(h).taken + |data|, fin := gotFin)
      ensures gotFin ==> h.taken == |h.stream|
      ensures Next(h) == NextAfter(Next(old(h)), s, EndOf(seg, s), old(rcvWnd))
    {
      data, gotFin := [], false;
      var took, t := TakeSegment(seg, rcvNxt, rcvWnd, s, Next(h));
      if took {
        ghost var k := t.tcplen - if t.fin then 1 else 0;
        TakenContinues(h, seg, s, k);
        data := FlatOf(t.data);
        gotFin := t.fin;
        Consume(t.tcplen, t.fin, k);
      }
    }

    /** Call the application's receive function with `data`; keep what it refuses. */
    method Offer(data: seq<int>, flag: bool, answer: Answer)
      requires Core(data) && !dead && refused.Nothing? && h.lost == [] && data != []
      modifies this`rcvWnd, this`annWnd, this`annEdge, this`h, this`refused, this`dead
      ensures Core(KeptData(refused)) && h.edge >= old(h).edge && dead == answer.Abort?
      ensures refused == if answer.Refuse? then Kept(data, flag) else Nothing
      ensures h == Offered(old(h), data, answer).(edge := h.edge)
    {
      match answer
      case Accept(back) =>
        h := h.(accepted := h.accepted + data);
        assert h.accepted + h.lost == old(h).accepted + old(h).lost + data;
        var n := if back < |data| then back else |data|;
        Recved(n, []);
      case Refuse =>
        refused := Kept(data, flag);
      case Abort =>
        dead := true;
        h := h.(lost := h.lost + data);
        assert h.accepted + h.lost == old(h).accepted + old(h).lost + data;
    }

    /** Tell the application that the stream has ended. */
    method IndicateEnd(answer: Answer)
      requires Core([]) && !dead && h.fin && h.eofs == 0 && (h.lost == [] || rxClosed)
      modifies this`rcvWnd, this`h, this`dead
      ensures Core([]) && h == old(h).(eofs := 1) && dead == answer.Abort?
    {
      LengthSplit(h, []);
      if rcvWnd != WND {
        rcvWnd := rcvWnd + 1;
      }
      h := h.(eofs := 1);
      dead := answer.Abort?;
    }

    /** tcp_process_refused_data */
    method ProcessRefused(answer: Answer, endAnswer: Answer)
      requires Valid() && refused.Kept?
      modifies this`rcvWnd, this`annWnd, this`annEdge, this`h, this`refused, this`dead
      ensures Valid() && h.edge >= old(h).edge
      ensures refused == if answer.Refuse? then old(refused) else Nothing
      ensures dead == (answer.Abort? || (answer.Accept? && old(refused).fin && endAnswer.Abort?))
      ensures var ended := if answer.Accept? && old(refused).fin then 1 else 0;
              h == Offered(old(h), old(refused).data, answer).(eofs := ended, edge := h.edge)
    {
      var kept := refused;
      refused := Nothing;
      Offer(kept.data, kept.fin, answer);
      if answer.Accept? && kept.fin {
        IndicateEnd(endAnswer);
      }
    }

    /** The part of tcp_fasttmr that concerns a connection: refused data is offered again, but
        not in TIME_WAIT, whose pcbs are on another list. */
    method FastTimer(answer: Answer, endAnswer: Answer)
      requires Valid() && !dead
      modifies this`rcvWnd, this`annWnd, this`annEdge, this`h, this`refused, this`dead
      ensures Valid() && h.edge >= old(h).edge
      ensures old(refused).Nothing? || state == TimeWait ==> !dead && h == old(h) && refused == old(refused)
      ensures old(refused).Kept? && state != TimeWait ==>
                && refused == (if answer.Refuse? then old(refused) else Nothing)
                && (answer.Accept? ==> h.accepted == old(h).accepted + old(refused).data)
    {
      if state != TimeWait && refused.Kept? {
        ProcessRefused(answer, endAnswer);
      }
    }

    /** tcp_pcb_purge: what the application has refused is dropped. */
    method Purge(ghost data: seq<int>)
      requires Core(KeptData(refused) + data) && (refused.Nothing? || data == [])
      requires dead || rxClosed || state == TimeWait
      modifies this`refused, this`h
      ensures Core(data) && refused == Nothing && h == old(h).(lost := old(h).lost + KeptData(old(refused)))
    {
      h := h.(lost := h.lost + KeptData(refused));
      assert h.accepted + h.lost == old(h).accepted + old(h).lost + KeptData(refused);
      assert KeptData(refused) + data == if refused.Nothing? then data else KeptData(refused);
      refused := Nothing;
    }

    /** A reset counts if its number lies in the receive window or just behind it. */
    method InWindow(seg: Seg, ghost s: int) returns (inside: bool)
      requires EdgeOk(h, rcvNxt, rcvWnd, annWnd, annEdge) && Near(seg, s, Next(h))
      ensures inside == (Next(h) <= s <= Next(h) + rcvWnd)
    {
      WrapAdd(Next(h), rcvWnd);
      BetweenExact(s, Next(h), Next(h) + rcvWnd);
      inside := Between(seg.seqno, rcvNxt, Wrap(rcvNxt + rcvWnd));
    }

    /** tcp_process while the peer has not finished: receive, then change state. */
    method Process(seg: Seg, ghost s: int) returns (data: seq<int>, gotFin: bool)
      requires Near(seg, s, Next(h)) && Plain(seg)
      requires SegLen(seg) > 0 ==> refused.Nothing? && Genuine(h, seg, s)
      requires Valid() && !dead && !Finished(state)
      modifies this`rcvNxt, this`rcvWnd, this`annWnd, this`h, this`state
      ensures Core(KeptData(refused) + data)
      ensures h == Arrived(old(h), data, gotFin)
      ensures ArrivedOk(old(h), data)
      ensures state == NextState(old(state), gotFin, seg.ackFin)
      ensures refused.Kept? ==> data == [] && !gotFin
      ensures Next(h) == NextAfter(Next(old(h)), s, EndOf(seg, s), old(rcvWnd))
    {
      data, gotFin := [], false;
      TotalsAt(seg.p, 0);
      assert seg.p[0..] == seg.p;
      if SegLen(seg) > 0 {
        data, gotFin := Receive(seg, s);
        ArrivedStream(old(h), KeptData(refused), data);
      } else {
        assert EndOf(seg, s) == s && KeptData(refused) + [] == KeptData(refused);
      }
      // On the way to TIME_WAIT tcp_pcb_purge finds nothing kept: a FIN has been taken.
      state := NextState(state, gotFin, seg.ackFin);
    }

    /** The pcb is removed: what was kept, and `data` that was about to be delivered, is lost. */
    method Remove(data: seq<int>)
      requires Core(KeptData(refused) + data) && (refused.Nothing? || data == [])
      modifies this`refused, this`h, this`dead
      ensures dead && refused == Nothing && h == old(h).(lost := old(h).lost + KeptData(old(refused)) + data)
      ensures Core([])
    {
      dead := true;
      Purge(data);
      LostJoins(h, data);
      h := h.(lost := h.lost + data);
    }

    /** The end of tcp_input: report acknowledged data (the application may abort there),
        deliver what arrived, then the end of the stream. */
    method Deliver(data: seq<int>, gotFin: bool, sentAbort: bool, answer: Answer, endAnswer: Answer)
      requires Core(KeptData(refused) + data) && !dead
      requires refused.Kept? ==> data == [] && !gotFin && refused.data != [] && refused.fin == h.fin && h.lost == []
      requires gotFin ==> h.fin && h.eofs == 0
      requires h.lost != [] ==> rxClosed || (data == [] && !gotFin)
      requires h.fin && refused.Nothing? && h.lost == [] && h.eofs == 0 ==> gotFin
      modifies this`rcvWnd, this`annWnd, this`annEdge, this`h, this`refused, this`dead
      ensures Valid() && h.edge >= old(h).edge
      ensures Next(h) == Next(old(h)) && h.fin == old(h).fin && h.stream == old(h).stream && h.base == old(h).base
      ensures dead == DeliveredDead(data, gotFin, sentAbort || (data != [] && rxClosed), answer, endAnswer)
      ensures Delivered(old(h), h, KeptData(old(refused)), data, gotFin, sentAbort || (data != [] && rxClosed), answer)
      ensures !(sentAbort || (data != [] && rxClosed)) ==>
                refused == if data != [] && answer.Refuse? then Kept(data, gotFin) else old(refused)
    {
      assert [] + data == data && KeptData(refused) + [] == KeptData(refused);
      if sentAbort || (data != [] && rxClosed) {
        Remove(data);
        return;
      }
      if data != [] {
        Offer(data, false, answer);
      }
      if gotFin && !dead {
        if refused.Kept? {
          refused := refused.(fin := true);
        } else {
          IndicateEnd(endAnswer);
        }
      }
    }

    /** tcp_input, once refused data is out of the way, for a segment that is neither a reset
        nor a connection attempt, while the peer has not finished. */
    method Segment(seg: Seg, ghost s: int, sentAbort: bool, answer: Answer, endAnswer: Answer)
      requires Valid() && !dead && !Finished(state)
      requires Near(seg, s, Next(h)) && Plain(seg)
      requires SegLen(seg) > 0 ==> refused.Nothing? && Genuine(h, seg, s)
      modifies this`rcvNxt, this`rcvWnd, this`annWnd, this`annEdge, this`h, this`refused, this`state, this`dead
      ensures Valid() && h.edge >= old(h).edge && h.stream == old(h).stream && h.base == old(h).base
      ensures rxClosed && h.taken > old(h).taken ==> dead
      ensures !dead ==> h.lost == old(h).lost && state == NextState(old(state), h.fin, seg.ackFin)
      ensures Next(h) == NextAfter(Next(old(h)), s, EndOf(seg, s), old(rcvWnd))
      ensures sentAbort ==> dead
      ensures old(refused).Nothing? && !rxClosed && !sentAbort && !answer.Abort? ==>
                Handed(old(h), h, refused, answer) && dead == (h.eofs == 1 && endAnswer.Abort?)
    {
      var data, gotFin := Process(seg, s);
      ghost var h1, none := h, refused.Nothing?;
      Deliver(data, gotFin, sentAbort, answer, endAnswer);
      if none && !rxClosed && !sentAbort && !answer.Abort? {
        HandedOver(old(h), h1, h, refused, data, gotFin, answer, endAnswer);
      }
    }

    /** The application is told that data was acknowledged, and may abort. */
    method Sent(sentAbort: bool)
      requires Valid() && !dead
      modifies this`refused, this`h, this`dead
      ensures Valid() && dead == sentAbort && refused == if dead then Nothing else old(refused)
      ensures h == if dead then old(h).(lost := old(h).lost + KeptData(old(refused))) else old(h)
    {
      assert KeptData(refused) + [] == KeptData(refused);
      if sentAbort {
        Remove([]);
      }
    }

    /** The same once the peer has finished: its data is ignored, and the acknowledgement of
        our FIN ends the connection.  What is still refused then is dropped. */
    method LateSegment(ackFin: bool, sentAbort: bool)
      requires Valid() && !dead && Finished(state) && state != TimeWait
      modifies this`h, this`refused, this`state, this`dead
      ensures Valid() && dead == (sentAbort || (old(state) == LastAck && ackFin))
      ensures state == NextState(old(state), false, ackFin)
      ensures var drop := dead || state == TimeWait;
              && h == old(h).(lost := if drop then old(h).lost + KeptData(old(refused)) else old(h).lost)
              && refused == if drop then Nothing else old(refused)
    {
      if state == LastAck && ackFin {
        Sent(true);
        return;
      }
      if state == Closing && ackFin {
        assert KeptData(refused) + [] == KeptData(refused);
        state := TimeWait;
        Purge([]);
      }
      Sent(sentAbort);
    }

    /** Offer refused data again; `go` says whether the segment is looked at. */
    method Retry(seg: Seg, retry: Answer, retryEnd: Answer) returns (go: bool)
      requires Valid() && !dead && seg.p != []
      modifies this`rcvWnd, this`annWnd, this`annEdge, this`h, this`refused, this`dead
      ensures Valid() && h.edge >= old(h).edge && h.stream == old(h).stream && h.base == old(h).base
      ensures Next(h) == Next(old(h)) && h.fin == old(h).fin && (dead || h.lost == old(h).lost)
      ensures go == (!dead && (refused.Nothing? || SegLen(seg) == 0))
      ensures refused == if retry.Refuse? then old(refused) else Nothing
      ensures retry.Refuse? || old(refused).Nothing? ==> h == old(h).(edge := h.edge) && rcvWnd == old(rcvWnd) && !dead
      ensures old(refused).Nothing? ==> go && h == old(h)
      ensures old(refused).Kept? && retry.Refuse? ==> go == (SegLen(seg) == 0)
      ensures old(refused).Kept? && retry.Accept? && !old(h).fin ==>
                !dead && rcvWnd == old(rcvWnd) + Min(retry.back, |old(refused).data|)
      ensures retry.Abort? && old(refused).Kept? ==> dead
    {
      if refused.Nothing? {
        return true;
      }
      ProcessRefused(retry, retryEnd);
      go := !dead && (refused.Nothing? || SegLen(seg) == 0);
    }

    /** tcp_input for a segment of this connection.  A segment is dropped while data is still
        refused; `retry` and `retryEnd` are the application's answers to that data. */
    method Input(seg: Seg, ghost s: int, retry: Answer, retryEnd: Answer,
                 sentAbort: bool, answer: Answer, endAnswer: Answer)
      requires Valid() && !dead
      requires Near(seg, s, Next(h)) && (Plain(seg) && SegLen(seg) > 0 ==> Genuine(h, seg, s))
      modifies this`rcvNxt, this`rcvWnd, this`annWnd, this`annEdge, this`h, this`refused, this`state, this`dead
      ensures Valid() && h.edge >= old(h).edge && h.stream == old(h).stream && h.base == old(h).base
      // Data that comes after the receive side was shut, or an abort in the sent callback, ends it.
      ensures rxClosed && h.taken > old(h).taken ==> dead
      ensures sentAbort && old(refused).Nothing? && old(state) != TimeWait ==> dead
      // Nothing is lost while the connection lives, but for data refused up to the end of CLOSING.
      ensures !dead && h.lost != old(h).lost ==>
                old(state) == Closing && state == TimeWait && old(refused).Kept? && retry.Refuse?
      ensures old(state) == Closing && old(refused).Kept? && retry.Refuse? && Plain(seg) && SegLen(seg) == 0 &&
              seg.ackFin ==>
                h.lost == old(refused).data && refused == Nothing && dead == sentAbort
      // What the application refused is offered first, and a segment meanwhile changes nothing.
      ensures old(state) != TimeWait && old(refused).Kept? && retry.Refuse? && SegLen(seg) > 0 ==>
                !dead && h == old(h).(edge := h.edge) && refused == old(refused) && state == old(state)
      // Exactly what is in sequence and in the window is taken, up to the end of either; the window
      // includes what the application returned while taking data it had refused before.
      ensures Plain(seg) && old(state) in {Established, FinWait1, FinWait2} &&
              (old(refused).Kept? ==> retry.Accept?) ==>
                var n, end := Next(old(h)), s + |Flat(seg.p)| + if seg.fin then 1 else 0;
                var back := if old(refused).Nothing? then 0
                            else if retry.back < |old(refused).data| then retry.back else |old(refused).data|;
                var edge := n + old(rcvWnd) + back;
                Next(h) == if s <= n < end && n < edge then (if end <= edge then end else edge) else n
      ensures !Plain(seg) || (old(refused).Kept? && !retry.Accept?) ==> Next(h) == Next(old(h))
      ensures old(state) in {CloseWait, Closing, LastAck, TimeWait} ==> Next(h) == Next(old(h))
      // The state follows the FIN taken and the acknowledgement of our own.
      ensures !dead && Plain(seg) && !(old(refused).Kept? && retry.Refuse? && SegLen(seg) > 0) ==>
                var fin := h.fin && !old(h).fin;
                && (old(state) == Established ==> state == if fin then CloseWait else Established)
                && (old(state) == FinWait1 && fin ==> state == if seg.ackFin then TimeWait else Closing)
                && (old(state) == FinWait1 && !fin ==> state == if seg.ackFin then FinWait2 else FinWait1)
                && (old(state) == FinWait2 ==> state == if fin then TimeWait else FinWait2)
                && (old(state) == Closing ==> state == if seg.ackFin then TimeWait else Closing)
                && (old(state) == LastAck ==> state == LastAck && !seg.ackFin)
                && (old(state) == CloseWait ==> state == CloseWait)
      ensures !dead && !Plain(seg) ==> state == old(state)
      // In TIME_WAIT nothing happens any more: what is kept is not offered again.
      ensures old(state) == TimeWait ==>
                !dead && h == old(h) && refused == old(refused) && state == TimeWait
      // A reset counts exactly inside the window.
      ensures old(state) != TimeWait && old(refused).Nothing? && seg.rst && !sentAbort ==>
                dead == (Next(old(h)) <= s <= Next(old(h)) + old(rcvWnd))
      // What is taken goes to the application, or is kept for it, at once and in full, and then the
      // end of the stream is indicated.
      ensures !Finished(old(state)) && old(refused).Nothing? && Plain(seg) && !rxClosed && !sentAbort &&
              !answer.Abort? ==>
                && old(h).taken <= h.taken <= |h.stream|
                && var data := h.stream[old(h).taken..h.taken];
                && (answer.Accept? ==> h.accepted == old(h).accepted + data && refused == Nothing)
                && (answer.Accept? ==>
                      h.returned == old(h).returned + if answer.back < |data| then answer.back else |data|)
                && (answer.Refuse? ==> h.accepted == old(h).accepted && KeptData(refused) == data)
                && (h.eofs == 1 <==> h.fin && refused.Nothing?)
                && dead == (h.eofs == 1 && endAnswer.Abort?)
    {
      NextPlain(Next(h), seg, s, rcvWnd, refused, retry);
      Arrive(seg, s, retry, retryEnd, sentAbort, answer, endAnswer);
    }

    /** The same in the terms of the methods it is made of. */
    method Arrive(seg: Seg, ghost s: int, retry: Answer, retryEnd: Answer,
                  sentAbort: bool, answer: Answer, endAnswer: Answer)
      requires Valid() && !dead
      requires Near(seg, s, Next(h)) && (Plain(seg) && SegLen(seg) > 0 ==> Genuine(h, seg, s))
      modifies this`rcvNxt, this`rcvWnd, this`annWnd, this`annEdge, this`h, this`refused, this`state, this`dead
      ensures Valid() && h.edge >= old(h).edge && h.stream == old(h).stream && h.base == old(h).base
      ensures old(state) == TimeWait ==> !dead && h == old(h) && refused == old(refused) && state == TimeWait
      ensures rxClosed && h.taken > old(h).taken ==> dead
      ensures sentAbort && old(refused).Nothing? && old(state) != TimeWait ==> dead
      // Nothing is lost while the connection lives, but for data refused up to the end of CLOSING.
      ensures !dead && h.lost != old(h).lost ==>
                old(state) == Closing && state == TimeWait && old(refused).Kept? && retry.Refuse?
      ensures old(state) == Closing && old(refused).Kept? && retry.Refuse? && Plain(seg) && SegLen(seg) == 0 &&
              seg.ackFin ==>
                h.lost == old(refused).data && refused == Nothing && dead == sentAbort
      // What the application refused is offered first, and a segment meanwhile changes nothing.
      ensures old(state) != TimeWait && old(refused).Kept? && retry.Refuse? && SegLen(seg) > 0 ==>
                !dead && h == old(h).(edge := h.edge) && refused == old(refused) && state == old(state)
      ensures !dead && old(state) != TimeWait && !(old(refused).Kept? && retry.Refuse? && SegLen(seg) > 0) ==>
                state == if Plain(seg) then NextState(old(state), h.fin && !old(h).fin, seg.ackFin) else old(state)
      ensures !dead && Plain(seg) && old(state) == LastAck ==>
                !seg.ackFin || (old(refused).Kept? && retry.Refuse? && SegLen(seg) > 0)
      ensures Next(h) == if Plain(seg) && !Finished(old(state)) && (old(refused).Kept? ==> retry.Accept?)
                         then NextAfter(Next(old(h)), s, EndOf(seg, s), Reopened(old(rcvWnd), old(refused), retry))
                         else Next(old(h))
      // A reset counts exactly inside the window.
      ensures old(state) != TimeWait && old(refused).Nothing? && seg.rst && !sentAbort ==>
                dead == (Next(old(h)) <= s <= Next(old(h)) + old(rcvWnd))
      // Data in sequence goes to the application, or is kept for it, at once and in full.
      ensures !Finished(old(state)) && old(refused).Nothing? && Plain(seg) && !rxClosed && !sentAbort &&
              !answer.Abort? ==>
                Handed(old(h), h, refused, answer) && dead == (h.eofs == 1 && endAnswer.Abort?)
    {
      if state == TimeWait {
        return;
      }
      if refused.Nothing? {
        Dispatch(seg, s, sentAbort, answer, endAnswer);
      } else {
        ArriveKept(seg, s, retry, retryEnd, sentAbort, answer, endAnswer);
      }
    }

    /** The same when there is refused data to be offered first. */
    method ArriveKept(seg: Seg, ghost s: int, retry: Answer, retryEnd: Answer,
                      sentAbort: bool, answer: Answer, endAnswer: Answer)
      requires Valid() && !dead && state != TimeWait && refused.Kept?
      requires Near(seg, s, Next(h)) && (Plain(seg) && SegLen(seg) > 0 ==> Genuine(h, seg, s))
      modifies this`rcvNxt, this`rcvWnd, this`annWnd, this`annEdge, this`h, this`refused, this`state, this`dead
      ensures Valid() && h.edge >= old(h).edge && h.stream == old(h).stream && h.base == old(h).base
      ensures rxClosed && h.taken > old(h).taken ==> dead
      ensures !dead && h.lost != old(h).lost ==> old(state) == Closing && state == TimeWait && retry.Refuse?
      ensures old(state) == Closing && retry.Refuse? && Plain(seg) && SegLen(seg) == 0 && seg.ackFin ==>
                h.lost == old(refused).data && refused == Nothing && dead == sentAbort
      ensures retry.Refuse? && SegLen(seg) > 0 ==>
                !dead && h == old(h).(edge := h.edge) && refused == old(refused) && state == old(state)
      ensures !dead && !(retry.Refuse? && SegLen(seg) > 0) ==>
                && state == (if Plain(seg) then NextState(old(state), h.fin && !old(h).fin, seg.ackFin) else old(state))
                && (Plain(seg) && old(state) == LastAck ==> !seg.ackFin)
      ensures Next(h) == if Plain(seg) && !Finished(old(state)) && retry.Accept?
                         then NextAfter(Next(old(h)), s, EndOf(seg, s), Reopened(old(rcvWnd), old(refused), retry))
                         else Next(old(h))
    {
      var go := Retry(seg, retry, retryEnd);
      if go {
        Dispatch(seg, s, sentAbort, answer, endAnswer);
      }
    }

    /** tcp_input once refused data is out of the way. */
    method Dispatch(seg: Seg, ghost s: int, sentAbort: bool, answer: Answer, endAnswer: Answer)
      requires Valid() && !dead && state != TimeWait
      requires Near(seg, s, Next(h)) && (refused.Kept? ==> SegLen(seg) == 0)
      requires Plain(seg) && SegLen(seg) > 0 ==> Genuine(h, seg, s)
      modifies this`rcvNxt, this`rcvWnd, this`annWnd, this`annEdge, this`h, this`refused, this`state, this`dead
      ensures Valid() && h.edge >= old(h).edge && h.stream == old(h).stream && h.base == old(h).base
      ensures !dead && h.lost != old(h).lost ==> old(state) == Closing && state == TimeWait && old(refused).Kept?
      ensures !dead ==>
                state == if Plain(seg) then NextState(old(state), h.fin && !old(h).fin, seg.ackFin) else old(state)
      ensures old(state) == Closing && old(refused).Kept? && Plain(seg) && seg.ackFin ==>
                h.lost == old(refused).data && refused == Nothing && dead == sentAbort
      ensures seg.rst && !sentAbort ==> dead == (Next(old(h)) <= s <= Next(old(h)) + old(rcvWnd))
      ensures rxClosed && h.taken > old(h).taken ==> dead
      ensures sentAbort ==> dead
      ensures Plain(seg) && old(state) == LastAck && seg.ackFin ==> dead
      ensures Next(h) == if Plain(seg) && !Finished(old(state))
                         then NextAfter(Next(old(h)), s, EndOf(seg, s), old(rcvWnd)) else Next(old(h))
      ensures !Finished(old(state)) && old(refused).Nothing? && Plain(seg) && !rxClosed && !sentAbort &&
              !answer.Abort? ==>
                Handed(old(h), h, refused, answer) && dead == (h.eofs == 1 && endAnswer.Abort?)
    {
      if !Plain(seg) {
        Control(seg, s, sentAbort);
      } else if Finished(state) {
        LateSegment(seg.ackFin, sentAbort);
      } else {
        Segment(seg, s, sentAbort, answer, endAnswer);
      }
    }

    /** Resets and connection attempts. */
    method Control(seg: Seg, ghost s: int, sentAbort: bool)
      requires Valid() && !dead && Near(seg, s, Next(h))
      modifies this`refused, this`h, this`dead
      ensures Valid() && dead == (sentAbort || (seg.rst && Next(old(h)) <= s <= Next(old(h)) + rcvWnd))
      ensures refused == if dead then Nothing else old(refused)
      ensures h == if dead then old(h).(lost := old(h).lost + KeptData(old(refused))) else old(h)
    {
      var inside := InWindow(seg, s);
      Sent(sentAbort || (seg.rst && inside));
    }

    /** tcp_close; `sent` says whether the FIN could be queued.  The peer is reset exactly when
        the application has not taken and returned every byte that was received. */
    method Close(sent: bool) returns (reset: bool)
      requires Valid() && !dead
      modifies this`rxClosed, this`refused, this`h, this`state, this`dead
      ensures Valid() && rxClosed
      ensures reset == (old(state) in {Established, CloseWait} && old(h).returned < old(h).taken)
      ensures h == old(h).(lost := if reset then old(h).lost + KeptData(old(refused)) else old(h).lost)
      ensures dead == (reset && old(state) == CloseWait)
      ensures reset && old(state) == Established ==> state == TimeWait
      ensures !reset ==>
                state == (if sent && old(state) == Established then FinWait1
                          else if sent && old(state) == CloseWait then LastAck else old(state))
    {
      rxClosed := true;
      LengthSplit(h, KeptData(refused));
      reset := false;
      if state in {Established, CloseWait} && (refused.Kept? || rcvWnd != WND) {
        reset := true;
        assert KeptData(refused) + [] == KeptData(refused);
        Purge([]);
        if state == Established {
          state := TimeWait;
        } else {
          dead := true;
        }
      } else if sent {
        state := AfterFin(state);
      }
    }

    /** tcp_shutdown of the sending side. */
    method ShutdownTx(sent: bool)
      requires Valid() && !dead
      modifies this`state
      ensures Valid()
      ensures state == (if sent && old(state) == Established then FinWait1
                        else if sent && old(state) == CloseWait then LastAck else old(state))
    {
      if sent {
        state := AfterFin(state);
      }
    }

    /** tcp_shutdown of the receiving side: what is kept is freed. */
    method ShutdownRx()
      requires Valid() && !dead
      modifies this`rxClosed, this`refused, this`h
      ensures Valid() && rxClosed && refused == Nothing
      ensures h == old(h).(lost := old(h).lost + KeptData(old(refused)))
    {
      rxClosed := true;
      assert KeptData(refused) + [] == KeptData(refused);
      Purge([]);
    }
  }

  // Two runs in which bytes the peer knows to be acknowledged never reach the application.

  /** The only byte of the peer's stream and its FIN, at sequence number 0. */
  function ByteAndFin(ackFin: bool): Seg {
    Seg(0, [Pbuf([7], 1)], true, false, false, ackFin)
  }

  lemma ByteAndFinTaken(h: Hist, ackFin: bool)
    requires h == Hist([7], 0, 0, false, [], [], 0, 0, 0)
    ensures Near(ByteAndFin(ackFin), 0, Next(h)) && Genuine(h, ByteAndFin(ackFin), 0) && SegLen(ByteAndFin(ackFin)) == 2
    ensures Flat(ByteAndFin(ackFin).p) == [7]
  {
    var p := [Pbuf([7], 1)];
    assert p[1..] == [];
    assert Flat(p) == [7] + Flat([]) == [7];
    assert Totals(p);
  }

  method HalfClosed() returns (c: Pcb)
    ensures fresh(c) && c.Valid() && !c.dead && !c.rxClosed && c.refused == Nothing && c.state == FinWait1
    ensures c.rcvWnd == WND && c.h == Hist([7], 0, 0, false, [], [], 0, 0, 0)
  {
    c := new Pcb(0, 1460, [7]);
    c.ShutdownTx(true);
  }

  /** Half-closed, the application refuses the last data. */
  method RefuseLast(ackFin: bool) returns (c: Pcb)
    ensures fresh(c) && c.Valid() && !c.dead && !c.rxClosed && c.refused == Kept([7], true)
    ensures c.state == if ackFin then TimeWait else Closing
    ensures c.h.stream == [7] && c.h.base == 0 && c.h.taken == 1 && c.h.fin && c.h.accepted == [] && c.h.eofs == 0
  {
    c := HalfClosed();
    ByteAndFinTaken(c.h, ackFin);
    c.Input(ByteAndFin(ackFin), 0, Refuse, Refuse, false, Refuse, Refuse);
    assert Next(c.h) == 2 && c.h.fin && c.h.taken == 1;
  }

  function PureAck(): Seg {
    Seg(2, [Pbuf([], 0)], false, false, false, true)
  }

  lemma PureAckNear(n: int)
    requires n == 2
    ensures Near(PureAck(), 2, n) && SegLen(PureAck()) == 0 && Plain(PureAck())
  {
    var p := [Pbuf([], 0)];
    assert p[1..] == [];
    assert Flat(p) == [] + Flat([]);
    assert Totals(p);
  }

  /** The acknowledgement of our FIN then throws that data away. */
  method LosingRun() returns (c: Pcb)
    ensures fresh(c) && c.Valid() && !c.dead && !c.rxClosed && c.state == TimeWait
    ensures c.h.stream == [7] && c.h.lost == [7] && c.h.accepted == []
  {
    c := RefuseLast(false);
    PureAckNear(Next(c.h));
    c.Input(PureAck(), 2, Refuse, Refuse, false, Refuse, Refuse);
    LengthSplit(c.h, []);
  }

  /** When the last data also acknowledges our FIN, what is refused is kept in TIME_WAIT, and
      neither the timer nor a segment offers it again. */
  method StrandedRun(answer: Answer) returns (c: Pcb)
    ensures fresh(c) && c.Valid() && !c.dead && c.state == TimeWait
    ensures c.refused == Kept([7], true) && c.h.accepted == [] && c.h.eofs == 0
  {
    c := RefuseLast(true);
    c.FastTimer(answer, answer);
    PureAckNear(Next(c.h));
    c.Input(PureAck(), 2, answer, answer, false, answer, answer);
  }

  /** Sending our FIN. */
  function AfterFin(st: TcpState): TcpState {
    match st
    case Established => FinWait1
    case CloseWait => LastAck
    case _ => st
  }

  /** The history after taking `data` and perhaps the FIN. */
  ghost function Arrived(h: Hist, data: seq<int>, fin: bool): Hist {
    h.(taken := h.taken + |data|, fin := h.fin || fin)
  }

  /** `data` continues the stream. */
  ghost predicate ArrivedOk(h: Hist, data: seq<int>) {
    h.taken + |data| <= |h.stream| && data == h.stream[h.taken..h.taken + |data|]
  }

  /** What delivering does: with `cut` all is dropped, else the data and then its end are offered. */
  ghost predicate Delivered(h0: Hist, h: Hist, kept: seq<int>, data: seq<int>, gotFin: bool, cut: bool,
                            answer: Answer) {
    if cut then h == h0.(lost := h0.lost + kept + data)
    else
      var ended := gotFin && (data == [] || answer.Accept?);
      h == (if data == [] then h0 else Offered(h0, data, answer)).(eofs := if ended then 1 else h0.eofs, edge := h.edge)
  }

  ghost predicate DeliveredDead(data: seq<int>, gotFin: bool, cut: bool, answer: Answer, endAnswer: Answer) {
    || cut
    || (data != [] && answer.Abort?)
    || (gotFin && (data == [] || answer.Accept?) && endAnswer.Abort?)
  }

  lemma HandedOver(h0: Hist, h1: Hist, h: Hist, refused: Refused, data: seq<int>, gotFin: bool,
                   answer: Answer, endAnswer: Answer)
    requires ArrivedOk(h0, data) && !h0.fin && h0.eofs == 0
    requires h1 == Arrived(h0, data, gotFin) && Delivered(h1, h, [], data, gotFin, false, answer)
    requires !answer.Abort? && refused == if data != [] && answer.Refuse? then Kept(data, gotFin) else Nothing
    ensures Handed(h0, h, refused, answer)
    ensures DeliveredDead(data, gotFin, false, answer, endAnswer) == (h.eofs == 1 && endAnswer.Abort?)
  {
  }

  /** The bytes taken are accepted, or kept if the application refuses them, and the end of the
      stream is indicated unless something is kept before it. */
  ghost predicate Handed(h0: Hist, h: Hist, refused: Refused, answer: Answer) {
    && h0.taken <= h.taken <= |h.stream|
    && var data := h.stream[h0.taken..h.taken];
    && (answer.Accept? ==> h.accepted == h0.accepted + data && refused == Nothing)
    && (answer.Accept? ==> h.returned == h0.returned + Min(answer.back, |data|))
    && (answer.Refuse? ==> h.accepted == h0.accepted && KeptData(refused) == data)
    && (h.eofs == 1 <==> h.fin && refused.Nothing?)
  }

  lemma ArrivedStream(h: Hist, kept: seq<int>, data: seq<int>)
    requires h.taken + |data| <= |h.stream| && data == h.stream[h.taken..h.taken + |data|]
    requires h.accepted + h.lost + kept == h.stream[..h.taken]
    ensures h.accepted + h.lost + (kept + data) == h.stream[..h.taken + |data|]
  {
    assert h.accepted + h.lost + (kept + data) == h.accepted + h.lost + kept + data;
  }

  /** A segment that is neither a reset nor a connection attempt. */
  predicate Plain(seg: Seg) {
    !seg.rst && !seg.syn
  }

  /** TCP_TCPLEN of an arriving segment. */
  function SegLen(seg: Seg): nat
    requires seg.p != []
  {
    Length(seg.p[0].tot, seg.fin || seg.syn)
  }

  /** The state changes of tcp_process. */
  function NextState(st: TcpState, gotFin: bool, ackFin: bool): TcpState {
    match st
    case Established => if gotFin then CloseWait else st
    case FinWait1 => if gotFin then (if ackFin then TimeWait else Closing) else if ackFin then FinWait2 else st
    case FinWait2 => if gotFin then TimeWait else st
    case Closing => if ackFin then TimeWait else st
    case _ => st
  }

  /** The history after the application has answered to `data`. */
  ghost function Offered(h: Hist, data: seq<int>, answer: Answer): Hist {
    match answer
    case Accept(back) =>
      var n := if back < |data| then back else |data|;
      h.(accepted := h.accepted + data, returned := h.returned + n)
    case Refuse => h
    case Abort => h.(lost := h.lost + data)
  }

  /** The window never exceeds TCP_WND. */
  function Capped(wnd: nat): nat {
    if wnd > WND then WND else wnd
  }

  lemma LostJoins(h: Hist, data: seq<int>)
    requires StreamOk(h, data)
    ensures StreamOk(h.(lost := h.lost + data), [])
  {
    assert h.accepted + (h.lost + data) + [] == h.accepted + h.lost + data;
  }

  lemma LengthSplit(h: Hist, kept: seq<int>)
    requires StreamOk(h, kept)
    ensures |h.accepted| + |h.lost| + |kept| == h.taken
  {
    assert |h.stream[..h.taken]| == h.taken;
  }

  /** The bytes of a chain, as handed to the application. */
  method FlatOf(c: Chain) returns (data: seq<int>)
    ensures data == Flat(c)
  {
    data := [];
    for i := 0 to |c|
      invariant data == Flat(c[..i])
    {
      FlatSnoc(c, i);
      data := data + c[i].data;
    }
    assert c[..|c|] == c;
  }
}
