/**
  The pending-operation protocol of a TCP netconn: API messages posted by application
  threads, and the TCP callbacks that complete them later, all in the TCP/IP thread.
 */
module Netconn {
  datatype Err = Ok | Mem | WouldBlock | InProgress | Val | IsConn | Abrt | Rst | Clsd | Conn

  /** ERR_IS_FATAL */
  predicate Fatal(e: Err) {
    e in {Abrt, Rst, Clsd, Conn}
  }

  datatype State = None | Write | Listen | Connect | Close

  /** What the protocol depends on in the pcb: not yet opened, connecting, listening, able to
      send, past our own FIN, or no longer there. */
  datatype Pcb = Fresh | SynSent | Listening | Up | Shut | Gone

  datatype Msg =
    | WriteMsg(id: nat, data: seq<int>, dontblock: bool)
    | CloseMsg(id: nat, rx: bool, tx: bool)
    | PlainMsg(id: nat)

  datatype Current = NoMsg | Msg(msg: Msg)

  /** A completed message: the error returned, the length reported, the bytes that were
      handed to tcp_write for it, whether it was blocking when it completed, and whether it
      had been begun, rather than answered at once. */
  datatype Rec = Rec(msg: Msg, err: Err, reported: nat, handed: seq<int>, blocking: bool, begun: bool)

  /** tcp_write: whole or not at all. */
  function TcpWrite(pcb: Pcb, mem: bool): Err {
    if pcb !in {Up, SynSent} then Conn else if mem then Mem else Ok
  }

  /** tcp_close and tcp_shutdown; only sending a FIN can run out of memory. */
  function TcpClose(pcb: Pcb, rx: bool, tx: bool, mem: bool): Err {
    if !tx then Ok
    else if pcb == Up then if mem then Mem else Ok
    else if rx then Ok else Conn
  }

  // Completed messages.

  /** A completed write handed over a prefix of its data; success means the reported length
      is what was handed over, and all of it if the write was blocking. */
  ghost predicate RecOk(r: Rec) {
    r.msg.WriteMsg? ==>
      && r.handed <= r.msg.data
      && (r.err == Ok ==> r.reported == |r.handed|)
      && (r.err == Ok && r.blocking ==> r.handed == r.msg.data)
  }

  /** The completed messages, the last one outermost. */
  datatype Log = Empty | Done(before: Log, last: Rec)

  ghost predicate LogOk(log: Log) {
    log.Done? ==> LogOk(log.before) && RecOk(log.last)
  }

  /** How often a message has been acknowledged. */
  ghost function Times(log: Log, k: nat): nat {
    if log == Empty then 0 else Times(log.before, k) + if log.last.msg.id == k then 1 else 0
  }

  ghost predicate IsCurrent(cur: Current, k: nat) {
    cur.Msg? && cur.msg.id == k
  }

  /** Every message issued has been acknowledged once, but for the current one, which has
      not; no other message has been. */
  ghost predicate LogInv(log: Log, issued: nat, cur: Current) {
    && LogOk(log) && (cur.Msg? ==> cur.msg.id < issued)
    && forall k: nat :: Times(log, k) == if k < issued && !IsCurrent(cur, k) then 1 else 0
  }

  /** All bytes handed to tcp_write for completed messages, in order. */
  ghost function Handed(log: Log): seq<int> {
    if log == Empty then [] else Handed(log.before) + log.last.handed
  }

  /** The bytes of all write messages, in order of completion. */
  ghost function Written(log: Log): seq<int> {
    if log == Empty then []
    else Written(log.before) + if log.last.msg.WriteMsg? then log.last.msg.data else []
  }

  /** The last write that was begun returned an error after bytes had been handed over. */
  ghost predicate CutShort(log: Log) {
    && log.Done?
    && if log.last.msg.WriteMsg? && log.last.begun then log.last.err != Ok && log.last.handed != []
       else CutShort(log.before)
  }

  /** Every write was blocking and succeeded. */
  ghost predicate AllBlocking(log: Log) {
    log.Done? ==>
      && AllBlocking(log.before)
      && if log.last.msg.WriteMsg? then log.last.err == Ok && log.last.blocking else log.last.handed == []
  }

  /** Then TCP was given exactly the bytes of the callers, each once and in order. */
  lemma {:induction false} HandedIsWritten(log: Log)
    requires LogOk(log) && AllBlocking(log)
    ensures Handed(log) == Written(log)
  {
    if log.Done? {
      HandedIsWritten(log.before);
    }
  }

  lemma LogReply(log: Log, issued: nat, cur: Current, r: Rec)
    requires LogInv(log, issued, cur) && RecOk(r) && r.msg.id == issued && r.handed == []
    ensures LogInv(Done(log, r), issued + 1, cur) && Handed(Done(log, r)) == Handed(log)
  {
  }

  lemma LogFinish(log: Log, issued: nat, cur: Current, r: Rec)
    requires LogInv(log, issued, cur) && RecOk(r) && cur == Msg(r.msg)
    ensures LogInv(Done(log, r), issued, NoMsg)
  {
    assert IsCurrent(cur, r.msg.id);
  }

  lemma LogPost(log: Log, issued: nat, m: Msg)
    requires LogInv(log, issued, NoMsg) && m.id == issued
    ensures LogInv(log, issued + 1, Msg(m))
  {
  }

  /** The part of the current write that has been handed over. */
  ghost function Now(cur: Current, offset: nat): seq<int> {
    if cur.Msg? && cur.msg.WriteMsg? && offset <= |cur.msg.data| then cur.msg.data[..offset] else []
  }

  /** What was handed over is what the completed messages account for and the part of the
      current one. */
  ghost predicate WireOk(wire: seq<int>, log: Log, cur: Current, offset: nat) {
    if cur == NoMsg then wire == Handed(log) else wire == Handed(log) + Now(cur, offset)
  }

  lemma WireGrows(wire: seq<int>, log: Log, cur: Current, offset: nat, n: nat)
    requires cur.Msg? && cur.msg.WriteMsg? && offset + n <= |cur.msg.data| && WireOk(wire, log, cur, offset)
    ensures WireOk(wire + cur.msg.data[offset..offset + n], log, cur, offset + n)
  {
    var d := cur.msg.data;
    assert d[..offset] + d[offset..offset + n] == d[..offset + n];
    assert Handed(log) + d[..offset] + d[offset..offset + n] == Handed(log) + (d[..offset] + d[offset..offset + n]);
  }

  /** How much of a write is tried next: at most 65535 bytes and the send buffer. */
  function Chunk(m: Msg, offset: nat, avail: nat): (n: nat)
    requires m.WriteMsg? && offset < |m.data|
    ensures n <= avail && n <= 0xffff && offset + n <= |m.data|
    ensures n == avail || n == 0xffff || offset + n == |m.data|
  {
    var len := if |m.data| - offset > 0xffff then 0xffff else |m.data| - offset;
    if avail < len then avail else len
  }

  predicate DontBlock(nonblocking: bool, m: Msg) {
    nonblocking || (m.WriteMsg? && m.dontblock)
  }

  /** What is pending in each state, and what is known of the pcb: an unacknowledged message
      is the current one, in state WRITE, CLOSE or blocking CONNECT. */
  ghost predicate StateOk(st: State, cur: Current, nbConnect: bool, pcb: Pcb) {
    match st
    case None => cur == NoMsg && pcb !in {SynSent, Listening} && (nbConnect ==> pcb == Gone)
    case Write => cur.Msg? && cur.msg.WriteMsg? && pcb !in {SynSent, Listening, Gone} && !nbConnect
    case Listen => cur == NoMsg && pcb == Listening && !nbConnect
    case Connect => pcb == SynSent && if nbConnect then cur == NoMsg else cur.Msg? && cur.msg.PlainMsg?
    case Close => cur.Msg? && cur.msg.CloseMsg? && pcb !in {SynSent, Listening, Gone} && !nbConnect
  }

  /** The states in which err_tcp looks for a message to complete. */
  predicate Waits(st: State) {
    st == Write || st == Close || st == Connect
  }

  lemma PendingIff(st: State, cur: Current, nbConnect: bool, pcb: Pcb)
    requires StateOk(st, cur, nbConnect, pcb)
    ensures Waits(st) && !nbConnect <==> cur.Msg?
  {
  }

  /** How far the current write has got, and what a finished one leaves behind: a stale
      offset exactly when it was cut short, which takes a switch to non-blocking on the way. */
  ghost predicate OffsetOk(st: State, cur: Current, offset: nat, pcb: Pcb, nonblocking: bool, cut: bool,
                           switched: bool) {
    if st == Write && cur.Msg? && cur.msg.WriteMsg? then
      && offset < |cur.msg.data|
      && (offset > 0 ==> pcb == Up && (switched || !DontBlock(nonblocking, cur.msg)))
    else
      pcb != Gone ==> (offset != 0 <==> cut) && (cut ==> switched)
  }

  class Conn {
    var state: State
    var current: Current
    var offset: nat
    var pcb: Pcb
    var nbConnect: bool     // a non-blocking connect is in progress
    var nonblocking: bool
    var lastErr: Err
    ghost var issued: nat
    ghost var log: Log
    ghost var wire: seq<int>
    ghost var switched: bool // the last write became non-blocking part of the way

    ghost predicate Valid()
      reads this
    {
      && LogInv(log, issued, current) && WireOk(wire, log, current, offset)
      && StateOk(state, current, nbConnect, pcb)
      && OffsetOk(state, current, offset, pcb, nonblocking, CutShort(log), switched)
    }

    /** A netconn with a new pcb, or one for a connection just accepted. */
    constructor (accepted: bool)
      ensures Valid() && issued == 0 && log == Empty && wire == [] && state == None && !switched
      ensures lastErr == Ok && !nonblocking
      ensures pcb == if accepted then Up else Fresh
    {
      state, current, offset, pcb := None, NoMsg, 0, if accepted then Up else Fresh;
      nbConnect, nonblocking, lastErr := false, false, Ok;
      issued, log, wire, switched := 0, Empty, [], false;
    }

    /** Answer a new message at once; the pending one is not touched. */
    method Reply(m: Msg, e: Err)
      requires Valid() && m.id == issued && (m.WriteMsg? ==> e != Ok)
      modifies this`issued, this`log
      ensures Valid() && issued == old(issued) + 1 && log == Done(old(log), Rec(m, e, 0, [], true, false))
    {
      ghost var r := Rec(m, e, 0, [], true, false);
      LogReply(log, issued, current, r);
      log, issued := Done(log, r), issued + 1;
    }

    /** Complete the current message and wake its thread. */
    method Finish(e: Err, reported: nat)
      requires LogInv(log, issued, current) && WireOk(wire, log, current, offset) && current.Msg?
      requires RecOk(Rec(current.msg, e, reported, Now(current, offset), !DontBlock(nonblocking, current.msg), true))
      modifies this`current, this`state, this`log
      ensures LogInv(log, issued, current) && current == NoMsg && state == None
      ensures log == Done(old(log), Rec(old(current).msg, e, reported, Now(old(current), offset),
                                        !DontBlock(nonblocking, old(current).msg), true))
      ensures wire == Handed(log)
    {
      ghost var r := Rec(current.msg, e, reported, Now(current, offset), !DontBlock(nonblocking, current.msg), true);
      LogFinish(log, issued, current, r);
      log := Done(log, r);
      current, state := NoMsg, None;
    }

    /** Hand the next part of the current write to tcp_write. */
    method Hand(avail: nat, mem: bool) returns (e: Err)
      requires current.Msg? && current.msg.WriteMsg? && offset < |current.msg.data|
      requires WireOk(wire, log, current, offset)
      modifies this`offset, this`wire
      ensures e == Outcome(pcb, DontBlock(nonblocking, current.msg), avail, mem)
      ensures offset == Got(current.msg, e, old(offset), avail)
      ensures e == Ok ==>
                var left := |current.msg.data| - old(offset);
                offset - old(offset) == if avail < left && avail < 0xffff then avail
                                        else if left < 0xffff then left else 0xffff
      ensures e != Ok ==> offset == old(offset)
      ensures wire == old(wire) + current.msg.data[old(offset)..offset]
      ensures WireOk(wire, log, current, offset)
    {
      var n := Chunk(current.msg, offset, avail);
      e := if DontBlock(nonblocking, current.msg) && n == 0 then WouldBlock else TcpWrite(pcb, mem);
      if e == Ok {
        WireGrows(wire, log, current, offset, n);
        wire := wire + current.msg.data[offset..offset + n];
        offset := offset + n;
      }
    }

    /** The end of do_writemore: wait for more room, or complete the write. */
    method Settle(e: Err)
      requires LogInv(log, issued, current) && WireOk(wire, log, current, offset)
      requires StateOk(state, current, nbConnect, pcb) && state == Write && offset <= |current.msg.data|
      requires offset > 0 ==> pcb == Up && (e == Ok || switched || (e == Mem && !DontBlock(nonblocking, current.msg)))
      requires e == Ok || offset < |current.msg.data|
      modifies this`current, this`state, this`log, this`offset
      ensures Valid()
      ensures Turned(old(current.msg), e, old(offset), DontBlock(nonblocking, old(current.msg)),
                     state, current, offset, old(log), log)
    {
      var m := current.msg;
      if e == Ok && (offset == |m.data| || DontBlock(nonblocking, m)) {
        Finish(Ok, offset);
        offset := 0;
      } else if e != Ok && (e != Mem || DontBlock(nonblocking, m)) {
        Finish(e, 0);
      }
    }

    /** do_writemore; `avail` is the free send buffer, `mem` whether tcp_write lacks memory. */
    method WriteMore(avail: nat, mem: bool)
      requires Valid() && state == Write
      modifies this`current, this`state, this`log, this`offset, this`wire
      ensures Valid()
      ensures var m, dont := old(current.msg), DontBlock(nonblocking, old(current.msg));
              var e := Outcome(pcb, dont, avail, mem);
              var got := Got(m, e, old(offset), avail);
              && wire == old(wire) + m.data[old(offset)..got]
              && Turned(m, e, got, dont, state, current, offset, old(log), log)
    {
      var e := Hand(avail, mem);
      Settle(e);
    }

    /** A new message becomes the current one. */
    method Post(m: Msg, st: State)
      requires LogInv(log, issued, current) && WireOk(wire, log, current, offset) && current == NoMsg && m.id == issued
      requires m.WriteMsg? ==> offset == 0
      modifies this`current, this`state, this`issued
      ensures current == Msg(m) && state == st && issued == old(issued) + 1
      ensures LogInv(log, issued, current) && WireOk(wire, log, current, offset)
    {
      LogPost(log, issued, m);
      assert wire == Handed(log) + [];
      current, state, issued := Msg(m), st, issued + 1;
    }

    /** The part of do_write that starts writing. */
    method StartWrite(m: Msg, avail: nat, mem: bool)
      requires Valid() && m.WriteMsg? && m.id == issued && m.data != [] && state == None && pcb != Gone
      modifies this`current, this`state, this`log, this`offset, this`wire, this`switched, this`issued
      ensures Valid() && issued == old(issued) + 1 && !switched
      ensures WriteStarted(m, pcb, DontBlock(nonblocking, m), avail, mem, old(wire), wire,
                           state, current, offset, old(log), log)
    {
      offset, switched := 0, false;
      Post(m, Write);
      WriteMore(avail, mem);
    }

    /** do_write; `sane` is the value of its assertion that nothing is being written. */
    method DoWrite(m: Msg, avail: nat, mem: bool) returns (sane: bool)
      requires Valid() && m.WriteMsg? && m.id == issued && m.data != []
      modifies this`current, this`state, this`log, this`offset, this`wire, this`switched, this`issued
      ensures Valid() && issued == old(issued) + 1
      ensures sane == !(WriteRefusal(lastErr, old(state), pcb) == Ok && CutShort(old(log)))
      ensures var e := WriteRefusal(lastErr, old(state), pcb);
              if e == Ok then
                WriteStarted(m, pcb, DontBlock(nonblocking, m), avail, mem, old(wire), wire,
                             state, current, offset, old(log), log)
              else
                && log == Done(old(log), Rec(m, e, 0, [], true, false))
                && wire == old(wire) && state == old(state) && current == old(current)
      // The answers given at once.
      ensures lastErr in {Abrt, Rst, Clsd, Err.Conn} ==> Answered(log, old(log), m, lastErr)
      ensures lastErr !in {Abrt, Rst, Clsd, Err.Conn} && old(state) != None ==> Answered(log, old(log), m, InProgress)
      ensures lastErr !in {Abrt, Rst, Clsd, Err.Conn} && old(state) == None && pcb == Gone ==>
                Answered(log, old(log), m, Err.Conn)
      // Non-blocking: as much as fits is handed over and reported.
      ensures lastErr !in {Abrt, Rst, Clsd, Err.Conn} && old(state) == None && pcb == Up && !mem && avail > 0 &&
              (nonblocking || m.dontblock) ==>
                var n := if avail < |m.data| && avail < 0xffff then avail
                         else if |m.data| < 0xffff then |m.data| else 0xffff;
                Answered(log, old(log), m, Ok) && log.last.reported == n && wire == old(wire) + m.data[..n]
      ensures lastErr !in {Abrt, Rst, Clsd, Err.Conn} && old(state) == None && pcb == Up &&
              (nonblocking || m.dontblock) && (mem || avail == 0) ==>
                Answered(log, old(log), m, if avail == 0 then WouldBlock else Mem) && wire == old(wire)
      // Blocking with room for all of it: done at once.
      ensures lastErr !in {Abrt, Rst, Clsd, Err.Conn} && old(state) == None && pcb == Up && !mem &&
              !nonblocking && !m.dontblock && |m.data| <= avail && |m.data| <= 0xffff ==>
                Answered(log, old(log), m, Ok) && wire == old(wire) + m.data
      // Not open for sending, or sent FIN already.
      ensures lastErr !in {Abrt, Rst, Clsd, Err.Conn} && old(state) == None && pcb in {Fresh, Shut} && avail > 0 ==>
                Answered(log, old(log), m, Err.Conn) && wire == old(wire)
    {
      var e := WriteRefusal(lastErr, state, pcb);
      sane := true;
      if e == Ok {
        sane := current == NoMsg && offset == 0;
        StartWrite(m, avail, mem);
      } else {
        Reply(m, e);
      }
    }

    /** do_close_internal: close or shut down; without memory for the FIN the message stays
        pending.  A connection attempt can only be closed as a whole, and always is. */
    method CloseInternal(mem: bool)
      requires LogInv(log, issued, current) && WireOk(wire, log, current, offset)
      requires state == Close && current.Msg? && current.msg.CloseMsg? && pcb != Gone
      requires pcb in {SynSent, Listening} ==> current.msg.rx && current.msg.tx
      requires nbConnect ==> pcb == SynSent
      requires OffsetOk(state, current, offset, pcb, nonblocking, CutShort(log), switched)
      modifies this`current, this`state, this`log, this`pcb
      ensures Valid()
      ensures ClosedAs(old(current.msg), old(pcb), mem, pcb, state, current, old(log), log, nonblocking)
    {
      var m := current.msg;
      var e := TcpClose(pcb, m.rx, m.tx, mem);
      if e == Ok {
        Finish(Ok, 0);
        pcb := PcbAfter(pcb, m);
      }
    }

    /** do_close; `sane` is the value of its assertion that nothing is being written or closed. */
    method DoClose(m: Msg, mem: bool) returns (sane: bool)
      requires Valid() && m.CloseMsg? && m.id == issued
      modifies this`current, this`state, this`log, this`pcb, this`issued
      ensures Valid() && issued == old(issued) + 1 && wire == old(wire)
      ensures var e := CloseRefusal(m, old(state), old(pcb));
              && sane == !(e == Ok && CutShort(old(log)))
              && if e == Ok then ClosedAs(m, old(pcb), mem, pcb, state, current, old(log), log, nonblocking)
                 else (&& log == Done(old(log), Rec(m, e, 0, [], true, false))
                       && state == old(state) && current == old(current) && pcb == old(pcb))
      ensures old(state) in {Write, Connect, Close} ==> Answered(log, old(log), m, InProgress)
      ensures old(pcb) == Gone ==> Answered(log, old(log), m, Val)
      ensures old(state) == Listen && !(m.rx && m.tx) ==> Answered(log, old(log), m, Err.Conn)
      // A whole close only waits for memory for the FIN; half of one needs an open connection to send a FIN.
      ensures old(state) in {None, Listen} && old(pcb) != Gone && m.rx && m.tx ==>
                if old(pcb) == Up && mem then state == Close && current == Msg(m) && pcb == Up
                else Answered(log, old(log), m, Ok) && pcb == Gone
      ensures old(state) == None && old(pcb) != Gone && !m.tx ==> Answered(log, old(log), m, Ok) && pcb == old(pcb)
      ensures old(state) == None && old(pcb) != Gone && m.tx && !m.rx ==>
                if old(pcb) == Up && !mem then Answered(log, old(log), m, Ok) && pcb == Shut
                else state == Close && current == Msg(m) && pcb == old(pcb)
    {
      var e := CloseRefusal(m, state, pcb);
      sane := true;
      if e == Ok {
        sane := current == NoMsg && offset == 0;
        Post(m, Close);
        CloseInternal(mem);
      } else {
        Reply(m, e);
      }
    }

    /** do_delconn; a blocking connect must not be in progress. */
    method DoDelconn(m: Msg, mem: bool) returns (sane: bool)
      requires Valid() && m.CloseMsg? && m.rx && m.tx && m.id == issued
      requires state == Connect ==> nbConnect
      modifies this`current, this`state, this`log, this`pcb, this`issued
      ensures Valid() && issued == old(issued) + 1 && wire == old(wire)
      ensures var busy := old(state) in {Write, Close};
              && sane == !(!busy && old(pcb) != Gone && CutShort(old(log)))
              && if !busy && old(pcb) != Gone
                 then ClosedAs(m, old(pcb), mem, pcb, state, current, old(log), log, nonblocking)
                 else (&& log == Done(old(log), Rec(m, if busy then InProgress else Ok, 0, [], true, false))
                       && state == old(state) && current == old(current) && pcb == old(pcb))
      ensures old(state) in {None, Listen, Connect} && !(old(pcb) == Up && mem) ==>
                Answered(log, old(log), m, Ok) && pcb == Gone && state == None
    {
      sane := true;
      if state in {Write, Close} {
        Reply(m, InProgress);
      } else if pcb != Gone {
        sane := current == NoMsg && offset == 0;
        Post(m, Close);
        CloseInternal(mem);
      } else {
        Reply(m, Ok);
      }
    }

    /** do_connect; `result` is what tcp_connect returns for a pcb that can still be opened. */
    method DoConnect(m: Msg, result: Err)
      requires Valid() && m.PlainMsg? && m.id == issued
      modifies this`current, this`state, this`log, this`pcb, this`nbConnect, this`issued
      ensures Valid() && issued == old(issued) + 1 && wire == old(wire)
      ensures var e := ConnectResult(old(state), old(pcb), result);
              if e == Ok then
                && state == Connect && pcb == SynSent && nbConnect == nonblocking
                && (nonblocking ==> log == Done(old(log), Rec(m, InProgress, 0, [], true, false)))
                && (!nonblocking ==> log == old(log) && current == Msg(m))
              else
                && log == Done(old(log), Rec(m, e, 0, [], true, false))
                && state == old(state) && current == old(current) && pcb == old(pcb) && nbConnect == old(nbConnect)
      ensures old(pcb) == Gone ==> Answered(log, old(log), m, Clsd)
      ensures old(pcb) != Gone && (old(state) != None || old(pcb) != Fresh) ==> Answered(log, old(log), m, IsConn)
      ensures old(pcb) == Fresh && old(state) == None && result == Ok ==> state == Connect && pcb == SynSent
    {
      var e := ConnectResult(state, pcb, result);
      if e != Ok {
        Reply(m, e);
        return;
      }
      pcb, nbConnect := SynSent, nonblocking;
      if nonblocking {
        state := Connect;
        Reply(m, InProgress);
      } else {
        Post(m, Connect);
      }
    }

    /** do_connected: the connection is up. */
    method DoConnected()
      requires Valid() && pcb == SynSent
      modifies this`current, this`state, this`log, this`pcb, this`nbConnect, this`lastErr
      ensures Valid() && pcb == Up && state == None && current == NoMsg && !nbConnect
      ensures log == if old(nbConnect) then old(log)
                     else Done(old(log), Rec(old(current).msg, Ok, 0, [], !nonblocking, true))
      ensures Fatal(old(lastErr)) ==> lastErr == old(lastErr)
    {
      var blocking := !nbConnect;
      pcb, nbConnect := Up, false;
      if blocking {
        Finish(Ok, 0);
      } else {
        state := None;
        lastErr := if Fatal(lastErr) then lastErr else Ok;
      }
    }

    /** Complete the pending message, if there is one, with an error. */
    method Fail(e: Err, pending: bool)
      requires LogInv(log, issued, current) && WireOk(wire, log, current, offset) && e != Ok
      requires pending <==> current.Msg?
      modifies this`current, this`state, this`log
      ensures LogInv(log, issued, NoMsg) && wire == Handed(log) && current == NoMsg && state == None
      ensures log == Failed(old(log), old(current), e, offset, nonblocking)
    {
      state := None;
      if pending {
        Finish(e, 0);
      }
    }

    /** err_tcp: the pcb is gone, and whatever was pending is completed with the error. */
    method ErrTcp(e: Err)
      requires Valid() && pcb != Gone && Fatal(e)
      modifies this`current, this`state, this`log, this`pcb, this`nbConnect, this`lastErr
      ensures Valid() && pcb == Gone && state == None && current == NoMsg && lastErr == e
      ensures log == Failed(old(log), old(current), e, offset, nonblocking)
      ensures if old(current) == NoMsg then log == old(log) else Answered(log, old(log), old(current).msg, e)
    {
      PendingIff(state, current, nbConnect, pcb);
      var pending := Waits(state) && !nbConnect;
      pcb, lastErr := Gone, e;
      nbConnect := nbConnect && !Waits(state);
      Fail(e, pending);
    }

    /** poll_tcp and sent_tcp: go on with what is pending. */
    method Resume(avail: nat, mem: bool)
      requires Valid() && pcb != Gone
      modifies this`current, this`state, this`log, this`offset, this`wire, this`pcb
      ensures Valid()
      ensures old(state) == Write ==>
                var m, dont := old(current.msg), DontBlock(nonblocking, old(current.msg));
                var e := Outcome(old(pcb), dont, avail, mem);
                var got := Got(m, e, old(offset), avail);
                && wire == old(wire) + m.data[old(offset)..got] && pcb == old(pcb)
                && Turned(m, e, got, dont, state, current, offset, old(log), log)
      ensures old(state) == Close ==>
                && wire == old(wire)
                && ClosedAs(old(current.msg), old(pcb), mem, pcb, state, current, old(log), log, nonblocking)
      ensures old(state) !in {Write, Close} ==>
                && log == old(log) && wire == old(wire) && state == old(state)
                && current == old(current) && pcb == old(pcb)
    {
      if state == Write {
        WriteMore(avail, mem);
      } else if state == Close {
        CloseInternal(mem);
      }
    }

    /** do_listen; `room` and `mbox` say whether there is memory for the listening pcb and for
        its mailbox.  Without the mailbox the pcb is lost. */
    method DoListen(m: Msg, room: bool, mbox: bool)
      requires Valid() && m.PlainMsg? && m.id == issued
      modifies this`state, this`log, this`pcb, this`issued
      ensures Valid() && issued == old(issued) + 1 && wire == old(wire) && current == old(current)
      ensures var e := ListenResult(lastErr, old(state), old(pcb), room && mbox);
              var made := e in {Ok, Mem} && old(pcb) == Fresh && room;
              && log == Done(old(log), Rec(m, e, 0, [], true, false))
              && state == (if e == Ok then Listen else old(state))
              && pcb == (if !made then old(pcb) else if mbox then Listening else Gone)
      ensures lastErr in {Abrt, Rst, Clsd, Err.Conn} ==> Answered(log, old(log), m, lastErr) && state == old(state)
      ensures lastErr !in {Abrt, Rst, Clsd, Err.Conn} && old(state) == None && old(pcb) == Fresh ==>
                if room && mbox then Answered(log, old(log), m, Ok) && state == Listen && pcb == Listening
                else Answered(log, old(log), m, Mem) && pcb == if room then Gone else Fresh
    {
      var e := ListenResult(lastErr, state, pcb, room && mbox);
      if e in {Ok, Mem} && pcb == Fresh && room {
        pcb := if mbox then Listening else Gone;
        state := if mbox then Listen else None;
      }
      Reply(m, e);
    }

    /** netconn_set_nonblocking. */
    method SetNonblocking(b: bool)
      requires Valid()
      modifies this`nonblocking, this`switched
      ensures Valid() && nonblocking == b
      ensures switched == (old(switched) || (state == Write && offset > 0 && b))
    {
      nonblocking := b;
      switched := switched || (state == Write && offset > 0 && b);
    }
  }

  /** The log after the current message, if any, fails. */
  ghost function Failed(log: Log, cur: Current, e: Err, offset: nat, nonblocking: bool): Log {
    if cur == NoMsg then log
    else Done(log, Rec(cur.msg, e, 0, Now(cur, offset), !DontBlock(nonblocking, cur.msg), true))
  }

  /** What closing does to a message and the pcb: it completes unless it fails. */
  ghost predicate ClosedAs(m: Msg, pcb0: Pcb, mem: bool, pcb: Pcb, st: State, cur: Current, log0: Log, log: Log,
                           nonblocking: bool)
    requires m.CloseMsg?
  {
    if TcpClose(pcb0, m.rx, m.tx, mem) == Ok then
      st == None && cur == NoMsg && pcb == PcbAfter(pcb0, m) && log == Done(log0, Rec(m, Ok, 0, [], !nonblocking, true))
    else
      st == Close && cur == Msg(m) && pcb == pcb0 && log == log0
  }

  function PcbAfter(pcb: Pcb, m: Msg): Pcb
    requires m.CloseMsg?
  {
    if m.rx && m.tx then Gone else if m.tx then Shut else pcb
  }

  /** Why do_close answers at once; ERR_OK if it starts closing. */
  function CloseRefusal(m: Msg, st: State, pcb: Pcb): Err
    requires m.CloseMsg?
  {
    if st !in {None, Listen} then InProgress
    else if pcb == Gone then Val
    else if !(m.rx && m.tx) && st == Listen then Err.Conn
    else Ok
  }

  /** What do_listen answers. */
  function ListenResult(lastErr: Err, st: State, pcb: Pcb, memory: bool): Err {
    if Fatal(lastErr) then lastErr
    else if pcb == Gone || st != None then Err.Conn
    else if pcb != Fresh || !memory then Mem else Ok
  }

  function ConnectResult(st: State, pcb: Pcb, result: Err): Err {
    if pcb == Gone then Clsd else if st != None || pcb != Fresh then IsConn else result
  }

  /** The message has been answered, last of all. */
  ghost predicate Answered(log: Log, log0: Log, m: Msg, e: Err) {
    log.Done? && log.before == log0 && log.last.msg == m && log.last.err == e
  }

  /** Why do_write answers at once; ERR_OK if it starts writing. */
  function WriteRefusal(lastErr: Err, st: State, pcb: Pcb): Err {
    if Fatal(lastErr) then lastErr else if st != None then InProgress else if pcb == Gone then Err.Conn else Ok
  }

  /** The first turn of a write. */
  ghost predicate WriteStarted(m: Msg, pcb: Pcb, dont: bool, avail: nat, mem: bool, wire0: seq<int>, wire: seq<int>,
                               st: State, cur: Current, offset: nat, log0: Log, log: Log)
    requires m.WriteMsg? && m.data != []
  {
    var e := Outcome(pcb, dont, avail, mem);
    var got := Got(m, e, 0, avail);
    wire == wire0 + m.data[..got] && Turned(m, e, got, dont, st, cur, offset, log0, log)
  }

  /** What a try to write comes to. */
  function Outcome(pcb: Pcb, dont: bool, avail: nat, mem: bool): Err {
    if dont && avail == 0 then WouldBlock else TcpWrite(pcb, mem)
  }

  /** How far the write is after a try that ended with `e`. */
  function Got(m: Msg, e: Err, offset: nat, avail: nat): (n: nat)
    requires m.WriteMsg? && offset < |m.data|
    ensures offset <= n <= |m.data|
  {
    offset + if e == Ok then Chunk(m, offset, avail) else 0
  }

  /** A write waits for more room while it is blocking and not all is handed over; otherwise
      it completes. */
  ghost predicate Turned(m: Msg, e: Err, got: nat, dont: bool, st: State, cur: Current, offset: nat, log0: Log,
                         log: Log)
    requires m.WriteMsg? && got <= |m.data|
  {
    if !dont && (e == Mem || (e == Ok && got < |m.data|)) then
      st == Write && cur == Msg(m) && offset == got && log == log0
    else
      && st == None && cur == NoMsg
      && log == Done(log0, Rec(m, e, if e == Ok then got else 0, m.data[..got], !dont, true))
  }

  // A blocking write over all its turns.

  datatype Try = Try(avail: nat, mem: bool)

  /** How far a blocking write is after these turns. */
  function Resumed(m: Msg, offset: nat, tries: seq<Try>): (r: nat)
    requires m.WriteMsg? && offset <= |m.data|
    ensures offset <= r <= |m.data|
    decreases |tries|
  {
    if tries == [] || offset == |m.data| then offset
    else Resumed(m, Got(m, Outcome(Up, false, tries[0].avail, tries[0].mem), offset, tries[0].avail), tries[1..])
  }

  /** Turns that find room and memory. */
  function Useful(tries: seq<Try>): nat {
    if tries == [] then 0 else (if tries[0].avail > 0 && !tries[0].mem then 1 else 0) + Useful(tries[1..])
  }

  /** However many turns fail for lack of memory, a write completes once as many have
      succeeded as it has bytes left. */
  lemma {:induction false} WriteCompletes(m: Msg, offset: nat, tries: seq<Try>)
    requires m.WriteMsg? && offset <= |m.data| && Useful(tries) >= |m.data| - offset
    ensures Resumed(m, offset, tries) == |m.data|
    decreases |tries|
  {
    if tries != [] && offset < |m.data| {
      WriteCompletes(m, Got(m, Outcome(Up, false, tries[0].avail, tries[0].mem), offset, tries[0].avail), tries[1..]);
    }
  }

  /** One turn of the connection. */
  method ResumeOnce(c: Conn, t: Try)
    requires c.Valid() && c.state == Write && c.pcb == Up && !DontBlock(c.nonblocking, c.current.msg)
    modifies c
    ensures c.Valid() && c.pcb == Up && c.nonblocking == old(c.nonblocking)
    ensures var m := old(c.current.msg);
            var got := Got(m, Outcome(Up, false, t.avail, t.mem), old(c.offset), t.avail);
            Turned(m, Ok, got, false, c.state, c.current, c.offset, old(c.log), c.log)
  {
    c.Resume(t.avail, t.mem);
  }

  /** The connection does just that: resumed in turn, a pending blocking write is as far as
      those turns take it, and is acknowledged with all its bytes when they take it all the way. */
  method ResumeAll(c: Conn, tries: seq<Try>)
    requires c.Valid() && c.state == Write && c.pcb == Up && !DontBlock(c.nonblocking, c.current.msg)
    modifies c
    ensures c.Valid()
    ensures var m := old(c.current.msg);
            Turned(m, Ok, Resumed(m, old(c.offset), tries), false, c.state, c.current, c.offset, old(c.log), c.log)
    decreases |tries|
  {
    if tries != [] {
      ResumeOnce(c, tries[0]);
      if c.state == Write {
        ResumeAll(c, tries[1..]);
      }
    }
  }

  /** So a blocking write is acknowledged with all its bytes handed over, once and in order,
      when enough turns find room and memory. */
  method CompleteWrite(c: Conn, tries: seq<Try>)
    requires c.Valid() && c.state == Write && c.pcb == Up && !DontBlock(c.nonblocking, c.current.msg)
    requires Useful(tries) >= |c.current.msg.data| - c.offset
    modifies c
    ensures c.Valid() && c.state == None && c.current == NoMsg
    ensures var m := old(c.current.msg); c.log == Done(old(c.log), Rec(m, Ok, |m.data|, m.data, true, true))
  {
    WriteCompletes(c.current.msg, c.offset, tries);
    ghost var m := c.current.msg;
    ResumeAll(c, tries);
    assert m.data[..|m.data|] == m.data;
  }

  /** A run in which the assertion of do_write fails: a blocking write gets one of its two
      bytes over, the connection is made non-blocking, memory is short, and the write ends
      with an error; the offset it leaves behind trips the next one. */
  method TrippingRun() returns (c: Conn, sane: bool)
    ensures fresh(c) && c.Valid() && !sane
  {
    c := new Conn(true);
    sane := c.DoWrite(WriteMsg(0, [1, 2], false), 1, false);
    c.SetNonblocking(true);
    c.Resume(1, true);
    assert CutShort(c.log);
    sane := c.DoWrite(WriteMsg(1, [3], false), 1, false);
  }
}
