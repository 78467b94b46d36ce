/**
  The timeout queue of the TCP/IP thread: a list of relative times, each counted from
  the entry before it, that stands for a schedule of absolute deadlines.
 */
module Timers {

  const U32: nat := 0x1_0000_0000
  const SYS_ARCH_TIMEOUT: nat := 0xffff_ffff

  datatype Timeo = Timeo(time: nat, h: int, arg: int)

  /** A timer of the abstract schedule, with its absolute deadline. */
  datatype Timer = Timer(due: int, h: int, arg: int)

  /** The schedule a relative list spells when the clock shows `now`. */
  ghost function Deadlines(list: seq<Timeo>, now: int): seq<Timer>
    decreases |list|
  {
    if list == [] then []
    else
      var due := now + list[0].time;
      [Timer(due, list[0].h, list[0].arg)] + Deadlines(list[1..], due)
  }

  ghost function Total(list: seq<Timeo>): nat
    decreases |list|
  {
    if list == [] then 0 else list[0].time + Total(list[1..])
  }

  // The schedule's own operations.

  /** Add a timer behind every timer that is due no later. */
  ghost function Insert(ts: seq<Timer>, t: Timer): seq<Timer>
    decreases |ts|
  {
    if ts == [] || ts[0].due > t.due then [t] + ts else [ts[0]] + Insert(ts[1..], t)
  }

  /** Remove the first timer with this handler and argument. */
  ghost function Cancel(ts: seq<Timer>, h: int, arg: int): seq<Timer>
    decreases |ts|
  {
    if ts == [] then []
    else if ts[0].h == h && ts[0].arg == arg then ts[1..]
    else [ts[0]] + Cancel(ts[1..], h, arg)
  }

  /** The timer that goes, if there is one. */
  ghost function Match(ts: seq<Timer>, h: int, arg: int): seq<Timer>
    decreases |ts|
  {
    if ts == [] then []
    else if ts[0].h == h && ts[0].arg == arg then [ts[0]]
    else Match(ts[1..], h, arg)
  }

  ghost predicate Sorted(ts: seq<Timer>) {
    forall i, j :: 0 <= i < j < |ts| ==> ts[i].due <= ts[j].due
  }

  /** Insertion keeps every other timer and its deadline, in first-come order among equals. */
  lemma {:induction false} InsertPlaces(ts: seq<Timer>, t: Timer) returns (k: nat)
    requires Sorted(ts)
    ensures k <= |ts| && Insert(ts, t) == ts[..k] + [t] + ts[k..]
    ensures forall j :: 0 <= j < k ==> ts[j].due <= t.due
    ensures forall j :: k <= j < |ts| ==> t.due < ts[j].due
    decreases |ts|
  {
    if ts == [] || ts[0].due > t.due {
      k := 0;
    } else {
      var rest := ts[1..];
      var k' := InsertPlaces(rest, t);
      k := k' + 1;
      assert ts[..k] == [ts[0]] + rest[..k'] && ts[k..] == rest[k'..];
      forall j | 0 <= j < |ts| ensures if j < k then ts[j].due <= t.due else t.due < ts[j].due {
        assert j > 0 ==> ts[j] == rest[j - 1];
      }
    }
  }

  lemma InsertSorted(ts: seq<Timer>, t: Timer)
    requires Sorted(ts)
    ensures Sorted(Insert(ts, t))
  {
    var k := InsertPlaces(ts, t);
  }

  ghost function Dropped(ts: seq<Timer>, k: nat): seq<Timer> {
    if k < |ts| then ts[..k] + ts[k + 1..] else ts
  }

  lemma DroppedLater(ts: seq<Timer>, k: nat)
    requires ts != []
    ensures [ts[0]] + Dropped(ts[1..], k) == Dropped(ts, k + 1)
  {
    if k + 1 < |ts| {
      var rest := ts[1..];
      assert ts[..k + 1] == [ts[0]] + rest[..k] && ts[k + 2..] == rest[k + 1..];
    } else {
      assert ts == [ts[0]] + ts[1..];
    }
  }

  /** Cancelling removes one matching timer, the earliest, or nothing when there is none. */
  lemma {:induction false} CancelRemovesOne(ts: seq<Timer>, h: int, arg: int) returns (k: nat)
    ensures k <= |ts| && (forall j :: 0 <= j < k ==> ts[j].h != h || ts[j].arg != arg)
    ensures k < |ts| ==> ts[k].h == h && ts[k].arg == arg
    ensures Cancel(ts, h, arg) == Dropped(ts, k)
    decreases |ts|
  {
    if ts == [] || (ts[0].h == h && ts[0].arg == arg) {
      k := 0;
    } else {
      var rest := ts[1..];
      var k' := CancelRemovesOne(rest, h, arg);
      k := k' + 1;
      DroppedLater(ts, k');
      forall j | 0 <= j < k ensures ts[j].h != h || ts[j].arg != arg {
        assert j > 0 ==> ts[j] == rest[j - 1];
      }
      assert k < |ts| ==> ts[k] == rest[k'];
    }
  }

  // The same operations on the relative list.

  /** Subtract `ms` from the first entry, if there is one. */
  ghost function Sooner(list: seq<Timeo>, ms: nat): seq<Timeo>
    requires list != [] ==> ms <= list[0].time
  {
    if list == [] then [] else list[0 := list[0].(time := list[0].time - ms)]
  }

  ghost function Later(list: seq<Timeo>, ms: nat): seq<Timeo> {
    if list == [] then [] else list[0 := list[0].(time := list[0].time + ms)]
  }

  ghost function Inserted(list: seq<Timeo>, t: Timeo): seq<Timeo>
    decreases |list|
  {
    if list == [] || list[0].time > t.time then [t] + Sooner(list, t.time)
    else [list[0]] + Inserted(list[1..], t.(time := t.time - list[0].time))
  }

  ghost function Cancelled(list: seq<Timeo>, h: int, arg: int): seq<Timeo>
    decreases |list|
  {
    if list == [] then []
    else if list[0].h == h && list[0].arg == arg then Later(list[1..], list[0].time)
    else [list[0]] + Cancelled(list[1..], h, arg)
  }

  lemma DeadlinesCons(t: Timeo, rest: seq<Timeo>, now: int)
    ensures Deadlines([t] + rest, now) == [Timer(now + t.time, t.h, t.arg)] + Deadlines(rest, now + t.time)
    ensures Total([t] + rest) == t.time + Total(rest)
  {
    assert ([t] + rest)[1..] == rest;
  }

  lemma DeadlinesLater(list: seq<Timeo>, ms: nat, now: int)
    ensures Deadlines(Later(list, ms), now) == Deadlines(list, now + ms)
    ensures Total(Later(list, ms)) == Total(list) + (if list == [] then 0 else ms)
  {
    if list != [] {
      DeadlinesCons(list[0].(time := list[0].time + ms), list[1..], now);
      assert Later(list, ms) == [list[0].(time := list[0].time + ms)] + list[1..];
    }
  }

  lemma DeadlinesSooner(list: seq<Timeo>, ms: nat, now: int)
    requires list != [] ==> ms <= list[0].time
    ensures Deadlines(Sooner(list, ms), now + ms) == Deadlines(list, now)
    ensures Total(Sooner(list, ms)) == Total(list) - (if list == [] then 0 else ms)
  {
    if list != [] {
      assert Sooner(list, ms)[1..] == list[1..];
    }
  }

  /** Inserting relative times inserts the absolute deadline, and stays within 32 bits. */
  lemma {:induction false} InsertedRefines(list: seq<Timeo>, t: Timeo, now: int)
    ensures Deadlines(Inserted(list, t), now) == Insert(Deadlines(list, now), Timer(now + t.time, t.h, t.arg))
    ensures Total(Inserted(list, t)) == if t.time > Total(list) then t.time else Total(list)
    decreases |list|
  {
    if list == [] || list[0].time > t.time {
      DeadlinesCons(t, Sooner(list, t.time), now);
      DeadlinesSooner(list, t.time, now);
    } else {
      var t' := t.(time := t.time - list[0].time);
      InsertedRefines(list[1..], t', now + list[0].time);
      DeadlinesCons(list[0], Inserted(list[1..], t'), now);
      assert Deadlines(list, now)[1..] == Deadlines(list[1..], now + list[0].time);
    }
  }

  /** Where a relative time puts the new deadline among the old ones. */
  lemma InsertedPlaces(list: seq<Timeo>, t: Timeo, now: int) returns (k: nat)
    ensures var before, timer := Deadlines(list, now), Timer(now + t.time, t.h, t.arg);
            && k <= |before| && Deadlines(Inserted(list, t), now) == before[..k] + [timer] + before[k..]
            && (forall j :: 0 <= j < k ==> before[j].due <= timer.due)
            && (forall j :: k <= j < |before| ==> timer.due < before[j].due)
  {
    InsertedRefines(list, t, now);
    DeadlinesSorted(list, now);
    k := InsertPlaces(Deadlines(list, now), Timer(now + t.time, t.h, t.arg));
  }

  lemma {:induction false} CancelledRefines(list: seq<Timeo>, h: int, arg: int, now: int)
    ensures Deadlines(Cancelled(list, h, arg), now) == Cancel(Deadlines(list, now), h, arg)
    ensures Total(Cancelled(list, h, arg)) <= Total(list)
    decreases |list|
  {
    if list != [] {
      if list[0].h == h && list[0].arg == arg {
        DeadlinesLater(list[1..], list[0].time, now);
      } else {
        CancelledRefines(list[1..], h, arg, now + list[0].time);
        DeadlinesCons(list[0], Cancelled(list[1..], h, arg), now);
        assert Deadlines(list, now)[1..] == Deadlines(list[1..], now + list[0].time);
      }
    }
  }

  lemma {:induction false} DeadlinesSorted(list: seq<Timeo>, now: int)
    ensures Sorted(Deadlines(list, now))
    ensures forall i :: 0 <= i < |Deadlines(list, now)| ==> now <= Deadlines(list, now)[i].due
    decreases |list|
  {
    if list != [] {
      DeadlinesSorted(list[1..], now + list[0].time);
    }
  }

  lemma {:induction false} TimeBound(list: seq<Timeo>, i: nat)
    requires i < |list|
    ensures list[i].time + (if i + 1 < |list| then list[i + 1].time else 0) <= Total(list)
    decreases |list|
  {
    if i > 0 {
      TimeBound(list[1..], i - 1);
    } else if |list| > 1 {
      assert Total(list[1..]) >= list[1..][0].time;
    }
  }

  lemma MoveOver(list: seq<Timeo>, i: nat, rest: seq<Timeo>)
    requires i < |list|
    ensures list[..i] + ([list[i]] + rest) == list[..i + 1] + rest
  {
  }

  lemma InsertedUnfold(list: seq<Timeo>, i: nat, t: Timeo)
    requires i < |list| && list[i].time <= t.time
    ensures Inserted(list[i..], t) == [list[i]] + Inserted(list[i + 1..], t.(time := t.time - list[i].time))
  {
    var l := list[i..];
    assert l[0] == list[i] && l[1..] == list[i + 1..];
  }

  /** Passing over an entry. */
  lemma InsertedStep(list: seq<Timeo>, i: nat, all: seq<Timeo>, t: Timeo)
    requires i < |list| && list[i].time <= t.time && all == list[..i] + Inserted(list[i..], t)
    ensures all == list[..i + 1] + Inserted(list[i + 1..], t.(time := t.time - list[i].time))
  {
    InsertedUnfold(list, i, t);
    MoveOver(list, i, Inserted(list[i + 1..], t.(time := t.time - list[i].time)));
  }

  /** The insertion of sys_timeout: walk the list, consuming the relative times passed over. */
  method InsertTimeo(list: seq<Timeo>, t: Timeo) returns (r: seq<Timeo>)
    ensures r == Inserted(list, t)
  {
    if list == [] {
      return [t];
    }
    if list[0].time > t.time {
      return [t] + list[0 := list[0].(time := list[0].time - t.time)];
    }
    var timeout := t;
    var i := 0;
    assert list[..0] == [] && list[0..] == list;
    while true
      invariant i < |list| && list[i].time <= timeout.time
      invariant Inserted(list, t) == list[..i] + Inserted(list[i..], timeout)
      decreases |list| - i
    {
      InsertedStep(list, i, Inserted(list, t), timeout);
      timeout := timeout.(time := timeout.time - list[i].time);
      if i + 1 == |list| || list[i + 1].time > timeout.time {
        r := PutBefore(list[i + 1..], timeout);
        return list[..i + 1] + r;
      }
      i := i + 1;
    }
  }

  /** Link a timeout in before `rest`. */
  method PutBefore(rest: seq<Timeo>, t: Timeo) returns (r: seq<Timeo>)
    requires rest == [] || rest[0].time > t.time
    ensures r == Inserted(rest, t)
  {
    if rest == [] {
      return [t];
    }
    r := [t] + rest[0 := rest[0].(time := rest[0].time - t.time)];
  }

  lemma CancelledUnfold(list: seq<Timeo>, i: nat, h: int, arg: int)
    requires i < |list| && !(list[i].h == h && list[i].arg == arg)
    ensures Cancelled(list[i..], h, arg) == [list[i]] + Cancelled(list[i + 1..], h, arg)
    ensures list[..i + 1] == list[..i] + [list[i]]
  {
    assert list[i..][1..] == list[i + 1..];
  }

  /** The removal of sys_untimeout; the sum stored back never exceeds the list's total. */
  method RemoveTimeo(list: seq<Timeo>, h: int, arg: int) returns (r: seq<Timeo>)
    requires Total(list) < U32
    ensures r == Cancelled(list, h, arg)
  {
    for i := 0 to |list|
      invariant Cancelled(list, h, arg) == list[..i] + Cancelled(list[i..], h, arg)
    {
      if list[i].h == h && list[i].arg == arg {
        var rest := list[i + 1..];
        if rest != [] {
          TimeBound(list, i);
          assert rest[0].time + list[i].time < U32;
          rest := rest[0 := rest[0].(time := rest[0].time + list[i].time)];
        }
        assert list[i..][1..] == list[i + 1..];
        return list[..i] + rest;
      }
      CancelledUnfold(list, i, h, arg);
    }
    assert list[..|list|] + Cancelled(list[|list|..], h, arg) == list;
    r := list;
  }

  // The fetch loop, first on the schedule of absolute deadlines.

  datatype Action = Arm(ms: nat, h: int, arg: int) | Disarm(h: int, arg: int)

  /** One turn of the fetch loop: what the mailbox reports (a wait, or the timeout value)
      and what the handler does if a timer fires in that turn. */
  datatype Turn = Turn(reported: nat, actions: seq<Action>)

  datatype Firing = Firing(timer: Timer, at: int)

  /** A wait handed to the mailbox, 0 meaning forever, and the timers then pending. */
  datatype Ask = Ask(ms: int, pending: nat)

  /** A request for a timeout: when it was made, for how long, and the handler. */
  datatype Arming = Arming(at: int, ms: nat, h: int, arg: int)

  /** When the handlers asked for are to be called. */
  ghost function Promised(armed: seq<Arming>): seq<Timer> {
    seq(|armed|, i requires 0 <= i < |armed| => Timer(armed[i].at + armed[i].ms, armed[i].h, armed[i].arg))
  }

  /** The schedule, the counted clock, and what has happened so far. */
  datatype Sched = Sched(timers: seq<Timer>, now: int, fired: seq<Firing>, armed: seq<Arming>,
                         cancelled: seq<Timer>, asks: seq<Ask>)

  ghost function Did(s: Sched, a: Action): Sched {
    match a
    case Arm(ms, h, arg) =>
      var t := Timer(s.now + ms, h, arg);
      s.(timers := Insert(s.timers, t), armed := s.armed + [Arming(s.now, ms, h, arg)])
    case Disarm(h, arg) =>
      s.(timers := Cancel(s.timers, h, arg), cancelled := s.cancelled + Match(s.timers, h, arg))
  }

  ghost function DidAll(s: Sched, actions: seq<Action>): Sched
    decreases |actions|
  {
    if actions == [] then s else DidAll(Did(s, actions[0]), actions[1..])
  }

  ghost function Delay(ts: seq<Timer>, d: nat): seq<Timer> {
    seq(|ts|, i requires 0 <= i < |ts| => ts[i].(due := ts[i].due + d))
  }

  /** The wait the head of the schedule calls for. */
  ghost function Wanted(s: Sched): int {
    if s.timers == [] then 0 else s.timers[0].due - s.now
  }

  ghost predicate Fires(s: Sched, turn: Turn) {
    s.timers != [] && (Wanted(s) <= 0 || turn.reported == SYS_ARCH_TIMEOUT)
  }

  ghost function Asked(s: Sched): Sched {
    if s.timers != [] && Wanted(s) <= 0 then s
    else s.(asks := s.asks + [Ask(Wanted(s), |s.timers|)])
  }

  /** The wait is over, if there was one: the head fires at that moment and its handler acts. */
  ghost function Expired(s: Sched): Sched
    requires s.timers != []
  {
    var now := if Wanted(s) > 0 then s.now + Wanted(s) else s.now;
    Asked(s).(timers := s.timers[1..], now := now, fired := s.fired + [Firing(s.timers[0], now)])
  }

  ghost function Fired(s: Sched, turn: Turn): Sched
    requires s.timers != []
  {
    if s.timers[0].h != 0 then DidAll(Expired(s), turn.actions) else Expired(s)
  }

  /** A message came after the reported wait; an overlong report pushes every deadline back. */
  ghost function Waited(s: Sched, turn: Turn): Sched {
    var late := if s.timers != [] && turn.reported > Wanted(s) then turn.reported - Wanted(s) else 0;
    Asked(s).(timers := Delay(s.timers, late), now := s.now + turn.reported)
  }

  /** The whole loop: turns are taken until a message comes or the script ends. */
  ghost function Fetched(s: Sched, script: seq<Turn>): Sched
    decreases |script|
  {
    if script == [] then s
    else if Fires(s, script[0]) then Fetched(Fired(s, script[0]), script[1..])
    else Waited(s, script[0])
  }

  /** No report along the run exceeds the wait that was asked for. */
  ghost predicate Punctual(s: Sched, script: seq<Turn>)
    decreases |script|
  {
    script == [] ||
    if Fires(s, script[0]) then Punctual(Fired(s, script[0]), script[1..])
    else s.timers == [] || script[0].reported <= Wanted(s)
  }

  lemma DelayNone(ts: seq<Timer>)
    ensures Delay(ts, 0) == ts
  {
  }

  /** No deadline is past; timers are known when armed; firings and waits so far were in order. */
  ghost predicate InOrder(s: Sched, initial: seq<Timer>) {
    && Sorted(s.timers) && (forall t :: t in s.timers ==> s.now <= t.due)
    && (forall t :: t in s.timers ==> t in initial || t in Promised(s.armed))
    && (forall f :: f in s.fired ==> f.at == f.timer.due && (f.timer in initial || f.timer in Promised(s.armed)))
    && (forall a :: a in s.asks && a.ms == 0 ==> a.pending == 0)
  }

  lemma InsertMembers(ts: seq<Timer>, t: Timer)
    requires Sorted(ts)
    ensures Sorted(Insert(ts, t)) && forall u :: u in Insert(ts, t) ==> u == t || u in ts
  {
    InsertSorted(ts, t);
    var k := InsertPlaces(ts, t);
  }

  lemma CancelMembers(ts: seq<Timer>, h: int, arg: int)
    requires Sorted(ts)
    ensures Sorted(Cancel(ts, h, arg)) && forall u :: u in Cancel(ts, h, arg) ==> u in ts
  {
    var k := CancelRemovesOne(ts, h, arg);
  }

  lemma PromisedMore(armed: seq<Arming>, a: Arming)
    ensures Promised(armed + [a]) == Promised(armed) + [Timer(a.at + a.ms, a.h, a.arg)]
  {
  }

  lemma DidInOrder(s: Sched, a: Action, initial: seq<Timer>)
    requires InOrder(s, initial)
    ensures InOrder(Did(s, a), initial)
  {
    match a
    case Arm(ms, h, arg) =>
      InsertMembers(s.timers, Timer(s.now + ms, h, arg));
      PromisedMore(s.armed, Arming(s.now, ms, h, arg));
    case Disarm(h, arg) => CancelMembers(s.timers, h, arg);
  }

  lemma {:induction false} DidAllInOrder(s: Sched, actions: seq<Action>, initial: seq<Timer>)
    requires InOrder(s, initial)
    ensures InOrder(DidAll(s, actions), initial)
    decreases |actions|
  {
    if actions != [] {
      DidInOrder(s, actions[0], initial);
      DidAllInOrder(Did(s, actions[0]), actions[1..], initial);
    }
  }

  lemma FiredInOrder(s: Sched, turn: Turn, initial: seq<Timer>)
    requires InOrder(s, initial) && s.timers != []
    ensures InOrder(Fired(s, turn), initial)
  {
    assert s.timers[0] in s.timers;
    assert InOrder(Expired(s), initial);
    DidAllInOrder(Expired(s), turn.actions, initial);
  }

  /** If no report is overlong, every timer ever fired has the deadline it was armed with and
      fires exactly then, re-armed timers included, and the endless wait is asked for only
      while nothing is pending. */
  lemma {:induction false} FiresOnTime(s: Sched, script: seq<Turn>, initial: seq<Timer>)
    requires InOrder(s, initial) && Punctual(s, script)
    ensures InOrder(Fetched(s, script), initial)
    decreases |script|
  {
    if script != [] {
      if Fires(s, script[0]) {
        FiredInOrder(s, script[0], initial);
        FiresOnTime(Fired(s, script[0]), script[1..], initial);
      } else {
        DelayNone(s.timers);
      }
    }
  }

  // Every timer asked for is accounted for.

  /** The timers taken off the list. */
  ghost function Taken(fired: seq<Firing>): seq<Timer> {
    seq(|fired|, i requires 0 <= i < |fired| => fired[i].timer)
  }

  /** Every timer asked for is pending, was taken off the list, or was cancelled; each once. */
  ghost predicate Accounted(s: Sched) {
    multiset(Promised(s.armed)) == multiset(s.timers) + multiset(Taken(s.fired)) + multiset(s.cancelled)
  }

  lemma {:induction false} InsertAdds(ts: seq<Timer>, t: Timer)
    ensures multiset(Insert(ts, t)) == multiset(ts) + multiset{t}
    decreases |ts|
  {
    if ts != [] {
      InsertAdds(ts[1..], t);
      assert ts == [ts[0]] + ts[1..];
    }
  }

  lemma {:induction false} CancelTakes(ts: seq<Timer>, h: int, arg: int)
    ensures multiset(ts) == multiset(Cancel(ts, h, arg)) + multiset(Match(ts, h, arg))
    decreases |ts|
  {
    if ts != [] {
      CancelTakes(ts[1..], h, arg);
      assert ts == [ts[0]] + ts[1..];
    }
  }

  lemma ArmAccounted(s: Sched, ms: nat, h: int, arg: int)
    requires Accounted(s)
    ensures Accounted(Did(s, Arm(ms, h, arg)))
  {
    var t := Timer(s.now + ms, h, arg);
    InsertAdds(s.timers, t);
    PromisedMore(s.armed, Arming(s.now, ms, h, arg));
    SnocCounts(Promised(s.armed), t);
  }

  lemma SnocCounts(ts: seq<Timer>, t: Timer)
    ensures multiset(ts + [t]) == multiset(ts) + multiset{t}
  {
  }

  lemma DisarmAccounted(s: Sched, h: int, arg: int)
    requires Accounted(s)
    ensures Accounted(Did(s, Disarm(h, arg)))
  {
    var m := Match(s.timers, h, arg);
    CancelTakes(s.timers, h, arg);
    assert multiset(s.cancelled + m) == multiset(s.cancelled) + multiset(m);
  }

  lemma DidAccounted(s: Sched, a: Action)
    requires Accounted(s)
    ensures Accounted(Did(s, a))
  {
    match a
    case Arm(ms, h, arg) => ArmAccounted(s, ms, h, arg);
    case Disarm(h, arg) => DisarmAccounted(s, h, arg);
  }

  lemma {:induction false} DidAllAccounted(s: Sched, actions: seq<Action>)
    requires Accounted(s)
    ensures Accounted(DidAll(s, actions))
    decreases |actions|
  {
    if actions != [] {
      DidAccounted(s, actions[0]);
      DidAllAccounted(Did(s, actions[0]), actions[1..]);
    }
  }

  lemma ExpiredAccounted(s: Sched)
    requires Accounted(s) && s.timers != []
    ensures Accounted(Expired(s))
  {
    assert s.timers == [s.timers[0]] + s.timers[1..];
    assert Taken(Expired(s).fired) == Taken(s.fired) + [s.timers[0]];
  }

  /** Nothing is fired twice, forgotten, or fired without having been asked for, whatever the
      handlers do, as long as no reported wait is overlong. */
  lemma {:induction false} FetchedAccounted(s: Sched, script: seq<Turn>)
    requires Accounted(s) && Punctual(s, script)
    ensures Accounted(Fetched(s, script))
    decreases |script|
  {
    if script != [] {
      if Fires(s, script[0]) {
        ExpiredAccounted(s);
        DidAllAccounted(Expired(s), script[0].actions);
        FetchedAccounted(Fired(s, script[0]), script[1..]);
      } else {
        DelayNone(s.timers);
      }
    }
  }

  /** Calls into the queue from outside, and fetches. */
  datatype Op = Do(a: Action) | Fetch(script: seq<Turn>)

  ghost function Ran(s: Sched, ops: seq<Op>): Sched
    decreases |ops|
  {
    if ops == [] then s
    else Ran(match ops[0] case Do(a) => Did(s, a) case Fetch(script) => Fetched(s, script), ops[1..])
  }

  ghost predicate AllPunctual(s: Sched, ops: seq<Op>)
    decreases |ops|
  {
    ops == [] ||
    match ops[0]
    case Do(a) => AllPunctual(Did(s, a), ops[1..])
    case Fetch(script) => Punctual(s, script) && AllPunctual(Fetched(s, script), ops[1..])
  }

  lemma {:induction false} RanKeeps(s: Sched, ops: seq<Op>)
    requires InOrder(s, []) && Accounted(s) && AllPunctual(s, ops)
    ensures InOrder(Ran(s, ops), []) && Accounted(Ran(s, ops))
    decreases |ops|
  {
    if ops != [] {
      match ops[0]
      case Do(a) =>
        DidInOrder(s, a, []);
        DidAccounted(s, a);
        RanKeeps(Did(s, a), ops[1..]);
      case Fetch(script) =>
        FiresOnTime(s, script, []);
        FetchedAccounted(s, script);
        RanKeeps(Fetched(s, script), ops[1..]);
    }
  }

  const NoTimers: Sched := Sched([], 0, [], [], [], [])

  /** Over every run of requests, cancellations and fetches with no overlong report: every timer
      taken off the list was asked for, and its handler is called exactly the delay asked for
      after the request; and every timer asked for is called, cancelled or still pending. */
  lemma CalledOnDelay(ops: seq<Op>, i: nat) returns (j: nat)
    requires AllPunctual(NoTimers, ops) && i < |Ran(NoTimers, ops).fired|
    ensures var r := Ran(NoTimers, ops);
            && Accounted(r) && j < |r.armed|
            && r.fired[i].timer.h == r.armed[j].h && r.fired[i].timer.arg == r.armed[j].arg
            && r.fired[i].at == r.armed[j].at + r.armed[j].ms
  {
    assert multiset(Promised([])) == multiset{};
    RanKeeps(NoTimers, ops);
    var r := Ran(NoTimers, ops);
    assert r.fired[i] in r.fired;
    j :| 0 <= j < |r.armed| && Promised(r.armed)[j] == r.fired[i].timer;
  }

  // The queue as the code keeps it.

  ghost predicate InRange(actions: seq<Action>) {
    forall i :: 0 <= i < |actions| && actions[i].Arm? ==> actions[i].ms < U32
  }

  /** A handler called, and when. */
  datatype Call = Call(h: int, arg: int, at: int)

  ghost function Calls(fired: seq<Firing>): seq<Call> {
    seq(|fired|, i requires 0 <= i < |fired| => Call(fired[i].timer.h, fired[i].timer.arg, fired[i].at))
  }

  class Queue {
    var list: seq<Timeo>
    var clock: int         // the time counted by waits
    var asks: seq<Ask>     // the waits handed to the mailbox
    var arms: seq<Arming>  // the timeouts asked for
    var calls: seq<Call>   // the timers taken off the list
    ghost var s: Sched

    /** The relative list spells the schedule at the counted clock, and the records agree; timers
        fired at their deadlines, and the endless wait was asked for only while nothing was
        pending. */
    ghost predicate Valid()
      reads this
    {
      && s.timers == Deadlines(list, clock) && Total(list) < U32
      && s.now == clock && asks == s.asks && arms == s.armed && calls == Calls(s.fired)
      && (forall f :: f in s.fired ==> f.at == f.timer.due)
      && (forall a :: a in asks && a.ms == 0 ==> a.pending == 0)
    }

    constructor ()
      ensures Valid() && s == NoTimers && list == [] && clock == 0
    {
      list, clock, asks, arms, calls := [], 0, [], [], [];
      s := NoTimers;
    }

    /** sys_timeout, when the timeout pool has an element left: the new deadline comes `ms` after
        now, behind all that are due no later, and no other deadline changes. */
    method Timeout(ms: nat, h: int, arg: int) returns (ghost k: nat)
      requires Valid() && ms < U32
      modifies this`list, this`arms, this`s
      ensures Valid() && s == Did(old(s), Arm(ms, h, arg)) && arms == old(arms) + [Arming(clock, ms, h, arg)]
      ensures var before, t := Deadlines(old(list), clock), Timer(clock + ms, h, arg);
              && k <= |before| && Deadlines(list, clock) == before[..k] + [t] + before[k..]
              && (forall j :: 0 <= j < k ==> before[j].due <= clock + ms)
              && (forall j :: k <= j < |before| ==> clock + ms < before[j].due)
    {
      InsertedRefines(list, Timeo(ms, h, arg), clock);
      k := InsertedPlaces(list, Timeo(ms, h, arg), clock);
      list := InsertTimeo(list, Timeo(ms, h, arg));
      arms := arms + [Arming(clock, ms, h, arg)];
      s := Did(s, Arm(ms, h, arg));
    }

    /** sys_untimeout: the first timer with this handler and argument goes, if there is one, and no
        other deadline changes. */
    method Untimeout(h: int, arg: int) returns (ghost k: nat)
      requires Valid()
      modifies this`list, this`s
      ensures Valid() && s == Did(old(s), Disarm(h, arg))
      ensures var before := Deadlines(old(list), clock);
              && k <= |before|
              && (forall j :: 0 <= j < k ==> before[j].h != h || before[j].arg != arg)
              && (k < |before| ==> before[k].h == h && before[k].arg == arg)
              && Deadlines(list, clock) == if k < |before| then before[..k] + before[k + 1..] else before
    {
      CancelledRefines(list, h, arg, s.now);
      k := CancelRemovesOne(s.timers, h, arg);
      list := RemoveTimeo(list, h, arg);
      s := Did(s, Disarm(h, arg));
    }

    /** A handler's calls back into the queue. */
    method Handle(actions: seq<Action>)
      requires Valid() && InRange(actions)
      modifies this`list, this`arms, this`s
      ensures Valid() && s == DidAll(old(s), actions)
    {
      for i := 0 to |actions|
        invariant Valid() && DidAll(old(s), actions) == DidAll(s, actions[i..])
      {
        assert actions[i..][1..] == actions[i + 1..];
        match actions[i]
        case Arm(ms, h, arg) => var _ := Timeout(ms, h, arg);
        case Disarm(h, arg) => var _ := Untimeout(h, arg);
      }
    }

    /** Hand a wait to the mailbox. */
    method Fetch(ms: nat)
      requires Valid() && ms == if list == [] then 0 else list[0].time
      requires list != [] ==> ms > 0
      modifies this`asks, this`s
      ensures Valid() && asks == old(asks) + [Ask(ms, |list|)]
      ensures s == old(s).(asks := asks) && s == Asked(old(s))
    {
      DeadlinesLength(list, clock);
      asks := asks + [Ask(ms, |list|)];
      s := Asked(s);
    }

    /** `waited` milliseconds have passed, as long as the head of the list had to wait: take
        it off, and it is due now. */
    method Expire(waited: nat)
      requires Valid() && list != [] && waited == list[0].time
      modifies this`list, this`clock, this`calls, this`s
      ensures Valid() && clock == old(clock) + waited && list == old(list)[1..]
      ensures calls == old(calls) + [Call(old(list)[0].h, old(list)[0].arg, clock)]
      ensures s == old(s).(timers := old(s).timers[1..], now := clock,
                           fired := old(s).fired + [Firing(old(s).timers[0], clock)])
    {
      var timeout := list[0];
      clock := clock + waited;
      list := list[1..];
      calls := calls + [Call(timeout.h, timeout.arg, clock)];
      s := s.(timers := s.timers[1..], now := clock, fired := s.fired + [Firing(s.timers[0], clock)]);
    }

    /** A message came after `needed` milliseconds: charge them to the head of the list.  The
        deadlines stay if and only if that is no longer than the head had to wait. */
    method Elapse(needed: nat)
      requires Valid() && list != []
      modifies this`list, this`clock, this`s
      ensures Valid() && clock == old(clock) + needed
      ensures s == old(s).(timers := s.timers, now := clock)
      ensures s.timers == Delay(old(s).timers, if needed > old(list[0].time) then needed - old(list[0].time) else 0)
      ensures Deadlines(list, clock) == Deadlines(old(list), old(clock)) <==> needed <= old(list[0].time)
    {
      ghost var before := list;
      var rest := list[0].time - needed;
      list := list[0 := list[0].(time := if rest > 0 then rest else 0)];
      if rest >= 0 {
        DeadlinesSooner(before, needed, clock);
        DelayNone(s.timers);
      } else {
        DeadlinesSooner(before, before[0].time, clock);
        DeadlinesShift(list, clock + before[0].time, needed - before[0].time);
        assert Deadlines(list, clock + needed)[0].due != Deadlines(before, clock)[0].due;
      }
      clock := clock + needed;
      s := s.(timers := Deadlines(list, clock), now := clock);
    }

    /** sys_timeouts_mbox_fetch. */
    method MboxFetch(script: seq<Turn>)
      requires Valid()
      requires forall i :: 0 <= i < |script| ==> InRange(script[i].actions)
      modifies this
      ensures Valid() && s == Fetched(old(s), script)
    {
      var k := 0;
      var done := false;
      while k < |script| && !done
        invariant k <= |script| && Valid()
        invariant if done then s == Fetched(old(s), script) else Fetched(old(s), script) == Fetched(s, script[k..])
      {
        assert script[k..][1..] == script[k + 1..];
        done := FetchOnce(script[k]);
        k := k + 1;
      }
    }

    /** One turn of that loop; `done` when a message has come. */
    method FetchOnce(turn: Turn) returns (done: bool)
      requires Valid() && InRange(turn.actions)
      modifies this
      ensures Valid() && done == !Fires(old(s), turn)
      ensures s == if done then Waited(old(s), turn) else Fired(old(s), turn)
      // The wait handed to the mailbox: the head's time, 0 if nothing is pending, none if it is due.
      ensures asks == if old(list) == [] then old(asks) + [Ask(0, 0)]
                      else if old(list)[0].time == 0 then old(asks)
                      else old(asks) + [Ask(old(list)[0].time, |old(list)|)]
      // The head fires when the mailbox times out, or at once when it is due.
      ensures done <==> old(list) == [] || (old(list)[0].time > 0 && turn.reported != SYS_ARCH_TIMEOUT)
      ensures clock == old(clock) + if done then turn.reported else old(list)[0].time
      ensures calls == if done then old(calls) else old(calls) + [Call(old(list)[0].h, old(list)[0].arg, clock)]
    {
      done := true;
      if list == [] {
        Fetch(0);
        DelayNone(s.timers);
        clock := clock + turn.reported;
        s := s.(now := clock);
        return;
      }
      var needed := SYS_ARCH_TIMEOUT;
      if list[0].time > 0 {
        Fetch(list[0].time);
        needed := turn.reported;
      }
      if needed == SYS_ARCH_TIMEOUT {
        var timeout := list[0];
        Expire(timeout.time);
        if timeout.h != 0 {
          Handle(turn.actions);
        }
        done := false;
      } else {
        Elapse(needed);
      }
    }
  }

  lemma {:induction false} DeadlinesLength(list: seq<Timeo>, now: int)
    ensures |Deadlines(list, now)| == |list|
    decreases |list|
  {
    if list != [] {
      DeadlinesLength(list[1..], now + list[0].time);
    }
  }

  lemma {:induction false} DeadlinesShift(list: seq<Timeo>, now: int, d: nat)
    ensures Deadlines(list, now + d) == Delay(Deadlines(list, now), d)
    decreases |list|
  {
    if list != [] {
      DeadlinesShift(list[1..], now + list[0].time, d);
    }
  }
}
