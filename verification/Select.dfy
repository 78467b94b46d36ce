/**
  select() and the event callback of the socket layer: threads that put themselves on a
  shared list, register at the sockets they watch, scan them and block; and callbacks that
  record an event and then walk the list, letting others run between any two waiters.
  Every step below is one protected region.
 */
module Select {
  /** The event counters of a socket, how many threads have registered at it, whether data
      has been taken from it, and whether some of that is left over. */
  datatype Sock = Sock(rcv: int, send: bool, err: bool, waiting: int, read: bool, left: bool)

  datatype Sets = Sets(read: set<nat>, write: set<nat>, except: set<nat>)

  datatype Phase = Registering(i: nat) | Scanning(i: nat, found: bool) | Blocked | Unregistering(i: nat)

  /** struct lwip_select_cb and the program point of its thread. */
  datatype Waiter = Waiter(sets: Sets, phase: Phase, signalled: bool, sem: nat)

  /** A callback between two waiters: its socket, the waiter it has just looked at, and the
      value of select_cb_ctr it saw then. */
  datatype Callback = Callback(sock: nat, pos: nat, seen: nat)

  datatype Event = RcvPlus | RcvMinus | SendPlus | SendMinus | Error

  datatype World = World(socks: seq<Sock>, ws: map<nat, Waiter>, list: seq<nat>, ctr: nat, cbs: map<nat, Callback>)

  predicate Wants(sets: Sets, s: nat) {
    s in sets.read || s in sets.write || s in sets.except
  }

  /** The test of the callback: an event a thread waits for. */
  predicate Ready(so: Sock, sets: Sets, s: nat) {
    || (so.rcv > 0 && s in sets.read)
    || (so.send && s in sets.write)
    || (so.err && s in sets.except)
  }

  /** The test of lwip_selscan: leftover data counts as well. */
  predicate ScanReady(so: Sock, sets: Sets, s: nat) {
    Ready(so, sets, s) || (so.left && s in sets.read)
  }

  function Occur(so: Sock, e: Event): Sock {
    match e
    case RcvPlus => so.(rcv := so.rcv + 1)
    case RcvMinus => so.(rcv := so.rcv - 1, read := true)
    case SendPlus => so.(send := true)
    case SendMinus => so.(send := false)
    case Error => so.(err := true)
  }

  // Steps of a selecting thread.

  function Put(v: World, w: nat, phase: Phase): World
    requires w in v.ws
  {
    v.(ws := v.ws[w := v.ws[w].(phase := phase)])
  }

  function Count(v: World, s: nat, k: int): World
    requires s < |v.socks|
  {
    v.(socks := v.socks[s := v.socks[s].(waiting := v.socks[s].waiting + k)])
  }

  /** Go on top of the list. */
  function Enter(v: World, w: nat, sets: Sets): World {
    v.(ws := v.ws[w := Waiter(sets, Registering(0), false, 0)], list := [w] + v.list, ctr := v.ctr + 1)
  }

  /** Take a waiter off the list. */
  function Leave(v: World, w: nat): World {
    v.(ws := v.ws - {w}, list := Without(v.list, w), ctr := v.ctr + 1)
  }

  function Without(list: seq<nat>, w: nat): seq<nat> {
    if list == [] then [] else (if list[0] == w then [] else [list[0]]) + Without(list[1..], w)
  }

  /** The next step of a thread that is not blocked. */
  function Advance(v: World, w: nat): World
    requires w in v.ws
  {
    var wt, n := v.ws[w], |v.socks|;
    match wt.phase
    case Registering(i) =>
      if i >= n then Put(v, w, Scanning(0, false))
      else Count(Put(v, w, Registering(i + 1)), i, if Wants(wt.sets, i) then 1 else 0)
    case Scanning(i, found) =>
      if i >= n then Put(v, w, if found then Unregistering(0) else Blocked)
      else Put(v, w, Scanning(i + 1, found || ScanReady(v.socks[i], wt.sets, i)))
    case Blocked => v
    case Unregistering(i) =>
      if i >= n then Leave(v, w)
      else Count(Put(v, w, Unregistering(i + 1)), i, if Wants(wt.sets, i) then -1 else 0)
  }

  /** The semaphore is taken. */
  function Wake(v: World, w: nat): World
    requires w in v.ws && v.ws[w].sem > 0
  {
    v.(ws := v.ws[w := v.ws[w].(phase := Unregistering(0), sem := v.ws[w].sem - 1)])
  }

  // Steps of a callback.

  function IndexOf(list: seq<nat>, w: nat): (k: nat)
    ensures k <= |list| && (k < |list| ==> list[k] == w) && (k == |list| <==> w !in list)
  {
    if list == [] || list[0] == w then 0 else 1 + IndexOf(list[1..], w)
  }

  /** Look at the waiter at place `k` of the list, if there is one, and signal it once. */
  function Visit(v: World, c: nat, s: nat, k: nat): World
    requires s < |v.socks| && forall w :: w in v.list ==> w in v.ws
  {
    if k >= |v.list| then v.(cbs := v.cbs - {c})
    else
      var w := v.list[k];
      var wt := v.ws[w];
      var signal := !wt.signalled && Ready(v.socks[s], wt.sets, s);
      var wt' := if signal then wt.(signalled := true, sem := wt.sem + 1) else wt;
      v.(ws := v.ws[w := wt'], cbs := v.cbs[c := Callback(s, w, v.ctr)])
  }

  /** A new callback: record the event, and look at the list if a thread has registered. */
  function Fire(v: World, c: nat, s: nat, e: Event): World
    requires s < |v.socks| && forall w :: w in v.list ==> w in v.ws
  {
    var v' := v.(socks := v.socks[s := Occur(v.socks[s], e)]);
    if v.socks[s].waiting == 0 then v' else Visit(v', c, s, 0)
  }

  /** Where a callback goes on: at the start if the list has changed meanwhile. */
  function NextPlace(v: World, cb: Callback): nat {
    if cb.seen != v.ctr then 0 else IndexOf(v.list, cb.pos) + 1
  }

  function Resume(v: World, c: nat): World
    requires c in v.cbs && v.cbs[c].sock < |v.socks| && forall w :: w in v.list ==> w in v.ws
  {
    Visit(v, c, v.cbs[c].sock, NextPlace(v, v.cbs[c]))
  }

  // The invariant.

  ghost predicate Distinct(list: seq<nat>) {
    forall i, j :: 0 <= i < j < |list| ==> list[i] != list[j]
  }

  predicate Registered(wt: Waiter, s: nat) {
    Wants(wt.sets, s) &&
    match wt.phase
    case Registering(i) => s < i
    case Unregistering(i) => i <= s
    case _ => true
  }

  ghost function Regs(ws: map<nat, Waiter>, s: nat): set<nat> {
    set w | w in ws && Registered(ws[w], s)
  }

  /** The thread has scanned socket `s`, or is blocked, having found nothing. */
  predicate Due(wt: Waiter, s: nat) {
    match wt.phase
    case Scanning(i, found) => s < i && !found
    case Blocked => true
    case _ => false
  }

  /** The callback has not yet looked at `w` since it last started over. */
  predicate Covers(list: seq<nat>, ctr: nat, cb: Callback, s: nat, w: nat) {
    cb.sock == s && (cb.seen != ctr || IndexOf(list, cb.pos) < IndexOf(list, w))
  }

  ghost predicate Covered(list: seq<nat>, ctr: nat, cbs: map<nat, Callback>, s: nat, w: nat) {
    exists c :: c in cbs && Covers(list, ctr, cbs[c], s, w)
  }

  /** The thread would block, or is blocked, although socket `s` is ready, and has not been signalled. */
  predicate AtRisk(so: Sock, wt: Waiter, s: nat) {
    Due(wt, s) && Ready(so, wt.sets, s) && !wt.signalled
  }

  ghost predicate NotLost(v: World, w: nat, s: nat)
    requires w in v.ws && s < |v.socks|
  {
    AtRisk(v.socks[s], v.ws[w], s) ==> Covered(v.list, v.ctr, v.cbs, s, w)
  }

  /** The semaphore counts one signal, until it is taken. */
  predicate SemOk(wt: Waiter) {
    if wt.phase.Unregistering? then wt.sem <= 1 && (wt.sem == 1 ==> wt.signalled)
    else wt.sem == if wt.signalled then 1 else 0
  }

  /** A callback that will not start over stands on a waiter that is on the list. */
  predicate CallbackOk(list: seq<nat>, ctr: nat, n: nat, cb: Callback) {
    cb.sock < n && cb.seen <= ctr && (cb.seen == ctr ==> cb.pos in list)
  }

  ghost predicate ListOk(v: World) {
    Distinct(v.list) && forall w :: w in v.list <==> w in v.ws
  }

  ghost predicate SemsOk(v: World) {
    forall w :: w in v.ws ==> SemOk(v.ws[w])
  }

  ghost predicate CallbacksOk(v: World) {
    forall c :: c in v.cbs ==> CallbackOk(v.list, v.ctr, |v.socks|, v.cbs[c])
  }

  ghost predicate CountOk(v: World, s: nat)
    requires s < |v.socks|
  {
    v.socks[s].waiting == |Regs(v.ws, s)|
  }

  ghost predicate CountsOk(v: World) {
    forall s :: 0 <= s < |v.socks| ==> CountOk(v, s)
  }

  ghost predicate WakeOk(v: World) {
    forall w, s: nat :: w in v.ws && s < |v.socks| ==> NotLost(v, w, s)
  }

  ghost predicate Inv(v: World) {
    ListOk(v) && SemsOk(v) && CallbacksOk(v) && CountsOk(v) && WakeOk(v)
  }

  // Counting.

  lemma RegsUpdate(ws: map<nat, Waiter>, w: nat, wt: Waiter, s: nat)
    ensures |Regs(ws[w := wt], s)| == |Regs(ws - {w}, s)| + if Registered(wt, s) then 1 else 0
  {
    var rest := Regs(ws - {w}, s);
    if Registered(wt, s) {
      assert Regs(ws[w := wt], s) == rest + {w};
    } else {
      assert Regs(ws[w := wt], s) == rest;
    }
  }

  /** What a waiter that changes adds to the count at a socket. */
  lemma RegsChange(ws: map<nat, Waiter>, w: nat, wt: Waiter, s: nat)
    requires w in ws
    ensures |Regs(ws[w := wt], s)| == |Regs(ws, s)| + (if Registered(wt, s) then 1 else 0)
                                      - (if Registered(ws[w], s) then 1 else 0)
  {
    RegsUpdate(ws, w, wt, s);
    RegsUpdate(ws, w, ws[w], s);
    assert ws[w := ws[w]] == ws;
  }

  lemma RegsGone(ws: map<nat, Waiter>, w: nat, s: nat)
    requires w in ws ==> !Registered(ws[w], s)
    ensures Regs(ws - {w}, s) == Regs(ws, s)
  {
  }

  // A thread moves on while the list stays.

  ghost predicate SameEvents(a: seq<Sock>, b: seq<Sock>) {
    |a| == |b| && forall s :: 0 <= s < |a| ==> a[s].(waiting := 0) == b[s].(waiting := 0)
  }

  lemma MovedKeeps(v: World, w: nat, wt: Waiter, socks: seq<Sock>)
    requires Inv(v) && w in v.ws && SameEvents(v.socks, socks)
    requires SemOk(wt)
    requires forall s: nat :: s < |v.socks| && AtRisk(v.socks[s], wt, s) ==> AtRisk(v.socks[s], v.ws[w], s)
    ensures var v' := v.(ws := v.ws[w := wt], socks := socks);
            ListOk(v') && SemsOk(v') && CallbacksOk(v') && WakeOk(v')
  {
    var v' := v.(ws := v.ws[w := wt], socks := socks);
    forall u, s: nat | u in v'.ws && s < |v'.socks| ensures NotLost(v', u, s) {
      assert NotLost(v, u, s);
      assert v.socks[s].(waiting := 0) == socks[s].(waiting := 0);
    }
  }

  /** Registering at, or leaving, socket `i` keeps the counts. */
  lemma CountedKeeps(v: World, w: nat, wt: Waiter, i: nat, k: int)
    requires CountsOk(v) && w in v.ws && i < |v.socks|
    requires k == (if Registered(wt, i) then 1 else 0) - (if Registered(v.ws[w], i) then 1 else 0)
    requires forall s: nat :: s < |v.socks| && s != i ==> Registered(wt, s) == Registered(v.ws[w], s)
    ensures CountsOk(Count(v.(ws := v.ws[w := wt]), i, k))
  {
    var v' := Count(v.(ws := v.ws[w := wt]), i, k);
    forall s | 0 <= s < |v'.socks| ensures CountOk(v', s) {
      assert CountOk(v, s);
      RegsChange(v.ws, w, wt, s);
    }
  }

  lemma UncountedKeeps(v: World, w: nat, wt: Waiter)
    requires CountsOk(v) && w in v.ws
    requires forall s: nat :: s < |v.socks| ==> Registered(wt, s) == Registered(v.ws[w], s)
    ensures CountsOk(v.(ws := v.ws[w := wt]))
  {
    var v' := v.(ws := v.ws[w := wt]);
    forall s | 0 <= s < |v'.socks| ensures CountOk(v', s) {
      assert CountOk(v, s);
      RegsChange(v.ws, w, wt, s);
    }
  }

  lemma StepRisk(v: World, wt: Waiter)
    requires wt.phase.Registering? || wt.phase.Unregistering?
    ensures forall s: nat :: s < |v.socks| ==> !AtRisk(v.socks[s], wt, s)
  {
  }

  lemma RegisterKeeps(v: World, w: nat)
    requires Inv(v) && w in v.ws && v.ws[w].phase.Registering? && v.ws[w].phase.i < |v.socks|
    ensures Inv(Advance(v, w))
  {
    var wt := v.ws[w];
    assert SemOk(wt);
    var i := wt.phase.i;
    var k := if Wants(wt.sets, i) then 1 else 0;
    var wt' := wt.(phase := Registering(i + 1));
    StepRisk(v, wt');
    MovedKeeps(v, w, wt', Count(v, i, k).socks);
    CountedKeeps(v, w, wt', i, k);
    assert Advance(v, w) == v.(ws := v.ws[w := wt'], socks := Count(v, i, k).socks);
  }

  lemma RegisteredKeeps(v: World, w: nat)
    requires Inv(v) && w in v.ws && v.ws[w].phase.Registering? && v.ws[w].phase.i >= |v.socks|
    ensures Inv(Advance(v, w))
  {
    var wt := v.ws[w];
    assert SemOk(wt);
    MovedKeeps(v, w, wt.(phase := Scanning(0, false)), v.socks);
    UncountedKeeps(v, w, wt.(phase := Scanning(0, false)));
  }

  lemma ScanKeeps(v: World, w: nat)
    requires Inv(v) && w in v.ws && v.ws[w].phase.Scanning?
    ensures Inv(Advance(v, w))
  {
    var wt := v.ws[w];
    assert SemOk(wt);
    var i, found := wt.phase.i, wt.phase.found;
    var phase := if i < |v.socks| then Scanning(i + 1, found || ScanReady(v.socks[i], wt.sets, i))
                 else if found then Unregistering(0) else Blocked;
    MovedKeeps(v, w, wt.(phase := phase), v.socks);
    UncountedKeeps(v, w, wt.(phase := phase));
  }

  lemma UnregisterKeeps(v: World, w: nat)
    requires Inv(v) && w in v.ws && v.ws[w].phase.Unregistering? && v.ws[w].phase.i < |v.socks|
    ensures Inv(Advance(v, w))
  {
    var wt := v.ws[w];
    assert SemOk(wt);
    var i := wt.phase.i;
    var k := if Wants(wt.sets, i) then -1 else 0;
    var wt' := wt.(phase := Unregistering(i + 1));
    StepRisk(v, wt');
    MovedKeeps(v, w, wt', Count(v, i, k).socks);
    CountedKeeps(v, w, wt', i, k);
    assert Advance(v, w) == v.(ws := v.ws[w := wt'], socks := Count(v, i, k).socks);
  }

  /** Taking the semaphore, or giving up waiting for it. */
  lemma WokenKeeps(v: World, w: nat, take: nat)
    requires Inv(v) && w in v.ws && v.ws[w].phase == Blocked && take <= v.ws[w].sem
    ensures Inv(v.(ws := v.ws[w := v.ws[w].(phase := Unregistering(0), sem := v.ws[w].sem - take)]))
  {
    var wt := v.ws[w];
    assert SemOk(wt);
    MovedKeeps(v, w, wt.(phase := Unregistering(0), sem := wt.sem - take), v.socks);
    UncountedKeeps(v, w, wt.(phase := Unregistering(0), sem := wt.sem - take));
  }

  /** `n` steps of one thread alone. */
  ghost function Advances(v: World, w: nat, n: nat): (r: World)
    requires w in v.ws && v.ws[w].phase.Scanning? && v.ws[w].phase.i + n <= |v.socks|
    ensures w in r.ws && r.socks == v.socks && r.ws[w].phase.Scanning?
    ensures r.ws[w].phase.i == v.ws[w].phase.i + n && r.ws[w].sets == v.ws[w].sets
    decreases n
  {
    if n == 0 then v else Advances(Advance(v, w), w, n - 1)
  }

  /** The scan of lwip_selscan, undisturbed, finds something exactly when some socket is readable,
      writable or in error as asked for. */
  lemma {:induction false} ScanFinds(v: World, w: nat, n: nat)
    requires w in v.ws && v.ws[w].phase.Scanning? && v.ws[w].phase.i + n <= |v.socks|
    ensures var i, sets := v.ws[w].phase.i, v.ws[w].sets;
            Advances(v, w, n).ws[w].phase.found <==>
              || v.ws[w].phase.found
              || exists s: nat :: i <= s < i + n && Shows(v.socks[s], sets, s)
    decreases n
  {
    if n > 0 {
      ScanFinds(Advance(v, w), w, n - 1);
    }
  }

  /** What makes a socket count for the scan. */
  predicate Shows(so: Sock, sets: Sets, s: nat) {
    || (s in sets.read && (so.left || so.rcv > 0))
    || (s in sets.write && so.send)
    || (s in sets.except && so.err)
  }

  /** A thread that is done scanning blocks exactly if it has found nothing. */
  lemma ScanDecides(v: World, w: nat)
    requires w in v.ws && v.ws[w].phase.Scanning? && v.ws[w].phase.i >= |v.socks|
    ensures Advance(v, w).ws[w].phase == if v.ws[w].phase.found then Unregistering(0) else Blocked
  {
  }

  // The list changes.

  lemma {:induction false} WithoutIs(list: seq<nat>, w: nat)
    requires Distinct(list)
    ensures Distinct(Without(list, w)) && forall u :: u in Without(list, w) <==> u in list && u != w
  {
    if list != [] {
      WithoutIs(list[1..], w);
      assert list == [list[0]] + list[1..];
      assert list[0] !in list[1..];
    }
  }

  /** A change of the list makes every callback start over, so all it has to do is kept. */
  lemma Restarted(list: seq<nat>, ctr: nat, list': seq<nat>, cbs: map<nat, Callback>, n: nat, s: nat, w: nat)
    requires forall c :: c in cbs ==> CallbackOk(list, ctr, n, cbs[c])
    requires Covered(list, ctr, cbs, s, w)
    ensures Covered(list', ctr + 1, cbs, s, w)
  {
    var c :| c in cbs && Covers(list, ctr, cbs[c], s, w);
    assert CallbackOk(list, ctr, n, cbs[c]);
    assert Covers(list', ctr + 1, cbs[c], s, w);
  }

  lemma EnterKeeps(v: World, w: nat, sets: Sets)
    requires Inv(v) && w !in v.ws
    ensures Inv(Enter(v, w, sets))
  {
    var v' := Enter(v, w, sets);
    forall s | 0 <= s < |v'.socks| ensures CountOk(v', s) {
      assert CountOk(v, s);
      RegsUpdate(v.ws, w, v'.ws[w], s);
      assert v.ws - {w} == v.ws;
    }
    forall u, s: nat | u in v'.ws && s < |v'.socks| ensures NotLost(v', u, s) {
      if u != w {
        assert NotLost(v, u, s);
        if Covered(v.list, v.ctr, v.cbs, s, u) {
          Restarted(v.list, v.ctr, v'.list, v.cbs, |v.socks|, s, u);
        }
      }
    }
  }

  lemma LeaveKeeps(v: World, w: nat)
    requires Inv(v) && w in v.ws && v.ws[w].phase.Unregistering? && v.ws[w].phase.i >= |v.socks|
    ensures Inv(Leave(v, w))
  {
    var v' := Leave(v, w);
    WithoutIs(v.list, w);
    forall s | 0 <= s < |v'.socks| ensures CountOk(v', s) {
      assert CountOk(v, s);
      RegsGone(v.ws, w, s);
    }
    forall u, s: nat | u in v'.ws && s < |v'.socks| ensures NotLost(v', u, s) {
      assert NotLost(v, u, s);
      if Covered(v.list, v.ctr, v.cbs, s, u) {
        Restarted(v.list, v.ctr, v'.list, v.cbs, |v.socks|, s, u);
      }
    }
  }

  lemma AdvanceKeeps(v: World, w: nat)
    requires Inv(v) && w in v.ws
    ensures Inv(Advance(v, w))
  {
    match v.ws[w].phase
    case Registering(i) =>
      if i < |v.socks| {
        RegisterKeeps(v, w);
      } else {
        RegisteredKeeps(v, w);
      }
    case Scanning(i, found) => ScanKeeps(v, w);
    case Blocked =>
    case Unregistering(i) =>
      if i < |v.socks| {
        UnregisterKeeps(v, w);
      } else {
        LeaveKeeps(v, w);
      }
  }

  // Callbacks.

  lemma IndexAt(list: seq<nat>, k: nat)
    requires Distinct(list) && k < |list|
    ensures IndexOf(list, list[k]) == k
  {
  }

  /** Who is at risk is covered by a callback other than `c`, or stands at place `k` or later
      and is at risk because of `s`. */
  ghost predicate LeftTo(v: World, c: nat, s: nat, k: nat) {
    forall u, t: nat :: u in v.ws && t < |v.socks| && AtRisk(v.socks[t], v.ws[u], t) ==>
      Covered(v.list, v.ctr, v.cbs - {c}, t, u) || (t == s && IndexOf(v.list, u) >= k)
  }

  lemma CoveredMore(list: seq<nat>, ctr: nat, cbs: map<nat, Callback>, c: nat, cb: Callback, s: nat, w: nat)
    requires Covered(list, ctr, cbs - {c}, s, w)
    ensures Covered(list, ctr, cbs[c := cb], s, w)
  {
    var d :| d in cbs - {c} && Covers(list, ctr, (cbs - {c})[d], s, w);
    assert d in cbs[c := cb] && cbs[c := cb][d] == cbs[d];
  }

  lemma VisitWakes(v: World, c: nat, s: nat, k: nat)
    requires ListOk(v) && s < |v.socks| && LeftTo(v, c, s, k)
    ensures WakeOk(Visit(v, c, s, k))
  {
    var v' := Visit(v, c, s, k);
    forall u, t: nat | u in v'.ws && t < |v'.socks| ensures NotLost(v', u, t) {
      if AtRisk(v'.socks[t], v'.ws[u], t) {
        assert AtRisk(v.socks[t], v.ws[u], t);
        if k < |v.list| {
          IndexAt(v.list, k);
          if Covered(v.list, v.ctr, v.cbs - {c}, t, u) {
            CoveredMore(v.list, v.ctr, v.cbs, c, v'.cbs[c], t, u);
          } else {
            assert u != v.list[k];
            assert Covers(v'.list, v'.ctr, v'.cbs[c], t, u);
          }
        }
      }
    }
  }

  lemma VisitCounts(v: World, c: nat, s: nat, k: nat)
    requires ListOk(v) && CountsOk(v) && s < |v.socks|
    ensures CountsOk(Visit(v, c, s, k))
  {
    var v' := Visit(v, c, s, k);
    if k < |v.list| {
      UncountedKeeps(v, v.list[k], v'.ws[v.list[k]]);
    }
    forall t | 0 <= t < |v'.socks| ensures CountOk(v', t) {
      assert CountOk(v.(ws := v'.ws), t);
    }
  }

  lemma VisitKeeps(v: World, c: nat, s: nat, k: nat)
    requires ListOk(v) && SemsOk(v) && CallbacksOk(v) && CountsOk(v) && s < |v.socks| && LeftTo(v, c, s, k)
    ensures Inv(Visit(v, c, s, k))
  {
    VisitWakes(v, c, s, k);
    VisitCounts(v, c, s, k);
  }

  lemma ResumeKeeps(v: World, c: nat)
    requires Inv(v) && c in v.cbs
    ensures v.cbs[c].sock < |v.socks| && Inv(Resume(v, c))
  {
    var cb := v.cbs[c];
    assert CallbackOk(v.list, v.ctr, |v.socks|, cb);
    var k := NextPlace(v, cb);
    forall u, t: nat | u in v.ws && t < |v.socks| && AtRisk(v.socks[t], v.ws[u], t)
      ensures Covered(v.list, v.ctr, v.cbs - {c}, t, u) || (t == cb.sock && IndexOf(v.list, u) >= k)
    {
      assert NotLost(v, u, t);
      var d :| d in v.cbs && Covers(v.list, v.ctr, v.cbs[d], t, u);
      if d != c {
        assert (v.cbs - {c})[d] == v.cbs[d];
      }
    }
    VisitKeeps(v, c, cb.sock, k);
  }

  lemma FireKeeps(v: World, c: nat, s: nat, e: Event)
    requires Inv(v) && s < |v.socks| && c !in v.cbs
    ensures Inv(Fire(v, c, s, e))
  {
    var v' := v.(socks := v.socks[s := Occur(v.socks[s], e)]);
    forall t | 0 <= t < |v'.socks| ensures CountOk(v', t) {
      assert CountOk(v, t);
    }
    assert v.cbs - {c} == v.cbs;
    forall u, t: nat | u in v'.ws && t < |v'.socks| && AtRisk(v'.socks[t], v'.ws[u], t)
      ensures t == s || Covered(v'.list, v'.ctr, v'.cbs, t, u)
      ensures t == s ==> v'.socks[s].waiting != 0
    {
      assert NotLost(v, u, t);
      if t == s {
        assert u in Regs(v.ws, s);
        assert CountOk(v, s);
      }
    }
    if v.socks[s].waiting != 0 {
      VisitKeeps(v', c, s, 0);
    }
  }

  /** After taking data a read leaves some over, or a later one takes what was left; no event
      is raised. */
  function Leftover(v: World, s: nat, left: bool): World
    requires s < |v.socks|
  {
    v.(socks := v.socks[s := v.socks[s].(left := left)])
  }

  lemma LeftoverKeeps(v: World, s: nat, left: bool)
    requires Inv(v) && s < |v.socks|
    ensures Inv(Leftover(v, s, left))
  {
    var v' := Leftover(v, s, left);
    forall t | 0 <= t < |v'.socks| ensures CountOk(v', t) {
      assert CountOk(v, t);
    }
    forall u, t: nat | u in v'.ws && t < |v'.socks| ensures NotLost(v', u, t) {
      assert NotLost(v, u, t);
    }
  }

  // Runs: any interleaving of any number of threads and callbacks.

  datatype Step =
    | DoEnter(w: nat, sets: Sets)
    | DoAdvance(w: nat)
    | DoWake(w: nat)
    | DoTimeout(w: nat)
    | DoFire(c: nat, s: nat, e: Event)
    | DoResume(c: nat)
    | DoLeftover(s: nat, left: bool)

  /** One step; a step that is not possible changes nothing. */
  ghost function Next(v: World, step: Step): World
    requires Inv(v)
  {
    match step
    case DoEnter(w, sets) => if w in v.ws then v else Enter(v, w, sets)
    case DoAdvance(w) => if w in v.ws then Advance(v, w) else v
    case DoWake(w) => if w in v.ws && v.ws[w].phase == Blocked && v.ws[w].sem > 0 then Wake(v, w) else v
    case DoTimeout(w) => if w in v.ws && v.ws[w].phase == Blocked then Put(v, w, Unregistering(0)) else v
    case DoFire(c, s, e) => if s < |v.socks| && c !in v.cbs then Fire(v, c, s, e) else v
    case DoResume(c) => if c in v.cbs then Resume(v, c) else v
    case DoLeftover(s, left) => if s < |v.socks| && v.socks[s].read then Leftover(v, s, left) else v
  }

  lemma NextKeeps(v: World, step: Step)
    requires Inv(v)
    ensures Inv(Next(v, step))
  {
    match step
    case DoEnter(w, sets) =>
      if w !in v.ws {
        EnterKeeps(v, w, sets);
      }
    case DoAdvance(w) =>
      if w in v.ws {
        AdvanceKeeps(v, w);
      }
    case DoWake(w) =>
      if w in v.ws && v.ws[w].phase == Blocked && v.ws[w].sem > 0 {
        WokenKeeps(v, w, 1);
      }
    case DoTimeout(w) =>
      if w in v.ws && v.ws[w].phase == Blocked {
        WokenKeeps(v, w, 0);
      }
    case DoFire(c, s, e) =>
      if s < |v.socks| && c !in v.cbs {
        FireKeeps(v, c, s, e);
      }
    case DoResume(c) =>
      if c in v.cbs {
        ResumeKeeps(v, c);
      }
    case DoLeftover(s, left) =>
      if s < |v.socks| && v.socks[s].read {
        LeftoverKeeps(v, s, left);
      }
  }

  /** All worlds a run from `v` passes, the last one returned. */
  ghost function Run(v: World, steps: seq<Step>): (r: World)
    requires Inv(v)
    ensures Inv(r)
    decreases |steps|
  {
    if steps == [] then v
    else
      NextKeeps(v, steps[0]);
      Run(Next(v, steps[0]), steps[1..])
  }

  /** Sockets with any events recorded, before any thread selects. */
  ghost predicate Idle(v: World) {
    v.ws == map[] && v.list == [] && v.cbs == map[] && forall s :: 0 <= s < |v.socks| ==> v.socks[s].waiting == 0
  }

  lemma IdleInv(v: World)
    requires Idle(v)
    ensures Inv(v)
  {
    forall s | 0 <= s < |v.socks| ensures CountOk(v, s) {
      assert Regs(v.ws, s) == {};
    }
  }

  /** No lost wake-up: whenever a thread is blocked and something it waits for has happened - data
      to read, room to write, an error - its semaphore has been signalled, or a callback for that
      socket has still to look at it. */
  lemma NoLostWakeup(v0: World, steps: seq<Step>, w: nat, s: nat)
    requires Idle(v0)
    ensures Inv(v0)
    ensures var v := Run(v0, steps);
            w in v.ws && v.ws[w].phase == Blocked && s < |v.socks| ==>
              var so, sets := v.socks[s], v.ws[w].sets;
              (so.rcv > 0 && s in sets.read) || (so.send && s in sets.write) || (so.err && s in sets.except) ==>
                v.ws[w].sem == 1 || Covered(v.list, v.ctr, v.cbs, s, w)
  {
    IdleInv(v0);
    var v := Run(v0, steps);
    if w in v.ws && s < |v.socks| {
      assert NotLost(v, w, s) && SemOk(v.ws[w]);
    }
  }

  /** The scan would find one thing more: data left over, which raises no event.  That is the only
      way in which a thread can sleep although its scan would find something. */
  lemma OnlyLeftovers(v0: World, steps: seq<Step>, w: nat, s: nat)
    requires Idle(v0)
    ensures Inv(v0)
    ensures var v := Run(v0, steps);
            w in v.ws && v.ws[w].phase == Blocked && s < |v.socks| && ScanReady(v.socks[s], v.ws[w].sets, s) ==>
              || v.ws[w].sem == 1
              || Covered(v.list, v.ctr, v.cbs, s, w)
              || (v.socks[s].left && s in v.ws[w].sets.read && v.socks[s].rcv <= 0)
  {
    NoLostWakeup(v0, steps, w, s);
  }

  /** An event that a thread waits for: after the first reception, after room to write, after an
      error, the blocked thread has been signalled or will be looked at. */
  lemma EventWakes(v: World, c: nat, s: nat, e: Event, w: nat)
    requires Inv(v) && s < |v.socks| && c !in v.cbs && w in v.ws && v.ws[w].phase == Blocked
    requires || (e == RcvPlus && v.socks[s].rcv >= 0 && s in v.ws[w].sets.read)
             || (e == SendPlus && s in v.ws[w].sets.write)
             || (e == Error && s in v.ws[w].sets.except)
    ensures var v' := Next(v, DoFire(c, s, e));
            w in v'.ws && (v'.ws[w].sem == 1 || Covered(v'.list, v'.ctr, v'.cbs, s, w))
  {
    FireKeeps(v, c, s, e);
    var v' := Next(v, DoFire(c, s, e));
    assert NotLost(v', w, s) && SemOk(v'.ws[w]);
  }

  /** What an event leaves behind at its socket; the other sockets are untouched. */
  lemma EventRecorded(v: World, c: nat, s: nat, e: Event)
    requires Inv(v) && s < |v.socks| && c !in v.cbs
    ensures var v', so := Next(v, DoFire(c, s, e)), v.socks[s];
            && |v'.socks| == |v.socks| && (forall t :: 0 <= t < |v.socks| && t != s ==> v'.socks[t] == v.socks[t])
            && v'.socks[s].rcv == so.rcv + (if e == RcvPlus then 1 else if e == RcvMinus then -1 else 0)
            && v'.socks[s].send == (e == SendPlus || (so.send && e != SendMinus))
            && v'.socks[s].err == (so.err || e == Error)
            && v'.socks[s].waiting == so.waiting && v'.socks[s].left == so.left
  {
  }

  /** Nobody is woken for nothing: a step that signals a thread comes from a callback of a socket on
      which something has happened that the thread waits for. */
  lemma SignalledForCause(v: World, step: Step, w: nat)
    requires Inv(v) && w in v.ws && !v.ws[w].signalled
    requires Inv(Next(v, step)) && w in Next(v, step).ws && Next(v, step).ws[w].signalled
    ensures exists s: nat :: s < |Next(v, step).socks| && Happened(Next(v, step), w, s)
  {
    match step
    case DoFire(c, s, e) =>
      VisitCause(v.(socks := v.socks[s := Occur(v.socks[s], e)]), c, s, 0, w);
    case DoResume(c) =>
      assert CallbackOk(v.list, v.ctr, |v.socks|, v.cbs[c]);
      VisitCause(v, c, v.cbs[c].sock, NextPlace(v, v.cbs[c]), w);
    case _ =>
  }

  lemma VisitCause(v: World, c: nat, s: nat, k: nat, w: nat)
    requires s < |v.socks| && (forall u :: u in v.list ==> u in v.ws) && w in v.ws && !v.ws[w].signalled
    ensures var r := Visit(v, c, s, k); w in r.ws && (r.ws[w].signalled ==> Happened(r, w, s))
  {
  }

  ghost predicate Happened(v: World, w: nat, s: nat)
    requires w in v.ws && s < |v.socks|
  {
    var so, sets := v.socks[s], v.ws[w].sets;
    (so.rcv > 0 && s in sets.read) || (so.send && s in sets.write) || (so.err && s in sets.except)
  }

  ghost predicate Sleeping(v: World, w: nat, s: nat) {
    && w in v.ws && v.ws[w].phase == Blocked && s < |v.socks| && ScanReady(v.socks[s], v.ws[w].sets, s)
    && v.ws[w].sem == 0 && v.cbs == map[]
  }

  lemma RunFirst(v: World, step: Step, rest: seq<Step>)
    requires Inv(v)
    ensures Inv(Next(v, step)) && Run(v, [step] + rest) == Run(Next(v, step), rest)
  {
    NextKeeps(v, step);
    assert ([step] + rest)[1..] == rest;
  }

  /** One thread selects for reading on the only socket, from which all data was taken. */
  ghost predicate Alone(v: World, phase: Phase) {
    && |v.socks| == 1 && v.socks[0].rcv == 0 && v.socks[0].read && !v.socks[0].left && v.cbs == map[]
    && 0 in v.ws && v.ws[0] == Waiter(Sets({0}, {}, {}), phase, false, 0)
  }

  ghost predicate CanSleep(v: World)
    requires Inv(v)
  {
    exists steps: seq<Step> :: Sleeping(Run(v, steps), 0, 0)
  }

  lemma SleepsLater(v: World, step: Step)
    requires Inv(v) && Inv(Next(v, step)) && CanSleep(Next(v, step))
    ensures CanSleep(v)
  {
    var steps: seq<Step> :| Sleeping(Run(Next(v, step), steps), 0, 0);
    RunFirst(v, step, steps);
  }

  /** The phases of a thread that finds nothing. */
  const ToBlocked: seq<Phase> := [Registering(0), Registering(1), Scanning(0, false), Scanning(1, false), Blocked]

  lemma AloneAdvances(v: World, k: nat)
    requires Inv(v) && k < 4 && Alone(v, ToBlocked[k])
    ensures Alone(Next(v, DoAdvance(0)), ToBlocked[k + 1])
  {
  }

  lemma {:induction false} AloneSleeps(v: World, k: nat)
    requires Inv(v) && k <= 4 && Alone(v, ToBlocked[k])
    ensures CanSleep(v)
    decreases 4 - k
  {
    var step := if k < 4 then DoAdvance(0) else DoLeftover(0, true);
    NextKeeps(v, step);
    if k < 4 {
      AloneAdvances(v, k);
      AloneSleeps(Next(v, step), k + 1);
    } else {
      assert Sleeping(Run(Next(v, step), []), 0, 0);
    }
    SleepsLater(v, step);
  }

  ghost function OneSocket(so: Sock): World {
    World([so], map[], [], 0, map[])
  }

  lemma SleepsAfterRead(v: World)
    requires v == OneSocket(Sock(0, false, false, 0, true, false)) && Inv(v)
    ensures CanSleep(v)
  {
    var enter := DoEnter(0, Sets({0}, {}, {}));
    NextKeeps(v, enter);
    AloneSleeps(Next(v, enter), 0);
    SleepsLater(v, enter);
  }

  /** The exception is real: data arrives and is read, a thread selects and blocks, the reader
      leaves some of the data over, and nothing wakes the thread. */
  lemma LeftoverUnnoticed()
    ensures var v0 := OneSocket(Sock(0, false, false, 0, false, false)); Idle(v0) && Inv(v0) && CanSleep(v0)
  {
    var v0 := OneSocket(Sock(0, false, false, 0, false, false));
    var come, go := DoFire(0, 0, RcvPlus), DoFire(0, 0, RcvMinus);
    IdleInv(v0);
    NextKeeps(v0, come);
    var v1 := Next(v0, come);
    assert v1 == OneSocket(Sock(1, false, false, 0, false, false));
    NextKeeps(v1, go);
    var v2 := Next(v1, go);
    assert v2 == OneSocket(Sock(0, false, false, 0, true, false));
    SleepsAfterRead(v2);
    SleepsLater(v1, go);
    SleepsLater(v0, come);
  }

  /** No callback looks at a waiter that has left: when it goes on from where it is, that
      waiter, and so the next one, is on the list. */
  lemma NeverDangling(v0: World, steps: seq<Step>, c: nat)
    requires Idle(v0)
    ensures Inv(v0)
    ensures var v := Run(v0, steps);
            c in v.cbs && v.cbs[c].seen == v.ctr ==> v.cbs[c].pos in v.list && v.cbs[c].pos in v.ws
  {
    IdleInv(v0);
    var v := Run(v0, steps);
    assert c in v.cbs ==> CallbackOk(v.list, v.ctr, |v.socks|, v.cbs[c]);
  }

  ghost function Resumes(v: World, c: nat, n: nat): (r: World)
    requires Inv(v)
    ensures Inv(r)
    decreases n
  {
    if n == 0 || c !in v.cbs then v
    else
      ResumeKeeps(v, c);
      Resumes(Resume(v, c), c, n - 1)
  }

  /** One step of a callback signals the waiter there and moves on by one place. */
  lemma ResumeVisits(v: World, c: nat, w: nat)
    requires Inv(v) && c in v.cbs && w in v.ws && NextPlace(v, v.cbs[c]) < |v.list|
    ensures v.cbs[c].sock < |v.socks|
    ensures var v', s, k := Resume(v, c), v.cbs[c].sock, NextPlace(v, v.cbs[c]);
            && Inv(v') && v'.list == v.list && v'.ctr == v.ctr && v'.socks == v.socks
            && c in v'.cbs && v'.cbs[c] == Callback(s, v.list[k], v.ctr) && NextPlace(v', v'.cbs[c]) == k + 1
            && w in v'.ws && v'.ws[w].sets == v.ws[w].sets
            && (v.list[k] == w && Ready(v.socks[s], v.ws[w].sets, s) ==> v'.ws[w].signalled)
  {
    ResumeKeeps(v, c);
    IndexAt(v.list, NextPlace(v, v.cbs[c]));
  }

  lemma ResumesFirst(v: World, c: nat, n: nat)
    requires Inv(v) && c in v.cbs && v.cbs[c].sock < |v.socks| && Inv(Resume(v, c)) && n > 0
    ensures Resumes(v, c, n) == Resumes(Resume(v, c), c, n - 1)
  {
  }

  /** A callback that covers a waiter has it at its next place or later. */
  lemma PlaceCovers(v: World, c: nat, w: nat, s: nat)
    requires Inv(v) && w in v.ws && c in v.cbs && Covers(v.list, v.ctr, v.cbs[c], s, w)
    ensures NextPlace(v, v.cbs[c]) <= IndexOf(v.list, w) < |v.list| && v.list[IndexOf(v.list, w)] == w
  {
    assert w in v.list;
  }

  /** The callback `c` has still to signal `w`, for socket `s`. */
  ghost predicate Owes(v: World, c: nat, w: nat, s: nat) {
    && Inv(v) && w in v.ws && s < |v.socks| && Ready(v.socks[s], v.ws[w].sets, s)
    && c in v.cbs && Covers(v.list, v.ctr, v.cbs[c], s, w)
  }

  ghost function StepsTo(v: World, c: nat, w: nat): int
    requires c in v.cbs
  {
    IndexOf(v.list, w) + 1 - NextPlace(v, v.cbs[c])
  }

  ghost predicate Signalled(v: World, w: nat) {
    w in v.ws && v.ws[w].signalled
  }

  /** One step pays the debt or brings the callback nearer. */
  lemma OwesLess(v: World, c: nat, w: nat, s: nat)
    requires Owes(v, c, w, s)
    ensures v.cbs[c].sock < |v.socks| && Inv(Resume(v, c)) && 0 < StepsTo(v, c, w) <= |v.list|
    ensures StepsTo(v, c, w) == 1 ==> Signalled(Resume(v, c), w)
    ensures StepsTo(v, c, w) > 1 ==>
              Owes(Resume(v, c), c, w, s) && StepsTo(Resume(v, c), c, w) == StepsTo(v, c, w) - 1
  {
    PlaceCovers(v, c, w, s);
    ResumeVisits(v, c, w);
    IndexAt(v.list, NextPlace(v, v.cbs[c]));
  }

  /** The callback does reach the waiter: left alone, it signals it after as many steps as
      there are waiters from its next place up to that one. */
  lemma {:induction false} CallbackReaches(v: World, c: nat, w: nat, s: nat)
    requires Owes(v, c, w, s)
    ensures 0 < StepsTo(v, c, w) <= |v.list| && Signalled(Resumes(v, c, StepsTo(v, c, w)), w)
    decreases StepsTo(v, c, w)
  {
    OwesLess(v, c, w, s);
    ResumesFirst(v, c, StepsTo(v, c, w));
    if StepsTo(v, c, w) > 1 {
      CallbackReaches(Resume(v, c), c, w, s);
    }
  }

  // Events before accept() has given the connection a socket.

  /** A callback before its protected regions: it has yet to look at the socket number again,
      or goes on to count the event at the socket. */
  datatype Early = Looking(e: Event) | Counting(e: Event)

  /** The new connection: netconn.socket (negative before the hand-over), the counters of the
      socket reserved for it, the callbacks under way, and all events raised so far. */
  datatype Accepting = Accepting(socket: int, so: Sock, early: map<nat, Early>, raised: multiset<Event>)

  datatype AcceptStep = Raise(c: nat, e: Event) | Look(c: nat) | Tally(c: nat) | HandOver(s: nat)

  /** Before the hand-over netconn.socket counts down; after it the socket counts. */
  function AcceptNext(a: Accepting, step: AcceptStep): Accepting {
    match step
    case Raise(c, e) =>
      if c in a.early then a
      else a.(early := a.early[c := if a.socket < 0 then Looking(e) else Counting(e)],
              raised := a.raised + multiset{e})
    case Look(c) =>
      if c !in a.early || !a.early[c].Looking? then a
      else if a.socket >= 0 then a.(early := a.early[c := Counting(a.early[c].e)])
      else if a.early[c].e == RcvPlus then a.(socket := a.socket - 1, early := a.early - {c})
      else a.(early := a.early - {c})
    case Tally(c) =>
      if c !in a.early || !a.early[c].Counting? then a
      else a.(so := Occur(a.so, a.early[c].e), early := a.early - {c})
    case HandOver(s) =>
      if a.socket >= 0 then a
      else a.(so := a.so.(rcv := a.so.rcv + (-1 - a.socket)), socket := s)
  }

  function AcceptRun(a: Accepting, steps: seq<AcceptStep>): Accepting
    decreases |steps|
  {
    if steps == [] then a else AcceptRun(AcceptNext(a, steps[0]), steps[1..])
  }

  /** What alloc_socket and the new netconn start with. */
  const FreshAccept: Accepting := Accepting(-1, Sock(0, true, false, 0, false, false), map[], multiset{})

  /** Callbacks under way for an event. */
  ghost function UnderWay(early: map<nat, Early>, e: Event): set<nat> {
    set c | c in early && early[c].e == e
  }

  lemma UnderWayMore(early: map<nat, Early>, c: nat, x: Early, e: Event)
    requires c !in early
    ensures |UnderWay(early[c := x], e)| == |UnderWay(early, e)| + if x.e == e then 1 else 0
  {
    if x.e == e {
      assert UnderWay(early[c := x], e) == UnderWay(early, e) + {c};
    } else {
      assert UnderWay(early[c := x], e) == UnderWay(early, e);
    }
  }

  lemma UnderWayLess(early: map<nat, Early>, c: nat, e: Event)
    requires c in early
    ensures |UnderWay(early - {c}, e)| == |UnderWay(early, e)| - if early[c].e == e then 1 else 0
  {
    UnderWayMore(early - {c}, c, early[c], e);
    assert (early - {c})[c := early[c]] == early;
  }

  /** A callback that changes from looking to counting is still under way. */
  lemma UnderWaySame(early: map<nat, Early>, c: nat, e: Event)
    requires c in early
    ensures UnderWay(early[c := Counting(early[c].e)], e) == UnderWay(early, e)
  {
  }

  /** Every event raised has been counted or is under way.  The application reads, and so
      lowers the count, only once it has the socket. */
  ghost predicate AcceptInv(a: Accepting) {
    && a.raised[RcvPlus] - |UnderWay(a.early, RcvPlus)| - (a.raised[RcvMinus] - |UnderWay(a.early, RcvMinus)|)
         == (if a.socket < 0 then -1 - a.socket else a.so.rcv)
    && (a.socket < 0 ==>
          && a.so == Sock(0, true, false, 0, false, false) && a.raised[RcvMinus] == 0
          && forall c :: c in a.early ==> a.early[c].Looking?)
    && (forall c :: c in a.early && a.early[c].Looking? ==> a.early[c].e != RcvMinus)
  }

  /** The application does not read a connection it has not got yet. */
  ghost predicate Proper(a: Accepting, step: AcceptStep) {
    a.socket < 0 && step.Raise? ==> step.e != RcvMinus
  }

  ghost predicate ProperRun(a: Accepting, steps: seq<AcceptStep>)
    decreases |steps|
  {
    steps == [] || (Proper(a, steps[0]) && ProperRun(AcceptNext(a, steps[0]), steps[1..]))
  }

  lemma AcceptKeeps(a: Accepting, step: AcceptStep)
    requires AcceptInv(a) && Proper(a, step)
    ensures AcceptInv(AcceptNext(a, step))
  {
    match step
    case Raise(c, e) =>
      if c !in a.early {
        var x := if a.socket < 0 then Looking(e) else Counting(e);
        UnderWayMore(a.early, c, x, RcvPlus);
        UnderWayMore(a.early, c, x, RcvMinus);
      }
    case Look(c) =>
      if c in a.early {
        UnderWayLess(a.early, c, RcvPlus);
        UnderWayLess(a.early, c, RcvMinus);
        UnderWaySame(a.early, c, RcvPlus);
        UnderWaySame(a.early, c, RcvMinus);
      }
    case Tally(c) =>
      if c in a.early {
        UnderWayLess(a.early, c, RcvPlus);
        UnderWayLess(a.early, c, RcvMinus);
      }
    case HandOver(s) =>
  }

  lemma {:induction false} AcceptRunKeeps(a: Accepting, steps: seq<AcceptStep>)
    requires AcceptInv(a) && ProperRun(a, steps)
    ensures AcceptInv(AcceptRun(a, steps))
    decreases |steps|
  {
    if steps != [] {
      AcceptKeeps(a, steps[0]);
      AcceptRunKeeps(AcceptNext(a, steps[0]), steps[1..]);
    }
  }

  /** Receive events are counted exactly once, on whichever side of the hand-over they fall:
      once no callback is under way, the count is the events raised, less those the
      application has taken. */
  lemma CountedOnce(steps: seq<AcceptStep>)
    requires ProperRun(FreshAccept, steps)
    ensures var a := AcceptRun(FreshAccept, steps);
            var count: int := if a.socket < 0 then -1 - a.socket else a.so.rcv;
            && count == a.raised[RcvPlus] - |UnderWay(a.early, RcvPlus)|
                        - (a.raised[RcvMinus] - |UnderWay(a.early, RcvMinus)|)
            && (a.early == map[] ==> count + a.raised[RcvMinus] == a.raised[RcvPlus])
  {
    assert UnderWay(map[], RcvPlus) == {} && UnderWay(map[], RcvMinus) == {};
    assert AcceptInv(FreshAccept);
    AcceptRunKeeps(FreshAccept, steps);
  }

  /** Steps of others leave a callback where it is. */
  ghost predicate Elsewhere(step: AcceptStep, c: nat) {
    step.HandOver? || step.c != c
  }

  lemma {:induction false} CallbackStays(a: Accepting, c: nat, steps: seq<AcceptStep>)
    requires c in a.early && forall i :: 0 <= i < |steps| ==> Elsewhere(steps[i], c)
    ensures var b := AcceptRun(a, steps);
            c in b.early && b.early[c] == a.early[c] && (a.socket >= 0 ==> b.socket >= 0)
    decreases |steps|
  {
    if steps != [] {
      assert Elsewhere(steps[0], c);
      CallbackStays(AcceptNext(a, steps[0]), c, steps[1..]);
    }
  }

  /** An event other than a reception, raised before the hand-over, is recorded at the socket
      if and only if its callback looks again after the hand-over; otherwise it leaves no
      trace.  `before` and `after` are what others do until it looks, and until it counts. */
  lemma RecordedIffLate(a: Accepting, c: nat, e: Event, before: seq<AcceptStep>, after: seq<AcceptStep>)
    requires a.socket < 0 && c !in a.early && e != RcvPlus
    requires forall i :: 0 <= i < |before| ==> Elsewhere(before[i], c)
    requires forall i :: 0 <= i < |after| ==> Elsewhere(after[i], c)
    ensures var b := AcceptRun(AcceptNext(a, Raise(c, e)), before);
            var looked := AcceptNext(b, Look(c));
            && c in b.early
            && (b.socket < 0 ==> looked == b.(early := b.early - {c}))
            && (b.socket >= 0 ==>
                  var d := AcceptRun(looked, after);
                  c in d.early && AcceptNext(d, Tally(c)) == d.(so := Occur(d.so, e), early := d.early - {c}))
  {
    var a1 := AcceptNext(a, Raise(c, e));
    CallbackStays(a1, c, before);
    var b := AcceptRun(a1, before);
    if b.socket >= 0 {
      CallbackStays(AcceptNext(b, Look(c)), c, after);
    }
  }

  /** So an error raised and looked at before the hand-over is lost. */
  lemma ErrorDropped(s: nat)
    ensures var a := AcceptRun(FreshAccept, [Raise(0, Error), Look(0), HandOver(s)]);
            a.raised[Error] == 1 && a.early == map[] && a.socket == s && !a.so.err
  {
    var steps := [Raise(0, Error), Look(0), HandOver(s)];
    var a1 := AcceptNext(FreshAccept, steps[0]);
    var a2 := AcceptNext(a1, steps[1]);
    var a3 := AcceptNext(a2, steps[2]);
    assert steps[1..][0] == steps[1] && steps[1..][1..] == steps[2..] && steps[2..][1..] == [];
    assert AcceptRun(FreshAccept, steps) == AcceptRun(a1, steps[1..]) == AcceptRun(a2, steps[2..]) == AcceptRun(a3, []);
  }
}
