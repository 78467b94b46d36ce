/**
  The DHCP server's lease table: eight entries with fixed addresses, scanned and edited
  in place by incoming messages, a one-second tick and explicit deletion.
 */
module DhcpServer {

  const CLIENTS: nat := 8                  // DHCPS_HISTORY_CLIENT_NUM
  const OFFER_TICKS: nat := 10             // DHCP_DEFFAULT_TIMEOUT
  const LEASE: nat := 3600 * 24 * 365 * 10 // DHCP_DEFAULT_LEASE_TIME

  const DISCOVER: nat := 1
  const REQUEST: nat := 3
  const DECLINE: nat := 4
  const RELEASE: nat := 7

  datatype State = Idle | Select | Request | Bind

  /** `mac` 0 is the all-zero hardware address. */
  datatype Client = Client(state: State, timeout: nat, ip: nat, mac: nat, lease: nat)

  datatype Msg = Msg(kind: nat, mac: nat, reqIp: nat, serverId: nat)

  datatype Reply = Silent | Offer(ip: nat, mac: nat) | Ack(ip: nat, mac: nat) | Nak(mac: nat)

  /** What the table scan looks for. */
  datatype Want =
    | HistoryOf(mac: nat)          // idle entry last held by this client
    | Holding(ip: nat)             // idle entry with the requested address
    | Blank                        // idle entry never held, or wiped
    | AnyHistory                   // idle entry last held by somebody
    | Active(mac: nat)             // entry in use by this client
    | Taken(ip: nat, mac: nat)     // requested address in use by another client

  predicate Matches(c: Client, w: Want) {
    match w
    case HistoryOf(mac) => c.state.Idle? && c.mac == mac
    case Holding(ip) => c.state.Idle? && c.ip == ip
    case Blank => c.state.Idle? && c.mac == 0
    case AnyHistory => c.state.Idle? && c.mac != 0
    case Active(mac) => !c.state.Idle? && c.mac == mac
    case Taken(ip, mac) => !c.state.Idle? && c.mac != mac && c.ip == ip
  }

  /** Index of the first entry that matches, or -1. */
  ghost function First(cs: seq<Client>, w: Want): (k: int)
    ensures -1 <= k < |cs|
    ensures k >= 0 ==> Matches(cs[k], w)
  {
    if cs == [] then -1
    else
      var k := First(cs[..|cs| - 1], w);
      if k >= 0 then k else if Matches(cs[|cs| - 1], w) then |cs| - 1 else -1
  }

  ghost function Last(cs: seq<Client>, w: Want): (k: int)
    ensures -1 <= k < |cs|
    ensures k >= 0 ==> Matches(cs[k], w)
  {
    if cs == [] then -1
    else if Matches(cs[|cs| - 1], w) then |cs| - 1
    else Last(cs[..|cs| - 1], w)
  }

  lemma {:induction false} FirstIsFirst(cs: seq<Client>, w: Want, i: nat)
    requires i < |cs| && Matches(cs[i], w)
    ensures 0 <= First(cs, w) <= i
    decreases |cs|
  {
    if i < |cs| - 1 {
      FirstIsFirst(cs[..|cs| - 1], w, i);
    }
  }

  lemma {:induction false} LastIsLast(cs: seq<Client>, w: Want, i: nat)
    requires i < |cs| && Matches(cs[i], w)
    ensures i <= Last(cs, w)
    decreases |cs|
  {
    if i < |cs| - 1 && !Matches(cs[|cs| - 1], w) {
      LastIsLast(cs[..|cs| - 1], w, i);
    }
  }

  // What a message does to the table.

  /** Give up an entry: its hardware address stays as history only if it was bound. */
  ghost function Dropped(c: Client): Client {
    c.(state := Idle, mac := if c.state.Bind? then c.mac else 0)
  }

  ghost predicate ForMe(m: Msg, server: nat) {
    m.serverId == 0 || m.serverId == server
  }

  datatype Found = Found(cs: seq<Client>, entry: int)

  /** The switch on the message kind: which entry to serve (-1: none), and the entry the
      client gives up on the way. */
  ghost function Chosen(cs: seq<Client>, m: Msg, server: nat): (f: Found)
    ensures |f.cs| == |cs| && -1 <= f.entry < |cs|
  {
    var my, req := Last(cs, Active(m.mac)), First(cs, Holding(m.reqIp));
    if m.kind == DISCOVER then
      if my >= 0 then
        if req >= 0 then Found(cs[my := cs[my].(state := Idle, mac := 0)], req)
        else Found(cs[my := cs[my].(state := Idle)], my)
      else
        var mine, blank, any := First(cs, HistoryOf(m.mac)), First(cs, Blank), First(cs, AnyHistory);
        Found(cs, if req >= 0 then req else if mine >= 0 then mine else if blank >= 0 then blank else any)
    else if m.kind == REQUEST then
      if First(cs, Taken(m.reqIp, m.mac)) >= 0 then
        Found(if my >= 0 then cs[my := Dropped(cs[my])] else cs, -1)
      else if my >= 0 && req >= 0 then
        Found(cs[my := Dropped(cs[my])], if ForMe(m, server) then req else -1)
      else
        Found(cs, if !ForMe(m, server) then -1 else if my >= 0 then my else req)
    else if (m.kind == RELEASE || m.kind == DECLINE) && my >= 0 then
      Found(cs[my := Dropped(cs[my])], -1)
    else
      Found(cs, -1)
  }

  /** The table after the lookup, with the chosen entry given to the client. */
  ghost function Lookup(cs: seq<Client>, m: Msg, server: nat): (f: Found)
    ensures |f.cs| == |cs| && -1 <= f.entry < |cs|
  {
    var f := Chosen(cs, m, server);
    if f.entry >= 0 then f.(cs := f.cs[f.entry := f.cs[f.entry].(mac := m.mac)]) else f
  }

  ghost function Clean(cs: seq<Client>, mac: nat): seq<Client> {
    seq(|cs|, i requires 0 <= i < |cs| =>
      if cs[i].state.Idle? && cs[i].mac == mac then cs[i].(mac := 0) else cs[i])
  }

  datatype Served = Served(cs: seq<Client>, reply: Reply)

  /** The per-client state machine, fall-through included. */
  ghost function Advance(cs: seq<Client>, k: nat, kind: nat): Served
    requires k < |cs|
  {
    var c := cs[k];
    if c.state.Select? || (c.state.Idle? && kind != REQUEST) then
      Served(cs[k := c.(timeout := OFFER_TICKS, state := Request)], Offer(c.ip, c.mac))
    else
      Served(Clean(cs[k := c.(lease := LEASE, state := Bind)], c.mac), Ack(c.ip, c.mac))
  }

  ghost function Handle(cs: seq<Client>, m: Msg, server: nat): Served {
    var f := Lookup(cs, m, server);
    if f.entry >= 0 then Advance(f.cs, f.entry, m.kind)
    else Served(f.cs, if m.kind != RELEASE && m.kind != DECLINE then Nak(m.mac) else Silent)
  }

  ghost function Ticked(c: Client, present: set<nat>): Client {
    match c.state
    case Request =>
      if c.timeout == 1 then c.(timeout := 0, mac := 0, state := Idle)
      else if c.timeout > 0 then c.(timeout := c.timeout - 1) else c
    case Bind =>
      var left := if c.lease > 0 then c.lease - 1 else 0;
      if c.lease == 1 || c.mac !in present then c.(lease := left, state := Idle) else c.(lease := left)
    case _ => c
  }

  ghost function TickAll(cs: seq<Client>, present: set<nat>): seq<Client> {
    seq(|cs|, i requires 0 <= i < |cs| => Ticked(cs[i], present))
  }

  ghost function Deleted(cs: seq<Client>, mac: nat): seq<Client> {
    var k := First(cs, Active(mac));
    if k >= 0 && cs[k].state.Bind? then cs[k := cs[k].(state := Idle)] else cs
  }

  // Properties of single steps.

  /** No two entries in use belong to the same client; offers run out. */
  ghost predicate Inv(cs: seq<Client>) {
    && (forall i, j :: 0 <= i < j < |cs| && !cs[i].state.Idle? && !cs[j].state.Idle? ==> cs[i].mac != cs[j].mac)
    && (forall i :: 0 <= i < |cs| ==> cs[i].state != Select)
    && (forall i :: 0 <= i < |cs| && cs[i].state.Request? ==> 0 < cs[i].timeout <= OFFER_TICKS)
  }

  ghost predicate SameAddresses(cs: seq<Client>, cs': seq<Client>) {
    |cs'| == |cs| && forall i :: 0 <= i < |cs| ==> cs'[i].ip == cs[i].ip
  }

  /** Entries in use by clients other than `mac` are the same. */
  ghost predicate OthersKept(cs: seq<Client>, cs': seq<Client>, mac: nat) {
    |cs'| == |cs| && forall i :: 0 <= i < |cs| && !cs[i].state.Idle? && cs[i].mac != mac ==> cs'[i] == cs[i]
  }

  /** Only the client's own entry is edited, and only to make it idle; the entry chosen is
      idle, or the client's own. */
  ghost predicate ChosenOk(cs: seq<Client>, f: Found, my: int, kind: nat)
    requires |f.cs| == |cs| && -1 <= f.entry < |cs| && -1 <= my < |cs|
  {
    && (forall i :: 0 <= i < |cs| && i != my ==> f.cs[i] == cs[i])
    && (my >= 0 ==> f.cs[my] == cs[my] || (f.cs[my].state.Idle? && f.cs[my].ip == cs[my].ip))
    && (f.entry >= 0 ==> kind == DISCOVER || kind == REQUEST)
    && (f.entry >= 0 && f.entry != my ==> cs[f.entry].state.Idle? && (my >= 0 ==> f.cs[my].state.Idle?))
    && (f.entry >= 0 && kind == DISCOVER ==> f.cs[f.entry].state.Idle?)
  }

  lemma DiscoverFacts(cs: seq<Client>, m: Msg, server: nat)
    requires m.kind == DISCOVER
    ensures ChosenOk(cs, Chosen(cs, m, server), Last(cs, Active(m.mac)), m.kind)
  {
  }

  lemma RequestFacts(cs: seq<Client>, m: Msg, server: nat)
    requires m.kind == REQUEST
    ensures ChosenOk(cs, Chosen(cs, m, server), Last(cs, Active(m.mac)), m.kind)
  {
  }

  lemma ChosenFacts(cs: seq<Client>, m: Msg, server: nat)
    ensures ChosenOk(cs, Chosen(cs, m, server), Last(cs, Active(m.mac)), m.kind)
  {
    if m.kind == DISCOVER {
      DiscoverFacts(cs, m, server);
    } else if m.kind == REQUEST {
      RequestFacts(cs, m, server);
    }
  }

  lemma OnlyOneActive(cs: seq<Client>, mac: nat)
    requires Inv(cs)
    ensures forall i :: 0 <= i < |cs| && i != Last(cs, Active(mac)) && !cs[i].state.Idle? ==> cs[i].mac != mac
  {
    var my := Last(cs, Active(mac));
    forall i | 0 <= i < |cs| && i != my && !cs[i].state.Idle? ensures cs[i].mac != mac {
      if cs[i].mac == mac {
        LastIsLast(cs, Active(mac), i);
      }
    }
  }

  /** After the lookup the client holds at most the entry to serve. */
  ghost predicate SoleHolder(cs: seq<Client>, k: int, mac: nat) {
    && -1 <= k < |cs|
    && (k >= 0 ==> cs[k].mac == mac)
    && (forall i :: 0 <= i < |cs| && i != k && k >= 0 && !cs[i].state.Idle? ==> cs[i].mac != mac)
  }

  lemma LookupKeepsInv(cs: seq<Client>, m: Msg, server: nat)
    requires Inv(cs)
    ensures var f := Lookup(cs, m, server); Inv(f.cs) && SoleHolder(f.cs, f.entry, m.mac)
  {
    ChosenFacts(cs, m, server);
    OnlyOneActive(cs, m.mac);
    var f, my := Lookup(cs, m, server), Last(cs, Active(m.mac));
    assert forall i :: 0 <= i < |cs| && i != my && i != f.entry ==> f.cs[i] == cs[i];
    assert SoleHolder(f.cs, f.entry, m.mac);
  }

  lemma LookupKeepsOthers(cs: seq<Client>, m: Msg, server: nat)
    ensures var f := Lookup(cs, m, server); SameAddresses(cs, f.cs) && OthersKept(cs, f.cs, m.mac)
  {
    ChosenFacts(cs, m, server);
    var f, my := Lookup(cs, m, server), Last(cs, Active(m.mac));
    assert forall i :: 0 <= i < |cs| && i != my && i != f.entry ==> f.cs[i] == cs[i];
  }

  lemma CleanKeeps(cs: seq<Client>, mac: nat)
    requires Inv(cs)
    ensures Inv(Clean(cs, mac)) && SameAddresses(cs, Clean(cs, mac)) && OthersKept(cs, Clean(cs, mac), mac)
    ensures forall i :: 0 <= i < |cs| && !cs[i].state.Idle? ==> Clean(cs, mac)[i] == cs[i]
  {
    var r := Clean(cs, mac);
    assert forall i :: 0 <= i < |cs| ==> r[i].state == cs[i].state && (cs[i].state.Idle? || r[i] == cs[i]);
  }

  lemma AdvanceKeeps(cs: seq<Client>, k: nat, kind: nat, mac: nat)
    requires Inv(cs) && SoleHolder(cs, k, mac)
    ensures var s := Advance(cs, k, kind);
            Inv(s.cs) && SameAddresses(cs, s.cs) && OthersKept(cs, s.cs, mac)
  {
    var c := cs[k];
    if !(c.state.Idle? && kind != REQUEST) {
      var b := cs[k := c.(lease := LEASE, state := Bind)];
      assert Inv(b);
      CleanKeeps(b, c.mac);
    }
  }

  /** One message keeps the invariant, every address, and every entry other clients use. */
  lemma HandleKeeps(cs: seq<Client>, m: Msg, server: nat)
    requires Inv(cs)
    ensures var s := Handle(cs, m, server);
            Inv(s.cs) && SameAddresses(cs, s.cs) && OthersKept(cs, s.cs, m.mac)
  {
    LookupKeepsInv(cs, m, server);
    LookupKeepsOthers(cs, m, server);
    var f := Lookup(cs, m, server);
    if f.entry >= 0 {
      AdvanceKeeps(f.cs, f.entry, m.kind, m.mac);
    }
  }

  /** OFFER answers only DISCOVER, ACK only REQUEST, and each names the sender. */
  lemma RepliesMatch(cs: seq<Client>, m: Msg, server: nat)
    requires Inv(cs)
    ensures match Handle(cs, m, server).reply
            case Offer(_, mac) => m.kind == DISCOVER && mac == m.mac
            case Ack(_, mac) => m.kind == REQUEST && mac == m.mac
            case Nak(mac) => m.kind != RELEASE && m.kind != DECLINE && mac == m.mac
            case Silent => m.kind == RELEASE || m.kind == DECLINE
  {
    ChosenFacts(cs, m, server);
    LookupKeepsInv(cs, m, server);
  }

  ghost predicate DistinctAddresses(cs: seq<Client>) {
    forall i, j :: 0 <= i < j < |cs| ==> cs[i].ip != cs[j].ip
  }

  /** A REQUEST for a pool address is granted exactly that address, or refused. */
  lemma RequestExact(cs: seq<Client>, m: Msg, server: nat, k: nat)
    requires Inv(cs) && DistinctAddresses(cs) && m.kind == REQUEST
    requires k < |cs| && cs[k].ip == m.reqIp
    ensures Handle(cs, m, server).reply in {Ack(m.reqIp, m.mac), Nak(m.mac)}
    ensures Handle(cs, m, server).reply == Nak(m.mac) <==>
              (cs[k].state != Idle && cs[k].mac != m.mac) || m.serverId !in {0, server}
  {
    LookupKeepsInv(cs, m, server);
    OnlyOneActive(cs, m.mac);
    var my, req, taken := Last(cs, Active(m.mac)), First(cs, Holding(m.reqIp)), First(cs, Taken(m.reqIp, m.mac));
    assert req >= 0 ==> req == k;
    assert taken >= 0 ==> taken == k;
    if cs[k].state.Idle? {
      FirstIsFirst(cs, Holding(m.reqIp), k);
    } else if cs[k].mac != m.mac {
      FirstIsFirst(cs, Taken(m.reqIp, m.mac), k);
    }
  }

  /** A DISCOVER is refused exactly when every entry is in use by another client. */
  lemma DiscoverRefused(cs: seq<Client>, m: Msg, server: nat)
    requires Inv(cs) && m.kind == DISCOVER
    ensures Handle(cs, m, server).reply.Nak? <==>
              forall i :: 0 <= i < |cs| ==> !cs[i].state.Idle? && cs[i].mac != m.mac
  {
    ChosenFacts(cs, m, server);
    var f, my := Chosen(cs, m, server), Last(cs, Active(m.mac));
    if f.entry < 0 {
      forall i | 0 <= i < |cs| ensures !cs[i].state.Idle? && cs[i].mac != m.mac {
        if cs[i].state.Idle? {
          FirstIsFirst(cs, if cs[i].mac == 0 then Blank else AnyHistory, i);
        } else if cs[i].mac == m.mac {
          LastIsLast(cs, Active(m.mac), i);
        }
      }
    } else if my >= 0 {
      assert Matches(cs[my], Active(m.mac));
    } else {
      assert cs[f.entry].state.Idle?;
    }
  }

  /** After an ACK to a real client exactly one entry carries its hardware address: the one
      granted, bound for a full lease. */
  lemma AckUnique(cs: seq<Client>, m: Msg, server: nat) returns (k: nat)
    requires Inv(cs) && Handle(cs, m, server).reply.Ack? && m.mac != 0
    ensures var s := Handle(cs, m, server);
            && k < |s.cs| && s.reply == Ack(s.cs[k].ip, m.mac)
            && s.cs[k].state == Bind && s.cs[k].mac == m.mac && s.cs[k].lease == LEASE
            && forall i :: 0 <= i < |s.cs| && i != k ==> s.cs[i].mac != m.mac
  {
    LookupKeepsInv(cs, m, server);
    k := Lookup(cs, m, server).entry;
  }

  /** The first entry that matches is the one with none before it. */
  lemma FirstExact(cs: seq<Client>, w: Want, k: nat)
    requires k < |cs| && Matches(cs[k], w) && forall i :: 0 <= i < k ==> !Matches(cs[i], w)
    ensures First(cs, w) == k
  {
    FirstIsFirst(cs, w, k);
  }

  /** The entry a client uses is the only one it can be found by. */
  lemma LastExact(cs: seq<Client>, mac: nat, k: nat)
    requires Inv(cs) && k < |cs| && !cs[k].state.Idle? && cs[k].mac == mac
    ensures Last(cs, Active(mac)) == k
  {
    LastIsLast(cs, Active(mac), k);
  }

  /** RELEASE and DECLINE make the client's entry idle, and only that; a bound entry remembers the
      client. */
  lemma ReleaseFrees(cs: seq<Client>, m: Msg, server: nat, k: nat)
    requires Inv(cs) && (m.kind == RELEASE || m.kind == DECLINE)
    requires k < |cs| && !cs[k].state.Idle? && cs[k].mac == m.mac
    ensures var s := Handle(cs, m, server);
            && s.reply == Silent && |s.cs| == |cs| && (forall i :: 0 <= i < |cs| && i != k ==> s.cs[i] == cs[i])
            && s.cs[k].state == Idle && s.cs[k].ip == cs[k].ip
            && s.cs[k].mac == if cs[k].state == Bind then m.mac else 0
  {
    LastExact(cs, m.mac, k);
  }

  /** A DISCOVER that asks for an idle address of the pool is offered that address. */
  lemma DiscoverAsked(cs: seq<Client>, m: Msg, server: nat, k: nat)
    requires m.kind == DISCOVER && k < |cs| && cs[k].state == Idle && cs[k].ip == m.reqIp
    requires forall i :: 0 <= i < k ==> !(cs[i].state == Idle && cs[i].ip == m.reqIp)
    ensures Handle(cs, m, server).reply == Offer(m.reqIp, m.mac)
  {
    FirstExact(cs, Holding(m.reqIp), k);
  }

  /** Otherwise a client that is being served is offered its address again. */
  lemma DiscoverAgain(cs: seq<Client>, m: Msg, server: nat, k: nat)
    requires Inv(cs) && m.kind == DISCOVER && k < |cs| && cs[k].state != Idle && cs[k].mac == m.mac
    requires forall i :: 0 <= i < |cs| ==> !(cs[i].state == Idle && cs[i].ip == m.reqIp)
    ensures Handle(cs, m, server).reply == Offer(cs[k].ip, m.mac)
  {
    LastExact(cs, m.mac, k);
    assert First(cs, Holding(m.reqIp)) < 0;
  }

  /** A new client: first the address it had, then one nobody had, then anybody's old one. */
  ghost predicate Preferred(cs: seq<Client>, mac: nat, k: nat)
    requires k < |cs|
  {
    && cs[k].state == Idle
    && if exists i :: 0 <= i < |cs| && cs[i].state == Idle && cs[i].mac == mac then
         cs[k].mac == mac && forall i :: 0 <= i < k && cs[i].state == Idle ==> cs[i].mac != mac
       else if exists i :: 0 <= i < |cs| && cs[i].state == Idle && cs[i].mac == 0 then
         cs[k].mac == 0 && forall i :: 0 <= i < k && cs[i].state == Idle ==> cs[i].mac != 0
       else
         forall i :: 0 <= i < k ==> cs[i].state != Idle
  }

  lemma DiscoverPriority(cs: seq<Client>, m: Msg, server: nat, k: nat)
    requires m.kind == DISCOVER && k < |cs| && Preferred(cs, m.mac, k)
    requires forall i :: 0 <= i < |cs| && cs[i].state != Idle ==> cs[i].mac != m.mac
    requires forall i :: 0 <= i < |cs| ==> !(cs[i].state == Idle && cs[i].ip == m.reqIp)
    ensures Handle(cs, m, server).reply == Offer(cs[k].ip, m.mac)
  {
    assert First(cs, Holding(m.reqIp)) < 0 && Last(cs, Active(m.mac)) < 0;
    if cs[k].mac == m.mac {
      FirstExact(cs, HistoryOf(m.mac), k);
    } else {
      assert First(cs, HistoryOf(m.mac)) < 0;
      if cs[k].mac == 0 {
        FirstExact(cs, Blank, k);
      } else {
        assert First(cs, Blank) < 0;
        FirstExact(cs, AnyHistory, k);
      }
    }
  }

  /** An offer is held for the client, for ten ticks. */
  lemma OfferHeld(cs: seq<Client>, m: Msg, server: nat) returns (k: nat)
    requires Inv(cs) && Handle(cs, m, server).reply.Offer?
    ensures var s := Handle(cs, m, server);
            && k < |s.cs| && s.reply == Offer(s.cs[k].ip, m.mac)
            && s.cs[k].state == Request && s.cs[k].mac == m.mac && s.cs[k].timeout == OFFER_TICKS
  {
    LookupKeepsInv(cs, m, server);
    k := Lookup(cs, m, server).entry;
  }

  /** A REQUEST for an address outside the pool is granted the client's own, if it has one. */
  lemma RequestElsewhere(cs: seq<Client>, m: Msg, server: nat)
    requires Inv(cs) && m.kind == REQUEST && forall i :: 0 <= i < |cs| ==> cs[i].ip != m.reqIp
    ensures m.serverId !in {0, server} || (forall i :: 0 <= i < |cs| && cs[i].state != Idle ==> cs[i].mac != m.mac) ==>
              Handle(cs, m, server).reply == Nak(m.mac)
    ensures forall k :: 0 <= k < |cs| && cs[k].state != Idle && cs[k].mac == m.mac && m.serverId in {0, server} ==>
              Handle(cs, m, server).reply == Ack(cs[k].ip, m.mac)
  {
    assert First(cs, Holding(m.reqIp)) < 0 && First(cs, Taken(m.reqIp, m.mac)) < 0;
    forall k | 0 <= k < |cs| && cs[k].state != Idle && cs[k].mac == m.mac && m.serverId in {0, server}
      ensures Handle(cs, m, server).reply == Ack(cs[k].ip, m.mac)
    {
      LastExact(cs, m.mac, k);
    }
  }

  /** A REQUEST for an address another client uses costs the sender the entry it had. */
  lemma RequestDenied(cs: seq<Client>, m: Msg, server: nat, k: nat, j: nat)
    requires Inv(cs) && m.kind == REQUEST && k < |cs| && j < |cs|
    requires cs[k].state != Idle && cs[k].mac == m.mac
    requires cs[j].state != Idle && cs[j].mac != m.mac && cs[j].ip == m.reqIp
    ensures var s := Handle(cs, m, server);
            && s.reply == Nak(m.mac) && |s.cs| == |cs| && s.cs[k].state == Idle
            && forall i :: 0 <= i < |cs| && i != k ==> s.cs[i] == cs[i]
  {
    LastExact(cs, m.mac, k);
    FirstIsFirst(cs, Taken(m.reqIp, m.mac), j);
  }

  /** A tick: the last one of an offer or a lease, or the station's absence, frees the entry; an
      offer's is wiped, a lease's remembers the client. */
  lemma TickFrees(cs: seq<Client>, present: set<nat>, k: nat)
    requires k < |cs|
    ensures var c, r := cs[k], TickAll(cs, present)[k];
            && r.ip == c.ip && (c.state in {Idle, Select} ==> r == c)
            && (c.state == Request && c.timeout == 1 ==> r.state == Idle && r.mac == 0)
            && (c.state == Request && c.timeout > 1 ==> r == c.(timeout := c.timeout - 1))
            && (c.state == Bind && (c.lease == 1 || c.mac !in present) ==> r.state == Idle && r.mac == c.mac)
            && (c.state == Bind && c.lease > 1 && c.mac in present ==> r == c.(lease := c.lease - 1))
  {
  }

  /** Deleting a client frees its entry if it is bound, and does nothing else. */
  lemma DeleteFrees(cs: seq<Client>, mac: nat, k: nat)
    requires Inv(cs) && k < |cs| && cs[k].state != Idle && cs[k].mac == mac
    ensures Deleted(cs, mac) == if cs[k].state == Bind then cs[k := cs[k].(state := Idle)] else cs
  {
    FirstExact(cs, Active(mac), k);
  }

  // Whole runs.

  datatype Event = Message(m: Msg) | Tick(present: set<nat>) | Delete(mac: nat)

  ghost function Step(cs: seq<Client>, e: Event, server: nat): seq<Client> {
    match e
    case Message(m) => Handle(cs, m, server).cs
    case Tick(present) => TickAll(cs, present)
    case Delete(mac) => Deleted(cs, mac)
  }

  ghost function Run(cs: seq<Client>, events: seq<Event>, server: nat): seq<Client>
    decreases |events|
  {
    if events == [] then cs else Run(Step(cs, events[0], server), events[1..], server)
  }

  lemma TickKeeps(cs: seq<Client>, present: set<nat>)
    requires Inv(cs)
    ensures Inv(TickAll(cs, present)) && SameAddresses(cs, TickAll(cs, present))
  {
    var r := TickAll(cs, present);
    forall i | 0 <= i < |cs| ensures r[i].state.Idle? || (r[i].mac == cs[i].mac && !cs[i].state.Idle?) {
    }
  }

  lemma StepKeeps(cs: seq<Client>, e: Event, server: nat)
    requires Inv(cs)
    ensures Inv(Step(cs, e, server)) && SameAddresses(cs, Step(cs, e, server))
  {
    match e
    case Message(m) => HandleKeeps(cs, m, server);
    case Tick(present) => TickKeeps(cs, present);
    case Delete(mac) =>
  }

  /** In every reachable table no two entries in use belong to the same client, and the
      addresses are the ones handed out at start. */
  lemma {:induction false} RunKeeps(cs: seq<Client>, events: seq<Event>, server: nat)
    requires Inv(cs)
    ensures Inv(Run(cs, events, server)) && SameAddresses(cs, Run(cs, events, server))
    decreases |events|
  {
    if events != [] {
      StepKeeps(cs, events[0], server);
      RunKeeps(Step(cs, events[0], server), events[1..], server);
    }
  }

  ghost function Ticks(events: seq<Event>): nat
    decreases |events|
  {
    if events == [] then 0 else (if events[0].Tick? then 1 else 0) + Ticks(events[1..])
  }

  /** An offer nobody claims is idle again once as many ticks have passed as its timeout, at
      most ten, whatever other clients do meanwhile. */
  lemma {:induction false} OfferExpires(cs: seq<Client>, k: nat, events: seq<Event>, server: nat) returns (n: nat)
    requires Inv(cs) && k < |cs| && cs[k].state.Request?
    requires forall i :: 0 <= i < |events| && events[i].Message? ==> events[i].m.mac != cs[k].mac
    requires Ticks(events) >= cs[k].timeout
    ensures n <= |events| && Ticks(events[..n]) <= cs[k].timeout <= OFFER_TICKS
    ensures var r := Run(cs, events[..n], server); k < |r| && r[k].state.Idle?
    decreases |events|
  {
    var cs' := Step(cs, events[0], server);
    StepKeeps(cs, events[0], server);
    if events[0].Message? {
      HandleKeeps(cs, events[0].m, server);
    }
    if cs'[k].state.Idle? {
      n := 1;
      assert events[..1][1..] == [] && Run(cs', [], server) == cs';
    } else {
      var n' := OfferExpires(cs', k, events[1..], server);
      n := n' + 1;
      assert events[..n][1..] == events[1..][..n'];
    }
  }

  /** A lease that is not renewed is idle again after as many ticks as it had left, at most. */
  lemma {:induction false} LeaseExpires(cs: seq<Client>, k: nat, events: seq<Event>, server: nat) returns (n: nat)
    requires Inv(cs) && k < |cs| && cs[k].state.Bind? && cs[k].lease > 0
    requires forall i :: 0 <= i < |events| && events[i].Message? ==> events[i].m.mac != cs[k].mac
    requires Ticks(events) >= cs[k].lease
    ensures n <= |events| && Ticks(events[..n]) <= cs[k].lease
    ensures var r := Run(cs, events[..n], server); k < |r| && r[k].state.Idle?
    decreases |events|
  {
    var cs' := Step(cs, events[0], server);
    StepKeeps(cs, events[0], server);
    if events[0].Message? {
      HandleKeeps(cs, events[0].m, server);
    }
    if cs'[k].state.Idle? {
      n := 1;
      assert events[..1][1..] == [] && Run(cs', [], server) == cs';
    } else {
      var n' := LeaseExpires(cs', k, events[1..], server);
      n := n' + 1;
      assert events[..n][1..] == events[1..][..n'];
    }
  }

  // The addresses handed out at start.

  /** Host part `i` places after `first`, skipping 0, in a subnet with `n` = ~Mask. */
  function HostAfter(first: nat, i: nat, n: nat): nat
    requires n > 0
  {
    if (first + i) % n != 0 then (first + i) % n else 1
  }

  /** Host part of the first pool address: the one after the server's own. */
  function FirstHost(server: nat, n: nat): nat
    requires n > 0
  {
    HostAfter(server, 1, n)
  }

  lemma ModOf(a: nat, n: nat)
    requires 0 < n && a < 2 * n
    ensures a % n == if a < n then a else a - n
  {
    if a >= n {
      assert a == n + (a - n);
    }
  }

  /** Pool host parts are never the network, broadcast or server address. */
  lemma PoolHostsLegal(server: nat, n: nat, i: nat)
    requires 15 <= n && 1 <= server < n && i < CLIENTS
    ensures var h := HostAfter(FirstHost(server, n), i, n); 1 <= h < n && h != server
  {
    ModOf(server + 1, n);
    ModOf(FirstHost(server, n) + i, n);
  }

  /** The pool follows the server's own address. */
  lemma PoolFollowsServer(server: nat, n: nat, i: nat)
    requires 15 <= n && 1 <= server && server + 1 + i < n
    ensures HostAfter(FirstHost(server, n), i, n) == server + 1 + i
  {
    ModOf(server + 1, n);
    ModOf(server + 1 + i, n);
  }

  /** The eight addresses differ exactly when the pool does not reach the wrap-around. */
  lemma PoolDistinct(first: nat, n: nat)
    requires 15 <= n && 1 <= first < n
    ensures (forall i, j :: 0 <= i < j < CLIENTS ==> HostAfter(first, i, n) != HostAfter(first, j, n))
            <==> first + 7 <= n
  {
    forall i: nat | i < CLIENTS ensures HostAfter(first, i, n) == (
      if first + i < n then first + i else if first + i == n then 1 else first + i - n)
    {
      ModOf(first + i, n);
    }
    if first + 7 > n {
      assert HostAfter(first, n - first, n) == HostAfter(first, n - first + 1, n);
    }
  }

  // The server as the code keeps it.

  const ERR_SUCCESS: int := 0
  const ERR_NOT_BIND: int := -4
  const ERR_NOT_FOUND: int := -5
  const ERR_INACTIVE: int := -6

  /** What one pass over the table finds. */
  datatype Scan = Scanned(mine: int, req: int, blank: int, any: int, my: int, taken: bool)

  ghost function ScanOf(cs: seq<Client>, mac: nat, ip: nat): Scan {
    Scanned(First(cs, HistoryOf(mac)), First(cs, Holding(ip)), First(cs, Blank), First(cs, AnyHistory),
            Last(cs, Active(mac)), First(cs, Taken(ip, mac)) >= 0)
  }

  lemma FirstSnoc(cs: seq<Client>, c: Client, w: Want)
    ensures First(cs + [c], w) == if First(cs, w) == -1 && Matches(c, w) then |cs| else First(cs, w)
    ensures First(cs + [c], w) >= 0 <==> First(cs, w) >= 0 || Matches(c, w)
    ensures Last(cs + [c], w) == if Matches(c, w) then |cs| else Last(cs, w)
  {
    assert (cs + [c])[..|cs|] == cs;
  }

  /** What entry `i` adds to the findings. */
  ghost function Noted(r: Scan, c: Client, i: nat, mac: nat, ip: nat): Scan {
    Scanned(if r.mine == -1 && Matches(c, HistoryOf(mac)) then i else r.mine,
            if r.req == -1 && Matches(c, Holding(ip)) then i else r.req,
            if r.blank == -1 && Matches(c, Blank) then i else r.blank,
            if r.any == -1 && Matches(c, AnyHistory) then i else r.any,
            if Matches(c, Active(mac)) then i else r.my,
            r.taken || Matches(c, Taken(ip, mac)))
  }

  lemma ScanExtends(cs: seq<Client>, c: Client, mac: nat, ip: nat)
    ensures ScanOf(cs + [c], mac, ip) == Noted(ScanOf(cs, mac, ip), c, |cs|, mac, ip)
  {
    FirstSnoc(cs, c, HistoryOf(mac));
    FirstSnoc(cs, c, Holding(ip));
    FirstSnoc(cs, c, Blank);
    FirstSnoc(cs, c, AnyHistory);
    FirstSnoc(cs, c, Active(mac));
    FirstSnoc(cs, c, Taken(ip, mac));
  }

  /** The loop body of the scan. */
  method Note(s: Scan, c: Client, i: nat, mac: nat, ip: nat) returns (r: Scan)
    ensures r == Noted(s, c, i, mac, ip)
  {
    r := s;
    if c.state == Idle {
      if r.mine == -1 && c.mac == mac { r := r.(mine := i); }
      if r.req == -1 && c.ip == ip { r := r.(req := i); }
      if r.blank == -1 && c.mac == 0 { r := r.(blank := i); }
      if r.any == -1 && c.mac != 0 { r := r.(any := i); }
    } else if c.mac == mac {
      r := r.(my := i);
    } else if c.ip == ip {
      r := r.(taken := true);
    }
  }

  class Server {
    const clients: array<Client>
    const server: nat
    var enable: bool

    ghost predicate Valid()
      reads this, clients
    {
      clients.Length == CLIENTS && Inv(clients[..])
    }

    /** DHCPS_Start on network `net`, host part `host`, with `n` = ~Mask. */
    constructor (net: nat, host: nat, n: nat)
      requires 0 < n
      ensures Valid() && fresh(clients) && enable && server == net + host
      ensures forall i :: 0 <= i < CLIENTS ==>
                clients[i] == Client(Idle, 0, net + HostAfter(FirstHost(host, n), i, n), 0, LEASE)
    {
      server := net + host;
      enable := true;
      var first := FirstHost(host, n);
      var table := new Client[CLIENTS](_ => Client(Idle, 0, 0, 0, 0));
      for i := 0 to CLIENTS
        invariant forall j :: 0 <= j < i ==> table[j] == Client(Idle, 0, net + HostAfter(first, j, n), 0, LEASE)
      {
        table[i] := Client(Idle, 0, net + HostAfter(first, i, n), 0, LEASE);
      }
      clients := table;
    }

    /** The scan loop of _ClientTableLookup. */
    method ScanTable(mac: nat, ip: nat) returns (r: Scan)
      ensures r == ScanOf(clients[..], mac, ip)
    {
      r := Scanned(-1, -1, -1, -1, -1, false);
      for i := 0 to clients.Length
        invariant r == ScanOf(clients[..i], mac, ip)
      {
        assert clients[..i + 1] == clients[..i] + [clients[i]];
        ScanExtends(clients[..i], clients[i], mac, ip);
        r := Note(r, clients[i], i, mac, ip);
      }
      assert clients[..clients.Length] == clients[..];
    }

    /** An entry the client gives up. */
    method Drop(k: nat)
      requires k < clients.Length
      modifies clients
      ensures clients[..] == old(clients[..])[k := Dropped(old(clients[k]))]
    {
      if clients[k].state != Bind {
        clients[k] := clients[k].(mac := 0);
      }
      clients[k] := clients[k].(state := Idle);
    }

    /** The switch of _ClientTableLookup. */
    method Choose(m: Msg) returns (entry: int)
      modifies clients
      ensures Found(clients[..], entry) == Chosen(old(clients[..]), m, server)
    {
      var r := ScanTable(m.mac, m.reqIp);
      var my, req, taken := r.my, r.req, r.taken;
      var forMe := m.serverId == 0 || m.serverId == server;
      entry := -1;
      if m.kind == DISCOVER {
        if my >= 0 {
          clients[my] := clients[my].(state := Idle);
          if req >= 0 {
            if clients[my].state != Bind {
              clients[my] := clients[my].(mac := 0);
            }
            entry := req;
          } else {
            entry := my;
          }
        } else {
          entry := if req >= 0 then req else if r.mine >= 0 then r.mine else if r.blank >= 0 then r.blank else r.any;
        }
      } else if m.kind == REQUEST {
        if my >= 0 && (taken || req >= 0) {
          Drop(my);
          entry := if !taken && forMe then req else -1;
        } else if !taken && forMe {
          entry := if my >= 0 then my else req;
        }
      } else if m.kind == RELEASE || m.kind == DECLINE {
        if my >= 0 {
          Drop(my);
        }
      }
    }

    method ClientTableLookup(m: Msg) returns (entry: int)
      modifies clients
      ensures Found(clients[..], entry) == Lookup(old(clients[..]), m, server)
    {
      entry := Choose(m);
      if entry >= 0 {
        clients[entry] := clients[entry].(mac := m.mac);
      }
    }

    /** _CleanClientHistory */
    method CleanHistory(mac: nat)
      modifies clients
      ensures clients[..] == Clean(old(clients[..]), mac)
    {
      ghost var before := clients[..];
      for i := 0 to clients.Length
        invariant forall j :: 0 <= j < i ==> clients[j] == Clean(before, mac)[j]
        invariant forall j :: i <= j < clients.Length ==> clients[j] == before[j]
      {
        if clients[i].state == Idle && clients[i].mac == mac {
          clients[i] := clients[i].(mac := 0);
        }
      }
    }

    /** _DhcpClientSMEHandle, with the fall-through from IDLE into SELECT. */
    method SmeHandle(k: nat, kind: nat) returns (reply: Reply)
      requires k < clients.Length
      modifies clients
      ensures Served(clients[..], reply) == Advance(old(clients[..]), k, kind)
    {
      var state := clients[k].state;
      if state == Idle {
        if kind == DISCOVER {
          clients[k] := clients[k].(state := Select);
        }
      }
      if (state == Idle && kind != REQUEST) || state == Select {
        reply := Offer(clients[k].ip, clients[k].mac);
        clients[k] := clients[k].(timeout := OFFER_TICKS, state := Request);
      } else {
        reply := Ack(clients[k].ip, clients[k].mac);
        clients[k] := clients[k].(lease := LEASE, state := Bind);
        CleanHistory(clients[k].mac);
      }
    }

    /** DHCPS_RecvCb on a message that passed the header checks. */
    method RecvCb(m: Msg) returns (reply: Reply)
      requires Valid()
      modifies clients
      ensures Valid() && Served(clients[..], reply) == Handle(old(clients[..]), m, server)
    {
      HandleKeeps(clients[..], m, server);
      var entry := ClientTableLookup(m);
      if entry < 0 {
        reply := if m.kind != RELEASE && m.kind != DECLINE then Nak(m.mac) else Silent;
      } else {
        reply := SmeHandle(entry, m.kind);
      }
    }

    /** _DhcpTickHandle; `present` are the stations still associated. */
    method TickHandle(present: set<nat>)
      requires Valid()
      modifies clients
      ensures Valid() && clients[..] == if enable then TickAll(old(clients[..]), present) else old(clients[..])
    {
      if !enable {
        return;
      }
      ghost var before := clients[..];
      TickKeeps(before, present);
      for i := 0 to clients.Length
        invariant forall j :: 0 <= j < i ==> clients[j] == TickAll(before, present)[j]
        invariant forall j :: i <= j < clients.Length ==> clients[j] == before[j]
      {
        var c := clients[i];
        if c.state == Request {
          if c.timeout > 0 {
            clients[i] := c.(timeout := c.timeout - 1);
            if clients[i].timeout == 0 {
              clients[i] := clients[i].(mac := 0, state := Idle);
            }
          }
        } else if c.state == Bind {
          var left := if c.lease > 0 then c.lease - 1 else 0;
          clients[i] := c.(lease := left);
          if (c.lease > 0 && left == 0) || c.mac !in present {
            clients[i] := clients[i].(state := Idle);
          }
        }
      }
      assert clients[..] == TickAll(before, present);
    }

    /** DHCPS_ClientDelete */
    method ClientDelete(mac: nat) returns (err: int)
      requires Valid()
      modifies clients
      ensures Valid() && clients[..] == if enable then Deleted(old(clients[..]), mac) else old(clients[..])
      ensures err == if !enable then ERR_INACTIVE
                     else if First(old(clients[..]), Active(mac)) < 0 then ERR_NOT_FOUND
                     else if old(clients[..])[First(old(clients[..]), Active(mac))].state == Bind then ERR_SUCCESS
                     else ERR_NOT_BIND
    {
      if !enable {
        return ERR_INACTIVE;
      }
      StepKeeps(clients[..], Delete(mac), server);
      for i := 0 to clients.Length
        invariant First(clients[..i], Active(mac)) < 0
        invariant clients[..] == old(clients[..])
      {
        assert clients[..i + 1][..i] == clients[..i];
        if clients[i].state != Idle && clients[i].mac == mac {
          FirstExtends(clients[..i + 1], clients[..], Active(mac));
          if clients[i].state != Bind {
            return ERR_NOT_BIND;
          }
          clients[i] := clients[i].(state := Idle);
          return ERR_SUCCESS;
        }
      }
      assert clients[..clients.Length] == clients[..];
      return ERR_NOT_FOUND;
    }
  }

  lemma FirstExtends(prefix: seq<Client>, cs: seq<Client>, w: Want)
    requires prefix <= cs && First(prefix, w) >= 0
    ensures First(cs, w) == First(prefix, w)
  {
    FirstIsFirst(cs, w, First(prefix, w));
    FirstIsFirst(prefix, w, First(cs, w));
  }
}
