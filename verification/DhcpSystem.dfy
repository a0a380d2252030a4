/** One DHCP server, any number of clients, and a network that may lose, repeat and reorder messages. */
module DhcpSystems {
  import opened Options
  import opened DhcpMessages
  import S = DhcpServers
  import C = DhcpClients

  /** The network holds every message ever sent: whoever receives one receives any of these, any number of times or
      never. asked tells which client has used a transaction id; a client draws one that has not been used. */
  datatype System = System(table: S.Table, clients: seq<C.Client>, net: set<Message>, asked: map<nat, nat>)

  datatype Event =
    | ServerReceives(m: Message)
    | ClientReceives(i: nat, m: Message, now: real, newXid: nat)
    | TimerExpires(i: nat, timer: C.Timer, newXid: nat)
    | Associates(i: nat, now: real, newXid: nat)
    | Restarts(i: nat, start: real)

  datatype Outcome = Running(s: System) | Aborted(error: C.Error)

  ghost predicate Initial(s: System) {
    s.table == map[] && s.net == {} && s.asked == map[] &&
    (forall i :: 0 <= i < |s.clients| ==> exists start: real :: s.clients[i] == C.Started(s.clients[i].mac, start)) &&
    forall i, j :: 0 <= i < j < |s.clients| ==> s.clients[i].mac != s.clients[j].mac
  }

  ghost predicate Enabled(s: System, e: Event) {
    match e
    case ServerReceives(m) => m in s.net
    case ClientReceives(i, m, now, newXid) => i < |s.clients| && m in s.net && s.clients[i].startTimer.None? &&
      newXid !in s.asked
    case TimerExpires(i, timer, newXid) => i < |s.clients| && C.Next(s.clients[i], timer) && newXid !in s.asked
    case Associates(i, now, newXid) => i < |s.clients| && s.clients[i].startTimer.None? && newXid !in s.asked
    case Restarts(i, start) => i < |s.clients|
  }

  function Sent(out: Option<Message>): set<Message> { if out.Some? then {out.value} else {} }

  function ClientDoes(s: System, i: nat, step: C.Step, newXid: nat): Outcome
    requires i < |s.clients|
  {
    match step
    case Fault(e) => Aborted(e)
    case Done(c, out) =>
      var asked := if out.Some? then s.asked[newXid := c.mac] else s.asked;
      Running(System(s.table, s.clients[i := c], s.net + Sent(out), asked))
  }

  ghost function After(cfg: S.Config, s: System, e: Event): Outcome
    requires cfg.hostSize > 0 && Enabled(s, e)
  {
    match e
    case ServerReceives(m) =>
      var (t, reply) := S.Process(cfg, s.table, cfg.interfaceId, m);
      Running(s.(table := t, net := s.net + Sent(reply)))
    case ClientReceives(i, m, now, newXid) => ClientDoes(s, i, C.HandleMessage(s.clients[i], m, now, newXid), newXid)
    case TimerExpires(i, timer, newXid) =>
      ClientDoes(s, i, C.HandleTimer(s.clients[i], timer, C.AlarmOf(s.clients[i], timer).value.at, newXid), newXid)
    case Associates(i, now, newXid) => ClientDoes(s, i, C.Associated(s.clients[i], now, newXid), newXid)
    case Restarts(i, start) => Running(s.(clients := s.clients[i := C.Restarted(s.clients[i], start)]))
  }

  /** The run leads from the first state through the events to the outcome. */
  ghost predicate Run(cfg: S.Config, s: System, events: seq<Event>, end: Outcome)
    requires cfg.hostSize > 0
    decreases |events|
  {
    if events == [] then end == Running(s)
    else
      Enabled(s, events[0]) &&
      match After(cfg, s, events[0])
      case Aborted(e) => end == Aborted(e) && |events| == 1
      case Running(t) => Run(cfg, t, events[1..], end)
  }

  // ----- What every event keeps -----------------------------------------------------------

  predicate Owns(t: S.Table, ip: nat, mac: nat) { ip in t && t[ip].mac == mac }

  predicate AskedBy(s: System, xid: nat, mac: nat) { xid in s.asked && s.asked[xid] == mac }

  /** The timers of a client that is bound or renews are as far from each other as the server's lease time wants it; a
      renewing client began to wait when T1 went off. */
  predicate Spaced(cfg: S.Config, c: C.Client) {
    var l := cfg.leaseTime as real;
    c.startTimer.None? ==>
      (c.state == C.BOUND && C.NoneBut(c, false, true, true, true) ==>
        c.t2.value.at == c.t1.value.at + l * 0.375 && c.leaseTimer.value.at == c.t1.value.at + l * 0.5 &&
        c.t1.value.order < c.scheduled && c.t2.value.order < c.scheduled && c.leaseTimer.value.order < c.scheduled) &&
      (c.state == C.RENEWING && C.NoneBut(c, true, false, true, true) ==>
        c.t2.value.at == c.wait.value.at - C.RESPONSE_TIMEOUT + l * 0.375 &&
        c.leaseTimer.value.at == c.t2.value.at + l * 0.125 && c.t2.value.order < c.wait.value.order)
  }

  predicate ClientOk(cfg: S.Config, s: System, c: C.Client) {
    C.Timely(c) && C.Holding(c) && Spaced(cfg, c) &&
    (c.lease.Some? ==> Owns(s.table, c.lease.value.ip, c.mac)) &&
    (c.address != UNSPECIFIED ==> Owns(s.table, c.address, c.mac)) &&
    (c.startTimer.None? ==> AskedBy(s, c.xid, c.mac))
  }

  predicate MessageOk(cfg: S.Config, s: System, m: Message) {
    (m.op == BOOTREQUEST ==> AskedBy(s, m.xid, m.chaddr) && (m.kind == DISCOVER ==> m.requestedIp == UNSPECIFIED)) &&
    (m.op == BOOTREPLY && m.kind == OFFER ==>
      AskedBy(s, m.xid, m.chaddr) && m.yiaddr != UNSPECIFIED && Owns(s.table, m.yiaddr, m.chaddr)) &&
    (m.kind == ACK ==> m.op == BOOTREPLY && m.yiaddr != UNSPECIFIED && S.GrantsLeaseTime(cfg, m))
  }

  ghost predicate Inv(cfg: S.Config, s: System) {
    S.TableOk(cfg, s.table) &&
    (forall i :: 0 <= i < |s.clients| ==> ClientOk(cfg, s, s.clients[i])) &&
    (forall i, j :: 0 <= i < j < |s.clients| ==> s.clients[i].mac != s.clients[j].mac) &&
    forall m :: m in s.net ==> MessageOk(cfg, s, m)
  }

  /** What a client has just done fits what it was told: it sends under the new transaction id only. */
  predicate FitsClient(cfg: S.Config, s: System, c: C.Client, step: C.Step, newXid: nat) {
    step.Done? && step.c.mac == c.mac && C.Timely(step.c) && C.Holding(step.c) && Spaced(cfg, step.c) &&
    (step.c.lease.Some? ==> Owns(s.table, step.c.lease.value.ip, c.mac)) &&
    (step.c.address != UNSPECIFIED ==> Owns(s.table, step.c.address, c.mac)) &&
    match step.out
    case None => step.c.xid == c.xid && (c.startTimer.Some? ==> step.c.startTimer.Some?)
    case Some(m) =>
      step.c.xid == newXid == m.xid && m.chaddr == c.mac && m.op == BOOTREQUEST && m.kind in {DISCOVER, REQUEST} &&
      (m.kind == DISCOVER ==> m.requestedIp == UNSPECIFIED)
  }

  lemma MessageFits(cfg: S.Config, s: System, c: C.Client, m: Message, now: real, newXid: nat)
    requires ClientOk(cfg, s, c) && MessageOk(cfg, s, m) && c.startTimer.None?
    ensures FitsClient(cfg, s, c, C.HandleMessage(c, m, now, newXid), newXid)
  {
    hide C.HandleMessage, C.Timely;
    C.MessageIsHandled(c, m, now, newXid);
    C.MessageFaults(c, m, now, newXid);
    C.MessageLeads(c, m, now, newXid);
  }

  lemma TimerFits(cfg: S.Config, s: System, c: C.Client, timer: C.Timer, newXid: nat)
    requires ClientOk(cfg, s, c) && C.Next(c, timer)
    ensures FitsClient(cfg, s, c, C.HandleTimer(c, timer, C.AlarmOf(c, timer).value.at, newXid), newXid)
  {
    var now := C.AlarmOf(c, timer).value.at;
    C.TimerIsHandled(c, timer, now, newXid);
    C.TimerLeads(c, timer, now, newXid);
    C.TimerInState(c, timer);
    hide C.HandleTimer, C.Timely, C.Next;
  }

  lemma AssociatedFits(cfg: S.Config, s: System, c: C.Client, now: real, newXid: nat)
    requires ClientOk(cfg, s, c) && c.startTimer.None?
    ensures FitsClient(cfg, s, c, C.Associated(c, now, newXid), newXid)
  {
    C.AssociatedIsTimely(c, now, newXid);
  }

  lemma ClientKeeps(cfg: S.Config, s: System, i: nat, step: C.Step, newXid: nat)
    requires Inv(cfg, s) && i < |s.clients| && newXid !in s.asked && FitsClient(cfg, s, s.clients[i], step, newXid)
    ensures var o := ClientDoes(s, i, step, newXid); o.Running? && Inv(cfg, o.s)
  {
    hide C.Timely, C.Holding;
    var t := ClientDoes(s, i, step, newXid).s;
    assert forall xid, mac :: AskedBy(s, xid, mac) ==> AskedBy(t, xid, mac);
    forall j | 0 <= j < |t.clients| ensures ClientOk(cfg, t, t.clients[j]) {
      assert ClientOk(cfg, s, s.clients[j]);
    }
    forall m | m in t.net ensures MessageOk(cfg, t, m) {
      if m in s.net {
        assert MessageOk(cfg, s, m);
      }
    }
  }

  lemma ReplyFits(cfg: S.Config, s: System, m: Message)
    requires Inv(cfg, s) && S.Configured(cfg) && m in s.net
    ensures var (t, reply) := S.Process(cfg, s.table, cfg.interfaceId, m);
      S.TableOk(cfg, t) && S.OwnersKept(s.table, t) && (reply.Some? ==> MessageOk(cfg, s.(table := t), reply.value))
  {
    assert MessageOk(cfg, s, m);
    S.ProcessKeeps(cfg, s.table, cfg.interfaceId, m);
    if m.op == BOOTREQUEST && m.kind == DISCOVER {
      S.DiscoverKeeps(cfg, s.table, m);
    }
  }

  lemma ServerKeeps(cfg: S.Config, s: System, m: Message)
    requires Inv(cfg, s) && S.Configured(cfg) && m in s.net
    ensures var o := After(cfg, s, ServerReceives(m)); o.Running? && Inv(cfg, o.s)
  {
    hide S.Process;
    hide C.Timely, C.Holding;
    ReplyFits(cfg, s, m);
    var t := After(cfg, s, ServerReceives(m)).s;
    forall j | 0 <= j < |t.clients| ensures ClientOk(cfg, t, t.clients[j]) {
      assert ClientOk(cfg, s, s.clients[j]);
    }
    forall k | k in t.net ensures MessageOk(cfg, t, k) {
      if k in s.net {
        assert MessageOk(cfg, s, k);
      }
    }
  }

  lemma EventKeeps(cfg: S.Config, s: System, e: Event)
    requires Inv(cfg, s) && S.Configured(cfg) && Enabled(s, e)
    ensures After(cfg, s, e).Running? && Inv(cfg, After(cfg, s, e).s)
  {
    match e
    case ServerReceives(m) => ServerKeeps(cfg, s, m);
    case ClientReceives(i, m, now, newXid) =>
      assert MessageOk(cfg, s, m) && ClientOk(cfg, s, s.clients[i]);
      MessageFits(cfg, s, s.clients[i], m, now, newXid);
      ClientKeeps(cfg, s, i, C.HandleMessage(s.clients[i], m, now, newXid), newXid);
    case TimerExpires(i, timer, newXid) =>
      var c := s.clients[i];
      assert ClientOk(cfg, s, c);
      TimerFits(cfg, s, c, timer, newXid);
      ClientKeeps(cfg, s, i, C.HandleTimer(c, timer, C.AlarmOf(c, timer).value.at, newXid), newXid);
    case Associates(i, now, newXid) =>
      assert ClientOk(cfg, s, s.clients[i]);
      AssociatedFits(cfg, s, s.clients[i], now, newXid);
      ClientKeeps(cfg, s, i, C.Associated(s.clients[i], now, newXid), newXid);
    case Restarts(i, start) =>
      RestartKeeps(cfg, s, i, start);
  }

  lemma RestartKeeps(cfg: S.Config, s: System, i: nat, start: real)
    requires Inv(cfg, s) && i < |s.clients|
    ensures Inv(cfg, s.(clients := s.clients[i := C.Restarted(s.clients[i], start)]))
  {
    var t := s.(clients := s.clients[i := C.Restarted(s.clients[i], start)]);
    assert ClientOk(cfg, s, s.clients[i]);
    C.RestartedIsTimely(s.clients[i], start);
    forall j | 0 <= j < |t.clients| ensures ClientOk(cfg, t, t.clients[j]) {
      assert ClientOk(cfg, s, s.clients[j]);
    }
    forall m | m in t.net ensures MessageOk(cfg, t, m) {
      assert MessageOk(cfg, s, m);
    }
  }

  lemma InitialHolds(cfg: S.Config, s: System)
    requires Initial(s)
    ensures Inv(cfg, s)
  {
    forall i | 0 <= i < |s.clients| ensures ClientOk(cfg, s, s.clients[i]) {
      var start: real :| s.clients[i] == C.Started(s.clients[i].mac, start);
      C.StartedIsTimely(s.clients[i].mac, start);
    }
  }

  lemma {:induction false} RunKeeps(cfg: S.Config, s: System, events: seq<Event>, end: Outcome)
    requires Inv(cfg, s) && S.Configured(cfg) && Run(cfg, s, events, end)
    ensures end.Running? && Inv(cfg, end.s)
    decreases |events|
  {
    if events != [] {
      EventKeeps(cfg, s, events[0]);
      RunKeeps(cfg, After(cfg, s, events[0]).s, events[1..], end);
    }
  }

  // ----- What follows for every run ------------------------------------------------------------

  /** A client that is bound, renewing or rebinding. */
  predicate Bound(c: C.Client) { c.startTimer.None? && c.state in {C.BOUND, C.RENEWING, C.REBINDING} }

  /** A client that has just been bound has the address of its lease; T1 goes off after a half of the server's lease
      time, T2 after seven eighths, and the lease timer at its end, and no other timer is pending. */
  predicate JustBound(cfg: S.Config, c: C.Client, now: real) {
    var l := cfg.leaseTime as real;
    c.startTimer.None? && c.state == C.BOUND && c.lease.Some? && c.address == c.lease.value.ip &&
    C.NoneBut(c, false, true, true, true) && C.RunsAt(c.t1, now + l * 0.5) && C.RunsAt(c.t2, now + l * 0.875) &&
    C.RunsAt(c.leaseTimer, now + l)
  }

  /** No run ends in an error; at its end no two clients have the same address on their interfaces, and in particular
      no two hold the same lease. */
  lemma AddressesAreUnique(cfg: S.Config, s: System, events: seq<Event>, end: Outcome, i: nat, j: nat)
    requires S.Configured(cfg) && Initial(s) && Run(cfg, s, events, end)
    ensures end.Running? && |end.s.clients| == |s.clients|
    ensures i < j < |s.clients| && end.s.clients[i].address != UNSPECIFIED ==>
      end.s.clients[i].address != end.s.clients[j].address
    ensures i < j < |s.clients| && Bound(end.s.clients[i]) && Bound(end.s.clients[j]) ==>
      end.s.clients[i].lease.Some? && end.s.clients[j].lease.Some? &&
        end.s.clients[i].lease.value.ip != end.s.clients[j].lease.value.ip
  {
    InitialHolds(cfg, s);
    RunKeeps(cfg, s, events, end);
    SameClients(cfg, s, events, end);
    if i < j < |s.clients| {
      assert ClientOk(cfg, end.s, end.s.clients[i]) && ClientOk(cfg, end.s, end.s.clients[j]);
    }
  }

  /** In every run the acknowledgement that binds a client grants it the server's lease time from its delivery on. */
  lemma LeaseTimeIsGranted(cfg: S.Config, s: System, events: seq<Event>, end: Outcome, i: nat, m: Message, now: real,
                           newXid: nat)
    requires S.Configured(cfg) && Initial(s) && Run(cfg, s, events, end) && end.Running?
    requires var e := ClientReceives(i, m, now, newXid); Enabled(end.s, e)
    ensures var o := After(cfg, end.s, ClientReceives(i, m, now, newXid));
      o.Running? && i < |o.s.clients| &&
      (end.s.clients[i].state != C.BOUND && o.s.clients[i].state == C.BOUND ==> JustBound(cfg, o.s.clients[i], now))
  {
    InitialHolds(cfg, s);
    RunKeeps(cfg, s, events, end);
    EventKeeps(cfg, end.s, ClientReceives(i, m, now, newXid));
    BindingGrants(cfg, end.s, i, m, now, newXid);
  }

  lemma BindingGrants(cfg: S.Config, s: System, i: nat, m: Message, now: real, newXid: nat)
    requires Inv(cfg, s) && i < |s.clients| && m in s.net && s.clients[i].startTimer.None?
    ensures var step := C.HandleMessage(s.clients[i], m, now, newXid);
      step.Done? && (s.clients[i].state != C.BOUND && step.c.state == C.BOUND ==> JustBound(cfg, step.c, now))
  {
    var c := s.clients[i];
    assert ClientOk(cfg, s, c) && MessageOk(cfg, s, m);
    hide C.HandleMessage;
    C.MessageLeads(c, m, now, newXid);
  }

  /** In every run a renewing client gets as far as rebinding only if the lease time is not longer than 160 seconds;
      otherwise the wait for an answer ends before, and the client starts over. */
  lemma RenewalsTimeOut(cfg: S.Config, s: System, events: seq<Event>, end: Outcome, i: nat)
    requires S.Configured(cfg) && Initial(s) && Run(cfg, s, events, end) && end.Running? && i < |end.s.clients|
    requires end.s.clients[i].startTimer.None? && end.s.clients[i].state == C.RENEWING
    ensures C.Next(end.s.clients[i], C.TO) <==> cfg.leaseTime > 160
    ensures C.Next(end.s.clients[i], C.T2) <==> cfg.leaseTime <= 160
  {
    InitialHolds(cfg, s);
    RunKeeps(cfg, s, events, end);
    var c := end.s.clients[i];
    assert ClientOk(cfg, end.s, c);
    assert C.AlarmOf(c, C.TO) == c.wait && C.AlarmOf(c, C.T2) == c.t2;
    var l := cfg.leaseTime as real;
    assert c.wait.value.at == c.t2.value.at + 60.0 - l * 0.375;
    assert l > 160.0 <==> cfg.leaseTime > 160;
  }

  lemma {:induction false} SameClients(cfg: S.Config, s: System, events: seq<Event>, end: Outcome)
    requires cfg.hostSize > 0 && Run(cfg, s, events, end) && end.Running?
    ensures |end.s.clients| == |s.clients|
    decreases |events|
  {
    if events != [] {
      SameClients(cfg, After(cfg, s, events[0]).s, events[1..], end);
    }
  }

  // ----- And the protocol does bind -----------------------------------------------------------

  predicate Selecting(s: System, i: nat) {
    i < |s.clients| && s.clients[i].startTimer.None? && s.clients[i].state == C.SELECTING &&
    C.DiscoverMessage(s.clients[i].mac, s.clients[i].xid) in s.net
  }

  /** The server's answer to a discovery it does not ignore. */
  lemma Offered(cfg: S.Config, s: System, i: nat) returns (t: System, ip: nat)
    requires Inv(cfg, s) && S.Configured(cfg) && Selecting(s, i)
    requires S.Owned(s.table, s.clients[i].mac) != {} || !S.PoolExhausted(cfg, s.table)
    ensures After(cfg, s, ServerReceives(C.DiscoverMessage(s.clients[i].mac, s.clients[i].xid))) == Running(t)
    ensures Inv(cfg, t) && t.clients == s.clients && t.asked == s.asked && Owns(t.table, ip, s.clients[i].mac) &&
      ip != UNSPECIFIED
    ensures t.table[ip].xid == s.clients[i].xid && S.Offer(cfg, t.table[ip]) in t.net
  {
    var m := C.DiscoverMessage(s.clients[i].mac, s.clients[i].xid);
    ServerKeeps(cfg, s, m);
    S.DiscoverKeeps(cfg, s.table, m);
    t := After(cfg, s, ServerReceives(m)).s;
    ip :| ip in t.table && t.table[ip].mac == m.chaddr && t.table[ip].xid == m.xid &&
      S.OnDiscover(cfg, s.table, m).1 == Some(S.Offer(cfg, t.table[ip]));
  }

  /** The client accepts it, and asks the server for the address. */
  lemma Accepted(cfg: S.Config, s: System, i: nat, ip: nat, now: real, newXid: nat) returns (t: System)
    requires Inv(cfg, s) && S.Configured(cfg) && i < |s.clients| && s.clients[i].startTimer.None? &&
      s.clients[i].state == C.SELECTING
    requires Owns(s.table, ip, s.clients[i].mac) && ip != UNSPECIFIED && s.table[ip].xid == s.clients[i].xid &&
      S.Offer(cfg, s.table[ip]) in s.net
    requires newXid !in s.asked
    ensures Enabled(s, ClientReceives(i, S.Offer(cfg, s.table[ip]), now, newXid))
    ensures After(cfg, s, ClientReceives(i, S.Offer(cfg, s.table[ip]), now, newXid)) == Running(t)
    ensures Inv(cfg, t) && |t.clients| == |s.clients| && t.clients[i].state == C.REQUESTING &&
      t.clients[i].startTimer.None?
    ensures t.clients[i].xid == newXid && t.clients[i].mac == s.clients[i].mac && t.table == s.table &&
      t.asked.Keys == s.asked.Keys + {newXid}
    ensures C.RequestMessage(s.clients[i].mac, newXid, UNSPECIFIED, ip, cfg.address) in t.net
    ensures t.clients[i].lease.Some? && t.clients[i].lease.value.ip == ip
  {
    hide S.TableOk, MessageOk, ClientOk;
    var e := ClientReceives(i, S.Offer(cfg, s.table[ip]), now, newXid);
    assert S.Offer(cfg, s.table[ip]).yiaddr == ip by {
      TableKeys(cfg, s, ip);
    }
    EventKeeps(cfg, s, e);
    t := After(cfg, s, e).s;
  }

  lemma TableKeys(cfg: S.Config, s: System, ip: nat)
    requires Inv(cfg, s) && ip in s.table
    ensures s.table[ip].ip == ip && S.LeaseByMac(s.table, s.table[ip].mac) == Some(ip)
  {
    S.OnlyOwner(cfg, s.table, ip);
  }

  /** The server confirms it, and the client is bound. */
  lemma ConfirmedAndBound(cfg: S.Config, s: System, i: nat, ip: nat, now: real, newXid: nat)
    returns (m: Message, t: System, u: System)
    requires Inv(cfg, s) && S.Configured(cfg) && i < |s.clients| && s.clients[i].startTimer.None? &&
      s.clients[i].state == C.REQUESTING
    requires Owns(s.table, ip, s.clients[i].mac) && ip != UNSPECIFIED && newXid !in s.asked
    requires s.clients[i].lease.Some? && s.clients[i].lease.value.ip == ip
    requires C.RequestMessage(s.clients[i].mac, s.clients[i].xid, UNSPECIFIED, ip, cfg.address) in s.net
    ensures After(cfg, s, ServerReceives(C.RequestMessage(s.clients[i].mac, s.clients[i].xid, UNSPECIFIED, ip,
      cfg.address))) == Running(t)
    ensures Enabled(t, ClientReceives(i, m, now, newXid)) &&
      After(cfg, t, ClientReceives(i, m, now, newXid)) == Running(u)
    ensures i < |u.clients| && JustBound(cfg, u.clients[i], now) && u.clients[i].address == ip
  {
    hide MessageOk, ClientOk;
    var r := C.RequestMessage(s.clients[i].mac, s.clients[i].xid, UNSPECIFIED, ip, cfg.address);
    TableKeys(cfg, s, ip);
    ServerKeeps(cfg, s, r);
    t := After(cfg, s, ServerReceives(r)).s;
    m := S.Ack(cfg, t.table[ip]);
    assert m in t.net;
    EventKeeps(cfg, t, ClientReceives(i, m, now, newXid));
    BindingGrants(cfg, t, i, m, now, newXid);
    u := After(cfg, t, ClientReceives(i, m, now, newXid)).s;
  }

  /** Unless the server has no address for it, a client that has sent its discovery can be bound by four deliveries. */
  lemma FourMessagesBind(cfg: S.Config, s: System, i: nat, now: real, x: nat, y: nat)
    requires Inv(cfg, s) && S.Configured(cfg) && Selecting(s, i) && x !in s.asked && y !in s.asked && x != y
    requires S.Owned(s.table, s.clients[i].mac) != {} || !S.PoolExhausted(cfg, s.table)
    ensures exists events: seq<Event>, end: System ::
      |events| == 4 && Run(cfg, s, events, Running(end)) &&
      i < |end.clients| && JustBound(cfg, end.clients[i], now)
  {
    hide Inv, Enabled, After;
    var t, ip := Offered(cfg, s, i);
    var u := Accepted(cfg, t, i, ip, now, x);
    var ack, v, w := ConfirmedAndBound(cfg, u, i, ip, now, y);
    var e0 := ServerReceives(C.DiscoverMessage(s.clients[i].mac, s.clients[i].xid));
    var e1 := ClientReceives(i, S.Offer(cfg, t.table[ip]), now, x);
    var e2 := ServerReceives(C.RequestMessage(s.clients[i].mac, x, UNSPECIFIED, ip, cfg.address));
    var e3 := ClientReceives(i, ack, now, y);
    var end := Running(w);
    Chain(cfg, v, e3, [], w, end);
    Chain(cfg, u, e2, [e3] + [], v, end);
    Chain(cfg, t, e1, [e2] + ([e3] + []), u, end);
    Chain(cfg, s, e0, [e1] + ([e2] + ([e3] + [])), t, end);
    assert |[e0] + ([e1] + ([e2] + ([e3] + [])))| == 4;
  }

  lemma Chain(cfg: S.Config, s: System, e: Event, rest: seq<Event>, t: System, end: Outcome)
    requires cfg.hostSize > 0 && Enabled(s, e) && After(cfg, s, e) == Running(t) && Run(cfg, t, rest, end)
    ensures Run(cfg, s, [e] + rest, end)
  {
    assert ([e] + rest)[1..] == rest;
  }

  /** A client that renews, rebinds or starts again with its old lease is bound to the same address by two
      deliveries. */
  lemma TwoMessagesRenew(cfg: S.Config, s: System, i: nat, now: real, newXid: nat)
    returns (m: Message, t: System, u: System)
    requires Inv(cfg, s) && S.Configured(cfg) && i < |s.clients| && s.clients[i].startTimer.None? && newXid !in s.asked
    requires s.clients[i].state in {C.RENEWING, C.REBINDING, C.REBOOTING} && s.clients[i].lease.Some?
    requires C.CurrentRequest(s.clients[i]) in s.net
    ensures After(cfg, s, ServerReceives(C.CurrentRequest(s.clients[i]))) == Running(t)
    ensures Enabled(t, ClientReceives(i, m, now, newXid)) &&
      After(cfg, t, ClientReceives(i, m, now, newXid)) == Running(u)
    ensures i < |u.clients| && JustBound(cfg, u.clients[i], now) && u.clients[i].address == s.clients[i].lease.value.ip
  {
    var c := s.clients[i];
    var r := C.CurrentRequest(c);
    var ip := c.lease.value.ip;
    assert ClientOk(cfg, s, c);
    TableKeys(cfg, s, ip);
    assert ip != UNSPECIFIED;
    ServerKeeps(cfg, s, r);
    t := After(cfg, s, ServerReceives(r)).s;
    m := S.Ack(cfg, t.table[ip]);
    assert m in t.net;
    hide MessageOk, ClientOk;
    EventKeeps(cfg, t, ClientReceives(i, m, now, newXid));
    BindingGrants(cfg, t, i, m, now, newXid);
    u := After(cfg, t, ClientReceives(i, m, now, newXid)).s;
  }
}
