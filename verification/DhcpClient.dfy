/** The DHCP client: its states, its timers, and what it sends. */
module DhcpClients {
  import opened Options
  import opened DhcpMessages

  datatype State = IDLE | INIT | INIT_REBOOT | REBOOTING | SELECTING | REQUESTING | BOUND | RENEWING | REBINDING

  datatype Lease = Lease(ip: nat, mac: nat, serverId: nat, leaseTime: real, renewalTime: real, rebindTime: real)

  /** When a timer goes off; of two at the same time the one scheduled first does. */
  datatype Alarm = Alarm(at: real, order: nat)

  datatype Wait = WAIT_OFFER | WAIT_ACK

  datatype Timer = TO | T1 | T2 | LEASE_TIMEOUT | START_DHCP

  /** The address is the one on the client's interface; scheduled counts the timers scheduled so far. */
  datatype Client = Client(
    mac: nat, state: State, xid: nat, lease: Option<Lease>, address: nat,
    wait: Option<Alarm>, waitKind: Wait, t1: Option<Alarm>, t2: Option<Alarm>, leaseTimer: Option<Alarm>,
    startTimer: Option<Alarm>, scheduled: nat)

  datatype Error = T2InWrongState | InvalidState | NoLease

  /** Handling an event sends a message or none, unless it ends the simulation. */
  datatype Step = Done(c: Client, out: Option<Message>) | Fault(error: Error)

  const RESPONSE_TIMEOUT: real := 60.0

  // ----- What the client does, as functions ----------------------------------------------

  function Alarmed(c: Client, at: real): Option<Alarm> { Some(Alarm(at, c.scheduled)) }

  function ScheduleWait(c: Client, kind: Wait, now: real): Client {
    c.(wait := Alarmed(c, now + RESPONSE_TIMEOUT), waitKind := kind, scheduled := c.scheduled + 1)
  }

  function CancelTimers(c: Client): Client { c.(t1 := None, t2 := None, wait := None, leaseTimer := None) }

  function DiscoverMessage(mac: nat, xid: nat): Message {
    Message(BOOTREQUEST, DISCOVER, xid, UNSPECIFIED, UNSPECIFIED, mac, UNSPECIFIED, UNSPECIFIED, 0.0, 0.0, 0.0)
  }

  function RequestMessage(mac: nat, xid: nat, ciaddr: nat, requestedIp: nat, serverId: nat): Message {
    Message(BOOTREQUEST, REQUEST, xid, ciaddr, UNSPECIFIED, mac, requestedIp, serverId, 0.0, 0.0, 0.0)
  }

  function InitClient(c: Client, now: real, newXid: nat): Step {
    Done(ScheduleWait(CancelTimers(c).(xid := newXid), WAIT_OFFER, now).(state := SELECTING),
      Some(DiscoverMessage(c.mac, newXid)))
  }

  function SendRequest(c: Client, newXid: nat): Step {
    var c' := c.(xid := newXid);
    if c.state !in {INIT_REBOOT, REQUESTING, RENEWING, REBINDING} then Fault(InvalidState)
    else if c.lease.None? then Fault(NoLease)
    else
      var lease := c.lease.value;
      match c.state
      case INIT_REBOOT => Done(c', Some(RequestMessage(c.mac, newXid, UNSPECIFIED, lease.ip, UNSPECIFIED)))
      case REQUESTING => Done(c', Some(RequestMessage(c.mac, newXid, UNSPECIFIED, lease.ip, lease.serverId)))
      case _ => Done(c', Some(RequestMessage(c.mac, newXid, lease.ip, UNSPECIFIED, UNSPECIFIED)))
  }

  function UnbindLease(c: Client): Client { CancelTimers(c).(address := UNSPECIFIED) }

  function RecordOffer(c: Client, m: Message): Client {
    if m.yiaddr != UNSPECIFIED then c.(lease := Some(Lease(m.yiaddr, c.mac, m.serverId, 0.0, 0.0, 0.0))) else c
  }

  function RecordLease(lease: Lease, m: Message): Lease {
    if m.yiaddr != UNSPECIFIED then
      lease.(leaseTime := m.leaseTime, renewalTime := m.renewalTime, rebindTime := m.rebindingTime)
    else
      lease
  }

  function BindLease(c: Client, lease: Lease, now: real): Client {
    c.(address := lease.ip, leaseTimer := Alarmed(c, now + lease.leaseTime), scheduled := c.scheduled + 1)
  }

  function HandleAck(c: Client, m: Message, now: real): Step {
    if c.lease.None? then Fault(NoLease)
    else
      var lease := RecordLease(c.lease.value, m);
      var c1 := c.(lease := Some(lease), wait := None, t1 := Alarmed(c, now + lease.renewalTime),
        scheduled := c.scheduled + 1);
      var c2 := c1.(t2 := Alarmed(c1, now + lease.rebindTime), scheduled := c1.scheduled + 1);
      Done(BindLease(c2, lease, now).(state := BOUND), None)
  }

  function HandleMessage(c: Client, m: Message, now: real, newXid: nat): Step {
    if m.op != BOOTREPLY || m.xid != c.xid then Done(c, None)
    else
      match c.state
      case SELECTING =>
        if m.kind == OFFER then
          SendRequest(RecordOffer(ScheduleWait(c, WAIT_ACK, now).(state := REQUESTING), m), newXid)
        else
          Done(c, None)
      case REQUESTING =>
        if m.kind == ACK then HandleAck(c, m, now)
        else if m.kind == NAK then InitClient(c, now, newXid)
        else Done(c, None)
      case RENEWING | REBINDING | REBOOTING =>
        if m.kind == ACK then HandleAck(c, m, now)
        else if m.kind == NAK then InitClient(UnbindLease(c), now, newXid)
        else Done(c, None)
      case INIT => Done(c, None)
      case BOUND => Done(c, None)
      case _ => Fault(InvalidState)
  }

  function InitRebootedClient(c: Client, now: real, newXid: nat): Step {
    var s := SendRequest(c, newXid);
    if s.Fault? then s else Done(ScheduleWait(s.c, WAIT_ACK, now).(state := REBOOTING), s.out)
  }

  function HandleTimer(c: Client, timer: Timer, now: real, newXid: nat): Step {
    match timer
    case START_DHCP =>
      var c' := c.(startTimer := None);
      if c.lease.Some? then InitRebootedClient(c'.(state := INIT_REBOOT), now, newXid)
      else InitClient(c'.(state := INIT), now, newXid)
    case TO => InitClient(c.(wait := None), now, newXid)
    case T1 => SendRequest(ScheduleWait(c.(t1 := None, state := RENEWING), WAIT_ACK, now), newXid)
    case T2 =>
      if c.state != RENEWING then Fault(T2InWrongState)
      else
        var s := SendRequest(CancelTimers(c.(state := REBINDING)), newXid);
        if s.Fault? then s else Done(ScheduleWait(s.c, WAIT_ACK, now), s.out)
    case LEASE_TIMEOUT => InitClient(UnbindLease(c.(leaseTimer := None)).(state := INIT), now, newXid)
  }

  /** A wireless interface has been associated. */
  function Associated(c: Client, now: real, newXid: nat): Step {
    if c.state != IDLE then InitClient(UnbindLease(c), now, newXid) else Done(c, None)
  }

  // ----- The client object ------------------------------------------------------------------

  class DhcpClient {
    const macAddress: nat
    var clientState: State
    var xid: nat
    var lease: Option<Lease>
    var address: nat
    var timerTo: Option<Alarm>
    var timerToKind: Wait
    var timerT1: Option<Alarm>
    var timerT2: Option<Alarm>
    var leaseTimer: Option<Alarm>
    var startTimer: Option<Alarm>
    var scheduled: nat

    ghost function Value(): Client
      reads this
    {
      Client(macAddress, clientState, xid, lease, address, timerTo, timerToKind, timerT1, timerT2, leaseTimer,
        startTimer, scheduled)
    }

    constructor (mac: nat, start: real)
      ensures Value() == Started(mac, start)
    {
      macAddress := mac;
      clientState, xid, lease, address := IDLE, 0, None, UNSPECIFIED;
      timerTo, timerToKind, timerT1, timerT2, leaseTimer := None, WAIT_OFFER, None, None, None;
      startTimer, scheduled := Some(Alarm(start, 0)), 1;
    }

    method ScheduleAt(at: real) returns (a: Option<Alarm>)
      modifies this`scheduled
      ensures a == Some(Alarm(at, old(scheduled))) && scheduled == old(scheduled) + 1
    {
      a := Some(Alarm(at, scheduled));
      scheduled := scheduled + 1;
    }

    method ScheduleTimerTO(kind: Wait, now: real)
      modifies this
      ensures Value() == ScheduleWait(old(Value()), kind, now)
    {
      timerTo := None;
      timerToKind := kind;
      timerTo := ScheduleAt(now + RESPONSE_TIMEOUT);
    }

    method ScheduleTimerT1(now: real)
      requires lease.Some?
      modifies this`timerT1, this`scheduled
      ensures timerT1 == Some(Alarm(now + lease.value.renewalTime, old(scheduled))) && scheduled == old(scheduled) + 1
    {
      timerT1 := None;
      timerT1 := ScheduleAt(now + lease.value.renewalTime);
    }

    method ScheduleTimerT2(now: real)
      requires lease.Some?
      modifies this`timerT2, this`scheduled
      ensures timerT2 == Some(Alarm(now + lease.value.rebindTime, old(scheduled))) && scheduled == old(scheduled) + 1
    {
      timerT2 := None;
      timerT2 := ScheduleAt(now + lease.value.rebindTime);
    }

    method CancelAll()
      modifies this
      ensures Value() == CancelTimers(old(Value()))
    {
      timerT1 := None;
      timerT2 := None;
      timerTo := None;
      leaseTimer := None;
    }

    method Init(now: real, newXid: nat) returns (out: Option<Message>)
      modifies this
      ensures Done(Value(), out) == InitClient(old(Value()), now, newXid)
    {
      CancelAll();
      xid := newXid;
      out := Some(DiscoverMessage(macAddress, xid));
      ScheduleTimerTO(WAIT_OFFER, now);
      clientState := SELECTING;
    }

    method Request(newXid: nat) returns (out: Option<Message>, fault: Option<Error>)
      modifies this
      ensures Outcome(SendRequest(old(Value()), newXid), out, fault)
    {
      out, fault := None, None;
      xid := newXid;
      if clientState == INIT_REBOOT || clientState == REQUESTING || clientState == RENEWING ||
        clientState == REBINDING {
        if lease == None {
          fault := Some(NoLease);
        } else if clientState == INIT_REBOOT {
          out := Some(RequestMessage(macAddress, xid, UNSPECIFIED, lease.value.ip, UNSPECIFIED));
        } else if clientState == REQUESTING {
          out := Some(RequestMessage(macAddress, xid, UNSPECIFIED, lease.value.ip, lease.value.serverId));
        } else {
          out := Some(RequestMessage(macAddress, xid, lease.value.ip, UNSPECIFIED, UNSPECIFIED));
        }
      } else {
        fault := Some(InvalidState);
      }
    }

    /** What a method has made of the client is what the step says, unless it faults. */
    ghost predicate Outcome(s: Step, out: Option<Message>, fault: Option<Error>)
      reads this
    {
      if s.Done? then fault == None && Value() == s.c && out == s.out else fault == Some(s.error)
    }

    method Unbind()
      modifies this
      ensures Value() == UnbindLease(old(Value()))
    {
      CancelAll();
      address := UNSPECIFIED;
    }

    method Bind(now: real)
      requires lease.Some?
      modifies this
      ensures Value() == BindLease(old(Value()), old(lease).value, now)
    {
      address := lease.value.ip;
      leaseTimer := None;
      leaseTimer := ScheduleAt(now + lease.value.leaseTime);
    }

    method Ack(m: Message, now: real) returns (fault: Option<Error>)
      modifies this
      ensures Outcome(HandleAck(old(Value()), m, now), None, fault)
    {
      fault := None;
      if lease == None {
        return Some(NoLease);
      }
      if m.yiaddr != UNSPECIFIED {
        lease := Some(lease.value.(leaseTime := m.leaseTime, renewalTime := m.renewalTime,
          rebindTime := m.rebindingTime));
      }
      timerTo := None;
      ScheduleTimerT1(now);
      ScheduleTimerT2(now);
      Bind(now);
      clientState := BOUND;
    }

    method HandleDhcpMessage(m: Message, now: real, newXid: nat) returns (out: Option<Message>, fault: Option<Error>)
      modifies this
      ensures Outcome(HandleMessage(old(Value()), m, now, newXid), out, fault)
    {
      out, fault := None, None;
      if m.op != BOOTREPLY {
        return;
      }
      if m.xid != xid {
        return;
      }
      match clientState {
        case INIT =>
        case SELECTING =>
          if m.kind == OFFER {
            ScheduleTimerTO(WAIT_ACK, now);
            clientState := REQUESTING;
            if m.yiaddr != UNSPECIFIED {
              lease := Some(Lease(m.yiaddr, macAddress, m.serverId, 0.0, 0.0, 0.0));
            }
            out, fault := Request(newXid);
          }
        case REQUESTING =>
          if m.kind == ACK {
            fault := Ack(m, now);
          } else if m.kind == NAK {
            out := Init(now, newXid);
          }
        case BOUND =>
        case RENEWING =>
          if m.kind == ACK {
            fault := Ack(m, now);
          } else if m.kind == NAK {
            Unbind();
            out := Init(now, newXid);
          }
        case REBINDING =>
          if m.kind == NAK {
            Unbind();
            out := Init(now, newXid);
          } else if m.kind == ACK {
            fault := Ack(m, now);
          }
        case REBOOTING =>
          if m.kind == ACK {
            fault := Ack(m, now);
          } else if m.kind == NAK {
            Unbind();
            out := Init(now, newXid);
          }
        case IDLE =>
          fault := Some(InvalidState);
        case INIT_REBOOT =>
          fault := Some(InvalidState);
      }
    }

    method HandleTimerExpiry(timer: Timer, now: real, newXid: nat) returns (out: Option<Message>, fault: Option<Error>)
      modifies this
      ensures Outcome(HandleTimer(old(Value()), timer, now, newXid), out, fault)
    {
      out, fault := None, None;
      match timer {
        case START_DHCP =>
          startTimer := None;
          if lease.Some? {
            clientState := INIT_REBOOT;
            out, fault := Request(newXid);
            if fault == None {
              ScheduleTimerTO(WAIT_ACK, now);
              clientState := REBOOTING;
            }
          } else {
            clientState := INIT;
            out := Init(now, newXid);
          }
        case TO =>
          timerTo := None;
          out := Init(now, newXid);
        case T1 =>
          timerT1 := None;
          clientState := RENEWING;
          ScheduleTimerTO(WAIT_ACK, now);
          out, fault := Request(newXid);
        case T2 =>
          timerT2 := None;
          if clientState == RENEWING {
            clientState := REBINDING;
            CancelAll();
            out, fault := Request(newXid);
            if fault == None {
              ScheduleTimerTO(WAIT_ACK, now);
            }
          } else {
            fault := Some(T2InWrongState);
          }
        case LEASE_TIMEOUT =>
          leaseTimer := None;
          Unbind();
          clientState := INIT;
          out := Init(now, newXid);
      }
    }

    method HandleAssociation(now: real, newXid: nat) returns (out: Option<Message>)
      modifies this
      ensures Done(Value(), out) == Associated(old(Value()), now, newXid)
    {
      out := None;
      if clientState != IDLE {
        Unbind();
        out := Init(now, newXid);
      }
    }
  }

  /** A client that is to start at the given time. */
  function Started(mac: nat, start: real): Client {
    Client(mac, IDLE, 0, None, UNSPECIFIED, None, WAIT_OFFER, None, None, None, Some(Alarm(start, 0)), 1)
  }

  /** The client is stopped or crashes, loses its timers and its address but not its lease, and is started again. */
  function Restarted(c: Client, start: real): Client {
    CancelTimers(c).(address := UNSPECIFIED, startTimer := Alarmed(c, start), scheduled := c.scheduled + 1)
  }

  // ----- Timers -----------------------------------------------------------------------------

  function AlarmOf(c: Client, timer: Timer): Option<Alarm> {
    match timer
    case TO => c.wait
    case T1 => c.t1
    case T2 => c.t2
    case LEASE_TIMEOUT => c.leaseTimer
    case START_DHCP => c.startTimer
  }

  predicate Before(a: Alarm, b: Alarm) { a.at < b.at || (a.at == b.at && a.order < b.order) }

  /** No other timer of the client goes off before this one. */
  ghost predicate Next(c: Client, timer: Timer) {
    AlarmOf(c, timer).Some? &&
    forall other: Timer :: AlarmOf(c, other).Some? ==> !Before(AlarmOf(c, other).value, AlarmOf(c, timer).value)
  }

  predicate InOrder(lease: Lease) { lease.renewalTime <= lease.rebindTime <= lease.leaseTime }

  predicate NoneBut(c: Client, wait: bool, t1: bool, t2: bool, lease: bool) {
    c.wait.Some? == wait && c.t1.Some? == t1 && c.t2.Some? == t2 && c.leaseTimer.Some? == lease
  }

  /** The timers of a client that has started are those its state waits for; T1 comes before T2, and T2 before the end
      of the lease. A client that is about to start waits for nothing else. */
  predicate Timely(c: Client) {
    (c.lease.Some? ==> InOrder(c.lease.value)) &&
    if c.startTimer.Some? then NoneBut(c, false, false, false, false)
    else
      match c.state
      case SELECTING => NoneBut(c, true, false, false, false) && c.waitKind == WAIT_OFFER
      case REQUESTING => NoneBut(c, true, false, false, false) && c.waitKind == WAIT_ACK && c.lease.Some?
      case BOUND =>
        NoneBut(c, false, true, true, true) && c.lease.Some? &&
        c.t1.value.at <= c.t2.value.at <= c.leaseTimer.value.at &&
          c.t1.value.order < c.t2.value.order < c.leaseTimer.value.order
      case RENEWING =>
        NoneBut(c, true, false, true, true) && c.waitKind == WAIT_ACK && c.lease.Some? &&
        c.t2.value.at <= c.leaseTimer.value.at && c.t2.value.order < c.leaseTimer.value.order
      case REBINDING => NoneBut(c, true, false, false, false) && c.waitKind == WAIT_ACK && c.lease.Some?
      case REBOOTING => NoneBut(c, true, false, false, false) && c.waitKind == WAIT_ACK && c.lease.Some?
      case _ => false
  }

  /** Whoever is bound, renewing or rebinding has the address of its lease on its interface. */
  predicate Holding(c: Client) {
    c.startTimer.None? && c.state in {BOUND, RENEWING, REBINDING} ==> c.lease.Some? && c.address == c.lease.value.ip
  }

  lemma StartedIsTimely(mac: nat, start: real)
    ensures Timely(Started(mac, start)) && Holding(Started(mac, start))
  {
  }

  lemma RestartedIsTimely(c: Client, start: real)
    requires Timely(c)
    ensures Timely(Restarted(c, start)) && Holding(Restarted(c, start))
  {
  }

  lemma AssociatedIsTimely(c: Client, now: real, newXid: nat)
    requires Timely(c) && c.startTimer.None?
    ensures var s := Associated(c, now, newXid); s.Done? && Timely(s.c) && Holding(s.c)
  {
  }

  /** In every state that waits for something a timer is pending: the client never gets stuck. */
  lemma NeverStuck(c: Client)
    requires Timely(c)
    ensures exists timer: Timer :: AlarmOf(c, timer).Some?
  {
    assert AlarmOf(c, START_DHCP) == c.startTimer && AlarmOf(c, TO) == c.wait && AlarmOf(c, T1) == c.t1;
  }

  /** Whichever timer goes off, the client handles it: T2 never finds it in another state than RENEWING. */
  lemma TimerIsHandled(c: Client, timer: Timer, now: real, newXid: nat)
    requires Timely(c) && Holding(c) && Next(c, timer)
    ensures var s := HandleTimer(c, timer, now, newXid); s.Done? && Timely(s.c) && Holding(s.c)
  {
    assert AlarmOf(c, T1) == c.t1 && AlarmOf(c, T2) == c.t2;
    if timer == LEASE_TIMEOUT {
      LeaseNeverExpires(c);
    }
  }

  /** The lease timer never goes off: T2 is first, and then the client cancels it. */
  lemma LeaseNeverExpires(c: Client)
    requires Timely(c)
    ensures !Next(c, LEASE_TIMEOUT)
  {
    assert AlarmOf(c, T2) == c.t2;
  }

  /** The request that a client in a state that waits for an acknowledgement must have sent (table 4 of RFC 2131,
      section 4.3.6). */
  function CurrentRequest(c: Client): Message
    requires c.lease.Some?
  {
    var ip := c.lease.value.ip;
    match c.state
    case REQUESTING => RequestMessage(c.mac, c.xid, UNSPECIFIED, ip, c.lease.value.serverId)
    case REBOOTING => RequestMessage(c.mac, c.xid, UNSPECIFIED, ip, UNSPECIFIED)
    case _ => RequestMessage(c.mac, c.xid, ip, UNSPECIFIED, UNSPECIFIED)
  }

  /** What the requests say: the one that selects a server names it, and it and the one after a start ask for the
      address in the option, while the others tell the address in use (table 4 of RFC 2131, section 4.3.6). */
  lemma RequestSays(c: Client)
    requires c.lease.Some?
    ensures var m, ip := CurrentRequest(c), c.lease.value.ip;
      m.op == BOOTREQUEST && m.kind == REQUEST && m.xid == c.xid && m.chaddr == c.mac && m.yiaddr == UNSPECIFIED &&
      m.serverId == (if c.state == REQUESTING then c.lease.value.serverId else UNSPECIFIED) &&
      m.requestedIp == (if c.state in {REQUESTING, REBOOTING} then ip else UNSPECIFIED) &&
      m.ciaddr == if c.state in {REQUESTING, REBOOTING} then UNSPECIFIED else ip
  {
  }

  lemma DiscoverySays(mac: nat, xid: nat)
    ensures var m := DiscoverMessage(mac, xid);
      m.op == BOOTREQUEST && m.kind == DISCOVER && m.xid == xid && m.chaddr == mac &&
      m.ciaddr == m.yiaddr == m.requestedIp == m.serverId == UNSPECIFIED
  {
  }

  // ----- What a message leads to --------------------------------------------------------------

  /** The message is an answer to what the client has sent last. */
  predicate Heard(c: Client, m: Message) { m.op == BOOTREPLY && m.xid == c.xid }

  /** A state in which the client waits for an acknowledgement or a refusal. */
  predicate Waiting(c: Client) { c.state in {REQUESTING, RENEWING, REBINDING, REBOOTING} }

  /** The messages that a running client takes notice of. */
  predicate Moves(c: Client, m: Message) {
    Heard(c, m) && ((c.state == SELECTING && m.kind == OFFER) || (Waiting(c) && m.kind in {ACK, NAK}))
  }

  predicate RunsAt(a: Option<Alarm>, at: real) { a.Some? && a.value.at == at }

  /** The client has sent a discovery and waits for an offer, and for nothing else. */
  predicate Discovering(c: Client, out: Option<Message>, now: real) {
    c.state == SELECTING && out == Some(DiscoverMessage(c.mac, c.xid)) && NoneBut(c, true, false, false, false) &&
    RunsAt(c.wait, now + RESPONSE_TIMEOUT) && c.waitKind == WAIT_OFFER
  }

  /** The client has asked for the address of its lease, and waits for the answer. */
  predicate Asking(c: Client, out: Option<Message>, now: real) {
    c.lease.Some? && out == Some(CurrentRequest(c)) && RunsAt(c.wait, now + RESPONSE_TIMEOUT) && c.waitKind == WAIT_ACK
  }

  /** The offer is taken over and asked for. */
  predicate OfferTaken(c: Client, m: Message, s: Step, now: real, newXid: nat) {
    s.Done? && s.c.state == REQUESTING && s.c.xid == newXid && Asking(s.c, s.out, now) &&
    NoneBut(s.c, true, false, false, false) && s.c.address == c.address &&
    s.c.lease ==
      if m.yiaddr == UNSPECIFIED then c.lease else Some(Lease(m.yiaddr, c.mac, m.serverId, 0.0, 0.0, 0.0))
  }

  /** The client is bound to its lease for the times granted. */
  predicate LeaseBound(c: Client, m: Message, s: Step, now: real) {
    s.Done? && s.c.state == BOUND && s.c.xid == c.xid && s.out == None && NoneBut(s.c, false, true, true, true) &&
    c.lease.Some? && s.c.lease.Some? && s.c.lease.value.ip == c.lease.value.ip == s.c.address &&
    s.c.lease.value.serverId == c.lease.value.serverId && TimesOf(s.c.lease.value, now, s.c) && OrderedFrom(c, s.c) &&
    (m.yiaddr != UNSPECIFIED ==> Grants(m, s.c.lease.value)) && (m.yiaddr == UNSPECIFIED ==> s.c.lease == c.lease)
  }

  /** The client starts over, without its address if it was using one. */
  predicate StartedOver(c: Client, s: Step, now: real, newXid: nat) {
    s.Done? && s.c.xid == newXid && Discovering(s.c, s.out, now) && s.c.lease == c.lease &&
    s.c.address == if c.state == REQUESTING then c.address else UNSPECIFIED
  }

  /** A reply to a client that has not asked for anything, or one that needs a lease when there is none. */
  predicate Unexpected(c: Client, m: Message) {
    Heard(c, m) &&
    (c.state in {IDLE, INIT_REBOOT} || EmptyOffer(c, m) || (Waiting(c) && m.kind == ACK && c.lease.None?))
  }

  /** Whatever the client does: exactly these messages are errors. */
  lemma MessageFaults(c: Client, m: Message, now: real, newXid: nat)
    ensures var s := HandleMessage(c, m, now, newXid);
      (s.Fault? <==> Unexpected(c, m)) &&
      (s.Fault? ==> s.error == if c.state in {IDLE, INIT_REBOOT} then InvalidState else NoLease)
  {
  }

  lemma OfferLeads(c: Client, m: Message, now: real, newXid: nat)
    requires Timely(c) && !EmptyOffer(c, m) && Heard(c, m) && c.state == SELECTING && m.kind == OFFER
    ensures OfferTaken(c, m, HandleMessage(c, m, now, newXid), now, newXid)
  {
  }

  lemma AckLeads(c: Client, m: Message, now: real, newXid: nat)
    requires Timely(c) && Heard(c, m) && Waiting(c) && m.kind == ACK && c.lease.Some?
    ensures LeaseBound(c, m, HandleMessage(c, m, now, newXid), now)
  {
  }

  lemma RefusalLeads(c: Client, m: Message, now: real, newXid: nat)
    requires Heard(c, m) && Waiting(c) && m.kind == NAK
    ensures StartedOver(c, HandleMessage(c, m, now, newXid), now, newXid)
  {
  }

  /** A message changes the state of a client exactly if the client takes notice of it, and otherwise nothing. An offer
      is taken over and asked for; an acknowledgement binds the client to its lease for the times granted; and a refusal
      makes it start over. */
  lemma MessageLeads(c: Client, m: Message, now: real, newXid: nat)
    requires Timely(c) && !Unexpected(c, m)
    ensures var s := HandleMessage(c, m, now, newXid);
      s.Done? && s.c.mac == c.mac && s.c.startTimer == c.startTimer && (s.c.state != c.state <==> Moves(c, m)) &&
      (!Moves(c, m) ==> s.c == c && s.out == None) &&
      (Moves(c, m) && m.kind == OFFER ==> OfferTaken(c, m, s, now, newXid)) &&
      (Moves(c, m) && m.kind == ACK ==> LeaseBound(c, m, s, now)) &&
      (Moves(c, m) && m.kind == NAK ==> StartedOver(c, s, now, newXid))
  {
    if Moves(c, m) {
      match m.kind
      case OFFER => OfferLeads(c, m, now, newXid);
      case ACK => AckLeads(c, m, now, newXid);
      case _ => RefusalLeads(c, m, now, newXid);
    }
    hide OfferTaken, LeaseBound, StartedOver;
  }

  /** T1, T2 and the lease timer go off after the times of the lease. */
  predicate TimesOf(lease: Lease, now: real, c: Client) {
    RunsAt(c.t1, now + lease.renewalTime) && RunsAt(c.t2, now + lease.rebindTime) &&
    RunsAt(c.leaseTimer, now + lease.leaseTime)
  }

  /** They have been scheduled in this order. */
  predicate OrderedFrom(c: Client, d: Client) {
    d.t1.Some? && d.t2.Some? && d.leaseTimer.Some? && d.t1.value.order == c.scheduled &&
    d.t2.value.order == c.scheduled + 1 && d.leaseTimer.value.order == c.scheduled + 2 && d.scheduled == c.scheduled + 3
  }

  predicate Grants(m: Message, lease: Lease) {
    lease.renewalTime == m.renewalTime && lease.rebindTime == m.rebindingTime && lease.leaseTime == m.leaseTime
  }

  /** Whichever timer goes off next: a client that is to start asks for its old lease, or discovers without one; one
      that gets no answer discovers; T1 makes it renew, while T2 and the lease timer run on, and T2 rebind. */
  lemma TimerLeads(c: Client, timer: Timer, now: real, newXid: nat)
    requires Timely(c) && Holding(c) && Next(c, timer)
    ensures var s := HandleTimer(c, timer, now, newXid);
      s.Done? && s.c.mac == c.mac && s.c.xid == newXid && s.c.lease == c.lease && s.c.address == c.address &&
      s.c.startTimer.None? &&
      match timer
      case START_DHCP =>
        if c.lease.Some? then
          s.c.state == REBOOTING && Asking(s.c, s.out, now) && NoneBut(s.c, true, false, false, false)
        else Discovering(s.c, s.out, now)
      case TO => Discovering(s.c, s.out, now)
      case T1 =>
        s.c.state == RENEWING && Asking(s.c, s.out, now) && s.c.wait.value.order == c.scheduled && s.c.t1.None? &&
        s.c.t2 == c.t2 && s.c.leaseTimer == c.leaseTimer && s.c.scheduled == c.scheduled + 1
      case T2 => s.c.state == REBINDING && Asking(s.c, s.out, now) && NoneBut(s.c, true, false, false, false)
      case LEASE_TIMEOUT => false
  {
    assert AlarmOf(c, T1) == c.t1 && AlarmOf(c, T2) == c.t2 && AlarmOf(c, START_DHCP) == c.startTimer;
    if timer == LEASE_TIMEOUT {
      LeaseNeverExpires(c);
    }
  }

  /** T2 is an error in every state but RENEWING, and without a lease T1 and T2 are errors in every state. No other
      timer is an error. */
  lemma TimerFaults(c: Client, timer: Timer, now: real, newXid: nat)
    ensures var s := HandleTimer(c, timer, now, newXid);
      (s.Fault? <==> (timer == T2 && c.state != RENEWING) || (timer in {T1, T2} && c.lease.None?)) &&
      (s.Fault? ==> s.error == if timer == T2 && c.state != RENEWING then T2InWrongState else NoLease)
  {
  }

  /** Whatever the client does, without an answer it starts over, and at the end of its lease it also gives its address
      up. */
  lemma ExpiryLeads(c: Client, now: real, newXid: nat)
    ensures var s := HandleTimer(c, LEASE_TIMEOUT, now, newXid);
      s.Done? && s.c.xid == newXid && Discovering(s.c, s.out, now) && s.c.lease == c.lease && s.c.address == UNSPECIFIED
    ensures var s := HandleTimer(c, TO, now, newXid);
      s.Done? && s.c.xid == newXid && Discovering(s.c, s.out, now) && s.c.lease == c.lease && s.c.address == c.address
  {
  }

  /** T1 goes off in a client that is bound, with T2 and the lease timer still running. */
  lemma TimerInState(c: Client, timer: Timer)
    requires Timely(c) && Next(c, timer)
    ensures timer == T1 ==> c.startTimer.None? && c.state == BOUND && NoneBut(c, false, true, true, true)
  {
    assert AlarmOf(c, T1) == c.t1;
  }

  /** An association makes the client give its address up and discover. */
  lemma AssociationLeads(c: Client, now: real, newXid: nat)
    requires Timely(c) && c.startTimer.None?
    ensures var s := Associated(c, now, newXid);
      s.Done? && s.c.mac == c.mac && s.c.xid == newXid && s.c.lease == c.lease && s.c.address == UNSPECIFIED &&
      s.c.startTimer.None? && Discovering(s.c, s.out, now)
  {
  }

  /** The client has an address on its interface and no timer that would take it off when the lease ends. */
  predicate Exposed(c: Client) { c.startTimer.None? && c.address != UNSPECIFIED && c.leaseTimer.None? }

  /** So an address can outlive its lease. Of the timers exactly the missing answer and T2 leave a client that has an
      address without its lease timer, and the start a client that has kept one. */
  lemma TimerExposes(c: Client, timer: Timer, now: real, newXid: nat)
    requires Timely(c) && Holding(c) && Next(c, timer)
    ensures var s := HandleTimer(c, timer, now, newXid);
      s.Done? && (Exposed(s.c) <==> c.address != UNSPECIFIED && timer in {TO, T2, START_DHCP})
  {
    TimerIsHandled(c, timer, now, newXid);
    assert AlarmOf(c, START_DHCP) == c.startTimer;
    if timer == LEASE_TIMEOUT {
      LeaseNeverExpires(c);
    }
  }

  /** The acknowledgement that the client waits for. */
  predicate Acknowledged(c: Client, m: Message) {
    m.op == BOOTREPLY && m.xid == c.xid && m.kind == ACK && c.state in {REQUESTING, RENEWING, REBINDING, REBOOTING}
  }

  /** A refusal that makes the client give its address up; while it requests an address it does not. */
  predicate Refused(c: Client, m: Message) {
    m.op == BOOTREPLY && m.xid == c.xid && m.kind == NAK && c.state in {RENEWING, REBINDING, REBOOTING}
  }

  /** Only these two messages end that, and none begins it. */
  lemma MessageExposes(c: Client, m: Message, now: real, newXid: nat)
    requires Timely(c) && Holding(c) && c.startTimer.None?
    ensures var s := HandleMessage(c, m, now, newXid);
      s.Done? ==> (Exposed(s.c) <==> Exposed(c) && !Acknowledged(c, m) && !Refused(c, m))
  {
  }

  /** A client that gets no answer while it rebinds starts over and keeps the address. */
  lemma AddressOutlivesLease(c: Client, now: real, newXid: nat)
    requires Timely(c) && Holding(c) && c.startTimer.None? && c.state == REBINDING
    ensures Next(c, TO)
    ensures var s := HandleTimer(c, TO, now, newXid);
      s.Done? && s.c.state == SELECTING && s.c.address == c.lease.value.ip && s.c.leaseTimer.None?
  {
    forall other: Timer | AlarmOf(c, other).Some? ensures !Before(AlarmOf(c, other).value, AlarmOf(c, TO).value) {
      assert other == TO;
    }
  }

  /** The client that has just been bound by the acknowledgement, when T1 has gone off. */
  function Renewing(c: Client, m: Message, now: real, newXid: nat): Step {
    match HandleAck(c, m, now)
    case Fault(e) => Fault(e)
    case Done(b, out) => HandleTimer(b, T1, b.t1.value.at, newXid)
  }

  /** So does one that gets no answer while it renews. It waits a minute, so with the times this server gives, T1 at a
      half and T2 at seven eighths of the lease, it gets as far as rebinding only if the lease is not longer than 160
      s. */
  lemma RenewalTimesOut(c: Client, m: Message, now: real, newXid: nat)
    requires Timely(c) && c.startTimer.None? && c.lease.Some? && m.yiaddr != UNSPECIFIED && m.leaseTime >= 0.0
    requires m.renewalTime == m.leaseTime * 0.5 && m.rebindingTime == m.leaseTime * 0.875
    ensures var r := Renewing(c, m, now, newXid);
      r.Done? && r.c.state == RENEWING && (Next(r.c, TO) <==> m.leaseTime > 160.0) &&
        (Next(r.c, T2) <==> m.leaseTime <= 160.0)
  {
    var r := Renewing(c, m, now, newXid).c;
    assert AlarmOf(r, TO) == r.wait && AlarmOf(r, T2) == r.t2;
    assert r.wait.value.at == now + m.leaseTime * 0.5 + 60.0 && r.t2.value.at == now + m.leaseTime * 0.875;
    assert r.leaseTimer.value.at == now + m.leaseTime && r.t2.value.order < r.leaseTimer.value.order <
      r.wait.value.order;
  }

  /** The message offers nothing to a client that has nothing. */
  predicate EmptyOffer(c: Client, m: Message) {
    c.state == SELECTING && m.op == BOOTREPLY && m.xid == c.xid && m.kind == OFFER && m.yiaddr == UNSPECIFIED &&
      c.lease.None?
  }

  /** The times of the acknowledgement, if the client takes them over, are in order. */
  predicate SaneAck(c: Client, m: Message) {
    Acknowledged(c, m) && m.yiaddr != UNSPECIFIED ==> m.renewalTime <= m.rebindingTime <= m.leaseTime
  }

  /** A client that runs handles every message but an empty offer, whose address it would then have to request; and its
      timers stay right unless it takes over times that are out of order. */
  lemma MessageIsHandled(c: Client, m: Message, now: real, newXid: nat)
    requires Timely(c) && Holding(c) && c.startTimer.None?
    ensures var s := HandleMessage(c, m, now, newXid);
      (s.Fault? <==> EmptyOffer(c, m)) && (s.Done? ==> Holding(s.c) && (Timely(s.c) <==> SaneAck(c, m)))
  {
  }

  /** Whatever the client does, it sends the request of its new state when it begins to wait for an acknowledgement, and
      a discovery when it begins to wait for an offer. */
  predicate SendsWhatItWaitsFor(s: Step) {
    s.Done? && s.out.Some? ==>
      (s.c.state == SELECTING && s.out.value == DiscoverMessage(s.c.mac, s.c.xid)) ||
      (s.c.state in {REQUESTING, RENEWING, REBINDING, REBOOTING} && s.c.lease.Some? &&
        s.out.value == CurrentRequest(s.c))
  }

  lemma TimerSends(c: Client, timer: Timer, now: real, newXid: nat)
    ensures SendsWhatItWaitsFor(HandleTimer(c, timer, now, newXid))
  {
  }

  lemma MessageSends(c: Client, m: Message, now: real, newXid: nat)
    ensures SendsWhatItWaitsFor(HandleMessage(c, m, now, newXid))
  {
  }

  lemma ClientSendsWhatItWaitsFor(c: Client, timer: Timer, m: Message, now: real, newXid: nat)
    ensures SendsWhatItWaitsFor(HandleTimer(c, timer, now, newXid)) &&
      SendsWhatItWaitsFor(HandleMessage(c, m, now, newXid)) &&
      SendsWhatItWaitsFor(Associated(c, now, newXid))
  {
    TimerSends(c, timer, now, newXid);
    MessageSends(c, m, now, newXid);
    hide HandleTimer, HandleMessage;
  }
}
