/** The DHCP server: its table of leases, and what it answers. */
module DhcpServers {
  import opened Options
  import opened DhcpMessages

  datatype Lease = Lease(ip: nat, mac: nat, xid: int, leased: bool)

  /** The pool is max addresses from start on; hostSize is the number of addresses of a subnet. */
  datatype Config = Config(interfaceId: int, address: nat, start: nat, max: nat, hostSize: nat, leaseTime: nat)

  type Table = map<nat, Lease>

  const NO_MAC: nat := 0

  predicate Configured(cfg: Config) {
    0 < cfg.hostSize && 0 < cfg.start && 0 < cfg.address && cfg.start + cfg.max <= 0x1_0000_0000
  }

  predicate InPool(cfg: Config, ip: nat) { cfg.start <= ip < cfg.start + cfg.max }

  // ----- What the server does, as functions ------------------------------------------

  lemma LeastExists(s: set<nat>) returns (m: nat)
    requires s != {}
    ensures m in s && forall x :: x in s ==> m <= x
  {
    m :| m in s;
    if y :| y in s && y < m {
      assert y in s - {m};
      var k := LeastExists(s - {m});
      assert k <= y && s == s - {m} + {m};
      m := k;
    }
  }

  ghost function Least(s: set<nat>): (m: nat)
    requires s != {}
    ensures m in s && forall x :: x in s ==> m <= x
  {
    assert exists k :: k in s && forall x :: x in s ==> k <= x by {
      var k := LeastExists(s);
    }
    var m :| m in s && forall x :: x in s ==> m <= x;
    m
  }

  ghost function Owned(t: Table, mac: nat): set<nat> { set ip | ip in t && t[ip].mac == mac }

  /** The table is searched in the order of the addresses. */
  ghost function LeaseByMac(t: Table, mac: nat): Option<nat> {
    if Owned(t, mac) == {} then None else Some(Least(Owned(t, mac)))
  }

  function NewLease(ip: nat): Lease { Lease(ip, NO_MAC, -1, false) }

  /** The first address of the pool, from the i-th on, that has no lease or one that is not allocated. */
  function FirstFree(cfg: Config, t: Table, i: nat): (r: Option<nat>)
    ensures r.Some? ==> InPool(cfg, r.value) && (r.value in t ==> !t[r.value].leased)
    ensures r.None? <==> forall ip :: cfg.start + i <= ip < cfg.start + cfg.max ==> ip in t && t[ip].leased
    decreases cfg.max - i
  {
    if i >= cfg.max then None
    else if cfg.start + i in t && t[cfg.start + i].leased then FirstFree(cfg, t, i + 1)
    else Some(cfg.start + i)
  }

  /** The requested address if there is one, whatever the table says; otherwise a free one of the pool. */
  function Available(cfg: Config, t: Table, requestedIp: nat): (Table, Option<nat>) {
    if requestedIp != UNSPECIFIED then
      if requestedIp in t && !t[requestedIp].leased then (t, Some(requestedIp))
      else (t[requestedIp := NewLease(requestedIp)], Some(requestedIp))
    else
      match FirstFree(cfg, t, 0)
      case None => (t, None)
      case Some(ip) => (if ip in t then t else t[ip := NewLease(ip)], Some(ip))
  }

  function Offer(cfg: Config, lease: Lease): Message
    requires lease.xid >= 0
  {
    Message(BOOTREPLY, OFFER, lease.xid, UNSPECIFIED, lease.ip, lease.mac, UNSPECIFIED, cfg.address,
            cfg.leaseTime as real * 0.5, cfg.leaseTime as real * 0.875, cfg.leaseTime as real)
  }

  function Ack(cfg: Config, lease: Lease): Message
    requires lease.xid >= 0
  {
    Message(BOOTREPLY, ACK, lease.xid, lease.ip, lease.ip, lease.mac, UNSPECIFIED, cfg.address,
            cfg.leaseTime as real * 0.5, cfg.leaseTime as real * 0.875, cfg.leaseTime as real)
  }

  function Nak(cfg: Config, m: Message): Message {
    Message(BOOTREPLY, NAK, m.xid, UNSPECIFIED, UNSPECIFIED, m.chaddr, UNSPECIFIED, cfg.address, 0.0, 0.0, 0.0)
  }

  predicate MaskedAddrAreEqual(a: nat, b: nat, hostSize: nat)
    requires hostSize > 0
  {
    a / hostSize == b / hostSize
  }

  ghost function OnDiscover(cfg: Config, t: Table, m: Message): (Table, Option<Message>) {
    match LeaseByMac(t, m.chaddr)
    case Some(ip) =>
      var lease := t[ip].(xid := m.xid);
      (t[ip := lease], Some(Offer(cfg, lease)))
    case None =>
      var (t', free) := Available(cfg, t, m.requestedIp);
      match free
      case None => (t', None)
      case Some(ip) =>
        var lease := t'[ip].(mac := m.chaddr, xid := m.xid, leased := true);
        (t'[ip := lease], Some(Offer(cfg, lease)))
  }

  function Confirmed(cfg: Config, t: Table, ip: nat, xid: nat): (Table, Option<Message>)
    requires ip in t
  {
    var lease := t[ip].(xid := xid, leased := true);
    (t[ip := lease], Some(Ack(cfg, lease)))
  }

  ghost function OnRequest(cfg: Config, t: Table, m: Message): (Table, Option<Message>)
    requires cfg.hostSize > 0
  {
    if m.serverId == cfg.address then
      match LeaseByMac(t, m.chaddr)
      case Some(ip) => if t[ip].ip != m.requestedIp then (t, Some(Nak(cfg, m))) else Confirmed(cfg, t, ip, m.xid)
      case None => (t, Some(Nak(cfg, m)))
    else if m.ciaddr == UNSPECIFIED then
      if m.requestedIp !in t then (t, None)
      else if MaskedAddrAreEqual(m.requestedIp, t[m.requestedIp].ip, cfg.hostSize) then
        Confirmed(cfg, t, m.requestedIp, m.xid)
      else (t, Some(Nak(cfg, m)))
    else if m.ciaddr in t then Confirmed(cfg, t, m.ciaddr, m.xid)
    else (t, Some(Nak(cfg, m)))
  }

  ghost function Process(cfg: Config, t: Table, interfaceId: int, m: Message): (Table, Option<Message>)
    requires cfg.hostSize > 0
  {
    if interfaceId != cfg.interfaceId || m.op != BOOTREQUEST then (t, None)
    else if m.kind == DISCOVER then OnDiscover(cfg, t, m)
    else if m.kind == REQUEST then OnRequest(cfg, t, m)
    else (t, None)
  }

  // ----- The server object -------------------------------------------------------------

  class DhcpServer {
    const config: Config
    var leased: map<nat, Lease>

    constructor (config: Config)
      ensures this.config == config && leased == map[]
    {
      this.config := config;
      leased := map[];
    }

    method GetLeaseByMac(mac: nat) returns (r: Option<nat>)
      ensures r == LeaseByMac(leased, mac)
    {
      var rest := leased.Keys;
      while rest != {}
        invariant rest <= leased.Keys
        invariant forall ip :: ip in leased && ip !in rest ==> leased[ip].mac != mac
        invariant forall ip, k :: ip in leased && ip !in rest && k in rest ==> ip < k
        decreases |rest|
      {
        ghost var least := LeastExists(rest);
        var ip :| ip in rest && forall k :: k in rest ==> ip <= k;
        if leased[ip].mac == mac {
          assert ip in Owned(leased, mac);
          return Some(ip);
        }
        rest := rest - {ip};
      }
      assert Owned(leased, mac) == {};
      return None;
    }

    method GetAvailableLease(requestedIp: nat) returns (r: Option<nat>)
      modifies this
      ensures (leased, r) == Available(config, old(leased), requestedIp)
    {
      if requestedIp != UNSPECIFIED {
        if requestedIp in leased && !leased[requestedIp].leased {
          return Some(requestedIp);
        }
        leased := leased[requestedIp := NewLease(requestedIp)];
        return Some(requestedIp);
      }
      var i := 0;
      while i < config.max
        invariant leased == old(leased) && FirstFree(config, leased, 0) == FirstFree(config, leased, i)
      {
        var ip := config.start + i;
        if ip in leased {
          if !leased[ip].leased {
            return Some(ip);
          }
        } else {
          leased := leased[ip := NewLease(ip)];
          return Some(ip);
        }
        i := i + 1;
      }
      return None;
    }

    method ProcessDhcpMessage(interfaceId: int, m: Message) returns (reply: Option<Message>)
      requires config.hostSize > 0
      modifies this
      ensures (leased, reply) == Process(config, old(leased), interfaceId, m)
    {
      reply := None;
      if interfaceId != config.interfaceId || m.op != BOOTREQUEST {
        return;
      }
      if m.kind == DISCOVER {
        var lease := GetLeaseByMac(m.chaddr);
        if lease == None {
          lease := GetAvailableLease(m.requestedIp);
          if lease.Some? {
            leased := leased[lease.value := leased[lease.value].(mac := m.chaddr, xid := m.xid, leased := true)];
            reply := Some(Offer(config, leased[lease.value]));
          }
        } else {
          leased := leased[lease.value := leased[lease.value].(xid := m.xid)];
          reply := Some(Offer(config, leased[lease.value]));
        }
      } else if m.kind == REQUEST {
        if m.serverId == config.address {
          var lease := GetLeaseByMac(m.chaddr);
          if lease.Some? && leased[lease.value].ip == m.requestedIp {
            reply := Confirm(lease.value, m.xid);
          } else {
            reply := Some(Nak(config, m));
          }
        } else if m.ciaddr == UNSPECIFIED {
          if m.requestedIp in leased {
            if MaskedAddrAreEqual(m.requestedIp, leased[m.requestedIp].ip, config.hostSize) {
              reply := Confirm(m.requestedIp, m.xid);
            } else {
              reply := Some(Nak(config, m));
            }
          }
        } else if m.ciaddr in leased {
          reply := Confirm(m.ciaddr, m.xid);
        } else {
          reply := Some(Nak(config, m));
        }
      }
    }

    method Confirm(ip: nat, xid: nat) returns (reply: Option<Message>)
      requires ip in leased
      modifies this
      ensures (leased, reply) == Confirmed(config, old(leased), ip, xid)
    {
      leased := leased[ip := leased[ip].(xid := xid, leased := true)];
      reply := Some(Ack(config, leased[ip]));
    }
  }

  // ----- What every message keeps ----------------------------------------------------------

  /** Every entry stands under its own address, is allocated, and comes from the pool; no MAC has two. */
  ghost predicate TableOk(cfg: Config, t: Table) {
    (forall ip :: ip in t ==> t[ip].ip == ip && t[ip].leased && InPool(cfg, ip)) &&
    forall a, b :: a in t && b in t && t[a].mac == t[b].mac ==> a == b
  }

  /** Nobody has lost an address. */
  ghost predicate OwnersKept(t: Table, t': Table) {
    forall ip :: ip in t ==> ip in t' && t'[ip].mac == t[ip].mac
  }

  ghost predicate PoolExhausted(cfg: Config, t: Table) {
    forall ip :: InPool(cfg, ip) ==> ip in t
  }

  lemma OnlyOwner(cfg: Config, t: Table, ip: nat)
    requires TableOk(cfg, t) && ip in t
    ensures LeaseByMac(t, t[ip].mac) == Some(ip)
  {
    assert ip in Owned(t, t[ip].mac);
  }

  lemma ConfirmedKeeps(cfg: Config, t: Table, ip: nat, xid: nat)
    requires TableOk(cfg, t) && ip in t
    ensures var (t', r) := Confirmed(cfg, t, ip, xid);
      TableOk(cfg, t') && OwnersKept(t, t') && t'.Keys == t.Keys && r.Some? && r.value == Ack(cfg, t'[ip]) &&
        t'[ip].mac == t[ip].mac
  {
  }

  lemma DiscoverKeeps(cfg: Config, t: Table, m: Message)
    requires TableOk(cfg, t) && m.requestedIp == UNSPECIFIED
    ensures var (t', r) := OnDiscover(cfg, t, m);
      TableOk(cfg, t') && OwnersKept(t, t') && (r.None? <==> Owned(t, m.chaddr) == {} && PoolExhausted(cfg, t)) &&
      (r.Some? ==> exists ip ::
        ip in t' && t'[ip].mac == m.chaddr && t'[ip].xid == m.xid &&
        r.value == Offer(cfg, t'[ip]))
  {
    var (t', r) := OnDiscover(cfg, t, m);
    match LeaseByMac(t, m.chaddr)
    case Some(ip) =>
      assert ip in t' && t'[ip].mac == m.chaddr;
    case None =>
      assert forall ip :: ip in t && t[ip].mac == m.chaddr ==> ip in Owned(t, m.chaddr);
      match FirstFree(cfg, t, 0)
      case None =>
        assert r.None?;
      case Some(ip) =>
        assert ip in t' && t'[ip].mac == m.chaddr;
        assert !PoolExhausted(cfg, t);
  }

  lemma RequestKeeps(cfg: Config, t: Table, m: Message)
    requires Configured(cfg) && TableOk(cfg, t)
    ensures var (t', r) := OnRequest(cfg, t, m); TableOk(cfg, t') && OwnersKept(t, t') && t'.Keys == t.Keys
  {
    if m.requestedIp in t {
      ConfirmedKeeps(cfg, t, m.requestedIp, m.xid);
    }
    if m.ciaddr in t {
      ConfirmedKeeps(cfg, t, m.ciaddr, m.xid);
    }
  }

  /** Whatever the clients send that ask for no particular address when they discover, the table stays in order,
      nobody loses an address, and a new client is refused exactly when the pool is exhausted. */
  lemma ProcessKeeps(cfg: Config, t: Table, interfaceId: int, m: Message)
    requires Configured(cfg) && TableOk(cfg, t) && (m.op == BOOTREQUEST && m.kind == DISCOVER ==>
      m.requestedIp == UNSPECIFIED)
    ensures var (t', r) := Process(cfg, t, interfaceId, m);
      TableOk(cfg, t') && OwnersKept(t, t') &&
      (interfaceId == cfg.interfaceId && m.op == BOOTREQUEST && m.kind == DISCOVER ==>
        (r.None? <==> Owned(t, m.chaddr) == {} && PoolExhausted(cfg, t)))
  {
    hide OnDiscover, OnRequest, TableOk;
    if m.op != BOOTREQUEST {
    } else if m.kind == DISCOVER {
      DiscoverKeeps(cfg, t, m);
    } else if m.kind == REQUEST {
      RequestKeeps(cfg, t, m);
    }
  }

  /** The first n addresses from start on. */
  function Range(start: nat, n: nat): (r: set<nat>)
    ensures |r| == n && forall ip :: ip in r <==> start <= ip < start + n
  {
    if n == 0 then {} else Range(start, n - 1) + {start + n - 1}
  }

  lemma SubsetSize(a: set<nat>, b: set<nat>)
    requires a <= b
    ensures |a| <= |b|
  {
    assert b == a + (b - a);
  }

  /** No more clients than the pool has addresses. */
  lemma TableIsBounded(cfg: Config, t: Table)
    requires TableOk(cfg, t)
    ensures |t| <= cfg.max
  {
    SubsetSize(t.Keys, Range(cfg.start, cfg.max));
    assert |t| == |t.Keys|;
  }

  /** The answer "wrong network" is never given: an entry's address is its key. */
  lemma NeverOnTheWrongNetwork(cfg: Config, t: Table, m: Message)
    requires Configured(cfg) && TableOk(cfg, t) && m.serverId != cfg.address && m.ciaddr == UNSPECIFIED
    ensures OnRequest(cfg, t, m).1 == (if m.requestedIp in t then
      Some(Ack(cfg, t[m.requestedIp].(xid := m.xid, leased := true))) else None)
  {
  }

  // ----- What the server answers ---------------------------------------------------------------

  /** The message grants the configured lease time, T1 after a half of it and T2 after seven eighths. */
  predicate GrantsLeaseTime(cfg: Config, r: Message) {
    r.leaseTime == cfg.leaseTime as real && 2.0 * r.renewalTime == r.leaseTime &&
      8.0 * r.rebindingTime == 7.0 * r.leaseTime
  }

  /** The reply is of the kind and answers the message. */
  predicate Replies(cfg: Config, m: Message, kind: Kind, r: Message) {
    r.op == BOOTREPLY && r.kind == kind && r.xid == m.xid && r.requestedIp == UNSPECIFIED && r.serverId == cfg.address
  }

  /** The entry of the address is of the client, and all others are as before. */
  ghost predicate Entered(t: Table, t': Table, ip: nat, mac: nat, xid: int) {
    t' == t[ip := Lease(ip, mac, xid, true)]
  }

  /** A discovery is answered by the address that the client has already, or else by the one it asks for, or without a
      wish by the first of the pool that nobody has, unless there is none; and the address is then the client's. */
  lemma DiscoverIsAnswered(cfg: Config, t: Table, m: Message)
    requires Configured(cfg) && TableOk(cfg, t) && m.op == BOOTREQUEST && m.kind == DISCOVER
    ensures var (t', r) := Process(cfg, t, cfg.interfaceId, m);
      (r.None? <==> Owned(t, m.chaddr) == {} && m.requestedIp == UNSPECIFIED && PoolExhausted(cfg, t)) &&
      (r.None? ==> t' == t) &&
      (r.Some? ==>
        Replies(cfg, m, OFFER, r.value) && r.value.ciaddr == UNSPECIFIED && r.value.chaddr == m.chaddr &&
        GrantsLeaseTime(cfg, r.value) && Entered(t, t', r.value.yiaddr, m.chaddr, m.xid) &&
        if Owned(t, m.chaddr) != {} then r.value.yiaddr in t && t[r.value.yiaddr].mac == m.chaddr
        else if m.requestedIp != UNSPECIFIED then r.value.yiaddr == m.requestedIp
        else
          InPool(cfg, r.value.yiaddr) && r.value.yiaddr !in t &&
          (forall ip: nat :: InPool(cfg, ip) && ip < r.value.yiaddr ==> ip in t))
  {
    assert forall ip :: ip in t && t[ip].mac == m.chaddr ==> ip in Owned(t, m.chaddr);
    if Owned(t, m.chaddr) == {} {
      FirstFreeIsFirst(cfg, t, 0);
    }
  }

  lemma {:induction false} FirstFreeIsFirst(cfg: Config, t: Table, i: nat)
    ensures FirstFree(cfg, t, i).Some? ==>
      forall ip :: cfg.start + i <= ip < FirstFree(cfg, t, i).value ==> ip in t && t[ip].leased
    decreases cfg.max - i
  {
    if i < cfg.max && cfg.start + i in t && t[cfg.start + i].leased {
      FirstFreeIsFirst(cfg, t, i + 1);
    }
  }

  /** The address that a request is about: the one it asks for, or the one the client uses. */
  function Subject(cfg: Config, m: Message): nat {
    if m.serverId == cfg.address || m.ciaddr == UNSPECIFIED then m.requestedIp else m.ciaddr
  }

  /** A request is acknowledged if and only if the address has an entry, and if the server was selected, one of this
      client. Otherwise it is refused, but a request after a start is not answered. */
  lemma RequestIsAnswered(cfg: Config, t: Table, m: Message)
    requires Configured(cfg) && TableOk(cfg, t) && m.op == BOOTREQUEST && m.kind == REQUEST
    ensures var ((t', r), ip) := (Process(cfg, t, cfg.interfaceId, m), Subject(cfg, m));
      if ip in t && (m.serverId == cfg.address ==> t[ip].mac == m.chaddr) then
        r.Some? && Replies(cfg, m, ACK, r.value) && r.value.ciaddr == r.value.yiaddr == ip &&
          r.value.chaddr == t[ip].mac &&
        GrantsLeaseTime(cfg, r.value) && Entered(t, t', ip, t[ip].mac, m.xid)
      else
        t' == t && if m.serverId != cfg.address && m.ciaddr == UNSPECIFIED then r == None
        else
          r.Some? && Replies(cfg, m, NAK, r.value) && r.value.chaddr == m.chaddr &&
          r.value.yiaddr == r.value.ciaddr == UNSPECIFIED
  {
    var ip := Subject(cfg, m);
    if ip in t && t[ip].mac == m.chaddr {
      OnlyOwner(cfg, t, ip);
    }
  }

  /** Other messages, and those that arrive elsewhere, are ignored. */
  lemma OthersAreIgnored(cfg: Config, t: Table, interfaceId: int, m: Message)
    requires Configured(cfg)
    ensures interfaceId != cfg.interfaceId || m.op != BOOTREQUEST || m.kind !in {DISCOVER, REQUEST} ==>
      Process(cfg, t, interfaceId, m) == (t, None)
  {
  }

  /** Only the entry of one address changes. */
  ghost predicate Changed(t: Table, t': Table, ip: nat) { ip in t' && t' == t[ip := t'[ip]] }

  /** Whatever is in the table: a client with an entry keeps it, but for the transaction; one without gets an entry that
      is allocated and his, of a free lease if there is one at the address and of a new one otherwise. */
  lemma DiscoveryChanges(cfg: Config, t: Table, m: Message)
    requires Configured(cfg) && m.op == BOOTREQUEST && m.kind == DISCOVER
    ensures var (t', r) := Process(cfg, t, cfg.interfaceId, m);
      if r.None? then t' == t
      else
        exists ip :: Changed(t, t', ip) && r.value.yiaddr == t'[ip].ip && t'[ip].mac == m.chaddr &&
          t'[ip].xid == m.xid &&
          if Owned(t, m.chaddr) != {} then LeaseByMac(t, m.chaddr) == Some(ip) && t'[ip] == t[ip].(xid := m.xid)
          else t'[ip].leased && t'[ip].ip == if ip in t && !t[ip].leased then t[ip].ip else ip
  {
    var (t', r) := Process(cfg, t, cfg.interfaceId, m);
    match LeaseByMac(t, m.chaddr)
    case Some(ip) => assert Changed(t, t', ip);
    case None =>
      match Available(cfg, t, m.requestedIp).1
      case None =>
      case Some(ip) => assert Changed(t, t', ip);
  }

  /** The address that a request is about, with an entry that is good for it. */
  ghost predicate Good(cfg: Config, t: Table, m: Message, ip: nat)
    requires cfg.hostSize > 0
  {
    ip in t &&
    if m.serverId == cfg.address then LeaseByMac(t, m.chaddr) == Some(ip) && t[ip].ip == m.requestedIp
    else if m.ciaddr == UNSPECIFIED then ip == m.requestedIp && ip / cfg.hostSize == t[ip].ip / cfg.hostSize
    else ip == m.ciaddr
  }

  /** Whatever is in the table: exactly such a request is acknowledged, and only its entry changes: it is allocated,
      with the new transaction. */
  lemma RequestChanges(cfg: Config, t: Table, m: Message)
    requires Configured(cfg) && m.op == BOOTREQUEST && m.kind == REQUEST
    ensures var (t', r) := Process(cfg, t, cfg.interfaceId, m);
      ((r.Some? && r.value.kind == ACK) <==> exists ip :: Good(cfg, t, m, ip)) &&
      (forall ip :: Good(cfg, t, m, ip) ==>
        t' == t[ip := t[ip].(xid := m.xid, leased := true)] && r.Some? &&
        r.value.yiaddr == t[ip].ip) &&
      ((forall ip :: !Good(cfg, t, m, ip)) ==> t' == t)
  {
    if m.serverId == cfg.address {
      if LeaseByMac(t, m.chaddr).Some? {
        var ip := LeaseByMac(t, m.chaddr).value;
        assert Good(cfg, t, m, ip) <==> t[ip].ip == m.requestedIp;
      }
    } else {
      var ip := Subject(cfg, m);
      assert ip in t && m.ciaddr != UNSPECIFIED ==> Good(cfg, t, m, ip);
      assert ip in t && m.ciaddr == UNSPECIFIED && ip / cfg.hostSize == t[ip].ip / cfg.hostSize ==> Good(cfg, t, m, ip);
    }
  }

  // ----- Asking for an address ---------------------------------------------------------------

  /** A client that the server does not know asks for an address when it discovers. */
  ghost predicate AsksFor(cfg: Config, t: Table, interfaceId: int, m: Message) {
    interfaceId == cfg.interfaceId && m.op == BOOTREQUEST && m.kind == DISCOVER && m.requestedIp != UNSPECIFIED &&
      Owned(t, m.chaddr) == {}
  }

  lemma AskedForIsGiven(cfg: Config, t: Table, m: Message)
    requires Configured(cfg) && TableOk(cfg, t) && m.kind == DISCOVER && m.requestedIp != UNSPECIFIED &&
      Owned(t, m.chaddr) == {}
    ensures OnDiscover(cfg, t, m).0 == t[m.requestedIp := Lease(m.requestedIp, m.chaddr, m.xid, true)]
  {
  }

  lemma KnownKeeps(cfg: Config, t: Table, m: Message)
    requires Configured(cfg) && TableOk(cfg, t) && Owned(t, m.chaddr) != {}
    ensures var t' := OnDiscover(cfg, t, m).0; TableOk(cfg, t') && OwnersKept(t, t')
  {
  }

  /** Exactly then, if somebody has the address, he loses it. */
  lemma OwnersKeptExactly(cfg: Config, t: Table, interfaceId: int, m: Message)
    requires Configured(cfg) && TableOk(cfg, t)
    ensures OwnersKept(t, Process(cfg, t, interfaceId, m).0) <==>
      !(AsksFor(cfg, t, interfaceId, m) && m.requestedIp in t)
  {
    if AsksFor(cfg, t, interfaceId, m) {
      AskedForIsGiven(cfg, t, m);
      assert forall ip :: ip in t && t[ip].mac == m.chaddr ==> ip in Owned(t, m.chaddr);
    } else if m.kind == DISCOVER && m.requestedIp != UNSPECIFIED {
      if interfaceId == cfg.interfaceId && m.op == BOOTREQUEST {
        KnownKeeps(cfg, t, m);
      }
    } else {
      ProcessKeeps(cfg, t, interfaceId, m);
    }
  }

  lemma InsertedOk(cfg: Config, t: Table, ip: nat, mac: nat, xid: int)
    requires TableOk(cfg, t) && Owned(t, mac) == {}
    ensures TableOk(cfg, t[ip := Lease(ip, mac, xid, true)]) <==> InPool(cfg, ip)
  {
    var t' := t[ip := Lease(ip, mac, xid, true)];
    assert ip in t';
    assert forall a :: a in t && t[a].mac == mac ==> a in Owned(t, mac);
  }

  /** And exactly if the address is not in the pool, the table holds one that is not. */
  lemma TableOkExactly(cfg: Config, t: Table, interfaceId: int, m: Message)
    requires Configured(cfg) && TableOk(cfg, t)
    ensures TableOk(cfg, Process(cfg, t, interfaceId, m).0) <==>
      !(AsksFor(cfg, t, interfaceId, m) && !InPool(cfg, m.requestedIp))
  {
    if AsksFor(cfg, t, interfaceId, m) {
      AskedForIsGiven(cfg, t, m);
      InsertedOk(cfg, t, m.requestedIp, m.chaddr, m.xid);
    } else if m.kind == DISCOVER && m.requestedIp != UNSPECIFIED {
      if interfaceId == cfg.interfaceId && m.op == BOOTREQUEST {
        KnownKeeps(cfg, t, m);
      }
    } else {
      ProcessKeeps(cfg, t, interfaceId, m);
    }
  }

  /** Client 2 discovers with the address that client 1 has been given, and the server gives it away. */
  lemma LeaseIsOverwritten()
    ensures exists cfg: Config, t: Table, m: Message ::
      Configured(cfg) && TableOk(cfg, t) &&
      !OwnersKept(t, Process(cfg, t, cfg.interfaceId, m).0)
  {
    var cfg := Config(1, 100, 101, 10, 256, 3600);
    var t := map[101 := Lease(101, 1, 7, true)];
    var m := Message(BOOTREQUEST, DISCOVER, 8, UNSPECIFIED, UNSPECIFIED, 2, 101, UNSPECIFIED, 0.0, 0.0, 0.0);
    assert TableOk(cfg, t);
    assert AsksFor(cfg, t, cfg.interfaceId, m);
    OwnersKeptExactly(cfg, t, cfg.interfaceId, m);
  }
}
