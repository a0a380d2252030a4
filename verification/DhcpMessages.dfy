/** What DHCP clients and servers send each other. Addresses are 32-bit numbers, 0 is the unspecified address. */
module DhcpMessages {
  datatype Op = BOOTREQUEST | BOOTREPLY

  datatype Kind = DISCOVER | OFFER | REQUEST | DECLINE | ACK | NAK | RELEASE | INFORM

  datatype Message = Message(
    op: Op, kind: Kind, xid: nat, ciaddr: nat, yiaddr: nat, chaddr: nat, requestedIp: nat, serverId: nat,
    renewalTime: real, rebindingTime: real, leaseTime: real)

  const UNSPECIFIED: nat := 0
}
