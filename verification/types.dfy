/**
  Data model of the NAT64 session-table export: transport addresses, the
  internal session record with its expirer, the userspace view of a record,
  and the display/count request that arrives over Netlink.
 */
module SessionTypes {

  type byte = x: int | 0 <= x < 0x100
  type u16 = x: int | 0 <= x < 0x1_0000
  type u32 = x: int | 0 <= x < 0x1_0000_0000
  type u64 = x: int | 0 <= x < 0x1_0000_0000_0000_0000

  /** Linux errno values used by the handlers (returned negated). */
  const EPERM: int := 1
  const EINVAL: int := 22

  datatype Option<+T> = None | Some(value: T)

  datatype Result<+T, +E> = Success(value: T) | Failure(error: E)

  /** Transport protocols a session table exists for. */
  datatype L4Proto = Tcp | Udp | Icmp

  /** An IPv6 address (four 32-bit words) plus a port or ICMP identifier. */
  datatype Ipv6TransportAddr = Ipv6TransportAddr(w0: u32, w1: u32, w2: u32, w3: u32, id: u16)

  /** An IPv4 address plus a port or ICMP identifier. */
  datatype Ipv4TransportAddr = Ipv4TransportAddr(addr: u32, id: u16)

  /** The timeout policy shared by the sessions it will expire; time in jiffies. */
  datatype Expirer = Expirer(timeout: nat)

  /**
    A session as the table stores it. The translation state is an opaque
    small tag; `expirer` is `None` where the kernel structure holds a null
    pointer.
   */
  datatype SessionEntry = SessionEntry(
    src6: Ipv6TransportAddr,
    dst6: Ipv6TransportAddr,
    src4: Ipv4TransportAddr,
    dst4: Ipv4TransportAddr,
    proto: L4Proto,
    state: byte,
    updateTime: nat,
    expirer: Option<Expirer>)

  /** The fixed-layout record handed to userspace; dying time in milliseconds. */
  datatype SessionView = SessionView(
    src6: Ipv6TransportAddr,
    dst6: Ipv6TransportAddr,
    src4: Ipv4TransportAddr,
    dst4: Ipv4TransportAddr,
    state: byte,
    dyingTime: nat)

  /** Resume point of a paginated display: the last (remote4, local4) pair received. */
  datatype ResumeKey = ResumeKey(remote4: Ipv4TransportAddr, local4: Ipv4TransportAddr)

  /** The display part of a session request. */
  datatype DisplayRequest = DisplayRequest(
    connectionSet: bool,
    remote4: Ipv4TransportAddr,
    local4: Ipv4TransportAddr)

  /** The payload of a session request, which follows the Jool header. */
  datatype SessionRequest = SessionRequest(l4Proto: L4Proto, display: DisplayRequest)

  predicate HasExpirer(e: SessionEntry) {
    e.expirer.Some?
  }

  predicate AllHaveExpirer(entries: seq<SessionEntry>) {
    forall i :: 0 <= i < |entries| ==> HasExpirer(entries[i])
  }
}
