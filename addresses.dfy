/** Machine integer widths, addresses and the option type shared by the packet filter's engines. */
module Addresses {

  /** Rust `u16`: ports and the NAT port counter. */
  type U16 = x: int | 0 <= x < 0x1_0000

  /** Rust `u32`: the packet size handed to the traffic shaper. */
  type U32 = x: int | 0 <= x < 0x1_0000_0000

  /** Rust `u64`: the rate limiter's request counts and limit. */
  type U64 = x: int | 0 <= x < 0x1_0000_0000_0000_0000

  /** An IPv4 address, as its 32-bit value. The IPv6 variants of `IpAddr` are not modelled. */
  type IpAddr = U32

  /** A socket address: an IPv4 address and a port. */
  datatype SocketAddr = SocketAddr(ip: IpAddr, port: U16)

  datatype Option<T> = None | Some(value: T)
}
