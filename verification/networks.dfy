/** The key type of the table: an IPv4 or IPv6 network prefix, that is an
    address together with a prefix length. Parsing and formatting of the
    CIDR text belong to the prefix type's own library and are not modelled;
    a prefix here is the already-decoded value. */
module Networks {

  type Ipv4Addr = x: nat | x < 0x1_0000_0000
  type Ipv6Addr = x: nat | x < 0x1_0000_0000_0000_0000_0000_0000_0000_0000
  type Ipv4PrefixLen = n: nat | n <= 32
  type Ipv6PrefixLen = n: nat | n <= 128

  datatype Network =
    | V4(addr4: Ipv4Addr, len4: Ipv4PrefixLen)
    | V6(addr6: Ipv6Addr, len6: Ipv6PrefixLen)
}
