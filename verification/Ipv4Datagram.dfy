/** IPv4 datagrams as values (libsponge/tcp_helpers/ipv4_header.hh, ipv4_datagram.hh). */
module Ipv4Datagrams {
  import opened Words

  datatype Ipv4Header = Ipv4Header(
    ver: byte, hlen: byte, tos: byte, len: uint16, id: uint16, df: bool, mf: bool, offset: uint16,
    ttl: byte, proto: byte, cksum: uint16, src: uint32, dst: uint32)

  datatype Datagram = Datagram(header: Ipv4Header, payload: seq<byte>)
}
