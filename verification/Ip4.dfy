/** The simple_udp sample: headers written straight into the frame, and read back by getters. */
module Ip4 {
  import opened Bytes
  import opened Checksum
  import opened Headers

  const ETH_HEADER_SIZE := 14

  // ---------------------------------------------------------------- getters

  function Ip4GetAddr(buffer: seq<byte>, offset: nat): u32
    requires offset + 4 <= |buffer|
  {
    buffer[offset] as int * 0x100_0000 + buffer[offset + 1] as int * 0x1_0000 + buffer[offset + 2] as int * 0x100
    + buffer[offset + 3]
  }

  function Ip4GetHeaderLength(buffer: seq<byte>): nat
    requires |buffer| > ETH_HEADER_SIZE
  {
    buffer[ETH_HEADER_SIZE] % 0x10 * 4
  }

  function Ip4GetShort(buffer: seq<byte>, field: nat): u16
    requires ETH_HEADER_SIZE + field + 2 <= |buffer|
  {
    buffer[ETH_HEADER_SIZE + field] as int * 0x100 + buffer[ETH_HEADER_SIZE + field + 1]
  }

  function UdpGet(buffer: seq<byte>, field: nat): u16
    requires |buffer| > ETH_HEADER_SIZE && ETH_HEADER_SIZE + Ip4GetHeaderLength(buffer) + field + 2 <= |buffer|
  {
    var p := ETH_HEADER_SIZE + Ip4GetHeaderLength(buffer) + field;
    buffer[p] as int * 0x100 + buffer[p + 1]
  }

  /** The getters agree with the header parser of the other samples. */
  lemma GettersParseIp(buffer: seq<byte>)
    requires |buffer| >= ETH_HEADER_SIZE + IP_HLEN
    ensures var ip := ParseIp(buffer[ETH_HEADER_SIZE..ETH_HEADER_SIZE + IP_HLEN]);
      && Ip4GetAddr(buffer, 12 + ETH_HEADER_SIZE) == ip.srcAddr
      && Ip4GetAddr(buffer, 16 + ETH_HEADER_SIZE) == ip.dstAddr
      && Ip4GetHeaderLength(buffer) == HeaderLength(ip)
      && Ip4GetShort(buffer, 2) == ip.totalLength && Ip4GetShort(buffer, 4) == ip.identification
      && Ip4GetShort(buffer, 10) == ip.headerChecksum
  {
  }

  lemma GettersParseUdp(buffer: seq<byte>)
    requires |buffer| > ETH_HEADER_SIZE && ETH_HEADER_SIZE + Ip4GetHeaderLength(buffer) + UDP_HLEN <= |buffer|
    ensures var p := ETH_HEADER_SIZE + Ip4GetHeaderLength(buffer);
      var udp := ParseUdp(buffer[p..p + UDP_HLEN]);
      UdpGet(buffer, 0) == udp.srcPort && UdpGet(buffer, 2) == udp.dstPort && UdpGet(buffer, 4) == udp.len
  {
  }

  // ---------------------------------------------------------------- setters

  lemma HeaderFilled(m: seq<byte>, d: seq<byte>, e: seq<byte>, h: IpHead, csum: u16)
    requires |m| >= ETH_HEADER_SIZE + IP_HLEN && d == Splice(m, ETH_HEADER_SIZE, IpBytes(h))
    requires h.headerChecksum == 0 && HeaderLength(h) == IP_HLEN
    requires csum == InternetChecksum(d[ETH_HEADER_SIZE..ETH_HEADER_SIZE + IP_HLEN])
    requires e == Splice(d, ETH_HEADER_SIZE + 10, Be16(csum))
    ensures e == Splice(m, ETH_HEADER_SIZE, IpBytes(h.(headerChecksum := csum)))
    ensures ParseIp(e[ETH_HEADER_SIZE..ETH_HEADER_SIZE + IP_HLEN]) == h.(headerChecksum := csum)
    ensures InternetChecksum(e[ETH_HEADER_SIZE..ETH_HEADER_SIZE + IP_HLEN]) == 0
  {
    var h' := h.(headerChecksum := csum);
    ChecksumField(m, ETH_HEADER_SIZE, h, csum);
    SpliceKeeps(m, ETH_HEADER_SIZE, IpBytes(h'), 0, 0);
    IpRoundTrip(h', IpBytes(h'));
  }

  class Sender {
    /** The static identification counter of ip4_set_header. */
    var pid: u16

    constructor ()
      ensures pid == 0
    {
      pid := 0;
    }

    /** ip4_set_header: a header of five words for a payload of the given length. The header checks to
        zero, and each call uses the next identification. */
    method SetHeader(buffer: array<byte>, src: u32, dst: u32, payloadLength: u16, protocol: byte)
      requires buffer.Length >= ETH_HEADER_SIZE + IP_HLEN
      modifies this, buffer
      ensures pid == (old(pid) + 1) % 0x1_0000
      ensures var h := ParseIp(buffer[..][ETH_HEADER_SIZE..ETH_HEADER_SIZE + IP_HLEN]);
        && h == IpHead(0x45, 0, (payloadLength + 20) % 0x1_0000, old(pid), 0, 255, protocol, h.headerChecksum, src, dst)
        && buffer[..] == Splice(old(buffer[..]), ETH_HEADER_SIZE, IpBytes(h))
      ensures InternetChecksum(buffer[..][ETH_HEADER_SIZE..ETH_HEADER_SIZE + IP_HLEN]) == 0
    {
      ghost var m := buffer[..];
      var totalLength: u16 := (payloadLength + 20) % 0x1_0000;
      var h := IpHead(0x45, 0, totalLength, pid, 0, 255, protocol, 0, src, dst);
      StoreIp(h, buffer, ETH_HEADER_SIZE);
      pid := (pid + 1) % 0x1_0000;
      var csum := ProtoChecksum(buffer, ETH_HEADER_SIZE, IP_HLEN);
      ghost var d := buffer[..];
      buffer[ETH_HEADER_SIZE + 10], buffer[ETH_HEADER_SIZE + 11] := csum / 0x100, csum % 0x100;
      assert buffer[..] == Splice(d, ETH_HEADER_SIZE + 10, Be16(csum));
      HeaderFilled(m, d, buffer[..], h, csum);
    }

    /** udp_set_header, behind whatever IP header the frame holds. */
    method UdpSetHeader(buffer: array<byte>, srcPort: u16, dstPort: u16, payloadLength: u16)
      requires buffer.Length > ETH_HEADER_SIZE
      requires ETH_HEADER_SIZE + Ip4GetHeaderLength(buffer[..]) + UDP_HLEN <= buffer.Length
      modifies buffer
      ensures var p := ETH_HEADER_SIZE + old(Ip4GetHeaderLength(buffer[..]));
        buffer[..] == Splice(old(buffer[..]), p, UdpBytes(UdpHead(srcPort, dstPort, (payloadLength + 8) % 0x1_0000, 0)))
    {
      var p := ETH_HEADER_SIZE + buffer[ETH_HEADER_SIZE] % 0x10 * 4;
      UdpMangle(UdpHead(srcPort, dstPort, (payloadLength + 8) % 0x1_0000, 0), buffer, p);
    }
  }
}
