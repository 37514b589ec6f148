/** The protocol headers of the network samples: Ethernet, ARP, IPv4, ICMP and UDP. A header is a
    value; mangling stores it into a packet buffer byte by byte, demangling reads it back. */
module Headers {
  import opened Bytes
  import opened Checksum
  import opened Memory

  const MAC_HLEN := 14
  const ARP_HLEN := 28
  const IP_HLEN := 20
  const ICMP_HLEN := 8
  const UDP_HLEN := 8
  const ECHO_REPLY: byte := 0
  const ECHO_REQUEST: byte := 8

  type Mac = s: seq<byte> | |s| == 6 witness [0, 0, 0, 0, 0, 0]

  datatype EthHead = EthHead(dst: Mac, src: Mac, etherType: u16)

  datatype ArpHead = ArpHead(hardType: u16, protocolType: u16, hlen: byte, plen: byte, opcode: u16,
                             senderMac: Mac, senderIp: u32, targetMac: Mac, targetIp: u32)

  datatype IpHead = IpHead(versionLength: byte, dscpEcn: byte, totalLength: u16, identification: u16,
                           flagsFragOffset: u16, ttl: byte, protocol: byte, headerChecksum: u16,
                           srcAddr: u32, dstAddr: u32)

  /** `raw` is the union: read as an echo header its low half is the identifier, its high half the
      sequence number. */
  datatype IcmpHead = IcmpHead(icmpType: byte, code: byte, checksum: u16, raw: u32) {
    predicate IsEcho() {
      icmpType == ECHO_REQUEST || icmpType == ECHO_REPLY
    }

    function Identifier(): u16 {
      raw % 0x1_0000
    }

    function SequenceNumber(): u16 {
      raw / 0x1_0000
    }
  }

  datatype UdpHead = UdpHead(srcPort: u16, dstPort: u16, len: u16, checksum: u16)

  // ---------------------------------------------------------------- what the wire format says

  function EthBytes(h: EthHead): (s: seq<byte>)
    ensures |s| == MAC_HLEN
  {
    h.dst + h.src + Be16(h.etherType)
  }

  function ArpBytes(h: ArpHead): (s: seq<byte>)
    ensures |s| == ARP_HLEN
  {
    Be16(h.hardType) + Be16(h.protocolType) + [h.hlen] + [h.plen] + Be16(h.opcode)
    + h.senderMac + Be32(h.senderIp) + h.targetMac + Be32(h.targetIp)
  }

  function IpBytes(h: IpHead): (s: seq<byte>)
    ensures |s| == IP_HLEN
  {
    [h.versionLength] + [h.dscpEcn] + Be16(h.totalLength) + Be16(h.identification) + Be16(h.flagsFragOffset)
    + [h.ttl] + [h.protocol] + Be16(h.headerChecksum) + Be32(h.srcAddr) + Be32(h.dstAddr)
  }

  /** An echo header carries the two halves of the union, each in network order; any other ICMP header
      carries the union as one word in network order. */
  function IcmpBytes(h: IcmpHead): (s: seq<byte>)
    ensures |s| == ICMP_HLEN
  {
    [h.icmpType] + [h.code] + Be16(h.checksum)
    + if h.IsEcho() then Be16(h.Identifier()) + Be16(h.SequenceNumber()) else Be32(h.raw)
  }

  function UdpBytes(h: UdpHead): (s: seq<byte>)
    ensures |s| == UDP_HLEN
  {
    Be16(h.srcPort) + Be16(h.dstPort) + Be16(h.len) + Be16(h.checksum)
  }

  function ParseEth(s: seq<byte>): EthHead
    requires |s| == MAC_HLEN
  {
    EthHead(s[..6], s[6..12], WordAt(s, 12))
  }

  function ParseArp(s: seq<byte>): ArpHead
    requires |s| == ARP_HLEN
  {
    ArpHead(WordAt(s, 0), WordAt(s, 2), s[4], s[5], WordAt(s, 6), s[8..14], LongAt(s, 14), s[18..24], LongAt(s, 24))
  }

  function ParseIp(s: seq<byte>): IpHead
    requires |s| == IP_HLEN
  {
    IpHead(s[0], s[1], WordAt(s, 2), WordAt(s, 4), WordAt(s, 6), s[8], s[9], WordAt(s, 10), LongAt(s, 12), LongAt(s, 16))
  }

  function ParseIcmp(s: seq<byte>): IcmpHead
    requires |s| == ICMP_HLEN
  {
    var raw: u32 := if s[0] == ECHO_REQUEST || s[0] == ECHO_REPLY
                    then WordAt(s, 4) as int + WordAt(s, 6) as int * 0x1_0000
                    else LongAt(s, 4);
    IcmpHead(s[0], s[1], WordAt(s, 2), raw)
  }

  function ParseUdp(s: seq<byte>): UdpHead
    requires |s| == UDP_HLEN
  {
    UdpHead(WordAt(s, 0), WordAt(s, 2), WordAt(s, 4), WordAt(s, 6))
  }

  // ---------------------------------------------------------------- both formats carry the same

  /** Reading a word where one has been encoded, and encoding a word where it has been read. */
  lemma WordThere(s: seq<byte>, at: nat, w: u16)
    requires at + 2 <= |s|
    ensures (s[at] == w / 0x100 && s[at + 1] == w % 0x100) <==> WordAt(s, at) == w
    ensures Be16(WordAt(s, at)) == [s[at], s[at + 1]]
  {
  }

  lemma LongThere(s: seq<byte>, at: nat, w: u32)
    requires at + 4 <= |s|
    ensures [s[at], s[at + 1], s[at + 2], s[at + 3]] == Be32(w) <==> LongAt(s, at) == w
    ensures Be32(LongAt(s, at)) == [s[at], s[at + 1], s[at + 2], s[at + 3]]
  {
    Be32RoundTrip(w, [s[at], s[at + 1], s[at + 2], s[at + 3]]);
  }

  lemma EthRoundTrip(h: EthHead, s: seq<byte>)
    requires |s| == MAC_HLEN
    ensures ParseEth(EthBytes(h)) == h && EthBytes(ParseEth(s)) == s
  {
    var b := EthBytes(h);
    assert b[..6] == h.dst && b[6..12] == h.src;
    WordThere(b, 12, h.etherType);
    WordThere(s, 12, h.etherType);
  }

  lemma ArpRoundTrip(h: ArpHead, s: seq<byte>)
    requires |s| == ARP_HLEN
    ensures ParseArp(ArpBytes(h)) == h && ArpBytes(ParseArp(s)) == s
  {
    ArpReadsBack(h);
    ArpWritesBack(s);
  }

  lemma ArpReadsBack(h: ArpHead)
    ensures ParseArp(ArpBytes(h)) == h
  {
    var b := ArpBytes(h);
    WordThere(b, 0, h.hardType);
    WordThere(b, 2, h.protocolType);
    WordThere(b, 6, h.opcode);
    LongThere(b, 14, h.senderIp);
    LongThere(b, 24, h.targetIp);
    assert b[8..14] == h.senderMac && b[18..24] == h.targetMac;
  }

  lemma ArpWritesBack(s: seq<byte>)
    requires |s| == ARP_HLEN
    ensures ArpBytes(ParseArp(s)) == s
  {
    WordThere(s, 0, 0);
    WordThere(s, 2, 0);
    WordThere(s, 6, 0);
    LongThere(s, 14, 0);
    LongThere(s, 24, 0);
  }

  lemma IpRoundTrip(h: IpHead, s: seq<byte>)
    requires |s| == IP_HLEN
    ensures ParseIp(IpBytes(h)) == h && IpBytes(ParseIp(s)) == s
  {
    IpReadsBack(h);
    IpWritesBack(s);
  }

  lemma IpReadsBack(h: IpHead)
    ensures ParseIp(IpBytes(h)) == h
  {
    var b := IpBytes(h);
    WordThere(b, 2, h.totalLength);
    WordThere(b, 4, h.identification);
    WordThere(b, 6, h.flagsFragOffset);
    WordThere(b, 10, h.headerChecksum);
    LongThere(b, 12, h.srcAddr);
    LongThere(b, 16, h.dstAddr);
  }

  lemma IpWritesBack(s: seq<byte>)
    requires |s| == IP_HLEN
    ensures IpBytes(ParseIp(s)) == s
  {
    WordThere(s, 2, 0);
    WordThere(s, 4, 0);
    WordThere(s, 6, 0);
    WordThere(s, 10, 0);
    LongThere(s, 12, 0);
    LongThere(s, 16, 0);
  }

  lemma IcmpRoundTrip(h: IcmpHead, s: seq<byte>)
    requires |s| == ICMP_HLEN
    ensures ParseIcmp(IcmpBytes(h)) == h && IcmpBytes(ParseIcmp(s)) == s
  {
    var b := IcmpBytes(h);
    WordThere(b, 2, h.checksum);
    WordThere(s, 2, 0);
    if h.IsEcho() {
      WordThere(b, 4, h.Identifier());
      WordThere(b, 6, h.SequenceNumber());
    } else {
      LongThere(b, 4, h.raw);
    }
    WordThere(s, 4, 0);
    WordThere(s, 6, 0);
    LongThere(s, 4, 0);
    Halves(WordAt(s, 4), WordAt(s, 6));
  }

  lemma Halves(lo: u16, hi: u16)
    ensures (lo + hi * 0x1_0000) % 0x1_0000 == lo && (lo + hi * 0x1_0000) / 0x1_0000 == hi
  {
  }

  lemma UdpRoundTrip(h: UdpHead, s: seq<byte>)
    requires |s| == UDP_HLEN
    ensures ParseUdp(UdpBytes(h)) == h && UdpBytes(ParseUdp(s)) == s
  {
    var b := UdpBytes(h);
    WordThere(b, 0, h.srcPort);
    WordThere(b, 2, h.dstPort);
    WordThere(b, 4, h.len);
    WordThere(b, 6, h.checksum);
    WordThere(s, 0, 0);
    WordThere(s, 2, 0);
    WordThere(s, 4, 0);
    WordThere(s, 6, 0);
  }

  // ---------------------------------------------------------------- storing, byte by byte

  /** A buffer with `bytes` written over it from `at` on. */
  function Splice(m: seq<byte>, at: nat, bytes: seq<byte>): (r: seq<byte>)
    requires at + |bytes| <= |m|
    ensures |r| == |m|
  {
    m[..at] + bytes + m[at + |bytes|..]
  }

  lemma SliceOfSlice(b: seq<byte>, from: nat, len: nat, lo: nat, hi: nat)
    requires from + len <= |b| && lo <= hi <= len
    ensures b[from..from + len][lo..hi] == b[from + lo..from + hi]
  {
    var s, t := b[from..from + len][lo..hi], b[from + lo..from + hi];
    assert |s| == |t| && forall i :: 0 <= i < |s| ==> s[i] == t[i];
  }

  lemma SpliceAt(m: seq<byte>, at: nat, bytes: seq<byte>, i: nat)
    requires at + |bytes| <= |m| && i < |m|
    ensures Splice(m, at, bytes)[i] == if at <= i < at + |bytes| then bytes[i - at] else m[i]
  {
  }

  lemma SpliceTwice(m: seq<byte>, at: nat, a: seq<byte>, b: seq<byte>)
    requires at + |a| + |b| <= |m|
    ensures Splice(Splice(m, at, a), at + |a|, b) == Splice(m, at, a + b)
  {
  }

  /** What has been stored so far: `done`, from `base` on. */
  ghost predicate Stored(data: array<byte>, m: seq<byte>, base: nat, done: seq<byte>, idx: nat)
    reads data
  {
    |m| == data.Length && idx == base + |done| && idx <= |m| && data[..] == Splice(m, base, done)
  }

  /** `dst[idx++] = b`. */
  method PutByte(data: array<byte>, idx: nat, b: byte, ghost m: seq<byte>, ghost base: nat, ghost done: seq<byte>)
    returns (next: nat)
    requires Stored(data, m, base, done, idx) && idx < data.Length
    modifies data
    ensures Stored(data, m, base, done + [b], next)
  {
    data[idx] := b;
    SpliceTwice(m, base, done, [b]);
    next := idx + 1;
  }

  method PutTwo(data: array<byte>, idx: nat, w: u16, ghost m: seq<byte>, ghost base: nat, ghost done: seq<byte>)
    returns (next: nat)
    requires Stored(data, m, base, done, idx) && idx + 2 <= data.Length
    modifies data
    ensures Stored(data, m, base, done + Be16(w), next)
  {
    next := PutByte(data, idx, w / 0x100, m, base, done);
    next := PutByte(data, next, w % 0x100, m, base, done + [w / 0x100]);
    assert done + [w / 0x100] + [w % 0x100] == done + Be16(w);
  }

  method PutFour(data: array<byte>, idx: nat, w: u32, ghost m: seq<byte>, ghost base: nat, ghost done: seq<byte>)
    returns (next: nat)
    requires Stored(data, m, base, done, idx) && idx + 4 <= data.Length
    modifies data
    ensures Stored(data, m, base, done + Be32(w), next)
  {
    ghost var b := Be32(w);
    next := PutByte(data, idx, w / 0x100_0000, m, base, done);
    OneMore(done, b, 0);
    next := PutByte(data, next, w / 0x1_0000 % 0x100, m, base, done + b[..1]);
    OneMore(done, b, 1);
    next := PutByte(data, next, w / 0x100 % 0x100, m, base, done + b[..2]);
    OneMore(done, b, 2);
    next := PutByte(data, next, w % 0x100, m, base, done + b[..3]);
    OneMore(done, b, 3);
  }

  lemma OneMore(done: seq<byte>, b: seq<byte>, i: nat)
    requires i < |b|
    ensures (if i == 0 then done else done + b[..i]) + [b[i]] == if i + 1 == |b| then done + b else done + b[..i + 1]
  {
  }

  method PutMac(data: array<byte>, idx: nat, mac: Mac, ghost m: seq<byte>, ghost base: nat, ghost done: seq<byte>)
    returns (next: nat)
    requires Stored(data, m, base, done, idx) && idx + 6 <= data.Length
    modifies data
    ensures Stored(data, m, base, done + mac, next)
  {
    next := PutByte(data, idx, mac[0], m, base, done);
    OneMore(done, mac, 0);
    next := PutByte(data, next, mac[1], m, base, done + mac[..1]);
    OneMore(done, mac, 1);
    next := PutByte(data, next, mac[2], m, base, done + mac[..2]);
    OneMore(done, mac, 2);
    next := PutByte(data, next, mac[3], m, base, done + mac[..3]);
    OneMore(done, mac, 3);
    next := PutByte(data, next, mac[4], m, base, done + mac[..4]);
    OneMore(done, mac, 4);
    next := PutByte(data, next, mac[5], m, base, done + mac[..5]);
    OneMore(done, mac, 5);
  }

  method EthMangle(eh: EthHead, data: array<byte>, base: nat)
    requires base + MAC_HLEN <= data.Length
    modifies data
    ensures data[..] == Splice(old(data[..]), base, EthBytes(eh))
  {
    ghost var m := data[..];
    var idx := PutMac(data, base, eh.dst, m, base, []);
    idx := PutMac(data, idx, eh.src, m, base, [] + eh.dst);
    idx := PutTwo(data, idx, eh.etherType, m, base, [] + eh.dst + eh.src);
    assert [] + eh.dst + eh.src + Be16(eh.etherType) == EthBytes(eh);
  }

  method ArpMangle(ah: ArpHead, data: array<byte>, base: nat)
    requires base + ARP_HLEN <= data.Length
    modifies data
    ensures data[..] == Splice(old(data[..]), base, ArpBytes(ah))
  {
    ghost var m, b := data[..], ArpBytes(ah);
    var idx := PutTwo(data, base, ah.hardType, m, base, []);
    idx := PutTwo(data, idx, ah.protocolType, m, base, [] + Be16(ah.hardType));
    assert [] + Be16(ah.hardType) + Be16(ah.protocolType) == b[..4];
    idx := PutByte(data, idx, ah.hlen, m, base, b[..4]);
    idx := PutByte(data, idx, ah.plen, m, base, b[..4] + [ah.hlen]);
    assert b[..4] + [ah.hlen] + [ah.plen] == b[..6];
    idx := PutTwo(data, idx, ah.opcode, m, base, b[..6]);
    assert b[..6] + Be16(ah.opcode) == b[..8];
    idx := PutMac(data, idx, ah.senderMac, m, base, b[..8]);
    assert b[..8] + ah.senderMac == b[..14];
    idx := PutFour(data, idx, ah.senderIp, m, base, b[..14]);
    assert b[..14] + Be32(ah.senderIp) == b[..18];
    idx := PutMac(data, idx, ah.targetMac, m, base, b[..18]);
    assert b[..18] + ah.targetMac == b[..24];
    idx := PutFour(data, idx, ah.targetIp, m, base, b[..24]);
    assert b[..24] + Be32(ah.targetIp) == b;
  }

  /** Header length in bytes, from the low half of the first byte. */
  function HeaderLength(h: IpHead): nat {
    h.versionLength % 0x10 * 4
  }

  /** Whether the header mangle stores checks to zero over the length it gives: always if that length
      takes in the checksum field, and else only if its first words happen to add up. */
  predicate Verifies(ih: IpHead) {
    HeaderLength(ih) >= 12 || OnesSum(IpBytes(ih)[..HeaderLength(ih)]) == 0xFFFF
  }

  /** Stores the header. A zero checksum asks for the checksum to be computed, over the header length
      the header itself gives, options in the buffer included; the header as stored is returned. */
  method IpMangle(ih: IpHead, data: array<byte>, base: nat) returns (stored: IpHead)
    requires base + IP_HLEN <= data.Length && base + HeaderLength(ih) <= data.Length
    modifies data
    ensures data[..] == Splice(old(data[..]), base, IpBytes(stored))
    ensures stored == ih.(headerChecksum := stored.headerChecksum)
    ensures ih.headerChecksum != 0 ==> stored == ih
    ensures ih.headerChecksum == 0 ==>
      stored.headerChecksum == InternetChecksum(Splice(old(data[..]), base, IpBytes(ih))[base..base + HeaderLength(ih)])
    ensures ih.headerChecksum == 0 ==>
      (InternetChecksum(data[..][base..base + HeaderLength(ih)]) == 0 <==> Verifies(ih))
  {
    ghost var m := data[..];
    StoreIp(ih, data, base);
    stored := ih;
    if ih.headerChecksum == 0 {
      var c := FillChecksum(ih, data, base, m);
      stored := ih.(headerChecksum := c);
    }
  }

  /** The checksum of the header just stored, computed and put into its field. */
  method FillChecksum(ih: IpHead, data: array<byte>, base: nat, ghost m: seq<byte>) returns (c: u16)
    requires base + IP_HLEN <= data.Length == |m| && base + HeaderLength(ih) <= data.Length && ih.headerChecksum == 0
    requires data[..] == Splice(m, base, IpBytes(ih))
    modifies data
    ensures c == InternetChecksum(Splice(m, base, IpBytes(ih))[base..base + HeaderLength(ih)])
    ensures data[..] == Splice(m, base, IpBytes(ih.(headerChecksum := c)))
    ensures InternetChecksum(data[..][base..base + HeaderLength(ih)]) == 0 <==> Verifies(ih)
  {
    ghost var d := data[..];
    c := ProtoChecksum(data, base, HeaderLength(ih));
    StoreChecksum(data, base + 10, c);
    ChecksumField(m, base, ih, c);
  }

  method StoreChecksum(data: array<byte>, at: nat, c: u16)
    requires at + 2 <= data.Length
    modifies data
    ensures data[..] == Splice(old(data[..]), at, Be16(c))
  {
    data[at], data[at + 1] := c / 0x100, c % 0x100;
  }

  /** The fields of the header, in order. */
  method StoreIp(ih: IpHead, data: array<byte>, base: nat)
    requires base + IP_HLEN <= data.Length
    modifies data
    ensures data[..] == Splice(old(data[..]), base, IpBytes(ih))
  {
    ghost var m, b := data[..], IpBytes(ih);
    var idx := PutByte(data, base, ih.versionLength, m, base, []);
    idx := PutByte(data, idx, ih.dscpEcn, m, base, [] + [ih.versionLength]);
    assert [] + [ih.versionLength] + [ih.dscpEcn] == b[..2];
    idx := PutTwo(data, idx, ih.totalLength, m, base, b[..2]);
    assert b[..2] + Be16(ih.totalLength) == b[..4];
    idx := PutTwo(data, idx, ih.identification, m, base, b[..4]);
    assert b[..4] + Be16(ih.identification) == b[..6];
    idx := PutTwo(data, idx, ih.flagsFragOffset, m, base, b[..6]);
    assert b[..6] + Be16(ih.flagsFragOffset) == b[..8];
    idx := PutByte(data, idx, ih.ttl, m, base, b[..8]);
    idx := PutByte(data, idx, ih.protocol, m, base, b[..8] + [ih.ttl]);
    assert b[..8] + [ih.ttl] + [ih.protocol] == b[..10];
    idx := PutTwo(data, idx, ih.headerChecksum, m, base, b[..10]);
    assert b[..10] + Be16(ih.headerChecksum) == b[..12];
    idx := PutFour(data, idx, ih.srcAddr, m, base, b[..12]);
    assert b[..12] + Be32(ih.srcAddr) == b[..16];
    idx := PutFour(data, idx, ih.dstAddr, m, base, b[..16]);
    assert b[..16] + Be32(ih.dstAddr) == b;
  }

  method IcmpMangle(ih: IcmpHead, data: array<byte>, base: nat)
    requires base + ICMP_HLEN <= data.Length
    modifies data
    ensures data[..] == Splice(old(data[..]), base, IcmpBytes(ih))
  {
    ghost var m, b := data[..], IcmpBytes(ih);
    var idx := PutByte(data, base, ih.icmpType, m, base, []);
    idx := PutByte(data, idx, ih.code, m, base, [] + [ih.icmpType]);
    assert [] + [ih.icmpType] + [ih.code] == b[..2];
    idx := PutTwo(data, idx, ih.checksum, m, base, b[..2]);
    assert b[..2] + Be16(ih.checksum) == b[..4];
    if ih.icmpType == ECHO_REQUEST || ih.icmpType == ECHO_REPLY {
      idx := PutTwo(data, idx, ih.Identifier(), m, base, b[..4]);
      assert b[..4] + Be16(ih.Identifier()) == b[..6];
      idx := PutTwo(data, idx, ih.SequenceNumber(), m, base, b[..6]);
      assert b[..6] + Be16(ih.SequenceNumber()) == b;
      return;
    }
    idx := PutFour(data, idx, ih.raw, m, base, b[..4]);
    assert b[..4] + Be32(ih.raw) == b;
  }

  method UdpMangle(uh: UdpHead, data: array<byte>, base: nat)
    requires base + UDP_HLEN <= data.Length
    modifies data
    ensures data[..] == Splice(old(data[..]), base, UdpBytes(uh))
  {
    ghost var m, b := data[..], UdpBytes(uh);
    var idx := PutTwo(data, base, uh.srcPort, m, base, []);
    assert [] + Be16(uh.srcPort) == b[..2];
    idx := PutTwo(data, idx, uh.dstPort, m, base, b[..2]);
    assert b[..2] + Be16(uh.dstPort) == b[..4];
    idx := PutTwo(data, idx, uh.len, m, base, b[..4]);
    assert b[..4] + Be16(uh.len) == b[..6];
    idx := PutTwo(data, idx, uh.checksum, m, base, b[..6]);
    assert b[..6] + Be16(uh.checksum) == b;
  }

  // ---------------------------------------------------------------- reading back

  method GetTwo(data: array<byte>, idx: nat) returns (w: u16, next: nat)
    requires idx + 2 <= data.Length
    ensures w == WordAt(data[..], idx) && next == idx + 2
  {
    return data[idx] as int * 0x100 + data[idx + 1], idx + 2;
  }

  method GetFour(data: array<byte>, idx: nat) returns (w: u32, next: nat)
    requires idx + 4 <= data.Length
    ensures w == LongAt(data[..], idx) && next == idx + 4
  {
    return data[idx] as int * 0x100_0000 + data[idx + 1] as int * 0x1_0000 + data[idx + 2] as int * 0x100
             + data[idx + 3], idx + 4;
  }

  method EthDemangle(data: array<byte>, base: nat) returns (eh: EthHead)
    requires base + MAC_HLEN <= data.Length
    ensures eh == ParseEth(data[..][base..base + MAC_HLEN])
  {
    var etherType, _ := GetTwo(data, base + 12);
    eh := EthHead(data[base..base + 6], data[base + 6..base + 12], etherType);
  }

  method ArpDemangle(data: array<byte>, base: nat) returns (ah: ArpHead)
    requires base + ARP_HLEN <= data.Length
    ensures ah == ParseArp(data[..][base..base + ARP_HLEN])
  {
    var hardType, idx := GetTwo(data, base);
    var protocolType; protocolType, idx := GetTwo(data, idx);
    var hlen, plen := data[idx], data[idx + 1];
    var opcode; opcode, idx := GetTwo(data, idx + 2);
    var senderMac := data[idx..idx + 6];
    var senderIp; senderIp, idx := GetFour(data, idx + 6);
    var targetMac := data[idx..idx + 6];
    var targetIp; targetIp, idx := GetFour(data, idx + 6);
    ah := ArpHead(hardType, protocolType, hlen, plen, opcode, senderMac, senderIp, targetMac, targetIp);
  }

  method IpDemangle(data: array<byte>, base: nat) returns (ih: IpHead)
    requires base + IP_HLEN <= data.Length
    ensures ih == ParseIp(data[..][base..base + IP_HLEN])
  {
    var versionLength, dscpEcn := data[base], data[base + 1];
    var totalLength, idx := GetTwo(data, base + 2);
    var identification; identification, idx := GetTwo(data, idx);
    var flagsFragOffset; flagsFragOffset, idx := GetTwo(data, idx);
    var ttl, protocol := data[idx], data[idx + 1];
    var headerChecksum; headerChecksum, idx := GetTwo(data, idx + 2);
    var srcAddr; srcAddr, idx := GetFour(data, idx);
    var dstAddr; dstAddr, idx := GetFour(data, idx);
    ih := IpHead(versionLength, dscpEcn, totalLength, identification, flagsFragOffset, ttl, protocol, headerChecksum,
                 srcAddr, dstAddr);
  }

  method IcmpDemangle(data: array<byte>, base: nat) returns (ih: IcmpHead)
    requires base + ICMP_HLEN <= data.Length
    ensures ih == ParseIcmp(data[..][base..base + ICMP_HLEN])
  {
    var checksum, idx := GetTwo(data, base + 2);
    var raw: u32;
    if data[base] == ECHO_REQUEST || data[base] == ECHO_REPLY {
      var identifier, sn;
      identifier, idx := GetTwo(data, idx);
      sn, idx := GetTwo(data, idx);
      raw := identifier as int + sn as int * 0x1_0000;
    } else {
      raw, idx := GetFour(data, idx);
    }
    ih := IcmpHead(data[base], data[base + 1], checksum, raw);
  }

  method UdpDemangle(data: array<byte>, base: nat) returns (uh: UdpHead)
    requires base + UDP_HLEN <= data.Length
    ensures uh == ParseUdp(data[..][base..base + UDP_HLEN])
  {
    var srcPort, idx := GetTwo(data, base);
    var dstPort; dstPort, idx := GetTwo(data, idx);
    var len; len, idx := GetTwo(data, idx);
    var checksum; checksum, idx := GetTwo(data, idx);
    uh := UdpHead(srcPort, dstPort, len, checksum);
  }

  // ---------------------------------------------------------------- proofs about splices

  lemma SpliceKeeps(m: seq<byte>, at: nat, bytes: seq<byte>, lo: nat, hi: nat)
    requires at + |bytes| <= |m| && lo <= hi <= |m|
    ensures hi <= at || at + |bytes| <= lo ==> Splice(m, at, bytes)[lo..hi] == m[lo..hi]
    ensures Splice(m, at, bytes)[at..at + |bytes|] == bytes
  {
  }

  /** A copy between areas that do not overlap writes the source over the destination. */
  lemma CopyApart(m: seq<byte>, src: nat, dest: nat, n: nat)
    requires src + n <= |m| && dest + n <= |m| && (dest + n <= src || src + n <= dest)
    ensures ByteCopy(m, dest, src, n) == Splice(m, dest, m[src..src + n])
  {
    ByteCopyDisjoint(m, dest, src, n);
    var e, s := ByteCopy(m, dest, src, n), m[src..src + n];
    forall i | 0 <= i < |m|
      ensures e[i] == Splice(m, dest, s)[i]
    {
      SpliceAt(m, dest, s, i);
      if dest <= i < dest + n {
        assert e[i] == m[i - dest + src] == s[i - dest];
      }
    }
  }

  /** Writing over a part of what was just written. */
  lemma SpliceField(m: seq<byte>, base: nat, bytes: seq<byte>, at: nat, field: seq<byte>)
    requires base + |bytes| <= |m| && at + |field| <= |bytes|
    ensures Splice(Splice(m, base, bytes), base + at, field) == Splice(m, base, Splice(bytes, at, field))
  {
  }

  /** Replacing a field between a front and a back. */
  lemma SpliceBetween(front: seq<byte>, c0: seq<byte>, c: seq<byte>, src: seq<byte>, dst: seq<byte>)
    requires |c| == |c0|
    ensures Splice(front + c0 + src + dst, |front|, c) == front + c + src + dst
  {
  }

  lemma ChecksumBytes(ih: IpHead, c: u16)
    ensures Splice(IpBytes(ih), 10, Be16(c)) == IpBytes(ih.(headerChecksum := c))
  {
    var front := [ih.versionLength] + [ih.dscpEcn] + Be16(ih.totalLength) + Be16(ih.identification)
                 + Be16(ih.flagsFragOffset) + [ih.ttl] + [ih.protocol];
    SpliceBetween(front, Be16(ih.headerChecksum), Be16(c), Be32(ih.srcAddr), Be32(ih.dstAddr));
    assert IpBytes(ih) == front + Be16(ih.headerChecksum) + Be32(ih.srcAddr) + Be32(ih.dstAddr);
    assert IpBytes(ih.(headerChecksum := c)) == front + Be16(c) + Be32(ih.srcAddr) + Be32(ih.dstAddr);
  }

  /** The stored header with its checksum put in afterwards. */
  lemma ChecksumField(m: seq<byte>, base: nat, ih: IpHead, c: u16)
    requires base + IP_HLEN <= |m| && base + HeaderLength(ih) <= |m| && ih.headerChecksum == 0
    requires c == InternetChecksum(Splice(m, base, IpBytes(ih))[base..base + HeaderLength(ih)])
    ensures var d := Splice(Splice(m, base, IpBytes(ih)), base + 10, Be16(c));
      d == Splice(m, base, IpBytes(ih.(headerChecksum := c)))
      && (InternetChecksum(d[base..base + HeaderLength(ih)]) == 0 <==> Verifies(ih))
  {
    var b := IpBytes(ih);
    SpliceField(m, base, b, 10, Be16(c));
    ChecksumBytes(ih, c);
    if HeaderLength(ih) >= 12 {
      LongHeader(m, base, ih);
    } else {
      ShortHeader(m, base, ih, c);
    }
  }

  lemma LongHeader(m: seq<byte>, base: nat, ih: IpHead)
    requires base + IP_HLEN <= |m| && base + HeaderLength(ih) <= |m| && ih.headerChecksum == 0 && HeaderLength(ih) >= 12
    ensures var s := Splice(m, base, IpBytes(ih));
      InternetChecksum(Splice(s, base + 10, Be16(InternetChecksum(s[base..base + HeaderLength(ih)])))
        [base..base + HeaderLength(ih)]) == 0
  {
    var s := Splice(m, base, IpBytes(ih));
    SpliceKeeps(m, base, IpBytes(ih), 0, 0);
    var b := s[base..base + IP_HLEN];
    assert b[10] == b[11] == 0 && s[base + 10] == b[10] && s[base + 11] == b[11];
    HeaderVerifies(s, base, HeaderLength(ih), 10);
  }

  /** A header length below three words leaves the checksum field out of the checksum. */
  lemma ShortHeader(m: seq<byte>, base: nat, ih: IpHead, c: u16)
    requires base + IP_HLEN <= |m| && HeaderLength(ih) < 12
    ensures Splice(m, base, IpBytes(ih.(headerChecksum := c)))[base..base + HeaderLength(ih)]
      == IpBytes(ih)[..HeaderLength(ih)]
  {
    var h, b, b' := HeaderLength(ih), IpBytes(ih), IpBytes(ih.(headerChecksum := c));
    var s := Splice(m, base, b');
    SpliceKeeps(m, base, b', 0, 0);
    SliceOfSlice(s, base, IP_HLEN, 0, h);
    ChecksumBytes(ih, c);
    SpliceKeeps(b, 10, Be16(c), 0, h);
  }

  /** A header that short which does not check to zero once stored. */
  lemma ShortHeaderFails()
    ensures !Verifies(IpHead(0x41, 0, 0, 0, 0, 0, 0, 0, 0, 0))
  {
    ShortSum(IpHead(0x41, 0, 0, 0, 0, 0, 0, 0, 0, 0));
  }

  /** And one that does. */
  lemma ShortHeaderMayPass()
    ensures Verifies(IpHead(0x41, 0, 0xBEFF, 0, 0, 0, 0, 0, 0, 0))
  {
    ShortSum(IpHead(0x41, 0, 0xBEFF, 0, 0, 0, 0, 0, 0, 0));
  }

  lemma ShortSum(ih: IpHead)
    requires HeaderLength(ih) == 4
    ensures OnesSum(IpBytes(ih)[..4]) == OnesAdd(ih.versionLength as int * 0x100 + ih.dscpEcn, ih.totalLength)
  {
    var b, p := IpBytes(ih)[..4], [ih.versionLength, ih.dscpEcn];
    assert b[..2] == p && b[2..] == Be16(ih.totalLength);
    Be16RoundTrip(ih.totalLength, p);
    assert p[..0] == [] && p[0..] == p;
    assert OnesSum(p) == OnesAdd(0, LastWord(p));
    assert OnesSum(b) == OnesAdd(OnesSum(b[..Cut(4)]), LastWord(b));
  }

  /** The checksum of data[base..base + n], taken with a zero field at an even offset and then stored
      in the field, makes the range check to zero. */
  lemma HeaderVerifies(d: seq<byte>, base: nat, n: nat, at: nat)
    requires at % 2 == 0 && at + 2 <= n && base + n <= |d| && d[base + at] == d[base + at + 1] == 0
    ensures InternetChecksum(Splice(d, base + at, Be16(InternetChecksum(d[base..base + n])))[base..base + n]) == 0
  {
    var b := d[base..base + n];
    FilledFieldVerifies(b, at);
    SetWordIs(b, at, InternetChecksum(b));
    SpliceWindow(d, base, n, at, Be16(InternetChecksum(b)));
  }

  lemma SpliceWindow(d: seq<byte>, base: nat, n: nat, at: nat, f: seq<byte>)
    requires base + n <= |d| && at + |f| <= n
    ensures Splice(d, base + at, f)[base..base + n] == d[base..base + n][..at] + f + d[base..base + n][at + |f|..]
  {
    var e, b := Splice(d, base + at, f), d[base..base + n];
    var s, t := e[base..base + n], b[..at] + f + b[at + |f|..];
    assert |s| == |t|;
    forall i | 0 <= i < n
      ensures s[i] == t[i]
    {
      assert s[i] == e[base + i];
      if i < at {
        assert t[i] == b[i] == d[base + i];
      } else if i < at + |f| {
        assert t[i] == f[i - at];
      } else {
        assert t[i] == b[i] == d[base + i];
      }
    }
  }
}
