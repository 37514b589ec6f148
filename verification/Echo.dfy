/** The ethernet sample: answering ARP requests and ICMP echo requests in place. */
module Echo {
  import opened Bytes
  import opened Checksum
  import opened Headers
  import opened Memory

  const FRAME := 1538
  const ARP: u16 := 0x0806
  const IP: u16 := 0x0800
  const ICMP: byte := 1
  const MY_IP: u32 := 0xC0A8_64C8

  /** The frame in the packet buffer at `at`. */
  function FrameAt(m: seq<byte>, at: nat): (frame: seq<byte>)
    requires at + FRAME <= |m|
    ensures |frame| == FRAME
  {
    m[at..at + FRAME]
  }

  /** Two packet buffers that do not overlap, in a memory of n bytes. */
  predicate Buffers(rxAt: nat, txAt: nat, n: nat) {
    rxAt + FRAME <= n && txAt + FRAME <= n && (rxAt + FRAME <= txAt || txAt + FRAME <= rxAt)
  }

  function EthOf(frame: seq<byte>): EthHead
    requires |frame| == FRAME
  {
    ParseEth(frame[..MAC_HLEN])
  }

  function ArpOf(frame: seq<byte>): ArpHead
    requires |frame| == FRAME
  {
    ParseArp(frame[MAC_HLEN..MAC_HLEN + ARP_HLEN])
  }

  function IpOf(frame: seq<byte>): IpHead
    requires |frame| == FRAME
  {
    ParseIp(frame[MAC_HLEN..MAC_HLEN + IP_HLEN])
  }

  /** Where the IP payload starts. */
  function PayloadStart(frame: seq<byte>): (p: nat)
    requires |frame| == FRAME
    ensures MAC_HLEN <= p <= MAC_HLEN + 60
  {
    MAC_HLEN + HeaderLength(IpOf(frame))
  }

  function IcmpOf(frame: seq<byte>): IcmpHead
    requires |frame| == FRAME
  {
    ParseIcmp(frame[PayloadStart(frame)..PayloadStart(frame) + ICMP_HLEN])
  }

  predicate ForMe(frame: seq<byte>, myIp: u32)
    requires |frame| == FRAME
  {
    if EthOf(frame).etherType == ARP then ArpOf(frame).targetIp == myIp
    else EthOf(frame).etherType == IP && IpOf(frame).dstAddr == myIp && IpOf(frame).protocol == ICMP
         && IcmpOf(frame).icmpType == ECHO_REQUEST
  }

  /** The lengths leave a number of data bytes that is not negative and lies inside the frame. */
  predicate DataFits(frame: seq<byte>)
    requires |frame| == FRAME
  {
    var hlen, total := HeaderLength(IpOf(frame)), IpOf(frame).totalLength;
    hlen + ICMP_HLEN <= total && MAC_HLEN + total <= FRAME
  }

  /** An echo request whose lengths are consistent: also a header of at least five words. */
  predicate WellFormedEcho(frame: seq<byte>)
    requires |frame| == FRAME
  {
    DataFits(frame) && HeaderLength(IpOf(frame)) >= IP_HLEN
  }

  /** What an ARP request is answered with. */
  function ArpReply(request: ArpHead, mac: Mac): ArpHead {
    ArpHead(1, IP, 6, 4, 2, mac, request.targetIp, request.senderMac, request.senderIp)
  }

  /** What answers an echo request (Echo or Echo Reply Message of RFC 792): addresses exchanged, type
      changed, identifier, sequence number and data returned, both checksums right. For IP options see
      OptionsReturned. */
  ghost predicate IsEchoReply(request: seq<byte>, reply: seq<byte>, mac: Mac)
    requires |request| == |reply| == FRAME && WellFormedEcho(request)
  {
    var req, rep := IpOf(request), IpOf(reply);
    var start, end := PayloadStart(request), MAC_HLEN + req.totalLength;
    && EthOf(reply) == EthHead(EthOf(request).src, mac, IP)
    && rep == req.(srcAddr := req.dstAddr, dstAddr := req.srcAddr, headerChecksum := rep.headerChecksum)
    && InternetChecksum(reply[MAC_HLEN..start]) == 0
    && IcmpOf(reply) == IcmpOf(request).(icmpType := ECHO_REPLY, checksum := IcmpOf(reply).checksum)
    && reply[start + ICMP_HLEN..end] == request[start + ICMP_HLEN..end]
    && InternetChecksum(reply[start..end]) == 0
  }

  /** Bytes memcpy moves behind the payload, between packets at these addresses. */
  function Spill(frame: seq<byte>, rxAt: nat, txAt: nat): (k: nat)
    requires |frame| == FRAME && DataFits(frame)
    ensures k == 0 || k == 32
    ensures MAC_HLEN + IpOf(frame).totalLength + k <= FRAME
  {
    var at := PayloadStart(frame) + ICMP_HLEN;
    var n := MAC_HLEN + IpOf(frame).totalLength - at;
    MemcpyLengthIs(txAt + at, rxAt + at, n);
    MemcpyLength(txAt + at, rxAt + at, n) - n
  }

  /** What of the transmit buffer an echo reply leaves as it was, and what it overwrites behind its
      end: the place of the IP options keeps its previous contents. */
  ghost predicate RestOfBuffer(request: seq<byte>, before: seq<byte>, after: seq<byte>, spill: nat)
    requires |request| == |before| == |after| == FRAME && WellFormedEcho(request)
    requires MAC_HLEN + IpOf(request).totalLength + spill <= FRAME
  {
    var start, end := PayloadStart(request), MAC_HLEN + IpOf(request).totalLength;
    && after[MAC_HLEN + IP_HLEN..start] == before[MAC_HLEN + IP_HLEN..start]
    && after[end..end + spill] == request[end..end + spill]
    && after[end + spill..] == before[end + spill..]
  }

  /** The frame that answers an ARP request: its reply over what was in the buffer. */
  predicate ArpAnswered(request: seq<byte>, before: seq<byte>, after: seq<byte>, mac: Mac)
    requires |request| == |before| == |after| == FRAME
  {
    && EthOf(after) == EthHead(EthOf(request).src, mac, ARP)
    && ArpOf(after) == ArpReply(ArpOf(request), mac)
    && after[MAC_HLEN + ARP_HLEN..] == before[MAC_HLEN + ARP_HLEN..]
  }

  /** process_packet, on the received packet at rxAt and the transmit buffer at txAt. `slot` says whether
      the transmit ring had a free descriptor; `size` is what the control word is given as the frame's
      size. An IP header length below five words makes the reply's headers overlap: such a reply is sent
      as well, in the transmit buffer, and nothing is said of its contents. */
  method ProcessPacket(mem: array<byte>, rxAt: nat, txAt: nat, mac: Mac, myIp: u32, slot: bool)
    returns (sent: bool, size: nat)
    requires Buffers(rxAt, txAt, mem.Length)
    requires var rx := FrameAt(mem[..], rxAt); EthOf(rx).etherType == IP && ForMe(rx, myIp) ==> DataFits(rx)
    modifies mem
    ensures mem[..] == Splice(old(mem[..]), txAt, FrameAt(mem[..], txAt))
    ensures sent <==> slot && ForMe(FrameAt(old(mem[..]), rxAt), myIp)
    ensures !sent ==> mem[..] == old(mem[..])
    ensures var rx, before, after := FrameAt(old(mem[..]), rxAt), FrameAt(old(mem[..]), txAt), FrameAt(mem[..], txAt);
      && (sent && EthOf(rx).etherType == ARP ==> ArpAnswered(rx, before, after, mac) && size == MAC_HLEN + ARP_HLEN)
      && (sent && EthOf(rx).etherType == IP ==> size == MAC_HLEN + IpOf(rx).totalLength)
      && (sent && EthOf(rx).etherType == IP && WellFormedEcho(rx) ==>
          IsEchoReply(rx, after, mac) && RestOfBuffer(rx, before, after, Spill(rx, rxAt, txAt)))
  {
    ghost var m := mem[..];
    ghost var f := FrameAt(m, txAt);
    sent, size := false, 0;
    HoldingFirst(m, txAt);
    var eth := ReceiveEth(mem, rxAt);
    if eth.etherType == ARP {
      var arp := ReceiveArp(mem, rxAt);
      if arp.targetIp != myIp || !slot {
        return;
      }
      f := AnswerArp(eth, arp, mem, txAt, mac, m, f);
      HoldingFrame(mem[..], m, txAt, f);
      return true, MAC_HLEN + ARP_HLEN;
    }
    if eth.etherType == IP {
      var ip := ReceiveIp(mem, rxAt);
      if ip.dstAddr != myIp || ip.protocol != ICMP {
        return;
      }
      var icmp := ReceiveIcmp(mem, rxAt, ip);
      if icmp.icmpType == ECHO_REQUEST && slot {
        f := AnswerEcho(mem, eth, ip, icmp, rxAt, txAt, mac, m, f);
        HoldingFrame(mem[..], m, txAt, f);
        return true, MAC_HLEN + ip.totalLength;
      }
    }
  }

  // ---------------------------------------------------------------- the received packet

  method ReceiveEth(mem: array<byte>, at: nat) returns (eth: EthHead)
    requires at + FRAME <= mem.Length
    ensures eth == EthOf(FrameAt(mem[..], at))
  {
    SliceOfSlice(mem[..], at, FRAME, 0, MAC_HLEN);
    eth := EthDemangle(mem, at);
    assert FrameAt(mem[..], at)[0..MAC_HLEN] == FrameAt(mem[..], at)[..MAC_HLEN];
  }

  method ReceiveArp(mem: array<byte>, at: nat) returns (arp: ArpHead)
    requires at + FRAME <= mem.Length
    ensures arp == ArpOf(FrameAt(mem[..], at))
  {
    SliceOfSlice(mem[..], at, FRAME, MAC_HLEN, MAC_HLEN + ARP_HLEN);
    arp := ArpDemangle(mem, at + MAC_HLEN);
  }

  method ReceiveIp(mem: array<byte>, at: nat) returns (ip: IpHead)
    requires at + FRAME <= mem.Length
    ensures ip == IpOf(FrameAt(mem[..], at))
  {
    SliceOfSlice(mem[..], at, FRAME, MAC_HLEN, MAC_HLEN + IP_HLEN);
    ip := IpDemangle(mem, at + MAC_HLEN);
  }

  method ReceiveIcmp(mem: array<byte>, at: nat, ip: IpHead) returns (icmp: IcmpHead)
    requires at + FRAME <= mem.Length && ip == IpOf(FrameAt(mem[..], at))
    ensures icmp == IcmpOf(FrameAt(mem[..], at))
  {
    var start := MAC_HLEN + HeaderLength(ip);
    SliceOfSlice(mem[..], at, FRAME, start, start + ICMP_HLEN);
    icmp := IcmpDemangle(mem, at + start);
  }

  // ---------------------------------------------------------------- the transmit buffer

  /** The memory d is m with the transmit buffer at `at` holding `frame`. */
  ghost predicate Holding(d: seq<byte>, m: seq<byte>, at: nat, frame: seq<byte>) {
    && |frame| == FRAME && at + FRAME <= |m| == |d|
    && forall i {:trigger d[i]} :: 0 <= i < |d| ==> d[i] == if at <= i < at + FRAME then frame[i - at] else m[i]
  }

  lemma HoldingFirst(m: seq<byte>, at: nat)
    requires at + FRAME <= |m|
    ensures Holding(m, m, at, FrameAt(m, at)) && m == Splice(m, at, FrameAt(m, at))
  {
  }

  lemma HoldingFrame(d: seq<byte>, m: seq<byte>, at: nat, frame: seq<byte>)
    requires Holding(d, m, at, frame)
    ensures |d| == |m| && FrameAt(d, at) == frame && d == Splice(m, at, FrameAt(d, at))
  {
    var s := Splice(m, at, frame);
    forall i | 0 <= i < |d|
      ensures d[i] == s[i]
    {
      SpliceAt(m, at, frame, i);
    }
  }

  /** Something stored in the transmit buffer. */
  lemma HoldingMore(d: seq<byte>, m: seq<byte>, at: nat, frame: seq<byte>, o: nat, bytes: seq<byte>, lo: nat)
    requires Holding(d, m, at, frame) && o + |bytes| <= FRAME && lo == at + o
    ensures Holding(Splice(d, lo, bytes), m, at, Splice(frame, o, bytes))
  {
    var e, f := Splice(d, lo, bytes), Splice(frame, o, bytes);
    forall i | 0 <= i < |d|
      ensures e[i] == if at <= i < at + FRAME then f[i - at] else m[i]
    {
      SpliceAt(d, lo, bytes, i);
      if at <= i < at + FRAME {
        SpliceAt(frame, o, bytes, i - at);
      }
    }
  }

  lemma HoldingPart(d: seq<byte>, m: seq<byte>, at: nat, frame: seq<byte>, o: nat, k: nat, lo: nat)
    requires Holding(d, m, at, frame) && o + k <= FRAME && lo == at + o
    ensures |d| == |m| && lo + k <= |d| && d[lo..lo + k] == frame[o..o + k]
  {
    HoldingFrame(d, m, at, frame);
    SliceOfSlice(d, at, FRAME, o, o + k);
  }

  method AnswerArp(eth: EthHead, arp: ArpHead, mem: array<byte>, txAt: nat, mac: Mac, ghost m: seq<byte>,
                   ghost f0: seq<byte>)
    returns (ghost f: seq<byte>)
    requires |m| == mem.Length && Holding(mem[..], m, txAt, f0)
    modifies mem
    ensures Holding(mem[..], m, txAt, f)
    ensures EthOf(f) == EthHead(eth.src, mac, eth.etherType) && ArpOf(f) == ArpReply(arp, mac)
    ensures f[MAC_HLEN + ARP_HLEN..] == f0[MAC_HLEN + ARP_HLEN..]
  {
    var ethReply := EthHead(eth.src, mac, eth.etherType);
    ghost var f1 := LayEth(ethReply, mem, txAt, m, f0);
    var arpSend := ArpReply(arp, mac);
    f := LayArp(arpSend, mem, txAt, m, f1);
    ArpLayers(f0, f1, f, ethReply, arpSend);
  }

  method LayEth(eth: EthHead, mem: array<byte>, txAt: nat, ghost m: seq<byte>, ghost f0: seq<byte>)
    returns (ghost f: seq<byte>)
    requires |m| == mem.Length && Holding(mem[..], m, txAt, f0)
    modifies mem
    ensures Holding(mem[..], m, txAt, f) && f == Splice(f0, 0, EthBytes(eth))
  {
    HoldingMore(mem[..], m, txAt, f0, 0, EthBytes(eth), txAt);
    EthMangle(eth, mem, txAt);
    f := Splice(f0, 0, EthBytes(eth));
  }

  method LayArp(arp: ArpHead, mem: array<byte>, txAt: nat, ghost m: seq<byte>, ghost f0: seq<byte>)
    returns (ghost f: seq<byte>)
    requires |m| == mem.Length && Holding(mem[..], m, txAt, f0)
    modifies mem
    ensures Holding(mem[..], m, txAt, f) && f == Splice(f0, MAC_HLEN, ArpBytes(arp))
  {
    HoldingMore(mem[..], m, txAt, f0, MAC_HLEN, ArpBytes(arp), txAt + MAC_HLEN);
    ArpMangle(arp, mem, txAt + MAC_HLEN);
    f := Splice(f0, MAC_HLEN, ArpBytes(arp));
  }

  /** A header that asks for its checksum. */
  method LayIp(ip: IpHead, mem: array<byte>, txAt: nat, ghost m: seq<byte>, ghost f0: seq<byte>)
    returns (ghost stored: IpHead, ghost f: seq<byte>)
    requires |m| == mem.Length && Holding(mem[..], m, txAt, f0) && ip.headerChecksum == 0
    modifies mem
    ensures Holding(mem[..], m, txAt, f) && f == Splice(f0, MAC_HLEN, IpBytes(stored))
    ensures stored == ip.(headerChecksum := stored.headerChecksum)
    ensures HeaderLength(ip) >= IP_HLEN ==> InternetChecksum(f[MAC_HLEN..MAC_HLEN + HeaderLength(ip)]) == 0
  {
    ghost var d := mem[..];
    stored := StoreHeader(ip, mem, txAt + MAC_HLEN);
    HoldingMore(d, m, txAt, f0, MAC_HLEN, IpBytes(stored), txAt + MAC_HLEN);
    f := Splice(f0, MAC_HLEN, IpBytes(stored));
    HoldingPart(mem[..], m, txAt, f, MAC_HLEN, HeaderLength(ip), txAt + MAC_HLEN);
  }

  /** What of the library's IP header this sample needs. */
  method StoreHeader(ip: IpHead, mem: array<byte>, base: nat) returns (ghost stored: IpHead)
    requires base + IP_HLEN <= mem.Length && base + HeaderLength(ip) <= mem.Length && ip.headerChecksum == 0
    modifies mem
    ensures mem[..] == Splice(old(mem[..]), base, IpBytes(stored))
    ensures stored == ip.(headerChecksum := stored.headerChecksum)
    ensures HeaderLength(ip) >= IP_HLEN ==> InternetChecksum(mem[..][base..base + HeaderLength(ip)]) == 0
  {
    stored := IpMangle(ip, mem, base);
  }

  lemma ArpLayers(m0: seq<byte>, m1: seq<byte>, m2: seq<byte>, eth: EthHead, arp: ArpHead)
    requires |m0| == FRAME && m1 == Splice(m0, 0, EthBytes(eth)) && m2 == Splice(m1, MAC_HLEN, ArpBytes(arp))
    ensures EthOf(m2) == eth && ArpOf(m2) == arp && m2[MAC_HLEN + ARP_HLEN..] == m0[MAC_HLEN + ARP_HLEN..]
  {
    Splices(m0, 0, EthBytes(eth));
    Splices(m1, MAC_HLEN, ArpBytes(arp));
    DropMore(m1, m0, MAC_HLEN, MAC_HLEN + ARP_HLEN);
    EthRoundTrip(eth, EthBytes(eth));
    ArpRoundTrip(arp, ArpBytes(arp));
  }

  /** The three parts of a buffer that has been written over. */
  lemma Splices(m: seq<byte>, at: nat, bytes: seq<byte>)
    requires at + |bytes| <= |m|
    ensures var s := Splice(m, at, bytes);
      && s[..at] == m[..at] && s[at..at + |bytes|] == bytes && s[at + |bytes|..] == m[at + |bytes|..]
      && (at == 0 ==> s[..|bytes|] == bytes)
  {
  }

  lemma DropMore(a: seq<byte>, b: seq<byte>, k: nat, j: nat)
    requires k <= j <= |a| == |b| && a[k..] == b[k..]
    ensures a[j..] == b[j..]
  {
    assert a[j..] == a[k..][j - k..] && b[j..] == b[k..][j - k..];
  }

  method AnswerEcho(mem: array<byte>, eth: EthHead, ip: IpHead, icmp: IcmpHead, rxAt: nat, txAt: nat, mac: Mac,
                    ghost m: seq<byte>, ghost f0: seq<byte>)
    returns (ghost f: seq<byte>)
    requires Buffers(rxAt, txAt, mem.Length) && |m| == mem.Length && Holding(mem[..], m, txAt, f0)
    requires var rx := FrameAt(m, rxAt);
      DataFits(rx) && eth == EthOf(rx) && ip == IpOf(rx) && icmp == IcmpOf(rx)
    requires eth.etherType == IP && icmp.icmpType == ECHO_REQUEST
    modifies mem
    ensures Holding(mem[..], m, txAt, f)
    ensures var rx := FrameAt(m, rxAt);
      WellFormedEcho(rx) ==> IsEchoReply(rx, f, mac) && RestOfBuffer(rx, f0, f, Spill(rx, rxAt, txAt))
  {
    ghost var rx := FrameAt(m, rxAt);
    var start, n := MAC_HLEN + HeaderLength(ip), ip.totalLength - HeaderLength(ip) - ICMP_HLEN;
    ghost var at, end := start + ICMP_HLEN, MAC_HLEN + ip.totalLength;
    ghost var all := end + Spill(rx, rxAt, txAt);
    SpillIs(rx, rxAt, txAt, at, n, all);
    ghost var ethReply, ipReply, f2 := AnswerLower(eth, ip, mem, txAt, mac, m, f0);
    f := AnswerIcmp(mem, icmp, rxAt, txAt, start, n, at, end, all, m, f2);
    if WellFormedEcho(rx) {
      LayersHold(rx, f2, f, ethReply, ipReply, start, at, end);
      BufferHolds(rx, f0, f2, f, start, end, all);
    }
  }

  lemma SpillIs(rx: seq<byte>, rxAt: nat, txAt: nat, at: nat, n: nat, all: nat)
    requires |rx| == FRAME && DataFits(rx) && at == PayloadStart(rx) + ICMP_HLEN
    requires n == IpOf(rx).totalLength - HeaderLength(IpOf(rx)) - ICMP_HLEN
    requires all == MAC_HLEN + IpOf(rx).totalLength + Spill(rx, rxAt, txAt)
    ensures at + n <= all <= FRAME && MemcpyLength(txAt + at, rxAt + at, n) == all - at
  {
  }

  /** The Ethernet and IP headers of an echo reply. */
  method AnswerLower(eth: EthHead, ip: IpHead, mem: array<byte>, txAt: nat, mac: Mac, ghost m: seq<byte>,
                     ghost f0: seq<byte>)
    returns (ghost ethOut: EthHead, ghost ipOut: IpHead, ghost f: seq<byte>)
    requires |m| == mem.Length && Holding(mem[..], m, txAt, f0)
    modifies mem
    ensures Holding(mem[..], m, txAt, f)
    ensures ethOut == EthHead(eth.src, mac, eth.etherType) && EthOf(f) == ethOut
    ensures ipOut == ip.(srcAddr := ip.dstAddr, dstAddr := ip.srcAddr, headerChecksum := ipOut.headerChecksum)
    ensures IpOf(f) == ipOut
    ensures HeaderLength(ip) >= IP_HLEN ==> InternetChecksum(f[MAC_HLEN..MAC_HLEN + HeaderLength(ip)]) == 0
    ensures f[MAC_HLEN + IP_HLEN..] == f0[MAC_HLEN + IP_HLEN..]
  {
    var ethReply := EthHead(eth.src, mac, eth.etherType);
    ghost var f1 := LayEth(ethReply, mem, txAt, m, f0);
    var ipReply := ip.(headerChecksum := 0, srcAddr := ip.dstAddr, dstAddr := ip.srcAddr);
    ipOut, f := LayIp(ipReply, mem, txAt, m, f1);
    ethOut := ethReply;
    LowerLayers(f0, f1, f, ethOut, ipOut);
  }

  /** The ICMP part: header, n bytes of data and what memcpy moves behind them, up to `all`, then the
      checksum over header and data. */
  method AnswerIcmp(mem: array<byte>, icmp: IcmpHead, rxAt: nat, txAt: nat, start: nat, n: nat, ghost at: nat,
                    ghost end: nat, ghost all: nat, ghost m: seq<byte>, ghost f2: seq<byte>)
    returns (ghost f: seq<byte>)
    requires Buffers(rxAt, txAt, mem.Length) && |m| == mem.Length && Holding(mem[..], m, txAt, f2)
    requires at == start + ICMP_HLEN && end == at + n <= all <= FRAME && icmp.icmpType == ECHO_REQUEST
    requires MemcpyLength(txAt + at, rxAt + at, n) == all - at
    modifies mem
    ensures Holding(mem[..], m, txAt, f)
    ensures f[..start] == f2[..start]
    ensures var h := ParseIcmp(f[start..at]); h == icmp.(icmpType := ECHO_REPLY, checksum := h.checksum)
    ensures var rx := FrameAt(m, rxAt);
      && f[at..end] == rx[at..end] && InternetChecksum(f[start..end]) == 0
      && f[end..all] == rx[end..all] && f[all..] == f2[all..]
  {
    var icmpReply := icmp.(icmpType := ECHO_REPLY, checksum := 0);
    ghost var f3 := LayIcmp(icmpReply, mem, txAt, start, m, f2);
    ghost var f4, payload := CopyPayload(mem, rxAt, txAt, start + ICMP_HLEN, n, all, m, f3);
    ghost var csum;
    csum, f := LayChecksum(mem, txAt, start, ICMP_HLEN + n, end, m, f4);
    IcmpStages(FrameAt(m, rxAt), f2, f3, f4, f, icmpReply, payload, csum, start, at, end, all);
  }

  method LayIcmp(icmp: IcmpHead, mem: array<byte>, txAt: nat, start: nat, ghost m: seq<byte>, ghost f0: seq<byte>)
    returns (ghost f: seq<byte>)
    requires |m| == mem.Length && Holding(mem[..], m, txAt, f0) && start + ICMP_HLEN <= FRAME
    modifies mem
    ensures Holding(mem[..], m, txAt, f) && f == Splice(f0, start, IcmpBytes(icmp))
  {
    HoldingMore(mem[..], m, txAt, f0, start, IcmpBytes(icmp), txAt + start);
    IcmpMangle(icmp, mem, txAt + start);
    f := Splice(f0, start, IcmpBytes(icmp));
  }

  /** The checksum over header and data, stored in its field. */
  method LayChecksum(mem: array<byte>, txAt: nat, start: nat, k: nat, ghost end: nat, ghost m: seq<byte>,
                     ghost f0: seq<byte>)
    returns (ghost csum: u16, ghost f: seq<byte>)
    requires |m| == mem.Length && Holding(mem[..], m, txAt, f0) && ICMP_HLEN <= k && end == start + k <= FRAME
    modifies mem
    ensures csum == InternetChecksum(f0[start..end])
    ensures Holding(mem[..], m, txAt, f) && f == Splice(f0, start + 2, Be16(csum))
  {
    var at := txAt + start;
    HoldingPart(mem[..], m, txAt, f0, start, k, at);
    var tmp := ProtoChecksum(mem, at, k);
    csum := tmp;
    HoldingMore(mem[..], m, txAt, f0, start + 2, Be16(csum), at + 2);
    StoreChecksum(mem, at + 2, tmp);
    f := Splice(f0, start + 2, Be16(csum));
  }

  lemma IcmpStages(rx: seq<byte>, m2: seq<byte>, m3: seq<byte>, m4: seq<byte>, m5: seq<byte>, icmp: IcmpHead,
                   payload: seq<byte>, csum: u16, start: nat, at: nat, end: nat, all: nat)
    requires at == start + ICMP_HLEN && at <= end <= all <= |m2| == |rx| && icmp.checksum == 0 && icmp.IsEcho()
    requires |payload| == all - at && payload == rx[at..all]
    requires m3 == Splice(m2, start, IcmpBytes(icmp)) && m4 == Splice(m3, at, payload)
    requires csum == InternetChecksum(m4[start..end]) && m5 == Splice(m4, start + 2, Be16(csum))
    ensures |m5| == |m2| && m5[..start] == m2[..start]
    ensures ParseIcmp(m5[start..at]) == icmp.(checksum := csum)
    ensures m5[at..end] == rx[at..end] && InternetChecksum(m5[start..end]) == 0
    ensures m5[end..all] == rx[end..all] && m5[all..] == m2[all..]
  {
    Undisturbed(m2, m3, m4, m5, IcmpBytes(icmp), payload, Be16(csum), start, at, all);
    IcmpLayer(m4, m5, icmp, csum, start, at, end);
    PayloadParts(rx, m5, at, end, all);
  }

  /** memcpy between the two packets. */
  method CopyPayload(mem: array<byte>, rxAt: nat, txAt: nat, at: nat, n: nat, ghost all: nat, ghost m: seq<byte>,
                     ghost f3: seq<byte>)
    returns (ghost f: seq<byte>, ghost payload: seq<byte>)
    requires Buffers(rxAt, txAt, mem.Length) && |m| == mem.Length && Holding(mem[..], m, txAt, f3)
    requires at <= all <= FRAME && all - at == MemcpyLength(txAt + at, rxAt + at, n)
    modifies mem
    ensures payload == FrameAt(m, rxAt)[at..all]
    ensures Holding(mem[..], m, txAt, f) && f == Splice(f3, at, payload)
  {
    var dest, src := txAt + at, rxAt + at;
    payload := FrameAt(m, rxAt)[at..all];
    PayloadMoved(mem[..], m, rxAt, txAt, f3, at, all - at, src, dest);
    HoldingMore(mem[..], m, txAt, f3, at, payload, dest);
    ghost var d := Splice(mem[..], dest, payload);
    var _ := Memcpy(mem, dest, src, n);
    assert mem[..] == d;
    f := Splice(f3, at, payload);
  }

  lemma PayloadMoved(d: seq<byte>, m: seq<byte>, rxAt: nat, txAt: nat, f3: seq<byte>, at: nat, n: nat, src: nat,
                     dest: nat)
    requires Buffers(rxAt, txAt, |m|) && Holding(d, m, txAt, f3) && at + n <= FRAME
    requires src == rxAt + at && dest == txAt + at
    ensures |d| == |m| && ByteCopy(d, dest, src, n) == Splice(d, dest, FrameAt(m, rxAt)[at..at + n])
  {
    PayloadSource(d, m, rxAt, txAt, f3, at, n, src);
    CopyApart(d, src, dest, n);
  }

  /** The received packet is not where the reply is built. */
  lemma PayloadSource(d: seq<byte>, m: seq<byte>, rxAt: nat, txAt: nat, f3: seq<byte>, at: nat, n: nat, src: nat)
    requires Buffers(rxAt, txAt, |m|) && Holding(d, m, txAt, f3) && at + n <= FRAME && src == rxAt + at
    ensures |d| == |m| && d[src..src + n] == FrameAt(m, rxAt)[at..at + n]
  {
    SliceOfSlice(m, rxAt, FRAME, at, at + n);
    assert d[src..src + n] == m[src..src + n];
  }

  // ---------------------------------------------------------------- IP options

  /** The place of the options of the request, in any buffer. */
  function OptionBytes(request: seq<byte>, buffer: seq<byte>): seq<byte>
    requires |request| == |buffer| == FRAME && WellFormedEcho(request)
  {
    buffer[MAC_HLEN + IP_HLEN..PayloadStart(request)]
  }

  /** The reply brings the options of the request back, whatever the buffer held before, exactly when
      there are none. */
  lemma OptionsReturned(request: seq<byte>, spill: nat)
    requires |request| == FRAME && WellFormedEcho(request) && MAC_HLEN + IpOf(request).totalLength + spill <= FRAME
    ensures (forall before: seq<byte>, after: seq<byte> |
        |before| == |after| == FRAME && RestOfBuffer(request, before, after, spill) ::
        OptionBytes(request, after) == OptionBytes(request, request))
      <==> HeaderLength(IpOf(request)) == IP_HLEN
  {
    var lo, hi := MAC_HLEN + IP_HLEN, PayloadStart(request);
    if lo < hi {
      var other := request[lo := if request[lo] == 0 then 1 else 0];
      assert RestOfBuffer(request, other, other, spill);
      assert OptionBytes(request, other)[0] != OptionBytes(request, request)[0];
    }
  }

  /** An echo request with one word of options and no data. */
  function OptionRequest(): (r: seq<byte>)
    ensures |r| == FRAME && r[12] == 8 && r[13] == 0
    ensures r[14] == 0x46 && r[16] == 0 && r[17] == 32 && r[23] == ICMP
    ensures r[30] == 0xC0 && r[31] == 0xA8 && r[32] == 0x64 && r[33] == 0xC8
    ensures r[34] == 7 && r[38] == ECHO_REQUEST
  {
    var head: seq<byte> := [8, 0, 0x46, 0, 0, 32, 0, 0, 0, 0, 0, ICMP, 0, 0, 0, 0, 0, 0,
                            0xC0, 0xA8, 0x64, 0xC8, 7, 0, 0, 0, ECHO_REQUEST];
    seq(FRAME, i => if 12 <= i < 39 then head[i - 12] else 0)
  }

  lemma OptionRequestParts()
    ensures var r := OptionRequest();
      && EthOf(r).etherType == IP && ForMe(r, MY_IP) && WellFormedEcho(r)
      && PayloadStart(r) == 38 && IpOf(r).totalLength == 32
  {
    var r := OptionRequest();
    OptionRequestEth(r);
    OptionRequestIp(r);
    OptionRequestIcmp(r);
  }

  lemma OptionRequestEth(r: seq<byte>)
    requires |r| == FRAME && r[12] == 8 && r[13] == 0
    ensures EthOf(r).etherType == IP
  {
    var eth := r[..MAC_HLEN];
    assert eth[12] == r[12] && eth[13] == r[13];
  }

  lemma OptionRequestIp(r: seq<byte>)
    requires |r| == FRAME && r[14] == 0x46 && r[16] == 0 && r[17] == 32 && r[23] == ICMP
    requires r[30] == 0xC0 && r[31] == 0xA8 && r[32] == 0x64 && r[33] == 0xC8
    ensures var ip := IpOf(r);
      HeaderLength(ip) == 24 && ip.totalLength == 32 && ip.protocol == ICMP && ip.dstAddr == MY_IP
  {
    var ip := r[MAC_HLEN..MAC_HLEN + IP_HLEN];
    assert ip[0] == r[14] && ip[2] == r[16] && ip[3] == r[17] && ip[9] == r[23];
    assert ip[16] == r[30] && ip[17] == r[31] && ip[18] == r[32] && ip[19] == r[33];
  }

  lemma OptionRequestIcmp(r: seq<byte>)
    requires |r| == FRAME && PayloadStart(r) == 38 && r[38] == ECHO_REQUEST
    ensures IcmpOf(r).icmpType == ECHO_REQUEST
  {
    assert r[38..38 + ICMP_HLEN][0] == r[38];
  }

  /** It is answered from a buffer with a zero there, without its option. */
  method StaleOptions(mem: array<byte>, rxAt: nat, txAt: nat, mac: Mac) returns (sent: bool, size: nat)
    requires Buffers(rxAt, txAt, mem.Length) && FrameAt(mem[..], rxAt) == OptionRequest()
    requires FrameAt(mem[..], txAt)[34] == 0
    modifies mem
    ensures sent && IsEchoReply(OptionRequest(), FrameAt(mem[..], txAt), mac)
    ensures FrameAt(mem[..], txAt)[34] == 0 != OptionRequest()[34]
  {
    ghost var before := FrameAt(mem[..], txAt);
    OptionRequestParts();
    sent, size := ProcessPacket(mem, rxAt, txAt, mac, MY_IP, true);
    OptionByte(before, FrameAt(mem[..], txAt), Spill(OptionRequest(), rxAt, txAt));
  }

  lemma OptionByte(before: seq<byte>, after: seq<byte>, spill: nat)
    requires |before| == |after| == FRAME && WellFormedEcho(OptionRequest()) && PayloadStart(OptionRequest()) == 38
    requires MAC_HLEN + IpOf(OptionRequest()).totalLength + spill <= FRAME
    requires RestOfBuffer(OptionRequest(), before, after, spill)
    ensures after[34] == before[34]
  {
    assert after[34] == after[34..38][0] && before[34] == before[34..38][0];
  }

  // ---------------------------------------------------------------- proofs about the layers

  lemma LowerLayers(m0: seq<byte>, m1: seq<byte>, m2: seq<byte>, eth: EthHead, ip: IpHead)
    requires |m0| == FRAME
    requires m1 == Splice(m0, 0, EthBytes(eth)) && m2 == Splice(m1, MAC_HLEN, IpBytes(ip))
    ensures EthOf(m2) == eth && IpOf(m2) == ip
    ensures m2[MAC_HLEN + IP_HLEN..] == m0[MAC_HLEN + IP_HLEN..]
  {
    Splices(m0, 0, EthBytes(eth));
    Splices(m1, MAC_HLEN, IpBytes(ip));
    DropMore(m1, m0, MAC_HLEN, MAC_HLEN + IP_HLEN);
    EthRoundTrip(eth, EthBytes(eth));
    IpRoundTrip(ip, IpBytes(ip));
  }

  /** The reply is built in layers; the ICMP layer leaves the lower ones alone. */
  lemma LayersHold(rx: seq<byte>, m2: seq<byte>, m5: seq<byte>, eth: EthHead, ip: IpHead, start: nat, at: nat, end: nat)
    requires |rx| == |m2| == |m5| == FRAME && WellFormedEcho(rx) && start == PayloadStart(rx)
    requires at == start + ICMP_HLEN && end == MAC_HLEN + IpOf(rx).totalLength
    requires EthOf(m2) == eth && IpOf(m2) == ip && m5[..start] == m2[..start]
    requires InternetChecksum(m2[MAC_HLEN..start]) == 0
    requires eth == EthHead(EthOf(rx).src, eth.src, IP)
    requires ip == IpOf(rx).(srcAddr := IpOf(rx).dstAddr, dstAddr := IpOf(rx).srcAddr, headerChecksum := ip.headerChecksum)
    requires var h := ParseIcmp(m5[start..at]); h == IcmpOf(rx).(icmpType := ECHO_REPLY, checksum := h.checksum)
    requires m5[at..end] == rx[at..end] && InternetChecksum(m5[start..end]) == 0
    ensures IsEchoReply(rx, m5, eth.src)
  {
    SamePrefix(m2, m5, start, 0, MAC_HLEN);
    SamePrefix(m2, m5, start, MAC_HLEN, MAC_HLEN + IP_HLEN);
    SamePrefix(m2, m5, start, MAC_HLEN, start);
    assert m5[..MAC_HLEN] == m5[0..MAC_HLEN] == m2[0..MAC_HLEN] == m2[..MAC_HLEN];
    assert IpOf(m5) == ip;
  }

  lemma SamePrefix(a: seq<byte>, b: seq<byte>, n: nat, lo: nat, hi: nat)
    requires lo <= hi <= n <= |a| && n <= |b| && a[..n] == b[..n]
    ensures a[lo..hi] == b[lo..hi]
  {
    assert a[lo..hi] == a[..n][lo..hi] && b[lo..hi] == b[..n][lo..hi];
  }

  /** The layers below the payload leave the rest of the buffer alone. */
  lemma BufferHolds(rx: seq<byte>, m0: seq<byte>, m2: seq<byte>, m5: seq<byte>, start: nat, end: nat, all: nat)
    requires |rx| == |m0| == |m2| == |m5| == FRAME && WellFormedEcho(rx) && start == PayloadStart(rx)
    requires end == MAC_HLEN + IpOf(rx).totalLength <= all <= FRAME
    requires m2[MAC_HLEN + IP_HLEN..] == m0[MAC_HLEN + IP_HLEN..] && m5[..start] == m2[..start]
    requires m5[end..all] == rx[end..all] && m5[all..] == m2[all..]
    ensures RestOfBuffer(rx, m0, m5, all - end)
  {
    var at := MAC_HLEN + IP_HLEN;
    SamePrefix(m2, m5, start, at, start);
    assert m2[at..][..start - at] == m2[at..start] && m0[at..][..start - at] == m0[at..start];
    assert m2[at..][all - at..] == m2[all..] && m0[at..][all - at..] == m0[all..];
  }

  lemma PayloadParts(rx: seq<byte>, m5: seq<byte>, at: nat, end: nat, all: nat)
    requires |rx| == |m5| && at <= end <= all <= |rx| && m5[at..all] == rx[at..all]
    ensures m5[at..end] == rx[at..end] && m5[end..all] == rx[end..all]
  {
    SliceOfSlice(m5, at, all - at, 0, end - at);
    SliceOfSlice(rx, at, all - at, 0, end - at);
    SliceOfSlice(m5, at, all - at, end - at, all - at);
    SliceOfSlice(rx, at, all - at, end - at, all - at);
  }

  /** The ICMP layers leave everything below `start` and behind the payload alone, and the payload
      survives the checksum. */
  lemma Undisturbed(m2: seq<byte>, m3: seq<byte>, m4: seq<byte>, m5: seq<byte>, head: seq<byte>, payload: seq<byte>,
                    field: seq<byte>, start: nat, at: nat, all: nat)
    requires |head| == ICMP_HLEN && |field| == 2 && at == start + ICMP_HLEN && all == at + |payload| <= |m2|
    requires m3 == Splice(m2, start, head)
    requires m4 == Splice(m3, at, payload)
    requires m5 == Splice(m4, start + 2, field)
    ensures m5[..start] == m2[..start]
    ensures m4[start..at] == head
    ensures m5[start..at] == head[..2] + field + head[4..]
    ensures m5[at..all] == payload
    ensures m5[all..] == m2[all..]
  {
    SpliceTwice(m2, start, head, payload);
    SpliceField(m2, start, head + payload, 2, field);
    assert Splice(head + payload, 2, field) == head[..2] + field + head[4..] + payload;
    Parts(m2, start, head[..2] + field + head[4..], payload);
    Parts(m2, start, head, payload);
  }

  lemma Parts(m: seq<byte>, start: nat, head: seq<byte>, payload: seq<byte>)
    requires start + |head| + |payload| <= |m|
    ensures var s := Splice(m, start, head + payload);
      && s[..start] == m[..start] && s[start..start + |head|] == head
      && s[start + |head|..start + |head| + |payload|] == payload
      && s[start + |head| + |payload|..] == m[start + |head| + |payload|..]
  {
  }

  lemma IcmpLayer(m4: seq<byte>, m5: seq<byte>, icmp: IcmpHead, csum: u16, start: nat, at: nat, end: nat)
    requires at == start + ICMP_HLEN && at <= end <= |m4| && icmp.checksum == 0 && icmp.IsEcho()
    requires m4[start..at] == IcmpBytes(icmp)
    requires csum == InternetChecksum(m4[start..end])
    requires m5 == Splice(m4, start + 2, Be16(csum))
    requires m5[start..at] == IcmpBytes(icmp)[..2] + Be16(csum) + IcmpBytes(icmp)[4..]
    ensures InternetChecksum(m5[start..end]) == 0
    ensures ParseIcmp(m5[start..at]) == icmp.(checksum := csum)
  {
    IcmpFieldClear(m4, icmp, start);
    HeaderVerifies(m4, start, end - start, 2);
    IcmpParsed(m5[start..at], icmp, csum);
  }

  lemma IcmpFieldClear(m4: seq<byte>, icmp: IcmpHead, start: nat)
    requires start + ICMP_HLEN <= |m4| && icmp.checksum == 0 && m4[start..start + ICMP_HLEN] == IcmpBytes(icmp)
    ensures m4[start + 2] == m4[start + 3] == 0
  {
    var s := m4[start..start + ICMP_HLEN];
    assert s[2] == s[3] == 0 && m4[start + 2] == s[2] && m4[start + 3] == s[3];
  }

  lemma IcmpParsed(s: seq<byte>, icmp: IcmpHead, csum: u16)
    requires icmp.checksum == 0 && icmp.IsEcho()
    requires s == IcmpBytes(icmp)[..2] + Be16(csum) + IcmpBytes(icmp)[4..]
    ensures |s| == ICMP_HLEN && ParseIcmp(s) == icmp.(checksum := csum)
  {
    IcmpFilled(icmp, csum);
    IcmpRoundTrip(icmp.(checksum := csum), IcmpBytes(icmp));
  }

  lemma IcmpFilled(icmp: IcmpHead, csum: u16)
    requires icmp.checksum == 0
    ensures IcmpBytes(icmp)[..2] + Be16(csum) + IcmpBytes(icmp)[4..] == IcmpBytes(icmp.(checksum := csum))
  {
    var tail := if icmp.IsEcho() then Be16(icmp.Identifier()) + Be16(icmp.SequenceNumber()) else Be32(icmp.raw);
    var head := [icmp.icmpType] + [icmp.code];
    Three(head, [0, 0], tail);
    assert IcmpBytes(icmp) == head + [0, 0] + tail;
    assert IcmpBytes(icmp.(checksum := csum)) == head + Be16(csum) + tail;
  }

  lemma Three(a: seq<byte>, b: seq<byte>, c: seq<byte>)
    ensures (a + b + c)[..|a|] == a && (a + b + c)[|a|..|a| + |b|] == b && (a + b + c)[|a| + |b|..] == c
  {
  }
}
