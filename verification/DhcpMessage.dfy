/** The DHCP message (section 2 of RFC 2131) as the sample keeps it: a packed struct of 300 bytes in
    the processor's memory, four of whose words are addresses. */
module DhcpMessage {
  import opened Bytes
  import opened Memory
  import opened Headers
  import opened Dhcp

  const CIADDR := 12
  const YIADDR := 16
  const SIADDR := 20
  const GIADDR := 24
  const CHADDR := 28

  /** Where byte i of a message comes from when the bytes of its four addresses are reversed. */
  function Mirror(i: nat): (j: nat)
    ensures j < DHCP_HLEN <==> i < DHCP_HLEN
  {
    if i < CIADDR then i
    else if i < YIADDR then CIADDR + YIADDR - 1 - i
    else if i < SIADDR then YIADDR + SIADDR - 1 - i
    else if i < GIADDR then SIADDR + GIADDR - 1 - i
    else if i < CHADDR then GIADDR + CHADDR - 1 - i
    else i
  }

  /** The message with the bytes of its four addresses reversed. */
  function Converted(s: seq<byte>): (r: seq<byte>)
    requires |s| == DHCP_HLEN
    ensures |r| == DHCP_HLEN
  {
    seq(DHCP_HLEN, i requires 0 <= i < DHCP_HLEN => s[Mirror(i)])
  }

  /** Conversion is its own inverse. */
  lemma ConvertedTwice(s: seq<byte>)
    requires |s| == DHCP_HLEN
    ensures Converted(Converted(s)) == s
  {
    assert forall i: nat :: Mirror(Mirror(i)) == i;
  }

  /** A word the processor holds in a field stands in the converted message in network order, and the
      other way round; all other bytes stay. */
  lemma ConvertedAddress(s: seq<byte>, field: nat)
    requires |s| == DHCP_HLEN && field in {CIADDR, YIADDR, SIADDR, GIADDR}
    ensures FromBe32(Converted(s)[field..field + 4]) == FromLe32(s[field..field + 4])
    ensures FromLe32(Converted(s)[field..field + 4]) == FromBe32(s[field..field + 4])
    ensures Converted(s)[..CIADDR] == s[..CIADDR] && Converted(s)[CHADDR..] == s[CHADDR..]
  {
  }

  // ---------------------------------------------------------------- in memory

  /** Memory with the word at `at` byte-reversed. */
  function Swapped(m: seq<byte>, at: nat): (r: seq<byte>)
    requires at + 4 <= |m|
    ensures |r| == |m|
  {
    seq(|m|, i requires 0 <= i < |m| => if at <= i < at + 4 then m[2 * at + 3 - i] else m[i])
  }

  /** Memory with the message at dh converted. */
  function ConvertedAt(m: seq<byte>, dh: nat): (r: seq<byte>)
    requires dh + DHCP_HLEN <= |m|
    ensures |r| == |m|
  {
    seq(|m|, i requires 0 <= i < |m| => if dh <= i < dh + DHCP_HLEN then m[dh + Mirror(i - dh)] else m[i])
  }

  /** `field = ntohl(field)`, on the word at `at`. */
  method SwapWord(mem: array<byte>, at: nat)
    requires at + 4 <= mem.Length
    modifies mem
    ensures mem[..] == Swapped(old(mem[..]), at)
  {
    ghost var s := mem[at..at + 4];
    var w := Ntohl(FromLe32(mem[at..at + 4]));
    SwappedBytes(s);
    mem[at], mem[at + 1] := w % 0x100, w / 0x100 % 0x100;
    mem[at + 2], mem[at + 3] := w / 0x1_0000 % 0x100, w / 0x100_0000;
  }

  lemma SwappedBytes(s: seq<byte>)
    requires |s| == 4
    ensures Le32(Ntohl(FromLe32(s))) == [s[3], s[2], s[1], s[0]]
  {
    var w := FromLe32(s);
    Le32RoundTrip(w, s);
    NtohlTwice(w);
    Reversed(w);
  }

  /** The four conversions, in place. */
  method SwapAddresses(mem: array<byte>, dh: nat)
    requires dh + DHCP_HLEN <= mem.Length
    modifies mem
    ensures mem[..] == ConvertedAt(old(mem[..]), dh)
  {
    ghost var m := mem[..];
    SwapWord(mem, dh + CIADDR);
    SwapWord(mem, dh + YIADDR);
    SwapWord(mem, dh + SIADDR);
    SwapWord(mem, dh + GIADDR);
    FourSwaps(m, dh);
  }

  lemma FourSwaps(m: seq<byte>, dh: nat)
    requires dh + DHCP_HLEN <= |m|
    ensures Swapped(Swapped(Swapped(Swapped(m, dh + CIADDR), dh + YIADDR), dh + SIADDR), dh + GIADDR)
      == ConvertedAt(m, dh)
  {
    var a := Swapped(m, dh + CIADDR);
    var b := Swapped(a, dh + YIADDR);
    var c := Swapped(b, dh + SIADDR);
    var d, e := Swapped(c, dh + GIADDR), ConvertedAt(m, dh);
    forall i | 0 <= i < |m|
      ensures d[i] == e[i]
    {
      var j := if dh + GIADDR <= i < dh + CHADDR then 2 * (dh + GIADDR) + 3 - i else i;
      var k := if dh + SIADDR <= j < dh + GIADDR then 2 * (dh + SIADDR) + 3 - j else j;
      var l := if dh + YIADDR <= k < dh + SIADDR then 2 * (dh + YIADDR) + 3 - k else k;
      var n := if dh + CIADDR <= l < dh + YIADDR then 2 * (dh + CIADDR) + 3 - l else l;
      assert d[i] == c[j] == b[k] == a[l] == m[n];
      assert n == if dh <= i < dh + DHCP_HLEN then dh + Mirror(i - dh) else i;
    }
  }

  /** The library's memcpy on a whole message. */
  method CopyMessage(mem: array<byte>, dest: nat, src: nat)
    requires dest + DHCP_HLEN <= mem.Length && src + DHCP_HLEN <= mem.Length
    requires dest + DHCP_HLEN <= src || src + DHCP_HLEN <= dest
    modifies mem
    ensures mem[..] == Copied(old(mem[..]), dest, src)
  {
    ghost var m := mem[..];
    MemcpyLengthIs(dest, src, DHCP_HLEN);
    CopyOfMessage(m, dest, src, DHCP_HLEN);
    var _ := Memcpy(mem, dest, src, DHCP_HLEN);
  }

  /** Memory with the message at src copied to dest. */
  function Copied(m: seq<byte>, dest: nat, src: nat): (r: seq<byte>)
    requires dest + DHCP_HLEN <= |m| && src + DHCP_HLEN <= |m|
    ensures |r| == |m|
  {
    seq(|m|, i requires 0 <= i < |m| => if dest <= i < dest + DHCP_HLEN then m[i - dest + src] else m[i])
  }

  lemma CopyOfMessage(m: seq<byte>, dest: nat, src: nat, n: nat)
    requires n == DHCP_HLEN && dest + n <= |m| && src + n <= |m| && (dest + n <= src || src + n <= dest)
    ensures ByteCopy(m, dest, src, n) == Copied(m, dest, src)
  {
    ByteCopyDisjoint(m, dest, src, n);
    var r := ByteCopy(m, dest, src, n);
    assert forall i :: 0 <= i < |m| ==> r[i] == Copied(m, dest, src)[i];
  }

  /** proto_dhcp_mangle: the message goes out with its addresses in network order, and the struct is
      left as it was. */
  method DhcpMangle(mem: array<byte>, dh: nat, data: nat)
    requires dh + DHCP_HLEN <= mem.Length && data + DHCP_HLEN <= mem.Length
    requires dh + DHCP_HLEN <= data || data + DHCP_HLEN <= dh
    modifies mem
    ensures mem[..] == Splice(old(mem[..]), data, Converted(old(mem[dh..dh + DHCP_HLEN])))
  {
    ghost var m := mem[..];
    SwapAddresses(mem, dh);
    CopyMessage(mem, data, dh);
    SwapAddresses(mem, dh);
    MangleSteps(m, dh, data);
  }

  lemma MangleSteps(m: seq<byte>, dh: nat, data: nat)
    requires dh + DHCP_HLEN <= |m| && data + DHCP_HLEN <= |m|
    requires dh + DHCP_HLEN <= data || data + DHCP_HLEN <= dh
    ensures ConvertedAt(Copied(ConvertedAt(m, dh), data, dh), dh)
      == Splice(m, data, Converted(m[dh..dh + DHCP_HLEN]))
  {
    var d := ConvertedAt(Copied(ConvertedAt(m, dh), data, dh), dh);
    var e := Splice(m, data, Converted(m[dh..dh + DHCP_HLEN]));
    forall i | 0 <= i < |m|
      ensures d[i] == e[i]
    {
      MangleStep(m, dh, data, i);
    }
  }

  lemma MangleStep(m: seq<byte>, dh: nat, data: nat, i: nat)
    requires dh + DHCP_HLEN <= |m| && data + DHCP_HLEN <= |m| && i < |m|
    requires dh + DHCP_HLEN <= data || data + DHCP_HLEN <= dh
    ensures ConvertedAt(Copied(ConvertedAt(m, dh), data, dh), dh)[i]
      == if data <= i < data + DHCP_HLEN then m[dh + Mirror(i - data)] else m[i]
  {
    if dh <= i < dh + DHCP_HLEN {
      assert Mirror(Mirror(i - dh)) == i - dh;
    }
  }

  /** proto_dhcp_demangle. */
  method DhcpDemangle(mem: array<byte>, dh: nat, data: nat)
    requires dh + DHCP_HLEN <= mem.Length && data + DHCP_HLEN <= mem.Length
    requires dh + DHCP_HLEN <= data || data + DHCP_HLEN <= dh
    modifies mem
    ensures mem[..] == Splice(old(mem[..]), dh, Converted(old(mem[data..data + DHCP_HLEN])))
  {
    ghost var m := mem[..];
    CopyMessage(mem, dh, data);
    SwapAddresses(mem, dh);
    DemangleSteps(m, dh, data);
  }

  lemma DemangleSteps(m: seq<byte>, dh: nat, data: nat)
    requires dh + DHCP_HLEN <= |m| && data + DHCP_HLEN <= |m|
    requires dh + DHCP_HLEN <= data || data + DHCP_HLEN <= dh
    ensures ConvertedAt(Copied(m, dh, data), dh) == Splice(m, dh, Converted(m[data..data + DHCP_HLEN]))
  {
    var d := ConvertedAt(Copied(m, dh, data), dh);
    var e := Splice(m, dh, Converted(m[data..data + DHCP_HLEN]));
    assert forall i :: 0 <= i < |m| ==> d[i] == e[i];
  }

  /** A message mangled into a packet and demangled from it elsewhere is the message. */
  method MessageRoundTrip(mem: array<byte>, dh: nat, data: nat, back: nat)
    requires dh + DHCP_HLEN <= data && data + DHCP_HLEN <= back && back + DHCP_HLEN <= mem.Length
    modifies mem
    ensures mem[back..back + DHCP_HLEN] == old(mem[dh..dh + DHCP_HLEN])
    ensures mem[..back] == old(mem[..data]) + Converted(old(mem[dh..dh + DHCP_HLEN])) + old(mem[data + DHCP_HLEN..back])
  {
    ghost var m := mem[..];
    ghost var s := m[dh..dh + DHCP_HLEN];
    DhcpMangle(mem, dh, data);
    ghost var p := mem[..];
    SpliceKeeps(m, data, Converted(s), 0, 0);
    assert mem[data..data + DHCP_HLEN] == p[data..data + DHCP_HLEN];
    DhcpDemangle(mem, back, data);
    ConvertedTwice(s);
    SpliceKeeps(p, back, s, 0, back);
    assert mem[back..back + DHCP_HLEN] == mem[..][back..back + DHCP_HLEN];
    assert mem[..back] == mem[..][..back] == p[..back];
  }
}
