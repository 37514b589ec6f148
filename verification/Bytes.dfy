/** Machine integers of the LPC17xx and their byte order. */
module Bytes {

  type byte = b: int | 0 <= b < 0x100
  type u16 = w: int | 0 <= w < 0x1_0000
  type u32 = w: int | 0 <= w < 0x1_0000_0000

  /** Big-endian (network order) encodings. */
  function Be16(w: u16): (s: seq<byte>)
    ensures |s| == 2
  {
    [w / 0x100, w % 0x100]
  }

  function Be32(w: u32): (s: seq<byte>)
    ensures |s| == 4
  {
    [w / 0x100_0000, w / 0x1_0000 % 0x100, w / 0x100 % 0x100, w % 0x100]
  }

  function FromBe16(s: seq<byte>): u16
    requires |s| == 2
  {
    s[0] as int * 0x100 + s[1]
  }

  function FromBe32(s: seq<byte>): u32
    requires |s| == 4
  {
    s[0] as int * 0x100_0000 + s[1] as int * 0x1_0000 + s[2] as int * 0x100 + s[3]
  }

  /** The same, at a place in a buffer. */
  function WordAt(b: seq<byte>, at: nat): u16
    requires at + 2 <= |b|
  {
    b[at] as int * 0x100 + b[at + 1]
  }

  function LongAt(b: seq<byte>, at: nat): u32
    requires at + 4 <= |b|
  {
    b[at] as int * 0x100_0000 + b[at + 1] as int * 0x1_0000 + b[at + 2] as int * 0x100 + b[at + 3]
  }

  /** Little-endian encoding: how the processor lays a word out in memory. */
  function Le32(w: u32): (s: seq<byte>)
    ensures |s| == 4
  {
    [w % 0x100, w / 0x100 % 0x100, w / 0x1_0000 % 0x100, w / 0x100_0000]
  }

  function FromLe32(s: seq<byte>): u32
    requires |s| == 4
  {
    s[0] as int + s[1] as int * 0x100 + s[2] as int * 0x1_0000 + s[3] as int * 0x100_0000
  }

  lemma Be16RoundTrip(w: u16, s: seq<byte>)
    requires |s| == 2
    ensures FromBe16(Be16(w)) == w && Be16(FromBe16(s)) == s
  {
  }

  lemma Be32RoundTrip(w: u32, s: seq<byte>)
    requires |s| == 4
    ensures FromBe32(Be32(w)) == w && Be32(FromBe32(s)) == s
  {
    Digits(s[0], s[1], s[2], s[3]);
    Parts(w);
  }

  lemma Le32RoundTrip(w: u32, s: seq<byte>)
    requires |s| == 4
    ensures FromLe32(Le32(w)) == w && Le32(FromLe32(s)) == s
  {
    Digits(s[3], s[2], s[1], s[0]);
    Parts(w);
  }

  lemma Parts(w: u32)
    ensures w / 0x100_0000 * 0x100_0000 + w / 0x1_0000 % 0x100 * 0x1_0000 + w / 0x100 % 0x100 * 0x100 + w % 0x100 == w
  {
    assert w / 0x100 / 0x100 == w / 0x1_0000 && w / 0x1_0000 / 0x100 == w / 0x100_0000;
  }

  /** The four digits of a number in base 256. */
  lemma Digits(a: byte, b: byte, c: byte, d: byte)
    ensures var w := a as int * 0x100_0000 + b as int * 0x1_0000 + c as int * 0x100 + d;
      w / 0x100_0000 == a && w / 0x1_0000 % 0x100 == b && w / 0x100 % 0x100 == c && w % 0x100 == d
  {
    var w := a as int * 0x100_0000 + b as int * 0x1_0000 + c as int * 0x100 + d;
    assert w / 0x1_0000 == a as int * 0x100 + b;
    assert w / 0x100 == a as int * 0x1_0000 + b as int * 0x100 + c;
  }
}
