/** The Internet checksum of the network samples, against the one's-complement sum of RFC 1071. */
module Checksum {
  import opened Bytes

  /** One's-complement addition: the carry out of the top comes back in at the bottom. */
  function OnesAdd(a: u16, b: u16): u16 {
    if a + b >= 0x1_0000 then a + b - 0xFFFF else a + b
  }

  /** Length of the part before the last word; an odd byte at the end is a word of its own. */
  function Cut(n: nat): nat
    requires n > 0
  {
    if n % 2 == 1 then n - 1 else n - 2
  }

  /** The last word, an odd byte padded with zero on the right (section 4.1 of RFC 1071). */
  function LastWord(b: seq<byte>): u16
    requires |b| > 0
  {
    if |b| % 2 == 1 then b[|b| - 1] as int * 0x100 else WordAt(b, |b| - 2)
  }

  /** The one's-complement sum of the 16-bit words, section 1 of RFC 1071. */
  function OnesSum(b: seq<byte>): u16 {
    if |b| == 0 then 0 else OnesAdd(OnesSum(b[..Cut(|b|)]), LastWord(b))
  }

  function InternetChecksum(b: seq<byte>): u16 {
    0xFFFF - OnesSum(b)
  }

  /** The plain sum the C code accumulates. */
  function Total(b: seq<byte>): nat {
    if |b| == 0 then 0 else Total(b[..Cut(|b|)]) + LastWord(b)
  }

  // ---------------------------------------------------------------- deferred carries

  /** The 16-bit value a sum stands for: its residue modulo 0xFFFF, written 0xFFFF unless the sum
      is 0. */
  function Canon(t: nat): u16 {
    if t == 0 then 0 else (t - 1) % 0xFFFF + 1
  }

  lemma CanonSmall(t: nat)
    requires t <= 0xFFFF
    ensures Canon(t) == t
  {
  }

  lemma CanonMultiple(t: nat, k: nat)
    requires t > 0
    ensures Canon(t + k * 0xFFFF) == Canon(t)
  {
    var q, r := (t - 1) / 0xFFFF, (t - 1) % 0xFFFF;
    assert t + k * 0xFFFF - 1 == (q + k) * 0xFFFF + r;
    ModUnique(t + k * 0xFFFF - 1, q + k, r);
  }

  lemma ModUnique(x: nat, q: nat, r: nat)
    requires x == q * 0xFFFF + r && r < 0xFFFF
    ensures x % 0xFFFF == r && x / 0xFFFF == q
  {
  }

  /** Folding the carries back leaves the value unchanged. */
  lemma FoldKeeps(t: nat)
    ensures Canon(t % 0x1_0000 + t / 0x1_0000) == Canon(t)
    ensures t >= 0x1_0000 ==> t % 0x1_0000 + t / 0x1_0000 < t
  {
    var h, l := t / 0x1_0000, t % 0x1_0000;
    assert t == (l + h) + h * 0xFFFF;
    if l + h > 0 {
      CanonMultiple(l + h, h);
    }
  }

  lemma CanonAdd(t: nat, w: u16)
    ensures OnesAdd(Canon(t), w) == Canon(t + w)
  {
    if t > 0 {
      var q, r := (t - 1) / 0xFFFF, (t - 1) % 0xFFFF;
      assert t == q * 0xFFFF + Canon(t);
      assert t + w == (Canon(t) + w) + q * 0xFFFF;
      CanonMultiple(Canon(t) + w, q);
      if Canon(t) + w > 0xFFFF {
        CanonMultiple(Canon(t) + w - 0xFFFF, 1);
        CanonSmall(Canon(t) + w - 0xFFFF);
      } else {
        CanonSmall(Canon(t) + w);
      }
    } else {
      CanonSmall(w);
    }
  }

  /** Adding everything first and folding the carries afterwards gives the one's-complement sum
      (section 2 of RFC 1071, deferred carries). */
  lemma {:induction false} DeferredCarries(b: seq<byte>)
    ensures OnesSum(b) == Canon(Total(b))
    decreases |b|
  {
    if |b| > 0 {
      DeferredCarries(b[..Cut(|b|)]);
      CanonAdd(Total(b[..Cut(|b|)]), LastWord(b));
    }
  }

  lemma {:induction false} TotalBound(b: seq<byte>)
    ensures 2 * Total(b) <= 0xFFFF * (|b| + |b| % 2)
    decreases |b|
  {
    if |b| > 0 {
      TotalBound(b[..Cut(|b|)]);
    }
  }

  /** proto_checksum and checksum: any buffer of up to 131074 bytes, odd lengths included. The 32-bit
      accumulator does not overflow. */
  method ProtoChecksum(buffer: array<byte>, start: nat, bytesCount: nat) returns (c: u16)
    requires start + bytesCount <= buffer.Length && bytesCount <= 131074
    ensures c == InternetChecksum(buffer[..][start..start + bytesCount])
  {
    ghost var b := buffer[..][start..start + bytesCount];
    var csum := AddWords(buffer, start, bytesCount, b);
    c := FoldCarries(csum);
    DeferredCarries(b);
    c := 0xFFFF - c;
  }

  /** The loop over words, and the odd byte. */
  method AddWords(buffer: array<byte>, start: nat, bytesCount: nat, ghost b: seq<byte>) returns (csum: u32)
    requires start + bytesCount <= buffer.Length && |b| == bytesCount <= 131074
    requires forall i {:trigger b[i]} :: 0 <= i < |b| ==> b[i] == buffer[start + i]
    ensures csum == Total(b)
  {
    var at, left := start, bytesCount;
    ghost var done := 0;
    csum := 0;
    while left >= 2
      invariant done + left == bytesCount && at == start + done && done % 2 == 0
      invariant csum == Total(b[..done])
    {
      NextWord(b, done);
      assert b[done] == buffer[at] && b[done + 1] == buffer[at + 1];
      csum := csum + (buffer[at] as int * 0x100 + buffer[at + 1]);
      at, left, done := at + 2, left - 2, done + 2;
    }
    LastByte(b, done);
    if left > 0 {
      csum := csum + buffer[at] as int * 0x100;
    }
  }

  /** The sum fits in 32 bits, whatever the bytes, exactly up to 131074 of them. */
  lemma TotalFits(n: nat)
    ensures (forall b: seq<byte> :: |b| == n ==> Total(b) < 0x1_0000_0000) <==> n <= 131074
  {
    if n <= 131074 {
      forall b: seq<byte> | |b| == n
        ensures Total(b) < 0x1_0000_0000
      {
        TotalBound(b);
      }
    } else {
      var b := seq(n, i => 0xFF as byte);
      FullTotal(b);
      assert Total(b) >= 0x1_0000_0000;
    }
  }

  /** The bound is reached by bytes of ones: the larger n, the larger the sum. */
  lemma {:induction false} FullTotal(b: seq<byte>)
    requires forall i :: 0 <= i < |b| ==> b[i] == 0xFF
    ensures Total(b) == 0xFFFF * (|b| / 2) + 0xFF00 * (|b| % 2)
    decreases |b|
  {
    if |b| > 0 {
      FullTotal(b[..Cut(|b|)]);
    }
  }

  lemma TotalSmall(b: seq<byte>)
    requires |b| <= 131074
    ensures Total(b) < 0x1_0000_0000
  {
    TotalBound(b);
  }

  /** The accumulator after one more word, and why it fits. */
  lemma NextWord(b: seq<byte>, done: nat)
    requires done % 2 == 0 && done + 2 <= |b| <= 131074
    ensures Total(b[..done + 2]) == Total(b[..done]) + WordAt(b, done) < 0x1_0000_0000
  {
    var p := b[..done + 2];
    assert p[..Cut(|p|)] == b[..done];
    TotalSmall(p);
  }

  lemma LastByte(b: seq<byte>, done: nat)
    requires done % 2 == 0 && done <= |b| <= done + 1 && |b| <= 131074
    ensures Total(b) == Total(b[..done]) + (if done < |b| then b[done] as int * 0x100 else 0) < 0x1_0000_0000
  {
    TotalSmall(b);
    if done == |b| {
      assert b[..done] == b;
    } else {
      OddByte(b, done);
    }
  }

  lemma OddByte(b: seq<byte>, done: nat)
    requires done % 2 == 0 && |b| == done + 1
    ensures Total(b) == Total(b[..done]) + b[done] as int * 0x100
  {
    assert Cut(|b|) == done;
  }

  /** The fold loop: it ends, and on the one's-complement value. */
  method FoldCarries(total: u32) returns (c: u16)
    ensures c == Canon(total)
  {
    var csum: u32 := total;
    while csum >= 0x1_0000
      invariant Canon(csum) == Canon(total)
      decreases csum
    {
      FoldKeeps(csum);
      csum := csum % 0x1_0000 + csum / 0x1_0000 % 0x1_0000;
    }
    CanonSmall(csum);
    return csum;
  }

  // ---------------------------------------------------------------- filling in the field

  /** The data with one word replaced. */
  function SetWord(b: seq<byte>, at: nat, w: u16): (r: seq<byte>)
    requires at + 2 <= |b|
    ensures |r| == |b|
  {
    b[at := w / 0x100][at + 1 := w % 0x100]
  }

  lemma SetWordIs(b: seq<byte>, at: nat, w: u16)
    requires at + 2 <= |b|
    ensures SetWord(b, at, w) == b[..at] + Be16(w) + b[at + 2..]
  {
  }

  /** Two bytes at an even offset are one word of the sum. */
  lemma {:induction false} TotalOfUpdate(b: seq<byte>, at: nat, w: u16)
    requires at % 2 == 0 && at + 2 <= |b|
    ensures Total(SetWord(b, at, w)) + WordAt(b, at) == Total(b) + w
    decreases |b|
  {
    var b', cut := SetWord(b, at, w), Cut(|b|);
    if at == cut {
      assert b'[..cut] == b[..cut];
      assert WordAt(b', at) == w;
    } else {
      TotalOfUpdate(b[..cut], at, w);
      assert b'[..cut] == SetWord(b[..cut], at, w);
      assert LastWord(b') == LastWord(b);
    }
  }

  /** A header whose checksum field was zero when the checksum was taken checks to zero once the field
      is filled: section 1 of RFC 1071, section 3.1 of RFC 791. */
  lemma FilledFieldVerifies(b: seq<byte>, at: nat)
    requires at % 2 == 0 && at + 2 <= |b| && b[at] == b[at + 1] == 0
    ensures InternetChecksum(SetWord(b, at, InternetChecksum(b))) == 0
  {
    var c := InternetChecksum(b);
    var b' := SetWord(b, at, c);
    TotalOfUpdate(b, at, c);
    DeferredCarries(b);
    DeferredCarries(b');
    var t := Total(b);
    assert Total(b') == t + c;
    if t == 0 {
      CanonSmall(0xFFFF);
    } else {
      var q := (t - 1) / 0xFFFF;
      assert t == q * 0xFFFF + Canon(t);
      assert t + c == 0xFFFF + q * 0xFFFF;
      CanonMultiple(0xFFFF, q);
      CanonSmall(0xFFFF);
    }
  }

  /** The two words that are zero in one's-complement arithmetic. */
  predicate BothZeros(v: u16, w: u16) {
    (v == 0 && w == 0xFFFF) || (v == 0xFFFF && w == 0)
  }

  /** Replacing one word shows, unless 0x0000 and 0xFFFF replace each other in data that holds some
      other word than zero. */
  lemma OneWordErrorShows(b: seq<byte>, at: nat, w: u16)
    requires at % 2 == 0 && at + 2 <= |b|
    ensures var v := WordAt(b, at);
      InternetChecksum(SetWord(b, at, w)) == InternetChecksum(b)
      <==> w == v || (BothZeros(v, w) && Total(b) != v)
  {
    TotalOfUpdate(b, at, w);
    WordCounts(b, at);
    SameChecksum(b, SetWord(b, at, w));
    SameCanon(Total(b) - WordAt(b, at), WordAt(b, at), w, Total(b), Total(SetWord(b, at, w)));
  }

  lemma SameChecksum(b: seq<byte>, c: seq<byte>)
    ensures InternetChecksum(b) == InternetChecksum(c) <==> Canon(Total(b)) == Canon(Total(c))
  {
    DeferredCarries(b);
    DeferredCarries(c);
  }

  /** A word is part of the sum. */
  lemma {:induction false} WordCounts(b: seq<byte>, at: nat)
    requires at % 2 == 0 && at + 2 <= |b|
    ensures WordAt(b, at) <= Total(b)
    decreases |b|
  {
    var cut := Cut(|b|);
    if at != cut {
      WordCounts(b[..cut], at);
    }
  }

  lemma SameCanon(rest: nat, v: u16, w: u16, t: nat, u: nat)
    requires t == rest + v && u == rest + w
    ensures Canon(t) == Canon(u) <==> v == w || (BothZeros(v, w) && rest != 0)
  {
    if v < w {
      CanonApart(rest, v, w);
    } else if w < v {
      CanonApart(rest, w, v);
    }
  }

  lemma CanonApart(rest: nat, v: u16, w: u16)
    requires v < w
    ensures Canon(rest + v) == Canon(rest + w) <==> v == 0 && w == 0xFFFF && rest != 0
  {
    if rest + v > 0 && Canon(rest + v) == Canon(rest + w) {
      assert (rest + w - 1) % 0xFFFF == (rest + v - 1) % 0xFFFF;
    }
  }
}
