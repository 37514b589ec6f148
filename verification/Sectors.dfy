/** The flash memory of the LPC1768 as the in-application programming (IAP) ROM sees it: its sector
    map, the log of ROM commands, and what each command may do to the memory. */
module Sectors {
  import opened Bytes

  const FLASH_SIZE := 0x8_0000
  const SECTOR_COUNT := 30
  const SMALL_SECTOR := 4096
  const LARGE_SECTOR := 32768
  const FIRST_LARGE := 16
  const BLANK: byte := 0xFF

  function SectorOf(address: nat): nat {
    if address < 0x1_0000 then address / 4096 else 16 + (address - 0x1_0000) / 32768
  }

  function AddressOf(sector: nat): nat {
    if sector < 16 then sector * 4096 else 0x1_0000 + (sector - 16) * 32768
  }

  function SizeOf(sector: nat): nat {
    if sector < 16 then SMALL_SECTOR else LARGE_SECTOR
  }

  lemma SectorEnd(sector: nat)
    ensures AddressOf(sector + 1) == AddressOf(sector) + SizeOf(sector)
  {
  }

  /** The two maps agree: an address lies in a sector exactly when it is between the sector's start
      and the start of the next. */
  lemma SectorMap(address: nat, sector: nat)
    ensures SectorOf(address) == sector <==> AddressOf(sector) <= address < AddressOf(sector + 1)
  {
  }

  lemma SectorOrder(a: nat, b: nat)
    requires a <= b
    ensures SectorOf(a) <= SectorOf(b)
  {
  }

  lemma AddressOrder(a: nat, b: nat)
    requires a <= b
    ensures AddressOf(a) <= AddressOf(b)
    ensures b <= SECTOR_COUNT ==> AddressOf(b) <= FLASH_SIZE
  {
  }

  // ---------------------------------------------------------------- what programming does

  /** Bitwise and. Programming can only clear bits. */
  function And(a: byte, b: byte): (r: byte)
    ensures r <= a && r <= b
  {
    if a == 0 || b == 0 then 0
    else 2 * And(a / 2, b / 2) + if a % 2 == 1 && b % 2 == 1 then 1 else 0
  }

  function Ones(bits: nat): nat {
    if bits == 0 then 0 else 2 * Ones(bits - 1) + 1
  }

  lemma {:induction false} AndOnes(bits: nat, ones: byte, b: byte)
    requires ones == Ones(bits) && b <= ones
    ensures And(ones, b) == b
  {
    if bits > 0 && b > 0 {
      assert ones / 2 == Ones(bits - 1) && ones % 2 == 1;
      AndOnes(bits - 1, ones / 2, b / 2);
    }
  }

  /** A blank byte takes whatever is programmed over it. */
  lemma AndBlank()
    ensures forall b: byte :: And(BLANK, b) == b
  {
    forall b: byte ensures And(BLANK, b) == b {
      assert Ones(8) == 0xFF;
      AndOnes(8, BLANK, b);
    }
  }

  ghost predicate SameOutside(m: seq<byte>, m': seq<byte>, lo: int, hi: int) {
    |m'| == |m| && forall i {:trigger m'[i]} :: 0 <= i < |m| && !(lo <= i < hi) ==> m'[i] == m[i]
  }

  ghost predicate Blank(m: seq<byte>, lo: nat, hi: nat) {
    hi <= |m| && forall i :: lo <= i < hi ==> m[i] == BLANK
  }

  /** m' holds at `at` the n bytes that m holds at `from`. */
  ghost predicate Holds(m': seq<byte>, at: nat, m: seq<byte>, from: nat, n: nat) {
    n == 0 || (at + n <= |m'| && from + n <= |m|
               && forall i {:trigger m'[i]} :: at <= i < at + n ==> m'[i] == m[i - at + from])
  }

  ghost predicate Programmed(m': seq<byte>, at: nat, m: seq<byte>, from: nat, n: nat) {
    at + n <= |m'| && |m'| == |m| && from + n <= |m|
    && forall i {:trigger m'[i]} :: at <= i < at + n ==> m'[i] == And(m[i], m[i - at + from])
  }

  // ---------------------------------------------------------------- the command log

  datatype Command =
    | Prepare(first: nat, last: nat, ok: bool)
    | Erase(first: nat, last: nat, ok: bool)
    | Burn(dest: nat, source: nat, length: nat, ok: bool)

  /** A sector stays prepared from a successful preparation to the next erase or copy, whatever
      becomes of that command. */
  predicate Prepared(log: seq<Command>, sector: nat) {
    |log| > 0 &&
    match log[|log| - 1]
    case Prepare(first, last, ok) => (ok && first <= sector <= last) || Prepared(log[..|log| - 1], sector)
    case Erase(_, _, _) => false
    case Burn(_, _, _, _) => false
  }

  /** The byte has been programmed, or tried to be, since its sector was last erased. */
  ghost predicate Burnt(log: seq<Command>, address: nat) {
    |log| > 0 &&
    match log[|log| - 1]
    case Prepare(_, _, _) => Burnt(log[..|log| - 1], address)
    case Erase(first, last, ok) =>
      !(ok && first <= SectorOf(address) <= last) && Burnt(log[..|log| - 1], address)
    case Burn(dest, _, length, _) => dest <= address < dest + length || Burnt(log[..|log| - 1], address)
  }

  predicate AllPrepared(log: seq<Command>, first: nat, last: nat) {
    forall s :: first <= s <= last ==> Prepared(log, s)
  }

  /** The limits iap.h documents for a copy: where it may go, where it comes from, how long it is. */
  predicate CopyLimits(dest: nat, source: nat, length: nat, memory: nat) {
    && dest % 256 == 0 && source % 4 == 0
    && length in {256, 512, 1024, 4096}
    && dest + length <= FLASH_SIZE <= source && source + length <= memory
  }

  predicate MayErase(log: seq<Command>, first: nat, last: nat) {
    first <= last < SECTOR_COUNT && AllPrepared(log, first, last)
  }

  predicate MayBurn(log: seq<Command>, dest: nat, source: nat, length: nat, memory: nat) {
    && CopyLimits(dest, source, length, memory)
    && AllPrepared(log, SectorOf(dest), SectorOf(dest + length - 1))
  }

  /** An erase or copy meets prepared sectors, and a copy meets bytes not programmed since the last
      erase. */
  ghost predicate InOrder(log: seq<Command>, c: Command) {
    match c
    case Prepare(_, _, _) => true
    case Erase(first, last, _) => AllPrepared(log, first, last)
    case Burn(dest, _, length, _) =>
      length > 0 && AllPrepared(log, SectorOf(dest), SectorOf(dest + length - 1))
      && forall a :: dest <= a < dest + length ==> !Burnt(log, a)
  }

  /** Every command issued since the log had `from` entries was in order when it was issued. */
  ghost predicate Disciplined(log: seq<Command>, from: nat) {
    forall k {:trigger InOrder(log[..k], log[k])} :: from <= k < |log| ==> InOrder(log[..k], log[k])
  }

  lemma DisciplinedStep(log: seq<Command>, from: nat, c: Command)
    requires Disciplined(log, from) && InOrder(log, c)
    ensures Disciplined(log + [c], from)
  {
    var l := log + [c];
    forall k | from <= k < |l| ensures InOrder(l[..k], l[k]) {
      if k < |log| {
        assert l[..k] == log[..k];
      } else {
        assert l[..k] == log;
      }
    }
  }

  lemma DisciplinedJoin(log: seq<Command>, longer: seq<Command>, from: nat)
    requires log <= longer && Disciplined(log, from) && Disciplined(longer, |log|)
    ensures Disciplined(longer, from)
  {
    forall k | from <= k < |longer| ensures InOrder(longer[..k], longer[k]) {
      if k < |log| {
        assert longer[..k] == log[..k] && longer[k] == log[k];
      }
    }
  }

  lemma AfterPrepare(log: seq<Command>, s: nat)
    ensures Prepared(log + [Prepare(s, s, true)], s)
    ensures AllPrepared(log + [Prepare(s, s, true)], s, s)
  {
    var l := log + [Prepare(s, s, true)];
    assert l[|l| - 1] == Prepare(s, s, true);
  }

  /** A successful erase makes the sector's bytes programmable again; preparing keeps them so. */
  lemma AfterErase(log: seq<Command>, s: nat, a: nat)
    requires SectorOf(a) == s
    ensures !Burnt(log + [Erase(s, s, true)], a)
  {
    var l := log + [Erase(s, s, true)];
    assert l[|l| - 1] == Erase(s, s, true);
  }

  lemma PrepareKeepsBurnt(log: seq<Command>, s: nat, ok: bool, a: nat)
    ensures Burnt(log + [Prepare(s, s, ok)], a) <==> Burnt(log, a)
  {
    var l := log + [Prepare(s, s, ok)];
    assert l[|l| - 1] == Prepare(s, s, ok) && l[..|l| - 1] == log;
  }

  lemma BurnMarks(log: seq<Command>, dest: nat, source: nat, length: nat, ok: bool, a: nat)
    ensures Burnt(log + [Burn(dest, source, length, ok)], a) <==> dest <= a < dest + length || Burnt(log, a)
  {
    var l := log + [Burn(dest, source, length, ok)];
    assert l[|l| - 1] == Burn(dest, source, length, ok) && l[..|l| - 1] == log;
  }

  /** An erase or copy leaves no sector prepared. */
  lemma UnpreparedAfter(log: seq<Command>, c: Command, s: nat)
    requires !c.Prepare?
    ensures !Prepared(log + [c], s)
  {
    var l := log + [c];
    assert l[|l| - 1] == c;
  }

  lemma UnpreparedOther(log: seq<Command>, s: nat, ok: bool, other: nat)
    requires other != s && !Prepared(log, other)
    ensures !Prepared(log + [Prepare(s, s, ok)], other)
  {
    var l := log + [Prepare(s, s, ok)];
    assert l[|l| - 1] == Prepare(s, s, ok) && l[..|l| - 1] == log;
  }
}
