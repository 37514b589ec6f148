/** In-application programming of the flash: the ROM commands and the functions of iap.c. */
module Flash {
  import opened Bytes
  import opened Memory
  import opened Sectors

  /** memcpy may run this far past the bytes it was asked for (see MemcpyRefinesByteLoop). */
  const SLACK := 32

  /** The whole address space as one memory, flash first. The ROM is free to refuse any command, and
      a command it refuses half-way leaves its target in any state; `obliging` is a ROM that refuses
      illegal commands only. */
  class Chip {
    const mem: array<byte>
    const sectorBuffer: nat
    const obliging: bool
    var log: seq<Command>

    constructor (mem: array<byte>, sectorBuffer: nat, obliging: bool)
      requires FLASH_SIZE <= sectorBuffer && sectorBuffer + SMALL_SECTOR + SLACK <= mem.Length
      ensures this.mem == mem && this.sectorBuffer == sectorBuffer && this.obliging == obliging
      ensures Valid() && log == []
    {
      this.mem := mem;
      this.sectorBuffer := sectorBuffer;
      this.obliging := obliging;
      log := [];
    }

    predicate Valid() {
      FLASH_SIZE <= sectorBuffer && sectorBuffer + SMALL_SECTOR + SLACK <= mem.Length
    }

    /** A source for WriteToSector: readable, and clear of the sector buffer. */
    predicate Apart(buffer: nat, length: nat) {
      && buffer + length + SLACK <= mem.Length
      && (buffer + length + SLACK <= sectorBuffer || sectorBuffer + SMALL_SECTOR + SLACK <= buffer)
    }

    /** A source of n bytes clear of the sector buffer. */
    predicate Clear(buffer: nat, n: nat) {
      buffer + n <= sectorBuffer || sectorBuffer + SMALL_SECTOR + SLACK <= buffer
    }

    /** Bytes that memcpy moves into the sector buffer for a write of `length` bytes. */
    function Moved(destination: nat, buffer: nat, length: nat): (n: nat)
      ensures length <= n <= length + SLACK
      ensures Apart(buffer, length) ==> n == length + if WriteExact(destination, buffer, length) then 0 else SLACK
    {
      MemcpyLengthIs(sectorBuffer + Offset(destination), buffer, length);
      MemcpyLength(sectorBuffer + Offset(destination), buffer, length)
    }

    /** What a caller checks to know that a write touches no byte but its own. */
    predicate WriteExact(destination: nat, buffer: nat, length: nat) {
      length == 0 || length >= 4 || buffer % 4 != 0 || (sectorBuffer + Offset(destination)) % 4 != 0
    }

    predicate BurnsSector(buffer: nat, sector: nat) {
      sector < FIRST_LARGE && CopyLimits(AddressOf(sector), buffer, SMALL_SECTOR, mem.Length)
    }

    // -------------------------------------------------------------- the ROM

    /** Any contents in lo..hi. */
    method Scramble(lo: nat, hi: nat)
      requires lo <= hi <= mem.Length
      modifies mem
      ensures SameOutside(old(mem[..]), mem[..], lo, hi)
    {
      for i := lo to hi
        invariant SameOutside(old(mem[..]), mem[..], lo, hi)
      {
        mem[i] := *;
      }
    }

    method PrepareSectors(first: nat, last: nat) returns (ret: int)
      modifies this`log
      ensures ret == 0 || ret == -1
      ensures log == old(log) + [Prepare(first, last, ret == 0)]
      ensures ret == 0 ==> first <= last < SECTOR_COUNT
      ensures obliging ==> (ret == 0 <==> first <= last < SECTOR_COUNT)
    {
      var agreed: bool := *;
      ret := if first <= last < SECTOR_COUNT && (obliging || agreed) then 0 else -1;
      log := log + [Prepare(first, last, ret == 0)];
    }

    method EraseSectors(first: nat, last: nat) returns (ret: int)
      requires Valid()
      modifies this`log, mem
      ensures ret == 0 || ret == -1
      ensures log == old(log) + [Erase(first, last, ret == 0)]
      ensures ret == 0 ==> MayErase(old(log), first, last)
      ensures obliging ==> (ret == 0 <==> MayErase(old(log), first, last))
      ensures ret == 0 ==> Blank(mem[..], AddressOf(first), AddressOf(last + 1))
      ensures SameOutside(old(mem[..]), mem[..], AddressOf(first), AddressOf(last + 1))
      ensures AddressOf(first) >= FLASH_SIZE ==> mem[..] == old(mem[..])
    {
      var agreed: bool := *;
      ret := -1;
      if MayErase(log, first, last) {
        AddressOrder(first, last + 1);
        AddressOrder(last + 1, SECTOR_COUNT);
        AddressOrder(first, SECTOR_COUNT - 1);
        var lo, hi := AddressOf(first), AddressOf(last + 1);
        if obliging || agreed {
          for i := lo to hi
            modifies mem
            invariant SameOutside(old(mem[..]), mem[..], lo, hi)
            invariant Blank(mem[..], lo, i)
          {
            mem[i] := BLANK;
          }
          ret := 0;
        } else {
          Scramble(lo, hi);
        }
      }
      log := log + [Erase(first, last, ret == 0)];
    }

    method CopyRamToFlash(dest: nat, source: nat, length: nat) returns (ret: int)
      requires Valid()
      modifies this`log, mem
      ensures ret == 0 || ret == -1
      ensures log == old(log) + [Burn(dest, source, length, ret == 0)]
      ensures ret == 0 ==> MayBurn(old(log), dest, source, length, mem.Length)
      ensures obliging ==> (ret == 0 <==> MayBurn(old(log), dest, source, length, mem.Length))
      ensures ret == 0 ==> Programmed(mem[..], dest, old(mem[..]), source, length)
      ensures SameOutside(old(mem[..]), mem[..], dest, dest + length)
      ensures !MayBurn(old(log), dest, source, length, mem.Length) ==> mem[..] == old(mem[..])
    {
      var agreed: bool := *;
      ret := -1;
      if MayBurn(log, dest, source, length, mem.Length) {
        if obliging || agreed {
          Program(dest, source, length);
          ret := 0;
        } else {
          Scramble(dest, dest + length);
        }
      }
      log := log + [Burn(dest, source, length, ret == 0)];
    }

    /** Programming clears bits. */
    method Program(dest: nat, source: nat, length: nat)
      requires dest + length <= FLASH_SIZE <= source && source + length <= mem.Length
      modifies mem
      ensures SameOutside(old(mem[..]), mem[..], dest, dest + length)
      ensures Programmed(mem[..], dest, old(mem[..]), source, length)
    {
      ghost var m := mem[..];
      for i := 0 to length
        invariant SameOutside(m, mem[..], dest, dest + i)
        invariant Programmed(mem[..], dest, m, source, i)
      {
        mem[dest + i] := And(mem[dest + i], mem[source + i]);
      }
    }

    // -------------------------------------------------------------- rflpc_iap_write_buffer_to_sector

    /** Erase a sector and program it from a RAM buffer. Large sectors are erased and then never
        programmed: the copy asked for is longer than the ROM allows. */
    method WriteBufferToSector(buffer: nat, sector: nat) returns (ret: int)
      requires Valid()
      modifies this`log, mem
      ensures ret == 0 || ret == -1
      ensures old(log) <= log && Disciplined(log, |old(log)|)
      ensures SameOutside(old(mem[..]), mem[..], AddressOf(sector), AddressOf(sector + 1))
      ensures sector >= SECTOR_COUNT ==> mem[..] == old(mem[..])
      ensures ret == 0 ==> sector < FIRST_LARGE
      ensures ret == 0 ==> FLASH_SIZE <= buffer
      ensures ret == 0 ==> Holds(mem[..], AddressOf(sector), old(mem[..]), buffer, SMALL_SECTOR)
      ensures obliging ==> (ret == 0 <==> BurnsSector(buffer, sector))
      ensures obliging && FIRST_LARGE <= sector < SECTOR_COUNT ==>
        ret == -1 && Blank(mem[..], AddressOf(sector), AddressOf(sector + 1))
    {
      var destination := AddressOf(sector);
      ghost var m := mem[..];
      ghost var from := log;
      SectorEnd(sector);

      ret := PrepareSectors(sector, sector);
      DisciplinedStep(from, |from|, Prepare(sector, sector, ret == 0));
      if ret != 0 {
        return ret;
      }
      AfterPrepare(from, sector);
      ghost var log1 := log;

      ret := EraseSectors(sector, sector);
      DisciplinedStep(log1, |from|, Erase(sector, sector, ret == 0));
      if ret != 0 {
        return ret;
      }
      ghost var log2 := log;
      ghost var blank := mem[..];

      ret := PrepareSectors(sector, sector);
      DisciplinedStep(log2, |from|, Prepare(sector, sector, ret == 0));
      if ret != 0 {
        return ret;
      }
      AfterPrepare(log2, sector);
      ghost var log3 := log;

      var length := if sector < FIRST_LARGE then SMALL_SECTOR else LARGE_SECTOR;
      SectorIsOne(sector, length);
      UntouchedSector(log1, sector, length);
      ret := CopyRamToFlash(destination, buffer, length);
      DisciplinedStep(log3, |from|, Burn(destination, buffer, length, ret == 0));
      if ret == 0 {
        SectorBurnt(m, blank, mem[..], destination, buffer, length);
      }
    }

    // -------------------------------------------------------------- rflpc_iap_write_to_sector

    /** Read a small sector, change `length` bytes of it, erase it and program it back. A source inside
        the sector buffer is overwritten before it is read; the bytes requested are then not promised. */
    method WriteToSector(destination: nat, buffer: nat, length: nat) returns (ret: int)
      requires Valid()
      requires InSmallSector(destination, length) ==> buffer + Moved(destination, buffer, length) <= mem.Length
      modifies this`log, mem
      ensures ret == 0 || ret == -1
      ensures old(log) <= log && Disciplined(log, |old(log)|)
      ensures RamKept(old(mem[..]), mem[..], sectorBuffer)
      ensures SameFlash(old(mem[..]), mem[..], SectorStart(destination), SectorLimit(destination))
      ensures !InSmallSector(destination, length) ==> ret == -1 && mem[..] == old(mem[..])
      ensures ret == 0 && Clear(buffer, Moved(destination, buffer, length)) ==>
        && SectorRewritten(old(mem[..]), mem[..], SectorStart(destination), destination, buffer,
                           Moved(destination, buffer, length))
        && Holds(mem[..], destination, old(mem[..]), buffer, length)
        && SameFlash(old(mem[..]), mem[..], destination, destination + Moved(destination, buffer, length))
      ensures obliging && sectorBuffer % 4 == 0 ==> (ret == 0 <==> InSmallSector(destination, length))
    {
      var sector := SectorOf(destination);
      var start := AddressOf(sector);
      if sector != SectorOf(LastAddress(destination, length)) || sector >= FIRST_LARGE {
        return -1;
      }
      SmallSectorRange(destination, length);
      ghost var m := mem[..];
      var offset := Offset(destination);
      ghost var moved := Moved(destination, buffer, length);
      FillBuffer(start, offset, buffer, length, moved);
      ghost var image := mem[..];
      ret := WriteBufferToSector(sectorBuffer, sector);
      BufferThenSector(m, image, mem[..], sectorBuffer, start);
      if ret == 0 && Clear(buffer, moved) {
        ImageBurnt(m, image, mem[..], sectorBuffer, start, destination, offset, buffer, length, moved);
      }
    }

    /** The two memcpy calls of rflpc_iap_write_to_sector. */
    method FillBuffer(start: nat, offset: nat, buffer: nat, length: nat, ghost moved: nat)
      requires Valid() && buffer + moved <= mem.Length
      requires start + SMALL_SECTOR <= FLASH_SIZE && offset + length <= SMALL_SECTOR
      requires moved == MemcpyLength(sectorBuffer + offset, buffer, length)
      modifies mem
      ensures SameOutside(old(mem[..]), mem[..], sectorBuffer, sectorBuffer + SMALL_SECTOR + SLACK)
      ensures Clear(buffer, moved) ==> Image(old(mem[..]), mem[..], sectorBuffer, start, offset, buffer, moved)
    {
      ghost var m := mem[..];
      MemcpyLengthIs(sectorBuffer + offset, buffer, length);
      var _ := Memcpy(mem, sectorBuffer, start, SMALL_SECTOR);
      assert MemcpyLength(sectorBuffer, start, SMALL_SECTOR) == SMALL_SECTOR;
      var _ := Memcpy(mem, sectorBuffer + offset, buffer, length);
      BufferOnly(m, mem[..], sectorBuffer, start, offset, buffer, moved);
      if Clear(buffer, moved) {
        BufferImage(m, mem[..], sectorBuffer, start, offset, buffer, moved);
      }
    }

    // -------------------------------------------------------------- rflpc_iap_write_buffer

    /** First flash address a completed chunk leaves alone: memcpy may overrun the chunk in the sector
        buffer, but what is programmed never leaves the sector. */
    function Reach(d: nat, b: nat, len: nat): (hi: nat)
      ensures d + len <= hi <= d + Moved(d, b, len) <= d + len + SLACK
      ensures hi == d + len || hi <= SectorLimit(d)
      ensures Apart(b, len) && WriteExact(d, b, len) ==> hi == d + len
    {
      if d + Moved(d, b, len) <= SectorLimit(d) then d + Moved(d, b, len)
      else if d + len <= SectorLimit(d) then SectorLimit(d)
      else d + len
    }

    /** What a caller checks to know that write_buffer touches no byte but its own: its last chunk is
        exact. */
    predicate RangeExact(destination: nat, buffer: nat, length: nat) {
      var limit := SectorLimit(destination);
      if destination + length <= limit then WriteExact(destination, buffer, length)
      else
        RangeFacts(destination, length);
        WriteExact(limit, buffer + limit - destination, destination + length - limit)
    }

    /** The same for a range of one or two chunks. */
    function RangeReach(destination: nat, buffer: nat, length: nat): (hi: nat)
      ensures destination + length <= hi <= destination + length + SLACK
      ensures Apart(buffer, length) && RangeExact(destination, buffer, length) ==> hi == destination + length
    {
      var limit := SectorLimit(destination);
      if destination + length <= limit then Reach(destination, buffer, length)
      else
        RangeFacts(destination, length);
        Reach(limit, buffer + limit - destination, destination + length - limit)
    }

    /** Writing a range sector by sector. `good` is how much of the range is right on return. */
    method WriteBuffer(destination: nat, buffer: nat, length: nat) returns (ret: int, ghost good: nat)
      requires Valid() && Apart(buffer, length)
      requires destination + length <= buffer || buffer + length <= destination
      modifies this`log, mem
      ensures ret == 0 || ret == -1
      ensures old(log) <= log && Disciplined(log, |old(log)|)
      ensures RamKept(old(mem[..]), mem[..], sectorBuffer)
      ensures good <= length && Holds(mem[..], destination, old(mem[..]), buffer, good)
      ensures ret == 0 ==> good == length
      ensures var hi := RangeReach(destination, buffer, length);
        ret == 0 ==>
          && SameFlash(old(mem[..]), mem[..], destination, hi)
          && Spilled(old(mem[..]), mem[..], destination, buffer, length, hi)
          && (SameFlash(old(mem[..]), mem[..], destination, destination + length)
              <==> Spilled(old(mem[..]), old(mem[..]), destination, buffer, length, hi))
      ensures ret != 0 ==> good < length
      ensures ret != 0 ==> DamageConfined(old(mem[..]), mem[..], destination, good)
      ensures obliging && sectorBuffer % 4 == 0 && length >= 1 ==> (ret == 0 <==> WritesThrough(destination, length))
    {
      var d, b, n := destination, buffer, length;
      var sector := SectorOf(d);
      ret, good := 0, 0;
      ghost var m, log0 := mem[..], log;
      RangeFacts(d, n);
      if sector != SectorOf(d + n) {
        var len;
        ret, len, good := FirstChunks(d, b, n, sector, m, log0);
        if ret != 0 {
          return;
        }
        d, b, n := d + len, b + len, n - len;
      }
      if length > 0 {
        ThroughLast(destination, length, d);
      }
      if n > 0 {
        LastReach(destination, buffer, length, d);
        ret, good := LastChunk(d, b, n, m, destination, buffer, length, log0, good,
                               RangeReach(destination, buffer, length));
      }
      if ret == 0 {
        SpillShows(m, mem[..], destination, buffer, length, RangeReach(destination, buffer, length));
      }
    }

    /** A range that ends in another sector: the chunk that fills the first one, and the loop. */
    method FirstChunks(destination: nat, buffer: nat, length: nat, sector: nat, ghost m: seq<byte>,
                       ghost log0: seq<Command>)
      returns (ret: int, len: nat, ghost good: nat)
      requires Valid() && Apart(buffer, length)
      requires destination + length <= buffer || buffer + length <= destination
      requires sector == SectorOf(destination) != SectorOf(destination + length)
      requires m == mem[..] && log0 == log
      modifies this`log, mem
      ensures ret == 0 || ret == -1
      ensures log0 <= log && Disciplined(log, |log0|)
      ensures ret != 0 ==> good < length && Halted(m, mem[..], sectorBuffer, destination, buffer, good)
      ensures ret == 0 ==>
        && good == len <= length && LastPlace(destination, length, destination + len) && destination + len <= FLASH_SIZE
        && Progress(m, mem[..], sectorBuffer, destination, buffer, len, destination + len)
      ensures ret == 0 ==> ReachesSecond(destination, length)
      ensures obliging && sectorBuffer % 4 == 0 ==> (ret == 0 <==> ReachesSecond(destination, length))
    {
      RangeFacts(destination, length);
      len := AddressOf(sector + 1) - destination;
      RangeFacts(destination, len);
      good := 0;
      ret := WriteChunk(destination, buffer, len, m, destination, buffer, length, log0, 0);
      if ret != 0 {
        return;
      }
      good := len;
      if sector + 1 != SectorOf(destination + length) && length > len {
        ret, good := FullSectors(destination + len, buffer + len, length - len, sector + 1, m, destination, buffer,
                                 length, log0, len);
      }
    }

    lemma LastReach(destination: nat, buffer: nat, length: nat, d: nat)
      requires LastPlace(destination, length, d) && d < destination + length
      ensures RangeReach(destination, buffer, length) == Reach(d, buffer + d - destination, destination + length - d)
      ensures d == destination || d == SectorStart(d)
    {
      RangeFacts(destination, length);
    }

    /** What remains of a range. */
    method LastChunk(d: nat, b: nat, n: nat, ghost m: seq<byte>, ghost destination: nat, ghost buffer: nat,
                     ghost length: nat, ghost log0: seq<Command>, ghost done: nat, ghost hi: nat)
      returns (ret: int, ghost good: nat)
      requires Valid() && Apart(buffer, length) && 0 < n && hi == Reach(d, b, n)
      requires destination + length <= buffer || buffer + length <= destination
      requires d == destination + done && b == buffer + done && done + n == length && LastPlace(destination, length, d)
      requires done == 0 || d == SectorStart(d) <= FLASH_SIZE
      requires log0 <= log && Disciplined(log, |log0|)
      requires Progress(m, mem[..], sectorBuffer, destination, buffer, done, d)
      modifies this`log, mem
      ensures ret == 0 || ret == -1
      ensures log0 <= log && Disciplined(log, |log0|)
      ensures ret == 0 ==>
          && good == length && Progress(m, mem[..], sectorBuffer, destination, buffer, length, hi)
          && Spilled(m, mem[..], destination, buffer, length, hi) && hi <= FLASH_SIZE
      ensures ret != 0 ==> good == done && Halted(m, mem[..], sectorBuffer, destination, buffer, good)
      ensures obliging && sectorBuffer % 4 == 0 ==> (ret == 0 <==> InSmallSector(d, n))
    {
      ghost var m1 := mem[..];
      ret := WriteChunk(d, b, n, m, destination, buffer, length, log0, done);
      good := if ret == 0 then length else done;
      if ret == 0 {
        SmallSectorRange(d, n);
        SpillFrom(m, m1, mem[..], sectorBuffer, destination, buffer, length, d, b, done, hi);
      }
    }

    /** One call of write_to_sector on behalf of write_buffer. The first `good` bytes of the range are
        in place before it, and the first `after` bytes once it has succeeded. */
    method WriteChunk(d: nat, b: nat, len: nat, ghost m: seq<byte>, ghost destination: nat, ghost buffer: nat,
                      ghost length: nat, ghost log0: seq<Command>, ghost good: nat)
      returns (ret: int)
      requires Valid() && Apart(buffer, length)
      requires destination + length <= buffer || buffer + length <= destination
      requires d == destination + good && b == buffer + good
      requires InSmallSector(d, len) ==> good + len <= length
      requires good == 0 || d == SectorStart(d) || !InSmallSector(d, len)
      requires log0 <= log && Disciplined(log, |log0|)
      requires good == 0 || d <= FLASH_SIZE
      requires Progress(m, mem[..], sectorBuffer, destination, buffer, good, d)
      modifies this`log, mem
      ensures ret == 0 || ret == -1
      ensures log0 <= log && Disciplined(log, |log0|)
      ensures ret == 0 ==> InSmallSector(d, len)
      ensures ret == 0 ==> Progress(m, mem[..], sectorBuffer, destination, buffer, good + len, Reach(d, b, len))
      ensures ret == 0 ==> Holds(mem[..], d, old(mem[..]), b, Reach(d, b, len) - d)
      ensures ret != 0 ==> Halted(m, mem[..], sectorBuffer, destination, buffer, good)
      ensures obliging && sectorBuffer % 4 == 0 ==> (ret == 0 <==> InSmallSector(d, len))
    {
      ghost var before, log1 := mem[..], log;
      ret := WriteToSector(d, b, len);
      DisciplinedJoin(log1, log, |log0|);
      if ret == 0 {
        SmallSectorRange(d, len);
        ReachKept(before, mem[..], d, b, Moved(d, b, len), Reach(d, b, len));
        ChunkDone(m, before, mem[..], sectorBuffer, destination, buffer, length, d, b, len, good, Reach(d, b, len));
      } else {
        StillHolds(m, before, mem[..], sectorBuffer, destination, buffer, good, d);
      }
    }

    /** The loop over full sectors, once entered. Each round asks for one byte less than the sector
        holds, so the second round starts on the sector's last byte, straddles the boundary and is
        refused: the loop never succeeds. */
    method FullSectors(d0: nat, b0: nat, n0: nat, sector0: nat, ghost m: seq<byte>, ghost destination: nat,
                       ghost buffer: nat, ghost length: nat, ghost log0: seq<Command>, ghost good0: nat)
      returns (ret: int, ghost good: nat)
      requires Valid() && Apart(buffer, length)
      requires destination + length <= buffer || buffer + length <= destination
      requires d0 + n0 == destination + length && d0 == destination + good0 && b0 == buffer + good0
      requires n0 > 0 && d0 == AddressOf(sector0) <= FLASH_SIZE && sector0 != SectorOf(d0 + n0)
      requires log0 <= log && Disciplined(log, |log0|)
      requires Progress(m, mem[..], sectorBuffer, destination, buffer, good0, d0)
      modifies this`log, mem
      ensures ret == -1
      ensures log0 <= log && Disciplined(log, |log0|)
      ensures good < length && Halted(m, mem[..], sectorBuffer, destination, buffer, good)
    {
      var d, b, n, sector := d0, b0, n0, sector0;
      ret := 0;
      good := good0;
      SectorMap(d0, sector0);
      SectorEnd(sector0);
      RangeFacts(d0, n0);
      while sector != SectorOf(d + n) && n > 0
        invariant d + n == d0 + n0 && d == destination + good && b == buffer + good
        invariant sector == sector0 && n > 0
        invariant d == d0 || d == d0 + SizeOf(sector) - 1 <= FLASH_SIZE
        invariant log0 <= log && Disciplined(log, |log0|)
        invariant Progress(m, mem[..], sectorBuffer, destination, buffer, good, d)
        decreases n
      {
        var len := AddressOf(sector + 1) - AddressOf(sector) - 1;
        FullSectorRound(d0, d, sector, len);
        ret := WriteChunk(d, b, len, m, destination, buffer, length, log0, good);
        if ret != 0 {
          return;
        }
        assert d == d0 && Reach(d, b, len) == d + len;
        d, b, n := d + len, b + len, n - len;
        good := good + len;
        sector := SectorOf(d);
      }
      assert false;
    }

    // -------------------------------------------------------------- rflpc_iap_transfert_4ks_to_32k

    /** Bytes of the destination that an obliging ROM is asked to program in all: it refuses the first
        step already if the addresses are not aligned. */
    function Attempted(destination: nat, length: int): (n: nat) {
      if length <= 0 then 0
      else if destination % 256 == 0 && sectorBuffer % 4 == 0 then Rounded(length)
      else SMALL_SECTOR
    }

    /** No step leaves the one sector that is prepared. */
    predicate Orderly(destination: nat, length: int) {
      SectorOf(destination) >= SECTOR_COUNT || destination + Attempted(destination, length) <= SectorLimit(destination)
    }

    /** The transfers an obliging ROM completes. */
    predicate Transfers(destination: nat, length: int) {
      SectorOf(destination) < SECTOR_COUNT
      && (length <= 0
          || (destination % 256 == 0 && sectorBuffer % 4 == 0
              && destination + Rounded(length) <= SectorLimit(destination)))
    }

    /** The steps an obliging ROM programs, into a sector that ends at `limit`. */
    predicate StepLegal(d: nat, limit: nat) {
      d % 256 == 0 && sectorBuffer % 4 == 0 && d + SMALL_SECTOR <= limit
    }

    /** The commands since log0 are in order if no step leaves the sector; exactly then, for an obliging ROM. */
    ghost predicate OrderKept(log: seq<Command>, log0: seq<Command>, destination: nat, length: int, limit: nat) {
      && log0 <= log
      && (destination + Attempted(destination, length) <= limit ==> Disciplined(log, |log0|))
      && (obliging && destination + Attempted(destination, length) > limit ==> !Disciplined(log, |log0|))
    }

    /** The steps end with the one that fails. */
    lemma StepFailed(log: seq<Command>, log0: seq<Command>, destination: nat, length: int, limit: nat, offset: nat,
                     d: nat, n: int, step: int)
      requires 0 < n <= length && offset % 256 == 0 && offset + Rounded(n) == Rounded(length)
      requires d == destination + offset && (offset > 0 ==> destination % 256 == 0 && sectorBuffer % 4 == 0)
      requires log0 <= log && (step == 1 || step == 2)
      requires Disciplined(log, |log0|) <==> step == 1 || d + SMALL_SECTOR <= limit
      requires obliging ==> step == 2 && !StepLegal(d, limit)
      ensures OrderKept(log, log0, destination, length, limit)
    {
      StepAligned(destination, offset, d);
    }

    /** Erase one sector once and fill it in 4K steps from elsewhere. */
    method Transfer(destination: nat, source: nat, length: int) returns (ret: int)
      requires Valid()
      requires length > 0 ==> Apart(source, length)
      requires length > 0 ==> source + length <= SectorStart(destination) || SectorLimit(destination) <= source
      modifies this`log, mem
      ensures -6 <= ret <= 0
      ensures RamKept(old(mem[..]), mem[..], sectorBuffer)
      ensures SameFlash(old(mem[..]), mem[..], SectorStart(destination), SectorLimit(destination))
      ensures ret == -1 ==> mem[..] == old(mem[..])
      ensures ret == 0 ==> destination + Rounded(length) <= SectorLimit(destination) <= FLASH_SIZE || length <= 0
      ensures ret == 0 && length > 0 ==> Holds(mem[..], destination, old(mem[..]), source, length)
      ensures ret == 0 ==> Blank(mem[..], SectorStart(destination), destination)
      ensures ret == 0 ==> Blank(mem[..], destination + Rounded(length), SectorLimit(destination))
      ensures old(log) <= log
      ensures Orderly(destination, length) ==> Disciplined(log, |old(log)|)
      ensures obliging ==> (Disciplined(log, |old(log)|) <==> Orderly(destination, length))
      ensures obliging ==> (ret == 0 <==> Transfers(destination, length))
    {
      var sector := SectorOf(destination);
      ghost var log0 := log;
      SectorMap(destination, sector);

      ret := PrepareSectors(sector, sector);
      DisciplinedStep(log0, |log0|, Prepare(sector, sector, ret == 0));
      if ret != 0 {
        return -1;
      }
      AfterPrepare(log0, sector);
      ghost var log1, m := log, mem[..];
      ret := EraseSectors(sector, sector);
      DisciplinedStep(log1, |log0|, Erase(sector, sector, ret == 0));
      if ret != 0 {
        return -2;
      }
      FreshSector(log1, sector);
      AddressOrder(sector + 1, SECTOR_COUNT);
      if length > 0 {
        ret := FillInSteps(destination, source, length, sector, m,
                           Fill(destination, source, length, AddressOf(sector), AddressOf(sector + 1)), log0);
      }
    }

    /** The 4K steps into a sector that has just been erased. */
    method FillInSteps(destination: nat, source: nat, length: nat, sector: nat, ghost m: seq<byte>, ghost f: Fill,
                       ghost log0: seq<Command>)
      returns (ret: int)
      requires Valid() && 0 < length && Apart(source, length) && sector < SECTOR_COUNT
      requires f == Fill(destination, source, length, AddressOf(sector), AddressOf(sector + 1))
      requires f.Wellformed(mem.Length, sectorBuffer, 0)
      requires log0 <= log && Disciplined(log, |log0|)
      requires Sealed(log) && Unburnt(log, destination, f.limit)
      requires Filling(m, mem[..], sectorBuffer, f, 0, 0)
      modifies this`log, mem
      ensures ret == 0 || -6 <= ret <= -3
      ensures OrderKept(log, log0, destination, length, f.limit)
      ensures RamKept(m, mem[..], sectorBuffer) && SameFlash(m, mem[..], f.start, f.limit)
      ensures ret == 0 ==> destination % 256 == 0 && destination + Rounded(length) <= f.limit
      ensures ret == 0 ==> Filling(m, mem[..], sectorBuffer, f, length, Rounded(length))
      ensures obliging ==>
        (ret == 0 <==> destination % 256 == 0 && sectorBuffer % 4 == 0 && destination + Rounded(length) <= f.limit)
    {
      var n, offset;
      ret, n, offset := WholeSteps(destination, source, length, sector, m, f, log0);
      if ret != 0 {
        return;
      }
      assert Rounded(n) == SMALL_SECTOR;
      var step := OneStep(destination, source, length, n, offset, n, sector, m, f, log0, offset + SMALL_SECTOR);
      if step != 0 {
        return if step == 1 then -5 else -6;
      }
      return 0;
    }

    /** The loop over whole steps, up to the last one. */
    method WholeSteps(destination: nat, source: nat, length: nat, sector: nat, ghost m: seq<byte>, ghost f: Fill,
                      ghost log0: seq<Command>)
      returns (ret: int, n: nat, offset: nat)
      requires Valid() && 0 < length && Apart(source, length) && sector < SECTOR_COUNT
      requires f == Fill(destination, source, length, AddressOf(sector), AddressOf(sector + 1))
      requires f.Wellformed(mem.Length, sectorBuffer, 0)
      requires log0 <= log && Disciplined(log, |log0|)
      requires Sealed(log) && Unburnt(log, destination, f.limit)
      requires Filling(m, mem[..], sectorBuffer, f, 0, 0)
      modifies this`log, mem
      ensures ret == 0 || -4 <= ret <= -3
      ensures log0 <= log && (ret != 0 ==> OrderKept(log, log0, destination, length, f.limit))
      ensures RamKept(m, mem[..], sectorBuffer) && SameFlash(m, mem[..], f.start, f.limit)
      ensures obliging && destination % 256 == 0 && sectorBuffer % 4 == 0 && destination + Rounded(length) <= f.limit ==>
        ret == 0
      ensures ret == 0 ==>
        && 0 < n <= SMALL_SECTOR && offset + n == length && offset + Rounded(n) == Rounded(length) && offset % 256 == 0
        && f.Wellformed(mem.Length, sectorBuffer, offset)
        && (offset > 0 ==> destination % 256 == 0 && sectorBuffer % 4 == 0) && Disciplined(log, |log0|)
        && Sealed(log) && Unburnt(log, destination + offset, f.limit)
        && Filling(m, mem[..], sectorBuffer, f, offset, offset)
    {
      ret, n, offset := 0, length, 0;
      while n > SMALL_SECTOR
        invariant 0 < n && offset + n == length && offset + Rounded(n) == Rounded(length)
        invariant offset % 256 == 0 && (offset > 0 ==> destination % 256 == 0 && sectorBuffer % 4 == 0)
        invariant f.Wellformed(mem.Length, sectorBuffer, offset)
        invariant log0 <= log && Disciplined(log, |log0|)
        invariant Sealed(log) && Unburnt(log, destination + offset, f.limit)
        invariant Filling(m, mem[..], sectorBuffer, f, offset, offset)
      {
        var step := OneStep(destination, source, length, n, offset, SMALL_SECTOR, sector, m, f, log0,
                            offset + SMALL_SECTOR);
        if step != 0 {
          ret := if step == 1 then -3 else -4;
          return;
        }
        n, offset := n - SMALL_SECTOR, offset + SMALL_SECTOR;
      }
    }

    /** The step at `offset`, of k bytes, with n bytes left. */
    method OneStep(destination: nat, source: nat, ghost length: nat, ghost n: nat, offset: nat, k: nat, sector: nat,
                   ghost m: seq<byte>, ghost f: Fill, ghost log0: seq<Command>, ghost next: nat)
      returns (step: int)
      requires Valid() && Apart(source, length) && sector < SECTOR_COUNT && 0 < k <= n && k <= SMALL_SECTOR
      requires f == Fill(destination, source, length, AddressOf(sector), AddressOf(sector + 1))
      requires f.Wellformed(mem.Length, sectorBuffer, offset) && next == offset + SMALL_SECTOR
      requires offset + n == length && offset + Rounded(n) == Rounded(length) && offset % 256 == 0
      requires offset > 0 ==> destination % 256 == 0 && sectorBuffer % 4 == 0
      requires log0 <= log && Disciplined(log, |log0|)
      requires Sealed(log) && Unburnt(log, destination + offset, f.limit)
      requires Filling(m, mem[..], sectorBuffer, f, offset, offset)
      modifies this`log, mem
      ensures 0 <= step <= 2 && log0 <= log
      ensures step != 0 ==> OrderKept(log, log0, destination, length, f.limit)
      ensures step == 0 ==>
        && destination % 256 == 0 && sectorBuffer % 4 == 0 && destination + next <= f.limit && next % 256 == 0
        && Disciplined(log, |log0|) && Sealed(log) && Unburnt(log, destination + next, f.limit)
        && Filling(m, mem[..], sectorBuffer, f, offset + k, next)
      ensures RamKept(m, mem[..], sectorBuffer) && SameFlash(m, mem[..], f.start, f.limit)
      ensures obliging ==>
        (step == 0 <==> destination % 256 == 0 && sectorBuffer % 4 == 0 && destination + next <= f.limit)
    {
      var d := destination + offset;
      StepAligned(destination, offset, d);
      step := BurnChunk(d, source + offset, k, sector, m, f, offset, log0);
      if step != 0 {
        StepFailed(log, log0, destination, length, f.limit, offset, d, n, step);
      }
    }

    /** Load k bytes into the sector buffer, prepare, and copy the whole buffer out: 0 if both ROM
        calls succeed, else which of them failed. */
    method BurnChunk(d: nat, src: nat, k: nat, sector: nat, ghost m: seq<byte>, ghost f: Fill, ghost offset: nat,
                     ghost log0: seq<Command>)
      returns (step: int)
      requires Valid() && 0 < k <= SMALL_SECTOR
      requires f.Wellformed(mem.Length, sectorBuffer, offset) && Apart(f.source, f.length)
      requires f.start == AddressOf(sector) && f.limit == AddressOf(sector + 1) && sector < SECTOR_COUNT
      requires d == f.destination + offset && src == f.source + offset && offset + k <= f.length
      requires log0 <= log && Disciplined(log, |log0|)
      requires Sealed(log) && Unburnt(log, d, f.limit)
      requires Filling(m, mem[..], sectorBuffer, f, offset, offset)
      modifies this`log, mem
      ensures 0 <= step <= 2
      ensures log0 <= log && (Disciplined(log, |log0|) <==> step == 1 || d + SMALL_SECTOR <= f.limit)
      ensures step == 0 ==> StepLegal(d, f.limit)
      ensures step == 0 ==> Sealed(log) && Unburnt(log, d + SMALL_SECTOR, f.limit)
      ensures step == 0 ==> Filling(m, mem[..], sectorBuffer, f, offset + k, offset + SMALL_SECTOR)
      ensures RamKept(m, mem[..], sectorBuffer) && SameFlash(m, mem[..], f.start, f.limit)
      ensures obliging ==> step == if StepLegal(d, f.limit) then 0 else 2
    {
      ghost var before, log1 := mem[..], log;
      LoadBuffer(src, k);
      ghost var loaded := mem[..];
      KeptThrough(m, before, loaded, loaded, sectorBuffer, f, offset, d);
      var ret := PrepareSectors(sector, sector);
      DisciplinedStep(log1, |log0|, Prepare(sector, sector, ret == 0));
      if ret != 0 {
        return 1;
      }
      PreparedForStep(log1, sector, d, f.limit);
      ret := CopyStep(d, sector, f.limit, log0);
      KeptThrough(m, before, loaded, mem[..], sectorBuffer, f, offset, d);
      if ret != 0 {
        return 2;
      }
      ChunkBurnt(m, before, loaded, mem[..], sectorBuffer, f, offset, d, src, k, offset + k, offset + SMALL_SECTOR);
      return 0;
    }

    /** The copy of a step, on a sector that has just been prepared. */
    method CopyStep(d: nat, sector: nat, ghost limit: nat, ghost log0: seq<Command>) returns (ret: int)
      requires Valid() && sector < SECTOR_COUNT && AddressOf(sector) <= d && limit == AddressOf(sector + 1)
      requires ReadyForStep(log, sector, d, limit) && Blank(mem[..], d, limit)
      requires log0 <= log && Disciplined(log, |log0|)
      modifies this`log, mem
      ensures ret == 0 || ret == -1
      ensures log0 <= log && (Disciplined(log, |log0|) <==> d + SMALL_SECTOR <= limit)
      ensures ret == 0 ==> StepLegal(d, limit)
      ensures ret == 0 ==> Sealed(log) && Unburnt(log, d + SMALL_SECTOR, limit)
      ensures ret == 0 ==> Holds(mem[..], d, old(mem[..]), sectorBuffer, SMALL_SECTOR)
      ensures mem[..] == old(mem[..])
        || (d + SMALL_SECTOR <= limit && SameOutside(old(mem[..]), mem[..], d, d + SMALL_SECTOR))
      ensures obliging ==> (ret == 0 <==> StepLegal(d, limit))
    {
      ghost var log2, loaded := log, mem[..];
      StepMayBurn(log2, sector, d, limit, sectorBuffer, mem.Length);
      ret := CopyRamToFlash(d, sectorBuffer, SMALL_SECTOR);
      StepInOrder(log2, |log0|, sector, d, limit, sectorBuffer, ret == 0);
      if ret == 0 {
        ProgrammingBlank(loaded, mem[..], d, sectorBuffer, SMALL_SECTOR);
        SealedAfterBurn(log2, d, sectorBuffer, limit);
      }
    }

    /** memcpy into the sector buffer. */
    method LoadBuffer(src: nat, k: nat)
      requires Valid() && Apart(src, k) && k <= SMALL_SECTOR
      modifies mem
      ensures SameOutside(old(mem[..]), mem[..], sectorBuffer, sectorBuffer + SMALL_SECTOR + SLACK)
      ensures Holds(mem[..], sectorBuffer, old(mem[..]), src, k)
    {
      MemcpyLengthIs(sectorBuffer, src, k);
      ByteCopyDisjoint(mem[..], sectorBuffer, src, MemcpyLength(sectorBuffer, src, k));
      var _ := Memcpy(mem, sectorBuffer, src, k);
    }
  }

  /** 5000 bytes into a 32K sector from its last 4K on: the second step asks for the next sector, which
      is not prepared. */
  method TransferTooLong(chip: Chip, source: nat) returns (ret: int)
    requires chip.Valid() && chip.Apart(source, 5000) && chip.obliging && chip.sectorBuffer % 4 == 0
    requires source + 5000 <= 0x1_0000 || 0x1_8000 <= source
    modifies chip`log, chip.mem
    ensures ret < 0 && !Disciplined(chip.log, |old(chip.log)|)
  {
    SectorMap(0x1_7000, 16);
    ret := chip.Transfer(0x1_7000, source, 5000);
  }

  /** A length rounded up to whole 4K steps. */
  function Rounded(length: int): nat
    decreases if length > 0 then length else 0
  {
    if length <= 0 then 0 else SMALL_SECTOR + Rounded(length - SMALL_SECTOR)
  }

  lemma StepAligned(destination: nat, offset: nat, d: nat)
    requires offset % 256 == 0 && d == destination + offset
    ensures d % 256 == 0 <==> destination % 256 == 0
    ensures (offset + SMALL_SECTOR) % 256 == 0
  {
  }

  ghost predicate Sealed(log: seq<Command>) {
    forall s :: !Prepared(log, s)
  }

  ghost predicate Unburnt(log: seq<Command>, lo: nat, hi: nat) {
    forall a :: lo <= a < hi ==> !Burnt(log, a)
  }

  /** A transfer under way: what goes where, and the bounds of the sector. */
  datatype Fill = Fill(destination: nat, source: nat, length: nat, start: nat, limit: nat) {
    predicate Wellformed(memory: nat, ram: nat, offset: nat) {
      && start <= destination && destination + offset <= limit <= FLASH_SIZE <= ram
      && ram + SMALL_SECTOR + SLACK <= memory && source + length <= memory
      && (source + length <= start || limit <= source)
    }
  }

  /** `done` bytes stored, `burnt` bytes programmed, the rest of the sector blank. */
  ghost predicate Filling(m: seq<byte>, m': seq<byte>, ram: nat, f: Fill, done: nat, burnt: nat) {
    && RamKept(m, m', ram)
    && SameFlash(m, m', f.start, f.limit)
    && Holds(m', f.destination, m, f.source, done)
    && Blank(m', f.start, f.destination)
    && Blank(m', f.destination + burnt, f.limit)
  }

  lemma FreshSector(log: seq<Command>, sector: nat)
    ensures var l := log + [Erase(sector, sector, true)];
      Sealed(l) && Unburnt(l, AddressOf(sector), AddressOf(sector + 1))
  {
    var c := Erase(sector, sector, true);
    forall s ensures !Prepared(log + [c], s) {
      UnpreparedAfter(log, c, s);
    }
    forall a | AddressOf(sector) <= a < AddressOf(sector + 1) ensures !Burnt(log + [c], a) {
      SectorMap(a, sector);
      AfterErase(log, sector, a);
    }
  }

  /** The sector has been prepared, no other has, and its bytes from d on are blank. */
  ghost predicate ReadyForStep(log: seq<Command>, sector: nat, d: nat, limit: nat) {
    && Prepared(log, sector)
    && (forall s | s != sector :: !Prepared(log, s))
    && Unburnt(log, d, limit)
  }

  lemma PreparedForStep(log: seq<Command>, sector: nat, d: nat, limit: nat)
    requires Sealed(log) && Unburnt(log, d, limit)
    ensures ReadyForStep(log + [Prepare(sector, sector, true)], sector, d, limit)
  {
    var l := log + [Prepare(sector, sector, true)];
    AfterPrepare(log, sector);
    forall s | s != sector ensures !Prepared(l, s) {
      UnpreparedOther(log, sector, true, s);
    }
    forall a | d <= a < limit ensures !Burnt(l, a) {
      PrepareKeepsBurnt(log, sector, true, a);
    }
  }

  lemma StepMayBurn(log: seq<Command>, sector: nat, d: nat, limit: nat, source: nat, memory: nat)
    requires ReadyForStep(log, sector, d, limit)
    requires sector < SECTOR_COUNT && AddressOf(sector) <= d && limit == AddressOf(sector + 1)
    requires FLASH_SIZE <= source && source + SMALL_SECTOR <= memory
    ensures MayBurn(log, d, source, SMALL_SECTOR, memory) <==>
      d % 256 == 0 && source % 4 == 0 && d + SMALL_SECTOR <= limit
  {
    AddressOrder(sector + 1, SECTOR_COUNT);
    ChunkSectors(d, sector);
    if d + SMALL_SECTOR > limit {
      assert !Prepared(log, SectorOf(d + SMALL_SECTOR - 1));
    }
  }

  /** The copy of a step keeps the log in order exactly when it stays in its sector: the next one is not
      prepared. */
  lemma StepInOrder(log: seq<Command>, from: nat, sector: nat, d: nat, limit: nat, source: nat, ok: bool)
    requires ReadyForStep(log, sector, d, limit) && from <= |log| && Disciplined(log, from)
    requires AddressOf(sector) <= d && limit == AddressOf(sector + 1)
    ensures Disciplined(log + [Burn(d, source, SMALL_SECTOR, ok)], from) <==> d + SMALL_SECTOR <= limit
  {
    var c := Burn(d, source, SMALL_SECTOR, ok);
    ChunkSectors(d, sector);
    if d + SMALL_SECTOR <= limit {
      DisciplinedStep(log, from, c);
    } else {
      var l := log + [c];
      assert l[..|log|] == log && l[|log|] == c;
      assert !Prepared(log, SectorOf(d + SMALL_SECTOR - 1));
      assert !InOrder(l[..|log|], l[|log|]);
    }
  }

  lemma SealedAfterBurn(log: seq<Command>, d: nat, source: nat, limit: nat)
    requires Unburnt(log, d, limit)
    ensures var l := log + [Burn(d, source, SMALL_SECTOR, true)];
      Sealed(l) && Unburnt(l, d + SMALL_SECTOR, limit)
  {
    var c := Burn(d, source, SMALL_SECTOR, true);
    forall s ensures !Prepared(log + [c], s) {
      UnpreparedAfter(log, c, s);
    }
    forall a | d + SMALL_SECTOR <= a < limit ensures !Burnt(log + [c], a) {
      BurnMarks(log, d, source, SMALL_SECTOR, true, a);
    }
  }

  /** A 4K step stays in its sector exactly when it ends there; a step that leaves it meets the next
      sector. */
  lemma ChunkSectors(d: nat, sector: nat)
    requires AddressOf(sector) <= d
    ensures d + SMALL_SECTOR <= AddressOf(sector + 1) ==>
      SectorOf(d) == sector == SectorOf(d + SMALL_SECTOR - 1)
    ensures d + SMALL_SECTOR > AddressOf(sector + 1) ==> SectorOf(d) <= SectorOf(d + SMALL_SECTOR - 1) != sector
  {
    SectorMap(d, sector);
    SectorMap(d + SMALL_SECTOR - 1, sector);
    SectorOrder(d, d + SMALL_SECTOR - 1);
  }

  /** Whatever becomes of a step, only the sector and the sector buffer are touched. */
  lemma KeptThrough(m: seq<byte>, m1: seq<byte>, loaded: seq<byte>, m2: seq<byte>, ram: nat, f: Fill, offset: nat, d: nat)
    requires f.Wellformed(|m|, ram, offset)
    requires Filling(m, m1, ram, f, offset, offset)
    requires SameOutside(m1, loaded, ram, ram + SMALL_SECTOR + SLACK)
    requires d == f.destination + offset
    requires m2 == loaded || (d + SMALL_SECTOR <= f.limit && SameOutside(loaded, m2, d, d + SMALL_SECTOR))
    ensures RamKept(m, m2, ram) && SameFlash(m, m2, f.start, f.limit)
  {
  }

  lemma ChunkBurnt(m: seq<byte>, m1: seq<byte>, loaded: seq<byte>, m2: seq<byte>, ram: nat, f: Fill, offset: nat, d: nat, src: nat,
                   k: nat, done: nat, burnt: nat)
    requires f.Wellformed(|m|, ram, offset) && offset + k <= f.length && k <= SMALL_SECTOR
    requires f.source + f.length <= ram || ram + SMALL_SECTOR + SLACK <= f.source
    requires d == f.destination + offset && src == f.source + offset
    requires done == offset + k && burnt == offset + SMALL_SECTOR
    requires Filling(m, m1, ram, f, offset, offset)
    requires SameOutside(m1, loaded, ram, ram + SMALL_SECTOR + SLACK)
    requires Holds(loaded, ram, m1, src, k)
    requires d + SMALL_SECTOR <= f.limit && SameOutside(loaded, m2, d, d + SMALL_SECTOR)
    requires Holds(m2, d, loaded, ram, SMALL_SECTOR)
    requires RamKept(m, m2, ram) && SameFlash(m, m2, f.start, f.limit)
    ensures Filling(m, m2, ram, f, done, burnt)
  {
    forall i {:trigger m2[i]} | f.destination <= i < f.destination + done
      ensures m2[i] == m[i - f.destination + f.source]
    {
      if i < d {
        assert m2[i] == loaded[i] == m1[i];
      } else {
        var j := i - d + src;
        assert m2[i] == loaded[i - d + ram] == m1[j];
        assert m1[j] == m[j];
      }
    }
  }

  /** One round of the loop over full sectors: the first fits its sector, the second does not. */
  lemma FullSectorRound(d0: nat, d: nat, sector: nat, len: nat)
    requires d0 == AddressOf(sector) && len == SizeOf(sector) - 1 && (d == d0 || d == d0 + len)
    ensures SectorStart(d) == d0 && SectorLimit(d) == d0 + len + 1
    ensures InSmallSector(d, len) ==> d == d0
    ensures SectorOf(d0 + len) == sector
  {
    SectorEnd(sector);
    SectorMap(d, sector);
    SectorMap(d0 + len, sector);
    SectorMap(d + len - 1, sector);
  }

  /** Where a range ends, sector by sector. */
  lemma RangeFacts(destination: nat, length: nat)
    ensures var s, end := SectorOf(destination), destination + length;
      && AddressOf(s) <= destination < AddressOf(s + 1) < AddressOf(s + 2)
      && s <= SectorOf(end) && SectorOf(AddressOf(s + 1)) == s + 1
      && (SectorOf(end) == s <==> end < AddressOf(s + 1))
      && (SectorOf(end) <= s + 1 <==> end < AddressOf(s + 2))
      && (length > 0 ==> (SectorOf(end - 1) == s <==> end <= AddressOf(s + 1)))
  {
    var s, end := SectorOf(destination), destination + length;
    SectorMap(destination, s);
    SectorEnd(s);
    SectorEnd(s + 1);
    SectorMap(AddressOf(s + 1), s + 1);
    SectorOrder(destination, end);
    SectorMap(end, s);
    SectorMap(end, s + 1);
    if length > 0 {
      SectorMap(end - 1, s);
    }
  }

  /** The ranges write_buffer can store: inside one small sector, or ending strictly inside the next. */
  predicate WritesThrough(destination: nat, length: nat) {
    var s, end := SectorOf(destination), destination + length;
    s < FIRST_LARGE && (end <= AddressOf(s + 1) || (s + 1 < FIRST_LARGE && end < AddressOf(s + 2)))
  }

  /** The range ends in the second sector at the latest, and the first is a small one. */
  predicate ReachesSecond(destination: nat, length: nat) {
    var s, end := SectorOf(destination), destination + length;
    s < FIRST_LARGE && end < AddressOf(s + 2)
  }

  /** Such a range is stored exactly when its last chunk fits its sector. */
  lemma ThroughLast(destination: nat, length: nat, d: nat)
    requires 0 < length && LastPlace(destination, length, d)
    requires d == destination || ReachesSecond(destination, length)
    ensures WritesThrough(destination, length) <==>
      d == destination + length || InSmallSector(d, destination + length - d)
    ensures d <= destination + length
    ensures WritesThrough(destination, length) && d > destination ==> ReachesSecond(destination, length)
  {
    RangeFacts(destination, length);
    if d < destination + length {
      RangeFacts(d, destination + length - d);
    }
  }

  /** Where the last chunk of a range of at most two starts. */
  predicate LastPlace(destination: nat, length: nat, d: nat) {
    d == if destination + length < SectorLimit(destination) then destination else SectorLimit(destination)
  }

  /** The address whose old contents a completed write leaves at i, behind the range: behind the source,
      or where the first chunk has put its bytes by then. */
  function SpillSource(destination: nat, buffer: nat, length: nat, i: nat): nat
    requires destination + length <= i
  {
    var limit, j := SectorLimit(destination), i - destination + buffer;
    if limit <= destination + length && destination <= j < limit then j - destination + buffer else j
  }

  /** What a completed write leaves between its range and hi. */
  ghost predicate Spilled(m: seq<byte>, m': seq<byte>, destination: nat, buffer: nat, length: nat, hi: nat) {
    forall i :: destination + length <= i < hi ==> SpilledAt(m, m', destination, buffer, length, i)
  }

  ghost predicate SpilledAt(m: seq<byte>, m': seq<byte>, destination: nat, buffer: nat, length: nat, i: nat)
    requires destination + length <= i
  {
    var j := SpillSource(destination, buffer, length, i);
    i < |m'| && j < |m| && m'[i] == m[j]
  }

  lemma SpillFrom(m: seq<byte>, m1: seq<byte>, m2: seq<byte>, ram: nat, destination: nat, buffer: nat, length: nat,
                  d: nat, b: nat, done: nat, hi: nat)
    requires d == destination + done && b == buffer + done
    requires buffer + length + SLACK <= |m| && FLASH_SIZE <= ram
    requires buffer + length + SLACK <= ram || ram + SMALL_SECTOR + SLACK <= buffer
    requires destination + length <= buffer || buffer + length <= destination
    requires done <= length && LastPlace(destination, length, d)
    requires destination + length <= hi <= destination + length + SLACK
    requires Progress(m, m1, ram, destination, buffer, done, d) && Holds(m2, d, m1, b, hi - d)
    ensures Spilled(m, m2, destination, buffer, length, hi)
  {
    forall i | destination + length <= i < hi
      ensures SpilledAt(m, m2, destination, buffer, length, i)
    {
      var j := i - destination + buffer;
      assert m2[i] == m1[j];
      if destination <= j < d {
        assert m1[j] == m[j - destination + buffer];
      } else {
        assert m1[j] == m[j];
      }
    }
  }

  /** Nothing but the range has changed exactly when the bytes that spilled are those that were there. */
  lemma SpillShows(m: seq<byte>, m': seq<byte>, destination: nat, buffer: nat, length: nat, hi: nat)
    requires FLASH_SIZE <= |m| && (hi == destination + length || destination + length <= hi <= FLASH_SIZE)
    requires SameFlash(m, m', destination, hi) && Spilled(m, m', destination, buffer, length, hi)
    ensures SameFlash(m, m', destination, destination + length) <==> Spilled(m, m, destination, buffer, length, hi)
  {
    forall i | destination + length <= i < hi
      ensures m'[i] == m[i] <==> SpilledAt(m, m, destination, buffer, length, i)
    {
      assert SpilledAt(m, m', destination, buffer, length, i);
    }
  }

  /** After a failure `good` bytes into the range: only those bytes and the sector that follows them
      may have changed. */
  ghost predicate DamageConfined(m: seq<byte>, m': seq<byte>, destination: nat, good: nat) {
    var lo, hi := SectorStart(destination + good), SectorLimit(destination + good);
    |m'| == |m|
    && forall i {:trigger m'[i]} ::
      0 <= i < FLASH_SIZE && i < |m| && !(destination <= i < destination + good) && !(lo <= i < hi) ==> m'[i] == m[i]
  }

  /** The first `done` bytes are in place and the flash is as before outside destination..hi. */
  ghost predicate Progress(m: seq<byte>, m': seq<byte>, b: nat, destination: nat, buffer: nat, done: nat, hi: nat) {
    && RamKept(m, m', b)
    && SameFlash(m, m', destination, hi)
    && Holds(m', destination, m, buffer, done)
  }

  /** What is left of the flash when a write stops `good` bytes into its range. */
  ghost predicate Halted(m: seq<byte>, m': seq<byte>, b: nat, destination: nat, buffer: nat, good: nat) {
    && RamKept(m, m', b)
    && Holds(m', destination, m, buffer, good)
    && DamageConfined(m, m', destination, good)
  }

  /** A sector rewritten from d on: what has changed, as far as a chunk reaches. */
  lemma ReachKept(m: seq<byte>, m': seq<byte>, d: nat, b: nat, moved: nat, hi: nat)
    requires SameFlash(m, m', d, d + moved) && SameFlash(m, m', SectorStart(d), SectorLimit(d))
    requires SectorRewritten(m, m', SectorStart(d), d, b, moved) && SectorLimit(d) <= SectorStart(d) + SMALL_SECTOR
    requires d <= hi <= d + moved && hi <= SectorLimit(d) && (hi == d + moved || hi == SectorLimit(d))
    ensures SameFlash(m, m', d, hi) && Holds(m', d, m, b, hi - d)
  {
    SectorMap(d, SectorOf(d));
  }

  /** One more chunk stored. The source is read where nothing has been written. */
  lemma ChunkDone(m: seq<byte>, m1: seq<byte>, m2: seq<byte>, ram: nat, destination: nat, buffer: nat, length: nat,
                  d: nat, b: nat, len: nat, good: nat, hi: nat)
    requires d == destination + good && b == buffer + good && d + len <= hi
    requires good + len <= length && buffer + length <= |m| && d + len <= FLASH_SIZE <= ram
    requires buffer + length <= ram || ram + SMALL_SECTOR + SLACK <= buffer
    requires destination + length <= buffer || buffer + length <= destination
    requires Progress(m, m1, ram, destination, buffer, good, d)
    requires RamKept(m1, m2, ram)
    requires SameFlash(m1, m2, d, hi)
    requires Holds(m2, d, m1, b, len)
    ensures Progress(m, m2, ram, destination, buffer, good + len, hi)
  {
    forall i {:trigger m2[i]} | destination <= i < destination + (good + len)
      ensures m2[i] == m[i - destination + buffer]
    {
      if i < d {
        assert m2[i] == m1[i];
      } else {
        var j := i - d + b;
        assert m2[i] == m1[j];
        assert m1[j] == m[j];
      }
    }
  }

  /** A failed chunk leaves the earlier ones alone: it lies in a later sector. */
  lemma StillHolds(m: seq<byte>, m1: seq<byte>, m2: seq<byte>, b: nat, destination: nat, buffer: nat, good: nat, d: nat)
    requires d == destination + good && FLASH_SIZE <= b
    requires Progress(m, m1, b, destination, buffer, good, d)
    requires RamKept(m1, m2, b)
    requires SameFlash(m1, m2, SectorStart(d), SectorLimit(d))
    requires m2 == m1 || SectorStart(d) == d || good == 0
    requires good == 0 || destination + good <= FLASH_SIZE
    ensures Halted(m, m2, b, destination, buffer, good)
  {
  }

  lemma SmallSectorRange(destination: nat, length: nat)
    requires InSmallSector(destination, length)
    ensures SectorStart(destination) <= destination == SectorStart(destination) + Offset(destination)
    ensures destination + length <= SectorStart(destination) + SMALL_SECTOR == SectorLimit(destination) <= FLASH_SIZE
    ensures SectorStart(destination) % 256 == 0
  {
    var sector := SectorOf(destination);
    SectorMap(destination, sector);
    SectorEnd(sector);
    SectorMap(LastAddress(destination, length), sector);
  }

  /** The sector buffer after both copies: the sector with the new bytes over it. */
  ghost predicate Image(m: seq<byte>, m2: seq<byte>, b: nat, start: nat, offset: nat, source: nat, n: nat) {
    |m2| == |m| && start + SMALL_SECTOR <= |m| && source + n <= |m| && b + SMALL_SECTOR <= |m|
    && forall i {:trigger m2[i]} :: b <= i < b + SMALL_SECTOR ==>
      m2[i] == if b + offset <= i < b + offset + n then m[i - b - offset + source] else m[i - b + start]
  }

  lemma BufferImage(m: seq<byte>, m2: seq<byte>, b: nat, start: nat, offset: nat, source: nat, n: nat)
    requires start + SMALL_SECTOR <= FLASH_SIZE <= b && b + SMALL_SECTOR + SLACK <= |m|
    requires offset + n <= SMALL_SECTOR + SLACK && source + n <= |m|
    requires source + n <= b || b + SMALL_SECTOR + SLACK <= source
    requires m2 == ByteCopy(ByteCopy(m, b, start, SMALL_SECTOR), b + offset, source, n)
    ensures Image(m, m2, b, start, offset, source, n)
  {
    ByteCopyDisjoint(m, b, start, SMALL_SECTOR);
    ByteCopyDisjoint(ByteCopy(m, b, start, SMALL_SECTOR), b + offset, source, n);
  }

  /** Whatever is copied, only the sector buffer and its slack are written. */
  lemma BufferOnly(m: seq<byte>, m2: seq<byte>, b: nat, start: nat, offset: nat, source: nat, n: nat)
    requires start + SMALL_SECTOR <= |m| && b + SMALL_SECTOR + SLACK <= |m|
    requires offset + n <= SMALL_SECTOR + SLACK && source + n <= |m|
    requires m2 == ByteCopy(ByteCopy(m, b, start, SMALL_SECTOR), b + offset, source, n)
    ensures SameOutside(m, m2, b, b + SMALL_SECTOR + SLACK)
  {
    CopyOnly(m, b, start, SMALL_SECTOR);
    CopyOnly(ByteCopy(m, b, start, SMALL_SECTOR), b + offset, source, n);
  }

  lemma CopyOnly(m: seq<byte>, dest: nat, src: nat, n: nat)
    requires dest + n <= |m| && src + n <= |m|
    ensures SameOutside(m, ByteCopy(m, dest, src, n), dest, dest + n)
  {
    forall i | 0 <= i < |m| && !(dest <= i < dest + n)
      ensures ByteCopy(m, dest, src, n)[i] == m[i]
    {
      ByteCopyFrame(m, dest, src, 0, n, i);
    }
  }

  lemma BufferThenSector(m: seq<byte>, image: seq<byte>, m': seq<byte>, b: nat, start: nat)
    requires start + SMALL_SECTOR <= FLASH_SIZE <= b
    requires SameOutside(m, image, b, b + SMALL_SECTOR + SLACK)
    requires SameOutside(image, m', start, start + SMALL_SECTOR)
    ensures RamKept(m, m', b)
    ensures SameFlash(m, m', start, start + SMALL_SECTOR)
  {
  }

  /** Burning the image writes the requested bytes and what spilled after them, nothing else. */
  lemma ImageBurnt(m: seq<byte>, image: seq<byte>, m': seq<byte>, b: nat, start: nat, dest: nat, offset: nat,
                   source: nat, length: nat, moved: nat)
    requires start + SMALL_SECTOR <= FLASH_SIZE <= b && dest == start + offset
    requires offset + length <= SMALL_SECTOR && length <= moved
    requires Image(m, image, b, start, offset, source, moved)
    requires Holds(m', start, image, b, SMALL_SECTOR)
    requires SameFlash(m, m', start, start + SMALL_SECTOR)
    ensures SectorRewritten(m, m', start, dest, source, moved)
    ensures Holds(m', dest, m, source, length)
    ensures SameFlash(m, m', dest, dest + moved)
  {
    forall i | start <= i < start + SMALL_SECTOR
      ensures m'[i] == if dest <= i < dest + moved then m[i - dest + source] else m[i]
    {
      assert m'[i] == image[i - start + b];
    }
  }

  function SectorStart(a: nat): nat {
    AddressOf(SectorOf(a))
  }

  function Offset(a: nat): nat {
    SectorMap(a, SectorOf(a));
    a - SectorStart(a)
  }

  function SectorLimit(a: nat): nat {
    AddressOf(SectorOf(a) + 1)
  }

  /** `destination + length - 1` as the 32-bit address the code computes. */
  function LastAddress(destination: nat, length: nat): nat {
    if destination + length == 0 then 0xFFFF_FFFF else destination + length - 1
  }

  /** The range lies in one 4K sector. */
  predicate InSmallSector(destination: nat, length: nat) {
    SectorOf(destination) < FIRST_LARGE && SectorOf(LastAddress(destination, length)) == SectorOf(destination)
  }

  ghost predicate SameFlash(m: seq<byte>, m': seq<byte>, lo: nat, hi: nat) {
    |m'| == |m| && forall i {:trigger m'[i]} :: 0 <= i < FLASH_SIZE && i < |m| && !(lo <= i < hi) ==> m'[i] == m[i]
  }

  /** Of the memory outside the flash only the sector buffer and its slack may change. */
  ghost predicate RamKept(m: seq<byte>, m': seq<byte>, sectorBuffer: nat) {
    |m'| == |m| && forall i {:trigger m'[i]} :: FLASH_SIZE <= i < |m| && !(sectorBuffer <= i < sectorBuffer + SMALL_SECTOR + SLACK) ==>
      m'[i] == m[i]
  }

  ghost predicate SectorRewritten(m: seq<byte>, m': seq<byte>, start: nat, dest: nat, source: nat, n: nat) {
    |m'| == |m| && start + SMALL_SECTOR <= |m| && source + n <= |m|
    && forall i {:trigger m'[i]} :: start <= i < start + SMALL_SECTOR ==>
      m'[i] == if dest <= i < dest + n then m[i - dest + source] else m[i]
  }

  lemma SectorIsOne(sector: nat, length: nat)
    requires length == SizeOf(sector)
    ensures SectorOf(AddressOf(sector)) == sector
    ensures SectorOf(AddressOf(sector) + length - 1) == sector
  {
    SectorMap(AddressOf(sector), sector);
    SectorMap(AddressOf(sector) + length - 1, sector);
  }

  /** After erase and prepare no byte of the sector is marked. */
  lemma UntouchedSector(log: seq<Command>, sector: nat, length: nat)
    requires length == SizeOf(sector)
    ensures var l := log + [Erase(sector, sector, true)] + [Prepare(sector, sector, true)];
      forall a :: AddressOf(sector) <= a < AddressOf(sector) + length ==> !Burnt(l, a)
  {
    var erased := log + [Erase(sector, sector, true)];
    forall a | AddressOf(sector) <= a < AddressOf(sector) + length
      ensures !Burnt(erased + [Prepare(sector, sector, true)], a)
    {
      SectorMap(a, sector);
      AfterErase(log, sector, a);
      PrepareKeepsBurnt(erased, sector, true, a);
    }
  }

  /** Programming a blank area stores the bytes programmed. */
  lemma ProgrammingBlank(blank: seq<byte>, m': seq<byte>, dest: nat, source: nat, n: nat)
    requires Blank(blank, dest, dest + n) && Programmed(m', dest, blank, source, n)
    ensures Holds(m', dest, blank, source, n)
  {
    AndBlank();
  }

  /** A sector erased and programmed from RAM holds what the RAM held before the erase. */
  lemma SectorBurnt(m: seq<byte>, blank: seq<byte>, m': seq<byte>, dest: nat, source: nat, n: nat)
    requires source + n <= |m| && dest + n <= source
    requires Blank(blank, dest, dest + n) && SameOutside(m, blank, dest, dest + n)
    requires Programmed(m', dest, blank, source, n)
    ensures Holds(m', dest, m, source, n)
  {
    ProgrammingBlank(blank, m', dest, source, n);
  }
}
