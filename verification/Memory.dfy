/** The block operations of tinylibc, memcpy and memset, over one byte-addressed memory.

    Both are unrolled with Duff's device. Their specification is the plain byte loop: ByteCopy
    and ByteFill say what n iterations of that loop leave in memory, overlapping areas included. */
module Memory {
  import opened Bytes

  /** Memory after n iterations of `*dest++ = *src++`. */
  function ByteCopy(m: seq<byte>, dest: nat, src: nat, n: nat): (r: seq<byte>)
    requires dest + n <= |m| && src + n <= |m|
    ensures |r| == |m|
    decreases n, |m|
  {
    if n == 0 then m
    else
      var p := ByteCopy(m, dest, src, n - 1);
      p[dest + n - 1 := p[src + n - 1]]
  }

  /** Memory after n iterations of `*dest++ = c`. */
  function ByteFill(m: seq<byte>, dest: nat, c: byte, n: nat): (r: seq<byte>)
    requires dest + n <= |m|
    ensures |r| == |m|
    decreases n, |m|
  {
    if n == 0 then m else ByteFill(m, dest, c, n - 1)[dest + n - 1 := c]
  }

  // ---------------------------------------------------------------- the byte loops

  lemma {:induction false} ByteCopySplit(m: seq<byte>, dest: nat, src: nat, a: nat, b: nat)
    requires dest + a + b <= |m| && src + a + b <= |m|
    ensures ByteCopy(m, dest, src, a + b) == ByteCopy(ByteCopy(m, dest, src, a), dest + a, src + a, b)
    decreases b
  {
    if b > 0 {
      ByteCopySplit(m, dest, src, a, b - 1);
    }
  }

  lemma {:induction false} ByteFillSplit(m: seq<byte>, dest: nat, c: byte, a: nat, b: nat)
    requires dest + a + b <= |m|
    ensures ByteFill(m, dest, c, a + b) == ByteFill(ByteFill(m, dest, c, a), dest + a, c, b)
    decreases b
  {
    if b > 0 {
      ByteFillSplit(m, dest, c, a, b - 1);
    }
  }

  /** Copying between disjoint areas: the source arrives and nothing else moves. */
  lemma {:induction false} ByteCopyDisjoint(m: seq<byte>, dest: nat, src: nat, n: nat)
    requires dest + n <= |m| && src + n <= |m|
    requires dest + n <= src || src + n <= dest
    ensures forall i {:trigger ByteCopy(m, dest, src, n)[i]} ::
      dest <= i < dest + n ==> ByteCopy(m, dest, src, n)[i] == m[i - dest + src]
    ensures forall i :: 0 <= i < |m| && !(dest <= i < dest + n) ==> ByteCopy(m, dest, src, n)[i] == m[i]
  {
    if n > 0 {
      ByteCopyDisjoint(m, dest, src, n - 1);
      var p := ByteCopy(m, dest, src, n - 1);
      var k := src + n - 1;
      assert 0 <= k < |m| && !(dest <= k < dest + (n - 1));
      assert p[k] == m[k];
      assert ByteCopy(m, dest, src, n) == p[dest + n - 1 := p[k]];
    }
  }

  lemma {:induction false} ByteFillAt(m: seq<byte>, dest: nat, c: byte, n: nat)
    requires dest + n <= |m|
    ensures forall i :: 0 <= i < |m| ==>
      ByteFill(m, dest, c, n)[i] == if dest <= i < dest + n then c else m[i]
  {
    if n > 0 {
      ByteFillAt(m, dest, c, n - 1);
    }
  }

  /** Iterations a..b of the copy loop write only dest+a..dest+b. */
  lemma {:induction false} ByteCopyFrame(m: seq<byte>, dest: nat, src: nat, a: nat, b: nat, i: nat)
    requires a <= b && dest + b <= |m| && src + b <= |m| && i < |m|
    requires i < dest + a || dest + b <= i
    ensures ByteCopy(m, dest, src, b)[i] == ByteCopy(m, dest, src, a)[i]
    decreases b
  {
    if a < b {
      ByteCopyFrame(m, dest, src, a, b - 1, i);
    }
  }

  lemma {:induction false} ByteCopyOntoItself(m: seq<byte>, p: nat, n: nat)
    requires p + n <= |m|
    ensures ByteCopy(m, p, p, n) == m
  {
    if n > 0 {
      ByteCopyOntoItself(m, p, n - 1);
    }
  }

  // ---------------------------------------------------------------- Duff's device

  predicate WordAligned(a: nat) {
    a % 4 == 0
  }

  /** How many units the unrolled loop moves when asked for u: entering at `case 0` runs all eight
      statements before the counter is looked at, so asking for none moves eight. */
  function DuffUnits(u: nat): nat {
    if u == 0 then 8 else u
  }

  /** Bytes moved by the word path when asked for n: less than a word means eight words, and the odd
      bytes after them. */
  function WordPathLength(n: nat): nat {
    if n < 4 then 32 + n else n
  }

  lemma WordPathLengthIs(n: nat)
    ensures WordPathLength(n) == 4 * DuffUnits(n / 4) + n % 4
  {
  }

  /** Bytes memcpy really moves when asked for n. */
  function MemcpyLength(dest: nat, src: nat, n: nat): nat {
    if n > 0 && WordAligned(dest) && WordAligned(src) then WordPathLength(n) else n
  }

  /** What a caller checks to know that memcpy copies n bytes and no more. */
  predicate MemcpyExact(dest: nat, src: nat, n: nat) {
    n == 0 || n >= 4 || !WordAligned(dest) || !WordAligned(src) || dest == src
  }

  /** Bytes memset stores one at a time before it reaches a word boundary. */
  function Prologue(dest: nat, n: nat): (k: nat)
    ensures k <= n && k <= 3 && (k < n ==> WordAligned(dest + k))
  {
    var pad := (4 - dest % 4) % 4;
    if pad < n then pad else n
  }

  /** The prologue ends at the first word boundary or at the end of the area. */
  lemma PrologueStops(dest: nat, n: nat, at: nat)
    requires dest <= at <= dest + Prologue(dest, n)
    ensures at == dest + Prologue(dest, n) <==> at == dest + n || WordAligned(at)
  {
  }

  function MemsetLength(dest: nat, n: nat): nat {
    var k := Prologue(dest, n);
    if k < n then k + WordPathLength(n - k) else n
  }

  predicate MemsetExact(dest: nat, n: nat) {
    var rest := n - Prologue(dest, n);
    rest == 0 || rest >= 4
  }

  /** Length of a run of `units` stores of the given width. */
  function Span(units: nat, width: nat): (n: nat)
    requires width == 1 || width == 4
    ensures width == 4 ==> WordAligned(n)
  {
    if width == 1 then units else 4 * units
  }

  ghost predicate UnitAligned(dest: nat, src: nat, done: nat, width: nat) {
    width == 1 || (width == 4 && WordAligned(dest) && WordAligned(src) && WordAligned(done))
  }

  /** A word move is four byte moves, overlapping words included: two aligned words are the same or
      share no byte. */
  lemma ByteCopyWord(m: seq<byte>, dest: nat, src: nat, done: nat)
    requires UnitAligned(dest, src, done, 4)
    requires dest + done + 4 <= |m| && src + done + 4 <= |m|
    ensures var p, d, s := ByteCopy(m, dest, src, done), dest + done, src + done;
      ByteCopy(m, dest, src, done + 4) == p[d := p[s]][d + 1 := p[s + 1]][d + 2 := p[s + 2]][d + 3 := p[s + 3]]
  {
    var p, d, s := ByteCopy(m, dest, src, done), dest + done, src + done;
    assert ByteCopy(m, dest, src, done + 1) == p[d := p[s]];
    assert ByteCopy(m, dest, src, done + 2) == p[d := p[s]][d + 1 := p[s + 1]];
    assert ByteCopy(m, dest, src, done + 3) == p[d := p[s]][d + 1 := p[s + 1]][d + 2 := p[s + 2]];
  }

  /** One `*dest++ = *src++` statement, `done` bytes into the copy: a byte or a word store. */
  method MoveUnit(mem: array<byte>, dest: nat, src: nat, done: nat, width: nat, ghost m: seq<byte>)
    requires UnitAligned(dest, src, done, width)
    requires |m| == mem.Length
    requires dest + done + width <= mem.Length && src + done + width <= mem.Length
    requires mem[..] == ByteCopy(m, dest, src, done)
    modifies mem
    ensures mem[..] == ByteCopy(m, dest, src, done + width)
  {
    var d, s := dest + done, src + done;
    if width == 1 {
      mem[d] := mem[s];
    } else {
      ByteCopyWord(m, dest, src, done);
      mem[d], mem[d + 1], mem[d + 2], mem[d + 3] := mem[s], mem[s + 1], mem[s + 2], mem[s + 3];
    }
  }

  /** The eight unrolled statements entered at `case k`: one store, then fall through to the next. */
  method CopyFromCase(mem: array<byte>, dest: nat, src: nat, done: nat, k: nat, width: nat, ghost m: seq<byte>)
    requires 1 <= k <= 8 && UnitAligned(dest, src, done, width)
    requires |m| == mem.Length
    requires dest + done + Span(k, width) <= mem.Length && src + done + Span(k, width) <= mem.Length
    requires mem[..] == ByteCopy(m, dest, src, done)
    modifies mem
    ensures mem[..] == ByteCopy(m, dest, src, done + Span(k, width))
    decreases k
  {
    MoveUnit(mem, dest, src, done, width, m);
    if k > 1 {
      CopyFromCase(mem, dest, src, done + width, k - 1, width, m);
    }
  }

  /** The case label the switch jumps to, and the number of passes the counter allows. */
  function Entry(units: nat): (k: nat)
    ensures 1 <= k <= 8
  {
    if units % 8 == 0 then 8 else units % 8
  }

  /** The partial first pass and the full ones add up. */
  lemma DuffCount(units: nat)
    ensures units > 0 ==> Entry(units) + 8 * ((units + 7) / 8 - 1) == units
    ensures units == 0 ==> Entry(units) == DuffUnits(units) && (units + 7) / 8 == 0
  {
  }

  /** The do-while around the eight statements: one pass entered at `case k`, then full passes while
      the counter lasts. */
  method CopyPasses(mem: array<byte>, dest: nat, src: nat, k: nat, passes: nat, width: nat, ghost total: nat)
    requires UnitAligned(dest, src, 0, width)
    requires 1 <= k <= 8 && total == k + 8 * (if passes > 0 then passes - 1 else 0)
    requires dest + Span(total, width) <= mem.Length && src + Span(total, width) <= mem.Length
    modifies mem
    ensures mem[..] == ByteCopy(old(mem[..]), dest, src, Span(total, width))
  {
    ghost var m := mem[..];
    CopyFromCase(mem, dest, src, 0, k, width, m);
    var done, count := k, passes - 1;
    while count > 0
      invariant done + 8 * (if count > 0 then count else 0) == total
      invariant mem[..] == ByteCopy(m, dest, src, Span(done, width))
    {
      CopyFromCase(mem, dest, src, Span(done, width), 8, width, m);
      done, count := done + 8, count - 1;
    }
  }

  /** The unrolled loop: rflpc_memcpy_unaligned_fast with width 1, the word loop of
      rflpc_memcpy_aligned_fast with width 4. */
  method DuffCopy(mem: array<byte>, dest: nat, src: nat, units: nat, width: nat)
    requires UnitAligned(dest, src, 0, width)
    requires dest + Span(DuffUnits(units), width) <= mem.Length
    requires src + Span(DuffUnits(units), width) <= mem.Length
    modifies mem
    ensures mem[..] == ByteCopy(old(mem[..]), dest, src, Span(DuffUnits(units), width))
  {
    DuffCount(units);
    CopyPasses(mem, dest, src, Entry(units), (units + 7) / 8, width, DuffUnits(units));
  }

  method Memcpy(mem: array<byte>, dest: nat, src: nat, n: nat) returns (r: nat)
    requires dest + MemcpyLength(dest, src, n) <= mem.Length
    requires src + MemcpyLength(dest, src, n) <= mem.Length
    modifies mem
    ensures r == dest
    ensures mem[..] == ByteCopy(old(mem[..]), dest, src, MemcpyLength(dest, src, n))
  {
    if n == 0 {
      return dest;
    }
    if WordAligned(dest) && WordAligned(src) {
      ghost var m := mem[..];
      WordPathLengthIs(n);
      DuffCopy(mem, dest, src, n / 4, 4);
      var moved := 4 * DuffUnits(n / 4);
      if n % 4 != 0 {
        DuffCopy(mem, dest + moved, src + moved, n % 4, 1);
        ByteCopySplit(m, dest, src, moved, n % 4);
      }
    } else {
      DuffCopy(mem, dest, src, n, 1);
    }
    return dest;
  }

  // ---------------------------------------------------------------- memset

  /** The word `c << 24 | c << 16 | c << 8 | c`: the four shifted copies share no bit. */
  function Replicated(c: byte): u32 {
    c * 0x101_0101
  }

  lemma ReplicatedShifts(c: byte)
    ensures var w := Replicated(c);
      w / 0x100 == c * 0x1_0101 && w / 0x1_0000 == c * 0x101 && w / 0x100_0000 == c
  {
  }

  lemma LowBytes(c: byte)
    ensures c * 0x101_0101 % 0x100 == c && c * 0x1_0101 % 0x100 == c && c * 0x101 % 0x100 == c
  {
  }

  lemma ReplicatedBytes(c: byte)
    ensures Le32(Replicated(c)) == [c, c, c, c]
  {
    ReplicatedShifts(c);
    LowBytes(c);
  }

  /** One `*bdest++ = c` or `*wdest++ = val` statement. */
  method StoreUnit(mem: array<byte>, dest: nat, c: byte, done: nat, width: nat, ghost m: seq<byte>)
    requires UnitAligned(dest, dest, done, width)
    requires |m| == mem.Length && dest + done + width <= mem.Length
    requires mem[..] == ByteFill(m, dest, c, done)
    modifies mem
    ensures mem[..] == ByteFill(m, dest, c, done + width)
  {
    var d := dest + done;
    if width == 1 {
      mem[d] := c;
    } else {
      ReplicatedBytes(c);
      var word := Le32(Replicated(c));
      mem[d], mem[d + 1], mem[d + 2], mem[d + 3] := word[0], word[1], word[2], word[3];
      ghost var p := ByteFill(m, dest, c, done);
      ghost var p1: seq<byte> := p[d := c];
      ghost var p2: seq<byte> := p1[d + 1 := c];
      assert ByteFill(m, dest, c, done + 1) == p1;
      assert ByteFill(m, dest, c, done + 2) == p2;
      assert ByteFill(m, dest, c, done + 3) == p2[d + 2 := c];
    }
  }

  method FillFromCase(mem: array<byte>, dest: nat, c: byte, done: nat, k: nat, width: nat, ghost m: seq<byte>)
    requires 1 <= k <= 8 && UnitAligned(dest, dest, done, width)
    requires |m| == mem.Length && dest + done + Span(k, width) <= mem.Length
    requires mem[..] == ByteFill(m, dest, c, done)
    modifies mem
    ensures mem[..] == ByteFill(m, dest, c, done + Span(k, width))
    decreases k
  {
    StoreUnit(mem, dest, c, done, width, m);
    if k > 1 {
      FillFromCase(mem, dest, c, done + width, k - 1, width, m);
    }
  }

  method FillPasses(mem: array<byte>, dest: nat, c: byte, k: nat, passes: nat, width: nat, ghost total: nat)
    requires UnitAligned(dest, dest, 0, width)
    requires 1 <= k <= 8 && total == k + 8 * (if passes > 0 then passes - 1 else 0)
    requires dest + Span(total, width) <= mem.Length
    modifies mem
    ensures mem[..] == ByteFill(old(mem[..]), dest, c, Span(total, width))
  {
    ghost var m := mem[..];
    FillFromCase(mem, dest, c, 0, k, width, m);
    var done, count := k, passes - 1;
    while count > 0
      invariant done + 8 * (if count > 0 then count else 0) == total
      invariant mem[..] == ByteFill(m, dest, c, Span(done, width))
    {
      FillFromCase(mem, dest, c, Span(done, width), 8, width, m);
      done, count := done + 8, count - 1;
    }
  }

  method DuffFill(mem: array<byte>, dest: nat, c: byte, units: nat, width: nat)
    requires UnitAligned(dest, dest, 0, width)
    requires dest + Span(DuffUnits(units), width) <= mem.Length
    modifies mem
    ensures mem[..] == ByteFill(old(mem[..]), dest, c, Span(DuffUnits(units), width))
  {
    DuffCount(units);
    FillPasses(mem, dest, c, Entry(units), (units + 7) / 8, width, DuffUnits(units));
  }

  /** rflpc_memset_aligned_fast: whole words, then the bytes that are left. */
  method FillAligned(mem: array<byte>, dest: nat, c: byte, n: nat)
    requires WordAligned(dest) && dest + WordPathLength(n) <= mem.Length
    modifies mem
    ensures mem[..] == ByteFill(old(mem[..]), dest, c, WordPathLength(n))
  {
    ghost var m := mem[..];
    WordPathLengthIs(n);
    DuffFill(mem, dest, c, n / 4, 4);
    if n % 4 != 0 {
      var moved := 4 * DuffUnits(n / 4);
      DuffFill(mem, dest + moved, c, n % 4, 1);
      ByteFillSplit(m, dest, c, moved, n % 4);
    }
  }

  /** memset stores the low byte of c. The address it returns is where the word path started, not
      dest, as soon as the prologue stored something and bytes were left after it. */
  method Memset(mem: array<byte>, dest: nat, c: int, n: nat) returns (r: nat)
    requires dest + MemsetLength(dest, n) <= mem.Length
    modifies mem
    ensures mem[..] == ByteFill(old(mem[..]), dest, c % 0x100, MemsetLength(dest, n))
    ensures r == if Prologue(dest, n) < n then dest + Prologue(dest, n) else dest
  {
    if n == 0 {
      return dest;
    }
    ghost var m := mem[..];
    ghost var k := Prologue(dest, n);
    var low: byte := c % 0x100;
    var bdest, left := dest, n;
    while left > 0 && !WordAligned(bdest)
      invariant bdest + left == dest + n && dest <= bdest <= dest + k
      invariant mem[..] == ByteFill(m, dest, low, bdest - dest)
    {
      PrologueStops(dest, n, bdest);
      mem[bdest] := low;
      bdest, left := bdest + 1, left - 1;
    }
    PrologueStops(dest, n, bdest);
    if left > 0 {
      FillAligned(mem, bdest, low, left);
      ByteFillSplit(m, dest, low, k, WordPathLength(left));
      return bdest;
    }
    return dest;
  }

  // ---------------------------------------------------------------- when the fast forms are exact

  /** What a copy that runs 32 bytes too far loses: the byte at dest + 3, which n <= 3 bytes asked
      for should have left alone. */
  lemma CopyTooLong(m: seq<byte>, dest: nat, src: nat, n: nat)
    requires 0 < n < 4 && (dest + 4 <= src || src + 4 <= dest)
    requires dest + n + 32 <= |m| && src + n + 32 <= |m|
    ensures ByteCopy(m, dest, src, n + 32)[dest + 3] == m[src + 3]
    ensures ByteCopy(m, dest, src, n)[dest + 3] == m[dest + 3]
  {
    ByteCopyFrame(m, dest, src, 0, 3, src + 3);
    ByteCopyFrame(m, dest, src, 4, n + 32, dest + 3);
    ByteCopyFrame(m, dest, src, 0, n, dest + 3);
  }

  ghost predicate CopiesAgree(dest: nat, src: nat, a: nat, b: nat) {
    forall m: seq<byte> | dest + a <= |m| && dest + b <= |m| && src + a <= |m| && src + b <= |m| ::
      ByteCopy(m, dest, src, a) == ByteCopy(m, dest, src, b)
  }

  ghost predicate FillsAgree(dest: nat, c: byte, a: nat, b: nat) {
    forall m: seq<byte> | dest + a <= |m| && dest + b <= |m| ::
      ByteFill(m, dest, c, a) == ByteFill(m, dest, c, b)
  }

  /** A memory of n bytes that all hold v, except one. */
  function Probe(n: nat, v: byte, at: nat, w: byte): (m: seq<byte>)
    ensures |m| == n
    ensures forall i :: 0 <= i < n ==> m[i] == if i == at then w else v
  {
    seq(n, i => if i == at then w else v)
  }

  lemma LongCopyDiffers(dest: nat, src: nat, n: nat, long: nat)
    requires 0 < n < 4 && long == n + 32 && (dest + 4 <= src || src + 4 <= dest)
    ensures !CopiesAgree(dest, src, long, n)
  {
    var m := Probe(dest + src + n + 32, 0, src + 3, 1);
    CopyTooLong(m, dest, src, n);
    var a, b := ByteCopy(m, dest, src, long), ByteCopy(m, dest, src, n);
    assert a[dest + 3] == 1 && b[dest + 3] == 0;
  }

  lemma CopyInPlaceAgrees(p: nat, a: nat, b: nat)
    ensures CopiesAgree(p, p, a, b)
  {
    forall m: seq<byte> | p + a <= |m| && p + b <= |m|
      ensures ByteCopy(m, p, p, a) == ByteCopy(m, p, p, b)
    {
      ByteCopyOntoItself(m, p, a);
      ByteCopyOntoItself(m, p, b);
    }
  }

  lemma FillTooLong(m: seq<byte>, dest: nat, c: byte, n: nat)
    requires dest + n + 32 <= |m|
    ensures ByteFill(m, dest, c, n + 32)[dest + n] == c
    ensures ByteFill(m, dest, c, n)[dest + n] == m[dest + n]
  {
    ByteFillAt(m, dest, c, n);
    ByteFillAt(m, dest, c, n + 32);
  }

  lemma LongFillDiffers(dest: nat, c: byte, n: nat)
    ensures !FillsAgree(dest, c, n + 32, n)
  {
    var other: byte := if c == 0 then 1 else 0;
    var m := Probe(dest + n + 32, other, dest + n, other);
    FillTooLong(m, dest, c, n);
    assert ByteFill(m, dest, c, n + 32) != ByteFill(m, dest, c, n);
  }

  lemma MemcpyLengthIs(dest: nat, src: nat, n: nat)
    ensures MemcpyLength(dest, src, n) == n || MemcpyLength(dest, src, n) == n + 32
    ensures MemcpyExact(dest, src, n) && dest != src ==> MemcpyLength(dest, src, n) == n
    ensures !MemcpyExact(dest, src, n) ==> MemcpyLength(dest, src, n) == n + 32
  {
  }

  /** memcpy leaves what the byte loop of n steps leaves, whatever the memory holds, exactly when the
      caller's check holds. Otherwise (one to three bytes between distinct word-aligned places) it
      copies 32 bytes too many. */
  lemma MemcpyRefinesByteLoop(dest: nat, src: nat, n: nat)
    ensures CopiesAgree(dest, src, MemcpyLength(dest, src, n), n) <==> MemcpyExact(dest, src, n)
  {
    MemcpyLengthIs(dest, src, n);
    if !MemcpyExact(dest, src, n) {
      assert dest + 4 <= src || src + 4 <= dest;
      LongCopyDiffers(dest, src, n, MemcpyLength(dest, src, n));
    } else if dest == src {
      CopyInPlaceAgrees(dest, MemcpyLength(dest, src, n), n);
    }
  }

  lemma MemsetLengthIs(dest: nat, n: nat)
    ensures MemsetLength(dest, n) == if MemsetExact(dest, n) then n else n + 32
  {
  }

  /** The same statement for memset. */
  lemma MemsetRefinesByteLoop(dest: nat, c: byte, n: nat)
    ensures FillsAgree(dest, c, MemsetLength(dest, n), n) <==> MemsetExact(dest, n)
  {
    MemsetLengthIs(dest, n);
    if !MemsetExact(dest, n) {
      LongFillDiffers(dest, c, n);
    }
  }
}
