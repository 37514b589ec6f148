/** The library's pseudo-random generator, in the 32-bit arithmetic of its seed. */
module Rand {
  import opened Bytes
  import opened Arithmetic
  import opened Period

  const WORD := 0x1_0000_0000
  const MULTIPLIER := 1103515245
  const INVERSE := 4005161829

  function Step(x: u32): u32 {
    (x * MULTIPLIER + 12345) % WORD
  }

  function StepBack(x: u32): u32 {
    (x - 12345) * INVERSE % WORD
  }

  function Next(seed: u32): u32 {
    Step(Step(Step(seed)))
  }

  function Back(seed: u32): u32 {
    StepBack(StepBack(StepBack(seed)))
  }

  /** Eleven, ten and ten bits side by side. */
  function Pack(high: u32, middle: u32, low: u32): (r: u32)
    requires high < 2048 && middle < 1024 && low < 1024
    ensures r < 0x8000_0000
    ensures r / 0x10_0000 == high && r / 0x400 % 0x400 == middle && r % 0x400 == low
  {
    Group(high, middle * 0x400 + low, 0x10_0000);
    Group(high * 0x400 + middle, low, 0x400);
    Group(high, middle, 0x400);
    high * 0x10_0000 + middle * 0x400 + low
  }

  /** A group of bits in front of another. */
  lemma Group(q: nat, d: nat, w: nat)
    requires (w == 0x400 || w == 0x10_0000) && d < w
    ensures (q * w + d) / w == q && (q * w + d) % w == d
  {
  }

  /** The source joins the groups by shifts and exclusive or. */
  lemma PackIsXor(high: bv32, middle: bv32, low: bv32)
    requires high < 2048 && middle < 1024 && low < 1024
    ensures (((high << 10) ^ middle) << 10) ^ low == high * 0x10_0000 + middle * 0x400 + low
  {
  }

  function Bits(x: u32, n: nat): (b: u32)
    requires n > 0
    ensures b < n
  {
    x / 65536 % n
  }

  /** What a call returns: eleven bits of the next state, ten of the one after it, ten of the third. */
  function Draw(seed: u32): u32 {
    Pack(Bits(Step(seed), 2048), Bits(Step(Step(seed)), 1024), Bits(Next(seed), 1024))
  }

  method Advance(x: u32) returns (next: u32)
    ensures next == Step(x)
  {
    next := x * MULTIPLIER % WORD;
    next := (next + 12345) % WORD;
    ModAdd(x * MULTIPLIER, 12345, WORD);
  }

  /** rand_r. */
  method RandR(seed: u32) returns (result: u32, next: u32)
    ensures next == Next(seed) && result == Draw(seed)
  {
    next := Advance(seed);
    var high := Bits(next, 2048);
    next := Advance(next);
    var middle := Bits(next, 1024);
    next := Advance(next);
    result := Pack(high, middle, Bits(next, 1024));
  }

  /** The multiplier is odd, so a step can be taken back. */
  lemma StepInvertible(x: u32)
    ensures StepBack(Step(x)) == x && Step(StepBack(x)) == x
  {
    assert MULTIPLIER * INVERSE == 1 + 1029054899 * WORD;
    Cancel(x, MULTIPLIER, 12345, INVERSE, 1029054899, WORD);
    CancelBack(x, MULTIPLIER, 12345, INVERSE, 1029054899, WORD);
  }

  /** A call can be undone: no two seeds lead to the same next one, and every seed is some seed's next. */
  lemma NextInvertible(seed: u32)
    ensures Back(Next(seed)) == seed && Next(Back(seed)) == seed
  {
    StepInvertible(seed);
    StepInvertible(Step(seed));
    StepInvertible(Step(Step(seed)));
    StepInvertible(StepBack(seed));
    StepInvertible(StepBack(StepBack(seed)));
  }

  function SeedAfter(seed: u32, n: nat): u32 {
    if n == 0 then seed else Next(SeedAfter(seed, n - 1))
  }

  /** As many calls later, generators seeded differently are still apart. */
  lemma {:induction false} SeedsStayApart(a: u32, b: u32, n: nat)
    ensures SeedAfter(a, n) == SeedAfter(b, n) <==> a == b
    decreases n
  {
    if n > 0 {
      SeedsStayApart(a, b, n - 1);
      NextInvertible(SeedAfter(a, n - 1));
      NextInvertible(SeedAfter(b, n - 1));
    }
  }

  // ---------------------------------------------------------------- the period

  function Steps(x: u32, n: nat): u32 {
    if n == 0 then x else Step(Steps(x, n - 1))
  }

  lemma {:induction false} StepsAffine(x: u32, n: nat)
    ensures Steps(x, n) == (Times(MULTIPLIER, n) * x + Plus(MULTIPLIER, 12345, n)) % WORD
    decreases n
  {
    if n > 0 {
      StepsAffine(x, n - 1);
      var t, p := Times(MULTIPLIER, n - 1), Plus(MULTIPLIER, 12345, n - 1);
      ModStep(t * x + p, MULTIPLIER, 12345, WORD);
      AffineStep(t, x, p, MULTIPLIER);
    }
  }

  lemma AffineStep(t: nat, x: nat, p: nat, a: nat)
    ensures (t * x + p) * a == t * a * x + p * a
  {
  }

  lemma ComesBack(t: nat, x: nat, p: nat, w: nat)
    requires t >= 1 && x < w
    ensures (t * x + p) % w == x <==> ((t - 1) * x + p) % w == 0
  {
    var d := (t - 1) * x + p;
    assert t * x + p == d + x;
    DivMod(d, w);
    DivMod(d + x, w);
    if d % w == 0 {
      DivUnique(d + x, w, d / w, x);
    }
    if (d + x) % w == x {
      DivUnique(d, w, (d + x) / w, 0);
    }
  }

  lemma {:induction false} CallsAreSteps(seed: u32, n: nat)
    ensures SeedAfter(seed, n) == Steps(seed, 3 * n)
    decreases n
  {
    if n > 0 {
      CallsAreSteps(seed, n - 1);
      var m := 3 * n;
      assert Steps(seed, m) == Step(Steps(seed, m - 1)) && Steps(seed, m - 1) == Step(Steps(seed, m - 2));
      assert Steps(seed, m - 2) == Step(Steps(seed, m - 3)) && m - 3 == 3 * (n - 1);
    }
  }

  lemma WordIsTwo()
    ensures Two(32) == WORD
  {
    assert Two(8) == 0x100 && Two(16) == 0x1_0000 && Two(24) == 0x100_0000;
  }

  lemma HalvableWord(y: nat)
    ensures Halvable(y, 32) <==> y % WORD == 0
  {
    HalvableIs(y, 32);
    WordIsTwo();
  }

  lemma StepsPeriod(x: u32, m: nat, t: nat, p: nat)
    requires t == Times(MULTIPLIER, m) && p == Plus(MULTIPLIER, 12345, m)
    ensures Steps(x, m) == x <==> Halvable(m, 32)
  {
    FullPeriod(MULTIPLIER, 12345, x, m, 32);
    StepsFrom(x, m, t, p);
    BackAt(t, x, p, (t - 1) * x + p);
  }

  lemma StepsFrom(x: u32, m: nat, t: nat, p: nat)
    requires t == Times(MULTIPLIER, m) && p == Plus(MULTIPLIER, 12345, m)
    ensures Steps(x, m) == (t * x + p) % WORD
  {
    StepsAffine(x, m);
  }

  lemma BackAt(t: nat, x: u32, p: nat, y: nat)
    requires t >= 1 && y == (t - 1) * x + p
    ensures (t * x + p) % WORD == x <==> Halvable(y, 32)
  {
    ComesBack(t, x, p, WORD);
    HalvableWord(y);
  }

  /** The period is full: a generator is back at its seed exactly after every 2^32 calls. */
  lemma SeedPeriod(seed: u32, n: nat)
    ensures SeedAfter(seed, n) == seed <==> n % WORD == 0
  {
    CallsAreSteps(seed, n);
    StepsPeriod(seed, n * 3, Times(MULTIPLIER, n * 3), Plus(MULTIPLIER, 12345, n * 3));
    TimesOdd(n, 3, 32);
    HalvableWord(n);
  }

  lemma {:induction false} MoreCalls(seed: u32, m: nat, n: nat)
    ensures SeedAfter(seed, m + n) == SeedAfter(SeedAfter(seed, m), n)
    decreases n
  {
    if n > 0 {
      MoreCalls(seed, m, n - 1);
    }
  }

  /** The seeds after i and after j calls are the same exactly when 2^32 divides j - i: no seed comes up
      twice within a period. */
  lemma SeedsRepeat(seed: u32, i: nat, j: nat)
    requires i <= j
    ensures SeedAfter(seed, i) == SeedAfter(seed, j) <==> (j - i) % WORD == 0
  {
    MoreCalls(seed, j - i, i);
    SeedsStayApart(seed, SeedAfter(seed, j - i), i);
    SeedPeriod(seed, j - i);
  }

  class Generator {
    /** The static seed. */
    var seed: u32

    /** srand. */
    constructor Srand(seed: u32)
      ensures this.seed == seed
    {
      this.seed := seed;
    }

    /** rand. */
    method Rand() returns (r: u32)
      modifies this
      ensures r == Draw(old(seed)) && seed == Next(old(seed))
    {
      r, seed := RandR(seed);
    }
  }
}
