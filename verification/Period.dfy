/** How long x -> a * x + c takes to come back modulo a power of two, for a = 1 modulo 4 and odd c. */
module Period {
  import opened Arithmetic

  /** n steps without reducing: x goes to Times * x + Plus. */
  function Times(a: nat, n: nat): nat {
    if n == 0 then 1 else Times(a, n - 1) * a
  }

  function Plus(a: nat, c: nat, n: nat): nat {
    if n == 0 then 0 else Plus(a, c, n - 1) * a + c
  }

  /** y can be halved k times. */
  predicate Halvable(y: nat, k: nat) {
    k == 0 || (y % 2 == 0 && Halvable(y / 2, k - 1))
  }

  function Two(k: nat): (p: nat)
    ensures p >= 1
  {
    if k == 0 then 1 else 2 * Two(k - 1)
  }

  /** That is divisibility by a power of two. */
  lemma {:induction false} HalvableIs(y: nat, k: nat)
    ensures Halvable(y, k) <==> y % Two(k) == 0
    decreases k
  {
    if k > 0 {
      HalvableIs(y / 2, k - 1);
      Even(y, Two(k - 1));
    }
  }

  lemma Even(y: nat, h: nat)
    requires h >= 1
    ensures y % (2 * h) == 0 <==> y % 2 == 0 && y / 2 % h == 0
  {
    var q, r := y / 2 / h, y / 2 % h;
    DivMod(y / 2, h);
    assert 2 * (q * h) == q * (2 * h);
    DivUnique(y, 2 * h, q, 2 * r + y % 2);
  }

  // ---------------------------------------------------------------- halving sums and products

  /** A summand that can be halved makes no difference. */
  lemma {:induction false} AddHalvable(y: nat, z: nat, k: nat)
    requires Halvable(y, k)
    ensures Halvable(y + z, k) <==> Halvable(z, k)
    decreases k
  {
    if k > 0 && z % 2 == 0 {
      assert (y + z) / 2 == y / 2 + z / 2;
      AddHalvable(y / 2, z / 2, k - 1);
    }
  }

  lemma HalfProduct(y: nat, x: nat)
    requires y % 2 == 0
    ensures (y * x) % 2 == 0 && y * x / 2 == y / 2 * x
  {
    assert y * x == 2 * (y / 2 * x);
  }

  lemma {:induction false} TimesAny(y: nat, x: nat, k: nat)
    requires Halvable(y, k)
    ensures Halvable(y * x, k)
    decreases k
  {
    if k > 0 {
      HalfProduct(y, x);
      TimesAny(y / 2, x, k - 1);
    }
  }

  lemma OddProduct(y: nat, u: nat)
    requires u % 2 == 1
    ensures (y * u) % 2 == y % 2
  {
    var w := u / 2;
    assert y * u == 2 * (y * w) + y;
  }

  /** An odd factor makes no difference either. */
  lemma {:induction false} TimesOdd(y: nat, u: nat, k: nat)
    requires u % 2 == 1
    ensures Halvable(y * u, k) <==> Halvable(y, k)
    decreases k
  {
    if k > 0 {
      OddProduct(y, u);
      if y % 2 == 0 {
        HalfProduct(y, u);
        TimesOdd(y / 2, u, k - 1);
      }
    }
  }

  lemma {:induction false} HalvableLess(y: nat, k: nat, j: nat)
    requires Halvable(y, k) && j <= k
    ensures Halvable(y, j)
    decreases k
  {
    if j > 0 {
      HalvableLess(y / 2, k - 1, j - 1);
    }
  }

  // ---------------------------------------------------------------- n steps

  /** m steps and then n steps. */
  lemma {:induction false} Compose(a: nat, c: nat, m: nat, n: nat)
    ensures Times(a, m + n) == Times(a, m) * Times(a, n)
    ensures Plus(a, c, m + n) == Plus(a, c, m) * Times(a, n) + Plus(a, c, n)
    decreases n
  {
    if n > 0 {
      Compose(a, c, m, n - 1);
      Unfolded(a, c, m + n);
      Unfolded(a, c, n);
      ComposeStep(a, c, Times(a, m), Times(a, n - 1), Plus(a, c, m), Plus(a, c, n - 1));
    }
  }

  lemma Unfolded(a: nat, c: nat, n: nat)
    requires n > 0
    ensures Times(a, n) == Times(a, n - 1) * a && Plus(a, c, n) == Plus(a, c, n - 1) * a + c
  {
  }

  lemma ComposeStep(a: nat, c: nat, s: nat, t: nat, p: nat, q: nat)
    ensures s * t * a == s * (t * a)
    ensures (p * t + q) * a + c == p * (t * a) + (q * a + c)
  {
  }

  lemma {:induction false} TimesOne(a: nat, n: nat)
    requires a % 4 == 1
    ensures Times(a, n) % 4 == 1
    decreases n
  {
    if n > 0 {
      TimesOne(a, n - 1);
      OneModFour(Times(a, n - 1), a);
    }
  }

  lemma OneModFour(x: nat, a: nat)
    requires x % 4 == 1 && a % 4 == 1
    ensures (x * a) % 4 == 1
  {
    var q := x / 4;
    assert x == 4 * q + 1;
    FourProduct(q, a, q * a);
  }

  lemma FourProduct(q: nat, a: nat, w: nat)
    requires w == q * a
    ensures (4 * q + 1) * a == 4 * w + a
  {
  }

  lemma {:induction false} PlusParity(a: nat, c: nat, n: nat)
    requires a % 2 == 1 && c % 2 == 1
    ensures Plus(a, c, n) % 2 == n % 2
    decreases n
  {
    if n > 0 {
      PlusParity(a, c, n - 1);
      OddProduct(Plus(a, c, n - 1), a);
      Flip(Plus(a, c, n - 1) * a, c, n);
    }
  }

  lemma Flip(z: nat, c: nat, n: nat)
    requires n > 0 && c % 2 == 1 && z % 2 == (n - 1) % 2
    ensures (z + c) % 2 == n % 2
  {
  }

  /** Plus can be halved as often as n, and Times - 1 at least twice more. */
  lemma {:induction false} Valuation(a: nat, c: nat, n: nat, k: nat, t: nat, p: nat)
    requires a % 4 == 1 && c % 2 == 1 && t == Times(a, n) && p == Plus(a, c, n)
    ensures Halvable(p, k) <==> Halvable(n, k)
    ensures t >= 1 && (Halvable(n, k) ==> Halvable(t - 1, k + 2))
    decreases k
  {
    if k == 0 {
      TimesOne(a, n);
      OneLess(t, k);
    } else if n % 2 == 0 {
      var h := n / 2;
      assert n == 2 * h;
      Valuation(a, c, h, k - 1, Times(a, h), Plus(a, c, h));
      ValuationOfDouble(a, c, h, k - 1);
    } else {
      OddSteps(a, c, n, k, t, p);
    }
  }

  /** After an odd number of steps nothing can be halved. */
  lemma OddSteps(a: nat, c: nat, n: nat, k: nat, t: nat, p: nat)
    requires a % 4 == 1 && c % 2 == 1 && t == Times(a, n) && p == Plus(a, c, n) && n % 2 == 1 && k > 0
    ensures t >= 1 && !Halvable(p, k) && !Halvable(n, k)
  {
    OddToo(a);
    TimesOne(a, n);
    PlusParity(a, c, n);
    OddOnes(p, n, k);
  }

  lemma OddToo(a: nat)
    requires a % 4 == 1
    ensures a % 2 == 1
  {
  }

  lemma OneLess(t: nat, k: nat)
    requires t % 4 == 1 && k == 0
    ensures t >= 1 && Halvable(t - 1, k + 2)
  {
    TwiceHalvable(t - 1);
  }

  lemma OddOnes(y: nat, n: nat, k: nat)
    requires y % 2 == n % 2 == 1 && k > 0
    ensures !Halvable(y, k) && !Halvable(n, k)
  {
  }

  lemma ValuationOfDouble(a: nat, c: nat, m: nat, k: nat)
    requires a % 4 == 1
    requires Halvable(Plus(a, c, m), k) <==> Halvable(m, k)
    requires Times(a, m) >= 1 && (Halvable(m, k) ==> Halvable(Times(a, m) - 1, k + 2))
    ensures Halvable(Plus(a, c, 2 * m), k + 1) <==> Halvable(2 * m, k + 1)
    ensures Times(a, 2 * m) >= 1 && (Halvable(2 * m, k + 1) ==> Halvable(Times(a, 2 * m) - 1, k + 3))
  {
    TimesOne(a, m);
    Compose(a, c, m, m);
    assert m + m == 2 * m && 2 * m / 2 == m;
    Doubled(Plus(a, c, m), Times(a, m), k);
  }

  lemma TwiceHalvable(y: nat)
    requires y % 4 == 0
    ensures Halvable(y, 2)
  {
    assert Halvable(y / 2 / 2, 0);
    assert Halvable(y / 2, 1);
  }

  /** What doubling the number of steps does. */
  lemma Doubled(p: nat, t: nat, k: nat)
    requires t % 4 == 1
    ensures Halvable(p * t + p, k + 1) <==> Halvable(p, k)
    ensures t * t >= 1 && (Halvable(t - 1, k + 2) ==> Halvable(t * t - 1, k + 3))
  {
    var u := (t + 1) / 2;
    DoubledPlus(p, t, u, p * u, k);
    DoubledTimes(t, u, (t - 1) * u, k + 2);
  }

  lemma DoubledPlus(p: nat, t: nat, u: nat, w: nat, k: nat)
    requires t == 2 * u - 1 && u % 2 == 1 && w == p * u
    ensures Halvable(p * t + p, k + 1) <==> Halvable(p, k)
  {
    assert p * t + p == 2 * w;
    TwiceIs(w, k);
    TimesOdd(p, u, k);
  }

  lemma DoubledTimes(t: nat, u: nat, w: nat, k: nat)
    requires t == 2 * u - 1 && u % 2 == 1 && w == (t - 1) * u
    ensures t * t >= 1 && (Halvable(t - 1, k) ==> Halvable(t * t - 1, k + 1))
  {
    assert t * t == 2 * w + 1;
    TwiceIs(w, k);
    TimesOdd(t - 1, u, k);
  }

  lemma TwiceIs(w: nat, k: nat)
    ensures Halvable(2 * w, k + 1) <==> Halvable(w, k)
  {
    assert 2 * w / 2 == w;
  }

  /** n steps come back to x modulo 2^k exactly when 2^k divides n. */
  lemma {:induction false} FullPeriod(a: nat, c: nat, x: nat, n: nat, k: nat)
    requires a % 4 == 1 && c % 2 == 1
    ensures Times(a, n) >= 1 && (Halvable((Times(a, n) - 1) * x + Plus(a, c, n), k) <==> Halvable(n, k))
    decreases k
  {
    Valuation(a, c, n, k, Times(a, n), Plus(a, c, n));
    if k > 0 {
      var t, p := Times(a, n) - 1, Plus(a, c, n);
      if Halvable(n, k - 1) {
        Valuation(a, c, n, k - 1, t + 1, p);
        HalvableLess(t, k + 1, k);
        TimesAny(t, x, k);
        AddHalvable(t * x, p, k);
      } else {
        FullPeriod(a, c, x, n, k - 1);
        if Halvable(n, k) {
          HalvableLess(n, k, k - 1);
        }
        if Halvable(t * x + p, k) {
          HalvableLess(t * x + p, k, k - 1);
        }
      }
    }
  }
}
