/** Division facts the number proofs share. */
module Arithmetic {

  lemma MulMono(a: int, b: int, p: nat)
    requires a <= b
    ensures a * p <= b * p
  {
  }

  lemma DivMod(v: int, p: nat)
    requires p > 0
    ensures v == v / p * p + v % p && 0 <= v % p < p
  {
  }

  lemma DivUnique(v: int, p: nat, q: int, r: nat)
    requires r < p && v == q * p + r
    ensures v / p == q && v % p == r
  {
    DivMod(v, p);
    if v / p < q {
      MulMono(v / p + 1, q, p);
    } else if v / p > q {
      MulMono(q + 1, v / p, p);
    }
  }

  lemma ModAdd(a: int, c: int, p: nat)
    requires p > 0
    ensures (a % p + c) % p == (a + c) % p
  {
    DivMod(a, p);
    DivMod(a % p + c, p);
    var q, r := (a % p + c) / p, (a % p + c) % p;
    assert a + c == (a / p + q) * p + r;
    DivUnique(a + c, p, a / p + q, r);
  }

  /** Reducing before a step makes no difference after it. */
  lemma ModStep(y: int, a: int, c: int, p: nat)
    requires p > 0
    ensures (y % p * a + c) % p == (y * a + c) % p
  {
    var q, r := y / p, y % p;
    DivMod(y, p);
    DivMod(r * a + c, p);
    var k := (r * a + c) / p;
    assert y * a + c == (q * a + k) * p + (r * a + c) % p by {
      assert (q * p + r) * a == q * a * p + r * a;
      assert (q * a + k) * p == q * a * p + k * p;
    }
    DivUnique(y * a + c, p, q * a + k, (r * a + c) % p);
  }

  /** Multiplying by a number and then by its inverse modulo p. */
  lemma Cancel(x: nat, a: int, c: int, b: int, t: int, p: nat)
    requires x < p && a * b == 1 + t * p
    ensures ((x * a + c) % p - c) * b % p == x
  {
    var k, y := (x * a + c) / p, (x * a + c) % p;
    DivMod(x * a + c, p);
    Spread(x, a, b, k, p, y - c);
    assert x * (a * b) == x * (1 + t * p);
    assert x * (1 + t * p) == x + x * t * p;
    assert (y - c) * b == (x * t - k * b) * p + x;
    DivUnique((y - c) * b, p, x * t - k * b, x);
  }

  /** The other way round. */
  lemma CancelBack(x: nat, a: int, c: int, b: int, t: int, p: nat)
    requires x < p && a * b == 1 + t * p
    ensures ((x - c) * b % p * a + c) % p == x
  {
    var k, y := (x - c) * b / p, (x - c) * b % p;
    DivMod((x - c) * b, p);
    Spread(x - c, b, a, k, p, y);
    assert b * a == a * b;
    assert (x - c) * (1 + t * p) == x - c + (x - c) * t * p;
    assert y * a + c == ((x - c) * t - k * a) * p + x;
    DivUnique(y * a + c, p, (x - c) * t - k * a, x);
  }

  lemma Spread(x: int, a: int, b: int, k: int, p: int, z: int)
    requires z == x * a - k * p
    ensures z * b == x * (a * b) - k * b * p
  {
    assert z * b == x * a * b - k * p * b;
    assert x * a * b == x * (a * b);
    assert k * p * b == k * b * p;
  }
}
