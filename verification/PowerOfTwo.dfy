/** Powers of two and the few facts about them that word and bit arithmetic need. */
module PowerOfTwo {

  function Pow2(k: nat): (p: nat)
    ensures p > 0
  {
    if k == 0 then 1 else 2 * Pow2(k - 1)
  }

  lemma {:induction false} Pow2Add(a: nat, b: nat)
    ensures Pow2(a + b) == Pow2(a) * Pow2(b)
  {
    if a == 0 {
    } else {
      Pow2Add(a - 1, b);
      assert Pow2(a + b) == 2 * Pow2(a - 1 + b);
      assert 2 * (Pow2(a - 1) * Pow2(b)) == (2 * Pow2(a - 1)) * Pow2(b);
    }
  }

  lemma Pow2Of32()
    ensures Pow2(32) == 0x1_0000_0000
  {
    Pow2Of16();
    Pow2Add(16, 16);
  }

  lemma Pow2Of16()
    ensures Pow2(8) == 256
    ensures Pow2(16) == 0x1_0000
  {
    assert Pow2(4) == 16;
    Pow2Add(4, 4);
    Pow2Add(8, 8);
  }

  lemma {:induction false} Pow2Monotone(a: nat, b: nat)
    requires a <= b
    ensures Pow2(a) <= Pow2(b)
    decreases b
  {
    if a < b {
      Pow2Monotone(a, b - 1);
    }
  }

  lemma MulMonotone(x: nat, y: nat, z: nat)
    requires x <= y
    ensures x * z <= y * z && z * x <= z * y
  {
  }

  lemma MulBelow(x: nat, y: nat, p: nat, q: nat)
    requires x < p && y < q
    ensures 0 <= x * y < p * q
  {
    MulMonotone(x, p, y);
    MulMonotone(y + 1, q, p);
    MulDistributes(p, y, 1);
  }

  lemma MulStrict(x: nat, y: nat, p: nat)
    requires x < y && p > 0
    ensures 0 <= x * p < y * p
  {
    MulMonotone(x + 1, y, p);
    MulSuccessor(x, x + 1, p);
  }

  lemma MulDistributes(a: int, b: int, c: int)
    ensures a * (b + c) == a * b + a * c && (b + c) * a == b * a + c * a
  {
  }

  lemma MulSuccessor(x: int, y: int, z: int)
    requires y == x + 1
    ensures y * z == x * z + z
  {
  }

  lemma MulAssociates(a: int, b: int, c: int)
    ensures a * (b * c) == (a * b) * c == b * (a * c)
  {
  }

  lemma DivBound(n: nat, d: nat)
    requires d > 0
    ensures 0 <= n / d <= n
  {
    var q, r := n / d, n % d;
    assert n == d * q + r;
    if q >= 1 {
      MulMonotone(1, d, q);
    }
  }

  /** Quotient and remainder are determined by their defining equation. */
  lemma DivModUnique(n: int, d: int, q: int, r: int)
    requires 0 <= r < d
    requires n == q * d + r
    ensures n / d == q && n % d == r
  {
    var q', r' := n / d, n % d;
    assert (q - q') * d == r' - r;
    if q != q' {
      MulMonotone(1, if q' < q then q - q' else q' - q, d);
    }
  }

  /** Multiples of the modulus do not change a remainder. */
  lemma ModAddMultiple(n: int, d: int, k: int)
    requires d > 0
    ensures (n + k * d) % d == n % d
  {
    assert n == d * (n / d) + n % d;
    assert n + k * d == (n / d + k) * d + n % d;
    DivModUnique(n + k * d, d, n / d + k, n % d);
  }

  lemma ModMul(x: int, y: int, d: int)
    requires d > 0
    ensures ((x % d) * y) % d == (x * y) % d
  {
    var k := x / d;
    assert x == k * d + x % d;
    assert x * y == (x % d) * y + (k * y) * d by {
      assert (k * d + x % d) * y == (k * d) * y + (x % d) * y;
      assert (k * d) * y == (k * y) * d;
    }
    ModAddMultiple((x % d) * y, d, k * y);
  }

  lemma ModAdd(x: int, y: int, d: int)
    requires d > 0
    ensures (x % d + y) % d == (x + y) % d
  {
    var k := x / d;
    assert x + y == (x % d + y) + k * d;
    ModAddMultiple(x % d + y, d, k);
  }

  lemma ModSub(x: int, y: int, d: int)
    requires d > 0
    ensures (x - y % d) % d == (x - y) % d
  {
    var k := y / d;
    assert x - y % d == (x - y) + k * d;
    ModAddMultiple(x - y, d, k);
  }

  lemma DivDiv(n: nat, a: nat, b: nat)
    requires a > 0 && b > 0
    ensures a * b > 0 && (n / a) / b == n / (a * b)
  {
    var q := n / a;
    assert n == a * q + n % a;
    DivDivStep(n, a, b, q, n % a);
  }

  lemma DivDivStep(n: nat, a: nat, b: nat, q: nat, s: nat)
    requires b > 0 && n == a * q + s && s < a
    ensures a * b > 0 && n / (a * b) == q / b
  {
    var h, r := q / b, q % b;
    assert q == b * h + r;
    MulDistributes(a, b * h, r);
    MulAssociates(a, b, h);
    assert a * r + s < a * b by {
      MulMonotone(r + 1, b, a);
      MulDistributes(a, r, 1);
    }
    DivModUnique(n, a * b, h, a * r + s);
  }

  lemma DivModBy(n: int, d: int)
    requires d > 0
    ensures n == n / d * d + n % d && 0 <= n % d < d
  {
  }

  lemma ModSmall(n: int, d: int)
    requires 0 <= n < d
    ensures n % d == n && n / d == 0
  {
    DivModUnique(n, d, 0, n);
  }
}
