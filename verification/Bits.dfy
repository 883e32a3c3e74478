/** Powers of two, congruence and bit fields of integers.

    Fields are counted from the lowest bit, and every width is a number of bits. The modules that compute in
    machine words use these to say what a word means: words of a width are integers up to a power of two. */
module Bits {
  function Pow2(n: nat): (r: nat)
    ensures r > 0
  {
    if n == 0 then 1 else 2 * Pow2(n - 1)
  }

  lemma {:induction false} Pow2Add(a: nat, b: nat)
    ensures Pow2(a + b) == Pow2(a) * Pow2(b)
    decreases a
  {
    if a > 0 {
      Pow2Add(a - 1, b);
      assert Pow2(a + b) == 2 * Pow2(a - 1 + b);
      Distribute(Pow2(a - 1), Pow2(b));
    }
  }

  lemma Distribute(a: int, b: int)
    ensures 2 * (a * b) == (2 * a) * b
  {
  }

  lemma {:induction false} Pow2Monotone(a: nat, b: nat)
    requires a <= b
    ensures Pow2(a) <= Pow2(b)
    decreases b
  {
    if a < b { Pow2Monotone(a, b - 1); }
  }

  /** Division is determined by its defining equation. */
  lemma DivModUnique(x: int, q: int, r: int, m: int)
    requires m > 0 && x == q * m + r && 0 <= r < m
    ensures x / m == q && x % m == r
  {
    var q', r' := x / m, x % m;
    assert x == q' * m + r';
    assert (q - q') * m == r' - r by { MulSub(q, q', m); }
    assert (q' - q) * m == r - r' by { MulSub(q', q, m); }
    if q > q' { MulAtLeast(q - q', m); } else if q < q' { MulAtLeast(q' - q, m); }
  }

  lemma MulSub(a: int, b: int, m: int)
    ensures (a - b) * m == a * m - b * m
  {
  }

  lemma MulAtLeast(k: int, m: int)
    requires k >= 1 && m > 0
    ensures k * m >= m
  {
    assert k * m == (k - 1) * m + m by { MulSub(k, 1, m); }
    if k > 1 { MulPositive(k - 1, m); }
  }

  lemma MulPositive(a: int, b: int)
    requires a > 0 && b > 0
    ensures a * b > 0
  {
  }

  predicate Cong(x: int, y: int, m: int)
    requires m > 0
  {
    x % m == y % m
  }

  lemma CongBy(x: int, y: int, k: int, m: int)
    requires m > 0 && x == y + k * m
    ensures Cong(x, y, m)
  {
    assert y == (y / m) * m + y % m;
    assert x == (y / m + k) * m + y % m by { MulAddRight(y / m, k, m); }
    DivModUnique(x, y / m + k, y % m, m);
  }

  lemma MulAddRight(a: int, b: int, m: int)
    ensures (a + b) * m == a * m + b * m
  {
  }

  lemma CongWitness(x: int, y: int, m: int) returns (k: int)
    requires m > 0 && Cong(x, y, m)
    ensures x == y + k * m
  {
    k := x / m - y / m;
    assert k * m == (x / m) * m - (y / m) * m by { MulSub(x / m, y / m, m); }
  }

  lemma CongMod(x: int, m: int)
    requires m > 0
    ensures Cong(x % m, x, m)
  {
    DivModUnique(x % m, 0, x % m, m);
  }

  lemma CongAdd(a: int, a': int, b: int, b': int, m: int)
    requires m > 0 && Cong(a, a', m) && Cong(b, b', m)
    ensures Cong(a + b, a' + b', m) && Cong(a - b, a' - b', m)
  {
    var k := CongWitness(a, a', m);
    var l := CongWitness(b, b', m);
    MulAddRight(k, l, m);
    CongBy(a + b, a' + b', k + l, m);
    MulSub(k, l, m);
    CongBy(a - b, a' - b', k - l, m);
  }

  lemma CongMul(a: int, a': int, b: int, b': int, m: int)
    requires m > 0 && Cong(a, a', m) && Cong(b, b', m)
    ensures Cong(a * b, a' * b', m)
  {
    var k := CongWitness(a, a', m);
    var l := CongWitness(b, b', m);
    Expand(a', k, b', l, m);
    CongBy(a * b, a' * b', a' * l + k * b' + k * l * m, m);
  }

  lemma Expand(a: int, k: int, b: int, l: int, m: int)
    ensures (a + k * m) * (b + l * m) == a * b + (a * l + k * b + k * l * m) * m
  {
    var u, v := k * m, l * m;
    assert (a + u) * (b + v) == a * b + a * v + u * b + u * v;
    assert a * v == (a * l) * m;
    assert u * b == (k * b) * m;
    assert u * v == (k * l * m) * m by {
      assert u * v == (k * m) * (l * m);
      MulSwap(k, m, l, m);
    }
    MulAddRight(a * l, k * b, m);
    MulAddRight(a * l + k * b, k * l * m, m);
  }

  lemma MulSwap(a: int, b: int, c: int, d: int)
    ensures (a * b) * (c * d) == (a * c * b) * d
  {
    assert (a * b) * (c * d) == ((a * b) * c) * d;
    assert (a * b) * c == a * c * b;
  }

  /** Congruence modulo a power of two implies it modulo every smaller one. */
  lemma CongNarrow(x: int, y: int, a: nat, b: nat)
    requires a <= b && Cong(x, y, Pow2(b))
    ensures Cong(x, y, Pow2(a))
  {
    var k := CongWitness(x, y, Pow2(b));
    Pow2Add(b - a, a);
    MulAssoc(k, Pow2(b - a), Pow2(a));
    CongBy(x, y, k * Pow2(b - a), Pow2(a));
  }

  lemma MulAssoc(a: int, b: int, c: int)
    ensures a * (b * c) == (a * b) * c
  {
  }

  /** Bits from..from+length of x. */
  function Field(x: int, from: nat, length: nat): int {
    (x / Pow2(from)) % Pow2(length)
  }

  lemma DivAddMultiple(x: int, k: int, m: int)
    requires m > 0
    ensures (x + k * m) / m == x / m + k
  {
    assert x == (x / m) * m + x % m;
    MulAddRight(x / m, k, m);
    DivModUnique(x + k * m, x / m + k, x % m, m);
  }

  /** A field that lies below bit w depends only on x modulo 2^w. */
  lemma FieldCong(x: int, y: int, from: nat, length: nat, w: nat)
    requires from + length <= w && Cong(x, y, Pow2(w))
    ensures Field(x, from, length) == Field(y, from, length)
  {
    CongNarrow(x, y, from + length, w);
    var k := CongWitness(x, y, Pow2(from + length));
    Pow2Add(from, length);
    MulSwapRight(k, Pow2(from), Pow2(length));
    DivAddMultiple(y, k * Pow2(length), Pow2(from));
    CongBy(x / Pow2(from), y / Pow2(from), k, Pow2(length));
  }

  lemma MulSwapRight(a: int, b: int, c: int)
    ensures a * (b * c) == (a * c) * b
  {
  }

  lemma MulComm(a: int, b: int)
    ensures a * b == b * a
  {
  }

  lemma DivBounds(x: int, m: int, n: int)
    requires m > 0 && n > 0 && 0 <= x < m * n
    ensures 0 <= x / m < n
  {
  }

  lemma Pow2Big()
    ensures Pow2(63) == 0x8000_0000_0000_0000 && Pow2(64) == 0x1_0000_0000_0000_0000
  {
    assert Pow2(8) == 256;
    Pow2Add(8, 8);
    Pow2Add(16, 16);
    Pow2Add(32, 32);
  }
}
