/**
 Integer facts shared by the components: fixed-width wrap-around, C division,
 bitwise AND on naturals, powers of two.
 */
module Arithmetic {

  const TWO32: int := 0x1_0000_0000
  const TWO64: int := 0x1_0000_0000_0000_0000

  type u8 = x: int | 0 <= x < 0x100
  type u32 = x: int | 0 <= x < TWO32
  type u64 = x: int | 0 <= x < TWO64

  function Min(a: int, b: int): int { if a < b then a else b }
  function Max(a: int, b: int): int { if a > b then a else b }
  function Abs(a: int): (r: int) ensures r >= 0 { if a < 0 then -a else a }

  /** A quotient and an in-range remainder are the quotient and the remainder. */
  lemma DivModUnique(x: int, m: int, q: int, r: int)
    requires 0 < m && 0 <= r < m && x == m * q + r
    ensures x / m == q && x % m == r
  {
    var q', r' := x / m, x % m;
    assert x == m * q' + r';
    assert m * (q - q') == r' - r;
    if q > q' {
      assert m * (q - q') >= m by { MulMono(1, q - q', m); }
    } else if q < q' {
      assert m * (q' - q) >= m by { MulMono(1, q' - q, m); }
    }
  }

  lemma MulMono(a: int, b: int, m: int)
    requires a <= b && 0 <= m
    ensures a * m <= b * m
  {}

  lemma Distribute(a: int, b: int, m: int)
    ensures m * (a - b) == a * m - b * m
  {}

  /** Quotient and remainder as names, to keep products out of sight. */
  lemma Divide(x: nat, b: nat) returns (q: nat, r: nat)
    requires 0 < b
    ensures q == x / b && r == x % b && r < b && x == q * b + r && q * b <= x
  {
    q, r := x / b, x % b;
    assert x == b * q + r;
  }

  /** Reducing modulo a multiple first does not change the remainder. */
  lemma ModOfMod(x: int, m: int, k: int)
    requires 0 < m && 0 < k
    ensures 0 < m * k
    ensures x % (m * k) % m == x % m
  {
    assert m * k >= m by { MulMono(1, k, m); }
    var q, r := x / (m * k), x % (m * k);
    var q', r' := r / m, r % m;
    assert x == (m * k) * q + r;
    assert (m * k) * q == m * (k * q);
    assert x == m * (k * q + q') + r';
    DivModUnique(x, m, k * q + q', r');
  }

  /** The difference of two wrapped counters is the difference of the counters. */
  lemma WrappedDifference(h: int, t: int, m: int)
    requires 0 < m && 0 <= h - t < m
    ensures (h % m - t % m) % m == h - t
  {
    var d, qh, qt := h % m - t % m, h / m, t / m;
    assert d == (t / m) * m - (h / m) * m + (h - t);
    Distribute(qt, qh, m);
    DivModUnique(d, m, qt - qh, h - t);
  }

  lemma WrappedSuccessor(h: int, m: int)
    requires 1 < m
    ensures (h % m + 1) % m == (h + 1) % m
  {
    var q, r := h / m, h % m;
    assert h == m * q + r;
    if r + 1 < m {
      DivModUnique(h + 1, m, q, r + 1);
    } else {
      assert h + 1 == m * (q + 1) + 0;
      DivModUnique(h + 1, m, q + 1, 0);
      DivModUnique(r + 1, m, 1, 0);
    }
  }

  /** Distinct counters less than a lap apart fall on distinct residues. */
  lemma ResiduesDistinct(a: int, b: int, m: int)
    requires 0 < m && a < b < a + m
    ensures a % m != b % m
  {
    if a % m == b % m {
      WrappedDifference(b, a, m);
      DivModUnique(0, m, 0, 0);
    }
  }

  /** C's `/`: the quotient truncated toward zero. */
  function TruncDiv(a: int, b: int): int
    requires b != 0
  {
    if (a < 0) == (b < 0) then Abs(a) / Abs(b) else -(Abs(a) / Abs(b))
  }

  function Pow2(k: nat): (r: nat)
    ensures r > 0
  {
    if k == 0 then 1 else 2 * Pow2(k - 1)
  }

  lemma {:induction false} Pow2Add(a: nat, b: nat)
    ensures Pow2(a + b) == Pow2(a) * Pow2(b)
  {
    if a == 0 {
    } else {
      Pow2Add(a - 1, b);
      assert Pow2(a + b) == 2 * (Pow2(a - 1) * Pow2(b)) == (2 * Pow2(a - 1)) * Pow2(b);
    }
  }

  /** The last n binary digits, most significant first. */
  function Binary(v: nat, n: nat): (bits: seq<bool>)
    ensures |bits| == n
  {
    if n == 0 then [] else Binary(v / 2, n - 1) + [v % 2 == 1]
  }

  /** The number that binary digits spell, most significant first. */
  function Spelt(bits: seq<bool>): nat {
    if bits == [] then 0 else 2 * Spelt(bits[..|bits| - 1]) + if bits[|bits| - 1] then 1 else 0
  }

  lemma {:induction false} BinarySpelt(v: nat, n: nat)
    requires v < Pow2(n)
    ensures Spelt(Binary(v, n)) == v
  {
    if n > 0 {
      BinarySpelt(v / 2, n - 1);
      assert Binary(v, n)[..n - 1] == Binary(v / 2, n - 1);
    }
  }

  /** C's `>>` on a non-negative operand, one place at a time. */
  function Shr(v: nat, k: nat): nat { if k == 0 then v else Shr(v / 2, k - 1) }

  lemma HalfThenDivide(v: nat, p: nat)
    requires 0 < p
    ensures v / 2 / p == v / (2 * p)
  {
    var q, r := Divide(v / 2, p);
    assert v == (2 * p) * q + (2 * r + v % 2);
    DivModUnique(v, 2 * p, q, 2 * r + v % 2);
  }

  lemma {:induction false} ShrDivides(v: nat, k: nat)
    ensures Shr(v, k) == v / Pow2(k)
  {
    if k > 0 {
      ShrDivides(v / 2, k - 1);
      HalfThenDivide(v, Pow2(k - 1));
    }
  }

  lemma {:induction false} BinaryAt(v: nat, n: nat, i: nat)
    requires i < n
    ensures Binary(v, n)[i] <==> Shr(v, n - 1 - i) % 2 == 1
  {
    if i < n - 1 { BinaryAt(v / 2, n - 1, i); }
  }

  /** The leading w of n digits spell the number shifted right by the others. */
  lemma {:induction false} FrontSpelt(v: nat, n: nat, w: nat)
    requires w <= n && v < Pow2(n)
    ensures Spelt(Binary(v, n)[..w]) == Shr(v, n - w)
    decreases n - w
  {
    if w == n {
      BinarySpelt(v, n);
      assert Binary(v, n)[..w] == Binary(v, n);
    } else {
      FrontSpelt(v / 2, n - 1, w);
      assert Binary(v, n)[..w] == Binary(v / 2, n - 1)[..w];
    }
  }

  /** C's `&` on non-negative operands, bit by bit. */
  function And(a: nat, b: nat): (r: nat)
    ensures r <= a && r <= b
    decreases a
  {
    if a == 0 || b == 0 then 0
    else (if a % 2 == 1 && b % 2 == 1 then 1 else 0) + 2 * And(a / 2, b / 2)
  }

  lemma AndOdd(x: nat, h: nat)
    ensures And(x, 2 * h + 1) == x % 2 + 2 * And(x / 2, h)
  {
    assert (2 * h + 1) / 2 == h && (2 * h + 1) % 2 == 1;
  }

  lemma AndEven(h: nat, m: nat)
    ensures And(2 * h, m) == 2 * And(h, m / 2)
  {
    assert (2 * h) / 2 == h && (2 * h) % 2 == 0;
  }

  lemma Halves(x: nat, y: nat, r: nat)
    requires x == 2 * y + r
    ensures x / 2 == y + r / 2 && x % 2 == r % 2
  {}

  lemma Twice(q: nat, p: nat)
    ensures q * (2 * p) == 2 * (q * p)
  {}

  lemma {:induction false} AndMaskRemainder(x: nat, k: nat, q: nat, r: nat)
    requires x == q * Pow2(k) + r && r < Pow2(k)
    ensures And(x, Pow2(k) - 1) == r
    decreases k
  {
    if k > 0 {
      var p := Pow2(k - 1);
      Twice(q, p);
      Halves(x, q * p, r);
      AndMaskRemainder(x / 2, k - 1, q, r / 2);
      AndOdd(x, p - 1);
    }
  }

  /** Masking with 2^k - 1 is the remainder modulo 2^k. */
  lemma AndMask(x: nat, k: nat)
    ensures And(x, Pow2(k) - 1) == x % Pow2(k)
  {
    var q, r := Divide(x, Pow2(k));
    AndMaskRemainder(x, k, q, r);
  }

  lemma {:induction false} AndSelf(x: nat)
    ensures And(x, x) == x
  {
    if x != 0 { AndSelf(x / 2); }
  }

  ghost predicate IsPow2(c: nat) { exists k: nat :: c == Pow2(k) }

  lemma IsPow2Double(c: nat)
    ensures IsPow2(2 * c) <==> IsPow2(c)
  {
    if IsPow2(c) {
      var k: nat :| c == Pow2(k);
      assert 2 * c == Pow2(k + 1);
    }
    if IsPow2(2 * c) {
      var k: nat :| 2 * c == Pow2(k);
      assert c == Pow2(k - 1);
    }
  }

  /** The power-of-two test `c & (c - 1)`, both directions. */
  lemma {:induction false} AndPredecessor(c: nat)
    requires c > 0
    ensures And(c, c - 1) == 0 <==> IsPow2(c)
  {
    var h := c / 2;
    if c == 1 {
      assert c == Pow2(0);
    } else if c % 2 == 1 {
      OddIsNotPow2(c);
      AndOdd(c - 1, h);
      AndSelf(h);
      AndCommutes(c, c - 1);
    } else {
      AndPredecessor(h);
      IsPow2Double(h);
      AndEven(h, c - 1);
    }
  }

  lemma OddIsNotPow2(c: nat)
    requires c > 1 && c % 2 == 1
    ensures !IsPow2(c)
  {
    forall k: nat ensures c != Pow2(k) { assert Pow2(k) % 2 == 0 || k == 0; }
  }

  lemma {:induction false} AndCommutes(a: nat, b: nat)
    ensures And(a, b) == And(b, a)
  {
    if a != 0 && b != 0 { AndCommutes(a / 2, b / 2); }
  }
}
