/** Powers of two and the facts about Euclidean division by them that the
    bit arithmetic of the reader and of the integer coercions rests on. */
module Arith {

  /** 2^n. */
  function Pow2(n: nat): (p: int)
    ensures p >= 1
  {
    if n == 0 then 1 else 2 * Pow2(n - 1)
  }

  /** 2^64: the modulus of Go's uint64. */
  const TWO_64: nat := 0x1_0000_0000_0000_0000

  lemma Pow2Is64()
    ensures Pow2(64) == TWO_64
  {
    assert Pow2(1) == 2;
    Pow2Add(1, 1);
    assert Pow2(2) == 4;
    Pow2Add(2, 2);
    assert Pow2(4) == 16;
    Pow2Add(4, 4);
    assert Pow2(8) == 0x100;
    Pow2Add(8, 8);
    assert Pow2(16) == 0x1_0000;
    Pow2Add(16, 16);
    assert Pow2(32) == 0x1_0000_0000;
    Pow2Add(32, 32);
  }

  lemma {:induction false} Pow2Add(a: nat, b: nat)
    ensures Pow2(a + b) == Pow2(a) * Pow2(b)
  {
    if b > 0 {
      Pow2Add(a, b - 1);
      assert Pow2(a + b) == 2 * Pow2(a + b - 1);
    }
  }

  lemma {:induction false} Pow2Monotone(a: nat, b: nat)
    requires a <= b
    ensures Pow2(a) <= Pow2(b)
  {
    if a < b {
      Pow2Monotone(a, b - 1);
    }
  }

  lemma MulAtLeast(d: int, t: int)
    requires d > 0 && t >= 1
    ensures d * t >= d
  {
    assert d * t == d * (t - 1) + d;
  }

  /** Quotient and remainder are determined by the equation and the remainder's range. */
  lemma DivModUnique(x: int, d: int, q: int, r: int)
    requires d > 0 && 0 <= r < d && x == d * q + r
    ensures x / d == q && x % d == r
  {
    var q', r' := x / d, x % d;
    assert d * q' - d * q == r - r';
    assert d * q' - d * q == d * (q' - q);
    if q' > q {
      MulAtLeast(d, q' - q);
    } else if q' < q {
      MulAtLeast(d, q - q');
    }
  }

  /** Halving the quotient by a is dividing by 2a. */
  lemma DivHalf(x: nat, a: nat)
    requires a > 0
    ensures x / a / 2 == x / (a * 2)
  {
    var q, r := x / a, x % a;
    var q2, r2 := q / 2, q % 2;
    assert x == a * q + r;
    assert a * q == (a * 2) * q2 + a * r2 by {
      assert q == 2 * q2 + r2;
      MulSplit(a, q2, r2);
    }
    assert a * r2 + r < a * 2 by {
      if r2 == 0 {
        assert a * r2 == 0;
      } else {
        assert a * r2 == a;
      }
    }
    DivModUnique(x, a * 2, q2, a * r2 + r);
  }

  lemma MulSplit(a: int, q: int, r: int)
    ensures a * (2 * q + r) == (a * 2) * q + a * r
  {
  }

  /** x mod 2P is made of x's lowest bit and x / 2 mod P. */
  lemma ModDoubleSplit(x: nat, p: nat)
    requires p > 0
    ensures x % (2 * p) == 2 * ((x / 2) % p) + x % 2
  {
    var q, r := x / 2, x % 2;
    var a, c := q / p, q % p;
    assert x == (2 * p) * a + (2 * c + r) by {
      assert x == 2 * q + r;
      assert q == p * a + c;
      assert 2 * q == (2 * p) * a + 2 * c;
    }
    DivModUnique(x, 2 * p, a, 2 * c + r);
  }

  /** Taking the window of one more low bit: (y / q) mod 2P from
      (y / 2q) mod P and the bit of weight q. */
  lemma WindowStep(y: nat, q: nat, p: nat)
    requires q > 0 && p > 0
    ensures (y / q) % (2 * p) == 2 * ((y / (q * 2)) % p) + (y / q) % 2
  {
    DivHalf(y, q);
    ModDoubleSplit(y / q, p);
  }

  /** Shifting left by k a value of fewer than m bits stays below 2^(m+k). */
  lemma ShiftBound(v: nat, m: nat, k: nat)
    requires v < Pow2(m)
    ensures v * Pow2(k) < Pow2(m + k)
  {
    Pow2Add(m, k);
    MulStrict(v, Pow2(m), Pow2(k));
  }

  lemma MulStrict(v: int, p: int, q: int)
    requires 0 <= v < p && q > 0
    ensures v * q < p * q
  {
    MulAtLeast(q, p - v);
    assert q * (p - v) == p * q - v * q;
  }

  /** Shifting a v * p + t left by one and appending bit b. */
  lemma ShiftAppend(a: int, p: int, t: int, b: int)
    ensures 2 * (a * p + t) + b == a * (2 * p) + (2 * t + b)
  {
  }

  /** The digit of weight p in a * 2p + (b * p + c), where c < p, is b. */
  lemma DigitAt(v: int, p: int, a: int, b: int, c: int)
    requires p > 0 && 0 <= c < p && 0 <= b <= 1
    requires v == a * (2 * p) + (b * p + c)
    ensures (v / p) % 2 == b
  {
    assert v == p * (2 * a + b) + c;
    DivModUnique(v, p, 2 * a + b, c);
    DivModUnique(2 * a + b, 2, a, b);
  }

  /** A value of fewer than m bits shifted left by k, with m + k <= 64,
      does not wrap around on a uint64. */
  lemma NoWrap(v: nat, m: nat, k: nat)
    requires v < Pow2(m) && m + k <= 64
    ensures (v * Pow2(k)) % TWO_64 == v * Pow2(k)
  {
    var shifted := v * Pow2(k);
    assert shifted < TWO_64 by {
      ShiftBound(v, m, k);
      Pow2Monotone(m + k, 64);
      Pow2Is64();
    }
    DivModUnique(shifted, TWO_64, 0, shifted);
  }

  /** Two values in one window of width d that are congruent modulo d are equal. */
  lemma CongruentInWindow(s: int, t: int, lo: int, d: int)
    requires d > 0 && lo <= s < lo + d && lo <= t < lo + d && (s - t) % d == 0
    ensures s == t
  {
    var e := s - t;
    var q := e / d;
    assert e == d * q;
    if q >= 1 {
      MulAtLeast(d, q);
    } else if q <= -1 {
      MulAtLeast(d, -q);
    }
  }

  /** Two values congruent to x modulo d are congruent to each other. */
  lemma CongruentBoth(x: int, s: int, t: int, d: int)
    requires d > 0 && (x - s) % d == 0 && (x - t) % d == 0
    ensures (t - s) % d == 0
  {
    var a, b := (x - s) / d, (x - t) / d;
    assert x - s == d * a && x - t == d * b;
    assert t - s == d * (a - b);
    ModMultiple(d, a - b, t - s);
  }

  /** Sums of multiples of d are multiples of d. */
  lemma ModZeroAdd(x: int, y: int, d: int)
    requires d > 0 && x % d == 0 && y % d == 0
    ensures (x + y) % d == 0
  {
    assert x == d * (x / d) && y == d * (y / d);
    assert x + y == d * (x / d + y / d);
    ModMultiple(d, x / d + y / d, x + y);
  }

  /** A multiple of 2^m is a multiple of every 2^w with w <= m. */
  lemma ModZeroPow2Down(x: int, w: nat, m: nat)
    requires w <= m && x % Pow2(m) == 0
    ensures x % Pow2(w) == 0
  {
    Pow2Add(w, m - w);
    ModZeroFactor(x, Pow2(w), Pow2(m - w));
  }

  /** A multiple of a * b is a multiple of a. */
  lemma ModZeroFactor(x: int, a: int, b: int)
    requires a > 0 && b > 0 && x % (a * b) == 0
    ensures x % a == 0
  {
    var q := x / (a * b);
    assert x == (a * b) * q;
    assert (a * b) * q == a * (b * q);
    ModMultiple(a, b * q, x);
  }

  /** Multiples of d are congruent to 0 modulo d. */
  lemma ModMultiple(d: int, q: int, x: int)
    requires d > 0 && x == d * q
    ensures x % d == 0
  {
    DivModUnique(x, d, q, 0);
  }

  /** Subtracting a multiple of d does not change the remainder. */
  lemma ModSubMultiple(x: int, d: int, q: int)
    requires d > 0
    ensures (x - d * q) % d == x % d
  {
    DivModUnique(x - d * q, d, x / d - q, x % d);
  }
}
