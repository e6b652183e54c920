/** Powers of two, as naturals and as reals with any integer exponent. */
module Powers {

  function Pow2(n: nat): (p: nat)
    ensures p > 0
  {
    if n == 0 then 1 else 2 * Pow2(n - 1)
  }

  ghost function P2(e: int): (p: real)
    ensures p > 0.0
  {
    if e >= 0 then Pow2(e) as real else 1.0 / Pow2(-e) as real
  }

  lemma {:induction false} Pow2Add(a: nat, b: nat)
    ensures Pow2(a + b) == Pow2(a) * Pow2(b)
  {
    if a == 0 {
      assert Pow2(a) == 1;
    } else {
      Pow2Add(a - 1, b);
      assert Pow2(a) * Pow2(b) == 2 * (Pow2(a - 1) * Pow2(b));
    }
  }

  lemma {:induction false} Pow2Lt(a: nat, b: nat)
    requires a < b
    ensures Pow2(a) < Pow2(b)
    decreases b - a
  {
    if a + 1 < b {
      Pow2Lt(a + 1, b);
    }
  }

  lemma Pow2Le(a: nat, b: nat)
    requires a <= b
    ensures Pow2(a) <= Pow2(b)
  {
    if a < b {
      Pow2Lt(a, b);
    }
  }

  lemma Pow2Even(n: nat)
    ensures n >= 1 ==> Pow2(n) % 2 == 0 && Pow2(n) == 2 * Pow2(n - 1)
  {
    Pow2Double(n);
    hide *;
    if n >= 1 {
      Twice(Pow2(n), Pow2(n - 1));
    }
  }

  lemma Pow2Double(n: nat)
    ensures n >= 1 ==> Pow2(n) == 2 * Pow2(n - 1)
  {
  }

  lemma Twice(a: int, b: int)
    requires a == 2 * b
    ensures a % 2 == 0
  {
  }

  lemma P2Step(e: int)
    ensures P2(e + 1) == 2.0 * P2(e)
  {
    if e < 0 {
      assert Pow2(-e) == 2 * Pow2(-e - 1);
    }
  }

  ghost predicate IsProduct(p: real, x: real, y: real) {
    p == x * y
  }

  lemma DoubleStep(p: real, x: real, y: real)
    ensures IsProduct(p, x, y) <==> IsProduct(2.0 * p, 2.0 * x, y)
  {
    assert (2.0 * x) * y == 2.0 * (x * y);
  }

  lemma {:induction false} P2Product(a: int, b: int)
    ensures IsProduct(P2(a + b), P2(a), P2(b))
    decreases if a >= 0 then a else -a
  {
    if a == 0 {
    } else {
      hide IsProduct;
      if a > 0 {
        P2Product(a - 1, b);
        P2Step(a - 1);
        P2Step(a - 1 + b);
        DoubleStep(P2(a - 1 + b), P2(a - 1), P2(b));
      } else {
        P2Product(a + 1, b);
        P2Step(a);
        P2Step(a + b);
        DoubleStep(P2(a + b), P2(a), P2(b));
      }
    }
  }

  lemma P2Add(a: int, b: int)
    ensures P2(a + b) == P2(a) * P2(b)
  {
    hide P2;
    P2Product(a, b);
  }

  lemma P2Nat(n: nat)
    ensures P2(n) == Pow2(n) as real
  {
  }

  lemma P2AddNat(n: nat, b: int)
    ensures P2(n + b) == Pow2(n) as real * P2(b)
  {
    P2Nat(n);
    hide *;
    P2Add(n, b);
  }

  lemma MulLe(a: real, b: real, k: real)
    requires k > 0.0
    ensures a <= b <==> a * k <= b * k
    ensures a == b <==> a * k == b * k
  {
    if a < b {
      assert (b - a) * k > 0.0;
    } else if b < a {
      assert (a - b) * k > 0.0;
    }
  }

  lemma ScaleLt(a: nat, b: nat, k: real, x: real, y: real)
    requires k > 0.0 && x == a as real * k && y == b as real * k && a < b
    ensures x < y
  {
    assert y - x == (b - a) as real * k;
  }

  lemma MulCommutes(a: int, b: int)
    ensures a * b == b * a
  {
  }

  lemma MulDiff(a: int, b: int, d: int)
    ensures (a - b) * d == a * d - b * d
  {
  }

  lemma MulAtLeast(k: int, d: int)
    requires d >= 0 && k >= 1
    ensures k * d >= d
  {
  }

  lemma MulMono(a: nat, b: nat, k: nat)
    requires a <= b
    ensures a * k <= b * k
  {
  }

  lemma ProductOver(q: nat, s: nat, t: nat, d: nat)
    ensures q >= t + d ==> q * s >= t * s + d * s
  {
    if q >= t + d {
      MulMono(t + d, q, s);
    }
  }

  lemma RealMul(a: int, b: int)
    ensures (a * b) as real == a as real * b as real
  {
  }

  /** Euclidean division is unique. */
  lemma DivModUnique(a: int, d: int, q: int, r: int)
    requires d > 0 && a == q * d + r && 0 <= r < d
    ensures a / d == q && a % d == r
  {
    SmallMultiple(a / d - q, d, r - a % d) by {
      var q' := a / d;
      assert a == d * q' + a % d;
      assert (q' - q) * d == q' * d - q * d;
    }
  }

  lemma SmallMultiple(k: int, d: int, r: int)
    requires d > 0 && k * d == r && -d < r < d
    ensures k == 0
  {
  }

  lemma DivNat(a: nat, d: nat)
    requires d > 0
    ensures a / d >= 0
  {
    assert a == d * (a / d) + a % d;
  }

  /** a >> d */
  function Shr(a: nat, d: nat): nat {
    DivNat(a, Pow2(d));
    a / Pow2(d)
  }

  lemma ShrParts(a: nat, d: nat)
    ensures a == Shr(a, d) * Pow2(d) + Low(a, d)
  {
  }

  /** a & ((1 << d) - 1) */
  function Low(a: nat, d: nat): (r: nat)
    ensures r < Pow2(d)
  {
    a % Pow2(d)
  }

  lemma ShrUnique(a: nat, d: nat, q: nat, r: nat)
    requires a == q * Pow2(d) + r && r < Pow2(d)
    ensures Shr(a, d) == q && Low(a, d) == r
  {
    DivModUnique(a, Pow2(d), q, r);
  }

  lemma Pow2Zero()
    ensures Pow2(0) == 1 && Pow2(1) == 2
  {
  }

  /** Number of bits of a: the word size minus the count of leading zeros. */
  function BitLen(a: nat): nat {
    if a == 0 then 0 else 1 + BitLen(a / 2)
  }

  lemma {:induction false} BitLenBounds(a: nat)
    ensures a < Pow2(BitLen(a))
    ensures a > 0 <==> BitLen(a) > 0
    ensures a > 0 ==> Pow2(BitLen(a) - 1) <= a
  {
    if a > 1 {
      BitLenBounds(a / 2);
    }
  }

  lemma BitLenLe(a: nat, n: nat)
    ensures a < Pow2(n) <==> BitLen(a) <= n
  {
    BitLenBounds(a);
    if BitLen(a) <= n {
      Pow2Le(BitLen(a), n);
    } else {
      Pow2Le(n, BitLen(a) - 1);
    }
  }

  /** Exponents of powers of two are ordered like the powers. */
  lemma Pow2Order(a: nat, b: nat)
    requires Pow2(a) < Pow2(b)
    ensures a < b
  {
    if b <= a {
      Pow2Le(b, a);
    }
  }

  lemma SmallPowers()
    ensures Pow2(0) == 1 && Pow2(1) == 2 && Pow2(2) == 4 && Pow2(3) == 8 && Pow2(4) == 16 && Pow2(7) == 128 && Pow2(8) == 256
  {
  }

  /** A power of two from two smaller ones. */
  lemma Times(a: nat, b: nat, p: nat, q: nat)
    requires Pow2(a) == p && Pow2(b) == q
    ensures Pow2(a + b) == p * q
  {
    hide *;
    Pow2Add(a, b);
  }
}
