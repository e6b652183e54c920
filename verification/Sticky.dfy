/**
 * Sticky bits.  A mantissa that has lost low bits still rounds like the exact value as
 * long as the two agree on a grid: both on the same grid point, or both strictly inside
 * the same cell.  Shifting right with a sticky bit (round to odd) keeps them in agreement.
 */
module Sticky {
  import opened Powers

  ghost predicate Agree(y: real, a: int, g: nat)
    requires g > 0
  {
    var lo := a - a % g;
    if a == lo then y == a as real else lo as real < y < (lo + g) as real
  }

  /** a | b, for a one-bit b. */
  function OrBit(a: nat, b: bool): nat {
    if b && a % 2 == 0 then a + 1 else a
  }

  /** (a >> d) with everything shifted out folded into the last bit. */
  function ShiftSticky(a: nat, d: nat): nat {
    OrBit(Shr(a, d), Low(a, d) != 0)
  }

  lemma AgreeExact(a: int, g: nat)
    requires g > 0
    ensures Agree(a as real, a, g)
  {
  }

  lemma AgreeUnit(y: real, a: int)
    requires Agree(y, a, 1)
    ensures y == a as real
  {
  }

  ghost predicate InCell(y: real, a: int, lo: int, g: nat) {
    && lo <= a < lo + g
    && if a == lo then y == lo as real else lo as real < y < (lo + g) as real
  }

  lemma AgreeCell(y: real, a: int, g: nat) returns (q: int)
    requires g > 0 && Agree(y, a, g)
    ensures q == a / g && InCell(y, a, q * g, g)
  {
    q := a / g;
    assert a == g * q + a % g;
  }

  lemma AgreeAt(y: real, a: int, g: nat, q: int)
    requires g > 0 && InCell(y, a, q * g, g)
    ensures Agree(y, a, g)
  {
    DivModUnique(a, g, q, a - q * g);
  }

  /** a = Q*(k*g) + p*g + r */
  lemma SplitCell(a: int, g: nat, k: nat) returns (q: int, p: int, r: int)
    requires g > 0 && k > 0
    ensures 0 <= p < k && 0 <= r < g && a == q * (g * k) + p * g + r
    ensures a / g == q * k + p && a % g == r
    ensures g * k > 0 && a / (g * k) == q && a % (g * k) == p * g + r
    ensures p * g + g <= g * k
  {
    r := a % g;
    q, p := (a / g) / k, (a / g) % k;
    SplitProduct(a, a / g, q, p, r, k, g);
    RoomAbove(p, k, g);
    CellUnique(a, q, g * k, p * g + r);
  }

  lemma CellUnique(a: int, q: int, d: int, r: int)
    requires d > 0 && a == q * d + r && 0 <= r < d
    ensures a / d == q && a % d == r
  {
    hide *;
    DivModUnique(a, d, q, r);
  }

  lemma RoomAbove(p: int, k: int, g: int)
    requires 0 <= p < k && g > 0
    ensures 0 <= p * g && p * g + g <= g * k
  {
    MulDiff(k, p, g);
    MulAtLeast(k - p, g);
  }

  lemma SplitProduct(a: int, n: int, q: int, p: int, r: int, k: int, g: int)
    requires a == g * n + r && n == k * q + p
    ensures a == q * (g * k) + p * g + r
    ensures n == q * k + p
  {
    assert g * (k * q) == q * (g * k);
    assert g * n == g * (k * q) + g * p;
  }

  lemma AgreeCoarsen(y: real, a: int, g: nat, k: nat)
    requires g > 0 && k > 0 && Agree(y, a, g)
    ensures g * k > 0 && Agree(y, a, g * k)
  {
    var q, p, r := SplitCell(a, g, k);
  }

  /** The sticky shift keeps agreement on every even grid. */
  lemma AgreeShift(y: real, y': real, a: nat, d: nat, g: nat)
    requires g > 0 && g % 2 == 0 && Pow2(d) * g > 0 && Agree(y, a, Pow2(d) * g)
    requires y == y' * Pow2(d) as real
    ensures Agree(y', ShiftSticky(a, d), g)
  {
    hide *;
    var q, p, r := SplitCell(a, Pow2(d), g);
    var cell := AgreeCell(y, a, Pow2(d) * g);
    ShiftInCell(a, d, g, q, p, r);
    CellMap(y, a, y', ShiftSticky(a, d), q, g, Pow2(d));
    AgreeAt(y', ShiftSticky(a, d), g, q);
  }

  lemma CellMap(y: real, a: int, y': real, a': int, q: int, g: nat, d: nat)
    requires d > 0 && y == y' * d as real
    requires InCell(y, a, q * (d * g), d * g)
    requires q * g <= a' < q * g + g && (a' == q * g <==> a == q * (d * g))
    ensures InCell(y', a', q * g, g)
  {
    ScaleCell(q, g, d, y', y);
  }

  lemma ShiftInCell(a: nat, d: nat, g: nat, q: int, p: nat, r: nat)
    requires g > 0 && g % 2 == 0 && p < g && a / Pow2(d) == q * g + p && a % Pow2(d) == r
    requires a == q * (Pow2(d) * g) + p * Pow2(d) + r
    ensures q * g <= ShiftSticky(a, d) < q * g + g
    ensures ShiftSticky(a, d) == q * g <==> a == q * (Pow2(d) * g)
  {
    EvenMultiple(q, g, p);
    ZeroSum(p, Pow2(d), r);
  }

  lemma EvenMultiple(q: int, g: nat, p: int)
    requires g % 2 == 0
    ensures (q * g + p) % 2 == p % 2
  {
    assert q * g == 2 * (q * (g / 2));
  }

  lemma ZeroSum(p: nat, d: nat, r: nat)
    requires d > 0
    ensures p * d + r == 0 <==> p == 0 && r == 0
  {
    if p > 0 {
      assert p * d >= d;
    }
  }

  lemma ScaleCell(q: int, g: nat, d: nat, y': real, y: real)
    requires d > 0 && y == y' * d as real
    ensures y == (q * (d * g)) as real <==> y' == (q * g) as real
    ensures (q * (d * g)) as real < y <==> (q * g) as real < y'
    ensures y < (q * (d * g) + d * g) as real <==> y' < (q * g + g) as real
  {
    ScalePoint(q, g, d, y', y);
    ScalePoint(q + 1, g, d, y', y);
    hide *;
    MulDiff(q + 1, 1, g);
    MulDiff(q + 1, 1, d * g);
  }

  lemma ScalePoint(q: int, g: nat, d: nat, y': real, y: real)
    requires d > 0 && y == y' * d as real
    ensures y == (q * (d * g)) as real <==> y' == (q * g) as real
    ensures y < (q * (d * g)) as real <==> y' < (q * g) as real
  {
    assert q * (d * g) == (q * g) * d;
    RealMul(q * g, d);
    MulLe((q * g) as real, y', d as real);
  }

  /** Scaling value, mantissa and grid together. */
  lemma AgreeScale(y: real, y': real, a: int, g: nat, k: nat)
    requires g > 0 && k > 0 && Agree(y, a, g) && y' == y * k as real
    ensures k * g > 0 && Agree(y', a * k, k * g)
  {
    hide *;
    var q := AgreeCell(y, a, g);
    MulAtLeast(k, g);
    ScaleInterval(a, q, g, k);
    ScaledCell(y, a, y', q, g, k);
    AgreeAt(y', a * k, k * g, q);
  }

  lemma ScaledCell(y: real, a: int, y': real, q: int, g: nat, k: nat)
    requires k > 0 && y' == y * k as real && InCell(y, a, q * g, g)
    requires q * (k * g) <= a * k < q * (k * g) + k * g
    requires a == q * g <==> a * k == q * (k * g)
    ensures InCell(y', a * k, q * (k * g), k * g)
  {
    ScaleCell(q, g, k, y, y');
  }

  lemma ScaleInterval(a: int, q: int, g: nat, k: nat)
    requires g > 0 && k > 0 && q * g <= a < q * g + g
    ensures q * (k * g) <= a * k < q * (k * g) + k * g
    ensures a == q * g <==> a * k == q * (k * g)
  {
    var r := a - q * g;
    assert a * k == q * (k * g) + r * k;
    assert (g - r) * k == k * g - r * k;
    ZeroSum(r, k, 0);
    ZeroSum(g - r, k, 0);
  }

  lemma AgreeAdd(n: int, y: real, a: int, g: nat)
    requires g > 0 && Agree(y, a, g)
    ensures Agree((n * g) as real + y, n * g + a, g)
  {
    var q := AgreeCell(y, a, g);
    assert (n + q) * g == n * g + q * g;
    AgreeAt((n * g) as real + y, n * g + a, g, n + q);
  }

  lemma AgreeSub(n: int, y: real, a: int, g: nat)
    requires g > 0 && Agree(y, a, g)
    ensures Agree((n * g) as real - y, n * g - a, g)
  {
    var q := AgreeCell(y, a, g);
    hide Agree;
    if a == q * g {
      MulDiff(n, q, g);
      AgreeAt((n * g) as real - y, n * g - a, g, n - q);
    } else {
      MulDiff(n, q + 1, g);
      MulDiff(q + 1, 1, g);
      AgreeAt((n * g) as real - y, n * g - a, g, n - (q + 1));
    }
  }
}
