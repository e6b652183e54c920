/**
 * The double-word integer arithmetic of SoftFP in its portable form, without a machine
 * type twice the word size: schoolbook multiplication on half words, bitwise long
 * division, and the Newton iteration for the integer square root.
 */
module WideArithmetic {
  import opened Powers
  import opened Ieee754
  import opened Sticky
  import opened RoundingKernel
  import opened Normalization

  /** mul_u: the two words of a * b. */
  method MulU(f: Format, a: nat, b: nat) returns (high: nat, low: nat)
    requires f.Valid() && a < Pow2(f.Size()) && b < Pow2(f.Size())
    ensures high < Pow2(f.Size()) && low < Pow2(f.Size())
    ensures Wide(f, high, low) == a * b
  {
    hide *;
    HalfSize(f);
    var h := f.Size() / 2;
    var a0, a1, b0, b1 := Low(a, h), Shr(a, h), Low(b, h), Shr(b, h);
    var r00, r01, r10, r11 := a0 * b0, a0 * b1, a1 * b0, a1 * b1;
    var r0 := Low(r00, h);
    var c := Shr(r00, h) + Low(r01, h) + Low(r10, h);
    var r1 := Low(c, h);
    ghost var c1 := c;
    c := Shr(c, h) + Shr(r01, h) + Shr(r10, h) + Low(r11, h);
    var r2 := Low(c, h);
    var r3 := Low(Shr(c, h) + Shr(r11, h), h);
    low := r1 * Pow2(h) + r0;
    high := r3 * Pow2(h) + r2;
    WordsOfProduct(f, a, b, r00, r01, r10, r11, c1, c, high, low);
  }

  lemma WordsOfProduct(f: Format, a: nat, b: nat, r00: nat, r01: nat, r10: nat, r11: nat, c1: nat, c2: nat, high: nat, low: nat)
    requires f.Valid() && a < Pow2(f.Size()) && b < Pow2(f.Size())
    requires var h := f.Size() / 2;
      && r00 == Low(a, h) * Low(b, h) && r01 == Low(a, h) * Shr(b, h)
      && r10 == Shr(a, h) * Low(b, h) && r11 == Shr(a, h) * Shr(b, h)
      && c1 == Shr(r00, h) + Low(r01, h) + Low(r10, h)
      && c2 == Shr(c1, h) + Shr(r01, h) + Shr(r10, h) + Low(r11, h)
      && low == Low(c1, h) * Pow2(h) + Low(r00, h)
      && high == Low(Shr(c2, h) + Shr(r11, h), h) * Pow2(h) + Low(c2, h)
    ensures high < Pow2(f.Size()) && low < Pow2(f.Size()) && Wide(f, high, low) == a * b
  {
    hide *;
    var h := f.Size() / 2;
    ShrParts(a, h);
    ShrParts(b, h);
    ShrParts(r00, h);
    ShrParts(r01, h);
    ShrParts(r10, h);
    ShrParts(r11, h);
    ShrParts(c1, h);
    ShrParts(c2, h);
    var top := Shr(c2, h) + Shr(r11, h);
    Schoolbook(Pow2(h), Low(a, h), Shr(a, h), Low(b, h), Shr(b, h),
               Shr(r00, h), Low(r00, h), Shr(r01, h), Low(r01, h), Shr(r10, h), Low(r10, h), Shr(r11, h), Low(r11, h),
               Shr(c1, h), Low(c1, h), Shr(c2, h), Low(c2, h), top);
    Reassemble(f, a, b, Shr(a, h) * Pow2(h) + Low(a, h), Shr(b, h) * Pow2(h) + Low(b, h),
               top, Low(c2, h), Low(c1, h), Low(r00, h), high, low);
  }

  lemma Reassemble(f: Format, a: nat, b: nat, a': nat, b': nat, top: nat, r2: nat, r1: nat, r0: nat, high: nat, low: nat)
    requires f.Valid() && a < Pow2(f.Size()) && b < Pow2(f.Size()) && a' == a && b' == b
    requires var w := Pow2(f.Size() / 2);
      && r2 < w && r1 < w && r0 < w
      && a' * b' == ((top * w + r2) * w + r1) * w + r0
      && high == Low(top, f.Size() / 2) * w + r2 && low == r1 * w + r0
    ensures high < Pow2(f.Size()) && low < Pow2(f.Size()) && Wide(f, high, low) == a * b
  {
    hide *;
    var w := Pow2(f.Size() / 2);
    HalfSize(f);
    TopFits(f, a, b, top, r2, r1, r0);
    WideDef(f, high, low);
    PairBound(top, r2, w);
    PairBound(r1, r0, w);
    SquareWords(top, r2, r1, r0, w, Pow2(f.Size()));
  }

  lemma HalfSize(f: Format)
    requires f.Valid()
    ensures f.Size() == 2 * (f.Size() / 2) && Pow2(f.Size()) == Pow2(f.Size() / 2) * Pow2(f.Size() / 2)
  {
    Pow2Add(f.Size() / 2, f.Size() / 2);
  }

  lemma PairBound(hi: nat, lo: nat, w: nat)
    requires hi < w && lo < w
    ensures hi * w + lo < w * w
  {
    MulDiff(w, hi, w);
    MulAtLeast(w - hi, w);
  }

  lemma SquareWords(r3: nat, r2: nat, r1: nat, r0: nat, w: nat, ww: nat)
    requires ww == w * w
    ensures (r3 * w + r2) * ww + (r1 * w + r0) == ((r3 * w + r2) * w + r1) * w + r0
  {
    assert (r3 * w + r2) * ww == ((r3 * w + r2) * w) * w;
  }

  /** The carries of the schoolbook scheme lose nothing. */
  lemma Schoolbook(w: nat, a0: nat, a1: nat, b0: nat, b1: nat,
                   h00: nat, l00: nat, h01: nat, l01: nat, h10: nat, l10: nat, h11: nat, l11: nat,
                   c1: nat, r1: nat, c2: nat, r2: nat, top: nat)
    requires a0 * b0 == h00 * w + l00 && a0 * b1 == h01 * w + l01
    requires a1 * b0 == h10 * w + l10 && a1 * b1 == h11 * w + l11
    requires h00 + l01 + l10 == c1 * w + r1
    requires c1 + h01 + h10 + l11 == c2 * w + r2
    requires top == c2 + h11
    ensures (a1 * w + a0) * (b1 * w + b0) == ((top * w + r2) * w + r1) * w + l00
  {
    Expand(w, a0, a1, b0, b1);
    Carry(w, top, c2, h11, r2, c1, h01, h10, l11, r1, h00, l01, l10);
  }

  lemma Expand(w: nat, a0: nat, a1: nat, b0: nat, b1: nat)
    ensures (a1 * w + a0) * (b1 * w + b0) == ((a1 * b1) * w + a0 * b1 + a1 * b0) * w + a0 * b0
  {
    assert (a1 * w + a0) * (b1 * w + b0) == (a1 * w) * (b1 * w + b0) + a0 * (b1 * w + b0);
    assert (a1 * w) * (b1 * w + b0) == ((a1 * b1) * w) * w + (a1 * b0) * w;
    assert a0 * (b1 * w + b0) == (a0 * b1) * w + a0 * b0;
  }

  lemma Carry(w: nat, top: nat, c2: nat, h11: nat, r2: nat, c1: nat, h01: nat, h10: nat, l11: nat,
              r1: nat, h00: nat, l01: nat, l10: nat)
    requires top == c2 + h11
    requires c1 + h01 + h10 + l11 == c2 * w + r2
    requires h00 + l01 + l10 == c1 * w + r1
    ensures (top * w + r2) * w + r1 == (h11 * w + l11) * w + (h01 * w + l01) + (h10 * w + l10) + h00
  {
    assert top * w + r2 == h11 * w + c1 + h01 + h10 + l11;
    assert (h11 * w + c1 + h01 + h10 + l11) * w == (h11 * w + l11) * w + c1 * w + h01 * w + h10 * w;
  }

  /** The last carry fits a half word because the product fits two words. */
  lemma TopFits(f: Format, a: nat, b: nat, top: nat, r2: nat, r1: nat, r0: nat)
    requires f.Valid() && a < Pow2(f.Size()) && b < Pow2(f.Size())
    requires var w := Pow2(f.Size() / 2); a * b == ((top * w + r2) * w + r1) * w + r0
    ensures top < Pow2(f.Size() / 2) && Low(top, f.Size() / 2) == top
  {
    hide *;
    HalfSize(f);
    var w := Pow2(f.Size() / 2);
    if top >= w {
      ProductBound(a, b, w * w);
      Fourth(top, r2, r1, r0, w);
    }
    LowSmall(top, f.Size() / 2);
  }

  lemma ProductBound(a: nat, b: nat, k: nat)
    requires a < k && b < k
    ensures a * b < k * k
  {
    MulMono(a, k, b);
    MulMono(b, k, k);
    MulDiff(k, b, k);
    MulAtLeast(k - b, k);
    assert a * b <= k * b;
  }

  lemma Fourth(top: nat, r2: nat, r1: nat, r0: nat, w: nat)
    requires top >= w
    ensures ((top * w + r2) * w + r1) * w + r0 >= (w * w) * (w * w)
  {
    MulMono(w, top, w);
    MulMono(w * w, top * w + r2, w);
    MulMono((w * w) * w, (top * w + r2) * w + r1, w);
    assert ((w * w) * w) * w == (w * w) * (w * w);
  }

  /** The next bit of the dividend leaves the low word, which makes room for a quotient bit. */
  lemma TakeBit(f: Format, rest: nat, i: nat, quo: nat, lo: nat) returns (bit: nat, rest': nat)
    requires i < f.Size() && lo == rest * Pow2(i) + quo && quo < Pow2(i) && rest < Pow2(f.Size() - i)
    ensures bit <= 1 && rest == bit * Pow2(f.Size() - i - 1) + rest' && rest' < Pow2(f.Size() - i - 1)
    ensures Shr(lo, f.Size() - 1) == bit && Low(lo * 2, f.Size()) == rest' * Pow2(i + 1) + 2 * quo
    ensures 2 * quo + 1 < Pow2(i + 1)
  {
    hide *;
    var n, p := f.Size(), Pow2(f.Size() - i - 1);
    Pow2Double(n - i);
    Pow2Double(i + 1);
    Pow2Double(n);
    Pow2Add(n - i - 1, i);
    bit := if rest < p then 0 else 1;
    rest' := rest - bit * p;
    var tail := rest' * Pow2(i) + quo;
    MulDiff(p, rest', Pow2(i));
    MulAtLeast(p - rest', Pow2(i));
    BitProduct(bit, p, rest', Pow2(i));
    ShrUnique(lo, n - 1, bit, tail);
    ShrUnique(lo * 2, n, bit, 2 * tail);
  }

  lemma BitProduct(bit: nat, p: nat, r: nat, k: nat)
    ensures (bit * p + r) * k == bit * (p * k) + r * k
    ensures 2 * (r * k) == r * (2 * k)
  {
  }

  /** Doubling the remainder and subtracting, in a word that may wrap. */
  lemma HighStep(f: Format, hi: nat, bit: nat, b: nat)
    requires f.Valid() && hi < b < Pow2(f.Size()) && bit <= 1
    ensures var n, w, t, h := f.Size(), Pow2(f.Size()), 2 * hi + bit, Low(hi * 2, f.Size()) + bit;
      var take := Shr(hi, n - 1) != 0 || h >= b;
      (take <==> t >= b) && (take ==> Low(h + w - b, n) == t - b) && (!take ==> h == t) && t < 2 * b
  {
    hide *;
    SizeIs(f);
    var n, w := f.Size(), Pow2(f.Size());
    Pow2Double(n);
    var t, h := 2 * hi + bit, Low(hi * 2, n) + bit;
    if hi < Pow2(n - 1) {
      LowSmall(hi, n - 1);
      LowSmall(hi * 2, n);
      if t >= b {
        ShrUnique(h + w - b, n, 1, t - b);
      }
    } else {
      ShrUnique(hi, n - 1, 1, hi - Pow2(n - 1));
      ShrUnique(hi * 2, n, 1, hi * 2 - w);
      LowSmall(t - b, n);
    }
  }

  lemma QuotientStep(a: nat, quo: nat, b: nat, hi: nat, p: nat, bit: nat, rest': nat, qb: nat, hi': int)
    requires a == (quo * b + hi) * (2 * p) + (bit * p + rest')
    requires hi' == 2 * hi + bit - qb * b
    ensures a == ((2 * quo + qb) * b + hi') * p + rest'
  {
    assert (2 * quo + qb) * b + hi' == 2 * (quo * b) + 2 * hi + bit;
    assert (2 * (quo * b) + 2 * hi + bit) * p == (quo * b + hi) * (2 * p) + bit * p;
  }

  /** divrem_u: restoring long division, one quotient bit at a time. */
  method DivRemU(f: Format, a1: nat, a0: nat, b: nat) returns (q: nat, r: nat)
    requires f.Valid() && a1 < b < Pow2(f.Size()) && a0 < Pow2(f.Size())
    ensures Wide(f, a1, a0) == q * b + r && r < b && q < Pow2(f.Size())
  {
    hide *;
    SizeIs(f);
    Pow2Zero();
    WideDef(f, a1, a0);
    var n, w := f.Size(), Pow2(f.Size());
    var hi: nat, lo: nat := a1, a0;
    ghost var quo: nat, rest: nat := 0, a0;
    StartDivision(b, a1, a0, w);
    for i := 0 to n
      invariant hi < b && quo < Pow2(i) && rest < Pow2(n - i)
      invariant lo == rest * Pow2(i) + quo
      invariant Wide(f, a1, a0) == (quo * b + hi) * Pow2(n - i) + rest
    {
      ghost var bit, rest' := TakeBit(f, rest, i, quo, lo);
      HighStep(f, hi, bit, b);
      Pow2Double(n - i);
      ghost var hi0 := hi;
      var ab := Shr(hi, n - 1);
      hi := Low(hi * 2, n) + Shr(lo, n - 1);
      var qb;
      if ab != 0 || hi >= b {
        hi := Low(hi + w - b, n);
        qb := 1;
      } else {
        qb := 0;
      }
      lo := Low(lo * 2, n) + qb;
      QuotientStep(Wide(f, a1, a0), quo, b, hi0, Pow2(n - i - 1), bit, rest', qb, hi);
      quo, rest := 2 * quo + qb, rest';
    }
    q, r := lo, hi;
    EndDivision(quo, b, hi, rest);
  }

  lemma StartDivision(b: nat, hi: nat, lo: nat, w: nat)
    ensures (0 * b + hi) * w + lo == hi * w + lo
    ensures lo * 1 + 0 == lo
  {
  }

  lemma EndDivision(quo: nat, b: nat, hi: nat, rest: nat)
    requires rest < 1
    ensures (quo * b + hi) * 1 + rest == quo * b + hi
    ensures forall p: nat :: rest * p + quo == quo
  {
  }
}
