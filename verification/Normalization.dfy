/**
 * normalize_sf and normalize2_sf: shift the top bit of a one- or two-word mantissa to
 * Size - 2, then round once.
 */
module Normalization {
  import opened Powers
  import opened Ieee754
  import opened Sticky
  import opened RoundingKernel

  /** a << s in a word of the format's size. */
  function ShiftLeft(f: Format, a: nat, s: nat): nat {
    Low(a * Pow2(s), f.Size())
  }

  /** clz */
  function LeadingZeros(f: Format, a: nat): nat
    requires f.IsBits(a)
  {
    BitLenLe(a, f.Size());
    f.Size() - BitLen(a)
  }

  /**
   * The mantissa agrees with x on a grid that stays below half a unit in the last place
   * when the top bit is moved to its place: exactly (j = 0), or on a grid at least
   * mantSize + 1 bits below the top bit.  `extra` counts the bits below the first word.
   */
  ghost predicate Faithful(f: Format, exp: int, mant: nat, x: real, extra: nat)
    requires f.Valid()
  {
    exists j: nat :: FaithfulOn(f, exp, mant, x, extra, j)
  }

  ghost predicate FaithfulOn(f: Format, exp: int, mant: nat, x: real, extra: nat, j: nat)
    requires f.Valid()
  {
    && (j == 0 || Pow2(f.mantSize + 1 + j) <= mant)
    && Represents(f, exp - extra, mant, x, Pow2(j))
  }

  /** The same value, measured in units 2^s smaller. */
  lemma Rescale(f: Format, exp: int, x: real, y: real, s: nat) returns (y': real)
    requires f.Valid() && x == y * P2(LastBitExp(f, exp))
    ensures y' == y * Pow2(s) as real && x == y' * P2(LastBitExp(f, exp - s))
  {
    hide *;
    y' := y * Pow2(s) as real;
    LastBitExpStep(f, exp - s, s);
    P2AddNat(s, LastBitExp(f, exp - s));
    Reassociate(y', y, Pow2(s) as real, P2(LastBitExp(f, exp - s)), P2(LastBitExp(f, exp)));
  }

  lemma ShiftedRepresents(f: Format, exp: int, mant: nat, x: real, s: nat, g: nat)
    requires f.Valid() && g > 0 && Represents(f, exp, mant, x, g)
    ensures Pow2(s) * g > 0 && Represents(f, exp - s, mant * Pow2(s), x, Pow2(s) * g)
  {
    hide *;
    var y := Witness(f, exp, mant, x, g);
    var y' := Rescale(f, exp, x, y, s);
    AgreeScale(y, y', mant, g, Pow2(s));
    IntroRepresents(f, exp - s, mant * Pow2(s), x, Pow2(s) * g, y');
  }

  lemma CoarserRepresents(f: Format, exp: int, mant: nat, x: real, a: nat, b: nat)
    requires f.Valid() && a <= b && Represents(f, exp, mant, x, Pow2(a))
    ensures Represents(f, exp, mant, x, Pow2(b))
  {
    hide *;
    RepresentsCoarser(f, exp, mant, x, Pow2(a), Pow2(b - a));
    Pow2Add(b - a, a);
  }

  lemma ExactRepresents(f: Format, exp: int, mant: nat, x: real, g: nat)
    requires f.Valid() && g > 0 && Represents(f, exp, mant, x, 1)
    ensures Represents(f, exp, mant, x, g)
  {
    hide *;
    var y := Witness(f, exp, mant, x, 1);
    ExactAgree(y, mant, g);
    IntroRepresents(f, exp, mant, x, g, y);
  }

  lemma ExactAgree(y: real, a: int, g: nat)
    requires g > 0 && Agree(y, a, 1)
    ensures Agree(y, a, g)
  {
    AgreeUnit(y, a);
    AgreeExact(a, g);
  }

  /** An exact product with 2^d can be shifted right again. */
  lemma ExactUnshifted(f: Format, exp: int, mant: nat, x: real, d: nat)
    requires f.Valid() && Represents(f, exp, mant * Pow2(d), x, 1)
    ensures Represents(f, exp + d, mant, x, 1)
  {
    hide *;
    var y := Witness(f, exp, mant * Pow2(d), x, 1);
    var y' := Downscale(f, exp, x, y, d);
    AgreeUnit(y, mant * Pow2(d));
    CancelScale(mant, Pow2(d), y');
    AgreeExact(mant, 1);
    IntroRepresents(f, exp + d, mant, x, 1, y');
  }

  lemma CancelScale(a: nat, k: nat, y: real)
    requires k > 0 && (a * k) as real == y * k as real
    ensures y == a as real
  {
    RealMul(a, k);
    MulLe(a as real, y, k as real);
  }

  /** A significand at its exponent, with RndSize bits to spare. */
  lemma IntegerRepresents(f: Format, e: int, sig: nat, x: real)
    requires f.Valid() && x == sig as real * Ulp(f, e)
    ensures Represents(f, e + f.RndSize(), sig, x, 1)
  {
    hide *;
    UlpDef(f, e);
    LastBitExpStep(f, e, f.RndSize());
    AgreeExact(sig, 1);
    IntroRepresents(f, e + f.RndSize(), sig, x, 1, sig as real);
  }

  lemma RepresentsSum(f: Format, exp: int, a: nat, xa: real, b: nat, xb: real, n: nat, g: nat)
    requires f.Valid() && g > 0 && a == n * g && Represents(f, exp, a, xa, 1) && Represents(f, exp, b, xb, g)
    ensures Represents(f, exp, a + b, xa + xb, g)
    ensures b <= a ==> Represents(f, exp, a - b, xa - xb, g)
  {
    hide *;
    var ya := Witness(f, exp, a, xa, 1);
    var yb := Witness(f, exp, b, xb, g);
    AgreeUnit(ya, a);
    AgreeAdd(n, yb, b, g);
    AgreeSub(n, yb, b, g);
    SumScaled(ya, yb, P2(LastBitExp(f, exp)));
    IntroRepresents(f, exp, a + b, xa + xb, g, ya + yb);
    if b <= a {
      IntroRepresents(f, exp, a - b, xa - xb, g, ya - yb);
    }
  }

  lemma SumScaled(x: real, y: real, k: real)
    ensures (x + y) * k == x * k + y * k
    ensures (x - y) * k == x * k - y * k
  {
  }

  /** After the shift s that puts the top bit in place, the grid is fine enough to round. */
  lemma FaithfulShifted(f: Format, exp: int, mant: nat, x: real, extra: nat, s: nat)
    requires f.Valid() && Faithful(f, exp, mant, x, extra)
    requires mant * Pow2(s) < Pow2(f.Size() - 1 + extra)
    ensures Represents(f, exp - extra - s, mant * Pow2(s), x, Pow2(f.RndSize() - 1 + extra))
  {
    hide *;
    SizeIs(f);
    Pow2Zero();
    var j := FaithfulWitness(f, exp, mant, x, extra);
    if j == 0 {
      ExactShifted(f, exp - extra, mant, x, s, Pow2(f.RndSize() - 1 + extra));
    } else {
      ShiftedRepresents(f, exp - extra, mant, x, s, Pow2(j));
      Pow2Add(s, j);
      ShiftFits(f.mantSize + 1 + j, mant, s, f.Size() - 1 + extra);
      CoarserRepresents(f, exp - extra - s, mant * Pow2(s), x, s + j, f.RndSize() - 1 + extra);
    }
  }

  lemma ShiftFits(low: nat, mant: nat, s: nat, high: nat)
    requires Pow2(low) <= mant && mant * Pow2(s) < Pow2(high)
    ensures low + s < high
  {
    hide *;
    Pow2Add(low, s);
    MulMono(Pow2(low), mant, Pow2(s));
    Pow2Order(low + s, high);
  }

  lemma IntroFaithful(f: Format, exp: int, mant: nat, x: real, extra: nat, j: nat)
    requires f.Valid() && Represents(f, exp - extra, mant, x, Pow2(j))
    requires j == 0 || Pow2(f.mantSize + 1 + j) <= mant
    ensures Faithful(f, exp, mant, x, extra)
  {
    hide Pow2, Represents;
    assert FaithfulOn(f, exp, mant, x, extra, j);
  }

  lemma FaithfulWitness(f: Format, exp: int, mant: nat, x: real, extra: nat) returns (j: nat)
    requires f.Valid() && Faithful(f, exp, mant, x, extra)
    ensures j == 0 || Pow2(f.mantSize + 1 + j) <= mant
    ensures Represents(f, exp - extra, mant, x, Pow2(j))
  {
    hide Pow2, Represents;
    j :| FaithfulOn(f, exp, mant, x, extra, j);
  }

  lemma ExactShifted(f: Format, exp: int, mant: nat, x: real, s: nat, g: nat)
    requires f.Valid() && g > 0 && Represents(f, exp, mant, x, 1)
    ensures Represents(f, exp - s, mant * Pow2(s), x, g)
  {
    hide *;
    var y := Witness(f, exp, mant, x, 1);
    var y' := Rescale(f, exp, x, y, s);
    AgreeUnit(y, mant);
    ProductOfCasts(y, mant, Pow2(s), y');
    AgreeExact(mant * Pow2(s), g);
    IntroRepresents(f, exp - s, mant * Pow2(s), x, g, y');
  }

  lemma ProductOfCasts(y: real, a: int, k: nat, p: real)
    requires y == a as real && p == y * k as real
    ensures p == (a * k) as real
  {
  }

  lemma TopBitShift(mant: nat, n: nat, s: nat)
    requires mant > 0 && BitLen(mant) + s == n
    ensures mant * Pow2(s) < Pow2(n) && n >= 1 && Pow2(n - 1) <= mant * Pow2(s)
  {
    hide *;
    BitLenBounds(mant);
    Pow2Add(BitLen(mant), s);
    Pow2Add(BitLen(mant) - 1, s);
    MulMono(Pow2(BitLen(mant) - 1), mant, Pow2(s));
    MulDiff(Pow2(BitLen(mant)), mant, Pow2(s));
    MulAtLeast(Pow2(BitLen(mant)) - mant, Pow2(s));
  }

  lemma LowSmall(a: nat, n: nat)
    requires a < Pow2(n)
    ensures Low(a, n) == a && Shr(a, n) == 0
  {
    hide *;
    ShrUnique(a, n, 0, a);
  }

  /** normalize_sf: mant has at most Size - 1 bits. */
  method Normalize(f: Format, negative: bool, exp: int, mant: nat, rm: RoundingMode, fl: Flags) returns (r: nat, fl': Flags)
    requires f.Valid() && mant < Pow2(f.Size() - 1)
    ensures mant == 0 ==> r == f.Bits(negative, 0) && fl' == fl
    ensures forall x: real | Faithful(f, exp, mant, x, 0) :: RoundedMagnitude(f, rm, negative, x, r, fl, fl')
  {
    hide *;
    SizeIs(f);
    AddendSmall(f, rm, negative);
    IsBitsDef(f, mant);
    ClzDef(f, mant);
    BitLenLe(mant, f.Size() - 1);
    var shift := LeadingZeros(f, mant) - 1;
    var m := ShiftLeft(f, mant, shift);
    ShiftLeftDef(f, mant, shift);
    NormalMant(f, mant, shift);
    r, fl' := RoundPack(f, negative, exp - shift, m, rm, fl);
    forall x: real | Faithful(f, exp, mant, x, 0)
      ensures RoundedMagnitude(f, rm, negative, x, r, fl, fl')
    {
      FaithfulShifted(f, exp, mant, x, 0, shift);
      HalfUlpDef(f);
    }
  }

  lemma NormalMant(f: Format, mant: nat, s: nat)
    requires f.Valid() && mant < Pow2(f.Size() - 1) && BitLen(mant) + s == f.Size() - 1
    ensures var m := mant * Pow2(s);
      && Low(m, f.Size()) == m
      && (mant == 0 ==> m == 0)
      && (mant > 0 ==> Pow2(f.Size() - 2) <= m)
      && m < Pow2(f.Size() - 1)
  {
    hide *;
    SizeIs(f);
    AddendSmall(f, RTZ, false);
    if mant > 0 {
      TopBitShift(mant, f.Size() - 1, s);
    } else {
      ZeroTimes(Pow2(s));
    }
    LowSmall(mant * Pow2(s), f.Size());
  }

  lemma ZeroTimes(k: nat)
    ensures 0 * k == 0
  {
  }

  lemma IsBitsDef(f: Format, a: nat)
    ensures f.IsBits(a) <==> a < Pow2(f.Size())
  {
  }

  lemma ClzDef(f: Format, a: nat)
    requires f.IsBits(a)
    ensures LeadingZeros(f, a) == f.Size() - BitLen(a)
  {
  }

  lemma ShiftLeftDef(f: Format, a: nat, s: nat)
    ensures ShiftLeft(f, a, s) == Low(a * Pow2(s), f.Size())
  {
  }

  lemma HalfUlpDef(f: Format)
    requires f.Valid()
    ensures HalfUlp(f) == Pow2(f.RndSize() - 1)
  {
  }

  // Two words

  lemma DropLowWord(f: Format, e: int, mant: nat, x: real, d: nat)
    requires f.Valid() && Represents(f, e, mant, x, Pow2(f.RndSize() - 1 + d))
    ensures Represents(f, e + d, ShiftSticky(mant, d), x, HalfUlp(f))
  {
    hide *;
    SizeIs(f);
    HalfUlpDef(f);
    EvenHalf(f);
    Pow2Add(d, f.RndSize() - 1);
    RepresentsShiftedOn(f, e, mant, x, d, HalfUlp(f));
  }

  /** The value of two words. */
  function Wide(f: Format, hi: nat, lo: nat): nat {
    hi * Pow2(f.Size()) + lo
  }

  lemma WideDef(f: Format, hi: nat, lo: nat)
    ensures Wide(f, hi, lo) == hi * Pow2(f.Size()) + lo
  {
  }

  lemma BitLenUnique(a: nat, n: nat)
    requires n >= 1 && Pow2(n - 1) <= a < Pow2(n)
    ensures BitLen(a) == n
  {
    hide *;
    BitLenLe(a, n);
    BitLenLe(a, n - 1);
  }

  lemma WideBitLen(f: Format, hi: nat, lo: nat)
    requires lo < Pow2(f.Size())
    ensures BitLen(Wide(f, hi, lo)) == if hi == 0 then BitLen(lo) else f.Size() + BitLen(hi)
  {
    hide *;
    WideDef(f, hi, lo);
    if hi == 0 {
      ZeroTimes(Pow2(f.Size()));
    } else {
      var n := BitLen(hi);
      BitLenBounds(hi);
      Pow2Add(n, f.Size());
      Pow2Add(n - 1, f.Size());
      MulMono(Pow2(n - 1), hi, Pow2(f.Size()));
      MulDiff(Pow2(n), hi, Pow2(f.Size()));
      MulAtLeast(Pow2(n) - hi, Pow2(f.Size()));
      BitLenUnique(Wide(f, hi, lo), n + f.Size());
    }
  }

  lemma WideParts(f: Format, hi: nat, lo: nat)
    requires lo < Pow2(f.Size())
    ensures Shr(Wide(f, hi, lo), f.Size()) == hi && Low(Wide(f, hi, lo), f.Size()) == lo
  {
    hide *;
    WideDef(f, hi, lo);
    ShrUnique(Wide(f, hi, lo), f.Size(), hi, lo);
  }

  /** Shifting two words left, within one word. */
  lemma ShiftWide(f: Format, hi: nat, lo: nat, s: nat)
    requires lo < Pow2(f.Size()) && s <= f.Size()
    ensures Wide(f, hi, lo) * Pow2(s)
         == Wide(f, hi * Pow2(s) + Shr(lo, f.Size() - s), Low(lo * Pow2(s), f.Size()))
  {
    hide *;
    var q, r := Shr(lo, f.Size() - s), Low(lo, f.Size() - s);
    ShrParts(lo, f.Size() - s);
    Pow2Add(f.Size() - s, s);
    ScaledSum(lo, q, Pow2(f.Size() - s), r, Pow2(s), Pow2(f.Size()));
    MulDiff(Pow2(f.Size() - s), r, Pow2(s));
    MulAtLeast(Pow2(f.Size() - s) - r, Pow2(s));
    ShrUnique(lo * Pow2(s), f.Size(), q, r * Pow2(s));
    WideDef(f, hi, lo);
    WideDef(f, hi * Pow2(s) + q, r * Pow2(s));
    ScaledWide(hi, Pow2(f.Size()), lo, Pow2(s), q);
  }

  lemma ScaledSum(a: nat, q: nat, d: nat, r: nat, k: nat, dk: nat)
    requires a == q * d + r && dk == d * k
    ensures a * k == q * dk + r * k
  {
    assert (q * d) * k == q * (d * k);
  }

  lemma ScaledWide(hi: nat, w: nat, lo: nat, k: nat, q: nat)
    ensures (hi * w + lo) * k == (hi * k + q) * w + (lo * k - q * w)
  {
    assert (hi * w) * k == (hi * k) * w;
    assert (hi * k + q) * w == (hi * k) * w + q * w;
  }

  lemma StickyOfWide(f: Format, hi: nat, lo: nat)
    requires lo < Pow2(f.Size())
    ensures ShiftSticky(Wide(f, hi, lo), f.Size()) == OrBit(hi, lo != 0)
  {
    WideParts(f, hi, lo);
    hide Wide, Shr, Low, Pow2;
  }

  lemma WideFits(f: Format, hi: nat, lo: nat)
    requires f.Valid() && Wide(f, hi, lo) < Pow2(f.Size() - 1 + f.Size())
    ensures hi < Pow2(f.Size() - 1)
  {
    hide *;
    SizeIs(f);
    WideDef(f, hi, lo);
    Pow2Add(f.Size() - 1, f.Size());
    if hi >= Pow2(f.Size() - 1) {
      MulMono(Pow2(f.Size() - 1), hi, Pow2(f.Size()));
    }
  }

  lemma NormalWide(f: Format, wide: nat, s: nat)
    requires f.Valid() && wide > 0 && BitLen(wide) + s == f.Size() - 1 + f.Size()
    ensures var m := wide * Pow2(s);
      m < Pow2(f.Size() - 1 + f.Size())
      && Pow2(f.Size() - 2) <= ShiftSticky(m, f.Size()) < Pow2(f.Size() - 1)
  {
    hide *;
    SizeIs(f);
    var m := wide * Pow2(s);
    TopBitShift(wide, f.Size() - 1 + f.Size(), s);
    Pow2Add(f.Size() - 1, f.Size());
    Pow2Add(f.Size() - 2, f.Size());
    ShrParts(m, f.Size());
    CompareQuotient(m, Pow2(f.Size()), Shr(m, f.Size()), Low(m, f.Size()), Pow2(f.Size() - 1));
    CompareQuotient(m, Pow2(f.Size()), Shr(m, f.Size()), Low(m, f.Size()), Pow2(f.Size() - 2));
    StickyRange(f, m);
  }

  lemma StickyRange(f: Format, m: nat)
    requires f.Valid() && Pow2(f.Size() - 2) <= Shr(m, f.Size()) < Pow2(f.Size() - 1)
    ensures Pow2(f.Size() - 2) <= ShiftSticky(m, f.Size()) < Pow2(f.Size() - 1)
  {
    hide *;
    SizeIs(f);
    AddendSmall(f, RTZ, false);
    OrBitRange(Shr(m, f.Size()), Low(m, f.Size()) != 0);
    StickyDef(m, f.Size());
    Pow2Even(f.Size() - 1);
  }

  lemma OrBitRange(a: nat, b: bool)
    ensures a <= OrBit(a, b) <= a + 1
    ensures a % 2 == 1 ==> OrBit(a, b) == a
  {
  }

  lemma StickyDef(a: nat, d: nat)
    ensures ShiftSticky(a, d) == OrBit(Shr(a, d), Low(a, d) != 0)
  {
  }

  lemma StickyBelowEven(q: nat, b: bool, n: nat)
    requires q < 2 * n
    ensures OrBit(q, b) < 2 * n
  {
  }

  /** normalize2_sf: the mantissa is mant1 * 2^Size + mant0, and mant1 has at most Size - 1 bits. */
  method Normalize2(f: Format, negative: bool, exp: int, mant1: nat, mant0: nat, rm: RoundingMode, fl: Flags)
    returns (r: nat, fl': Flags)
    requires f.Valid() && mant1 < Pow2(f.Size() - 1) && mant0 < Pow2(f.Size())
    ensures mant1 == 0 && mant0 == 0 ==> r == f.Bits(negative, 0) && fl' == fl
    ensures forall x: real | Faithful(f, exp, Wide(f, mant1, mant0), x, f.Size()) ::
      RoundedMagnitude(f, rm, negative, x, r, fl, fl')
  {
    hide *;
    SizeIs(f);
    AddendSmall(f, rm, negative);
    IsBitsDef(f, mant1);
    IsBitsDef(f, mant0);
    ClzDef(f, mant1);
    ClzDef(f, mant0);
    BitLenLe(mant1, f.Size() - 1);
    BitLenLe(mant0, f.Size());
    var l;
    if mant1 == 0 {
      l := f.Size() + LeadingZeros(f, mant0);
    } else {
      l := LeadingZeros(f, mant1);
    }
    var shift := l - 1;
    ghost var wide := Wide(f, mant1, mant0);
    WideBitLen(f, mant1, mant0);
    var m := ShiftWords(f, mant1, mant0, shift);
    assert m == ShiftSticky(wide * Pow2(shift), f.Size());
    WideZero(f, mant1, mant0, shift);
    if wide > 0 {
      NormalWide(f, wide, shift);
    }
    r, fl' := RoundPack(f, negative, exp - shift, m, rm, fl);
    forall x: real | Faithful(f, exp, wide, x, f.Size())
      ensures RoundedMagnitude(f, rm, negative, x, r, fl, fl')
    {
      Pow2Positive(f.Size() - 1 + f.Size());
      FaithfulShifted(f, exp, wide, x, f.Size(), shift);
      DropLowWord(f, exp - f.Size() - shift, wide * Pow2(shift), x, f.Size());
    }
  }

  lemma Pow2Positive(n: nat)
    ensures Pow2(n) > 0
  {
  }

  lemma WideZero(f: Format, hi: nat, lo: nat, s: nat)
    ensures Wide(f, hi, lo) == 0 <==> hi == 0 && lo == 0
    ensures Wide(f, hi, lo) == 0 ==> Wide(f, hi, lo) * Pow2(s) == 0 && ShiftSticky(Wide(f, hi, lo) * Pow2(s), f.Size()) == 0
  {
    hide *;
    WideDef(f, hi, lo);
    if hi >= 1 {
      MulAtLeast(hi, Pow2(f.Size()));
    }
    ZeroTimes(Pow2(s));
    ZeroTimes(Pow2(f.Size()));
    StickyZero(f.Size());
  }

  lemma StickyZero(d: nat)
    ensures ShiftSticky(0, d) == 0
  {
    ShrUnique(0, d, 0, 0);
  }

  /** The high word of the mantissa shifted left, with everything below it in the last bit. */
  method ShiftWords(f: Format, mant1: nat, mant0: nat, shift: nat) returns (m: nat)
    requires f.Valid() && mant1 < Pow2(f.Size() - 1) && mant0 < Pow2(f.Size())
    requires BitLen(Wide(f, mant1, mant0)) + shift <= f.Size() - 1 + f.Size()
    requires shift >= f.Size() ==> mant1 == 0
    ensures m == ShiftSticky(Wide(f, mant1, mant0) * Pow2(shift), f.Size())
  {
    hide *;
    if shift == 0 {
      m := OrBit(mant1, mant0 != 0);
      Pow2Zero();
      StickyOfWide(f, mant1, mant0);
    } else if shift < f.Size() {
      // the two shifted parts share no bits
      m := ShiftLeft(f, mant1, shift) + Shr(mant0, f.Size() - shift);
      var low := ShiftLeft(f, mant0, shift);
      m := OrBit(m, low != 0);
      ShiftedHigh(f, mant1, mant0, shift);
    } else {
      m := ShiftLeft(f, mant0, shift - f.Size());
      ShiftedFar(f, mant0, shift);
    }
  }

  lemma ShiftedBelow(f: Format, wide: nat, s: nat)
    requires f.Valid() && BitLen(wide) + s <= f.Size() - 1 + f.Size()
    ensures wide * Pow2(s) < Pow2(f.Size() - 1 + f.Size())
  {
    hide *;
    SizeIs(f);
    if wide > 0 {
      TopBitShift(wide, BitLen(wide) + s, s);
      Pow2Le(BitLen(wide) + s, f.Size() - 1 + f.Size());
    } else {
      ZeroTimes(Pow2(s));
      Pow2Positive(f.Size() - 1 + f.Size());
    }
  }

  lemma ShiftedHigh(f: Format, hi: nat, lo: nat, s: nat)
    requires f.Valid() && lo < Pow2(f.Size()) && 0 < s < f.Size()
    requires BitLen(Wide(f, hi, lo)) + s <= f.Size() - 1 + f.Size()
    ensures OrBit(ShiftLeft(f, hi, s) + Shr(lo, f.Size() - s), ShiftLeft(f, lo, s) != 0)
         == ShiftSticky(Wide(f, hi, lo) * Pow2(s), f.Size())
  {
    hide *;
    SizeIs(f);
    AddendSmall(f, RTZ, false);
    ShiftWide(f, hi, lo, s);
    ShiftedBelow(f, Wide(f, hi, lo), s);
    WideFits(f, hi * Pow2(s) + Shr(lo, f.Size() - s), Low(lo * Pow2(s), f.Size()));
    ShiftLeftDef(f, hi, s);
    ShiftLeftDef(f, lo, s);
    LowSmall(hi * Pow2(s), f.Size());
    StickyOfWide(f, hi * Pow2(s) + Shr(lo, f.Size() - s), Low(lo * Pow2(s), f.Size()));
  }

  lemma ShiftedFar(f: Format, lo: nat, s: nat)
    requires f.Valid() && s >= f.Size() && BitLen(Wide(f, 0, lo)) + s <= f.Size() - 1 + f.Size()
    ensures ShiftLeft(f, lo, s - f.Size()) == ShiftSticky(Wide(f, 0, lo) * Pow2(s), f.Size())
  {
    hide *;
    SizeIs(f);
    AddendSmall(f, RTZ, false);
    var m := lo * Pow2(s - f.Size());
    WideDef(f, 0, lo);
    ZeroTimes(Pow2(f.Size()));
    Pow2Add(s - f.Size(), f.Size());
    MulAssoc(lo, Pow2(s - f.Size()), Pow2(f.Size()));
    WideDef(f, m, 0);
    ShiftedBelow(f, lo, s);
    Pow2Positive(f.Size());
    WideFits(f, m, 0);
    LowSmall(m, f.Size());
    ShiftLeftDef(f, lo, s - f.Size());
    StickyOfWide(f, m, 0);
    OrNothing(m);
  }

  lemma OrNothing(a: nat)
    ensures OrBit(a, false) == a
  {
  }

  lemma MulAssoc(a: int, b: int, c: int)
    ensures a * (b * c) == (a * b) * c
  {
  }

  lemma HighBounds(f: Format, high: nat, low: nat)
    requires f.Valid() && low < Pow2(f.Size())
    requires Pow2(f.Size() - 3) * Pow2(f.Size()) <= Wide(f, high, low) < Pow2(f.Size() - 1) * Pow2(f.Size())
    ensures Pow2(f.Size() - 3) <= high < Pow2(f.Size() - 1)
  {
    hide *;
    SizeIs(f);
    WideDef(f, high, low);
    CompareQuotient(Wide(f, high, low), Pow2(f.Size()), high, low, Pow2(f.Size() - 1));
    CompareQuotient(Wide(f, high, low), Pow2(f.Size()), high, low, Pow2(f.Size() - 3));
  }

  /** The high word of an exact double word, with a sticky bit for the low word. */
  lemma StickyFaithful(f: Format, exp: int, high: nat, low: nat, x: real)
    requires f.Valid() && low < Pow2(f.Size()) && Represents(f, exp - f.Size(), Wide(f, high, low), x, 1)
    requires Pow2(f.Size() - 3) <= high < Pow2(f.Size() - 1)
    ensures OrBit(high, low != 0) < Pow2(f.Size() - 1) && Faithful(f, exp, OrBit(high, low != 0), x, 0)
  {
    hide *;
    SizeIs(f);
    Pow2Zero();
    StickyOfWide(f, high, low);
    MulAtLeast(2, Pow2(f.Size()));
    MulCommutes(2, Pow2(f.Size()));
    ExactRepresents(f, exp - f.Size(), Wide(f, high, low), x, Pow2(f.Size()) * 2);
    RepresentsShiftedOn(f, exp - f.Size(), Wide(f, high, low), x, f.Size(), 2);
    Pow2Double(f.Size() - 1);
    StickyBelowEven(high, low != 0, Pow2(f.Size() - 2));
    OrBitRange(high, low != 0);
    Pow2Le(f.mantSize + 2, f.Size() - 3);
    IntroFaithful(f, exp, OrBit(high, low != 0), x, 0, 1);
  }

  lemma FaithfulZero(f: Format, exp: int, mant: nat, x: real, extra: nat)
    requires f.Valid() && Faithful(f, exp, mant, x, extra)
    ensures mant == 0 <==> x == 0.0
    ensures x >= 0.0
  {
    hide *;
    var j := FaithfulWitness(f, exp, mant, x, extra);
    var y := Witness(f, exp - extra, mant, x, Pow2(j));
    Pow2Zero();
    if j == 0 {
      AgreeUnit(y, mant);
    } else {
      Pow2Lt(j, f.mantSize + 1 + j);
      AgreePositive(y, mant, Pow2(j));
    }
    SignScaled(y, P2(LastBitExp(f, exp - extra)));
  }

  lemma AgreePositive(y: real, a: nat, g: nat)
    requires g > 0 && g <= a && Agree(y, a, g)
    ensures y > 0.0
  {
  }

  lemma SignScaled(y: real, k: real)
    requires k > 0.0
    ensures y == 0.0 <==> y * k == 0.0
    ensures y >= 0.0 <==> y * k >= 0.0
  {
    MulLe(0.0, y, k);
  }

  lemma ShiftBounds(s: nat, n: nat, k: nat)
    requires Pow2(n) <= s < 2 * Pow2(n)
    ensures Pow2(n + k) <= s * Pow2(k) < Pow2(n + k + 1)
  {
    hide *;
    Pow2Double(n + 1);
    Pow2Add(n, k);
    Pow2Add(n + 1, k);
    MulMono(Pow2(n), s, Pow2(k));
    MulDiff(Pow2(n + 1), s, Pow2(k));
    MulAtLeast(Pow2(n + 1) - s, Pow2(k));
  }

  lemma ShiftPositive(a: nat, d: nat)
    requires a > 0
    ensures ShiftSticky(a, d) > 0
  {
    hide *;
    ShrParts(a, d);
    StickyDef(a, d);
    OrBitRange(Shr(a, d), Low(a, d) != 0);
    if Shr(a, d) == 0 {
      ZeroTimes(Pow2(d));
      OrBitZero();
    }
  }

  lemma OrBitZero()
    ensures OrBit(0, true) == 1
  {
  }
}
