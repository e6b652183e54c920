/** Conversions between two float formats: exact when widening, rounded once when narrowing. */
module FormatConversion {
  import opened Powers
  import opened Ieee754
  import opened Sticky
  import opened RoundingKernel
  import opened Normalization
  import opened Operands
  import opened RoundingTheorems

  /** g holds every value of f as a normal number; so does each larger format of the library. */
  predicate Widens(f: Format, g: Format) {
    f.Valid() && g.Valid() && g.mantSize >= f.mantSize + f.expSize && g.Bias() > f.Bias() + f.mantSize + 1
  }

  lemma LibraryFormats()
    ensures Widens(Format(23, 8), Format(52, 11)) && Widens(Format(52, 11), Format(112, 15))
    ensures Widens(Format(23, 8), Format(112, 15))
  {
    assert Pow2(7) == 128;
    assert Pow2(10) == 1024;
    Pow2Add(7, 7);
  }

  // Widening

  ghost predicate Widened(f: Format, g: Format, a: nat, r: nat, fl: Flags, fl': Flags)
    requires f.Valid() && g.Valid()
  {
    if f.IsNaN(a) then r == g.QNaN() && fl' == fl.Or(if f.IsSignaling(a) then Invalid else NoFlags)
    else
      && g.IsBits(r) && !g.IsNaN(r) && g.Negative(r) == f.Negative(a) && fl' == fl
      && (if f.IsInf(a) then g.IsInf(r) else g.IsFinite(r) && g.Value(r) == f.Value(a))
  }

  /** A significand moved into the wide mantissa. */
  lemma WideSig(f: Format, g: Format, s: nat) returns (t: nat)
    requires f.Valid() && g.Valid() && g.mantSize >= f.mantSize && Pow2(f.mantSize) <= s < 2 * Pow2(f.mantSize)
    ensures t == s * Pow2(g.mantSize - f.mantSize)
    ensures Pow2(g.mantSize) <= t < 2 * Pow2(g.mantSize)
    ensures (s - Pow2(f.mantSize)) * Pow2(g.mantSize - f.mantSize) == t - Pow2(g.mantSize)
  {
    hide *;
    var d := g.mantSize - f.mantSize;
    t := s * Pow2(d);
    ShiftBounds(s, f.mantSize, d);
    Pow2Double(g.mantSize + 1);
    Pow2Add(f.mantSize, d);
    MulDiff(s, Pow2(f.mantSize), Pow2(d));
  }

  lemma UlpAcross(f: Format, g: Format, e: int)
    requires f.Valid() && g.Valid() && Widens(f, g)
    ensures Ulp(f, e) == Pow2(g.mantSize - f.mantSize) as real * Ulp(g, e - f.Bias() + g.Bias())
  {
    hide *;
    WidensDef(f, g);
    MinExpDef(f);
    MinExpDef(g);
    UlpDef(f, e);
    UlpDef(g, e - f.Bias() + g.Bias());
    P2AddNat(g.mantSize - f.mantSize, e - f.Bias() + g.Bias() - 1 + g.MinExp());
  }

  lemma WideExponent(f: Format, g: Format, e: int)
    requires f.Valid() && g.Valid() && Widens(f, g) && 1 - f.mantSize <= e < f.ExpMask()
    ensures 1 <= e - f.Bias() + g.Bias() < g.ExpMask()
  {
    hide *;
    WidensDef(f, g);
  }

  /** The exponent and mantissa of the wide float name the same value. */
  lemma ValueAtWide(f: Format, g: Format, a: nat, e: int, s: nat, t: nat, e': nat)
    requires f.Valid() && g.Valid() && Widens(f, g) && Normalized(f, a, e, s) && e' == e - f.Bias() + g.Bias() && e' >= 1
    requires t == s * Pow2(g.mantSize - f.mantSize) && Pow2(g.mantSize) <= t < 2 * Pow2(g.mantSize)
    ensures g.MagValue((e' - 1) * Pow2(g.mantSize) + t) == f.MagValue(f.Mag(a))
  {
    hide *;
    WidensDef(f, g);
    NormalizedDef(f, a, e, s);
    ValueAt(g, e', t);
    UlpAcross(f, g, e);
    ScaledValue(s, t, Pow2(g.mantSize - f.mantSize), Ulp(g, e'), Ulp(f, e));
  }

  lemma ScaledValue(s: nat, t: nat, k: nat, u: real, v: real)
    requires t == s * k && v == k as real * u
    ensures t as real * u == s as real * v
  {
    RealMul(s, k);
    Reassociate(t as real, s as real, k as real, u, v);
  }

  lemma WidensDef(f: Format, g: Format)
    requires f.Valid() && g.Valid() && Widens(f, g)
    ensures g.mantSize >= f.mantSize + f.expSize && g.Bias() > f.Bias() + f.mantSize + 1
    ensures f.ExpMask() == 2 * f.Bias() + 1 && g.ExpMask() == 2 * g.Bias() + 1
    ensures f.Size() == f.mantSize + f.expSize + 1
  {
    Pow2Double(f.expSize);
    Pow2Double(g.expSize);
  }

  lemma PackNormal(g: Format, negative: bool, e: nat, t: nat)
    requires g.Valid() && 1 <= e < g.ExpMask() && Pow2(g.mantSize) <= t < 2 * Pow2(g.mantSize)
    ensures var m := (e - 1) * Pow2(g.mantSize) + t;
      && Pack(g, negative, e, t) == g.Bits(negative, m) && Pack(g, negative, e, t - Pow2(g.mantSize)) == g.Bits(negative, m)
      && 0 < m < g.InfMag()
  {
    hide *;
    PackDef(g, negative, e, t);
    PackDef(g, negative, e, t - Pow2(g.mantSize));
    ShrUnique(t, g.mantSize, 1, t - Pow2(g.mantSize));
    LowSmall(t - Pow2(g.mantSize), g.mantSize);
    MulDiff(e, 1, Pow2(g.mantSize));
    InfMagDef(g);
    FieldOrder(e, t - Pow2(g.mantSize), Pow2(g.mantSize), g.ExpMask());
    MulAtLeast(e, Pow2(g.mantSize));
  }

  lemma PackDef(g: Format, negative: bool, e: nat, t: nat)
    ensures Pack(g, negative, e, t) == g.Bits(negative, e * Pow2(g.mantSize) + Low(t, g.mantSize))
  {
  }

  lemma FiniteFloat(g: Format, negative: bool, m: nat)
    requires g.Valid() && m < g.InfMag()
    ensures var r := g.Bits(negative, m);
      && g.IsBits(r) && g.IsFinite(r) && !g.IsNaN(r) && g.Negative(r) == negative && g.Mag(r) == m
      && g.Value(r) == if negative then -g.MagValue(m) else g.MagValue(m)
  {
    hide *;
    DeliverCases(g, RTZ, false, 0);
    BitsParts(g, negative, m);
    Classes(g, g.Bits(negative, m));
    ValueDef(g, g.Bits(negative, m));
  }

  lemma SpecialFloats(g: Format, negative: bool)
    requires g.Valid()
    ensures var r := g.Bits(negative, g.InfMag()); g.IsBits(r) && g.IsInf(r) && !g.IsNaN(r) && g.Negative(r) == negative
    ensures 0 < g.InfMag()
  {
    hide *;
    DeliverCases(g, RTZ, false, 0);
    Pow2Positive(g.mantSize);
    BitsParts(g, negative, g.InfMag());
    Classes(g, g.Bits(negative, g.InfMag()));
  }

  lemma WidenedFinite(f: Format, g: Format, a: nat, m: nat, r: nat, fl: Flags)
    requires f.Valid() && g.Valid() && f.IsBits(a) && f.IsFinite(a) && m < g.InfMag() && r == g.Bits(f.Negative(a), m)
    requires g.MagValue(m) == f.MagValue(f.Mag(a))
    ensures Widened(f, g, a, r, fl, fl)
  {
    hide *;
    FiniteFloat(g, f.Negative(a), m);
    ValueDef(f, a);
    Classes(f, a);
    WidenedCases(f, g, a, r, fl, fl);
  }

  lemma WidenedCases(f: Format, g: Format, a: nat, r: nat, fl: Flags, fl': Flags)
    requires f.Valid() && g.Valid()
    requires
      if f.IsNaN(a) then r == g.QNaN() && fl' == fl.Or(if f.IsSignaling(a) then Invalid else NoFlags)
      else
        && g.IsBits(r) && !g.IsNaN(r) && g.Negative(r) == f.Negative(a) && fl' == fl
        && (if f.IsInf(a) then g.IsInf(r) else g.IsFinite(r) && g.Value(r) == f.Value(a))
    ensures Widened(f, g, a, r, fl, fl')
  {
  }

  lemma ZeroValues(f: Format, g: Format, a: nat)
    requires f.Valid() && g.Valid() && f.IsBits(a) && f.IsFinite(a) && f.IsZero(a)
    ensures g.MagValue(0) == f.MagValue(f.Mag(a))
  {
    hide *;
    ValueOfZero(f, a);
    RungZero(g);
  }

  /** cvt_sf32_sf and cvt_sf64_sf */
  method Widen(f: Format, g: Format, a: nat, fl: Flags) returns (r: nat, fl': Flags)
    requires f.Valid() && g.Valid() && Widens(f, g) && f.IsBits(a)
    ensures Widened(f, g, a, r, fl, fl')
  {
    hide *;
    WidensDef(f, g);
    fl' := fl;
    var aSign, aExp: int, aMant := f.Negative(a), f.Exp(a), f.Mant(a);
    ClassOfFields(f, a);
    MagParts(f, a);
    NanBits(f, a);
    OrFlags(fl);
    PackLimits(g, aSign);
    SpecialFloats(g, aSign);
    if aExp == f.ExpMask() {
      if aMant != 0 {
        if IsSigNanBits(f, a) {
          fl' := fl'.(invalid := true);
        }
        r := g.QNaN();
      } else {
        r := Pack(g, aSign, g.ExpMask(), 0);
      }
      WidenedCases(f, g, a, r, fl, fl');
    } else {
      if aExp == 0 && aMant == 0 {
        r := Pack(g, aSign, 0, 0);
        ZeroValues(f, g, a);
        WidenedFinite(f, g, a, 0, r, fl);
      } else {
        r := WidenFinite(f, g, a);
        WidenedFinite(f, g, a, g.Mag(r), r, fl);
      }
    }
  }

  lemma SubnormalNormalized(f: Format, a: nat, e: int, s: nat)
    requires f.Valid() && f.IsBits(a) && f.Exp(a) == 0 && e <= 1
    requires Pow2(f.mantSize) <= s < 2 * Pow2(f.mantSize) && f.Mant(a) as real * Ulp(f, 1) == s as real * Ulp(f, e)
    ensures Normalized(f, a, e, s)
  {
    hide *;
    ClassOfFields(f, a);
    ExpMaskLarge(f);
    DecodeValue(f, a);
    OperandDef(f, a);
    NormalizedDef(f, a, e, s);
  }

  lemma NormalNormalized(f: Format, a: nat)
    requires f.Valid() && f.IsBits(a) && 0 < f.Exp(a) < f.ExpMask()
    ensures Normalized(f, a, f.Exp(a), f.Mant(a) + Pow2(f.mantSize)) && f.Mant(a) < Pow2(f.mantSize)
  {
    hide *;
    ClassOfFields(f, a);
    MagParts(f, a);
    DecodeValue(f, a);
    OperandDef(f, a);
    NormalizedDef(f, a, f.Exp(a), f.Mant(a) + Pow2(f.mantSize));
  }

  /** The finite, nonzero case: the exponent is rebiased and the mantissa shifted left. */
  method WidenFinite(f: Format, g: Format, a: nat) returns (r: nat)
    requires f.Valid() && g.Valid() && Widens(f, g) && f.IsBits(a) && f.IsFinite(a) && !f.IsZero(a)
    ensures r == g.Bits(f.Negative(a), g.Mag(r)) && 0 < g.Mag(r) < g.InfMag()
    ensures g.MagValue(g.Mag(r)) == f.MagValue(f.Mag(a))
  {
    hide *;
    WidensDef(f, g);
    ClassOfFields(f, a);
    MagParts(f, a);
    MinExpDef(f);
    var aExp: int, aMant := f.Exp(a), f.Mant(a);
    ghost var s;
    if aExp == 0 {
      aExp, aMant := NormalizeSubnormal(f, aMant);
      s := aMant;
      SubnormalNormalized(f, a, aExp, s);
      SubnormalExponent(f, a, aExp, s);
    } else {
      s := aMant + Pow2(f.mantSize);
      NormalNormalized(f, a);
    }
    NormalizedDef(f, a, aExp, s);
    ghost var t := WideSig(f, g, s);
    WideExponent(f, g, aExp);
    ValueAtWide(f, g, a, aExp, s, t, aExp - f.Bias() + g.Bias());
    aExp := aExp - f.Bias() + g.Bias();
    PackNormal(g, f.Negative(a), aExp, t);
    aMant := aMant * Pow2(g.mantSize - f.mantSize);
    r := Pack(g, f.Negative(a), aExp, aMant);
    FiniteFloat(g, f.Negative(a), (aExp - 1) * Pow2(g.mantSize) + t);
  }

  /** A subnormal is shifted at most mantSize places. */
  lemma SubnormalExponent(f: Format, a: nat, e: int, s: nat)
    requires f.Valid() && f.IsBits(a) && f.IsFinite(a) && !f.IsZero(a) && Normalized(f, a, e, s)
    ensures e >= 1 - f.mantSize
  {
    hide *;
    NormalizedDef(f, a, e, s);
    Classes(f, a);
    ValueOfZero(f, a);
    MagValueLe(f, 1, f.Mag(a));
    SmallestValue(f);
    if e < 1 - f.mantSize {
      var k: nat := 1 - f.mantSize - e;
      UlpShift(f, e + k + f.mantSize, 1, k + f.mantSize);
      Pow2Add(k, f.mantSize);
      Pow2Double(k);
      MulAtLeast(Pow2(k - 1), Pow2(f.mantSize));
      BelowUnit(s, Pow2(k + f.mantSize), Ulp(f, e), Ulp(f, 1), Pow2(k - 1), Pow2(f.mantSize));
    }
  }

  lemma SmallestValue(f: Format)
    requires f.Valid()
    ensures f.MagValue(1) == Ulp(f, 1)
  {
    hide *;
    ValueAt(f, 1, 1);
    ZeroTimes(Pow2(f.mantSize));
    Pow2Positive(f.mantSize);
  }

  lemma BelowUnit(s: nat, p: nat, u: real, v: real, k: nat, n: nat)
    requires u > 0.0 && v == (1 * p) as real * u && p == (2 * k) * n && k * n >= n && s < 2 * n
    ensures s as real * u < v
  {
    assert p >= 2 * n by {
      assert (2 * k) * n == 2 * (k * n);
    }
    MulLe(p as real, s as real, u);
  }

  // Narrowing

  ghost predicate Narrowed(g: Format, f: Format, a: nat, rm: RoundingMode, r: nat, fl: Flags, fl': Flags)
    requires f.Valid() && g.Valid()
  {
    if g.IsNaN(a) then r == f.QNaN() && fl' == fl.Or(if g.IsSignaling(a) then Invalid else NoFlags)
    else if g.IsInf(a) then r == f.Bits(g.Negative(a), f.InfMag()) && fl' == fl
    else Rounded(f, rm, g.Value(a), g.Negative(a), r, fl, fl')
  }

  lemma NarrowedCases(g: Format, f: Format, a: nat, rm: RoundingMode, r: nat, fl: Flags, fl': Flags)
    requires f.Valid() && g.Valid()
    requires
      if g.IsNaN(a) then r == f.QNaN() && fl' == fl.Or(if g.IsSignaling(a) then Invalid else NoFlags)
      else if g.IsInf(a) then r == f.Bits(g.Negative(a), f.InfMag()) && fl' == fl
      else Rounded(f, rm, g.Value(a), g.Negative(a), r, fl, fl')
    ensures Narrowed(g, f, a, rm, r, fl, fl')
  {
  }

  /** A normal operand: its shifted significand rounds exactly. */
  lemma NarrowNormal(f: Format, g: Format, e: int, s: nat, x: real)
    requires f.Valid() && g.Valid() && Widens(f, g) && Pow2(g.mantSize) <= s < 2 * Pow2(g.mantSize) && x == s as real * Ulp(g, e)
    requires g.mantSize >= f.Size() - 2
    ensures var m := ShiftSticky(s, g.mantSize - (f.Size() - 2));
      m < Pow2(f.Size() - 1) && Faithful(f, e - g.Bias() + f.Bias(), m, x, 0)
  {
    hide *;
    WidensDef(f, g);
    SizeIs(f);
    var d, exp := g.mantSize - (f.Size() - 2), e - g.Bias() + f.Bias();
    NarrowExponent(f, g, e, s, x);
    MulAtLeast(2, Pow2(d));
    MulCommutes(2, Pow2(d));
    ExactRepresents(f, exp - d, s, x, Pow2(d) * 2);
    RepresentsShiftedOn(f, exp - d, s, x, d, 2);
    NarrowRange(f, g, s);
    Pow2Zero();
    Pow2Le(f.mantSize + 2, f.Size() - 2);
    IntroFaithful(f, exp, ShiftSticky(s, d), x, 0, 1);
  }

  lemma NarrowExponent(f: Format, g: Format, e: int, s: nat, x: real)
    requires f.Valid() && g.Valid() && Widens(f, g) && x == s as real * Ulp(g, e)
    ensures Represents(f, e - g.Bias() + f.Bias() - (g.mantSize - (f.Size() - 2)), s, x, 1)
  {
    hide *;
    WidensDef(f, g);
    MinExpDef(f);
    MinExpDef(g);
    UlpDef(g, e);
    LastBitDef(f, e - g.Bias() + f.Bias() - (g.mantSize - (f.Size() - 2)));
    SizeIs(f);
    AgreeExact(s, 1);
    IntroRepresents(f, e - g.Bias() + f.Bias() - (g.mantSize - (f.Size() - 2)), s, x, 1, s as real);
  }

  lemma LastBitDef(f: Format, e: int)
    requires f.Valid()
    ensures LastBitExp(f, e) == e - 1 - f.RndSize() + f.MinExp()
  {
  }

  lemma NarrowRange(f: Format, g: Format, s: nat)
    requires f.Valid() && g.Valid() && g.mantSize >= f.Size() - 2 && s < 2 * Pow2(g.mantSize)
    ensures var m := ShiftSticky(s, g.mantSize - (f.Size() - 2));
      m < Pow2(f.Size() - 1) && (s >= Pow2(g.mantSize) ==> m >= Pow2(f.Size() - 2))
  {
    hide *;
    SizeIs(f);
    var d, n := g.mantSize - (f.Size() - 2), f.Size() - 2;
    Pow2Add(n, d);
    Pow2Add(n + 1, d);
    Pow2Double(g.mantSize + 1);
    Pow2Double(n + 1);
    ShrParts(s, d);
    CompareQuotient(s, Pow2(d), Shr(s, d), Low(s, d), Pow2(n));
    CompareQuotient(s, Pow2(d), Shr(s, d), Low(s, d), Pow2(n + 1));
    StickyDef(s, d);
    StickyBelowEven(Shr(s, d), Low(s, d) != 0, Pow2(n));
    OrBitRange(Shr(s, d), Low(s, d) != 0);
  }

  /**
   * Below half the smallest subnormal all magnitudes round alike.  That is why a subnormal
   * operand may lose its normalized mantissa, which the code computes and drops.
   */
  lemma TinyAlike(f: Format, rm: RoundingMode, negative: bool, x: real, x': real, r: nat, fl: Flags, fl': Flags)
    requires f.Valid() && 0.0 < 2.0 * x < f.MagValue(1) && 0.0 < 2.0 * x' < f.MagValue(1)
    requires RoundedMagnitude(f, rm, negative, x', r, fl, fl')
    ensures RoundedMagnitude(f, rm, negative, x, r, fl, fl')
  {
    hide *;
    var k' := RoundedWitness(f, rm, negative, x', r, fl, fl');
    var k := BottomRung(f, rm, negative, x);
    var k'' := BottomRung(f, rm, negative, x');
    RoundsToUnique(f, rm, negative, x', k', k'');
    BottomRaised(f, rm, negative, x, k);
    BottomRaised(f, rm, negative, x', k);
    IntroMagnitude(f, rm, negative, x, k, r, fl, fl');
  }

  lemma IntroMagnitude(f: Format, rm: RoundingMode, negative: bool, x: real, k: nat, r: nat, fl: Flags, fl': Flags)
    requires f.Valid() && RoundsTo(f, rm, negative, x, k)
    requires r == f.Bits(negative, Deliver(f, rm, negative, k)) && fl' == fl.Or(Raised(f, rm, negative, x, k))
    ensures RoundedMagnitude(f, rm, negative, x, r, fl, fl')
  {
    hide RoundsTo, Deliver, Raised, f.Bits;
  }

  lemma BottomRung(f: Format, rm: RoundingMode, negative: bool, x: real) returns (k: nat)
    requires f.Valid() && 0.0 < 2.0 * x < f.MagValue(1)
    ensures k == if (rm == RDN && negative) || (rm == RUP && !negative) then 1 else 0
    ensures RoundsTo(f, rm, negative, x, k)
  {
    RungZero(f);
    hide f.MagValue;
    k := if (rm == RDN && negative) || (rm == RUP && !negative) then 1 else 0;
    assert Between(f, x, 0) && k == ChosenRung(f, rm, negative, x, 0);
  }

  lemma BottomRaised(f: Format, rm: RoundingMode, negative: bool, x: real, k: nat)
    requires f.Valid() && 0.0 < 2.0 * x < f.MagValue(1) && k <= 1
    ensures Raised(f, rm, negative, x, k) == Flags(false, false, false, true, true)
  {
    hide *;
    RungZero(f);
    DeliverCases(f, rm, negative, k);
    MagValueLe(f, k, 1);
    var k2 := RoundsToWitness(f, rm, negative, 2.0 * x);
    NotAboveRung(f, rm, negative, 2.0 * x, k2, 1);
    TinyIff(f, rm, negative, x, k2);
    ManyFinite(f);
    RaisedIs(f, rm, negative, x, k);
    if k == 1 {
      assert f.MagValue(1) != x;
    }
  }

  lemma ManyFinite(f: Format)
    requires f.Valid()
    ensures f.InfMag() > 2 && Pow2(f.mantSize) >= 2
  {
    Pow2Le(1, f.mantSize);
    MulAtLeast(f.ExpMask(), Pow2(f.mantSize));
    assert Pow2(1) == 2;
    MulMono(31, f.ExpMask(), Pow2(f.mantSize));
  }

  lemma RaisedIs(f: Format, rm: RoundingMode, negative: bool, x: real, k: nat)
    requires f.Valid()
    ensures Raised(f, rm, negative, x, k) ==
      Flags(false, false, k >= f.InfMag(), f.MagValue(k) != x && Tiny(f, rm, negative, x), f.MagValue(k) != x || k >= f.InfMag())
  {
  }

  /** Half the smallest subnormal of the narrow format, as a power of two. */
  lemma HalfSmallest(f: Format)
    requires f.Valid()
    ensures 2.0 * P2(0 - f.Bias() - f.mantSize) == f.MagValue(1)
  {
    hide *;
    SmallestValue(f);
    UlpDef(f, 1);
    MinExpDef(f);
    P2Step(0 - f.Bias() - f.mantSize);
  }

  lemma P2Le(a: int, b: int)
    requires a <= b
    ensures P2(a) <= P2(b)
  {
    hide *;
    var n: nat := b - a;
    P2AddNat(n, a);
    AtLeastOnce(Pow2(n), P2(a), P2(b));
  }

  lemma AtLeastOnce(k: nat, x: real, y: real)
    requires k >= 1 && x > 0.0 && y == k as real * x
    ensures x <= y
  {
    MulLe(1.0, k as real, x);
  }

  /** A mantissa below 2^n at a low exponent lies below half the smallest subnormal. */
  lemma FarBelow(f: Format, m: nat, n: nat, p: int, x: real)
    requires f.Valid() && 0 < m < Pow2(n) && x == m as real * P2(p) && n + p <= 0 - f.Bias() - f.mantSize
    ensures 0.0 < 2.0 * x < f.MagValue(1)
  {
    hide *;
    HalfSmallest(f);
    P2AddNat(n, p);
    P2Le(n + p, 0 - f.Bias() - f.mantSize);
    MulLe(m as real, Pow2(n) as real, P2(p));
    MulLe(0.0, m as real, P2(p));
  }

  /** A subnormal operand, with the mantissa that was not shifted with its exponent. */
  lemma NarrowSubnormal(f: Format, g: Format, rm: RoundingMode, negative: bool, e: int, s: nat, x: real, r: nat, fl: Flags, fl': Flags)
    requires f.Valid() && g.Valid() && Widens(f, g) && e <= 1 && 0 < s < Pow2(g.mantSize) && x == s as real * Ulp(g, 1) && g.mantSize >= f.Size() - 2
    requires var exp, m := e - g.Bias() + f.Bias(), ShiftSticky(s, g.mantSize - (f.Size() - 2));
      forall y: real | Faithful(f, exp, m, y, 0) :: RoundedMagnitude(f, rm, negative, y, r, fl, fl')
    ensures RoundedMagnitude(f, rm, negative, x, r, fl, fl')
  {
    hide *;
    WidensDef(f, g);
    SizeIs(f);
    var exp, m := e - g.Bias() + f.Bias(), ShiftSticky(s, g.mantSize - (f.Size() - 2));
    NarrowRange(f, g, s);
    ShiftPositive(s, g.mantSize - (f.Size() - 2));
    var y := m as real * P2(LastBitExp(f, exp));
    Pow2Zero();
    AgreeExact(m, 1);
    IntroRepresents(f, exp, m, y, 1, m as real);
    IntroFaithful(f, exp, m, y, 0, 0);
    LastBitDef(f, exp);
    MinExpDef(f);
    MinExpDef(g);
    UlpDef(g, 1);
    FarBelow(f, m, f.Size() - 1, LastBitExp(f, exp), y);
    FarBelow(f, s, g.mantSize, g.MinExp(), x);
    TinyAlike(f, rm, negative, x, y, r, fl, fl');
  }

  lemma NarrowFinish(g: Format, f: Format, a: nat, rm: RoundingMode, r: nat, fl: Flags, fl': Flags)
    requires f.Valid() && g.Valid() && g.IsBits(a) && g.IsFinite(a) && !g.IsZero(a)
    requires RoundedMagnitude(f, rm, g.Negative(a), g.MagValue(g.Mag(a)), r, fl, fl')
    ensures Narrowed(g, f, a, rm, r, fl, fl')
  {
    hide *;
    ValueOfZero(g, a);
    ValueDef(g, a);
    Classes(g, a);
    SignedRounding(f, rm, g.Value(a), g.Negative(a), g.MagValue(g.Mag(a)), g.Negative(a), r, fl, fl');
    NarrowedCases(g, f, a, rm, r, fl, fl');
  }

  lemma NarrowZero(g: Format, f: Format, a: nat, rm: RoundingMode, r: nat, fl: Flags)
    requires f.Valid() && g.Valid() && g.IsBits(a) && g.IsFinite(a) && g.IsZero(a) && r == f.Bits(g.Negative(a), 0)
    ensures Narrowed(g, f, a, rm, r, fl, fl)
  {
    hide *;
    ValueOfZero(g, a);
    Classes(g, a);
    RoundedZeroValue(f, rm, g.Value(a), g.Negative(a), r, fl);
    NarrowedCases(g, f, a, rm, r, fl, fl);
  }

  /** cvt_sf64_sf32, cvt_sf128_sf32 and cvt_sf128_sf64 */
  method Narrow(g: Format, f: Format, a: nat, rm: RoundingMode, fl: Flags) returns (r: nat, fl': Flags)
    requires f.Valid() && g.Valid() && Widens(f, g) && g.mantSize >= f.Size() - 2 && g.IsBits(a)
    ensures Narrowed(g, f, a, rm, r, fl, fl')
  {
    hide *;
    WidensDef(f, g);
    SizeIs(f);
    SizeIs(g);
    AddendSmall(g, RTZ, false);
    Pow2Le(g.mantSize + 1, g.Size());
    Pow2Double(g.mantSize + 1);
    fl' := fl;
    var aSign, aExp: int, aMant := g.Negative(a), g.Exp(a), g.Mant(a);
    ClassOfFields(g, a);
    MagParts(g, a);
    NanBits(g, a);
    OrFlags(fl);
    PackLimits(f, aSign);
    if aExp == g.ExpMask() {
      if aMant != 0 {
        if IsSigNanBits(g, a) {
          fl' := fl'.(invalid := true);
        }
        r := f.QNaN();
      } else {
        r := Pack(f, aSign, f.ExpMask(), 0);
      }
      NarrowedCases(g, f, a, rm, r, fl, fl');
    } else if aExp == 0 && aMant == 0 {
      r := Pack(f, aSign, 0, 0);
      NarrowZero(g, f, a, rm, r, fl);
    } else {
      ghost var x := g.MagValue(g.Mag(a));
      DecodeValue(g, a);
      OperandDef(g, a);
      var subnormal := aExp == 0;
      if subnormal {
        var m;
        aExp, m := NormalizeSubnormal(g, aMant); // m is dropped
      } else {
        aMant := aMant + Pow2(g.mantSize);
        NarrowNormal(f, g, aExp, aMant, x);
      }
      ghost var e, s := aExp, aMant;
      aExp := aExp - g.Bias() + f.Bias();
      NarrowRange(f, g, aMant);
      aMant := RShiftRnd(g, aMant, g.mantSize - (f.Size() - 2));
      r, fl' := Normalize(f, aSign, aExp, aMant, rm, fl);
      if subnormal {
        NarrowSubnormal(f, g, rm, aSign, e, s, x, r, fl, fl');
      }
      NarrowFinish(g, f, a, rm, r, fl, fl');
    }
  }

  /** Narrowing a widened number gives it back, bit for bit, without raising a flag. */
  lemma RoundTrip(f: Format, g: Format, a: nat, rm: RoundingMode, w: nat, r: nat, fl: Flags, fl': Flags, fl'': Flags)
    requires f.Valid() && g.Valid() && Widens(f, g) && f.IsBits(a) && !f.IsNaN(a)
    requires Widened(f, g, a, w, fl, fl') && Narrowed(g, f, w, rm, r, fl', fl'')
    ensures r == a && fl'' == fl
  {
    hide *;
    WidensDef(f, g);
    TripDefs(f, g, a, rm, w, r, fl, fl', fl'');
    MagParts(f, a);
    Classes(f, a);
    Classes(g, w);
    if f.IsFinite(a) {
      ExactResult(f, rm, a, f.Negative(a), fl);
      RoundedUnique(f, rm, f.Value(a), f.Negative(a), r, a, fl, fl'', fl);
    }
  }

  lemma TripDefs(f: Format, g: Format, a: nat, rm: RoundingMode, w: nat, r: nat, fl: Flags, fl': Flags, fl'': Flags)
    requires f.Valid() && g.Valid() && !f.IsNaN(a)
    requires Widened(f, g, a, w, fl, fl') && Narrowed(g, f, w, rm, r, fl', fl'')
    ensures fl' == fl && g.IsBits(w) && !g.IsNaN(w) && g.Negative(w) == f.Negative(a)
    ensures if f.IsInf(a) then g.IsInf(w) else g.IsFinite(w) && g.Value(w) == f.Value(a)
    ensures if g.IsInf(w) then r == f.Bits(g.Negative(w), f.InfMag()) && fl'' == fl'
            else Rounded(f, rm, g.Value(w), g.Negative(w), r, fl', fl'')
  {
    hide f.Value, g.Value, f.Negative, g.Negative, f.IsInf, g.IsInf, Rounded, f.IsNaN, g.IsNaN, f.IsFinite, g.IsFinite;
  }

  /** Operand, mode and incoming flags determine the rounded result and the flags. */
  lemma RoundedUnique(f: Format, rm: RoundingMode, v: real, zeroSign: bool, r: nat, r': nat, fl: Flags, a: Flags, b: Flags)
    requires f.Valid() && Rounded(f, rm, v, zeroSign, r, fl, a) && Rounded(f, rm, v, zeroSign, r', fl, b)
    ensures r == r' && a == b
  {
    hide *;
    RoundedDef(f, rm, v, zeroSign, r, fl, a);
    RoundedDef(f, rm, v, zeroSign, r', fl, b);
    if v != 0.0 {
      var x := if v < 0.0 then -v else v;
      var k := RoundedWitness(f, rm, v < 0.0, x, r, fl, a);
      var k' := RoundedWitness(f, rm, v < 0.0, x, r', fl, b);
      RoundsToUnique(f, rm, v < 0.0, x, k, k');
    }
  }
}
