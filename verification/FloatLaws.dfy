/**
 * The formats and the results of every operation in plain numbers: fields by division, values
 * by powers of two, the one NaN that is delivered, signs, infinities and flags.
 */
module FloatLaws {
  import opened Powers
  import opened Ieee754
  import opened RoundingKernel
  import opened Normalization
  import opened Operands
  import opened RoundingTheorems
  import Addition
  import Multiplication
  import Division
  import RootRounding
  import FloatSqrt
  import FusedMultiplyAdd
  import FormatConversion
  import IntegerConversion

  // The format

  /** Sign, exponent and mantissa are the digits of the pattern. */
  lemma Fields(f: Format, a: nat)
    requires f.Valid() && f.IsBits(a)
    ensures f.Mant(a) == a % Pow2(f.mantSize)
    ensures f.Exp(a) == a / Pow2(f.mantSize) % Pow2(f.expSize)
    ensures f.Negative(a) <==> a / Pow2(f.mantSize + f.expSize) == 1
    ensures !f.Negative(a) <==> a / Pow2(f.mantSize + f.expSize) == 0
  {
    hide *;
    var m, e := Pow2(f.mantSize), Pow2(f.expSize);
    var s := if f.Negative(a) then 1 else 0;
    MagParts(f, a);
    FieldsDef(f, a);
    Pow2Add(f.mantSize, f.expSize);
    Digits(a, m, e, Pow2(f.mantSize + f.expSize), s, f.Exp(a), f.Mant(a));
  }

  lemma Digits(a: nat, m: nat, e: nat, p: nat, s: nat, x: nat, t: nat)
    requires m > 0 && e > 0 && p == m * e && x < e && t < m && a == s * p + (x * m + t)
    ensures a % m == t && a / m % e == x && a / p == s
  {
    hide *;
    TwoDigits(m, e, p, s, x, t);
    DivModUnique(a, m, s * e + x, t);
    DivModUnique(s * e + x, e, s, x);
    DivModUnique(a, p, s, x * m + t);
  }

  lemma TwoDigits(m: nat, e: nat, p: nat, s: nat, x: nat, t: nat)
    requires m > 0 && e > 0 && p == m * e && x < e && t < m
    ensures s * p + (x * m + t) == (s * e + x) * m + t && 0 < p && x * m + t < p
  {
    assert s * (m * e) == (s * e) * m;
    assert (s * e + x) * m == (s * e) * m + x * m;
    MulMono(x + 1, e, m);
    assert (x + 1) * m == x * m + m;
  }

  /** The special values, told from the digits. */
  lemma ClassesInNumbers(f: Format, a: nat)
    requires f.Valid() && f.IsBits(a)
    ensures var e, t, top := a / Pow2(f.mantSize) % Pow2(f.expSize), a % Pow2(f.mantSize), Pow2(f.expSize) - 1;
      && (f.IsNaN(a) <==> e == top && t != 0)
      && (f.IsSignaling(a) <==> e == top && 0 < t < Pow2(f.mantSize - 1))
      && (f.IsInf(a) <==> e == top && t == 0)
      && (f.IsFinite(a) <==> e < top)
      && (f.IsZero(a) <==> e == 0 && t == 0)
  {
    hide *;
    Fields(f, a);
    MagParts(f, a);
    FieldsDef(f, a);
    ClassOfFields(f, a);
    Classes(f, a);
    Pow2Even(f.mantSize);
    FormatSizes(f);
    HalfOf(Pow2(f.mantSize), Pow2(f.mantSize - 1));
  }

  lemma HalfOf(a: nat, b: nat)
    requires a == 2 * b
    ensures a / 2 == b
  {
  }

  /** The value of a finite float; the bias is 2^(expSize - 1) - 1. */
  lemma ValueInNumbers(f: Format, a: nat)
    requires f.Valid() && f.IsBits(a) && f.IsFinite(a)
    ensures
      var e, t, bias := a / Pow2(f.mantSize) % Pow2(f.expSize), a % Pow2(f.mantSize), Pow2(f.expSize - 1) - 1;
      var x := if e == 0 then t as real * P2(1 - bias - f.mantSize) else (Pow2(f.mantSize) + t) as real * P2(e - bias - f.mantSize);
      f.Value(a) == if a / Pow2(f.mantSize + f.expSize) == 1 then -x else x
  {
    hide *;
    Fields(f, a);
    MagParts(f, a);
    OperandDef(f, a);
    DecodeValue(f, a);
    ValueDef(f, a);
    BiasIs(f);
    UlpDef(f, ExpOf(f, a));
    SameExponent(f, a);
  }

  lemma SameExponent(f: Format, a: nat)
    requires f.Valid()
    ensures ExpOf(f, a) - 1 + f.MinExp() == ExpOf(f, a) - (Pow2(f.expSize - 1) - 1) - f.mantSize
  {
  }

  lemma BiasIs(f: Format)
    requires f.Valid()
    ensures f.Bias() == Pow2(f.expSize - 1) - 1 && f.ExpMask() == 2 * f.Bias() + 1
  {
    Pow2Double(f.expSize);
  }

  /** The first rung past the finite floats has the value 2^emax * 2. */
  lemma InfinityValue(f: Format)
    requires f.Valid()
    ensures f.MagValue(f.InfMag()) == P2(Pow2(f.expSize - 1))
  {
    hide *;
    var e := f.ExpMask();
    ExpMaskLarge(f);
    InfMagDef(f);
    MulDiff(e, 1, Pow2(f.mantSize));
    ValueAt(f, e, Pow2(f.mantSize));
    UlpDef(f, e);
    BiasIs(f);
    MinExpDef(f);
    P2AddNat(f.mantSize, e - 1 + f.MinExp());
  }

  lemma WordPowers()
    ensures Pow2(15) == 0x8000 && Pow2(16) == 0x10000 && Pow2(31) == 0x8000_0000 && Pow2(32) == 0x1_0000_0000
    ensures Pow2(48) == 0x1_0000_0000_0000 && Pow2(63) == 0x8000_0000_0000_0000 && Pow2(64) == 0x1_0000_0000_0000_0000
    ensures Pow2(7) == 128 && Pow2(8) == 256 && Pow2(3) == 8 && Pow2(4) == 16
  {
    hide *;
    SmallPowers();
    Times(8, 7, 256, 128);
    Times(8, 8, 256, 256);
    Times(16, 15, 0x10000, 0x8000);
    Times(16, 16, 0x10000, 0x10000);
    Times(32, 16, 0x1_0000_0000, 0x10000);
    Times(48, 15, 0x1_0000_0000_0000, 0x8000);
    Times(48, 16, 0x1_0000_0000_0000, 0x10000);
  }

  lemma SinglePowers()
    ensures Pow2(22) == 0x40_0000 && Pow2(23) == 0x80_0000
  {
    hide *;
    WordPowers();
    Times(15, 7, 0x8000, 128);
    Times(15, 8, 0x8000, 256);
  }

  lemma DoublePowers()
    ensures Pow2(10) == 1024 && Pow2(11) == 2048 && Pow2(51) == 0x8_0000_0000_0000 && Pow2(52) == 0x10_0000_0000_0000
  {
    hide *;
    WordPowers();
    Times(7, 3, 128, 8);
    Times(8, 3, 256, 8);
    Times(48, 3, 0x1_0000_0000_0000, 8);
    Times(48, 4, 0x1_0000_0000_0000, 16);
  }

  lemma QuadPowers()
    ensures Pow2(14) == 0x4000 && Pow2(15) == 0x8000
    ensures Pow2(111) == 0x8000_0000_0000_0000_0000_0000_0000 && Pow2(112) == 0x1_0000_0000_0000_0000_0000_0000_0000
  {
    hide *;
    WordPowers();
    Times(7, 7, 128, 128);
    Times(63, 48, 0x8000_0000_0000_0000, 0x1_0000_0000_0000);
    Times(64, 48, 0x1_0000_0000_0000_0000, 0x1_0000_0000_0000);
  }

  /** The patterns of the three formats of the library for the NaN, infinity, the largest finite number and one. */
  lemma SinglePatterns()
    ensures var f := Format(23, 8);
      && f.QNaN() == 0x7fc0_0000 && f.InfMag() == 0x7f80_0000 && f.MaxFinite() == 0x7f7f_ffff
      && f.Value(0x3f80_0000) == 1.0
  {
    hide *;
    var f := Format(23, 8);
    ValidFormat(f);
    SinglePowers();
    WordPowers();
    Pattern(f, 0x80_0000, 256);
    One(f, 127, 0x3f80_0000, 0x80_0000, 256);
  }

  lemma DoublePatterns()
    ensures var f := Format(52, 11);
      && f.QNaN() == 0x7ff8_0000_0000_0000 && f.InfMag() == 0x7ff0_0000_0000_0000
      && f.MaxFinite() == 0x7fef_ffff_ffff_ffff && f.Value(0x3ff0_0000_0000_0000) == 1.0
  {
    hide *;
    var f := Format(52, 11);
    ValidFormat(f);
    DoublePowers();
    Pattern(f, 0x10_0000_0000_0000, 2048);
    One(f, 1023, 0x3ff0_0000_0000_0000, 0x10_0000_0000_0000, 2048);
  }

  lemma QuadPatterns()
    ensures var f := Format(112, 15);
      && f.QNaN() == 0x7fff_8000_0000_0000_0000_0000_0000_0000
      && f.InfMag() == 0x7fff_0000_0000_0000_0000_0000_0000_0000
      && f.MaxFinite() == 0x7ffe_ffff_ffff_ffff_ffff_ffff_ffff_ffff
      && f.Value(0x3fff_0000_0000_0000_0000_0000_0000_0000) == 1.0
  {
    hide *;
    var f := Format(112, 15);
    ValidFormat(f);
    QuadPowers();
    Pattern(f, 0x1_0000_0000_0000_0000_0000_0000_0000, 0x8000);
    One(f, 16383, 0x3fff_0000_0000_0000_0000_0000_0000_0000, 0x1_0000_0000_0000_0000_0000_0000_0000, 0x8000);
  }

  lemma ValidFormat(f: Format)
    requires f.mantSize >= 2 && f.expSize >= 5 && (f.mantSize + f.expSize) % 2 == 1
    ensures f.Valid()
  {
  }

  lemma Pattern(f: Format, m: nat, e: nat)
    requires f.Valid() && Pow2(f.mantSize) == m && Pow2(f.expSize) == e
    ensures f.InfMag() == (e - 1) * m && f.QNaN() == (e - 1) * m + m / 2 && f.MaxFinite() == (e - 1) * m - 1
  {
    MulDiff(e - 1, 1, m);
  }

  /** An exponent field equal to the bias and a mantissa of zeros make one. */
  lemma One(f: Format, bias: nat, a: nat, m: nat, e: nat)
    requires f.Valid() && Pow2(f.mantSize) == m && Pow2(f.expSize) == e && e == 2 * bias + 2 && a == bias * m && bias > 0
    ensures f.IsBits(a) && f.Value(a) == 1.0
  {
    hide *;
    var p := Pow2(f.mantSize + f.expSize);
    Pow2Add(f.mantSize, f.expSize);
    OneIsSmall(bias, m, e);
    FitsBelow(f, a);
    Digits(a, m, e, p, 0, bias, 0);
    ClassesInNumbers(f, a);
    ValueInNumbers(f, a);
    BiasOf(f, e, bias);
    UnitSignificand(f, m);
  }

  lemma BiasOf(f: Format, e: nat, bias: nat)
    requires f.Valid() && Pow2(f.expSize) == e && e == 2 * bias + 2
    ensures f.expSize >= 1 && Pow2(f.expSize - 1) - 1 == bias
  {
    hide *;
    FormatSizes(f);
    Pow2Double(f.expSize);
  }

  lemma UnitSignificand(f: Format, m: nat)
    requires m == Pow2(f.mantSize)
    ensures m as real * P2(0 - f.mantSize) == 1.0
  {
    hide *;
    P2AddNat(f.mantSize, 0 - f.mantSize);
    P2Nat(0);
    Pow2Zero();
  }

  lemma FitsBelow(f: Format, a: nat)
    requires f.Valid() && a < Pow2(f.mantSize + f.expSize)
    ensures f.IsBits(a)
  {
    hide *;
    SizeIs(f);
    FormatSizes(f);
    IsBitsDef(f, a);
    Pow2Le(f.mantSize + f.expSize, f.Size());
  }

  lemma OneIsSmall(bias: nat, m: nat, e: nat)
    requires e == 2 * bias + 2 && m > 0
    ensures bias * m < m * e && bias < e
  {
    MulMono(bias + 1, e, m);
  }

  // The quiet NaN

  /** The NaN every operation delivers: positive, quiet, and with no other mantissa bit set. */
  lemma QuietNaN(f: Format)
    requires f.Valid()
    ensures var r := f.QNaN();
      && f.IsBits(r) && f.IsNaN(r) && !f.IsSignaling(r) && !f.Negative(r)
      && f.Exp(r) == Pow2(f.expSize) - 1 && f.Mant(r) == Pow2(f.mantSize - 1)
  {
    hide *;
    var r, m := f.QNaN(), Pow2(f.mantSize);
    FormatSizes(f);
    QNaNDef(f);
    DeliverCases(f, RTZ, false, 0);
    Pow2Double(f.mantSize);
    HalfOf(m, Pow2(f.mantSize - 1));
    BitsParts(f, false, r);
    FieldsDef(f, r);
    InfMagDef(f);
    ShrUnique(r, f.mantSize, f.ExpMask(), m / 2);
    Classes(f, r);
  }

  lemma QNaNDef(f: Format)
    requires f.Valid()
    ensures f.QNaN() == f.InfMag() + Pow2(f.mantSize) / 2 && f.Bits(false, f.QNaN()) == f.QNaN()
  {
  }

  lemma OrIs(fl: Flags)
    ensures fl.Or(NoFlags) == fl
    ensures fl.Or(Invalid) == fl.(invalid := true)
    ensures fl.Or(DivideByZero) == fl.(divideByZero := true)
  {
  }

  // Rounded results

  /** A rounded result has the sign of the exact one, or the sign asked for when that is zero. */
  lemma RoundedSign(f: Format, rm: RoundingMode, v: real, zeroSign: bool, r: nat, fl: Flags, fl': Flags)
    requires f.Valid() && Rounded(f, rm, v, zeroSign, r, fl, fl')
    ensures f.IsBits(r) && !f.IsNaN(r)
    ensures f.Negative(r) <==> if v == 0.0 then zeroSign else v < 0.0
    ensures v == 0.0 ==> f.IsZero(r) && fl' == fl
    ensures (fl'.invalid <==> fl.invalid) && (fl'.divideByZero <==> fl.divideByZero)
  {
    hide *;
    RoundedIsFloat(f, rm, v, zeroSign, r, fl, fl');
    RoundedDef(f, rm, v, zeroSign, r, fl, fl');
    DeliverCases(f, rm, false, 0);
    if v == 0.0 {
      BitsParts(f, zeroSign, 0);
      Classes(f, r);
    } else {
      var negative := v < 0.0;
      var x := if negative then -v else v;
      var k := RoundedWitness(f, rm, negative, x, r, fl, fl');
      DeliverCases(f, rm, negative, k);
      Pow2Positive(f.mantSize);
      BitsParts(f, negative, Deliver(f, rm, negative, k));
      RaisedDef(f, rm, negative, x, k, fl);
    }
  }

  /** Some rung of at least 2^(emax + 1) is the one x rounds to, exponents unbounded above. */
  ghost predicate RoundsPast(f: Format, rm: RoundingMode, negative: bool, x: real)
    requires f.Valid()
  {
    exists k: nat :: RoundsTo(f, rm, negative, x, k) && f.MagValue(k) >= P2(Pow2(f.expSize - 1))
  }

  lemma PastIff(f: Format, rm: RoundingMode, negative: bool, x: real, k: nat)
    requires f.Valid() && RoundsTo(f, rm, negative, x, k)
    ensures RoundsPast(f, rm, negative, x) <==> k >= f.InfMag()
  {
    hide RoundsTo, f.MagValue, P2, Pow2;
    InfinityValue(f);
    if k >= f.InfMag() {
      MagValueLe(f, f.InfMag(), k);
    } else {
      MagValueLt(f, k, f.InfMag());
    }
    if RoundsPast(f, rm, negative, x) {
      var k': nat :| RoundsTo(f, rm, negative, x, k') && f.MagValue(k') >= P2(Pow2(f.expSize - 1));
      RoundsToUnique(f, rm, negative, x, k, k');
    }
  }

  /**
   * Overflow is raised exactly when the rounded magnitude is 2^(emax + 1) or more, and then the
   * result is an infinity, or in the modes that point the other way the largest finite number.
   */
  lemma RoundedFlags(f: Format, rm: RoundingMode, v: real, zeroSign: bool, r: nat, fl: Flags, fl': Flags, c: nat)
    requires f.Valid() && Rounded(f, rm, v, zeroSign, r, fl, fl') && v != 0.0 && f.IsBits(c) && f.IsFinite(c)
    ensures var x := if v < 0.0 then -v else v;
      && (fl'.overflow <==> fl.overflow || RoundsPast(f, rm, v < 0.0, x))
      && (fl'.inexact <==> fl.inexact || RoundsPast(f, rm, v < 0.0, x) || f.Value(r) != v)
      && (fl'.underflow <==> fl.underflow || (f.Value(r) != v && Tiny(f, rm, v < 0.0, x)))
      && (RoundsPast(f, rm, v < 0.0, x) ==>
            if rm == RTZ || (rm == RDN && v > 0.0) || (rm == RUP && v < 0.0)
            then f.IsFinite(r) && Distance(0.0, f.Value(c)) <= Distance(0.0, f.Value(r))
            else f.IsInf(r))
  {
    hide *;
    var negative := v < 0.0;
    var x := if negative then -v else v;
    RoundedDef(f, rm, v, zeroSign, r, fl, fl');
    var k := RoundedWitness(f, rm, negative, x, r, fl, fl');
    var d := Deliver(f, rm, negative, k);
    PastIff(f, rm, negative, x, k);
    RaisedDef(f, rm, negative, x, k, fl);
    DeliverCases(f, rm, negative, k);
    Pow2Positive(f.mantSize);
    BitsParts(f, negative, d);
    Classes(f, r);
    Classes(f, c);
    ValueDef(f, r);
    AnySigned(f, c);
    MagValueLe(f, 0, d);
    DistanceDef(0.0, f.Value(c), f.Value(r));
    if k >= f.InfMag() {
      PastIsNotTiny(f, rm, negative, x, k);
      MagValueLe(f, f.Mag(c), f.InfMag() - 1);
    }
  }

  lemma PastIsNotTiny(f: Format, rm: RoundingMode, negative: bool, x: real, k: nat)
    requires f.Valid() && RoundsTo(f, rm, negative, x, k) && k >= f.InfMag()
    ensures !Tiny(f, rm, negative, x)
  {
    hide *;
    var n := Pow2(f.mantSize);
    ManyRungs(f);
    RungReached(f, rm, negative, x, k);
    MagValueLe(f, n, k - 1);
    DoubledRounding(f, rm, negative, x, k);
    BelowIff(f, rm, negative, 2.0 * x, k + n, 2 * n);
    ScaleDefs(f, rm, negative, x, 0);
  }

  lemma RungReached(f: Format, rm: RoundingMode, negative: bool, x: real, k: nat)
    requires f.Valid() && RoundsTo(f, rm, negative, x, k) && k > 0
    ensures f.MagValue(k - 1) <= x
  {
    hide f.MagValue;
    var m: nat :| Between(f, x, m) && k == ChosenRung(f, rm, negative, x, m);
    MagValueLe(f, k - 1, m);
  }

  lemma ManyRungs(f: Format)
    requires f.Valid()
    ensures Pow2(f.mantSize) < f.InfMag()
  {
    hide *;
    InfMagDef(f);
    ExpMaskLarge(f);
    MulMono(2, f.ExpMask(), Pow2(f.mantSize));
    Pow2Positive(f.mantSize);
  }

  // The operations

  /** r is the one NaN that operations deliver. */
  ghost predicate IsDefaultNaN(f: Format, r: nat)
    requires f.Valid()
  {
    r == (Pow2(f.expSize) - 1) * Pow2(f.mantSize) + Pow2(f.mantSize - 1)
  }

  lemma DefaultNaN(f: Format)
    requires f.Valid()
    ensures IsDefaultNaN(f, f.QNaN())
    ensures f.IsBits(f.QNaN()) && f.IsNaN(f.QNaN()) && !f.IsSignaling(f.QNaN())
  {
    QuietNaN(f);
    MagParts(f, f.QNaN());
    hide f.Mag, f.Mant, f.Exp, f.InfMag, f.IsBits, f.IsNaN, f.IsSignaling, Pow2;
  }

  /** The infinity of a sign. */
  lemma Infinity(f: Format, negative: bool)
    requires f.Valid()
    ensures var r := f.Bits(negative, f.InfMag()); f.IsBits(r) && f.IsInf(r) && !f.IsNaN(r) && f.Negative(r) == negative
    ensures var r := f.Bits(negative, 0); f.IsBits(r) && f.IsZero(r) && !f.IsNaN(r) && f.Negative(r) == negative
  {
    hide *;
    FormatConversion.SpecialFloats(f, negative);
    FormatConversion.FiniteFloat(f, negative, 0);
    Classes(f, f.Bits(negative, 0));
  }

  /** The special cases of addition: NaNs, invalid sums, infinities, the sign of a sum. */
  lemma SumLaw(f: Format, a: nat, b: nat, rm: RoundingMode, r: nat, fl: Flags, fl': Flags)
    requires f.Valid() && f.IsBits(a) && f.IsBits(b) && Addition.Sum(f, a, b, rm, r, fl, fl')
    ensures
      var nan, opposite := f.IsNaN(a) || f.IsNaN(b), f.IsInf(a) && f.IsInf(b) && f.Negative(a) != f.Negative(b);
      && f.IsBits(r)
      && (f.IsNaN(r) <==> nan || opposite) && (f.IsNaN(r) ==> IsDefaultNaN(f, r))
      && (fl'.invalid <==> fl.invalid || f.IsSignaling(a) || f.IsSignaling(b) || opposite)
      && (fl'.divideByZero <==> fl.divideByZero)
      && (!f.IsFinite(a) || !f.IsFinite(b) ==> fl' == fl.(invalid := fl'.invalid))
      && (!f.IsNaN(r) && f.IsInf(a) ==> r == a) && (!f.IsNaN(r) && f.IsInf(b) ==> r == b)
    ensures f.IsFinite(a) && f.IsFinite(b) ==>
      var v := f.Value(a) + f.Value(b);
      && (v == 0.0 ==> f.IsZero(r) && fl' == fl)
      && (f.Negative(r) <==> if v != 0.0 then v < 0.0 else if rm == RDN then f.Negative(a) || f.Negative(b) else f.Negative(a) && f.Negative(b))
  {
    hide *;
    SumDef(f, a, b, rm, r, fl, fl');
    DefaultNaN(f);
    OrIs(fl);
    Classes(f, a);
    Classes(f, b);
    if f.IsFinite(a) && f.IsFinite(b) {
      Addition.ZeroSumSignDef(rm, f.Negative(a), f.Negative(b));
      RoundedSign(f, rm, f.Value(a) + f.Value(b), Addition.ZeroSumSign(rm, f.Negative(a), f.Negative(b)), r, fl, fl');
    } else if f.IsInf(a) && f.IsInf(b) {
      SameInfinity(f, a, b);
    }
  }

  lemma SumDef(f: Format, a: nat, b: nat, rm: RoundingMode, r: nat, fl: Flags, fl': Flags)
    requires f.Valid()
    ensures Addition.Sum(f, a, b, rm, r, fl, fl') <==>
      if f.IsNaN(a) || f.IsNaN(b) then
        r == f.QNaN() && fl' == fl.Or(if f.IsSignaling(a) || f.IsSignaling(b) then Invalid else NoFlags)
      else if f.IsInf(a) && f.IsInf(b) && f.Negative(a) != f.Negative(b) then r == f.QNaN() && fl' == fl.Or(Invalid)
      else if f.IsInf(a) || f.IsInf(b) then r == (if f.IsInf(a) then a else b) && fl' == fl
      else Rounded(f, rm, f.Value(a) + f.Value(b), Addition.ZeroSumSign(rm, f.Negative(a), f.Negative(b)), r, fl, fl')
  {
  }

  lemma SameInfinity(f: Format, a: nat, b: nat)
    requires f.Valid() && f.IsBits(a) && f.IsBits(b) && f.IsInf(a) && f.IsInf(b)
    ensures f.Negative(a) == f.Negative(b) ==> a == b
    ensures !f.IsSignaling(a) && !f.IsSignaling(b)
  {
    hide *;
    MagParts(f, a);
    MagParts(f, b);
    Classes(f, a);
    Classes(f, b);
  }

  lemma NoSpecial(f: Format, a: nat)
    requires f.Valid() && f.IsBits(a)
    ensures f.IsSignaling(a) ==> f.IsNaN(a)
    ensures !(f.IsNaN(a) && f.IsInf(a)) && !(f.IsNaN(a) && f.IsFinite(a)) && !(f.IsInf(a) && f.IsFinite(a))
    ensures f.IsNaN(a) || f.IsInf(a) || f.IsFinite(a)
    ensures f.IsZero(a) ==> f.IsFinite(a)
    ensures f.IsFinite(a) ==> (f.Value(a) == 0.0 <==> f.IsZero(a))
    ensures f.IsFinite(a) && f.Value(a) != 0.0 ==> (f.Negative(a) <==> f.Value(a) < 0.0)
  {
    hide *;
    Classes(f, a);
    DeliverCases(f, RTZ, false, 0);
    if f.IsFinite(a) {
      ValueOfZero(f, a);
      ValueDef(f, a);
    }
  }

  /** The special cases of multiplication; the sign is that of the operands, whatever they are. */
  lemma ProductLaw(f: Format, a: nat, b: nat, rm: RoundingMode, r: nat, fl: Flags, fl': Flags)
    requires f.Valid() && f.IsBits(a) && f.IsBits(b) && Multiplication.Product(f, a, b, rm, r, fl, fl')
    ensures
      var nan, undefined := f.IsNaN(a) || f.IsNaN(b), (f.IsInf(a) && f.IsZero(b)) || (f.IsZero(a) && f.IsInf(b));
      && f.IsBits(r)
      && (f.IsNaN(r) <==> nan || undefined) && (f.IsNaN(r) ==> IsDefaultNaN(f, r))
      && (!f.IsNaN(r) ==> (f.Negative(r) <==> f.Negative(a) != f.Negative(b)))
      && (fl'.invalid <==> fl.invalid || f.IsSignaling(a) || f.IsSignaling(b) || undefined)
      && (fl'.divideByZero <==> fl.divideByZero)
      && (!f.IsFinite(a) || !f.IsFinite(b) ==> fl' == fl.(invalid := fl'.invalid) && (f.IsNaN(r) || f.IsInf(r)))
      && (!f.IsNaN(r) && (f.IsZero(a) || f.IsZero(b)) ==> f.IsZero(r) && fl' == fl)
  {
    hide *;
    ProductDef(f, a, b, rm, r, fl, fl');
    DefaultNaN(f);
    OrIs(fl);
    NoSpecial(f, a);
    NoSpecial(f, b);
    var negative := f.Negative(a) != f.Negative(b);
    Infinity(f, negative);
    if f.IsFinite(a) && f.IsFinite(b) {
      RoundedSign(f, rm, f.Value(a) * f.Value(b), negative, r, fl, fl');
      ProductSign(f.Value(a), f.Value(b));
    }
  }

  lemma ProductSign(x: real, y: real)
    ensures x * y == 0.0 <==> x == 0.0 || y == 0.0
    ensures x * y < 0.0 <==> x != 0.0 && y != 0.0 && (x < 0.0) != (y < 0.0)
  {
    SignsOfProduct(x, y);
    hide *;
    PositiveProduct(if x < 0.0 then -x else x, if y < 0.0 then -y else y);
  }

  lemma ProductDef(f: Format, a: nat, b: nat, rm: RoundingMode, r: nat, fl: Flags, fl': Flags)
    requires f.Valid() && Multiplication.Product(f, a, b, rm, r, fl, fl')
    ensures
      var negative := f.Negative(a) != f.Negative(b);
      if f.IsNaN(a) || f.IsNaN(b) then
        r == f.QNaN() && fl' == fl.Or(if f.IsSignaling(a) || f.IsSignaling(b) then Invalid else NoFlags)
      else if (f.IsInf(a) && f.IsZero(b)) || (f.IsZero(a) && f.IsInf(b)) then r == f.QNaN() && fl' == fl.Or(Invalid)
      else if f.IsInf(a) || f.IsInf(b) then r == f.Bits(negative, f.InfMag()) && fl' == fl
      else Rounded(f, rm, f.Value(a) * f.Value(b), negative, r, fl, fl')
  {
  }

  /** The special cases of division; a finite number over zero is the only division by zero. */
  lemma QuotientLaw(f: Format, a: nat, b: nat, rm: RoundingMode, r: nat, fl: Flags, fl': Flags)
    requires f.Valid() && f.IsBits(a) && f.IsBits(b) && Division.Quotient(f, a, b, rm, r, fl, fl')
    ensures
      var nan, undefined := f.IsNaN(a) || f.IsNaN(b), (f.IsInf(a) && f.IsInf(b)) || (f.IsZero(a) && f.IsZero(b));
      && f.IsBits(r)
      && (f.IsNaN(r) <==> nan || undefined) && (f.IsNaN(r) ==> IsDefaultNaN(f, r))
      && (!f.IsNaN(r) ==> (f.Negative(r) <==> f.Negative(a) != f.Negative(b)))
      && (fl'.invalid <==> fl.invalid || f.IsSignaling(a) || f.IsSignaling(b) || undefined)
      && (fl'.divideByZero <==> fl.divideByZero || (f.IsFinite(a) && !f.IsZero(a) && f.IsZero(b)))
      && (!f.IsNaN(r) && (f.IsInf(a) || f.IsZero(b)) ==> f.IsInf(r))
      && (!f.IsNaN(r) && (f.IsZero(a) || f.IsInf(b)) ==> f.IsZero(r))
      && (!f.IsFinite(a) || !f.IsFinite(b) || f.IsZero(a) || f.IsZero(b) ==>
            fl' == fl.(invalid := fl'.invalid, divideByZero := fl'.divideByZero))
  {
    hide *;
    QuotientDef(f, a, b, rm, r, fl, fl');
    DefaultNaN(f);
    OrIs(fl);
    NoSpecial(f, a);
    NoSpecial(f, b);
    var negative := f.Negative(a) != f.Negative(b);
    Infinity(f, negative);
    if f.IsFinite(a) && f.IsFinite(b) && !f.IsZero(b) {
      RoundedSign(f, rm, f.Value(a) / f.Value(b), negative, r, fl, fl');
      RatioSign(f.Value(a), f.Value(b));
    }
  }

  lemma RatioSign(x: real, y: real)
    requires y != 0.0
    ensures x / y == 0.0 <==> x == 0.0
    ensures x / y < 0.0 <==> x != 0.0 && (x < 0.0) != (y < 0.0)
  {
    var q := x / y;
    Cancels(x, y);
    hide *;
    ProductSign(q, y);
  }

  lemma Cancels(x: real, y: real)
    requires y != 0.0
    ensures (x / y) * y == x
  {
  }

  lemma QuotientDef(f: Format, a: nat, b: nat, rm: RoundingMode, r: nat, fl: Flags, fl': Flags)
    requires f.Valid()
    ensures Division.Quotient(f, a, b, rm, r, fl, fl') <==>
      var negative := f.Negative(a) != f.Negative(b);
      if f.IsNaN(a) || f.IsNaN(b) then
        r == f.QNaN() && fl' == fl.Or(if f.IsSignaling(a) || f.IsSignaling(b) then Invalid else NoFlags)
      else if (f.IsInf(a) && f.IsInf(b)) || (f.IsZero(a) && f.IsZero(b)) then r == f.QNaN() && fl' == fl.Or(Invalid)
      else if f.IsInf(a) then r == f.Bits(negative, f.InfMag()) && fl' == fl
      else if f.IsInf(b) then r == f.Bits(negative, 0) && fl' == fl
      else if f.IsZero(b) then r == f.Bits(negative, f.InfMag()) && fl' == fl.Or(DivideByZero)
      else f.Value(b) != 0.0 && Rounded(f, rm, f.Value(a) / f.Value(b), negative, r, fl, fl')
  {
  }

  /** The special cases of the square root: of numbers below zero only minus zero has one, itself. */
  lemma RootLaw(f: Format, a: nat, rm: RoundingMode, r: nat, fl: Flags, fl': Flags)
    requires f.Valid() && f.IsBits(a) && FloatSqrt.Root(f, a, rm, r, fl, fl')
    ensures
      var undefined := !f.IsNaN(a) && f.Negative(a) && !f.IsZero(a);
      && f.IsBits(r)
      && (f.IsNaN(r) <==> f.IsNaN(a) || undefined) && (f.IsNaN(r) ==> IsDefaultNaN(f, r))
      && (fl'.invalid <==> fl.invalid || f.IsSignaling(a) || undefined)
      && (fl'.divideByZero <==> fl.divideByZero)
      && (f.IsZero(a) || (f.IsInf(a) && !f.Negative(a)) ==> r == a && fl' == fl)
      && (!f.IsNaN(r) && !f.IsZero(a) ==> !f.Negative(r))
      && (f.IsNaN(r) ==> fl' == fl.(invalid := fl'.invalid))
  {
    hide *;
    RootDef(f, a, rm, r, fl, fl');
    DefaultNaN(f);
    OrIs(fl);
    NoSpecial(f, a);
    if f.IsFinite(a) && !f.Negative(a) && !f.IsZero(a) {
      DeliveredRoot(f, rm, f.Value(a), r, fl, fl');
    }
  }

  lemma DeliveredRoot(f: Format, rm: RoundingMode, v: real, r: nat, fl: Flags, fl': Flags)
    requires f.Valid() && RootRounding.RootDelivered(f, rm, v, r, fl, fl')
    ensures f.IsBits(r) && !f.IsNaN(r) && !f.Negative(r)
    ensures (fl'.invalid <==> fl.invalid) && (fl'.divideByZero <==> fl.divideByZero)
  {
    hide f.InfMag, f.MaxFinite, f.IsBits, f.IsNaN, f.Negative, f.Bits, RootRounding.RootRoundsTo, RootRounding.RootTiny,
         Deliver, f.MagValue, RootRounding.Square, Pow2;
    var k: nat :| RootRounding.RootRoundsTo(f, rm, v, k) && r == f.Bits(false, Deliver(f, rm, false, k))
                  && fl' == fl.Or(RootRounding.RootRaised(f, rm, v, k));
    DeliverCases(f, rm, false, k);
    Pow2Positive(f.mantSize);
    BitsParts(f, false, Deliver(f, rm, false, k));
    Classes(f, r);
  }

  lemma RootDef(f: Format, a: nat, rm: RoundingMode, r: nat, fl: Flags, fl': Flags)
    requires f.Valid()
    ensures FloatSqrt.Root(f, a, rm, r, fl, fl') <==>
      if f.IsNaN(a) then r == f.QNaN() && fl' == fl.Or(if f.IsSignaling(a) then Invalid else NoFlags)
      else if f.IsZero(a) then r == a && fl' == fl
      else if f.Negative(a) then r == f.QNaN() && fl' == fl.Or(Invalid)
      else if f.IsInf(a) then r == a && fl' == fl
      else RootRounding.RootDelivered(f, rm, f.Value(a), r, fl, fl') && FloatSqrt.RoundedRoot(f, a, rm, r, fl, fl')
  {
  }

  /** The special cases of the fused operation: zero times infinity is invalid even when c is a quiet NaN. */
  lemma MultiplyAddLaw(f: Format, a: nat, b: nat, c: nat, rm: RoundingMode, r: nat, fl: Flags, fl': Flags)
    requires f.Valid() && f.IsBits(a) && f.IsBits(b) && f.IsBits(c)
    requires FusedMultiplyAdd.MultiplyAdd(f, a, b, c, rm, r, fl, fl')
    ensures
      var negative := f.Negative(a) != f.Negative(b);
      var nan, undefined := f.IsNaN(a) || f.IsNaN(b) || f.IsNaN(c), (f.IsZero(a) && f.IsInf(b)) || (f.IsInf(a) && f.IsZero(b));
      var opposite := !nan && (f.IsInf(a) || f.IsInf(b)) && f.IsInf(c) && negative != f.Negative(c);
      && f.IsBits(r)
      && (f.IsNaN(r) <==> nan || undefined || opposite) && (f.IsNaN(r) ==> IsDefaultNaN(f, r))
      && (fl'.invalid <==>
            fl.invalid || f.IsSignaling(a) || f.IsSignaling(b) || f.IsSignaling(c) || undefined || opposite)
      && (fl'.divideByZero <==> fl.divideByZero)
      && (!f.IsNaN(r) && (f.IsInf(a) || f.IsInf(b)) ==> f.IsInf(r) && (f.Negative(r) <==> negative) && fl' == fl)
      && (!f.IsNaN(r) && f.IsInf(c) ==> r == c && fl' == fl)
      && (f.IsNaN(r) ==> fl' == fl.(invalid := fl'.invalid))
    ensures f.IsFinite(a) && f.IsFinite(b) && f.IsFinite(c) ==>
      var v, negative := f.Value(a) * f.Value(b) + f.Value(c), f.Negative(a) != f.Negative(b);
      && (v == 0.0 ==> f.IsZero(r) && fl' == fl)
      && (f.Negative(r) <==> if v != 0.0 then v < 0.0 else if rm == RDN then negative || f.Negative(c) else negative && f.Negative(c))
  {
    hide *;
    MultiplyAddDef(f, a, b, c, rm, r, fl, fl');
    DefaultNaN(f);
    OrIs(fl);
    NoSpecial(f, a);
    NoSpecial(f, b);
    NoSpecial(f, c);
    var negative := f.Negative(a) != f.Negative(b);
    Infinity(f, negative);
    Infinity(f, f.Negative(c));
    if f.IsInf(c) {
      SameInfinity(f, f.Bits(f.Negative(c), f.InfMag()), c);
    }
    if f.IsFinite(a) && f.IsFinite(b) && f.IsFinite(c) {
      Addition.ZeroSumSignDef(rm, negative, f.Negative(c));
      RoundedSign(f, rm, f.Value(a) * f.Value(b) + f.Value(c), Addition.ZeroSumSign(rm, negative, f.Negative(c)), r, fl, fl');
    }
  }

  lemma MultiplyAddDef(f: Format, a: nat, b: nat, c: nat, rm: RoundingMode, r: nat, fl: Flags, fl': Flags)
    requires f.Valid() && FusedMultiplyAdd.MultiplyAdd(f, a, b, c, rm, r, fl, fl')
    ensures
      var negative := f.Negative(a) != f.Negative(b);
      if (f.IsZero(a) && f.IsInf(b)) || (f.IsInf(a) && f.IsZero(b)) then r == f.QNaN() && fl' == fl.Or(Invalid)
      else if f.IsNaN(a) || f.IsNaN(b) || f.IsNaN(c) then
        && r == f.QNaN()
        && fl' == fl.Or(if f.IsSignaling(a) || f.IsSignaling(b) || f.IsSignaling(c) then Invalid else NoFlags)
      else if (f.IsInf(a) || f.IsInf(b)) && f.IsInf(c) && negative != f.Negative(c) then r == f.QNaN() && fl' == fl.Or(Invalid)
      else if f.IsInf(c) then r == f.Bits(f.Negative(c), f.InfMag()) && fl' == fl
      else if f.IsInf(a) || f.IsInf(b) then r == f.Bits(negative, f.InfMag()) && fl' == fl
      else
        Rounded(f, rm, f.Value(a) * f.Value(b) + f.Value(c), Addition.ZeroSumSign(rm, negative, f.Negative(c)), r, fl, fl')
  {
  }

  /** Widening: a NaN becomes the NaN of the wide format, anything else keeps its class, sign and value. */
  lemma WidenLaw(f: Format, g: Format, a: nat, r: nat, fl: Flags, fl': Flags)
    requires f.Valid() && g.Valid() && f.IsBits(a) && FormatConversion.Widened(f, g, a, r, fl, fl')
    ensures g.IsBits(r) && (g.IsNaN(r) <==> f.IsNaN(a)) && (g.IsNaN(r) ==> IsDefaultNaN(g, r))
    ensures !f.IsNaN(a) ==> (g.Negative(r) <==> f.Negative(a)) && (g.IsInf(r) <==> f.IsInf(a))
    ensures f.IsFinite(a) ==> g.IsFinite(r) && g.Value(r) == f.Value(a)
    ensures fl' == fl.(invalid := fl.invalid || f.IsSignaling(a))
  {
    hide *;
    WidenedDef(f, g, a, r, fl, fl');
    DefaultNaN(g);
    OrIs(fl);
    NoSpecial(f, a);
    NoSpecial(g, r);
  }

  lemma WidenedDef(f: Format, g: Format, a: nat, r: nat, fl: Flags, fl': Flags)
    requires f.Valid() && g.Valid()
    ensures FormatConversion.Widened(f, g, a, r, fl, fl') <==>
      if f.IsNaN(a) then r == g.QNaN() && fl' == fl.Or(if f.IsSignaling(a) then Invalid else NoFlags)
      else
        && g.IsBits(r) && !g.IsNaN(r) && g.Negative(r) == f.Negative(a) && fl' == fl
        && (if f.IsInf(a) then g.IsInf(r) else g.IsFinite(r) && g.Value(r) == f.Value(a))
  {
  }

  /** Narrowing: a NaN becomes the NaN of the narrow format, infinities and zeros stay, and the sign is kept. */
  lemma NarrowLaw(g: Format, f: Format, a: nat, rm: RoundingMode, r: nat, fl: Flags, fl': Flags)
    requires f.Valid() && g.Valid() && g.IsBits(a) && FormatConversion.Narrowed(g, f, a, rm, r, fl, fl')
    ensures f.IsBits(r) && (f.IsNaN(r) <==> g.IsNaN(a)) && (f.IsNaN(r) ==> IsDefaultNaN(f, r))
    ensures !g.IsNaN(a) ==> (f.Negative(r) <==> g.Negative(a))
    ensures g.IsInf(a) ==> f.IsInf(r)
    ensures g.IsZero(a) ==> f.IsZero(r)
    ensures (fl'.invalid <==> fl.invalid || g.IsSignaling(a)) && (fl'.divideByZero <==> fl.divideByZero)
    ensures !g.IsFinite(a) || g.IsZero(a) ==> fl' == fl.(invalid := fl'.invalid)
  {
    hide *;
    NarrowedDef(g, f, a, rm, r, fl, fl');
    DefaultNaN(f);
    OrIs(fl);
    NoSpecial(g, a);
    Infinity(f, g.Negative(a));
    if g.IsFinite(a) {
      RoundedSign(f, rm, g.Value(a), g.Negative(a), r, fl, fl');
    }
  }

  lemma NarrowedDef(g: Format, f: Format, a: nat, rm: RoundingMode, r: nat, fl: Flags, fl': Flags)
    requires f.Valid() && g.Valid()
    ensures FormatConversion.Narrowed(g, f, a, rm, r, fl, fl') <==>
      if g.IsNaN(a) then r == f.QNaN() && fl' == fl.Or(if g.IsSignaling(a) then Invalid else NoFlags)
      else if g.IsInf(a) then r == f.Bits(g.Negative(a), f.InfMag()) && fl' == fl
      else Rounded(f, rm, g.Value(a), g.Negative(a), r, fl, fl')
  {
  }

  /** t is the integer v rounds to. */
  ghost predicate NearestInteger(rm: RoundingMode, v: real, t: int) {
    match rm
    case RDN => t as real <= v < (t + 1) as real
    case RUP => (t - 1) as real < v <= t as real
    case RTZ => if v >= 0.0 then t as real <= v < (t + 1) as real else (t - 1) as real < v <= t as real
    case RNE => Distance(t as real, v) <= 0.5 && (Distance(t as real, v) == 0.5 ==> t % 2 == 0)
    case RMM => Distance(t as real, v) <= 0.5 && (Distance(t as real, v) == 0.5 ==> if v < 0.0 then t as real < v else v < t as real)
  }

  lemma SignedInteger(rm: RoundingMode, negative: bool, x: real, k: nat)
    requires x >= 0.0 && IntegerConversion.RoundsToInt(rm, negative, x, k) && (x == 0.0 ==> !negative)
    ensures NearestInteger(rm, if negative then -x else x, if negative then -(k as int) else k)
  {
    var q: nat :| IntegerConversion.IntegerChoice(rm, negative, x, q, k);
    IntegerChosen(rm, negative, x, q, k);
  }

  lemma IntegerChosen(rm: RoundingMode, negative: bool, x: real, q: nat, k: nat)
    requires IntegerConversion.IntegerChoice(rm, negative, x, q, k) && (x == 0.0 ==> !negative)
    ensures NearestInteger(rm, if negative then -x else x, if negative then -(k as int) else k)
  {
  }

  lemma ZeroHasNoSign(rm: RoundingMode, k: nat)
    requires IntegerConversion.RoundsToInt(rm, true, 0.0, k)
    ensures k == 0 && NearestInteger(rm, 0.0, 0)
  {
  }

  /** Conversion to an n-bit integer: the nearest integer of the mode, or else the bound on that side; a NaN is too large. */
  lemma ToIntLaw(f: Format, n: nat, unsigned: bool, a: nat, rm: RoundingMode, r: int, fl: Flags, fl': Flags)
    requires f.Valid() && n >= 1 && f.IsBits(a) && IntegerConversion.ToInt(f, n, unsigned, a, rm, r, fl, fl')
    ensures
      var lo, hi := if unsigned then 0 else 0 - Pow2(n - 1), if unsigned then Pow2(n) - 1 else Pow2(n - 1) - 1;
      && (f.IsNaN(a) ==> r == hi && fl' == fl.(invalid := true))
      && (f.IsInf(a) ==> r == (if f.Negative(a) then lo else hi) && fl' == fl.(invalid := true))
      && (f.IsFinite(a) ==>
            (exists t: int :: NearestInteger(rm, f.Value(a), t)
              && r == (if t < lo then lo else if t > hi then hi else t)
              && fl' == if lo <= t <= hi then fl.(inexact := fl.inexact || t as real != f.Value(a)) else fl.(invalid := true)))
  {
    hide *;
    OrIs(fl);
    NoSpecial(f, a);
    Bounds(n, unsigned);
    ToIntDef(f, n, unsigned, a, rm, r, fl, fl');
    if f.IsFinite(a) {
      var negative, x := f.Negative(a), f.MagValue(f.Mag(a));
      ValueDef(f, a);
      ValueOfZero(f, a);
      var k := ConversionWitness(n, unsigned, negative, x, rm, r, fl, fl');
      ConvertedIs(n, unsigned, negative, k, x, r, fl, fl');
      if negative && x == 0.0 {
        ZeroHasNoSign(rm, k);
      } else {
        SignedInteger(rm, negative, x, k);
      }
      var t := if negative then -(k as int) else k;
      assert NearestInteger(rm, f.Value(a), t);
    }
  }

  lemma Bounds(n: nat, unsigned: bool)
    requires n >= 1
    ensures var lo, hi := if unsigned then 0 else 0 - Pow2(n - 1), if unsigned then Pow2(n) - 1 else Pow2(n - 1) - 1;
      && lo <= 0 <= hi
      && IntegerConversion.Clamped(n, unsigned, true) == lo && IntegerConversion.Clamped(n, unsigned, false) == hi
      && forall t: int :: IntegerConversion.InRange(n, unsigned, t) <==> lo <= t <= hi
  {
  }

  lemma ToIntDef(f: Format, n: nat, unsigned: bool, a: nat, rm: RoundingMode, r: int, fl: Flags, fl': Flags)
    requires f.Valid() && n >= 1 && IntegerConversion.ToInt(f, n, unsigned, a, rm, r, fl, fl')
    ensures var negative := f.Negative(a) && !f.IsNaN(a);
      if f.IsFinite(a) then IntegerConversion.FiniteConversion(n, unsigned, negative, f.MagValue(f.Mag(a)), rm, r, fl, fl')
      else r == IntegerConversion.Clamped(n, unsigned, negative) && fl' == fl.Or(Invalid)
  {
  }

  lemma ConversionWitness(n: nat, unsigned: bool, negative: bool, x: real, rm: RoundingMode, r: int, fl: Flags, fl': Flags) returns (k: nat)
    requires n >= 1 && IntegerConversion.FiniteConversion(n, unsigned, negative, x, rm, r, fl, fl')
    ensures IntegerConversion.RoundsToInt(rm, negative, x, k) && IntegerConversion.Converted(n, unsigned, negative, k, x, r, fl, fl')
  {
    hide IntegerConversion.RoundsToInt, IntegerConversion.Converted;
    k :| IntegerConversion.RoundsToInt(rm, negative, x, k) && IntegerConversion.Converted(n, unsigned, negative, k, x, r, fl, fl');
  }

  lemma ConvertedIs(n: nat, unsigned: bool, negative: bool, k: nat, x: real, r: int, fl: Flags, fl': Flags)
    requires n >= 1 && IntegerConversion.Converted(n, unsigned, negative, k, x, r, fl, fl')
    ensures var t := if negative then -(k as int) else k;
      if IntegerConversion.InRange(n, unsigned, t) then r == t && fl' == fl.(inexact := fl.inexact || k as real != x)
      else r == IntegerConversion.Clamped(n, unsigned, negative) && fl' == fl.Or(Invalid)
  {
  }
}
