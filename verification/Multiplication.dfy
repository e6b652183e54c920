/** mul_sf */
module Multiplication {
  import opened Powers
  import opened Ieee754
  import opened Sticky
  import opened RoundingKernel
  import opened Normalization
  import opened WideArithmetic
  import opened Operands

  /** What IEEE 754 multiplication must deliver. */
  ghost predicate Product(f: Format, a: nat, b: nat, rm: RoundingMode, r: nat, fl: Flags, fl': Flags)
    requires f.Valid()
  {
    var negative := f.Negative(a) != f.Negative(b);
    if f.IsNaN(a) || f.IsNaN(b) then
      r == f.QNaN() && fl' == fl.Or(if f.IsSignaling(a) || f.IsSignaling(b) then Invalid else NoFlags)
    else if (f.IsInf(a) && f.IsZero(b)) || (f.IsZero(a) && f.IsInf(b)) then
      r == f.QNaN() && fl' == fl.Or(Invalid)
    else if f.IsInf(a) || f.IsInf(b) then
      r == f.Bits(negative, f.InfMag()) && fl' == fl
    else
      Rounded(f, rm, f.Value(a) * f.Value(b), negative, r, fl, fl')
  }

  lemma ExponentOfProduct(f: Format, ea: int, eb: int)
    requires f.Valid()
    ensures var exp := ea + eb - Pow2(f.expSize - 1) + 2;
      LastBitExp(f, exp - f.Size()) == (ea - f.RndSize() - 1 + f.MinExp()) + (eb - (f.RndSize() + 1) - 1 + f.MinExp())
  {
  }

  lemma ProductBounds(f: Format, sa: nat, sb: nat)
    requires f.Valid()
    requires Pow2(f.mantSize) <= sa < 2 * Pow2(f.mantSize) && Pow2(f.mantSize) <= sb < 2 * Pow2(f.mantSize)
    ensures var p := (sa * Pow2(f.RndSize())) * (sb * Pow2(f.RndSize() + 1));
      Pow2(f.Size() - 3) * Pow2(f.Size()) <= p < Pow2(f.Size() - 1) * Pow2(f.Size())
    ensures sa * Pow2(f.RndSize()) < Pow2(f.Size()) && sb * Pow2(f.RndSize() + 1) < Pow2(f.Size())
  {
    hide *;
    SizeIs(f);
    var n := f.mantSize;
    ShiftBounds(sa, n, f.RndSize());
    ShiftBounds(sb, n, f.RndSize() + 1);
    Pow2Double(f.Size());
    Pow2Add(n + f.RndSize(), n + f.RndSize() + 1);
    Pow2Add(n + f.RndSize() + 1, n + f.RndSize() + 2);
    Pow2Add(f.Size() - 3, f.Size());
    Pow2Add(f.Size() - 1, f.Size());
    ProductRange(Pow2(n + f.RndSize()), sa * Pow2(f.RndSize()), Pow2(n + f.RndSize() + 1),
                 Pow2(n + f.RndSize() + 1), sb * Pow2(f.RndSize() + 1), Pow2(n + f.RndSize() + 2));
  }

  lemma ProductRange(la: nat, a: nat, ha: nat, lb: nat, b: nat, hb: nat)
    requires la <= a < ha && lb <= b < hb && la > 0 && lb > 0
    ensures la * lb <= a * b < ha * hb
  {
    MulMono(la, a, lb);
    MulMono(lb, b, a);
    MulCommutes(a, b);
    MulCommutes(a, lb);
    MulMono(a + 1, ha, b);
    MulMono(b + 1, hb, ha);
    MulCommutes(ha, hb);
    MulCommutes(ha, b);
    assert (a + 1) * b == a * b + b;
    assert (b + 1) * ha == b * ha + ha;
  }

  /** The product of the shifted significands: its high word with a sticky bit rounds exactly. */
  lemma ProductFaithful(f: Format, a: nat, ea: int, sa: nat, b: nat, eb: int, sb: nat, high: nat, low: nat)
    requires f.Valid() && Normalized(f, a, ea, sa) && Normalized(f, b, eb, sb) && low < Pow2(f.Size())
    requires Wide(f, high, low) == (sa * Pow2(f.RndSize())) * (sb * Pow2(f.RndSize() + 1))
    ensures var exp, m := ea + eb - Pow2(f.expSize - 1) + 2, OrBit(high, low != 0);
      && m < Pow2(f.Size() - 1)
      && Faithful(f, exp, m, f.MagValue(f.Mag(a)) * f.MagValue(f.Mag(b)), 0)
  {
    hide *;
    SizeIs(f);
    FormatSizes(f);
    var exp, m := ea + eb - Pow2(f.expSize - 1) + 2, OrBit(high, low != 0);
    var p, x := Wide(f, high, low), f.MagValue(f.Mag(a)) * f.MagValue(f.Mag(b));
    NormalizedDef(f, a, ea, sa);
    NormalizedDef(f, b, eb, sb);
    ProductBounds(f, sa, sb);
    HighBounds(f, high, low);
    ShiftedOperand(f, a, ea, sa, f.RndSize());
    ShiftedOperand(f, b, eb, sb, f.RndSize() + 1);
    ExponentOfProduct(f, ea, eb);
    ProductRepresents(f, exp - f.Size(),
                      sa * Pow2(f.RndSize()), ea - f.RndSize() - 1 + f.MinExp(), f.MagValue(f.Mag(a)),
                      sb * Pow2(f.RndSize() + 1), eb - (f.RndSize() + 1) - 1 + f.MinExp(), f.MagValue(f.Mag(b)), p, x);
    StickyFaithful(f, exp, high, low, x);
  }

  lemma ProductValue(f: Format, a: nat, b: nat)
    requires f.Valid()
    ensures var x := f.MagValue(f.Mag(a)) * f.MagValue(f.Mag(b));
      f.Value(a) * f.Value(b) == if f.Negative(a) != f.Negative(b) then -x else x
  {
    hide *;
    ValueDef(f, a);
    ValueDef(f, b);
    SignsOfProduct(f.MagValue(f.Mag(a)), f.MagValue(f.Mag(b)));
  }

  /** The finite, nonzero case of mul_sf. */
  method MulFinite(f: Format, a: nat, b: nat, rm: RoundingMode, fl: Flags) returns (r: nat, fl': Flags)
    requires f.Valid() && f.IsBits(a) && f.IsBits(b)
    requires f.IsFinite(a) && f.IsFinite(b) && !f.IsZero(a) && !f.IsZero(b)
    ensures Rounded(f, rm, f.Value(a) * f.Value(b), f.Negative(a) != f.Negative(b), r, fl, fl')
  {
    hide *;
    SizeIs(f);
    var rSign := f.Negative(a) != f.Negative(b);
    var aExp, aMant := Prepare(f, a);
    var bExp, bMant := Prepare(f, b);
    NormalizedDef(f, a, aExp, aMant);
    NormalizedDef(f, b, bExp, bMant);
    FormatSizes(f);
    ProductBounds(f, aMant, bMant);
    ShiftLeftDef(f, aMant, f.RndSize());
    ShiftLeftDef(f, bMant, f.RndSize() + 1);
    LowSmall(aMant * Pow2(f.RndSize()), f.Size());
    LowSmall(bMant * Pow2(f.RndSize() + 1), f.Size());
    var rExp := aExp + bExp - Pow2(f.expSize - 1) + 2;
    var rMant, rLow := MulU(f, ShiftLeft(f, aMant, f.RndSize()), ShiftLeft(f, bMant, f.RndSize() + 1));
    ProductFaithful(f, a, aExp, aMant, b, bExp, bMant, rMant, rLow);
    rMant := OrBit(rMant, rLow != 0);
    r, fl' := Normalize(f, rSign, rExp, rMant, rm, fl);
    ValueOfZero(f, a);
    ValueOfZero(f, b);
    PositiveProduct(f.MagValue(f.Mag(a)), f.MagValue(f.Mag(b)));
    ProductValue(f, a, b);
    SignedRounding(f, rm, f.Value(a) * f.Value(b), rSign, f.MagValue(f.Mag(a)) * f.MagValue(f.Mag(b)), rSign, r, fl, fl');
  }

  lemma ZeroProduct(f: Format, a: nat, b: nat)
    requires f.Valid() && f.IsBits(a) && f.IsBits(b) && f.IsFinite(a) && f.IsFinite(b) && (f.IsZero(a) || f.IsZero(b))
    ensures f.Value(a) * f.Value(b) == 0.0
  {
    hide *;
    ValueOfZero(f, a);
    ValueOfZero(f, b);
    ZeroFactor(f.Value(a), f.Value(b));
  }

  lemma ProductCases(f: Format, a: nat, b: nat, rm: RoundingMode, r: nat, fl: Flags, fl': Flags)
    requires f.Valid()
    requires
      var negative := f.Negative(a) != f.Negative(b);
      if f.IsNaN(a) || f.IsNaN(b) then
        r == f.QNaN() && fl' == fl.Or(if f.IsSignaling(a) || f.IsSignaling(b) then Invalid else NoFlags)
      else if (f.IsInf(a) && f.IsZero(b)) || (f.IsZero(a) && f.IsInf(b)) then
        r == f.QNaN() && fl' == fl.Or(Invalid)
      else if f.IsInf(a) || f.IsInf(b) then
        r == f.Bits(negative, f.InfMag()) && fl' == fl
      else
        Rounded(f, rm, f.Value(a) * f.Value(b), negative, r, fl, fl')
    ensures Product(f, a, b, rm, r, fl, fl')
  {
  }

  /** mul_sf */
  method Mul(f: Format, a: nat, b: nat, rm: RoundingMode, fl: Flags) returns (r: nat, fl': Flags)
    requires f.Valid() && f.IsBits(a) && f.IsBits(b)
    ensures Product(f, a, b, rm, r, fl, fl')
  {
    hide *;
    fl' := fl;
    var rSign := f.Negative(a) != f.Negative(b);
    ClassOfFields(f, a);
    ClassOfFields(f, b);
    NanBits(f, a);
    NanBits(f, b);
    ExpMaskLarge(f);
    OrFlags(fl);
    PackLimits(f, rSign);
    if f.Exp(a) == f.ExpMask() || f.Exp(b) == f.ExpMask() {
      if IsNanBits(f, a) || IsNanBits(f, b) {
        if IsSigNanBits(f, a) || IsSigNanBits(f, b) {
          fl' := fl'.(invalid := true);
        }
        r := f.QNaN();
      } else if (f.Exp(a) == f.ExpMask() && f.Exp(b) == 0 && f.Mant(b) == 0)
             || (f.Exp(b) == f.ExpMask() && f.Exp(a) == 0 && f.Mant(a) == 0) {
        fl' := fl'.(invalid := true);
        r := f.QNaN();
      } else {
        r := Pack(f, rSign, f.ExpMask(), 0);
      }
    } else if (f.Exp(a) == 0 && f.Mant(a) == 0) || (f.Exp(b) == 0 && f.Mant(b) == 0) {
      r := Pack(f, rSign, 0, 0);
      ZeroProduct(f, a, b);
      RoundedZeroValue(f, rm, f.Value(a) * f.Value(b), rSign, r, fl);
    } else {
      r, fl' := MulFinite(f, a, b, rm, fl);
    }
    ProductCases(f, a, b, rm, r, fl, fl');
  }
}
