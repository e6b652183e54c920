/** div_sf */
module Division {
  import opened Powers
  import opened Ieee754
  import opened Sticky
  import opened RoundingKernel
  import opened Normalization
  import opened WideArithmetic
  import opened Operands

  /** The exact ratio of two finite operands, rounded once. */
  ghost predicate RoundedRatio(f: Format, a: nat, b: nat, rm: RoundingMode, r: nat, fl: Flags, fl': Flags)
    requires f.Valid()
  {
    f.Value(b) != 0.0 && Rounded(f, rm, f.Value(a) / f.Value(b), f.Negative(a) != f.Negative(b), r, fl, fl')
  }

  /** What IEEE 754 division must deliver. */
  ghost predicate Quotient(f: Format, a: nat, b: nat, rm: RoundingMode, r: nat, fl: Flags, fl': Flags)
    requires f.Valid()
  {
    var negative := f.Negative(a) != f.Negative(b);
    if f.IsNaN(a) || f.IsNaN(b) then
      r == f.QNaN() && fl' == fl.Or(if f.IsSignaling(a) || f.IsSignaling(b) then Invalid else NoFlags)
    else if (f.IsInf(a) && f.IsInf(b)) || (f.IsZero(a) && f.IsZero(b)) then
      r == f.QNaN() && fl' == fl.Or(Invalid)
    else if f.IsInf(a) then
      r == f.Bits(negative, f.InfMag()) && fl' == fl
    else if f.IsInf(b) then
      r == f.Bits(negative, 0) && fl' == fl
    else if f.IsZero(b) then
      r == f.Bits(negative, f.InfMag()) && fl' == fl.Or(DivideByZero)
    else
      RoundedRatio(f, a, b, rm, r, fl, fl')
  }

  /** Long division with a sticky remainder agrees with the exact ratio. */
  lemma RatioAgrees(num: nat, den: nat, q: nat, r: nat, y: real)
    requires den > 0 && num == q * den + r && r < den && y * den as real == num as real
    ensures Agree(y, OrBit(q, r != 0), 2)
  {
    RatioPlace(num, den, q, r, y);
    OrBitRange(q, r != 0);
    if r == 0 {
      OrNothing(q);
      AgreeExact(q, 2);
    }
  }

  lemma RatioPlace(num: nat, den: nat, q: nat, r: nat, y: real)
    requires den > 0 && num == q * den + r && r < den && y * den as real == num as real
    ensures r == 0 ==> y == q as real
    ensures r != 0 ==> q as real < y < (q + 1) as real
  {
    hide *;
    MulDiff(q + 1, 1, den);
    CastProduct(q, den, y, num);
    CastProduct(q + 1, den, y, num);
  }

  lemma CastProduct(q: nat, den: nat, y: real, num: nat)
    requires den > 0 && y * den as real == num as real
    ensures q * den == num <==> q as real == y
    ensures q * den < num <==> (q as real) < y
  {
    RealMul(q, den);
    MulLe(q as real, y, den as real);
  }

  lemma RatioBounds(f: Format, sa: nat, sb: nat, q: nat, r: nat)
    requires f.Valid()
    requires Pow2(f.mantSize) <= sa < 2 * Pow2(f.mantSize) && Pow2(f.mantSize) <= sb < 2 * Pow2(f.mantSize)
    requires sa * Pow2(f.Size()) == q * (4 * sb) + r && r < 4 * sb
    ensures Pow2(f.Size() - 3) <= q < Pow2(f.Size() - 1)
  {
    hide *;
    SizeIs(f);
    var w := Pow2(f.Size() - 3);
    Pow2Double(f.Size());
    Pow2Double(f.Size() - 1);
    Pow2Double(f.Size() - 2);
    QuotientRange(Pow2(f.mantSize), sa, sb, w, q, r);
  }

  lemma QuotientRange(n: nat, sa: nat, sb: nat, w: nat, q: nat, r: nat)
    requires n <= sa < 2 * n && n <= sb < 2 * n && w > 0 && sa * (8 * w) == q * (4 * sb) + r && r < 4 * sb
    ensures w <= q < 4 * w
  {
    AtLeastQuotient(sa, sb, w, q, r);
    BelowQuotient(sa, sb, w, q, r);
  }

  lemma AtLeastQuotient(sa: nat, sb: nat, w: nat, q: nat, r: nat)
    requires sb <= 2 * sa && sa * (8 * w) == q * (4 * sb) + r && r < 4 * sb
    ensures w <= q
  {
    RegroupEight(sa, w);
    ProductOver(w, 4 * sb, q, 1);
    MulMono(4 * sb, 8 * sa, w);
    MulCommutes(w, 4 * sb);
  }

  lemma BelowQuotient(sa: nat, sb: nat, w: nat, q: nat, r: nat)
    requires sa < 2 * sb && w > 0 && sa * (8 * w) == q * (4 * sb) + r
    ensures q < 4 * w
  {
    ProductOver(q, 4 * sb, 4 * w, 0);
    RegroupEight(sb, w);
    ProductOver(2 * sb, 8 * w, sa, 1);
  }

  lemma RegroupEight(s: nat, w: nat)
    ensures (4 * w) * (4 * s) == (2 * s) * (8 * w)
    ensures s * (8 * w) == (8 * s) * w
  {
  }

  lemma ExponentOfQuotient(f: Format, ea: int, eb: int)
    requires f.Valid()
    ensures var exp := ea - eb + Pow2(f.expSize - 1) - 1;
      LastBitExp(f, exp) + (eb - 1 + f.MinExp()) + f.Size() == (ea - 1 + f.MinExp()) + 2
  {
  }

  /** The quotient of the significands stands for the exact ratio of the operands. */
  lemma RatioRepresents(f: Format, a: nat, ea: int, sa: nat, b: nat, eb: int, sb: nat, q: nat, r: nat, x: real)
    requires f.Valid() && Normalized(f, a, ea, sa) && Normalized(f, b, eb, sb)
    requires sa * Pow2(f.Size()) == q * (4 * sb) + r && r < 4 * sb
    requires x * f.MagValue(f.Mag(b)) == f.MagValue(f.Mag(a))
    ensures Represents(f, ea - eb + Pow2(f.expSize - 1) - 1, OrBit(q, r != 0), x, 2)
  {
    hide *;
    FormatSizes(f);
    var exp := ea - eb + Pow2(f.expSize - 1) - 1;
    var s := P2(LastBitExp(f, exp));
    var y := x / s;
    NormalizedDef(f, a, ea, sa);
    NormalizedDef(f, b, eb, sb);
    UlpDef(f, ea);
    UlpDef(f, eb);
    ExponentOfQuotient(f, ea, eb);
    P2Add(LastBitExp(f, exp), eb - 1 + f.MinExp());
    P2AddNat(f.Size(), LastBitExp(f, exp) + (eb - 1 + f.MinExp()));
    P2AddNat(2, ea - 1 + f.MinExp());
    Pow2Four();
    CancelRatio(x, y, s, sa, Ulp(f, ea), f.MagValue(f.Mag(a)), sb, Ulp(f, eb), f.MagValue(f.Mag(b)),
                P2(LastBitExp(f, exp) + (eb - 1 + f.MinExp())), Pow2(f.Size()));
    RatioAgrees(sa * Pow2(f.Size()), 4 * sb, q, r, y);
    IntroRepresents(f, exp, OrBit(q, r != 0), x, 2, y);
  }

  lemma Pow2Four()
    ensures Pow2(2) == 4
  {
  }

  /** x = y*s, a = sa*ua, b = sb*ub, x*b = a and s*ub*w = 4*ua give y*(4*sb) = sa*w. */
  lemma CancelRatio(x: real, y: real, s: real, sa: nat, ua: real, a: real, sb: nat, ub: real, b: real, sub: real, w: nat)
    requires s > 0.0 && ua > 0.0 && y == x / s
    requires a == sa as real * ua && b == sb as real * ub && x * b == a
    requires sub == s * ub && w as real * sub == 4.0 * ua
    ensures x == y * s
    ensures y * (4 * sb) as real == (sa * w) as real
  {
    assert x == y * s;
    Chain(x, y, s, sb as real, ub, b, sub);
    Balance(y, sb as real, sub, sa as real, ua, w as real);
    RealMul(sa, w);
    RealMul(4, sb);
  }

  lemma Chain(x: real, y: real, s: real, sb: real, ub: real, b: real, sub: real)
    requires x == y * s && b == sb * ub && sub == s * ub
    ensures x * b == (y * sb) * sub
  {
    FourFactors(y, s, sb, ub);
  }

  lemma Balance(y: real, sb: real, sub: real, sa: real, ua: real, w: real)
    requires ua > 0.0 && (y * sb) * sub == sa * ua && w * sub == 4.0 * ua
    ensures y * (4.0 * sb) == sa * w
  {
    assert ((y * sb) * sub) * w == (y * sb) * (w * sub);
    assert (y * sb) * (4.0 * ua) == (y * (4.0 * sb)) * ua;
    assert (sa * ua) * w == (sa * w) * ua;
    MulLe(y * (4.0 * sb), sa * w, ua);
  }

  lemma RatioValue(f: Format, a: nat, b: nat)
    requires f.Valid() && f.IsBits(a) && f.IsBits(b) && f.IsFinite(a) && f.IsFinite(b) && !f.IsZero(b)
    ensures f.Value(b) != 0.0 && f.MagValue(f.Mag(b)) > 0.0
    ensures var x := f.MagValue(f.Mag(a)) / f.MagValue(f.Mag(b));
      && x * f.MagValue(f.Mag(b)) == f.MagValue(f.Mag(a))
      && x >= 0.0 && (x == 0.0 <==> f.IsZero(a))
      && f.Value(a) / f.Value(b) == if f.Negative(a) != f.Negative(b) then -x else x
  {
    hide *;
    ValueOfZero(f, a);
    ValueOfZero(f, b);
    ValueDef(f, a);
    ValueDef(f, b);
    SignsOfRatio(f.MagValue(f.Mag(a)), f.MagValue(f.Mag(b)));
  }

  lemma SignsOfRatio(x: real, y: real)
    requires x >= 0.0 && y > 0.0
    ensures var q := x / y; q * y == x && q >= 0.0 && (q == 0.0 <==> x == 0.0)
    ensures (-x) / y == -(x / y) && x / (-y) == -(x / y) && (-x) / (-y) == x / y
  {
    var q := x / y;
    assert q * y == x;
    SignsOfProduct(q, y);
    MulLe(0.0, q, y);
  }

  /** The finite, nonzero case of div_sf. */
  method DivFinite(f: Format, a: nat, b: nat, rm: RoundingMode, fl: Flags) returns (r: nat, fl': Flags)
    requires f.Valid() && f.IsBits(a) && f.IsBits(b)
    requires f.IsFinite(a) && f.IsFinite(b) && !f.IsZero(a) && !f.IsZero(b)
    ensures RoundedRatio(f, a, b, rm, r, fl, fl')
  {
    hide *;
    SizeIs(f);
    FormatSizes(f);
    var rSign := f.Negative(a) != f.Negative(b);
    var bExp, bMant := Prepare(f, b);
    var aExp, aMant := Prepare(f, a);
    DivisorFits(f, a, aExp, aMant, b, bExp, bMant);
    var rExp := aExp - bExp + Pow2(f.expSize - 1) - 1;
    var rMant, rest := DivRemU(f, aMant, 0, bMant * 4);
    RatioFaithful(f, a, aExp, aMant, b, bExp, bMant, rMant, rest);
    rMant := OrBit(rMant, rest != 0);
    r, fl' := Normalize(f, rSign, rExp, rMant, rm, fl);
    RatioRounded(f, a, b, rm, rExp, rMant, r, fl, fl');
  }

  /** The exponent and mantissa of div_sf stand for the exact ratio of the magnitudes. */
  ghost predicate StandsForRatio(f: Format, a: nat, b: nat, exp: int, m: nat)
    requires f.Valid()
  {
    f.MagValue(f.Mag(b)) > 0.0 && Faithful(f, exp, m, f.MagValue(f.Mag(a)) / f.MagValue(f.Mag(b)), 0)
  }

  lemma RatioRounded(f: Format, a: nat, b: nat, rm: RoundingMode, exp: int, m: nat, r: nat, fl: Flags, fl': Flags)
    requires f.Valid() && f.IsBits(a) && f.IsBits(b) && f.IsFinite(a) && f.IsFinite(b) && !f.IsZero(a) && !f.IsZero(b)
    requires StandsForRatio(f, a, b, exp, m)
    requires forall x: real | Faithful(f, exp, m, x, 0) ::
      RoundedMagnitude(f, rm, f.Negative(a) != f.Negative(b), x, r, fl, fl')
    ensures RoundedRatio(f, a, b, rm, r, fl, fl')
  {
    RatioValue(f, a, b);
    hide f.Value, f.MagValue, Faithful, RoundedMagnitude, f.Negative, f.Mag, f.IsZero;
    var x := f.MagValue(f.Mag(a)) / f.MagValue(f.Mag(b));
    var sign := f.Negative(a) != f.Negative(b);
    SignedRounding(f, rm, f.Value(a) / f.Value(b), sign, x, sign, r, fl, fl');
  }

  lemma DivisorFits(f: Format, a: nat, ea: int, sa: nat, b: nat, eb: int, sb: nat)
    requires f.Valid() && Normalized(f, a, ea, sa) && Normalized(f, b, eb, sb)
    ensures sa < sb * 4 < Pow2(f.Size()) && 0 < Pow2(f.Size())
  {
    hide *;
    NormalizedDef(f, a, ea, sa);
    NormalizedDef(f, b, eb, sb);
    WordRoom(f);
  }

  lemma WordRoom(f: Format)
    requires f.Valid()
    ensures 8 * Pow2(f.mantSize) <= Pow2(f.Size())
  {
    Pow2Le(f.mantSize + 3, f.Size());
    Pow2Add(f.mantSize, 3);
    assert Pow2(3) == 8;
  }

  lemma RatioFaithful(f: Format, a: nat, ea: int, sa: nat, b: nat, eb: int, sb: nat, q: nat, r: nat)
    requires f.Valid() && f.IsBits(a) && f.IsBits(b) && f.IsFinite(a) && f.IsFinite(b) && !f.IsZero(b)
    requires Normalized(f, a, ea, sa) && Normalized(f, b, eb, sb)
    requires Wide(f, sa, 0) == q * (sb * 4) + r && r < sb * 4
    ensures OrBit(q, r != 0) < Pow2(f.Size() - 1)
    ensures StandsForRatio(f, a, b, ea - eb + Pow2(f.expSize - 1) - 1, OrBit(q, r != 0))
  {
    hide *;
    FormatSizes(f);
    WideDef(f, sa, 0);
    NormalizedDef(f, a, ea, sa);
    NormalizedDef(f, b, eb, sb);
    RatioBounds(f, sa, sb, q, r);
    RatioValue(f, a, b);
    var x := f.MagValue(f.Mag(a)) / f.MagValue(f.Mag(b));
    RatioRepresents(f, a, ea, sa, b, eb, sb, q, r, x);
    QuotientFaithful(f, ea - eb + Pow2(f.expSize - 1) - 1, q, r, x);
    IntroRatio(f, a, b, ea - eb + Pow2(f.expSize - 1) - 1, OrBit(q, r != 0));
  }

  lemma IntroRatio(f: Format, a: nat, b: nat, exp: int, m: nat)
    requires f.Valid() && f.MagValue(f.Mag(b)) > 0.0
    requires Faithful(f, exp, m, f.MagValue(f.Mag(a)) / f.MagValue(f.Mag(b)), 0)
    ensures StandsForRatio(f, a, b, exp, m)
  {
  }

  lemma QuotientFaithful(f: Format, exp: int, q: nat, rest: nat, x: real)
    requires f.Valid() && Pow2(f.Size() - 3) <= q < Pow2(f.Size() - 1)
    requires Represents(f, exp, OrBit(q, rest != 0), x, 2)
    ensures OrBit(q, rest != 0) < Pow2(f.Size() - 1) && Faithful(f, exp, OrBit(q, rest != 0), x, 0)
  {
    hide *;
    SizeIs(f);
    Pow2Zero();
    Pow2Double(f.Size() - 1);
    StickyBelowEven(q, rest != 0, Pow2(f.Size() - 2));
    OrBitRange(q, rest != 0);
    Pow2Le(f.mantSize + 2, f.Size() - 3);
    IntroFaithful(f, exp, OrBit(q, rest != 0), x, 0, 1);
  }

  lemma ZeroRatio(f: Format, a: nat, b: nat, rm: RoundingMode, r: nat, fl: Flags)
    requires f.Valid() && f.IsBits(a) && f.IsBits(b) && f.IsFinite(a) && f.IsFinite(b) && f.IsZero(a) && !f.IsZero(b)
    requires r == f.Bits(f.Negative(a) != f.Negative(b), 0)
    ensures RoundedRatio(f, a, b, rm, r, fl, fl)
  {
    RatioValue(f, a, b);
    hide f.Value, f.MagValue, RoundedMagnitude, f.Negative, f.Mag, f.IsZero;
    RoundedZeroValue(f, rm, f.Value(a) / f.Value(b), f.Negative(a) != f.Negative(b), r, fl);
  }

  lemma QuotientCases(f: Format, a: nat, b: nat, rm: RoundingMode, r: nat, fl: Flags, fl': Flags)
    requires f.Valid()
    requires
      var negative := f.Negative(a) != f.Negative(b);
      if f.IsNaN(a) || f.IsNaN(b) then
        r == f.QNaN() && fl' == fl.Or(if f.IsSignaling(a) || f.IsSignaling(b) then Invalid else NoFlags)
      else if (f.IsInf(a) && f.IsInf(b)) || (f.IsZero(a) && f.IsZero(b)) then
        r == f.QNaN() && fl' == fl.Or(Invalid)
      else if f.IsInf(a) then
        r == f.Bits(negative, f.InfMag()) && fl' == fl
      else if f.IsInf(b) then
        r == f.Bits(negative, 0) && fl' == fl
      else if f.IsZero(b) then
        r == f.Bits(negative, f.InfMag()) && fl' == fl.Or(DivideByZero)
      else
        RoundedRatio(f, a, b, rm, r, fl, fl')
    ensures Quotient(f, a, b, rm, r, fl, fl')
  {
  }

  /** div_sf */
  method Div(f: Format, a: nat, b: nat, rm: RoundingMode, fl: Flags) returns (r: nat, fl': Flags)
    requires f.Valid() && f.IsBits(a) && f.IsBits(b)
    ensures Quotient(f, a, b, rm, r, fl, fl')
  {
    hide *;
    fl' := fl;
    var rSign := f.Negative(a) != f.Negative(b);
    ClassOfFields(f, a);
    ClassOfFields(f, b);
    NanBits(f, a);
    NanBits(f, b);
    ExpMaskLarge(f);
    OrFlags(fl);
    PackLimits(f, rSign);
    if f.Exp(a) == f.ExpMask() {
      if f.Mant(a) != 0 || IsNanBits(f, b) {
        if IsSigNanBits(f, a) || IsSigNanBits(f, b) {
          fl' := fl'.(invalid := true);
        }
        r := f.QNaN();
      } else if f.Exp(b) == f.ExpMask() {
        fl' := fl'.(invalid := true);
        r := f.QNaN();
      } else {
        r := Pack(f, rSign, f.ExpMask(), 0);
      }
    } else if f.Exp(b) == f.ExpMask() {
      if f.Mant(b) != 0 {
        if IsSigNanBits(f, a) || IsSigNanBits(f, b) {
          fl' := fl'.(invalid := true);
        }
        r := f.QNaN();
      } else {
        r := Pack(f, rSign, 0, 0);
      }
    } else if f.Exp(b) == 0 && f.Mant(b) == 0 {
      if f.Exp(a) == 0 && f.Mant(a) == 0 {
        fl' := fl'.(invalid := true);
        r := f.QNaN();
      } else {
        fl' := fl'.(divideByZero := true);
        r := Pack(f, rSign, f.ExpMask(), 0);
      }
    } else if f.Exp(a) == 0 && f.Mant(a) == 0 {
      r := Pack(f, rSign, 0, 0);
      ZeroRatio(f, a, b, rm, r, fl);
    } else {
      r, fl' := DivFinite(f, a, b, rm, fl);
    }
    QuotientCases(f, a, b, rm, r, fl, fl');
  }
}
