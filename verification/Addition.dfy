/** add_sf and sub_sf. */
module Addition {
  import opened Powers
  import opened Ieee754
  import opened Sticky
  import opened RoundingKernel
  import opened Normalization
  import opened Operands

  /** Section 6.3: the sign of an exact zero sum. */
  function ZeroSumSign(rm: RoundingMode, a: bool, b: bool): bool {
    if a == b then a else rm == RDN
  }

  /** What IEEE 754 addition must deliver. */
  ghost predicate Sum(f: Format, a: nat, b: nat, rm: RoundingMode, r: nat, fl: Flags, fl': Flags)
    requires f.Valid()
  {
    if f.IsNaN(a) || f.IsNaN(b) then
      r == f.QNaN() && fl' == fl.Or(if f.IsSignaling(a) || f.IsSignaling(b) then Invalid else NoFlags)
    else if f.IsInf(a) && f.IsInf(b) && f.Negative(a) != f.Negative(b) then
      r == f.QNaN() && fl' == fl.Or(Invalid)
    else if f.IsInf(a) || f.IsInf(b) then
      r == (if f.IsInf(a) then a else b) && fl' == fl
    else
      Rounded(f, rm, f.Value(a) + f.Value(b), ZeroSumSign(rm, f.Negative(a), f.Negative(b)), r, fl, fl')
  }

  lemma SumCommutes(f: Format, a: nat, b: nat, rm: RoundingMode, r: nat, fl: Flags, fl': Flags)
    requires f.Valid() && f.IsBits(a) && f.IsBits(b) && Sum(f, b, a, rm, r, fl, fl')
    ensures Sum(f, a, b, rm, r, fl, fl')
  {
    MagParts(f, a);
    MagParts(f, b);
    hide f.Mag, f.Exp, f.Mant, f.Value, f.Negative, Rounded, f.QNaN, Pow2;
  }

  /** Alignment: with eight times the significands, a sticky shift keeps the exact sum's rounding. */
  lemma ShiftedSmall(s: nat, d: nat, n: nat)
    requires s < 2 * n
    ensures var b := ShiftSticky(8 * s, d);
      && (d == 0 ==> b == 8 * s)
      && (d >= 1 ==> b < 8 * n)
      && (d >= 4 ==> b <= n)
  {
    hide *;
    if d == 0 {
      ShiftZero(8 * s);
    } else {
      StickyDef(8 * s, d);
      QuotientBounds(s, d, n);
      StickyBelowEven(Shr(8 * s, d), Low(8 * s, d) != 0, 4 * n);
      OrBitRange(Shr(8 * s, d), Low(8 * s, d) != 0);
    }
  }

  lemma QuotientBounds(s: nat, d: nat, n: nat)
    requires s < 2 * n && d >= 1
    ensures Shr(8 * s, d) < 8 * n
    ensures d >= 4 ==> Shr(8 * s, d) < n
  {
    hide *;
    ShrParts(8 * s, d);
    Pow2Zero();
    Pow2Le(1, d);
    QuotientSmaller(Shr(8 * s, d), Pow2(d), 8 * s, 8 * n);
    if d >= 4 {
      Pow2Sixteen();
      Pow2Le(4, d);
      SixteenthSmaller(Shr(8 * s, d), Pow2(d), 8 * s, n);
    }
  }

  lemma Pow2Sixteen()
    ensures Pow2(4) == 16 && Pow2(3) == 8 && Pow2(2) == 4
  {
  }

  lemma SixteenthSmaller(q: nat, d: nat, a: nat, n: nat)
    requires d >= 16 && q * d <= a < 16 * n
    ensures q < n
  {
    assert q * d >= q * 16;
  }

  /** The smaller operand, aligned to the exponent d places higher. */
  lemma Aligned(f: Format, e: int, sig: nat, d: nat, x: real)
    requires f.Valid() && x == sig as real * Ulp(f, e)
    ensures Represents(f, e + d + f.RndSize() - 3, ShiftSticky(8 * sig, d), x, if d <= 3 then 1 else 2)
  {
    hide *;
    IntegerRepresents(f, e, sig, x);
    ExactShifted(f, e + f.RndSize(), sig, x, 3, 1);
    Pow2Sixteen();
    MulCommutes(sig, Pow2(3));
    assert Represents(f, e + f.RndSize() - 3, 8 * sig, x, 1);
    if d <= 3 {
      EightDivides(sig, d);
      ExactUnshifted(f, e + f.RndSize() - 3, ShiftSticky(8 * sig, d), x, d);
    } else {
      MulAtLeast(2, Pow2(d));
      ExactRepresents(f, e + f.RndSize() - 3, 8 * sig, x, Pow2(d) * 2);
      RepresentsShiftedOn(f, e + f.RndSize() - 3, 8 * sig, x, d, 2);
    }
  }

  lemma EightDivides(sig: nat, d: nat)
    requires d <= 3
    ensures ShiftSticky(8 * sig, d) * Pow2(d) == 8 * sig
  {
    Pow2Sixteen();
    Pow2Zero();
    hide *;
    var q := if d == 0 then 8 * sig else if d == 1 then 4 * sig else if d == 2 then 2 * sig else sig;
    ShrUnique(8 * sig, d, q, 0);
    StickyDef(8 * sig, d);
    OrNothing(q);
  }

  /** The sum or difference of the aligned mantissas rounds like the exact one. */
  lemma AlignedSum(f: Format, ea: int, sa: nat, eb: int, sb: nat, xa: real, xb: real)
    requires f.Valid() && eb <= ea && sa < 2 * Pow2(f.mantSize) && sb < 2 * Pow2(f.mantSize)
    requires xa == sa as real * Ulp(f, ea) && xb == sb as real * Ulp(f, eb)
    requires if ea == eb then sb <= sa else sa >= Pow2(f.mantSize)
    ensures var b := ShiftSticky(8 * sb, ea - eb);
      && b <= 8 * sa
      && 8 * sa + b < Pow2(f.Size() - 1)
      && Faithful(f, ea + f.RndSize() - 3, 8 * sa + b, xa + xb, 0)
      && Faithful(f, ea + f.RndSize() - 3, 8 * sa - b, xa - xb, 0)
  {
    hide *;
    var d, n := ea - eb, Pow2(f.mantSize);
    var b, e := ShiftSticky(8 * sb, d), ea + f.RndSize() - 3;
    ShiftedSmall(sb, d, n);
    SumBound(f);
    Aligned(f, ea, sa, 0, xa);
    Aligned(f, eb, sb, d, xb);
    ShiftZero(8 * sa);
    if d <= 3 {
      RepresentsSum(f, e, 8 * sa, xa, b, xb, 8 * sa, 1);
      IntroFaithful(f, e, 8 * sa + b, xa + xb, 0, 0);
      IntroFaithful(f, e, 8 * sa - b, xa - xb, 0, 0);
    } else {
      RepresentsSum(f, e, 8 * sa, xa, b, xb, 4 * sa, 2);
      IntroFaithful(f, e, 8 * sa + b, xa + xb, 0, 1);
      IntroFaithful(f, e, 8 * sa - b, xa - xb, 0, 1);
    }
  }

  lemma ShiftZero(a: nat)
    ensures ShiftSticky(a, 0) == a
  {
    hide *;
    Pow2Zero();
    ShrUnique(a, 0, a, 0);
    StickyDef(a, 0);
    OrNothing(a);
  }

  lemma SumBound(f: Format)
    requires f.Valid()
    ensures 32 * Pow2(f.mantSize) <= Pow2(f.Size() - 1)
    ensures Pow2(f.mantSize + 2) == 4 * Pow2(f.mantSize)
    ensures Pow2(0) == 1 && Pow2(1) == 2
  {
    Pow2Le(f.mantSize + 5, f.Size() - 1);
    Pow2Add(f.mantSize, 5);
  }

  /** The finite case of add_sf, with the operand of larger magnitude first. */
  method AddFinite(f: Format, a: nat, b: nat, rm: RoundingMode, fl: Flags) returns (r: nat, fl': Flags)
    requires f.Valid() && f.IsBits(a) && f.IsBits(b) && f.IsFinite(a) && f.IsFinite(b) && f.Mag(b) <= f.Mag(a)
    ensures Rounded(f, rm, f.Value(a) + f.Value(b), ZeroSumSign(rm, f.Negative(a), f.Negative(b)), r, fl, fl')
  {
    hide *;
    var aSign, bSign, aExp, bExp := f.Negative(a), f.Negative(b), f.Exp(a), f.Exp(b);
    var aMant, bMant := f.Mant(a) * 8, f.Mant(b) * 8;
    HiddenBit(f);
    ScaledOperand(f, a);
    ScaledOperand(f, b);
    OperandSum(f, a, b);
    if aExp == 0 {
      aExp := 1;
    } else {
      aMant := aMant + Pow2(f.mantSize + 3);
    }
    if bExp == 0 {
      bExp := 1;
    } else {
      bMant := bMant + Pow2(f.mantSize + 3);
    }
    bMant := RShiftRnd(f, bMant, aExp - bExp);
    if aSign == bSign {
      aMant := aMant + bMant;
    } else {
      aMant := aMant - bMant;
      if aMant == 0 {
        aSign := rm == RDN;
      }
    }
    aExp := aExp + f.RndSize() - 3;
    r, fl' := Normalize(f, aSign, aExp, aMant, rm, fl);
    SumRounded(f, a, b, rm, aExp, aMant, aSign, r, fl, fl');
  }

  /** Exponent and eightfold significand as the code builds them. */
  lemma ScaledOperand(f: Format, a: nat)
    requires f.Valid() && f.IsBits(a) && f.IsFinite(a)
    ensures ExpOf(f, a) == if f.Exp(a) == 0 then 1 else f.Exp(a)
    ensures 8 * SigOf(f, a) == f.Mant(a) * 8 + if f.Exp(a) == 0 then 0 else Pow2(f.mantSize + 3)
    ensures 8 * SigOf(f, a) < Pow2(f.Size())
  {
    hide *;
    OperandDef(f, a);
    HiddenBit(f);
    Decode(f, a);
  }

  lemma OperandSum(f: Format, a: nat, b: nat)
    requires f.Valid() && f.IsBits(a) && f.IsBits(b) && f.IsFinite(a) && f.IsFinite(b) && f.Mag(b) <= f.Mag(a)
    ensures var xa, xb, e := f.MagValue(f.Mag(a)), f.MagValue(f.Mag(b)), ExpOf(f, a) + f.RndSize() - 3;
      && ExpOf(f, b) <= ExpOf(f, a)
      && var m, n := 8 * SigOf(f, a), ShiftSticky(8 * SigOf(f, b), ExpOf(f, a) - ExpOf(f, b));
      && n <= m && m + n < Pow2(f.Size() - 1)
      && Faithful(f, e, m + n, xa + xb, 0)
      && Faithful(f, e, m - n, xa - xb, 0)
  {
    hide *;
    MagOrder(f, a, b);
    DecodeValue(f, a);
    DecodeValue(f, b);
    AlignedSum(f, ExpOf(f, a), SigOf(f, a), ExpOf(f, b), SigOf(f, b), f.MagValue(f.Mag(a)), f.MagValue(f.Mag(b)));
  }

  lemma HiddenBit(f: Format)
    requires f.Valid()
    ensures Pow2(f.mantSize + 3) == 8 * Pow2(f.mantSize)
    ensures 16 * Pow2(f.mantSize) <= Pow2(f.Size())
  {
    SumBound(f);
    Pow2Add(f.mantSize, 3);
    assert Pow2(3) == 8;
  }

  lemma SumRounded(f: Format, a: nat, b: nat, rm: RoundingMode, exp: int, mant: nat, sign: bool,
                   r: nat, fl: Flags, fl': Flags)
    requires f.Valid() && f.IsBits(a) && f.IsBits(b) && f.IsFinite(a) && f.IsFinite(b) && f.Mag(b) <= f.Mag(a)
    requires var xa, xb := f.MagValue(f.Mag(a)), f.MagValue(f.Mag(b));
      Faithful(f, exp, mant, if f.Negative(a) == f.Negative(b) then xa + xb else xa - xb, 0)
    requires sign == if f.Negative(a) != f.Negative(b) && mant == 0 then rm == RDN else f.Negative(a)
    requires mant == 0 ==> r == f.Bits(sign, 0) && fl' == fl
    requires forall x: real | Faithful(f, exp, mant, x, 0) :: RoundedMagnitude(f, rm, sign, x, r, fl, fl')
    ensures Rounded(f, rm, f.Value(a) + f.Value(b), ZeroSumSign(rm, f.Negative(a), f.Negative(b)), r, fl, fl')
  {
    hide *;
    var xa, xb := f.MagValue(f.Mag(a)), f.MagValue(f.Mag(b));
    var x := if f.Negative(a) == f.Negative(b) then xa + xb else xa - xb;
    FaithfulZero(f, exp, mant, x, 0);
    ValueDef(f, a);
    ValueDef(f, b);
    ZeroSumSignDef(rm, f.Negative(a), f.Negative(b));
    SignedRounding(f, rm, f.Value(a) + f.Value(b), f.Negative(a), x, ZeroSumSign(rm, f.Negative(a), f.Negative(b)), r, fl, fl');
  }

  lemma ZeroSumSignDef(rm: RoundingMode, a: bool, b: bool)
    ensures ZeroSumSign(rm, a, b) == if a == b then a else rm == RDN
  {
  }

  /** The quiet bit of the mantissa, which add_sf tests three places further up. */
  lemma QuietBit(f: Format, a: nat)
    requires f.Valid() && f.IsBits(a) && f.IsNaN(a)
    ensures Shr(f.Mant(a) * 8, f.mantSize + 2) == 0 <==> f.IsSignaling(a)
  {
    hide *;
    var n := f.mantSize + 2;
    Classes(f, a);
    HalfMant(f);
    ShrParts(f.Mant(a) * 8, n);
    CompareQuotient(f.Mant(a) * 8, Pow2(n), Shr(f.Mant(a) * 8, n), Low(f.Mant(a) * 8, n), 1);
  }

  lemma HalfMant(f: Format)
    requires f.Valid()
    ensures Pow2(f.mantSize + 2) == 8 * (Pow2(f.mantSize) / 2)
  {
    Pow2Add(f.mantSize, 2);
    Pow2Double(f.mantSize);
    assert Pow2(2) == 4;
  }

  lemma SumSpecial(f: Format, a: nat, b: nat, rm: RoundingMode, r: nat, fl: Flags, fl': Flags)
    requires f.Valid()
    requires !f.IsFinite(a) || !f.IsFinite(b) ==>
      if f.IsNaN(a) || f.IsNaN(b) then
        r == f.QNaN() && fl' == fl.Or(if f.IsSignaling(a) || f.IsSignaling(b) then Invalid else NoFlags)
      else if f.IsInf(a) && f.IsInf(b) && f.Negative(a) != f.Negative(b) then
        r == f.QNaN() && fl' == fl.Or(Invalid)
      else r == (if f.IsInf(a) then a else b) && fl' == fl
    requires f.IsFinite(a) && f.IsFinite(b) ==>
      Rounded(f, rm, f.Value(a) + f.Value(b), ZeroSumSign(rm, f.Negative(a), f.Negative(b)), r, fl, fl')
    ensures Sum(f, a, b, rm, r, fl, fl')
  {
    Classes(f, a);
    Classes(f, b);
    hide f.Mag, f.Value, f.Negative, f.QNaN, Rounded, f.InfMag;
  }

  /** add_sf */
  method Add(f: Format, a0: nat, b0: nat, rm: RoundingMode, fl: Flags) returns (r: nat, fl': Flags)
    requires f.Valid() && f.IsBits(a0) && f.IsBits(b0)
    ensures Sum(f, a0, b0, rm, r, fl, fl')
  {
    hide *;
    var a, b := a0, b0;
    if f.Mag(a) < f.Mag(b) {
      a, b := b, a;
    }
    fl' := fl;
    ClassOfFields(f, a);
    ClassOfFields(f, b);
    Classes(f, a);
    Classes(f, b);
    NanBits(f, b);
    OrFlags(fl);
    if f.Exp(a) == f.ExpMask() {
      var aMant := f.Mant(a) * 8;
      if aMant != 0 {
        QuietBit(f, a);
        if Shr(aMant, f.mantSize + 2) == 0 || IsSigNanBits(f, b) {
          fl' := fl'.(invalid := true);
        }
        r := f.QNaN();
      } else if f.Exp(b) == f.ExpMask() && f.Negative(a) != f.Negative(b) {
        fl' := fl'.(invalid := true);
        r := f.QNaN();
      } else {
        r := a;
      }
    } else {
      r, fl' := AddFinite(f, a, b, rm, fl);
    }
    SumSpecial(f, a, b, rm, r, fl, fl');
    if f.Mag(a0) < f.Mag(b0) {
      SumCommutes(f, a0, b0, rm, r, fl, fl');
    }
  }

  /** sub_sf flips the sign bit of b. */
  method Sub(f: Format, a: nat, b: nat, rm: RoundingMode, fl: Flags) returns (r: nat, fl': Flags)
    requires f.Valid() && f.IsBits(a) && f.IsBits(b)
    ensures Sum(f, a, f.Bits(!f.Negative(b), f.Mag(b)), rm, r, fl, fl')
    ensures f.IsFinite(a) && f.IsFinite(b) && f.Value(a) != f.Value(b) ==>
      Rounded(f, rm, f.Value(a) - f.Value(b), false, r, fl, fl')
  {
    hide *;
    var nb := f.Bits(!f.Negative(b), f.Mag(b));
    Negate(f, b);
    r, fl' := Add(f, a, nb, rm, fl);
    SumOfFinite(f, a, nb, rm, r, fl, fl');
  }

  lemma Negate(f: Format, b: nat)
    requires f.Valid() && f.IsBits(b)
    ensures var nb := f.Bits(!f.Negative(b), f.Mag(b));
      f.IsBits(nb) && f.Mag(nb) == f.Mag(b) && f.Value(nb) == -f.Value(b) && (f.IsFinite(nb) <==> f.IsFinite(b))
  {
    hide *;
    var nb := f.Bits(!f.Negative(b), f.Mag(b));
    SizeIs(f);
    MagParts(f, b);
    FieldsDef(f, b);
    FieldsDef(f, nb);
    IsBitsDef(f, b);
    IsBitsDef(f, nb);
    Pow2Double(f.Size());
    ShrUnique(nb, f.Size() - 1, if f.Negative(b) then 0 else 1, f.Mag(b));
    ValueDef(f, b);
    ValueDef(f, nb);
    Classes(f, b);
    Classes(f, nb);
  }

  lemma SumOfFinite(f: Format, a: nat, b: nat, rm: RoundingMode, r: nat, fl: Flags, fl': Flags)
    requires f.Valid() && Sum(f, a, b, rm, r, fl, fl')
    ensures f.IsFinite(a) && f.IsFinite(b) && f.Value(a) + f.Value(b) != 0.0 ==>
      Rounded(f, rm, f.Value(a) + f.Value(b), false, r, fl, fl')
  {
    Classes(f, a);
    Classes(f, b);
    hide f.Mag, f.Value, f.Negative, f.QNaN, f.InfMag, RoundedMagnitude;
  }
}
