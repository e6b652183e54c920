/** Taking floats apart: fields, special values, significand and exponent. */
module Operands {
  import opened Powers
  import opened Ieee754
  import opened Sticky
  import opened RoundingKernel
  import opened Normalization

  /** The exponent field, with subnormals at exponent 1. */
  function ExpOf(f: Format, a: nat): (e: nat)
    ensures e >= 1
  {
    if f.Exp(a) == 0 then 1 else f.Exp(a)
  }

  /** The mantissa field with its hidden bit. */
  function SigOf(f: Format, a: nat): nat {
    if f.Exp(a) == 0 then f.Mant(a) else f.Mant(a) + Pow2(f.mantSize)
  }

  /** isnan_sf */
  predicate IsNanBits(f: Format, a: nat)
    requires f.Valid()
  {
    f.Exp(a) == f.ExpMask() && f.Mant(a) != 0
  }

  /** issignan_sf: the quiet bit, the top bit of the mantissa, is clear. */
  predicate IsSigNanBits(f: Format, a: nat)
    requires f.Valid()
  {
    f.Exp(a) == f.ExpMask() && Shr(f.Mant(a), f.mantSize - 1) == 0 && f.Mant(a) != 0
  }

  lemma MagParts(f: Format, a: nat)
    requires f.Valid() && f.IsBits(a)
    ensures f.Mag(a) == f.Exp(a) * Pow2(f.mantSize) + f.Mant(a) && f.Mant(a) < Pow2(f.mantSize)
    ensures f.Exp(a) <= f.ExpMask()
    ensures a == f.Bits(f.Negative(a), f.Mag(a)) && f.Mag(a) < Pow2(f.Size() - 1)
  {
    hide *;
    SizeIs(f);
    FieldsDef(f, a);
    IsBitsDef(f, a);
    ShrParts(f.Mag(a), f.mantSize);
    Pow2Add(f.mantSize, f.expSize);
    CompareQuotient(f.Mag(a), Pow2(f.mantSize), f.Exp(a), f.Mant(a), Pow2(f.expSize));
    MulCommutes(Pow2(f.mantSize), Pow2(f.expSize));
    Pow2Double(f.Size());
    if f.Negative(a) {
      ShrUnique(a, f.Size() - 1, 1, a - Pow2(f.Size() - 1));
    } else {
      ShrUnique(a, f.Size() - 1, 0, a);
    }
  }

  lemma FieldsDef(f: Format, a: nat)
    requires f.Valid()
    ensures f.Mag(a) == Low(a, f.Size() - 1) && f.Exp(a) == Shr(f.Mag(a), f.mantSize) && f.Mant(a) == Low(f.Mag(a), f.mantSize)
    ensures f.Negative(a) <==> a >= Pow2(f.Size() - 1)
    ensures forall s: bool, m: nat {:trigger f.Bits(s, m)} :: f.Bits(s, m) == (if s then Pow2(f.Size() - 1) else 0) + m
    ensures f.Size() == f.mantSize + f.expSize + 1 && f.ExpMask() == Pow2(f.expSize) - 1
  {
  }

  lemma InfMagDef(f: Format)
    requires f.Valid()
    ensures f.InfMag() == f.ExpMask() * Pow2(f.mantSize)
  {
  }

  lemma Classes(f: Format, a: nat)
    ensures f.Valid() ==> (f.IsNaN(a) <==> f.Mag(a) > f.InfMag())
    ensures f.Valid() ==> (f.IsInf(a) <==> f.Mag(a) == f.InfMag())
    ensures f.Valid() ==> (f.IsFinite(a) <==> f.Mag(a) < f.InfMag())
    ensures f.IsZero(a) <==> f.Mag(a) == 0
    ensures f.Valid() ==> (f.IsSignaling(a) <==> f.IsNaN(a) && f.Mant(a) < Pow2(f.mantSize) / 2)
  {
  }

  /** The special values, told from the fields. */
  lemma ClassOfFields(f: Format, a: nat)
    requires f.Valid() && f.IsBits(a)
    ensures f.IsNaN(a) <==> f.Exp(a) == f.ExpMask() && f.Mant(a) != 0
    ensures f.IsInf(a) <==> f.Exp(a) == f.ExpMask() && f.Mant(a) == 0
    ensures f.IsFinite(a) <==> f.Exp(a) != f.ExpMask()
    ensures f.IsZero(a) <==> f.Exp(a) == 0 && f.Mant(a) == 0
  {
    hide *;
    MagParts(f, a);
    InfMagDef(f);
    Classes(f, a);
    FieldOrder(f.Exp(a), f.Mant(a), Pow2(f.mantSize), f.ExpMask());
    ZeroSum(f.Exp(a), Pow2(f.mantSize), f.Mant(a));
  }

  lemma NanBits(f: Format, a: nat)
    requires f.Valid() && f.IsBits(a)
    ensures IsNanBits(f, a) == f.IsNaN(a)
    ensures IsSigNanBits(f, a) == f.IsSignaling(a)
  {
    ClassOfFields(f, a);
    var n := f.mantSize - 1;
    Pow2Even(f.mantSize);
    ShrParts(f.Mant(a), n);
    hide f.Exp, f.Mant, Shr, Low, f.ExpMask;
    CompareQuotient(f.Mant(a), Pow2(n), Shr(f.Mant(a), n), Low(f.Mant(a), n), 1);
  }

  /** A finite float is its significand times the unit at its exponent. */
  lemma Decode(f: Format, a: nat)
    requires f.Valid() && f.IsBits(a) && f.IsFinite(a)
    ensures SigOf(f, a) < 2 * Pow2(f.mantSize) && (ExpOf(f, a) == 1 || SigOf(f, a) >= Pow2(f.mantSize))
    ensures ExpOf(f, a) < f.ExpMask()
    ensures f.Mag(a) == (ExpOf(f, a) - 1) * Pow2(f.mantSize) + SigOf(f, a)
    ensures f.MagValue(f.Mag(a)) == SigOf(f, a) as real * Ulp(f, ExpOf(f, a))
  {
    hide *;
    MagParts(f, a);
    ClassOfFields(f, a);
    OperandDef(f, a);
    ExpMaskLarge(f);
    MulDiff(f.Exp(a), 1, Pow2(f.mantSize));
    ValueAt(f, ExpOf(f, a), SigOf(f, a));
  }

  lemma DecodeValue(f: Format, a: nat)
    requires f.Valid() && f.IsBits(a) && f.IsFinite(a)
    ensures SigOf(f, a) < 2 * Pow2(f.mantSize)
    ensures f.MagValue(f.Mag(a)) == SigOf(f, a) as real * Ulp(f, ExpOf(f, a))
  {
    hide *;
    Decode(f, a);
  }

  lemma ExpMaskLarge(f: Format)
    requires f.Valid()
    ensures f.ExpMask() >= 31
  {
  }

  lemma OperandDef(f: Format, a: nat)
    ensures ExpOf(f, a) == if f.Exp(a) == 0 then 1 else f.Exp(a)
    ensures SigOf(f, a) == if f.Exp(a) == 0 then f.Mant(a) else f.Mant(a) + Pow2(f.mantSize)
  {
  }

  /** Magnitudes are ordered by exponent, then by significand. */
  lemma MagOrder(f: Format, a: nat, b: nat)
    requires f.Valid() && f.IsBits(a) && f.IsFinite(a) && f.IsBits(b) && f.IsFinite(b) && f.Mag(b) <= f.Mag(a)
    ensures ExpOf(f, b) <= ExpOf(f, a)
    ensures ExpOf(f, b) == ExpOf(f, a) ==> SigOf(f, b) <= SigOf(f, a)
    ensures ExpOf(f, b) < ExpOf(f, a) ==> SigOf(f, a) >= Pow2(f.mantSize)
    ensures f.MagValue(f.Mag(b)) <= f.MagValue(f.Mag(a))
  {
    hide *;
    Decode(f, a);
    Decode(f, b);
    MagValueLe(f, f.Mag(b), f.Mag(a));
    if ExpOf(f, b) > ExpOf(f, a) {
      MulMono(ExpOf(f, a), ExpOf(f, b) - 1, Pow2(f.mantSize));
      MulDiff(ExpOf(f, a), 1, Pow2(f.mantSize));
    }
  }

  lemma ValueDef(f: Format, a: nat)
    requires f.Valid()
    ensures f.Value(a) == if f.Negative(a) then -f.MagValue(f.Mag(a)) else f.MagValue(f.Mag(a))
  {
  }

  lemma ValueOfZero(f: Format, a: nat)
    requires f.Valid() && f.IsBits(a) && f.IsFinite(a)
    ensures f.Value(a) == 0.0 <==> f.IsZero(a)
    ensures f.MagValue(f.Mag(a)) >= 0.0
    ensures f.MagValue(f.Mag(a)) == 0.0 <==> f.IsZero(a)
  {
    hide *;
    ValueDef(f, a);
    Classes(f, a);
    RungZero(f);
    if f.Mag(a) > 0 {
      MagValueLt(f, 0, f.Mag(a));
    }
  }

  /** The signed rounding, from the rounding of the magnitude. */
  lemma SignedRounding(f: Format, rm: RoundingMode, v: real, negative: bool, x: real, zeroSign: bool,
                       r: nat, fl: Flags, fl': Flags)
    requires f.Valid() && x >= 0.0 && v == (if negative then -x else x)
    requires x == 0.0 ==> r == f.Bits(zeroSign, 0) && fl' == fl
    requires x > 0.0 ==> RoundedMagnitude(f, rm, negative, x, r, fl, fl')
    ensures Rounded(f, rm, v, zeroSign, r, fl, fl')
  {
  }

  // Normalized significands

  /** The magnitude of a as a significand with its top bit in place; the exponent may be below 1. */
  ghost predicate Normalized(f: Format, a: nat, e: int, s: nat)
    requires f.Valid()
  {
    && Pow2(f.mantSize) <= s < 2 * Pow2(f.mantSize)
    && f.MagValue(f.Mag(a)) == s as real * Ulp(f, e)
  }

  lemma NormalizedDef(f: Format, a: nat, e: int, s: nat)
    requires f.Valid()
    ensures Normalized(f, a, e, s) <==>
      Pow2(f.mantSize) <= s < 2 * Pow2(f.mantSize) && f.MagValue(f.Mag(a)) == s as real * Ulp(f, e)
  {
  }

  lemma UlpShift(f: Format, e: int, t: nat, k: nat)
    requires f.Valid()
    ensures t as real * Ulp(f, e) == (t * Pow2(k)) as real * Ulp(f, e - k)
  {
    hide *;
    UlpDef(f, e);
    UlpDef(f, e - k);
    UlpStep(f, e, k);
    P2AddNat(k, e - k - 1 + f.MinExp());
    RealMul(t, Pow2(k));
    Reassociate((t * Pow2(k)) as real, t as real, Pow2(k) as real, Ulp(f, e - k), Ulp(f, e));
  }

  lemma UlpStep(f: Format, e: int, k: int)
    requires f.Valid()
    ensures k + (e - k - 1 + f.MinExp()) == e - 1 + f.MinExp()
  {
  }

  /** normalize_subnormal_sf */
  method NormalizeSubnormal(f: Format, mant: nat) returns (exp: int, m: nat)
    requires f.Valid() && 0 < mant < Pow2(f.mantSize)
    ensures exp <= 1 && Pow2(f.mantSize) <= m < 2 * Pow2(f.mantSize)
    ensures mant as real * Ulp(f, 1) == m as real * Ulp(f, exp)
  {
    hide *;
    SizeIs(f);
    Pow2Le(f.mantSize, f.Size());
    IsBitsDef(f, mant);
    ClzDef(f, mant);
    BitLenLe(mant, f.mantSize);
    var shift := f.mantSize - (f.Size() - 1 - LeadingZeros(f, mant));
    exp := 1 - shift;
    m := ShiftLeft(f, mant, shift);
    TopBitShift(mant, f.mantSize + 1, shift);
    Pow2Double(f.mantSize + 1);
    Pow2Le(f.mantSize + 1, f.Size());
    LowSmall(mant * Pow2(shift), f.Size());
    ShiftLeftDef(f, mant, shift);
    UlpShift(f, 1, mant, shift);
  }

  /** The three lines with which every operation prepares a finite nonzero operand. */
  method Prepare(f: Format, a: nat) returns (exp: int, m: nat)
    requires f.Valid() && f.IsBits(a) && f.IsFinite(a) && !f.IsZero(a)
    ensures Normalized(f, a, exp, m)
  {
    hide *;
    ClassOfFields(f, a);
    OperandDef(f, a);
    Decode(f, a);
    MagParts(f, a);
    exp, m := f.Exp(a), f.Mant(a);
    if exp == 0 {
      exp, m := NormalizeSubnormal(f, m);
    } else {
      m := m + Pow2(f.mantSize);
    }
    NormalizedDef(f, a, exp, m);
  }

  /** A product of two scaled integers. */
  lemma ProductRepresents(f: Format, exp: int, a: nat, p: int, xa: real, b: nat, q: int, xb: real, ab: nat, x: real)
    requires f.Valid() && xa == a as real * P2(p) && xb == b as real * P2(q) && LastBitExp(f, exp) == p + q
    requires ab == a * b && x == xa * xb
    ensures Represents(f, exp, ab, x, 1)
  {
    hide *;
    P2Add(p, q);
    ProductOfScaled(a, P2(p), xa, b, P2(q), xb, P2(p + q), ab, x);
    AgreeExact(ab, 1);
    IntroRepresents(f, exp, ab, x, 1, ab as real);
  }

  lemma ProductOfScaled(a: nat, p: real, xa: real, b: nat, q: real, xb: real, pq: real, ab: nat, x: real)
    requires xa == a as real * p && xb == b as real * q && pq == p * q && ab == a * b && x == xa * xb
    ensures x == ab as real * pq
  {
    RealMul(a, b);
    FourFactors(a as real, p, b as real, q);
  }

  lemma FourFactors(a: real, p: real, b: real, q: real)
    ensures (a * p) * (b * q) == (a * b) * (p * q)
  {
    assert (a * p) * (b * q) == a * (p * (b * q));
    assert p * (b * q) == b * (p * q);
  }

  /** A normalized operand shifted k places left. */
  lemma ShiftedOperand(f: Format, a: nat, e: int, s: nat, k: nat)
    requires f.Valid() && Normalized(f, a, e, s)
    ensures f.MagValue(f.Mag(a)) == (s * Pow2(k)) as real * P2(e - k - 1 + f.MinExp())
  {
    hide *;
    NormalizedDef(f, a, e, s);
    UlpShift(f, e, s, k);
    UlpDef(f, e - k);
  }

  lemma OrFlags(fl: Flags)
    ensures fl.Or(NoFlags) == fl && fl.Or(Invalid) == fl.(invalid := true) && fl.Or(DivideByZero) == fl.(divideByZero := true)
  {
  }

  lemma FormatSizes(f: Format)
    requires f.Valid()
    ensures f.expSize == f.RndSize() + 1 && f.mantSize >= 2
  {
  }

  lemma RoundedZeroValue(f: Format, rm: RoundingMode, v: real, sign: bool, r: nat, fl: Flags)
    requires f.Valid() && v == 0.0 && r == f.Bits(sign, 0)
    ensures Rounded(f, rm, v, sign, r, fl, fl)
  {
  }

  lemma SignsOfProduct(x: real, y: real)
    ensures (-x) * y == -(x * y) && x * (-y) == -(x * y) && (-x) * (-y) == x * y
  {
  }

  lemma PositiveProduct(x: real, y: real)
    requires x >= 0.0 && y >= 0.0
    ensures x * y >= 0.0
    ensures x * y == 0.0 <==> x == 0.0 || y == 0.0
  {
  }

  lemma ZeroFactor(x: real, y: real)
    requires x == 0.0 || y == 0.0
    ensures x * y == 0.0
  {
  }

  lemma MinExpDef(f: Format)
    requires f.Valid()
    ensures f.MinExp() == 1 - f.Bias() - f.mantSize && f.Bias() >= 15
  {
    Pow2Le(4, f.expSize - 1);
    assert Pow2(4) == 16;
  }

  lemma ExactResult(f: Format, rm: RoundingMode, c: nat, zeroSign: bool, fl: Flags)
    requires f.Valid() && f.IsBits(c) && f.IsFinite(c)
    requires f.IsZero(c) ==> zeroSign == f.Negative(c)
    ensures Rounded(f, rm, f.Value(c), zeroSign, c, fl, fl)
  {
    hide *;
    var x := f.MagValue(f.Mag(c));
    MagParts(f, c);
    Classes(f, c);
    ValueDef(f, c);
    ValueOfZero(f, c);
    MagValueLt(f, f.Mag(c), f.Mag(c) + 1);
    NeverUp(rm, f.Negative(c), f.Mag(c) % 2 == 1, x, f.MagValue(f.Mag(c) + 1));
    ChooseRung(f, rm, f.Negative(c), x, f.Mag(c), f.Mag(c) % 2 == 1, false, true);
    FlagsOr(fl, fl, false, false, false);
    IntroRounded(f, rm, f.Negative(c), x, f.Mag(c), fl, fl);
    DeliverFinite(f, rm, f.Negative(c), f.Mag(c));
    SignedRounding(f, rm, f.Value(c), f.Negative(c), x, zeroSign, c, fl, fl);
  }

  lemma NeverUp(rm: RoundingMode, negative: bool, odd: bool, x: real, hi: real)
    ensures !RoundsUp(rm, negative, odd, x, x, hi)
  {
  }
}
