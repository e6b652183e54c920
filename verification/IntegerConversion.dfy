/** Conversions between floats and n-bit integers. */
module IntegerConversion {
  import opened Powers
  import opened Ieee754
  import opened Sticky
  import opened RoundingKernel
  import opened Normalization
  import opened Operands

  /** The range of the target type. */
  function MinInt(n: nat, unsigned: bool): int
    requires n >= 1
  {
    if unsigned then 0 else 0 - Pow2(n - 1)
  }

  function MaxInt(n: nat, unsigned: bool): int
    requires n >= 1
  {
    if unsigned then Pow2(n) - 1 else Pow2(n - 1) - 1
  }

  predicate InRange(n: nat, unsigned: bool, v: int)
    requires n >= 1
  {
    if unsigned then 0 <= v < Pow2(n) else 0 - Pow2(n - 1) <= v < Pow2(n - 1)
  }

  // From integers

  /** internal_cvt_i: every n-bit integer becomes its correctly rounded float. */
  method IntToFloat(f: Format, n: nat, unsigned: bool, a: int, rm: RoundingMode, fl: Flags) returns (r: nat, fl': Flags)
    requires f.Valid() && n >= 1 && InRange(n, unsigned, a)
    ensures Rounded(f, rm, a as real, false, r, fl, fl')
  {
    hide *;
    SizeIs(f);
    var aSign := !unsigned && a < 0;
    var m: nat := MagnitudeOf(n, unsigned, a);
    var aExp := f.Bias() + f.Size() - 2;
    IntegerAtUnit(f, m);
    var l := BitLen(m) - (f.Size() - 1);
    if l > 0 {
      LongInteger(f, m, l);
      m := OrBit(Shr(m, l), Low(m, l) != 0);
      aExp := aExp + l;
    } else {
      ShortInteger(f, m);
    }
    r, fl' := Normalize(f, aSign, aExp, m, rm, fl);
    IntegerRounded(f, n, unsigned, a, rm, aExp, m, r, fl, fl');
  }

  /** The sign test and negation at the start of internal_cvt_i. */
  function MagnitudeOf(n: nat, unsigned: bool, a: int): (m: nat)
    requires n >= 1 && InRange(n, unsigned, a)
    ensures m as int == if a < 0 then -a else a
    ensures (!unsigned && a < 0) <==> a < 0
  {
    if !unsigned && a < 0 then -a else a
  }

  lemma IntegerAtUnit(f: Format, m: nat)
    requires f.Valid()
    ensures Represents(f, f.Bias() + f.Size() - 2, m, m as real, 1)
  {
    hide *;
    UnitExponent(f);
    Pow2Zero();
    P2Nat(0);
    AgreeExact(m, 1);
    IntroRepresents(f, f.Bias() + f.Size() - 2, m, m as real, 1, m as real);
  }

  lemma UnitExponent(f: Format)
    requires f.Valid()
    ensures LastBitExp(f, f.Bias() + f.Size() - 2) == 0
  {
  }

  lemma ShortInteger(f: Format, m: nat)
    requires f.Valid() && BitLen(m) <= f.Size() - 1 && Represents(f, f.Bias() + f.Size() - 2, m, m as real, 1)
    ensures m < Pow2(f.Size() - 1) && Faithful(f, f.Bias() + f.Size() - 2, m, m as real, 0)
  {
    hide *;
    SizeIs(f);
    BitLenLe(m, f.Size() - 1);
    Pow2Zero();
    IntroFaithful(f, f.Bias() + f.Size() - 2, m, m as real, 0, 0);
  }

  lemma LongInteger(f: Format, m: nat, l: nat)
    requires f.Valid() && l > 0 && BitLen(m) == f.Size() - 1 + l && Represents(f, f.Bias() + f.Size() - 2, m, m as real, 1)
    ensures var s := OrBit(Shr(m, l), Low(m, l) != 0);
      s < Pow2(f.Size() - 1) && Faithful(f, f.Bias() + f.Size() - 2 + l, s, m as real, 0)
  {
    hide *;
    SizeIs(f);
    var e, s := f.Bias() + f.Size() - 2, OrBit(Shr(m, l), Low(m, l) != 0);
    MulAtLeast(2, Pow2(l));
    MulCommutes(2, Pow2(l));
    ExactRepresents(f, e, m, m as real, Pow2(l) * 2);
    RepresentsShiftedOn(f, e, m, m as real, l, 2);
    StickyDef(m, l);
    BitLenBounds(m);
    Pow2Add(f.Size() - 1, l);
    Pow2Add(f.Size() - 2, l);
    ShrParts(m, l);
    CompareQuotient(m, Pow2(l), Shr(m, l), Low(m, l), Pow2(f.Size() - 1));
    CompareQuotient(m, Pow2(l), Shr(m, l), Low(m, l), Pow2(f.Size() - 2));
    Pow2Double(f.Size() - 1);
    StickyBelowEven(Shr(m, l), Low(m, l) != 0, Pow2(f.Size() - 2));
    OrBitRange(Shr(m, l), Low(m, l) != 0);
    Pow2Zero();
    Pow2Le(f.mantSize + 2, f.Size() - 2);
    IntroFaithful(f, e + l, s, m as real, 0, 1);
  }

  lemma IntegerRounded(f: Format, n: nat, unsigned: bool, a: int, rm: RoundingMode, exp: int, m: nat,
                       r: nat, fl: Flags, fl': Flags)
    requires f.Valid() && n >= 1 && InRange(n, unsigned, a)
    requires Faithful(f, exp, m, MagnitudeOf(n, unsigned, a) as real, 0)
    requires m == 0 ==> r == f.Bits(!unsigned && a < 0, 0) && fl' == fl
    requires forall x: real | Faithful(f, exp, m, x, 0) ::
      RoundedMagnitude(f, rm, !unsigned && a < 0, x, r, fl, fl')
    ensures Rounded(f, rm, a as real, false, r, fl, fl')
  {
    hide *;
    var x := MagnitudeOf(n, unsigned, a) as real;
    FaithfulZero(f, exp, m, x, 0);
    SignedRounding(f, rm, a as real, a < 0, x, false, r, fl, fl');
  }

  // To integers

  /** Section 5.8: k is the magnitude of the integer to which a value of magnitude x rounds. */
  ghost predicate RoundsToInt(rm: RoundingMode, negative: bool, x: real, k: nat) {
    exists q: nat :: IntegerChoice(rm, negative, x, q, k)
  }

  ghost predicate IntegerChoice(rm: RoundingMode, negative: bool, x: real, q: nat, k: nat) {
    && q as real <= x < (q + 1) as real
    && k == if RoundsUp(rm, negative, q % 2 == 1, q as real, x, (q + 1) as real) then q + 1 else q
  }

  lemma RoundsToIntUnique(rm: RoundingMode, negative: bool, x: real, k: nat, k': nat)
    requires RoundsToInt(rm, negative, x, k) && RoundsToInt(rm, negative, x, k')
    ensures k == k'
  {
    hide RoundsUp;
    var q: nat :| IntegerChoice(rm, negative, x, q, k);
    var q': nat :| IntegerChoice(rm, negative, x, q', k');
    assert q == q';
  }

  /** The bound of the type on the side of the sign. */
  function Clamped(n: nat, unsigned: bool, negative: bool): int
    requires n >= 1
  {
    if negative then MinInt(n, unsigned) else MaxInt(n, unsigned)
  }

  const Inexact := NoFlags.(inexact := true)

  /** What the conversion must deliver: round, then clamp; a NaN converts like +infinity. */
  ghost predicate ToInt(f: Format, n: nat, unsigned: bool, a: nat, rm: RoundingMode, r: int, fl: Flags, fl': Flags)
    requires f.Valid() && n >= 1
  {
    var negative := f.Negative(a) && !f.IsNaN(a);
    if f.IsFinite(a) then FiniteConversion(n, unsigned, negative, f.MagValue(f.Mag(a)), rm, r, fl, fl')
    else r == Clamped(n, unsigned, negative) && fl' == fl.Or(Invalid)
  }

  ghost predicate FiniteConversion(n: nat, unsigned: bool, negative: bool, x: real, rm: RoundingMode, r: int, fl: Flags, fl': Flags)
    requires n >= 1
  {
    exists k: nat :: RoundsToInt(rm, negative, x, k) && Converted(n, unsigned, negative, k, x, r, fl, fl')
  }

  ghost predicate Converted(n: nat, unsigned: bool, negative: bool, k: nat, x: real, r: int, fl: Flags, fl': Flags)
    requires n >= 1
  {
    var t := if negative then -(k as int) else k;
    if InRange(n, unsigned, t) then r == t && fl' == fl.Or(if k as real != x then Inexact else NoFlags)
    else r == Clamped(n, unsigned, negative) && fl' == fl.Or(Invalid)
  }

  lemma IntroToInt(f: Format, n: nat, unsigned: bool, a: nat, rm: RoundingMode, k: nat, r: int, fl: Flags, fl': Flags)
    requires f.Valid() && n >= 1 && f.IsFinite(a) && !f.IsNaN(a)
    requires RoundsToInt(rm, f.Negative(a), f.MagValue(f.Mag(a)), k)
    requires Converted(n, unsigned, f.Negative(a), k, f.MagValue(f.Mag(a)), r, fl, fl')
    ensures ToInt(f, n, unsigned, a, rm, r, fl, fl')
  {
    FoundInteger(n, unsigned, f.Negative(a), f.MagValue(f.Mag(a)), rm, k, r, fl, fl');
    hide FiniteConversion, RoundsToInt, Converted, f.MagValue, f.Negative, f.Mag, f.IsNaN, f.IsFinite;
  }

  lemma FoundInteger(n: nat, unsigned: bool, negative: bool, x: real, rm: RoundingMode, k: nat, r: int, fl: Flags, fl': Flags)
    requires n >= 1 && RoundsToInt(rm, negative, x, k) && Converted(n, unsigned, negative, k, x, r, fl, fl')
    ensures FiniteConversion(n, unsigned, negative, x, rm, r, fl, fl')
  {
    hide RoundsToInt, Converted;
  }

  /** r_max: the largest magnitude of the type on the side of the sign. */
  function RMax(n: nat, unsigned: bool, negative: bool): nat
    requires n >= 1
  {
    if unsigned then (if negative then 0 else Pow2(n) - 1)
    else Pow2(n - 1) - if negative then 0 else 1
  }

  lemma RMaxIsBound(n: nat, unsigned: bool, negative: bool, k: nat)
    requires n >= 1
    ensures var t := if negative then -(k as int) else k;
      InRange(n, unsigned, t) <==> k <= RMax(n, unsigned, negative)
    ensures Clamped(n, unsigned, negative) == if negative then -(RMax(n, unsigned, negative) as int) else RMax(n, unsigned, negative)
    ensures RMax(n, unsigned, negative) < Pow2(n)
  {
    Pow2Double(n);
    hide Pow2;
  }

  /** An integer value: nothing to round. */
  lemma WholeValue(rm: RoundingMode, negative: bool, k: nat)
    ensures RoundsToInt(rm, negative, k as real, k)
  {
    assert IntegerChoice(rm, negative, k as real, k, k);
  }

  lemma WholeExponent(f: Format, e: nat, s: nat)
    requires f.Valid() && e >= f.Bias() + f.mantSize
    ensures s as real * Ulp(f, e) == (s * Pow2(e - f.Bias() - f.mantSize)) as real
  {
    hide *;
    UlpDef(f, e);
    MinExpDef(f);
    P2Nat(e - f.Bias() - f.mantSize);
    RealMul(s, Pow2(e - f.Bias() - f.mantSize));
  }

  /** A significand below the point: rounding its sticky shift rounds the value. */
  lemma FractionRounds(f: Format, rm: RoundingMode, negative: bool, e: nat, s: nat, x: real)
    requires f.Valid() && 1 <= e < f.Bias() + f.mantSize && s < 2 * Pow2(f.mantSize) && x == s as real * Ulp(f, e)
    ensures var d := f.Bias() + f.mantSize - e;
      var m := ShiftSticky(s * Pow2(f.RndSize()), d);
      var k := RoundSig(f, rm, negative, m);
      RoundsToInt(rm, negative, x, k) && (k as real == x <==> Low(m, f.RndSize()) == 0)
  {
    hide *;
    var d := f.Bias() + f.mantSize - e;
    var m := ShiftSticky(s * Pow2(f.RndSize()), d);
    var q, low, g := Shr(m, f.RndSize()), Low(m, f.RndSize()), Pow2(f.RndSize());
    var y := x * g as real;
    FractionAgrees(f, e, s, x, y, d);
    ShrParts(m, f.RndSize());
    PlaceInCell(y, x, m, HalfUlp(f), g, q, low);
    UnitScale(q, x);
    PlaceAtScale(rm, negative, x, q, low, HalfUlp(f), 1.0, q as real, x, (q + 1) as real);
    RoundSigSteps(f, rm, negative, m);
    ChooseInteger(rm, negative, x, q, SigRoundsUp(rm, negative, q % 2 == 1, low, HalfUlp(f)), low == 0);
  }

  lemma UnitScale(q: nat, x: real)
    ensures q as real == q as real * 1.0 && x == x * 1.0 && (q + 1) as real == (q + 1) as real * 1.0
  {
  }

  lemma ChooseInteger(rm: RoundingMode, negative: bool, x: real, q: nat, up: bool, exact: bool)
    requires q as real <= x < (q + 1) as real && (exact <==> x == q as real)
    requires RoundsUp(rm, negative, q % 2 == 1, q as real, x, (q + 1) as real) == up
    ensures var k := if up then q + 1 else q;
      RoundsToInt(rm, negative, x, k) && (k as real == x <==> exact)
  {
    var k := if up then q + 1 else q;
    assert IntegerChoice(rm, negative, x, q, k);
  }

  lemma FractionAgrees(f: Format, e: nat, s: nat, x: real, y: real, d: nat)
    requires f.Valid() && e + d == f.Bias() + f.mantSize && x == s as real * Ulp(f, e)
    requires y == x * Pow2(f.RndSize()) as real
    ensures Agree(y, ShiftSticky(s * Pow2(f.RndSize()), d), HalfUlp(f))
  {
    hide *;
    var g, p := Pow2(f.RndSize()), Pow2(d);
    UlpDef(f, e);
    MinExpDef(f);
    P2AddNat(d, 0 - d);
    P2Nat(0);
    Pow2Zero();
    EvenHalf(f);
    MulAtLeast(p, HalfUlp(f));
    AgreeExact(s * g, p * HalfUlp(f));
    FractionScale(x, s, Ulp(f, e), g, p, (s * g) as real, y);
    AgreeShift((s * g) as real, y, s * g, d, HalfUlp(f));
  }

  lemma FractionScale(x: real, s: nat, u: real, g: nat, p: nat, sg: real, xg: real)
    requires x == s as real * u && p as real * u == 1.0 && sg == (s * g) as real && xg == x * g as real
    ensures sg == xg * p as real
  {
    RealMul(s, g);
    assert ((s as real * u) * g as real) * p as real == (s as real * g as real) * (p as real * u);
  }

  lemma OverRange(f: Format, n: nat, e: nat, s: nat)
    requires f.Valid() && n >= 1 && s >= Pow2(f.mantSize) && e >= f.Bias() + f.mantSize
    requires e - f.Bias() - f.mantSize > n - 1 - f.mantSize
    ensures s * Pow2(e - f.Bias() - f.mantSize) >= Pow2(n)
  {
    hide *;
    var d: nat := e - f.Bias() - f.mantSize;
    Pow2Add(f.mantSize, d);
    Pow2Le(n, f.mantSize + d);
    MulMono(Pow2(f.mantSize), s, Pow2(d));
  }

  lemma ConvertedDef(n: nat, unsigned: bool, negative: bool, k: nat, x: real, r: int, fl: Flags, fl': Flags)
    requires n >= 1
    ensures Converted(n, unsigned, negative, k, x, r, fl, fl') <==>
      var t := if negative then -(k as int) else k;
      if InRange(n, unsigned, t) then r == t && fl' == fl.Or(if k as real != x then Inexact else NoFlags)
      else r == Clamped(n, unsigned, negative) && fl' == fl.Or(Invalid)
  {
  }

  lemma OrInexact(fl: Flags)
    ensures fl.Or(Inexact) == fl.(inexact := true)
  {
  }

  /** The finite case of internal_cvt_sf. */
  method FiniteToInt(f: Format, n: nat, unsigned: bool, a: nat, rm: RoundingMode, fl: Flags) returns (r: int, fl': Flags)
    requires f.Valid() && n >= 1 && f.IsBits(a) && f.IsFinite(a) && !f.IsNaN(a)
    ensures ToInt(f, n, unsigned, a, rm, r, fl, fl')
  {
    hide *;
    fl' := fl;
    var negative := f.Negative(a);
    var aExp, aMant := ExpOf(f, a), SigOf(f, a);
    var rMax := RMax(n, unsigned, negative);
    var exp := aExp - f.Bias() - f.mantSize;
    ghost var x := f.MagValue(f.Mag(a));
    Decode(f, a);
    MinExpDef(f);
    OrFlags(fl);
    OrInexact(fl);
    ghost var k;
    if exp >= 0 {
      WholeExponent(f, aExp, aMant);
      k := aMant * Pow2(exp);
      WholeValue(rm, negative, k);
      assert k as real == x;
      assert RoundsToInt(rm, negative, x, k);
      if exp <= n - 1 - f.mantSize {
        r := aMant * Pow2(exp);
        if r > rMax {
          fl' := fl'.(invalid := true);
          r := rMax;
        }
      } else {
        OverRange(f, n, aExp, aMant);
        fl' := fl'.(invalid := true);
        r := rMax;
      }
    } else {
      FractionRounds(f, rm, negative, aExp, aMant, x);
      SigFits(f, aMant);
      var m := RShiftRnd(f, aMant * Pow2(f.RndSize()), -exp);
      var addend := Addend(f, rm, negative);
      var rndBits := Low(m, f.RndSize());
      RoundSigDef(f, rm, negative, m);
      k := RoundSig(f, rm, negative, m);
      assert RoundsToInt(rm, negative, x, k);
      assert k as real == x <==> rndBits == 0;
      m := Shr(m + addend, f.RndSize());
      if rm == RNE && rndBits == HalfUlp(f) {
        m := m - m % 2;
      }
      r := m;
      if m > rMax {
        fl' := fl'.(invalid := true);
        r := rMax;
      } else if rndBits != 0 {
        fl' := fl'.(inexact := true);
      }
    }
    if negative {
      r := -r;
    }
    RMaxIsBound(n, unsigned, negative, k);
    ConvertedDef(n, unsigned, negative, k, x, r, fl, fl');
    IntroToInt(f, n, unsigned, a, rm, k, r, fl, fl');
  }

  lemma SigFits(f: Format, s: nat)
    requires f.Valid() && s < 2 * Pow2(f.mantSize)
    ensures s * Pow2(f.RndSize()) < Pow2(f.Size())
  {
    hide *;
    SizeIs(f);
    Pow2Double(f.mantSize + 1);
    Pow2Add(f.mantSize + 1, f.RndSize());
    Pow2Le(f.mantSize + 1 + f.RndSize(), f.Size());
    MulMono(s, Pow2(f.mantSize + 1), Pow2(f.RndSize()));
    MulDiff(Pow2(f.mantSize + 1), s, Pow2(f.RndSize()));
    MulAtLeast(Pow2(f.mantSize + 1) - s, Pow2(f.RndSize()));
  }

  lemma ToIntSpecial(f: Format, n: nat, unsigned: bool, a: nat, rm: RoundingMode, r: int, fl: Flags, fl': Flags)
    requires f.Valid() && n >= 1 && !f.IsFinite(a)
    requires r == Clamped(n, unsigned, f.Negative(a) && !f.IsNaN(a)) && fl' == fl.Or(Invalid)
    ensures ToInt(f, n, unsigned, a, rm, r, fl, fl')
  {
    hide Clamped, f.Negative, f.IsNaN, f.IsFinite;
  }

  /** The exponent of an infinity or a NaN is past every exponent of the target type. */
  lemma SpecialExponent(f: Format, n: nat)
    requires f.Valid() && n <= f.Bias() + 1
    ensures f.ExpMask() - f.Bias() - f.mantSize > n - 1 - f.mantSize
  {
    Pow2Double(f.expSize);
  }

  /** internal_cvt_sf, for every pair of sizes it is instantiated with. */
  method FloatToInt(f: Format, n: nat, unsigned: bool, a: nat, rm: RoundingMode, fl: Flags) returns (r: int, fl': Flags)
    requires f.Valid() && 1 <= n <= f.Bias() + 1 && f.mantSize <= f.Bias() && f.IsBits(a)
    ensures ToInt(f, n, unsigned, a, rm, r, fl, fl')
  {
    hide *;
    ClassOfFields(f, a);
    OrFlags(fl);
    var aSign := f.Negative(a);
    if f.Exp(a) == f.ExpMask() && f.Mant(a) != 0 {
      aSign := false; // NaN is like +infinity
    }
    if f.Exp(a) == f.ExpMask() {
      var exp := f.Exp(a) - f.Bias() - f.mantSize;
      SpecialExponent(f, n);
      assert exp > n - 1 - f.mantSize;
      fl' := fl.(invalid := true);
      var rMax: int := RMax(n, unsigned, aSign);
      r := if aSign then -rMax else rMax;
      RMaxIsBound(n, unsigned, aSign, 0);
      ToIntSpecial(f, n, unsigned, a, rm, r, fl, fl');
    } else {
      r, fl' := FiniteToInt(f, n, unsigned, a, rm, fl);
    }
  }
}
