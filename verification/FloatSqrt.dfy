/** sqrt_sf */
module FloatSqrt {
  import opened Powers
  import opened Ieee754
  import opened Sticky
  import opened RoundingKernel
  import opened RootRounding
  import opened Normalization
  import opened WideArithmetic
  import opened SquareRoot
  import opened Operands

  /** Whatever real is the exact root of a positive finite operand, it is rounded once. */
  ghost predicate RoundedRoot(f: Format, a: nat, rm: RoundingMode, r: nat, fl: Flags, fl': Flags)
    requires f.Valid()
  {
    forall rho: real | IsRealRoot(rho, f.Value(a)) :: Rounded(f, rm, rho, false, r, fl, fl')
  }

  ghost predicate IsRealRoot(rho: real, v: real) {
    rho >= 0.0 && rho * rho == v
  }

  /**
   * What IEEE 754 square root must deliver. For a positive finite operand the squares of the
   * rungs and of the points halfway decide, so that nothing hangs on a root being at hand.
   */
  ghost predicate Root(f: Format, a: nat, rm: RoundingMode, r: nat, fl: Flags, fl': Flags)
    requires f.Valid()
  {
    if f.IsNaN(a) then r == f.QNaN() && fl' == fl.Or(if f.IsSignaling(a) then Invalid else NoFlags)
    else if f.IsZero(a) then r == a && fl' == fl
    else if f.Negative(a) then r == f.QNaN() && fl' == fl.Or(Invalid)
    else if f.IsInf(a) then r == a && fl' == fl
    else RootDelivered(f, rm, f.Value(a), r, fl, fl') && RoundedRoot(f, a, rm, r, fl, fl')
  }

  /** y lies where the root of n lies, whose floor is s. */
  ghost predicate RootPlace(y: real, n: nat, s: nat) {
    if s * s == n then y == s as real else s as real < y < (s + 1) as real
  }

  /** The integer root with a sticky bit agrees with whatever lies where the root lies. */
  lemma RootAgrees(n: nat, s: nat, y: real)
    requires IsRoot(s, n) && RootPlace(y, n, s)
    ensures Agree(y, OrBit(s, s * s != n), 2)
  {
    OrBitRange(s, s * s != n);
    if s * s == n {
      OrNothing(s);
      AgreeExact(s, 2);
    }
  }

  ghost function Multiple(s: nat, u: real): real { s as real * u }

  lemma MultipleOrder(s: nat, y: real, u: real)
    requires u > 0.0
    ensures s as real < y <==> Multiple(s, u) < y * u
    ensures y < s as real <==> y * u < Multiple(s, u)
  {
    MulLe(s as real, y, u);
    MulLe(y, s as real, u);
  }

  /** From the places of two multiples of the unit to the place among integers. */
  lemma PlaceOf(x: real, u: real, n: nat, s: nat, v: real) returns (y: real)
    requires u > 0.0 && v == n as real * (u * u) && IsRoot(s, n)
    requires SameSide(Multiple(s, u), x, v) && SameSide(Multiple(s + 1, u), x, v)
    ensures x == y * u && RootPlace(y, n, s)
  {
    hide *;
    y := Quotient(x, u);
    var uu := UnitSquare(u);
    var t, tt := s + 1, (s + 1) * (s + 1);
    SquareOfMultiple(s, s * s, u, uu);
    SquareOfMultiple(t, tt, u, uu);
    PlaceBetween(x, y, u, uu, n, s, t, tt, v);
  }

  lemma UnitSquare(u: real) returns (uu: real)
    requires u > 0.0
    ensures uu == u * u && uu > 0.0
  {
    uu := u * u;
    PositiveProduct(u, u, uu);
  }

  lemma PositiveProduct(x: real, y: real, p: real)
    requires x > 0.0 && y > 0.0 && p == x * y
    ensures p > 0.0
  {
  }

  lemma PlaceBetween(x: real, y: real, u: real, uu: real, n: nat, s: nat, t: nat, tt: nat, v: real)
    requires u > 0.0 && uu > 0.0 && v == n as real * uu && IsRoot(s, n) && x == y * u
    requires t == s + 1 && tt == t * t
    requires Square(Multiple(s, u)) == (s * s) as real * uu && Square(Multiple(t, u)) == tt as real * uu
    requires SameSide(Multiple(s, u), x, v) && SameSide(Multiple(t, u), x, v)
    ensures RootPlace(y, n, s)
  {
    hide *;
    IsRootDef(s, n);
    Scaled(s * s, n, uu);
    Scaled(n, s * s, uu);
    Scaled(tt, n, uu);
    SameSideDef(Multiple(s, u), x, v);
    SameSideDef(Multiple(t, u), x, v);
    MultipleOrder(s, y, u);
    MultipleOrder(t, y, u);
    RootPlaceDef(y, n, s);
  }

  lemma Quotient(x: real, u: real) returns (y: real)
    requires u > 0.0
    ensures x == y * u
  {
    y := x / u;
  }

  lemma IsRootDef(s: nat, n: nat)
    ensures IsRoot(s, n) <==> s * s <= n < (s + 1) * (s + 1)
  {
  }

  lemma RootPlaceDef(y: real, n: nat, s: nat)
    ensures RootPlace(y, n, s) <==> if s * s == n then y == s as real else s as real < y < (s + 1) as real
  {
  }

  lemma SquareOfMultiple(s: nat, ss: nat, u: real, uu: real)
    requires ss == s * s && uu == u * u
    ensures Square(Multiple(s, u)) == ss as real * uu
  {
    RealMul(s, s);
    FourFactors(s as real, u, s as real, u);
  }

  lemma Scaled(a: nat, b: nat, k: real)
    requires k > 0.0
    ensures a <= b <==> a as real * k <= b as real * k
    ensures a == b <==> a as real * k == b as real * k
  {
    MulLe(a as real, b as real, k);
  }

  /** y at the result's exponent, for the root of m at an even exponent. */
  lemma ExponentOfRoot(f: Format, k: int)
    requires f.Valid()
    ensures var l := LastBitExp(f, k + f.Bias());
      l + l + f.Size() + (f.RndSize() - 2) == 2 * k + f.Bias() - 1 + f.MinExp()
  {
  }

  /** v = m * 2^(2k - mantSize) is m * 2^(RndSize-2) * 2^Size squares of the unit. */
  lemma UnitOfRoot(f: Format, k: int, m: nat, v: real, wide: nat) returns (u: real)
    requires f.Valid() && v == m as real * Ulp(f, 2 * k + f.Bias())
    requires wide == (m * Pow2(f.RndSize() - 2)) * Pow2(f.Size())
    ensures u == P2(LastBitExp(f, k + f.Bias())) && u > 0.0 && v == wide as real * (u * u)
  {
    hide *;
    SizeIs(f);
    var l := LastBitExp(f, k + f.Bias());
    u := P2(l);
    ExponentOfRoot(f, k);
    UlpDef(f, 2 * k + f.Bias());
    P2Add(l, l);
    P2AddNat(f.Size(), l + l);
    P2AddNat(f.RndSize() - 2, f.Size() + (l + l));
    Unscale(m, Ulp(f, 2 * k + f.Bias()), Pow2(f.RndSize() - 2), Pow2(f.Size()), P2(f.Size() + (l + l)), u * u, wide);
  }

  lemma Unscale(m: nat, u: real, a: nat, b: nat, bss: real, ss: real, wide: nat)
    requires bss == b as real * ss && u == a as real * bss && wide == (m * a) * b
    ensures m as real * u == wide as real * ss
  {
    RealMul(m, a);
    RealMul(m * a, b);
    assert m as real * (a as real * bss) == (m as real * a as real) * bss;
    assert (m * a) as real * (b as real * ss) == ((m * a) as real * b as real) * ss;
  }

  /** The two multiples of the unit between which the root lies, or the first of which it is. */
  ghost predicate NearRoot(f: Format, exp: int, s: nat, x: real, v: real)
    requires f.Valid()
  {
    && SameSide(Multiple(s, P2(LastBitExp(f, exp))), x, v)
    && SameSide(Multiple(s + 1, P2(LastBitExp(f, exp))), x, v)
  }

  lemma RootRepresents(f: Format, k: int, m: nat, v: real, x: real, s: nat)
    requires f.Valid() && v == m as real * Ulp(f, 2 * k + f.Bias()) && NearRoot(f, k + f.Bias(), s, x, v)
    requires IsRoot(s, Wide(f, m * Pow2(f.RndSize() - 2), 0))
    ensures Represents(f, k + f.Bias(), OrBit(s, s * s != Wide(f, m * Pow2(f.RndSize() - 2), 0)), x, 2)
  {
    hide *;
    SizeIs(f);
    var wide := Wide(f, m * Pow2(f.RndSize() - 2), 0);
    WideDef(f, m * Pow2(f.RndSize() - 2), 0);
    NearDef(f, k + f.Bias(), s, x, v);
    var u := UnitOfRoot(f, k, m, v, wide);
    var y := PlaceOf(x, u, wide, s, v);
    RootAgrees(wide, s, y);
    IntroRepresents(f, k + f.Bias(), OrBit(s, s * s != wide), x, 2, y);
  }

  lemma NearDef(f: Format, exp: int, s: nat, x: real, v: real)
    requires f.Valid()
    ensures NearRoot(f, exp, s, x, v) <==>
              && SameSide(Multiple(s, P2(LastBitExp(f, exp))), x, v)
              && SameSide(Multiple(s + 1, P2(LastBitExp(f, exp))), x, v)
  {
  }

  lemma RootBounds(f: Format, ah: nat, s: nat)
    requires f.Valid() && Pow2(f.Size() - 4) <= ah < Pow2(f.Size() - 2) && IsRoot(s, Wide(f, ah, 0))
    ensures Pow2(f.Size() - 2) <= s < Pow2(f.Size() - 1)
  {
    hide *;
    SizeIs(f);
    WideDef(f, ah, 0);
    AboveDef(s, Wide(f, ah, 0));
    WideLimit(f, ah, 0);
    MulMono(Pow2(f.Size() - 4), ah, Pow2(f.Size()));
    Pow2Add(f.Size() - 4, f.Size());
    Pow2Add(f.Size() - 2, f.Size() - 2);
    SquareOrder(Pow2(f.Size() - 1), s);
    SquareOrder(s + 1, Pow2(f.Size() - 2));
  }

  lemma SquareOrder(a: nat, b: nat)
    ensures a <= b ==> a * a <= b * b
  {
    if a <= b {
      MulMono(a, b, a);
      MulMono(a, b, b);
    }
  }

  lemma RadicandFits(f: Format, m: nat)
    requires f.Valid() && Pow2(f.mantSize) <= m < 4 * Pow2(f.mantSize)
    ensures var ah := m * Pow2(f.RndSize() - 2);
      Pow2(f.Size() - 4) <= ah < Pow2(f.Size() - 2) && ShiftLeft(f, m, f.Size() - 4 - f.mantSize) == ah
    ensures f.Size() - 4 - f.mantSize == f.RndSize() - 2
  {
    hide *;
    SizeIs(f);
    Pow2Double(f.mantSize + 2);
    Pow2Double(f.mantSize + 1);
    Pow2Add(f.mantSize, f.RndSize() - 2);
    Pow2Add(f.mantSize + 2, f.RndSize() - 2);
    MulMono(Pow2(f.mantSize), m, Pow2(f.RndSize() - 2));
    MulDiff(Pow2(f.mantSize + 2), m, Pow2(f.RndSize() - 2));
    MulAtLeast(Pow2(f.mantSize + 2) - m, Pow2(f.RndSize() - 2));
    Pow2Le(f.Size() - 2, f.Size());
    LowSmall(m * Pow2(f.RndSize() - 2), f.Size());
    ShiftLeftDef(f, m, f.RndSize() - 2);
  }

  lemma NotWrapping(f: Format, ah: nat)
    requires f.Valid()
    ensures Wide(f, ah, 0) != WrappingWord(f)
  {
    hide *;
    SizeIs(f);
    WideDef(f, ah, 0);
    WrappingWordDef(f);
    Pow2Double(f.Size());
    Pow2Double(f.Size() - 1);
    Parity(ah, Pow2(f.Size() - 1), Pow2(f.Size() - 2));
  }

  lemma Parity(ah: nat, h: nat, k: nat)
    requires h == 2 * k
    ensures ah * (2 * h) + 0 != h * h - 1
  {
    assert ah * (2 * h) == 2 * (ah * h);
    assert h * h == 2 * (k * h);
  }

  lemma MakeEven(f: Format, a: nat, e: int, s: nat)
    requires f.Valid() && Normalized(f, a, e, s)
    ensures f.MagValue(f.Mag(a)) == s as real * Ulp(f, e)
    ensures f.MagValue(f.Mag(a)) == (s * 2) as real * Ulp(f, e - 1)
    ensures Pow2(f.mantSize) <= s < 2 * Pow2(f.mantSize)
  {
    hide *;
    NormalizedDef(f, a, e, s);
    UlpShift(f, e, s, 1);
    Pow2Zero();
  }

  lemma RootFaithful(f: Format, a: nat, k: int, m: nat, s: nat, exp: int, mant: nat)
    requires f.Valid() && f.MagValue(f.Mag(a)) == m as real * Ulp(f, 2 * k + f.Bias()) && !f.Negative(a)
    requires Pow2(f.mantSize) <= m < 4 * Pow2(f.mantSize)
    requires var wide := Wide(f, m * Pow2(f.RndSize() - 2), 0);
      IsRoot(s, wide) && mant == OrBit(s, s * s != wide)
    requires exp == k + f.Bias()
    ensures mant < Pow2(f.Size() - 1)
    ensures forall x: real | NearRoot(f, exp, s, x, f.Value(a)) :: Faithful(f, exp, mant, x, 0)
  {
    hide *;
    SizeIs(f);
    ValueDef(f, a);
    RadicandFits(f, m);
    RootBounds(f, m * Pow2(f.RndSize() - 2), s);
    Pow2Double(f.Size() - 1);
    StickyBelowEven(s, s * s != Wide(f, m * Pow2(f.RndSize() - 2), 0), Pow2(f.Size() - 2));
    OrBitRange(s, s * s != Wide(f, m * Pow2(f.RndSize() - 2), 0));
    Pow2Le(f.mantSize + 2, f.Size() - 2);
    Pow2Zero();
    forall x: real | NearRoot(f, exp, s, x, f.Value(a))
      ensures Faithful(f, exp, mant, x, 0)
    {
      RootRepresents(f, k, m, f.Value(a), x, s);
      IntroFaithful(f, exp, mant, x, 0, 1);
    }
  }

  lemma RootRounded(f: Format, a: nat, rm: RoundingMode, exp: int, s: nat, m: nat, r: nat, fl: Flags, fl': Flags)
    requires f.Valid() && f.Value(a) > 0.0
    requires forall x: real | NearRoot(f, exp, s, x, f.Value(a)) :: Faithful(f, exp, m, x, 0)
    requires m == 0 ==> r == f.Bits(false, 0) && fl' == fl
    requires forall x: real | Faithful(f, exp, m, x, 0) :: RoundedMagnitude(f, rm, false, x, r, fl, fl')
    ensures RootDelivered(f, rm, f.Value(a), r, fl, fl') && RoundedRoot(f, a, rm, r, fl, fl')
  {
    hide f.Value, Faithful, RoundedMagnitude, Rounded, f.Bits, RootDelivered, SameSide, P2, LastBitExp, Multiple;
    var v, lo, hi := f.Value(a), Multiple(s, P2(LastBitExp(f, exp))), Multiple(s + 1, P2(LastBitExp(f, exp)));
    Multiples(s, P2(LastBitExp(f, exp)));
    forall x: real | SameSide(lo, x, v) && SameSide(hi, x, v)
      ensures Rounded(f, rm, x, false, r, fl, fl')
    {
      assert NearRoot(f, exp, s, x, v);
      FaithfulZero(f, exp, m, x, 0);
      SignedRounding(f, rm, x, false, x, false, r, fl, fl');
    }
    StandInDelivers(f, rm, v, lo, hi, r, fl, fl');
    forall rho: real | IsRealRoot(rho, v)
      ensures Rounded(f, rm, rho, false, r, fl, fl')
    {
      RealRootDelivered(f, rm, rho, v, r, fl, fl');
    }
  }

  lemma Multiples(s: nat, u: real)
    requires u > 0.0
    ensures Multiple(s, u) >= 0.0 && Multiple(s + 1, u) >= 0.0
  {
  }

  lemma PositiveValue(f: Format, a: nat)
    requires f.Valid() && !f.IsZero(a) && !f.Negative(a)
    ensures f.Value(a) > 0.0
  {
    hide f.MagValue;
    RungZero(f);
    MagValueLt(f, 0, f.Mag(a));
  }

  /** The positive finite case of sqrt_sf. */
  method SqrtFinite(f: Format, a: nat, rm: RoundingMode, fl: Flags) returns (r: nat, fl': Flags)
    requires f.Valid() && f.IsBits(a) && f.IsFinite(a) && !f.IsZero(a) && !f.Negative(a)
    ensures RootDelivered(f, rm, f.Value(a), r, fl, fl') && RoundedRoot(f, a, rm, r, fl, fl')
  {
    hide *;
    SizeIs(f);
    var aExp, aMant := Prepare(f, a);
    MakeEven(f, a, aExp, aMant);
    aExp := aExp - f.Bias();
    if aExp % 2 != 0 {
      aExp := aExp - 1;
      aMant := aMant * 2;
    }
    ghost var k, m := aExp / 2, aMant;
    assert aExp == 2 * k;
    aExp := aExp / 2 + f.Bias();
    RadicandFits(f, aMant);
    aMant := ShiftLeft(f, aMant, f.Size() - 4 - f.mantSize);
    NotWrapping(f, aMant);
    Pow2Positive(f.Size());
    StartReachesWord(f, aMant);
    var ok, s, inexact := SqrtRemU(f, aMant, 0);
    assert ok;
    aMant := OrBit(s, inexact);
    RootFaithful(f, a, k, m, s, aExp, aMant);
    r, fl' := Normalize(f, false, aExp, aMant, rm, fl);
    PositiveValue(f, a);
    RootRounded(f, a, rm, aExp, s, aMant, r, fl, fl');
  }

  lemma StartReachesWord(f: Format, ah: nat)
    requires f.Valid() && Pow2(f.Size() - 4) <= ah < Pow2(f.Size() - 2)
    ensures 0 < Pow2(f.Size()) && ah > 0 && Above(SqrtStart(f, ah, 0), Wide(f, ah, 0))
  {
    hide *;
    SizeIs(f);
    StartReaches(f, ah, 0);
  }

  lemma RootCases(f: Format, a: nat, rm: RoundingMode, r: nat, fl: Flags, fl': Flags)
    requires f.Valid()
    requires
      if f.IsNaN(a) then r == f.QNaN() && fl' == fl.Or(if f.IsSignaling(a) then Invalid else NoFlags)
      else if f.IsZero(a) then r == a && fl' == fl
      else if f.Negative(a) then r == f.QNaN() && fl' == fl.Or(Invalid)
      else if f.IsInf(a) then r == a && fl' == fl
      else RootDelivered(f, rm, f.Value(a), r, fl, fl') && RoundedRoot(f, a, rm, r, fl, fl')
    ensures Root(f, a, rm, r, fl, fl')
  {
  }

  lemma PositiveZero(f: Format, a: nat)
    requires f.Valid() && f.IsBits(a) && f.IsZero(a) && !f.Negative(a)
    ensures a == f.Bits(false, 0)
  {
    hide *;
    MagParts(f, a);
    Classes(f, a);
  }

  /** sqrt_sf */
  method Sqrt(f: Format, a: nat, rm: RoundingMode, fl: Flags) returns (r: nat, fl': Flags)
    requires f.Valid() && f.IsBits(a)
    ensures Root(f, a, rm, r, fl, fl')
  {
    hide *;
    fl' := fl;
    var aSign := f.Negative(a);
    ClassOfFields(f, a);
    NanBits(f, a);
    ExpMaskLarge(f);
    OrFlags(fl);
    PackLimits(f, false);
    if f.Exp(a) == f.ExpMask() {
      if f.Mant(a) != 0 {
        if IsSigNanBits(f, a) {
          fl' := fl'.(invalid := true);
        }
        r := f.QNaN();
      } else if aSign {
        fl' := fl'.(invalid := true);
        r := f.QNaN();
      } else {
        r := a;
      }
    } else if aSign {
      if f.Exp(a) == 0 && f.Mant(a) == 0 {
        r := a;
      } else {
        fl' := fl'.(invalid := true);
        r := f.QNaN();
      }
    } else if f.Exp(a) == 0 && f.Mant(a) == 0 {
      r := Pack(f, false, 0, 0);
      PositiveZero(f, a);
    } else {
      r, fl' := SqrtFinite(f, a, rm, fl);
    }
    RootCases(f, a, rm, r, fl, fl');
  }
}
