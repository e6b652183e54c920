/**
 * What being Rounded means to a user of the float: the rounding relation is total and
 * single-valued, picks a nearest float or the nearest one on the right side, is monotone,
 * and its tininess test does not depend on where the exponent range is cut off.
 */
module RoundingTheorems {
  import opened Powers
  import opened Ieee754
  import opened RoundingKernel
  import opened Normalization
  import opened Operands

  // Totality

  lemma {:induction false} RungAtLeast(f: Format, m: nat)
    requires f.Valid()
    ensures m <= f.Rung(m)
  {
    hide *;
    if m > 0 {
      RungAtLeast(f, m - 1);
      RungLt(f, m - 1, m);
    }
  }

  /** Some rung lies above x. */
  lemma RungAbove(f: Format, x: real) returns (m: nat)
    requires f.Valid()
    ensures x < f.MagValue(m)
  {
    hide *;
    var u := P2(f.MinExp());
    var q := x / u;
    m := if q < 0.0 then 0 else (q.Floor + 1);
    RungAtLeast(f, m);
    MagValueDef(f, m);
    MulLe(f.Rung(m) as real, q, u);
  }

  lemma {:induction false} RungBelow(f: Format, x: real, top: nat) returns (m: nat)
    requires f.Valid() && 0.0 <= x < f.MagValue(top)
    ensures Between(f, x, m)
    decreases top
  {
    hide f.MagValue;
    RungZero(f);
    if f.MagValue(top - 1) <= x {
      m := top - 1;
    } else {
      m := RungBelow(f, x, top - 1);
    }
  }

  /** Every nonnegative real rounds to some rung; RoundsToUnique says to only one. */
  lemma RoundsToExists(f: Format, rm: RoundingMode, negative: bool, x: real)
    requires f.Valid() && x >= 0.0
    ensures exists k: nat :: RoundsTo(f, rm, negative, x, k)
  {
    var top := RungAbove(f, x);
    var m := RungBelow(f, x, top);
    assert RoundsTo(f, rm, negative, x, ChosenRung(f, rm, negative, x, m));
  }

  // Nearest, and nearest on one side

  ghost function Distance(x: real, y: real): real {
    if x <= y then y - x else x - y
  }

  lemma Neighbours(f: Format, x: real, m: nat, j: nat)
    requires f.Valid() && Between(f, x, m)
    ensures if j <= m then f.MagValue(j) <= f.MagValue(m) else f.MagValue(m + 1) <= f.MagValue(j)
  {
    hide f.MagValue;
    if j <= m {
      MagValueLe(f, j, m);
    } else {
      MagValueLe(f, m + 1, j);
    }
  }

  /** To nearest: no rung is closer than the chosen one; a tie goes to even, or away from zero. */
  lemma NearestRung(f: Format, rm: RoundingMode, negative: bool, x: real, k: nat, j: nat)
    requires f.Valid() && (rm == RNE || rm == RMM) && RoundsTo(f, rm, negative, x, k)
    ensures Distance(x, f.MagValue(k)) <= Distance(x, f.MagValue(j))
    ensures j != k && Distance(x, f.MagValue(k)) == Distance(x, f.MagValue(j)) ==>
      if rm == RNE then k % 2 == 0 else f.MagValue(j) < f.MagValue(k)
  {
    hide f.MagValue;
    var m: nat :| Between(f, x, m) && k == ChosenRung(f, rm, negative, x, m);
    Neighbours(f, x, m, j);
    if j < m {
      MagValueLt(f, j, m);
    } else if j > m + 1 {
      MagValueLt(f, m + 1, j);
    }
  }

  /** Toward zero on the magnitude: the last rung not above x. */
  lemma LastRungBelow(f: Format, rm: RoundingMode, negative: bool, x: real, k: nat, j: nat)
    requires f.Valid() && RoundsTo(f, rm, negative, x, k)
    requires rm == RTZ || (rm == RDN && !negative) || (rm == RUP && negative)
    ensures f.MagValue(k) <= x && (f.MagValue(j) <= x ==> j <= k)
  {
    hide f.MagValue;
    var m: nat :| Between(f, x, m) && k == ChosenRung(f, rm, negative, x, m);
    Neighbours(f, x, m, j);
  }

  /** Away from zero on the magnitude: the first rung not below x. */
  lemma FirstRungAbove(f: Format, rm: RoundingMode, negative: bool, x: real, k: nat, j: nat)
    requires f.Valid() && RoundsTo(f, rm, negative, x, k)
    requires (rm == RDN && negative) || (rm == RUP && !negative)
    ensures x <= f.MagValue(k) && (x <= f.MagValue(j) ==> k <= j)
  {
    hide f.MagValue;
    var m: nat :| Between(f, x, m) && k == ChosenRung(f, rm, negative, x, m);
    Neighbours(f, x, m, j);
    if j < m {
      MagValueLt(f, j, m);
    }
  }

  /** Rounding never reverses an order. */
  lemma RoundingMonotone(f: Format, rm: RoundingMode, negative: bool, x: real, k: nat, x': real, k': nat)
    requires f.Valid() && x <= x' && RoundsTo(f, rm, negative, x, k) && RoundsTo(f, rm, negative, x', k')
    ensures k <= k'
  {
    hide f.MagValue;
    var m: nat :| Between(f, x, m) && k == ChosenRung(f, rm, negative, x, m);
    var m': nat :| Between(f, x', m') && k' == ChosenRung(f, rm, negative, x', m');
    if m' < m {
      MagValueLe(f, m' + 1, m);
    }
  }

  // Tininess

  lemma DoubledRung(f: Format, m: nat)
    requires f.Valid() && m >= Pow2(f.mantSize)
    ensures f.MagValue(m + Pow2(f.mantSize)) == 2.0 * f.MagValue(m)
  {
    hide *;
    var n := Pow2(f.mantSize);
    var e, t := RungParts(f, m);
    MinExponent(f, e, t);
    ValueAt(f, e, t);
    ValueAt(f, e + 1, t);
    MulDiff(e, 1, n);
    UlpDef(f, e);
    UlpDef(f, e + 1);
    UlpStep(f, e + 1, 1);
    P2Step(e - 1 + f.MinExp());
    TwiceProduct(t as real, Ulp(f, e), Ulp(f, e + 1));
  }

  lemma MinExponent(f: Format, e: nat, t: nat)
    requires e >= 1 && t < 2 * Pow2(f.mantSize) && (e == 1 || t >= Pow2(f.mantSize))
    requires (e - 1) * Pow2(f.mantSize) + t >= Pow2(f.mantSize)
    ensures t >= Pow2(f.mantSize)
  {
    if e == 1 {
      ZeroTimes(Pow2(f.mantSize));
    }
  }

  lemma TwiceProduct(t: real, u: real, v: real)
    requires v == 2.0 * u
    ensures t * v == 2.0 * (t * u)
  {
  }

  /** Scaling by two commutes with rounding from the normal numbers on. */
  lemma DoubledRounding(f: Format, rm: RoundingMode, negative: bool, x: real, k: nat)
    requires f.Valid() && x >= f.MagValue(Pow2(f.mantSize)) && RoundsTo(f, rm, negative, x, k)
    ensures k >= Pow2(f.mantSize) && RoundsTo(f, rm, negative, 2.0 * x, k + Pow2(f.mantSize))
  {
    hide f.MagValue, Pow2, RoundsUp;
    var n := Pow2(f.mantSize);
    var m: nat :| Between(f, x, m) && k == ChosenRung(f, rm, negative, x, m);
    if m < n {
      MagValueLe(f, m + 1, n);
    }
    DoubledRung(f, m);
    DoubledRung(f, m + 1);
    EvenSignificands(f);
    assert (m + n) % 2 == m % 2;
    SameChoice(rm, negative, m % 2 == 1, f.MagValue(m), x, f.MagValue(m + 1));
    assert Between(f, 2.0 * x, m + n);
    assert f.MagValue(m + n + 1) == 2.0 * f.MagValue(m + 1);
    assert ChosenRung(f, rm, negative, 2.0 * x, m + n) == k + n;
  }

  lemma SameChoice(rm: RoundingMode, negative: bool, odd: bool, lo: real, x: real, hi: real)
    ensures RoundsUp(rm, negative, odd, 2.0 * lo, 2.0 * x, 2.0 * hi) == RoundsUp(rm, negative, odd, lo, x, hi)
  {
  }

  /** x with j more binades below the normal numbers moved onto the ladder. */
  ghost function ScaledUp(x: real, j: nat): real {
    Pow2(j) as real * x
  }

  /** The rung of the smallest normal number, scaled up with it. */
  function ScaledNormal(f: Format, j: nat): nat {
    (j + 1) * Pow2(f.mantSize)
  }

  ghost predicate TinyAtScale(f: Format, rm: RoundingMode, negative: bool, x: real, j: nat)
    requires f.Valid()
  {
    RoundsBelow(f, rm, negative, ScaledUp(x, j), ScaledNormal(f, j))
  }

  /** One extra binade decides tininess exactly as any larger number of them does. */
  lemma {:induction false} TinyAtAnyScale(f: Format, rm: RoundingMode, negative: bool, x: real, j: nat)
    requires f.Valid() && x >= 0.0 && j >= 1
    ensures TinyAtScale(f, rm, negative, x, j) <==> Tiny(f, rm, negative, x)
  {
    hide *;
    ScaleDefs(f, rm, negative, x, j);
    if j == 1 {
      OneBinade(f, x);
    } else {
      TinyAtAnyScale(f, rm, negative, x, j - 1);
      ScaleDefs(f, rm, negative, x, j - 1);
      ScaledStep(x, j);
      NextScale(f, rm, negative, ScaledUp(x, j - 1), j);
    }
  }

  lemma ScaleDefs(f: Format, rm: RoundingMode, negative: bool, x: real, j: nat)
    requires f.Valid()
    ensures TinyAtScale(f, rm, negative, x, j) <==> RoundsBelow(f, rm, negative, ScaledUp(x, j), ScaledNormal(f, j))
    ensures Tiny(f, rm, negative, x) <==> RoundsBelow(f, rm, negative, 2.0 * x, 2 * Pow2(f.mantSize))
  {
    hide RoundsBelow, Pow2, ScaledUp, ScaledNormal;
  }

  lemma OneBinade(f: Format, x: real)
    ensures ScaledUp(x, 1) == 2.0 * x && ScaledNormal(f, 1) == 2 * Pow2(f.mantSize)
  {
    assert Pow2(1) == 2;
  }

  lemma ScaledStep(x: real, j: nat)
    requires j > 1 && x >= 0.0
    ensures ScaledUp(x, j) == 2.0 * ScaledUp(x, j - 1) && ScaledUp(x, j - 1) >= 0.0
  {
    Pow2Double(j);
    TwiceCast(Pow2(j), Pow2(j - 1), x);
    ScaledNonneg(Pow2(j - 1), x);
  }

  lemma ScaledNonneg(a: nat, x: real)
    requires x >= 0.0
    ensures a as real * x >= 0.0
  {
  }

  lemma TwiceCast(a: nat, b: nat, x: real)
    requires a == 2 * b
    ensures a as real * x == 2.0 * (b as real * x)
  {
  }

  lemma NormalDef(f: Format, j: nat)
    ensures ScaledNormal(f, j) == (j + 1) * Pow2(f.mantSize)
  {
  }

  lemma BelowIff(f: Format, rm: RoundingMode, negative: bool, x: real, k: nat, bound: nat)
    requires f.Valid() && RoundsTo(f, rm, negative, x, k)
    ensures RoundsBelow(f, rm, negative, x, bound) <==> k < bound
  {
    hide RoundsTo;
    if RoundsBelow(f, rm, negative, x, bound) {
      var k': nat :| RoundsTo(f, rm, negative, x, k') && k' < bound;
      RoundsToUnique(f, rm, negative, x, k, k');
    }
  }

  lemma NextScale(f: Format, rm: RoundingMode, negative: bool, y: real, j: nat)
    requires f.Valid() && y >= 0.0 && j > 1
    ensures RoundsBelow(f, rm, negative, 2.0 * y, ScaledNormal(f, j))
       <==> RoundsBelow(f, rm, negative, y, ScaledNormal(f, j - 1))
  {
    hide *;
    var n := Pow2(f.mantSize);
    var k := RoundsToWitness(f, rm, negative, y);
    NormalDef(f, j);
    NormalDef(f, j - 1);
    BelowIff(f, rm, negative, y, k, ScaledNormal(f, j - 1));
    MulDiff(j + 1, 1, n);
    MulMono(2, j, n);
    if y >= f.MagValue(n) {
      DoubledRounding(f, rm, negative, y, k);
      BelowIff(f, rm, negative, 2.0 * y, k + n, ScaledNormal(f, j));
    } else {
      var k' := RoundsToWitness(f, rm, negative, 2.0 * y);
      BelowIff(f, rm, negative, 2.0 * y, k', ScaledNormal(f, j));
      DoubledRung(f, n);
      NotAboveRung(f, rm, negative, y, k, n);
      NotAboveRung(f, rm, negative, 2.0 * y, k', n + n);
    }
  }

  lemma RoundsToWitness(f: Format, rm: RoundingMode, negative: bool, x: real) returns (k: nat)
    requires f.Valid() && x >= 0.0
    ensures RoundsTo(f, rm, negative, x, k)
  {
    RoundsToExists(f, rm, negative, x);
    k :| RoundsTo(f, rm, negative, x, k);
  }

  lemma NotAboveRung(f: Format, rm: RoundingMode, negative: bool, x: real, k: nat, n: nat)
    requires f.Valid() && RoundsTo(f, rm, negative, x, k) && x < f.MagValue(n)
    ensures k <= n
  {
    hide f.MagValue;
    var m: nat :| Between(f, x, m) && k == ChosenRung(f, rm, negative, x, m);
    if n <= m {
      MagValueLe(f, n, m);
    }
  }

  // Among the finite floats

  lemma RoundedWitness(f: Format, rm: RoundingMode, negative: bool, x: real, r: nat, fl: Flags, fl': Flags) returns (k: nat)
    requires f.Valid() && RoundedMagnitude(f, rm, negative, x, r, fl, fl')
    ensures RoundsTo(f, rm, negative, x, k) && r == f.Bits(negative, Deliver(f, rm, negative, k))
    ensures fl' == fl.Or(Raised(f, rm, negative, x, k))
  {
    hide RoundsTo, Deliver, Raised, f.Bits;
    k :| RoundsTo(f, rm, negative, x, k) && r == f.Bits(negative, Deliver(f, rm, negative, k))
         && fl' == fl.Or(Raised(f, rm, negative, x, k));
  }

  lemma DeliverCases(f: Format, rm: RoundingMode, negative: bool, k: nat)
    requires f.Valid()
    ensures Deliver(f, rm, negative, k) ==
      if k < f.InfMag() then k
      else if rm == RTZ || (rm == RDN && !negative) || (rm == RUP && negative) then f.MaxFinite()
      else f.InfMag()
    ensures f.MaxFinite() == f.InfMag() - 1
    ensures 0 < f.InfMag() && f.InfMag() + Pow2(f.mantSize) == Pow2(f.Size() - 1)
  {
    hide *;
    SizeIs(f);
    FieldsDef(f, 0);
    LimitDefs(f, rm, negative, k);
    ExpMaskLarge(f);
    Pow2Add(f.mantSize, f.expSize);
    MulCommutes(Pow2(f.mantSize), Pow2(f.expSize));
    MulDiff(f.ExpMask(), 1, Pow2(f.mantSize));
    MulDiff(Pow2(f.expSize), 1, Pow2(f.mantSize));
    MulAtLeast(f.ExpMask(), Pow2(f.mantSize));
  }

  lemma LimitDefs(f: Format, rm: RoundingMode, negative: bool, k: nat)
    requires f.Valid()
    ensures f.InfMag() == f.ExpMask() * Pow2(f.mantSize)
    ensures f.MaxFinite() == (f.ExpMask() - 1) * Pow2(f.mantSize) + (Pow2(f.mantSize) - 1)
    ensures Deliver(f, rm, negative, k) ==
      if k < f.InfMag() then k
      else if rm == RTZ || (rm == RDN && !negative) || (rm == RUP && negative) then f.MaxFinite()
      else f.InfMag()
  {
  }

  /** A sign and a magnitude make a float of the format and can be read back. */
  lemma BitsParts(f: Format, negative: bool, mag: nat)
    requires f.Valid() && mag < Pow2(f.Size() - 1)
    ensures var r := f.Bits(negative, mag);
      f.IsBits(r) && f.Negative(r) == negative && f.Mag(r) == mag
  {
    hide *;
    SizeIs(f);
    var r := f.Bits(negative, mag);
    FieldsDef(f, r);
    IsBitsDef(f, r);
    Pow2Double(f.Size());
    ShrUnique(r, f.Size() - 1, if negative then 1 else 0, mag);
  }

  /** A rounded result is a float of the format: never a NaN, and infinite only on overflow. */
  lemma RoundedIsFloat(f: Format, rm: RoundingMode, v: real, zeroSign: bool, r: nat, fl: Flags, fl': Flags)
    requires f.Valid() && Rounded(f, rm, v, zeroSign, r, fl, fl')
    ensures f.IsBits(r) && !f.IsNaN(r)
    ensures f.IsInf(r) ==> fl'.overflow && fl'.inexact
  {
    hide *;
    RoundedDef(f, rm, v, zeroSign, r, fl, fl');
    DeliverCases(f, rm, false, 0);
    if v == 0.0 {
      BitsParts(f, zeroSign, 0);
      Classes(f, r);
    } else {
      var negative := v < 0.0;
      var x := if negative then -v else v;
      var k := RoundedWitness(f, rm, negative, x, r, fl, fl');
      DeliverCases(f, rm, negative, k);
      Pow2Positive(f.mantSize);
      BitsParts(f, negative, Deliver(f, rm, negative, k));
      Classes(f, r);
      RaisedDef(f, rm, negative, x, k, fl);
    }
  }

  lemma RoundedDef(f: Format, rm: RoundingMode, v: real, zeroSign: bool, r: nat, fl: Flags, fl': Flags)
    requires f.Valid()
    ensures Rounded(f, rm, v, zeroSign, r, fl, fl') <==>
      if v == 0.0 then r == f.Bits(zeroSign, 0) && fl' == fl
      else RoundedMagnitude(f, rm, v < 0.0, if v < 0.0 then -v else v, r, fl, fl')
  {
  }

  lemma RaisedDef(f: Format, rm: RoundingMode, negative: bool, x: real, k: nat, fl: Flags)
    requires f.Valid()
    ensures var fl' := fl.Or(Raised(f, rm, negative, x, k));
      && (fl'.overflow <==> fl.overflow || k >= f.InfMag())
      && (fl'.inexact <==> fl.inexact || k >= f.InfMag() || f.MagValue(k) != x)
      && (fl'.underflow <==> fl.underflow || (f.MagValue(k) != x && Tiny(f, rm, negative, x)))
      && (fl'.invalid <==> fl.invalid) && (fl'.divideByZero <==> fl.divideByZero)
  {
  }

  /** The magnitude a rounded nonzero value keeps, when the result is finite and overflow was not raised. */
  lemma FiniteRung(f: Format, rm: RoundingMode, v: real, zeroSign: bool, r: nat, fl: Flags, fl': Flags) returns (k: nat)
    requires f.Valid() && v != 0.0 && Rounded(f, rm, v, zeroSign, r, fl, fl') && !fl'.overflow
    ensures RoundsTo(f, rm, v < 0.0, if v < 0.0 then -v else v, k)
    ensures f.IsFinite(r) && f.Value(r) == if v < 0.0 then -f.MagValue(k) else f.MagValue(k)
  {
    hide *;
    RoundedDef(f, rm, v, zeroSign, r, fl, fl');
    var negative := v < 0.0;
    var x := if negative then -v else v;
    k := RoundedWitness(f, rm, negative, x, r, fl, fl');
    RaisedDef(f, rm, negative, x, k, fl);
    DeliverCases(f, rm, negative, k);
    Pow2Positive(f.mantSize);
    BitsParts(f, negative, Deliver(f, rm, negative, k));
    Classes(f, r);
    ValueDef(f, r);
  }

  lemma ZeroResult(f: Format, rm: RoundingMode, zeroSign: bool, r: nat, fl: Flags, fl': Flags)
    requires f.Valid() && Rounded(f, rm, 0.0, zeroSign, r, fl, fl')
    ensures f.Value(r) == 0.0
  {
    hide *;
    RoundedDef(f, rm, 0.0, zeroSign, r, fl, fl');
    DeliverCases(f, rm, false, 0);
    BitsParts(f, zeroSign, 0);
    Classes(f, r);
    ValueOfZero(f, r);
  }

  lemma AnySigned(f: Format, c: nat)
    requires f.Valid() && f.IsBits(c) && f.IsFinite(c)
    ensures f.Value(c) == (if f.Negative(c) then -f.MagValue(f.Mag(c)) else f.MagValue(f.Mag(c)))
    ensures f.MagValue(f.Mag(c)) >= 0.0 && f.MagValue(0) == 0.0
  {
    hide *;
    ValueDef(f, c);
    ValueOfZero(f, c);
    RungZero(f);
  }

  /** Without overflow, rounding to nearest delivers a float no other float is closer than. */
  lemma NearestFloat(f: Format, rm: RoundingMode, v: real, zeroSign: bool, r: nat, fl: Flags, fl': Flags, c: nat)
    requires f.Valid() && (rm == RNE || rm == RMM) && Rounded(f, rm, v, zeroSign, r, fl, fl') && !fl'.overflow
    requires f.IsBits(c) && f.IsFinite(c)
    ensures Distance(v, f.Value(r)) <= Distance(v, f.Value(c))
  {
    hide *;
    AnySigned(f, c);
    if v == 0.0 {
      ZeroResult(f, rm, zeroSign, r, fl, fl');
      DistanceDef(v, f.Value(r), f.Value(c));
    } else {
      var k := FiniteRung(f, rm, v, zeroSign, r, fl, fl');
      var x := if v < 0.0 then -v else v;
      NearestRung(f, rm, v < 0.0, x, k, f.Mag(c));
      NearestRung(f, rm, v < 0.0, x, k, 0);
      DistanceDef(v, f.Value(r), f.Value(c));
      DistanceDef(x, f.MagValue(k), f.MagValue(f.Mag(c)));
      DistanceDef(x, f.MagValue(k), f.MagValue(0));
    }
  }

  lemma DistanceDef(x: real, y: real, z: real)
    ensures Distance(x, y) == if x <= y then y - x else x - y
    ensures Distance(x, z) == if x <= z then z - x else x - z
  {
  }

  /** Without overflow, rounding down delivers the greatest float not above v; up, the least not below. */
  lemma DirectedFloat(f: Format, rm: RoundingMode, v: real, zeroSign: bool, r: nat, fl: Flags, fl': Flags, c: nat)
    requires f.Valid() && (rm == RDN || rm == RUP) && Rounded(f, rm, v, zeroSign, r, fl, fl') && !fl'.overflow
    requires f.IsBits(c) && f.IsFinite(c)
    ensures rm == RDN ==> f.Value(r) <= v && (f.Value(c) <= v ==> f.Value(c) <= f.Value(r))
    ensures rm == RUP ==> v <= f.Value(r) && (v <= f.Value(c) ==> f.Value(r) <= f.Value(c))
  {
    hide *;
    AnySigned(f, c);
    if v == 0.0 {
      ZeroResult(f, rm, zeroSign, r, fl, fl');
    } else {
      var k := FiniteRung(f, rm, v, zeroSign, r, fl, fl');
      var x := if v < 0.0 then -v else v;
      var away := (rm == RDN) == (v < 0.0);
      MagValueLe(f, 0, k);
      if away {
        FirstRungAbove(f, rm, v < 0.0, x, k, f.Mag(c));
        if k <= f.Mag(c) {
          MagValueLe(f, k, f.Mag(c));
        }
      } else {
        LastRungBelow(f, rm, v < 0.0, x, k, f.Mag(c));
        if f.Mag(c) <= k {
          MagValueLe(f, f.Mag(c), k);
        }
      }
    }
  }

  /** Without overflow, rounding toward zero delivers the float of greatest magnitude not beyond v. */
  lemma TowardZeroFloat(f: Format, v: real, zeroSign: bool, r: nat, fl: Flags, fl': Flags, c: nat)
    requires f.Valid() && Rounded(f, RTZ, v, zeroSign, r, fl, fl') && !fl'.overflow
    requires f.IsBits(c) && f.IsFinite(c)
    ensures Distance(0.0, f.Value(r)) <= Distance(0.0, v)
    ensures Distance(0.0, f.Value(c)) <= Distance(0.0, v) ==> Distance(0.0, f.Value(c)) <= Distance(0.0, f.Value(r))
  {
    hide *;
    AnySigned(f, c);
    DistanceDef(0.0, v, f.Value(r));
    DistanceDef(0.0, f.Value(c), v);
    if v == 0.0 {
      ZeroResult(f, RTZ, zeroSign, r, fl, fl');
    } else {
      var k := FiniteRung(f, RTZ, v, zeroSign, r, fl, fl');
      var x := if v < 0.0 then -v else v;
      MagValueLe(f, 0, k);
      LastRungBelow(f, RTZ, v < 0.0, x, k, f.Mag(c));
      if f.Mag(c) <= k {
        MagValueLe(f, f.Mag(c), k);
      }
    }
  }
}
