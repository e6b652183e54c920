/**
 * What a correctly rounded IEEE 754-2008 operation must deliver, for any binary
 * interchange format: the reference every SoftFP operation is measured against.
 *
 * The magnitude bits of a float, read as a natural number, order the finite floats.
 * Continued past the largest exponent they form an endless ladder of rungs; the value
 * of a rung, in units of the smallest subnormal, is a natural number.  Rounding an
 * exact real means choosing between the two rungs around it (section 4.3), and only
 * then deciding whether the chosen rung overflows (section 7.4).
 */
module Ieee754 {
  import opened Powers

  datatype RoundingMode = RNE | RTZ | RDN | RUP | RMM

  datatype Flags = Flags(invalid: bool, divideByZero: bool, overflow: bool, underflow: bool, inexact: bool) {
    function Or(that: Flags): Flags {
      Flags(invalid || that.invalid, divideByZero || that.divideByZero, overflow || that.overflow,
            underflow || that.underflow, inexact || that.inexact)
    }
  }

  const NoFlags := Flags(false, false, false, false, false)
  const Invalid := NoFlags.(invalid := true)
  const DivideByZero := NoFlags.(divideByZero := true)

  /** A binary format: binary32 is Format(23, 8), binary64 Format(52, 11), binary128 Format(112, 15). */
  datatype Format = Format(mantSize: nat, expSize: nat) {
    predicate Valid() {
      mantSize >= 2 && expSize >= 5 && (mantSize + expSize) % 2 == 1
    }

    function Size(): nat { 1 + mantSize + expSize }

    function RndSize(): nat requires Valid() { expSize - 1 }

    function ExpMask(): nat
      requires Valid()
      ensures ExpMask() >= 31
    {
      Pow2Le(5, expSize);
      Pow2(expSize) - 1
    }

    function Bias(): nat requires Valid() { Pow2(expSize - 1) - 1 }

    /** Exponent of the smallest subnormal. */
    function MinExp(): int requires Valid() { 1 - Bias() - mantSize }

    /** The first magnitude that is not finite. */
    function InfMag(): nat requires Valid() { ExpMask() * Pow2(mantSize) }

    /** The largest finite magnitude. */
    function MaxFinite(): nat requires Valid() { (ExpMask() - 1) * Pow2(mantSize) + (Pow2(mantSize) - 1) }

    predicate IsBits(a: nat) { a < Pow2(Size()) }

    predicate Negative(a: nat) { a >= Pow2(Size() - 1) }

    function Mag(a: nat): nat { Low(a, Size() - 1) }

    function Exp(a: nat): nat { Shr(Mag(a), mantSize) }

    function Mant(a: nat): nat { Low(Mag(a), mantSize) }

    function Bits(negative: bool, mag: nat): nat { (if negative then Pow2(Size() - 1) else 0) + mag }

    predicate IsNaN(a: nat) requires Valid() { Mag(a) > InfMag() }

    predicate IsInf(a: nat) requires Valid() { Mag(a) == InfMag() }

    predicate IsFinite(a: nat) requires Valid() { Mag(a) < InfMag() }

    predicate IsZero(a: nat) { Mag(a) == 0 }

    predicate IsSignaling(a: nat) requires Valid() { IsNaN(a) && Mant(a) < Pow2(mantSize) / 2 }

    /** The quiet NaN every invalid operation delivers. */
    function QNaN(): nat requires Valid() { InfMag() + Pow2(mantSize) / 2 }

    /** Value of a rung of the ladder, in units of the smallest subnormal. */
    function Rung(m: nat): nat
      requires Valid()
    {
      var e, t := Shr(m, mantSize), Low(m, mantSize);
      if e == 0 then t else (Pow2(mantSize) + t) * Pow2(e - 1)
    }

    ghost function MagValue(m: nat): real
      requires Valid()
    {
      Rung(m) as real * P2(MinExp())
    }

    ghost function Value(a: nat): real
      requires Valid()
    {
      if Negative(a) then -MagValue(Mag(a)) else MagValue(Mag(a))
    }
  }

  /** Whether a value x with lo <= x < hi between neighbouring rungs goes to hi. */
  ghost predicate RoundsUp(rm: RoundingMode, negative: bool, loIsOdd: bool, lo: real, x: real, hi: real) {
    x != lo &&
    match rm
    case RNE => x - lo > hi - x || (x - lo == hi - x && loIsOdd)
    case RMM => x - lo >= hi - x
    case RTZ => false
    case RDN => negative
    case RUP => !negative
  }

  ghost predicate Between(f: Format, x: real, m: nat)
    requires f.Valid()
  {
    f.MagValue(m) <= x < f.MagValue(m + 1)
  }

  /** The rung x goes to when m is the last rung not above it. */
  ghost function ChosenRung(f: Format, rm: RoundingMode, negative: bool, x: real, m: nat): nat
    requires f.Valid()
  {
    if RoundsUp(rm, negative, m % 2 == 1, f.MagValue(m), x, f.MagValue(m + 1)) then m + 1 else m
  }

  /** Section 4.3: k is the rung to which the magnitude x rounds, exponents unbounded above. */
  ghost predicate RoundsTo(f: Format, rm: RoundingMode, negative: bool, x: real, k: nat)
    requires f.Valid()
  {
    exists m: nat :: Between(f, x, m) && k == ChosenRung(f, rm, negative, x, m)
  }

  ghost predicate RoundsBelow(f: Format, rm: RoundingMode, negative: bool, x: real, bound: nat)
    requires f.Valid()
  {
    exists k: nat :: RoundsTo(f, rm, negative, x, k) && k < bound
  }

  /**
   * Section 7.5, tininess after rounding: with one more binade below the normal numbers
   * the rounded value is still below the smallest normal number.  (Scaling x by two
   * moves that extra binade onto the ladder; TinyAtAnyScale shows that one is enough.)
   */
  ghost predicate Tiny(f: Format, rm: RoundingMode, negative: bool, x: real)
    requires f.Valid()
  {
    RoundsBelow(f, rm, negative, 2.0 * x, 2 * Pow2(f.mantSize))
  }

  /** Section 7.4: what an overflowing magnitude becomes. */
  function Deliver(f: Format, rm: RoundingMode, negative: bool, k: nat): nat
    requires f.Valid()
  {
    if k < f.InfMag() then k
    else if rm == RTZ || (rm == RDN && !negative) || (rm == RUP && negative) then f.MaxFinite()
    else f.InfMag()
  }

  ghost function Raised(f: Format, rm: RoundingMode, negative: bool, x: real, k: nat): Flags
    requires f.Valid()
  {
    var overflow := k >= f.InfMag();
    var inexact := f.MagValue(k) != x;
    Flags(false, false, overflow, inexact && Tiny(f, rm, negative, x), inexact || overflow)
  }

  /** r and the flags are what rounding a result of sign `negative` and exact magnitude x must give. */
  ghost predicate RoundedMagnitude(f: Format, rm: RoundingMode, negative: bool, x: real, r: nat, fl: Flags, fl': Flags)
    requires f.Valid()
  {
    exists k: nat ::
      && RoundsTo(f, rm, negative, x, k)
      && r == f.Bits(negative, Deliver(f, rm, negative, k))
      && fl' == fl.Or(Raised(f, rm, negative, x, k))
  }

  /** r and the flags are the correctly rounded v; a v of zero takes the sign `zeroSign`. */
  ghost predicate Rounded(f: Format, rm: RoundingMode, v: real, zeroSign: bool, r: nat, fl: Flags, fl': Flags)
    requires f.Valid()
  {
    if v == 0.0 then r == f.Bits(zeroSign, 0) && fl' == fl
    else RoundedMagnitude(f, rm, v < 0.0, if v < 0.0 then -v else v, r, fl, fl')
  }

  // The ladder climbs

  lemma RungAt(f: Format, e: nat, t: nat)
    requires f.Valid()
    requires e >= 1 && t <= 2 * Pow2(f.mantSize) && (e == 1 || t >= Pow2(f.mantSize))
    ensures f.Rung((e - 1) * Pow2(f.mantSize) + t) == t * Pow2(e - 1)
  {
    hide *;
    var n := Pow2(f.mantSize);
    var m := (e - 1) * n + t;
    RungDef(f, m);
    Pow2Even(e);
    Pow2Zero();
    MulDiff(e, 1, n);
    MulDiff(e + 1, 2, n);
    if t < n {
      ShrUnique(m, f.mantSize, 0, t);
    } else if t < 2 * n {
      ShrUnique(m, f.mantSize, e, t - n);
    } else {
      ShrUnique(m, f.mantSize, e + 1, 0);
      DoubleProduct(n, Pow2(e - 1), Pow2(e));
    }
  }

  lemma DoubleProduct(n: nat, p: nat, p': nat)
    requires p' == 2 * p
    ensures n * p' == (2 * n) * p
  {
  }

  lemma RungDef(f: Format, m: nat)
    requires f.Valid()
    ensures f.Rung(m) == if Shr(m, f.mantSize) == 0 then Low(m, f.mantSize)
                         else (Pow2(f.mantSize) + Low(m, f.mantSize)) * Pow2(Shr(m, f.mantSize) - 1)
  {
  }

  /** Every rung is a significand at an exponent. */
  lemma RungParts(f: Format, m: nat) returns (e: nat, t: nat)
    requires f.Valid()
    ensures e >= 1 && t < 2 * Pow2(f.mantSize) && (e == 1 || t >= Pow2(f.mantSize))
    ensures m == (e - 1) * Pow2(f.mantSize) + t
  {
    hide *;
    e, t := Shr(m, f.mantSize), Low(m, f.mantSize);
    ShrParts(m, f.mantSize);
    if e == 0 {
      e := 1;
    } else {
      MulDiff(e, 1, Pow2(f.mantSize));
      t := t + Pow2(f.mantSize);
    }
  }

  lemma RungStep(f: Format, m: nat)
    requires f.Valid()
    ensures f.Rung(m) < f.Rung(m + 1)
  {
    hide *;
    var e, t := RungParts(f, m);
    RungAt(f, e, t);
    RungAt(f, e, t + 1);
    MulDiff(t + 1, 1, Pow2(e - 1));
  }

  lemma {:induction false} RungLt(f: Format, m: nat, n: nat)
    requires f.Valid() && m < n
    ensures f.Rung(m) < f.Rung(n)
    decreases n - m
  {
    RungStep(f, m);
    if m + 1 < n {
      RungLt(f, m + 1, n);
    }
  }

  lemma MagValueLt(f: Format, m: nat, n: nat)
    requires f.Valid() && m < n
    ensures f.MagValue(m) < f.MagValue(n)
  {
    hide *;
    RungLt(f, m, n);
    ScaleLt(f.Rung(m), f.Rung(n), P2(f.MinExp()), f.MagValue(m), f.MagValue(n)) by {
      MagValueDef(f, m);
      MagValueDef(f, n);
    }
  }

  lemma MagValueDef(f: Format, m: nat)
    requires f.Valid()
    ensures f.MagValue(m) == f.Rung(m) as real * P2(f.MinExp())
  {
  }

  lemma MagValueLe(f: Format, m: nat, n: nat)
    requires f.Valid() && m <= n
    ensures f.MagValue(m) <= f.MagValue(n)
  {
    if m < n {
      MagValueLt(f, m, n);
    }
  }

  // Rounding is a function

  lemma BetweenUnique(f: Format, x: real, m: nat, n: nat)
    requires f.Valid() && Between(f, x, m) && Between(f, x, n)
    ensures m == n
  {
    hide f.MagValue;
    if m < n {
      MagValueLe(f, m + 1, n);
    } else if n < m {
      MagValueLe(f, n + 1, m);
    }
  }

  lemma RoundsToUnique(f: Format, rm: RoundingMode, negative: bool, x: real, k: nat, k': nat)
    requires f.Valid() && RoundsTo(f, rm, negative, x, k) && RoundsTo(f, rm, negative, x, k')
    ensures k == k'
  {
    hide ChosenRung, Between;
    var m: nat :| Between(f, x, m) && k == ChosenRung(f, rm, negative, x, m);
    var m': nat :| Between(f, x, m') && k' == ChosenRung(f, rm, negative, x, m');
    BetweenUnique(f, x, m, m');
  }
}
