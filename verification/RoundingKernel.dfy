/**
 * The rounding kernel of SoftFP: the sticky right shift, packing with one rounding, and
 * the two normalizations in front of it.  A mantissa and an exponent stand for every real
 * that agrees with them on the grid of half a unit in the last place; for each of them
 * the kernel delivers the correctly rounded float and exactly the IEEE flags.
 */
module RoundingKernel {
  import opened Powers
  import opened Ieee754
  import opened Sticky

  /** Exponent of the last mantissa bit, for a mantissa whose top bit is at Size - 2. */
  function LastBitExp(f: Format, exp: int): int
    requires f.Valid()
  {
    exp - 1 - f.RndSize() + f.MinExp()
  }

  /** x cannot be told from mant * 2^LastBitExp on the grid of spacing g. */
  ghost predicate Represents(f: Format, exp: int, mant: nat, x: real, g: nat)
    requires f.Valid() && g > 0
  {
    exists y: real :: Agree(y, mant, g) && x == y * P2(LastBitExp(f, exp))
  }

  function HalfUlp(f: Format): (h: nat)
    requires f.Valid()
    ensures h > 0 && h % 4 == 0 && 2 * h == Pow2(f.RndSize())
  {
    PowerHalves(f.RndSize() - 1);
    Pow2(f.RndSize() - 1)
  }

  lemma PowerHalves(n: nat)
    requires n >= 2
    ensures Pow2(n) > 0 && Pow2(n) % 4 == 0 && 2 * Pow2(n) == Pow2(n + 1)
  {
    hide *;
    Pow2Double(n);
    Pow2Double(n - 1);
    Pow2Double(n + 1);
  }

  /** What is added before the low RndSize bits are cut off. */
  function Addend(f: Format, rm: RoundingMode, negative: bool): nat
    requires f.Valid()
  {
    match rm
    case RNE => HalfUlp(f)
    case RMM => HalfUlp(f)
    case RTZ => 0
    case RDN => if negative then 2 * HalfUlp(f) - 1 else 0
    case RUP => if negative then 0 else 2 * HalfUlp(f) - 1
  }

  /** The significand after adding, cutting off, and taking a tie to even. */
  function RoundSig(f: Format, rm: RoundingMode, negative: bool, mant: nat): nat
    requires f.Valid()
  {
    var sum := Shr(mant + Addend(f, rm, negative), f.RndSize());
    if rm == RNE && Low(mant, f.RndSize()) == HalfUlp(f) then sum - sum % 2 else sum
  }

  /** Half-open cells: whether the significand moves up depends only on the cut-off bits. */
  ghost predicate SigRoundsUp(rm: RoundingMode, negative: bool, odd: bool, low: nat, half: nat) {
    low != 0 &&
    match rm
    case RNE => low > half || (low == half && odd)
    case RMM => low >= half
    case RTZ => false
    case RDN => negative
    case RUP => !negative
  }

  lemma RoundSigSteps(f: Format, rm: RoundingMode, negative: bool, mant: nat)
    requires f.Valid()
    ensures RoundSig(f, rm, negative, mant)
         == Shr(mant, f.RndSize())
            + if SigRoundsUp(rm, negative, Shr(mant, f.RndSize()) % 2 == 1, Low(mant, f.RndSize()), HalfUlp(f)) then 1 else 0
  {
    hide *;
    var q, low := Shr(mant, f.RndSize()), Low(mant, f.RndSize());
    var addend := Addend(f, rm, negative);
    ShrParts(mant, f.RndSize());
    MulDiff(q + 1, 1, Pow2(f.RndSize()));
    if low + addend < 2 * HalfUlp(f) {
      ShrUnique(mant + addend, f.RndSize(), q, low + addend);
    } else {
      AddendSmall(f, rm, negative);
      ShrUnique(mant + addend, f.RndSize(), q + 1, low + addend - 2 * HalfUlp(f));
    }
    RoundSigDef(f, rm, negative, mant);
    RoundSigCases(f, rm, negative, q, low);
  }

  lemma RoundSigDef(f: Format, rm: RoundingMode, negative: bool, mant: nat)
    requires f.Valid()
    ensures var sum := Shr(mant + Addend(f, rm, negative), f.RndSize());
      RoundSig(f, rm, negative, mant) == if rm == RNE && Low(mant, f.RndSize()) == HalfUlp(f) then sum - sum % 2 else sum
  {
  }

  lemma RoundSigCases(f: Format, rm: RoundingMode, negative: bool, q: nat, low: nat)
    requires f.Valid() && low < 2 * HalfUlp(f)
    ensures var up := low + Addend(f, rm, negative) >= 2 * HalfUlp(f);
      var sum := if up then q + 1 else q;
      (if rm == RNE && low == HalfUlp(f) then sum - sum % 2 else sum)
      == q + if SigRoundsUp(rm, negative, q % 2 == 1, low, HalfUlp(f)) then 1 else 0
  {
    hide HalfUlp;
  }

  // Where a represented value lies between two rungs

  /** Position of z relative to q, q + 1/2 and q + 1, told by the cut-off bits. */
  ghost predicate Placed(z: real, q: nat, low: nat, h: nat) {
    && (low == 0 ==> z == q as real)
    && (0 < low < h ==> q as real < z < q as real + 0.5)
    && (low == h ==> z == q as real + 0.5)
    && (h < low ==> q as real + 0.5 < z < q as real + 1.0)
  }

  lemma PlaceInCell(y: real, z: real, mant: nat, h: nat, g: nat, q: nat, low: nat)
    requires h > 0 && g == 2 * h && Agree(y, mant, h) && mant == q * g + low && low < g
    requires y == z * g as real
    ensures Placed(z, q, low, h)
  {
    var c := AgreeCell(y, mant, h);
    hide Agree;
    assert q * g == (2 * q) * h;
    if low < h {
      DivModUnique(mant, h, 2 * q, low);
    } else {
      assert (2 * q + 1) * h == (2 * q) * h + h;
      DivModUnique(mant, h, 2 * q + 1, low - h);
    }
    InUnits(y, z, q * g, h, g, q);
  }

  lemma InUnits(y: real, z: real, c: int, h: nat, g: nat, q: nat)
    requires h > 0 && g == 2 * h && c == q * g && y == z * g as real
    ensures c as real <= y <==> q as real <= z
    ensures c as real == y <==> q as real == z
    ensures (c + h) as real <= y <==> q as real + 0.5 <= z
    ensures (c + h) as real == y <==> q as real + 0.5 == z
    ensures (c + g) as real <= y <==> q as real + 1.0 <= z
  {
    RealMul(q, g);
    Translate(q as real, z, g as real, 0.0, 0.0);
    Translate(q as real, z, g as real, 0.5, h as real);
    Translate(q as real, z, g as real, 1.0, g as real);
  }

  lemma Translate(q: real, z: real, g: real, d: real, dg: real)
    requires g > 0.0 && dg == d * g
    ensures q * g + dg <= z * g <==> q + d <= z
    ensures q * g + dg == z * g <==> q + d == z
  {
    assert (q + d) * g == q * g + d * g;
    MulLe(q + d, z, g);
  }

  /** The same position measured in units u, as RoundsUp wants it. */
  lemma PlaceAtScale(rm: RoundingMode, negative: bool, z: real, q: nat, low: nat, h: nat,
                     u: real, lo: real, x: real, hi: real)
    requires h > 0 && u > 0.0 && Placed(z, q, low, h)
    requires lo == q as real * u && x == z * u && hi == (q + 1) as real * u
    ensures lo <= x < hi
    ensures RoundsUp(rm, negative, q % 2 == 1, lo, x, hi) <==> SigRoundsUp(rm, negative, q % 2 == 1, low, h)
    ensures x == lo <==> low == 0
  {
    var mid := (q as real + 0.5) * u;
    assert mid - lo == 0.5 * u && hi - mid == 0.5 * u;
    MulLe(q as real, z, u);
    MulLe(q as real + 0.5, z, u);
    MulLe(q as real + 1.0, z, u);
    hide *;
    OrderAtScale(z, q, low, h, lo, mid, hi, x);
    assert x - lo > hi - x <==> x > mid;
    assert x - lo == hi - x <==> x == mid;
  }

  lemma OrderAtScale(z: real, q: nat, low: nat, h: nat, lo: real, mid: real, hi: real, x: real)
    requires h > 0 && Placed(z, q, low, h)
    requires q as real <= z <==> lo <= x
    requires q as real == z <==> lo == x
    requires q as real + 0.5 <= z <==> mid <= x
    requires q as real + 0.5 == z <==> mid == x
    requires q as real + 1.0 <= z <==> hi <= x
    ensures lo <= x < hi
    ensures low == 0 <==> x == lo
    ensures low < h <==> x < mid
    ensures low == h <==> x == mid
  {
  }

  /** The unit in the last place at exponent e. */
  ghost function Ulp(f: Format, e: int): (u: real)
    requires f.Valid()
    ensures u > 0.0
  {
    P2(e - 1 + f.MinExp())
  }

  lemma UlpDef(f: Format, e: int)
    requires f.Valid()
    ensures Ulp(f, e) == P2(e - 1 + f.MinExp()) == P2(f.RndSize() + LastBitExp(f, e))
  {
  }

  lemma ValueAt(f: Format, e: nat, t: nat)
    requires f.Valid() && e >= 1
    requires t <= 2 * Pow2(f.mantSize) && (e == 1 || t >= Pow2(f.mantSize))
    ensures f.MagValue((e - 1) * Pow2(f.mantSize) + t) == t as real * Ulp(f, e)
  {
    hide *;
    UlpDef(f, e);
    var m := (e - 1) * Pow2(f.mantSize) + t;
    RungAt(f, e, t);
    MagValueDef(f, m);
    P2AddNat(e - 1, f.MinExp());
    Regroup(t, Pow2(e - 1), P2(f.MinExp()), Ulp(f, e), f.Rung(m), f.MagValue(m));
  }

  lemma Regroup(t: nat, p: nat, u: real, pu: real, r: nat, v: real)
    requires pu == p as real * u && r == t * p && v == r as real * u
    ensures v == t as real * pu
  {
    RealMul(t, p);
    assert (t as real * p as real) * u == t as real * (p as real * u);
  }

  /** One rounding at a normal exponent, or at the subnormal exponent 1. */
  lemma RoundAtExponent(f: Format, rm: RoundingMode, negative: bool, e: nat, mant: nat, x: real)
    requires f.Valid() && e >= 1 && mant < Pow2(f.Size() - 1)
    requires e == 1 || mant >= Pow2(f.Size() - 2)
    requires Represents(f, e, mant, x, HalfUlp(f))
    ensures RoundSig(f, rm, negative, mant) <= 2 * Pow2(f.mantSize)
    ensures e == 1 || RoundSig(f, rm, negative, mant) >= Pow2(f.mantSize)
    ensures var k := (e - 1) * Pow2(f.mantSize) + RoundSig(f, rm, negative, mant);
      && RoundsTo(f, rm, negative, x, k)
      && (f.MagValue(k) == x <==> Low(mant, f.RndSize()) == 0)
  {
    hide *;
    var q, low := Shr(mant, f.RndSize()), Low(mant, f.RndSize());
    var up := SigRoundsUp(rm, negative, q % 2 == 1, low, HalfUlp(f));
    SigRangeOf(f, mant);
    RoundSigSteps(f, rm, negative, mant);
    var m := PlaceOnLadder(f, rm, negative, e, mant, x);
    ChooseRung(f, rm, negative, x, m, q % 2 == 1, up, low == 0);
  }

  lemma SigRangeOf(f: Format, mant: nat)
    requires f.Valid()
    ensures mant < Pow2(f.Size() - 1) <==> Shr(mant, f.RndSize()) < 2 * Pow2(f.mantSize)
    ensures mant >= Pow2(f.Size() - 2) <==> Shr(mant, f.RndSize()) >= Pow2(f.mantSize)
  {
    hide *;
    ShrParts(mant, f.RndSize());
    SigRange(f, mant, Shr(mant, f.RndSize()), Low(mant, f.RndSize()));
  }

  /** The rung below x is the one the kept bits name; the cut-off bits tell where x is above it. */
  lemma PlaceOnLadder(f: Format, rm: RoundingMode, negative: bool, e: nat, mant: nat, x: real) returns (m: nat)
    requires f.Valid() && e >= 1 && mant < Pow2(f.Size() - 1)
    requires e == 1 || mant >= Pow2(f.Size() - 2)
    requires Represents(f, e, mant, x, HalfUlp(f))
    ensures var q, low := Shr(mant, f.RndSize()), Low(mant, f.RndSize());
      && m == (e - 1) * Pow2(f.mantSize) + q
      && m % 2 == q % 2
      && f.MagValue(m) <= x < f.MagValue(m + 1)
      && (RoundsUp(rm, negative, q % 2 == 1, f.MagValue(m), x, f.MagValue(m + 1))
          <==> SigRoundsUp(rm, negative, q % 2 == 1, low, HalfUlp(f)))
      && (low == 0 <==> x == f.MagValue(m))
  {
    hide *;
    var u := Ulp(f, e);
    var q, low := Shr(mant, f.RndSize()), Low(mant, f.RndSize());
    m := (e - 1) * Pow2(f.mantSize) + q;
    EvenSignificands(f);
    EvenMultiple(e - 1, Pow2(f.mantSize), q);
    SigRangeOf(f, mant);
    ValueAt(f, e, q);
    ValueAt(f, e, q + 1);
    var z := PlaceOf(f, e, mant, x);
    PlaceAtScale(rm, negative, z, q, low, HalfUlp(f), u, f.MagValue(m), x, f.MagValue(m + 1));
  }

  lemma PlaceOf(f: Format, e: nat, mant: nat, x: real) returns (z: real)
    requires f.Valid() && Represents(f, e, mant, x, HalfUlp(f))
    ensures x == z * Ulp(f, e)
    ensures Placed(z, Shr(mant, f.RndSize()), Low(mant, f.RndSize()), HalfUlp(f))
  {
    hide *;
    var y;
    y, z := UlpCoordinate(f, e, mant, x);
    ShrParts(mant, f.RndSize());
    PlaceInCell(y, z, mant, HalfUlp(f), Pow2(f.RndSize()), Shr(mant, f.RndSize()), Low(mant, f.RndSize()));
  }

  lemma ChooseRung(f: Format, rm: RoundingMode, negative: bool, x: real, m: nat, odd: bool, up: bool, exact: bool)
    requires f.Valid() && f.MagValue(m) <= x < f.MagValue(m + 1) && odd == (m % 2 == 1)
    requires RoundsUp(rm, negative, odd, f.MagValue(m), x, f.MagValue(m + 1)) == up
    requires exact <==> x == f.MagValue(m)
    ensures var k := if up then m + 1 else m;
      RoundsTo(f, rm, negative, x, k) && (f.MagValue(k) == x <==> exact)
  {
    hide f.MagValue;
    assert Between(f, x, m);
  }

  lemma Witness(f: Format, e: int, mant: nat, x: real, g: nat) returns (y: real)
    requires f.Valid() && g > 0 && Represents(f, e, mant, x, g)
    ensures Agree(y, mant, g) && x == y * P2(LastBitExp(f, e))
  {
    hide Agree, P2, LastBitExp;
    y :| Agree(y, mant, g) && x == y * P2(LastBitExp(f, e));
  }

  lemma EvenSignificands(f: Format)
    requires f.Valid()
    ensures Pow2(f.mantSize) % 2 == 0
  {
  }

  /** A represented value, measured in units in the last place. */
  lemma UlpCoordinate(f: Format, e: int, mant: nat, x: real) returns (y: real, z: real)
    requires f.Valid() && Represents(f, e, mant, x, HalfUlp(f))
    ensures Agree(y, mant, HalfUlp(f)) && y == z * Pow2(f.RndSize()) as real && x == z * Ulp(f, e)
  {
    hide *;
    y := Witness(f, e, mant, x, HalfUlp(f));
    z := y / Pow2(f.RndSize()) as real;
    UlpDef(f, e);
    P2AddNat(f.RndSize(), LastBitExp(f, e));
    Reassociate(y, z, Pow2(f.RndSize()) as real, P2(LastBitExp(f, e)), Ulp(f, e));
  }

  lemma Reassociate(y: real, z: real, g: real, s: real, u: real)
    requires y == z * g && u == g * s
    ensures y * s == z * u
  {
    assert (z * g) * s == z * (g * s);
  }

  lemma SigRange(f: Format, mant: nat, q: nat, low: nat)
    requires f.Valid() && mant == q * Pow2(f.RndSize()) + low && low < Pow2(f.RndSize())
    ensures mant < Pow2(f.Size() - 1) <==> q < 2 * Pow2(f.mantSize)
    ensures mant >= Pow2(f.Size() - 2) <==> q >= Pow2(f.mantSize)
  {
    Pow2Add(f.mantSize, f.RndSize());
    Pow2Add(f.mantSize + 1, f.RndSize());
    CompareQuotient(mant, Pow2(f.RndSize()), q, low, Pow2(f.mantSize));
    CompareQuotient(mant, Pow2(f.RndSize()), q, low, Pow2(f.mantSize + 1));
  }

  lemma CompareQuotient(a: nat, d: nat, q: nat, r: nat, b: nat)
    requires a == q * d + r && r < d
    ensures a < b * d <==> q < b
  {
    if q < b {
      MulDiff(b, q, d);
      MulAtLeast(b - q, d);
    } else {
      MulDiff(q, b, d);
      assert (q - b) * d >= 0;
    }
  }

  // Moving a mantissa by powers of two

  lemma IntroRepresents(f: Format, e: int, mant: nat, x: real, g: nat, y: real)
    requires f.Valid() && g > 0 && Agree(y, mant, g) && x == y * P2(LastBitExp(f, e))
    ensures Represents(f, e, mant, x, g)
  {
  }

  lemma LastBitExpStep(f: Format, e: int, d: int)
    requires f.Valid()
    ensures LastBitExp(f, e + d) == d + LastBitExp(f, e)
  {
  }

  lemma RepresentsDouble(f: Format, e: int, mant: nat, x: real, g: nat)
    requires f.Valid() && g > 0 && Represents(f, e, mant, x, g)
    ensures Represents(f, e + 1, mant, 2.0 * x, g)
  {
    hide *;
    var y := Witness(f, e, mant, x, g);
    P2Step(LastBitExp(f, e));
    LastBitExpStep(f, e, 1);
    IntroRepresents(f, e + 1, mant, 2.0 * x, g, y);
  }

  lemma RepresentsShiftedOn(f: Format, e: int, mant: nat, x: real, d: nat, g: nat)
    requires f.Valid() && g > 0 && g % 2 == 0 && Pow2(d) * g > 0 && Represents(f, e, mant, x, Pow2(d) * g)
    ensures Represents(f, e + d, ShiftSticky(mant, d), x, g)
  {
    hide *;
    var y := Witness(f, e, mant, x, Pow2(d) * g);
    var y' := Downscale(f, e, x, y, d);
    AgreeShift(y, y', mant, d, g);
    IntroRepresents(f, e + d, ShiftSticky(mant, d), x, g, y');
  }

  /** The same value, measured in units 2^d larger. */
  lemma Downscale(f: Format, e: int, x: real, y: real, d: nat) returns (y': real)
    requires f.Valid() && x == y * P2(LastBitExp(f, e))
    ensures y == y' * Pow2(d) as real && x == y' * P2(LastBitExp(f, e + d))
  {
    hide *;
    y' := y / Pow2(d) as real;
    LastBitExpStep(f, e, d);
    P2AddNat(d, LastBitExp(f, e));
    Reassociate(y, y', Pow2(d) as real, P2(LastBitExp(f, e)), P2(LastBitExp(f, e + d)));
  }

  lemma RepresentsCoarser(f: Format, e: int, mant: nat, x: real, g: nat, k: nat)
    requires f.Valid() && g > 0 && k > 0 && Represents(f, e, mant, x, g)
    ensures k * g > 0 && Represents(f, e, mant, x, k * g)
  {
    hide *;
    var y := Witness(f, e, mant, x, g);
    AgreeCoarsen(y, mant, g, k);
    MulCommutes(g, k);
    IntroRepresents(f, e, mant, x, k * g, y);
  }

  lemma EvenHalf(f: Format)
    requires f.Valid()
    ensures HalfUlp(f) % 2 == 0
  {
  }

  lemma RepresentsShifted(f: Format, e: int, mant: nat, x: real, d: nat)
    requires f.Valid() && Represents(f, e, mant, x, HalfUlp(f))
    ensures Represents(f, e + d, ShiftSticky(mant, d), x, HalfUlp(f))
  {
    hide *;
    EvenHalf(f);
    RepresentsCoarser(f, e, mant, x, HalfUlp(f), Pow2(d));
    RepresentsShiftedOn(f, e, mant, x, d, HalfUlp(f));
  }

  // Tininess after rounding

  lemma TinyIff(f: Format, rm: RoundingMode, negative: bool, x: real, k: nat)
    requires f.Valid() && RoundsTo(f, rm, negative, 2.0 * x, k)
    ensures Tiny(f, rm, negative, x) <==> k < 2 * Pow2(f.mantSize)
  {
    hide RoundsTo;
    if Tiny(f, rm, negative, x) {
      var k': nat :| RoundsTo(f, rm, negative, 2.0 * x, k') && k' < 2 * Pow2(f.mantSize);
      RoundsToUnique(f, rm, negative, 2.0 * x, k, k');
    }
  }

  lemma NotTiny(f: Format, rm: RoundingMode, negative: bool, e: nat, mant: nat, x: real)
    requires f.Valid() && e >= 1 && Pow2(f.Size() - 2) <= mant < Pow2(f.Size() - 1)
    requires Represents(f, e, mant, x, HalfUlp(f))
    ensures !Tiny(f, rm, negative, x)
  {
    hide *;
    RepresentsDouble(f, e, mant, x, HalfUlp(f));
    RoundAtExponent(f, rm, negative, e + 1, mant, 2.0 * x);
    TinyIff(f, rm, negative, x, e * Pow2(f.mantSize) + RoundSig(f, rm, negative, mant));
    MulAtLeast(e, Pow2(f.mantSize));
  }

  lemma TinyJustBelow(f: Format, rm: RoundingMode, negative: bool, mant: nat, x: real)
    requires f.Valid() && Pow2(f.Size() - 2) <= mant < Pow2(f.Size() - 1)
    requires Represents(f, 0, mant, x, HalfUlp(f))
    ensures Tiny(f, rm, negative, x) <==> mant + Addend(f, rm, negative) < Pow2(f.Size() - 1)
  {
    hide *;
    RepresentsDouble(f, 0, mant, x, HalfUlp(f));
    RoundAtExponent(f, rm, negative, 1, mant, 2.0 * x);
    TinyIff(f, rm, negative, x, RoundSig(f, rm, negative, mant));
    SigBelow(f, rm, negative, mant);
  }

  lemma SigBelow(f: Format, rm: RoundingMode, negative: bool, mant: nat)
    requires f.Valid()
    ensures RoundSig(f, rm, negative, mant) < 2 * Pow2(f.mantSize)
       <==> mant + Addend(f, rm, negative) < Pow2(f.Size() - 1)
  {
    hide *;
    var sum := mant + Addend(f, rm, negative);
    SigRangeOf(f, sum);
    RoundSigDef(f, rm, negative, mant);
  }

  lemma TinyFarBelow(f: Format, rm: RoundingMode, negative: bool, e: int, mant: nat, x: real)
    requires f.Valid() && e < 0 && mant < Pow2(f.Size() - 1)
    requires Represents(f, e, mant, x, HalfUlp(f))
    ensures Tiny(f, rm, negative, x)
  {
    hide *;
    RepresentsDouble(f, e, mant, x, HalfUlp(f));
    RepresentsShifted(f, e + 1, mant, 2.0 * x, -e);
    var mant' := ShiftSticky(mant, -e);
    ShiftSmaller(f, mant, -e);
    AddendSmall(f, rm, negative);
    RoundAtExponent(f, rm, negative, 1, mant', 2.0 * x);
    TinyIff(f, rm, negative, x, RoundSig(f, rm, negative, mant'));
    SigBelow(f, rm, negative, mant');
  }

  lemma AddendSmall(f: Format, rm: RoundingMode, negative: bool)
    requires f.Valid()
    ensures Addend(f, rm, negative) < 2 * HalfUlp(f) <= Pow2(f.Size() - 2)
    ensures Pow2(f.Size()) == 2 * Pow2(f.Size() - 1) && Pow2(f.Size() - 1) == 2 * Pow2(f.Size() - 2)
  {
    Pow2Le(f.RndSize(), f.Size() - 2);
  }

  lemma ShiftSmaller(f: Format, mant: nat, d: nat)
    requires f.Valid() && mant < Pow2(f.Size() - 1) && d >= 1
    ensures ShiftSticky(mant, d) < Pow2(f.Size() - 2)
  {
    hide *;
    Pow2Le(1, d);
    AddendSmall(f, RTZ, false);
    Pow2Zero();
    SizeIs(f);
    ShrParts(mant, d);
    QuotientSmaller(Shr(mant, d), Pow2(d), mant, Pow2(f.Size() - 2));
    StickyBelow(f, mant, d);
  }

  lemma SizeIs(f: Format)
    requires f.Valid()
    ensures f.Size() == f.mantSize + f.RndSize() + 2 && f.RndSize() >= 4
  {
  }

  lemma QuotientSmaller(q: nat, d: nat, a: nat, b: nat)
    requires d >= 2 && q * d <= a < 2 * b
    ensures q < b
  {
    assert q * d >= q * 2;
  }

  lemma StickyBelow(f: Format, a: nat, d: nat)
    requires f.Valid() && Shr(a, d) < Pow2(f.Size() - 2)
    ensures ShiftSticky(a, d) < Pow2(f.Size() - 2)
  {
    Pow2Even(f.Size() - 2);
    hide Pow2;
  }

  // The code

  /** rshift_rnd: right shift, oring the lost bits into the last one. */
  method RShiftRnd(f: Format, a: nat, d: nat) returns (r: nat)
    requires f.Valid() && a < Pow2(f.Size())
    ensures r == ShiftSticky(a, d)
  {
    r := a;
    if d != 0 {
      if d >= f.Size() {
        r := if a != 0 then 1 else 0;
        Pow2Le(f.Size(), d);
        ShrUnique(a, d, 0, a);
      } else {
        r := OrBit(Shr(a, d), Low(a, d) != 0);
      }
    } else {
      ShrUnique(a, 0, a, 0);
    }
  }

  /** pack_sf */
  function Pack(f: Format, negative: bool, exp: nat, mant: nat): nat {
    f.Bits(negative, exp * Pow2(f.mantSize) + Low(mant, f.mantSize))
  }

  /** The rung (e - 1) * 2^mantSize + sig, as round_pack_sf puts it together. */
  lemma PackRung(f: Format, negative: bool, e: nat, sig: nat)
    requires f.Valid() && e >= 1 && sig <= 2 * Pow2(f.mantSize) && (e == 1 || sig >= Pow2(f.mantSize))
    ensures var k, exp := (e - 1) * Pow2(f.mantSize) + sig, e + Shr(sig, f.mantSize + 1);
      if sig < Pow2(f.mantSize) then k < f.InfMag() && Pack(f, negative, 0, sig) == f.Bits(negative, k)
      else if exp < f.ExpMask() then k < f.InfMag() && Pack(f, negative, exp, sig) == f.Bits(negative, k)
      else k >= f.InfMag()
  {
    var n := Pow2(f.mantSize);
    Pow2Even(f.mantSize + 1);
    if sig < n {
      ShrUnique(sig, f.mantSize, 0, sig);
      MulAtLeast(f.ExpMask(), n);
    } else if sig < 2 * n {
      ShrUnique(sig, f.mantSize, 1, sig - n);
      ShrUnique(sig, f.mantSize + 1, 0, sig);
      FieldOrder(e, sig - n, n, f.ExpMask());
      MulDiff(e, 1, n);
    } else {
      ShrUnique(sig, f.mantSize, 2, 0);
      ShrUnique(sig, f.mantSize + 1, 1, 0);
      FieldOrder(e + 1, 0, n, f.ExpMask());
      MulDiff(e + 1, 2, n);
    }
  }

  lemma FieldOrder(exp: nat, mant: nat, n: nat, mask: nat)
    requires mant < n
    ensures exp * n + mant < mask * n <==> exp < mask
  {
    CompareQuotient(exp * n + mant, n, exp, mant, mask);
  }

  lemma PackLimits(f: Format, negative: bool)
    requires f.Valid()
    ensures Pack(f, negative, f.ExpMask() - 1, Pow2(f.mantSize) - 1) == f.Bits(negative, f.MaxFinite())
    ensures Pack(f, negative, f.ExpMask(), 0) == f.Bits(negative, f.InfMag())
    ensures Pack(f, negative, 0, 0) == f.Bits(negative, 0)
  {
    ShrUnique(Pow2(f.mantSize) - 1, f.mantSize, 0, Pow2(f.mantSize) - 1);
    ShrUnique(0, f.mantSize, 0, 0);
  }

  lemma ZeroMant(f: Format, rm: RoundingMode, negative: bool, d: nat)
    requires f.Valid()
    ensures ShiftSticky(0, d) == 0 && RoundSig(f, rm, negative, 0) == 0 && Low(0, f.RndSize()) == 0
    ensures f.InfMag() > 0
  {
    ShrUnique(0, d, 0, 0);
    ShrUnique(0, f.RndSize(), 0, 0);
    ShrUnique(Addend(f, rm, negative), f.RndSize(), 0, Addend(f, rm, negative));
    MulAtLeast(f.ExpMask(), Pow2(f.mantSize));
  }

  lemma RoundedZero(f: Format, rm: RoundingMode, negative: bool, exp: int, x: real, r: nat, fl: Flags)
    requires f.Valid() && Represents(f, exp, 0, x, HalfUlp(f))
    requires r == f.Bits(negative, 0)
    ensures RoundedMagnitude(f, rm, negative, x, r, fl, fl)
  {
    hide *;
    var y := Witness(f, exp, 0, x, HalfUlp(f));
    AgreeZero(y, HalfUlp(f));
    ZeroMant(f, rm, negative, 0);
    RungZero(f);
    MagValueLt(f, 0, 1);
    ChooseRung(f, rm, negative, x, 0, false, RoundsUp(rm, negative, false, 0.0, 0.0, f.MagValue(1)), true);
    RoundsUpSame(rm, negative, f.MagValue(1));
    FlagsOr(fl, fl, false, false, false);
    IntroRounded(f, rm, negative, x, 0, fl, fl);
    DeliverFinite(f, rm, negative, 0);
  }

  lemma AgreeZero(y: real, g: nat)
    requires g > 0 && Agree(y, 0, g)
    ensures y == 0.0
  {
  }

  lemma RungZero(f: Format)
    requires f.Valid()
    ensures f.MagValue(0) == 0.0
  {
    DivModUnique(0, Pow2(f.mantSize), 0, 0);
  }

  lemma RoundsUpSame(rm: RoundingMode, negative: bool, hi: real)
    ensures !RoundsUp(rm, negative, false, 0.0, 0.0, hi)
  {
  }

  lemma DeliverFinite(f: Format, rm: RoundingMode, negative: bool, k: nat)
    requires f.Valid() && k < f.InfMag()
    ensures Deliver(f, rm, negative, k) == k
  {
  }

  /** The flags and the bits, once the significand and the exponent are settled. */
  lemma Finish(f: Format, rm: RoundingMode, negative: bool, e: nat, mant: nat, x: real,
               tiny: bool, k: nat, fl: Flags, fl': Flags)
    requires f.Valid() && e >= 1 && mant < Pow2(f.Size() - 1)
    requires e == 1 || mant >= Pow2(f.Size() - 2)
    requires Represents(f, e, mant, x, HalfUlp(f))
    requires k == (e - 1) * Pow2(f.mantSize) + RoundSig(f, rm, negative, mant)
    requires var inexact := Low(mant, f.RndSize()) != 0;
      && (inexact ==> tiny == Tiny(f, rm, negative, x))
      && fl' == fl.Or(Flags(false, false, k >= f.InfMag(), tiny && inexact, inexact || k >= f.InfMag()))
    ensures RoundedMagnitude(f, rm, negative, x, f.Bits(negative, Deliver(f, rm, negative, k)), fl, fl')
  {
    hide *;
    RoundAtExponent(f, rm, negative, e, mant, x);
    IntroRounded(f, rm, negative, x, k, fl, fl');
  }

  lemma IntroRounded(f: Format, rm: RoundingMode, negative: bool, x: real, k: nat, fl: Flags, fl': Flags)
    requires f.Valid() && RoundsTo(f, rm, negative, x, k)
    requires var inexact := f.MagValue(k) != x;
      fl' == fl.Or(Flags(false, false, k >= f.InfMag(), Tiny(f, rm, negative, x) && inexact, inexact || k >= f.InfMag()))
    ensures RoundedMagnitude(f, rm, negative, x, f.Bits(negative, Deliver(f, rm, negative, k)), fl, fl')
  {
  }

  /** The exponent and significand that reach the rounding step. */
  function StartExp(exp: int): (e: nat) ensures e >= 1 {
    if exp <= 0 then 1 else exp
  }

  function StartMant(exp: int, mant: nat): nat {
    if exp <= 0 then ShiftSticky(mant, 1 - exp) else mant
  }

  lemma Start(f: Format, rm: RoundingMode, negative: bool, exp: int, mant: nat, x: real)
    requires f.Valid() && Pow2(f.Size() - 2) <= mant < Pow2(f.Size() - 1)
    requires Represents(f, exp, mant, x, HalfUlp(f))
    ensures Represents(f, StartExp(exp), StartMant(exp, mant), x, HalfUlp(f))
    ensures Tiny(f, rm, negative, x)
       <==> exp < 0 || (exp == 0 && mant + Addend(f, rm, negative) < Pow2(f.Size() - 1))
  {
    hide *;
    StartDef(exp, mant);
    if exp <= 0 {
      RepresentsShifted(f, exp, mant, x, 1 - exp);
      if exp == 0 {
        TinyJustBelow(f, rm, negative, mant, x);
      } else {
        TinyFarBelow(f, rm, negative, exp, mant, x);
      }
    } else {
      NotTiny(f, rm, negative, exp, mant, x);
    }
  }

  lemma StartDef(exp: int, mant: nat)
    ensures StartExp(exp) == if exp <= 0 then 1 else exp
    ensures StartMant(exp, mant) == if exp <= 0 then ShiftSticky(mant, 1 - exp) else mant
  {
  }

  lemma StartRange(f: Format, exp: int, mant: nat)
    requires f.Valid() && mant < Pow2(f.Size() - 1) && (mant == 0 || Pow2(f.Size() - 2) <= mant)
    ensures var e, m := StartExp(exp), StartMant(exp, mant);
      m < Pow2(f.Size() - 1) && (e == 1 || mant == 0 || m >= Pow2(f.Size() - 2))
  {
    hide *;
    StartDef(exp, mant);
    AddendSmall(f, RTZ, false);
    if exp <= 0 {
      ShiftSmaller(f, mant, 1 - exp);
    }
  }

  lemma SigBounds(f: Format, rm: RoundingMode, negative: bool, e: nat, mant: nat)
    requires f.Valid() && e >= 1 && mant < Pow2(f.Size() - 1) && (e == 1 || mant >= Pow2(f.Size() - 2))
    ensures RoundSig(f, rm, negative, mant) <= 2 * Pow2(f.mantSize)
    ensures e == 1 || RoundSig(f, rm, negative, mant) >= Pow2(f.mantSize)
  {
    hide *;
    SigRangeOf(f, mant);
    RoundSigSteps(f, rm, negative, mant);
  }

  /** What round_pack_sf assembles from there. */
  function Assemble(f: Format, rm: RoundingMode, negative: bool, e: nat, sig: nat): nat
    requires f.Valid()
  {
    var exp := e + Shr(sig, f.mantSize + 1);
    if sig < Pow2(f.mantSize) then Pack(f, negative, 0, sig)
    else if exp < f.ExpMask() then Pack(f, negative, exp, sig)
    else if Addend(f, rm, negative) == 0 then Pack(f, negative, f.ExpMask() - 1, Pow2(f.mantSize) - 1)
    else Pack(f, negative, f.ExpMask(), 0)
  }

  lemma AssembleRung(f: Format, rm: RoundingMode, negative: bool, e: nat, sig: nat)
    requires f.Valid() && e >= 1 && sig <= 2 * Pow2(f.mantSize) && (e == 1 || sig >= Pow2(f.mantSize))
    ensures var k := (e - 1) * Pow2(f.mantSize) + sig;
      && Assemble(f, rm, negative, e, sig) == f.Bits(negative, Deliver(f, rm, negative, k))
      && (k < f.InfMag() <==> sig < Pow2(f.mantSize) || e + Shr(sig, f.mantSize + 1) < f.ExpMask())
  {
    PackRung(f, negative, e, sig);
    PackLimits(f, negative);
    hide Pack, Shr, f.InfMag, f.MaxFinite, f.Bits, Pow2;
  }

  lemma RoundPackCorrect(f: Format, negative: bool, exp: int, mant: nat, rm: RoundingMode, sig: nat, r: nat, fl: Flags, fl': Flags)
    requires f.Valid() && (mant == 0 || Pow2(f.Size() - 2) <= mant) && mant < Pow2(f.Size() - 1)
    requires sig == RoundSig(f, rm, negative, StartMant(exp, mant))
    requires r == Assemble(f, rm, negative, StartExp(exp), sig)
    requires
      var tiny := exp < 0 || (exp == 0 && mant + Addend(f, rm, negative) < Pow2(f.Size() - 1));
      var inexact := Low(StartMant(exp, mant), f.RndSize()) != 0;
      var overflow := sig >= Pow2(f.mantSize) && StartExp(exp) + Shr(sig, f.mantSize + 1) >= f.ExpMask();
      fl' == fl.(underflow := fl.underflow || (tiny && inexact),
                 overflow := fl.overflow || overflow,
                 inexact := fl.inexact || inexact || overflow)
    ensures mant == 0 ==> r == f.Bits(negative, 0) && fl' == fl
    ensures forall x: real | Represents(f, exp, mant, x, HalfUlp(f)) :: RoundedMagnitude(f, rm, negative, x, r, fl, fl')
  {
    hide *;
    var e1, m1 := StartExp(exp), StartMant(exp, mant);
    if mant == 0 {
      ZeroStart(f, rm, negative, exp);
      forall x: real | Represents(f, exp, mant, x, HalfUlp(f))
        ensures RoundedMagnitude(f, rm, negative, x, r, fl, fl')
      {
        RoundedZero(f, rm, negative, exp, x, r, fl);
      }
    } else {
      StartRange(f, exp, mant);
      SigBounds(f, rm, negative, e1, m1);
      AssembleRung(f, rm, negative, e1, sig);
      var k := (e1 - 1) * Pow2(f.mantSize) + sig;
      forall x: real | Represents(f, exp, mant, x, HalfUlp(f))
        ensures RoundedMagnitude(f, rm, negative, x, r, fl, fl')
      {
        Start(f, rm, negative, exp, mant, x);
        FlagsOr(fl, fl', Tiny(f, rm, negative, x), Low(m1, f.RndSize()) != 0, k >= f.InfMag());
        Finish(f, rm, negative, e1, m1, x, Tiny(f, rm, negative, x), k, fl, fl');
      }
    }
  }

  lemma ZeroStart(f: Format, rm: RoundingMode, negative: bool, exp: int)
    requires f.Valid()
    ensures StartMant(exp, 0) == 0 && RoundSig(f, rm, negative, 0) == 0 && Low(0, f.RndSize()) == 0
    ensures Assemble(f, rm, negative, StartExp(exp), 0) == f.Bits(negative, 0)
  {
    hide *;
    StartDef(exp, 0);
    ZeroMant(f, rm, negative, if exp <= 0 then 1 - exp else 0);
    PackLimits(f, negative);
    AssembleDef(f, rm, negative, StartExp(exp), 0);
  }

  lemma AssembleDef(f: Format, rm: RoundingMode, negative: bool, e: nat, sig: nat)
    requires f.Valid()
    ensures Assemble(f, rm, negative, e, sig) ==
      var exp := e + Shr(sig, f.mantSize + 1);
      if sig < Pow2(f.mantSize) then Pack(f, negative, 0, sig)
      else if exp < f.ExpMask() then Pack(f, negative, exp, sig)
      else if Addend(f, rm, negative) == 0 then Pack(f, negative, f.ExpMask() - 1, Pow2(f.mantSize) - 1)
      else Pack(f, negative, f.ExpMask(), 0)
  {
  }

  lemma FlagsOr(fl: Flags, fl': Flags, tiny: bool, inexact: bool, overflow: bool)
    requires fl' == fl.(underflow := fl.underflow || (tiny && inexact),
                        overflow := fl.overflow || overflow,
                        inexact := fl.inexact || inexact || overflow)
    ensures fl' == fl.Or(Flags(false, false, overflow, tiny && inexact, inexact || overflow))
  {
  }

  /**
   * round_pack_sf: mant has its top bit at Size - 2, unless it is zero.  Whatever real the
   * arguments stand for, the result is that real correctly rounded, with the exact flags.
   */
  method RoundPack(f: Format, negative: bool, exp: int, mant: nat, rm: RoundingMode, fl: Flags) returns (r: nat, fl': Flags)
    requires f.Valid() && (mant == 0 || Pow2(f.Size() - 2) <= mant) && mant < Pow2(f.Size() - 1)
    ensures mant == 0 ==> r == f.Bits(negative, 0) && fl' == fl
    ensures forall x: real | Represents(f, exp, mant, x, HalfUlp(f)) :: RoundedMagnitude(f, rm, negative, x, r, fl, fl')
  {
    hide *;
    SizeIs(f);
    StartDef(exp, mant);
    AddendSmall(f, rm, negative);
    var e, m := exp, mant;
    fl' := fl;
    var addend := Addend(f, rm, negative);
    var rndBits;
    if e <= 0 {
      var isSubnormal := e < 0 || m + addend < Pow2(f.Size() - 1);
      var diff := 1 - e;
      m := RShiftRnd(f, m, diff);
      rndBits := Low(m, f.RndSize());
      if isSubnormal && rndBits != 0 {
        fl' := fl'.(underflow := true);
      }
      e := 1;
    } else {
      rndBits := Low(m, f.RndSize());
    }
    if rndBits != 0 {
      fl' := fl'.(inexact := true);
    }
    RoundSigDef(f, rm, negative, m);
    m := Shr(m + addend, f.RndSize());
    if rm == RNE && rndBits == HalfUlp(f) {
      m := m - m % 2;
    }
    ghost var sig := m;
    AssembleDef(f, rm, negative, e, sig);
    e := e + Shr(m, f.mantSize + 1);
    if m < Pow2(f.mantSize) {
      e := 0;
    } else if e >= f.ExpMask() {
      if addend == 0 {
        e, m := f.ExpMask() - 1, Pow2(f.mantSize) - 1;
      } else {
        e, m := f.ExpMask(), 0;
      }
      fl' := fl'.(overflow := true, inexact := true);
    }
    r := Pack(f, negative, e, m);
    RoundPackCorrect(f, negative, exp, mant, rm, sig, r, fl, fl');
  }
}
