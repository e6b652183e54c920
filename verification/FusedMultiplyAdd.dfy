/** fma_sf: the exact product and the addend on two words, added with one rounding. */
module FusedMultiplyAdd {
  import opened Powers
  import opened Ieee754
  import opened Sticky
  import opened RoundingKernel
  import opened Normalization
  import opened WideArithmetic
  import opened Operands
  import opened Addition
  import opened Multiplication

  /** What IEEE 754 fusedMultiplyAdd must deliver; zero times infinity is invalid whatever c is. */
  ghost predicate MultiplyAdd(f: Format, a: nat, b: nat, c: nat, rm: RoundingMode, r: nat, fl: Flags, fl': Flags)
    requires f.Valid()
  {
    var negative := f.Negative(a) != f.Negative(b);
    if (f.IsZero(a) && f.IsInf(b)) || (f.IsInf(a) && f.IsZero(b)) then
      r == f.QNaN() && fl' == fl.Or(Invalid)
    else if f.IsNaN(a) || f.IsNaN(b) || f.IsNaN(c) then
      r == f.QNaN()
      && fl' == fl.Or(if f.IsSignaling(a) || f.IsSignaling(b) || f.IsSignaling(c) then Invalid else NoFlags)
    else if (f.IsInf(a) || f.IsInf(b)) && f.IsInf(c) && negative != f.Negative(c) then
      r == f.QNaN() && fl' == fl.Or(Invalid)
    else if f.IsInf(c) then r == f.Bits(f.Negative(c), f.InfMag()) && fl' == fl
    else if f.IsInf(a) || f.IsInf(b) then r == f.Bits(negative, f.InfMag()) && fl' == fl
    else
      Rounded(f, rm, f.Value(a) * f.Value(b) + f.Value(c), ZeroSumSign(rm, negative, f.Negative(c)), r, fl, fl')
  }

  /** A magnitude on two words, with its top bit at 2*Size - 3. */
  ghost predicate Term(f: Format, exp: int, hi: nat, lo: nat, x: real)
    requires f.Valid()
  {
    && Pow2(f.Size() - 3) <= hi < Pow2(f.Size() - 2) && lo < Pow2(f.Size()) && lo % 2 == 0
    && Represents(f, exp - f.Size(), Wide(f, hi, lo), x, 1)
  }

  lemma TermDef(f: Format, exp: int, hi: nat, lo: nat, x: real)
    requires f.Valid()
    ensures Term(f, exp, hi, lo, x) <==>
      && Pow2(f.Size() - 3) <= hi < Pow2(f.Size() - 2) && lo < Pow2(f.Size()) && lo % 2 == 0
      && Represents(f, exp - f.Size(), Wide(f, hi, lo), x, 1)
  {
  }

  lemma WideRange(f: Format, hi: nat, lo: nat)
    requires f.Valid() && Pow2(f.Size() - 3) <= hi < Pow2(f.Size() - 2) && lo < Pow2(f.Size())
    ensures Pow2(f.Size() - 3 + f.Size()) <= Wide(f, hi, lo) < Pow2(f.Size() - 2 + f.Size())
    ensures lo % 2 == 0 ==> Wide(f, hi, lo) % 2 == 0
  {
    hide *;
    SizeIs(f);
    WideDef(f, hi, lo);
    Pow2Add(f.Size() - 3, f.Size());
    Pow2Add(f.Size() - 2, f.Size());
    MulMono(Pow2(f.Size() - 3), hi, Pow2(f.Size()));
    MulDiff(Pow2(f.Size() - 2), hi, Pow2(f.Size()));
    MulAtLeast(Pow2(f.Size() - 2) - hi, Pow2(f.Size()));
    Pow2Even(f.Size());
    EvenMultiple(hi, Pow2(f.Size()), lo);
  }

  /** What the alignment of the smaller term leaves: its sticky shift, or a part of the low word. */
  ghost predicate AlignedTerm(f: Format, hi: nat, lo: nat, shift: nat, wide: nat) {
    || wide == ShiftSticky(Wide(f, hi, lo), shift)
    || (lo != 0 && f.Size() < shift && 0 < wide < Pow2(f.Size()))
  }

  /** The five cases of the right shift of c_mant1:c_mant0. */
  method ShiftTerm(f: Format, hi: nat, lo: nat, shift: nat) returns (hi': nat, lo': nat)
    requires f.Valid() && 0 < hi < Pow2(f.Size() - 2) && lo < Pow2(f.Size())
    ensures lo' < Pow2(f.Size()) && AlignedTerm(f, hi, lo, shift, Wide(f, hi', lo'))
  {
    hide *;
    SizeIs(f);
    var n := f.Size();
    AddendSmall(f, RTZ, false);
    if shift >= 2 * n {
      lo' := OrBit(0, lo != 0 || hi != 0);
      hi' := 0;
      OrBitZero();
      FarShift(f, hi, lo, shift);
    } else if shift >= n + 1 {
      lo' := RShiftRnd(f, hi, shift - n);
      hi' := 0;
      MiddleShift(f, hi, lo, shift);
    } else if shift == n {
      lo' := OrBit(hi, lo != 0);
      hi' := 0;
      WordShift(f, hi, lo);
    } else if shift != 0 {
      // the two shifted parts share no bits
      lo' := OrBit(ShiftLeft(f, hi, n - shift) + Shr(lo, shift), Low(lo, shift) != 0);
      hi' := Shr(hi, shift);
      NearShift(f, hi, lo, shift);
    } else {
      hi', lo' := hi, lo;
      NoShift(f, hi, lo);
    }
  }

  lemma AlignedExactly(f: Format, hi: nat, lo: nat, shift: nat, wide: nat)
    requires wide == ShiftSticky(Wide(f, hi, lo), shift)
    ensures AlignedTerm(f, hi, lo, shift, wide)
  {
  }

  lemma NoShift(f: Format, hi: nat, lo: nat)
    ensures AlignedTerm(f, hi, lo, 0, Wide(f, hi, lo))
  {
    hide *;
    ShiftZero(Wide(f, hi, lo));
    AlignedExactly(f, hi, lo, 0, Wide(f, hi, lo));
  }

  lemma WideOfLow(f: Format, lo: nat)
    ensures Wide(f, 0, lo) == lo
  {
    hide *;
    WideDef(f, 0, lo);
    ZeroTimes(Pow2(f.Size()));
  }

  lemma FarShift(f: Format, hi: nat, lo: nat, shift: nat)
    requires f.Valid() && 0 < hi < Pow2(f.Size() - 2) && lo < Pow2(f.Size()) && shift >= 2 * f.Size()
    ensures 1 < Pow2(f.Size()) && AlignedTerm(f, hi, lo, shift, Wide(f, 0, 1))
  {
    hide *;
    SizeIs(f);
    Pow2Zero();
    Pow2Le(1, f.Size());
    WideOfLow(f, 1);
    WideDef(f, hi, lo);
    MulAtLeast(hi, Pow2(f.Size()));
    Pow2Add(f.Size() - 2, f.Size());
    MulDiff(Pow2(f.Size() - 2), hi, Pow2(f.Size()));
    MulAtLeast(Pow2(f.Size() - 2) - hi, Pow2(f.Size()));
    Pow2Le(f.Size() - 2 + f.Size(), shift);
    LowSmall(Wide(f, hi, lo), shift);
    StickyDef(Wide(f, hi, lo), shift);
    OrBitZero();
    AlignedExactly(f, hi, lo, shift, Wide(f, 0, 1));
  }

  lemma WordShift(f: Format, hi: nat, lo: nat)
    requires f.Valid() && hi < Pow2(f.Size() - 2) && lo < Pow2(f.Size())
    ensures OrBit(hi, lo != 0) < Pow2(f.Size()) && AlignedTerm(f, hi, lo, f.Size(), Wide(f, 0, OrBit(hi, lo != 0)))
  {
    hide *;
    SizeIs(f);
    AddendSmall(f, RTZ, false);
    OrBitRange(hi, lo != 0);
    StickyOfWide(f, hi, lo);
    WideOfLow(f, OrBit(hi, lo != 0));
    AlignedExactly(f, hi, lo, f.Size(), Wide(f, 0, OrBit(hi, lo != 0)));
  }

  /** Size < shift < 2*Size: the low word never reaches the sticky bit. */
  lemma MiddleShift(f: Format, hi: nat, lo: nat, shift: nat)
    requires f.Valid() && 0 < hi < Pow2(f.Size() - 2) && lo < Pow2(f.Size()) && f.Size() < shift
    ensures ShiftSticky(hi, shift - f.Size()) < Pow2(f.Size())
    ensures AlignedTerm(f, hi, lo, shift, Wide(f, 0, ShiftSticky(hi, shift - f.Size())))
  {
    hide *;
    SizeIs(f);
    AddendSmall(f, RTZ, false);
    Pow2Double(f.Size() - 2);
    var d := shift - f.Size();
    ShiftSmaller(f, hi, d);
    ShiftPositive(hi, d);
    WideOfLow(f, ShiftSticky(hi, d));
    if lo == 0 {
      HighShift(f, hi, d);
      AlignedExactly(f, hi, lo, shift, ShiftSticky(hi, d));
    } else {
      AlignedLow(f, hi, lo, shift, ShiftSticky(hi, d));
    }
  }

  lemma AlignedLow(f: Format, hi: nat, lo: nat, shift: nat, wide: nat)
    requires lo != 0 && f.Size() < shift && 0 < wide < Pow2(f.Size())
    ensures AlignedTerm(f, hi, lo, shift, wide)
  {
  }

  lemma HighShift(f: Format, hi: nat, d: nat)
    ensures ShiftSticky(Wide(f, hi, 0), d + f.Size()) == ShiftSticky(hi, d)
  {
    hide *;
    var n := f.Size();
    ShrParts(hi, d);
    WideDef(f, hi, 0);
    Pow2Add(d, n);
    ScaledSum(hi, Shr(hi, d), Pow2(d), Low(hi, d), Pow2(n), Pow2(d + n));
    MulDiff(Pow2(d), Low(hi, d), Pow2(n));
    MulAtLeast(Pow2(d) - Low(hi, d), Pow2(n));
    ShrUnique(Wide(f, hi, 0), d + n, Shr(hi, d), Low(hi, d) * Pow2(n));
    ZeroSum(Low(hi, d), Pow2(n), 0);
    StickyDef(hi, d);
    StickyDef(Wide(f, hi, 0), d + n);
  }

  lemma NearShift(f: Format, hi: nat, lo: nat, s: nat)
    requires f.Valid() && hi < Pow2(f.Size() - 2) && lo < Pow2(f.Size()) && 0 < s < f.Size()
    ensures var low := OrBit(ShiftLeft(f, hi, f.Size() - s) + Shr(lo, s), Low(lo, s) != 0);
      low < Pow2(f.Size()) && AlignedTerm(f, hi, lo, s, Wide(f, Shr(hi, s), low))
  {
    hide *;
    var n := f.Size();
    var q := Low(hi, s) * Pow2(n - s) + Shr(lo, s);
    NearQuotient(f, hi, lo, s);
    StickyDef(Wide(f, hi, lo), s);
    Pow2Double(n);
    StickyBelowEven(q, Low(lo, s) != 0, Pow2(n - 1));
    OddWide(f, Shr(hi, s), q, Low(lo, s) != 0);
    AlignedExactly(f, hi, lo, s, Wide(f, Shr(hi, s), OrBit(q, Low(lo, s) != 0)));
  }

  lemma OddWide(f: Format, hi: nat, q: nat, sticky: bool)
    requires f.Valid()
    ensures OrBit(Wide(f, hi, q), sticky) == Wide(f, hi, OrBit(q, sticky))
  {
    hide *;
    SizeIs(f);
    WideDef(f, hi, q);
    WideDef(f, hi, q + 1);
    Pow2Even(f.Size());
    EvenMultiple(hi, Pow2(f.Size()), q);
    OrBitDef(Wide(f, hi, q), sticky);
    OrBitDef(q, sticky);
  }

  lemma OrBitDef(a: nat, b: bool)
    ensures OrBit(a, b) == if b && a % 2 == 0 then a + 1 else a
  {
  }

  lemma NearQuotient(f: Format, hi: nat, lo: nat, s: nat)
    requires f.Valid() && lo < Pow2(f.Size()) && 0 < s < f.Size()
    ensures var q := Low(hi, s) * Pow2(f.Size() - s) + Shr(lo, s);
      && q < Pow2(f.Size()) && ShiftLeft(f, hi, f.Size() - s) == Low(hi, s) * Pow2(f.Size() - s)
      && Shr(Wide(f, hi, lo), s) == Wide(f, Shr(hi, s), q) && Low(Wide(f, hi, lo), s) == Low(lo, s)
  {
    hide *;
    var n, t := f.Size(), Pow2(f.Size() - s);
    var h, r, g, m := Shr(hi, s), Low(hi, s), Shr(lo, s), Low(lo, s);
    ShrParts(hi, s);
    ShrParts(lo, s);
    Pow2Add(n - s, s);
    Pow2Add(s, n - s);
    CompareQuotient(lo, Pow2(s), g, m, t);
    PairBelow(r, g, t, Pow2(s));
    ScaledSum(hi, h, Pow2(s), r, t, Pow2(n));
    ShrUnique(hi * t, n, h, r * t);
    ShiftLeftDef(f, hi, n - s);
    WideDef(f, hi, lo);
    WideDef(f, h, r * t + g);
    Regroup3(hi, h, r, g, m, Pow2(s), t, Pow2(n));
    ShrUnique(Wide(f, hi, lo), s, Wide(f, h, r * t + g), m);
  }

  lemma PairBelow(r: nat, g: nat, t: nat, k: nat)
    requires r < k && g < t
    ensures r * t + g < k * t
  {
    MulDiff(k, r, t);
    MulAtLeast(k - r, t);
  }

  lemma Regroup3(hi: nat, h: nat, r: nat, g: nat, m: nat, k: nat, t: nat, w: nat)
    requires hi == h * k + r && w == t * k
    ensures hi * w + (g * k + m) == (h * w + (r * t + g)) * k + m
  {
    assert hi * w == (h * k) * w + r * w;
    assert (h * w) * k == (h * k) * w;
    assert (r * t) * k == r * w;
    assert (h * w + (r * t + g)) * k == (h * w) * k + (r * t) * k + g * k;
  }

  // Adding the aligned terms

  lemma AlignedSmaller(f: Format, hi: nat, lo: nat, shift: nat, wide: nat)
    requires f.Valid() && hi < Pow2(f.Size() - 2) && lo < Pow2(f.Size()) && AlignedTerm(f, hi, lo, shift, wide)
    requires Wide(f, hi, lo) < 2 * Pow2(f.Size() - 3 + f.Size())
    ensures shift >= 1 ==> wide < Pow2(f.Size() - 3 + f.Size())
    ensures shift >= 2 ==> 2 * wide < Pow2(f.Size() - 3 + f.Size())
  {
    hide *;
    SizeIs(f);
    var c, h := Wide(f, hi, lo), Pow2(f.Size() - 3 + f.Size());
    AlignedCases(f, hi, lo, shift, wide);
    Pow2Double(f.Size() - 3 + f.Size());
    Pow2Double(f.Size() - 4 + f.Size());
    Pow2Lt(f.Size(), f.Size() - 4 + f.Size());
    ShrParts(c, shift);
    StickyDef(c, shift);
    if shift >= 1 {
      Pow2Zero();
      Pow2Le(1, shift);
      QuotientSmaller(Shr(c, shift), Pow2(shift), c, h);
      StickyBelowEven(Shr(c, shift), Low(c, shift) != 0, Pow2(f.Size() - 4 + f.Size()));
    }
    if shift >= 2 {
      Pow2Sixteen();
      Pow2Le(2, shift);
      Quarter(Shr(c, shift), Pow2(shift), c, Pow2(f.Size() - 4 + f.Size()));
      Pow2Double(f.Size() - 4 + f.Size());
      StickyBelowEven(Shr(c, shift), Low(c, shift) != 0, Pow2(f.Size() - 5 + f.Size()));
    }
  }

  lemma Quarter(q: nat, d: nat, a: nat, b: nat)
    requires d >= 4 && q * d <= a < 4 * b
    ensures q < b
  {
    assert q * d >= q * 4;
  }

  lemma AlignedCases(f: Format, hi: nat, lo: nat, shift: nat, wide: nat)
    requires AlignedTerm(f, hi, lo, shift, wide)
    ensures wide == ShiftSticky(Wide(f, hi, lo), shift) || (lo != 0 && f.Size() < shift && 0 < wide < Pow2(f.Size()))
  {
  }

  /** The grid on which the aligned term agrees with its exact value. */
  function TermGrid(f: Format, hi: nat, lo: nat, shift: nat, wide: nat): nat {
    if shift <= 1 then 0 else if wide == ShiftSticky(Wide(f, hi, lo), shift) then 1 else f.Size()
  }

  lemma AlignedRepresents(f: Format, exp: int, hi: nat, lo: nat, shift: nat, wide: nat, x: real)
    requires f.Valid() && Term(f, exp, hi, lo, x) && AlignedTerm(f, hi, lo, shift, wide)
    ensures Represents(f, exp + shift - f.Size(), wide, x, Pow2(TermGrid(f, hi, lo, shift, wide)))
  {
    hide *;
    SizeIs(f);
    TermDef(f, exp, hi, lo, x);
    TermGridDef(f, hi, lo, shift, wide);
    AlignedCases(f, hi, lo, shift, wide);
    WideRange(f, hi, lo);
    var c, e := Wide(f, hi, lo), exp - f.Size();
    Pow2Zero();
    if wide == ShiftSticky(c, shift) {
      if shift <= 1 {
        HalfExact(c, shift);
        ExactUnshifted(f, e, wide, x, shift);
      } else {
        MulAtLeast(2, Pow2(shift));
        MulCommutes(2, Pow2(shift));
        ExactRepresents(f, e, c, x, Pow2(shift) * 2);
        RepresentsShiftedOn(f, e, c, x, shift, 2);
      }
    } else {
      LowWordRepresents(f, e, c, shift, wide, x);
    }
  }

  lemma TermGridDef(f: Format, hi: nat, lo: nat, shift: nat, wide: nat)
    ensures TermGrid(f, hi, lo, shift, wide) ==
      if shift <= 1 then 0 else if wide == ShiftSticky(Wide(f, hi, lo), shift) then 1 else f.Size()
  {
  }

  lemma HalfExact(c: nat, shift: nat)
    requires shift <= 1 && c % 2 == 0
    ensures ShiftSticky(c, shift) * Pow2(shift) == c
  {
    Pow2Zero();
    hide *;
    var q := if shift == 0 then c else c / 2;
    ShrUnique(c, shift, q, 0);
    StickyDef(c, shift);
    OrNothing(q);
  }

  /** Both the exact and the kept value lie strictly inside the first word. */
  lemma LowWordRepresents(f: Format, e: int, c: nat, shift: nat, wide: nat, x: real)
    requires f.Valid() && Represents(f, e, c, x, 1) && f.Size() < shift && 0 < wide < Pow2(f.Size())
    requires 0 < c < Pow2(f.Size() - 2 + f.Size())
    ensures Represents(f, e + shift, wide, x, Pow2(f.Size()))
  {
    hide *;
    SizeIs(f);
    var y := Witness(f, e, c, x, 1);
    AgreeUnit(y, c);
    var y' := Downscale(f, e, x, y, shift);
    Pow2Add(f.Size(), shift);
    Pow2Lt(f.Size() - 2 + f.Size(), f.Size() + shift);
    InsideWord(c, y, y', Pow2(shift), Pow2(f.Size()), Pow2(f.Size() + shift));
    AgreeInside(y', wide, Pow2(f.Size()));
    IntroRepresents(f, e + shift, wide, x, Pow2(f.Size()), y');
  }

  lemma InsideWord(c: nat, y: real, y': real, d: nat, w: nat, wd: nat)
    requires y == c as real && y == y' * d as real && d > 0 && wd == w * d && 0 < c < wd
    ensures 0.0 < y' < w as real
  {
    RealMul(w, d);
    MulLe(0.0, y', d as real);
    MulLe(w as real, y', d as real);
  }

  lemma AgreeInside(y: real, a: nat, g: nat)
    requires 0 < a < g && 0.0 < y < g as real
    ensures Agree(y, a, g)
  {
    AgreeAt(y, a, g, 0);
  }

  /** Two words added or subtracted, with the carry or the borrow. */
  method AddWords(f: Format, hi: nat, lo: nat, hi': nat, lo': nat) returns (s1: nat, s0: nat)
    requires f.Valid() && lo < Pow2(f.Size()) && lo' < Pow2(f.Size())
    requires Wide(f, hi, lo) + Wide(f, hi', lo') < Pow2(f.Size() - 1 + f.Size())
    ensures s1 < Pow2(f.Size() - 1) && s0 < Pow2(f.Size()) && Wide(f, s1, s0) == Wide(f, hi, lo) + Wide(f, hi', lo')
  {
    hide *;
    s0 := Low(lo + lo', f.Size());
    s1 := hi + hi' + OrBit(0, s0 < lo');
    Carries(f, hi, lo, hi', lo');
    WideFits(f, s1, s0);
  }

  lemma Carries(f: Format, hi: nat, lo: nat, hi': nat, lo': nat)
    requires lo < Pow2(f.Size()) && lo' < Pow2(f.Size())
    ensures var s0 := Low(lo + lo', f.Size());
      Wide(f, hi + hi' + OrBit(0, s0 < lo'), s0) == Wide(f, hi, lo) + Wide(f, hi', lo')
  {
    hide *;
    var w := Pow2(f.Size());
    var carry := lo + lo' >= w;
    ShrUnique(lo + lo', f.Size(), if carry then 1 else 0, if carry then lo + lo' - w else lo + lo');
    OrBitDef(0, carry);
    WideDef(f, hi, lo);
    WideDef(f, hi', lo');
    WideDef(f, hi + hi' + OrBit(0, carry), Low(lo + lo', f.Size()));
    SumTimes(hi, hi', OrBit(0, carry), w);
  }

  lemma SumTimes(a: int, b: int, c: int, w: int)
    ensures (a + b + c) * w == a * w + b * w + c * w
    ensures (a - b - c) * w == a * w - b * w - c * w
  {
  }

  method SubWords(f: Format, hi: nat, lo: nat, hi': nat, lo': nat) returns (s1: nat, s0: nat)
    requires f.Valid() && lo < Pow2(f.Size()) && lo' < Pow2(f.Size())
    requires Wide(f, hi', lo') <= Wide(f, hi, lo) < Pow2(f.Size() - 1 + f.Size())
    ensures s1 < Pow2(f.Size() - 1) && s0 < Pow2(f.Size()) && Wide(f, s1, s0) == Wide(f, hi, lo) - Wide(f, hi', lo')
  {
    hide *;
    Borrows(f, hi, lo, hi', lo');
    var tmp := lo;
    s0 := Low(lo + (Pow2(f.Size()) - lo'), f.Size());
    s1 := hi - hi' - OrBit(0, s0 > tmp);
    WideFits(f, s1, s0);
  }

  lemma Borrows(f: Format, hi: nat, lo: nat, hi': nat, lo': nat)
    requires f.Valid() && lo < Pow2(f.Size()) && lo' < Pow2(f.Size()) && Wide(f, hi', lo') <= Wide(f, hi, lo)
    ensures var s0 := Low(lo + (Pow2(f.Size()) - lo'), f.Size());
      && hi - hi' - OrBit(0, s0 > lo) >= 0
      && Wide(f, hi - hi' - OrBit(0, s0 > lo), s0) == Wide(f, hi, lo) - Wide(f, hi', lo')
      && Wide(f, hi, lo) - Wide(f, hi', lo') <= Wide(f, hi, lo)
  {
    hide *;
    var w := Pow2(f.Size());
    var borrow := lo < lo';
    var s0 := if borrow then lo + (w - lo') else lo - lo';
    ShrUnique(lo + (w - lo'), f.Size(), if borrow then 0 else 1, s0);
    OrBitDef(0, borrow);
    assert (s0 > lo) == borrow;
    WideDef(f, hi, lo);
    WideDef(f, hi', lo');
    var k := hi - hi' - OrBit(0, borrow);
    SumTimes(hi, hi', OrBit(0, borrow), w);
    NotNegative(k, w, s0);
    WideDef(f, k, s0);
  }

  lemma NotNegative(k: int, w: nat, s: nat)
    requires s < w && k * w + s >= 0
    ensures k >= 0
  {
    if k <= -1 {
      MulAtLeast(-k, w);
      MulDiff(0, -k, w);
    }
  }

  lemma TermSum(f: Format, re: int, r1: nat, r0: nat, xr: real, ce: int, c1: nat, c0: nat, xc: real, wide: nat)
    requires f.Valid() && Term(f, re, r1, r0, xr) && Term(f, ce, c1, c0, xc) && ce <= re && (r0 == 0 || c0 == 0)
    requires re == ce ==> Wide(f, c1, c0) <= Wide(f, r1, r0)
    requires AlignedTerm(f, c1, c0, re - ce, wide)
    ensures 0 < Wide(f, r1, r0) && wide <= Wide(f, r1, r0) && Wide(f, r1, r0) + wide < Pow2(f.Size() - 1 + f.Size())
    ensures Faithful(f, re, Wide(f, r1, r0) + wide, xr + xc, f.Size())
    ensures Faithful(f, re, Wide(f, r1, r0) - wide, xr - xc, f.Size())
  {
    hide *;
    var big, t := Wide(f, r1, r0), TermGrid(f, c1, c0, re - ce, wide);
    TermSizes(f, re, r1, r0, xr, ce, c1, c0, xc, wide);
    AlignedRepresents(f, ce, c1, c0, re - ce, wide, xc);
    TermDef(f, re, r1, r0, xr);
    var n := GridDivides(f, r1, r0, c1, c0, re - ce, wide);
    RepresentsSum(f, re - f.Size(), big, xr, wide, xc, n, Pow2(t));
    IntroFaithful(f, re, big + wide, xr + xc, f.Size(), t);
    IntroFaithful(f, re, big - wide, xr - xc, f.Size(), t);
  }

  lemma GridDivides(f: Format, r1: nat, r0: nat, c1: nat, c0: nat, shift: nat, wide: nat) returns (n: nat)
    requires f.Valid() && r0 % 2 == 0 && (r0 == 0 || c0 == 0) && AlignedTerm(f, c1, c0, shift, wide)
    ensures Wide(f, r1, r0) == n * Pow2(TermGrid(f, c1, c0, shift, wide))
  {
    hide *;
    Pow2Zero();
    SizeIs(f);
    AlignedCases(f, c1, c0, shift, wide);
    TermGridDef(f, c1, c0, shift, wide);
    WideDef(f, r1, r0);
    Pow2Even(f.Size());
    EvenMultiple(r1, Pow2(f.Size()), r0);
    var t := TermGrid(f, c1, c0, shift, wide);
    n := if t == 0 then Wide(f, r1, r0) else if t == 1 then Wide(f, r1, r0) / 2 else r1;
  }

  lemma TermSizes(f: Format, re: int, r1: nat, r0: nat, xr: real, ce: int, c1: nat, c0: nat, xc: real, wide: nat)
    requires f.Valid() && Term(f, re, r1, r0, xr) && Term(f, ce, c1, c0, xc) && ce <= re
    requires re == ce ==> Wide(f, c1, c0) <= Wide(f, r1, r0)
    requires AlignedTerm(f, c1, c0, re - ce, wide)
    ensures var big, t := Wide(f, r1, r0), TermGrid(f, c1, c0, re - ce, wide);
      && 0 < big && wide <= big && big + wide < Pow2(f.Size() - 1 + f.Size())
      && (t == 0 || Pow2(f.mantSize + 1 + t) <= big - wide)
  {
    hide *;
    SizeIs(f);
    TermDef(f, re, r1, r0, xr);
    TermDef(f, ce, c1, c0, xc);
    WideRange(f, r1, r0);
    WideRange(f, c1, c0);
    var n := f.Size() - 3 + f.Size();
    Pow2Double(n + 1);
    Pow2Double(n + 2);
    Pow2Double(n);
    AlignedSmaller(f, c1, c0, re - ce, wide);
    AlignedCases(f, c1, c0, re - ce, wide);
    TermGridDef(f, c1, c0, re - ce, wide);
    if re == ce {
      ShiftZero(Wide(f, c1, c0));
    }
    var t := TermGrid(f, c1, c0, re - ce, wide);
    if t != 0 {
      Pow2Le(f.mantSize + 1 + t, n - 1);
    }
  }

  /** The addition of fma_sf: swap, align, add or subtract, normalize and round. */
  method AddTerms(f: Format, rSign0: bool, rExp0: int, r10: nat, r00: nat, cSign0: bool, cExp0: int, c10: nat,
                  rm: RoundingMode, fl: Flags, ghost xr: real, ghost xc: real) returns (r: nat, fl': Flags)
    requires f.Valid() && Term(f, rExp0, r10, r00, xr) && Term(f, cExp0, c10, 0, xc)
    ensures Rounded(f, rm, Signed(rSign0, xr) + Signed(cSign0, xc), ZeroSumSign(rm, rSign0, cSign0), r, fl, fl')
  {
    hide *;
    var rSign, rExp, rMant1, rMant0, cSign, cExp, cMant1, cMant0 := rSign0, rExp0, r10, r00, cSign0, cExp0, c10, 0;
    ghost var big, small := xr, xc;
    TermDef(f, rExp0, r10, r00, xr);
    TermDef(f, cExp0, c10, 0, xc);
    WideOrder(f, r10, r00, c10);
    // ensure that abs(r) >= abs(c)
    if !(rExp > cExp || (rExp == cExp && rMant1 >= cMant1)) {
      rMant1, cMant1 := cMant1, rMant1;
      rMant0, cMant0 := cMant0, rMant0;
      rExp, cExp := cExp, rExp;
      rSign, cSign := cSign, rSign;
      big, small := small, big;
    }
    var shift := rExp - cExp;
    TopBitNonzero(f);
    ghost var c1, c0 := cMant1, cMant0;
    cMant1, cMant0 := ShiftTerm(f, cMant1, cMant0, shift);
    TermSum(f, rExp, rMant1, rMant0, big, cExp, c1, c0, small, Wide(f, cMant1, cMant0));
    r, fl' := AddAligned(f, rSign, rExp, rMant1, rMant0, cSign, cMant1, cMant0, rm, fl, big, small);
    SignedCommutes(rm, rSign0, xr, cSign0, xc);
  }

  ghost function Signed(negative: bool, x: real): real {
    if negative then -x else x
  }

  lemma SignedCommutes(rm: RoundingMode, s: bool, x: real, t: bool, y: real)
    ensures Signed(s, x) + Signed(t, y) == Signed(t, y) + Signed(s, x)
    ensures ZeroSumSign(rm, s, t) == ZeroSumSign(rm, t, s)
  {
  }

  lemma TopBitNonzero(f: Format)
    requires f.Valid()
    ensures Pow2(f.Size() - 3) > 0
  {
  }

  /** Without a low word in c, comparing the high words compares the terms. */
  lemma WideOrder(f: Format, r1: nat, r0: nat, c1: nat)
    requires r0 < Pow2(f.Size())
    ensures if r1 >= c1 then Wide(f, c1, 0) <= Wide(f, r1, r0) else Wide(f, r1, r0) <= Wide(f, c1, 0)
  {
    hide *;
    WideDef(f, r1, r0);
    WideDef(f, c1, 0);
    if r1 >= c1 {
      MulMono(c1, r1, Pow2(f.Size()));
    } else {
      MulMono(r1 + 1, c1, Pow2(f.Size()));
      MulDiff(r1 + 1, 1, Pow2(f.Size()));
    }
  }

  /** The addition or subtraction of the aligned words. */
  method AddAligned(f: Format, rSign0: bool, rExp: int, r1: nat, r0: nat, cSign: bool, c1: nat, c0: nat,
                    rm: RoundingMode, fl: Flags, ghost xr: real, ghost xc: real) returns (r: nat, fl': Flags)
    requires f.Valid() && r0 < Pow2(f.Size()) && c0 < Pow2(f.Size())
    requires Wide(f, c1, c0) <= Wide(f, r1, r0) && Wide(f, r1, r0) + Wide(f, c1, c0) < Pow2(f.Size() - 1 + f.Size())
    requires Faithful(f, rExp, Wide(f, r1, r0) + Wide(f, c1, c0), xr + xc, f.Size())
    requires Faithful(f, rExp, Wide(f, r1, r0) - Wide(f, c1, c0), xr - xc, f.Size())
    requires rSign0 == cSign ==> Wide(f, r1, r0) > 0
    ensures Rounded(f, rm, Signed(rSign0, xr) + Signed(cSign, xc), ZeroSumSign(rm, rSign0, cSign), r, fl, fl')
  {
    hide *;
    var rSign := rSign0;
    var s1, s0;
    ghost var x;
    if rSign == cSign {
      s1, s0 := AddWords(f, r1, r0, c1, c0);
      x := xr + xc;
    } else {
      s1, s0 := SubWords(f, r1, r0, c1, c0);
      x := xr - xc;
      if s0 == 0 && s1 == 0 {
        rSign := rm == RDN;
      }
    }
    r, fl' := Normalize2(f, rSign, rExp, s1, s0, rm, fl);
    WideZero(f, s1, s0, 0);
    FaithfulZero(f, rExp, Wide(f, s1, s0), x, f.Size());
    SignedDef(rSign0, xr);
    SignedDef(cSign, xc);
    ZeroSumSignDef(rm, rSign0, cSign);
    SignedRounding(f, rm, Signed(rSign0, xr) + Signed(cSign, xc), rSign0, x, ZeroSumSign(rm, rSign0, cSign), r, fl, fl');
  }

  lemma SignedDef(negative: bool, x: real)
    ensures Signed(negative, x) == if negative then -x else x
  {
  }

  // The product and the addend as terms

  lemma ExponentOfTerm(f: Format, ea: int, eb: int)
    requires f.Valid()
    ensures var exp := ea + eb - Pow2(f.expSize - 1) + 3;
      LastBitExp(f, exp - f.Size()) == (ea - f.RndSize() - 1 + f.MinExp()) + (eb - f.RndSize() - 1 + f.MinExp())
  {
  }

  lemma TermBounds(f: Format, sa: nat, sb: nat)
    requires f.Valid()
    requires Pow2(f.mantSize) <= sa < 2 * Pow2(f.mantSize) && Pow2(f.mantSize) <= sb < 2 * Pow2(f.mantSize)
    ensures var p := (sa * Pow2(f.RndSize())) * (sb * Pow2(f.RndSize()));
      Pow2(f.Size() - 4 + f.Size()) <= p < Pow2(f.Size() - 2 + f.Size())
    ensures sa * Pow2(f.RndSize()) < Pow2(f.Size()) && sb * Pow2(f.RndSize()) < Pow2(f.Size())
  {
    hide *;
    SizeIs(f);
    var n := f.mantSize + f.RndSize();
    ShiftBounds(sa, f.mantSize, f.RndSize());
    ShiftBounds(sb, f.mantSize, f.RndSize());
    Pow2Double(f.Size());
    Pow2Add(n, n);
    Pow2Add(n + 1, n + 1);
    ProductRange(Pow2(n), sa * Pow2(f.RndSize()), Pow2(n + 1), Pow2(n), sb * Pow2(f.RndSize()), Pow2(n + 1));
  }

  lemma ProductTerm(f: Format, a: nat, ea: int, sa: nat, b: nat, eb: int, sb: nat, hi: nat, lo: nat)
    requires f.Valid() && Normalized(f, a, ea, sa) && Normalized(f, b, eb, sb) && lo < Pow2(f.Size())
    requires Wide(f, hi, lo) == (sa * Pow2(f.RndSize())) * (sb * Pow2(f.RndSize()))
    ensures Pow2(f.Size() - 4) <= hi < Pow2(f.Size() - 2) && Wide(f, hi, lo) % 4 == 0
    ensures Represents(f, ea + eb - Pow2(f.expSize - 1) + 3 - f.Size(), Wide(f, hi, lo),
                       f.MagValue(f.Mag(a)) * f.MagValue(f.Mag(b)), 1)
  {
    hide *;
    SizeIs(f);
    FormatSizes(f);
    NormalizedDef(f, a, ea, sa);
    NormalizedDef(f, b, eb, sb);
    TermBounds(f, sa, sb);
    HighRange(f, hi, lo);
    ShiftedOperand(f, a, ea, sa, f.RndSize());
    ShiftedOperand(f, b, eb, sb, f.RndSize());
    ExponentOfTerm(f, ea, eb);
    ProductRepresents(f, ea + eb - Pow2(f.expSize - 1) + 3 - f.Size(),
                      sa * Pow2(f.RndSize()), ea - f.RndSize() - 1 + f.MinExp(), f.MagValue(f.Mag(a)),
                      sb * Pow2(f.RndSize()), eb - f.RndSize() - 1 + f.MinExp(), f.MagValue(f.Mag(b)),
                      Wide(f, hi, lo), f.MagValue(f.Mag(a)) * f.MagValue(f.Mag(b)));
    Pow2Double(f.RndSize());
    EvenFactors(sa, sb, Pow2(f.RndSize()), Pow2(f.RndSize() - 1));
  }

  lemma EvenFactors(sa: nat, sb: nat, g: nat, h: nat)
    requires g == 2 * h
    ensures ((sa * g) * (sb * g)) % 4 == 0
  {
    assert (sa * g) * (sb * g) == 4 * ((sa * h) * (sb * h));
  }

  lemma HighRange(f: Format, hi: nat, lo: nat)
    requires f.Valid() && lo < Pow2(f.Size())
    requires Pow2(f.Size() - 4 + f.Size()) <= Wide(f, hi, lo) < Pow2(f.Size() - 2 + f.Size())
    ensures Pow2(f.Size() - 4) <= hi < Pow2(f.Size() - 2)
  {
    hide *;
    SizeIs(f);
    WideDef(f, hi, lo);
    Pow2Add(f.Size() - 4, f.Size());
    Pow2Add(f.Size() - 2, f.Size());
    CompareQuotient(Wide(f, hi, lo), Pow2(f.Size()), hi, lo, Pow2(f.Size() - 4));
    CompareQuotient(Wide(f, hi, lo), Pow2(f.Size()), hi, lo, Pow2(f.Size() - 2));
  }

  lemma LowParity(f: Format, hi: nat, lo: nat)
    requires f.Valid() && Wide(f, hi, lo) % 4 == 0
    ensures lo % 2 == 0
  {
    hide *;
    SizeIs(f);
    WideDef(f, hi, lo);
    Pow2Even(f.Size());
    EvenMultiple(hi, Pow2(f.Size()), lo);
  }

  /** One place further left, when the top bit of the product is not set. */
  lemma ShiftOnce(f: Format, exp: int, hi: nat, lo: nat, x: real)
    requires f.Valid() && Pow2(f.Size() - 4) <= hi < Pow2(f.Size() - 3) && lo < Pow2(f.Size())
    requires Represents(f, exp - f.Size(), Wide(f, hi, lo), x, 1)
    ensures Term(f, exp - 1, ShiftLeft(f, hi, 1) + Shr(lo, f.Size() - 1), ShiftLeft(f, lo, 1), x)
  {
    hide *;
    SizeIs(f);
    Pow2Zero();
    Pow2Double(f.Size() - 3);
    Pow2Double(f.Size() - 2);
    Pow2Double(f.Size() - 1);
    Pow2Double(f.Size());
    ShiftLeftDef(f, hi, 1);
    ShiftLeftDef(f, lo, 1);
    LowSmall(hi * Pow2(1), f.Size());
    ShiftWide(f, hi, lo, 1);
    ShiftedRepresents(f, exp - f.Size(), Wide(f, hi, lo), x, 1, 1);
    var y := ExactShiftedOnce(f, exp - f.Size(), Wide(f, hi, lo), x);
    TopBit(f, lo);
    TermDef(f, exp - 1, ShiftLeft(f, hi, 1) + Shr(lo, f.Size() - 1), ShiftLeft(f, lo, 1), x);
  }

  lemma ExactShiftedOnce(f: Format, exp: int, wide: nat, x: real) returns (m: nat)
    requires f.Valid() && Represents(f, exp, wide, x, 1)
    ensures m == wide * Pow2(1) && Represents(f, exp - 1, m, x, 1)
  {
    hide *;
    m := wide * Pow2(1);
    ExactShifted(f, exp, wide, x, 1, 1);
  }

  lemma TopBit(f: Format, lo: nat)
    requires f.Valid() && lo < Pow2(f.Size())
    ensures Shr(lo, f.Size() - 1) <= 1 && Low(lo * Pow2(1), f.Size()) % 2 == 0
  {
    hide *;
    SizeIs(f);
    Pow2Zero();
    Pow2Double(f.Size());
    var h := Pow2(f.Size() - 1);
    var q := if lo < h then 0 else 1;
    ShrUnique(lo, f.Size() - 1, q, lo - q * h);
    ShrUnique(lo * 2, f.Size(), q, 2 * (lo - q * h));
  }

  lemma AddendTerm(f: Format, c: nat, ec: int, sc: nat)
    requires f.Valid() && Normalized(f, c, ec, sc)
    ensures ShiftLeft(f, sc, f.RndSize() - 1) == sc * Pow2(f.RndSize() - 1)
    ensures Term(f, ec + 1, sc * Pow2(f.RndSize() - 1), 0, f.MagValue(f.Mag(c)))
  {
    hide *;
    SizeIs(f);
    var x, c1 := f.MagValue(f.Mag(c)), sc * Pow2(f.RndSize() - 1);
    NormalizedDef(f, c, ec, sc);
    ShiftBounds(sc, f.mantSize, f.RndSize() - 1);
    Pow2Le(f.Size() - 2, f.Size());
    Pow2Positive(f.Size());
    LowSmall(c1, f.Size());
    ShiftLeftDef(f, sc, f.RndSize() - 1);
    IntegerRepresents(f, ec, sc, x);
    ExactShifted(f, ec + f.RndSize(), sc, x, f.RndSize() - 1, 1);
    ExactShifted(f, ec + 1, c1, x, f.Size(), 1);
    WideDef(f, c1, 0);
    TermDef(f, ec + 1, c1, 0, x);
  }

  /** fma_sf when the product is finite and nonzero. */
  method FmaFinite(f: Format, a: nat, b: nat, c: nat, rm: RoundingMode, fl: Flags) returns (r: nat, fl': Flags)
    requires f.Valid() && f.IsBits(a) && f.IsBits(b) && f.IsBits(c)
    requires f.IsFinite(a) && f.IsFinite(b) && f.IsFinite(c) && !f.IsZero(a) && !f.IsZero(b)
    ensures Rounded(f, rm, f.Value(a) * f.Value(b) + f.Value(c),
                    ZeroSumSign(rm, f.Negative(a) != f.Negative(b), f.Negative(c)), r, fl, fl')
  {
    hide *;
    SizeIs(f);
    FormatSizes(f);
    var rSign := f.Negative(a) != f.Negative(b);
    var aExp, aMant := Prepare(f, a);
    var bExp, bMant := Prepare(f, b);
    FactorsFit(f, a, aExp, aMant, b, bExp, bMant);
    var rExp := aExp + bExp - Pow2(f.expSize - 1) + 3;
    var rMant1, rMant0 := MulU(f, ShiftLeft(f, aMant, f.RndSize()), ShiftLeft(f, bMant, f.RndSize()));
    ghost var x := f.MagValue(f.Mag(a)) * f.MagValue(f.Mag(b));
    ProductTerm(f, a, aExp, aMant, b, bExp, bMant, rMant1, rMant0);
    if rMant1 < Pow2(f.Size() - 3) {
      ShiftOnce(f, rExp, rMant1, rMant0, x);
      rMant1 := ShiftLeft(f, rMant1, 1) + Shr(rMant0, f.Size() - 1);
      rMant0 := ShiftLeft(f, rMant0, 1);
      rExp := rExp - 1;
    } else {
      LowParity(f, rMant1, rMant0);
      TermDef(f, rExp, rMant1, rMant0, x);
    }
    ClassOfFields(f, c);
    if f.Exp(c) == 0 && f.Mant(c) == 0 {
      // add zero
      TermFaithful(f, rExp, rMant1, rMant0, x);
      r, fl' := Normalize(f, rSign, rExp, OrBit(rMant1, rMant0 != 0), rm, fl);
      PlusZero(f, a, b, c, rm, rExp, OrBit(rMant1, rMant0 != 0), r, fl, fl');
    } else {
      var cExp, cMant := Prepare(f, c);
      AddendTerm(f, c, cExp, cMant);
      cExp := cExp + 1;
      var cMant1 := ShiftLeft(f, cMant, f.RndSize() - 1);
      r, fl' := AddTerms(f, rSign, rExp, rMant1, rMant0, f.Negative(c), cExp, cMant1, rm, fl, x, f.MagValue(f.Mag(c)));
      SignedOperands(f, a, b, c);
    }
  }

  lemma FactorsFit(f: Format, a: nat, ea: int, sa: nat, b: nat, eb: int, sb: nat)
    requires f.Valid() && Normalized(f, a, ea, sa) && Normalized(f, b, eb, sb)
    ensures ShiftLeft(f, sa, f.RndSize()) == sa * Pow2(f.RndSize()) < Pow2(f.Size())
    ensures ShiftLeft(f, sb, f.RndSize()) == sb * Pow2(f.RndSize()) < Pow2(f.Size())
  {
    hide *;
    NormalizedDef(f, a, ea, sa);
    NormalizedDef(f, b, eb, sb);
    TermBounds(f, sa, sb);
    ShiftLeftDef(f, sa, f.RndSize());
    ShiftLeftDef(f, sb, f.RndSize());
    LowSmall(sa * Pow2(f.RndSize()), f.Size());
    LowSmall(sb * Pow2(f.RndSize()), f.Size());
  }

  lemma TermFaithful(f: Format, exp: int, hi: nat, lo: nat, x: real)
    requires f.Valid() && Term(f, exp, hi, lo, x)
    ensures OrBit(hi, lo != 0) < Pow2(f.Size() - 1) && Faithful(f, exp, OrBit(hi, lo != 0), x, 0)
  {
    hide *;
    SizeIs(f);
    TermDef(f, exp, hi, lo, x);
    Pow2Le(f.Size() - 2, f.Size() - 1);
    StickyFaithful(f, exp, hi, lo, x);
  }

  lemma SignedOperands(f: Format, a: nat, b: nat, c: nat)
    requires f.Valid()
    ensures Signed(f.Negative(a) != f.Negative(b), f.MagValue(f.Mag(a)) * f.MagValue(f.Mag(b)))
            + Signed(f.Negative(c), f.MagValue(f.Mag(c))) == f.Value(a) * f.Value(b) + f.Value(c)
  {
    hide *;
    ProductValue(f, a, b);
    ValueDef(f, c);
    SignedDef(f.Negative(a) != f.Negative(b), f.MagValue(f.Mag(a)) * f.MagValue(f.Mag(b)));
    SignedDef(f.Negative(c), f.MagValue(f.Mag(c)));
  }

  lemma PlusZero(f: Format, a: nat, b: nat, c: nat, rm: RoundingMode, exp: int, m: nat, r: nat, fl: Flags, fl': Flags)
    requires f.Valid() && f.IsBits(a) && f.IsBits(b) && f.IsBits(c)
    requires f.IsFinite(a) && f.IsFinite(b) && f.IsFinite(c) && !f.IsZero(a) && !f.IsZero(b) && f.IsZero(c)
    requires Faithful(f, exp, m, f.MagValue(f.Mag(a)) * f.MagValue(f.Mag(b)), 0)
    requires forall x: real | Faithful(f, exp, m, x, 0) ::
      RoundedMagnitude(f, rm, f.Negative(a) != f.Negative(b), x, r, fl, fl')
    ensures Rounded(f, rm, f.Value(a) * f.Value(b) + f.Value(c),
                    ZeroSumSign(rm, f.Negative(a) != f.Negative(b), f.Negative(c)), r, fl, fl')
  {
    hide *;
    var negative, x := f.Negative(a) != f.Negative(b), f.MagValue(f.Mag(a)) * f.MagValue(f.Mag(b));
    ValueOfZero(f, a);
    ValueOfZero(f, b);
    ValueOfZero(f, c);
    PositiveProduct(f.MagValue(f.Mag(a)), f.MagValue(f.Mag(b)));
    ProductValue(f, a, b);
    SignedRounding(f, rm, f.Value(a) * f.Value(b) + f.Value(c), negative, x,
                   ZeroSumSign(rm, negative, f.Negative(c)), r, fl, fl');
  }

  // A zero product leaves c as it is

  lemma ZeroProductPlus(f: Format, a: nat, b: nat, c: nat, rm: RoundingMode, r: nat, fl: Flags)
    requires f.Valid() && f.IsBits(a) && f.IsBits(b) && f.IsBits(c)
    requires f.IsFinite(a) && f.IsFinite(b) && f.IsFinite(c) && (f.IsZero(a) || f.IsZero(b))
    requires var negative := f.Negative(a) != f.Negative(b);
      r == if f.IsZero(c) then f.Bits(if f.Negative(c) != negative then rm == RDN else negative, 0) else c
    ensures Rounded(f, rm, f.Value(a) * f.Value(b) + f.Value(c),
                    ZeroSumSign(rm, f.Negative(a) != f.Negative(b), f.Negative(c)), r, fl, fl)
  {
    hide *;
    var negative := f.Negative(a) != f.Negative(b);
    ZeroProduct(f, a, b);
    ValueOfZero(f, c);
    ZeroSumSignDef(rm, negative, f.Negative(c));
    if f.IsZero(c) {
      RoundedZeroValue(f, rm, f.Value(a) * f.Value(b) + f.Value(c), ZeroSumSign(rm, negative, f.Negative(c)), r, fl);
    } else {
      ExactResult(f, rm, c, ZeroSumSign(rm, negative, f.Negative(c)), fl);
    }
  }

  lemma MultiplyAddCases(f: Format, a: nat, b: nat, c: nat, rm: RoundingMode, r: nat, fl: Flags, fl': Flags)
    requires f.Valid()
    requires
      var negative := f.Negative(a) != f.Negative(b);
      if (f.IsZero(a) && f.IsInf(b)) || (f.IsInf(a) && f.IsZero(b)) then
        r == f.QNaN() && fl' == fl.Or(Invalid)
      else if f.IsNaN(a) || f.IsNaN(b) || f.IsNaN(c) then
        r == f.QNaN()
        && fl' == fl.Or(if f.IsSignaling(a) || f.IsSignaling(b) || f.IsSignaling(c) then Invalid else NoFlags)
      else if (f.IsInf(a) || f.IsInf(b)) && f.IsInf(c) && negative != f.Negative(c) then
        r == f.QNaN() && fl' == fl.Or(Invalid)
      else if f.IsInf(c) then r == f.Bits(f.Negative(c), f.InfMag()) && fl' == fl
      else if f.IsInf(a) || f.IsInf(b) then r == f.Bits(negative, f.InfMag()) && fl' == fl
      else
        Rounded(f, rm, f.Value(a) * f.Value(b) + f.Value(c), ZeroSumSign(rm, negative, f.Negative(c)), r, fl, fl')
    ensures MultiplyAdd(f, a, b, c, rm, r, fl, fl')
  {
  }

  /** fma_sf */
  method Fma(f: Format, a: nat, b: nat, c: nat, rm: RoundingMode, fl: Flags) returns (r: nat, fl': Flags)
    requires f.Valid() && f.IsBits(a) && f.IsBits(b) && f.IsBits(c)
    ensures MultiplyAdd(f, a, b, c, rm, r, fl, fl')
  {
    hide *;
    fl' := fl;
    var rSign := f.Negative(a) != f.Negative(b);
    ClassOfFields(f, a);
    ClassOfFields(f, b);
    ClassOfFields(f, c);
    NanBits(f, a);
    NanBits(f, b);
    NanBits(f, c);
    ExpMaskLarge(f);
    OrFlags(fl);
    PackLimits(f, rSign);
    PackLimits(f, f.Negative(c));
    var mask := f.ExpMask();
    if f.Exp(a) == mask || f.Exp(b) == mask || f.Exp(c) == mask {
      if (f.Exp(a) == 0 && f.Mant(a) == 0 && f.Exp(b) == mask && f.Mant(b) == 0)
         || (f.Exp(b) == 0 && f.Mant(b) == 0 && f.Exp(a) == mask && f.Mant(a) == 0) {
        fl' := fl'.(invalid := true);
        r := f.QNaN();
      } else if IsNanBits(f, a) || IsNanBits(f, b) || IsNanBits(f, c) {
        if IsSigNanBits(f, a) || IsSigNanBits(f, b) || IsSigNanBits(f, c) {
          fl' := fl'.(invalid := true);
        }
        r := f.QNaN();
      } else if (f.Exp(a) == mask && f.Exp(b) == 0 && f.Mant(b) == 0)
             || (f.Exp(b) == mask && f.Exp(a) == 0 && f.Mant(a) == 0)
             || ((f.Exp(a) == mask || f.Exp(b) == mask) && f.Exp(c) == mask && rSign != f.Negative(c)) {
        fl' := fl'.(invalid := true);
        r := f.QNaN();
      } else if f.Exp(c) == mask {
        r := Pack(f, f.Negative(c), mask, 0);
      } else {
        r := Pack(f, rSign, mask, 0);
      }
    } else if (f.Exp(a) == 0 && f.Mant(a) == 0) || (f.Exp(b) == 0 && f.Mant(b) == 0) {
      if f.Exp(c) == 0 && f.Mant(c) == 0 {
        if f.Negative(c) != rSign {
          rSign := rm == RDN;
        }
        PackLimits(f, rSign);
        r := Pack(f, rSign, 0, 0);
      } else {
        r := c;
      }
      ZeroProductPlus(f, a, b, c, rm, r, fl);
    } else {
      r, fl' := FmaFinite(f, a, b, c, rm, fl);
    }
    MultiplyAddCases(f, a, b, c, rm, r, fl, fl');
  }
}
