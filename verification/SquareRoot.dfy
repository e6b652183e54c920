/**
 * sqrtrem_u: the integer square root of a double word by Newton's iteration, started
 * from a power of two.  The iteration comes down to the floor of the root from any start
 * that is not below it; the start can be below it when both words are nonzero.
 */
module SquareRoot {
  import opened Powers
  import opened Ieee754
  import opened Sticky
  import opened RoundingKernel
  import opened Normalization
  import opened WideArithmetic

  ghost predicate IsRoot(s: nat, a: nat) {
    s * s <= a < (s + 1) * (s + 1)
  }

  /** s is not below the root of a. */
  ghost predicate Above(s: nat, a: nat) {
    a < (s + 1) * (s + 1)
  }

  /** The exponent the start is taken from: 2^StartBits is meant to be at least a. */
  function StartBits(f: Format, ah: nat, al: nat): nat
    requires f.Valid() && ah < Pow2(f.Size() - 2) && al < Pow2(f.Size()) && (ah != 0 || al != 0)
  {
    if ah != 0 then f.Size() + BitLen(ah - 1) else BitLen(al - 1)
  }

  function SqrtStart(f: Format, ah: nat, al: nat): nat
    requires f.Valid() && ah < Pow2(f.Size() - 2) && al < Pow2(f.Size()) && (ah != 0 || al != 0)
  {
    Pow2((StartBits(f, ah, al) + 1) / 2)
  }

  /** One Newton step never goes below the root, and stops only at it. */
  lemma NewtonStep(a: nat, s: nat, q: nat, r: nat, u: nat)
    requires s > 0 && a == q * s + r && r < s && u == (q + s) / 2
    ensures Above(u, a)
    ensures u >= s ==> s * s <= a
  {
    MeanInequality(q + 1, s);
    Doubled(u, q + 1 + s);
    assert (q + 1) * s == q * s + s;
    if u >= s {
      MulMono(s, q, s);
    }
  }

  lemma MeanInequality(x: int, y: int)
    ensures 4 * (x * y) <= (x + y) * (x + y)
  {
    assert (x - y) * (x - y) >= 0;
    assert (x + y) * (x + y) == (x - y) * (x - y) + 4 * (x * y);
  }

  lemma Doubled(u: nat, t: nat)
    requires 2 * (u + 1) >= t
    ensures 4 * ((u + 1) * (u + 1)) >= t * t
  {
    hide *;
    MulMono(t, 2 * (u + 1), t);
    MulMono(t, 2 * (u + 1), 2 * (u + 1));
    MulCommutes(t, 2 * (u + 1));
    FourTimes(u + 1);
  }

  lemma FourTimes(v: nat)
    ensures (2 * v) * (2 * v) == 4 * (v * v)
  {
  }

  lemma RootUnique(a: nat, s: nat, t: nat)
    requires IsRoot(s, a) && IsRoot(t, a)
    ensures s == t
  {
    if s < t {
      MulMono(s + 1, t, s + 1);
      MulMono(s + 1, t, t);
      MulCommutes(s + 1, t);
    } else if t < s {
      MulMono(t + 1, s, t + 1);
      MulMono(t + 1, s, s);
      MulCommutes(t + 1, s);
    }
  }

  // The start

  lemma StartCovers(f: Format, ah: nat, al: nat)
    requires f.Valid() && ah < Pow2(f.Size() - 2) && al < Pow2(f.Size()) && (ah != 0 || al != 0)
    ensures StartBits(f, ah, al) <= 2 * f.Size() - 2
    ensures ah == 0 || al == 0 ==> Wide(f, ah, al) <= Pow2(StartBits(f, ah, al))
    ensures Wide(f, ah, al) <= 2 * Pow2(StartBits(f, ah, al))
  {
    hide *;
    SizeIs(f);
    StartBitsDef(f, ah, al);
    WideDef(f, ah, al);
    var n := f.Size();
    if ah == 0 {
      ZeroTimes(Pow2(n));
      BitLenBounds(al - 1);
      BitLenLe(al - 1, n);
    } else {
      var b := BitLen(ah - 1);
      BitLenBounds(ah - 1);
      BitLenLe(ah - 1, n - 2);
      Pow2Add(n, b);
      MulMono(ah, Pow2(b), Pow2(n));
      MulCommutes(Pow2(b), Pow2(n));
      MulAtLeast(Pow2(b), Pow2(n));
    }
  }

  lemma StartBitsDef(f: Format, ah: nat, al: nat)
    requires f.Valid() && ah < Pow2(f.Size() - 2) && al < Pow2(f.Size()) && (ah != 0 || al != 0)
    ensures StartBits(f, ah, al) == if ah != 0 then f.Size() + BitLen(ah - 1) else BitLen(al - 1)
    ensures SqrtStart(f, ah, al) == Pow2((StartBits(f, ah, al) + 1) / 2)
  {
  }

  lemma StartSquare(l: nat)
    ensures var s := Pow2((l + 1) / 2); s * s == Pow2(2 * ((l + 1) / 2)) && Pow2(l) <= s * s
  {
    hide *;
    Pow2Add((l + 1) / 2, (l + 1) / 2);
    Pow2Le(l, 2 * ((l + 1) / 2));
  }

  lemma BelowSquare(a: nat, s: nat)
    requires a <= s * s
    ensures Above(s, a)
  {
    assert (s + 1) * (s + 1) == s * s + 2 * s + 1;
  }

  /** With one of the words zero, as in its only call, the start is not below the root. */
  lemma StartReaches(f: Format, ah: nat, al: nat)
    requires f.Valid() && ah < Pow2(f.Size() - 2) && al < Pow2(f.Size()) && (ah != 0 || al != 0)
    requires ah == 0 || al == 0
    ensures Above(SqrtStart(f, ah, al), Wide(f, ah, al))
  {
    hide *;
    StartCovers(f, ah, al);
    StartBitsDef(f, ah, al);
    StartSquare(StartBits(f, ah, al));
    BelowSquare(Wide(f, ah, al), SqrtStart(f, ah, al));
  }

  /** With both words nonzero it can be: at 3 * 2^31 the start is 2^16, the root 80264. */
  lemma StartTooLow()
    ensures var f := Format(23, 8);
      f.Valid() && 1 < Pow2(f.Size() - 2) && Pow2(31) < Pow2(f.Size())
      && !Above(SqrtStart(f, 1, Pow2(31)), Wide(f, 1, Pow2(31)))
  {
    assert Pow2(8) == 256;
    Pow2Add(8, 8);
    Pow2Add(16, 15);
    Pow2Add(16, 16);
    assert Pow2(15) == 32768;
  }

  // The iteration

  /** While s is between the root and 2^(Size-1), the division and the mean stay in a word. */
  lemma StepFits(f: Format, ah: nat, al: nat, s: nat)
    requires f.Valid() && ah < Pow2(f.Size() - 2) && al < Pow2(f.Size())
    requires 0 < s <= Pow2(f.Size() - 1) && Above(s, Wide(f, ah, al))
    ensures ah < s
  {
    hide *;
    SizeIs(f);
    Pow2Double(f.Size());
    Pow2Double(f.Size() - 1);
    WideDef(f, ah, al);
    AboveDef(s, Wide(f, ah, al));
    ProductOver(ah, Pow2(f.Size()), s, 0);
    SquareVersus(s, Pow2(f.Size()));
  }

  lemma AboveDef(s: nat, a: nat)
    ensures Above(s, a) <==> a < (s + 1) * (s + 1)
    ensures IsRoot(s, a) <==> s * s <= a && Above(s, a)
  {
  }

  lemma SquareVersus(s: nat, w: nat)
    requires 0 < s
    ensures (s + 1) * (s + 1) > s * w ==> s + 3 >= w
  {
    SquareOfSum(s, 1);
    ProductOver(w, s, s, 4);
    MulCommutes(s, w);
  }

  /** The one double word below 2^(2*Size-2) where the word-sized sum of a step wraps to zero. */
  function WrappingWord(f: Format): nat
    requires f.Valid()
  {
    MulAtLeast(Pow2(f.Size() - 1), Pow2(f.Size() - 1));
    Pow2(f.Size() - 1) * Pow2(f.Size() - 1) - 1
  }

  lemma WrappingWordDef(f: Format)
    requires f.Valid()
    ensures WrappingWord(f) == Pow2(f.Size() - 1) * Pow2(f.Size() - 1) - 1
  {
  }

  lemma WideLimit(f: Format, ah: nat, al: nat)
    requires f.Valid() && ah < Pow2(f.Size() - 2) && al < Pow2(f.Size())
    ensures Wide(f, ah, al) < Pow2(f.Size() - 1) * Pow2(f.Size() - 1)
  {
    hide *;
    SizeIs(f);
    WideDef(f, ah, al);
    Pow2Add(f.Size() - 2, f.Size());
    Pow2Add(f.Size() - 1, f.Size() - 1);
    MulDiff(Pow2(f.Size() - 2), ah, Pow2(f.Size()));
    MulAtLeast(Pow2(f.Size() - 2) - ah, Pow2(f.Size()));
  }

  lemma SumFits(h: nat, a: nat, s: nat, q: nat, r: nat)
    requires 0 < s <= h && a == q * s + r && r < s && a < (s + 1) * (s + 1)
    requires a < h * h && a != h * h - 1
    ensures q + s < 2 * h
  {
    SquareOfSum(s, 1);
    ProductOver(q, s, s, 3);
    ProductOver(q, s, s, 2);
    ProductOver(q, h, h, 0);
    if s == h - 1 {
      assert h * h == (s + 1) * (s + 1);
    }
  }

  lemma SquareOfSum(s: nat, d: nat)
    ensures (s + d) * (s + d) == s * s + 2 * (d * s) + d * d
  {
  }

  /** From a start below the root the first step already stops. */
  lemma LowStart(h: nat, w: nat, a: nat, ah: nat, s: nat)
    requires 0 < s && 2 * s <= h && w == 2 * h && a <= 2 * (s * s) && ah * w <= a
    ensures ah < s
  {
    MulMono(4 * s, w, ah);
    MulCommutes(w, ah);
    CancelSquare(ah, s);
  }

  lemma CancelSquare(b: nat, s: nat)
    requires 0 < s && (4 * s) * b <= 2 * (s * s)
    ensures b < s
  {
    assert (4 * s) * b == 4 * (b * s);
    ProductOver(b, s, s, 0);
  }

  lemma LowQuotient(a: nat, s: nat, q: nat, r: nat)
    requires 0 < s && (s + 1) * (s + 1) <= a <= 2 * (s * s) && a == q * s + r && r < s
    ensures s <= q <= 2 * s
  {
    SquareOfSum(s, 1);
    ProductOver(q, s, 2 * s, 1);
    assert (2 * s) * s == 2 * (s * s);
    ProductOver(s, s, q, 1);
  }

  lemma StartRangeOf(f: Format, ah: nat, al: nat)
    requires f.Valid() && ah < Pow2(f.Size() - 2) && al < Pow2(f.Size()) && (ah != 0 || al != 0)
    ensures 0 < SqrtStart(f, ah, al) <= Pow2(f.Size() - 1)
    ensures var s, a := SqrtStart(f, ah, al), Wide(f, ah, al);
      Above(s, a) || (2 * s <= Pow2(f.Size() - 1) && (s + 1) * (s + 1) <= a <= 2 * (s * s))
  {
    hide *;
    SizeIs(f);
    var s, a, l := SqrtStart(f, ah, al), Wide(f, ah, al), StartBits(f, ah, al);
    StartBitsDef(f, ah, al);
    StartCovers(f, ah, al);
    StartSquare(l);
    Pow2Le((l + 1) / 2, f.Size() - 1);
    AboveDef(s, a);
    WideLimit(f, ah, al);
    Pow2Double(f.Size() - 1);
    if !Above(s, a) {
      if (l + 1) / 2 == f.Size() - 1 {
        BelowSquare(a, s);
      } else {
        Pow2Le((l + 1) / 2, f.Size() - 2);
      }
    }
  }

  /** What is known when the loop starts a round with u. */
  ghost predicate Round(start: nat, u: nat, a: nat, h: nat) {
    0 < u <= h && if Above(start, a) then Above(u, a) else u == start
  }

  lemma RoundFacts(f: Format, ah: nat, al: nat, s: nat)
    requires f.Valid() && ah < Pow2(f.Size() - 2) && al < Pow2(f.Size()) && (ah != 0 || al != 0)
    requires Wide(f, ah, al) != WrappingWord(f)
    requires Round(SqrtStart(f, ah, al), s, Wide(f, ah, al), Pow2(f.Size() - 1))
    ensures ah < s
    ensures forall q: nat, r: nat {:trigger Quotient(Wide(f, ah, al), s, q, r)} :: Quotient(Wide(f, ah, al), s, q, r) ==>
      q + s < Pow2(f.Size()) && RoundOutcome(SqrtStart(f, ah, al), s, Wide(f, ah, al), Pow2(f.Size() - 1), (q + s) / 2)
  {
    hide *;
    SizeIs(f);
    var start, a, h := SqrtStart(f, ah, al), Wide(f, ah, al), Pow2(f.Size() - 1);
    RoundDef(start, s, a, h);
    StartRangeOf(f, ah, al);
    WideLimit(f, ah, al);
    WrappingWordDef(f);
    Pow2Double(f.Size());
    WideDef(f, ah, al);
    if Above(start, a) {
      StepFits(f, ah, al, s);
    } else {
      LowStart(h, Pow2(f.Size()), a, ah, s);
    }
    forall q: nat, r: nat | Quotient(a, s, q, r)
      ensures q + s < Pow2(f.Size()) && RoundOutcome(start, s, a, h, (q + s) / 2)
    {
      OneRound(start, s, a, h, q, r);
    }
  }

  ghost predicate Quotient(a: nat, s: nat, q: nat, r: nat) {
    a == q * s + r && r < s
  }

  /** The next value starts a round again, or the loop stops with the root. */
  ghost predicate RoundOutcome(start: nat, s: nat, a: nat, h: nat, u: nat) {
    if u < s then Round(start, u, a, h) else if Above(start, a) then IsRoot(s, a) else s == start
  }

  lemma RoundDef(start: nat, u: nat, a: nat, h: nat)
    ensures Round(start, u, a, h) <==> 0 < u <= h && if Above(start, a) then Above(u, a) else u == start
  {
  }

  lemma OneRound(start: nat, s: nat, a: nat, h: nat, q: nat, r: nat)
    requires Round(start, s, a, h) && Quotient(a, s, q, r) && 0 < a < h * h && a != h * h - 1
    requires Above(start, a) || (2 * start <= h && (start + 1) * (start + 1) <= a <= 2 * (start * start))
    ensures q + s < 2 * h && RoundOutcome(start, s, a, h, (q + s) / 2)
  {
    NewtonStep(a, s, q, r, (q + s) / 2);
    if Above(start, a) {
      SumFits(h, a, s, q, r);
    } else {
      LowQuotient(a, s, q, r);
    }
  }

  // ---- The one double word that makes the iteration run away ----

  /** From here the next value is h, h - 1 or 0, and 0 is no divisor. */
  ghost predicate Doomed(u: nat, h: nat) {
    u == h || u + 1 == h || u == 0
  }

  lemma DoomedStart(f: Format, ah: nat, al: nat)
    requires f.Valid() && ah < Pow2(f.Size() - 2) && al < Pow2(f.Size()) && (ah != 0 || al != 0)
    requires Wide(f, ah, al) == WrappingWord(f)
    ensures Doomed(SqrtStart(f, ah, al), Pow2(f.Size() - 1)) && SqrtStart(f, ah, al) > 0
  {
    hide *;
    SizeIs(f);
    StartRangeOf(f, ah, al);
    WrappingWordDef(f);
    AboveDef(SqrtStart(f, ah, al), Wide(f, ah, al));
    NearSquare(SqrtStart(f, ah, al), Pow2(f.Size() - 1));
    DoomedDef(SqrtStart(f, ah, al), Pow2(f.Size() - 1));
  }

  lemma NearSquare(s: nat, h: nat)
    requires 0 < s <= h && (h * h - 1 < (s + 1) * (s + 1) || (2 * s <= h && h * h - 1 <= 2 * (s * s)))
    ensures s == h || s + 1 == h
  {
    SquareOrders(s + 2, h);
    SquareOrders(2 * s, h);
    SquareOrders(1, s);
    SquareOfSum(s, 2);
    SquareOfSum(s, 1);
    FourTimesSquare(s);
    NearLinear(s, h, s * s, (s + 1) * (s + 1), (s + 2) * (s + 2), h * h);
  }

  lemma FourTimesSquare(s: nat)
    ensures (2 * s) * (2 * s) == 4 * (s * s)
  {
  }

  lemma NearLinear(s: nat, h: nat, x: nat, y: nat, z: nat, hh: nat)
    requires 0 < s <= h && x >= 1 && y == x + 2 * s + 1 && z == x + 4 * s + 4
    requires (s + 2 <= h ==> z <= hh) && (2 * s <= h ==> 4 * x <= hh)
    requires hh - 1 < y || (2 * s <= h && hh - 1 <= 2 * x)
    ensures s == h || s + 1 == h
  {
  }

  lemma SquareOrders(a: nat, b: nat)
    ensures a <= b ==> a * a <= b * b
  {
    if a <= b {
      MulMono(a, b, a);
      MulMono(a, b, b);
    }
  }

  /** The step from h goes to h - 1, and the sum of the step from there is 2^Size, which a word keeps as 0. */
  lemma DoomedStep(f: Format, ah: nat, al: nat, s: nat, q: nat, r: nat)
    requires f.Valid() && Wide(f, ah, al) == WrappingWord(f)
    requires var h := Pow2(f.Size() - 1); s > 0 && Doomed(s, h) && Quotient(Wide(f, ah, al), s, q, r)
    ensures var h := Pow2(f.Size() - 1); q + s == if s == h then 2 * h - 1 else 2 * h
    ensures Low(q + s, f.Size()) / 2 < s && Doomed(Low(q + s, f.Size()) / 2, Pow2(f.Size() - 1))
  {
    hide *;
    SizeIs(f);
    var n, h := f.Size(), Pow2(f.Size() - 1);
    WrappingWordDef(f);
    QuotientDef(Wide(f, ah, al), s, q, r);
    DoomedDef(s, h);
    Pow2Double(n);
    DoomedQuotient(h, s, q, r);
    if s == h {
      LowSmall(q + s, n);
    } else {
      ShrUnique(2 * h, n, 1, 0);
    }
    DoomedDef(Low(q + s, n) / 2, h);
  }

  lemma DoomedQuotient(h: nat, s: nat, q: nat, r: nat)
    requires 0 < s && (s == h || s + 1 == h) && h * h - 1 == q * s + r && r < s
    ensures q == if s == h then h - 1 else h + 1
  {
    if s == h {
      assert h * h - 1 == (h - 1) * h + (h - 1);
      DivModUnique(h * h - 1, s, h - 1, h - 1);
    } else {
      assert h * h - 1 == (h + 1) * s + 0;
      DivModUnique(h * h - 1, s, h + 1, 0);
    }
    DivModUnique(h * h - 1, s, q, r);
  }

  lemma DoomedDef(u: nat, h: nat)
    ensures Doomed(u, h) <==> u == h || u + 1 == h || u == 0
  {
  }

  /** Until then the division is a proper one. */
  lemma DoomedDivisor(f: Format, ah: nat, al: nat, s: nat)
    requires f.Valid() && ah < Pow2(f.Size() - 2) && s > 0 && Doomed(s, Pow2(f.Size() - 1))
    ensures ah < s
  {
    hide *;
    SizeIs(f);
    DoomedDef(s, Pow2(f.Size() - 1));
    Pow2Double(f.Size() - 1);
  }

  /**
   * sqrtrem_u: the floor of the root, and whether it is not exact, exactly when the start
   * is not below the root; otherwise the start itself.  ok is the assertion of divrem_u,
   * which one double word violates: the sum of a step wraps to zero, the next divisor.
   */
  method SqrtRemU(f: Format, ah: nat, al: nat) returns (ok: bool, s: nat, inexact: bool)
    requires f.Valid() && ah < Pow2(f.Size() - 2) && al < Pow2(f.Size())
    ensures ok <==> Wide(f, ah, al) != WrappingWord(f)
    ensures ok ==> s <= Pow2(f.Size() - 1) && (inexact <==> s * s != Wide(f, ah, al))
    ensures ok && ah == 0 && al == 0 ==> s == 0
    ensures ok && (ah != 0 || al != 0) ==>
      && (IsRoot(s, Wide(f, ah, al)) <==> Above(SqrtStart(f, ah, al), Wide(f, ah, al)))
      && (!Above(SqrtStart(f, ah, al), Wide(f, ah, al)) ==> s == SqrtStart(f, ah, al))
  {
    hide *;
    var n := f.Size();
    SizeIs(f);
    AddendSmall(f, RTZ, false);
    ghost var h, a := Pow2(n - 1), Wide(f, ah, al);
    var l;
    if ah != 0 {
      IsBitsDef(f, ah - 1);
      ClzDef(f, ah - 1);
      l := 2 * n - LeadingZeros(f, ah - 1);
    } else {
      if al == 0 {
        WideDef(f, 0, 0);
        ZeroTimes(Pow2(n));
        NotZero(f);
        return true, 0, false;
      }
      IsBitsDef(f, al - 1);
      ClzDef(f, al - 1);
      l := n - LeadingZeros(f, al - 1);
    }
    StartBitsDef(f, ah, al);
    StartRangeOf(f, ah, al);
    ghost var start := SqrtStart(f, ah, al);
    var u: nat := Pow2((l + 1) / 2);
    RoundDef(start, u, a, h);
    if a == WrappingWord(f) {
      DoomedStart(f, ah, al);
    }
    s := u;
    while true
      invariant if a == WrappingWord(f) then Doomed(u, h) else Round(start, u, a, h)
      decreases u
    {
      s := u;
      if a == WrappingWord(f) {
        DoomedDef(s, h);
        if s > 0 {
          DoomedDivisor(f, ah, al, s);
        }
      } else {
        RoundDef(start, s, a, h);
        RoundFacts(f, ah, al, s);
      }
      if ah >= s {
        return false, 0, false;
      }
      Pow2Double(n);
      var q, r := DivRemU(f, ah, al, s);
      QuotientDef(a, s, q, r);
      u := Low(q + s, n) / 2;
      if a == WrappingWord(f) {
        DoomedStep(f, ah, al, s, q, r);
      } else {
        LowSmall(q + s, n);
        OutcomeDef(start, s, a, h, u);
      }
      if u >= s {
        break;
      }
    }
    ok := true;
    var sq1, sq0 := MulU(f, s, s);
    inexact := sq0 != al || sq1 != ah;
    WideInjective(f, sq1, sq0, ah, al);
    AboveDef(s, a);
  }

  lemma NotZero(f: Format)
    requires f.Valid()
    ensures WrappingWord(f) != 0
  {
    hide *;
    SizeIs(f);
    WrappingWordDef(f);
    Pow2Le(1, f.Size() - 1);
    Pow2Double(1);
    Pow2Zero();
    MulMono(2, Pow2(f.Size() - 1), Pow2(f.Size() - 1));
  }

  lemma QuotientDef(a: nat, s: nat, q: nat, r: nat)
    ensures Quotient(a, s, q, r) <==> a == q * s + r && r < s
  {
  }

  lemma OutcomeDef(start: nat, s: nat, a: nat, h: nat, u: nat)
    ensures RoundOutcome(start, s, a, h, u) <==>
      if u < s then Round(start, u, a, h) else if Above(start, a) then IsRoot(s, a) else s == start
  {
  }

  lemma WideInjective(f: Format, a1: nat, a0: nat, b1: nat, b0: nat)
    requires a0 < Pow2(f.Size()) && b0 < Pow2(f.Size())
    ensures Wide(f, a1, a0) == Wide(f, b1, b0) <==> a1 == b1 && a0 == b0
  {
    hide *;
    WideParts(f, a1, a0);
    WideParts(f, b1, b0);
  }
}
