/**
 * What a correctly rounded square root is, without naming the root: the rungs and the points
 * halfway between them are squared and compared with the radicand.
 */
module RootRounding {
  import opened Powers
  import opened Ieee754
  import opened RoundingKernel
  import opened RoundingTheorems

  ghost function Square(x: real): real { x * x }

  ghost predicate RootBetween(f: Format, v: real, m: nat)
    requires f.Valid()
  {
    Square(f.MagValue(m)) <= v < Square(f.MagValue(m + 1))
  }

  /** Whether the root of v, which lies between lo and hi, goes to hi. */
  ghost predicate RootRoundsUp(rm: RoundingMode, loIsOdd: bool, lo: real, v: real, hi: real) {
    Square(lo) != v &&
    match rm
    case RNE => 4.0 * v > Square(lo + hi) || (4.0 * v == Square(lo + hi) && loIsOdd)
    case RMM => 4.0 * v >= Square(lo + hi)
    case RTZ => false
    case RDN => false
    case RUP => true
  }

  ghost function RootChoice(f: Format, rm: RoundingMode, v: real, m: nat): nat
    requires f.Valid()
  {
    if RootRoundsUp(rm, m % 2 == 1, f.MagValue(m), v, f.MagValue(m + 1)) then m + 1 else m
  }

  /** k is the rung to which the root of v rounds. */
  ghost predicate RootRoundsTo(f: Format, rm: RoundingMode, v: real, k: nat)
    requires f.Valid()
  {
    exists m: nat :: RootBetween(f, v, m) && k == RootChoice(f, rm, v, m)
  }

  ghost predicate RootRoundsBelow(f: Format, rm: RoundingMode, v: real, bound: nat)
    requires f.Valid()
  {
    exists k: nat :: RootRoundsTo(f, rm, v, k) && k < bound
  }

  ghost predicate RootTiny(f: Format, rm: RoundingMode, v: real)
    requires f.Valid()
  {
    RootRoundsBelow(f, rm, 4.0 * v, 2 * Pow2(f.mantSize))
  }

  ghost function RootRaised(f: Format, rm: RoundingMode, v: real, k: nat): Flags
    requires f.Valid()
  {
    var overflow := k >= f.InfMag();
    var inexact := Square(f.MagValue(k)) != v;
    Flags(false, false, overflow, inexact && RootTiny(f, rm, v), inexact || overflow)
  }

  /** r and the flags are the correctly rounded root of v. */
  ghost predicate RootDelivered(f: Format, rm: RoundingMode, v: real, r: nat, fl: Flags, fl': Flags)
    requires f.Valid()
  {
    exists k: nat ::
      && RootRoundsTo(f, rm, v, k)
      && r == f.Bits(false, Deliver(f, rm, false, k))
      && fl' == fl.Or(RootRaised(f, rm, v, k))
  }

  // ---- Standing in for the root ----

  /** p is to x as it is to the root of v. */
  ghost predicate SameSide(p: real, x: real, v: real) {
    (p < x <==> Square(p) < v) && (x < p <==> v < Square(p))
  }

  /** x lies among the rungs m and m + 1 and the point halfway as the root of v does. */
  ghost predicate SameSides(f: Format, x: real, v: real, m: nat)
    requires f.Valid()
  {
    && SameSide(f.MagValue(m), x, v) && SameSide(f.MagValue(m + 1), x, v)
    && SameSide(Halfway(f.MagValue(m), f.MagValue(m + 1)), x, v)
  }

  ghost function Halfway(a: real, b: real): real { (a + b) / 2.0 }

  lemma Ordered(a: real, b: real)
    requires a >= 0.0 && b >= 0.0
    ensures a < b <==> Square(a) < Square(b)
  {
    if a < b {
      Larger(a, b);
    } else if b < a {
      Larger(b, a);
    }
  }

  lemma Larger(a: real, b: real)
    requires 0.0 <= a < b
    ensures Square(a) < Square(b)
  {
    Positive(b - a, b + a);
    assert b * b - a * a == (b - a) * (b + a);
  }

  lemma Positive(x: real, y: real)
    requires x > 0.0 && y > 0.0
    ensures x * y > 0.0
  {
  }

  /** Where the squares say a rational can stand in for the root, among any points at all. */
  lemma {:induction false} StandIn(ps: seq<real>, v: real) returns (x: real)
    requires v > 0.0 && forall i :: 0 <= i < |ps| ==> ps[i] >= 0.0
    ensures x > 0.0 && forall i :: 0 <= i < |ps| ==> SameSide(ps[i], x, v)
  {
    hide *;
    if i :| 0 <= i < |ps| && Square(ps[i]) == v {
      x := ps[i];
      forall j | 0 <= j < |ps| ensures SameSide(ps[j], x, v) {
        TheRoot(ps[j], x, v);
      }
      RootPositive(x, v);
    } else {
      var lo, hi := Gap(ps, v);
      x := (lo + hi) / 2.0;
      forall j | 0 <= j < |ps| ensures SameSide(ps[j], x, v) {
        OutsideGap(ps[j], lo, hi, x, v);
      }
    }
  }

  lemma RootPositive(x: real, v: real)
    requires x >= 0.0 && Square(x) == v && v > 0.0
    ensures x > 0.0
  {
  }

  lemma TheRoot(p: real, x: real, v: real)
    requires p >= 0.0 && x >= 0.0 && Square(x) == v
    ensures SameSide(p, x, v)
  {
    hide Square;
    Ordered(p, x);
    Ordered(x, p);
  }

  lemma OutsideGap(p: real, lo: real, hi: real, x: real, v: real)
    requires Square(lo) < v < Square(hi) && lo < x < hi
    requires if Square(p) < v then p <= lo else v < Square(p) && hi <= p
    ensures SameSide(p, x, v)
  {
    hide Square;
  }

  /** The points below the root lie up to lo, those above it from hi on. */
  lemma {:induction false} Gap(ps: seq<real>, v: real) returns (lo: real, hi: real)
    requires v > 0.0
    requires forall i :: 0 <= i < |ps| ==> ps[i] >= 0.0 && Square(ps[i]) != v
    ensures 0.0 <= lo < hi && Square(lo) < v < Square(hi)
    ensures forall i :: 0 <= i < |ps| ==> if Square(ps[i]) < v then ps[i] <= lo else v < Square(ps[i]) && hi <= ps[i]
  {
    hide *;
    if |ps| == 0 {
      lo, hi := 0.0, v + 1.0;
      AboveRoot(v);
    } else {
      var p, rest := ps[0], ps[1..];
      assert forall i :: 1 <= i < |ps| ==> ps[i] == rest[i - 1];
      lo, hi := Gap(rest, v);
      if Square(p) < v {
        lo := if lo < p then p else lo;
      } else {
        hi := if p < hi then p else hi;
      }
      Ordered(lo, hi);
    }
  }

  lemma AboveRoot(v: real)
    requires v > 0.0
    ensures Square(0.0) < v < Square(v + 1.0)
  {
    Positive(v, v);
    assert (v + 1.0) * (v + 1.0) == v * v + 2.0 * v + 1.0;
  }

  lemma SameSideDef(p: real, x: real, v: real)
    ensures SameSide(p, x, v) <==> (p < x <==> Square(p) < v) && (x < p <==> v < Square(p))
  {
  }

  // ---- The squares tell ----

  lemma SquareHalf(lo: real, hi: real)
    ensures 4.0 * Square(Halfway(lo, hi)) == Square(lo + hi)
  {
    var h := (lo + hi) / 2.0;
    assert lo + hi == 2.0 * h;
    assert (2.0 * h) * (2.0 * h) == 4.0 * (h * h);
  }

  lemma SidesTell(f: Format, rm: RoundingMode, x: real, v: real, m: nat)
    requires f.Valid() && SameSides(f, x, v, m)
    ensures Between(f, x, m) <==> RootBetween(f, v, m)
    ensures ChosenRung(f, rm, false, x, m) == RootChoice(f, rm, v, m)
    ensures f.MagValue(m) == x <==> Square(f.MagValue(m)) == v
    ensures f.MagValue(m + 1) == x <==> Square(f.MagValue(m + 1)) == v
  {
    hide f.MagValue, Square;
    SquareHalf(f.MagValue(m), f.MagValue(m + 1));
  }

  lemma RootBetweenUnique(f: Format, v: real, m: nat, n: nat)
    requires f.Valid() && RootBetween(f, v, m) && RootBetween(f, v, n)
    ensures m == n
  {
    hide f.MagValue, Square;
    if m < n {
      SquaresClimb(f, m + 1, n);
    } else if n < m {
      SquaresClimb(f, n + 1, m);
    }
  }

  lemma SquaresClimb(f: Format, m: nat, n: nat)
    requires f.Valid() && m <= n
    ensures Square(f.MagValue(m)) <= Square(f.MagValue(n))
  {
    hide f.MagValue, Square;
    MagNonneg(f, m);
    MagNonneg(f, n);
    MagValueLe(f, m, n);
    Ordered(f.MagValue(n), f.MagValue(m));
  }

  lemma MagNonneg(f: Format, m: nat)
    requires f.Valid()
    ensures f.MagValue(m) >= 0.0
  {
    hide *;
    RungZero(f);
    MagValueLe(f, 0, m);
  }

  /** Where the root of v lies on the ladder. */
  lemma RootPlaced(f: Format, v: real) returns (m: nat)
    requires f.Valid() && v > 0.0
    ensures RootBetween(f, v, m)
  {
    hide *;
    var top := RungAbove(f, v + 1.0);
    AboveRoot(v);
    Ordered(v + 1.0, f.MagValue(top));
    m := RootSearch(f, v, top);
  }

  lemma {:induction false} RootSearch(f: Format, v: real, top: nat) returns (m: nat)
    requires f.Valid() && 0.0 < v < Square(f.MagValue(top))
    ensures RootBetween(f, v, m)
    decreases top
  {
    hide f.MagValue;
    RungZero(f);
    if Square(f.MagValue(top - 1)) <= v {
      m := top - 1;
    } else {
      m := RootSearch(f, v, top - 1);
    }
  }

  lemma RoundsAlike(f: Format, rm: RoundingMode, x: real, v: real, m: nat, k: nat)
    requires f.Valid() && RootBetween(f, v, m) && SameSides(f, x, v, m)
    ensures RoundsTo(f, rm, false, x, k) <==> RootRoundsTo(f, rm, v, k)
    ensures RootRoundsTo(f, rm, v, k) ==> (f.MagValue(k) == x <==> Square(f.MagValue(k)) == v)
  {
    hide f.MagValue, Square, Between, RootBetween, ChosenRung, RootChoice, SameSides;
    SidesTell(f, rm, x, v, m);
    ChoiceIs(f, rm, v, m);
    if RoundsTo(f, rm, false, x, k) {
      var n: nat :| Between(f, x, n) && k == ChosenRung(f, rm, false, x, n);
      BetweenUnique(f, x, m, n);
    }
    if RootRoundsTo(f, rm, v, k) {
      var n: nat :| RootBetween(f, v, n) && k == RootChoice(f, rm, v, n);
      RootBetweenUnique(f, v, m, n);
    }
  }

  lemma ChoiceIs(f: Format, rm: RoundingMode, v: real, m: nat)
    requires f.Valid()
    ensures RootChoice(f, rm, v, m) == m || RootChoice(f, rm, v, m) == m + 1
  {
  }

  lemma RootTinyAlike(f: Format, rm: RoundingMode, x: real, v: real, m: nat)
    requires f.Valid() && RootBetween(f, 4.0 * v, m) && SameSides(f, 2.0 * x, 4.0 * v, m)
    ensures Tiny(f, rm, false, x) <==> RootTiny(f, rm, v)
  {
    hide RootRoundsBelow, RoundsBelow, SameSides, RootBetween, Pow2;
    BelowAlike(f, rm, 2.0 * x, 4.0 * v, m, 2 * Pow2(f.mantSize));
  }

  lemma BelowAlike(f: Format, rm: RoundingMode, x: real, v: real, m: nat, bound: nat)
    requires f.Valid() && RootBetween(f, v, m) && SameSides(f, x, v, m)
    ensures RoundsBelow(f, rm, false, x, bound) <==> RootRoundsBelow(f, rm, v, bound)
  {
    hide f.MagValue, RoundsTo, RootRoundsTo, SameSides, RootBetween;
    if RoundsBelow(f, rm, false, x, bound) {
      var k: nat :| RoundsTo(f, rm, false, x, k) && k < bound;
      RoundsAlike(f, rm, x, v, m, k);
    }
    if RootRoundsBelow(f, rm, v, bound) {
      var k: nat :| RootRoundsTo(f, rm, v, k) && k < bound;
      RoundsAlike(f, rm, x, v, m, k);
    }
  }

  /** A point that lies where the root lies is rounded as the root is. */
  lemma DeliveredAlike(f: Format, rm: RoundingMode, x: real, v: real, m: nat, n: nat, r: nat, fl: Flags, fl': Flags)
    requires f.Valid() && RootBetween(f, v, m) && SameSides(f, x, v, m)
    requires RootBetween(f, 4.0 * v, n) && SameSides(f, 2.0 * x, 4.0 * v, n)
    ensures RoundedMagnitude(f, rm, false, x, r, fl, fl') <==> RootDelivered(f, rm, v, r, fl, fl')
  {
    hide f.MagValue, RoundsTo, RootRoundsTo, SameSides, RootBetween, Tiny, RootTiny, f.Bits, Deliver, f.InfMag, Square;
    RootTinyAlike(f, rm, x, v, n);
    forall k: nat
      ensures RoundsTo(f, rm, false, x, k) <==> RootRoundsTo(f, rm, v, k)
      ensures RootRoundsTo(f, rm, v, k) ==> Raised(f, rm, false, x, k) == RootRaised(f, rm, v, k)
    {
      RoundsAlike(f, rm, x, v, m, k);
    }
    if RootDelivered(f, rm, v, r, fl, fl') {
      var k: nat :| RootRoundsTo(f, rm, v, k) && r == f.Bits(false, Deliver(f, rm, false, k)) &&
                    fl' == fl.Or(RootRaised(f, rm, v, k));
      assert RoundsTo(f, rm, false, x, k);
    }
  }

  lemma DoubledSide(p: real, x: real, v: real)
    requires SameSide(p / 2.0, x, v)
    ensures SameSide(p, 2.0 * x, 4.0 * v)
  {
    var h := p / 2.0;
    assert p == 2.0 * h;
    assert (2.0 * h) * (2.0 * h) == 4.0 * (h * h);
  }

  /** For a root that is a real number, the squares say what rounding that number says. */
  lemma RealRootDelivered(f: Format, rm: RoundingMode, rho: real, v: real, r: nat, fl: Flags, fl': Flags)
    requires f.Valid() && v > 0.0 && rho >= 0.0 && rho * rho == v
    ensures RootDelivered(f, rm, v, r, fl, fl') <==> Rounded(f, rm, rho, false, r, fl, fl')
  {
    hide *;
    RootIs(rho, v);
    var m := RootPlaced(f, v);
    var n := RootPlaced(f, 4.0 * v);
    DoubledSquare(rho, v);
    RootSides(f, rho, v, m);
    RootSides(f, 2.0 * rho, 4.0 * v, n);
    DeliveredAlike(f, rm, rho, v, m, n, r, fl, fl');
    RoundedPositive(f, rm, rho, r, fl, fl');
  }

  lemma RootIs(rho: real, v: real)
    requires v > 0.0 && rho >= 0.0 && rho * rho == v
    ensures rho > 0.0 && Square(rho) == v
  {
  }

  lemma DoubledSquare(rho: real, v: real)
    requires Square(rho) == v
    ensures Square(2.0 * rho) == 4.0 * v
  {
    assert (2.0 * rho) * (2.0 * rho) == 4.0 * (rho * rho);
  }

  lemma RootSides(f: Format, rho: real, v: real, m: nat)
    requires f.Valid() && rho >= 0.0 && Square(rho) == v
    ensures SameSides(f, rho, v, m)
  {
    hide f.MagValue, Square, SameSide;
    MagNonneg(f, m);
    MagNonneg(f, m + 1);
    TheRoot(f.MagValue(m), rho, v);
    TheRoot(f.MagValue(m + 1), rho, v);
    TheRoot(Halfway(f.MagValue(m), f.MagValue(m + 1)), rho, v);
  }

  lemma RoundedPositive(f: Format, rm: RoundingMode, x: real, r: nat, fl: Flags, fl': Flags)
    requires f.Valid() && x > 0.0
    ensures Rounded(f, rm, x, false, r, fl, fl') <==> RoundedMagnitude(f, rm, false, x, r, fl, fl')
  {
    hide RoundedMagnitude;
  }

  /**
   * If every number that lies where the root lies with respect to two given points is rounded
   * to r, then r is the rounded root.
   */
  lemma StandInDelivers(f: Format, rm: RoundingMode, v: real, a: real, b: real, r: nat, fl: Flags, fl': Flags)
    requires f.Valid() && v > 0.0 && a >= 0.0 && b >= 0.0
    requires forall x: real | SameSide(a, x, v) && SameSide(b, x, v) :: Rounded(f, rm, x, false, r, fl, fl')
    ensures RootDelivered(f, rm, v, r, fl, fl')
  {
    hide *;
    var m := RootPlaced(f, v);
    var n := RootPlaced(f, 4.0 * v);
    var x := ManyPoints(f, v, m, n, a, b);
    DeliveredAlike(f, rm, x, v, m, n, r, fl, fl');
    RoundedPositive(f, rm, x, r, fl, fl');
  }

  lemma ManyPoints(f: Format, v: real, m: nat, n: nat, a: real, b: real) returns (x: real)
    requires f.Valid() && v > 0.0 && a >= 0.0 && b >= 0.0
    ensures x > 0.0 && SameSide(a, x, v) && SameSide(b, x, v)
    ensures SameSides(f, x, v, m) && SameSides(f, 2.0 * x, 4.0 * v, n)
  {
    hide f.MagValue, Square, SameSide;
    MagNonneg(f, m);
    MagNonneg(f, m + 1);
    MagNonneg(f, n);
    MagNonneg(f, n + 1);
    var lo, hi := f.MagValue(n), f.MagValue(n + 1);
    var ps := [a, b, f.MagValue(m), f.MagValue(m + 1), Halfway(f.MagValue(m), f.MagValue(m + 1)),
               lo / 2.0, hi / 2.0, Halfway(lo, hi) / 2.0];
    x := StandIn(ps, v);
    assert forall i :: 0 <= i < 8 ==> SameSide(ps[i], x, v);
    assert SameSide(ps[0], x, v) && SameSide(ps[1], x, v) && SameSide(ps[2], x, v) && SameSide(ps[3], x, v);
    assert SameSide(ps[4], x, v) && SameSide(ps[5], x, v) && SameSide(ps[6], x, v) && SameSide(ps[7], x, v);
    DoubledSide(lo, x, v);
    DoubledSide(hi, x, v);
    DoubledSide(Halfway(lo, hi), x, v);
  }
}
