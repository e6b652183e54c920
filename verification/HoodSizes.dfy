/**
 * Table sizes: how many elements a table of n home slots admits, how long its buffer is,
 * and the conditions under which a whole table is in order.
 */
module HoodSizes {
  import opened HoodLayout
  import opened HoodSteps

  const SizeLimit: nat := 0x1_0000_0000_0000_0000

  const InitialNumElements: nat := 8

  /** calcMaxNumElementsAllowed, with the load factor in percent. */
  function Allowed(n: nat, load: nat): nat {
    if n <= (SizeLimit - 1) / 100 then n * load / 100 else n / 100 * load
  }

  /** calcNumElementsWithBuffer: one spare slot per allowed element, 255 at most. */
  function WithBuffer(n: nat, load: nat): nat {
    n + if Allowed(n, load) < 255 then Allowed(n, load) else 255
  }

  /**
   * A table of n slots admits load percent of them, rounded down; large tables lose less than
   * a hundredth of a slot for each percent more. The buffer has that many spare slots, or 255.
   */
  lemma AllowedInNumbers(n: nat, load: nat)
    ensures var a := Allowed(n, load);
      && 100 * a <= n * load
      && (if n <= 184467440737095516 then n * load < 100 * a + 100 else n * load <= 100 * a + 99 * load)
      && WithBuffer(n, load) == n + (if a < 255 then a else 255)
  {
    if n > 184467440737095516 {
      Hundreds(n, load);
    }
  }

  lemma Hundreds(n: nat, load: nat)
    ensures 100 * (n / 100 * load) <= n * load <= 100 * (n / 100 * load) + 99 * load
  {
    HundredParts(n, n / 100, n % 100, load);
  }

  lemma HundredParts(n: nat, q: nat, r: nat, load: nat)
    requires n == 100 * q + r && r < 100
    ensures 100 * (q * load) <= n * load <= 100 * (q * load) + 99 * load
  {
    assert (100 * q + r) * load == 100 * (q * load) + r * load;
    assert 0 <= r * load <= 99 * load by { BothOrders(r, 99, load); }
  }

  predicate PowerOfTwo(n: nat) {
    n == 1 || (n > 1 && n % 2 == 0 && PowerOfTwo(n / 2))
  }

  lemma {:induction false} PowerOfTwoUnique(a: nat, b: nat)
    requires PowerOfTwo(a) && PowerOfTwo(b) && b <= a < 2 * b
    ensures a == b
    decreases a
  {
    if b > 1 {
      PowerOfTwoUnique(a / 2, b / 2);
    }
  }

  lemma BothOrders(a: nat, b: nat, c: nat)
    requires a <= b
    ensures a * c <= b * c
    ensures c * a <= c * b
  {
  }

  lemma AllowedGrows(n: nat, load: nat)
    requires 10 < load < 100 && 2 * n < SizeLimit
    ensures Allowed(n, load) <= Allowed(2 * n, load)
  {
    BothOrders(n, 2 * n, load);
    BothOrders(n / 100, 2 * n / 100, load);
    if n <= (SizeLimit - 1) / 100 < 2 * n {
      DoubledStep(n, load);
    }
  }

  /** Where the formula changes, the coarser one still admits at least as much. */
  lemma DoubledStep(n: nat, load: nat)
    requires 10 < load < 100 && n >= 100
    ensures n * load / 100 <= 2 * n / 100 * load
  {
    var q := 2 * n / 100;
    assert 2 * n < 100 * q + 100;
    assert n <= 100 * q;
    BothOrders(n, 100 * q, load);
    assert 100 * q * load == 100 * (q * load);
  }

  /** Doubling the slots always admits more, and four times the slots more than twice as much. */
  lemma AllowedDoubles(n: nat, load: nat)
    requires 10 < load < 100 && n >= 8
    ensures Allowed(n, load) < Allowed(2 * n, load)
  {
    hide *;
    AllowedScaled(n, 2, load);
  }

  lemma AllowedQuadruples(n: nat, load: nat)
    requires 10 < load < 100 && n >= 8
    ensures 2 * Allowed(n, load) < Allowed(4 * n, load)
  {
    hide *;
    AllowedScaled(n, 4, load);
  }

  lemma AllowedScaled(n: nat, c: nat, load: nat)
    requires 10 < load < 100 && n >= 8 && (c == 2 || c == 4)
    ensures c / 2 * Allowed(n, load) < Allowed(c * n, load)
  {
    hide *;
    AllowedDef(n, load);
    AllowedDef(c * n, load);
    var p := n * load;
    Scaled(c, n, load);
    if c * n <= (SizeLimit - 1) / 100 {
      BothOrders(8, n, load);
      LowDoubles(p);
    } else if n <= (SizeLimit - 1) / 100 {
      CoarseAbove(c * n, load);
      BothOrders(250, n, load);
      LowShare(p, c * n / 100 * load);
    } else {
      HundredthsDouble(n);
      BothOrders(c / 2 * (n / 100) + 1, c * n / 100, load);
      OneMore(c / 2 * (n / 100), load);
      Scaled(c / 2, n / 100, load);
    }
  }

  lemma Scaled(c: nat, n: nat, load: nat)
    ensures c * n * load == c * (n * load)
    ensures c == 4 ==> n <= c * n
  {
  }

  lemma HundredthsDouble(n: nat)
    requires n >= 100
    ensures 2 * n / 100 >= n / 100 + 1 && 4 * n / 100 >= 2 * (n / 100) + 1
  {
  }

  lemma LowDoubles(p: nat)
    requires p >= 88
    ensures p / 100 < 2 * p / 100 && 2 * (p / 100) < 4 * p / 100
  {
  }

  lemma LowShare(p: nat, y: nat)
    ensures 100 * y > p ==> y > p / 100
    ensures 100 * y > 2 * p ==> y > 2 * (p / 100)
  {
  }

  lemma CoarseAbove(n: nat, load: nat)
    ensures 100 * (n / 100 * load) >= n * load - 99 * load
  {
    BothOrders(n, 100 * (n / 100) + 99, load);
    assert (100 * (n / 100) + 99) * load == 100 * (n / 100 * load) + 99 * load;
  }

  lemma OneMore(q: nat, load: nat)
    ensures (q + 1) * load == q * load + load
  {
  }

  /** A larger power of two admits at least as much. */
  lemma {:induction false} AllowedMono(a: nat, b: nat, load: nat)
    requires 10 < load < 100 && PowerOfTwo(a) && PowerOfTwo(b) && a <= b < SizeLimit
    ensures Allowed(a, load) <= Allowed(b, load)
    decreases b
  {
    hide Allowed;
    if a < b {
      if b / 2 < a {
        PowerOfTwoUnique(a, b / 2);
      }
      AllowedMono(a, b / 2, load);
      AllowedGrows(b / 2, load);
    }
  }

  /** No size below n admits c elements. */
  ghost predicate TooSmallBelow(c: nat, load: nat, n: nat) {
    forall k {:trigger PowerOfTwo(k)} :: InitialNumElements <= k < n && PowerOfTwo(k) ==> Allowed(k, load) < c
  }

  /** n is the least size of a table that admits c elements. */
  ghost predicate SizeFor(c: nat, load: nat, n: nat) {
    && PowerOfTwo(n) && InitialNumElements <= n < SizeLimit
    && Allowed(n, load) >= c && TooSmallBelow(c, load, n)
  }

  lemma NoneSmaller(load: nat, c: nat)
    ensures TooSmallBelow(c, load, InitialNumElements)
  {
  }

  lemma NextSize(c: nat, load: nat, n: nat)
    requires PowerOfTwo(n) && InitialNumElements <= n < SizeLimit && Allowed(n, load) < c && TooSmallBelow(c, load, n)
    ensures TooSmallBelow(c, load, if n * 2 % SizeLimit == 0 then SizeLimit else n * 2)
  {
    hide PowerOfTwo, Allowed;
    forall k {:trigger PowerOfTwo(k)} | n <= k < 2 * n && PowerOfTwo(k) ensures k == n {
      PowerOfTwoUnique(k, n);
    }
  }

  lemma AllTooSmall(c: nat, load: nat)
    requires TooSmallBelow(c, load, SizeLimit)
    ensures forall n: nat :: !SizeFor(c, load, n)
  {
    hide PowerOfTwo, Allowed;
  }

  lemma LeastSize(c: nat, load: nat, n: nat)
    requires PowerOfTwo(n) && InitialNumElements <= n < SizeLimit && Allowed(n, load) >= c && TooSmallBelow(c, load, n)
    ensures SizeFor(c, load, n)
  {
  }

  lemma OneSize(c: nat, load: nat, n: nat, n': nat)
    requires SizeFor(c, load, n) && SizeFor(c, load, n')
    ensures n == n' > 0
  {
    hide PowerOfTwo, Allowed;
  }

  lemma AllowedPositive(n: nat, load: nat)
    requires 10 < load < 100 && n >= 10
    ensures Allowed(n, load) >= 1
    ensures 100 * (Allowed(n, load) + 10) > 10 * n
  {
    hide *;
    AllowedDef(n, load);
    if n <= (SizeLimit - 1) / 100 {
      BothOrders(10, load, n);
      DivLow(n * load);
    } else {
      BothOrders(10, load, n / 100);
    }
  }

  lemma AllowedDef(n: nat, load: nat)
    ensures Allowed(n, load) == if n <= (SizeLimit - 1) / 100 then n * load / 100 else n / 100 * load
    ensures (SizeLimit - 1) / 100 > 1000
  {
  }

  lemma DivLow(x: nat)
    ensures 100 * (x / 100) > x - 100
  {
  }

  /** A table that is less than half as full as admitted has many slots per element. */
  lemma HalfFull(n: nat, load: nat, elements: nat)
    requires 10 < load < 100 && n >= 8 && Allowed(n, load) <= 2 * elements
    ensures n < 20 * elements + 100
  {
    if n >= 10 {
      AllowedPositive(n, load);
    }
  }

  /** A table that has allocated its slots and is in order. */
  ghost predicate Fit<K, V>(h: K -> nat, load: nat, n: nat, s: Scale, kv: seq<Slot<K, V>>, info: seq<nat>,
                            m: map<K, V>, pos: map<K, nat>, maxAllowed: nat) {
    && PowerOfTwo(n) && n >= InitialNumElements
    && |kv| == WithBuffer(n, load)
    && Sound(h, n, s, kv, info, m, pos)
    && |m| <= Allowed(n, load)
    && Bytes(info, 0)
    && (maxAllowed == 0 || (maxAllowed == Allowed(n, load) && Bytes(info, s.inc)))
  }

  /** Every info byte, plus spare, still fits a byte. */
  ghost predicate Bytes(info: seq<nat>, spare: nat) {
    forall i {:trigger info[i]} :: 0 <= i < |info| ==> info[i] + spare <= 255
  }

  /** The table before its first insertion: it reads its info from a mask of zero bytes. */
  ghost predicate Vacant<K, V>(n: nat, s: Scale, kv: seq<Slot<K, V>>, info: seq<nat>, m: map<K, V>, pos: map<K, nat>, maxAllowed: nat) {
    n == 1 && s.Valid() && kv == [] && |info| == 8 && (forall i :: 0 <= i < 8 ==> info[i] == 0)
    && m == map[] && pos == map[] && maxAllowed == 0
  }

  ghost predicate InOrder<K, V>(h: K -> nat, load: nat, n: nat, s: Scale, kv: seq<Slot<K, V>>, info: seq<nat>,
                                m: map<K, V>, pos: map<K, nat>, maxAllowed: nat) {
    Vacant(n, s, kv, info, m, pos, maxAllowed) || Fit(h, load, n, s, kv, info, m, pos, maxAllowed)
  }
}
