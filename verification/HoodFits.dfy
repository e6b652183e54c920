/**
 * What the steps of the Robin-hood table do to a table in order: scans stop inside the
 * buffer, insertion and removal leave a table that still admits its elements, and only a
 * crowd of colliding keys can exhaust the info bytes.
 */
module HoodFits {
  import opened HoodLayout
  import opened HoodSteps
  import opened HoodSizes

  // ---- Scanning a table in order ----

  lemma ScanStart<K, V>(h: K -> nat, load: nat, n: nat, s: Scale, kv: seq<Slot<K, V>>, info: seq<nat>,
                        m: map<K, V>, pos: map<K, nat>, max: nat, k: K)
    requires InOrder(h, load, n, s, kv, info, m, pos, max)
    ensures n > 0 && s.Valid() && |info| == |kv| + 8
    ensures Home(h(k), n) <= |kv|
    ensures InfoAt(h(k), n, s, Home(h(k), n)) == s.inc + HashBits(h(k), s)
  {
    InfoHome(h(k), n, s);
  }

  lemma ScanLooks<K, V>(h: K -> nat, load: nat, n: nat, s: Scale, kv: seq<Slot<K, V>>, info: seq<nat>,
                        m: map<K, V>, pos: map<K, nat>, max: nat, k: K, j: nat)
    requires InOrder(h, load, n, s, kv, info, m, pos, max)
    requires n > 0 && Home(h(k), n) <= j < |info|
    ensures InfoAt(h(k), n, s, j) >= 2
    ensures InfoAt(h(k), n, s, j + 1) == InfoAt(h(k), n, s, j) + s.inc
    ensures info[j] >= InfoAt(h(k), n, s, j) ==> j < |kv| && kv[j].Node?
    ensures j < |kv| && kv[j].Node? && kv[j].key == k ==>
              info[j] == InfoAt(h(k), n, s, j) && k in m && pos[k] == j && m[k] == kv[j].val
  {
    InfoStep(h(k), n, s, j);
    InfoFrom(h(k), n, s, j);
    if Fit(h, load, n, s, kv, info, m, pos, max) {
      InfoTells(h, n, s, kv, info, m, pos, k, j);
      if j < |kv| && kv[j].Node? && kv[j].key == k {
        assert pos[k] == j;
        KeyAt(kv, m, pos, k);
      }
    }
  }

  ghost predicate Unseen<K, V>(kv: seq<Slot<K, V>>, k: K, a: nat, b: nat) {
    forall j :: a <= j < b && j < |kv| ==> !(kv[j].Node? && kv[j].key == k)
  }

  lemma UnseenNone<K, V>(kv: seq<Slot<K, V>>, k: K, a: nat)
    ensures Unseen(kv, k, a, a)
  {
  }

  lemma UnseenStep<K, V>(kv: seq<Slot<K, V>>, k: K, a: nat, b: nat)
    requires Unseen(kv, k, a, b)
    requires b < |kv| && kv[b].Node? ==> kv[b].key != k
    ensures Unseen(kv, k, a, b + 1)
  {
  }

  lemma ScanEnds<K, V>(h: K -> nat, load: nat, n: nat, s: Scale, kv: seq<Slot<K, V>>, info: seq<nat>,
                       m: map<K, V>, pos: map<K, nat>, max: nat, k: K, p: nat)
    requires InOrder(h, load, n, s, kv, info, m, pos, max)
    requires n > 0 && Home(h(k), n) <= p < |info| && info[p] < InfoAt(h(k), n, s, p)
    requires Unseen(kv, k, Home(h(k), n), p)
    ensures k !in m
  {
    if Fit(h, load, n, s, kv, info, m, pos, max) {
      NotBeyondGap(h, n, s, kv, info, m, pos, k, p);
    }
  }

  /** A scan that matched slot j finds nothing more displaced than its key in slot j + 1. */
  lemma ScanNext<K, V>(h: K -> nat, load: nat, n: nat, s: Scale, kv: seq<Slot<K, V>>, info: seq<nat>,
                       m: map<K, V>, pos: map<K, nat>, max: nat, k: K, j: nat)
    requires InOrder(h, load, n, s, kv, info, m, pos, max)
    requires n > 0 && Home(h(k), n) <= j < |kv| && info[j] <= InfoAt(h(k), n, s, j)
    ensures info[j + 1] <= InfoAt(h(k), n, s, j + 1)
  {
    if Fit(h, load, n, s, kv, info, m, pos, max) {
      NextNotAbove(h, n, s, kv, info, m, pos, k, j);
    }
  }

  /** The gap of an absent key lies among the slots, and its info fits a byte. */
  lemma GapInside<K, V>(h: K -> nat, load: nat, n: nat, s: Scale, kv: seq<Slot<K, V>>, info: seq<nat>,
                        m: map<K, V>, pos: map<K, nat>, max: nat, k: K, p: nat)
    requires Fit(h, load, n, s, kv, info, m, pos, max) && Bytes(info, s.inc)
    requires n > 0 && Gap(h(k), n, s, info, p)
    ensures p < |kv| && InfoAt(h(k), n, s, p) <= 255
  {
    if p == Home(h(k), n) {
      InfoHome(h(k), n, s);
    } else {
      InfoTells(h, n, s, kv, info, m, pos, k, p - 1);
      InfoStep(h(k), n, s, p - 1);
      LastSlotFree(h, n, s, kv, info, m, pos, Allowed(n, load), p - 1);
    }
  }

  lemma EmptySpotAhead<K, V>(h: K -> nat, load: nat, n: nat, s: Scale, kv: seq<Slot<K, V>>, info: seq<nat>,
                             m: map<K, V>, pos: map<K, nat>, max: nat, i: nat)
    requires Fit(h, load, n, s, kv, info, m, pos, max)
    requires i < |kv| && |info| > |kv| && info[i] != 0
    ensures i + 1 < |kv|
  {
    EmptyIsFree(h, n, s, kv, info, m, pos, i);
    LastSlotFree(h, n, s, kv, info, m, pos, Allowed(n, load), i);
  }

  /** Insertion at the gap leaves a table in order that admits it. */
  lemma InsertionFits<K, V>(h: K -> nat, load: nat, n: nat, s: Scale, kv: seq<Slot<K, V>>, info: seq<nat>,
                            m: map<K, V>, pos: map<K, nat>, max: nat, k: K, v: V, p: nat, e: nat,
                            kv': seq<Slot<K, V>>, info': seq<nat>, max': nat)
    requires Fit(h, load, n, s, kv, info, m, pos, max) && Bytes(info, s.inc)
    requires k !in m && |m| < Allowed(n, load)
    requires n > 0 && Gap(h(k), n, s, info, p) && p <= e < |kv| && |info| > |kv|
    requires (forall j :: p <= j < e ==> info[j] != 0) && info[e] == 0
    requires Opened(kv, kv', p, e, Node(k, v))
    requires InfoOpened(info, info', p, e, InfoAt(h(k), n, s, p), s.inc)
    requires InfoAt(h(k), n, s, p) <= 255
    requires max' == 0 || (max' == Allowed(n, load) && InfoAt(h(k), n, s, p) + s.inc <= 255 &&
               forall i :: p < i <= e ==> info'[i] + s.inc <= 255)
    ensures Fit(h, load, n, s, kv', info', m[k := v], PosOpened(pos, k, p, e), max')
  {
    hide *;
    FitParts(h, load, n, s, kv, info, m, pos, max);
    InsertionSound(h, n, s, kv, info, m, pos, k, v, p, e, kv', info');
    OpenedLength(kv, kv', p, e, Node(k, v));
    OpenedBytes(info, info', p, e, InfoAt(h(k), n, s, p), s.inc);
    MapGrows(m, k, v);
    FitWhole(h, load, n, s, kv', info', m[k := v], PosOpened(pos, k, p, e), max');
  }

  lemma OpenedBytes(info: seq<nat>, info': seq<nat>, p: nat, e: nat, x: int, inc: nat)
    requires p <= e < |info| && InfoOpened(info, info', p, e, x, inc) && Bytes(info, inc) && x <= 255
    ensures Bytes(info', 0)
    ensures x + inc <= 255 && (forall i :: p < i <= e && i < |info'| ==> info'[i] + inc <= 255) ==> Bytes(info', inc)
  {
    if x + inc <= 255 && forall i :: p < i <= e && i < |info'| ==> info'[i] + inc <= 255 {
      forall i {:trigger info'[i]} | 0 <= i < |info'| ensures info'[i] + inc <= 255 {
        if i < p || i > e {
          assert info'[i] == info[i];
        }
      }
    }
  }

  lemma MapGrows<K, V>(m: map<K, V>, k: K, v: V)
    requires k !in m
    ensures |m[k := v]| == |m| + 1
  {
    assert m[k := v].Keys == m.Keys + {k};
  }

  lemma MapShrinks<K, V>(m: map<K, V>, k: K)
    requires k in m
    ensures |m - {k}| == |m| - 1
  {
    assert (m - {k}).Keys == m.Keys - {k};
  }

  lemma FitParts<K, V>(h: K -> nat, load: nat, n: nat, s: Scale, kv: seq<Slot<K, V>>, info: seq<nat>,
                       m: map<K, V>, pos: map<K, nat>, max: nat)
    requires Fit(h, load, n, s, kv, info, m, pos, max)
    ensures PowerOfTwo(n) && n >= InitialNumElements && |kv| == WithBuffer(n, load)
    ensures Sound(h, n, s, kv, info, m, pos) && |info| == |kv| + 8 && s.Valid()
    ensures |m| <= Allowed(n, load) && Bytes(info, 0)
    ensures max == 0 || (max == Allowed(n, load) && Bytes(info, s.inc))
  {
  }

  lemma FitWhole<K, V>(h: K -> nat, load: nat, n: nat, s: Scale, kv: seq<Slot<K, V>>, info: seq<nat>,
                       m: map<K, V>, pos: map<K, nat>, max: nat)
    requires PowerOfTwo(n) && n >= InitialNumElements && |kv| == WithBuffer(n, load)
    requires Sound(h, n, s, kv, info, m, pos)
    requires |m| <= Allowed(n, load) && Bytes(info, 0)
    requires max == 0 || (max == Allowed(n, load) && Bytes(info, s.inc))
    ensures Fit(h, load, n, s, kv, info, m, pos, max)
  {
  }

  lemma ScaleHalved(s: Scale)
    requires s.Valid() && s.inc > 2
    ensures Scale(s.inc / 2, s.shift + 1) == s.Halved() && s.Halved().inc < s.inc
  {
  }

  lemma AllowedSome(size: nat, allowed: nat)
    requires size < allowed
    ensures allowed != 0
  {
  }

  lemma IsGap(hash: nat, n: nat, s: Scale, info: seq<nat>, p: nat)
    requires n > 0 && Home(hash, n) <= p < |info|
    requires info[p] < InfoAt(hash, n, s, p)
    requires p > Home(hash, n) ==> info[p - 1] >= InfoAt(hash, n, s, p - 1)
    ensures Gap(hash, n, s, info, p)
  {
  }

  lemma VacantSize(n: nat, load: nat)
    requires n == 1 && 10 < load < 100
    ensures WithBuffer(n, load) == 1
  {
  }

  lemma AllocatedSize(n: nat, load: nat)
    requires n >= InitialNumElements
    ensures WithBuffer(n, load) > 1
  {
  }

  lemma VacantEmpty<K, V>(h: K -> nat, load: nat, n: nat, s: Scale, kv: seq<Slot<K, V>>, info: seq<nat>,
                          m: map<K, V>, pos: map<K, nat>, max: nat)
    requires InOrder(h, load, n, s, kv, info, m, pos, max) && n == 1
    ensures m == map[]
  {
  }

  lemma HoldsOf<K, V>(h: K -> nat, n: nat, s: Scale, kv: seq<Slot<K, V>>, info: seq<nat>, m: map<K, V>, pos: map<K, nat>)
    requires Sound(h, n, s, kv, info, m, pos)
    ensures Holds(kv, m, pos)
  {
  }

  lemma EightIsPower()
    ensures PowerOfTwo(InitialNumElements) && InitialNumElements == 8
  {
    assert PowerOfTwo(1) && PowerOfTwo(2) && PowerOfTwo(4);
  }

  lemma DoublePower(n: nat)
    requires PowerOfTwo(n)
    ensures PowerOfTwo(2 * n)
  {
  }

  lemma VacantNone<K, V>(h: K -> nat, load: nat, n: nat, s: Scale, kv: seq<Slot<K, V>>, info: seq<nat>,
                          m: map<K, V>, pos: map<K, nat>, max: nat)
    requires InOrder(h, load, n, s, kv, info, m, pos, max) && max > 0
    ensures n != 1
  {
  }

  /** How far a table of n slots is from being too large for its elements to double again. */
  ghost function Left(n: nat, elements: nat): nat {
    if n < 20 * elements + 100 then 20 * elements + 100 - n else 0
  }

  lemma LeftShrinks(n: nat, n': nat, load: nat, elements: nat)
    requires 10 < load < 100 && 8 <= n < n' && Allowed(n, load) <= 2 * elements
    ensures Left(n', elements) < Left(n, elements)
  {
    HalfFull(n, load, elements);
  }

  lemma AssignmentFits<K, V>(h: K -> nat, load: nat, n: nat, s: Scale, kv: seq<Slot<K, V>>, info: seq<nat>,
                             m: map<K, V>, pos: map<K, nat>, max: nat, k: K, v: V, kv': seq<Slot<K, V>>)
    requires Fit(h, load, n, s, kv, info, m, pos, max) && k in m
    requires pos[k] < |kv| && kv' == kv[pos[k] := Node(k, v)]
    ensures Fit(h, load, n, s, kv', info, m[k := v], pos, max)
  {
    hide *;
    FitParts(h, load, n, s, kv, info, m, pos, max);
    SoundParts(h, n, s, kv, info, m, pos);
    AssignmentHolds(kv, m, pos, k, v, kv');
    AssignmentLabelled(h, n, s, kv, info, m, pos, k, v, kv');
    SoundWhole(h, n, s, kv', info, m[k := v], pos);
    assert m[k := v].Keys == m.Keys;
    FitWhole(h, load, n, s, kv', info, m[k := v], pos, max);
  }

  lemma AssignmentHolds<K, V>(kv: seq<Slot<K, V>>, m: map<K, V>, pos: map<K, nat>, k: K, v: V, kv': seq<Slot<K, V>>)
    requires Holds(kv, m, pos) && k in m && pos[k] < |kv| && kv' == kv[pos[k] := Node(k, v)]
    ensures Holds(kv', m[k := v], pos)
  {
    assert kv[pos[k]] == Node(k, m[k]);
    forall x {:trigger pos[x]} | x in pos ensures pos[x] < |kv'| && kv'[pos[x]] == Node(x, m[k := v][x]) {
      assert kv[pos[x]] == Node(x, m[x]);
    }
  }

  lemma AssignmentLabelled<K, V>(h: K -> nat, n: nat, s: Scale, kv: seq<Slot<K, V>>, info: seq<nat>,
                                 m: map<K, V>, pos: map<K, nat>, k: K, v: V, kv': seq<Slot<K, V>>)
    requires n > 0 && |info| >= |kv| && Labelled(h, n, s, kv, info) && Holds(kv, m, pos)
    requires k in m && pos[k] < |kv| && kv' == kv[pos[k] := Node(k, v)]
    ensures Labelled(h, n, s, kv', info)
  {
    assert kv[pos[k]] == Node(k, m[k]);
    forall i {:trigger kv'[i]} {:trigger info[i]} | 0 <= i < |kv'|
      ensures if kv'[i].Free? then info[i] == 0
              else Home(h(kv'[i].key), n) <= i && info[i] == InfoAt(h(kv'[i].key), n, s, i)
    {
      assert kv[i].Free? <==> kv'[i].Free?;
    }
  }

  lemma RemovalFits<K, V>(h: K -> nat, load: nat, n: nat, s: Scale, kv: seq<Slot<K, V>>, info: seq<nat>,
                          m: map<K, V>, pos: map<K, nat>, max: nat, k: K, p: nat, e: nat,
                          kv': seq<Slot<K, V>>, info': seq<nat>)
    requires Fit(h, load, n, s, kv, info, m, pos, max)
    requires k in m && pos[k] == p && p < |kv|
    requires Shiftable(info, s.inc, p, e) && e <= |kv| && p < e <= |info|
    requires Closed(kv, kv', p, e, Free) && InfoClosed(info, info', p, e, s.inc)
    ensures Fit(h, load, n, s, kv', info', m - {k}, PosClosed(pos, k, p, e), max)
  {
    hide *;
    FitParts(h, load, n, s, kv, info, m, pos, max);
    RemovalSound(h, n, s, kv, info, m, pos, k, p, e, kv', info');
    ClosedLength(kv, kv', p, e, Free);
    ClosedBytes(info, info', p, e, s.inc, 0);
    if max != 0 {
      ClosedBytes(info, info', p, e, s.inc, s.inc);
    }
    MapShrinks(m, k);
    FitWhole(h, load, n, s, kv', info', m - {k}, PosClosed(pos, k, p, e), max);
  }

  lemma ClosedBytes(info: seq<nat>, info': seq<nat>, p: nat, e: nat, inc: nat, spare: nat)
    requires p < e <= |info| && InfoClosed(info, info', p, e, inc) && Bytes(info, spare) && Bytes(info, 0)
    requires spare <= 255
    ensures Bytes(info', spare)
  {
    forall i {:trigger info'[i]} | 0 <= i < |info'| ensures info'[i] + spare <= 255 {
      if i < p || i >= e {
        assert info'[i] == info[i];
      }
    }
  }

  lemma SentinelLow<K, V>(h: K -> nat, n: nat, s: Scale, kv: seq<Slot<K, V>>, info: seq<nat>, m: map<K, V>, pos: map<K, nat>)
    requires Sound(h, n, s, kv, info, m, pos)
    ensures info[|kv|] < 2 * s.inc
  {
  }

  lemma DoubleWraps(n: nat)
    requires PowerOfTwo(n) && 8 <= n < SizeLimit
    ensures n * 2 % SizeLimit == 0 || (n * 2 % SizeLimit == n * 2 && PowerOfTwo(n * 2))
    ensures SizeLimit > 8
  {
    if n >= SizeLimit / 2 {
      HalfLimitIsPower();
      PowerOfTwoUnique(n, SizeLimit / 2);
    }
  }

  lemma HalfLimitIsPower()
    ensures PowerOfTwo(SizeLimit / 2)
  {
    hide PowerOfTwo;
    EightIsPower();
    PowerProduct(8, 8);
    PowerProduct(64, 64);
    PowerProduct(4096, 4096);
    PowerProduct(0x100_0000, 0x100_0000);
    PowerProduct(0x1_0000_0000_0000, 4096);
    PowerProduct(0x1000_0000_0000_0000, 8);
  }

  lemma {:induction false} PowerProduct(a: nat, b: nat)
    requires PowerOfTwo(a) && PowerOfTwo(b)
    ensures PowerOfTwo(a * b)
    decreases a
  {
    if a > 1 {
      PowerProduct(a / 2, b);
      assert a * b == 2 * (a / 2 * b);
      DoublePower(a / 2 * b);
    }
  }

  lemma EmptyMap<K, V>(m: map<K, V>)
    requires |m| == 0
    ensures m == map[]
  {
    assert |m.Keys| == 0;
  }

  lemma LimitIs()
    ensures SizeLimit == 0x1_0000_0000_0000_0000
  {
  }

  lemma InitialIs()
    ensures InitialScale == Scale(32, 0)
  {
  }

  /** A table that fits its bytes still fits when its capacity flag is down. */
  lemma FitLess<K, V>(h: K -> nat, load: nat, n: nat, s: Scale, kv: seq<Slot<K, V>>, info: seq<nat>,
                      m: map<K, V>, pos: map<K, nat>, max: nat, max': nat)
    requires Fit(h, load, n, s, kv, info, m, pos, max)
    requires max' == 0 || max' == max
    ensures Fit(h, load, n, s, kv, info, m, pos, max')
  {
  }

  lemma OpenedAt<T>(old_: seq<T>, new_: seq<T>, p: nat, e: nat, x: T)
    requires p <= e < |old_| && Opened(old_, new_, p, e, x)
    ensures p < |new_| && new_[p] == x
  {
  }

  /** A freshly allocated table: no nodes, no info but the sentinel. */
  lemma FreshFits<K, V>(h: K -> nat, load: nat, n: nat, kv: seq<Slot<K, V>>, info: seq<nat>)
    requires PowerOfTwo(n) && n >= InitialNumElements && |kv| == WithBuffer(n, load)
    requires forall i :: 0 <= i < |kv| ==> kv[i].Free?
    requires |info| == |kv| + 8 && (forall i :: 0 <= i < |info| ==> info[i] == if i == |kv| then 1 else 0)
    ensures Fit(h, load, n, InitialScale, kv, info, map[], map[], Allowed(n, load))
    ensures Bytes(info, InitialScale.inc)
  {
    assert forall i :: 0 <= i < |kv| ==> OrderedAt(info, i, 32);
  }

  lemma HalvingFits<K, V>(h: K -> nat, load: nat, n: nat, s: Scale, kv: seq<Slot<K, V>>, info: seq<nat>,
                          m: map<K, V>, pos: map<K, nat>, max: nat, info': seq<nat>)
    requires Fit(h, load, n, s, kv, info, m, pos, max) && s.inc > 2
    requires |info'| == |info| == |kv| + 8 && info'[|kv|] == 1
    requires forall i {:trigger info'[i]} :: 0 <= i < |kv| ==> info'[i] == info[i] / 2
    requires forall i {:trigger info'[i]} :: |kv| < i < |info'| ==> info'[i] == info[i] || info'[i] == info[i] / 2
    ensures Fit(h, load, n, s.Halved(), kv, info', m, pos, Allowed(n, load)) && Bytes(info', s.Halved().inc)
  {
    hide *;
    FitParts(h, load, n, s, kv, info, m, pos, max);
    PaddingHalves(h, n, s, kv, info, m, pos, info');
    HalvingSound(h, n, s, kv, info, m, pos, info');
    HalvedBytes(info, info', s, |kv|);
    FitWhole(h, load, n, s.Halved(), kv, info', m, pos, Allowed(n, load));
  }

  lemma PaddingHalves<K, V>(h: K -> nat, n: nat, s: Scale, kv: seq<Slot<K, V>>, info: seq<nat>,
                            m: map<K, V>, pos: map<K, nat>, info': seq<nat>)
    requires Sound(h, n, s, kv, info, m, pos)
    requires |info'| == |info| == |kv| + 8 && info'[|kv|] == 1
    requires forall i {:trigger info'[i]} :: |kv| < i < |info'| ==> info'[i] == info[i] || info'[i] == info[i] / 2
    ensures InfoBytes(info', |kv|)
  {
  }

  lemma HalvedBytes(info: seq<nat>, info': seq<nat>, s: Scale, slots: nat)
    requires |info'| == |info| == slots + 8 && info'[slots] == 1 && s.Valid() && s.inc > 2
    requires forall i {:trigger info'[i]} :: 0 <= i < slots ==> info'[i] == info[i] / 2
    requires InfoBytes(info', slots)
    requires Bytes(info, 0)
    ensures Bytes(info', s.Halved().inc) && Bytes(info', 0)
  {
  }

  /** The part of a map whose keys stand before slot i. */
  ghost function Before<K, V>(m: map<K, V>, pos: map<K, nat>, i: nat): map<K, V> {
    map k | k in m && k in pos && pos[k] < i :: m[k]
  }

  lemma BeforeNone<K, V>(m: map<K, V>, pos: map<K, nat>)
    ensures Before(m, pos, 0) == map[]
  {
  }

  lemma BeforeAll<K, V>(kv: seq<Slot<K, V>>, m: map<K, V>, pos: map<K, nat>)
    requires Holds(kv, m, pos)
    ensures Before(m, pos, |kv|) == m
  {
    assert forall k :: k in m ==> pos[k] < |kv|;
  }

  lemma BeforeStep<K, V>(kv: seq<Slot<K, V>>, m: map<K, V>, pos: map<K, nat>, i: nat)
    requires Holds(kv, m, pos) && i < |kv|
    ensures kv[i].Free? ==> Before(m, pos, i + 1) == Before(m, pos, i)
    ensures kv[i].Node? ==>
              && Before(m, pos, i + 1) == Before(m, pos, i)[kv[i].key := kv[i].val]
              && kv[i].key !in Before(m, pos, i)
              && |Before(m, pos, i)| < |m|
  {
    forall k | k in m ensures kv[pos[k]] == Node(k, m[k]) {
    }
    if kv[i].Node? {
      var k := kv[i].key;
      assert k in pos && pos[k] == i;
      assert Before(m, pos, i).Keys <= m.Keys - {k};
      SubsetSize(Before(m, pos, i).Keys, m.Keys - {k});
    }
  }

  lemma ByteFull(info: seq<nat>, spare: nat, i: nat)
    requires i < |info| && info[i] + spare > 255
    ensures !Bytes(info, spare)
  {
    assert info[i] + spare > 255;
  }

  lemma ClosedBy<T>(infos: seq<nat>, infos': seq<nat>, kvs: seq<T>, kvs': seq<T>, p: nat, e: nat, inc: nat)
    requires p < e <= |kvs| == |kvs'| < |infos| == |infos'|
    requires forall i :: 0 <= i < p || e <= i < |kvs| ==> kvs'[i] == kvs[i]
    requires forall i :: p <= i < e - 1 ==> kvs'[i] == kvs[i + 1]
    requires forall i :: 0 <= i < p || e <= i < |infos| ==> infos'[i] == infos[i]
    requires forall i :: p <= i < e - 1 ==> infos'[i] == infos[i + 1] - inc
    requires forall i :: p < i < e ==> infos[i] >= 2 * inc
    requires infos[e] < 2 * inc && infos'[e - 1] == 0
    ensures Shiftable(infos, inc, p, e)
    ensures Closed(kvs, kvs', p, e, kvs'[e - 1])
    ensures InfoClosed(infos, infos', p, e, inc)
  {
  }

  lemma BytesEach(info: seq<nat>, spare: nat)
    requires Bytes(info, spare)
    ensures forall i :: 0 <= i < |info| ==> info[i] + spare <= 255
  {
  }

  lemma OpenedBy<T>(old_: seq<T>, new_: seq<T>, p: nat, e: nat, x: T)
    requires p <= e < |old_| == |new_|
    requires new_[p] == x
    requires forall i :: 0 <= i < p || e < i < |old_| ==> new_[i] == old_[i]
    requires forall i :: p < i <= e ==> new_[i] == old_[i - 1]
    ensures Opened(old_, new_, p, e, x)
  {
  }

  lemma InfoOpenedBy(old_: seq<nat>, new_: seq<nat>, p: nat, e: nat, x: nat, inc: nat)
    requires p <= e < |old_| == |new_|
    requires new_[p] == x
    requires forall i :: 0 <= i < p || e < i < |old_| ==> new_[i] == old_[i]
    requires forall i :: p < i <= e ==> new_[i] == old_[i - 1] + inc
    ensures InfoOpened(old_, new_, p, e, x, inc)
  {
  }

  lemma PosOpenedAt<K>(pos: map<K, nat>, k: K, p: nat, e: nat)
    ensures PosOpened(pos, k, p, e)[k] == p
  {
  }
}
