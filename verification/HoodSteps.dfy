/**
 * What the elementary steps of the Robin-hood table do to a sound layout: why a scan finds
 * every key, why the buffer behind the home slots never overflows, and why insertion,
 * backward shift and halving keep the layout sound.
 */
module HoodSteps {
  import opened HoodLayout

  // ---- Scanning ----

  /** No slot between a key and its home stops a scan for that key. */
  lemma {:induction false} PathTo<K, V>(h: K -> nat, n: nat, s: Scale, kv: seq<Slot<K, V>>, info: seq<nat>,
                                        m: map<K, V>, pos: map<K, nat>, k: K, j: nat)
    requires Sound(h, n, s, kv, info, m, pos)
    requires k in m && Home(h(k), n) <= j <= pos[k]
    ensures info[j] >= InfoAt(h(k), n, s, j)
    decreases pos[k] - j
  {
    if j == pos[k] {
      assert kv[j] == Node(k, m[k]);
    } else {
      PathTo(h, n, s, kv, info, m, pos, k, j + 1);
      InfoFrom(h(k), n, s, j + 1);
      InfoStep(h(k), n, s, j);
      assert OrderedAt(info, j, s.inc);
    }
  }

  /** Where an absent key belongs: behind everything at least as displaced as itself. */
  ghost predicate Gap(hash: nat, n: nat, s: Scale, info: seq<nat>, p: nat)
    requires n > 0
  {
    && Home(hash, n) <= p < |info|
    && info[p] < InfoAt(hash, n, s, p)
    && (p > Home(hash, n) ==> info[p - 1] >= InfoAt(hash, n, s, p - 1))
  }

  /** A key that has not been met when the scan reaches its gap is not in the table. */
  lemma NotBeyondGap<K, V>(h: K -> nat, n: nat, s: Scale, kv: seq<Slot<K, V>>, info: seq<nat>,
                           m: map<K, V>, pos: map<K, nat>, k: K, p: nat)
    requires Sound(h, n, s, kv, info, m, pos)
    requires Home(h(k), n) <= p < |info| && info[p] < InfoAt(h(k), n, s, p)
    requires forall j :: Home(h(k), n) <= j < p && j < |kv| ==> !(kv[j].Node? && kv[j].key == k)
    ensures k !in m
  {
    if k in m {
      assert kv[pos[k]] == Node(k, m[k]);
      assert Home(h(k), n) <= pos[k];
      if p <= pos[k] {
        PathTo(h, n, s, kv, info, m, pos, k, p);
      }
    }
  }

  /** A slot whose info differs from the one its key would have holds another key. */
  lemma InfoTells<K, V>(h: K -> nat, n: nat, s: Scale, kv: seq<Slot<K, V>>, info: seq<nat>,
                        m: map<K, V>, pos: map<K, nat>, k: K, j: nat)
    requires Sound(h, n, s, kv, info, m, pos)
    requires Home(h(k), n) <= j < |info|
    ensures info[j] >= InfoAt(h(k), n, s, j) ==> j < |kv| && kv[j].Node?
    ensures j < |kv| && kv[j].Node? && kv[j].key == k ==> info[j] == InfoAt(h(k), n, s, j)
    ensures InfoAt(h(k), n, s, j) >= 2
  {
    InfoFrom(h(k), n, s, j);
  }

  /** Behind a slot as displaced as the key, no slot is more displaced than the key. */
  lemma NextNotAbove<K, V>(h: K -> nat, n: nat, s: Scale, kv: seq<Slot<K, V>>, info: seq<nat>,
                           m: map<K, V>, pos: map<K, nat>, k: K, j: nat)
    requires Sound(h, n, s, kv, info, m, pos)
    requires Home(h(k), n) <= j < |kv| && info[j] <= InfoAt(h(k), n, s, j)
    ensures info[j + 1] <= InfoAt(h(k), n, s, j + 1)
  {
    InfoFrom(h(k), n, s, j + 1);
    InfoStep(h(k), n, s, j);
    assert OrderedAt(info, j, s.inc);
  }

  // ---- Room ----

  ghost function RunStart(info: seq<nat>, inc: nat, i: nat): (a: nat)
    requires i < |info|
    ensures a <= i
  {
    if i == 0 || info[i] < 2 * inc then i else RunStart(info, inc, i - 1)
  }

  lemma {:induction false} RunStartIsHome<K, V>(h: K -> nat, n: nat, s: Scale, kv: seq<Slot<K, V>>, info: seq<nat>,
                                                m: map<K, V>, pos: map<K, nat>, i: nat)
    requires Sound(h, n, s, kv, info, m, pos)
    requires i < |kv| && kv[i].Node?
    ensures RunStart(info, s.inc, i) < n
    ensures forall j :: RunStart(info, s.inc, i) <= j <= i ==> kv[j].Node?
    decreases i
  {
    var k := kv[i].key;
    if i == 0 || info[i] < 2 * s.inc {
      InfoFrom(h(k), n, s, i);
      InfoHome(h(k), n, s);
    } else {
      assert OrderedAt(info, i - 1, s.inc);
      assert kv[i - 1].Node?;
      RunStartIsHome(h, n, s, kv, info, m, pos, i - 1);
    }
  }

  /** A stretch of occupied slots is no longer than the table has elements. */
  lemma {:induction false} RunWithinSize<K, V>(kv: seq<Slot<K, V>>, m: map<K, V>, pos: map<K, nat>, a: nat, b: nat)
    returns (ks: set<K>)
    requires Holds(kv, m, pos) && a <= b <= |kv|
    requires forall j :: a <= j < b ==> kv[j].Node?
    ensures ks <= m.Keys && |ks| == b - a <= |m|
    ensures forall k :: k in ks ==> k in pos && a <= pos[k] < b
    decreases b - a
  {
    ks := {};
    if a < b {
      ks := RunWithinSize(kv, m, pos, a, b - 1);
      var k := kv[b - 1].key;
      assert k in pos && pos[k] == b - 1;
      ks := ks + {k};
      SubsetSize(ks, m.Keys);
    }
  }

  lemma {:induction false} SubsetSize<T>(a: set<T>, b: set<T>)
    requires a <= b
    ensures |a| <= |b|
    decreases a
  {
    if a != {} {
      var x :| x in a;
      SubsetSize(a - {x}, b - {x});
    }
  }

  /**
   * The buffer suffices: with at most allowed elements and displacements that fit a byte,
   * no element ever reaches the last slot, so every search for an empty spot ends inside.
   */
  lemma LastSlotFree<K, V>(h: K -> nat, n: nat, s: Scale, kv: seq<Slot<K, V>>, info: seq<nat>,
                           m: map<K, V>, pos: map<K, nat>, allowed: nat, i: nat)
    requires Sound(h, n, s, kv, info, m, pos)
    requires |m| <= allowed && |kv| == n + (if allowed < 255 then allowed else 255)
    requires i < |kv| && kv[i].Node? && info[i] <= 255
    ensures i + 1 < |kv|
  {
    RunStartIsHome(h, n, s, kv, info, m, pos, i);
    var a := RunStart(info, s.inc, i);
    var _ := RunWithinSize(kv, m, pos, a, i + 1);
    InfoFrom(h(kv[i].key), n, s, i);
  }

  // ---- Insertion ----

  /** The slots p to e - 1 have moved one up, onto the empty slot e, and x stands at p. */
  ghost predicate Opened<T>(old_: seq<T>, new_: seq<T>, p: nat, e: nat, x: T)
    requires p <= e < |old_|
  {
    && |new_| == |old_|
    && new_[p] == x
    && (forall i {:trigger new_[i]} :: 0 <= i < p || e < i < |old_| ==> new_[i] == old_[i])
    && (forall i {:trigger new_[i]} :: p < i <= e ==> new_[i] == old_[i - 1])
  }

  ghost predicate InfoOpened(old_: seq<nat>, new_: seq<nat>, p: nat, e: nat, x: int, inc: nat)
    requires p <= e < |old_|
  {
    && |new_| == |old_|
    && new_[p] == x
    && (forall i {:trigger new_[i]} :: 0 <= i < p || e < i < |old_| ==> new_[i] == old_[i])
    && (forall i {:trigger new_[i]} :: p < i <= e ==> new_[i] == old_[i - 1] + inc)
  }

  ghost function PosOpened<K>(pos: map<K, nat>, k: K, p: nat, e: nat): map<K, nat> {
    map x | x in pos.Keys + {k} :: if x == k then p else if p <= pos[x] < e then pos[x] + 1 else pos[x]
  }

  lemma OpenedSorted<K, V>(h: K -> nat, n: nat, s: Scale, kv: seq<Slot<K, V>>, info: seq<nat>,
                           m: map<K, V>, pos: map<K, nat>, hash: nat, p: nat, e: nat, info': seq<nat>)
    requires Sound(h, n, s, kv, info, m, pos)
    requires Gap(hash, n, s, info, p) && p <= e < |kv|
    requires (forall j :: p <= j < e ==> info[j] != 0) && info[e] == 0
    requires InfoOpened(info, info', p, e, InfoAt(hash, n, s, p), s.inc)
    ensures InfoBytes(info', |kv|) && Sorted(info', |kv|, s.inc)
  {
    InfoFrom(hash, n, s, p);
    InfoHome(hash, n, s);
    if p > Home(hash, n) {
      InfoStep(hash, n, s, p - 1);
      InfoFrom(hash, n, s, p - 1);
    }
    forall i | 0 <= i < |kv| ensures OrderedAt(info', i, s.inc) {
      assert OrderedAt(info, i, s.inc);
      if p < i < e {
        assert OrderedAt(info, i - 1, s.inc);
        assert kv[i - 1].Node?;
        InfoFrom(h(kv[i - 1].key), n, s, i - 1);
      }
    }
    if p == 0 {
      assert info'[0] == InfoAt(hash, n, s, 0);
    }
  }

  lemma OpenedLabelled<K, V>(h: K -> nat, n: nat, s: Scale, kv: seq<Slot<K, V>>, info: seq<nat>,
                             k: K, v: V, p: nat, e: nat, kv': seq<Slot<K, V>>, info': seq<nat>)
    requires n > 0 && |info| >= |kv| && Labelled(h, n, s, kv, info)
    requires Home(h(k), n) <= p <= e < |kv|
    requires forall j :: p <= j < e ==> info[j] != 0
    requires Opened(kv, kv', p, e, Node(k, v))
    requires InfoOpened(info, info', p, e, InfoAt(h(k), n, s, p), s.inc)
    ensures Labelled(h, n, s, kv', info')
  {
    forall i {:trigger kv'[i]} {:trigger info'[i]} | 0 <= i < |kv'|
      ensures if kv'[i].Free? then info'[i] == 0
              else Home(h(kv'[i].key), n) <= i && info'[i] == InfoAt(h(kv'[i].key), n, s, i)
    {
      if p < i <= e {
        assert info[i - 1] != 0;
        assert kv[i - 1].Node?;
        InfoStep(h(kv[i - 1].key), n, s, i - 1);
      } else if i != p {
        assert kv'[i] == kv[i];
        assert info'[i] == info[i];
      }
    }
  }

  lemma OpenedHolds<K, V>(kv: seq<Slot<K, V>>, m: map<K, V>, pos: map<K, nat>, k: K, v: V,
                          p: nat, e: nat, kv': seq<Slot<K, V>>)
    requires Holds(kv, m, pos) && k !in m && p <= e < |kv| && kv[e].Free?
    requires Opened(kv, kv', p, e, Node(k, v))
    ensures Holds(kv', m[k := v], PosOpened(pos, k, p, e))
  {
    var pos' := PosOpened(pos, k, p, e);
    forall i {:trigger kv'[i]} | 0 <= i < |kv'| && kv'[i].Node?
      ensures kv'[i].key in pos' && pos'[kv'[i].key] == i
    {
      if p < i <= e {
        assert kv[i - 1] == kv'[i];
      }
    }
    forall x {:trigger pos'[x]} | x in pos'
      ensures pos'[x] < |kv'| && kv'[pos'[x]] == Node(x, m[k := v][x])
    {
      if x != k {
        assert kv[pos[x]] == Node(x, m[x]);
        assert kv'[pos'[x]] == kv[pos[x]];
      }
    }
  }

  /** Opening the gap of an absent key and putting it there is insertion into the map. */
  lemma InsertionSound<K, V>(h: K -> nat, n: nat, s: Scale, kv: seq<Slot<K, V>>, info: seq<nat>,
                             m: map<K, V>, pos: map<K, nat>, k: K, v: V, p: nat, e: nat,
                             kv': seq<Slot<K, V>>, info': seq<nat>)
    requires Sound(h, n, s, kv, info, m, pos) && k !in m
    requires Gap(h(k), n, s, info, p) && p <= e < |kv|
    requires (forall j :: p <= j < e ==> info[j] != 0) && info[e] == 0
    requires Opened(kv, kv', p, e, Node(k, v))
    requires InfoOpened(info, info', p, e, InfoAt(h(k), n, s, p), s.inc)
    ensures Sound(h, n, s, kv', info', m[k := v], PosOpened(pos, k, p, e))
  {
    hide *;
    SoundParts(h, n, s, kv, info, m, pos);
    GapHome(h(k), n, s, info, p);
    OpenedLength(kv, kv', p, e, Node(k, v));
    OpenedSorted(h, n, s, kv, info, m, pos, h(k), p, e, info');
    OpenedLabelled(h, n, s, kv, info, k, v, p, e, kv', info');
    EmptyIsFree(h, n, s, kv, info, m, pos, e);
    OpenedHolds(kv, m, pos, k, v, p, e, kv');
    SoundWhole(h, n, s, kv', info', m[k := v], PosOpened(pos, k, p, e));
  }

  lemma GapHome(hash: nat, n: nat, s: Scale, info: seq<nat>, p: nat)
    requires n > 0 && Gap(hash, n, s, info, p)
    ensures Home(hash, n) <= p < |info|
  {
  }

  lemma OpenedLength<T>(old_: seq<T>, new_: seq<T>, p: nat, e: nat, x: T)
    requires p <= e < |old_| && Opened(old_, new_, p, e, x)
    ensures |new_| == |old_|
  {
  }

  lemma SoundParts<K, V>(h: K -> nat, n: nat, s: Scale, kv: seq<Slot<K, V>>, info: seq<nat>, m: map<K, V>, pos: map<K, nat>)
    requires Sound(h, n, s, kv, info, m, pos)
    ensures n > 0 && s.Valid() && n <= |kv| && |info| == |kv| + 8
    ensures InfoBytes(info, |kv|) && Sorted(info, |kv|, s.inc) && Labelled(h, n, s, kv, info) && Holds(kv, m, pos)
  {
  }

  lemma SoundWhole<K, V>(h: K -> nat, n: nat, s: Scale, kv: seq<Slot<K, V>>, info: seq<nat>, m: map<K, V>, pos: map<K, nat>)
    requires n > 0 && s.Valid() && n <= |kv| && |info| > |kv|
    requires InfoBytes(info, |kv|) && Sorted(info, |kv|, s.inc) && Labelled(h, n, s, kv, info) && Holds(kv, m, pos)
    ensures Sound(h, n, s, kv, info, m, pos)
  {
  }

  lemma EmptyIsFree<K, V>(h: K -> nat, n: nat, s: Scale, kv: seq<Slot<K, V>>, info: seq<nat>, m: map<K, V>, pos: map<K, nat>, i: nat)
    requires Sound(h, n, s, kv, info, m, pos) && i < |kv|
    ensures kv[i].Free? <==> info[i] == 0
    ensures kv[i].Node? ==> info[i] >= s.inc
  {
    if kv[i].Node? {
      InfoFrom(h(kv[i].key), n, s, i);
    }
  }

  // ---- Backward shift ----

  /** The slots p + 1 to e - 1 have moved one down over p, leaving slot e - 1 empty. */
  ghost predicate Closed<T>(old_: seq<T>, new_: seq<T>, p: nat, e: nat, none: T)
    requires p < e <= |old_|
  {
    && |new_| == |old_|
    && new_[e - 1] == none
    && (forall i {:trigger new_[i]} :: 0 <= i < p || e <= i < |old_| ==> new_[i] == old_[i])
    && (forall i {:trigger new_[i]} :: p <= i < e - 1 ==> new_[i] == old_[i + 1])
  }

  ghost predicate InfoClosed(old_: seq<nat>, new_: seq<nat>, p: nat, e: nat, inc: nat)
    requires p < e <= |old_|
  {
    && |new_| == |old_|
    && new_[e - 1] == 0
    && (forall i {:trigger new_[i]} :: 0 <= i < p || e <= i < |old_| ==> new_[i] == old_[i])
    && (forall i {:trigger new_[i]} :: p <= i < e - 1 ==> new_[i] == old_[i + 1] - inc)
  }

  ghost function PosClosed<K>(pos: map<K, nat>, k: K, p: nat, e: nat): map<K, nat> {
    map x | x in pos.Keys - {k} :: if p < pos[x] < e then pos[x] - 1 else pos[x]
  }

  /** The stretch a backward shift moves: displaced slots only, up to one that is not. */
  ghost predicate Shiftable(info: seq<nat>, inc: nat, p: nat, e: nat) {
    && p < e < |info|
    && (forall j :: p < j < e ==> info[j] >= 2 * inc)
    && info[e] < 2 * inc
  }

  lemma ClosedSorted<K, V>(h: K -> nat, n: nat, s: Scale, kv: seq<Slot<K, V>>, info: seq<nat>,
                           m: map<K, V>, pos: map<K, nat>, p: nat, e: nat, info': seq<nat>)
    requires Sound(h, n, s, kv, info, m, pos)
    requires Shiftable(info, s.inc, p, e) && e <= |kv| && info[p] != 0
    requires InfoClosed(info, info', p, e, s.inc)
    ensures InfoBytes(info', |kv|) && Sorted(info', |kv|, s.inc)
  {
    forall i | 0 <= i < |kv| ensures OrderedAt(info', i, s.inc) {
      assert OrderedAt(info, i, s.inc);
      if i + 1 < |kv| {
        assert OrderedAt(info, i + 1, s.inc);
      }
    }
    if p == 0 {
      assert OrderedAt(info, 0, s.inc);
    }
  }

  lemma ClosedLabelled<K, V>(h: K -> nat, n: nat, s: Scale, kv: seq<Slot<K, V>>, info: seq<nat>,
                             m: map<K, V>, pos: map<K, nat>, p: nat, e: nat,
                             kv': seq<Slot<K, V>>, info': seq<nat>)
    requires Sound(h, n, s, kv, info, m, pos)
    requires Shiftable(info, s.inc, p, e) && e <= |kv|
    requires Closed(kv, kv', p, e, Free) && InfoClosed(info, info', p, e, s.inc)
    ensures Labelled(h, n, s, kv', info')
  {
    forall i {:trigger kv'[i]} {:trigger info'[i]} | 0 <= i < |kv'|
      ensures if kv'[i].Free? then info'[i] == 0
              else Home(h(kv'[i].key), n) <= i && info'[i] == InfoAt(h(kv'[i].key), n, s, i)
    {
      if p <= i < e - 1 {
        assert info[i + 1] >= 2 * s.inc;
        assert kv[i + 1].Node?;
        InfoStep(h(kv[i + 1].key), n, s, i);
        InfoHome(h(kv[i + 1].key), n, s);
      } else if i != e - 1 {
        assert kv'[i] == kv[i];
        assert info'[i] == info[i];
      }
    }
  }

  lemma ClosedHolds<K, V>(kv: seq<Slot<K, V>>, m: map<K, V>, pos: map<K, nat>, k: K,
                          p: nat, e: nat, kv': seq<Slot<K, V>>)
    requires Holds(kv, m, pos) && p < e <= |kv| && k in m && pos[k] == p
    requires Closed(kv, kv', p, e, Free)
    ensures Holds(kv', m - {k}, PosClosed(pos, k, p, e))
  {
    var pos' := PosClosed(pos, k, p, e);
    forall i {:trigger kv'[i]} | 0 <= i < |kv'| && kv'[i].Node?
      ensures kv'[i].key in pos' && pos'[kv'[i].key] == i
    {
      if p <= i < e - 1 {
        assert kv[i + 1] == kv'[i];
      } else {
        assert kv[i] == kv'[i];
      }
      assert kv[p] == Node(k, m[k]);
    }
    forall x {:trigger pos'[x]} | x in pos'
      ensures pos'[x] < |kv'| && kv'[pos'[x]] == Node(x, (m - {k})[x])
    {
      assert kv[pos[x]] == Node(x, m[x]);
      assert kv[p] == Node(k, m[k]);
      assert kv'[pos'[x]] == kv[pos[x]];
    }
  }

  /** A backward shift over a key is removal of that key from the map. */
  lemma RemovalSound<K, V>(h: K -> nat, n: nat, s: Scale, kv: seq<Slot<K, V>>, info: seq<nat>,
                           m: map<K, V>, pos: map<K, nat>, k: K, p: nat, e: nat,
                           kv': seq<Slot<K, V>>, info': seq<nat>)
    requires Sound(h, n, s, kv, info, m, pos)
    requires k in m && pos[k] == p && p < |kv|
    requires Shiftable(info, s.inc, p, e) && e <= |kv|
    requires Closed(kv, kv', p, e, Free) && InfoClosed(info, info', p, e, s.inc)
    ensures Sound(h, n, s, kv', info', m - {k}, PosClosed(pos, k, p, e))
  {
    hide *;
    SoundParts(h, n, s, kv, info, m, pos);
    KeyAt(kv, m, pos, k);
    EmptyIsFree(h, n, s, kv, info, m, pos, p);
    ShiftableBounds(info, s.inc, p, e);
    ClosedLength(kv, kv', p, e, Free);
    ClosedSorted(h, n, s, kv, info, m, pos, p, e, info');
    ClosedLabelled(h, n, s, kv, info, m, pos, p, e, kv', info');
    ClosedHolds(kv, m, pos, k, p, e, kv');
    SoundWhole(h, n, s, kv', info', m - {k}, PosClosed(pos, k, p, e));
  }

  lemma ShiftableBounds(info: seq<nat>, inc: nat, p: nat, e: nat)
    requires Shiftable(info, inc, p, e)
    ensures p < e < |info|
  {
  }

  lemma ClosedLength<T>(old_: seq<T>, new_: seq<T>, p: nat, e: nat, none: T)
    requires p < e <= |old_| && Closed(old_, new_, p, e, none)
    ensures |new_| == |old_|
  {
  }

  lemma KeyAt<K, V>(kv: seq<Slot<K, V>>, m: map<K, V>, pos: map<K, nat>, k: K)
    requires Holds(kv, m, pos) && k in m
    ensures pos[k] < |kv| && kv[pos[k]] == Node(k, m[k])
  {
  }

  // ---- Halving ----

  /** Halving every info byte in place keeps the order, the labels and the contents. */
  lemma HalvingSound<K, V>(h: K -> nat, n: nat, s: Scale, kv: seq<Slot<K, V>>, info: seq<nat>,
                           m: map<K, V>, pos: map<K, nat>, info': seq<nat>)
    requires Sound(h, n, s, kv, info, m, pos) && s.inc > 2
    requires InfoBytes(info', |kv|)
    requires forall i {:trigger info'[i]} :: 0 <= i < |kv| ==> info'[i] == info[i] / 2
    ensures Sound(h, n, s.Halved(), kv, info', m, pos)
  {
    var s' := s.Halved();
    forall i {:trigger kv[i]} {:trigger info'[i]} | 0 <= i < |kv|
      ensures if kv[i].Free? then info'[i] == 0
              else Home(h(kv[i].key), n) <= i && info'[i] == InfoAt(h(kv[i].key), n, s', i)
    {
      if kv[i].Node? {
        InfoHalves(h(kv[i].key), n, s, i);
      }
    }
    forall i | 0 <= i < |kv| ensures OrderedAt(info', i, s'.inc) {
      assert OrderedAt(info, i, s.inc);
      EmptyIsFree(h, n, s, kv, info, m, pos, i);
    }
  }
}
