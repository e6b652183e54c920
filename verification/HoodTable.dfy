/**
 * The Robin-hood hash table: one array of slots, one array of info bytes, and the scan and
 * shift loops that update them in place. Every method is proved against the finite map m,
 * and no scan leaves its array.
 */
module HoodTable {
  import opened HoodLayout
  import opened HoodSteps
  import opened HoodSizes
  import opened HoodFits
  import opened HoodCrowds

  class Table<K(==), V> {
    const h: K -> nat
    const load: nat
    // how many home slots an allocation can serve
    const room: nat

    var kv: array<Slot<K, V>>
    var info: array<nat>
    var numElements: nat
    var mask: nat
    var maxAllowed: nat
    var scale: Scale

    ghost var m: map<K, V>
    ghost var pos: map<K, nat>

    ghost predicate Valid()
      reads this, kv, info
    {
      && 10 < load < 100 && 2 * room < SizeLimit
      && mask < room
      && numElements == |m|
      && InOrder(h, load, mask + 1, scale, kv[..], info[..], m, pos, maxAllowed)
    }

    lemma ValidParts()
      requires Valid()
      ensures 10 < load < 100 && 2 * room < SizeLimit && mask < room && numElements == |m|
      ensures InOrder(h, load, mask + 1, scale, kv[..], info[..], m, pos, maxAllowed)
      ensures scale.Valid() && info.Length == kv.Length + 8 && (mask == 0 <==> kv.Length == 0)
    {
    }

    /** Finer info bytes are still to be had, or none are needed yet. */
    ghost predicate Healthy()
      reads this
    {
      mask == 0 || maxAllowed != 0 || scale.inc > 2
    }

    lemma Allocated()
      requires Valid() && mask != 0
      ensures Fit(h, load, mask + 1, scale, kv[..], info[..], m, pos, maxAllowed)
    {
    }

    constructor (h: K -> nat, load: nat, room: nat)
      requires 10 < load < 100 && 8 <= room && 2 * room < SizeLimit
      ensures Valid() && m == map[] && Healthy() && fresh(kv) && fresh(info)
      ensures this.h == h && this.load == load && this.room == room
    {
      this.h, this.load, this.room := h, load, room;
      kv := new Slot<K, V>[0];
      info := new nat[8](_ => 0);
      numElements, mask, maxAllowed := 0, 0, 0;
      scale := InitialScale;
      m, pos := map[], map[];
    }

    function KeyToIdx(k: K): (r: (nat, nat))
      requires scale.Valid()
      reads this
      ensures r.0 == Home(h(k), mask + 1) <= mask
      ensures r.1 == InfoAt(h(k), mask + 1, scale, r.0)
    {
      InfoHome(h(k), mask + 1, scale);
      ((h(k) / 32) % (mask + 1), scale.inc + HashBits(h(k), scale))
    }

    method NextWhileLess(k: K, idx: nat, inf: nat) returns (idx': nat, inf': nat)
      requires Valid()
      requires idx == Home(h(k), mask + 1) && inf == InfoAt(h(k), mask + 1, scale, idx)
      ensures Home(h(k), mask + 1) <= idx' <= kv.Length && inf' == InfoAt(h(k), mask + 1, scale, idx')
      ensures info.Length == kv.Length + 8 && info[idx'] <= inf'
      ensures Unseen(kv[..], k, Home(h(k), mask + 1), idx')
      ensures idx' > Home(h(k), mask + 1) ==> info[idx' - 1] >= InfoAt(h(k), mask + 1, scale, idx' - 1)
    {
      hide *;
      ValidParts();
      idx', inf' := idx, inf;
      ghost var kvs, infos, n := kv[..], info[..], mask + 1;
      ScanStart(h, load, n, scale, kvs, infos, m, pos, maxAllowed, k);
      UnseenNone(kvs, k, idx);
      while inf' < info[idx']
        invariant Home(h(k), n) <= idx' <= kv.Length && inf' == InfoAt(h(k), n, scale, idx')
        invariant Unseen(kvs, k, Home(h(k), n), idx')
        invariant idx' > Home(h(k), n) ==> info[idx' - 1] >= InfoAt(h(k), n, scale, idx' - 1)
        decreases kv.Length - idx'
      {
        ScanLooks(h, load, n, scale, kvs, infos, m, pos, maxAllowed, k, idx');
        assert infos[idx'] == info[idx'];
        UnseenStep(kvs, k, Home(h(k), n), idx');
        idx', inf' := idx' + 1, inf' + scale.inc;
      }
    }

    /** The index of k, or the number of slots when k is not in the table. */
    method FindIdx(k: K) returns (idx: nat)
      requires Valid()
      ensures k in m ==> idx < kv.Length && idx == pos[k] && kv[idx] == Node(k, m[k])
      ensures k !in m ==> idx == kv.Length
    {
      hide *;
      ValidParts();
      var (i, inf) := KeyToIdx(k);
      idx := i;
      ghost var kvs, infos, n := kv[..], info[..], mask + 1;
      ScanStart(h, load, n, scale, kvs, infos, m, pos, maxAllowed, k);
      UnseenNone(kvs, k, idx);
      while true
        invariant Home(h(k), n) <= idx <= kv.Length && inf == InfoAt(h(k), n, scale, idx)
        invariant Unseen(kvs, k, Home(h(k), n), idx)
        decreases kv.Length - idx
      {
        ScanLooks(h, load, n, scale, kvs, infos, m, pos, maxAllowed, k, idx);
        assert infos[idx] == info[idx];
        if inf == info[idx] && kv[idx].key == k {
          return;
        }
        UnseenStep(kvs, k, Home(h(k), n), idx);
        idx, inf := idx + 1, inf + scale.inc;
        ScanLooks(h, load, n, scale, kvs, infos, m, pos, maxAllowed, k, idx);
        assert infos[idx] == info[idx];
        if inf == info[idx] && kv[idx].key == k {
          return;
        }
        UnseenStep(kvs, k, Home(h(k), n), idx);
        idx, inf := idx + 1, inf + scale.inc;
        ScanLooks(h, load, n, scale, kvs, infos, m, pos, maxAllowed, k, idx);
        assert infos[idx] == info[idx];
        if inf > info[idx] {
          break;
        }
      }
      ScanEnds(h, load, n, scale, kvs, infos, m, pos, maxAllowed, k, idx);
      idx := if mask == 0 then 0 else kv.Length;
    }

    /** Moves the slots from insertionIdx up to startIdx - 1 one place up, slots first, then info. */
    method ShiftUp(startIdx: nat, insertionIdx: nat) returns (ghost full: int)
      requires insertionIdx < startIdx < kv.Length <= info.Length
      requires forall i :: 0 <= i < info.Length ==> info[i] + scale.inc <= 255
      modifies kv, info, this`maxAllowed
      ensures forall i :: 0 <= i < kv.Length ==>
                kv[i] == if insertionIdx < i <= startIdx then old(kv[i - 1]) else old(kv[i])
      ensures forall i :: 0 <= i < info.Length ==>
                info[i] == if insertionIdx < i <= startIdx then old(info[i - 1]) + scale.inc else old(info[i])
      ensures maxAllowed == 0 || (maxAllowed == old(maxAllowed) &&
                forall i :: insertionIdx < i <= startIdx ==> info[i] + scale.inc <= 255)
      ensures maxAllowed == old(maxAllowed) || (insertionIdx < full <= startIdx && info[full] + scale.inc > 255)
    {
      ShiftNodesUp(startIdx, insertionIdx);
      full := ShiftInfoUp(startIdx, insertionIdx);
    }

    method ShiftNodesUp(startIdx: nat, insertionIdx: nat)
      requires insertionIdx < startIdx < kv.Length
      modifies kv
      ensures forall i :: 0 <= i < kv.Length ==>
                kv[i] == if insertionIdx < i <= startIdx then old(kv[i - 1]) else old(kv[i])
    {
      hide *;
      ghost var kvs := kv[..];
      var idx := startIdx;
      kv[idx] := kv[idx - 1];
      idx := idx - 1;
      while idx != insertionIdx
        invariant insertionIdx <= idx < startIdx
        invariant forall i :: 0 <= i <= idx || startIdx < i < kv.Length ==> kv[i] == kvs[i]
        invariant forall i :: idx < i <= startIdx ==> kv[i] == kvs[i - 1]
        modifies kv
      {
        kv[idx] := kv[idx - 1];
        idx := idx - 1;
      }
    }

    method ShiftInfoUp(startIdx: nat, insertionIdx: nat) returns (ghost full: int)
      requires insertionIdx < startIdx < info.Length
      requires forall i :: 0 <= i < info.Length ==> info[i] + scale.inc <= 255
      modifies info, this`maxAllowed
      ensures forall i :: 0 <= i < info.Length ==>
                info[i] == if insertionIdx < i <= startIdx then old(info[i - 1]) + scale.inc else old(info[i])
      ensures maxAllowed == 0 || (maxAllowed == old(maxAllowed) &&
                forall i :: insertionIdx < i <= startIdx ==> info[i] + scale.inc <= 255)
      ensures maxAllowed == old(maxAllowed) || (insertionIdx < full <= startIdx && info[full] + scale.inc > 255)
    {
      hide *;
      ghost var infos := info[..];
      full := -1;
      var idx := startIdx;
      while idx != insertionIdx
        invariant insertionIdx <= idx <= startIdx
        invariant forall i :: 0 <= i <= idx || startIdx < i < info.Length ==> info[i] == infos[i]
        invariant forall i :: idx < i <= startIdx ==> info[i] == infos[i - 1] + scale.inc
        invariant maxAllowed == 0 || (maxAllowed == old(maxAllowed) &&
                    forall i :: idx < i <= startIdx ==> info[i] + scale.inc <= 255)
        invariant maxAllowed == old(maxAllowed) || (idx < full <= startIdx && info[full] + scale.inc > 255)
        modifies info, this`maxAllowed
      {
        info[idx] := (info[idx - 1] + scale.inc) % 256;
        if info[idx] + scale.inc > 255 {
          maxAllowed := 0;
          full := idx;
        }
        idx := idx - 1;
      }
    }

    /** Removes slot p by moving the displaced slots behind it one place down. */
    method ShiftDown(p: nat) returns (ghost e: nat)
      requires p < kv.Length < info.Length && info[kv.Length] < 2 * scale.inc
      requires forall i :: 0 <= i < info.Length ==> info[i] <= 255
      modifies kv, info
      ensures p < e <= kv.Length && Shiftable(old(info[..]), scale.inc, p, e)
      ensures Closed(old(kv[..]), kv[..], p, e, Free)
      ensures InfoClosed(old(info[..]), info[..], p, e, scale.inc)
    {
      hide *;
      ghost var kvs, infos := kv[..], info[..];
      var idx := MoveDown(p);
      info[idx] := 0;
      kv[idx] := Free;
      e := idx + 1;
      ClosedBy(infos, info[..], kvs, kv[..], p, e, scale.inc);
    }

    /** Moves displaced slots down until one is empty or at home; returns the last slot moved. */
    method MoveDown(p: nat) returns (idx: nat)
      requires p < kv.Length < info.Length && info[kv.Length] < 2 * scale.inc
      requires forall i :: 0 <= i < info.Length ==> info[i] <= 255
      modifies kv, info
      ensures p <= idx < kv.Length && old(info[idx + 1]) < 2 * scale.inc
      ensures forall i :: p < i <= idx ==> old(info[i]) >= 2 * scale.inc
      ensures forall i :: 0 <= i < p || idx < i < kv.Length ==> kv[i] == old(kv[i])
      ensures forall i :: p <= i < idx ==> kv[i] == old(kv[i + 1])
      ensures forall i :: 0 <= i < p || idx < i < info.Length ==> info[i] == old(info[i])
      ensures forall i :: p <= i < idx ==> info[i] == old(info[i + 1]) - scale.inc
    {
      hide *;
      ghost var kvs, infos := kv[..], info[..];
      idx := p;
      while info[idx + 1] >= 2 * scale.inc
        invariant p <= idx < kv.Length
        invariant forall i :: 0 <= i < p || idx <= i < kv.Length ==> kv[i] == kvs[i]
        invariant forall i :: p <= i < idx ==> kv[i] == kvs[i + 1]
        invariant forall i :: 0 <= i < p || idx <= i < info.Length ==> info[i] == infos[i]
        invariant forall i :: p <= i < idx ==> info[i] == infos[i + 1] - scale.inc
        invariant forall i :: p < i <= idx ==> infos[i] >= 2 * scale.inc
        decreases kv.Length - idx
        modifies kv, info
      {
        info[idx] := (info[idx + 1] - scale.inc) % 256;
        kv[idx] := kv[idx + 1];
        idx := idx + 1;
      }
    }

    /** The first empty spot from p on: there always is one. */
    method EmptySpotFrom(p: nat, ghost max: nat) returns (idx: nat)
      requires Fit(h, load, mask + 1, scale, kv[..], info[..], m, pos, max) && p < kv.Length
      ensures p <= idx < kv.Length < info.Length && info[idx] == 0
      ensures forall j :: p <= j < idx ==> info[j] != 0
    {
      hide *;
      FitParts(h, load, mask + 1, scale, kv[..], info[..], m, pos, max);
      idx := p;
      while info[idx] != 0
        invariant p <= idx < kv.Length
        invariant forall j :: p <= j < idx ==> info[j] != 0
        decreases kv.Length - idx
      {
        assert info[..][idx] == info[idx];
        EmptySpotAhead(h, load, mask + 1, scale, kv[..], info[..], m, pos, max, idx);
        idx := idx + 1;
      }
    }

    /** Opens p by moving everything before the empty spot idx up, and puts the node there. */
    method Place(k: K, v: V, p: nat, idx: nat, inf: nat)
      requires p <= idx < kv.Length < info.Length && Bytes(info[..], scale.inc) && inf <= 255
      modifies kv, info, this`maxAllowed
      ensures Opened(old(kv[..]), kv[..], p, idx, Node(k, v))
      ensures InfoOpened(old(info[..]), info[..], p, idx, inf, scale.inc)
      ensures maxAllowed == 0 || (maxAllowed == old(maxAllowed) &&
                forall i :: p < i <= idx ==> info[i] + scale.inc <= 255)
      ensures maxAllowed == old(maxAllowed) || !Bytes(info[..], scale.inc)
      ensures info[p] == inf
    {
      hide *;
      BytesEach(info[..], scale.inc);
      ghost var full: int := p;
      if idx != p {
        full := ShiftUp(idx, p);
      }
      ghost var flagged := maxAllowed != old(maxAllowed);
      kv[p] := Node(k, v);
      info[p] := inf % 256;
      if flagged {
        ByteFull(info[..], scale.inc, full);
      }
      OpenedBy(old(kv[..]), kv[..], p, idx, Node(k, v));
      InfoOpenedBy(old(info[..]), info[..], p, idx, inf, scale.inc);
    }

    /**
     * The common tail of every insertion: k goes into its gap p, and whatever stands there
     * up to the next empty spot moves up.
     */
    method CreateAt(k: K, v: V, p: nat, inf: nat)
      requires Valid() && mask != 0 && k !in m && |m| < Allowed(mask + 1, load)
      requires Bytes(info[..], scale.inc) && maxAllowed != 0
      requires Gap(h(k), mask + 1, scale, info[..], p) && inf == InfoAt(h(k), mask + 1, scale, p)
      modifies this, kv, info
      ensures Valid() && m == old(m)[k := v]
      ensures kv == old(kv) && info == old(info) && mask == old(mask) && scale == old(scale)
      ensures p < kv.Length && pos[k] == p && kv[p] == Node(k, v)
      ensures maxAllowed == old(maxAllowed) || !Bytes(info[..], scale.inc)
    {
      hide *;
      ValidParts();
      Allocated();
      ghost var kvs, infos, n, max := kv[..], info[..], mask + 1, maxAllowed;
      FitParts(h, load, n, scale, kvs, infos, m, pos, max);
      GapInside(h, load, n, scale, kvs, infos, m, pos, max, k, p);
      if inf + scale.inc > 255 {
        maxAllowed := 0;
      }
      var idx := EmptySpotFrom(p, max);
      Place(k, v, p, idx, inf);
      if inf + scale.inc > 255 {
        ByteFull(info[..], scale.inc, p);
      }
      numElements := numElements + 1;
      InsertionFits(h, load, n, scale, kvs, infos, m, pos, max, k, v, p, idx, kv[..], info[..], maxAllowed);
      MapGrows(m, k, v);
      PosOpenedAt(pos, k, p, idx);
      m, pos := m[k := v], PosOpened(pos, k, p, idx);
      OpenedAt(kvs, kv[..], p, idx, Node(k, v));
      ValidFrom();
    }

    method InitData(n: nat) returns (ok: bool)
      requires 10 < load < 100 && 2 * room < SizeLimit && PowerOfTwo(n) && n >= InitialNumElements
      modifies this
      ensures ok <==> n <= room
      ensures ok ==> Valid() && m == map[] && mask + 1 == n && fresh(kv) && fresh(info)
      ensures ok ==> maxAllowed == Allowed(n, load) && scale == InitialScale && Bytes(info[..], scale.inc)
    {
      hide PowerOfTwo;
      numElements, mask := 0, n - 1;
      maxAllowed := Allowed(n, load);
      if n > room {
        return false;
      }
      var slots := WithBuffer(n, load);
      kv := new Slot<K, V>[slots](_ => Free);
      info := new nat[slots + 8](_ => 0);
      info[slots] := 1;
      scale := InitialScale;
      m, pos := map[], map[];
      FreshFits(h, load, n, kv[..], info[..]);
      ok := true;
    }

    /** Halves every info byte in place, eight at a time; the slots do not move. */
    method TryIncreaseInfo() returns (ok: bool)
      requires Valid() && mask != 0
      modifies this, info
      ensures Valid() && m == old(m) && mask == old(mask) && kv == old(kv) && info == old(info)
      ensures ok <==> old(scale.inc) > 2
      ensures ok ==> scale.inc < old(scale.inc) && maxAllowed == Allowed(mask + 1, load) && Bytes(info[..], scale.inc)
      ensures !ok ==> maxAllowed == old(maxAllowed) && scale == old(scale) && pos == old(pos)
    {
      hide *;
      if scale.inc <= 2 {
        return false;
      }
      ValidParts();
      Allocated();
      ghost var infos, s, n := info[..], scale, mask + 1;
      FitParts(h, load, n, s, kv[..], infos, m, pos, maxAllowed);
      ScaleHalved(s);
      var slots := WithBuffer(mask + 1, load);
      scale := Scale(scale.inc / 2, scale.shift + 1);
      var i := 0;
      while i < slots
        invariant i % 8 == 0 && i < slots + 8
        invariant forall j :: 0 <= j < |infos| ==> info[j] == if j < i then infos[j] / 2 else infos[j]
        modifies info
      {
        forall j | i <= j < i + 8 {
          info[j] := info[j] / 2;
        }
        i := i + 8;
      }
      info[slots] := 1;
      maxAllowed := Allowed(mask + 1, load);
      HalvingFits(h, load, n, s, kv[..], infos, m, pos, old(maxAllowed), info[..]);
      ValidFrom();
      ok := true;
    }

    ghost function View(): Snapshot<K, V>
      reads this, kv
    {
      Snapshot(load, room, mask, maxAllowed, scale, kv[..], m, pos)
    }

    ghost predicate Refinable()
      reads this, kv
    {
      View().Refinable()
    }

    ghost predicate Hopeless()
      reads this, kv
    {
      View().Hopeless()
    }

    ghost predicate CrowdedBeforeLast(n: nat)
      requires n > 0
      reads this, kv
    {
      CrowdBeforeLast(h, n, kv[..], m, pos)
    }

    ghost predicate CannotGrow()
      reads this, kv
    {
      View().CannotGrow(h)
    }

    /** No new key can be admitted. */
    ghost predicate Stuck()
      reads this, kv
    {
      View().Stuck(h)
    }

    lemma RoomIs()
      ensures Refinable() <==> mask != 0 && |m| < Allowed(mask + 1, load) && scale.inc > 2
      ensures Hopeless() <==> mask != 0 && !Refinable() && 2 * |m| < Allowed(mask + 1, load)
      ensures mask == 0 ==> (CannotGrow() <==> InitialNumElements > room)
      ensures mask != 0 ==>
                (CannotGrow() <==> !Refinable() && (Hopeless() || 2 * (mask + 1) > room || CrowdedBeforeLast(2 * (mask + 1))))
    {
    }

    /** Insertion of a key known to be new, as rehashing does it. */
    method InsertMove(k: K, v: V) returns (ok: bool)
      requires Valid() && mask != 0 && k !in m && |m| < Allowed(mask + 1, load)
      modifies this, kv, info
      ensures ok ==> Valid() && m == old(m)[k := v] && mask == old(mask)
      ensures kv == old(kv) && info == old(info)
      ensures ok <==> old(Healthy())
      ensures ok ==> (Healthy() <==> !Crowd(m.Keys, h, mask + 1))
    {
      hide *;
      HealthyIs();
      if maxAllowed == 0 {
        ok := TryIncreaseInfo();
        if !ok {
          return;
        }
      }
      ValidParts();
      Allocated();
      AllowedSome(|m|, Allowed(mask + 1, load));
      ghost var kvs, infos, n := kv[..], info[..], mask + 1;
      FitParts(h, load, n, scale, kvs, infos, m, pos, maxAllowed);
      var (idx, inf) := KeyToIdx(k);
      ScanStart(h, load, n, scale, kvs, infos, m, pos, maxAllowed, k);
      while inf <= info[idx]
        modifies {}
        invariant Home(h(k), n) <= idx <= kv.Length && inf == InfoAt(h(k), n, scale, idx)
        invariant idx > Home(h(k), n) ==> info[idx - 1] >= InfoAt(h(k), n, scale, idx - 1)
        decreases kv.Length - idx
      {
        ScanLooks(h, load, n, scale, kvs, infos, m, pos, maxAllowed, k, idx);
        assert infos[idx] == info[idx];
        idx, inf := idx + 1, inf + scale.inc;
      }
      assert info[..] == infos;
      IsGap(h(k), n, scale, infos, idx);
      CreateAt(k, v, idx, inf);
      StaysHealthy();
      ok := true;
    }

    lemma HealthyIs()
      ensures Healthy() <==> (mask == 0 || maxAllowed != 0 || scale.inc > 2)
    {
    }

    lemma MovedIs(n: nat)
      requires n > 0
      ensures CrowdedBeforeLast(n) <==> CrowdBeforeLast(h, n, kv[..], m, pos)
    {
    }

    /** After an insertion the table is out of health exactly when its keys are a crowd. */
    lemma StaysHealthy()
      requires Valid() && mask != 0 && (maxAllowed != 0 || !Bytes(info[..], scale.inc))
      ensures Healthy() <==> !Crowd(m.Keys, h, mask + 1)
    {
      if Crowd(m.Keys, h, mask + 1) {
        CrowdFills(h, load, mask + 1, scale, kv[..], info[..], m, pos, maxAllowed);
      }
      if maxAllowed == 0 && scale.inc <= 2 {
        FullIsCrowd(h, load, mask + 1, scale, kv[..], info[..], m, pos, maxAllowed);
      }
    }

    /** Moves the nodes of the old arrays into this table, which is empty. */
    method MoveAll(oldKv: array<Slot<K, V>>, oldInfo: array<nat>, ghost n0: nat, ghost s: Scale,
                   ghost was: map<K, V>, ghost at: map<K, nat>) returns (ok: bool)
      requires Valid() && Healthy() && m == map[] && mask != 0 && |was| <= Allowed(mask + 1, load)
      requires oldKv != kv && oldInfo != info && Sound(h, n0, s, oldKv[..], oldInfo[..], was, at)
      requires oldKv.Length <= oldInfo.Length
      modifies this, kv, info
      ensures ok <==> !CrowdBeforeLast(h, old(mask) + 1, oldKv[..], was, at)
      ensures ok ==> Valid() && m == was && mask == old(mask) && (Healthy() <==> !Crowd(was.Keys, h, mask + 1))
      ensures kv == old(kv) && info == old(info)
    {
      hide *;
      ghost var kvs, infos, n := oldKv[..], oldInfo[..], mask + 1;
      HoldsOf(h, n0, s, kvs, infos, was, at);
      SmallNoCrowd(m.Keys, h, n);
      BeforeLastIs(h, n, kvs, was, at);
      BeforeNone(was, at);
      var i := 0;
      while i < oldKv.Length
        invariant i <= oldKv.Length && oldKv[..] == kvs && oldInfo[..] == infos
        invariant Valid() && mask + 1 == n && kv == old(kv) && info == old(info) && m == Before(was, at, i)
        invariant Healthy() <==> !Crowd(m.Keys, h, n)
        invariant forall j :: 0 <= j < i && kvs[j].Node? ==> !Crowd(Before(was, at, j).Keys, h, n)
      {
        assert oldInfo[i] == infos[i] && oldKv[i] == kvs[i];
        EmptyIsFree(h, n0, s, kvs, infos, was, at, i);
        BeforeStep(kvs, was, at, i);
        if oldInfo[i] != 0 {
          ok := InsertMove(oldKv[i].key, oldKv[i].val);
          if !ok {
            BeforeLastAt(h, n, kvs, was, at, i);
            return;
          }
        }
        i := i + 1;
      }
      BeforeAll(kvs, was, at);
      ok := true;
    }

    /** Moves every node into a fresh table of n home slots. */
    method RehashPowerOfTwo(n: nat) returns (ok: bool)
      requires Valid() && PowerOfTwo(n) && n >= InitialNumElements && |m| <= Allowed(n, load)
      modifies this
      ensures ok ==> Valid() && m == old(m) && mask + 1 == n && fresh(kv) && fresh(info)
      ensures ok <==> n <= room && !old(CrowdedBeforeLast(n))
      ensures ok ==> (Healthy() <==> !Crowd(m.Keys, h, n))
    {
      hide *;
      ValidParts();
      EightIsPower();
      MovedIs(n);
      var oldKv, oldInfo := kv, info;
      ghost var kvs, infos, was, at, n0 := kv[..], info[..], m, pos, mask + 1;
      var slots := WithBuffer(mask + 1, load);
      if mask == 0 {
        VacantSize(n0, load);
        VacantEmpty(h, load, n0, scale, kvs, infos, m, pos, maxAllowed);
      } else {
        Allocated();
        FitParts(h, load, n0, scale, kvs, infos, m, pos, maxAllowed);
        AllocatedSize(n0, load);
      }
      ghost var s := scale;
      ok := InitData(n);
      if !ok {
        return;
      }
      InitialIs();
      HealthyIs();
      SmallNoCrowd(m.Keys, h, n);
      BeforeLastIs(h, n, kvs, was, at);
      if slots > 1 {
        ok := MoveAll(oldKv, oldInfo, n0, s, was, at);
      }
    }

    /** Makes room: a first allocation, finer info bytes, or twice the slots. */
    method IncreaseSize() returns (ok: bool)
      requires Valid() && |m| >= maxAllowed
      modifies this, info
      ensures ok <==> !old(CannotGrow())
      ensures ok ==> Valid() && m == old(m) && (Stuck() <==> old(Stuck()))
      ensures ok ==> (kv == old(kv) || fresh(kv)) && (info == old(info) || fresh(info))
      ensures ok && old(mask) == 0 ==> mask + 1 == InitialNumElements
      ensures old(Refinable()) ==> |m| < maxAllowed
      ensures old(Refinable()) ==> ok && mask == old(mask) && kv == old(kv) && scale.inc < old(scale.inc)
      ensures ok && old(mask) != 0 && !old(Refinable()) ==>
                mask + 1 == 2 * (old(mask) + 1) && Allowed(old(mask) + 1, load) <= 2 * |m|
      ensures !ok ==> old(Stuck())
    {
      hide *;
      ValidParts();
      HealthyIs();
      RoomIs();
      StuckIs();
      ghost var n := mask + 1;
      MovedIs(2 * n);
      if mask == 0 {
        VacantEmpty(h, load, mask + 1, scale, kv[..], info[..], m, pos, maxAllowed);
        EightIsPower();
        ok := InitData(InitialNumElements);
        InitialIs();
        if ok {
          FirstStuck();
        }
        return;
      }
      Allocated();
      FitParts(h, load, n, scale, kv[..], info[..], m, pos, maxAllowed);
      var max := Allowed(mask + 1, load);
      if numElements < max {
        ok := TryIncreaseInfo();
        if ok {
          StuckIs();
          return;
        }
      }
      ValidParts();
      RoomIs();
      if numElements * 2 < Allowed(mask + 1, load) {
        return false;
      }
      Allocated();
      FitParts(h, load, n, scale, kv[..], info[..], m, pos, maxAllowed);
      DoublePower(n);
      AllowedGrows(n, load);
      EightIsPower();
      HalfFull(n, load, numElements);
      MovedIs(2 * n);
      ok := RehashPowerOfTwo((mask + 1) * 2);
      if ok {
        DoubledStuck(n);
      }
    }

    lemma StuckIs()
      ensures |m| < maxAllowed || Refinable() ==> !Stuck()
      ensures |m| >= maxAllowed && mask == 0 ==>
                (Stuck() <==> (if Allowed(InitialNumElements, load) > 0 then InitialNumElements else 2 * InitialNumElements) > room)
      ensures var n := mask + 1;
              |m| >= maxAllowed && mask != 0 && !Refinable() ==>
                (Stuck() <==>
                 (CannotGrow() ||
                  (Crowd(m.Keys, h, 2 * n) && (2 * |m| < Allowed(2 * n, load) || 4 * n > room || Crowd(m.Keys, h, 4 * n)))))
    {
      hide Allowed, Crowd, Snapshot.CannotGrow;
    }

    lemma FirstStuck()
      requires Valid() && mask + 1 == InitialNumElements && m == map[] && maxAllowed == Allowed(InitialNumElements, load)
      ensures Stuck() <==> Allowed(InitialNumElements, load) == 0 && 2 * InitialNumElements > room
    {
      hide *;
      EightIsPower();
      RoomIs();
      StuckIs();
      ValidParts();
      MovedIs(2 * InitialNumElements);
      SmallNoCrowd(m.Keys, h, 2 * InitialNumElements);
      if CrowdedBeforeLast(2 * InitialNumElements) {
        BeforeLastIsCrowd(h, 2 * InitialNumElements, kv[..], m, pos);
      }
    }

    /** After a doubling: a crowd needs one more, and anything else is admitted. */
    lemma DoubledStuck(n: nat)
      requires Valid() && mask + 1 == 2 * n && n >= InitialNumElements && |m| <= Allowed(n, load)
      requires Healthy() <==> !Crowd(m.Keys, h, 2 * n)
      ensures Stuck() <==>
              (Crowd(m.Keys, h, 2 * n) && (2 * |m| < Allowed(2 * n, load) || 4 * n > room || Crowd(m.Keys, h, 4 * n)))
    {
      hide *;
      EightIsPower();
      ValidParts();
      HealthyIs();
      RoomIs();
      StuckIs();
      Allocated();
      FitParts(h, load, 2 * n, scale, kv[..], info[..], m, pos, maxAllowed);
      AllowedDoubles(n, load);
      AllowedQuadruples(n, load);
      MovedIs(4 * n);
      ScaleFrom();
      if CrowdedBeforeLast(4 * n) {
        BeforeLastIsCrowd(h, 4 * n, kv[..], m, pos);
      }
    }

    lemma ScaleFrom()
      requires Valid()
      ensures scale.inc >= 2
    {
    }

    /** The search both insertions start with: the key itself, or the gap where it belongs. */
    method Probe(k: K) returns (found: bool, idx: nat, inf: nat)
      requires Valid()
      ensures found <==> k in m
      ensures found ==> idx < kv.Length && pos[k] == idx && kv[idx] == Node(k, m[k])
      ensures !found ==> Gap(h(k), mask + 1, scale, info[..], idx) && inf == InfoAt(h(k), mask + 1, scale, idx)
    {
      hide *;
      ValidParts();
      var (i, f) := KeyToIdx(k);
      idx, inf := NextWhileLess(k, i, f);
      ghost var kvs, infos, n := kv[..], info[..], mask + 1;
      while inf == info[idx]
        invariant Home(h(k), n) <= idx <= kv.Length && inf == InfoAt(h(k), n, scale, idx) >= info[idx]
        invariant Unseen(kvs, k, Home(h(k), n), idx)
        invariant idx > Home(h(k), n) ==> info[idx - 1] >= InfoAt(h(k), n, scale, idx - 1)
        decreases kv.Length - idx
      {
        ScanLooks(h, load, n, scale, kvs, infos, m, pos, maxAllowed, k, idx);
        assert infos[idx] == info[idx];
        if kv[idx].key == k {
          found := true;
          return;
        }
        UnseenStep(kvs, k, Home(h(k), n), idx);
        ScanNext(h, load, n, scale, kvs, infos, m, pos, maxAllowed, k, idx);
        assert infos[idx + 1] == info[idx + 1];
        idx, inf := idx + 1, inf + scale.inc;
      }
      ScanEnds(h, load, n, scale, kvs, infos, m, pos, maxAllowed, k, idx);
      IsGap(h(k), n, scale, infos, idx);
      found := false;
    }

    /**
     * insert, emplace and operator[] alike: an absent key is created with the value v, a
     * present one is left alone. The retry loop ends: every round either halves the info
     * step or, while the table is at least half full, doubles the table.
     */
    method Insert(k: K, v: V) returns (ok: bool, idx: nat, inserted: bool)
      requires Valid()
      modifies this, kv, info
      ensures ok ==> Valid() && m == if k in old(m) then old(m) else old(m)[k := v]
      ensures ok ==> inserted == (k !in old(m)) && idx < kv.Length && pos[k] == idx && kv[idx] == Node(k, m[k])
      ensures ok ==> (kv == old(kv) || fresh(kv)) && (info == old(info) || fresh(info))
      ensures ok <==> k in old(m) || !old(Stuck())
      ensures k in old(m) || old(|m| < maxAllowed) ==> kv == old(kv) && info == old(info)
      ensures ok && old(|m| < maxAllowed || Refinable()) ==> mask == old(mask)
      ensures ok && inserted ==> mask != 0 && (Healthy() <==> !Crowd(m.Keys, h, mask + 1))
      ensures k in old(m) ==> Healthy() == old(Healthy())
    {
      hide *;
      while true
        invariant Valid() && m == old(m)
        invariant k in old(m) || old(|m| < maxAllowed) ==> maxAllowed == old(maxAllowed) && kv == old(kv) && info == old(info)
        invariant k !in old(m) ==> (Stuck() <==> old(Stuck()))
        invariant old(|m| < maxAllowed || Refinable()) ==> mask == old(mask) && (|m| < maxAllowed || Refinable())
        invariant k in old(m) ==> Healthy() == old(Healthy())
        invariant (kv == old(kv) || fresh(kv)) && (info == old(info) || fresh(info))
        decreases if mask == 0 then 1 else 0, Left(mask + 1, |old(m)|), scale.inc
      {
        ValidParts();
        var found, inf;
        found, idx, inf := Probe(k);
        if found {
          return true, idx, false;
        }
        if numElements >= maxAllowed {
          ghost var n := mask + 1;
          if mask != 0 {
            Allocated();
            FitParts(h, load, n, scale, kv[..], info[..], m, pos, maxAllowed);
          }
          ok := IncreaseSize();
          if !ok {
            return false, idx, false;
          }
          EightIsPower();
          if 1 < n < mask + 1 {
            LeftShrinks(n, mask + 1, load, |m|);
          }
          continue;
        }
        StuckIs();
        VacantNone(h, load, mask + 1, scale, kv[..], info[..], m, pos, maxAllowed);
        Allocated();
        FitParts(h, load, mask + 1, scale, kv[..], info[..], m, pos, maxAllowed);
        CreateAt(k, v, idx, inf);
        HealthyIs();
        StaysHealthy();
        MapGrows(old(m), k, v);
        ok, inserted := true, true;
        return;
      }
    }

    /** Assignment through the reference that find and operator[] hand out. */
    method Assign(k: K, idx: nat, v: V)
      requires Valid() && k in m && idx < kv.Length && pos[k] == idx
      modifies kv, this`m
      ensures Valid() && m == old(m)[k := v] && old(Healthy()) == Healthy()
    {
      hide *;
      HealthyIs();
      ValidParts();
      Allocated();
      FitParts(h, load, mask + 1, scale, kv[..], info[..], m, pos, maxAllowed);
      ghost var kvs := kv[..];
      kv[idx] := Node(k, v);
      AssignmentFits(h, load, mask + 1, scale, kvs, info[..], m, pos, maxAllowed, k, v, kv[..]);
      m := m[k := v];
      HealthyIs();
      ValidFrom();
    }

    /** insert_or_assign: the value of k becomes v, whether or not k was there. */
    method InsertOrAssign(k: K, v: V) returns (ok: bool, inserted: bool)
      requires Valid()
      modifies this, kv, info
      ensures ok ==> Valid() && m == old(m)[k := v] && inserted == (k !in old(m))
      ensures ok ==> (kv == old(kv) || fresh(kv)) && (info == old(info) || fresh(info))
      ensures ok <==> k in old(m) || !old(Stuck())
      ensures ok && inserted ==> mask != 0 && (Healthy() <==> !Crowd(m.Keys, h, mask + 1))
      ensures k in old(m) ==> Healthy() == old(Healthy())
    {
      hide *;
      var idx := FindIdx(k);
      if idx == kv.Length {
        ok, idx, inserted := Insert(k, v);
      } else {
        Assign(k, idx, v);
        ok, inserted := true, false;
      }
    }

    /** Returns whether k was there to remove. */
    method Erase(k: K) returns (erased: bool)
      requires Valid()
      modifies this, kv, info
      ensures Valid() && m == old(m) - {k} && erased == (k in old(m))
      ensures kv == old(kv) && info == old(info) && old(Healthy()) == Healthy()
    {
      hide *;
      ValidParts();
      var (idx, inf) := KeyToIdx(k);
      ghost var kvs, infos, n := kv[..], info[..], mask + 1;
      ScanStart(h, load, n, scale, kvs, infos, m, pos, maxAllowed, k);
      UnseenNone(kvs, k, idx);
      erased := false;
      while true
        modifies {}
        invariant !erased
        invariant Home(h(k), n) <= idx <= kv.Length && inf == InfoAt(h(k), n, scale, idx)
        invariant Unseen(kvs, k, Home(h(k), n), idx)
        decreases kv.Length - idx
      {
        ScanLooks(h, load, n, scale, kvs, infos, m, pos, maxAllowed, k, idx);
        assert infos[idx] == info[idx];
        if inf == info[idx] && kv[idx].key == k {
          erased := true;
          break;
        }
        UnseenStep(kvs, k, Home(h(k), n), idx);
        idx, inf := idx + 1, inf + scale.inc;
        ScanLooks(h, load, n, scale, kvs, infos, m, pos, maxAllowed, k, idx);
        assert infos[idx] == info[idx];
        if inf > info[idx] {
          break;
        }
      }
      if erased {
        EraseAt(k, idx);
      } else {
        ScanEnds(h, load, n, scale, kvs, infos, m, pos, maxAllowed, k, idx);
        assert m == m - {k};
      }
    }

    method EraseAt(k: K, idx: nat)
      requires Valid() && k in m && idx < kv.Length && pos[k] == idx
      modifies this, kv, info
      ensures Valid() && m == old(m) - {k}
      ensures kv == old(kv) && info == old(info) && old(Healthy()) == Healthy()
    {
      hide *;
      HealthyIs();
      ValidParts();
      Allocated();
      ghost var kvs, infos, n := kv[..], info[..], mask + 1;
      FitParts(h, load, n, scale, kvs, infos, m, pos, maxAllowed);
      BytesEach(infos, 0);
      SentinelLow(h, n, scale, kvs, infos, m, pos);
      assert forall i :: 0 <= i < info.Length ==> info[i] == infos[i];
      ghost var e := ShiftDown(idx);
      numElements := numElements - 1;
      RemovalFits(h, load, n, scale, kvs, infos, m, pos, maxAllowed, k, idx, e, kv[..], info[..]);
      MapShrinks(m, k);
      m, pos := m - {k}, PosClosed(pos, k, idx, e);
      HealthyIs();
      ValidFrom();
    }

    /**
     * Room for c elements, in the least size that admits them; it fails when no size does
     * (the doubling wraps to zero), when memory does not, or when moving makes a crowd.
     */
    method Reserve(c: nat) returns (ok: bool)
      requires Valid()
      modifies this
      ensures ok ==> Valid() && m == old(m) && fresh(kv) && fresh(info)
      ensures var least := if c > |old(m)| then c else |old(m)|;
              && (ok ==> SizeFor(least, load, mask + 1) && (Healthy() <==> !Crowd(m.Keys, h, mask + 1)))
              && (ok <==> !old(View().CannotReserve(h, c)))
    {
      hide *;
      ValidParts();
      EightIsPower();
      ghost var least: nat := if c > |m| then c else |m|;
      var minElementsAllowed := if c > numElements then c else numElements;
      var newSize := InitialNumElements;
      LimitIs();
      NoneSmaller(load, least);
      while Allowed(newSize, load) < minElementsAllowed && newSize != 0
        modifies {}
        invariant newSize == 0 || (PowerOfTwo(newSize) && 8 <= newSize < SizeLimit)
        invariant TooSmallBelow(least, load, if newSize == 0 then SizeLimit else newSize)
        decreases if newSize == 0 then 0 else SizeLimit - newSize
      {
        DoubleWraps(newSize);
        NextSize(least, load, newSize);
        newSize := newSize * 2 % SizeLimit;
      }
      if newSize == 0 {
        AllTooSmall(least, load);
        NoReserve(c, least);
        return false;
      }
      LeastSize(least, load, newSize);
      ReserveIs(c, newSize);
      MovedIs(newSize);
      ok := RehashPowerOfTwo(newSize);
    }

    lemma ReserveIs(c: nat, size: nat)
      requires size > 0 && SizeFor(if c > |m| then c else |m|, load, size)
      ensures View().CannotReserve(h, c) <==> size > room || CrowdedBeforeLast(size)
    {
      hide Crowd, SizeFor;
      var least := if c > |m| then c else |m|;
      forall n: nat | SizeFor(least, load, n) ensures n == size {
        OneSize(least, load, n, size);
      }
    }

    lemma NoReserve(c: nat, least: nat)
      requires least == (if c > |m| then c else |m|) && forall n: nat :: !SizeFor(least, load, n)
      ensures View().CannotReserve(h, c)
    {
      hide Crowd, SizeFor;
    }

    /** Empties the table where it stands; the flag for full info bytes is left as it was. */
    method Clear()
      requires Valid()
      modifies this, kv, info
      ensures Valid() && m == map[] && mask == old(mask)
      ensures kv == old(kv) && info == old(info) && (old(Healthy()) ==> Healthy())
    {
      hide *;
      HealthyIs();
      ValidParts();
      if numElements == 0 {
        EmptyMap(m);
        return;
      }
      if mask == 0 {
        VacantEmpty(h, load, 1, scale, kv[..], info[..], m, pos, maxAllowed);
      }
      Allocated();
      ghost var max := maxAllowed;
      FitParts(h, load, mask + 1, scale, kv[..], info[..], m, pos, max);
      numElements := 0;
      var slots := WithBuffer(mask + 1, load);
      forall i | 0 <= i < slots {
        kv[i] := Free;
      }
      forall i | 0 <= i < slots + 8 {
        info[i] := 0;
      }
      info[slots] := 1;
      scale := Scale(32, 0);
      m, pos := map[], map[];
      FreshFits(h, load, mask + 1, kv[..], info[..]);
      InitialIs();
      FitLess(h, load, mask + 1, scale, kv[..], info[..], m, pos, Allowed(mask + 1, load), maxAllowed);
      HealthyIs();
      ValidFrom();
    }

    lemma ValidFrom()
      requires 10 < load < 100 && 2 * room < SizeLimit && mask < room && numElements == |m|
      requires Fit(h, load, mask + 1, scale, kv[..], info[..], m, pos, maxAllowed)
      ensures Valid()
    {
    }
  }
}
