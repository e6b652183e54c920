/**
 * When info bytes run out. How far keys are displaced is settled by their homes alone: some
 * key stands 126 slots or more behind its home exactly when some stretch of slots is the home
 * of at least 126 keys more than it has slots, less one. At the finest scale that is a full
 * byte.
 */
module HoodCrowds {
  import opened HoodLayout
  import opened HoodSteps
  import opened HoodSizes
  import opened HoodFits

  /** The keys whose homes lie from a to b. */
  ghost function HomesIn<K>(keys: set<K>, h: K -> nat, n: nat, a: nat, b: nat): set<K>
    requires n > 0
  {
    set k | k in keys && a <= Home(h(k), n) <= b
  }

  /** So many keys share a stretch of homes that one of them must stand 126 slots from its own. */
  ghost predicate Crowd<K>(keys: set<K>, h: K -> nat, n: nat)
    requires n > 0
  {
    exists a: nat, b: nat :: a <= b && |HomesIn(keys, h, n, a, b)| >= b - a + 127
  }

  lemma CrowdIsLarge<K>(keys: set<K>, h: K -> nat, n: nat)
    requires n > 0 && Crowd(keys, h, n)
    ensures |keys| >= 127
  {
    var a: nat, b: nat :| a <= b && |HomesIn(keys, h, n, a, b)| >= b - a + 127;
    SubsetSize(HomesIn(keys, h, n, a, b), keys);
  }

  lemma CrowdGrows<K>(keys: set<K>, more: set<K>, h: K -> nat, n: nat)
    requires n > 0 && keys <= more && Crowd(keys, h, n)
    ensures Crowd(more, h, n)
  {
    var a: nat, b: nat :| a <= b && |HomesIn(keys, h, n, a, b)| >= b - a + 127;
    assert HomesIn(keys, h, n, a, b) <= HomesIn(more, h, n, a, b);
    SubsetSize(HomesIn(keys, h, n, a, b), HomesIn(more, h, n, a, b));
  }

  // ---- Displacements and homes ----

  ghost predicate FarAt<K, V>(h: K -> nat, n: nat, kv: seq<Slot<K, V>>, i: nat)
    requires n > 0
  {
    i < |kv| && kv[i].Node? && i - Home(h(kv[i].key), n) >= 126
  }

  /** Along an occupied run homes never fall, and none lies before the run. */
  lemma {:induction false} RunHomes<K, V>(h: K -> nat, n: nat, s: Scale, kv: seq<Slot<K, V>>, info: seq<nat>,
                                          m: map<K, V>, pos: map<K, nat>, i: nat, j: nat)
    requires Sound(h, n, s, kv, info, m, pos)
    requires i < |kv| && kv[i].Node? && RunStart(info, s.inc, i) <= j <= i
    ensures kv[j].Node?
    ensures RunStart(info, s.inc, i) <= Home(h(kv[j].key), n) <= Home(h(kv[i].key), n)
    decreases i
  {
    if i == 0 || info[i] < 2 * s.inc {
      HomeOfFirst(h(kv[i].key), n, s, i, info[i]);
    } else {
      assert OrderedAt(info, i - 1, s.inc);
      assert kv[i - 1].Node?;
      HomesOrdered(h(kv[i - 1].key), h(kv[i].key), n, s, i);
      RunHomes(h, n, s, kv, info, m, pos, i - 1, if j < i then j else i - 1);
    }
  }

  lemma HomeOfFirst(hash: nat, n: nat, s: Scale, i: nat, inf: nat)
    requires n > 0 && s.Valid() && Home(hash, n) <= i && inf == InfoAt(hash, n, s, i)
    requires i == 0 || inf < 2 * s.inc
    ensures Home(hash, n) == i
  {
    InfoFrom(hash, n, s, i);
  }

  lemma HomesOrdered(hash: nat, hash': nat, n: nat, s: Scale, i: nat)
    requires n > 0 && s.Valid() && i > 0
    requires InfoAt(hash', n, s, i) <= InfoAt(hash, n, s, i - 1) + s.inc
    ensures Home(hash, n) <= Home(hash', n)
  {
    var d, d' := i - 1 - Home(hash, n), i - Home(hash', n);
    if d' >= d + 2 {
      assert s.inc * (d' + 1) >= s.inc * (d + 3);
      InfoHome(hash, n, s);
      InfoHome(hash', n, s);
    }
  }

  lemma FarIsCrowd<K, V>(h: K -> nat, n: nat, s: Scale, kv: seq<Slot<K, V>>, info: seq<nat>,
                         m: map<K, V>, pos: map<K, nat>, i: nat)
    requires Sound(h, n, s, kv, info, m, pos) && FarAt(h, n, kv, i)
    ensures Crowd(m.Keys, h, n)
  {
    var a, b := RunStart(info, s.inc, i), Home(h(kv[i].key), n);
    RunHomes(h, n, s, kv, info, m, pos, i, i);
    forall j | a <= j < i + 1 ensures kv[j].Node? && a <= Home(h(kv[j].key), n) <= b {
      RunHomes(h, n, s, kv, info, m, pos, i, j);
    }
    var ks := RunWithinSize(kv, m, pos, a, i + 1);
    forall k | k in ks ensures k in HomesIn(m.Keys, h, n, a, b) {
      assert kv[pos[k]] == Node(k, m[k]);
    }
    SubsetSize(ks, HomesIn(m.Keys, h, n, a, b));
  }

  /** Keys at different places from a up to below e are at most e - a. */
  lemma {:induction false} PlacesCount<K>(ks: set<K>, pos: map<K, nat>, a: nat, e: nat)
    requires ks <= pos.Keys && a <= e
    requires forall k :: k in ks ==> a <= pos[k] < e
    requires forall k, k' :: k in ks && k' in ks && pos[k] == pos[k'] ==> k == k'
    ensures |ks| <= e - a
    decreases e
  {
    if a == e {
      assert ks == {};
    } else if k :| k in ks && pos[k] == e - 1 {
      PlacesCount(ks - {k}, pos, a, e - 1);
    } else {
      PlacesCount(ks, pos, a, e - 1);
    }
  }

  lemma CrowdIsFar<K, V>(h: K -> nat, n: nat, s: Scale, kv: seq<Slot<K, V>>, info: seq<nat>,
                         m: map<K, V>, pos: map<K, nat>) returns (i: nat)
    requires Sound(h, n, s, kv, info, m, pos) && Crowd(m.Keys, h, n)
    ensures FarAt(h, n, kv, i)
  {
    var a: nat, b: nat :| a <= b && |HomesIn(m.Keys, h, n, a, b)| >= b - a + 127;
    var ks := HomesIn(m.Keys, h, n, a, b);
    forall k | k in ks ensures pos[k] < |kv| && kv[pos[k]] == Node(k, m[k]) && a <= pos[k] {
    }
    if forall k :: k in ks ==> pos[k] < b + 126 {
      PlacesCount(ks, pos, a, b + 126);
      assert false;
    }
    var k :| k in ks && pos[k] >= b + 126;
    i := pos[k];
  }

  /** At the finest scale a byte is full exactly when a key stands 126 slots from its home. */
  lemma FullIsFar(hash: nat, n: nat, s: Scale, i: nat)
    requires n > 0 && s.Valid() && s.inc == 2 && Home(hash, n) <= i
    ensures InfoAt(hash, n, s, i) + 2 > 255 <==> i - Home(hash, n) >= 126
  {
  }

  /** A table in order, at the finest scale, has a full byte exactly when its keys are a crowd. */
  lemma FullIsCrowd<K, V>(h: K -> nat, load: nat, n: nat, s: Scale, kv: seq<Slot<K, V>>, info: seq<nat>,
                          m: map<K, V>, pos: map<K, nat>, max: nat)
    requires Fit(h, load, n, s, kv, info, m, pos, max) && s.inc == 2
    ensures n > 0 && (!Bytes(info, s.inc) <==> Crowd(m.Keys, h, n))
  {
    if !Bytes(info, s.inc) {
      var i :| 0 <= i < |info| && info[i] + 2 > 255;
      assert i < |kv| && kv[i].Node?;
      FullIsFar(h(kv[i].key), n, s, i);
      FarIsCrowd(h, n, s, kv, info, m, pos, i);
    }
    if Crowd(m.Keys, h, n) {
      var i := CrowdIsFar(h, n, s, kv, info, m, pos);
      FullIsFar(h(kv[i].key), n, s, i);
      assert info[i] + 2 > 255;
    }
  }

  lemma FarNeedsFine(hash: nat, n: nat, s: Scale, i: nat)
    requires n > 0 && s.Valid() && InfoAt(hash, n, s, i) <= 255
    ensures i - Home(hash, n) >= 126 ==> s.inc == 2
  {
    var d := i - Home(hash, n) + 1;
    if d >= 0 && s.inc >= 4 {
      assert s.inc * d >= 4 * d;
    }
  }

  /** A crowd has driven the table to its finest scale and filled a byte. */
  lemma CrowdFills<K, V>(h: K -> nat, load: nat, n: nat, s: Scale, kv: seq<Slot<K, V>>, info: seq<nat>,
                         m: map<K, V>, pos: map<K, nat>, max: nat)
    requires Fit(h, load, n, s, kv, info, m, pos, max) && n > 0 && Crowd(m.Keys, h, n)
    ensures s.inc == 2 && max == 0
  {
    var i := CrowdIsFar(h, n, s, kv, info, m, pos);
    var hash := h(kv[i].key);
    assert info[i] == InfoAt(hash, n, s, i) <= 255;
    FarNeedsFine(hash, n, s, i);
    FullIsFar(hash, n, s, i);
    assert info[i] + 2 > 255;
  }

  // ---- Moving a table ----

  /** Moved in slot order, do the keys become a crowd in n home slots before the last one moves? */
  ghost predicate CrowdBeforeLast<K, V>(h: K -> nat, n: nat, kv: seq<Slot<K, V>>, m: map<K, V>, pos: map<K, nat>)
    requires n > 0
  {
    exists i :: 0 <= i < |kv| && kv[i].Node? && Crowd(Before(m, pos, i).Keys, h, n)
  }

  lemma BeforeLastIs<K, V>(h: K -> nat, n: nat, kv: seq<Slot<K, V>>, m: map<K, V>, pos: map<K, nat>)
    requires n > 0
    ensures CrowdBeforeLast(h, n, kv, m, pos) <==>
            exists i :: 0 <= i < |kv| && kv[i].Node? && Crowd(Before(m, pos, i).Keys, h, n)
  {
  }

  lemma BeforeLastAt<K, V>(h: K -> nat, n: nat, kv: seq<Slot<K, V>>, m: map<K, V>, pos: map<K, nat>, i: nat)
    requires n > 0 && i < |kv| && kv[i].Node? && Crowd(Before(m, pos, i).Keys, h, n)
    ensures CrowdBeforeLast(h, n, kv, m, pos)
  {
  }

  /** A crowd before the last key is a crowd of all keys. */
  lemma BeforeLastIsCrowd<K, V>(h: K -> nat, n: nat, kv: seq<Slot<K, V>>, m: map<K, V>, pos: map<K, nat>)
    requires n > 0 && CrowdBeforeLast(h, n, kv, m, pos)
    ensures Crowd(m.Keys, h, n)
  {
    var i :| 0 <= i < |kv| && kv[i].Node? && Crowd(Before(m, pos, i).Keys, h, n);
    CrowdGrows(Before(m, pos, i).Keys, m.Keys, h, n);
  }

  lemma SmallNoCrowd<K>(keys: set<K>, h: K -> nat, n: nat)
    requires n > 0 && |keys| <= 126
    ensures !Crowd(keys, h, n)
  {
    if Crowd(keys, h, n) {
      CrowdIsLarge(keys, h, n);
    }
  }

  /** The key that moves last: all the others have moved before it. */
  lemma LastToMove<K, V>(kv: seq<Slot<K, V>>, m: map<K, V>, pos: map<K, nat>) returns (i: nat)
    requires Holds(kv, m, pos) && m != map[]
    ensures i < |kv| && kv[i].Node? && kv[i].key in m && Before(m, pos, i).Keys == m.Keys - {kv[i].key}
  {
    var k := Furthest(m.Keys, pos);
    i := pos[k];
    forall x | x in m.Keys - {k} ensures pos[x] < i {
      assert kv[pos[x]] == Node(x, m[x]) && kv[pos[k]] == Node(k, m[k]);
    }
  }

  lemma Furthest<K>(ks: set<K>, pos: map<K, nat>) returns (k: K)
    requires ks != {} && ks <= pos.Keys
    ensures k in ks && forall x :: x in ks ==> pos[x] <= pos[k]
    decreases ks
  {
    k :| k in ks;
    if ks != {k} {
      var j := Furthest(ks - {k}, pos);
      if pos[j] > pos[k] {
        k := j;
      }
    }
  }

  /** Only the last key to move may complete a crowd. */
  lemma BeforeLastIsAllButOne<K, V>(h: K -> nat, n: nat, kv: seq<Slot<K, V>>, m: map<K, V>, pos: map<K, nat>) returns (k: K)
    requires n > 0 && Holds(kv, m, pos) && m != map[]
    ensures k in m && (CrowdBeforeLast(h, n, kv, m, pos) <==> Crowd(m.Keys - {k}, h, n))
  {
    var i := LastToMove(kv, m, pos);
    k := kv[i].key;
    if CrowdBeforeLast(h, n, kv, m, pos) {
      var j :| 0 <= j < |kv| && kv[j].Node? && Crowd(Before(m, pos, j).Keys, h, n);
      assert kv[j].key !in Before(m, pos, j);
      assert kv[j].key in m;
      assert k !in Before(m, pos, j) by {
        assert kv[j].key == k || kv[j].key in Before(m, pos, i);
      }
      CrowdGrows(Before(m, pos, j).Keys, m.Keys - {k}, h, n);
    }
  }

  // ---- When no room can be made ----

  /** A table as a value. */
  datatype Snapshot<K, V> = Snapshot(
    load: nat, room: nat, mask: nat, maxAllowed: nat, scale: Scale, kv: seq<Slot<K, V>>, m: map<K, V>, pos: map<K, nat>) {

    /** Are finer info bytes the way to make room? */
    ghost predicate Refinable() {
      mask != 0 && |m| < Allowed(mask + 1, load) && scale.inc > 2
    }

    /** Is the table so empty that only a bad hash function can have filled its info bytes? */
    ghost predicate Hopeless() {
      mask != 0 && !Refinable() && 2 * |m| < Allowed(mask + 1, load)
    }

    /** No room can be made. */
    ghost predicate CannotGrow(h: K -> nat) {
      if mask == 0 then InitialNumElements > room
      else
        !Refinable() && (Hopeless() || 2 * (mask + 1) > room || CrowdBeforeLast(h, 2 * (mask + 1), kv, m, pos))
    }

    /**
     * No new key can be admitted: the table is full, and making room fails. A doubling that
     * the last key to move turns into a crowd needs another one, which succeeds only when the
     * keys are no crowd there.
     */
    ghost predicate Stuck(h: K -> nat) {
      |m| >= maxAllowed &&
      if mask == 0 then (if Allowed(InitialNumElements, load) > 0 then InitialNumElements else 2 * InitialNumElements) > room
      else
        var n := mask + 1;
        !Refinable() && (CannotGrow(h) || (Crowd(m.Keys, h, 2 * n) &&
          (2 * |m| < Allowed(2 * n, load) || 4 * n > room || Crowd(m.Keys, h, 4 * n))))
    }

    /** No table size admits c elements, or memory does not, or moving into that size makes a crowd. */
    ghost predicate CannotReserve(h: K -> nat, c: nat) {
      var least := if c > |m| then c else |m|;
      !exists n: nat :: n > 0 && SizeFor(least, load, n) && n <= room && !CrowdBeforeLast(h, n, kv, m, pos)
    }
  }
}
